/**
 * `parse_epub` of app/main.py: read five Dublin Core metadata fields as "first
 * declared value, otherwise None", then walk the spine in order and keep every
 * document item whose paragraph text is not blank, numbering the kept chapters
 * densely from 0. The EPUB and HTML libraries are inputs: the manifest gives, for
 * each item id, whether the item is a document and the texts of its paragraph
 * elements.
 */
module SpineParser {
  import opened Outcomes
  import opened Text
  import opened Selection

  const ParagraphSeparator := "\n\n"

  /** A manifest item: its type, and the `get_text(" ", strip=True)` of each `<p>` element. */
  datatype Item = Item(isDocument: bool, paragraphs: seq<string>)

  /**
   * The declarations of each Dublin Core metadata name, in declaration order:
   * each one's element text, which is missing for an empty element.
   */
  type DublinCore = map<string, seq<Option<string>>>

  datatype Book = Book(metadata: DublinCore, spine: seq<string>, manifest: map<string, Item>)

  datatype Metadata = Metadata(
    title: Option<string>,
    creator: Option<string>,
    language: Option<string>,
    identifier: Option<string>,
    publisher: Option<string>)

  datatype Chapter = Chapter(order: nat, content: string)

  datatype Response = Response(metadata: Metadata, chapters: seq<Chapter>)

  /** `extract_text`: the paragraph texts joined by a blank line. */
  function ExtractText(item: Item): string {
    Join(ParagraphSeparator, item.paragraphs)
  }

  /** `(book.get_metadata("DC", name) or [[None]])[0][0]`. */
  function FirstDeclared(dc: DublinCore, name: string): (r: Option<string>)
    ensures r.None? <==> name !in dc || dc[name] == [] || dc[name][0].None?
    ensures r.Some? ==> name in dc && |dc[name]| > 0 && r == dc[name][0]
  {
    if name in dc && |dc[name]| > 0 then dc[name][0] else None
  }

  /** The metadata dictionary: each field from its own name, none defaulted to "". */
  function ReadMetadata(dc: DublinCore): (m: Metadata)
    ensures m.title.None? <==> "title" !in dc || dc["title"] == [] || dc["title"][0].None?
    ensures m.title.Some? ==> m.title == dc["title"][0]
    ensures m.creator.None? <==> "creator" !in dc || dc["creator"] == [] || dc["creator"][0].None?
    ensures m.creator.Some? ==> m.creator == dc["creator"][0]
    ensures m.language.None? <==> "language" !in dc || dc["language"] == [] || dc["language"][0].None?
    ensures m.language.Some? ==> m.language == dc["language"][0]
    ensures m.identifier.None? <==> "identifier" !in dc || dc["identifier"] == [] || dc["identifier"][0].None?
    ensures m.identifier.Some? ==> m.identifier == dc["identifier"][0]
    ensures m.publisher.None? <==> "publisher" !in dc || dc["publisher"] == [] || dc["publisher"][0].None?
    ensures m.publisher.Some? ==> m.publisher == dc["publisher"][0]
  {
    Metadata(
      FirstDeclared(dc, "title"),
      FirstDeclared(dc, "creator"),
      FirstDeclared(dc, "language"),
      FirstDeclared(dc, "identifier"),
      FirstDeclared(dc, "publisher"))
  }

  /** The spine entry `id` yields a chapter: it names a document item whose text is not blank. */
  predicate Contributes(id: string, manifest: map<string, Item>) {
    id in manifest && manifest[id].isDocument && Trim(Python, ExtractText(manifest[id])) != []
  }

  /** The text of the item that `id` names, or "" when it names none. */
  function TextOf(id: string, manifest: map<string, Item>): string {
    if id in manifest then ExtractText(manifest[id]) else ""
  }

  /** The chapters of the spine walk: the contributing entries in spine order, numbered by position. */
  function SpineChapters(spine: seq<string>, manifest: map<string, Item>): seq<Chapter> {
    var kept := Filter(spine, id => Contributes(id, manifest));
    seq(|kept|, k requires 0 <= k < |kept| => Chapter(k, TextOf(kept[k], manifest)))
  }

  /** Walking one more spine entry appends a chapter numbered by the count so far exactly when it contributes. */
  lemma SpineChaptersSnoc(spine: seq<string>, manifest: map<string, Item>, i: nat)
    requires i < |spine|
    ensures var before := SpineChapters(spine[..i], manifest);
            SpineChapters(spine[..i + 1], manifest)
            == before + if Contributes(spine[i], manifest)
                        then [Chapter(|before|, ExtractText(manifest[spine[i]]))] else []
  {
    assert spine[..i + 1][..i] == spine[..i];
  }

  /** The orders are exactly 0, 1, ..., n - 1 along the list. */
  lemma SpineChaptersDense(spine: seq<string>, manifest: map<string, Item>)
    ensures forall k :: 0 <= k < |SpineChapters(spine, manifest)| ==> SpineChapters(spine, manifest)[k].order == k
  {
  }

  /**
   * The chapters follow the spine: each comes from a distinct spine position that
   * contributes, the positions increase along the list, the content is that
   * item's text, and every contributing position is there.
   */
  lemma SpineChaptersSubsequence(spine: seq<string>, manifest: map<string, Item>)
    returns (idx: seq<nat>)
    ensures |idx| == |SpineChapters(spine, manifest)|
    ensures forall k :: 0 <= k < |idx| ==>
              idx[k] < |spine| && Contributes(spine[idx[k]], manifest)
              && SpineChapters(spine, manifest)[k].content == ExtractText(manifest[spine[idx[k]]])
    ensures forall k, l :: 0 <= k < l < |idx| ==> idx[k] < idx[l]
    ensures forall i :: 0 <= i < |spine| ==> (Contributes(spine[i], manifest) <==> i in idx)
  {
    idx := FilterSubsequence(spine, id => Contributes(id, manifest));
  }

  /** There are no more chapters than spine entries. */
  lemma SpineChaptersBound(spine: seq<string>, manifest: map<string, Item>)
    ensures |SpineChapters(spine, manifest)| <= |spine|
  {
    FilterShorter(spine, id => Contributes(id, manifest));
  }

  /** Every chapter's content is non-blank once stripped. */
  lemma ContentNotBlank(spine: seq<string>, manifest: map<string, Item>, k: nat)
    requires k < |SpineChapters(spine, manifest)|
    ensures Trim(Python, SpineChapters(spine, manifest)[k].content) != []
  {
    var idx := SpineChaptersSubsequence(spine, manifest);
  }

  /** A spine id with no manifest item, or with an item that is not a document, adds no chapter. */
  lemma UnresolvedSkipped(spine: seq<string>, manifest: map<string, Item>, i: nat)
    requires i < |spine| && (spine[i] !in manifest || !manifest[spine[i]].isDocument)
    ensures SpineChapters(spine[..i + 1], manifest) == SpineChapters(spine[..i], manifest)
  {
    SpineChaptersSnoc(spine, manifest, i);
  }

  /** A book in which no spine entry contributes yields an empty chapter list, not an error. */
  lemma NothingContributes(spine: seq<string>, manifest: map<string, Item>)
    requires forall i :: 0 <= i < |spine| ==> !Contributes(spine[i], manifest)
    ensures SpineChapters(spine, manifest) == []
  {
    FilterNone(spine, id => Contributes(id, manifest));
  }

  /**
   * A document is skipped for blank text exactly when each of its paragraphs is
   * white space only; in particular one without paragraphs gives "" and is skipped.
   */
  lemma ExtractTextBlank(item: Item)
    ensures Trim(Python, ExtractText(item)) == [] <==>
            forall k :: 0 <= k < |item.paragraphs| ==> AllSpace(Python, item.paragraphs[k])
  {
    TrimBlank(Python, ExtractText(item));
    assert IsSpace(Python, '\n');
    JoinAllSpace(Python, ParagraphSeparator, item.paragraphs);
  }

  /** No paragraphs give ""; one paragraph is returned unchanged; each further one adds a blank line and itself. */
  lemma ExtractTextShape(paragraphs: seq<string>, p: string)
    ensures ExtractText(Item(true, [])) == ""
    ensures ExtractText(Item(true, [p])) == p
    ensures paragraphs != [] ==>
              ExtractText(Item(true, paragraphs + [p])) == ExtractText(Item(true, paragraphs)) + "\n\n" + p
  {
    if paragraphs != [] {
      JoinSnoc(ParagraphSeparator, paragraphs, p);
    }
  }

  /** Splitting the text on blank lines gives back the paragraphs when none of them contains a newline. */
  lemma ExtractTextSplit(item: Item)
    requires item.paragraphs != []
    requires forall k :: 0 <= k < |item.paragraphs| ==> '\n' !in item.paragraphs[k]
    ensures Split(ExtractText(item), ParagraphSeparator) == item.paragraphs
  {
    SplitJoin(ParagraphSeparator, item.paragraphs);
  }

  /** The loop over `book.spine` with its `order` counter. */
  method WalkSpine(spine: seq<string>, manifest: map<string, Item>) returns (chapters: seq<Chapter>)
    ensures chapters == SpineChapters(spine, manifest)
  {
    chapters := [];
    var order: nat := 0;
    for i := 0 to |spine|
      invariant order == |chapters|
      invariant chapters == SpineChapters(spine[..i], manifest)
    {
      SpineChaptersSnoc(spine, manifest, i);
      var itemId := spine[i];
      if itemId !in manifest { continue; }
      var item := manifest[itemId];
      if !item.isDocument { continue; }
      var text := ExtractText(item);
      if Trim(Python, text) == [] { continue; }
      chapters := chapters + [Chapter(order, text)];
      order := order + 1;
    }
    assert spine[..|spine|] == spine;
  }

  /** `parse_epub` after the book has been read: the metadata and the chapters. */
  method ParseEpub(book: Book) returns (r: Response)
    ensures r.metadata == ReadMetadata(book.metadata)
    ensures r.chapters == SpineChapters(book.spine, book.manifest)
    ensures forall k :: 0 <= k < |r.chapters| ==> r.chapters[k].order == k
  {
    var metadata := ReadMetadata(book.metadata);
    var chapters := WalkSpine(book.spine, book.manifest);
    SpineChaptersDense(book.spine, book.manifest);
    r := Response(metadata, chapters);
  }
}
