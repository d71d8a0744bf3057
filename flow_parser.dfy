/**
 * `parseEpub` of index.js: validate the path, then walk the book's flow in order
 * and keep each item that passes a chain of skip filters, copying its original
 * `order`. The file-system query and the EPUB library are inputs: whether the file
 * exists, the outcome of opening the book, and for each flow item the outcome of
 * fetching its markup.
 */
module FlowParser {
  import opened Outcomes
  import opened Text
  import opened Markup
  import opened Selection

  /** The `path` argument: a string, or some value that is not a string. */
  datatype PathArg = NotAString | Str(s: string)

  const MissingOrInvalidPath := "Missing or invalid path"
  const NotAnEpubPath := "Path must point to an .epub file"
  const FileNotFound := "File not found"
  const EpubSuffix := ".epub"

  /** An entry of `epub.flow`; `id` and `title` may be missing. */
  datatype FlowItem = FlowItem(id: Option<string>, title: Option<string>, order: int)

  /** What `getChapter` hands back: the markup (possibly missing), or an error. */
  datatype Fetch = Fetched(text: Option<string>) | FetchFailed(message: string)

  datatype FlowEntry = FlowEntry(item: FlowItem, fetch: Fetch)

  /** The opened book: its metadata, passed through untouched, and its flow. */
  datatype Book = Book(metadata: map<string, string>, flow: seq<FlowEntry>)

  datatype Chapter = Chapter(order: int, title: string, html: string)

  datatype Parsed = Parsed(metadata: map<string, string>, chapters: seq<Chapter>)

  const SplitPrefix := "index_split_"
  const MinTextLength := 300

  /**
   * The checks made before the book is opened, in their order: a missing,
   * non-string or empty path first, then the suffix, then existence.
   */
  function CheckPath(path: PathArg, fileExists: bool): (r: Result<string>)
    ensures r.Ok? <==> path.Str? && EndsWith(path.s, EpubSuffix) && fileExists
    ensures r.Ok? ==> r.value == path.s
    ensures r == Err(MissingOrInvalidPath) <==> path.NotAString? || path.s == ""
    ensures r == Err(NotAnEpubPath) <==> path.Str? && path.s != "" && !EndsWith(path.s, EpubSuffix)
    ensures r == Err(FileNotFound) <==> path.Str? && EndsWith(path.s, EpubSuffix) && !fileExists
  {
    if path.NotAString? || path.s == "" then Err(MissingOrInvalidPath)
    else if !EndsWith(path.s, EpubSuffix) then Err(NotAnEpubPath)
    else if !fileExists then Err(FileNotFound)
    else Ok(path.s)
  }

  /** `text || ""`: missing markup reads as the empty string. */
  function HtmlOf(text: Option<string>): string {
    if text.Some? then text.value else ""
  }

  predicate IsSplitId(id: Option<string>) {
    id.Some? && StartsWith(id.value, SplitPrefix)
  }

  /** `item.id?.toLowerCase() || ""`. */
  function LowerId(id: Option<string>): string {
    if id.Some? then ToLower(id.value) else ""
  }

  predicate HasSkipWord(id: Option<string>) {
    var l := LowerId(id);
    Contains(l, "toc") || Contains(l, "index") || Contains(l, "glossary") || Contains(l, "copyright")
  }

  /** An id is skipped when any of the four words occurs at some position of its lower-cased form. */
  lemma SkipWordAt(s: string, w: string, i: nat)
    requires w == "toc" || w == "index" || w == "glossary" || w == "copyright"
    requires i <= |s| && w <= ToLower(s)[i..]
    ensures HasSkipWord(Some(s))
  {
    ContainsSpec(ToLower(s), w);
  }

  /** The skip-word test ignores ASCII case: an id and its lower-cased form are skipped alike. */
  lemma SkipWordIgnoresCase(s: string)
    ensures HasSkipWord(Some(s)) <==> HasSkipWord(Some(ToLower(s)))
  {
    ToLowerSpec(s);
  }

  /** The length, in UTF-16 units, of the markup with its tags deleted and its ends trimmed. */
  function VisibleLength(html: string): nat {
    Utf16Length(Trim(JavaScript, StripTags(html)))
  }

  predicate IsBlankTitle(title: Option<string>) {
    title.None? || Trim(JavaScript, title.value) == []
  }

  /** An item with this markup survives every skip filter. */
  predicate Keeps(item: FlowItem, html: string) {
    Trim(JavaScript, html) != []
    && !IsSplitId(item.id)
    && !HasSkipWord(item.id)
    && VisibleLength(html) >= MinTextLength
    && !IsBlankTitle(item.title)
  }

  predicate KeptEntry(e: FlowEntry) {
    e.fetch.Fetched? && Keeps(e.item, HtmlOf(e.fetch.text))
  }

  /** The chapter `parseEpub` pushes for a kept entry: the item's order and title, and the markup as fetched. */
  function ChapterOf(e: FlowEntry): Chapter {
    Chapter(e.item.order, if e.item.title.Some? then e.item.title.value else "",
            if e.fetch.Fetched? then HtmlOf(e.fetch.text) else "")
  }

  /** The message of the first entry whose markup could not be fetched. */
  function FirstFailure(flow: seq<FlowEntry>): Option<string>
    decreases |flow|
  {
    if flow == [] then None
    else if flow[0].fetch.FetchFailed? then Some(flow[0].fetch.message)
    else FirstFailure(flow[1..])
  }

  /** The chapters of the kept entries, in flow order. */
  function KeptChapters(flow: seq<FlowEntry>): seq<Chapter> {
    var kept := Filter(flow, KeptEntry);
    seq(|kept|, k requires 0 <= k < |kept| => ChapterOf(kept[k]))
  }

  /** The outcome of the walk over the flow: one failed fetch rejects the whole parse. */
  function SelectFlow(flow: seq<FlowEntry>): Result<seq<Chapter>> {
    if FirstFailure(flow).Some? then Err(FirstFailure(flow).value) else Ok(KeptChapters(flow))
  }

  /** `FirstFailure` finds the first failed fetch, and nothing when every fetch succeeds. */
  lemma {:induction false} FirstFailureIndex(flow: seq<FlowEntry>) returns (i: nat)
    ensures i <= |flow|
    ensures forall j :: 0 <= j < i ==> flow[j].fetch.Fetched?
    ensures i < |flow| <==> FirstFailure(flow).Some?
    ensures i < |flow| ==> flow[i].fetch == FetchFailed(FirstFailure(flow).value)
    decreases |flow|
  {
    if flow == [] {
      i := 0;
    } else if flow[0].fetch.FetchFailed? {
      i := 0;
    } else {
      var k := FirstFailureIndex(flow[1..]);
      i := k + 1;
      assert forall j :: 1 <= j < i ==> flow[j] == flow[1..][j - 1];
    }
  }

  /**
   * The kept chapters are a subsequence of the flow: each comes from a distinct
   * entry that passes every filter, their entries increase along the list, each is
   * that entry's order, title and markup, and every entry that passes is there.
   */
  lemma KeptChaptersSubsequence(flow: seq<FlowEntry>) returns (idx: seq<nat>)
    ensures |idx| == |KeptChapters(flow)|
    ensures forall k :: 0 <= k < |idx| ==>
              idx[k] < |flow| && KeptEntry(flow[idx[k]]) && KeptChapters(flow)[k] == ChapterOf(flow[idx[k]])
    ensures forall k, l :: 0 <= k < l < |idx| ==> idx[k] < idx[l]
    ensures forall i :: 0 <= i < |flow| ==> (KeptEntry(flow[i]) <==> i in idx)
  {
    idx := FilterSubsequence(flow, KeptEntry);
  }

  /** Walking one more entry appends its chapter exactly when it is kept. */
  lemma KeptChaptersSnoc(flow: seq<FlowEntry>, i: nat)
    requires i < |flow|
    ensures KeptChapters(flow[..i + 1])
            == KeptChapters(flow[..i]) + if KeptEntry(flow[i]) then [ChapterOf(flow[i])] else []
  {
    assert flow[..i + 1][..i] == flow[..i];
  }

  /** Every chapter has non-blank markup of visible length at least 300 and a non-blank title. */
  lemma ChapterFiltersHold(flow: seq<FlowEntry>, k: nat)
    requires k < |KeptChapters(flow)|
    ensures Trim(JavaScript, KeptChapters(flow)[k].html) != []
    ensures VisibleLength(KeptChapters(flow)[k].html) >= MinTextLength
    ensures Trim(JavaScript, KeptChapters(flow)[k].title) != []
  {
    var idx := KeptChaptersSubsequence(flow);
  }

  /** An item whose markup is missing, empty or white space only is never kept. */
  lemma BlankMarkupSkipped(item: FlowItem, text: Option<string>)
    requires AllSpace(JavaScript, HtmlOf(text))
    ensures !KeptEntry(FlowEntry(item, Fetched(text)))
  {
    TrimBlank(JavaScript, HtmlOf(text));
  }

  /** The `index_split_` filter is subsumed by the `index` substring filter. */
  lemma IndexSplitSubsumed(id: Option<string>)
    requires IsSplitId(id)
    ensures HasSkipWord(id)
  {
    var l := LowerId(id);
    assert forall i :: 0 <= i < 5 ==> l[i] == id.value[i];
    assert "index" <= l;
  }

  /** The `for…of` loop of `parseEpub` over `epub.flow`. */
  method SelectChapters(flow: seq<FlowEntry>) returns (r: Result<seq<Chapter>>)
    ensures r == SelectFlow(flow)
  {
    var chapters: seq<Chapter> := [];
    var i := 0;
    while i < |flow|
      invariant 0 <= i <= |flow|
      invariant forall j :: 0 <= j < i ==> flow[j].fetch.Fetched?
      invariant chapters == KeptChapters(flow[..i])
    {
      var item := flow[i].item;
      var html: string;
      match flow[i].fetch {
        case FetchFailed(message) =>
          var at := FirstFailureIndex(flow);
          return Err(message);
        case Fetched(text) =>
          html := if text.Some? then text.value else "";
      }
      KeptChaptersSnoc(flow, i);
      i := i + 1;

      if Trim(JavaScript, html) == [] { continue; }
      if item.id.Some? && StartsWith(item.id.value, SplitPrefix) { continue; }
      var idLower := if item.id.Some? then ToLower(item.id.value) else "";
      if Contains(idLower, "toc") || Contains(idLower, "index")
        || Contains(idLower, "glossary") || Contains(idLower, "copyright")
      {
        continue;
      }
      var textLength := Utf16Length(Trim(JavaScript, StripTags(html)));
      if textLength < MinTextLength { continue; }
      if item.title.None? || Trim(JavaScript, item.title.value) == [] { continue; }

      chapters := chapters + [Chapter(item.order, item.title.value, html)];
    }
    assert flow[..i] == flow;
    var at := FirstFailureIndex(flow);
    r := Ok(chapters);
  }

  /**
   * `parseEpub`: the path checks, then the outcome of opening the book, then the
   * walk over its flow; the metadata is passed through unchanged.
   */
  method ParseEpub(path: PathArg, fileExists: bool, book: Result<Book>) returns (r: Result<Parsed>)
    ensures CheckPath(path, fileExists).Err? ==> r == Err(CheckPath(path, fileExists).message)
    ensures CheckPath(path, fileExists).Ok? && book.Err? ==> r == Err(book.message)
    ensures CheckPath(path, fileExists).Ok? && book.Ok? ==>
              r == match SelectFlow(book.value.flow)
                   case Ok(cs) => Ok(Parsed(book.value.metadata, cs))
                   case Err(m) => Err(m)
  {
    var checked := CheckPath(path, fileExists);
    if checked.Err? {
      return Err(checked.message);
    }
    if book.Err? {
      return Err(book.message);
    }
    var selected := SelectChapters(book.value.flow);
    match selected {
      case Err(m) => r := Err(m);
      case Ok(cs) => r := Ok(Parsed(book.value.metadata, cs));
    }
  }
}
