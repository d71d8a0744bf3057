# epub-service chapter selection, modelled in Dafny

The service turns an EPUB book into its metadata plus an ordered list of chapters.
It has two implementations, and this project models the chapter-selection core of both:

- `parseEpub` in `index.js` (Node). It validates the path it is given. It then walks the book's
  *flow* in order and keeps an item only when the item passes a chain of skip filters:
  - the markup is not blank;
  - the id does not start with `index_split_`;
  - the lower-cased id contains none of `toc`, `index`, `glossary`, `copyright`;
  - the markup with its tags deleted and its ends trimmed is at least 300 UTF-16 units long;
  - the title is not blank.

  A kept chapter keeps the item's **original** `order`.
- `parse_epub` in `app/main.py` (Python). It reads five Dublin Core metadata fields as "first declared
  value, otherwise None". It then walks the book's *spine* in order and keeps each document item whose
  paragraph text is not blank. Kept chapters are numbered **densely** 0, 1, 2, …

The two renumbering policies are the main difference between the implementations. `FlowParser.KeptChaptersSubsequence` shows that index.js copies each item's
`order`. `SpineParser.SpineChaptersDense` shows that app/main.py's orders are exactly the positions in
the kept list.

Modules (one file each):

- `Outcomes` (`outcomes.dfy`): `Option` and a `Result` whose error is a message string.
- `Text` (`text.dfy`): white space as each runtime defines it. JavaScript's `trim` also removes U+FEFF.
  Python's `strip` also removes U+001C–U+001F and U+0085. The file also has trimming, ASCII lower-casing,
  prefix, suffix and substring tests, the UTF-16 length of a JavaScript string, and Python's `str.join`
  and `str.split`.
- `Selection` (`selection.dfy`): keeping the elements of a sequence that pass a test, in order. Both parsers' chapter
  selections are defined with it.
- `Markup` (`markup.dfy`): `html.replace(/<[^>]+>/g, "")`. A match is a `<`, at least one non-`>`, and
  the first `>` after them; after each match, or at each position with no match, the scan moves on to the right.
- `FlowParser` (`flow_parser.dfy`): index.js. Its inputs are whether the file exists, the outcome of
  opening the book, and each flow item paired with the outcome of fetching its markup.
  `SelectChapters` is the `for…of` loop with its `continue` chain. It is proved equal to the
  specification function `SelectFlow`, and the lemmas are about `SelectFlow`.
- `SpineParser` (`spine_parser.dfy`): app/main.py. The spine is a sequence of ids. The manifest is a map
  from id to an item: whether it is a document, and the text of each `<p>` element. The metadata is a
  map from Dublin Core name to its declarations, each the element's text or None for an empty element. `WalkSpine` is the loop with the mutable `order`
  counter. It is proved equal to the specification function `SpineChapters`.

Two behaviours of the code are worth stating plainly:

- In index.js, one chapter whose markup cannot be fetched rejects the whole parse. The model returns
  `Err` with that fetch's message.
- The Python chapters carry only `order` and `content`.

## Model

| member | source | states |
|---|---|---|
| `FlowParser.CheckPath` | index.js:7-17 | A path is accepted exactly when it is a string ending in `.epub` and the file exists. A missing, non-string or empty path gets "Missing or invalid path", whatever its suffix or the file system says. A non-empty path without the suffix gets "Path must point to an .epub file". Only then is existence checked ("File not found"). |
| `FlowParser.ParseEpub` | index.js:6-70 | A path error is returned unchanged. So is an error from opening the book. Otherwise the result is the flow walk's outcome, with the book's metadata passed through untouched. |
| `FlowParser.HtmlOf` | index.js:33 | `text || ""`: the fetched markup, or the empty string when it is missing. Its property is `FlowParser.BlankMarkupSkipped`. |
| `FlowParser.LowerId` | index.js:41 | `item.id?.toLowerCase() || ""`: the lower-cased id, or the empty string when the id is missing. |
| `FlowParser.HasSkipWord` | index.js:41-49 | The lower-cased id contains `toc`, `index`, `glossary` or `copyright`. Its properties are `FlowParser.SkipWordAt` and `FlowParser.SkipWordIgnoresCase`. |
| `FlowParser.SkipWordAt` | index.js:41-49 | An id is skipped when one of the four words begins at some position of its lower-cased form. |
| `FlowParser.SkipWordIgnoresCase` | index.js:41-49 | An id and its lower-cased form are skipped alike: the skip-word test ignores ASCII case. |
| `FlowParser.Keeps` | index.js:37-57 | The conjunction of the five skip tests, in source order: non-blank markup, no `index_split_` prefix, no skip word, a visible length of at least 300, a non-blank title. |
| `FlowParser.KeptEntry` | index.js:29-57 | An entry is kept when its markup was fetched and passes `FlowParser.Keeps`. Its properties are `FlowParser.KeptChaptersSubsequence` and `FlowParser.ChapterFiltersHold`. |
| `FlowParser.IsSplitId` | index.js:39 | `item.id?.startsWith("index_split_")`: the id is present and begins with `index_split_`. `FlowParser.IndexSplitSubsumed` shows the test never decides an outcome on its own. |
| `FlowParser.VisibleLength` | index.js:51-54 | The UTF-16 `length` of the markup after its `<[^>]+>` matches are deleted and its ends are trimmed. Its properties come from `Markup.StripTags…`, `Text.TrimPiece` and `Text.Utf16Length`. |
| `FlowParser.IsBlankTitle` | index.js:57 | `!item.title` or `!item.title.trim()`: the title is missing, or white space only (`Text.TrimBlank`). |
| `FlowParser.ChapterOf` | index.js:59-63 | The pushed chapter: the item's own `order` and `title`, and the markup as fetched. `FlowParser.KeptChaptersSubsequence` uses it to show that orders are copied. |
| `FlowParser.FirstFailure` | index.js:30-35 | The message of the first entry whose fetch failed, or none. Its property is `FlowParser.FirstFailureIndex`. |
| `FlowParser.KeptChapters` | index.js:29-63 | The chapters of the kept entries in flow order, built from `Selection.Filter`. Its properties are `FlowParser.KeptChaptersSubsequence` and `FlowParser.KeptChaptersSnoc`. |
| `FlowParser.SelectFlow` | index.js:29-64 | The outcome of the walk: the first failed fetch's message, otherwise the kept chapters. `FlowParser.SelectChapters` is proved equal to it. |
| `FlowParser.SelectChapters` | index.js:27-64 | The loop, with its `continue` chain, computes `SelectFlow`. The first failed fetch rejects the parse with that fetch's message. Otherwise the result is the kept chapters. |
| `FlowParser.FirstFailureIndex` | index.js:30-35 | The message that rejects the parse is that of the first entry whose fetch failed, and every entry before it was fetched. If no fetch failed there is no rejection. |
| `Selection.FilterSubsequence` | index.js:29-63 | Keeping the items that pass a test picks a subsequence. The positions taken increase, each kept element is the element at its position, and a position is taken exactly when its element passes. |
| `Selection.Filter` | index.js:29-63 | The elements that pass a test, in their order. Both parsers' selections are built on it; its properties are the `Selection.Filter…` lemmas. |
| `FlowParser.KeptChaptersSnoc` | index.js:29-63 | Walking one more flow entry appends that entry's chapter when it passes every filter, and otherwise changes nothing. |
| `FlowParser.KeptChaptersSubsequence` | index.js:29-63 | The chapters are a subsequence of the flow: each chapter comes from a distinct entry, and the entries increase along the list. Each chapter's order and title are its entry's, copied and not renumbered. Its html is the fetched markup unchanged. An entry is used if and only if it passes every filter, so the selection is both sound and complete. |
| `FlowParser.ChapterFiltersHold` | index.js:37-57 | Every chapter's html is not blank. With its `<…>` runs deleted and its ends trimmed, it is at least 300 UTF-16 units long. Its title is not blank. |
| `FlowParser.BlankMarkupSkipped` | index.js:33-37 | An item whose markup is missing, empty or white space only is never kept. |
| `FlowParser.IndexSplitSubsumed` | index.js:39-49 | Any id that starts with `index_split_` is also caught by the `index` substring filter. |
| `Markup.TagEnd` | index.js:52 | The run deleted at a match is a `<`, at least one character other than `>`, and the first `>` after them. |
| `Markup.TagAt` | index.js:52 | `<[^>]+>` matches at a position: a `<`, then a character other than `>`, then a `>` somewhere after it. |
| `Markup.StripTags` | index.js:51-52 | Tag stripping never lengthens the text. |
| `Markup.StripTagsChars` | index.js:52 | Every character of the stripped text occurs in the input. |
| `Markup.StripTagsKeepsPlain` | index.js:52 | Text before the first `<` is kept as it is, and what follows it is stripped on its own. |
| `Markup.StripTagsKeepsEmptyPair` | index.js:52 | A `<` directly followed by `>` starts no match, so both characters are kept and stripping goes on after them. Together with `Markup.StripTagsKeepsPlain`, `Markup.StripTagsDropsTag` and `Markup.StripTagsTagFree` (a `<` with no `>` after it), this fixes the result on every input, so text outside a match survives. |
| `Markup.StripTagsDropsTag` | index.js:52 | A whole match `<w>` (with `w` non-empty and free of `>`) is deleted, and stripping resumes right after its `>`. |
| `Markup.StripTagsLeavesNoTag` | index.js:51-52 | No match of `<[^>]+>` is left in the stripped text. |
| `Markup.StripTagsTagFree` | index.js:51-52 | Text with no match of `<[^>]+>` goes through unchanged. |
| `Markup.StripTagsIdempotent` | index.js:51-52 | Stripping twice gives the same text as stripping once. |
| `Text.IsSpace` | index.js:53 | The runtime's white-space set: ECMAScript WhiteSpace and LineTerminator, which includes U+FEFF, for `trim()` (also at index.js:37 and index.js:57); `str.isspace`, which includes U+001C–U+001F and U+0085, for `strip()` at app/main.py:53. |
| `Text.SkipSpaceSpec` | index.js:53 | Trimming the front stops at the first character that is not white space; everything before it is white space. |
| `Text.SkipSpaceBackSpec` | index.js:53 | Trimming the back stops after the last character that is not white space; everything after it is white space. |
| `Text.TrimBlank` | index.js:37 | `trim()` / `strip()` returns nothing exactly when the text is all white space. |
| `Text.TrimPiece` | index.js:53 | What `trim()` / `strip()` returns is a piece of the input with only white space before and after it, and it neither starts nor ends with white space. |
| `Text.Trim` | index.js:37 | `trim()` / `str.strip()` under the runtime's white-space set. It is also used at index.js:53, index.js:57 and app/main.py:53. Its properties are `Text.TrimBlank` and `Text.TrimPiece`. |
| `Text.LowerChar` | index.js:41 | An ASCII upper-case letter maps to its lower-case letter; every other character is unchanged. |
| `Text.ToLower` | index.js:41 | `toLowerCase` applied character by character with `Text.LowerChar`. Its properties are in `Text.ToLowerSpec`. |
| `Text.ToLowerSpec` | index.js:41 | Lower-casing keeps the length, leaves no upper-case ASCII letter, keeps every other character, and lower-casing twice equals lower-casing once. |
| `Text.Contains` | index.js:43-46 | `includes`: the search tries `w` as a prefix at each position. Its property is `Text.ContainsSpec`. |
| `Text.ContainsSpec` | index.js:43-46 | `s` contains `w` exactly when `w` begins at some position of `s`, including the end for an empty `w`. |
| `Text.StartsWith` | index.js:39 | `startsWith`: the prefix is an initial piece of the string. |
| `Text.EndsWith` | index.js:11 | `endsWith`: the suffix is the final piece of the string. |
| `Text.FindLeftmost` | app/main.py:18 | The separator search behind `Text.Split` finds the leftmost occurrence, and finds none only when there is none. The source never searches; this serves only to state that the join at this line can be undone. |
| `Text.Find` | app/main.py:18 | The position of an occurrence of the separator, when there is one. It is not called by the source; it serves only to state the round trip of `join`. |
| `Text.Split` | app/main.py:18 | Python's `str.split` for a non-empty separator; it always gives at least one piece. The source never splits; it serves only to state the round trip of `join` (`Text.SplitJoin`). |
| `Text.Utf16Length` | index.js:51-54 | A string's JavaScript `length` is between its number of code points and twice that. |
| `Text.Utf16LengthBmp` | index.js:54 | For text with no code point above U+FFFF, the `length` is the number of characters. |
| `Text.Join` | app/main.py:18 | `sep.join(parts)`. Its properties are `Text.JoinSnoc`, `Text.JoinAllSpace` and `Text.SplitJoin`. |
| `Text.JoinAllSpace` | app/main.py:18 | With a white-space separator, the joined text is all white space exactly when every part is. |
| `Text.JoinSnoc` | app/main.py:18 | Joining one more part appends the separator and that part. |
| `Text.SplitJoin` | app/main.py:18 | The join at this line can be undone: splitting the joined text on the separator gives back the parts, provided there is at least one part and none contains the separator's first character. |
| `SpineParser.ExtractText` | app/main.py:10-18 | `extract_text`: the paragraph texts joined by a blank line. Its properties are `SpineParser.ExtractTextShape`, `SpineParser.ExtractTextSplit` and `SpineParser.ExtractTextBlank`. |
| `SpineParser.ExtractTextShape` | app/main.py:13-18 | No paragraphs give `""`. A single paragraph is returned unchanged. Each further paragraph adds `"\n\n"` and itself. |
| `SpineParser.ExtractTextSplit` | app/main.py:13-18 | If no paragraph contains a newline, splitting `extract_text`'s result on `"\n\n"` recovers the paragraphs. |
| `SpineParser.ExtractTextBlank` | app/main.py:13-18 | An item's text is blank after `strip()` exactly when each of its paragraphs is white space only. |
| `SpineParser.FirstDeclared` | app/main.py:34 | A field is None exactly when its name has no declaration or its first declaration has no text (an empty element). Otherwise it is the text of the first declaration. |
| `SpineParser.ReadMetadata` | app/main.py:33-39 | Each of title, creator, language, identifier and publisher is the first value declared under its own Dublin Core name, or None when that name has no declaration or its first one is empty. No field gets an empty-string default. |
| `SpineParser.WalkSpine` | app/main.py:41-61 | The loop with its `order` counter computes `SpineChapters`. |
| `SpineParser.ParseEpub` | app/main.py:31-66 | The response is the metadata dictionary plus the spine chapters, whose orders are 0, 1, …, n-1 in list order. |
| `SpineParser.Contributes` | app/main.py:45-54 | A spine id yields a chapter when it names a manifest item that is a document and whose extracted text is not blank after `strip()`. |
| `SpineParser.SpineChapters` | app/main.py:41-61 | The contributing spine entries in spine order, built from `Selection.Filter`, each numbered by its position in the list. Its properties are the lemmas below. |
| `SpineParser.SpineChaptersSnoc` | app/main.py:44-61 | Walking one more spine entry appends a chapter numbered by the count so far exactly when the entry contributes, and otherwise changes nothing. |
| `Selection.FilterShorter` | app/main.py:41-61 | Keeping the passing elements never gives more elements than the sequence has. |
| `Selection.FilterNone` | app/main.py:41-61 | When no element passes the test, nothing is kept. |
| `SpineParser.SpineChaptersDense` | app/main.py:42-61 | The chapters' orders are exactly 0, 1, …, n-1 in list order, so skipped spine items leave no gaps. This holds by construction, because `SpineParser.SpineChapters` numbers chapters by position. That the code's counter does the same rests on `SpineParser.WalkSpine`: its invariant that `order` equals the number of chapters so far, and its proved equality with `SpineParser.SpineChapters`. |
| `SpineParser.SpineChaptersSubsequence` | app/main.py:44-61 | Each chapter comes from a distinct spine position, and the positions increase along the list. A chapter's content is that item's extracted text. A position is used if and only if its id names a document item with non-blank text. |
| `SpineParser.SpineChaptersBound` | app/main.py:41-61 | There are at most as many chapters as spine entries. |
| `SpineParser.ContentNotBlank` | app/main.py:52-54 | Every chapter's content is non-blank after `strip()`. |
| `SpineParser.UnresolvedSkipped` | app/main.py:45-50 | At any position of any spine, an id with no manifest item, or whose item is not a document, adds no chapter: the walk up to and including it gives the chapters of the walk before it. |
| `SpineParser.NothingContributes` | app/main.py:41-66 | A book with no contributing spine entry yields an empty chapter list, not an error. |

## Left out

- The Express server, the command-line entry point, `console` and `process.exit` (index.js:72-115) are I/O plumbing.
- debug-server.js is not part of this model. Its only logic repeats the path checks at index.js:7-17.
- `fs.existsSync` (index.js:15) is a file-system query. It is the boolean input `fileExists`.
- The `epub` library (index.js:19-35) is a foreign, asynchronous library: constructing it, `parse()`, the Promise wrapping and `getChapter`. Its outcomes are inputs: opening the book is a `Result<Book>`, and each flow entry carries what `getChapter` delivered. The book's metadata is an opaque map passed through.
- JavaScript values of unexpected types are not modelled. The path is either a string or "not a string". `item.id` and `item.title` are strings or missing; `item.order` is an integer.
- `FlowParser.LowerId`: `toLowerCase` is modelled for ASCII letters only. This never changes a skip decision. All four skip words are ASCII. Besides A–Z, only U+0130 and U+212A lower-case to ASCII letters: U+0130 gives `i` followed by U+0307, and U+212A gives `k`. Neither can complete `toc`, `index`, `glossary` or `copyright`.
- JavaScript strings are UTF-16. Dafny characters are Unicode scalar values, so lone surrogates cannot be represented. `Text.Utf16Length` gives the UTF-16 `length`.
- The FastAPI endpoint, the upload read, the temporary file and its deletion in `finally` (app/main.py:21-31, 68-70) are file I/O and resource lifecycle.
- `ebooklib.read_epub` and BeautifulSoup (app/main.py:11-16, 31, 45) are foreign libraries, so the model takes their results as inputs. The `get_text(" ", strip=True)` result of each `<p>` element is given, and so is whether an item is a document. An exception these libraries raise is not modelled; it would propagate out of `parse_epub`.
- The attributes that `get_metadata` returns beside each declaration's text are not modelled: app/main.py:34-38 reads only the text of the first declaration.
- The spine's `linear` flag is not modelled: the loop at app/main.py:44 ignores it.
