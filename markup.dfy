/**
 * The tag stripping of index.js: `html.replace(/<[^>]+>/g, "")`. The regular
 * expression is tried at each position from the left; a match is a `<`, at least
 * one character other than `>`, and the first `>` after them. A match is deleted
 * and the search resumes after it; where there is no match the character is kept.
 */
module Markup {
  import opened Text

  /** The pattern `<[^>]+>` matches at position `i` of `s`. */
  predicate TagAt(s: string, i: nat)
    requires i < |s|
  {
    s[i] == '<' && i + 1 < |s| && s[i + 1] != '>' && '>' in s[i + 2..]
  }

  /** Some position of `s` starts a match of `<[^>]+>`. */
  predicate HasTag(s: string) {
    exists i :: 0 <= i < |s| && TagAt(s, i)
  }

  /** The end (exclusive) of the match that starts at position 0: the run is `<`, non-`>` characters, `>`. */
  function TagEnd(s: string): (e: nat)
    requires |s| > 0 && TagAt(s, 0)
    ensures 3 <= e <= |s| && s[e - 1] == '>' && '>' !in s[1..e - 1]
  {
    var k := IndexOf(s[2..], '>');
    assert s[1..k + 2] == [s[1]] + s[2..][..k];
    k + 3
  }

  /** Deletes every match of `<[^>]+>`, left to right. */
  function StripTags(s: string): (r: string)
    ensures |r| <= |s|
    decreases |s|
  {
    if s == [] then []
    else if TagAt(s, 0) then StripTags(s[TagEnd(s)..])
    else [s[0]] + StripTags(s[1..])
  }

  /** Stripping only deletes characters: everything left was in the input. */
  lemma {:induction false} StripTagsChars(s: string, c: char)
    requires c in StripTags(s)
    ensures c in s
    decreases |s|
  {
    if TagAt(s, 0) {
      StripTagsChars(s[TagEnd(s)..], c);
    } else if c != s[0] {
      StripTagsChars(s[1..], c);
    }
  }

  /** Text before the first `<` goes through unchanged, and the rest is stripped on its own. */
  lemma {:induction false} StripTagsKeepsPlain(x: string, y: string)
    requires '<' !in x
    ensures StripTags(x + y) == x + StripTags(y)
    decreases |x|
  {
    if x != [] {
      assert (x + y)[0] == x[0] && (x + y)[1..] == x[1..] + y;
      assert !TagAt(x + y, 0);
      assert StripTags(x + y) == [x[0]] + StripTags(x[1..] + y);
      StripTagsKeepsPlain(x[1..], y);
      assert x == [x[0]] + x[1..];
    } else {
      assert x + y == y;
    }
  }

  /** A whole match `<w>` is deleted, and stripping resumes right after it. */
  lemma StripTagsDropsTag(w: string, y: string)
    requires |w| > 0 && '>' !in w
    ensures StripTags("<" + w + ">" + y) == StripTags(y)
  {
    var s := "<" + w + ">" + y;
    assert s[1] == w[0] && s[|w| + 1] == '>';
    assert s[1..|w| + 1] == w;
    assert s[2..][|w| - 1] == '>';
    assert TagAt(s, 0);
    assert s[|w| + 2..] == y;
  }

  /** A `<` directly followed by `>` starts no match: both characters are kept. */
  lemma StripTagsKeepsEmptyPair(y: string)
    ensures StripTags("<>" + y) == "<>" + StripTags(y)
  {
    var s := "<>" + y;
    assert !TagAt(s, 0);
    assert s[1..] == ">" + y;
    assert !TagAt(s[1..], 0);
    assert s[1..][1..] == y;
  }

  /** Shifting a string by one character shifts where the matches begin. */
  lemma TagAtShift(x: char, r: string, i: nat)
    requires 1 <= i < |r| + 1
    ensures TagAt([x] + r, i) == TagAt(r, i - 1)
  {
    var t := [x] + r;
    assert t[i] == r[i - 1];
    if i + 1 < |t| {
      assert t[i + 1] == r[i];
      assert t[i + 2..] == r[i + 1..];
    }
  }

  /** No match of `<[^>]+>` is left in the stripped text. */
  lemma {:induction false} StripTagsLeavesNoTag(s: string)
    ensures !HasTag(StripTags(s))
    decreases |s|
  {
    if s == [] {
    } else if TagAt(s, 0) {
      StripTagsLeavesNoTag(s[TagEnd(s)..]);
    } else {
      var r := StripTags(s[1..]);
      var t := [s[0]] + r;
      assert StripTags(s) == t;
      StripTagsLeavesNoTag(s[1..]);
      forall i | 1 <= i < |t| ensures !TagAt(t, i) {
        TagAtShift(s[0], r, i);
      }
      if s[0] == '<' && |s| > 1 {
        if s[1] == '>' {
          assert !TagAt(s[1..], 0);
          assert r == [s[1]] + StripTags(s[2..]);
          assert t[1] == '>';
        } else {
          assert '>' !in s[2..];
          assert s[1..] == [s[1]] + s[2..];
          assert '>' !in s[1..];
          if '>' in r {
            StripTagsChars(s[1..], '>');
          }
          assert '>' !in r;
          assert |t| > 2 ==> t[2..] == r[1..];
        }
      }
      assert !TagAt(t, 0);
    }
  }

  /** Text with no match of `<[^>]+>` goes through unchanged. */
  lemma {:induction false} StripTagsTagFree(s: string)
    requires !HasTag(s)
    ensures StripTags(s) == s
    decreases |s|
  {
    if s != [] {
      assert !TagAt(s, 0);
      assert s == [s[0]] + s[1..];
      forall i | 0 <= i < |s[1..]| ensures !TagAt(s[1..], i) {
        TagAtShift(s[0], s[1..], i + 1);
      }
      StripTagsTagFree(s[1..]);
    }
  }

  /** Stripping twice is stripping once. */
  lemma StripTagsIdempotent(s: string)
    ensures StripTags(StripTags(s)) == StripTags(s)
  {
    StripTagsLeavesNoTag(s);
    StripTagsTagFree(StripTags(s));
  }
}
