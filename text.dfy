/**
 * Character-level operations that both parsers use: white space as each runtime
 * defines it, trimming, ASCII case mapping, prefix, suffix and substring tests,
 * the UTF-16 length of JavaScript strings, and Python's `str.join` with its inverse
 * `str.split`.
 */
module Text {
  import opened Outcomes

  /** The two runtimes of the service; they disagree on what counts as white space. */
  datatype Runtime = JavaScript | Python

  /** Code points that both `String.prototype.trim` and `str.strip` remove. */
  predicate CommonSpace(n: int) {
    (9 <= n <= 13) || n == 0x20 || n == 0xA0 || n == 0x1680 || (0x2000 <= n <= 0x200A)
    || n == 0x2028 || n == 0x2029 || n == 0x202F || n == 0x205F || n == 0x3000
  }

  /**
   * JavaScript: the WhiteSpace and LineTerminator code points of ECMAScript, which
   * include the byte order mark U+FEFF. Python: the code points for which
   * `str.isspace` holds, which include U+001C..U+001F and U+0085.
   */
  predicate IsSpace(rt: Runtime, c: char) {
    var n := c as int;
    match rt
    case JavaScript => CommonSpace(n) || n == 0xFEFF
    case Python => CommonSpace(n) || (0x1C <= n <= 0x1F) || n == 0x85
  }

  predicate AllSpace(rt: Runtime, s: string) {
    forall i :: 0 <= i < |s| ==> IsSpace(rt, s[i])
  }

  lemma AllSpaceConcat(rt: Runtime, a: string, b: string)
    ensures AllSpace(rt, a + b) <==> AllSpace(rt, a) && AllSpace(rt, b)
  {
    if AllSpace(rt, a + b) {
      forall i | 0 <= i < |a| ensures IsSpace(rt, a[i]) {
        assert a[i] == (a + b)[i];
      }
      forall i | 0 <= i < |b| ensures IsSpace(rt, b[i]) {
        assert b[i] == (a + b)[|a| + i];
      }
    }
    if AllSpace(rt, a) && AllSpace(rt, b) {
      forall i | 0 <= i < |a + b| ensures IsSpace(rt, (a + b)[i]) {
        if i < |a| { assert (a + b)[i] == a[i]; } else { assert (a + b)[i] == b[i - |a|]; }
      }
    }
  }

  /** The first position at or after `i` that is not white space (or `|s|`). */
  function SkipSpace(rt: Runtime, s: string, i: nat): (k: nat)
    requires i <= |s|
    ensures i <= k <= |s|
    decreases |s| - i
  {
    if i < |s| && IsSpace(rt, s[i]) then SkipSpace(rt, s, i + 1) else i
  }

  /** The end of `s[..j]` once its trailing white space is dropped. */
  function SkipSpaceBack(rt: Runtime, s: string, j: nat): (k: nat)
    requires j <= |s|
    ensures k <= j
  {
    if j > 0 && IsSpace(rt, s[j - 1]) then SkipSpaceBack(rt, s, j - 1) else j
  }

  /**
   * `String.prototype.trim` (JavaScript) or `str.strip()` (Python). Its
   * properties are the lemmas below; they are kept out of its contract so that
   * predicates built on it stay cheap to reason about.
   */
  function Trim(rt: Runtime, s: string): string {
    var a := SkipSpace(rt, s, 0);
    var b := SkipSpaceBack(rt, s, |s|);
    if a < b then s[a..b] else []
  }

  lemma {:induction false} SkipSpaceSpec(rt: Runtime, s: string, i: nat)
    requires i <= |s|
    ensures var k := SkipSpace(rt, s, i);
      i <= k <= |s| && (forall m :: i <= m < k ==> IsSpace(rt, s[m])) && (k < |s| ==> !IsSpace(rt, s[k]))
    decreases |s| - i
  {
    if i < |s| && IsSpace(rt, s[i]) {
      SkipSpaceSpec(rt, s, i + 1);
    }
  }

  lemma {:induction false} SkipSpaceBackSpec(rt: Runtime, s: string, j: nat)
    requires j <= |s|
    ensures var k := SkipSpaceBack(rt, s, j);
      k <= j && (forall m :: k <= m < j ==> IsSpace(rt, s[m])) && (k > 0 ==> !IsSpace(rt, s[k - 1]))
  {
    if j > 0 && IsSpace(rt, s[j - 1]) {
      SkipSpaceBackSpec(rt, s, j - 1);
    }
  }

  /** Trimming leaves nothing exactly when the text is all white space. */
  lemma TrimBlank(rt: Runtime, s: string)
    ensures Trim(rt, s) == [] <==> AllSpace(rt, s)
  {
    var a := SkipSpace(rt, s, 0);
    var b := SkipSpaceBack(rt, s, |s|);
    SkipSpaceSpec(rt, s, 0);
    SkipSpaceBackSpec(rt, s, |s|);
    if a < b {
      assert !IsSpace(rt, s[a]);
    } else {
      assert a == |s|;
      assert forall m :: 0 <= m < |s| ==> IsSpace(rt, s[m]);
    }
  }

  /**
   * What trimming leaves is a piece `s[a..a + |r|]` with only white space before
   * and after it, and it neither starts nor ends with white space.
   */
  lemma TrimPiece(rt: Runtime, s: string) returns (a: nat)
    ensures var r := Trim(rt, s);
      a + |r| <= |s| && s[a..a + |r|] == r && AllSpace(rt, s[..a]) && AllSpace(rt, s[a + |r|..])
      && (r != [] ==> !IsSpace(rt, r[0]) && !IsSpace(rt, r[|r| - 1]))
  {
    a := SkipSpace(rt, s, 0);
    var b := SkipSpaceBack(rt, s, |s|);
    SkipSpaceSpec(rt, s, 0);
    SkipSpaceBackSpec(rt, s, |s|);
    if a < b {
      assert s[a..b][0] == s[a] && s[a..b][b - a - 1] == s[b - 1];
      assert s[a..a + (b - a)] == s[a..b];
      assert AllSpace(rt, s[..a]) by {
        forall m | 0 <= m < a ensures IsSpace(rt, s[..a][m]) { assert s[..a][m] == s[m]; }
      }
      assert AllSpace(rt, s[b..]) by {
        forall m | 0 <= m < |s| - b ensures IsSpace(rt, s[b..][m]) { assert s[b..][m] == s[b + m]; }
      }
    } else {
      a := 0;
      TrimBlank(rt, s);
      assert s[..0] == [] && s[0..] == s;
    }
  }

  /** ASCII upper-case letters become lower case; everything else is unchanged. */
  function LowerChar(c: char): char {
    if 'A' <= c <= 'Z' then (c as int - 'A' as int + 'a' as int) as char else c
  }

  /** `String.prototype.toLowerCase` on ASCII letters. */
  function ToLower(s: string): string {
    seq(|s|, i requires 0 <= i < |s| => LowerChar(s[i]))
  }

  /**
   * Lower-casing keeps the length, leaves no upper-case ASCII letter, keeps every
   * other character, and lower-casing again changes nothing.
   */
  lemma ToLowerSpec(s: string)
    ensures |ToLower(s)| == |s|
    ensures forall i :: 0 <= i < |s| ==> !('A' <= ToLower(s)[i] <= 'Z')
    ensures forall i :: 0 <= i < |s| && !('A' <= s[i] <= 'Z') ==> ToLower(s)[i] == s[i]
    ensures ToLower(ToLower(s)) == ToLower(s)
  {
  }

  predicate StartsWith(s: string, prefix: string) {
    prefix <= s
  }

  predicate EndsWith(s: string, suffix: string) {
    |suffix| <= |s| && s[|s| - |suffix|..] == suffix
  }

  /** `s` has `w` as a contiguous piece (`String.prototype.includes`). */
  predicate Contains(s: string, w: string)
    decreases |s|
  {
    w <= s || (s != [] && Contains(s[1..], w))
  }

  /** `Contains` is the search for a position of `s` at which `w` begins. */
  lemma {:induction false} ContainsSpec(s: string, w: string)
    ensures Contains(s, w) <==> exists i :: 0 <= i <= |s| && w <= s[i..]
    decreases |s|
  {
    if s != [] {
      ContainsSpec(s[1..], w);
      assert forall i :: 1 <= i <= |s| ==> s[i..] == s[1..][i - 1..];
      if Contains(s[1..], w) {
        var i :| 0 <= i <= |s[1..]| && w <= s[1..][i..];
        assert w <= s[i + 1..];
      }
    }
    assert s[0..] == s;
  }

  /** The `length` of a JavaScript string: code points above U+FFFF take two UTF-16 units. */
  function Utf16Length(s: string): (n: nat)
    ensures |s| <= n <= 2 * |s|
  {
    if s == [] then 0 else (if s[0] as int > 0xFFFF then 2 else 1) + Utf16Length(s[1..])
  }

  /** Text made only of code points up to U+FFFF has one UTF-16 unit per character. */
  lemma {:induction false} Utf16LengthBmp(s: string)
    requires forall i :: 0 <= i < |s| ==> s[i] as int <= 0xFFFF
    ensures Utf16Length(s) == |s|
  {
    if s != [] {
      assert forall i :: 0 <= i < |s[1..]| ==> s[1..][i] == s[i + 1];
      Utf16LengthBmp(s[1..]);
    }
  }

  /** The first position of `c` in `s`. */
  function IndexOf(s: string, c: char): (k: nat)
    requires c in s
    ensures k < |s| && s[k] == c && c !in s[..k]
  {
    if s[0] == c then 0
    else
      var k := IndexOf(s[1..], c);
      assert s[..k + 1] == [s[0]] + s[1..][..k];
      k + 1
  }

  /** Python's `sep.join(parts)`. */
  function Join(sep: string, parts: seq<string>): string
    decreases |parts|
  {
    if parts == [] then "" else if |parts| == 1 then parts[0] else parts[0] + sep + Join(sep, parts[1..])
  }

  /** The position of the leftmost occurrence of `sep` in `s`, if any. */
  function Find(s: string, sep: string): (r: Option<nat>)
    requires |sep| > 0
    ensures r.Some? ==> r.value + |sep| <= |s| && s[r.value..r.value + |sep|] == sep
    decreases |s|
  {
    if sep <= s then Some(0)
    else if s == [] then None
    else
      match Find(s[1..], sep)
      case None => None
      case Some(i) =>
        assert s[i + 1..i + 1 + |sep|] == s[1..][i..i + |sep|];
        Some(i + 1)
  }

  /** Python's `s.split(sep)` for a non-empty separator. */
  function Split(s: string, sep: string): (r: seq<string>)
    requires |sep| > 0
    ensures |r| > 0
    decreases |s|
  {
    match Find(s, sep)
    case None => [s]
    case Some(i) => [s[..i]] + Split(s[i + |sep|..], sep)
  }

  /** `Find` gives the leftmost occurrence, and `None` only when there is none. */
  lemma {:induction false} FindLeftmost(s: string, sep: string)
    requires |sep| > 0
    ensures Find(s, sep).Some? ==>
              sep <= s[Find(s, sep).value..] && forall j :: 0 <= j < Find(s, sep).value ==> !(sep <= s[j..])
    ensures Find(s, sep).None? ==> forall j :: 0 <= j <= |s| ==> !(sep <= s[j..])
    decreases |s|
  {
    if !(sep <= s) && s != [] {
      FindLeftmost(s[1..], sep);
      assert forall j :: 1 <= j <= |s| ==> s[j..] == s[1..][j - 1..];
    }
    assert s[0..] == s;
  }

  /** A string without the separator's first character has no occurrence of the separator. */
  lemma FindAbsent(s: string, sep: string)
    requires |sep| > 0 && sep[0] !in s
    ensures Find(s, sep) == None
    decreases |s|
  {
  }

  /** The separator is found right after a prefix that lacks its first character. */
  lemma {:induction false} FindAfter(p: string, sep: string, t: string)
    requires |sep| > 0 && sep[0] !in p
    ensures Find(p + sep + t, sep) == Some(|p|)
    decreases |p|
  {
    var s := p + sep + t;
    if p == [] {
      assert s == sep + t;
    } else {
      assert s[0] == p[0] != sep[0];
      assert !(sep <= s);
      assert s[1..] == p[1..] + sep + t;
      FindAfter(p[1..], sep, t);
    }
  }

  /**
   * Joining is undone by splitting on the same separator when no part contains
   * the separator's first character. `parts` must not be empty: `Join(sep, [])`
   * and `Join(sep, [""])` are both "".
   */
  lemma {:induction false} SplitJoin(sep: string, parts: seq<string>)
    requires |sep| > 0 && parts != []
    requires forall k :: 0 <= k < |parts| ==> sep[0] !in parts[k]
    ensures Split(Join(sep, parts), sep) == parts
    decreases |parts|
  {
    if |parts| == 1 {
      FindAbsent(parts[0], sep);
    } else {
      var p, rest := parts[0], Join(sep, parts[1..]);
      var s := p + sep + rest;
      assert Join(sep, parts) == s;
      FindAfter(p, sep, rest);
      assert Split(s, sep) == [s[..|p|]] + Split(s[|p| + |sep|..], sep);
      assert s[..|p|] == p;
      assert s[|p| + |sep|..] == rest;
      assert forall k :: 0 <= k < |parts[1..]| ==> parts[1..][k] == parts[k + 1];
      SplitJoin(sep, parts[1..]);
      assert parts == [p] + parts[1..];
    }
  }

  /** With a white-space separator, the joined text is blank exactly when every part is. */
  lemma {:induction false} JoinAllSpace(rt: Runtime, sep: string, parts: seq<string>)
    requires AllSpace(rt, sep)
    ensures AllSpace(rt, Join(sep, parts)) <==> forall k :: 0 <= k < |parts| ==> AllSpace(rt, parts[k])
    decreases |parts|
  {
    if |parts| > 1 {
      JoinAllSpace(rt, sep, parts[1..]);
      AllSpaceConcat(rt, parts[0] + sep, Join(sep, parts[1..]));
      AllSpaceConcat(rt, parts[0], sep);
      assert forall k :: 1 <= k < |parts| ==> parts[k] == parts[1..][k - 1];
    }
  }

  /** Appending a part appends the separator and that part. */
  lemma {:induction false} JoinSnoc(sep: string, parts: seq<string>, q: string)
    requires parts != []
    ensures Join(sep, parts + [q]) == Join(sep, parts) + sep + q
    decreases |parts|
  {
    if |parts| > 1 {
      assert (parts + [q])[1..] == parts[1..] + [q];
      JoinSnoc(sep, parts[1..], q);
    } else {
      assert (parts + [q])[1..] == [q];
    }
  }
}
