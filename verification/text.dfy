/** String helpers with the meaning Python gives the methods both scripts call:
    `str.strip()`, `str.rfind()`, `str.rsplit(".", 1)[-1]` / `str.split(".")[-1]`,
    and `str.lower()` / `str.upper()` restricted to ASCII letters.
 */
module Text {

  /** Python's `str.isspace()` for one character: the characters `str.strip()` removes. */
  predicate IsSpace(c: char) {
    var n := c as int;
    || (0x09 <= n <= 0x0D) || (0x1C <= n <= 0x20) || n == 0x85 || n == 0xA0 || n == 0x1680
    || (0x2000 <= n <= 0x200A) || n == 0x2028 || n == 0x2029 || n == 0x202F || n == 0x205F
    || n == 0x3000
  }

  predicate AllSpace(s: string) {
    forall k :: 0 <= k < |s| ==> IsSpace(s[k])
  }

  /** No leading and no trailing whitespace. */
  predicate Stripped(s: string) {
    s == [] || (!IsSpace(s[0]) && !IsSpace(s[|s| - 1]))
  }

  /** Drops the leading whitespace: the result is the longest suffix starting with a non-space. */
  function TrimStart(s: string): (r: string)
    ensures |r| <= |s| && r == s[|s| - |r|..]
    ensures AllSpace(s[..|s| - |r|])
    ensures r == [] || !IsSpace(r[0])
  {
    if |s| > 0 && IsSpace(s[0]) then
      var r := TrimStart(s[1..]);
      assert s[..|s| - |r|] == [s[0]] + s[1..][..|s| - 1 - |r|];
      r
    else
      s
  }

  /** Drops the trailing whitespace: the result is the longest prefix ending in a non-space. */
  function TrimEnd(s: string): (r: string)
    ensures |r| <= |s| && r == s[..|r|]
    ensures AllSpace(s[|r|..])
    ensures r == [] || !IsSpace(r[|r| - 1])
  {
    if |s| > 0 && IsSpace(s[|s| - 1]) then
      var r := TrimEnd(s[..|s| - 1]);
      assert s[|r|..] == s[..|s| - 1][|r|..] + [s[|s| - 1]];
      r
    else
      s
  }

  /** `r` sits at position `i` of `s` with only whitespace around it. */
  predicate MiddleAt(s: string, r: string, i: int) {
    0 <= i <= |s| - |r| && r == s[i..i + |r|] && AllSpace(s[..i]) && AllSpace(s[i + |r|..])
  }

  /** `r` is a contiguous part of `s` with only whitespace around it. */
  predicate IsMiddle(s: string, r: string) {
    exists i :: 0 <= i <= |s| && MiddleAt(s, r, i)
  }

  /** Python's `str.strip()`: the middle of `s` once whitespace is removed from both ends. */
  function Strip(s: string): (r: string)
    ensures Stripped(r)
    ensures IsMiddle(s, r)
    ensures r == [] <==> AllSpace(s)
  {
    var t := TrimStart(s);
    var r := TrimEnd(t);
    StripParts(s, t, r);
    r
  }

  lemma StripParts(s: string, t: string, r: string)
    requires |t| <= |s| && t == s[|s| - |t|..] && AllSpace(s[..|s| - |t|]) && (t == [] || !IsSpace(t[0]))
    requires |r| <= |t| && r == t[..|r|] && AllSpace(t[|r|..]) && (r == [] || !IsSpace(r[|r| - 1]))
    ensures Stripped(r)
    ensures IsMiddle(s, r)
    ensures r == [] <==> AllSpace(s)
  {
    var i := |s| - |t|;
    assert s[i + |r|..] == t[|r|..];
    if r != [] {
      assert s[i] == r[0];
    }
    assert MiddleAt(s, r, i);
  }

  /** Text without surrounding whitespace is left alone, so stripping is idempotent. */
  lemma StripOfStripped(s: string)
    requires Stripped(s)
    ensures Strip(s) == s
  {
    assert TrimStart(s) == s;
    assert TrimEnd(s) == s;
  }

  /** Python's `str.rfind(c)` for one character: the index of the last `c`, or -1 when there is none. */
  function RFind(s: string, c: char): (i: int)
    ensures -1 <= i < |s|
    ensures i >= 0 ==> s[i] == c
    ensures forall k :: i < k < |s| ==> s[k] != c
  {
    if |s| == 0 then -1
    else if s[|s| - 1] == c then |s| - 1
    else
      RFind(s[..|s| - 1], c)
  }

  /** The text after the last '.', or the whole string when it holds no '.'.
      This is `s.rsplit(".", 1)[-1]` and equally `s.split(".")[-1]`. */
  function AfterLastDot(s: string): (r: string)
    ensures '.' !in r
    ensures |r| <= |s| && r == s[|s| - |r|..]
    ensures |r| < |s| ==> s[|s| - |r| - 1] == '.'
  {
    s[RFind(s, '.') + 1..]
  }

  /** Those three facts determine the ending: any dot-free suffix that is the whole
      string or follows a '.' is the text after the last '.'. */
  lemma AfterLastDotUnique(s: string, t: string)
    requires |t| <= |s| && t == s[|s| - |t|..]
    requires '.' !in t
    requires |t| < |s| ==> s[|s| - |t| - 1] == '.'
    ensures t == AfterLastDot(s)
  {
  }

  /** An example of the ending rule: only the part after the final dot survives. */
  lemma AfterLastDotExample()
    ensures AfterLastDot("a.b.c") == "c"
    ensures AfterLastDot("abc") == "abc"
  {
    AfterLastDotUnique("a.b.c", "c");
    AfterLastDotUnique("abc", "abc");
  }

  predicate IsUpperAscii(c: char) { 'A' <= c <= 'Z' }

  predicate IsLowerAscii(c: char) { 'a' <= c <= 'z' }

  function LowerChar(c: char): char {
    if IsUpperAscii(c) then (c as int + 32) as char else c
  }

  function UpperChar(c: char): char {
    if IsLowerAscii(c) then (c as int - 32) as char else c
  }

  /** `str.lower()` on ASCII letters: each upper-case letter becomes the lower-case
      letter 32 code points above it, and every other character is left as it is. */
  function Lower(s: string): (r: string)
    ensures |r| == |s|
    ensures forall k :: 0 <= k < |s| && IsUpperAscii(s[k]) ==> r[k] as int == s[k] as int + 32
    ensures forall k :: 0 <= k < |s| && !IsUpperAscii(s[k]) ==> r[k] == s[k]
  {
    seq(|s|, k requires 0 <= k < |s| => LowerChar(s[k]))
  }

  /** `str.upper()` on ASCII letters: each lower-case letter becomes the upper-case
      letter 32 code points below it, and every other character is left as it is. */
  function Upper(s: string): (r: string)
    ensures |r| == |s|
    ensures forall k :: 0 <= k < |s| && IsLowerAscii(s[k]) ==> r[k] as int == s[k] as int - 32
    ensures forall k :: 0 <= k < |s| && !IsLowerAscii(s[k]) ==> r[k] == s[k]
  {
    seq(|s|, k requires 0 <= k < |s| => UpperChar(s[k]))
  }

  /** Lower-casing leaves no upper-case ASCII letter, keeps every character that is
      not an upper-case letter where it was, and doing it twice is doing it once. */
  lemma LowerFacts(s: string)
    ensures forall k :: 0 <= k < |s| ==> !IsUpperAscii(Lower(s)[k])
    ensures forall k :: 0 <= k < |s| ==> !IsUpperAscii(s[k]) ==> Lower(s)[k] == s[k]
    ensures Lower(Lower(s)) == Lower(s)
  {
  }

  /** Upper-casing leaves no lower-case ASCII letter and keeps every character that
      is not a lower-case letter, '.' in particular, where it was. */
  lemma UpperFacts(s: string)
    ensures forall k :: 0 <= k < |s| ==> !IsLowerAscii(Upper(s)[k])
    ensures forall k :: 0 <= k < |s| ==> !IsLowerAscii(s[k]) ==> Upper(s)[k] == s[k]
    ensures forall k :: 0 <= k < |s| ==> (Upper(s)[k] == '.' <==> s[k] == '.')
  {
  }

  /** Two characters that are the same letter up to ASCII case, or simply equal. */
  predicate SameIgnoringCase(a: char, b: char) {
    || a == b
    || (IsUpperAscii(a) && b as int == a as int + 32)
    || (IsUpperAscii(b) && a as int == b as int + 32)
  }

  /** Equal length, and equal character by character up to ASCII case. */
  predicate EqualIgnoringCase(s: string, t: string) {
    |s| == |t| && forall k :: 0 <= k < |s| ==> SameIgnoringCase(s[k], t[k])
  }

  /** Lower-casing maps two strings to the same text exactly when they are equal up
      to ASCII case: `ABC` and `abc` meet, `ABC` and `abd` do not. */
  lemma LowerEqualIff(s: string, t: string)
    ensures Lower(s) == Lower(t) <==> EqualIgnoringCase(s, t)
  {
    if Lower(s) == Lower(t) {
      forall k | 0 <= k < |s|
        ensures SameIgnoringCase(s[k], t[k])
      {
        assert Lower(s)[k] == Lower(t)[k];
      }
    }
    if EqualIgnoringCase(s, t) {
      forall k | 0 <= k < |s|
        ensures Lower(s)[k] == Lower(t)[k]
      {
        assert SameIgnoringCase(s[k], t[k]);
      }
    }
  }

  /** The three facts about `Strip` determine it: a non-empty stripped part of `s`
      with only whitespace around it is `Strip(s)`. */
  lemma StripIsUnique(s: string, r: string)
    requires r != [] && Stripped(r) && IsMiddle(s, r)
    ensures r == Strip(s)
  {
    var i :| 0 <= i <= |s| && MiddleAt(s, r, i);
    assert s[i] == r[0];
    var q := Strip(s);
    MiddleIsUnique(s, r, i, q);
  }

  lemma MiddleIsUnique(s: string, r: string, i: int, q: string)
    requires MiddleAt(s, r, i) && r != [] && Stripped(r)
    requires IsMiddle(s, q) && q != [] && Stripped(q)
    ensures r == q
  {
    var j :| 0 <= j <= |s| && MiddleAt(s, q, j);
    SameStart(s, r, i, q, j);
    SameStart(s, q, j, r, i);
    SameEnd(s, r, i, q, j);
    SameEnd(s, q, j, r, i);
  }

  lemma SameStart(s: string, r: string, i: int, q: string, j: int)
    requires MiddleAt(s, r, i) && MiddleAt(s, q, j) && r != [] && !IsSpace(r[0])
    ensures j <= i
  {
    assert s[i] == r[0];
    SpaceBefore(s, j, i);
  }

  lemma SameEnd(s: string, r: string, i: int, q: string, j: int)
    requires MiddleAt(s, r, i) && MiddleAt(s, q, j) && r != [] && !IsSpace(r[|r| - 1])
    ensures i + |r| <= j + |q|
  {
    var e1, e2 := i + |r|, j + |q|;
    assert s[e1 - 1] == r[|r| - 1];
    SpaceAfter(s, e2, e1 - 1);
  }

  lemma SpaceBefore(s: string, n: nat, k: nat)
    requires n <= |s| && AllSpace(s[..n])
    ensures k < n ==> IsSpace(s[k])
  {
    if k < n {
      assert s[..n][k] == s[k];
    }
  }

  lemma SpaceAfter(s: string, n: nat, k: nat)
    requires n <= |s| && AllSpace(s[n..])
    ensures n <= k < |s| ==> IsSpace(s[k])
  {
    if n <= k < |s| {
      assert s[n..][k - n] == s[k];
    }
  }
}
