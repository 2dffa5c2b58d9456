/** The Python string operations the sample-sheet parser calls: `str.strip`,
    `str.split(sep)`, `str.split(sep, 1)`, `str.startswith` and `str.endswith`,
    on strings as sequences of characters. `FirstIndex` is the search for the
    first separator that the splits perform, and `Join` is the inverse of
    `Split` used to state its round trip.

    The functions keep light contracts so that unfolding them stays cheap;
    what each one computes is stated by the lemma that follows it. */
module Text {
  import opened Wrappers

  /** The characters Python's argument-less `str.strip()` removes
      (those for which `str.isspace()` holds). */
  predicate IsSpace(c: char) {
    || ('\t' <= c <= '\r')
    || ('\U{1C}' <= c <= '\U{1F}')
    || c == ' '
    || c == '\U{85}'
    || c == '\U{A0}'
    || c == '\U{1680}'
    || ('\U{2000}' <= c <= '\U{200A}')
    || c == '\U{2028}'
    || c == '\U{2029}'
    || c == '\U{202F}'
    || c == '\U{205F}'
    || c == '\U{3000}'
  }

  /** The characters removed by `strip('[]')`. */
  predicate IsBracket(c: char) {
    c == '[' || c == ']'
  }

  /* ---------------------------------------------------------------------- */
  /* Stripping                                                               */
  /* ---------------------------------------------------------------------- */

  /** Drops the longest prefix whose characters all satisfy `p`. */
  function TrimLeft(s: string, p: char -> bool): (r: string)
    ensures |r| <= |s|
  {
    if |s| > 0 && p(s[0]) then TrimLeft(s[1..], p) else s
  }

  /** `TrimLeft` keeps a suffix, removes only `p`-characters, and stops at the
      first character that is not one. */
  lemma {:induction false} TrimLeftShape(s: string, p: char -> bool)
    ensures var r := TrimLeft(s, p);
            && r == s[|s| - |r|..]
            && (r == [] || !p(r[0]))
            && (forall i :: 0 <= i < |s| - |r| ==> p(s[i]))
  {
    if |s| > 0 && p(s[0]) {
      TrimLeftShape(s[1..], p);
      var r := TrimLeft(s[1..], p);
      assert s[1..][|s| - 1 - |r|..] == s[|s| - |r|..];
      forall i | 0 <= i < |s| - |r| ensures p(s[i]) {
        if i > 0 {
          assert s[i] == s[1..][i - 1];
        }
      }
    }
  }

  /** Drops the longest suffix whose characters all satisfy `p`. */
  function TrimRight(s: string, p: char -> bool): (r: string)
    ensures |r| <= |s|
  {
    if |s| > 0 && p(s[|s| - 1]) then TrimRight(s[..|s| - 1], p) else s
  }

  /** `TrimRight` keeps a prefix, removes only `p`-characters, and stops at the
      last character that is not one. */
  lemma {:induction false} TrimRightShape(s: string, p: char -> bool)
    ensures var r := TrimRight(s, p);
            && r == s[..|r|]
            && (r == [] || !p(r[|r| - 1]))
            && (forall i :: |r| <= i < |s| ==> p(s[i]))
  {
    if |s| > 0 && p(s[|s| - 1]) {
      TrimRightShape(s[..|s| - 1], p);
    }
  }

  /** Python's `s.strip(chars)`, the removed characters being those satisfying `p`. */
  function Strip(s: string, p: char -> bool): string {
    TrimRight(TrimLeft(s, p), p)
  }

  /** `Strip` leaves the piece of `s` that remains once every leading and
      trailing `p`-character is gone; it neither starts nor ends with one. */
  lemma StripShape(s: string, p: char -> bool)
    ensures var r := Strip(s, p);
            var k := |s| - |TrimLeft(s, p)|;
            && (r == [] || (!p(r[0]) && !p(r[|r| - 1])))
            && k + |r| <= |s| && r == s[k..k + |r|]
            && (forall i :: 0 <= i < k ==> p(s[i]))
            && (forall i :: k + |r| <= i < |s| ==> p(s[i]))
  {
    var left := TrimLeft(s, p);
    TrimLeftShape(s, p);
    TrimRightShape(left, p);
    var r := Strip(s, p);
    var k := |s| - |left|;
    assert r == s[k..k + |r|];
    forall i | k + |r| <= i < |s| ensures p(s[i]) {
      assert s[i] == left[i - k];
    }
    if r != [] {
      assert r[0] == left[0];
    }
  }

  /** Stripping gives the empty string exactly when every character of `s`
      is removed. */
  lemma StripEmpty(s: string, p: char -> bool)
    ensures Strip(s, p) == [] <==> forall i :: 0 <= i < |s| ==> p(s[i])
  {
    StripShape(s, p);
    var r := Strip(s, p);
    var k := |s| - |TrimLeft(s, p)|;
    if r != [] {
      assert s[k] == r[0];
    }
  }

  /** `Strip` with Python's default whitespace set. */
  function Trim(s: string): string {
    Strip(s, IsSpace)
  }

  /* ---------------------------------------------------------------------- */
  /* Searching and splitting                                                 */
  /* ---------------------------------------------------------------------- */

  /** The position of the first `c` in `s`, or `None` when there is none. */
  function FirstIndex(s: string, c: char): (r: Option<nat>)
    ensures r.Some? ==> r.value < |s|
  {
    if |s| == 0 then None
    else if s[0] == c then Some(0)
    else match FirstIndex(s[1..], c)
      case None => None
      case Some(i) => Some(i + 1)
  }

  /** `FirstIndex` finds `c` exactly when `s` contains it, and then at its
      first position. */
  lemma {:induction false} FirstIndexSpec(s: string, c: char)
    ensures FirstIndex(s, c).None? <==> c !in s
    ensures FirstIndex(s, c).Some? ==>
              var i := FirstIndex(s, c).value;
              s[i] == c && forall j :: 0 <= j < i ==> s[j] != c
  {
    if |s| > 0 && s[0] != c {
      FirstIndexSpec(s[1..], c);
      if c in s {
        var j :| 0 <= j < |s| && s[j] == c;
        assert s[1..][j - 1] == c;
      }
      if FirstIndex(s, c).Some? {
        var i := FirstIndex(s, c).value;
        forall j | 0 < j < i ensures s[j] != c {
          assert s[j] == s[1..][j - 1];
        }
      }
    }
  }

  /** The first occurrence of `c` in `a + [c] + b` when `a` is free of `c`. */
  lemma FirstIndexAfter(a: string, c: char, b: string)
    requires c !in a
    ensures FirstIndex(a + [c] + b, c) == Some(|a|)
  {
    var s := a + [c] + b;
    FirstIndexSpec(s, c);
    assert s[|a|] == c;
    assert forall j :: 0 <= j < |a| ==> s[j] == a[j];
  }

  /** Python's `s.split(c)[0]`: the text before the first `c`. */
  function Before(s: string, c: char): (r: string)
    ensures |r| <= |s|
  {
    match FirstIndex(s, c)
    case None => s
    case Some(i) => s[..i]
  }

  /** `Before` returns the longest `c`-free prefix of `s`. */
  lemma BeforeSpec(s: string, c: char)
    ensures var r := Before(s, c);
            && r == s[..|r|]
            && c !in r
            && (|r| < |s| ==> s[|r|] == c)
  {
    FirstIndexSpec(s, c);
  }

  /** Python's `s.split(c, 1)`: one part when `c` does not occur, otherwise
      the parts before and after its first occurrence. */
  function SplitOnce(s: string, c: char): (parts: seq<string>)
    ensures |parts| == 1 || |parts| == 2
  {
    match FirstIndex(s, c)
    case None => [s]
    case Some(i) => [s[..i], s[i + 1..]]
  }

  /** `SplitOnce` cuts at the first `c` only: the first part is `c`-free and
      the parts glued back with `c` give `s`. */
  lemma SplitOnceSpec(s: string, c: char)
    ensures var parts := SplitOnce(s, c);
            && (|parts| == 1 <==> c !in s)
            && (|parts| == 1 ==> parts[0] == s)
            && (|parts| == 2 ==> c !in parts[0] && s == parts[0] + [c] + parts[1])
  {
    FirstIndexSpec(s, c);
    if FirstIndex(s, c).Some? {
      var i := FirstIndex(s, c).value;
      assert s == s[..i] + [c] + s[i + 1..];
    }
  }

  /** Python's `s.split(c)`: the pieces between occurrences of `c`. */
  function Split(s: string, c: char): (fields: seq<string>)
    ensures |fields| >= 1
    decreases |s|
  {
    match FirstIndex(s, c)
    case None => [s]
    case Some(i) => [s[..i]] + Split(s[i + 1..], c)
  }

  /** The fields glued together with `c` between them (Python's `c.join(fields)`),
      the inverse of `Split`. */
  function Join(fields: seq<string>, c: char): string {
    if |fields| == 0 then ""
    else if |fields| == 1 then fields[0]
    else fields[0] + [c] + Join(fields[1..], c)
  }

  /** `Split` cuts `s` into `c`-free pieces that `Join` glues back into `s`. */
  lemma {:induction false} JoinSplit(s: string, c: char)
    ensures forall i :: 0 <= i < |Split(s, c)| ==> c !in Split(s, c)[i]
    ensures Join(Split(s, c), c) == s
    decreases |s|
  {
    FirstIndexSpec(s, c);
    match FirstIndex(s, c)
    case None =>
    case Some(i) =>
      var rest := Split(s[i + 1..], c);
      JoinSplit(s[i + 1..], c);
      assert s == s[..i] + [c] + s[i + 1..];
      assert c !in s[..i];
      assert ([s[..i]] + rest)[1..] == rest;
  }

  /** `Split` undoes `Join` when no piece contains the separator. */
  lemma {:induction false} SplitJoin(fields: seq<string>, c: char)
    requires |fields| >= 1
    requires forall i :: 0 <= i < |fields| ==> c !in fields[i]
    ensures Split(Join(fields, c), c) == fields
    decreases |fields|
  {
    if |fields| == 1 {
      FirstIndexSpec(fields[0], c);
    } else {
      var f := fields[0];
      var rest := Join(fields[1..], c);
      var s := f + [c] + rest;
      FirstIndexAfter(f, c, rest);
      assert s[..|f|] == f;
      assert s[|f| + 1..] == rest;
      SplitJoin(fields[1..], c);
      assert [f] + fields[1..] == fields;
    }
  }

  /** Python's `s.startswith(prefix)`. */
  predicate StartsWith(s: string, prefix: string) {
    |prefix| <= |s| && s[..|prefix|] == prefix
  }

  /** Python's `s.endswith(suffix)`. */
  predicate EndsWith(s: string, suffix: string) {
    |suffix| <= |s| && s[|s| - |suffix|..] == suffix
  }
}
