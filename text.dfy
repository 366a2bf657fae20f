/** The operations of Python's `str` type that the modelled code uses:
    `strip`, `splitlines`, `in`, `split`, `join`, `replace`, `lower`, `upper`
    and slice reversal. Strings are sequences of code points. */
module Text {
  import opened Py

  /** The characters for which `str.isspace()` holds; `str.strip()` with no
      argument removes exactly these. */
  predicate IsSpace(c: char) {
    var n := c as int;
    (9 <= n <= 13) || (0x1C <= n <= 0x20) || n == 0x85 || n == 0xA0 || n == 0x1680
    || (0x2000 <= n <= 0x200A) || n == 0x2028 || n == 0x2029 || n == 0x202F
    || n == 0x205F || n == 0x3000
  }

  /** The characters at which `str.splitlines()` ends a line (a `\r` directly
      followed by `\n` ends one line, not two). */
  predicate IsLineBreak(c: char) {
    var n := c as int;
    (10 <= n <= 13) || (0x1C <= n <= 0x1E) || n == 0x85 || n == 0x2028 || n == 0x2029
  }

  predicate AllSpace(s: string) {
    forall i :: 0 <= i < |s| ==> IsSpace(s[i])
  }

  predicate NoLineBreak(s: string) {
    forall i :: 0 <= i < |s| ==> !IsLineBreak(s[i])
  }

  /** Neither end of `s` is white space, as after `str.strip()`. */
  predicate Trimmed(s: string) {
    s == [] || (!IsSpace(s[0]) && !IsSpace(s[|s| - 1]))
  }

  /** Every line-break character is also white space. */
  lemma LineBreakIsSpace(c: char)
    requires IsLineBreak(c)
    ensures IsSpace(c)
  {
  }

  /** Which characters a strip removes: white space, or the members of a set. */
  datatype Strippable = Whitespace | Chars(chars: set<char>)

  predicate Drops(d: Strippable, c: char) {
    match d
    case Whitespace => IsSpace(c)
    case Chars(chars) => c in chars
  }

  /** The first index at or after `i` whose character is kept. */
  function SkipForward(s: string, d: Strippable, i: nat): (k: nat)
    requires i <= |s|
    ensures i <= k <= |s|
    ensures forall m :: i <= m < k ==> Drops(d, s[m])
    ensures k == |s| || !Drops(d, s[k])
    decreases |s| - i
  {
    if i < |s| && Drops(d, s[i]) then SkipForward(s, d, i + 1) else i
  }

  /** Going down from `e` but not below `lo`: the index after the last
      character that is kept. */
  function SkipBackward(s: string, d: Strippable, lo: nat, e: nat): (k: nat)
    requires lo <= e <= |s|
    ensures lo <= k <= e
    ensures forall m :: k <= m < e ==> Drops(d, s[m])
    ensures k == lo || !Drops(d, s[k - 1])
    decreases e - lo
  {
    if lo < e && Drops(d, s[e - 1]) then SkipBackward(s, d, lo, e - 1) else e
  }

  /** Where the part of `s` that a strip keeps starts and ends. */
  function StripBounds(s: string, d: Strippable): (be: (nat, nat))
    ensures be.0 <= be.1 <= |s|
    ensures forall m :: 0 <= m < be.0 ==> Drops(d, s[m])
    ensures forall m :: be.1 <= m < |s| ==> Drops(d, s[m])
    ensures be.0 < be.1 ==> !Drops(d, s[be.0]) && !Drops(d, s[be.1 - 1])
    ensures be.0 == be.1 ==> be.1 == |s|
  {
    var b := SkipForward(s, d, 0);
    (b, SkipBackward(s, d, b, |s|))
  }

  /** `s.strip(chars)`: what is left once the dropped characters are removed
      from both ends. */
  function StripWhere(s: string, d: Strippable): (r: string)
    ensures |r| <= |s|
    ensures r == [] || (!Drops(d, r[0]) && !Drops(d, r[|r| - 1]))
    ensures r == [] <==> forall m :: 0 <= m < |s| ==> Drops(d, s[m])
  {
    var be := StripBounds(s, d);
    s[be.0..be.1]
  }

  /** `s.strip()`. */
  function Strip(s: string): (r: string)
    ensures |r| <= |s|
    ensures Trimmed(r)
    ensures (r == []) <==> AllSpace(s)
  {
    StripWhere(s, Whitespace)
  }

  /** Stripping keeps a contiguous part, so it adds no line break. */
  lemma StripNoLineBreak(s: string)
    requires NoLineBreak(s)
    ensures NoLineBreak(Strip(s))
  {
    var be := StripBounds(s, Whitespace);
    var r := Strip(s);
    assert r == s[be.0..be.1];
    forall j | 0 <= j < |r| ensures !IsLineBreak(r[j]) {
      assert r[j] == s[be.0 + j];
    }
  }

  /** A string with no white space at its ends is left as it is. */
  lemma StripTrimmed(s: string)
    requires Trimmed(s)
    ensures Strip(s) == s
  {
    var be := StripBounds(s, Whitespace);
    if s != [] {
      assert SkipForward(s, Whitespace, 0) == 0;
      assert SkipBackward(s, Whitespace, 0, |s|) == |s|;
    }
  }

  /** Stripping twice removes nothing more. */
  lemma StripIdempotent(s: string)
    ensures Strip(Strip(s)) == Strip(s)
  {
    StripTrimmed(Strip(s));
  }

  /** `s.strip(chars)` for an explicit set of characters. */
  function StripChars(s: string, chars: set<char>): (r: string)
    ensures |r| <= |s|
    ensures r == [] || (r[0] !in chars && r[|r| - 1] !in chars)
  {
    StripWhere(s, Chars(chars))
  }

  /** The first index at or after `from` that holds a line break, or `|s|`. */
  function LineEnd(s: string, from: nat): (e: nat)
    requires from <= |s|
    ensures from <= e <= |s|
    ensures e < |s| ==> IsLineBreak(s[e])
    ensures forall j :: from <= j < e ==> !IsLineBreak(s[j])
    decreases |s| - from
  {
    if from == |s| || IsLineBreak(s[from]) then from else LineEnd(s, from + 1)
  }

  /** `s.splitlines()`: the lines of `s` without their line breaks; a break at
      the very end does not start another, empty line. */
  function SplitLines(s: string): (lines: seq<string>)
    ensures forall k :: 0 <= k < |lines| ==> NoLineBreak(lines[k])
    ensures s == [] <==> lines == []
    decreases |s|
  {
    if s == [] then []
    else
      var e := LineEnd(s, 0);
      if e == |s| then [s]
      else
        var next := if s[e] == '\r' && e + 1 < |s| && s[e + 1] == '\n' then e + 2 else e + 1;
        [s[..e]] + SplitLines(s[next..])
  }

  /** `pat` occurs in `s` starting at index `i`. */
  predicate OccursAt(s: string, pat: string, i: nat) {
    i + |pat| <= |s| && s[i..i + |pat|] == pat
  }

  /** The leftmost occurrence of `pat` at or after `from`, as `str.find` does. */
  function FindFrom(s: string, pat: string, from: nat): (r: Option<nat>)
    requires from <= |s|
    ensures r.Some? ==> from <= r.value && OccursAt(s, pat, r.value)
    ensures forall j: nat :: from <= j && (r.None? || j < r.value) ==> !OccursAt(s, pat, j)
    decreases |s| - from
  {
    if OccursAt(s, pat, from) then Some(from)
    else if from == |s| then None
    else FindFrom(s, pat, from + 1)
  }

  function Find(s: string, pat: string): (r: Option<nat>)
    ensures r.Some? ==> OccursAt(s, pat, r.value)
    ensures forall j: nat :: (r.None? || j < r.value) ==> !OccursAt(s, pat, j)
  {
    FindFrom(s, pat, 0)
  }

  /** `pat in s`. */
  predicate Contains(s: string, pat: string) {
    Find(s, pat).Some?
  }

  /** `pat in s` holds exactly when `pat` occurs somewhere in `s`. */
  lemma ContainsIff(s: string, pat: string)
    ensures Contains(s, pat) <==> exists j: nat :: OccursAt(s, pat, j)
  {
  }

  /** The empty string occurs in every string. */
  lemma ContainsEmpty(s: string)
    ensures Contains(s, "")
  {
    assert OccursAt(s, "", 0);
  }

  /** The index of the first `c` in `s`. */
  function IndexOf(s: string, c: char): (k: nat)
    requires c in s
    ensures k < |s| && s[k] == c
    ensures forall j :: 0 <= j < k ==> s[j] != c
  {
    if s[0] == c then 0
    else
      assert c in s[1..];
      var k := IndexOf(s[1..], c) + 1;
      assert forall j :: 1 <= j < k ==> s[j] == s[1..][j - 1];
      k
  }

  /** The first `c` in `a + [c] + b` is the one after `a` when `a` has none. */
  lemma IndexOfAfter(a: string, c: char, b: string)
    requires c !in a
    ensures c in a + [c] + b && IndexOf(a + [c] + b, c) == |a|
  {
    var s := a + [c] + b;
    assert s[|a|] == c;
    assert forall j :: 0 <= j < |a| ==> s[j] == a[j];
  }

  /** `s.replace(c, "", 1)`: removes the first occurrence of `c` only. */
  function RemoveFirst(s: string, c: char): (r: string)
    ensures c !in s ==> r == s
    ensures c in s ==> r == s[..IndexOf(s, c)] + s[IndexOf(s, c) + 1..]
  {
    if s == [] then []
    else if s[0] == c then s[1..]
    else
      var rest := RemoveFirst(s[1..], c);
      RemoveFirstStep(s, c);
      [s[0]] + rest
  }

  /** Removal after a first character that is not `c` happens in the rest. */
  lemma RemoveFirstStep(s: string, c: char)
    requires s != [] && s[0] != c
    ensures c !in s ==> c !in s[1..] && [s[0]] + s[1..] == s
    ensures c in s ==> c in s[1..] && IndexOf(s, c) == IndexOf(s[1..], c) + 1
    ensures c in s ==>
              [s[0]] + (s[1..][..IndexOf(s[1..], c)] + s[1..][IndexOf(s[1..], c) + 1..])
              == s[..IndexOf(s, c)] + s[IndexOf(s, c) + 1..]
  {
    if c in s {
      assert c in s[1..];
      var k := IndexOf(s[1..], c);
      assert s[k + 1] == c;
      assert forall j :: 1 <= j < k + 1 ==> s[j] == s[1..][j - 1];
      assert s[..k + 1] == [s[0]] + s[1..][..k];
      assert s[k + 2..] == s[1..][k + 1..];
    } else {
      assert s == [s[0]] + s[1..];
    }
  }

  function LowerChar(c: char): char {
    if 'A' <= c <= 'Z' then (c as int + 32) as char else c
  }

  function UpperChar(c: char): char {
    if 'a' <= c <= 'z' then (c as int - 32) as char else c
  }

  /** `s.lower()` on ASCII letters; every other character is kept. */
  function Lower(s: string): (r: string)
    ensures |r| == |s|
    ensures forall i :: 0 <= i < |s| ==> r[i] == LowerChar(s[i])
  {
    seq(|s|, i requires 0 <= i < |s| => LowerChar(s[i]))
  }

  /** `s.upper()` on ASCII letters; every other character is kept. */
  function Upper(s: string): (r: string)
    ensures |r| == |s|
    ensures forall i :: 0 <= i < |s| ==> r[i] == UpperChar(s[i])
  {
    seq(|s|, i requires 0 <= i < |s| => UpperChar(s[i]))
  }

  /** `s[::-1]`. */
  function Reverse(s: string): (r: string)
    ensures |r| == |s|
    ensures forall i :: 0 <= i < |s| ==> r[i] == s[|s| - 1 - i]
  {
    if s == [] then []
    else
      var r := Reverse(s[1..]) + [s[0]];
      assert forall i :: 0 <= i < |s| - 1 ==> r[i] == s[1..][|s| - 2 - i];
      r
  }

  /** Reversing twice gives back the original string. */
  lemma ReverseReverse(s: string)
    ensures Reverse(Reverse(s)) == s
  {
  }

  /** `sep.join(xs)`. */
  function Join(sep: string, xs: seq<string>): string {
    if xs == [] then ""
    else if |xs| == 1 then xs[0]
    else xs[0] + sep + Join(sep, xs[1..])
  }

  /** `s.split(c)` for a single-character separator. */
  function SplitOn(s: string, c: char): (parts: seq<string>)
    ensures |parts| >= 1
    ensures forall k :: 0 <= k < |parts| ==> c !in parts[k]
    decreases |s|
  {
    if c !in s then [s]
    else
      var k := IndexOf(s, c);
      [s[..k]] + SplitOn(s[k + 1..], c)
  }

  /** Joining the pieces of a split puts back every separator. */
  lemma {:induction false} JoinSplitOn(s: string, c: char)
    ensures Join([c], SplitOn(s, c)) == s
    decreases |s|
  {
    if c in s {
      var k := IndexOf(s, c);
      var rest := s[k + 1..];
      JoinSplitOn(rest, c);
      SplitOnAt(s, c);
      JoinCons([c], s[..k], SplitOn(rest, c));
      SplitAround(s, k);
    }
  }

  lemma SplitOnAt(s: string, c: char)
    requires c in s
    ensures SplitOn(s, c) == [s[..IndexOf(s, c)]] + SplitOn(s[IndexOf(s, c) + 1..], c)
  {
  }

  lemma JoinCons(sep: string, x: string, xs: seq<string>)
    requires xs != []
    ensures Join(sep, [x] + xs) == x + sep + Join(sep, xs)
  {
    assert ([x] + xs)[1..] == xs;
  }

  lemma SplitAround(s: string, k: nat)
    requires k < |s|
    ensures s == s[..k] + [s[k]] + s[k + 1..]
  {
  }

  /** Splitting a join gives back the pieces when no piece holds the separator. */
  lemma {:induction false} SplitOnJoin(xs: seq<string>, c: char)
    requires xs != []
    requires forall k :: 0 <= k < |xs| ==> c !in xs[k]
    ensures SplitOn(Join([c], xs), c) == xs
  {
    if |xs| == 1 {
      assert Join([c], xs) == xs[0];
      assert SplitOn(xs[0], c) == [xs[0]];
    } else {
      var rest := Join([c], xs[1..]);
      var s := xs[0] + [c] + rest;
      assert Join([c], xs) == s;
      IndexOfAfter(xs[0], c, rest);
      assert s[..|xs[0]|] == xs[0];
      assert s[|xs[0]| + 1..] == rest;
      assert SplitOn(s, c) == [xs[0]] + SplitOn(rest, c);
      SplitOnJoin(xs[1..], c);
      assert xs == [xs[0]] + xs[1..];
    }
  }
}
