/** String primitives the pipeline builds on: occurrence tests and searches,
    Rust's `str::replace`, per-character expansion, `trim` and
    `to_ascii_lowercase`.  Strings are sequences of Unicode scalar values,
    as Rust's `str` is. */
module Strings {
  import opened Wrappers

  /** `p` occurs in `s` starting at index `i`. */
  predicate At(s: string, i: nat, p: string) {
    i + |p| <= |s| && s[i..i + |p|] == p
  }

  /** An occurrence of `x + y` is an occurrence of `x` followed by one of `y`. */
  lemma AtCat(s: string, i: nat, x: string, y: string)
    requires At(s, i, x + y)
    ensures At(s, i, x) && At(s, i + |x|, y)
  {
    forall k | 0 <= k < |x| ensures s[i + k] == x[k] {
      assert s[i..i + |x + y|][k] == (x + y)[k];
    }
    assert s[i..i + |x|] == x;
    forall k | 0 <= k < |y| ensures s[i + |x| + k] == y[k] {
      assert s[i..i + |x + y|][|x| + k] == (x + y)[|x| + k];
    }
    assert s[i + |x|..i + |x| + |y|] == y;
  }

  /** The text `x + y + z` holds `x`, `y` and `z` at their places. */
  lemma AtThree(x: string, y: string, z: string)
    ensures At(x + y + z, 0, x) && At(x + y + z, |x|, y) && At(x + y + z, |x| + |y|, z)
    ensures (x + y + z)[|x| + |y|..] == z
  {
    var s := x + y + z;
    assert s[..|x|] == x;
    assert s[|x|..|x| + |y|] == y;
    assert s[|x| + |y|..] == z;
  }

  /** What occurs inside an occurrence occurs in the whole text. */
  lemma AtWithin(s: string, i: nat, x: string, j: nat, y: string)
    requires At(s, i, x) && At(x, j, y)
    ensures At(s, i + j, y)
  {
    forall k | 0 <= k < |y| ensures s[i + j + k] == y[k] {
      assert y[k] == x[j..j + |y|][k] == x[j + k];
      assert x[j + k] == s[i..i + |x|][j + k];
    }
    assert s[i + j..i + j + |y|] == y;
  }

  /** Rust's `str::starts_with`. */
  predicate StartsWith(s: string, p: string) {
    |p| <= |s| && s[..|p|] == p
  }

  /** The first index at or after `from` that holds `c`. */
  function FindChar(s: string, from: nat, c: char): (r: Option<nat>)
    ensures r.Some? ==> from <= r.value < |s| && s[r.value] == c
    decreases |s| - from
  {
    if from >= |s| then None
    else if s[from] == c then Some(from)
    else FindChar(s, from + 1, c)
  }

  /** No index before the one found holds `c`; none at all when nothing is
      found. */
  lemma {:induction false} FindCharFirst(s: string, from: nat, c: char)
    ensures forall k :: from <= k < |s| && (FindChar(s, from, c).None? || k < FindChar(s, from, c).value) ==> s[k] != c
    decreases |s| - from
  {
    if from < |s| && s[from] != c {
      FindCharFirst(s, from + 1, c);
    }
  }

  /** The first `c` at or after `from` is the one found. */
  lemma {:induction false} FindCharIs(s: string, from: nat, c: char, k: nat)
    requires from <= k < |s| && s[k] == c
    requires forall j :: from <= j < k ==> s[j] != c
    ensures FindChar(s, from, c) == Some(k)
    decreases k - from
  {
    if from < k {
      FindCharIs(s, from + 1, c, k);
    }
  }

  /** Without `c` at or after `from`, nothing is found. */
  lemma {:induction false} FindCharNone(s: string, from: nat, c: char)
    requires forall j :: from <= j < |s| ==> s[j] != c
    ensures FindChar(s, from, c) == None
    decreases |s| - from
  {
    if from < |s| {
      FindCharNone(s, from + 1, c);
    }
  }

  /** The text around the first `c`: what comes before it holds no `c`. */
  lemma FindCharSplit(s: string, c: char)
    requires FindChar(s, 0, c).Some?
    ensures var k := FindChar(s, 0, c).value;
      s == s[..k] + [c] + s[k + 1..] && c !in s[..k]
  {
    var k := FindChar(s, 0, c).value;
    FindCharFirst(s, 0, c);
    assert forall j :: 0 <= j < k ==> s[..k][j] == s[j];
    assert s == s[..k] + [c] + s[k + 1..];
  }

  /** Nothing is found only in a text without `c`. */
  lemma FindCharAbsent(s: string, c: char)
    requires FindChar(s, 0, c).None?
    ensures c !in s
  {
    FindCharFirst(s, 0, c);
  }

  /** The first index at or after `from` where `p` occurs. */
  function Find(s: string, from: nat, p: string): (r: Option<nat>)
    ensures r.Some? ==> from <= r.value && At(s, r.value, p)
    decreases |s| - from
  {
    if from + |p| > |s| then None
    else if At(s, from, p) then Some(from)
    else Find(s, from + 1, p)
  }

  /** `p` does not occur before the index found; nowhere when nothing is
      found. */
  lemma {:induction false} FindFirst(s: string, from: nat, p: string)
    ensures forall k: nat :: from <= k && (Find(s, from, p).None? || k < Find(s, from, p).value) ==> !At(s, k, p)
    decreases |s| - from
  {
    if from + |p| <= |s| && !At(s, from, p) {
      FindFirst(s, from + 1, p);
    }
  }

  /** The first occurrence of `p` at or after `from` is the one found. */
  lemma {:induction false} FindIs(s: string, from: nat, p: string, k: nat)
    requires from <= k && At(s, k, p)
    requires forall j: nat :: from <= j < k ==> !At(s, j, p)
    ensures Find(s, from, p) == Some(k)
    decreases k - from
  {
    if from < k {
      FindIs(s, from + 1, p, k);
    }
  }

  /** Rust's `str::replace`: every non-overlapping occurrence of `pat`,
      found from left to right, is replaced by `rep`. */
  function Replace(s: string, pat: string, rep: string): string
    requires pat != []
    decreases |s|
  {
    if s == [] then []
    else if At(s, 0, pat) then rep + Replace(s[|pat|..], pat, rep)
    else [s[0]] + Replace(s[1..], pat, rep)
  }

  lemma AtShift(s: string, k: nat, i: nat, p: string)
    requires k <= |s|
    ensures At(s[k..], i, p) == At(s, i + k, p)
  {
    if i + k + |p| <= |s| {
      assert s[k..][i..i + |p|] == s[i + k..i + k + |p|];
    }
  }

  /** Text in which `pat` does not occur is left unchanged. */
  lemma {:induction false} ReplaceNoMatch(s: string, pat: string, rep: string)
    requires pat != []
    requires forall i: nat :: !At(s, i, pat)
    ensures Replace(s, pat, rep) == s
    decreases |s|
  {
    if s != [] {
      assert !At(s, 0, pat);
      forall i: nat ensures !At(s[1..], i, pat) {
        AtShift(s, 1, i, pat);
      }
      ReplaceNoMatch(s[1..], pat, rep);
      assert [s[0]] + s[1..] == s;
    }
  }

  /** A one-character pattern that does not occur leaves the text unchanged. */
  lemma ReplaceAbsentChar(s: string, c: char, rep: string)
    requires c !in s
    ensures Replace(s, [c], rep) == s
  {
    forall i: nat ensures !At(s, i, [c]) {
      if i + 1 <= |s| {
        assert s[i..i + 1] == [s[i]];
      }
    }
    ReplaceNoMatch(s, [c], rep);
  }

  /** No occurrence of `p` starts inside `a` and runs past its end into
      whatever follows. */
  predicate NoStraddle(a: string, p: string) {
    forall i :: 0 <= i < |a| < i + |p| ==> !StartsWith(p, a[i..])
  }

  /** Text that does not contain the pattern's first character is copied
      through, and replacement carries on after it. */
  lemma {:induction false} ReplaceSkip(a: string, b: string, pat: string, rep: string)
    requires pat != [] && pat[0] !in a
    ensures Replace(a + b, pat, rep) == a + Replace(b, pat, rep)
  {
    if a == [] {
      assert a + b == b;
    } else {
      assert (a + b)[0] == a[0] && (a + b)[1..] == a[1..] + b;
      ReplaceSkip(a[1..], b, pat, rep);
    }
  }

  /** Text that does not contain the pattern's first character is unchanged. */
  lemma ReplaceNoFirst(s: string, pat: string, rep: string)
    requires pat != [] && pat[0] !in s
    ensures Replace(s, pat, rep) == s
  {
    ReplaceSkip(s, [], pat, rep);
    assert s + [] == s;
  }

  /** An occurrence in `a + b` that starts in `a` and runs past its end
      begins with the rest of `a`. */
  lemma StraddleAt(a: string, b: string, pat: string, i: nat)
    requires i < |a| < i + |pat| && At(a + b, i, pat)
    ensures StartsWith(pat, a[i..])
  {
    assert pat[..|a| - i] == (a + b)[i..i + |pat|][..|a| - i] == a[i..];
  }

  /** `Replace` distributes over a concatenation when no occurrence of the
      pattern straddles the seam. */
  lemma {:induction false} ReplaceConcat(a: string, b: string, pat: string, rep: string)
    requires pat != []
    requires NoStraddle(a, pat)
    ensures Replace(a + b, pat, rep) == Replace(a, pat, rep) + Replace(b, pat, rep)
    decreases |a|
  {
    if a == [] {
      assert a + b == b;
    } else if At(a + b, 0, pat) {
      if |a| < |pat| {
        StraddleAt(a, b, pat, 0);
        assert false;
      }
      assert At(a, 0, pat) by { assert a[..|pat|] == (a + b)[..|pat|]; }
      var a' := a[|pat|..];
      assert (a + b)[|pat|..] == a' + b;
      forall i | 0 <= i < |a'| < i + |pat| ensures !StartsWith(pat, a'[i..]) {
        assert a'[i..] == a[i + |pat|..];
      }
      ReplaceConcat(a', b, pat, rep);
    } else {
      var a' := a[1..];
      assert (a + b)[1..] == a' + b;
      forall i | 0 <= i < |a'| < i + |pat| ensures !StartsWith(pat, a'[i..]) {
        assert a'[i..] == a[i + 1..];
      }
      ReplaceConcat(a', b, pat, rep);
    }
  }

  /** The text `p + b` with its leading `p` replaced. */
  lemma ReplaceLeading(p: string, b: string, rep: string)
    requires p != []
    ensures Replace(p + b, p, rep) == rep + Replace(b, p, rep)
  {
    assert (p + b)[..|p|] == p;
    assert (p + b)[|p|..] == b;
  }

  /** Replacing the one and only occurrence of `x` in `t`, at index `k`,
      splices `y` in at that index. */
  lemma {:induction false} ReplaceOnce(t: string, k: nat, x: string, y: string)
    requires x != [] && At(t, k, x)
    requires forall j: nat :: j != k ==> !At(t, j, x)
    ensures Replace(t, x, y) == t[..k] + y + t[k + |x|..]
    decreases k
  {
    if k == 0 {
      ReplaceOnceHere(t, x, y);
    } else {
      var t' := t[1..];
      assert !At(t, 0, x);
      assert Replace(t, x, y) == [t[0]] + Replace(t', x, y);
      ReplaceOnceShift(t, k, x);
      ReplaceOnce(t', k - 1, x, y);
      assert [t[0]] + t'[..k - 1] == t[..k];
      assert t'[k - 1 + |x|..] == t[k + |x|..];
    }
  }

  /** The case of `ReplaceOnce` where the only occurrence starts the text. */
  lemma ReplaceOnceHere(t: string, x: string, y: string)
    requires x != [] && At(t, 0, x)
    requires forall j: nat :: j != 0 ==> !At(t, j, x)
    ensures Replace(t, x, y) == y + t[|x|..]
  {
    var rest := t[|x|..];
    forall j: nat ensures !At(rest, j, x) {
      AtShift(t, |x|, j, x);
    }
    ReplaceNoMatch(rest, x, y);
  }

  /** Dropping the first character moves the only occurrence one place left. */
  lemma ReplaceOnceShift(t: string, k: nat, x: string)
    requires 0 < k && At(t, k, x)
    requires forall j: nat :: j != k ==> !At(t, j, x)
    ensures At(t[1..], k - 1, x) && forall j: nat :: j != k - 1 ==> !At(t[1..], j, x)
  {
    forall j: nat | j != k - 1 ensures !At(t[1..], j, x) {
      AtShift(t, 1, j, x);
    }
    AtShift(t, 1, k - 1, x);
  }

  /** The concatenation of `t(c)` over the characters `c` of `s`. */
  function Flat(s: string, t: char -> string): string {
    if s == [] then [] else t(s[0]) + Flat(s[1..], t)
  }

  lemma {:induction false} FlatConcat(a: string, b: string, t: char -> string)
    ensures Flat(a + b, t) == Flat(a, t) + Flat(b, t)
  {
    if a == [] {
      assert a + b == b;
    } else {
      assert (a + b)[0] == a[0] && (a + b)[1..] == a[1..] + b;
      FlatConcat(a[1..], b, t);
    }
  }

  /** A character of `Flat(s, t)` comes from the expansion of some character of `s`. */
  lemma {:induction false} FlatContains(s: string, t: char -> string, d: char)
    requires d in Flat(s, t)
    ensures exists i :: 0 <= i < |s| && d in t(s[i])
  {
    if d in t(s[0]) {
      assert d in t(s[0]);
    } else {
      FlatContains(s[1..], t, d);
      var i :| 0 <= i < |s[1..]| && d in t(s[1..][i]);
      assert s[1..][i] == s[i + 1];
    }
  }

  /** Replacing in an expansion replaces in each character's expansion, when
      no occurrence of the pattern straddles two expansions. */
  lemma {:induction false} ReplaceFlat(s: string, t: char -> string, u: char -> string, pat: string, rep: string)
    requires pat != []
    requires forall i :: 0 <= i < |s| ==> NoStraddle(t(s[i]), pat) && u(s[i]) == Replace(t(s[i]), pat, rep)
    ensures Replace(Flat(s, t), pat, rep) == Flat(s, u)
  {
    if s != [] {
      assert NoStraddle(t(s[0]), pat);
      ReplaceConcat(t(s[0]), Flat(s[1..], t), pat, rep);
      forall i | 0 <= i < |s[1..]|
        ensures NoStraddle(t(s[1..][i]), pat) && u(s[1..][i]) == Replace(t(s[1..][i]), pat, rep)
      {
        assert s[1..][i] == s[i + 1];
      }
      ReplaceFlat(s[1..], t, u, pat, rep);
    }
  }

  /** One pass of a single-character `Replace` over an expansion: every
      expansion that is exactly `[c]` becomes `rep`, and the others, which
      do not contain `c`, stay as they are. */
  lemma ReplaceCharFlat(s: string, t: char -> string, u: char -> string, c: char, rep: string)
    requires forall i :: 0 <= i < |s| ==>
      if t(s[i]) == [c] then u(s[i]) == rep else c !in t(s[i]) && u(s[i]) == t(s[i])
    ensures Replace(Flat(s, t), [c], rep) == Flat(s, u)
  {
    forall i | 0 <= i < |s|
      ensures NoStraddle(t(s[i]), [c]) && u(s[i]) == Replace(t(s[i]), [c], rep)
    {
      if t(s[i]) == [c] {
        ReplaceLeading([c], [], rep);
        assert [c] + [] == [c];
      } else {
        ReplaceAbsentChar(t(s[i]), c, rep);
      }
    }
    ReplaceFlat(s, t, u, [c], rep);
  }

  /** Each character stands for itself. */
  function Self(c: char): string { [c] }

  /** Expanding every character to itself gives back the text. */
  lemma {:induction false} FlatSelf(s: string)
    ensures Flat(s, Self) == s
  {
    if s != [] {
      FlatSelf(s[1..]);
      assert [s[0]] + s[1..] == s;
    }
  }

  /** Rust's `char::is_whitespace`: the Unicode White_Space property. */
  predicate IsWhitespace(c: char) {
    ('\t' <= c <= '\r') || c == ' ' || c == '\U{85}' || c == '\U{A0}' || c == '\U{1680}'
    || ('\U{2000}' <= c <= '\U{200A}') || c == '\U{2028}' || c == '\U{2029}'
    || c == '\U{202F}' || c == '\U{205F}' || c == '\U{3000}'
  }

  /** Rust's `str::trim_start_matches(c)` for a single character `c`. */
  function TrimStartMatches(s: string, c: char): (r: string)
    ensures |r| <= |s| && r == s[|s| - |r|..]
    ensures r == [] || r[0] != c
  {
    if s != [] && s[0] == c then TrimStartMatches(s[1..], c) else s
  }

  /** Only copies of `c` are removed. */
  lemma {:induction false} TrimStartMatchesRemoves(s: string, c: char)
    ensures forall k :: 0 <= k < |s| - |TrimStartMatches(s, c)| ==> s[k] == c
  {
    if s != [] && s[0] == c {
      TrimStartMatchesRemoves(s[1..], c);
      assert forall k :: 1 <= k < |s| ==> s[k] == s[1..][k - 1];
    }
  }

  /** Rust's `str::trim_start`. */
  function TrimStart(s: string): (r: string)
    ensures |r| <= |s| && r == s[|s| - |r|..]
    ensures r == [] || !IsWhitespace(r[0])
  {
    if s != [] && IsWhitespace(s[0]) then TrimStart(s[1..]) else s
  }

  /** Only whitespace is removed. */
  lemma {:induction false} TrimStartRemoves(s: string)
    ensures forall k :: 0 <= k < |s| - |TrimStart(s)| ==> IsWhitespace(s[k])
  {
    if s != [] && IsWhitespace(s[0]) {
      TrimStartRemoves(s[1..]);
      assert forall k :: 1 <= k < |s| ==> s[k] == s[1..][k - 1];
    }
  }

  /** Rust's `str::trim_end`. */
  function TrimEnd(s: string): (r: string)
    ensures |r| <= |s| && r == s[..|r|]
    ensures r == [] || !IsWhitespace(r[|r| - 1])
  {
    if s != [] && IsWhitespace(s[|s| - 1]) then TrimEnd(s[..|s| - 1]) else s
  }

  /** Only whitespace is removed. */
  lemma {:induction false} TrimEndRemoves(s: string)
    ensures forall k :: |TrimEnd(s)| <= k < |s| ==> IsWhitespace(s[k])
  {
    if s != [] && IsWhitespace(s[|s| - 1]) {
      TrimEndRemoves(s[..|s| - 1]);
      assert forall k :: 0 <= k < |s| - 1 ==> s[k] == s[..|s| - 1][k];
    }
  }

  /** Rust's `str::trim`. */
  function Trim(s: string): string {
    TrimEnd(TrimStart(s))
  }

  /** Rust's `char::to_ascii_lowercase`. */
  function AsciiLowerChar(c: char): char {
    if 'A' <= c <= 'Z' then (c as int + 32) as char else c
  }

  /** Rust's `str::to_ascii_lowercase`. */
  function AsciiLower(s: string): (r: string)
    ensures |r| == |s|
  {
    if s == [] then [] else [AsciiLowerChar(s[0])] + AsciiLower(s[1..])
  }

  /** Each character is lowered on its own. */
  lemma {:induction false} AsciiLowerAt(s: string)
    ensures forall k :: 0 <= k < |s| ==> AsciiLower(s)[k] == AsciiLowerChar(s[k])
  {
    if s != [] {
      AsciiLowerAt(s[1..]);
      assert forall k :: 1 <= k < |s| ==> s[k] == s[1..][k - 1];
    }
  }
}
