/** Boyer-Moore search (tiny-vmi/strmatch.c): the three preprocessing tables and the search loop.

    Each table has a declarative meaning (`IsSuffixLength`, `IsGoodSuffixShift`,
    `IsBadCharShift`) that mentions no other table; the methods that fill the arrays are proved
    against those meanings, and the search against `IsFirstMatch`. */
module StrMatch {

  type byte = b: int | 0 <= b < 256
  // The C type `int`: every table cell and loop variable below is one.
  type cint = i: int | -INT_MAX - 1 <= i <= INT_MAX

  const ASIZE := 256
  const INT_MAX := 0x7fff_ffff

  // ---------------------------------------------------------------- what a match is

  ghost predicate OccursAt(x: seq<byte>, y: seq<byte>, j: int) {
    0 <= j <= |y| - |x| && forall k :: 0 <= k < |x| ==> y[j + k] == x[k]
  }

  /** `r` is the smallest position at which `x` occurs in `y`, or -1 when there is none. */
  ghost predicate IsFirstMatch(x: seq<byte>, y: seq<byte>, r: int) {
    if r == -1 then forall j :: !OccursAt(x, y, j)
    else OccursAt(x, y, r) && forall j :: j < r ==> !OccursAt(x, y, j)
  }

  lemma FirstMatchIsUnique(x: seq<byte>, y: seq<byte>, r: int, q: int)
    requires IsFirstMatch(x, y, r) && IsFirstMatch(x, y, q)
    ensures r == q
  {
    if r != -1 && q != -1 { assert !(q < r) && !(r < q); }
  }

  // ---------------------------------------------------------------- the suffix table

  /** The pattern slid right by `d` agrees with itself at position `q`. */
  predicate Agrees(x: seq<byte>, d: int, q: int) {
    0 <= d <= q < |x| && x[q - d] == x[q]
  }

  /** The `k` characters of `x` that end at `i` equal the last `k` characters of `x`. */
  ghost predicate CommonSuffix(x: seq<byte>, i: int, k: int) {
    var d := |x| - 1 - i;
    0 <= k <= i + 1 <= |x| && forall q :: |x| - k <= q < |x| ==> Agrees(x, d, q)
  }

  /** `k` is the length of the longest common suffix of `x[..i+1]` and `x`. */
  ghost predicate IsSuffixLength(x: seq<byte>, i: int, k: int) {
    CommonSuffix(x, i, k) && forall l :: CommonSuffix(x, i, l) ==> l <= k
  }

  // A common suffix is the longest exactly when it cannot be extended by one character.
  lemma LongestIffMaximal(x: seq<byte>, i: int, k: int)
    requires 0 <= i < |x| && CommonSuffix(x, i, k)
    ensures IsSuffixLength(x, i, k) <==> !Agrees(x, |x| - 1 - i, |x| - 1 - k)
  {
    if Agrees(x, |x| - 1 - i, |x| - 1 - k) {
      assert CommonSuffix(x, i, k + 1);
    }
  }

  // The positions (g, f] end in a longest common suffix found earlier. Inside them, position i
  // mirrors i + m-1-f, whose length l is already known. A length that ends inside is copied ...
  lemma ReuseShorter(x: seq<byte>, g: int, f: int, i: int, l: int)
    requires IsSuffixLength(x, f, f - g) && -1 <= g < i < f < |x| - 1
    requires IsSuffixLength(x, i + |x| - 1 - f, l) && l < i - g
    ensures IsSuffixLength(x, i, l)
  {
    var mirror, d := i + |x| - 1 - f, |x| - 1 - i;
    forall q | |x| - l <= q < |x| ensures Agrees(x, d, q) {
      assert Agrees(x, |x| - 1 - mirror, q) && Agrees(x, |x| - 1 - f, q - (|x| - 1 - mirror));
    }
    LongestIffMaximal(x, mirror, l);
    assert Agrees(x, |x| - 1 - f, mirror - l);
    LongestIffMaximal(x, i, l);
  }

  // ... and one that reaches the edge lets the comparison resume at g.
  lemma ReuseLonger(x: seq<byte>, g: int, f: int, i: int, l: int)
    requires IsSuffixLength(x, f, f - g) && -1 <= g < i < f < |x| - 1
    requires IsSuffixLength(x, i + |x| - 1 - f, l) && l >= i - g
    ensures CommonSuffix(x, i, i - g)
  {
    var mirror, d := i + |x| - 1 - f, |x| - 1 - i;
    forall q | |x| - (i - g) <= q < |x| ensures Agrees(x, d, q) {
      assert Agrees(x, |x| - 1 - mirror, q) && Agrees(x, |x| - 1 - f, q - (|x| - 1 - mirror));
    }
  }

  /** Fills the suffix table. `comparisons` counts the evaluations of `x[g] == x[g + m - 1 - f]`: the
      table is built in linear time although it nests two loops. `peak` is the largest sum formed on the
      way to an index (`i + m` and `g + m`): it is what decides whether all stay in the range of int. */
  method Suffixes(x: seq<byte>, suff: array<cint>) returns (ghost comparisons: nat, ghost peak: nat)
    requires 1 <= |x| <= INT_MAX && suff.Length == |x|
    modifies suff
    ensures forall i :: 0 <= i < |x| ==> IsSuffixLength(x, i, suff[i])
    ensures comparisons <= 2 * |x| - 1
    ensures peak == (if |x| == 1 then 0 else 2 * |x| - 2)
    ensures peak <= INT_MAX <==> |x| <= 0x4000_0000
  {
    var m: cint := |x|;
    comparisons, peak := 0, 0;
    var f: cint, g: cint := 0, m - 1;
    suff[m - 1] := m;
    LongestIffMaximal(x, m - 1, m);
    var i: cint := m - 2;
    while i >= 0
      invariant -1 <= i <= m - 2 && -1 <= g <= m - 1
      invariant i == m - 2 ==> g == m - 1
      invariant i < m - 2 ==> g <= f && i < f < m - 1 && IsSuffixLength(x, f, f - g)
      invariant forall t :: i < t < m ==> IsSuffixLength(x, t, suff[t])
      invariant comparisons <= (m - 1 - g) + (m - 2 - i)
      invariant peak == if i == m - 2 then 0 else 2 * m - 2
    {
      if i > g { peak := Max(peak, i + m); }
      if i > g && suff[i + m - 1 - f] < i - g {
        ReuseShorter(x, g, f, i, suff[i + m - 1 - f]);
        suff[i] := suff[i + m - 1 - f];
      } else {
        if i > g { ReuseLonger(x, g, f, i, suff[i + m - 1 - f]); }
        if i < g { g := i; }
        f := i;
        ghost var g0 := g;
        ghost var counted := comparisons;
        while g >= 0 && x[g] == x[g + m - 1 - f]
          invariant -1 <= g <= g0
          invariant CommonSuffix(x, f, f - g)
          invariant comparisons == counted + (g0 - g)
          invariant peak == if g == g0 && i == m - 2 then 0 else 2 * m - 2
        {
          peak := Max(peak, g + m);
          assert Agrees(x, m - 1 - f, g + m - 1 - f);
          comparisons := comparisons + 1;
          g := g - 1;
        }
        if g >= 0 { comparisons, peak := comparisons + 1, Max(peak, g + m); }
        suff[i] := f - g;
        LongestIffMaximal(x, i, f - g);
      }
      i := i - 1;
    }
  }

  // ---------------------------------------------------------------- the shift tables

  /** Sliding the pattern by `s` after a mismatch at `p` keeps the matched part (p, m) in
      agreement and puts a different character at `p`. */
  ghost predicate GoodSuffix(x: seq<byte>, p: int, s: int) {
    && s >= 1
    && (forall q :: p < q < |x| && s <= q ==> Agrees(x, s, q))
    && !Agrees(x, s, p)
  }

  /** `s` is the least shift that a mismatch at `p` permits. */
  ghost predicate IsGoodSuffixShift(x: seq<byte>, p: int, s: int) {
    GoodSuffix(x, p, s) && forall r :: GoodSuffix(x, p, r) ==> s <= r
  }

  /** `s` is the distance from the end of the pattern to the last earlier occurrence of `c`. */
  ghost predicate IsBadCharShift(x: seq<byte>, c: byte, s: int) {
    && 1 <= s <= |x|
    && (s < |x| ==> x[|x| - 1 - s] == c)
    && forall t :: |x| - 1 - s < t < |x| - 1 ==> x[t] != c
  }

  ghost predicate IsSuffixTable(x: seq<byte>, suff: seq<int>) {
    |suff| == |x| && forall i :: 0 <= i < |x| ==> IsSuffixLength(x, i, suff[i])
  }

  /** How `preBmGs` reads a shift off the suffix table: either the common suffix ending `s` early
      stops exactly at `p`, or a whole border of length m - s remains. */
  predicate ReadOff(x: seq<byte>, suff: seq<int>, p: int, s: int)
    requires |suff| == |x| && 1 <= s < |x|
  {
    var i := |x| - 1 - s;
    suff[i] == |x| - 1 - p || (s > p && suff[i] == i + 1)
  }

  // The suffix table holds exactly the information that decides a good-suffix shift.
  lemma GoodSuffixFromTable(x: seq<byte>, suff: seq<int>, p: int, s: int)
    requires IsSuffixTable(x, suff) && 0 <= p < |x| && 1 <= s < |x|
    ensures GoodSuffix(x, p, s) <==> ReadOff(x, suff, p, s)
  {
    var i := |x| - 1 - s;
    assert IsSuffixLength(x, i, suff[i]);
    LongestIffMaximal(x, i, suff[i]);
    if GoodSuffix(x, p, s) {
      var l := if s > p then i + 1 else |x| - 1 - p;
      assert CommonSuffix(x, i, l);
      LongestIffMaximal(x, i, l);
    }
  }

  // Sliding the pattern off the matched part altogether is always permitted.
  lemma FullShiftIsGood(x: seq<byte>, p: int, s: int)
    requires 0 <= p < |x| <= s
    ensures GoodSuffix(x, p, s)
  {
  }

  // Result of the border pass at p: the least s > p with a border of length m - s, else m.
  ghost predicate IsBorderShift(suff: seq<int>, p: int, s: int) {
    var m := |suff|;
    && 0 <= p < s <= m
    && (s < m ==> suff[m - 1 - s] == m - s)
    && forall t :: m - 1 - s < t < m - 1 - p ==> suff[t] != t + 1
  }

  // Result of the inner pass at p after positions 0..i: the largest position whose common suffix
  // stops at p decides; without one the border pass's value stays.
  ghost predicate IsInnerShift(suff: seq<int>, border: seq<int>, p: int, i: int, s: int)
    requires |border| == |suff| && 0 <= p < |suff| && 0 <= i <= |suff|
  {
    var m := |suff|;
    if forall t :: 0 <= t < i ==> suff[t] != m - 1 - p then s == border[p]
    else
      var t := m - 1 - s;
      0 <= t < i && suff[t] == m - 1 - p && forall u :: t < u < i ==> suff[u] != m - 1 - p
  }

  // First half of `preBmGs`: default shifts, then the borders of the pattern, longest first.
  method BorderPass(suff: array<cint>, bmGs: array<cint>)
    requires 1 <= suff.Length == bmGs.Length <= INT_MAX && suff != bmGs
    modifies bmGs
    ensures forall p :: 0 <= p < bmGs.Length ==> IsBorderShift(suff[..], p, bmGs[p])
  {
    var m: cint := suff.Length;
    for k := 0 to m
      invariant forall p :: 0 <= p < k ==> bmGs[p] == m
    {
      bmGs[k] := m;
    }
    var i: cint, j: cint := m - 1, 0;
    while i >= 0
      invariant -1 <= i < m && 0 <= j < m && j <= m - 1 - i
      invariant forall p :: j <= p < m ==> bmGs[p] == m
      invariant forall p :: 0 <= p < j ==> IsBorderShift(suff[..], p, bmGs[p])
      invariant forall t :: i < t < m - 1 - j ==> suff[t] != t + 1
    {
      if suff[i] == i + 1 {
        while j < m - 1 - i
          invariant 0 <= j < m && j <= m - 1 - i
          invariant forall p :: j <= p < m ==> bmGs[p] == m
          invariant forall p :: 0 <= p < j ==> IsBorderShift(suff[..], p, bmGs[p])
          invariant forall t :: i < t < m - 1 - j ==> suff[t] != t + 1
        {
          if bmGs[j] == m { bmGs[j] := m - 1 - i; }
          assert IsBorderShift(suff[..], j, m - 1 - i);
          j := j + 1;
        }
      }
      i := i - 1;
    }
  }

  // Second half of `preBmGs`: a later position means a smaller shift, so the last write wins.
  method InnerPass(suff: array<cint>, bmGs: array<cint>)
    requires 1 <= suff.Length == bmGs.Length <= INT_MAX && suff != bmGs
    requires forall i :: 0 <= i < suff.Length ==> 0 <= suff[i] <= i + 1
    modifies bmGs
    ensures forall p :: 0 <= p < bmGs.Length ==>
      IsInnerShift(suff[..], old(bmGs[..]), p, suff.Length - 1, bmGs[p])
  {
    var m: cint := suff.Length;
    ghost var border := bmGs[..];
    for i := 0 to m - 1
      invariant forall p :: 0 <= p < m ==> IsInnerShift(suff[..], border, p, i, bmGs[p])
    {
      bmGs[m - 1 - suff[i]] := m - 1 - i;
      assert suff[..][i] == suff[i];
    }
  }

  /** Fills the good-suffix table. */
  method PreBmGs(x: seq<byte>, bmGs: array<cint>)
    requires 1 <= |x| <= INT_MAX && bmGs.Length == |x|
    modifies bmGs
    ensures IsGoodSuffixTable(x, bmGs[..])
    ensures forall p :: 0 <= p < |x| ==> 1 <= bmGs[p] <= |x|
  {
    var suff := new cint[|x|];
    ghost var comparisons, peak := Suffixes(x, suff);
    ghost var table := suff[..];
    assert IsSuffixTable(x, table);
    forall i | 0 <= i < |x| ensures 0 <= suff[i] <= i + 1 {
      assert IsSuffixLength(x, i, table[i]);
    }
    BorderPass(suff, bmGs);
    ghost var border := bmGs[..];
    InnerPass(suff, bmGs);
    forall p | 0 <= p < |x|
      ensures IsGoodSuffixShift(x, p, bmGs[p]) && 1 <= bmGs[p] <= |x|
    {
      ShiftIsLeast(x, table, border, p, bmGs[p]);
    }
  }

  lemma ShiftIsLeast(x: seq<byte>, suff: seq<int>, border: seq<int>, p: int, s: int)
    requires IsSuffixTable(x, suff) && |x| >= 1 && |border| == |x| && 0 <= p < |x|
    requires IsBorderShift(suff, p, border[p]) && IsInnerShift(suff, border, p, |x| - 1, s)
    ensures IsGoodSuffixShift(x, p, s) && 1 <= s <= |x|
  {
    var m := |x|;
    FullShiftIsGood(x, p, m);
    if s < m { GoodSuffixFromTable(x, suff, p, s); }
    forall r | GoodSuffix(x, p, r) ensures s <= r {
      if r < m { GoodSuffixFromTable(x, suff, p, r); }
    }
  }

  /** Fills the bad-character table. */
  method PreBmBc(x: seq<byte>, bmBc: array<cint>)
    requires 1 <= |x| <= INT_MAX && bmBc.Length == ASIZE
    modifies bmBc
    ensures forall c: byte :: IsBadCharShift(x, c, bmBc[c])
  {
    var m: cint := |x|;
    for c := 0 to ASIZE
      invariant forall b :: 0 <= b < c ==> bmBc[b] == m
    {
      bmBc[c] := m;
    }
    for i := 0 to m - 1
      invariant forall c: byte {:trigger bmBc[c]} ::
        && (bmBc[c] == m || (0 <= m - 1 - bmBc[c] < i && x[m - 1 - bmBc[c]] == c))
        && forall t :: m - 1 - bmBc[c] < t < i ==> x[t] != c
    {
      bmBc[x[i]] := m - i - 1;
    }
  }

  // ---------------------------------------------------------------- the search

  ghost predicate IsGoodSuffixTable(x: seq<byte>, bmGs: seq<int>) {
    |bmGs| == |x| && forall p :: 0 <= p < |x| ==> IsGoodSuffixShift(x, p, bmGs[p])
  }

  ghost predicate IsBadCharTable(x: seq<byte>, bmBc: seq<int>) {
    |bmBc| == ASIZE && forall c: byte :: IsBadCharShift(x, c, bmBc[c])
  }

  // After a mismatch at pattern position i of alignment j, an occurrence further right is at
  // least the good-suffix shift away ...
  lemma GoodSuffixSkipsNothing(x: seq<byte>, y: seq<byte>, j: int, i: int, s: int, j2: int)
    requires 0 <= j <= |y| - |x| && 0 <= i < |x|
    requires x[i] != y[i + j] && forall k :: i < k < |x| ==> x[k] == y[k + j]
    requires IsGoodSuffixShift(x, i, s)
    requires j < j2 && OccursAt(x, y, j2)
    ensures j + s <= j2
  {
    var d := j2 - j;
    forall q | i < q < |x| && d <= q ensures Agrees(x, d, q) {
      assert y[j2 + (q - d)] == x[q - d];
    }
    if d <= i { assert y[j2 + (i - d)] == x[i - d]; }
    assert GoodSuffix(x, i, d);
  }

  // ... and at least the bad-character shift, corrected for the mismatch position, away.
  lemma BadCharSkipsNothing(x: seq<byte>, y: seq<byte>, j: int, i: int, s: int, j2: int)
    requires 0 <= j <= |y| - |x| && 0 <= i < |x|
    requires x[i] != y[i + j]
    requires IsBadCharShift(x, y[i + j], s)
    requires j < j2 && OccursAt(x, y, j2)
    ensures j + s - |x| + 1 + i <= j2
  {
    var d := j2 - j;
    if d <= i {
      assert y[j2 + (i - d)] == x[i - d];
      assert x[i - d] == y[i + j];
    }
  }

  function Max(a: int, b: int): int { if a > b then a else b }

  /** The search loop shared by `boyer_moore` and `boyer_moore2`. */
  method Search(x: seq<byte>, bmGs: array<cint>, bmBc: array<cint>, y: seq<byte>) returns (r: cint)
    requires 1 <= |x| <= INT_MAX && |y| <= INT_MAX
    requires IsGoodSuffixTable(x, bmGs[..]) && IsBadCharTable(x, bmBc[..])
    ensures IsFirstMatch(x, y, r)
  {
    var m: cint, n: cint := |x|, |y|;
    var j: cint := 0;
    while j <= n - m
      invariant 0 <= j <= n
      invariant forall k :: k < j ==> !OccursAt(x, y, k)
      decreases n - j
    {
      var i: cint := m - 1;
      while i >= 0 && x[i] == y[i + j]
        invariant -1 <= i < m
        invariant forall k :: i < k < m ==> x[k] == y[k + j]
        decreases i
      {
        i := i - 1;
      }
      if i < 0 {
        return j;
      }
      assert bmGs[..][i] == bmGs[i] && bmBc[..][y[i + j]] == bmBc[y[i + j]];
      FullShiftIsGood(x, i, m);
      forall k | j < k && OccursAt(x, y, k)
        ensures j + bmGs[i] <= k && j + bmBc[y[i + j]] - m + 1 + i <= k
      {
        GoodSuffixSkipsNothing(x, y, j, i, bmGs[i], k);
        BadCharSkipsNothing(x, y, j, i, bmBc[y[i + j]], k);
      }
      assert !OccursAt(x, y, j) by { assert y[j + i] != x[i]; }
      j := j + Max(bmGs[i], bmBc[y[i + j]] - m + 1 + i);
    }
    return -1;
  }

  /** `boyer_moore`: preprocess and search in one call. */
  method BoyerMoore(x: seq<byte>, y: seq<byte>) returns (r: cint)
    requires 1 <= |x| <= INT_MAX && |y| <= INT_MAX
    ensures IsFirstMatch(x, y, r)
  {
    var bmGs := new cint[|x|];
    var bmBc := new cint[ASIZE];
    PreBmGs(x, bmGs);
    PreBmBc(x, bmBc);
    r := Search(x, bmGs, bmBc, y);
  }

  /** `boyer_moore_data_t`: a pattern preprocessed once and searched for many times. */
  class BoyerMooreData {
    const x: seq<byte>
    const bmGs: array<cint>
    const bmBc: array<cint>

    ghost predicate Valid()
      reads bmGs, bmBc
    {
      1 <= |x| <= INT_MAX && IsGoodSuffixTable(x, bmGs[..]) && IsBadCharTable(x, bmBc[..])
    }

    constructor (pattern: seq<byte>)
      requires 1 <= |pattern| <= INT_MAX
      ensures Valid() && x == pattern && fresh(bmGs) && fresh(bmBc)
    {
      x := pattern;
      bmGs := new cint[|pattern|];
      bmBc := new cint[ASIZE];
      new;
      PreBmGs(pattern, bmGs);
      PreBmBc(pattern, bmBc);
    }

    /** `boyer_moore2`; by FirstMatchIsUnique it returns what `BoyerMoore` returns. */
    method Find(y: seq<byte>) returns (r: cint)
      requires Valid() && |y| <= INT_MAX
      ensures IsFirstMatch(x, y, r)
    {
      r := Search(x, bmGs, bmBc, y);
    }
  }
}
