/** The in-place merge sort of singly linked lists of tiny-vmi/tiny_glib/slist.c. */
module SListSort {
  import opened Sequences

  /** What a list element points to. */
  type Datum = int

  /** GCompareFunc: at most 0 when its first argument may come first. */
  type Compare = (Datum, Datum) -> int

  /** GSList. Sorting moves nodes, never data. */
  class Node {
    const data: Datum
    var next: Node?

    constructor (data: Datum)
      ensures this.data == data && next == null
    {
      this.data, next := data, null;
    }
  }

  // ---------------------------------------------------------------- orders and sorted lists

  /** `x` may come before `y`. */
  ghost predicate Leq(cmp: Compare, x: Datum, y: Datum) { cmp(x, y) <= 0 }

  ghost predicate TotalPreorder(cmp: Compare) {
    && (forall x, y :: Leq(cmp, x, y) || Leq(cmp, y, x))
    && (forall x, y, z :: Leq(cmp, x, y) && Leq(cmp, y, z) ==> Leq(cmp, x, z))
  }

  ghost predicate Equivalent(cmp: Compare, x: Datum, y: Datum) { Leq(cmp, x, y) && Leq(cmp, y, x) }

  ghost predicate Sorted(cmp: Compare, s: seq<Node>) {
    forall i, j :: 0 <= i < j < |s| ==> Leq(cmp, s[i].data, s[j].data)
  }

  /** The nodes equivalent to `d`, in the order of the list. */
  ghost function Class(cmp: Compare, s: seq<Node>, d: Datum): seq<Node> {
    if s == [] then []
    else (if Equivalent(cmp, s[0].data, d) then [s[0]] else []) + Class(cmp, s[1..], d)
  }

  /** The same nodes, sorted, with equivalent ones in their former order. */
  ghost predicate IsStableSort(cmp: Compare, before: seq<Node>, after: seq<Node>) {
    && multiset(after) == multiset(before)
    && Sorted(cmp, after)
    && forall d :: Class(cmp, after, d) == Class(cmp, before, d)
  }

  /** There is only one such list. */
  lemma StableSortIsUnique(cmp: Compare, before: seq<Node>, r: seq<Node>, s: seq<Node>)
    requires TotalPreorder(cmp) && IsStableSort(cmp, before, r) && IsStableSort(cmp, before, s)
    ensures r == s
  {
    ClassesDetermine(cmp, r, s);
  }

  lemma {:induction false} ClassesDetermine(cmp: Compare, r: seq<Node>, s: seq<Node>)
    requires TotalPreorder(cmp) && Sorted(cmp, r) && Sorted(cmp, s)
    requires forall d :: Class(cmp, r, d) == Class(cmp, s, d)
    ensures r == s
    decreases |r|
  {
    if r != [] { FirstInItsClass(cmp, r); }
    if s != [] { FirstInItsClass(cmp, s); }
    if r == [] || s == [] {
    } else {
      InClass(cmp, r, s[0]);
      InClass(cmp, s, r[0]);
      SortedTail(cmp, r);
      SortedTail(cmp, s);
      hide Sorted, TotalPreorder;
      assert Class(cmp, r, r[0].data)[0] == r[0];
      assert Class(cmp, s, r[0].data)[0] == s[0];
      forall d ensures Class(cmp, r[1..], d) == Class(cmp, s[1..], d) {
        var head := if Equivalent(cmp, r[0].data, d) then [r[0]] else [];
        assert head + Class(cmp, r[1..], d) == Class(cmp, r, d) == Class(cmp, s, d) == head + Class(cmp, s[1..], d);
        assert (head + Class(cmp, r[1..], d))[|head|..] == Class(cmp, r[1..], d);
        assert (head + Class(cmp, s[1..], d))[|head|..] == Class(cmp, s[1..], d);
      }
      ClassesDetermine(cmp, r[1..], s[1..]);
      assert r == [r[0]] + r[1..] && s == [s[0]] + s[1..];
    }
  }

  lemma SortedTail(cmp: Compare, s: seq<Node>)
    requires s != [] && Sorted(cmp, s)
    ensures Sorted(cmp, s[1..])
  {
  }

  lemma FirstInItsClass(cmp: Compare, s: seq<Node>)
    requires TotalPreorder(cmp) && s != []
    ensures Class(cmp, s, s[0].data) != []
  {
    assert Leq(cmp, s[0].data, s[0].data);
  }

  // A node that is in its class of a sorted list comes no earlier than the first node.
  lemma {:induction false} InClass(cmp: Compare, r: seq<Node>, x: Node)
    requires TotalPreorder(cmp) && r != [] && Sorted(cmp, r) && x in Class(cmp, r, x.data)
    ensures Leq(cmp, r[0].data, x.data)
  {
    MembersOfClass(cmp, r, x.data);
    var i :| 0 <= i < |r| && r[i] == x;
    assert Leq(cmp, x.data, x.data);
  }

  lemma {:induction false} MembersOfClass(cmp: Compare, r: seq<Node>, d: Datum)
    ensures forall x :: x in Class(cmp, r, d) <==> x in r && Equivalent(cmp, x.data, d)
  {
    if r == [] {
    } else {
      MembersOfClass(cmp, r[1..], d);
      assert r == [r[0]] + r[1..];
    }
  }

  lemma {:induction false} NoneEquivalent(cmp: Compare, r: seq<Node>, d: Datum)
    requires forall x :: x in r ==> !Equivalent(cmp, x.data, d)
    ensures Class(cmp, r, d) == []
  {
    if r == [] {
    } else {
      NoneEquivalent(cmp, r[1..], d);
    }
  }

  // ---------------------------------------------------------------- merging

  /** The merge of two lists, the first one served first on ties. */
  ghost function Merge(cmp: Compare, a: seq<Node>, b: seq<Node>): seq<Node> {
    if a == [] then b
    else if b == [] then a
    else if cmp(a[0].data, b[0].data) <= 0 then [a[0]] + Merge(cmp, a[1..], b)
    else [b[0]] + Merge(cmp, a, b[1..])
  }

  lemma {:induction false} MergeKeepsNodes(cmp: Compare, a: seq<Node>, b: seq<Node>)
    ensures multiset(Merge(cmp, a, b)) == multiset(a) + multiset(b)
    ensures |Merge(cmp, a, b)| == |a| + |b|
  {
    if a == [] || b == [] {
    } else {
      assert a == [a[0]] + a[1..] && b == [b[0]] + b[1..];
      if cmp(a[0].data, b[0].data) <= 0 { MergeKeepsNodes(cmp, a[1..], b); } else { MergeKeepsNodes(cmp, a, b[1..]); }
    }
  }

  lemma {:induction false} MergeSorts(cmp: Compare, a: seq<Node>, b: seq<Node>)
    requires TotalPreorder(cmp) && Sorted(cmp, a) && Sorted(cmp, b)
    ensures Sorted(cmp, Merge(cmp, a, b))
  {
    if a == [] || b == [] {
    } else {
      var (x, a', b') := if cmp(a[0].data, b[0].data) <= 0 then (a[0], a[1..], b) else (b[0], a, b[1..]);
      MergeSorts(cmp, a', b');
      MergeKeepsNodes(cmp, a', b');
      var rest := Merge(cmp, a', b');
      forall i | 0 <= i < |rest| ensures Leq(cmp, x.data, rest[i].data) {
        assert rest[i] in multiset(rest);
        var y := rest[i];
        assert Leq(cmp, a[0].data, b[0].data) || Leq(cmp, b[0].data, a[0].data);
        if y in a' { assert y in a; LeqFirst(cmp, a, y); } else { assert y in b'; assert y in b; LeqFirst(cmp, b, y); }
      }
    }
  }

  lemma LeqFirst(cmp: Compare, s: seq<Node>, y: Node)
    requires TotalPreorder(cmp) && Sorted(cmp, s) && y in s
    ensures Leq(cmp, s[0].data, y.data)
  {
    assert Leq(cmp, y.data, y.data);
  }

  lemma {:induction false} MergeIsStable(cmp: Compare, a: seq<Node>, b: seq<Node>, d: Datum)
    requires TotalPreorder(cmp) && Sorted(cmp, a) && Sorted(cmp, b)
    ensures Class(cmp, Merge(cmp, a, b), d) == Class(cmp, a, d) + Class(cmp, b, d)
  {
    if a == [] || b == [] {
    } else {
      if cmp(a[0].data, b[0].data) <= 0 {
        MergeIsStable(cmp, a[1..], b, d);
        assert ([a[0]] + Merge(cmp, a[1..], b))[1..] == Merge(cmp, a[1..], b);
      } else {
        MergeIsStable(cmp, a, b[1..], d);
        assert ([b[0]] + Merge(cmp, a, b[1..]))[1..] == Merge(cmp, a, b[1..]);
        if Equivalent(cmp, b[0].data, d) {
          forall x | x in a ensures !Equivalent(cmp, x.data, d) {
            LeqFirst(cmp, a, x);
          }
          NoneEquivalent(cmp, a, d);
        }
      }
    }
  }

  lemma {:induction false} ClassOfSum(cmp: Compare, a: seq<Node>, b: seq<Node>, d: Datum)
    ensures Class(cmp, a + b, d) == Class(cmp, a, d) + Class(cmp, b, d)
  {
    if a == [] {
      assert a + b == b;
    } else {
      assert (a + b)[1..] == a[1..] + b;
      ClassOfSum(cmp, a[1..], b, d);
    }
  }

  // Sorting both halves and merging them sorts the whole.
  lemma SortHalves(cmp: Compare, s: seq<Node>, k: nat, a: seq<Node>, b: seq<Node>)
    requires k <= |s| && multiset(a) == multiset(s[..k]) && multiset(b) == multiset(s[k..])
    requires TotalPreorder(cmp) ==> IsStableSort(cmp, s[..k], a) && IsStableSort(cmp, s[k..], b)
    ensures multiset(Merge(cmp, a, b)) == multiset(s)
    ensures TotalPreorder(cmp) ==> IsStableSort(cmp, s, Merge(cmp, a, b))
  {
    assert s == s[..k] + s[k..];
    MergeKeepsNodes(cmp, a, b);
    if TotalPreorder(cmp) {
      MergeSorts(cmp, a, b);
      forall d ensures Class(cmp, Merge(cmp, a, b), d) == Class(cmp, s, d) {
        MergeIsStable(cmp, a, b, d);
        ClassOfSum(cmp, s[..k], s[k..], d);
      }
    }
  }

  // ---------------------------------------------------------------- linked lists

  /** Node `i`, or null past the end. */
  ghost function At(s: seq<Node>, i: int): Node? {
    if 0 <= i < |s| then s[i] else null
  }

  /** Following `next` from `list` leads through `s` and ends. */
  ghost predicate Listed(list: Node?, s: seq<Node>)
    reads s
  {
    list == At(s, 0) && forall i {:trigger In(s, i)} :: In(s, i) ==> s[i].next == At(s, i + 1)
  }

  /** Following `next` from the first node of `s` leads through `s`, wherever its last node points. */
  ghost predicate Leads(s: seq<Node>)
    reads s
  {
    forall i {:trigger In(s, i)} :: In(s, i) && In(s, i + 1) ==> s[i].next == s[i + 1]
  }

  lemma DistinctByMultiset(r: seq<Node>, s: seq<Node>)
    requires multiset(r) == multiset(s) && Distinct(s)
    ensures Distinct(r)
  {
    forall i, j | In(r, i) && In(r, j) && i != j ensures r[i] != r[j] {
      if r[i] == r[j] {
        TwiceInMultiset(r, i, j);
        OnceInMultiset(s, r[i]);
      }
    }
  }

  lemma TwiceInMultiset(r: seq<Node>, i: nat, j: nat)
    requires i < |r| && j < |r| && i != j && r[i] == r[j]
    ensures multiset(r)[r[i]] >= 2
  {
    var lo, hi := if i < j then i else j, if i < j then j else i;
    assert r == r[..lo] + [r[lo]] + r[lo + 1..hi] + [r[hi]] + r[hi + 1..];
  }

  lemma {:induction false} OnceInMultiset(s: seq<Node>, x: Node)
    requires Distinct(s)
    ensures multiset(s)[x] <= 1
  {
    if s == [] {
    } else {
      var t := s[1..];
      forall i, j | In(t, i) && In(t, j) && i != j ensures t[i] != t[j] {
        assert In(s, i + 1) && In(s, j + 1);
      }
      OnceInMultiset(t, x);
      assert s == [s[0]] + t;
      if x == s[0] {
        forall i | 0 <= i < |t| ensures t[i] != x { assert In(s, i + 1) && In(s, 0); }
        assert x !in t;
      }
    }
  }

  lemma MergeTakes(cmp: Compare, s: seq<Node>, a: seq<Node>, b: seq<Node>)
    ensures s + Merge(cmp, a, b) ==
      if a == [] then s + b
      else if b == [] then s + a
      else if cmp(a[0].data, b[0].data) <= 0 then s + [a[0]] + Merge(cmp, a[1..], b)
      else s + [b[0]] + Merge(cmp, a, b[1..])
  {
  }

  /** Three stretches of nodes without a node in common. */
  ghost predicate Apart(s: seq<Node>, a: seq<Node>, b: seq<Node>) {
    && Distinct(s) && Distinct(a) && Distinct(b)
    && (forall x :: x in a ==> x !in s && x !in b)
    && (forall x :: x in b ==> x !in s && x !in a)
  }

  lemma MoveFirst(s: seq<Node>, a: seq<Node>, b: seq<Node>)
    requires Apart(s, a, b) && a != []
    ensures Apart(s + [a[0]], a[1..], b)
  {
    var s', a' := s + [a[0]], a[1..];
    forall i, j | In(a', i) && In(a', j) && i != j ensures a'[i] != a'[j] {
      assert In(a, i + 1) && In(a, j + 1);
    }
    forall i, j | In(s', i) && In(s', j) && i != j ensures s'[i] != s'[j] {
      assert i < |s| ==> In(s, i) && s[i] in s;
      assert j < |s| ==> In(s, j) && s[j] in s;
    }
    forall i | In(a', i) ensures a'[i] != a[0] {
      assert In(a, 0) && In(a, i + 1);
    }
    forall x | x in a' ensures x !in s' && x !in b {
      var i :| 0 <= i < |a'| && a'[i] == x;
      assert In(a', i);
    }
  }

  // Make the first node of `a` the successor of `l`, the last node so far.
  method Append(l: Node, x: Node, ghost s: seq<Node>, ghost a: seq<Node>, ghost l2: Node?, ghost b: seq<Node>)
    requires s != [] && l == s[|s| - 1] && Leads(s) && Listed(x, a) && Listed(l2, b) && Apart(s, a, b)
    modifies l
    ensures Leads(s + [x]) && x.next == old(x.next) && Listed(x.next, a[1..]) && Listed(l2, b)
  {
    assert In(a, 0) && In(s, |s| - 1) && x in a && l in s;
    l.next := x;
    forall i | In(s + [x], i) && In(s + [x], i + 1) ensures (s + [x])[i].next == (s + [x])[i + 1] {
      assert In(s, i);
      assert i + 1 < |s| ==> In(s, i + 1);
    }
    forall i | In(a[1..], i) ensures a[1..][i].next == At(a[1..], i + 1) {
      assert In(a, i + 1) && a[i + 1] in a;
    }
    forall i | In(b, i) ensures b[i].next == At(b, i + 1) { assert b[i] in b; }
  }

  /** g_slist_sort_merge. The node allocated here stands for the one the original keeps on its stack. */
  method SortMerge(l1In: Node?, l2In: Node?, cmp: Compare, ghost a: seq<Node>, ghost b: seq<Node>)
    returns (list: Node?)
    requires Listed(l1In, a) && Listed(l2In, b) && Apart([], a, b)
    modifies a, b
    ensures Listed(list, Merge(cmp, a, b))
  {
    hide Merge;
    var l1, l2 := l1In, l2In;
    var first := new Node(0);
    var l: Node := first;
    ghost var s, a', b' := [first], a, b;
    while l1 != null && l2 != null
      invariant s != [] && l == s[|s| - 1] && s[0] == first && Leads(s)
      invariant Listed(l1, a') && Listed(l2, b') && Apart(s, a', b')
      invariant [first] + Merge(cmp, a, b) == s + Merge(cmp, a', b')
      invariant forall x :: x in s ==> x == first || x in a || x in b
      invariant (forall x :: x in a' ==> x in a) && (forall x :: x in b' ==> x in b)
      decreases |a'| + |b'|
    {
      assert l in s && l1 == a'[0] && l2 == b'[0];
      MergeTakes(cmp, s, a', b');
      if cmp(l1.data, l2.data) <= 0 {
        Append(l, l1, s, a', l2, b');
        MoveFirst(s, a', b');
        l := l1;
        l1 := l1.next;
        s, a' := s + [a'[0]], a'[1..];
      } else {
        Append(l, l2, s, b', l1, a');
        MoveFirst(s, b', a');
        l := l2;
        l2 := l2.next;
        s, b' := s + [b'[0]], b'[1..];
      }
    }
    assert l in s;
    MergeTakes(cmp, s, a', b');
    Finish(l, l1, l2, s, a', b');
    list := first.next;
    assert Listed(list, (s + (if l1 != null then a' else b'))[1..]);
  }

  // Make what is left of the lists the successor of `l`.
  method Finish(l: Node, l1: Node?, l2: Node?, ghost s: seq<Node>, ghost a: seq<Node>, ghost b: seq<Node>)
    requires s != [] && l == s[|s| - 1] && Leads(s) && Listed(l1, a) && Listed(l2, b) && Apart(s, a, b)
    modifies l
    ensures Listed(s[0].next, (s + (if l1 != null then a else b))[1..])
  {
    ghost var all := s + (if l1 != null then a else b);
    assert l in s && In(s, |s| - 1);
    l.next := if l1 != null then l1 else l2;
    forall i | In(all, i) ensures all[i].next == At(all, i + 1) {
      if i + 1 < |s| {
        assert In(s, i) && In(s, i + 1);
      } else if i >= |s| {
        if l1 != null { assert In(a, i - |s|) && all[i] == a[i - |s|] && all[i] in a; }
        else { assert In(b, i - |s|) && all[i] == b[i - |s|] && all[i] in b; }
      }
    }
    forall i | In(all[1..], i) ensures all[1..][i].next == At(all[1..], i + 1) {
      assert In(all, i + 1);
    }
    assert In(all, 0);
  }

  // ---------------------------------------------------------------- splitting and sorting

  /** The split of g_slist_sort_real: `l2` goes two links for each one `l1` goes, so that `l1` ends on
      the last node of the first half. */
  method Split(list: Node, ghost s: seq<Node>) returns (l2: Node)
    requires Listed(list, s) && Distinct(s) && |s| >= 2
    modifies s
    ensures Listed(list, s[..|s| / 2]) && Listed(l2, s[|s| / 2..])
  {
    assert In(s, 0) && In(s, 1);
    var l1: Node, ahead: Node? := list, list.next;
    ghost var i := 0;
    while true
      invariant 2 * i + 1 < |s| && l1 == s[i] && ahead == s[2 * i + 1]
      invariant Listed(list, s)
      decreases |s| - i
    {
      assert In(s, i) && In(s, 2 * i + 1);
      ahead := ahead.next;
      if ahead == null { break; }
      assert In(s, 2 * i + 2);
      ahead := ahead.next;
      if ahead == null { break; }
      l1, i := l1.next, i + 1;
    }
    assert i + 1 == |s| / 2;
    ghost var a, b := s[..i + 1], s[i + 1..];
    l2 := l1.next;
    l1.next := null;
    forall j | In(a, j) ensures a[j].next == At(a, j + 1) {
      assert In(s, j) && In(s, i);
    }
    forall j | In(b, j) ensures b[j].next == At(b, j + 1) {
      assert In(s, i + 1 + j) && In(s, i);
    }
  }

  lemma HalvesApart(s: seq<Node>, k: nat, a: seq<Node>, b: seq<Node>)
    requires Distinct(s) && k <= |s| && multiset(a) == multiset(s[..k]) && multiset(b) == multiset(s[k..])
    ensures Apart([], a, b)
    ensures forall i :: 0 <= i < |a| ==> a[i] in s && a[i] !in s[k..]
    ensures forall i :: 0 <= i < |b| ==> b[i] in s && b[i] !in s[..k]
  {
    forall i, j | In(s[..k], i) && In(s[..k], j) && i != j ensures s[..k][i] != s[..k][j] {
      assert In(s, i) && In(s, j);
    }
    forall i, j | In(s[k..], i) && In(s[k..], j) && i != j ensures s[k..][i] != s[k..][j] {
      assert In(s, k + i) && In(s, k + j);
    }
    DistinctByMultiset(a, s[..k]);
    DistinctByMultiset(b, s[k..]);
    forall i, j | 0 <= i < k <= j < |s| ensures s[i] != s[j] {
      assert In(s, i) && In(s, j);
    }
    forall i | 0 <= i < |a| ensures a[i] in s[..k] { assert a[i] in multiset(a); }
    forall i | 0 <= i < |b| ensures b[i] in s[k..] { assert b[i] in multiset(b); }
  }

  /** g_slist_sort_real. Whatever the comparison, the same nodes come back; if it is a total preorder,
      they come back sorted, equivalent ones in their former order. Each half is non-empty and shorter
      than the whole, so the recursion ends. */
  method SortReal(list: Node?, cmp: Compare, ghost s: seq<Node>) returns (sorted: Node?, ghost r: seq<Node>)
    requires Listed(list, s) && Distinct(s)
    modifies s
    ensures Listed(sorted, r) && Distinct(r) && multiset(r) == multiset(s)
    ensures TotalPreorder(cmp) ==> IsStableSort(cmp, s, r)
    decreases |s|
  {
    if list == null { return null, s; }
    assert In(s, 0);
    if list.next == null { return list, s; }
    var l2 := Split(list, s);
    ghost var k := |s| / 2;
    ghost var lo, hi, a, b := s[..k], s[k..], [], [];
    var h1, h2;
    HalvesApart(s, k, lo, hi);
    h1, a := SortReal(list, cmp, lo);
    forall i | In(hi, i) ensures hi[i].next == At(hi, i + 1) { assert hi[i] !in lo; }
    HalvesApart(s, k, a, hi);
    h2, b := SortReal(l2, cmp, hi);
    forall i | In(a, i) ensures a[i].next == At(a, i + 1) { assert a[i] !in hi; }
    HalvesApart(s, k, a, b);
    sorted := SortMerge(h1, h2, cmp, a, b);
    r := Merge(cmp, a, b);
    SortHalves(cmp, s, k, a, b);
    DistinctByMultiset(r, s);
  }

  /** g_slist_sort. */
  method Sort(list: Node?, cmp: Compare, ghost s: seq<Node>) returns (sorted: Node?, ghost r: seq<Node>)
    requires Listed(list, s) && Distinct(s) && TotalPreorder(cmp)
    modifies s
    ensures Listed(sorted, r) && IsStableSort(cmp, s, r)
    ensures forall other :: IsStableSort(cmp, s, other) ==> other == r
  {
    sorted, r := SortReal(list, cmp, s);
    forall other | IsStableSort(cmp, s, other) ensures other == r {
      StableSortIsUnique(cmp, s, r, other);
    }
  }
}
