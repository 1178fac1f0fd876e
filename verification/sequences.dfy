/** Options and sequences, as the models share them. */
module Sequences {

  datatype Option<+T> = None | Some(value: T)

  ghost predicate In<T>(s: seq<T>, i: int) { 0 <= i < |s| }

  function Elements<T>(s: seq<T>): set<T> { set x | x in s }

  /** No element occurs twice. */
  ghost predicate Distinct<T>(s: seq<T>) {
    forall i, j {:trigger In(s, i), In(s, j)} :: In(s, i) && In(s, j) && i != j ==> s[i] != s[j]
  }

  ghost function Reverse<T>(s: seq<T>): seq<T> {
    if s == [] then [] else Reverse(s[1..]) + [s[0]]
  }

  lemma {:induction false} ReverseAt<T>(s: seq<T>)
    ensures |Reverse(s)| == |s| && forall i :: 0 <= i < |s| ==> Reverse(s)[i] == s[|s| - 1 - i]
  {
    if s == [] {
    } else {
      ReverseAt(s[1..]);
    }
  }

  lemma {:induction false} ReverseAppend<T>(s: seq<T>, x: T)
    ensures Reverse(s + [x]) == [x] + Reverse(s)
  {
    if s == [] {
      assert s + [x] == [x];
    } else {
      ReverseAppend(s[1..], x);
      assert (s + [x])[1..] == s[1..] + [x];
    }
  }

  lemma ReverseCons<T>(x: T, s: seq<T>)
    ensures Reverse([x] + s) == Reverse(s) + [x]
  {
    assert ([x] + s)[1..] == s;
  }

  lemma ReverseKeepsElements<T>(s: seq<T>)
    ensures Elements(Reverse(s)) == Elements(s)
    ensures Distinct(s) ==> Distinct(Reverse(s))
  {
    var r := Reverse(s);
    ReverseAt(s);
    forall x | x in s ensures x in r {
      var i :| 0 <= i < |s| && s[i] == x;
      assert r[|s| - 1 - i] == x;
    }
    if Distinct(s) {
      forall i, j | In(r, i) && In(r, j) && i != j ensures r[i] != r[j] {
        assert In(s, |s| - 1 - i) && In(s, |s| - 1 - j);
      }
    }
  }

  lemma DistinctSum<T>(a: seq<T>, b: seq<T>)
    requires Distinct(a) && Distinct(b) && Elements(a) !! Elements(b)
    ensures Distinct(a + b)
  {
    var s := a + b;
    forall i, j | In(s, i) && In(s, j) && i < j ensures s[i] != s[j] {
      assert i < |a| ==> In(a, i) && a[i] in Elements(a);
      assert j < |a| ==> In(a, j);
      assert i >= |a| ==> In(b, i - |a|);
      assert j >= |a| ==> In(b, j - |a|) && b[j - |a|] in Elements(b);
    }
  }

  /** The sequence with `x` put before position `p`. */
  ghost function With<T>(s: seq<T>, p: nat, x: T): seq<T>
    requires p <= |s|
  {
    s[..p] + [x] + s[p..]
  }

  /** The sequence without its element `p`. */
  ghost function Without<T>(s: seq<T>, p: nat): seq<T>
    requires p < |s|
  {
    s[..p] + s[p + 1..]
  }

  lemma InsertKeepsDistinct<T>(s: seq<T>, p: nat, x: T)
    requires Distinct(s) && p <= |s| && x !in s
    ensures Distinct(With(s, p, x))
  {
    var after := With(s, p, x);
    forall i, j | In(after, i) && In(after, j) && i != j ensures after[i] != after[j] {
      var i0, j0 := if i < p then i else i - 1, if j < p then j else j - 1;
      assert i != p ==> In(s, i0) && after[i] == s[i0];
      assert j != p ==> In(s, j0) && after[j] == s[j0];
    }
  }

  lemma RemoveKeepsDistinct<T>(s: seq<T>, p: nat)
    requires Distinct(s) && p < |s|
    ensures Distinct(Without(s, p)) && s[p] !in Without(s, p)
  {
    var after := Without(s, p);
    forall i | In(after, i) ensures var i0 := if i < p then i else i + 1; In(s, i0) && after[i] == s[i0] {
    }
    assert In(s, p);
    forall i | 0 <= i < |after| ensures after[i] != s[p] {
      assert In(after, i);
    }
  }

  lemma FirstAdded<T>(x: T, s: seq<T>)
    requires Distinct(s) && x !in s
    ensures Distinct([x] + s) && Elements([x] + s) == {x} + Elements(s)
  {
    InsertKeepsDistinct(s, 0, x);
    assert With(s, 0, x) == [x] + s;
  }

  lemma FirstRemoved<T>(s: seq<T>)
    requires Distinct(s) && s != []
    ensures Distinct(s[1..]) && s[0] !in s[1..] && Elements(s) == {s[0]} + Elements(s[1..])
  {
    RemoveKeepsDistinct(s, 0);
    assert Without(s, 0) == s[1..];
  }
}
