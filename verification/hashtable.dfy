/** The chained hash table of tiny-vmi/tiny_glib/hashtable.c under the GLib interface of
    tiny-vmi/tiny_glib/hash.c: an array of singly linked chains that grows by copying into a fresh
    array or, when that cannot be had, by rehashing in place. It refines a finite map. */
module HashTables {
  import opened Sequences

  const PRIMES: seq<nat> := [
    53, 97, 193, 389,
    769, 1543, 3079, 6151,
    12289, 24593, 49157,
    98317,
    196613, 393241, 786433, 1572869,
    3145739, 6291469, 12582917, 25165843,
    50331653, 100663319, 201326611, 402653189,
    805306457, 1610612741]
  const MAX_LOAD_FACTOR := 65
  const MAX_SIZE := 0x4000_0000

  function LoadLimit(size: nat): nat { size * MAX_LOAD_FACTOR / 100 }

  ghost predicate Grows(sizes: seq<nat>, i: nat)
    requires i + 1 < |sizes|
  {
    sizes[i] + 2 <= sizes[i + 1]
  }

  lemma NextCarriesMore(size: nat, next: nat)
    requires size + 2 <= next
    ensures LoadLimit(size) + 1 <= LoadLimit(next)
  {
  }

  /** What the table needs of its list of sizes: with the next size, it can carry at least one more. */
  ghost predicate Growing(sizes: seq<nat>) {
    && (forall i :: 0 <= i < |sizes| ==> sizes[i] > 0)
    && forall i {:trigger Grows(sizes, i)} :: 0 <= i && i + 1 < |sizes| ==> Grows(sizes, i)
  }

  lemma PrimesGrow()
    ensures Growing(PRIMES) && |PRIMES| == 26 && PRIMES[25] > MAX_SIZE
  {
  }

  /** A key is a pointer to an integer. The equality function compares, and the hash function reads,
      only what it points to. */
  datatype Key = Key(pointer: int, content: int)

  /** A value is a pointer, None being NULL. */
  type Value = Option<int>

  /** struct entry. */
  class Entry {
    var k: Key
    var v: Value
    const h: nat
    var next: Entry?

    constructor (k: Key, v: Value, h: nat)
      ensures this.k == k && this.v == v && this.h == h && next == null
    {
      this.k, this.v, this.h, next := k, v, h, null;
    }
  }

  // ---------------------------------------------------------------- chains

  ghost predicate At<T>(chains: seq<seq<T>>, i: int, a: int) {
    0 <= i < |chains| && 0 <= a < |chains[i]|
  }

  ghost function Nodes(chains: seq<seq<Entry>>): set<Entry> {
    set i, a | 0 <= i < |chains| && 0 <= a < |chains[i]| :: chains[i][a]
  }

  /** Entry `a` of chain `i`, or null past its end. */
  ghost function Link(chains: seq<seq<Entry>>, i: int, a: int): Entry? {
    if 0 <= i < |chains| && 0 <= a < |chains[i]| then chains[i][a] else null
  }

  /** The buckets of `table` lead through the entries of `chains`, in order. */
  ghost predicate Linked(table: array<Entry?>, chains: seq<seq<Entry>>)
    reads table, Nodes(chains)`next
  {
    && |chains| == table.Length
    && (forall i :: 0 <= i < |chains| ==> table[i] == Link(chains, i, 0))
    && forall i, a {:trigger At(chains, i, a)} :: At(chains, i, a) ==>
      chains[i][a] in Nodes(chains) && chains[i][a].next == Link(chains, i, a + 1)
  }

  /** Each entry is in one place only. */
  ghost predicate AllDistinct<T>(chains: seq<seq<T>>) {
    forall i, a, j, b {:trigger At(chains, i, a), At(chains, j, b)} ::
      At(chains, i, a) && At(chains, j, b) && (i != j || a != b) ==> chains[i][a] != chains[j][b]
  }

  ghost function Pushed<T>(chains: seq<seq<T>>, index: nat, e: T): seq<seq<T>>
    requires index < |chains|
  {
    chains[index := [e] + chains[index]]
  }

  ghost function Unlinked<T>(chains: seq<seq<T>>, i: nat, p: nat): seq<seq<T>>
    requires At(chains, i, p)
  {
    chains[i := chains[i][..p] + chains[i][p + 1..]]
  }

  lemma PushKeepsDistinct(chains: seq<seq<Entry>>, index: nat, e: Entry)
    requires AllDistinct(chains) && index < |chains| && e !in Nodes(chains)
    ensures AllDistinct(Pushed(chains, index, e)) && Nodes(Pushed(chains, index, e)) == Nodes(chains) + {e}
  {
    var after: seq<seq<Entry>> := Pushed(chains, index, e);
    assert forall i, a :: At(chains, i, a) ==> chains[i][a] in Nodes(chains);
    forall i, a | At(after, i, a)
      ensures var a0 := if i == index then a - 1 else a;
        if a0 < 0 then after[i][a] == e else At(chains, i, a0) && after[i][a] == chains[i][a0]
    {
    }
    forall i, a | At(chains, i, a) ensures chains[i][a] in Nodes(after) {
      var a2 := if i == index then a + 1 else a;
      assert At(after, i, a2) && after[i][a2] == chains[i][a];
    }
    assert At(after, index, 0) && after[index][0] == e;
  }

  lemma UnlinkKeepsDistinct(chains: seq<seq<Entry>>, i: nat, p: nat)
    requires AllDistinct(chains) && At(chains, i, p)
    ensures AllDistinct(Unlinked(chains, i, p)) && Nodes(Unlinked(chains, i, p)) == Nodes(chains) - {chains[i][p]}
  {
    var after: seq<seq<Entry>> := Unlinked(chains, i, p);
    forall j, b | At(after, j, b)
      ensures var b0 := if j == i && b >= p then b + 1 else b;
        At(chains, j, b0) && after[j][b] == chains[j][b0] && (j != i || b0 != p)
    {
    }
    forall j, b | At(chains, j, b) && (j != i || b != p) ensures chains[j][b] in Nodes(after) {
      var b2 := if j == i && b > p then b - 1 else b;
      assert At(after, j, b2) && after[j][b2] == chains[j][b];
    }
  }

  /** Put `e`, so far in no chain, at the head of bucket `index`. */
  method PushEntry(table: array<Entry?>, e: Entry, index: nat, ghost chains: seq<seq<Entry>>)
    requires Linked(table, chains) && AllDistinct(chains)
    requires e !in Nodes(chains) && index < table.Length
    modifies table, e`next
    ensures var after := Pushed(chains, index, e);
      Linked(table, after) && AllDistinct(after) && Nodes(after) == Nodes(chains) + {e}
  {
    ghost var after: seq<seq<Entry>> := Pushed(chains, index, e);
    PushKeepsDistinct(chains, index, e);
    assert forall i, a :: At(chains, i, a) ==> chains[i][a] in Nodes(chains);
    e.next := table[index];
    table[index] := e;
    forall i, a | At(after, i, a) ensures after[i][a].next == Link(after, i, a + 1) {
      var a0 := if i == index then a - 1 else a;
      if a0 >= 0 { assert At(chains, i, a0) && after[i][a] == chains[i][a0] != e; }
    }
  }

  /** Take entry `p` of bucket `i` out of its chain; `prev` is the entry before it, if any. */
  method UnlinkEntry(table: array<Entry?>, i: nat, prev: Entry?, e: Entry,
                           ghost p: nat, ghost chains: seq<seq<Entry>>)
    requires Linked(table, chains) && AllDistinct(chains)
    requires At(chains, i, p) && chains[i][p] == e
    requires prev == if p == 0 then null else chains[i][p - 1]
    modifies table, (if prev == null then {} else {prev})`next
    ensures var after := Unlinked(chains, i, p);
      Linked(table, after) && AllDistinct(after) && Nodes(after) == Nodes(chains) - {e}
    ensures e.next == old(e.next)
  {
    ghost var after: seq<seq<Entry>> := Unlinked(chains, i, p);
    UnlinkKeepsDistinct(chains, i, p);
    if prev == null {
      table[i] := e.next;
    } else {
      assert At(chains, i, p - 1);
      prev.next := e.next;
    }
    forall j, b | At(after, j, b) ensures after[j][b].next == Link(after, j, b + 1) {
      var b0 := if j == i && b >= p then b + 1 else b;
      assert At(chains, j, b0) && after[j][b] == chains[j][b0];
    }
  }

  // ---------------------------------------------------------------- growing

  ghost predicate PlacedIn(chains: seq<seq<Entry>>, i: int) {
    forall a {:trigger At(chains, i, a)} :: At(chains, i, a) ==> chains[i][a].h % |chains| == i
  }

  /** Every entry is in the bucket its hash selects. */
  ghost predicate Placed(chains: seq<seq<Entry>>) {
    forall i :: 0 <= i < |chains| ==> PlacedIn(chains, i)
  }

  /** hashtable_expand with a fresh array: entries move over one by one, head first. */
  method CopyToFresh(table: array<Entry?>, newtable: array<Entry?>, ghost before: seq<seq<Entry>>)
    returns (ghost after: seq<seq<Entry>>)
    requires Linked(table, before) && AllDistinct(before) && table != newtable && newtable.Length > 0
    requires forall i :: 0 <= i < newtable.Length ==> newtable[i] == null
    modifies table, newtable, Nodes(before)`next
    ensures Linked(newtable, after) && AllDistinct(after) && Placed(after) && Nodes(after) == Nodes(before)
  {
    ghost var chains := before;
    after := seq(newtable.Length, _ => []);
    for i := 0 to table.Length
      invariant Linked(table, chains) && AllDistinct(chains) && forall j :: 0 <= j < i ==> chains[j] == []
      invariant Linked(newtable, after) && AllDistinct(after) && Placed(after)
      invariant Nodes(chains) !! Nodes(after) && Nodes(chains) + Nodes(after) == Nodes(before)
    {
      while table[i] != null
        invariant Linked(table, chains) && AllDistinct(chains) && forall j :: 0 <= j < i ==> chains[j] == []
        invariant Linked(newtable, after) && AllDistinct(after) && Placed(after)
        invariant Nodes(chains) !! Nodes(after) && Nodes(chains) + Nodes(after) == Nodes(before)
        decreases |chains[i]|
      {
        var e: Entry := table[i];
        assert At(chains, i, 0);
        UnlinkEntry(table, i, null, e, 0, chains);
        chains := Unlinked(chains, i, 0);
        var index := e.h % newtable.Length;
        PushEntry(newtable, e, index, after);
        PushKeepsPlaced(after, index, e);
        after := Pushed(after, index, e);
      }
    }
    assert Nodes(chains) == {};
  }

  lemma PushKeepsPlaced(chains: seq<seq<Entry>>, index: nat, e: Entry)
    requires index < |chains| && e.h % |chains| == index
    ensures var after: seq<seq<Entry>> := Pushed(chains, index, e);
      forall i :: PlacedIn(chains, i) ==> PlacedIn(after, i)
  {
    var after: seq<seq<Entry>> := Pushed(chains, index, e);
    forall i | PlacedIn(chains, i) ensures PlacedIn(after, i) {
      forall a | At(after, i, a) ensures after[i][a].h % |after| == i {
        var a0 := if i == index then a - 1 else a;
        if a0 >= 0 { assert At(chains, i, a0) && after[i][a] == chains[i][a0]; }
      }
    }
  }

  /** realloc of the bucket array, with the new buckets zeroed. */
  method Lengthen(table: array<Entry?>, newsize: nat, ghost chains: seq<seq<Entry>>)
    returns (newtable: array<Entry?>, ghost longer: seq<seq<Entry>>)
    requires Linked(table, chains) && AllDistinct(chains) && table.Length <= newsize
    ensures fresh(newtable) && newtable.Length == newsize
    ensures Linked(newtable, longer) && AllDistinct(longer) && Nodes(longer) == Nodes(chains)
    ensures forall i :: table.Length <= i < newsize ==> longer[i] == []
  {
    newtable := new Entry?[newsize](_ => null);
    forall i | 0 <= i < table.Length {
      newtable[i] := table[i];
    }
    longer := chains + seq(newsize - |chains|, _ => []);
    SameEntries(chains, longer);
  }

  lemma SameEntries(short: seq<seq<Entry>>, long: seq<seq<Entry>>)
    requires AllDistinct(short) && |short| <= |long| && long[..|short|] == short
    requires forall i :: |short| <= i < |long| ==> long[i] == []
    ensures AllDistinct(long) && Nodes(long) == Nodes(short)
    ensures forall i, a :: At(long, i, a) ==> At(short, i, a) && long[i][a] == short[i][a]
  {
    forall i, a | At(long, i, a) ensures At(short, i, a) && long[i][a] == short[i][a] { assert long[i] == short[i]; }
    forall i, a | At(short, i, a) ensures At(long, i, a) && long[i][a] == short[i][a] { assert long[i] == short[i]; }
  }

  // Move entry `p` of bucket `i` to the head of bucket `index`.
  method MoveEntry(table: array<Entry?>, i: nat, prev: Entry?, e: Entry, index: nat,
                         ghost p: nat, ghost chains: seq<seq<Entry>>)
    returns (ghost after: seq<seq<Entry>>)
    requires Linked(table, chains) && AllDistinct(chains)
    requires At(chains, i, p) && chains[i][p] == e && prev == Link(chains, i, p - 1)
    requires index == e.h % table.Length && index != i
    modifies table, Nodes(chains)`next
    ensures Linked(table, after) && AllDistinct(after) && Nodes(after) == Nodes(chains)
    ensures |after| == |chains| && after[i] == chains[i][..p] + chains[i][p + 1..]
    ensures forall j :: PlacedIn(chains, j) ==> PlacedIn(after, j)
  {
    assert p > 0 ==> At(chains, i, p - 1);
    UnlinkEntry(table, i, prev, e, p, chains);
    UnlinkKeepsPlaced(chains, i, p);
    after := Unlinked(chains, i, p);
    PushEntry(table, e, index, after);
    PushKeepsPlaced(after, index, e);
    after := Pushed(after, index, e);
  }

  /** hashtable_expand in place ("Plan B"), over an array already lengthened: each old bucket is
      walked once; entries that belong elsewhere move to the head of their bucket, which may be one
      still to be walked. */
  method RehashInPlace(table: array<Entry?>, oldSize: nat, ghost before: seq<seq<Entry>>)
    returns (ghost after: seq<seq<Entry>>)
    requires Linked(table, before) && AllDistinct(before) && 0 < oldSize <= table.Length
    requires forall i :: oldSize <= i < table.Length ==> before[i] == []
    modifies table, Nodes(before)`next
    ensures Linked(table, after) && AllDistinct(after) && Placed(after) && Nodes(after) == Nodes(before)
  {
    after := before;
    for i := 0 to oldSize
      invariant Linked(table, after) && AllDistinct(after) && Nodes(after) == Nodes(before)
      invariant forall j :: 0 <= j < i || oldSize <= j < table.Length ==> PlacedIn(after, j)
    {
      var prev: Entry?, e: Entry? := null, table[i];
      ghost var p := 0;
      while e != null
        invariant Linked(table, after) && AllDistinct(after) && Nodes(after) == Nodes(before)
        invariant forall j :: 0 <= j < i || oldSize <= j < table.Length ==> PlacedIn(after, j)
        invariant 0 <= p <= |after[i]| && e == Link(after, i, p) && prev == Link(after, i, p - 1)
        invariant forall a :: 0 <= a < p ==> after[i][a].h % table.Length == i
        decreases |after[i]| - p
      {
        var index := e.h % table.Length;
        assert At(after, i, p) && (p > 0 ==> At(after, i, p - 1));
        if index == i {
          prev, e, p := e, e.next, p + 1;
        } else {
          after := MoveEntry(table, i, prev, e, index, p, after);
          if prev == null {
            assert p == 0;
            e := table[i];
          } else {
            assert At(after, i, p - 1) && after[i][p - 1] == prev;
            e := prev.next;
          }
        }
      }
      assert p == |after[i]|;
    }
  }

  lemma UnlinkKeepsPlaced(chains: seq<seq<Entry>>, i: nat, p: nat)
    requires At(chains, i, p)
    ensures var after: seq<seq<Entry>> := Unlinked(chains, i, p);
      forall j :: PlacedIn(chains, j) ==> PlacedIn(after, j)
  {
    var after: seq<seq<Entry>> := Unlinked(chains, i, p);
    forall j | PlacedIn(chains, j) ensures PlacedIn(after, j) {
      forall b | At(after, j, b) ensures after[j][b].h % |after| == j {
        var b0 := if j == i && b >= p then b + 1 else b;
        assert At(chains, j, b0) && after[j][b] == chains[j][b0];
      }
    }
  }

  // ---------------------------------------------------------------- the map

  /** What entries store, as a value. */
  type Data = map<Entry, (Key, Value)>

  /** The entries hold what `data` says. */
  ghost predicate Stored(nodes: set<Entry>, data: Data)
    reads nodes`k, nodes`v
  {
    data.Keys == nodes && forall e :: e in nodes ==> (e.k, e.v) == data[e]
  }

  /** Where each key content is stored: the reason no two entries have equal keys. */
  type Index = map<int, Entry>

  ghost predicate Indexed(data: Data, index: Index) {
    && (forall e {:trigger e in data} :: e in data ==> data[e].0.content in index && index[data[e].0.content] == e)
    && (forall c {:trigger c in index} :: c in index ==> index[c] in data && data[index[c]].0.content == c)
  }

  ghost predicate Hashed(hashfn: int -> nat, data: Data) {
    forall e {:trigger e in data} :: e in data ==> e.h == hashfn(data[e].0.content)
  }

  /** The finite map that the entries stand for: for each key content, the stored key and its value. */
  ghost function ModelOf(data: Data, index: Index): map<int, (Key, Value)>
    requires Indexed(data, index)
  {
    map c | c in index :: data[index[c]]
  }

  // Giving entry `e` new contents, as a new entry or under an equal key, updates one key of the map.
  lemma ModelPut(data: Data, index: Index, e: Entry, k: Key, v: Value)
    requires Indexed(data, index)
    requires if e in data then data[e].0.content == k.content else k.content !in index
    ensures Indexed(data[e := (k, v)], index[k.content := e])
    ensures ModelOf(data[e := (k, v)], index[k.content := e]) == ModelOf(data, index)[k.content := (k, v)]
  {
    var data', index' := data[e := (k, v)], index[k.content := e];
    forall c | c in index' ensures index'[c] in data' && data'[index'[c]].0.content == c {
      if c != k.content { assert c in index; }
    }
  }

  lemma ModelDrop(data: Data, index: Index, e: Entry)
    requires Indexed(data, index) && e in data
    ensures Indexed(data - {e}, index - {data[e].0.content})
    ensures ModelOf(data - {e}, index - {data[e].0.content}) == ModelOf(data, index) - {data[e].0.content}
  {
    var c0, data', index' := data[e].0.content, data - {e}, index - {data[e].0.content};
    forall c | c in index' ensures index'[c] in data' && data'[index'[c]] == data[index[c]] {
      assert c in index && index[c] != e;
    }
    assert ModelOf(data', index').Keys == (ModelOf(data, index) - {c0}).Keys;
  }

  // ---------------------------------------------------------------- the table

  /** How the allocator answers a request to grow. */
  datatype Memory = FreshArray | InPlaceOnly | OutOfMemory

  class HashTable {
    const hashfn: int -> nat      // the hash function, with the bit mixing of `hash` applied
    const primes: seq<nat>        // the table of sizes
    var table: array<Entry?>
    var entrycount: nat
    var loadlimit: nat
    var primeindex: nat
    ghost var chains: seq<seq<Entry>>
    ghost var repr: set<Entry>
    ghost var data: Data
    ghost var index: Index

    /** The buckets hold the entries of `repr`, each in the bucket of its hash. */
    ghost predicate Wired()
      reads this`table, this`primeindex, this`loadlimit, this`chains, this`repr, table, repr`next
    {
      && repr == Nodes(chains) && Linked(table, chains) && AllDistinct(chains) && Placed(chains)
      && Growing(primes) && primeindex < |primes| && table.Length == primes[primeindex]
      && loadlimit == LoadLimit(table.Length)
    }

    /** The entries hold `data`, with equal keys in no two of them. */
    ghost predicate Holds()
      reads this`repr, this`data, this`index, repr`k, repr`v
    {
      Stored(repr, data) && Hashed(hashfn, data) && Indexed(data, index)
    }

    ghost predicate Valid()
      reads this, table, repr
    {
      Wired() && Holds() && entrycount == |repr|
    }

    ghost function Model(): map<int, (Key, Value)>
      requires Indexed(data, index)
      reads this`data, this`index
    {
      ModelOf(data, index)
    }

    /** create_hashtable once the prime has been chosen. */
    constructor (hashfn: int -> nat, primes: seq<nat>, pindex: nat)
      requires Growing(primes) && pindex < |primes|
      ensures Valid() && Model() == map[] && fresh(table) && table.Length == primes[pindex]
      ensures this.hashfn == hashfn && this.primes == primes && primeindex == pindex && entrycount == 0
    {
      this.hashfn, this.primes := hashfn, primes;
      table := new Entry?[primes[pindex]](_ => null);
      entrycount, primeindex := 0, pindex;
      loadlimit := LoadLimit(primes[pindex]);
      chains, repr := seq(primes[pindex], _ => []), {};
      data, index := map[], map[];
    }

    /** hashtable_search_entry. */
    method SearchEntry(k: Key) returns (found: Entry?)
      requires Wired() && Holds()
      ensures found != null ==> found in repr && found.k.content == k.content
      ensures found != null <==> k.content in Model()
      ensures found != null ==> (found.k, found.v) == Model()[k.content]
    {
      var hashvalue := hashfn(k.content);
      var bucket := hashvalue % table.Length;
      found := table[bucket];
      ghost var a := 0;
      while found != null
        invariant 0 <= a <= |chains[bucket]| && found == Link(chains, bucket, a)
        invariant forall b :: 0 <= b < a ==> chains[bucket][b].k.content != k.content
        decreases |chains[bucket]| - a
      {
        assert At(chains, bucket, a);
        if hashvalue == found.h && k.content == found.k.content {
          assert found in data;
          return;
        }
        found := found.next;
        a := a + 1;
      }
      NotInChain(bucket, k);
    }

    // A key missing from its own bucket is missing from the table.
    lemma NotInChain(bucket: nat, k: Key)
      requires Wired() && Holds() && bucket == hashfn(k.content) % table.Length
      requires forall b :: 0 <= b < |chains[bucket]| ==> chains[bucket][b].k.content != k.content
      ensures k.content !in Model()
    {
      forall e | e in repr ensures e.k.content != k.content {
        var i, b :| At(chains, i, b) && chains[i][b] == e;
        assert PlacedIn(chains, i);
      }
      forall c | c in index ensures c != k.content {
        assert index[c] in data;
      }
    }

    /** hashtable_search: the value, or NULL. */
    method Search(k: Key) returns (v: Value)
      requires Wired() && Holds()
      ensures v == if k.content in Model() then Model()[k.content].1 else None
    {
      var e := SearchEntry(k);
      if e == null { return None; }
      assert e in data;
      v := e.v;
    }

    /** hashtable_expand. Growing, by either plan, changes neither the entries nor the map; it fails
        only at the last prime or without memory, and then changes nothing. */
    method Expand(memory: Memory) returns (ok: bool)
      requires Wired()
      modifies this`table, this`primeindex, this`loadlimit, this`chains, table, repr`next
      ensures Wired()
      ensures ok <==> old(primeindex) + 1 < |primes| && memory != OutOfMemory
      ensures ok ==> primeindex == old(primeindex) + 1 && fresh(table)
      ensures ok ==> loadlimit >= old(loadlimit) + 1
      ensures ok ==> table.Length == primes[primeindex] && loadlimit * 100 <= table.Length * 65 < (loadlimit + 1) * 100
      ensures !ok ==> primeindex == old(primeindex) && table == old(table) && loadlimit == old(loadlimit)
    {
      if primeindex == |primes| - 1 || memory == OutOfMemory {
        return false;
      }
      assert Grows(primes, primeindex);
      NextCarriesMore(primes[primeindex], primes[primeindex + 1]);
      primeindex := primeindex + 1;
      var newsize := primes[primeindex];
      var newtable: array<Entry?>;
      if memory == FreshArray {
        newtable := new Entry?[newsize](_ => null);
        ghost var after := CopyToFresh(table, newtable, chains);
        chains := after;
      } else {
        ghost var longer;
        newtable, longer := Lengthen(table, newsize, chains);
        ghost var after := RehashInPlace(newtable, table.Length, longer);
        chains := after;
      }
      table := newtable;
      loadlimit := LoadLimit(newsize);
      ok := true;
    }

    // Chain `e` into its bucket.
    method AddEntry(e: Entry)
      requires Wired() && e !in repr
      modifies this`chains, this`repr, table, e`next
      ensures Wired() && repr == old(repr) + {e}
    {
      var bucket := e.h % table.Length;
      PushEntry(table, e, bucket, chains);
      PushKeepsPlaced(chains, bucket, e);
      chains, repr := Pushed(chains, bucket, e), repr + {e};
    }

    // Take `e`, entry `a` of its bucket, out of its chain.
    method DropEntry(bucket: nat, prev: Entry?, e: Entry, ghost a: nat)
      requires Wired() && At(chains, bucket, a) && chains[bucket][a] == e && prev == Link(chains, bucket, a - 1)
      modifies this`chains, this`repr, table, repr`next
      ensures Wired() && repr == old(repr) - {e}
    {
      assert a > 0 ==> At(chains, bucket, a - 1);
      UnlinkEntry(table, bucket, prev, e, a, chains);
      UnlinkKeepsPlaced(chains, bucket, a);
      chains, repr := Unlinked(chains, bucket, a), repr - {e};
    }

    /** hashtable_insert of a key not yet in the table. */
    method Insert(k: Key, v: Value, memory: Memory, entryAllocated: bool) returns (ok: bool)
      requires Valid() && k.content !in Model()
      modifies this, table, repr`next
      ensures Valid() && ok == entryAllocated
      ensures Model() == if ok then old(Model())[k.content := (k, v)] else old(Model())
      ensures table == old(table) || fresh(table)
      ensures repr >= old(repr) && fresh(repr - old(repr)) && primeindex >= old(primeindex)
      ensures old(entrycount <= loadlimit) &&
        (old(entrycount < loadlimit) || (old(primeindex) + 1 < |primes| && memory != OutOfMemory))
        ==> entrycount <= loadlimit
    {
      hide HashTable.Wired, HashTable.Holds;
      entrycount := entrycount + 1;
      MakeRoom(memory);
      if !entryAllocated {
        entrycount := entrycount - 1;
        return false;
      }
      ghost var e := Attach(k, v);
      ok := true;
    }

    // Grow if the entries, with the one to come, are over the limit.
    method MakeRoom(memory: Memory)
      requires Wired()
      modifies this`table, this`primeindex, this`loadlimit, this`chains, table, repr`next
      ensures Wired() && (table == old(table) || fresh(table)) && primeindex >= old(primeindex)
      ensures loadlimit >= old(loadlimit)
      ensures entrycount > old(loadlimit) && old(primeindex) + 1 < |primes| && memory != OutOfMemory
        ==> loadlimit >= old(loadlimit) + 1
    {
      if entrycount > loadlimit {
        var _ := Expand(memory);
      }
    }

    // The new entry itself: allocated, filled and chained.
    method Attach(k: Key, v: Value) returns (ghost e: Entry)
      requires Wired() && Holds() && k.content !in Model()
      modifies this`chains, this`repr, this`data, this`index, table
      ensures Wired() && Holds() && Model() == old(Model())[k.content := (k, v)]
      ensures fresh(e) && repr == old(repr) + {e}
    {
      hide HashTable.Wired, Indexed, Hashed;
      ModelOfKeys();
      e := Chain(k, v);
      Record(e);
    }

    // A fresh entry in its bucket.
    method Chain(k: Key, v: Value) returns (e: Entry)
      requires Wired()
      modifies this`chains, this`repr, table
      ensures Wired() && fresh(e) && repr == old(repr) + {e}
      ensures e.k == k && e.v == v && e.h == hashfn(k.content)
    {
      hide HashTable.Wired;
      e := new Entry(k, v, hashfn(k.content));
      AddEntry(e);
    }

    // Bring the map up to date with what `e` has come to hold.
    ghost method Record(e: Entry)
      requires Indexed(data, index) && Hashed(hashfn, data) && e.h == hashfn(e.k.content)
      requires repr == data.Keys + {e} && forall x :: x in data && x != e ==> (x.k, x.v) == data[x]
      requires if e in data then data[e].0.content == e.k.content else e.k.content !in index
      modifies this`data, this`index
      ensures Holds() && Model() == old(Model())[e.k.content := (e.k, e.v)]
    {
      ModelPut(data, index, e, e.k, e.v);
      data, index := data[e := (e.k, e.v)], index[e.k.content := e];
    }

    // Leave the unchained `e` out of the map.
    ghost method Forget(e: Entry)
      requires Indexed(data, index) && Hashed(hashfn, data)
      requires e in data && repr == data.Keys - {e} && forall x :: x in repr ==> (x.k, x.v) == data[x]
      modifies this`data, this`index
      ensures Holds() && Model() == old(Model()) - {old(data)[e].0.content}
    {
      ModelDrop(data, index, e);
      data, index := data - {e}, index - {data[e].0.content};
    }

    lemma ModelOfKeys()
      requires Indexed(data, index)
      ensures Model().Keys == index.Keys
    {
    }

    /** hashtable_remove: the removed value, or NULL. */
    method Remove(k: Key) returns (v: Value)
      requires Valid()
      modifies this`entrycount, this`chains, this`repr, this`data, this`index, table, repr`next
      ensures Valid() && repr <= old(repr)
      ensures v == if k.content in old(Model()) then old(Model())[k.content].1 else None
      ensures Model() == old(Model()) - {k.content} && entrycount <= old(entrycount)
    {
      hide HashTable.Wired, HashTable.Holds;
      var bucket, prev, e, a := FindLink(k);
      if e == null { return None; }
      v := e.v;
      Detach(bucket, prev, e, a, k);
      entrycount := entrycount - 1;
    }

    // The walk of hashtable_remove: the entry of `k` and the one before it in its bucket.
    method FindLink(k: Key) returns (bucket: nat, prev: Entry?, e: Entry?, ghost a: nat)
      requires Wired() && Holds()
      ensures e != null <==> k.content in Model()
      ensures e != null ==> At(chains, bucket, a) && chains[bucket][a] == e && prev == Link(chains, bucket, a - 1)
      ensures e != null ==> e in repr && e.k.content == k.content && e.v == Model()[k.content].1
    {
      var hashvalue := hashfn(k.content);
      bucket := hashvalue % table.Length;
      prev, e, a := null, table[bucket], 0;
      while e != null
        invariant 0 <= a <= |chains[bucket]| && e == Link(chains, bucket, a) && prev == Link(chains, bucket, a - 1)
        invariant forall b :: 0 <= b < a ==> chains[bucket][b].k.content != k.content
        decreases |chains[bucket]| - a
      {
        assert At(chains, bucket, a);
        if hashvalue == e.h && k.content == e.k.content {
          assert e in data;
          return;
        }
        prev, e, a := e, e.next, a + 1;
      }
      NotInChain(bucket, k);
    }

    // Take `e` out of its chain and its key out of the map.
    method Detach(bucket: nat, prev: Entry?, e: Entry, ghost a: nat, ghost k: Key)
      requires Wired() && Holds() && e in repr && e.k.content == k.content
      requires At(chains, bucket, a) && chains[bucket][a] == e && prev == Link(chains, bucket, a - 1)
      modifies this`chains, this`repr, this`data, this`index, table, repr`next
      ensures Wired() && Holds() && repr <= old(repr) && |repr| + 1 == |old(repr)|
      ensures Model() == old(Model()) - {k.content}
    {
      hide HashTable.Wired;
      DropEntry(bucket, prev, e, a);
      Forget(e);
    }

    // ---------------------------------------------------------------- the GLib interface

    /** g_hash_table_insert_internal: g_hash_table_insert keeps the stored key, g_hash_table_replace
        takes the new one. The result tells only whether the key was missing before. */
    method InsertInternal(k: Key, v: Value, keepNewKey: bool, memory: Memory, entryAllocated: bool)
      returns (isNew: bool)
      requires Valid()
      modifies this, table, repr
      ensures Valid() && (table == old(table) || fresh(table)) && fresh(repr - old(repr))
      ensures isNew <==> k.content !in old(Model())
      ensures k.content in old(Model()) ==>
        Model() == old(Model())[k.content := (if keepNewKey then k else old(Model())[k.content].0, v)]
      ensures k.content !in old(Model()) ==>
        Model() == if entryAllocated then old(Model())[k.content := (k, v)] else old(Model())
      ensures (Model(), Flag(isNew)) == Apply(old(Model()), Op.Insert(k, v, keepNewKey, memory, entryAllocated))
      ensures k.content in Model() <==> k.content in old(Model()) || entryAllocated
      ensures primeindex >= old(primeindex)
      ensures old(entrycount <= loadlimit) && old(primeindex) + 1 < |primes| && memory != OutOfMemory
        ==> entrycount <= loadlimit
    {
      hide HashTable.Wired, Stored, Hashed, Indexed;
      var e := SearchEntry(k);
      if e != null {
        OverwriteEntry(e, if keepNewKey then k else e.k, v);
        isNew := false;
      } else {
        var _ := Insert(k, v, memory, entryAllocated);
        isNew := true;
      }
    }

    // Give `e` a new value and a key equal to the one it has.
    method OverwriteEntry(e: Entry, k: Key, v: Value)
      requires Wired() && Holds() && e in repr && k.content == e.k.content
      modifies this`data, this`index, e`k, e`v
      ensures Wired() && Holds() && Model() == old(Model())[k.content := (k, v)]
    {
      hide HashTable.Wired;
      assert e in data;
      e.k, e.v := k, v;
      Record(e);
    }

    /** g_hash_table_lookup. */
    method Lookup(k: Key) returns (v: Value)
      requires Valid()
      ensures v == if k.content in Model() then Model()[k.content].1 else None
      ensures (Model(), Found(v)) == Apply(Model(), Op.Lookup(k))
    {
      v := Search(k);
    }

    /** g_hash_table_remove. Its documentation promises TRUE exactly when the key was found; that is
        so except for keys whose value is NULL. */
    method RemoveKey(k: Key) returns (removed: bool)
      requires Valid()
      modifies this`entrycount, this`chains, this`repr, this`data, this`index, table, repr`next
      ensures Valid() && repr <= old(repr) && entrycount <= old(entrycount)
      ensures Model() == old(Model()) - {k.content}
      ensures removed <==> k.content in old(Model()) && old(Model())[k.content].1 != None
      ensures (Model(), Flag(removed)) == Apply(old(Model()), Op.Remove(k))
      ensures removed == (k.content in old(Model())) <==>
        !(k.content in old(Model()) && old(Model())[k.content].1 == None)
    {
      hide HashTable.Wired;
      var v := Remove(k);
      removed := v != None;
    }

    lemma CountIsModelSize()
      requires Valid()
      ensures entrycount == |Model()|
    {
      ModelOfKeys();
      SameSize(data, index);
    }

    /** Any run of operations, whatever the allocator does: the answers and the final contents are
        those of a finite map. So a lookup answers what was inserted last, whatever happens to other keys
        in between, and nothing after a removal. The load limit holds as long as growing neither runs out of memory nor
        out of primes. */
    method Run(ops: seq<Op>) returns (answers: seq<Answer>)
      requires Valid()
      modifies this, table, repr
      ensures Valid() && entrycount == |Model()|
      ensures Model() == After(old(Model()), ops)
      ensures |answers| == |ops|
      ensures forall i :: 0 <= i < |ops| ==> answers[i] == Apply(After(old(Model()), ops[..i]), ops[i]).1
      ensures FindsFirst(old(Model()), ops, answers) && FindsInserted(ops, answers) && MissesRemoved(ops, answers)
      ensures NeverShort(ops) && old(entrycount <= loadlimit) && primeindex + 1 < |primes| ==> entrycount <= loadlimit
    {
      hide HashTable.Wired, Stored, Hashed, Indexed, Apply, After, NeverShort;
      AfterNone(Model());
      answers := [];
      ghost var start := Model();
      for i := 0 to |ops|
        invariant Valid() && (table == old(table) || fresh(table)) && fresh(repr - old(repr))
        invariant Model() == After(start, ops[..i]) && |answers| == i
        invariant forall j :: 0 <= j < i ==> answers[j] == Apply(After(start, ops[..j]), ops[j]).1
        invariant NeverShort(ops) && old(entrycount <= loadlimit) && primeindex + 1 < |primes| ==>
          entrycount <= loadlimit
      {
        AfterOne(start, ops, i);
        EnoughFor(ops, i);
        var answer := Perform(ops[i]);
        answers := answers + [answer];
      }
      assert ops[..|ops|] == ops;
      LookupsFollow(start, ops, answers);
      CountIsModelSize();
    }

    method Perform(op: Op) returns (answer: Answer)
      requires Valid()
      modifies this, table, repr
      ensures Valid() && (table == old(table) || fresh(table)) && fresh(repr - old(repr))
      ensures (Model(), answer) == Apply(old(Model()), op)
      ensures primeindex >= old(primeindex)
      ensures (op.Insert? ==> op.memory != OutOfMemory) ==>
        old(entrycount <= loadlimit) && old(primeindex) + 1 < |primes| ==> entrycount <= loadlimit
    {
      hide HashTable.Wired, HashTable.Holds;
      match op {
        case Insert(k, v, keepNewKey, memory, entryAllocated) =>
          var isNew := InsertInternal(k, v, keepNewKey, memory, entryAllocated);
          answer := Flag(isNew);
        case Lookup(k) =>
          var v := Lookup(k);
          answer := Found(v);
        case Remove(k) =>
          var removed := RemoveKey(k);
          answer := Flag(removed);
      }
    }
  }

  // ---------------------------------------------------------------- the finite map

  datatype Op =
    | Insert(k: Key, v: Value, keepNewKey: bool, memory: Memory, entryAllocated: bool)
    | Lookup(k: Key)
    | Remove(k: Key)

  /** The allocator never refuses to let the table grow. */
  ghost predicate NeverShort(ops: seq<Op>) {
    forall op :: op in ops && op.Insert? ==> op.memory != OutOfMemory
  }

  lemma EnoughFor(ops: seq<Op>, i: nat)
    requires i < |ops|
    ensures NeverShort(ops) && ops[i].Insert? ==> ops[i].memory != OutOfMemory
  {
  }

  datatype Answer = Flag(flag: bool) | Found(value: Value)

  /** What an operation does to a finite map, and what it answers. */
  ghost function Apply(m: map<int, (Key, Value)>, op: Op): (map<int, (Key, Value)>, Answer) {
    var c := op.k.content;
    match op
    case Insert(k, v, keepNewKey, _, entryAllocated) =>
      if c in m then (m[c := (if keepNewKey then k else m[c].0, v)], Flag(false))
      else (if entryAllocated then m[c := (k, v)] else m, Flag(true))
    case Lookup(_) => (m, Found(if c in m then m[c].1 else None))
    case Remove(_) => (m - {c}, Flag(c in m && m[c].1 != None))
  }

  ghost function After(m: map<int, (Key, Value)>, ops: seq<Op>): map<int, (Key, Value)> {
    if ops == [] then m else Apply(After(m, ops[..|ops| - 1]), ops[|ops| - 1]).0
  }

  lemma AfterNone(m: map<int, (Key, Value)>)
    ensures After(m, []) == m
  {
  }

  lemma AfterOne(m: map<int, (Key, Value)>, ops: seq<Op>, i: nat)
    requires i < |ops|
    ensures After(m, ops[..i + 1]) == Apply(After(m, ops[..i]), ops[i]).0
  {
    assert ops[..i + 1][..i] == ops[..i];
  }

  /** No operation from `i` up to `j` inserts or removes a key with content `c`. */
  ghost predicate Untouched(ops: seq<Op>, i: nat, j: nat, c: int)
    requires j <= |ops|
  {
    forall n :: i <= n < j ==> ops[n].Lookup? || ops[n].k.content != c
  }

  /** Operation `j` looks up the key of operation `i`, untouched since. */
  ghost predicate LooksAfter(ops: seq<Op>, i: nat, j: nat)
    requires i < j < |ops|
  {
    ops[j].Lookup? && ops[j].k.content == ops[i].k.content && Untouched(ops, i + 1, j, ops[i].k.content)
  }

  /** Until its key is touched, a lookup finds what there was at first. */
  ghost predicate FindsFirst(m: map<int, (Key, Value)>, ops: seq<Op>, answers: seq<Answer>)
    requires |answers| == |ops|
  {
    forall j :: 0 <= j < |ops| && ops[j].Lookup? && Untouched(ops, 0, j, ops[j].k.content) ==>
      answers[j] == Found(if ops[j].k.content in m then m[ops[j].k.content].1 else None)
  }

  /** From its insertion on until its key is touched again, a lookup finds the value inserted. */
  ghost predicate FindsInserted(ops: seq<Op>, answers: seq<Answer>)
    requires |answers| == |ops|
  {
    forall i, j :: 0 <= i < j < |ops| && LooksAfter(ops, i, j) && ops[i].Insert? && ops[i].entryAllocated ==>
      answers[j] == Found(ops[i].v)
  }

  /** From its removal on until its key is touched again, a lookup finds nothing. */
  ghost predicate MissesRemoved(ops: seq<Op>, answers: seq<Answer>)
    requires |answers| == |ops|
  {
    forall i, j :: 0 <= i < j < |ops| && LooksAfter(ops, i, j) && ops[i].Remove? ==> answers[j] == Found(None)
  }

  lemma {:induction false} Undisturbed(m: map<int, (Key, Value)>, ops: seq<Op>, i: nat, j: nat, c: int)
    requires i <= j <= |ops| && Untouched(ops, i, j, c)
    ensures c in After(m, ops[..j]) <==> c in After(m, ops[..i])
    ensures c in After(m, ops[..j]) ==> After(m, ops[..j])[c] == After(m, ops[..i])[c]
  {
    if i == j {
    } else {
      Undisturbed(m, ops, i, j - 1, c);
      AfterOne(m, ops, j - 1);
    }
  }

  lemma LookupsFollow(m: map<int, (Key, Value)>, ops: seq<Op>, answers: seq<Answer>)
    requires |answers| == |ops|
    requires forall i :: 0 <= i < |ops| ==> answers[i] == Apply(After(m, ops[..i]), ops[i]).1
    ensures FindsFirst(m, ops, answers) && FindsInserted(ops, answers) && MissesRemoved(ops, answers)
  {
    forall j | 0 <= j < |ops| && ops[j].Lookup? && Untouched(ops, 0, j, ops[j].k.content)
      ensures answers[j] == Found(if ops[j].k.content in m then m[ops[j].k.content].1 else None)
    {
      Undisturbed(m, ops, 0, j, ops[j].k.content);
    }
    forall i, j | 0 <= i < j < |ops| && LooksAfter(ops, i, j)
      ensures ops[i].Remove? ==> answers[j] == Found(None)
      ensures ops[i].Insert? && ops[i].entryAllocated ==> answers[j] == Found(ops[i].v)
    {
      Undisturbed(m, ops, i + 1, j, ops[i].k.content);
      AfterOne(m, ops, i);
    }
  }

  // As many keys as entries.
  lemma {:induction false} SameSize(data: Data, index: Index)
    requires Indexed(data, index)
    ensures |data| == |index|
  {
    ghost var contents := set e | e in data :: data[e].0.content;
    forall c | c in index ensures c in contents {
      assert index[c] in data;
    }
    if e :| e in data {
      ModelDrop(data, index, e);
      SameSize(data - {e}, index - {data[e].0.content});
    } else {
    }
  }

  /** A key stored with a NULL value, and removed: it is gone, and the answer is that it was not found. */
  method RemovalDenied(hashfn: int -> nat, k: Key) returns (table: HashTable, removed: bool)
    ensures fresh(table) && table.Valid() && table.Model() == map[] && !removed
  {
    hide HashTable.Wired, Stored, Hashed;
    table := new HashTable(hashfn, [53], 0);
    var isNew := table.InsertInternal(k, None, false, FreshArray, true);
    assert isNew && table.Model() == map[k.content := (k, None)];
    removed := table.RemoveKey(k);
  }

  /** A key for which no entry can be had: the answer is that it is new, and it is not in the table. */
  method NewButMissing(hashfn: int -> nat, k: Key) returns (table: HashTable, isNew: bool)
    ensures fresh(table) && table.Valid() && isNew && k.content !in table.Model()
  {
    table := new HashTable(hashfn, [53], 0);
    isNew := table.InsertInternal(k, Some(1), false, FreshArray, false);
  }

  /** create_hashtable: the smallest listed prime above `minsize`, or NULL. */
  method Create(minsize: nat, hashfn: int -> nat, haveMemory: bool) returns (t: HashTable?)
    ensures t == null <==> minsize > 0x4000_0000 || !haveMemory
    ensures t != null ==> fresh(t) && t.Valid() && fresh(t.table) && t.hashfn == hashfn && t.primes == PRIMES
    ensures t != null ==> t.Model() == map[] && t.entrycount <= t.loadlimit
    ensures t != null ==> t.loadlimit * 100 <= t.table.Length * 65 < (t.loadlimit + 1) * 100
    ensures t != null ==> t.primeindex < |PRIMES| && t.table.Length == PRIMES[t.primeindex] > minsize
    ensures t != null ==> forall j :: 0 <= j < t.primeindex ==> PRIMES[j] <= minsize
  {
    if minsize > MAX_SIZE { return null; }
    PrimesGrow();
    var pindex := FirstAbove(PRIMES, minsize);
    if !haveMemory { return null; }
    t := new HashTable(hashfn, PRIMES, pindex);
  }

  method FirstAbove(sizes: seq<nat>, minsize: nat) returns (pindex: nat)
    requires |sizes| > 0 && sizes[|sizes| - 1] > minsize
    ensures pindex < |sizes| && sizes[pindex] > minsize
    ensures forall j :: 0 <= j < pindex ==> sizes[j] <= minsize
  {
    pindex := 0;
    while pindex < |sizes|
      invariant pindex <= |sizes|
      invariant forall j :: 0 <= j < pindex ==> sizes[j] <= minsize
    {
      if sizes[pindex] > minsize { break; }
      pindex := pindex + 1;
    }
  }
}
