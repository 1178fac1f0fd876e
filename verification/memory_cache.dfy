/** The page cache of tiny-vmi/driver/tiny_memory_cache.c: a hash table of fetched pages with a queue
    of keys that decides what to evict. Guest memory is fixed, so the cache must never change what a
    read returns, whatever the clock says. */
module PageCache {
  import opened Bits
  import opened Sequences
  import opened Paging

  /** struct memory_cache_entry; `data` is None for the NULL a failed mapping leaves behind. */
  datatype Entry = Entry(paddr: u64, length: nat, lastUpdated: int, lastUsed: int, data: Option<Page>)

  /** Position of the first element that differs from `key`, or |q|. `g_queue_find_custom` stops
      where its comparison yields 0, and `g_int64_equal` yields 0 on keys that differ. */
  function FindOther(q: seq<u64>, key: u64): (i: nat)
    ensures i <= |q|
    ensures forall j :: 0 <= j < i ==> q[j] == key
    ensures i < |q| ==> q[i] != key
  {
    if q == [] || q[0] != key then 0 else 1 + FindOther(q[1..], key)
  }

  /** Unlink element `i` and push it back at the head. */
  function MoveToHead<T>(q: seq<T>, i: nat): (r: seq<T>)
    requires i < |q|
    ensures |r| == |q| && multiset(r) == multiset(q)
  {
    assert q == q[..i] + [q[i]] + q[i + 1..];
    [q[i]] + q[..i] + q[i + 1..]
  }

  /** What a refresh of the entry for `key` does to the queue. */
  function Refreshed(q: seq<u64>, key: u64): (r: seq<u64>)
    ensures |r| == |q| && multiset(r) == multiset(q) && Elements(r) == Elements(q)
  {
    var i := FindOther(q, key);
    var r := if i < |q| then MoveToHead(q, i) else q;
    assert forall x :: x in r <==> x in multiset(r);
    assert forall x :: x in q <==> x in multiset(q);
    r
  }

  /** The refresh is there to bring its own key to the head. It does so exactly when no other key is
      queued. */
  lemma RefreshedFirst(q: seq<u64>, key: u64)
    requires key in q
    ensures Refreshed(q, key)[0] == key <==> forall j :: 0 <= j < |q| ==> q[j] == key
  {
    var i := FindOther(q, key);
    if i < |q| { assert Refreshed(q, key)[0] == q[i]; }
  }

  lemma {:induction false} AlignDown(p: u64)
    ensures And(p, Not(PAGE_SIZE - 1)) == p - p % PAGE_SIZE
  {
    WordSize();
    Powers();
    var m := Not(PAGE_SIZE - 1);
    Ones(12, 52);
    AndSplits(p, m, 12);
    ScaleBack(p, 12);
    ShiftIsDivision(p, 12);
    AndLow(Shr(p, 12), 52);
    Pow2Add(40, 12);
    LowOfSmall(Shr(p, 12), 52);
    assert And(Low(p, 12), 0) == 0;
    ScaleBack(And(p, m), 12);
  }

  /** How the allocations of an insertion fare: the entry, its key in the table, its key in the queue. */
  datatype Memory = Enough | NoEntry | NoTableKey | NoQueueKey

  class MemoryCache {
    const guest: Guest
    const ageLimit: nat
    const sizeMax: nat
    var table: map<u64, Entry>   // vmi->memory_cache
    var lru: seq<u64>            // vmi->memory_cache_lru, head first

    /** Every cached page is the page an uncached fetch returns; the queue never outgrows its limit. */
    ghost predicate Valid()
      reads this
    {
      && sizeMax >= 1 && |lru| <= sizeMax
      && forall k :: k in table ==> Coherent(k, table[k])
    }

    /** Every cached page can still be evicted. */
    ghost predicate Evictable()
      reads this
    {
      table.Keys <= Elements(lru)
    }

    ghost predicate Coherent(k: u64, e: Entry) {
      k % PAGE_SIZE == 0 && e.paddr == k && e.length == PAGE_SIZE
      && InBounds(guest, k) && e.data == DriverPage(guest, k)
    }

    /** memory_cache_init. */
    constructor (guest: Guest, ageLimit: nat, sizeMax: nat)
      requires sizeMax >= 1
      ensures Valid() && Evictable() && this.guest == guest && this.ageLimit == ageLimit && this.sizeMax == sizeMax
      ensures table == map[] && lru == []
    {
      this.guest, this.ageLimit, this.sizeMax := guest, ageLimit, sizeMax;
      table, lru := map[], [];
    }

    /** clean_cache: evict from the tail until half the limit remains. A key may be queued more than
        once; its first eviction removes the page. */
    method CleanCache()
      requires Valid()
      modifies this
      ensures Valid() && (old(Evictable()) ==> Evictable())
      ensures |old(lru)| <= sizeMax / 2 ==> lru == old(lru) && table == old(table)
      ensures |old(lru)| > sizeMax / 2 ==>
        lru == old(lru)[..sizeMax / 2] && table == old(table) - Elements(old(lru)[sizeMax / 2..])
    {
      while |lru| > sizeMax / 2
        invariant Valid() && (old(Evictable()) ==> Evictable())
        invariant |lru| <= |old(lru)| && lru == old(lru)[..|lru|]
        invariant |old(lru)| > sizeMax / 2 ==> |lru| >= sizeMax / 2
        invariant |old(lru)| <= sizeMax / 2 ==> |lru| == |old(lru)|
        invariant table == old(table) - Elements(old(lru)[|lru|..])
        decreases |lru|
      {
        var last := |lru| - 1;
        var paddr := lru[last];
        assert old(lru)[last..] == [paddr] + old(lru)[last + 1..];
        assert forall x :: x in lru ==> x == paddr || x in lru[..last];
        lru := lru[..last];
        table := table - {paddr};
      }
    }

    /** validate_and_return_data at time `now`: a page older than the age limit is fetched anew. */
    method ValidateAndReturnData(key: u64, now: int) returns (data: Option<Page>)
      requires Valid() && key in table
      modifies this
      ensures Valid() && (old(Evictable()) ==> Evictable()) && data == DriverPage(guest, key)
      ensures var e := old(table[key]); var stale := ageLimit != 0 && now - e.lastUpdated > ageLimit;
        && table == old(table)[key := e.(lastUsed := now, lastUpdated := if stale then now else e.lastUpdated)]
        && lru == if stale then Refreshed(old(lru), key) else old(lru)
    {
      var entry := table[key];
      if ageLimit != 0 && now - entry.lastUpdated > ageLimit {
        entry := entry.(data := DriverPage(guest, entry.paddr), lastUpdated := now);
        lru := Refreshed(lru, key);
      }
      entry := entry.(lastUsed := now);
      table := table[key := entry];
      return entry.data;
    }

    /** memory_cache_insert at time `now`. A hit keeps every key and every page; a miss may first
        evict, and adds the page unless the guest's size forbids it or memory runs out. When memory runs
        out for the queue's key, the page stays cached; unless an older key of it is still queued, nothing
        will evict it. */
    method Insert(paddr: u64, now: int, memory: Memory) returns (data: Option<Page>)
      requires Valid()
      modifies this
      ensures Valid()
      ensures data == if paddr % PAGE_SIZE == 0 && (paddr in old(table) || memory == Enough)
        then FetchPage(guest, paddr) else None
      ensures paddr % PAGE_SIZE != 0 ==> table == old(table) && lru == old(lru)
      ensures paddr % PAGE_SIZE == 0 && paddr in old(table) ==>
        var e := old(table[paddr]); var stale := ageLimit != 0 && now - e.lastUpdated > ageLimit;
        && table == old(table)[paddr := e.(lastUsed := now, lastUpdated := if stale then now else e.lastUpdated)]
        && lru == if stale then Refreshed(old(lru), paddr) else old(lru)
      ensures paddr % PAGE_SIZE == 0 && paddr !in old(table) ==>
        var full := |old(lru)| >= sizeMax;
        var kept := if full then old(lru)[..sizeMax / 2] else old(lru);
        var left := if full then old(table) - Elements(old(lru)[sizeMax / 2..]) else old(table);
        var made := Entry(paddr, PAGE_SIZE, now, now, DriverPage(guest, paddr));
        var cached := InBounds(guest, paddr) && (memory == Enough || memory == NoQueueKey);
        && table == (if cached then left[paddr := made] else left)
        && lru == (if cached && memory == Enough then [paddr] + kept else kept)
      ensures old(Evictable()) ==>
        var kept := if |old(lru)| >= sizeMax then old(lru)[..sizeMax / 2] else old(lru);
        var lost := paddr % PAGE_SIZE == 0 && paddr !in old(table) && InBounds(guest, paddr)
          && memory == NoQueueKey && paddr !in kept;
        Evictable() <==> !lost
    {
      AlignDown(paddr);
      if paddr != And(paddr, Not(PAGE_SIZE - 1)) {
        return None;
      }
      if paddr in table {
        data := ValidateAndReturnData(paddr, now);
      } else {
        if |lru| >= sizeMax { CleanCache(); }
        if guest.bounded && (paddr + PAGE_SIZE) % WORD > guest.maxPhysicalAddress {
          return None;
        }
        if memory == NoEntry {
          return None;
        }
        var entry := Entry(paddr, PAGE_SIZE, now, now, DriverPage(guest, paddr));
        if memory == NoTableKey {
          return None;
        }
        table := table[paddr := entry];
        if memory == NoQueueKey {
          assert Evictable() ==> paddr in Elements(lru);
          return None;
        }
        lru := [paddr] + lru;
        data := entry.data;
      }
    }

    /** memory_cache_remove: the key stays in the queue. */
    method Remove(paddr: u64)
      requires Valid()
      modifies this
      ensures Valid() && (old(Evictable()) ==> Evictable()) && lru == old(lru)
      ensures table == if paddr % PAGE_SIZE == 0 then old(table) - {paddr} else old(table)
    {
      AlignDown(paddr);
      if paddr == And(paddr, Not(PAGE_SIZE - 1)) {
        table := table - {paddr};
      }
    }
  }

  datatype Op = Insert(paddr: u64, now: int, memory: Memory) | Remove(paddr: u64)

  /** What an operation returns when there is no cache at all. */
  function Uncached(g: Guest, op: Op): Option<Page> {
    match op
    case Insert(p, _, _) => if p % PAGE_SIZE == 0 then FetchPage(g, p) else None
    case Remove(_) => None
  }

  /** Any run of the cache, with any readings of the clock, forwards or backwards: each insert returns
      what an uncached fetch returns, or nothing when memory runs out, and the bounds of `Valid` hold
      throughout. Every page cached can still be evicted unless memory ran out for a queue's key. */
  method Run(cache: MemoryCache, ops: seq<Op>) returns (results: seq<Option<Page>>)
    requires cache.Valid()
    modifies cache
    ensures cache.Valid() && |results| == |ops|
    ensures forall i :: 0 <= i < |ops| ==>
      results[i] == Uncached(cache.guest, ops[i]) || (ops[i].Insert? && ops[i].memory != Enough && results[i] == None)
    ensures old(cache.Evictable()) && (forall op :: op in ops && op.Insert? ==> op.memory != NoQueueKey)
      ==> cache.Evictable()
  {
    results := [];
    for i := 0 to |ops|
      invariant cache.Valid() && |results| == i
      invariant forall j :: 0 <= j < i ==>
        results[j] == Uncached(cache.guest, ops[j]) || (ops[j].Insert? && ops[j].memory != Enough && results[j] == None)
      invariant old(cache.Evictable()) && (forall op :: op in ops && op.Insert? ==> op.memory != NoQueueKey)
        ==> cache.Evictable()
    {
      var r: Option<Page> := None;
      match ops[i] {
        case Insert(p, now, memory) => r := cache.Insert(p, now, memory);
        case Remove(p) => cache.Remove(p);
      }
      results := results + [r];
    }
  }

  /** A page cached without a key in the queue. */
  method CachedForGood(g: Guest) returns (cache: MemoryCache)
    requires InBounds(g, 0)
    ensures fresh(cache) && cache.Valid() && cache.guest == g
    ensures 0 in cache.table && cache.lru == [] && !cache.Evictable()
  {
    cache := new MemoryCache(g, 1, 2);
    var page := cache.Insert(0, 0, NoQueueKey);
  }

  /** Two pages cached, and the newer one refreshed: the older one's key comes to the head, and the page
      just used is the next to go. */
  method RefreshMovesAnotherKey(g: Guest) returns (cache: MemoryCache)
    requires !g.bounded && {0, 1} <= g.frames.Keys
    ensures fresh(cache) && cache.Valid() && cache.guest == g
    ensures cache.lru == [0, PAGE_SIZE] && cache.table.Keys == {0, PAGE_SIZE}
    ensures cache.table[PAGE_SIZE].lastUsed > cache.table[0].lastUsed
  {
    TwoKeys();
    hide Refreshed;
    cache := new MemoryCache(g, 1, 2);
    var page := cache.Insert(0, 0, Enough);
    page := cache.Insert(PAGE_SIZE, 1, Enough);
    assert cache.lru == [PAGE_SIZE, 0];
    page := cache.Insert(PAGE_SIZE, 3, Enough);
  }

  lemma TwoKeys()
    ensures Refreshed([PAGE_SIZE, 0], PAGE_SIZE) == [0, PAGE_SIZE]
  {
    assert FindOther([PAGE_SIZE, 0], PAGE_SIZE) == 1;
  }
}
