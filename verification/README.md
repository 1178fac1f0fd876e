# TinyVMI: verified models

TinyVMI is a small virtual-machine introspection library. This project models its algorithmic core in
Dafny and proves what that core is for. `dafny verify dfyconfig.toml` checks everything.

- **Pattern search** (`strmatch.dfy`): the three preprocessing passes of the Boyer-Moore matcher and its
  search loop, on arrays of C `int`s. The suffix table is proved through the window that the algorithm
  reuses, the good-suffix table is proved to hold the *least* permitted shift, and the search to return
  the first match. A ghost counter bounds the comparisons of the suffix pass.
- **Reading guest memory** (`bits.dfy`, `paging.dfy`, `memory_cache.dfy`, `read_stack.dfy`): `vmi_read`
  splits a request at page boundaries, translates each page through a cached page-table walk, and the
  walk reads its entries through `vmi_read`. The reference is a byte-by-byte walk of fixed page tables
  without any cache (`Paging.Walk`, section 4.5 of the Intel 64 and IA-32 Architectures SDM, Volume 3A).
  The C masks and shifts are written bit by bit and related to division and remainder by lemmas.
- **Listing pages** (`enumeration.dfy`): the four nested loops that list an address space, against the
  same walk. Two of the loops test the wrong flag; for every guest the exact condition under which its
  listing agrees with the walk is proved, with a guest for which it does not.
- **Containers** (`hashtable.dfy`, `queue.dfy`, `slist.dfy`): linked entries on the heap. The hash table
  refines a finite map over any run of operations, growing by copying or by rehashing in place; the queue
  refines a sequence; the merge sort yields the one stable sorted rearrangement of its nodes.
- **Events** (`events.dfy`, `ring.dfy`, `listener.dfy`): the engine that counts single steps for waiting
  events, re-entered by callbacks that may make any calls on it, and the loop that drains the request
  ring, answers requests and applies put-off clears while the hypervisor keeps writing to the ring.
  Callbacks, user calls, the hypervisor's moves and the driver's answers are nondeterministic, so the
  invariants (`Engine.Valid`, `Ring.Valid`, `Listener.Valid`) hold over every run.

Memory is taken as garbage collected: freeing and destroy callbacks change no values.

Where the code differs from its documentation or intent, the code is modelled, and the difference stated:

- `g_hash_table_remove` promises TRUE exactly when the key was found; it answers FALSE for a key whose
  value is NULL (`HashTable.RemoveKey` gives the equivalence, `RemovalDenied` the input).
- `g_hash_table_insert` answers TRUE for a missing key even when no entry could be allocated for it
  (`HashTable.InsertInternal` says when the key is then in the table, `NewButMissing` reaches the failure).
- `get_va_pages_ia32e` tests `vmi->os_type` where the walk tests the transition-pages flag. A guest's
  listing is right exactly when the two have the same truth value or no address is mapped through a
  lower-level entry in transition (`ListingAgreesIff`; `ListingDisagrees` shows a guest).
- `vmi_step_event` lets the vCPU number `num_vcpus` pass; such a request, if the driver agrees to step that vCPU, is accepted but never served
  (`RequestForMissingVcpu`, and `Engine.FiresWhenDue` for every run). It also refuses a request, as if
  a user-defined handler were in place, while the internal handler of that vCPU waits to be cleared
  (`Engine.StepEvent` says exactly when it accepts, `RequestWhileClearing` reaches a refusal).
- A request of a wrong version ends the drain with nothing answered; the clears that follow then meet a
  ring that need not be empty (`Listener.DrainAndClear` gives the equivalence, `ClearOnNonEmptyRing` the
  input). The status of that second drain replaces the first one's (`Listener.Listen`).
- The refresh of a cached page passes an equality test where a comparison that yields 0 on a match is
  expected. The refreshed key comes to the head exactly when no other key is queued
  (`PageCache.RefreshedFirst`; in `RefreshMovesAnotherKey` the page just used becomes the next to go).
- When memory runs out for the queue's key, `memory_cache_insert` leaves the page cached; unless an older
  key of it is still queued, nothing will evict it (`MemoryCache.Insert` gives the condition before the call,
  `CachedForGood` the input).
- `g_queue_push_head_link` lets the sole link of a queue pass its tests, and then spoils the queue
  (`Queue.PushHeadLink` says that this is the only case, `PushedTwice` reaches it).

## Model

| member | source | states |
|---|---|---|
| StrMatch.Suffixes | tiny-vmi/strmatch.c:60-84 | every cell is the length of the longest common suffix of that prefix and the pattern; at most 2m - 1 character comparisons in all; the largest sum formed for an index is 2m - 2, within the range of int exactly for patterns up to 2^30 |
| StrMatch.ReuseShorter | tiny-vmi/strmatch.c:71-72 | inside the window, a mirrored length that stays inside is the answer |
| StrMatch.ReuseLonger | tiny-vmi/strmatch.c:73-80 | a mirrored length that reaches the edge lets comparing resume there |
| StrMatch.LongestIffMaximal | tiny-vmi/strmatch.c:78-81 | a common suffix is longest exactly when one more character disagrees |
| StrMatch.GoodSuffixFromTable | tiny-vmi/strmatch.c:101-112 | a shift is permitted after a mismatch at p exactly when the suffix table shows the stop or border that the code looks for |
| StrMatch.BorderPass | tiny-vmi/strmatch.c:97-109 | after the border pass each cell is the least larger shift leaving a border, else m |
| StrMatch.InnerPass | tiny-vmi/strmatch.c:110-112 | the last write per cell is the rightmost position whose suffix stops there |
| StrMatch.PreBmGs | tiny-vmi/strmatch.c:86-115 | each cell is the least permitted shift for a mismatch there, between 1 and m |
| StrMatch.ShiftIsLeast | tiny-vmi/strmatch.c:100-112 | the two passes together leave the minimum over all permitted shifts |
| StrMatch.PreBmBc | tiny-vmi/strmatch.c:44-58 | each cell is the distance from the end to the last earlier occurrence of the character |
| StrMatch.GoodSuffixSkipsNothing | tiny-vmi/strmatch.c:145-145 | no occurrence lies nearer than the good-suffix shift |
| StrMatch.BadCharSkipsNothing | tiny-vmi/strmatch.c:145-145 | no occurrence lies nearer than the bad-character shift |
| StrMatch.Search | tiny-vmi/strmatch.c:136-150 | the first match or -1; position and shift stay in the range of int |
| StrMatch.BoyerMoore | tiny-vmi/strmatch.c:122-151 | returns the smallest position at which the pattern occurs, -1 exactly when there is none |
| StrMatch.BoyerMooreData.constructor | tiny-vmi/strmatch.c:160-179 | preprocessing establishes both tables for the copied pattern |
| StrMatch.BoyerMooreData.Find | tiny-vmi/strmatch.c:195-219 | the preprocessed search returns the first match too |
| StrMatch.FirstMatchIsUnique | tiny-vmi/strmatch.c:121-121 | so both searches return the same position |
| Bits.AndMask | include/tiny_libvmi.h:615-615 | masking with VMI_BIT_MASK(a, b) keeps exactly bits a..b in place |
| Bits.MaskValue | include/tiny_libvmi.h:615-615 | the macro is ones in bits a..b and zeros elsewhere |
| Bits.GetBitIsDigit | include/tiny_libvmi.h:610-610 | VMI_GET_BIT tests one binary digit |
| Bits.OrDisjoint | tiny-vmi/arch/amd64.c:135-151 | OR of words without a common bit position is addition |
| Paging.ReadableIff | tiny-vmi/driver/tiny_memory_cache.c:134-170 | a byte can be read exactly when its frame is mapped and, in a bounded guest, the frame ends within the bound or at the very end of the address range; its value is that byte of the frame |
| Paging.ByteOfLittleEndian | tiny-vmi/read.c:434-441 | byte k of a word is the k-th byte stored |
| Paging.IndexFieldIsOffset | tiny-vmi/arch/amd64.c:40-115 | each masked and shifted field is eight times the level's index |
| Paging.EntryAddressIsSum | tiny-vmi/arch/amd64.c:46-133 | each entry address is table base plus eight times the index |
| Paging.EntryStaysInPage | tiny-vmi/arch/amd64.c:54-54 | an eight-byte entry never crosses its page |
| Paging.PageAddressIsSum | tiny-vmi/arch/amd64.c:135-151 | the page helpers add the offset in a 4 KB, 2 MB or 1 GB page to its frame |
| Paging.TranslateWithinPage | tiny-vmi/read.c:131-170 | addresses in one 4 KB page translate together, into one physical page, at their own offsets |
| Paging.WalkWithinPage | tiny-vmi/arch/amd64.c:153-238 | they take the same path through the tables |
| PageCache.AlignDown | tiny-vmi/driver/tiny_memory_cache.c:207-207 | the mask rounds down to a page |
| PageCache.MemoryCache.CleanCache | tiny-vmi/driver/tiny_memory_cache.c:69-94 | evicts from the tail down to half the limit, with exactly those pages |
| PageCache.MemoryCache.ValidateAndReturnData | tiny-vmi/driver/tiny_memory_cache.c:97-132 | a stale page is fetched anew; the queue is only permuted; the data is the uncached page |
| PageCache.MemoryCache.Insert | tiny-vmi/driver/tiny_memory_cache.c:201-268 | returns the uncached page or NULL; exact new table and queue however the allocations fare; bound and coherence kept; pages stay evictable exactly unless this one is newly cached, its key for the queue could not be had and no older key of it is queued |
| PageCache.CachedForGood | tiny-vmi/driver/tiny_memory_cache.c:249-256 | a cache left with a page that has no key in the queue |
| PageCache.MemoryCache.Remove | tiny-vmi/driver/tiny_memory_cache.c:270-284 | removes the page of an aligned address, leaving its key queued |
| PageCache.Run | tiny-vmi/driver/tiny_memory_cache.c:201-284 | over any run and any clock, inserts return what an uncached fetch returns, or nothing when memory runs out |
| PageCache.FindOther | tiny-vmi/driver/tiny_memory_cache.c:123-124 | the search stops at the first key that differs |
| PageCache.Refreshed | tiny-vmi/driver/tiny_memory_cache.c:123-127 | a refresh permutes the queue |
| PageCache.RefreshedFirst | tiny-vmi/driver/tiny_memory_cache.c:123-127 | the refreshed key comes first exactly when no other key is queued |
| PageCache.RefreshMovesAnotherKey | tiny-vmi/driver/tiny_memory_cache.c:123-127 | a cache of two pages in which refreshing the newer brings the older one's key to the head |
| ReadStack.Vmi.Read | tiny-vmi/read.c:36-180 | for each translation mechanism, the address space and start that a read begins from and each reason to refuse; from there exactly the longest readable prefix arrives, each byte the one at its own uncached translation; succeeds when that is everything; one round per page touched |
| ReadStack.Vmi.ReadPa | tiny-vmi/read.c:183-197 | succeeds exactly when every byte of the physical range can be read, and then the bytes are these |
| ReadStack.Vmi.ReadVa | tiny-vmi/read.c:199-215 | process 0 is read through the page tables of the kernel, another through those recorded for it; succeeds exactly when there are such tables and every byte is mapped by them and can be read, and then the bytes are these |
| ReadStack.Vmi.ReadFrom | tiny-vmi/read.c:131-176 | the same for a resolved start |
| ReadStack.Vmi.ReadRound | tiny-vmi/read.c:138-169 | one round copies the rest of a page or of the request |
| ReadStack.Vmi.Locate | tiny-vmi/read.c:138-155 | one lookup and one page serve every byte to the end of the page |
| ReadStack.Vmi.ChunkBytes | tiny-vmi/read.c:157-165 | translating the first byte of a chunk is enough for the rest of it |
| ReadStack.Vmi.NextBoundary | tiny-vmi/read.c:157-169 | rounds after the first start at page boundaries, so their number is the pages touched |
| ReadStack.Vmi.ReadPage | tiny-vmi/read.c:149-152 | shifting the frame number back yields the aligned page |
| ReadStack.Vmi.Read8Pa | tiny-vmi/accessors.c:488-490 | a physical byte, or failure when its page is unreadable |
| ReadStack.Vmi.Read64Pa | tiny-vmi/read.c:434-441 | succeeds exactly when all eight bytes can be read; byte k of the value is then the physical byte at the address plus k; one round when the word stays in a page |
| ReadStack.Vmi.GetEntry | tiny-vmi/arch/amd64.c:46-133 | one step of the walk reads the entry that the reference reads |
| ReadStack.EntryIsWord | tiny-vmi/arch/amd64.c:46-133 | an entry is the word its eight bytes spell |
| ReadStack.IsPresent | include/x86.h:100-117 | an entry counts as present if bit 0 is set, or transition pages are honoured, bit 11 is set and bit 10 is not |
| ReadStack.GigPageInBits | tiny-vmi/arch/amd64.c:153-238 | through two present entries, bit 7 of the second set, an address is mapped to the 1 GB page in bits 30..51 of that, at its low thirty bits |
| ReadStack.TwoMegPageInBits | tiny-vmi/arch/amd64.c:153-238 | through three present entries, bit 7 of the third set, to the 2 MB page in bits 21..51 of that |
| ReadStack.SmallPageInBits | tiny-vmi/arch/amd64.c:153-238 | through four present entries, to the 4 KB page in bits 12..51 of the last |
| ReadStack.Vmi.V2p | tiny-vmi/arch/amd64.c:153-238 | succeeds, with address and page kind, exactly as the reference walk |
| ReadStack.Vmi.V2pCacheGet | tiny-vmi/cache.c:551-572 | a hit gives back the full translation: stored page OR page offset |
| ReadStack.Vmi.V2pCacheSet | tiny-vmi/cache.c:574-628 | afterwards the address is cached with its page, unless one of the three numbers is zero and nothing changes; every other address of every space stays as it was; the cache stays sound exactly when the page recorded is that of the translation |
| ReadStack.Vmi.V2pCacheDel | tiny-vmi/cache.c:630-647 | afterwards the address is not cached; every other address of every space stays as it was; an address space stays exactly when another address of it was cached; fails, changing nothing, exactly when nothing was cached, so a second deletion fails |
| ReadStack.Vmi.V2pCacheFlush | tiny-vmi/cache.c:649-662 | empties one address space, or all of them for all ones |
| ReadStack.RestoredAddress | tiny-vmi/cache.c:564-564 | page address OR low twelve bits of the virtual address is the physical address, for every page kind |
| ReadStack.StoredAddress | tiny-vmi/cache.c:615-615 | masking drops the page offset |
| ReadStack.Vmi.LookupCache | tiny-vmi/accessors.c:467-520 | outcome and address are those of the uncached walk, whatever is cached; exact new cache |
| ReadStack.Vmi.LookupExtended | tiny-vmi/accessors.c:523-553 | the same, always walking; exact new cache |
| ReadStack.Run | tiny-vmi/accessors.c:467-553 | over any run of lookups, deletions and flushes the translation cache is invisible |
| Enumeration.SlotAddresses | tiny-vmi/arch/amd64.c:261-344 | entry i of a table decides exactly the addresses of its slot |
| Enumeration.CanonicalAddrIsCanonical | include/tiny_private.h:404-407 | canonical_addr copies bit 47 upwards |
| Enumeration.CanonicalHalves | include/tiny_private.h:404-407 | the lower half of the 48 bits stays in place, the upper half moves to the top of the address range |
| Enumeration.AppendIndex | tiny-vmi/arch/amd64.c:288-344 | OR-ing an index below the indices already placed adds its slot |
| Enumeration.ListPageTable | tiny-vmi/arch/amd64.c:330-358 | lists exactly the translated addresses the page table covers |
| Enumeration.ListPageDirectory | tiny-vmi/arch/amd64.c:299-360 | the same for a page directory with 2 MB pages |
| Enumeration.ListPointerTable | tiny-vmi/arch/amd64.c:269-361 | the same for a page-directory-pointer table with 1 GB pages |
| Enumeration.GetVaPages | tiny-vmi/arch/amd64.c:240-371 | the whole listing: highest first, without overlap, exactly the translated addresses |
| Enumeration.WalkLow48 | tiny-vmi/arch/amd64.c:153-238 | bits above 47 take no part in translation |
| Enumeration.TransitionLoses | tiny-vmi/arch/amd64.c:309-338 | not honouring transition pages at the lower levels loses exactly the addresses mapped through an entry in transition |
| Enumeration.ListingAgreesIff | tiny-vmi/arch/amd64.c:240-371 | for each guest, listing and walk agree in both directions exactly when the flags agree or no address is mapped through a lower-level entry in transition |
| Enumeration.ListingAgrees | tiny-vmi/arch/amd64.c:240-371 | with one flag, each address of a listed page translates to it, and each canonical address that translates lies in exactly one listed page |
| Enumeration.ListingDisagrees | tiny-vmi/arch/amd64.c:309-338 | a guest for which the listing is wrong when the flags differ |
| Enumeration.ListingReliableIff | tiny-vmi/arch/amd64.c:309-338 | without looking at the guest, the listing can be relied on exactly when os_type has the truth value of the flag |
| HashTables.Create | tiny-vmi/tiny_glib/hashtable.c:35-81 | an empty table of the first listed prime above the minimum; NULL above 2^30 or without memory |
| HashTables.FirstAbove | tiny-vmi/tiny_glib/hashtable.c:51-54 | the first size above the minimum |
| HashTables.PrimesGrow | tiny-vmi/tiny_glib/hashtable.c:21-30 | the list of sizes grows, and ends above 2^30 |
| HashTables.PushEntry | tiny-vmi/tiny_glib/hashtable.c:133-134 | puts an entry at the head of a bucket and disturbs no other chain |
| HashTables.UnlinkEntry | tiny-vmi/tiny_glib/hashtable.c:157-157 | takes an entry out of its chain and disturbs nothing else |
| HashTables.CopyToFresh | tiny-vmi/tiny_glib/hashtable.c:125-139 | growing into a fresh array keeps the entries, each in the bucket of its hash |
| HashTables.RehashInPlace | tiny-vmi/tiny_glib/hashtable.c:140-163 | so does rehashing in place, which terminates although entries move to buckets still to be walked |
| HashTables.HashTable.Expand | tiny-vmi/tiny_glib/hashtable.c:109-171 | fails, changing nothing, exactly at the last prime or without memory; otherwise the load limit grows and the entries stay |
| HashTables.HashTable.SearchEntry | tiny-vmi/tiny_glib/hashtable.c:370-387 | finds the entry of a key exactly when the map has it |
| HashTables.HashTable.NotInChain | tiny-vmi/tiny_glib/hashtable.c:376-386 | a key missing from its bucket is missing from the table |
| HashTables.HashTable.Search | tiny-vmi/tiny_glib/hashtable.c:319-367 | the value of the key, or NULL |
| HashTables.HashTable.Insert | tiny-vmi/tiny_glib/hashtable.c:283-316 | adds a missing key unless no entry can be had; keeps the count within the load limit while growing succeeds |
| HashTables.HashTable.Remove | tiny-vmi/tiny_glib/hashtable.c:389-457 | removes the key and returns its value, or NULL |
| HashTables.HashTable.InsertInternal | tiny-vmi/tiny_glib/hash.c:401-477 | a present key gets the new value, and the new key only for replace; a missing key is added exactly when its entry was allocated; no other key changes; the answer is whether the key was missing |
| HashTables.NewButMissing | tiny-vmi/tiny_glib/hash.c:468-475 | a key answered to be new that is not in the table |
| HashTables.HashTable.Lookup | tiny-vmi/tiny_glib/hash.c:932-943 | the value stored for the key, or NULL |
| HashTables.HashTable.RemoveKey | tiny-vmi/tiny_glib/hash.c:554-560 | removes that key and no other; answers whether a value other than NULL was stored, which is right exactly unless a NULL value was |
| HashTables.RemovalDenied | tiny-vmi/tiny_glib/hash.c:554-560 | a key stored with a NULL value, whose removal answers that it was not found |
| HashTables.HashTable.CountIsModelSize | tiny-vmi/tiny_glib/hash.c:570-576 | entrycount is the size of the map |
| HashTables.SameSize | tiny-vmi/tiny_glib/hashtable.c:283-316 | as many keys as entries, no two entries having equal keys |
| HashTables.HashTable.Run | tiny-vmi/tiny_glib/hash.c:401-560 | any run of operations answers as a finite map does, whatever the allocator does: until its key is touched again, a lookup answers what was inserted last, nothing after a removal, and what there was at first otherwise |
| HashTables.Undisturbed | tiny-vmi/tiny_glib/hash.c:401-560 | operations on other keys, and lookups, leave a key as it was |
| Queues.Prepend | tiny-vmi/tiny_glib/list.c:174-195 | a new link in front of a given one, both directions relinked |
| Queues.RemoveLink | tiny-vmi/tiny_glib/list.c:334-363 | unlinks any member; the tests for corruption pass; the link comes out isolated |
| Queues.Queue.PushHead | tiny-vmi/tiny_glib/queue.c:346-359 | pushes on the sequence |
| Queues.Queue.PushHeadLink | tiny-vmi/tiny_glib/queue.c:395-411 | pushes an isolated link; refuses any other; the queue stays well formed exactly unless the link is its sole member |
| Queues.PushedTwice | tiny-vmi/tiny_glib/queue.c:395-411 | a queue of one link, spoilt by pushing that link |
| Queues.Queue.PopTail | tiny-vmi/tiny_glib/queue.c:622-644 | takes the last element, or NULL |
| Queues.Queue.Unlink | tiny-vmi/tiny_glib/queue.c:814-826 | removes a member link at any place; NULL does nothing |
| Queues.Queue.FindCustom | tiny-vmi/tiny_glib/list.c:705-721 | the first link on which the comparison yields 0 |
| Queues.Queue.TraversalsAgree | tiny-vmi/tiny_glib/queue.c:346-411 | forward traversal from the head is the reverse of backward traversal from the tail, and has exactly `length` links |
| Queues.Queue.Refresh | tiny-vmi/driver/tiny_memory_cache.c:123-127 | the queue's part in a refresh is the permutation the page cache assumes |
| SListSort.SortMerge | tiny-vmi/tiny_glib/slist.c:975-1004 | relinks two lists into their merge, the first list first on ties |
| SListSort.Split | tiny-vmi/tiny_glib/slist.c:1018-1028 | the two-speed walk cuts the list into its two halves |
| SListSort.MergeSorts | tiny-vmi/tiny_glib/slist.c:986-1001 | the merge of sorted lists is sorted |
| SListSort.MergeIsStable | tiny-vmi/tiny_glib/slist.c:990-999 | the merge keeps equivalent nodes in order |
| SListSort.MergeKeepsNodes | tiny-vmi/tiny_glib/slist.c:986-1001 | the merge has the nodes of both lists |
| SListSort.SortHalves | tiny-vmi/tiny_glib/slist.c:1030-1033 | sorting both halves and merging sorts the whole, stably |
| SListSort.SortReal | tiny-vmi/tiny_glib/slist.c:1006-1034 | the same nodes come back whatever the comparison; sorted and stable for a total preorder |
| SListSort.StableSortIsUnique | tiny-vmi/tiny_glib/slist.c:1045-1046 | there is only one stable sorted rearrangement |
| SListSort.Sort | tiny-vmi/tiny_glib/slist.c:1050-1055 | returns that one |
| Events.Engine.RegisterSinglestepEvent | tiny-vmi/events.c:429-467 | installs the event on all its vCPUs or on none |
| Events.Engine.ClearSinglestepEvent | tiny-vmi/events.c:624-649 | removes it from all its vCPUs, except while shutting down |
| Events.Engine.ClearEvent | tiny-vmi/events.c:893-973 | inside a callback only noted, once if it has a free routine; otherwise carried out, successfully exactly when the event has a vCPU that exists |
| Events.Engine.RegisterEvent | tiny-vmi/events.c:812-891 | registering keeps every handler already in place and the invariant; a single-step event is installed on all its vCPUs or none, an event of another type goes to a table of its own |
| Events.Engine.StepEvent | tiny-vmi/events.c:975-1032 | exactly when a request is queued, refused or beyond the counters (where there is a handler, it is queued when that is internal and not waiting to be cleared), the wrapper queued, the count, and the handler then in place |
| Events.Engine.Enqueue | tiny-vmi/events.c:1019-1026 | the wrapper is due on the steps-th later pass of its vCPU |
| Events.Engine.Perform | tiny-vmi/events.c:812-1032 | what each user call does: a step request is queued as asked or changes nothing, an event is registered as far as the driver agrees and vCPUs are free, a clear is noted or carried out |
| Events.Engine.StepAndRegEvents | tiny-vmi/events.c:279-342 | one pass fires what is due, oldest first, and keeps the rest in order before what callbacks added; without callbacks, the events of the wrappers that fire, and no others, are registered in that order, as far as the driver agrees and vCPUs are free |
| Events.HandlersOfPass | tiny-vmi/events.c:311-314 | registering the events that fire keeps the handlers in place; each new handler is of an event that fired, on one of its own vCPUs; each event that fired is in place on all its vCPUs unless one of them had a handler or has another |
| Events.Engine.BeginPass | tiny-vmi/events.c:282-290 | the copy is the reversed list; no wrapper is lost |
| Events.Engine.Visit | tiny-vmi/events.c:295-331 | one wrapper is counted down and either fires, and then its callback runs or its event is registered, or remains and nothing else changes |
| Events.Engine.Fire | tiny-vmi/events.c:305-324 | the callback may change anything it may; without one the event of the wrapper is registered, exactly as far as the driver agrees and its vCPUs are free; then the wrapper is counted no more and the last one asks for the handler to be cleared |
| Events.Engine.Call | tiny-vmi/events.c:307-314 | without a callback, a single-step event comes to stand on exactly its existing vCPUs if the driver agrees and all are free, an event of another type goes to its table if that takes it, and otherwise nothing changes |
| Events.Engine.Retire | tiny-vmi/events.c:316-316 | the count of the vCPU drops by one with the wrapper |
| Events.Engine.EndPass | tiny-vmi/events.c:335-339 | what remains comes before what callbacks set |
| Events.StayingReversed | tiny-vmi/events.c:283-336 | reversing on the way out and on the way back keeps the order |
| Events.CountOneMore | tiny-vmi/events.c:1026-1026 | incrementing step_vcpus keeps it the number of pending wrappers |
| Events.CountOneLess | tiny-vmi/events.c:316-316 | so does decrementing, which never wraps |
| Events.OwnedWithNew | tiny-vmi/events.c:1006-1026 | a new handler with its first wrapper keeps ownership right |
| Events.OwnedWithMore | tiny-vmi/events.c:987-999 | so does a further wrapper |
| Events.OwnedWithLess | tiny-vmi/events.c:316-321 | so does retiring one, if the last asks for the clear |
| Events.OwnedCleared | tiny-vmi/events.c:82-91 | so does carrying out a clear that was put off |
| Events.Engine.FiresWhenDue | tiny-vmi/events.c:279-342 | every wrapper there has been fires exactly once, on the pass it is due, until then counting the passes left; on a vCPU that does not exist it never fires |
| Events.Engine.ProcessSingleStepEvent | tiny-vmi/driver/xen/xen_events_46.c:387-412 | a request runs one pass under an internal handler, user code under another, and fails without one |
| Events.Engine.ProcessOtherEvent | tiny-vmi/driver/xen/xen_events_46.c:429-434 | a callback of another kind keeps the invariant |
| Events.Engine.UserCode | tiny-vmi/events.c:812-1032 | any number of user calls keep the invariant and only add wrappers; inside a callback no handler goes away |
| Events.Engine.ApplyClears | tiny-vmi/driver/xen/xen_events_46.c:953-953 | the handlers left are exactly those not asked to be cleared, and each vCPU has an internal one exactly when step_vcpus is positive |
| Events.RequestForMissingVcpu | tiny-vmi/events.c:981-985 | a concrete request for vCPU num_vcpus that is accepted and owned by nothing |
| Events.RequestWhileClearing | tiny-vmi/events.c:987-993 | an engine in the callback of its last pass, where a request is refused because the internal handler waits to be cleared |
| Events.RequestBeyondCounters | tiny-vmi/events.c:981-1026 | an engine of 32 vCPUs and a request that passes the test and has no counter |
| Events.CounterIndex | tiny-vmi/events.c:981-1026 | the counter an accepted request increments exists exactly unless it is for the vCPU beyond all 32 |
| Rings.Ring.HasUnconsumedRequests | tiny-vmi/driver/xen/xen_events_46.c:444-444 | exact although computed from wrapped 32-bit indices |
| Rings.Ring.GetRequest | tiny-vmi/driver/xen/xen_events_46.c:63-80 | the oldest request not yet consumed |
| Rings.Ring.PutResponse | tiny-vmi/driver/xen/xen_events_46.c:82-99 | never over a request still to be consumed nor over a response still to be taken |
| Rings.SameSlot | tiny-vmi/driver/xen/xen_events_46.c:74-74 | a wrapped index selects the slot that the unbounded count selects |
| Rings.Differ | tiny-vmi/driver/xen/xen_events_46.c:93-93 | counts less than a ring apart select different slots |
| Rings.SubWrapped | tiny-vmi/driver/xen/xen_events_46.c:444-444 | distances survive wrapping around |
| Listeners.Listener.Dispatch | tiny-vmi/driver/xen/xen_events_46.c:461-530 | exactly the single-step requests met by an internal handler count a step; none when shutting down |
| Listeners.Listener.ProcessRequest | tiny-vmi/driver/xen/xen_events_46.c:445-535 | one request is consumed, and answered exactly when its version is right; responses stay one for one with accepted requests, in order |
| Listeners.Listener.ProcessRequests | tiny-vmi/driver/xen/xen_events_46.c:437-540 | drains until the ring is empty or a request of a wrong version was taken, and then fails; terminates when finitely many requests come, so always when the vCPUs are paused |
| Listeners.Listener.DrainAndClear | tiny-vmi/driver/xen/xen_events_46.c:940-956 | if pausing works, the clears find the ring empty exactly when no wrong version had a request behind it, and otherwise the drain fails |
| Listeners.Listener.Listen | tiny-vmi/driver/xen/xen_events_46.c:898-969 | afterwards no clear is pending and single-stepping is owned as it should be; the status is that of the last drain |
| Listeners.Listener.Run | tiny-vmi/driver/xen/xen_events_46.c:898-969 | over any run of rounds with arrivals and user calls: conservation of requests, one response each, ownership; clears meet an empty ring if pausing works and no wrong version came |
| Listeners.ClearOnNonEmptyRing | tiny-vmi/driver/xen/xen_events_46.c:940-956 | a listener whose pending clear is applied while a request is still to be consumed |
| Listeners.AcceptedOneMore | tiny-vmi/driver/xen/xen_events_46.c:450-454 | consuming a request adds it to the accepted ones exactly when its version is right |

## Left out

- StrMatch.Suffixes: what the code does with a pattern longer than 2^30, for which the sum of an index
  leaves the range of int, is not modelled; the sums are then taken without bound. Patterns are not empty,
  because the code writes cell m - 1.
- StrMatch.BoyerMooreData.constructor: patterns are not empty, for the same reason.
- HashTables.HashTable.Insert: `noccupied` is left out, as only resizing reads it; counters do not wrap.
- HashTables.RehashInPlace: the memset of the added buckets is taken to zero them.
- HashTables.HashTable.SearchEntry: the hash function, with the bit mixing applied to it, is an arbitrary
  function of what a key points to, and keys are equal when they point to equal integers.
- ReadStack.Vmi.V2pCacheFlush: modelled by its intent, as the removal of all nodes is not.
- ReadStack.Vmi.ReadPage: the page cache's allocations succeed.
- ReadStack.Vmi.V2p: the entry locations and values recorded in `page_info_t` are not modelled.
- Enumeration.GetVaPages: the same; nothing is said about `pdpte_location`. Allocation does not fail.
- ReadStack.Vmi.Read: symbol and process lookups are fixed tables given to the model; a count so large
  that the page offset plus it exceeds 64 bits is excluded.
- Events.Engine.ClearSinglestepEvent: the driver obeys.
- Events.Engine.ClearEvent: the driver obeys, free routines make no calls, and no swaps are queued.
- Events.Engine.ApplyClears: the removal of all queued requests is modelled by its intent, and free routines
  make no calls.
- Events.Engine.UserCode: the same assumptions about users as for Events.Engine.Perform.
- Events.Engine.StepEvent: what the code does once a request is found to be beyond the counters is not
  modelled; nothing changes then.
- Events.Engine.Perform: users clear single-step events only while these are registered, and do not stop
  or shut down single-stepping themselves.
- Events.Engine.RegisterEvent: the tables of other types are modelled only by the record of what is put there;
  the tests made there, and those of the fields of an event, are part of the answer given for the driver.
- Rings.Ring.PutResponse: what requests and responses carry besides version, vCPU, reason and the paused
  flag is left out.
- Listeners.Listener.Dispatch: the status that other kinds of callback leave is arbitrary.
- Listeners.Listener.DrainAndClear: no swaps are queued, so the loop over them is left out.
- Listeners.Listener.Run: the same.
- Listeners.Listener.Listen: event swapping is assumed not to be requested.
- Hypercalls, event channels, mapping, xenstore and the clock: foreign calls, taken as parameters or
  nondeterministic answers.
- Resizing, removing all nodes and iterating over a hash table: they do not work as written
  (tiny-vmi/tiny_glib/hashtable.c:173-273, tiny-vmi/tiny_glib/hash.c:886).
- Symbol and RVA caches, string reads, the 32-bit, PAE and ARM walkers, numeric page sizes, the
  configuration parser, the Rekall lookup, initialisation and printing.
