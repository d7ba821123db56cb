/** The virtual-memory translation simulator of part2.c: a 16-entry TLB with its own
    clock sweep, a 1024-entry page table, 256 frames of 1024 bytes, demand loading
    from a backing store, and frame eviction by a Clock (second-chance) sweep or by
    approximate LRU ages. The global arrays and counters of the C program are the
    fields of one Simulator object; the body of the main read loop is Translate. */
module VirtualMemory {
  import opened AddressCodec
  import opened Search
  import opened Clock
  import opened Lru

  const TLB_SIZE: nat := 16
  const FRAMES: nat := 256
  const MEMORY_SIZE: nat := FRAMES * PAGE_SIZE

  /** A C `signed char`. */
  type SByte = b: int | -128 <= b < 128

  /** `struct tlbentry`; the unsigned -1 sentinel of the C code is the integer -1 here. */
  datatype TlbEntry = TlbEntry(logical: int, physical: int, reference: bool)

  /** The value every TLB slot is given before the first address. */
  const EMPTY_ENTRY := TlbEntry(-1, -1, false)

  /** One line of output: the logical address, the physical address and the byte read. */
  datatype Translation = Translation(logical: Int32, physical: nat, value: SByte)

  /** The counters printed at the end of a run. */
  datatype Stats = Stats(total: nat, pageFaults: nat, tlbHits: nat)

  function Logicals(entries: seq<TlbEntry>): (r: seq<int>)
    ensures |r| == |entries|
  {
    seq(|entries|, i requires 0 <= i < |entries| => entries[i].logical)
  }

  function Physicals(entries: seq<TlbEntry>): (r: seq<int>)
    ensures |r| == |entries|
  {
    seq(|entries|, i requires 0 <= i < |entries| => entries[i].physical)
  }

  function RefBits(entries: seq<TlbEntry>): (r: seq<bool>)
    ensures |r| == |entries|
  {
    seq(|entries|, i requires 0 <= i < |entries| => entries[i].reference)
  }

  /** What `search_tlb` returns: the frame of the first entry holding the page, or
      -1 when no entry holds it. An entry invalidated by an eviction still holds its
      page but has frame -1, so finding it also reads as a miss. */
  function TlbLookup(entries: seq<TlbEntry>, page: int): int
  {
    var k := FirstIndex(Logicals(entries), page);
    if k < |entries| then entries[k].physical else -1
  }

  /** The entries with the reference bit of slot `k` set (no change when `k` is no slot). */
  function Referenced(entries: seq<TlbEntry>, k: nat): (r: seq<TlbEntry>)
    ensures |r| == |entries|
  {
    if k < |entries| then entries[k := entries[k].(reference := true)] else entries
  }

  /** The entries with the frame of slot `k` replaced by -1 (no change when `k` is no slot). */
  function Invalidated(entries: seq<TlbEntry>, k: nat): (r: seq<TlbEntry>)
    ensures |r| == |entries|
  {
    if k < |entries| then entries[k := entries[k].(physical := -1)] else entries
  }

  /** The page table with its first entry mapping to `frame` unmapped. */
  function Unmapped(table: seq<int>, frame: int): (r: seq<int>)
    ensures |r| == |table|
  {
    var k := FirstIndex(table, frame);
    if k < |table| then table[k := -1] else table
  }

  /** The TLB after `add_to_tlb(logical, physical)` with its cursor at `hand`. */
  function TlbAfterInsert(entries: seq<TlbEntry>, hand: nat, logical: int, physical: int): (r: seq<TlbEntry>)
    requires hand < |entries|
    ensures |r| == |entries|
  {
    var bits := RefBits(entries);
    var k, v := SweepLength(bits, hand), Stop(bits, hand);
    seq(|entries|, i requires 0 <= i < |entries| =>
      if i == v then TlbEntry(logical, physical, true)
      else if Ahead(|entries|, hand, i) < k then entries[i].(reference := false)
      else entries[i])
  }

  /** Where `add_to_tlb` leaves its cursor: one slot past the slot it wrote. */
  function HandAfterInsert(entries: seq<TlbEntry>, hand: nat): nat
    requires hand < |entries|
  {
    Slot(|entries|, Stop(RefBits(entries), hand), 1)
  }

  /** The TLB after `search_tlb(page)`: the first slot holding the page, if any, has its
      reference bit set. */
  function Searched(entries: seq<TlbEntry>, page: int): seq<TlbEntry>
  {
    Referenced(entries, FirstIndex(Logicals(entries), page))
  }

  /** The page table after the eviction step of a page fault taken with `filled` pages
      loaded so far: unchanged while a frame is still unfilled; otherwise the first page
      on the LRU victim (under LRU) or on the Clock hand's frame (under Clock) is unmapped. */
  function TableAfterEviction(table: seq<int>, usingLru: bool, filled: nat, victim: int, hand: int): seq<int>
  {
    if filled < FRAMES then table else Unmapped(table, if usingLru then victim else hand)
  }

  /** The TLB after the same eviction step: under LRU the first slot holding the victim's
      page is invalidated, under Clock the first slot holding the hand's frame. */
  function TlbAfterEviction(entries: seq<TlbEntry>, table: seq<int>, usingLru: bool, filled: nat, victim: int, hand: int): seq<TlbEntry>
  {
    if filled < FRAMES then entries
    else if usingLru then Invalidated(entries, FirstIndex(Logicals(entries), FirstIndex(table, victim)))
    else Invalidated(entries, FirstIndex(Physicals(entries), hand))
  }

  /** The second-chance bits after the eviction step: swept under Clock, unchanged otherwise. */
  function ChanceAfterEviction(bits: seq<bool>, hand: nat, usingLru: bool, filled: nat): seq<bool>
    requires hand < |bits|
  {
    if !usingLru && filled >= FRAMES then Swept(bits, hand) else bits
  }

  /** The frame clock hand after the eviction step: where the Clock sweep stopped, or unmoved. */
  function HandAfterEviction(bits: seq<bool>, hand: nat, usingLru: bool, filled: nat): nat
    requires hand < |bits|
  {
    if !usingLru && filled >= FRAMES then Stop(bits, hand) else hand
  }

  /** Inserting into the TLB is a clock sweep over the reference bits: the slot where
      the sweep stops receives the new translation with its bit set, the slots it
      passed lose their bits, and no other page or frame number changes. */
  lemma TlbInsertIsClockSweep(entries: seq<TlbEntry>, hand: nat, logical: int, physical: int)
    requires hand < |entries|
    ensures var v := Stop(RefBits(entries), hand);
      && RefBits(TlbAfterInsert(entries, hand, logical, physical)) == Swept(RefBits(entries), hand)[v := true]
      && Logicals(TlbAfterInsert(entries, hand, logical, physical)) == Logicals(entries)[v := logical]
      && Physicals(TlbAfterInsert(entries, hand, logical, physical)) == Physicals(entries)[v := physical]
  {
  }

  /** Setting a reference bit does not change what a lookup finds. */
  lemma LookupIgnoresReference(entries: seq<TlbEntry>, k: nat, page: int)
    ensures Logicals(Referenced(entries, k)) == Logicals(entries)
    ensures Physicals(Referenced(entries, k)) == Physicals(entries)
    ensures TlbLookup(Referenced(entries, k), page) == TlbLookup(entries, page)
  {
    assert Logicals(Referenced(entries, k)) == Logicals(entries);
  }

  /** A freshly initialised TLB holds no page in 0..1023, so every lookup misses. */
  lemma EmptyTlbMisses(page: int)
    requires 0 <= page < PAGES
    ensures FirstIndex(Logicals(seq(TLB_SIZE, _ => EMPTY_ENTRY)), page) == TLB_SIZE
    ensures TlbLookup(seq(TLB_SIZE, _ => EMPTY_ENTRY), page) == -1
  {
    var s := Logicals(seq(TLB_SIZE, _ => EMPTY_ENTRY));
    assert forall j :: 0 <= j < TLB_SIZE ==> s[j] == -1;
  }

  /** The page at `page * PAGE_SIZE` lies entirely inside the backing store. */
  predicate PageInStore(store: seq<SByte>, page: int)
  {
    0 <= page && (page + 1) * PAGE_SIZE <= |store|
  }

  /** The byte at `offset` in page `page` of the backing store. */
  function BackingByte(store: seq<SByte>, page: int, offset: int): SByte
    requires PageInStore(store, page) && 0 <= offset < PAGE_SIZE
  {
    store[page * PAGE_SIZE + offset]
  }

  /** Main memory after page `page` of the backing store has been copied into `frame`:
      exactly the PAGE_SIZE bytes of that frame are the page's bytes and no other byte
      of memory changes. */
  function PageLoaded(mem: seq<SByte>, frame: nat, store: seq<SByte>, page: nat): (r: seq<SByte>)
    requires |mem| == MEMORY_SIZE && frame < FRAMES && PageInStore(store, page)
    ensures |r| == MEMORY_SIZE
    ensures r[frame * PAGE_SIZE..(frame + 1) * PAGE_SIZE] == store[page * PAGE_SIZE..(page + 1) * PAGE_SIZE]
    ensures r[..frame * PAGE_SIZE] == mem[..frame * PAGE_SIZE]
    ensures r[(frame + 1) * PAGE_SIZE..] == mem[(frame + 1) * PAGE_SIZE..]
  {
    seq(|mem|, i requires 0 <= i < |mem| =>
      if frame * PAGE_SIZE <= i < (frame + 1) * PAGE_SIZE then store[page * PAGE_SIZE + (i - frame * PAGE_SIZE)]
      else mem[i])
  }

  /** A byte read from a freshly loaded frame is the backing store's byte at the same
      offset of the loaded page. */
  lemma LoadedByte(mem: seq<SByte>, frame: nat, store: seq<SByte>, page: nat, offset: nat)
    requires |mem| == MEMORY_SIZE && frame < FRAMES && PageInStore(store, page) && offset < PAGE_SIZE
    ensures frame * PAGE_SIZE + offset < MEMORY_SIZE
    ensures PageLoaded(mem, frame, store, page)[frame * PAGE_SIZE + offset] == BackingByte(store, page, offset)
  {
  }

  /** One translation changes main memory at most by loading the address's own page into
      the frame it was translated to. */
  ghost predicate LoadedOrSame(before: seq<SByte>, after: seq<SByte>, store: seq<SByte>, frame: nat, page: int)
  {
    || after == before
    || (|before| == MEMORY_SIZE && frame < FRAMES && PageInStore(store, page)
        && after == PageLoaded(before, frame, store, page))
  }

  /** `memories[i]` is main memory as the `i`-th address reads it, and `frames[i]` the
      frame that address was translated to: starting from `mem0`, each memory is the one
      before it, or the one before it with the address's page loaded into that frame. */
  ghost predicate MemoryTrace(mem0: seq<SByte>, store: seq<SByte>, addrs: seq<Int32>,
                              frames: seq<nat>, memories: seq<seq<SByte>>)
  {
    && |mem0| == MEMORY_SIZE && |memories| == |frames| <= |addrs|
    && forall i :: 0 <= i < |memories| ==> TraceStep(mem0, store, addrs, frames, memories, i)
  }

  /** Entry `i` of a memory trace: the `i`-th address's frame is in range, and its
      memory is the one before it, possibly with the address's page loaded. */
  ghost predicate TraceStep(mem0: seq<SByte>, store: seq<SByte>, addrs: seq<Int32>,
                            frames: seq<nat>, memories: seq<seq<SByte>>, i: nat)
  {
    && i < |memories| && i < |frames| && i < |addrs|
    && frames[i] < FRAMES && |memories[i]| == MEMORY_SIZE
    && LoadedOrSame(Before(mem0, memories, i), memories[i], store, frames[i], Decode(addrs[i]).page)
  }

  /** The memory the `i`-th address starts from: `mem0` for the first, else the memory
      the address before it read. */
  function Before<T>(mem0: T, memories: seq<T>, i: nat): T
    requires i <= |memories|
  {
    if i == 0 then mem0 else memories[i - 1]
  }

  /** The output line for `addr`, translated to `frame` while main memory was `mem`: the
      address, its offset in that frame, and the byte stored there. */
  ghost predicate ReadFrom(r: Translation, addr: Int32, frame: nat, mem: seq<SByte>)
  {
    && Describes(r, addr)
    && r.physical == Compose(frame, Decode(addr).offset)
    && r.physical < |mem| && r.value == mem[r.physical]
  }

  /** Every output line so far was read from its frame in the memory of its step. */
  ghost predicate AllRead(results: seq<Translation>, addrs: seq<Int32>, frames: seq<nat>, memories: seq<seq<SByte>>)
  {
    && |results| == |frames| == |memories| <= |addrs|
    && forall j :: 0 <= j < |results| ==> ReadFrom(results[j], addrs[j], frames[j], memories[j])
  }

  /** The output grows by one line read in the next step. */
  lemma AllReadExtends(results: seq<Translation>, addrs: seq<Int32>, frames: seq<nat>, memories: seq<seq<SByte>>,
                       r: Translation, frame: nat, mem: seq<SByte>)
    requires AllRead(results, addrs, frames, memories) && |results| < |addrs|
    requires ReadFrom(r, addrs[|results|], frame, mem)
    ensures AllRead(results + [r], addrs, frames + [frame], memories + [mem])
  {
    forall j | 0 <= j < |results| + 1
      ensures ReadFrom((results + [r])[j], addrs[j], (frames + [frame])[j], (memories + [mem])[j])
    {
      if j < |results| {
        assert (results + [r])[j] == results[j] && (frames + [frame])[j] == frames[j];
        assert (memories + [mem])[j] == memories[j];
      }
    }
  }

  /** A trace grows by one translation. */
  lemma TraceExtends(mem0: seq<SByte>, store: seq<SByte>, addrs: seq<Int32>, frames: seq<nat>,
                     memories: seq<seq<SByte>>, frame: nat, mem: seq<SByte>)
    requires MemoryTrace(mem0, store, addrs, frames, memories) && |frames| < |addrs|
    requires frame < FRAMES && |mem| == MEMORY_SIZE
    requires LoadedOrSame(Before(mem0, memories, |memories|), mem, store, frame, Decode(addrs[|frames|]).page)
    ensures MemoryTrace(mem0, store, addrs, frames + [frame], memories + [mem])
  {
    forall i | 0 <= i < |memories| + 1
      ensures TraceStep(mem0, store, addrs, frames + [frame], memories + [mem], i)
    {
      assert Before(mem0, memories + [mem], i) == Before(mem0, memories, i);
      if i < |memories| {
        assert TraceStep(mem0, store, addrs, frames, memories, i);
        assert (memories + [mem])[i] == memories[i] && (frames + [frame])[i] == frames[i];
      }
    }
  }

  /** Every frame filled so far has been used by some translation. */
  ghost predicate FilledWereUsed(used: seq<nat>, filled: nat)
  {
    forall f :: 0 <= f < FRAMES && f < filled ==> f in used
  }

  /** Recording one more use keeps every filled frame used, including a frame filled
      by that use. */
  lemma UseKeepsFilledUsed(used: seq<nat>, filled: nat, frame: nat, filled': nat)
    requires FilledWereUsed(used, filled)
    requires filled' == filled || (filled' == filled + 1 && (filled < FRAMES ==> frame == filled))
    ensures FilledWereUsed(used + [frame], filled')
  {
    forall f | 0 <= f < FRAMES && f < filled'
      ensures f in used + [frame]
    {
      if f < filled {
        assert f in used;
      }
    }
  }

  /** Frame `v` is the one whose last use in `used` lies furthest back, strictly. */
  ghost predicate LeastRecentlyUsed(used: seq<nat>, v: nat)
  {
    forall f :: 0 <= f < FRAMES && f != v ==> LastUse(used, v) < LastUse(used, f)
  }

  /** Once every frame has been filled, the frame with the largest age is the frame
      whose last use lies furthest back among all frames. */
  lemma OldestIsLeastRecentlyUsed(used: seq<nat>, filled: nat)
    requires AllBelow(used, FRAMES) && FilledWereUsed(used, filled) && filled >= FRAMES
    ensures LeastRecentlyUsed(used, LruVictim(AgesAfter(InitialAges(), used)))
  {
    forall f | 0 <= f < FRAMES
      ensures LastUse(used, f) >= 0
    {
      UsedHasLastUse(used, f);
    }
    LruVictimIsLeastRecentlyUsed(InitialAges(), used);
  }

  /** The starting LRU ages: every frame at age 0. */
  function InitialAges(): (r: seq<nat>)
    ensures |r| == FRAMES
  {
    seq(FRAMES, _ => 0)
  }

  /** Every frame number held by the TLB is a frame or -1. */
  ghost predicate FramesOrNone(entries: seq<TlbEntry>)
  {
    forall i :: 0 <= i < |entries| ==> -1 <= entries[i].physical < FRAMES
  }

  /** Every page-table entry is a frame below `filled`, or -1. */
  ghost predicate TableBelow(table: seq<int>, filled: int)
  {
    forall p :: 0 <= p < |table| ==> -1 <= table[p] < FRAMES && table[p] < filled
  }

  /** Mapping a page to a frame no later than the next one to fill keeps the table in
      range once that fill is counted. */
  lemma MapKeepsBelow(table: seq<int>, filled: nat, page: nat, frame: nat)
    requires TableBelow(table, filled) && page < |table| && frame < FRAMES && frame <= filled
    ensures TableBelow(table[page := frame], filled + 1)
  {
  }

  /** Frames `0..n-1` are each mapped by the page `owner` records for them. */
  ghost predicate Owns(table: seq<int>, owner: seq<int>, n: nat)
  {
    n <= |owner| && forall f :: 0 <= f < n ==> 0 <= owner[f] < |table| && table[owner[f]] == f
  }

  /** No two pages map to the same frame. */
  ghost predicate Injective(table: seq<int>)
  {
    forall p, q :: 0 <= p < |table| && 0 <= q < |table| && p != q && table[p] != -1 ==> table[p] != table[q]
  }

  /** Invalidating a TLB slot keeps its frames in range. */
  lemma InvalidatedInRange(entries: seq<TlbEntry>, k: nat)
    requires FramesOrNone(entries)
    ensures FramesOrNone(Invalidated(entries, k))
    ensures Logicals(Invalidated(entries, k)) == Logicals(entries)
    ensures forall i :: 0 <= i < |entries| ==>
              Invalidated(entries, k)[i].physical in {entries[i].physical, -1}
  {
    assert Logicals(Invalidated(entries, k)) == Logicals(entries);
  }

  /** Filling the next unused frame `n` with a page that was not mapped keeps every
      filled frame owned by exactly one page. */
  lemma FillKeepsMapping(table: seq<int>, owner: seq<int>, n: nat, page: nat)
    requires Owns(table, owner, n) && Injective(table) && TableBelow(table, n)
    requires n < |owner| && n < FRAMES && page < |table| && table[page] == -1
    ensures Owns(table[page := n], owner[n := page], n + 1)
    ensures Injective(table[page := n]) && TableBelow(table[page := n], n + 1)
  {
    var t := table[page := n];
    forall f | 0 <= f < n
      ensures 0 <= owner[f] < |t| && t[owner[f]] == f
    {
      assert table[owner[f]] == f;
    }
  }

  /** Unmapping the page that owns `victim` and mapping `page` to it keeps every
      frame owned by exactly one page. */
  lemma ReplaceKeepsMapping(table: seq<int>, owner: seq<int>, page: nat, victim: nat)
    requires Owns(table, owner, |owner|) && Injective(table)
    requires victim < |owner| && page < |table| && table[page] == -1
    ensures var t := table[owner[victim] := -1][page := victim];
      Owns(t, owner[victim := page], |owner|) && Injective(t)
  {
    var t := table[owner[victim] := -1][page := victim];
    forall f | 0 <= f < |owner| && f != victim
      ensures 0 <= owner[f] < |t| && t[owner[f]] == f
    {
      assert table[owner[f]] == f && table[owner[victim]] == victim;
    }
    forall p, q | 0 <= p < |t| && 0 <= q < |t| && p != q && t[p] != -1
      ensures t[p] != t[q]
    {
      if t[p] == victim {
        assert p == page;
        if q != owner[victim] {
          assert table[q] != victim by {
            assert table[owner[victim]] == victim;
          }
        }
      }
    }
  }

  class Simulator {
    /** The eviction policy chosen on the command line: Clock when false, LRU when true. */
    const usingLru: bool
    /** The contents of the backing-store file. */
    const backing: seq<SByte>

    const tlb: array<TlbEntry>
    /** The TLB clock hand. */
    var tlbIndex: nat
    const pageTable: array<int>
    const mainMemory: array<SByte>
    /** Second-chance bits of the frames, and the frame clock hand. */
    const chance: array<bool>
    var nextFrame: nat
    /** LRU ages of the frames. */
    const lru: array<nat>
    /** Set by the first LRU eviction; from then on pages are loaded into the LRU victim. */
    var lruOn: bool
    /** The number of pages loaded so far; `freePage % FRAMES` is the next frame to fill. */
    var freePage: nat
    var totalAddresses: nat
    var tlbHits: nat
    var pageFaults: nat

    /** The frames of all translations so far, in order. */
    ghost var accessed: seq<nat>
    /** Under LRU, the page that maps to each frame handed out so far. */
    ghost var frameOwner: seq<int>

    ghost predicate Shapes()
      reads this`tlbIndex, this`nextFrame, this`frameOwner
    {
      && tlb.Length == TLB_SIZE && pageTable.Length == PAGES && mainMemory.Length == MEMORY_SIZE
      && chance.Length == FRAMES && lru.Length == FRAMES
      && tlbIndex < TLB_SIZE && nextFrame < FRAMES && |frameOwner| == FRAMES
    }

    /** Every frame number in the TLB and page table is a frame or -1, and the page
        table only maps to frames that have already been filled. */
    ghost predicate FramesInRange()
      reads this`freePage, tlb, pageTable
    {
      FramesOrNone(tlb[..]) && TableBelow(pageTable[..], freePage)
    }

    /** Under LRU every frame filled so far is mapped by the page `frameOwner` records,
        and no two pages share a frame. */
    ghost predicate LruMapping()
      reads this`freePage, this`frameOwner, pageTable
    {
      && Owns(pageTable[..], frameOwner, if freePage < FRAMES then freePage else FRAMES)
      && Injective(pageTable[..])
    }

    /** The invariant of the translation state. */
    ghost predicate Core()
      reads this`tlbIndex, this`nextFrame, this`frameOwner, this`freePage, this`pageFaults, this`lruOn
      reads tlb, pageTable
    {
      && Shapes() && FramesInRange()
      && pageFaults == freePage
      && lruOn == (usingLru && freePage > FRAMES)
      && (usingLru ==> LruMapping())
    }

    /** The invariant between two translations: the state invariant, the counters,
        and the LRU ages as a function of the frames used so far. */
    ghost predicate Valid()
      reads this, tlb, pageTable, lru
    {
      && Core()
      && tlbHits + pageFaults <= totalAddresses
      && |accessed| == totalAddresses && AllBelow(accessed, FRAMES)
      && lru[..] == AgesAfter(InitialAges(), accessed)
      && FilledWereUsed(accessed, freePage)
    }

    /** The start of `main`: page table and TLB filled with -1, everything else zero. */
    constructor (usingLru: bool, backing: seq<SByte>)
      ensures Valid()
      ensures this.usingLru == usingLru && this.backing == backing
      ensures fresh(tlb) && fresh(pageTable) && fresh(mainMemory) && fresh(chance) && fresh(lru)
      ensures tlb[..] == seq(TLB_SIZE, _ => EMPTY_ENTRY) && pageTable[..] == seq(PAGES, _ => -1)
      ensures forall i :: 0 <= i < MEMORY_SIZE ==> mainMemory[i] == 0
      ensures forall f :: 0 <= f < FRAMES ==> !chance[f] && lru[f] == 0
      ensures tlbIndex == 0 && nextFrame == 0 && freePage == 0 && !lruOn
      ensures totalAddresses == 0 && tlbHits == 0 && pageFaults == 0
    {
      this.usingLru := usingLru;
      this.backing := backing;
      tlb := new TlbEntry[TLB_SIZE](_ => EMPTY_ENTRY);
      pageTable := new int[PAGES](_ => -1);
      mainMemory := new SByte[MEMORY_SIZE](_ => 0);
      chance := new bool[FRAMES](_ => false);
      lru := new nat[FRAMES](_ => 0);
      tlbIndex, nextFrame, lruOn, freePage := 0, 0, false, 0;
      totalAddresses, tlbHits, pageFaults := 0, 0, 0;
      accessed := [];
      frameOwner := seq(FRAMES, _ => -1);
      new;
      assert lru[..] == InitialAges();
    }

    /** `search_tlb`: the frame of the first slot holding `page` (or -1), setting that
        slot's reference bit and nothing else. */
    method SearchTlb(page: int) returns (physical: int)
      requires tlb.Length == TLB_SIZE
      modifies tlb
      ensures physical == TlbLookup(old(tlb[..]), page)
      ensures tlb[..] == Searched(old(tlb[..]), page)
    {
      for i := 0 to TLB_SIZE
        invariant forall j :: 0 <= j < i ==> tlb[j].logical != page
        invariant tlb[..] == old(tlb[..])
      {
        if tlb[i].logical == page {
          assert Logicals(old(tlb[..]))[i] == page;
          tlb[i] := tlb[i].(reference := true);
          return tlb[i].physical;
        }
      }
      assert forall j :: 0 <= j < TLB_SIZE ==> Logicals(old(tlb[..]))[j] != page;
      return -1;
    }

    /** `add_to_tlb`: the TLB clock sweep. Starting at `tlbIndex` it clears the
        reference bit of every slot whose bit is set, writes the translation into the
        first slot whose bit is clear, and leaves the hand one past that slot. */
    method AddToTlb(logical: int, physical: int)
      requires tlb.Length == TLB_SIZE && tlbIndex < TLB_SIZE
      modifies this`tlbIndex, tlb
      ensures tlb[..] == TlbAfterInsert(old(tlb[..]), old(tlbIndex), logical, physical)
      ensures tlbIndex == HandAfterInsert(old(tlb[..]), old(tlbIndex))
    {
      ghost var hand, entries := tlbIndex, tlb[..];
      SweepTlb();
      tlb[tlbIndex] := TlbEntry(logical, physical, true);
      tlbIndex := (tlbIndex + 1) % TLB_SIZE;
      assert forall i :: 0 <= i < TLB_SIZE ==> tlb[i] == TlbAfterInsert(entries, hand, logical, physical)[i];
    }

    /** The loop of `add_to_tlb` up to the slot it writes: every slot passed with its
        reference bit set loses the bit, and the hand stops at the first slot whose bit
        is clear. */
    method SweepTlb()
      requires tlb.Length == TLB_SIZE && tlbIndex < TLB_SIZE
      modifies this`tlbIndex, tlb
      ensures tlbIndex == Stop(RefBits(old(tlb[..])), old(tlbIndex))
      ensures forall i :: 0 <= i < TLB_SIZE ==>
                tlb[i] == if Ahead(TLB_SIZE, old(tlbIndex), i) < SweepLength(RefBits(old(tlb[..])), old(tlbIndex))
                          then old(tlb[i]).(reference := false) else old(tlb[i])
    {
      ghost var hand, entries := tlbIndex, tlb[..];
      ghost var bits := RefBits(entries);
      ghost var k: nat := 0;
      while true
        invariant tlbIndex < TLB_SIZE && k <= SweepLength(bits, hand)
        invariant tlbIndex == Slot(TLB_SIZE, hand, k)
        invariant forall i :: 0 <= i < TLB_SIZE ==>
                    tlb[i] == if Ahead(TLB_SIZE, hand, i) < k then entries[i].(reference := false) else entries[i]
        decreases TLB_SIZE - k
      {
        if !tlb[tlbIndex].reference {
          if k < TLB_SIZE {
            assert Ahead(TLB_SIZE, hand, tlbIndex) == k;
            assert !bits[Slot(TLB_SIZE, hand, k)];
          }
          assert k == SweepLength(bits, hand);
          break;
        } else {
          assert Ahead(TLB_SIZE, hand, tlbIndex) == k;
          tlb[tlbIndex] := tlb[tlbIndex].(reference := false);
          tlbIndex := (tlbIndex + 1) % TLB_SIZE;
          k := k + 1;
        }
      }
    }

    /** The page-table scan of both eviction paths: unmaps the first page mapped to
        `frame` and returns it, or returns -1 when no page maps to it. */
    method UnmapFrame(frame: int) returns (page: int)
      requires pageTable.Length == PAGES
      modifies pageTable
      ensures page == if FirstIndex(old(pageTable[..]), frame) < PAGES then FirstIndex(old(pageTable[..]), frame) else -1
      ensures pageTable[..] == Unmapped(old(pageTable[..]), frame)
    {
      for i := 0 to PAGES
        invariant forall j :: 0 <= j < i ==> pageTable[j] != frame
        invariant pageTable[..] == old(pageTable[..])
      {
        if pageTable[i] == frame {
          pageTable[i] := -1;
          return i;
        }
      }
      return -1;
    }

    /** The TLB scan of the Clock path: the first slot holding `frame` gets frame -1. */
    method InvalidateTlbFrame(frame: int)
      requires tlb.Length == TLB_SIZE
      modifies tlb
      ensures tlb[..] == Invalidated(old(tlb[..]), FirstIndex(Physicals(old(tlb[..])), frame))
    {
      for i := 0 to TLB_SIZE
        invariant forall j :: 0 <= j < i ==> tlb[j].physical != frame
        invariant tlb[..] == old(tlb[..])
      {
        if tlb[i].physical == frame {
          assert Physicals(old(tlb[..]))[i] == frame;
          tlb[i] := tlb[i].(physical := -1);
          return;
        }
      }
      assert forall j :: 0 <= j < TLB_SIZE ==> Physicals(old(tlb[..]))[j] != frame;
    }

    /** The TLB scan of the LRU path: the first slot holding `page` gets frame -1. */
    method InvalidateTlbPage(page: int)
      requires tlb.Length == TLB_SIZE
      modifies tlb
      ensures tlb[..] == Invalidated(old(tlb[..]), FirstIndex(Logicals(old(tlb[..])), page))
    {
      for i := 0 to TLB_SIZE
        invariant forall j :: 0 <= j < i ==> tlb[j].logical != page
        invariant tlb[..] == old(tlb[..])
      {
        if tlb[i].logical == page {
          assert Logicals(old(tlb[..]))[i] == page;
          tlb[i] := tlb[i].(physical := -1);
          return;
        }
      }
      assert forall j :: 0 <= j < TLB_SIZE ==> Logicals(old(tlb[..]))[j] != page;
    }

    /** The Clock eviction: the frame clock sweeps from `nextFrame`, clearing the
        chance bit of every frame it passes, and stops at the first frame whose bit is
        clear, without moving past it. That frame's first page is unmapped and the
        first TLB slot holding that frame is invalidated. */
    method EvictClock()
      requires Shapes()
      modifies this`nextFrame, chance, pageTable, tlb
      ensures nextFrame == Stop(old(chance[..]), old(nextFrame))
      ensures chance[..] == Swept(old(chance[..]), old(nextFrame))
      ensures pageTable[..] == Unmapped(old(pageTable[..]), nextFrame)
      ensures tlb[..] == Invalidated(old(tlb[..]), FirstIndex(Physicals(old(tlb[..])), nextFrame))
    {
      SweepClock();
      var _ := UnmapFrame(nextFrame);
      InvalidateTlbFrame(nextFrame);
    }

    /** The `while(1)` loop of the Clock eviction, on its own. */
    method SweepClock()
      requires chance.Length == FRAMES && nextFrame < FRAMES
      modifies this`nextFrame, chance
      ensures nextFrame == Stop(old(chance[..]), old(nextFrame))
      ensures chance[..] == Swept(old(chance[..]), old(nextFrame))
    {
      ghost var hand, bits := nextFrame, chance[..];
      ghost var k: nat := 0;
      while true
        invariant nextFrame < FRAMES && k <= SweepLength(bits, hand)
        invariant nextFrame == Slot(FRAMES, hand, k)
        invariant forall i :: 0 <= i < FRAMES ==> chance[i] == if Ahead(FRAMES, hand, i) < k then false else bits[i]
        decreases FRAMES - k
      {
        if !chance[nextFrame] {
          if k < FRAMES {
            assert Ahead(FRAMES, hand, nextFrame) == k;
          }
          break;
        } else {
          assert Ahead(FRAMES, hand, nextFrame) == k;
          chance[nextFrame] := false;
          nextFrame := (nextFrame + 1) % FRAMES;
          k := k + 1;
        }
      }
      assert chance[..] == Swept(bits, hand);
    }

    /** The LRU eviction: the victim is the frame of largest age (the highest-indexed
        one on ties); the page mapped to it, which always exists under LRU, is unmapped,
        leaving no page mapped to the victim, and the first TLB slot holding that page
        is invalidated. */
    method EvictLru() returns (victim: nat)
      requires Shapes() && FramesInRange() && usingLru && freePage >= FRAMES && LruMapping()
      modifies this`lruOn, pageTable, tlb
      ensures lruOn
      ensures victim == LruVictim(lru[..])
      ensures FirstIndex(old(pageTable[..]), victim) == old(frameOwner[victim])
      ensures pageTable[..] == old(pageTable[..])[old(frameOwner[victim]) := -1]
      ensures tlb[..] == Invalidated(old(tlb[..]), FirstIndex(Logicals(old(tlb[..])), old(frameOwner[victim])))
      ensures forall q :: 0 <= q < PAGES ==> pageTable[q] != victim
    {
      lruOn := true;
      victim := FindLruVictim();
      ghost var owner := frameOwner[victim];
      assert old(pageTable[..])[owner] == victim;
      var toRemoveLogical := UnmapFrame(victim);
      assert toRemoveLogical == owner;
      InvalidateTlbPage(toRemoveLogical);
    }

    /** The scan for the frame of largest age: `>=` keeps the last of equal ages. */
    method FindLruVictim() returns (victim: nat)
      requires lru.Length == FRAMES
      ensures victim == LruVictim(lru[..])
    {
      var maxUses: int := -1;
      var lrused: int := -1;
      for i := 0 to FRAMES
        invariant i == 0 ==> maxUses == -1 && lrused == -1
        invariant i > 0 ==> lrused == LruVictim(lru[..i]) && maxUses == lru[lrused]
      {
        if lru[i] >= maxUses {
          maxUses := lru[i];
          lrused := i;
        }
        assert lru[..i + 1][..i] == lru[..i];
      }
      assert lru[..FRAMES] == lru[..];
      victim := lrused;
    }

    /** The backing-store read and copy loop: page `page` is copied into `frame`. */
    method LoadPage(page: nat, frame: nat)
      requires mainMemory.Length == MEMORY_SIZE && frame < FRAMES && PageInStore(backing, page)
      modifies mainMemory
      ensures mainMemory[..] == PageLoaded(old(mainMemory[..]), frame, backing, page)
    {
      for i := 0 to PAGE_SIZE
        invariant forall j :: 0 <= j < MEMORY_SIZE ==>
                    mainMemory[j] == if frame * PAGE_SIZE <= j < frame * PAGE_SIZE + i
                                     then backing[page * PAGE_SIZE + (j - frame * PAGE_SIZE)]
                                     else old(mainMemory[j])
      {
        mainMemory[frame * PAGE_SIZE + i] := backing[page * PAGE_SIZE + i];
      }
    }

    /** The ageing loop run after every address: all frames one older, `frame` at 0. */
    method AgeFrames(frame: nat)
      requires lru.Length == FRAMES && frame < FRAMES
      modifies lru
      ensures lru[..] == AgeStep(old(lru[..]), frame)
    {
      for i := 0 to FRAMES
        invariant forall j :: 0 <= j < FRAMES ==> lru[j] == if j < i then old(lru[j]) + 1 else old(lru[j])
      {
        lru[i] := lru[i] + 1;
      }
      lru[frame] := 0;
    }

    /** The eviction that starts a page fault once every frame has been filled: the
        Clock sweep, or the LRU scan, whose victim it returns (-1 under Clock). */
    method Evict() returns (lrused: int)
      requires Core() && freePage >= FRAMES
      modifies this`nextFrame, this`lruOn, chance, pageTable, tlb
      ensures Shapes() && FramesOrNone(tlb[..]) && TableBelow(pageTable[..], freePage)
      ensures lruOn == usingLru
      ensures Logicals(tlb[..]) == Logicals(old(tlb[..]))
      ensures forall i :: 0 <= i < TLB_SIZE ==> tlb[i].physical == old(tlb[i].physical) || tlb[i].physical == -1
      ensures usingLru ==>
                && lrused == LruVictim(lru[..])
                && FirstIndex(old(pageTable[..]), lrused) == frameOwner[lrused]
                && pageTable[..] == old(pageTable[..])[frameOwner[lrused] := -1]
                && tlb[..] == Invalidated(old(tlb[..]), FirstIndex(Logicals(old(tlb[..])), frameOwner[lrused]))
                && nextFrame == old(nextFrame) && chance[..] == old(chance[..])
      ensures !usingLru ==>
                && lrused == -1
                && nextFrame == Stop(old(chance[..]), old(nextFrame))
                && chance[..] == Swept(old(chance[..]), old(nextFrame))
                && pageTable[..] == Unmapped(old(pageTable[..]), nextFrame)
                && tlb[..] == Invalidated(old(tlb[..]), FirstIndex(Physicals(old(tlb[..])), nextFrame))
    {
      ghost var entries := tlb[..];
      if !usingLru {
        EvictClock();
        InvalidatedInRange(entries, FirstIndex(Physicals(entries), nextFrame));
        lrused := -1;
      } else {
        lrused := EvictLru();
        InvalidatedInRange(entries, FirstIndex(Logicals(entries), frameOwner[lrused]));
      }
    }

    /** A page fault on `page`: once all frames have been filled, evict by the chosen
        policy; then load the page into frame `freePage % FRAMES` while no LRU eviction
        has happened, or into the LRU victim afterwards, map it, and count the fault.
        Under Clock the frame filled is not the frame the sweep unmapped. */
    method HandleFault(page: nat) returns (frame: nat)
      requires Core() && page < PAGES && pageTable[page] == -1 && PageInStore(backing, page)
      modifies this`nextFrame, this`lruOn, this`freePage, this`pageFaults, this`frameOwner
      modifies chance, pageTable, tlb, mainMemory
      ensures Core()
      ensures frame == if usingLru && old(freePage) >= FRAMES then LruVictim(lru[..]) else old(freePage) % FRAMES
      ensures freePage == old(freePage) + 1 && pageFaults == old(pageFaults) + 1
      ensures mainMemory[..] == PageLoaded(old(mainMemory[..]), frame, backing, page)
      ensures pageTable[..] == TableAfterEviction(old(pageTable[..]), usingLru, old(freePage), frame, nextFrame)[page := frame]
      ensures tlb[..] == TlbAfterEviction(old(tlb[..]), old(pageTable[..]), usingLru, old(freePage), frame, nextFrame)
      ensures Logicals(tlb[..]) == Logicals(old(tlb[..]))
      ensures forall i :: 0 <= i < TLB_SIZE ==> tlb[i].physical == old(tlb[i].physical) || tlb[i].physical == -1
      ensures nextFrame == HandAfterEviction(old(chance[..]), old(nextFrame), usingLru, old(freePage))
      ensures chance[..] == ChanceAfterEviction(old(chance[..]), old(nextFrame), usingLru, old(freePage))
    {
      frame := MakeRoom(page);
      Install(page, frame);
    }

    /** The first half of a page fault: evict when all frames have been filled, and
        choose the frame to load into. The invariants are stated for the table as it
        will be once `page` is mapped to that frame. */
    method MakeRoom(page: nat) returns (frame: nat)
      requires Core() && page < PAGES && pageTable[page] == -1
      modifies this`nextFrame, this`lruOn, chance, pageTable, tlb
      ensures Shapes() && frame < FRAMES && pageTable[page] == -1
      ensures frame == if usingLru && freePage >= FRAMES then LruVictim(lru[..]) else freePage % FRAMES
      ensures lruOn == (usingLru && freePage >= FRAMES)
      ensures FramesOrNone(tlb[..]) && TableBelow(pageTable[..][page := frame], freePage + 1)
      ensures usingLru ==>
                var n := if freePage + 1 < FRAMES then freePage + 1 else FRAMES;
                Owns(pageTable[..][page := frame], frameOwner[frame := page], n) && Injective(pageTable[..][page := frame])
      ensures pageTable[..] ==
                (if freePage < FRAMES then old(pageTable[..])
                 else Unmapped(old(pageTable[..]), if usingLru then frame else nextFrame))
      ensures tlb[..] ==
                if freePage < FRAMES then old(tlb[..])
                else if usingLru then Invalidated(old(tlb[..]), FirstIndex(Logicals(old(tlb[..])), FirstIndex(old(pageTable[..]), frame)))
                else Invalidated(old(tlb[..]), FirstIndex(Physicals(old(tlb[..])), nextFrame))
      ensures Logicals(tlb[..]) == Logicals(old(tlb[..]))
      ensures forall i :: 0 <= i < TLB_SIZE ==> tlb[i].physical == old(tlb[i].physical) || tlb[i].physical == -1
      ensures !usingLru && freePage >= FRAMES ==>
                nextFrame == Stop(old(chance[..]), old(nextFrame)) && chance[..] == Swept(old(chance[..]), old(nextFrame))
      ensures usingLru || freePage < FRAMES ==> nextFrame == old(nextFrame) && chance[..] == old(chance[..])
    {
      ghost var table, owner, filled := pageTable[..], frameOwner, freePage;
      var lrused: int := -1;
      if freePage >= FRAMES {
        lrused := Evict();
      }
      if !lruOn {
        frame := freePage % FRAMES;
      } else {
        frame := lrused;
      }
      if usingLru {
        if filled < FRAMES {
          FillKeepsMapping(table, owner, filled, page);
        } else {
          ReplaceKeepsMapping(table, owner, page, frame);
        }
      }
      MapKeepsBelow(pageTable[..], freePage, page, frame);
    }

    /** The rest of a page fault: the page is copied into `frame`, mapped, and the
        fault counted. */
    method Install(page: nat, frame: nat)
      requires Shapes() && page < PAGES && frame < FRAMES && pageTable[page] == -1 && PageInStore(backing, page)
      modifies this`freePage, this`pageFaults, this`frameOwner, pageTable, mainMemory
      ensures pageTable[..] == old(pageTable[..])[page := frame]
      ensures mainMemory[..] == PageLoaded(old(mainMemory[..]), frame, backing, page)
      ensures freePage == old(freePage) + 1 && pageFaults == old(pageFaults) + 1
      ensures frameOwner == if usingLru then old(frameOwner)[frame := page] else old(frameOwner)
    {
      LoadPage(page, frame);
      pageTable[page] := frame;
      freePage := freePage + 1;
      pageFaults := pageFaults + 1;
      if usingLru {
        frameOwner := frameOwner[frame := page];
      }
    }

    /** A TLB miss: the page table is consulted, a page fault is taken when it has no
        frame for the page, and the frame then gets its second-chance bit and is entered
        into the TLB. A page that had no TLB slot at all is found by the next lookup; one
        whose slot had been invalidated can stay shadowed by that earlier slot. */
    method ResolveMiss(page: nat) returns (frame: nat)
      requires Core() && page < PAGES && PageInStore(backing, page) && TlbLookup(tlb[..], page) == -1
      modifies this`tlbIndex, this`nextFrame, this`lruOn, this`freePage, this`pageFaults, this`frameOwner
      modifies chance, pageTable, tlb, mainMemory
      ensures Core()
      ensures frame < FRAMES && pageTable[page] == frame && chance[frame]
      ensures old(pageTable[page]) != -1 ==>
                && frame == old(pageTable[page])
                && pageTable[..] == old(pageTable[..]) && mainMemory[..] == old(mainMemory[..])
                && chance[..] == old(chance[..])[frame := true]
                && freePage == old(freePage) && pageFaults == old(pageFaults)
                && nextFrame == old(nextFrame)
                && tlb[..] == TlbAfterInsert(old(tlb[..]), old(tlbIndex), page, frame)
                && tlbIndex == HandAfterInsert(old(tlb[..]), old(tlbIndex))
      ensures old(pageTable[page]) == -1 ==>
                && frame == (if usingLru && old(freePage) >= FRAMES then LruVictim(lru[..]) else old(freePage) % FRAMES)
                && freePage == old(freePage) + 1 && pageFaults == old(pageFaults) + 1
                && mainMemory[..] == PageLoaded(old(mainMemory[..]), frame, backing, page)
                && pageTable[..] == TableAfterEviction(old(pageTable[..]), usingLru, old(freePage), frame, nextFrame)[page := frame]
                && nextFrame == HandAfterEviction(old(chance[..]), old(nextFrame), usingLru, old(freePage))
                && chance[..] == ChanceAfterEviction(old(chance[..]), old(nextFrame), usingLru, old(freePage))[frame := true]
                && tlb[..] == TlbAfterInsert(TlbAfterEviction(old(tlb[..]), old(pageTable[..]), usingLru, old(freePage), frame, nextFrame), old(tlbIndex), page, frame)
                && tlbIndex == HandAfterInsert(TlbAfterEviction(old(tlb[..]), old(pageTable[..]), usingLru, old(freePage), frame, nextFrame), old(tlbIndex))
      ensures TlbLookup(tlb[..], page) == frame || TlbLookup(tlb[..], page) == -1
      ensures FirstIndex(Logicals(old(tlb[..])), page) == TLB_SIZE ==> TlbLookup(tlb[..], page) == frame
    {
      var physicalPage := pageTable[page];
      if physicalPage == -1 {
        physicalPage := HandleFault(page);
      }
      frame := physicalPage;
      chance[frame] := true;
      ghost var entries, hand := tlb[..], tlbIndex;
      AddToTlb(page, frame);
      InsertKeepsRange(entries, hand, page, frame);
      InsertedLookup(entries, hand, page, frame);
    }

    /** What the frame lookup for `page` did between the old state and this one, with
        `victim` the LRU victim of the ages at the time. A TLB hit counts a hit, sets the
        slot's reference bit and changes nothing else. A miss consults the page table:
        if the page is mapped, its frame gets its second-chance bit and is entered into
        the TLB; otherwise a page fault evicts (once every frame is filled), loads the
        page into `freePage % FRAMES` or the LRU victim, maps it, counts the fault, and
        then does the same. */
    twostate predicate LookedUp(page: nat, frame: nat, victim: nat)
      reads this`tlbIndex, this`nextFrame, this`freePage, this`pageFaults, this`tlbHits
      reads tlb, pageTable, mainMemory, chance
      requires tlb.Length == TLB_SIZE && pageTable.Length == PAGES && mainMemory.Length == MEMORY_SIZE
      requires chance.Length == FRAMES && page < PAGES && frame < FRAMES
      requires old(tlbIndex) < TLB_SIZE && old(nextFrame) < FRAMES
    {
      && (old(TlbLookup(tlb[..], page)) != -1 ==>
            && frame == old(TlbLookup(tlb[..], page))
            && tlbHits == old(tlbHits) + 1 && pageFaults == old(pageFaults) && freePage == old(freePage)
            && pageTable[..] == old(pageTable[..]) && mainMemory[..] == old(mainMemory[..])
            && chance[..] == old(chance[..]) && nextFrame == old(nextFrame)
            && tlb[..] == Searched(old(tlb[..]), page) && tlbIndex == old(tlbIndex)
            && TlbLookup(tlb[..], page) == frame)
      && (old(TlbLookup(tlb[..], page)) == -1 ==>
            && tlbHits == old(tlbHits) && pageTable[page] == frame && chance[frame]
            && (TlbLookup(tlb[..], page) == frame || TlbLookup(tlb[..], page) == -1)
            && (FirstIndex(Logicals(old(tlb[..])), page) == TLB_SIZE ==> TlbLookup(tlb[..], page) == frame))
      && (old(TlbLookup(tlb[..], page)) == -1 && old(pageTable[page]) != -1 ==>
            && frame == old(pageTable[page]) && pageFaults == old(pageFaults) && freePage == old(freePage)
            && mainMemory[..] == old(mainMemory[..]) && pageTable[..] == old(pageTable[..])
            && chance[..] == old(chance[..])[frame := true] && nextFrame == old(nextFrame)
            && tlb[..] == TlbAfterInsert(Searched(old(tlb[..]), page), old(tlbIndex), page, frame)
            && tlbIndex == HandAfterInsert(Searched(old(tlb[..]), page), old(tlbIndex)))
      && (old(TlbLookup(tlb[..], page)) == -1 && old(pageTable[page]) == -1 ==>
            && freePage == old(freePage) + 1 && pageFaults == old(pageFaults) + 1
            && frame == (if usingLru && old(freePage) >= FRAMES then victim else old(freePage) % FRAMES)
            && PageInStore(backing, page)
            && mainMemory[..] == PageLoaded(old(mainMemory[..]), frame, backing, page)
            && pageTable[..] == TableAfterEviction(old(pageTable[..]), usingLru, old(freePage), frame, nextFrame)[page := frame]
            && nextFrame == HandAfterEviction(old(chance[..]), old(nextFrame), usingLru, old(freePage))
            && chance[..] == ChanceAfterEviction(old(chance[..]), old(nextFrame), usingLru, old(freePage))[frame := true]
            && tlb[..] == TlbAfterInsert(TlbAfterEviction(Searched(old(tlb[..]), page), old(pageTable[..]), usingLru, old(freePage), frame, nextFrame), old(tlbIndex), page, frame)
            && tlbIndex == HandAfterInsert(TlbAfterEviction(Searched(old(tlb[..]), page), old(pageTable[..]), usingLru, old(freePage), frame, nextFrame), old(tlbIndex)))
    }

    /** The frame lookup of one pass of the main loop: the TLB first, and on a miss
        the page table and, failing that, a page fault. */
    method FindFrame(page: nat) returns (frame: nat)
      requires Core() && page < PAGES && PageInStore(backing, page)
      modifies this`tlbIndex, this`nextFrame, this`lruOn, this`freePage, this`pageFaults, this`tlbHits, this`frameOwner
      modifies chance, pageTable, tlb, mainMemory
      ensures Core() && frame < FRAMES
      ensures LookedUp(page, frame, LruVictim(lru[..]))
      ensures tlbHits + pageFaults <= old(tlbHits + pageFaults) + 1 && pageFaults >= old(pageFaults)
      ensures freePage == old(freePage) || (freePage == old(freePage) + 1 && (old(freePage) < FRAMES ==> frame == old(freePage)))
    {
      ghost var entries0 := tlb[..];
      var physicalPage := SearchTlb(page);
      LookupIgnoresReference(entries0, FirstIndex(Logicals(entries0), page), page);
      if physicalPage != -1 {
        tlbHits := tlbHits + 1;
      } else {
        physicalPage := ResolveMiss(page);
      }
      frame := physicalPage;
    }

    /** The lookup and the read of one pass of the main loop: the frame of `addr`'s
        page is found, and the byte at the address's offset in it is read. On a page
        fault the byte read is the backing store's byte at the address's page and offset. */
    method Fetch(addr: Int32) returns (frame: nat, result: Translation)
      requires Core() && PageInStore(backing, Decode(addr).page)
      modifies this`tlbIndex, this`nextFrame, this`lruOn, this`freePage, this`pageFaults, this`tlbHits, this`frameOwner
      modifies chance, pageTable, tlb, mainMemory
      ensures Core() && frame < FRAMES && ReadFrom(result, addr, frame, mainMemory[..])
      ensures LoadedOrSame(old(mainMemory[..]), mainMemory[..], backing, frame, Decode(addr).page)
      ensures LookedUp(Decode(addr).page, frame, LruVictim(lru[..]))
      ensures tlbHits + pageFaults <= old(tlbHits + pageFaults) + 1 && pageFaults >= old(pageFaults)
      ensures freePage == old(freePage) || (freePage == old(freePage) + 1 && (old(freePage) < FRAMES ==> frame == old(freePage)))
      ensures old(TlbLookup(tlb[..], Decode(addr).page)) == -1 && old(pageTable[Decode(addr).page]) == -1 ==>
                result.value == BackingByte(backing, Decode(addr).page, Decode(addr).offset)
    {
      var d := Decode(addr);
      ghost var mem0 := mainMemory[..];
      frame := FindFrame(d.page);
      LoadedByte(mem0, frame, backing, d.page, d.offset);
      var physicalAddress := Compose(frame, d.offset);
      var value := mainMemory[physicalAddress];
      result := Translation(addr, physicalAddress, value);
    }

    /** One pass of the main loop: decode the address, find its frame, read the byte,
        and age the frames. On a page fault the byte read is the backing store's byte
        at the address's page and offset. */
    method Translate(addr: Int32) returns (frame: nat, result: Translation)
      requires Valid() && PageInStore(backing, Decode(addr).page)
      modifies this, tlb, pageTable, mainMemory, chance, lru
      ensures Valid()
      ensures totalAddresses == old(totalAddresses) + 1 && accessed == old(accessed) + [frame]
      ensures frame < FRAMES && ReadFrom(result, addr, frame, mainMemory[..])
      ensures pageFaults >= old(pageFaults) && lru[..] == AgeStep(old(lru[..]), frame)
      ensures LoadedOrSame(old(mainMemory[..]), mainMemory[..], backing, frame, Decode(addr).page)
      ensures LookedUp(Decode(addr).page, frame, LruVictim(old(lru[..])))
      ensures old(TlbLookup(tlb[..], Decode(addr).page)) == -1 && old(pageTable[Decode(addr).page]) == -1 ==>
                result.value == BackingByte(backing, Decode(addr).page, Decode(addr).offset)
    {
      frame, result := Fetch(addr);
      RecordUse(frame, old(freePage));
    }

    /** The end of one iteration of the address loop: the ages are advanced with
        `frame` used, and the use and the address are counted. `filled` is the number
        of frames filled before this address. */
    method RecordUse(frame: nat, ghost filled: nat)
      requires Core() && frame < FRAMES && tlbHits + pageFaults <= totalAddresses + 1
      requires |accessed| == totalAddresses && AllBelow(accessed, FRAMES)
      requires lru[..] == AgesAfter(InitialAges(), accessed)
      requires FilledWereUsed(accessed, filled)
      requires freePage == filled || (freePage == filled + 1 && (filled < FRAMES ==> frame == filled))
      modifies this`totalAddresses, this`accessed, lru
      ensures Valid()
      ensures totalAddresses == old(totalAddresses) + 1 && accessed == old(accessed) + [frame]
      ensures lru[..] == AgeStep(old(lru[..]), frame)
    {
      AgeFrames(frame);
      AgesAfterUse(InitialAges(), accessed, frame);
      UseKeepsFilledUsed(accessed, filled, frame, freePage);
      accessed := accessed + [frame];
      totalAddresses := totalAddresses + 1;
    }

    /** Nothing has been translated and `page` is in neither the TLB nor the table. */
    ghost predicate Untouched(page: nat)
      reads this, tlb, pageTable
      requires Shapes() && page < PAGES
    {
      && pageFaults == 0 && tlbHits == 0 && pageTable[page] == -1
      && FirstIndex(Logicals(tlb[..]), page) == TLB_SIZE
      && TlbLookup(tlb[..], page) == -1
    }

    /** After `n` translations of addresses on `page`, only the first faulted, and
        the TLB now finds the page in `frame`. */
    ghost predicate Resident(page: nat, frame: nat, n: nat)
      reads this, tlb
      requires Shapes()
    {
      pageFaults == 1 && tlbHits == n - 1 && frame < FRAMES && TlbLookup(tlb[..], page) == frame
    }

    /** The address loop of `main`, from the initial state: every address is
        translated in order. Result `i` is the address, its offset in frame
        `frames[i]`, and the byte at that physical address in `memories[i]`, the main
        memory as that address reads it; memory changes only by loading an address's own
        page into its frame, and the frames are the LRU use history. The first address
        always faults and reads the backing store, and a run that stays within one page
        faults once and hits the TLB on every later address. */
    method Run(addrs: seq<Int32>) returns (results: seq<Translation>, ghost frames: seq<nat>, ghost memories: seq<seq<SByte>>)
      requires Valid() && totalAddresses == 0 && tlbHits == 0 && pageFaults == 0
      requires tlb[..] == seq(TLB_SIZE, _ => EMPTY_ENTRY) && pageTable[..] == seq(PAGES, _ => -1)
      requires forall i :: 0 <= i < |addrs| ==> PageInStore(backing, Decode(addrs[i]).page)
      modifies this, tlb, pageTable, mainMemory, chance, lru
      ensures Valid() && |results| == |addrs| && totalAddresses == |addrs|
      ensures frames == accessed && |frames| == |addrs|
      ensures MemoryTrace(old(mainMemory[..]), backing, addrs, frames, memories)
      ensures |addrs| > 0 ==> memories[|addrs| - 1] == mainMemory[..]
      ensures forall i :: 0 <= i < |addrs| ==> ReadFrom(results[i], addrs[i], frames[i], memories[i])
      ensures |addrs| > 0 ==> pageFaults >= 1
      ensures |addrs| > 0 ==>
                results[0].value == BackingByte(backing, Decode(addrs[0]).page, Decode(addrs[0]).offset)
      ensures |addrs| > 0 && (forall i :: 0 <= i < |addrs| ==> Decode(addrs[i]).page == Decode(addrs[0]).page) ==>
                pageFaults == 1 && tlbHits == |addrs| - 1
    {
      ghost var mem0 := mainMemory[..];
      results, frames, memories := [], [], [];
      ghost var page0: nat := if |addrs| > 0 then Decode(addrs[0]).page else 0;
      if |addrs| > 0 {
        EmptyTlbMisses(page0);
      }
      ghost var samePage := |addrs| > 0 && forall i :: 0 <= i < |addrs| ==> Decode(addrs[i]).page == page0;
      ghost var firstFrame: nat := 0;
      for i := 0 to |addrs|
        invariant Progress(mem0, addrs, i, results, frames, memories, page0, samePage, firstFrame)
      {
        results, frames, memories, firstFrame := Step(mem0, addrs, i, results, frames, memories, page0, samePage, firstFrame);
      }
    }

    /** The state of the address loop after its first `i` addresses, starting from
        main memory `mem0`: the results, frames and memories so far describe those
        addresses, and the first address faulted. When every address is on `page0`
        (`samePage`), that one fault is the only one and every later address hit the
        TLB, which finds `page0` in `firstFrame`. */
    ghost predicate Progress(mem0: seq<SByte>, addrs: seq<Int32>, i: nat, results: seq<Translation>,
                             frames: seq<nat>, memories: seq<seq<SByte>>, page0: nat, samePage: bool, firstFrame: nat)
      reads this, tlb, pageTable, lru, mainMemory
    {
      && i <= |addrs| && Valid() && totalAddresses == i && |results| == i
      && frames == accessed && |frames| == i
      && MemoryTrace(mem0, backing, addrs, frames, memories)
      && mainMemory[..] == Before(mem0, memories, i)
      && AllRead(results, addrs, frames, memories)
      && (|addrs| > 0 ==> page0 == Decode(addrs[0]).page && page0 < PAGES)
      && (samePage ==> |addrs| > 0 && forall j :: 0 <= j < |addrs| ==> Decode(addrs[j]).page == page0)
      && (i > 0 ==> pageFaults >= 1)
      && (i > 0 ==> PageInStore(backing, page0) && results[0].value == BackingByte(backing, page0, Decode(addrs[0]).offset))
      && (i == 0 && i < |addrs| ==> Untouched(page0))
      && (samePage && i > 0 ==> Resident(page0, firstFrame, i))
    }

    /** One iteration of the address loop: address `i` is translated and its result,
        frame and memory snapshot are appended. */
    method Step(ghost mem0: seq<SByte>, addrs: seq<Int32>, i: nat, results: seq<Translation>,
                ghost frames: seq<nat>, ghost memories: seq<seq<SByte>>, ghost page0: nat, ghost samePage: bool, ghost firstFrame: nat)
      returns (results': seq<Translation>, ghost frames': seq<nat>, ghost memories': seq<seq<SByte>>, ghost firstFrame': nat)
      requires i < |addrs| && Progress(mem0, addrs, i, results, frames, memories, page0, samePage, firstFrame)
      requires PageInStore(backing, Decode(addrs[i]).page)
      modifies this, tlb, pageTable, mainMemory, chance, lru
      ensures Progress(mem0, addrs, i + 1, results', frames', memories', page0, samePage, firstFrame')
    {
      if i > 0 && samePage {
        assert Decode(addrs[i]).page == page0;
      }
      var frame, r := Translate(addrs[i]);
      firstFrame' := if i == 0 then frame else firstFrame;
      TraceExtends(mem0, backing, addrs, frames, memories, frame, mainMemory[..]);
      AllReadExtends(results, addrs, frames, memories, r, frame, mainMemory[..]);
      results' := results + [r];
      frames' := frames + [frame];
      memories' := memories + [mainMemory[..]];
    }
  }

  /** Inserting a frame or -1 keeps every frame in the TLB in range. */
  lemma InsertKeepsRange(entries: seq<TlbEntry>, hand: nat, logical: int, physical: int)
    requires hand < |entries| && FramesOrNone(entries) && -1 <= physical < FRAMES
    ensures FramesOrNone(TlbAfterInsert(entries, hand, logical, physical))
  {
  }

  /** After an insertion into a TLB where `page` missed, a lookup of `page` finds the
      new frame, unless an earlier slot still holds `page` with frame -1. */
  lemma InsertedLookup(entries: seq<TlbEntry>, hand: nat, page: int, frame: int)
    requires hand < |entries| && TlbLookup(entries, page) == -1
    ensures var after := TlbAfterInsert(entries, hand, page, frame);
      && (TlbLookup(after, page) == frame || TlbLookup(after, page) == -1)
      && (FirstIndex(Logicals(entries), page) == |entries| ==> TlbLookup(after, page) == frame)
  {
    var after := TlbAfterInsert(entries, hand, page, frame);
    var v := Stop(RefBits(entries), hand);
    TlbInsertIsClockSweep(entries, hand, page, frame);
    FirstIndexAfterWrite(Logicals(entries), v, page);
    var k := FirstIndex(Logicals(after), page);
    assert after[k].physical == Physicals(after)[k];
  }

  /** As written, an invalidated slot keeps its page number, and the lookup stops at
      it: with slot 0 left over from the eviction of page 5 and the hand at slot 1,
      inserting page 5 in frame 7 still leaves page 5 missing from the TLB. */
  lemma StaleSlotShadowsInsert()
    ensures TlbLookup(StaleTlb(), 5) == -1
    ensures TlbAfterInsert(StaleTlb(), 1, 5, 7)[1] == TlbEntry(5, 7, true)
    ensures TlbLookup(TlbAfterInsert(StaleTlb(), 1, 5, 7), 5) == -1
  {
    var after := TlbAfterInsert(StaleTlb(), 1, 5, 7);
    assert !RefBits(StaleTlb())[Slot(TLB_SIZE, 1, 0)];
    assert SweepLength(RefBits(StaleTlb()), 1) == 0;
    assert after[0] == TlbEntry(5, -1, false);
    assert Logicals(after)[0] == 5;
  }

  /** A TLB whose slot 0 was invalidated while it held page 5. */
  function StaleTlb(): (r: seq<TlbEntry>)
    ensures |r| == TLB_SIZE && r[0] == TlbEntry(5, -1, false)
  {
    seq(TLB_SIZE, i => if i == 0 then TlbEntry(5, -1, false) else EMPTY_ENTRY)
  }

  /** The index of the first slot that holds `page` with a frame, or `|entries|`. */
  function FirstValid(entries: seq<TlbEntry>, page: int): (k: nat)
    ensures k <= |entries|
    ensures k < |entries| ==> entries[k].logical == page && entries[k].physical != -1
    ensures forall j :: 0 <= j < k ==> !(entries[j].logical == page && entries[j].physical != -1)
  {
    if entries == [] then 0
    else if entries[0].logical == page && entries[0].physical != -1 then 0
    else 1 + FirstValid(entries[1..], page)
  }

  /** The corrected lookup: an invalidated slot is passed over, as if eviction had
      removed the page from it as well as the frame. */
  function ValidLookup(entries: seq<TlbEntry>, page: int): (f: int)
    ensures f == -1 <==> forall j :: 0 <= j < |entries| ==> !(entries[j].logical == page && entries[j].physical != -1)
    ensures f != -1 ==> exists j :: 0 <= j < |entries| && entries[j] == TlbEntry(page, f, entries[j].reference)
  {
    var k := FirstValid(entries, page);
    if k < |entries| then entries[k].physical else -1
  }

  /** Where no slot holds `page` with frame -1, the corrected lookup and `search_tlb`
      agree. */
  lemma ValidLookupAgrees(entries: seq<TlbEntry>, page: int)
    requires forall j :: 0 <= j < |entries| ==> entries[j] != TlbEntry(page, -1, entries[j].reference)
    ensures ValidLookup(entries, page) == TlbLookup(entries, page)
  {
    var k, k' := FirstValid(entries, page), FirstIndex(Logicals(entries), page);
    if k' < |entries| {
      assert entries[k'].logical == page;
    }
    if k < |entries| {
      assert Logicals(entries)[k] == page;
    }
  }

  /** With the corrected lookup, a page that missed is found in its new frame right
      after it has been inserted, whatever stale slots the TLB holds. */
  lemma CorrectedInsertedLookup(entries: seq<TlbEntry>, hand: nat, page: int, frame: nat)
    requires hand < |entries| && ValidLookup(entries, page) == -1
    ensures ValidLookup(TlbAfterInsert(entries, hand, page, frame), page) == frame
  {
    var after := TlbAfterInsert(entries, hand, page, frame);
    var v := Stop(RefBits(entries), hand);
    assert after[v].logical == page && after[v].physical == frame;
    assert forall j :: 0 <= j < |after| && j != v ==>
             after[j].logical == entries[j].logical && after[j].physical == entries[j].physical;
  }

  /** In every state between translations, once all frames are filled under LRU, the
      frame the next page fault evicts (the LruVictim of the ages, see Translate) is
      the least recently used frame. */
  lemma LruEvictsLeastRecentlyUsed(sim: Simulator)
    requires sim.Valid() && sim.usingLru && sim.freePage >= FRAMES
    ensures LeastRecentlyUsed(sim.accessed, LruVictim(sim.lru[..]))
  {
    OldestIsLeastRecentlyUsed(sim.accessed, sim.freePage);
  }

  /** An output line for `addr` carries the address itself and a physical address
      inside main memory with the same page offset. */
  predicate Describes(r: Translation, addr: Int32)
  {
    r.logical == addr && r.physical < MEMORY_SIZE && r.physical % PAGE_SIZE == Decode(addr).offset
  }

  /** Main memory at program start: every byte zero. */
  const ZERO_MEMORY: seq<SByte> := seq(MEMORY_SIZE, _ => 0)

  /** The whole run: every address of the input is translated in order by one
      simulator over the given backing store, starting from zeroed memory. Result `i`
      is the address, its offset in frame `frames[i]`, and the byte at that physical
      address in `memories[i]`, where memory changes only by loading an address's own
      page into its frame. The counters stay within the number of addresses, the first
      address always faults, and a run that stays within one page faults once and hits
      the TLB on every later address. */
  method Simulate(usingLru: bool, backing: seq<SByte>, addrs: seq<Int32>)
    returns (results: seq<Translation>, stats: Stats, ghost frames: seq<nat>, ghost memories: seq<seq<SByte>>)
    requires forall i :: 0 <= i < |addrs| ==> PageInStore(backing, Decode(addrs[i]).page)
    ensures |results| == |addrs| && stats.total == |addrs|
    ensures stats.tlbHits + stats.pageFaults <= stats.total
    ensures MemoryTrace(ZERO_MEMORY, backing, addrs, frames, memories) && |frames| == |addrs|
    ensures forall i :: 0 <= i < |addrs| ==> ReadFrom(results[i], addrs[i], frames[i], memories[i])
    ensures |addrs| > 0 ==> stats.pageFaults >= 1
    ensures |addrs| > 0 ==>
              results[0].value == BackingByte(backing, Decode(addrs[0]).page, Decode(addrs[0]).offset)
    ensures |addrs| > 0 && (forall i :: 0 <= i < |addrs| ==> Decode(addrs[i]).page == Decode(addrs[0]).page) ==>
              stats.pageFaults == 1 && stats.tlbHits == |addrs| - 1
  {
    var sim := new Simulator(usingLru, backing);
    assert sim.mainMemory[..] == ZERO_MEMORY;
    results, frames, memories := sim.Run(addrs);
    stats := Stats(sim.totalAddresses, sim.pageFaults, sim.tlbHits);
  }
}
