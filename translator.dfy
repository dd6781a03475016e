// resolve_address as a function of the simulator state: lookup, page fault,
// free-frame fill, and eviction under the configured replacement scheme,
// with the invariant the translation keeps and the effect of each path.

module Translator {
  import opened Bits
  import opened PageTable
  import opened Policies

  /** REPLACE_NONE, REPLACE_FIFO, REPLACE_LRU, REPLACE_SECONDCHANCE, REPLACE_OPTIMAL. */
  datatype Scheme = NoScheme | Fifo | Lru | SecondChance | Optimal

  /** size_of_frame (offset bits), size_of_memory (frame count), page_replacement_scheme. */
  datatype Config = Config(frameBits: int, numFrames: int, scheme: Scheme)

  /** The configuration check main makes before running. */
  predicate Runnable(c: Config)
  {
    c.scheme != NoScheme && c.frameBits > 0 && c.numFrames > 0
  }

  /**
   * The simulator's global state: the page table, the four counters
   * (page_faults, mem_refs, swap_outs, swap_ins), the logical clock
   * `timestamp`, and `victim_frame`, the cursor shared by FIFO and second chance.
   */
  datatype Engine = Engine(frames: seq<Frame>, pageFaults: nat, memRefs: nat, swapOuts: nat,
                           swapIns: nat, timestamp: nat, cursor: nat)

  /** The new state and the physical address; `None` stands for the source's -1. */
  datatype Resolved = Resolved(e: Engine, phys: Option<nat>)

  /** The state after setup: `n` free frames and every counter at zero. */
  function Init(n: nat): Engine
  {
    Engine(seq(n, _ => Unused), 0, 0, 0, 0, 0, 0)
  }

  /**
   * setup exactly as the source writes it: the table comes from an allocator
   * that clears nothing, and only `free` is set, so every other field keeps
   * whatever `table` held. With zeroed memory this is `Init`.
   */
  function SetupAsWritten(table: seq<Frame>): (e: Engine)
    ensures |e.frames| == |table|
    ensures forall i :: 0 <= i < |table| ==> e.frames[i] == table[i].(free := true)
    ensures e.pageFaults == e.memRefs == e.swapOuts == e.swapIns == e.timestamp == e.cursor == 0
    ensures (forall i :: 0 <= i < |table| ==> table[i].(free := true) == Unused) ==> e == Init(|table|)
  {
    Engine(seq(|table|, i requires 0 <= i < |table| => table[i].(free := true)), 0, 0, 0, 0, 0, 0)
  }

  /** What resolve_address needs of the globals to index the table. */
  ghost predicate Shaped(c: Config, e: Engine)
  {
    c.frameBits >= 0 && c.numFrames > 0 && |e.frames| == c.numFrames && e.cursor < |e.frames|
  }

  function PageOf(c: Config, logical: nat): nat
    requires c.frameBits >= 0
  {
    Decompose(logical, c.frameBits as nat).0
  }

  function OffsetOf(c: Config, logical: nat): nat
    requires c.frameBits >= 0
  {
    Decompose(logical, c.frameBits as nat).1
  }

  /** The hit path's update of the frame found. */
  function Touch(f: Frame, now: nat, write: bool): Frame
  {
    var touched := f.(refBit := true, lastAccess := now);
    if write then touched.(dirty := true) else touched
  }

  /** The free-frame path's update of the frame claimed. */
  function Install(f: Frame, page: nat, now: nat, write: bool): Frame
  {
    var claimed := f.(pageNum := page, free := false, lastAccess := now, refBit := true);
    if write then claimed.(dirty := true) else claimed
  }

  /**
   * The caller's bookkeeping after a policy picked victim `v`: a dirty victim
   * is swapped out and cleaned, then a write marks it dirty again.
   */
  function Evict(e: Engine, v: nat, write: bool, offset: nat, f: nat): Resolved
    requires v < |e.frames|
  {
    var cleaned :=
      if e.frames[v].dirty then e.(swapOuts := e.swapOuts + 1, frames := e.frames[v := e.frames[v].(dirty := false)])
      else e;
    var marked :=
      if write then cleaned.(frames := cleaned.frames[v := cleaned.frames[v].(dirty := true)])
      else cleaned;
    Resolved(marked, Some(Compose(v, offset, f)))
  }

  /** resolve_address(logical, memwrite). */
  function Resolve(c: Config, e: Engine, logical: nat, write: bool): (r: Resolved)
    requires Shaped(c, e)
    ensures Shaped(c, r.e)
    ensures r.e.memRefs == e.memRefs && r.e.timestamp == e.timestamp
  {
    var f := c.frameBits as nat;
    var page, offset := PageOf(c, logical), OffsetOf(c, logical);
    var n := |e.frames|;
    match Lookup(e.frames, page)
    case Some(i) =>
      Resolved(e.(frames := e.frames[i := Touch(e.frames[i], e.timestamp, write)]), Some(Compose(i, offset, f)))
    case None =>
      var faulted := e.(pageFaults := e.pageFaults + 1, swapIns := e.swapIns + 1);
      match FirstFree(e.frames)
      case Some(i) =>
        Resolved(faulted.(frames := e.frames[i := Install(e.frames[i], page, e.timestamp, write)]),
                 Some(Compose(i, offset, f)))
      case None =>
        Replace(c, faulted, page, offset, write)
  }

  /**
   * The branch of resolve_address for a fault with no free frame: the
   * configured scheme picks a victim and the caller does the bookkeeping;
   * without a usable scheme the result is -1.
   */
  function Replace(c: Config, e: Engine, page: nat, offset: nat, write: bool): (r: Resolved)
    requires Shaped(c, e)
    ensures Shaped(c, r.e)
    ensures r.e.memRefs == e.memRefs && r.e.timestamp == e.timestamp
  {
    var f, n := c.frameBits as nat, |e.frames|;
    match c.scheme
    case Fifo =>
      var v := e.cursor;
      Evict(e.(frames := e.frames[v := e.frames[v].(pageNum := page)], cursor := (v + 1) % n),
            v, write, offset, f)
    case Lru =>
      var v := LruVictim(e.frames);
      Evict(e.(frames := e.frames[v := e.frames[v].(pageNum := page, lastAccess := e.timestamp)]),
            v, write, offset, f)
    case SecondChance =>
      var v := SecondChanceVictim(e.frames, e.cursor);
      Evict(e.(frames := SecondChanceFrames(e.frames, e.cursor, page), cursor := (v + 1) % n),
            v, write, offset, f)
    case _ =>
      Resolved(e, None)
  }

  /** The three outcomes of resolve_address's two scans, one lemma each. */
  lemma ResolveFound(c: Config, e: Engine, logical: nat, write: bool, i: nat)
    requires Shaped(c, e) && Lookup(e.frames, PageOf(c, logical)) == Some(i)
    ensures Resolve(c, e, logical, write) ==
      Resolved(e.(frames := e.frames[i := Touch(e.frames[i], e.timestamp, write)]),
               Some(Compose(i, OffsetOf(c, logical), c.frameBits as nat)))
  {
  }

  lemma ResolveFreeFrame(c: Config, e: Engine, logical: nat, write: bool, i: nat)
    requires Shaped(c, e) && Lookup(e.frames, PageOf(c, logical)) == None && FirstFree(e.frames) == Some(i)
    ensures Resolve(c, e, logical, write) ==
      Resolved(e.(pageFaults := e.pageFaults + 1, swapIns := e.swapIns + 1,
                  frames := e.frames[i := Install(e.frames[i], PageOf(c, logical), e.timestamp, write)]),
               Some(Compose(i, OffsetOf(c, logical), c.frameBits as nat)))
  {
  }

  lemma ResolveNoFreeFrame(c: Config, e: Engine, logical: nat, write: bool)
    requires Shaped(c, e) && Lookup(e.frames, PageOf(c, logical)) == None && FirstFree(e.frames) == None
    ensures Resolve(c, e, logical, write) ==
      Replace(c, e.(pageFaults := e.pageFaults + 1, swapIns := e.swapIns + 1),
              PageOf(c, logical), OffsetOf(c, logical), write)
  {
  }

  /** The frame the configured scheme evicts from a full table (0 for the schemes that fail). */
  function Victim(c: Config, e: Engine): (v: nat)
    requires Shaped(c, e)
    ensures v < |e.frames|
  {
    match c.scheme
    case Fifo => e.cursor
    case Lru => LruVictim(e.frames)
    case SecondChance => SecondChanceVictim(e.frames, e.cursor)
    case _ => 0
  }

  /**
   * What holds of the state between any two translations: frames are filled in
   * index order and never freed, a free frame is untouched since setup, no page
   * is held twice, every fault is a swap-in, each swap-out belongs to a fault
   * that did not fill a free frame, the cursor stays at 0 until the table is
   * full, and under FIFO the cursor counts the evictions modulo the frame count,
   * so frames are evicted in the order they were first filled.
   */
  ghost predicate Inv(c: Config, e: Engine)
  {
    && Shaped(c, e)
    && TableInv(e.frames, e.timestamp)
    && e.swapIns == e.pageFaults
    && Filled(e.frames) + e.swapOuts <= e.pageFaults
    && (Filled(e.frames) < |e.frames| ==> e.pageFaults == Filled(e.frames) && e.cursor == 0)
    && (c.scheme == Fifo ==> e.cursor == (e.pageFaults - Filled(e.frames)) % |e.frames|)
    && (c.scheme == NoScheme || c.scheme == Lru || c.scheme == Optimal ==> e.cursor == 0)
  }

  lemma InitInv(c: Config)
    requires c.frameBits >= 0 && c.numFrames > 0
    ensures Inv(c, Init(c.numFrames as nat))
    ensures Filled(Init(c.numFrames as nat).frames) == 0
  {
    var s := Init(c.numFrames as nat).frames;
    assert s[0].free;
  }

  // ----- The paths of resolve_address -----

  /**
   * Hit: the frame holding the page gets its reference bit set, the current
   * time as last access and, on a write, the dirty bit; nothing else changes,
   * no counter and no other frame.
   */
  lemma ResolveHit(c: Config, e: Engine, logical: nat, write: bool, i: nat)
    requires Inv(c, e)
    requires i < |e.frames| && Holds(e.frames[i], PageOf(c, logical))
    ensures var r := Resolve(c, e, logical, write);
      && r.phys == Some(Compose(i, OffsetOf(c, logical), c.frameBits as nat))
      && r.e == e.(frames := r.e.frames)
      && r.e.frames[i] == e.frames[i].(refBit := true, lastAccess := e.timestamp, dirty := e.frames[i].dirty || write)
      && forall j :: 0 <= j < |e.frames| && j != i ==> r.e.frames[j] == e.frames[j]
  {
  }

  /**
   * Miss with a free frame: one more page fault and swap-in, and the lowest
   * free frame (index `Filled`) now holds the page, referenced, accessed now
   * and dirty exactly on a write; no other frame, the cursor and the swap-outs
   * are unchanged.
   */
  lemma ResolveFill(c: Config, e: Engine, logical: nat, write: bool)
    requires Inv(c, e)
    requires forall j :: 0 <= j < |e.frames| ==> !Holds(e.frames[j], PageOf(c, logical))
    requires Filled(e.frames) < |e.frames|
    ensures var r, i := Resolve(c, e, logical, write), Filled(e.frames);
      && r.phys == Some(Compose(i, OffsetOf(c, logical), c.frameBits as nat))
      && r.e == e.(frames := r.e.frames, pageFaults := e.pageFaults + 1, swapIns := e.swapIns + 1)
      && r.e.frames[i] == Frame(false, PageOf(c, logical), write, true, e.timestamp)
      && forall j :: 0 <= j < |e.frames| && j != i ==> r.e.frames[j] == e.frames[j]
  {
    FilledSplit(e.frames);
  }

  /**
   * Miss on a full table: one more page fault and swap-in; the scheme picks
   * the victim, a swap-out is counted exactly when the victim was dirty, and
   * the victim ends up holding the page, dirty exactly on a write. Under
   * REPLACE_NONE and REPLACE_OPTIMAL there is no victim and the result is -1.
   */
  lemma ResolveEvict(c: Config, e: Engine, logical: nat, write: bool)
    requires Inv(c, e)
    requires forall j :: 0 <= j < |e.frames| ==> !Holds(e.frames[j], PageOf(c, logical))
    requires Filled(e.frames) == |e.frames|
    ensures var r, v := Resolve(c, e, logical, write), Victim(c, e);
      && r.e.pageFaults == e.pageFaults + 1 && r.e.swapIns == e.swapIns + 1
      && (r.phys.None? <==> c.scheme == NoScheme || c.scheme == Optimal)
      && (r.phys.None? ==> r.e == e.(pageFaults := e.pageFaults + 1, swapIns := e.swapIns + 1))
      && (r.phys.Some? ==>
            && r.phys == Some(Compose(v, OffsetOf(c, logical), c.frameBits as nat))
            && r.e.swapOuts == e.swapOuts + (if e.frames[v].dirty then 1 else 0)
            && Holds(r.e.frames[v], PageOf(c, logical))
            && r.e.frames[v].dirty == write)
  {
    FilledSplit(e.frames);
    if c.scheme == SecondChance {
      SecondChanceEffect(e.frames, e.cursor, PageOf(c, logical));
    }
  }

  /**
   * FIFO: the victim is the frame at the cursor; only its page number (and
   * dirty bit) change, its reference bit and last access stay, and the cursor
   * moves one place round.
   */
  lemma ResolveFifo(c: Config, e: Engine, logical: nat, write: bool)
    requires Inv(c, e) && c.scheme == Fifo
    requires forall j :: 0 <= j < |e.frames| ==> !Holds(e.frames[j], PageOf(c, logical))
    requires Filled(e.frames) == |e.frames|
    ensures var r, v := Resolve(c, e, logical, write), e.cursor;
      && Victim(c, e) == v
      && r.e.frames[v] == e.frames[v].(pageNum := PageOf(c, logical), dirty := write)
      && (forall j :: 0 <= j < |e.frames| && j != v ==> r.e.frames[j] == e.frames[j])
      && r.e.cursor == (v + 1) % |e.frames|
  {
    FilledSplit(e.frames);
  }

  /**
   * LRU: the victim has the least last access of all frames, the lowest index
   * among equals; it receives the page and the current time, the cursor and
   * every other frame stay as they were.
   */
  lemma ResolveLru(c: Config, e: Engine, logical: nat, write: bool)
    requires Inv(c, e) && c.scheme == Lru
    requires forall j :: 0 <= j < |e.frames| ==> !Holds(e.frames[j], PageOf(c, logical))
    requires Filled(e.frames) == |e.frames|
    ensures var r, v := Resolve(c, e, logical, write), Victim(c, e);
      && (forall j :: 0 <= j < |e.frames| ==> e.frames[v].lastAccess <= e.frames[j].lastAccess)
      && (forall j :: 0 <= j < v ==> e.frames[j].lastAccess > e.frames[v].lastAccess)
      && r.e.frames[v] == e.frames[v].(pageNum := PageOf(c, logical), lastAccess := e.timestamp, dirty := write)
      && (forall j :: 0 <= j < |e.frames| && j != v ==> r.e.frames[j] == e.frames[j])
      && r.e.cursor == e.cursor
  {
    FilledSplit(e.frames);
  }

  /**
   * Second chance: from the cursor, frames with the reference bit set are
   * passed and cleared, the first with a clear bit is the victim (the cursor
   * frame itself after a full round), it receives the page with its bit set,
   * and the cursor ends one past the victim.
   */
  lemma ResolveSecondChance(c: Config, e: Engine, logical: nat, write: bool)
    requires Inv(c, e) && c.scheme == SecondChance
    requires forall j :: 0 <= j < |e.frames| ==> !Holds(e.frames[j], PageOf(c, logical))
    requires Filled(e.frames) == |e.frames|
    ensures var r, v, n := Resolve(c, e, logical, write), Victim(c, e), |e.frames|;
      && ((exists j :: 0 <= j < n && !e.frames[j].refBit) ==>
            !e.frames[v].refBit &&
            forall j :: 0 <= j < n && Behind(e.cursor, j, n) < Behind(e.cursor, v, n) ==> e.frames[j].refBit)
      && ((forall j :: 0 <= j < n ==> e.frames[j].refBit) ==> v == e.cursor)
      && r.e.frames[v] == e.frames[v].(pageNum := PageOf(c, logical), refBit := true, dirty := write)
      && (forall j :: 0 <= j < n && j != v ==>
            r.e.frames[j] == if Passed(e.frames, e.cursor, j) then e.frames[j].(refBit := false) else e.frames[j])
      && r.e.cursor == (v + 1) % n
  {
    FilledSplit(e.frames);
    SecondChanceChoice(e.frames, e.cursor);
    SecondChanceEffect(e.frames, e.cursor, PageOf(c, logical));
  }

  // ----- Properties of every translation -----

  /**
   * A successful translation decodes back to a frame that now holds the page,
   * with the logical address's offset, and is `frame * 2^f + offset`.
   */
  lemma ResolveAddress(c: Config, e: Engine, logical: nat, write: bool)
    requires Inv(c, e)
    ensures var r := Resolve(c, e, logical, write);
      r.phys.Some? ==>
        var d := Decompose(r.phys.value, c.frameBits as nat);
        && d.0 < |e.frames|
        && Holds(r.e.frames[d.0], PageOf(c, logical))
        && d.1 == OffsetOf(c, logical)
        && r.phys.value == d.0 * Pow2(c.frameBits as nat) + d.1
  {
    var page, offset, f := PageOf(c, logical), OffsetOf(c, logical), c.frameBits as nat;
    var r := Resolve(c, e, logical, write);
    if r.phys.Some? {
      match Lookup(e.frames, page)
      case Some(i) =>
        ComposeDecompose(i, offset, f);
      case None =>
        FilledSplit(e.frames);
        match FirstFree(e.frames)
        case Some(i) =>
          ComposeDecompose(i, offset, f);
        case None =>
          ResolveEvict(c, e, logical, write);
          ComposeDecompose(Victim(c, e), offset, f);
    }
  }

  /**
   * Translation fails (the source's -1) exactly when the page is not resident,
   * no frame is free and the scheme is REPLACE_NONE or REPLACE_OPTIMAL.
   */
  lemma ResolveFails(c: Config, e: Engine, logical: nat, write: bool)
    requires Inv(c, e)
    ensures Resolve(c, e, logical, write).phys.None? <==>
      && (forall j :: 0 <= j < |e.frames| ==> !Holds(e.frames[j], PageOf(c, logical)))
      && Filled(e.frames) == |e.frames|
      && (c.scheme == NoScheme || c.scheme == Optimal)
  {
    FilledSplit(e.frames);
    if (forall j :: 0 <= j < |e.frames| ==> !Holds(e.frames[j], PageOf(c, logical))) && Filled(e.frames) == |e.frames| {
      ResolveEvict(c, e, logical, write);
    }
  }

  /** A page fault is counted exactly when the page was not resident. */
  lemma ResolveCountsFaults(c: Config, e: Engine, logical: nat, write: bool)
    requires Inv(c, e)
    ensures var r := Resolve(c, e, logical, write);
      && r.e.pageFaults == e.pageFaults + (if Lookup(e.frames, PageOf(c, logical)).None? then 1 else 0)
      && r.e.swapIns == r.e.pageFaults
      && r.e.swapOuts <= e.swapOuts + (r.e.pageFaults - e.pageFaults)
  {
    FilledSplit(e.frames);
    if Lookup(e.frames, PageOf(c, logical)).None? && Filled(e.frames) == |e.frames| {
      ResolveEvict(c, e, logical, write);
    }
  }

  /**
   * The fill count: a hit leaves it, and a fault while a frame is still free
   * raises it by exactly one.
   */
  lemma ResolveFills(c: Config, e: Engine, logical: nat, write: bool)
    requires Inv(c, e)
    ensures var r := Resolve(c, e, logical, write);
      && (Lookup(e.frames, PageOf(c, logical)).Some? ==> Filled(r.e.frames) == Filled(e.frames))
      && (Lookup(e.frames, PageOf(c, logical)).None? && Filled(e.frames) < |e.frames| ==>
            Filled(r.e.frames) == Filled(e.frames) + 1)
  {
    FilledSplit(e.frames);
    match Lookup(e.frames, PageOf(c, logical))
    case Some(i) =>
      ResolveFound(c, e, logical, write, i);
      TouchTable(e.frames, i, e.timestamp, write);
    case None =>
      if Filled(e.frames) < |e.frames| {
        ResolveFreeFrame(c, e, logical, write, Filled(e.frames));
        InstallTable(e.frames, PageOf(c, logical), e.timestamp, write);
      }
  }

  /**
   * Only writes make frames dirty, and a swap-out cleans one: swap-outs plus
   * dirty frames grow by at most one per translation, and only for a write.
   */
  lemma ResolveDirty(c: Config, e: Engine, logical: nat, write: bool)
    requires Inv(c, e)
    ensures var r := Resolve(c, e, logical, write);
      r.e.swapOuts + DirtyCount(r.e.frames) <= e.swapOuts + DirtyCount(e.frames) + (if write then 1 else 0)
  {
    var s, page := e.frames, PageOf(c, logical);
    FilledSplit(s);
    match Lookup(s, page)
    case Some(i) =>
      ResolveFound(c, e, logical, write, i);
      DirtyCountUpdate(s, i, Touch(s[i], e.timestamp, write));
    case None =>
      if Filled(s) < |s| {
        var i := Filled(s);
        ResolveFreeFrame(c, e, logical, write, i);
        assert s[i] == Unused;
        DirtyCountUpdate(s, i, Install(s[i], page, e.timestamp, write));
      } else {
        EvictDirty(c, e, logical, write);
      }
  }

  lemma EvictDirty(c: Config, e: Engine, logical: nat, write: bool)
    requires Inv(c, e)
    requires forall j :: 0 <= j < |e.frames| ==> !Holds(e.frames[j], PageOf(c, logical))
    requires Filled(e.frames) == |e.frames|
    ensures var r := Resolve(c, e, logical, write);
      r.e.swapOuts + DirtyCount(r.e.frames) <= e.swapOuts + DirtyCount(e.frames) + (if write then 1 else 0)
  {
    var r, v := Resolve(c, e, logical, write), Victim(c, e);
    ResolveEvict(c, e, logical, write);
    if r.phys.Some? {
      EvictKeepsDirty(c, e, logical, write);
      DirtyChange(e.frames, r.e.frames, v, write);
    }
  }

  /** An eviction leaves the dirty bit of every frame but the victim alone. */
  lemma EvictKeepsDirty(c: Config, e: Engine, logical: nat, write: bool)
    requires Inv(c, e)
    requires forall j :: 0 <= j < |e.frames| ==> !Holds(e.frames[j], PageOf(c, logical))
    requires Filled(e.frames) == |e.frames|
    ensures var r, v := Resolve(c, e, logical, write), Victim(c, e);
      r.phys.Some? ==>
        && |r.e.frames| == |e.frames|
        && forall j :: 0 <= j < |e.frames| && j != v ==> r.e.frames[j].dirty == e.frames[j].dirty
  {
    if c.scheme == Fifo {
      ResolveFifo(c, e, logical, write);
    } else if c.scheme == Lru {
      ResolveLru(c, e, logical, write);
    } else if c.scheme == SecondChance {
      ResolveSecondChance(c, e, logical, write);
    }
  }

  /** A table that differs in dirty bits only at `v`, where it now reads `write`. */
  lemma DirtyChange(s: seq<Frame>, t: seq<Frame>, v: nat, write: bool)
    requires |t| == |s| && v < |s| && t[v].dirty == write
    requires forall j :: 0 <= j < |s| && j != v ==> t[j].dirty == s[j].dirty
    ensures DirtyCount(t) + (if s[v].dirty then 1 else 0) == DirtyCount(s) + (if write then 1 else 0)
  {
    DirtyCountSame(s[v := t[v]], t);
    DirtyCountUpdate(s, v, t[v]);
  }

  lemma ModNext(a: nat, n: nat)
    requires n > 0
    ensures (a + 1) % n == (a % n + 1) % n
  {
    var q, r := a / n, a % n;
    if r + 1 < n {
      DivModUnique(a + 1, n, q, r + 1);
      DivModUnique(r + 1, n, 0, r + 1);
    } else {
      assert a + 1 == (q + 1) * n;
      DivModUnique(a + 1, n, q + 1, 0);
      DivModUnique(r + 1, n, 1, 0);
    }
  }

  /** Every translation keeps the invariant. */
  lemma ResolveInv(c: Config, e: Engine, logical: nat, write: bool)
    requires Inv(c, e)
    ensures Inv(c, Resolve(c, e, logical, write).e)
  {
    FilledSplit(e.frames);
    match Lookup(e.frames, PageOf(c, logical))
    case Some(i) =>
      HitInv(c, e, logical, write, i);
    case None =>
      if Filled(e.frames) < |e.frames| {
        FillInv(c, e, logical, write);
      } else {
        EvictInv(c, e, logical, write);
      }
  }

  lemma HitInv(c: Config, e: Engine, logical: nat, write: bool, i: nat)
    requires Inv(c, e)
    requires Lookup(e.frames, PageOf(c, logical)) == Some(i)
    ensures Inv(c, Resolve(c, e, logical, write).e)
  {
    ResolveFound(c, e, logical, write, i);
    TouchTable(e.frames, i, e.timestamp, write);
  }

  /** The hit path's update keeps the table invariant and which frames are filled. */
  lemma TouchTable(s: seq<Frame>, i: nat, now: nat, write: bool)
    requires TableInv(s, now) && i < |s| && !s[i].free
    ensures var t := s[i := Touch(s[i], now, write)];
      TableInv(t, now) && Filled(t) == Filled(s)
  {
    var t := s[i := Touch(s[i], now, write)];
    assert forall j :: 0 <= j < |t| ==> t[j].free == s[j].free && t[j].pageNum == s[j].pageNum;
    SameOccupancy(s, t);
  }

  lemma FillInv(c: Config, e: Engine, logical: nat, write: bool)
    requires Inv(c, e)
    requires forall j :: 0 <= j < |e.frames| ==> !Holds(e.frames[j], PageOf(c, logical))
    requires Filled(e.frames) < |e.frames|
    ensures Inv(c, Resolve(c, e, logical, write).e)
  {
    ResolveFreeFrame(c, e, logical, write, Filled(e.frames));
    InstallTable(e.frames, PageOf(c, logical), e.timestamp, write);
  }

  /** Claiming the first free frame for a page not yet resident keeps the table invariant and fills one more frame. */
  lemma InstallTable(s: seq<Frame>, page: nat, now: nat, write: bool)
    requires TableInv(s, now) && Filled(s) < |s|
    requires forall j :: 0 <= j < |s| ==> !Holds(s[j], page)
    ensures var i := Filled(s); var t := s[i := Install(s[i], page, now, write)];
      TableInv(t, now) && Filled(t) == i + 1
  {
    FilledSplit(s);
    var i := Filled(s);
    var t := s[i := Install(s[i], page, now, write)];
    assert forall j :: 0 <= j < |t| ==> (t[j].free <==> j > i);
    if i + 1 < |t| {
      assert t[i + 1].free;
      assert FirstFree(t) == Some(i + 1);
    } else {
      assert FirstFree(t) == None;
    }
  }

  lemma EvictInv(c: Config, e: Engine, logical: nat, write: bool)
    requires Inv(c, e)
    requires forall j :: 0 <= j < |e.frames| ==> !Holds(e.frames[j], PageOf(c, logical))
    requires Filled(e.frames) == |e.frames|
    ensures Inv(c, Resolve(c, e, logical, write).e)
  {
    FilledSplit(e.frames);
    ResolveEvict(c, e, logical, write);
    match c.scheme
    case Fifo => FifoInv(c, e, logical, write);
    case Lru => LruInv(c, e, logical, write);
    case SecondChance => SecondChanceInv(c, e, logical, write);
    case _ =>
  }

  lemma FifoInv(c: Config, e: Engine, logical: nat, write: bool)
    requires Inv(c, e) && c.scheme == Fifo
    requires forall j :: 0 <= j < |e.frames| ==> !Holds(e.frames[j], PageOf(c, logical))
    requires Filled(e.frames) == |e.frames|
    ensures Inv(c, Resolve(c, e, logical, write).e)
  {
    var r, n := Resolve(c, e, logical, write), |e.frames|;
    FilledSplit(e.frames);
    ResolveEvict(c, e, logical, write);
    ResolveFifo(c, e, logical, write);
    ModNext(e.pageFaults - n, n);
    FullTable(e.frames, r.e.frames, e.cursor, PageOf(c, logical), e.timestamp);
  }

  lemma LruInv(c: Config, e: Engine, logical: nat, write: bool)
    requires Inv(c, e) && c.scheme == Lru
    requires forall j :: 0 <= j < |e.frames| ==> !Holds(e.frames[j], PageOf(c, logical))
    requires Filled(e.frames) == |e.frames|
    ensures Inv(c, Resolve(c, e, logical, write).e)
  {
    var r := Resolve(c, e, logical, write);
    FilledSplit(e.frames);
    ResolveEvict(c, e, logical, write);
    ResolveLru(c, e, logical, write);
    FullTable(e.frames, r.e.frames, Victim(c, e), PageOf(c, logical), e.timestamp);
  }

  lemma SecondChanceInv(c: Config, e: Engine, logical: nat, write: bool)
    requires Inv(c, e) && c.scheme == SecondChance
    requires forall j :: 0 <= j < |e.frames| ==> !Holds(e.frames[j], PageOf(c, logical))
    requires Filled(e.frames) == |e.frames|
    ensures Inv(c, Resolve(c, e, logical, write).e)
  {
    var r := Resolve(c, e, logical, write);
    FilledSplit(e.frames);
    ResolveEvict(c, e, logical, write);
    ResolveSecondChance(c, e, logical, write);
    FullTable(e.frames, r.e.frames, Victim(c, e), PageOf(c, logical), e.timestamp);
  }

  /**
   * Replacing the page of one frame of a full table by a non-resident page,
   * stamping no access after `now`, keeps the table invariant and the table full.
   */
  lemma FullTable(s: seq<Frame>, t: seq<Frame>, v: nat, page: nat, now: nat)
    requires |t| == |s| && v < |s|
    requires TableInv(s, now) && Filled(s) == |s|
    requires forall j :: 0 <= j < |s| ==> !Holds(s[j], page)
    requires Holds(t[v], page) && t[v].lastAccess <= now
    requires forall j :: 0 <= j < |s| && j != v ==> t[j].pageNum == s[j].pageNum && t[j].free == s[j].free && t[j].lastAccess == s[j].lastAccess
    ensures TableInv(t, now) && Filled(t) == |t|
  {
    FilledSplit(s);
    assert forall j :: 0 <= j < |t| ==> !t[j].free;
    assert FirstFree(t) == None;
  }
}
