// The inverted page table: one record per physical frame, and the two linear
// scans resolve_address makes over it.

module PageTable {

  datatype Option<T> = None | Some(value: T)

  /**
   * One `struct page_table_entry`. `free` marks an unoccupied frame;
   * `refBit` is used by second chance and `lastAccess` by LRU.
   */
  datatype Frame = Frame(free: bool, pageNum: nat, dirty: bool, refBit: bool, lastAccess: nat)

  /**
   * A frame as setup leaves it. The source sets only `free`; the other fields
   * keep whatever the allocator returned, which this model takes to be zero.
   */
  const Unused: Frame := Frame(true, 0, false, false, 0)

  /** The frame is occupied by `page`. */
  predicate Holds(f: Frame, page: nat)
  {
    !f.free && f.pageNum == page
  }

  /** The lookup of the inverted page table: the lowest-index occupied frame holding `page`. */
  function Lookup(s: seq<Frame>, page: nat): (r: Option<nat>)
    ensures r.Some? ==> r.value < |s| && Holds(s[r.value], page)
    ensures r.Some? ==> forall j :: 0 <= j < r.value ==> !Holds(s[j], page)
    ensures r.None? <==> forall j :: 0 <= j < |s| ==> !Holds(s[j], page)
    decreases |s|
  {
    if |s| == 0 then None
    else match Lookup(s[..|s| - 1], page)
      case Some(i) => Some(i)
      case None => if Holds(s[|s| - 1], page) then Some(|s| - 1) else None
  }

  /** The search for a free frame: the lowest-index frame marked free. */
  function FirstFree(s: seq<Frame>): (r: Option<nat>)
    ensures r.Some? ==> r.value < |s| && s[r.value].free
    ensures r.Some? ==> forall j :: 0 <= j < r.value ==> !s[j].free
    ensures r.None? <==> forall j :: 0 <= j < |s| ==> !s[j].free
    decreases |s|
  {
    if |s| == 0 then None
    else match FirstFree(s[..|s| - 1])
      case Some(i) => Some(i)
      case None => if s[|s| - 1].free then Some(|s| - 1) else None
  }

  /** How many frames have been filled, when occupied frames form a prefix. */
  function Filled(s: seq<Frame>): nat
  {
    match FirstFree(s)
    case Some(i) => i
    case None => |s|
  }

  /** Frames are filled in index order: a free frame is followed only by free frames. */
  ghost predicate FilledInOrder(s: seq<Frame>)
  {
    forall i, j :: 0 <= i < j < |s| && s[i].free ==> s[j].free
  }

  /** No page is held by two occupied frames. */
  ghost predicate UniquePages(s: seq<Frame>)
  {
    forall i, j :: 0 <= i < j < |s| && !s[i].free && !s[j].free ==> s[i].pageNum != s[j].pageNum
  }

  /** With frames filled in order, exactly the first `Filled(s)` frames are occupied. */
  lemma FilledSplit(s: seq<Frame>)
    requires FilledInOrder(s)
    ensures Filled(s) <= |s|
    ensures forall i :: 0 <= i < |s| ==> (s[i].free <==> i >= Filled(s))
  {
    match FirstFree(s)
    case None =>
    case Some(k) =>
      forall i | 0 <= i < |s| && i >= k ensures s[i].free {
        if i > k {
          assert s[k].free;
        }
      }
  }

  /** Two tables with the same frames occupied have the same first free frame and fill order. */
  lemma SameOccupancy(s: seq<Frame>, t: seq<Frame>)
    requires |t| == |s|
    requires forall j :: 0 <= j < |s| ==> t[j].free == s[j].free
    ensures FirstFree(t) == FirstFree(s)
    ensures FilledInOrder(s) ==> FilledInOrder(t)
  {
    match FirstFree(s)
    case None =>
    case Some(i) =>
      assert t[i].free;
  }

  /**
   * The table part of the simulator's invariant at clock `now`: filled in
   * order, no page held twice, free frames untouched since setup, and no
   * access stamped in the future.
   */
  ghost predicate TableInv(s: seq<Frame>, now: nat)
  {
    && FilledInOrder(s)
    && UniquePages(s)
    && (forall i :: 0 <= i < |s| && s[i].free ==> s[i] == Unused)
    && (forall i :: 0 <= i < |s| ==> s[i].lastAccess <= now)
  }

  /** The number of dirty frames. */
  function DirtyCount(s: seq<Frame>): nat
    decreases |s|
  {
    if |s| == 0 then 0 else DirtyCount(s[..|s| - 1]) + (if s[|s| - 1].dirty then 1 else 0)
  }

  /** Tables with the same dirty bits have the same number of dirty frames. */
  lemma {:induction false} DirtyCountSame(s: seq<Frame>, t: seq<Frame>)
    requires |t| == |s|
    requires forall j :: 0 <= j < |s| ==> t[j].dirty == s[j].dirty
    ensures DirtyCount(t) == DirtyCount(s)
    decreases |s|
  {
    if |s| > 0 {
      DirtyCountSame(s[..|s| - 1], t[..|t| - 1]);
    }
  }

  /** Overwriting one frame changes the count by the change in that frame's dirty bit. */
  lemma {:induction false} DirtyCountUpdate(s: seq<Frame>, i: nat, f: Frame)
    requires i < |s|
    ensures DirtyCount(s[i := f]) + (if s[i].dirty then 1 else 0) == DirtyCount(s) + (if f.dirty then 1 else 0)
    decreases |s|
  {
    var t := s[i := f];
    if i < |s| - 1 {
      assert t[..|t| - 1] == s[..|s| - 1][i := f];
      DirtyCountUpdate(s[..|s| - 1], i, f);
    } else {
      assert t[..|t| - 1] == s[..|s| - 1];
    }
  }

  /** A table with no dirty frame counts none. */
  lemma {:induction false} DirtyCountClean(s: seq<Frame>)
    requires forall j :: 0 <= j < |s| ==> !s[j].dirty
    ensures DirtyCount(s) == 0
    decreases |s|
  {
    if |s| > 0 {
      DirtyCountClean(s[..|s| - 1]);
    }
  }
}
