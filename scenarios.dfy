// Concrete traces worked through the model. With one offset bit, addresses
// 0, 2 and 4 are pages 0, 1 and 2 at offset 0, and frames 0 and 1 start at
// physical addresses 0 and 2.

module Scenarios {
  import opened Bits
  import opened PageTable
  import opened Translator
  import opened Driver

  const A := Reference(0, false)
  const B := Reference(2, false)
  const C := Reference(4, false)

  lemma Addresses(c: Config)
    requires c.frameBits == 1
    ensures PageOf(c, 0) == 0 && PageOf(c, 2) == 1 && PageOf(c, 4) == 2
    ensures OffsetOf(c, 0) == 0 && OffsetOf(c, 2) == 0 && OffsetOf(c, 4) == 0
    ensures Compose(0, 0, 1) == 0 && Compose(1, 0, 1) == 2
  {
    assert ShiftRight(2, 1) == 1 && ShiftRight(4, 1) == 2;
    assert And(2, 1) == 0 && And(4, 1) == 0;
  }

  // ----- FIFO on two frames: A, B, C, A -----

  const FifoCfg := Config(1, 2, Fifo)
  const Fifo1 := Engine([Frame(false, 0, false, true, 0), Unused], 1, 1, 0, 1, 1, 0)
  const Fifo2 := Engine([Frame(false, 0, false, true, 0), Frame(false, 1, false, true, 1)], 2, 2, 0, 2, 2, 0)
  const Fifo3 := Engine([Frame(false, 2, false, true, 0), Frame(false, 1, false, true, 1)], 3, 3, 0, 3, 3, 1)
  const Fifo4 := Engine([Frame(false, 2, false, true, 0), Frame(false, 0, false, true, 1)], 4, 4, 0, 4, 4, 0)

  /** A fills frame 0. */
  lemma FifoStep1()
    ensures Step(FifoCfg, Init(2), A, 1) == Ok(Fifo1)
  {
    var c, e := FifoCfg, Init(2);
    Addresses(c);
    assert e.frames == [Unused, Unused];
    assert Lookup(e.frames, 0) == None && FirstFree(e.frames) == Some(0);
    ResolveFreeFrame(c, e, 0, false, 0);
    StepReference(c, e, 0, false, 1);
    assert e.frames[0 := Install(Unused, 0, 0, false)] == Fifo1.frames;
  }

  /** B fills frame 1. */
  lemma FifoStep2()
    ensures Step(FifoCfg, Fifo1, B, 2) == Ok(Fifo2)
  {
    var c, e := FifoCfg, Fifo1;
    Addresses(c);
    assert Lookup(e.frames, 1) == None && FirstFree(e.frames) == Some(1);
    ResolveFreeFrame(c, e, 2, false, 1);
    StepReference(c, e, 2, false, 2);
    assert e.frames[1 := Install(Unused, 1, 1, false)] == Fifo2.frames;
  }

  /** C finds the table full and takes frame 0, the first filled; the cursor moves to 1. */
  lemma FifoStep3()
    ensures Step(FifoCfg, Fifo2, C, 3) == Ok(Fifo3)
  {
    var c, e := FifoCfg, Fifo2;
    Addresses(c);
    assert Lookup(e.frames, 2) == None && FirstFree(e.frames) == None;
    ResolveNoFreeFrame(c, e, 4, false);
    StepReference(c, e, 4, false, 3);
    assert e.frames[0 := e.frames[0].(pageNum := 2)] == Fifo3.frames;
  }

  /** A was evicted, so it faults again and takes frame 1; the cursor wraps to 0. */
  lemma FifoStep4()
    ensures Step(FifoCfg, Fifo3, A, 4) == Ok(Fifo4)
  {
    var c, e := FifoCfg, Fifo3;
    Addresses(c);
    assert Lookup(e.frames, 0) == None && FirstFree(e.frames) == None;
    ResolveNoFreeFrame(c, e, 0, false);
    StepReference(c, e, 0, false, 4);
    assert e.frames[1 := e.frames[1].(pageNum := 0)] == Fifo4.frames;
  }

  /** All four references fault: four page faults and swap-ins, no swap-out without a write. */
  lemma FifoFourFaults()
    ensures Simulate(FifoCfg, [A, B, C, A]) == Ok(Report(4, 4, 4, 0))
  {
    FifoStep1();
    FifoStep2();
    FifoStep3();
    FifoStep4();
    RunFromCons(FifoCfg, Fifo3, A, [], 3, Fifo4);
    RunFromCons(FifoCfg, Fifo2, C, [A], 2, Fifo3);
    RunFromCons(FifoCfg, Fifo1, B, [C, A], 1, Fifo2);
    RunFromCons(FifoCfg, Init(2), A, [B, C, A], 0, Fifo1);
    assert [A] + [] == [A];
  }

  // ----- A read-only trace over a table setup left dirty -----

  const OneFrame := Config(1, 1, Fifo)
  /** A frame as the allocator might return it: not cleared, dirty bit set. */
  const Stale := Frame(false, 0, true, false, 0)
  const Stale1 := Engine([Frame(false, 0, true, true, 0)], 1, 1, 0, 1, 1, 0)
  const Stale2 := Engine([Frame(false, 1, false, true, 0)], 2, 2, 1, 2, 2, 0)

  /** A fills the only frame, which keeps the stale dirty bit because a read does not touch it. */
  lemma StaleStep1()
    ensures Step(OneFrame, SetupAsWritten([Stale]), A, 1) == Ok(Stale1)
  {
    var c, e := OneFrame, SetupAsWritten([Stale]);
    Addresses(c);
    assert e.frames == [Stale.(free := true)];
    assert Lookup(e.frames, 0) == None && FirstFree(e.frames) == Some(0);
    ResolveFreeFrame(c, e, 0, false, 0);
    StepReference(c, e, 0, false, 1);
    assert e.frames[0 := Install(e.frames[0], 0, 0, false)] == Stale1.frames;
  }

  /** B evicts A from the dirty frame and counts a swap-out. */
  lemma StaleStep2()
    ensures Step(OneFrame, Stale1, B, 2) == Ok(Stale2)
  {
    var c, e := OneFrame, Stale1;
    Addresses(c);
    assert Lookup(e.frames, 1) == None && FirstFree(e.frames) == None;
    ResolveNoFreeFrame(c, e, 2, false);
    StepReference(c, e, 2, false, 2);
    assert e.frames[0 := e.frames[0].(pageNum := 1)][0 := Frame(false, 1, false, true, 0)] == Stale2.frames;
  }

  /**
   * With setup as written and a stale dirty bit, two reads report a swap-out
   * although the trace writes nothing; `SimulateSwapOuts` rules this out for
   * a cleared table.
   */
  lemma StaleSwapOut()
    ensures Writes([A, B]) == 0
    ensures RunFrom(OneFrame, SetupAsWritten([Stale]), [A, B], 0) == Ok(Stale2)
    ensures Stale2.swapOuts == 1
  {
    StaleStep1();
    StaleStep2();
    RunFromCons(OneFrame, Stale1, B, [], 1, Stale2);
    RunFromCons(OneFrame, SetupAsWritten([Stale]), A, [B], 0, Stale1);
    assert [B] + [] == [B];
    assert [A] + [B] == [A, B];
    assert [A, B][1..] == [B] && [B][1..] == [];
    assert !A.isWrite && !B.isWrite;
    assert Writes([B]) == 0;
  }
}
