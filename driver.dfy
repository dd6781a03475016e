// The per-line loop of main over an already-parsed trace, the configuration
// check in front of it, and what the final counters satisfy.

module Driver {
  import opened PageTable
  import opened Translator

  /**
   * One line of the trace: a reference `R: <addr>` / `W: <addr>` (a line
   * containing ':'), or any other line, which only advances the clock.
   */
  datatype Line = Reference(addr: nat, isWrite: bool) | Other

  /** The two ways the program stops early: the usage error, or an address that cannot be resolved. */
  datatype Failure = Usage | Unresolved(addr: nat, lineNum: nat)

  /** The four counters output_report prints. */
  datatype Report = Report(memRefs: nat, pageFaults: nat, swapIns: nat, swapOuts: nat)

  datatype Outcome<T> = Ok(value: T) | Err(failure: Failure)

  /** The number of reference lines in a trace. */
  function References(lines: seq<Line>): nat
  {
    if lines == [] then 0 else (if lines[0].Reference? then 1 else 0) + References(lines[1..])
  }

  /** The number of write references in a trace. */
  function Writes(lines: seq<Line>): nat
  {
    if lines == [] then 0 else (if lines[0].Reference? && lines[0].isWrite then 1 else 0) + Writes(lines[1..])
  }

  /**
   * One turn of main's loop for line number `lineNum` (counting every line
   * from 1): a reference is resolved and counted; every line read advances
   * the clock.
   */
  function Step(c: Config, e: Engine, line: Line, lineNum: nat): (r: Outcome<Engine>)
    requires Shaped(c, e)
    ensures r.Ok? ==> Shaped(c, r.value)
  {
    match line
    case Other => Ok(e.(timestamp := e.timestamp + 1))
    case Reference(addr, isWrite) =>
      var res := Resolve(c, e, addr, isWrite);
      if res.phys.None? then Err(Unresolved(addr, lineNum))
      else Ok(res.e.(memRefs := res.e.memRefs + 1, timestamp := res.e.timestamp + 1))
  }

  /** main's loop over the lines after the first `lineNum`. */
  function RunFrom(c: Config, e: Engine, lines: seq<Line>, lineNum: nat): (r: Outcome<Engine>)
    requires Shaped(c, e)
    decreases |lines|
  {
    if lines == [] then Ok(e)
    else match Step(c, e, lines[0], lineNum + 1)
      case Err(f) => Err(f)
      case Ok(next) => RunFrom(c, next, lines[1..], lineNum + 1)
  }

  /** The whole program on a configuration and a trace: check, setup, loop, report. */
  function Simulate(c: Config, lines: seq<Line>): Outcome<Report>
  {
    if !Runnable(c) then Err(Usage)
    else match RunFrom(c, Init(c.numFrames as nat), lines, 0)
      case Err(f) => Err(f)
      case Ok(e) => Ok(Report(e.memRefs, e.pageFaults, e.swapIns, e.swapOuts))
  }

  /**
   * What holds after every completed line besides the invariant: no more
   * faults than references, and under the schemes that cannot evict no fault
   * beyond the fills.
   */
  ghost predicate Settled(c: Config, e: Engine)
  {
    && Inv(c, e)
    && e.pageFaults <= e.memRefs
    && (c.scheme == NoScheme || c.scheme == Optimal ==> e.pageFaults == Filled(e.frames))
  }

  /**
   * A line either fails on a reference the scheme cannot place, or keeps the
   * settled state, counts one reference exactly for a reference line, and
   * advances the clock by one for every line.
   */
  lemma StepSettled(c: Config, e: Engine, line: Line, lineNum: nat)
    requires Settled(c, e)
    ensures var r := Step(c, e, line, lineNum);
      && (r.Ok? ==>
            && Settled(c, r.value)
            && r.value.memRefs == e.memRefs + (if line.Reference? then 1 else 0)
            && r.value.timestamp == e.timestamp + 1)
      && (r.Err? ==>
            && line.Reference?
            && r.failure == Unresolved(line.addr, lineNum)
            && (c.scheme == NoScheme || c.scheme == Optimal))
  {
    match line
    case Other =>
      ClockSettled(c, e);
    case Reference(addr, isWrite) =>
      StepReference(c, e, addr, isWrite, lineNum);
      ResolveSettled(c, e, addr, isWrite);
  }

  lemma StepReference(c: Config, e: Engine, addr: nat, isWrite: bool, lineNum: nat)
    requires Shaped(c, e)
    ensures var res := Resolve(c, e, addr, isWrite);
      Step(c, e, Reference(addr, isWrite), lineNum) ==
        if res.phys.None? then Err(Unresolved(addr, lineNum))
        else Ok(res.e.(memRefs := res.e.memRefs + 1, timestamp := res.e.timestamp + 1))
  {
  }

  /** A translation followed by counting the reference and a clock tick keeps the state settled. */
  lemma ResolveSettled(c: Config, e: Engine, logical: nat, write: bool)
    requires Settled(c, e)
    ensures var r := Resolve(c, e, logical, write);
      && (r.phys.Some? ==> Settled(c, r.e.(memRefs := r.e.memRefs + 1, timestamp := r.e.timestamp + 1)))
      && (r.phys.None? ==> c.scheme == NoScheme || c.scheme == Optimal)
  {
    var r := Resolve(c, e, logical, write);
    ResolveInv(c, e, logical, write);
    ResolveCountsFaults(c, e, logical, write);
    ResolveFails(c, e, logical, write);
    ResolveFills(c, e, logical, write);
    FilledSplit(e.frames);
    ClockSettled(c, r.e);
  }

  /** A clock tick keeps the invariant. */
  lemma ClockSettled(c: Config, e: Engine)
    requires Inv(c, e)
    ensures Inv(c, e.(timestamp := e.timestamp + 1))
  {
  }

  /** A completed first line hands its state to the rest of the trace. */
  lemma RunFromCons(c: Config, e: Engine, line: Line, rest: seq<Line>, lineNum: nat, next: Engine)
    requires Shaped(c, e) && Step(c, e, line, lineNum + 1) == Ok(next)
    ensures RunFrom(c, e, [line] + rest, lineNum) == RunFrom(c, next, rest, lineNum + 1)
  {
    assert ([line] + rest)[1..] == rest;
  }

  /**
   * Running a trace: if it completes, the state is settled, exactly the
   * reference lines were counted and the clock advanced once per line; if it
   * fails, the failure names a reference line of the trace and its address,
   * under a scheme that has no replacement.
   */
  lemma {:induction false} RunFromSettled(c: Config, e: Engine, lines: seq<Line>, lineNum: nat)
    requires Settled(c, e)
    ensures var r := RunFrom(c, e, lines, lineNum);
      && (r.Ok? ==>
            && Settled(c, r.value)
            && r.value.memRefs == e.memRefs + References(lines)
            && r.value.timestamp == e.timestamp + |lines|)
      && (r.Err? ==>
            && r.failure.Unresolved?
            && lineNum < r.failure.lineNum <= lineNum + |lines|
            && lines[r.failure.lineNum - lineNum - 1].Reference?
            && lines[r.failure.lineNum - lineNum - 1].addr == r.failure.addr
            && (c.scheme == NoScheme || c.scheme == Optimal))
    decreases |lines|
  {
    if lines != [] {
      StepSettled(c, e, lines[0], lineNum + 1);
      match Step(c, e, lines[0], lineNum + 1)
      case Err(f) =>
      case Ok(next) =>
        RunFromSettled(c, next, lines[1..], lineNum + 1);
        var r := RunFrom(c, next, lines[1..], lineNum + 1);
        if r.Err? {
          assert lines[1..][r.failure.lineNum - (lineNum + 1) - 1] == lines[r.failure.lineNum - lineNum - 1];
        }
    }
  }

  /**
   * The final counters: one reference per reference line, no more page faults
   * than references, one swap-in per fault, no more swap-outs than faults.
   */
  lemma SimulateCounters(c: Config, lines: seq<Line>)
    requires Simulate(c, lines).Ok?
    ensures var rep := Simulate(c, lines).value;
      && rep.memRefs == References(lines)
      && rep.pageFaults <= rep.memRefs
      && rep.swapIns == rep.pageFaults
      && rep.swapOuts <= rep.pageFaults
  {
    InitInv(c);
    RunFromSettled(c, Init(c.numFrames as nat), lines, 0);
  }

  /** The usage error arises exactly for a configuration the check rejects. */
  lemma SimulateUsage(c: Config, lines: seq<Line>)
    ensures Simulate(c, lines) == Err(Usage) <==> !Runnable(c)
  {
    if Runnable(c) {
      InitInv(c);
      RunFromSettled(c, Init(c.numFrames as nat), lines, 0);
    }
  }

  /**
   * An unresolved address arises only under REPLACE_OPTIMAL, at a reference
   * line of the trace, and carries that line's number and address.
   */
  lemma SimulateUnresolved(c: Config, lines: seq<Line>)
    requires Simulate(c, lines).Err? && Simulate(c, lines).failure.Unresolved?
    ensures var f := Simulate(c, lines).failure;
      && c.scheme == Optimal
      && 1 <= f.lineNum <= |lines|
      && lines[f.lineNum - 1].Reference?
      && lines[f.lineNum - 1].addr == f.addr
  {
    InitInv(c);
    RunFromSettled(c, Init(c.numFrames as nat), lines, 0);
  }

  /** A completed run under REPLACE_OPTIMAL never needed an eviction. */
  lemma OptimalNeverEvicts(c: Config, lines: seq<Line>)
    requires c.scheme == Optimal && Simulate(c, lines).Ok?
    ensures Simulate(c, lines).value.pageFaults <= c.numFrames
    ensures Simulate(c, lines).value.swapOuts == 0
  {
    InitInv(c);
    RunFromSettled(c, Init(c.numFrames as nat), lines, 0);
    var e := RunFrom(c, Init(c.numFrames as nat), lines, 0).value;
    FilledSplit(e.frames);
  }

  /** A line adds at most one to swap-outs plus dirty frames, and only a write line does. */
  lemma StepDirty(c: Config, e: Engine, line: Line, lineNum: nat)
    requires Settled(c, e)
    ensures var r := Step(c, e, line, lineNum);
      r.Ok? ==> r.value.swapOuts + DirtyCount(r.value.frames) <=
                e.swapOuts + DirtyCount(e.frames) + (if line.Reference? && line.isWrite then 1 else 0)
  {
    match line
    case Other =>
    case Reference(addr, isWrite) =>
      StepReference(c, e, addr, isWrite, lineNum);
      ResolveDirty(c, e, addr, isWrite);
  }

  lemma {:induction false} RunFromDirty(c: Config, e: Engine, lines: seq<Line>, lineNum: nat)
    requires Settled(c, e)
    ensures var r := RunFrom(c, e, lines, lineNum);
      r.Ok? ==> r.value.swapOuts + DirtyCount(r.value.frames) <= e.swapOuts + DirtyCount(e.frames) + Writes(lines)
    decreases |lines|
  {
    if lines != [] {
      StepSettled(c, e, lines[0], lineNum + 1);
      StepDirty(c, e, lines[0], lineNum + 1);
      match Step(c, e, lines[0], lineNum + 1)
      case Err(f) =>
      case Ok(next) =>
        RunFromDirty(c, next, lines[1..], lineNum + 1);
    }
  }

  /**
   * A page is swapped out only because it was written: a completed run
   * reports no more swap-outs than the trace has write references.
   */
  lemma SimulateSwapOuts(c: Config, lines: seq<Line>)
    requires Simulate(c, lines).Ok?
    ensures Simulate(c, lines).value.swapOuts <= Writes(lines)
  {
    var e := Init(c.numFrames as nat);
    InitInv(c);
    DirtyCountClean(e.frames);
    RunFromDirty(c, e, lines, 0);
  }
}
