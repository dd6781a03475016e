// The simulator as the source runs it: the page table is an array updated in
// place, the counters, the clock and the victim cursor are fields, and every
// routine is a method proved to compute what the Translator and Driver
// functions describe.

module Virtmem {
  import opened Bits
  import opened PageTable
  import opened Policies
  import opened Translator
  import opened Driver

  class Simulator {
    const cfg: Config
    /** page_table, size_of_memory entries. */
    const frames: array<Frame>
    var pageFaults: nat
    var memRefs: nat
    var swapOuts: nat
    var swapIns: nat
    var timestamp: nat
    /** victim_frame, the cursor of FIFO and second chance. */
    var victimFrame: nat

    ghost function State(): Engine
      reads this, frames
    {
      Engine(frames[..], pageFaults, memRefs, swapOuts, swapIns, timestamp, victimFrame)
    }

    /** The simulator invariant: `Driver.Settled` of the current state. */
    ghost predicate Valid()
      reads this, frames
    {
      Settled(cfg, State())
    }

    /** setup: allocate the table and mark every frame free. */
    constructor (c: Config)
      requires Runnable(c)
      ensures cfg == c && fresh(frames)
      ensures State() == Init(c.numFrames as nat)
      ensures Valid()
    {
      var n := c.numFrames as nat;
      var table := new Frame[n](_ => Frame(false, 0, false, false, 0));
      for i := 0 to n
        invariant forall j :: 0 <= j < i ==> table[j] == Unused
        invariant forall j :: i <= j < n ==> table[j] == Frame(false, 0, false, false, 0)
      {
        table[i] := table[i].(free := true);
      }
      cfg, frames := c, table;
      pageFaults, memRefs, swapOuts, swapIns, timestamp, victimFrame := 0, 0, 0, 0, 0, 0;
      new;
      assert frames[..] == Init(n).frames;
      InitInv(c);
    }

    /** replace_fifo: the frame at the cursor receives the page. */
    method ReplaceFifo(page: nat) returns (v: nat)
      requires Shaped(cfg, State())
      modifies frames
      ensures v == victimFrame
      ensures frames[..] == old(frames[..])[v := old(frames[v]).(pageNum := page)]
    {
      frames[victimFrame] := frames[victimFrame].(pageNum := page);
      v := victimFrame;
    }

    /** replace_lru: scan for the least last access, then give that frame the page and the current time. */
    method ReplaceLru(page: nat) returns (v: nat)
      requires Shaped(cfg, State())
      modifies frames
      ensures v == LruVictim(old(frames[..]))
      ensures frames[..] == old(frames[..])[v := old(frames[v]).(pageNum := page, lastAccess := timestamp)]
    {
      ghost var s := frames[..];
      var currentMin := frames[0].lastAccess;
      v := 0;
      for i := 0 to frames.Length
        invariant v == if i == 0 then 0 else LruOver(s, i)
        invariant currentMin == frames[v].lastAccess
      {
        if frames[i].lastAccess < currentMin {
          currentMin := frames[i].lastAccess;
          v := i;
        }
      }
      frames[v] := frames[v].(pageNum := page, lastAccess := timestamp);
    }

    /**
     * replace_second_chance: from the cursor, clear and pass every frame whose
     * reference bit is set; the first with a clear bit receives the page with
     * its bit set, and the cursor is left on it. The loop runs at most
     * `|frames| + 1` times.
     */
    method ReplaceSecondChance(page: nat) returns (v: nat)
      requires Shaped(cfg, State())
      modifies frames, this`victimFrame
      ensures v == victimFrame == SecondChanceVictim(old(frames[..]), old(victimFrame))
      ensures frames[..] == SecondChanceFrames(old(frames[..]), old(victimFrame), page)
    {
      ghost var s, c, n := frames[..], victimFrame, frames.Length;
      ghost var k: nat := 0;
      while true
        invariant k <= n && victimFrame == Ahead(c, k, n)
        invariant SweepFrom(s, c, k) == SweepLength(s, c)
        invariant forall j :: 0 <= j < n ==>
          frames[j] == if Behind(c, j, n) < k then s[j].(refBit := false) else s[j]
        decreases n - k
      {
        if !frames[victimFrame].refBit {
          break;
        }
        assert Behind(c, c, n) == 0;
        assert k < n;
        BehindAhead(c, k, n);
        assert s[Ahead(c, k, n)].refBit;
        frames[victimFrame] := frames[victimFrame].(refBit := false);
        ModNext(c + k, n);
        victimFrame := (victimFrame + 1) % frames.Length;
        k := k + 1;
      }
      ghost var cleared := frames[..];
      SweepStop(s, c, k);
      frames[victimFrame] := frames[victimFrame].(pageNum := page, refBit := true);
      v := victimFrame;
      SweepResult(s, c, page, cleared);
    }

    /**
     * The last part of resolve_address, a fault with no free frame: the
     * configured scheme picks the victim, the cursor advances after FIFO and
     * second chance, a dirty victim is swapped out, and a write marks it dirty.
     */
    method Replace(page: nat, offset: nat, write: bool) returns (r: Option<nat>)
      requires Shaped(cfg, State())
      modifies frames, this`swapOuts, this`victimFrame
      ensures Resolved(State(), r) == Translator.Replace(cfg, old(State()), page, offset, write)
    {
      ghost var e := State();
      var f := cfg.frameBits as nat;
      var frame: nat;
      if cfg.scheme == Fifo {
        frame := ReplaceFifo(page);
        victimFrame := (victimFrame + 1) % frames.Length;
        ghost var picked := State();
        assert picked == e.(frames := e.frames[frame := e.frames[frame].(pageNum := page)],
                            cursor := (frame + 1) % frames.Length);
        if frames[frame].dirty {
          swapOuts := swapOuts + 1;
          frames[frame] := frames[frame].(dirty := false);
        }
        if write {
          frames[frame] := frames[frame].(dirty := true);
        }
        r := Some(Compose(frame, offset, f));
        assert Resolved(State(), r) == Evict(picked, frame, write, offset, f);
      } else if cfg.scheme == Lru {
        frame := ReplaceLru(page);
        ghost var picked := State();
        assert picked == e.(frames := e.frames[frame := e.frames[frame].(pageNum := page, lastAccess := e.timestamp)]);
        if frames[frame].dirty {
          swapOuts := swapOuts + 1;
          frames[frame] := frames[frame].(dirty := false);
        }
        if write {
          frames[frame] := frames[frame].(dirty := true);
        }
        r := Some(Compose(frame, offset, f));
        assert Resolved(State(), r) == Evict(picked, frame, write, offset, f);
      } else if cfg.scheme == SecondChance {
        frame := ReplaceSecondChance(page);
        victimFrame := (victimFrame + 1) % frames.Length;
        ghost var picked := State();
        assert picked == e.(frames := SecondChanceFrames(e.frames, e.cursor, page),
                            cursor := (frame + 1) % frames.Length);
        if frames[frame].dirty {
          swapOuts := swapOuts + 1;
          frames[frame] := frames[frame].(dirty := false);
        }
        if write {
          frames[frame] := frames[frame].(dirty := true);
        }
        r := Some(Compose(frame, offset, f));
        assert Resolved(State(), r) == Evict(picked, frame, write, offset, f);
      } else {
        r := None;
      }
    }

    /** resolve_address's lookup: the lowest occupied frame holding `page`, or -1. */
    method FindPage(page: nat) returns (frame: int)
      ensures -1 <= frame < frames.Length
      ensures frame == -1 <==> forall j :: 0 <= j < frames.Length ==> !Holds(frames[j], page)
      ensures frame != -1 ==> Holds(frames[frame], page) && forall j :: 0 <= j < frame ==> !Holds(frames[j], page)
    {
      frame := -1;
      var i := 0;
      while i < frames.Length
        invariant 0 <= i <= frames.Length && frame == -1
        invariant forall j :: 0 <= j < i ==> !Holds(frames[j], page)
      {
        if !frames[i].free && frames[i].pageNum == page {
          frame := i;
          break;
        }
        i := i + 1;
      }
    }

    /** resolve_address's search for a free frame: the lowest free one, or -1. */
    method FindFree() returns (frame: int)
      ensures -1 <= frame < frames.Length
      ensures frame == -1 <==> forall j :: 0 <= j < frames.Length ==> !frames[j].free
      ensures frame != -1 ==> frames[frame].free && forall j :: 0 <= j < frame ==> !frames[j].free
    {
      frame := -1;
      var i := 0;
      while i < frames.Length
        invariant 0 <= i <= frames.Length && frame == -1
        invariant forall j :: 0 <= j < i ==> !frames[j].free
      {
        if frames[i].free {
          frame := i;
          break;
        }
        i := i + 1;
      }
    }

    /** resolve_address: the physical address of `logical`, or `None` for the source's -1. */
    method Resolve(logical: nat, write: bool) returns (r: Option<nat>)
      requires Shaped(cfg, State())
      modifies frames, this`pageFaults, this`swapIns, this`swapOuts, this`victimFrame
      ensures Resolved(State(), r) == Translator.Resolve(cfg, old(State()), logical, write)
    {
      ghost var e := State();
      var f := cfg.frameBits as nat;
      var page := ShiftRight(logical, f);
      var mask := BuildMask(f);
      var offset := And(logical, mask);
      assert page == PageOf(cfg, logical) && offset == OffsetOf(cfg, logical);

      var frame := FindPage(page);
      if frame != -1 {
        assert Lookup(e.frames, page) == Some(frame);
        ResolveFound(cfg, e, logical, write, frame);
        frames[frame] := frames[frame].(refBit := true, lastAccess := timestamp);
        if write {
          frames[frame] := frames[frame].(dirty := true);
        }
        r := Some(Compose(frame, offset, f));
        assert frames[..] == e.frames[frame := Touch(e.frames[frame], e.timestamp, write)];
        assert Resolved(State(), r) == Translator.Resolve(cfg, e, logical, write);
      } else {
        assert Lookup(e.frames, page) == None;
        pageFaults := pageFaults + 1;
        swapIns := swapIns + 1;
        ghost var faulted := e.(pageFaults := e.pageFaults + 1, swapIns := e.swapIns + 1);

        frame := FindFree();
        if frame != -1 {
          assert FirstFree(e.frames) == Some(frame);
          ResolveFreeFrame(cfg, e, logical, write, frame);
          frames[frame] := frames[frame].(pageNum := page, free := false, lastAccess := timestamp, refBit := true);
          if write {
            frames[frame] := frames[frame].(dirty := true);
          }
          r := Some(Compose(frame, offset, f));
          assert frames[..] == e.frames[frame := Install(e.frames[frame], page, e.timestamp, write)];
          assert Resolved(State(), r) == Translator.Resolve(cfg, e, logical, write);
        } else {
          assert FirstFree(e.frames) == None;
          ResolveNoFreeFrame(cfg, e, logical, write);
          assert State() == faulted;
          r := Replace(page, offset, write);
          assert Resolved(State(), r) == Translator.Resolve(cfg, e, logical, write);
        }
      }
    }

    /** One turn of main's loop: resolve a reference line and count it, and advance the clock. */
    method ProcessLine(line: Line, lineNum: nat) returns (failure: Option<Failure>)
      requires Valid()
      modifies frames, this
      ensures failure.None? ==> Valid()
      ensures Driver.Step(cfg, old(State()), line, lineNum) ==
              if failure.None? then Ok(State()) else Err(failure.value)
    {
      ghost var e := State();
      StepSettled(cfg, e, line, lineNum);
      failure := None;
      if line.Reference? {
        var phys := Resolve(line.addr, line.isWrite);
        ghost var res := Translator.Resolve(cfg, e, line.addr, line.isWrite);
        if phys.None? {
          assert Driver.Step(cfg, e, line, lineNum) == Err(Unresolved(line.addr, lineNum));
          return Some(Unresolved(line.addr, lineNum));
        }
        memRefs := memRefs + 1;
        timestamp := timestamp + 1;
        assert Driver.Step(cfg, e, line, lineNum) ==
               Ok(res.e.(memRefs := res.e.memRefs + 1, timestamp := res.e.timestamp + 1));
        assert State() == res.e.(memRefs := res.e.memRefs + 1, timestamp := res.e.timestamp + 1);
      } else {
        timestamp := timestamp + 1;
        assert State() == e.(timestamp := e.timestamp + 1);
      }
    }
  }

  /** Where the loop of replace_second_chance stops, it has taken exactly the sweep length in steps. */
  lemma SweepStop(s: seq<Frame>, c: nat, k: nat)
    requires c < |s| && k <= |s|
    requires SweepFrom(s, c, k) == SweepLength(s, c)
    requires k < |s| ==> !s[Ahead(c, k, |s|)].refBit
    ensures SweepLength(s, c) == k
  {
  }

  /** The table the loop leaves, once the victim is updated, is the one SecondChanceFrames describes. */
  lemma SweepResult(s: seq<Frame>, c: nat, page: nat, cleared: seq<Frame>)
    requires c < |s| && |cleared| == |s|
    requires forall j :: 0 <= j < |s| ==>
      cleared[j] == if Passed(s, c, j) then s[j].(refBit := false) else s[j]
    ensures var v := SecondChanceVictim(s, c);
      cleared[v := cleared[v].(pageNum := page, refBit := true)] == SecondChanceFrames(s, c, page)
  {
  }

  /** main from the configuration check to the report, over a parsed trace. */
  method RunSimulation(c: Config, lines: seq<Line>) returns (r: Outcome<Report>)
    ensures r == Simulate(c, lines)
  {
    if !Runnable(c) {
      return Err(Usage);
    }
    var sim := new Simulator(c);
    var lineNum := 0;
    while lineNum < |lines|
      invariant 0 <= lineNum <= |lines|
      invariant fresh(sim) && fresh(sim.frames) && sim.cfg == c
      invariant sim.Valid()
      invariant RunFrom(c, Init(c.numFrames as nat), lines, 0) == RunFrom(c, sim.State(), lines[lineNum..], lineNum)
    {
      assert lines[lineNum..][1..] == lines[lineNum + 1..];
      var failure := sim.ProcessLine(lines[lineNum], lineNum + 1);
      if failure.Some? {
        return Err(failure.value);
      }
      lineNum := lineNum + 1;
    }
    r := Ok(Report(sim.memRefs, sim.pageFaults, sim.swapIns, sim.swapOuts));
  }
}
