// Victim selection for a full page table: what replace_lru and
// replace_second_chance choose, and how the second-chance sweep leaves the
// reference bits. FIFO needs no function of its own: its victim is the cursor.

module Policies {
  import opened Bits
  import opened PageTable

  // ----- LRU -----

  /**
   * replace_lru's scan over the first `k` frames: the frame with the smallest
   * `lastAccess`, and on a tie the lowest index (the comparison is strict).
   */
  function LruOver(s: seq<Frame>, k: nat): (v: nat)
    requires 1 <= k <= |s|
    ensures v < k
    ensures forall j :: 0 <= j < k ==> s[v].lastAccess <= s[j].lastAccess
    ensures forall j :: 0 <= j < v ==> s[j].lastAccess > s[v].lastAccess
    decreases k
  {
    if k == 1 then 0
    else
      var v := LruOver(s, k - 1);
      if s[k - 1].lastAccess < s[v].lastAccess then k - 1 else v
  }

  /** The LRU victim over the whole table. */
  function LruVictim(s: seq<Frame>): (v: nat)
    requires |s| > 0
    ensures v < |s|
  {
    LruOver(s, |s|)
  }

  /** The victim is the unique frame of least `lastAccess` with no earlier frame as old. */
  lemma LruVictimIsLeastRecent(s: seq<Frame>, w: nat)
    requires w < |s|
    requires forall j :: 0 <= j < |s| ==> s[w].lastAccess <= s[j].lastAccess
    requires forall j :: 0 <= j < w ==> s[j].lastAccess > s[w].lastAccess
    ensures LruVictim(s) == w
  {
    var v := LruVictim(s);
    assert s[v].lastAccess <= s[w].lastAccess && s[w].lastAccess <= s[v].lastAccess;
  }

  // ----- Second chance -----

  /** The frame `d` steps past frame `c` on the clock of `n` frames: `(c + d) % n`. */
  function Ahead(c: nat, d: nat, n: nat): (p: nat)
    requires c < n && d <= n
    ensures p < n
    ensures p == (c + d) % n
  {
    if c + d < n then
      DivModUnique(c + d, n, 0, c + d);
      c + d
    else
      DivModUnique(c + d, n, 1, c + d - n);
      c + d - n
  }

  /** How many steps the clock hand takes from frame `c` to frame `j`. */
  function Behind(c: nat, j: nat, n: nat): (d: nat)
    requires c < n && j < n
    ensures d < n
    ensures Ahead(c, d, n) == j
  {
    if c <= j then j - c else j + n - c
  }

  lemma BehindAhead(c: nat, d: nat, n: nat)
    requires c < n && d < n
    ensures Behind(c, Ahead(c, d, n), n) == d
  {
  }

  /**
   * The sweep of replace_second_chance from frame `c`, counted in steps:
   * it passes frames whose reference bit is set and stops at the first
   * clear one. If every bit is set it goes once round, `|s|` steps.
   */
  function SweepFrom(s: seq<Frame>, c: nat, d: nat): (k: nat)
    requires c < |s| && d <= |s|
    ensures d <= k <= |s|
    ensures forall e :: d <= e < k ==> s[Ahead(c, e, |s|)].refBit
    ensures k < |s| ==> !s[Ahead(c, k, |s|)].refBit
    decreases |s| - d
  {
    if d == |s| then d
    else if !s[Ahead(c, d, |s|)].refBit then d
    else SweepFrom(s, c, d + 1)
  }

  function SweepLength(s: seq<Frame>, c: nat): nat
    requires c < |s|
  {
    SweepFrom(s, c, 0)
  }

  /** The frame the sweep stops on. */
  function SecondChanceVictim(s: seq<Frame>, c: nat): (v: nat)
    requires c < |s|
    ensures v < |s|
  {
    Ahead(c, SweepLength(s, c), |s|)
  }

  /** Frame `j` is one the sweep passes over (and so clears). */
  predicate Passed(s: seq<Frame>, c: nat, j: nat)
    requires c < |s| && j < |s|
  {
    Behind(c, j, |s|) < SweepLength(s, c)
  }

  /**
   * The table after replace_second_chance: passed frames lose their reference
   * bit, then the victim receives `page` and has its bit set again.
   */
  function SecondChanceFrames(s: seq<Frame>, c: nat, page: nat): (r: seq<Frame>)
    requires c < |s|
    ensures |r| == |s|
  {
    var cleared := seq(|s|, j requires 0 <= j < |s| =>
      if Passed(s, c, j) then s[j].(refBit := false) else s[j]);
    var v := SecondChanceVictim(s, c);
    cleared[v := cleared[v].(pageNum := page, refBit := true)]
  }

  /**
   * Which frame second chance evicts: the first frame at or after the cursor,
   * going round, whose reference bit is clear; if there is none, the frame
   * at the cursor itself, reached again after one full round.
   */
  lemma {:induction false} SecondChanceChoice(s: seq<Frame>, c: nat)
    requires c < |s|
    ensures var v := SecondChanceVictim(s, c);
      (exists j :: 0 <= j < |s| && !s[j].refBit) ==>
        !s[v].refBit &&
        forall j :: 0 <= j < |s| && Behind(c, j, |s|) < Behind(c, v, |s|) ==> s[j].refBit
    ensures (forall j :: 0 <= j < |s| ==> s[j].refBit) ==> SecondChanceVictim(s, c) == c
  {
    var n, L := |s|, SweepLength(s, c);
    var v := SecondChanceVictim(s, c);
    if L < n {
      BehindAhead(c, L, n);
      forall j | 0 <= j < n && Behind(c, j, n) < Behind(c, v, n) ensures s[j].refBit {
        assert s[Ahead(c, Behind(c, j, n), n)].refBit;
      }
    } else {
      forall j | 0 <= j < n ensures s[j].refBit {
        assert s[Ahead(c, Behind(c, j, n), n)].refBit;
      }
    }
  }

  /**
   * How the sweep leaves the table: the victim holds `page` with its bit set;
   * every frame it passed had its bit set and now has it clear; every other
   * frame is as before. The sweep passes fewer than `|s|` frames unless every
   * bit was set, and then it passes them all.
   */
  lemma SecondChanceEffect(s: seq<Frame>, c: nat, page: nat)
    requires c < |s|
    ensures var r, v := SecondChanceFrames(s, c, page), SecondChanceVictim(s, c);
      r[v] == s[v].(pageNum := page, refBit := true) &&
      forall j :: 0 <= j < |s| && j != v ==>
        if Passed(s, c, j) then s[j].refBit && r[j] == s[j].(refBit := false) else r[j] == s[j]
    ensures SweepLength(s, c) < |s| ==> !Passed(s, c, SecondChanceVictim(s, c))
    ensures SweepLength(s, c) == |s| <==> forall j :: 0 <= j < |s| ==> s[j].refBit
  {
    var n, L := |s|, SweepLength(s, c);
    forall j | 0 <= j < n && Passed(s, c, j) ensures s[j].refBit {
      assert s[Ahead(c, Behind(c, j, n), n)].refBit;
    }
    if L < n {
      BehindAhead(c, L, n);
    } else {
      forall j | 0 <= j < n ensures s[j].refBit {
        assert Passed(s, c, j);
      }
    }
  }
}
