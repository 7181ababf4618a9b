/** Which gap the arena's scan picks. */
module ArenaBestFit {
  import opened Common
  import opened ArenaPlacement

  /** End of the memory occupied by those of the first `k` entries that are live with the request. */
  ghost function GapStart(r: Request, active: seq<ArenaAlloc>, k: nat): nat
    requires k <= |active|
  {
    if k == 0 then 0
    else if active[k - 1].LiveIn(r.firstNode, r.lastNode) then Max(GapStart(r, active, k - 1), active[k - 1].End())
    else GapStart(r, active, k - 1)
  }

  /** Where the request would start in the gap below entry `k`, or past all entries when `k == |active|`. */
  ghost function AlignedStart(r: Request, active: seq<ArenaAlloc>, k: nat): nat
    requires k <= |active| && r.alignment != 0
  {
    var rest := GapStart(r, active, k) % r.alignment;
    if rest == 0 then GapStart(r, active, k) else GapStart(r, active, k) + (r.alignment - rest)
  }

  /** The request fits between the memory occupied so far and the live entry `k`. */
  ghost predicate Fits(r: Request, active: seq<ArenaAlloc>, k: nat)
    requires k <= |active| && r.alignment != 0
  {
    && k < |active|
    && active[k].LiveIn(r.firstNode, r.lastNode)
    && AlignedStart(r, active, k) + r.size <= active[k].offset
  }

  ghost function GapLength(r: Request, active: seq<ArenaAlloc>, k: nat): int
    requires k < |active|
  {
    active[k].offset - GapStart(r, active, k)
  }

  /** The length of a gap without the padding in front of the request: what the scan compares a candidate by. */
  ghost function PaddedLength(r: Request, active: seq<ArenaAlloc>, k: nat): int
    requires k < |active| && r.alignment != 0
  {
    active[k].offset - AlignedStart(r, active, k)
  }

  /** Every gap the request fits in starts at a multiple of the alignment. */
  ghost predicate GapsAligned(r: Request, active: seq<ArenaAlloc>)
    requires r.alignment != 0
  {
    forall k :: 0 <= k < |active| && Fits(r, active, k) ==> AlignedStart(r, active, k) == GapStart(r, active, k)
  }

  /** Gap `k` is the first one, among those below entry `bound`, that the request fits in most tightly. */
  ghost predicate FirstShortest(r: Request, active: seq<ArenaAlloc>, k: nat, bound: nat)
    requires r.alignment != 0 && bound <= |active|
  {
    && k < bound && Fits(r, active, k)
    && (forall j :: 0 <= j < bound && Fits(r, active, j) ==> GapLength(r, active, k) <= GapLength(r, active, j))
    && (forall j :: 0 <= j < k && Fits(r, active, j) ==> GapLength(r, active, k) < GapLength(r, active, j))
  }

  /** What the scan state means after `k` entries; `chosen` is the gap it is in, if any. */
  ghost predicate Tracks(r: Request, active: seq<ArenaAlloc>, k: nat, s: Scan, chosen: Option<nat>)
    requires r.alignment != 0 && k <= |active|
  {
    && s.current == GapStart(r, active, k)
    && 0 < s.fit
    && match chosen
       case None => s.best == SIZE_MAX && s.fit == SIZE_MAX && forall j :: 0 <= j < k ==> !Fits(r, active, j)
       case Some(c) =>
         && c < k && Fits(r, active, c) && s.best < SIZE_MAX
         && s.best == AlignedStart(r, active, c) && s.fit == GapLength(r, active, c)
         && (GapsAligned(r, active) ==> FirstShortest(r, active, c, k))
  }

  /** Every entry ends inside the address space and is not empty, as `Allocate` leaves them. */
  ghost predicate Nonempty(active: seq<ArenaAlloc>) {
    forall a :: a in active ==> a.size > 0 && a.End() <= SIZE_MAX
  }

  lemma VisitTracks(r: Request, active: seq<ArenaAlloc>, k: nat, s: Scan, chosen: Option<nat>)
    returns (chosen': Option<nat>)
    requires r.alignment != 0 && r.size > 0 && Nonempty(active)
    requires k < |active| && active[k].LiveIn(r.firstNode, r.lastNode)
    requires Tracks(r, active, k, s, chosen)
    requires Visit(r, active[k], s).Some?
    ensures Tracks(r, active, k + 1, Visit(r, active[k], s).value, chosen')
    ensures chosen' == if Fits(r, active, k) && PaddedLength(r, active, k) < s.fit then Some(k) else chosen
  {
    var a := active[k];
    assert a in active;
    var aligned := CheckedAlignTo(r.alignment, s.current).value;
    assert aligned == AlignedStart(r, active, k);
    if aligned + r.size <= a.offset && a.offset - aligned < s.fit {
      chosen' := Some(k);
    } else {
      chosen' := chosen;
    }
  }

  lemma SkipTracks(r: Request, active: seq<ArenaAlloc>, k: nat, s: Scan, chosen: Option<nat>)
    requires r.alignment != 0 && k < |active| && !active[k].LiveIn(r.firstNode, r.lastNode)
    requires Tracks(r, active, k, s, chosen)
    ensures Tracks(r, active, k + 1, s, chosen)
  {
  }

  lemma {:induction false} ScanTracks(r: Request, active: seq<ArenaAlloc>, k: nat, s: Scan, chosen: Option<nat>)
    returns (final: Option<nat>)
    requires r.alignment != 0 && r.size > 0 && Nonempty(active)
    requires k <= |active| && Tracks(r, active, k, s, chosen)
    requires ScanGaps(r, active[k..], s).Some?
    ensures Tracks(r, active, |active|, ScanGaps(r, active[k..], s).value, final)
    decreases |active| - k
  {
    final := chosen;
    if k < |active| {
      assert active[k..][0] == active[k] && active[k..][1..] == active[k + 1..];
      if active[k].LiveIn(r.firstNode, r.lastNode) {
        var next := VisitTracks(r, active, k, s, chosen);
        final := ScanTracks(r, active, k + 1, Visit(r, active[k], s).value, next);
      } else {
        SkipTracks(r, active, k, s, chosen);
        final := ScanTracks(r, active, k + 1, s, chosen);
      }
    }
  }

  /**
   * A block goes past the last allocation that is live with it only if it fits in no gap;
   * otherwise it goes to the aligned start of a gap it fits in. When those gaps start
   * aligned, that gap is the first shortest one.
   */
  lemma GapIsUsedWhenOneFits(r: Request, active: seq<ArenaAlloc>)
    requires r.alignment != 0 && r.size > 0 && Nonempty(active)
    requires ChooseOffset(r, active).Some?
    ensures var offset := ChooseOffset(r, active).value;
            if forall j :: 0 <= j < |active| ==> !Fits(r, active, j)
            then offset == AlignedStart(r, active, |active|)
            else exists c :: 0 <= c < |active| && Fits(r, active, c) && offset == AlignedStart(r, active, c)
                   && (GapsAligned(r, active) ==> FirstShortest(r, active, c, |active|))
  {
    assert active[0..] == active;
    var c := ScanTracks(r, active, 0, SCAN_START, None);
    if c.Some? {
      assert Fits(r, active, c.value);
    }
  }

  /* ---- Exactly when a request fails ---- */

  lemma {:induction false} ScanFailsIff(r: Request, active: seq<ArenaAlloc>, k: nat, s: Scan, chosen: Option<nat>)
    requires r.alignment != 0 && r.size > 0 && Nonempty(active)
    requires k <= |active| && Tracks(r, active, k, s, chosen)
    ensures ScanGaps(r, active[k..], s).None? <==>
            exists j :: k <= j < |active| && RunsOut(r, active, j)
    decreases |active| - k
  {
    if k < |active| {
      assert active[k..][0] == active[k] && active[k..][1..] == active[k + 1..];
      if !active[k].LiveIn(r.firstNode, r.lastNode) {
        SkipTracks(r, active, k, s, chosen);
        ScanFailsIff(r, active, k + 1, s, chosen);
      } else {
        VisitFailsIff(r, active, k, s, chosen);
        if Visit(r, active[k], s).Some? {
          var next := VisitTracks(r, active, k, s, chosen);
          ScanFailsIff(r, active, k + 1, Visit(r, active[k], s).value, next);
        }
      }
    }
  }

  /** Entry `k` is live with the request, which would run past the address space if it started below it. */
  ghost predicate RunsOut(r: Request, active: seq<ArenaAlloc>, k: nat)
    requires r.alignment != 0 && k < |active|
  {
    active[k].LiveIn(r.firstNode, r.lastNode) && AlignedStart(r, active, k) + r.size > SIZE_MAX
  }

  lemma VisitFailsIff(r: Request, active: seq<ArenaAlloc>, k: nat, s: Scan, chosen: Option<nat>)
    requires r.alignment != 0 && r.size > 0 && Nonempty(active) && k < |active|
    requires Tracks(r, active, k, s, chosen) && active[k].LiveIn(r.firstNode, r.lastNode)
    ensures Visit(r, active[k], s).None? <==> RunsOut(r, active, k)
  {
    assert active[k] in active;
  }

  /**
   * A request fails exactly when some start that has to be computed runs past the address space:
   * in the gap below an entry live with it, or behind all of them when it fits in no gap.
   */
  lemma AllocationFailsIff(r: Request, active: seq<ArenaAlloc>)
    requires r.alignment != 0 && r.size > 0 && Nonempty(active)
    ensures ChooseOffset(r, active).None? <==>
            || (exists k :: 0 <= k < |active| && RunsOut(r, active, k))
            || ((forall k :: 0 <= k < |active| ==> !Fits(r, active, k))
                && AlignedStart(r, active, |active|) + r.size > SIZE_MAX)
  {
    assert active[0..] == active;
    ScanFailsIff(r, active, 0, SCAN_START, None);
    if ScanGaps(r, active, SCAN_START).Some? {
      var c := ScanTracks(r, active, 0, SCAN_START, None);
      if c.Some? {
        assert Fits(r, active, c.value) && active[c.value] in active;
      }
    }
  }

  /* ---- Exactly when the chosen gap is a shortest one ---- */

  /** The request fits in gap `k`, and in no shorter one. */
  ghost predicate Shortest(r: Request, active: seq<ArenaAlloc>, k: nat)
    requires r.alignment != 0
  {
    && k < |active| && Fits(r, active, k)
    && forall j :: 0 <= j < |active| && Fits(r, active, j) ==> GapLength(r, active, k) <= GapLength(r, active, j)
  }

  /** Gap `k` is the last of the shortest ones. */
  ghost predicate LastShortest(r: Request, active: seq<ArenaAlloc>, k: nat)
    requires r.alignment != 0
  {
    && Shortest(r, active, k)
    && forall j :: k < j < |active| && Fits(r, active, j) ==> GapLength(r, active, k) < GapLength(r, active, j)
  }

  /** No later gap below entry `bound` looks shorter than gap `last` once its padding is taken off. */
  ghost predicate NoneLooksShorter(r: Request, active: seq<ArenaAlloc>, last: nat, bound: nat)
    requires r.alignment != 0 && last < |active| && bound <= |active|
  {
    forall k :: last < k < bound && Fits(r, active, k) ==> GapLength(r, active, last) <= PaddedLength(r, active, k)
  }

  /** Past the last shortest gap the scan is in a shortest one as long as no later gap looks shorter. */
  ghost predicate Holds(r: Request, active: seq<ArenaAlloc>, last: nat, k: nat, chosen: Option<nat>)
    requires r.alignment != 0 && last < |active| && k <= |active|
  {
    k > last ==>
      && chosen.Some? && chosen.value < |active|
      && if NoneLooksShorter(r, active, last, k) then GapLength(r, active, chosen.value) == GapLength(r, active, last)
         else chosen.value > last
  }

  lemma GapStartGrows(r: Request, active: seq<ArenaAlloc>, j: nat, k: nat)
    requires j <= k <= |active|
    ensures GapStart(r, active, j) <= GapStart(r, active, k)
    ensures forall i :: j <= i < k && active[i].LiveIn(r.firstNode, r.lastNode) ==>
              active[i].End() <= GapStart(r, active, k)
  {
    if j < k {
      GapStartGrows(r, active, j, k - 1);
    }
  }

  /**
   * Entry `k` is passed. At the last shortest gap the scan takes it, unless it is in an equally
   * short one already; after it the scan stays unless entry `k` looks shorter.
   */
  lemma VisitHolds(
    r: Request, active: seq<ArenaAlloc>, last: nat, k: nat, s: Scan, chosen: Option<nat>, chosen': Option<nat>)
    requires r.alignment != 0 && Nonempty(active) && LastShortest(r, active, last)
    requires k < |active| && Tracks(r, active, k, s, chosen) && Holds(r, active, last, k, chosen)
    requires chosen' == if Fits(r, active, k) && PaddedLength(r, active, k) < s.fit then Some(k) else chosen
    ensures Holds(r, active, last, k + 1, chosen')
  {
    assert active[k] in active;
    if k > last {
      assert NoneLooksShorter(r, active, last, k + 1) <==>
             NoneLooksShorter(r, active, last, k)
             && (Fits(r, active, k) ==> GapLength(r, active, last) <= PaddedLength(r, active, k));
    }
  }

  lemma {:induction false} ScanHolds(
    r: Request, active: seq<ArenaAlloc>, last: nat, k: nat, s: Scan, chosen: Option<nat>) returns (final: Option<nat>)
    requires r.alignment != 0 && r.size > 0 && Nonempty(active) && LastShortest(r, active, last)
    requires k <= |active| && Tracks(r, active, k, s, chosen) && Holds(r, active, last, k, chosen)
    requires ScanGaps(r, active[k..], s).Some?
    ensures Tracks(r, active, |active|, ScanGaps(r, active[k..], s).value, final)
    ensures Holds(r, active, last, |active|, final)
    decreases |active| - k
  {
    hide LastShortest, Holds, Visit;
    final := chosen;
    if k < |active| {
      assert active[k..][0] == active[k] && active[k..][1..] == active[k + 1..];
      var next, scan := chosen, s;
      if active[k].LiveIn(r.firstNode, r.lastNode) {
        next := VisitTracks(r, active, k, s, chosen);
        scan := Visit(r, active[k], s).value;
      } else {
        SkipTracks(r, active, k, s, chosen);
      }
      VisitHolds(r, active, last, k, s, chosen, next);
      final := ScanHolds(r, active, last, k + 1, scan, next);
    }
  }

  /** Some gap is the last shortest one, if the request fits in any. */
  lemma LastShortestExists(r: Request, active: seq<ArenaAlloc>) returns (last: nat)
    requires r.alignment != 0
    requires exists k :: 0 <= k < |active| && Fits(r, active, k)
    ensures LastShortest(r, active, last)
  {
    last :| last < |active| && Fits(r, active, last);
    var k := 0;
    while k < |active|
      invariant 0 <= k <= |active| && last < |active| && Fits(r, active, last)
      invariant forall j :: 0 <= j < k && Fits(r, active, j) ==> GapLength(r, active, last) <= GapLength(r, active, j)
      invariant forall j :: last < j < k && Fits(r, active, j) ==> GapLength(r, active, last) < GapLength(r, active, j)
    {
      if Fits(r, active, k) && (GapLength(r, active, k) < GapLength(r, active, last)
                                || (k > last && GapLength(r, active, k) == GapLength(r, active, last))) {
        last := k;
      }
      k := k + 1;
    }
  }

  /** Two gaps the request fits in start at different places. */
  lemma GapsApart(r: Request, active: seq<ArenaAlloc>, j: nat, k: nat)
    requires r.alignment != 0 && r.size > 0 && Nonempty(active)
    requires j < k < |active| && Fits(r, active, j) && Fits(r, active, k)
    ensures AlignedStart(r, active, j) < AlignedStart(r, active, k)
  {
    assert active[j] in active;
    GapStartGrows(r, active, j, k);
  }

  /**
   * Exactly when the best fit is a best fit: the chosen gap is one of the shortest that fit if and
   * only if no fitting gap after the last of these looks shorter with its padding taken off.
   */
  lemma ShortestGapIff(r: Request, active: seq<ArenaAlloc>, last: nat)
    requires r.alignment != 0 && r.size > 0 && Nonempty(active)
    requires ChooseOffset(r, active).Some? && LastShortest(r, active, last)
    ensures (exists c :: Shortest(r, active, c) && ChooseOffset(r, active).value == AlignedStart(r, active, c)) <==>
            NoneLooksShorter(r, active, last, |active|)
  {
    assert active[0..] == active;
    var final := ScanHolds(r, active, last, 0, SCAN_START, None);
    var chosen := final.value;
    assert ChooseOffset(r, active).value == AlignedStart(r, active, chosen);
    assert NoneLooksShorter(r, active, last, |active|) ==> Shortest(r, active, chosen);
    forall c | Shortest(r, active, c) && AlignedStart(r, active, c) == AlignedStart(r, active, chosen)
      ensures c == chosen
    {
      if c < chosen {
        GapsApart(r, active, c, chosen);
      } else if chosen < c {
        GapsApart(r, active, chosen, c);
      }
    }
  }

  const UNALIGNED_REQUEST := Request(4, 4, 9, 0, 5)
  const UNALIGNED_ACTIVE := [ArenaAlloc(8, 5, 1, 0, 5), ArenaAlloc(23, 1, 2, 0, 5), ArenaAlloc(33, 7, 3, 0, 5)]

  lemma ScanStep(r: Request, a: ArenaAlloc, rest: seq<ArenaAlloc>, s: Scan, next: Scan)
    requires a.LiveIn(r.firstNode, r.lastNode) && Visit(r, a, s) == Some(next) && next.fit != 0
    ensures ScanGaps(r, [a] + rest, s) == ScanGaps(r, rest, next)
  {
    assert ([a] + rest)[1..] == rest;
  }

  lemma ThreeSteps(r: Request, a: ArenaAlloc, b: ArenaAlloc, c: ArenaAlloc, s: seq<Scan>)
    requires |s| == 4 && s[1].fit != 0 && s[2].fit != 0 && s[3].fit != 0
    requires a.LiveIn(r.firstNode, r.lastNode) && Visit(r, a, s[0]) == Some(s[1])
    requires b.LiveIn(r.firstNode, r.lastNode) && Visit(r, b, s[1]) == Some(s[2])
    requires c.LiveIn(r.firstNode, r.lastNode) && Visit(r, c, s[2]) == Some(s[3])
    ensures ScanGaps(r, [a, b, c], s[0]) == Some(s[3])
  {
    ScanStep(r, a, [b, c], s[0], s[1]);
    ScanStep(r, b, [c], s[1], s[2]);
    ScanStep(r, c, [], s[2], s[3]);
    assert [a, b, c] == [a] + [b, c] && [b, c] == [b] + [c] && [c] == [c] + [];
  }

  lemma UnalignedVisits(r: Request, a: ArenaAlloc, b: ArenaAlloc, c: ArenaAlloc)
    requires r == UNALIGNED_REQUEST && [a, b, c] == UNALIGNED_ACTIVE
    ensures Visit(r, a, SCAN_START) == Some(Scan(13, 0, 8))
    ensures Visit(r, b, Scan(13, 0, 8)) == Some(Scan(24, 16, 10))
    ensures Visit(r, c, Scan(24, 16, 10)) == Some(Scan(40, 24, 9))
  {
    assert a == [a, b, c][0] && b == [a, b, c][1] && c == [a, b, c][2];
  }

  lemma UnalignedGaps(r: Request, active: seq<ArenaAlloc>)
    requires r == UNALIGNED_REQUEST && active == UNALIGNED_ACTIVE
    ensures GapStart(r, active, 0) == 0 && GapStart(r, active, 1) == 13 && GapStart(r, active, 2) == 24
  {
    assert GapStart(r, active, 0) == 0;
    assert GapStart(r, active, 1) == 13;
  }

  /**
   * Without aligned gap starts the choice need not be tight, because the scan compares the
   * padded length of a gap with the unpadded length of the best one so far. With alignment 4
   * a 4-byte request meets the gaps [0, 8), [13, 23) and [24, 33) and lands in the last one,
   * although the first is shorter and both start aligned.
   */
  lemma UnalignedGapsDefeatBestFit(r: Request, active: seq<ArenaAlloc>)
    requires r == UNALIGNED_REQUEST && active == UNALIGNED_ACTIVE
    ensures !GapsAligned(r, active)
    ensures Fits(r, active, 0) && Fits(r, active, 2) && GapLength(r, active, 0) < GapLength(r, active, 2)
    ensures ChooseOffset(r, active) == Some(24) && AlignedStart(r, active, 2) == 24
  {
    UnalignedVisits(r, active[0], active[1], active[2]);
    ThreeSteps(r, active[0], active[1], active[2], [SCAN_START, Scan(13, 0, 8), Scan(24, 16, 10), Scan(40, 24, 9)]);
    assert active == [active[0], active[1], active[2]];
    UnalignedGaps(r, active);
    assert Fits(r, active, 1);
  }
}
