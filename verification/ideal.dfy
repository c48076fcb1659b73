/** Ideal (hotness-counting) wear levelling, hcmm_climber.cpp: every page has its own visit counter, and a
    remap hands out the ranks by sorted visit counts, with the run of unvisited pages reversed. */
module IdealWearLeveling {
  import opened Bits
  import opened Counting
  import opened PageMaps

  const REMAP_THRESHOLD := 2000000
  const CYCLE_THRESHOLD := 20000000

  // ---------------------------------------------------------------------------------------------
  // The visiting order
  // ---------------------------------------------------------------------------------------------

  /** doswap's zeropoint once it has scanned the sorted counts from the top down to index j. */
  ghost function ZeroPoint(counts: seq<nat>, j: nat): nat
    decreases |counts| - j
  {
    if j >= |counts| then 0
    else
      var z := ZeroPoint(counts, j + 1);
      if counts[j] == 0 && z < j then j else z
  }

  /** doswap's vindex for index j: the indices up to the zero point are reversed. */
  ghost function VisitIndex(counts: seq<nat>, j: nat): int {
    var z := ZeroPoint(counts, j);
    if j > z then j else z - j
  }

  lemma ZeroPointNone(counts: seq<nat>)
    ensures ZeroPoint(counts, |counts|) == 0
  {
  }

  /** One step of the scan. */
  lemma ZeroPointStep(counts: seq<nat>, j: nat)
    requires j < |counts|
    ensures
      var z := ZeroPoint(counts, j + 1);
      ZeroPoint(counts, j) == if counts[j] == 0 && z < j then j else z
    ensures VisitIndex(counts, j) == if j > ZeroPoint(counts, j) then j else ZeroPoint(counts, j) - j
  {
  }

  lemma {:induction false} ZeroPointBounds(counts: seq<nat>, j: nat)
    ensures ZeroPoint(counts, j) == 0 || j <= ZeroPoint(counts, j) < |counts|
    decreases |counts| - j
  {
    if j < |counts| {
      ZeroPointBounds(counts, j + 1);
    }
  }

  /** Scanning further down does not change a zero point that has been found. */
  lemma {:induction false} ZeroPointIsFinal(counts: seq<nat>, i: nat, j: nat)
    requires i <= j
    ensures ZeroPoint(counts, i) == if ZeroPoint(counts, i) >= j then ZeroPoint(counts, j) else ZeroPoint(counts, i)
    ensures ZeroPoint(counts, j) > 0 ==> ZeroPoint(counts, i) == ZeroPoint(counts, j)
    decreases j - i
  {
    if i < j {
      ZeroPointIsFinal(counts, i + 1, j);
      ZeroPointBounds(counts, j);
      ZeroPointBounds(counts, i + 1);
    }
  }

  /** With Z the final zero point, the index j is visited as Z - j up to Z and as itself above: an involution,
      even though the code computes it while it is still looking for Z. */
  lemma VisitIndexMeaning(counts: seq<nat>, j: nat)
    requires j < |counts|
    ensures
      var z := ZeroPoint(counts, 0);
      z < |counts| && VisitIndex(counts, j) == if j > z then j else z - j
  {
    ZeroPointBounds(counts, 0);
    ZeroPointBounds(counts, j);
    ZeroPointIsFinal(counts, 0, j);
  }

  lemma VisitIndexInvolutive(counts: seq<nat>, j: nat)
    requires j < |counts|
    ensures 0 <= VisitIndex(counts, j) < |counts| && VisitIndex(counts, VisitIndex(counts, j)) == j
  {
    VisitIndexMeaning(counts, j);
    VisitIndexMeaning(counts, VisitIndex(counts, j));
  }

  /** The pages in the order in which doswap visits them. */
  ghost function VisitOrder(byVisits: seq<nat>, counts: seq<nat>): (order: seq<nat>)
    requires |byVisits| == |counts|
    ensures |order| == |counts|
  {
    seq(|counts|, k requires 0 <= k < |counts| =>
      VisitIndexInvolutive(counts, |counts| - 1 - k);
      byVisits[VisitIndex(counts, |counts| - 1 - k)])
  }

  /** Every page is visited exactly once. */
  lemma VisitOrderIsPermutation(byVisits: seq<nat>, place: seq<nat>, counts: seq<nat>)
    requires Inverse(|counts|, byVisits, place)
    ensures Distinct(VisitOrder(byVisits, counts))
    ensures forall la :: 0 <= la < |counts| <==> la in VisitOrder(byVisits, counts)
  {
    var n, order := |counts|, VisitOrder(byVisits, counts);
    forall j, k | 0 <= j < k < n
      ensures order[j] != order[k]
    {
      VisitIndexInvolutive(counts, n - 1 - j);
      VisitIndexInvolutive(counts, n - 1 - k);
      assert place[order[j]] == VisitIndex(counts, n - 1 - j);
    }
    forall la | 0 <= la < n
      ensures la in order
    {
      var j := place[la];
      VisitIndexInvolutive(counts, j);
      var k := n - 1 - VisitIndex(counts, j);
      assert order[k] == la;
    }
    forall la | la in order
      ensures 0 <= la < n
    {
      var k :| 0 <= k < n && order[k] == la;
      VisitIndexInvolutive(counts, n - 1 - k);
    }
  }

  /** The visit counts in sorted order. */
  function Counts(visits: seq<nat>, byVisits: seq<nat>): (counts: seq<nat>)
    requires forall j :: 0 <= j < |byVisits| ==> byVisits[j] < |visits|
    ensures |counts| == |byVisits|
  {
    seq(|byVisits|, j requires 0 <= j < |byVisits| => visits[byVisits[j]])
  }

  ghost predicate Ascending(counts: seq<nat>) {
    forall i, j :: 0 <= i <= j < |counts| ==> counts[i] <= counts[j]
  }

  lemma {:induction false} ZeroPointIsZero(counts: seq<nat>, j: nat)
    ensures ZeroPoint(counts, j) > 0 ==> ZeroPoint(counts, j) < |counts| && counts[ZeroPoint(counts, j)] == 0
    decreases |counts| - j
  {
    if j < |counts| {
      ZeroPointIsZero(counts, j + 1);
    }
  }

  /** In sorted counts the reversal moves only pages without visits: a page with more visits than another comes
      before it, on a higher index. */
  lemma ReversalKeepsVisited(counts: seq<nat>, i: nat, j: nat)
    requires Ascending(counts) && i < |counts| && j < |counts| && counts[i] > counts[j]
    ensures VisitIndex(counts, i) == i > VisitIndex(counts, j)
  {
    var z := ZeroPoint(counts, 0);
    ZeroPointIsZero(counts, 0);
    VisitIndexMeaning(counts, i);
    VisitIndexMeaning(counts, j);
  }

  /** The rank of a page, by the step that places it. */
  lemma PlacedBy(p: Plan, v: View, rank: seq<nat>, byVisits: seq<nat>, place: seq<nat>, counts: seq<nat>, la: nat)
    requires p.n == |counts| && Inverse(p.n, byVisits, place) && p.descending && la < p.n
    requires Placing(v, p, VisitOrder(byVisits, counts), rank)
    ensures 0 <= VisitIndex(counts, place[la]) < p.n && la < |v.climbla2hot| && la < |v.maplist|
    ensures
      var slot := p.Scramble(VisitIndex(counts, place[la]));
      slot < |v.sortednow| && v.climbla2hot[la] == slot && v.maplist[la] == v.sortednow[slot]
  {
    hide VisitIndex, Plan.Scramble;
    var j := place[la];
    VisitIndexInvolutive(counts, j);
    var k := p.n - 1 - VisitIndex(counts, j);
    assert VisitOrder(byVisits, counts)[k] == la;
    assert PlacedAt(v, p, VisitOrder(byVisits, counts), k);
  }

  /** So a page with more visits than another gets to no lower region. Unless the other's rank may be a scrambled one
      it gets a higher rank, and with it a physical page with at least as much endurance left. */
  lemma MoreVisitedGetsStronger(r: Remap, v: View, life: seq<real>, byVisits: seq<nat>, place: seq<nat>,
                                visits: seq<nat>, a: nat, b: nat)
    requires |visits| == r.plan.n && Inverse(r.plan.n, byVisits, place)
    requires Remapping(r, v, life, VisitOrder(byVisits, Counts(visits, byVisits)))
    requires r.plan.descending && Ascending(Counts(visits, byVisits))
    requires a < r.plan.n && b < r.plan.n && visits[a] > visits[b]
    ensures |v.climbla2hot| == |v.maplist| == r.plan.n
    ensures ShiftRight(v.climbla2hot[a], r.plan.shift) >= ShiftRight(v.climbla2hot[b], r.plan.shift)
    ensures !r.plan.randomEnable || v.climbla2hot[b] >= r.plan.n / 2 ==>
              && v.climbla2hot[a] > v.climbla2hot[b]
              && (WeakestFirst(v.sortednow, r.life0) ==>
                    && v.maplist[a] < |r.life0| && v.maplist[b] < |r.life0|
                    && r.life0[v.maplist[a]] >= r.life0[v.maplist[b]])
  {
    hide VisitOrder, VisitIndex, PlacedAt, Ascending, ShiftRight, Charged;
    var counts := Counts(visits, byVisits);
    var i, j := VisitIndex(counts, place[a]), VisitIndex(counts, place[b]);
    ReversalKeepsVisited(counts, place[a], place[b]);
    PlacedBy(r.plan, v, r.rank, byVisits, place, counts, a);
    PlacedBy(r.plan, v, r.rank, byVisits, place, counts, b);
    ScrambleKeepsRegion(r.plan, i);
    ScrambleKeepsRegion(r.plan, j);
    ShiftRightMonotone(j, i, r.plan.shift);
    if !r.plan.randomEnable || v.climbla2hot[b] >= r.plan.n / 2 {
      ScrambleKeepsOrder(r.plan, i, j);
    }
  }

  lemma ShiftRightMonotone(x: nat, y: nat, shift: nat)
    requires x <= y
    ensures ShiftRight(x, shift) <= ShiftRight(y, shift)
  {
    QuotientMonotone(x, y, Pow2(shift));
  }

  /** A page with more visits than another is in no lower region, and unless the other's rank is one of the weaker half
      and may be scrambled, on a higher rank. */
  ghost predicate VisitedHigher(visits: seq<nat>, v: View, shift: nat, randomized: bool) {
    && |v.climbla2hot| == |visits|
    && forall a, b :: 0 <= a < |visits| && 0 <= b < |visits| && visits[a] > visits[b] ==>
                        && ShiftRight(v.climbla2hot[a], shift) >= ShiftRight(v.climbla2hot[b], shift)
                        && (!randomized || v.climbla2hot[b] >= |visits| / 2 ==> v.climbla2hot[a] > v.climbla2hot[b])
  }

  /** And then it is on a physical page with at least as much endurance left. */
  ghost predicate VisitedStronger(visits: seq<nat>, v: View, life: seq<real>, randomized: bool) {
    && |v.climbla2hot| == |v.maplist| == |visits| && (forall a :: 0 <= a < |visits| ==> v.maplist[a] < |life|)
    && forall a, b :: 0 <= a < |visits| && 0 <= b < |visits| && visits[a] > visits[b]
                      && (!randomized || v.climbla2hot[b] >= |visits| / 2) ==>
                        life[v.maplist[a]] >= life[v.maplist[b]]
  }

  /** What a remap from the top achieves, begun with these visit counts and endurance life0; byVisits and
      lifeOrder are the orders in which the pages were sorted. */
  ghost predicate ByVisits(visits: seq<nat>, byVisits: seq<nat>, v: View, life0: seq<real>, lifeOrder: seq<nat>,
                           shift: nat, randomized: bool)
    requires forall j :: 0 <= j < |byVisits| ==> byVisits[j] < |visits|
  {
    Ascending(Counts(visits, byVisits)) ==>
      && VisitedHigher(visits, v, shift, randomized)
      && (WeakestFirst(lifeOrder, life0) ==> VisitedStronger(visits, v, life0, randomized))
  }

  lemma RemapByVisits(r: Remap, v: View, life: seq<real>, byVisits: seq<nat>, place: seq<nat>, visits: seq<nat>)
    requires |visits| == r.plan.n == |r.life0| && Inverse(r.plan.n, byVisits, place) && r.plan.descending
    requires Remapping(r, v, life, VisitOrder(byVisits, Counts(visits, byVisits)))
    ensures ByVisits(visits, byVisits, v, r.life0, v.sortednow, r.plan.shift, r.plan.randomEnable)
  {
    hide VisitOrder, Counts, Ascending, Remapping, ShiftRight, WeakestFirst;
    RemappingShape(r, v, life, VisitOrder(byVisits, Counts(visits, byVisits)));
    if Ascending(Counts(visits, byVisits)) {
      forall a, b | 0 <= a < |visits| && 0 <= b < |visits| && visits[a] > visits[b]
        ensures ShiftRight(v.climbla2hot[a], r.plan.shift) >= ShiftRight(v.climbla2hot[b], r.plan.shift)
        ensures !r.plan.randomEnable || v.climbla2hot[b] >= r.plan.n / 2 ==>
                  && v.climbla2hot[a] > v.climbla2hot[b]
                  && (WeakestFirst(v.sortednow, r.life0) ==> r.life0[v.maplist[a]] >= r.life0[v.maplist[b]])
      {
        MoreVisitedGetsStronger(r, v, life, byVisits, place, visits, a, b);
      }
    }
  }

  // ---------------------------------------------------------------------------------------------
  // The wear-levelling object
  // ---------------------------------------------------------------------------------------------

  /** The page that the k-th step places has not been placed before. */
  lemma VisitNext(n: nat, byVisits: seq<nat>, place: seq<nat>, counts: seq<nat>, k: nat)
    requires k < n == |byVisits| == |counts| && Inverse(n, byVisits, place)
    ensures 0 <= VisitIndex(counts, n - 1 - k) < n
    ensures
      var la, order := byVisits[VisitIndex(counts, n - 1 - k)], VisitOrder(byVisits, counts);
      la < n && la !in order[..k] && order[..k + 1] == order[..k] + [la]
  {
    VisitIndexInvolutive(counts, n - 1 - k);
    VisitOrderIsPermutation(byVisits, place, counts);
    var order := VisitOrder(byVisits, counts);
    assert order[k] == byVisits[VisitIndex(counts, n - 1 - k)];
  }

  lemma RemapEnds(r: Remap, v: View, life: seq<real>, byVisits: seq<nat>, place: seq<nat>, counts: seq<nat>)
    requires |byVisits| == |counts| == r.plan.n && Inverse(r.plan.n, byVisits, place)
    requires Remapping(r, v, life, VisitOrder(byVisits, counts)[..r.plan.n])
    ensures MapOk(v, r.plan.n) && Remapping(r, v, life, VisitOrder(byVisits, counts))
  {
    var order := VisitOrder(byVisits, counts);
    VisitOrderIsPermutation(byVisits, place, counts);
    assert order[..r.plan.n] == order;
    PlaceDone(v, r.plan, order, r.rank);
  }

  /** The counters of the pages in `order` have been aged to three quarters. */
  ghost predicate Aged(was: seq<nat>, now: seq<nat>, order: seq<nat>) {
    |now| == |was| && forall la :: 0 <= la < |was| ==> now[la] == if la in order then was[la] * 3 / 4 else was[la]
  }

  /** la has tried to climb, with these visit counts: of la and the page drawn for it, the one with more visits is now
      on the physical page that had the larger share of its endurance left. */
  ghost predicate Tried(v: View, life: seq<real>, life0: seq<real>, m: seq<nat>, counts: seq<nat>, shift: nat,
                        point: nat, la: nat)
    requires MapOk(v, |life|) && la < |life| == |counts|
  {
    exists target: nat ::
      target < |life| && Drawn(v, |life|, shift, point, la, target) && TriedWith(v, life, life0, m, counts, la, target)
  }

  ghost predicate TriedWith(v: View, life: seq<real>, life0: seq<real>, m: seq<nat>, counts: seq<nat>, la: nat,
                            target: nat)
    requires MapOk(v, |life|) && la < |life| == |counts| && target < |life|
  {
    var other := v.reverselist[target];
    BusierFresher(m, life, life0, la, other, counts[la], counts[other], false)
  }

  lemma AgedNone(counts: seq<nat>)
    ensures Aged(counts, counts, [])
  {
  }

  class Climber {
    const pages: PageMap
    const visitcount: array<nat>
    const climberlocthre: seq<nat>  // writes between two climbing attempts, by physical page
    const climberenable: nat
    const randomenable: bool
    var totalcount: nat
    var remaptimes: nat

    ghost predicate Separate() {
      && pages.Separate() && visitcount.Length == pages.n == |climberlocthre|
      && visitcount != pages.maplist && visitcount != pages.reverselist
      && visitcount != pages.sortednow && visitcount != pages.climbla2hot
      && pages.climbershift > 0 && forall i :: 0 <= i < pages.n ==> climberlocthre[i] > 0
    }

    ghost predicate Valid()
      reads this, pages, pages.maplist, pages.reverselist, pages.sortednow, pages.climbla2hot
    {
      Separate() && pages.Valid()
    }

    constructor (pages: PageMap, climberlocthre: seq<nat>, climberenable: nat, randomenable: bool)
      requires pages.Valid() && pages.climbershift > 0
      requires |climberlocthre| == pages.n && forall i :: 0 <= i < pages.n ==> climberlocthre[i] > 0
      ensures Valid() && this.pages == pages && fresh(visitcount) && totalcount == 0
    {
      this.pages, this.climberlocthre := pages, climberlocthre;
      this.climberenable, this.randomenable := climberenable, randomenable;
      visitcount := new nat[pages.n](i => 0);
      totalcount, remaptimes := 0, 0;
    }

    /** It is time for la to try. */
    predicate Due(la: nat, counterv: nat)
      reads pages.maplist
      requires Separate() && la < pages.n && pages.maplist[la] < pages.n
    {
      counterv % climberlocthre[pages.maplist[la]] == 0 && climberenable >= 1
    }

    /** climber: every so many writes a page tries to trade places with one of a higher rank. */
    method TryClimb(la: nat, counterv: nat) returns (r: int, ghost target: nat)
      requires Valid() && la < pages.n
      modifies pages.maplist, pages.reverselist, pages.climbla2hot, pages.life
      ensures Valid()
      ensures !old(Due(la, counterv)) ==>
                r == 0 && pages.Read() == old(pages.Read()) && pages.life[..] == old(pages.life[..])
      ensures old(Due(la, counterv)) ==>
                && target < pages.n
                && Drawn(old(pages.Read()), pages.n, pages.climbershift, pages.climberpoint, la, target)
                && Climbed(old(pages.Read()), old(pages.life[..]), pages.life0, pages.Read(), pages.life[..], la,
                           target, counterv, visitcount[old(pages.reverselist[target])], r)
                && var tarla := old(pages.reverselist[target]);
                r != -1 ==>
                  BusierFresher(pages.maplist[..], old(pages.life[..]), pages.life0, la, tarla, counterv,
                                visitcount[tarla], r == 1)
    {
      r, target := 0, 0;
      if Due(la, counterv) {
        var targetaddr := pages.Target(la);
        var tarla := pages.reverselist[targetaddr];
        target := targetaddr;
        r := pages.Climb(la, targetaddr, counterv, visitcount[tarla]);
      }
    }

    /** halfclear ages every counter to three quarters. */
    method HalfClear()
      requires Separate()
      modifies visitcount
      ensures forall i :: 0 <= i < visitcount.Length ==> visitcount[i] == old(visitcount[i]) * 3 / 4
    {
      for i := 0 to pages.n
        invariant forall k :: 0 <= k < i ==> visitcount[k] == old(visitcount[k]) * 3 / 4
        invariant forall k :: i <= k < pages.n ==> visitcount[k] == old(visitcount[k])
      {
        visitcount[i] := visitcount[i] * 3 / 4;
      }
    }

    /** doswap: remaps the whole memory. lifeOrder and byVisits are the orders in which std::sort leaves the
        pages by endurance left and by visits; any permutations will do. */
    method DoSwap(la: nat, isswap: nat, lifeOrder: seq<nat>, byVisits: seq<nat>, ghost rank: seq<nat>,
                  ghost place: seq<nat>)
      returns (r: int, ghost remap: Remap)
      requires Valid() && la < pages.n && Inverse(pages.n, lifeOrder, rank) && Inverse(pages.n, byVisits, place)
      modifies this`remaptimes, visitcount, pages, pages.maplist, pages.reverselist, pages.sortednow,
               pages.climbla2hot, pages.life
      ensures Separate() && (r == 1 || r == 0 || r == -1)
      ensures r != -1 ==> Valid()
      ensures r == 0 <==> isswap == 0
      ensures r == 0 ==> pages.Read() == old(pages.Read()) && pages.life[..] == old(pages.life[..])
      ensures remap.m0 == old(pages.maplist[..]) && remap.life0 == old(pages.life[..])
              && remap.addr == remap.m0[la] && !remap.addrPays
      ensures remap.plan.descending == (isswap == 1) && remap.plan.randomEnable == randomenable
              && remap.plan.shift == pages.climbershift
      ensures r == 1 && isswap == 1 ==>
                ByVisits(old(visitcount[..]), byVisits, pages.Read(), old(pages.life[..]), lifeOrder,
                         pages.climbershift, randomenable)
      ensures r == 1 ==>
                && pages.sortednow[..] == lifeOrder && remap.plan.n == pages.n && remaptimes == old(remaptimes) + 1 &&
                   var order := VisitOrder(byVisits, Counts(old(visitcount[..]), byVisits));
                   && Remapping(remap, pages.Read(), pages.life[..], order)
                   && Aged(old(visitcount[..]), visitcount[..], order)
      ensures r == 1 ==>
                CostsMoves(old(pages.maplist[..]), old(pages.life[..]), pages.maplist[..], pages.life[..],
                           old(pages.maplist[la]), false)
    {
      hide CostsMoves, Remapping, VisitOrder, PointOk, MapOk, Aged, ByVisits;
      var key := 0;
      if randomenable && isswap != 0 {
        key := GetRandom(0, Pow2(pages.climbershift) - 2);
      }
      var p := Plan(pages.n, isswap == 1, randomenable, key, pages.climbershift);
      remap := Remap(p, rank, pages.maplist[..], pages.reverselist[..], pages.life[..], pages.maplist[la], false);
      pages.StepPoint();
      if isswap == 0 {
        return 0, remap;
      }
      RemapStarts(remap, pages.Read(), lifeOrder, pages.life[..]);
      ghost var visits := visitcount[..];
      var counts := Counts(visitcount[..], byVisits);
      pages.Resort(lifeOrder);
      var ok := PlaceAll(p, remap, pages.maplist[la], byVisits, counts, place);
      if !ok {
        return -1, remap;
      }
      remaptimes := remaptimes + 1;
      VisitOrderIsPermutation(byVisits, place, counts);
      RemapCosts(remap, pages.Read(), pages.life[..], VisitOrder(byVisits, counts));
      if isswap == 1 {
        RemapByVisits(remap, pages.Read(), pages.life[..], byVisits, place, visits);
      }
      return 1, remap;
    }

    /** The body of that loop for the page la: charge the move, place la, age its counter. */
    method PlaceOne(ghost r: Remap, ghost order: seq<nat>, ghost was: seq<nat>, addr: nat, la: nat,
                    slot: nat) returns (ok: bool)
      requires Separate() && r.plan.n == pages.n && addr == r.addr && !r.addrPays
      requires Remapping(r, pages.Read(), pages.life[..], order) && Aged(was, visitcount[..], order)
      requires la < pages.n && la !in order && |order| < pages.n && slot == r.plan.Slot(|order|)
      modifies visitcount, pages.maplist, pages.reverselist, pages.climbla2hot, pages.life
      ensures ok ==> Remapping(r, pages.Read(), pages.life[..], order + [la]) && Aged(was, visitcount[..], order + [la])
      ensures !ok ==> exists a :: 0 <= a < pages.n && pages.life[a] < 0.0
    {
      hide Remapping;
      RemapRoom(r, pages.Read(), pages.life[..], order, la);
      var charge := pages.maplist[la] != pages.sortednow[slot] && pages.maplist[la] != addr;
      ok := pages.PlaceNext(r, order, la, slot, charge);
      if ok {
        visitcount[la] := visitcount[la] * 3 / 4;
      }
    }

    /** The loop of doswap over all ranks. */
    method PlaceAll(p: Plan, ghost r: Remap, addr: nat, byVisits: seq<nat>, counts: seq<nat>,
                    ghost place: seq<nat>) returns (ok: bool)
      requires Separate() && p == r.plan && addr == r.addr && !r.addrPays
      requires p.n == pages.n == |counts| && Inverse(p.n, byVisits, place)
               && Remapping(r, pages.Read(), pages.life[..], [])
      modifies visitcount, pages.maplist, pages.reverselist, pages.climbla2hot, pages.life
      ensures ok ==> MapOk(pages.Read(), p.n)
      ensures ok ==> Remapping(r, pages.Read(), pages.life[..], VisitOrder(byVisits, counts))
      ensures ok ==> Aged(old(visitcount[..]), visitcount[..], VisitOrder(byVisits, counts))
      ensures !ok ==> exists a :: 0 <= a < p.n && pages.life[a] < 0.0
    {
      hide Remapping, VisitOrder, VisitIndex, ZeroPoint, MapOk, Aged, Plan.Slot;
      ghost var order, was := VisitOrder(byVisits, counts), visitcount[..];
      AgedNone(was);
      var zeropoint := 0;
      ZeroPointNone(counts);
      assert order[..0] == [];
      for i := 0 to p.n
        invariant Remapping(r, pages.Read(), pages.life[..], order[..i])
        invariant Aged(was, visitcount[..], order[..i])
        invariant zeropoint == ZeroPoint(counts, p.n - i)
      {
        var j := p.n - 1 - i;
        if counts[j] == 0 && zeropoint < j {
          zeropoint := j;
        }
        ZeroPointStep(counts, j);
        VisitNext(p.n, byVisits, place, counts, i);
        var vindex := if j > zeropoint then j else zeropoint - j;
        var la, slot := byVisits[vindex], p.Slot(i);
        ok := PlaceOne(r, order[..i], was, addr, la, slot);
        if !ok {
          return;
        }
      }
      assert order[..p.n] == order;
      RemapEnds(r, pages.Read(), pages.life[..], byVisits, place, counts);
      ok := true;
    }

    /** Counts and performs one write: climb if it is time to, then wear the page that la ends up on. */
    method Write(la: nat) returns (r: int)
      requires Valid() && la < pages.n
      modifies visitcount, pages.maplist, pages.reverselist, pages.climbla2hot, pages.life
      ensures r == 0 || r == -1
      ensures Valid() && pages.sortednow[..] == old(pages.sortednow[..])
      ensures visitcount[..] == old(visitcount[..])[la := old(visitcount[la]) + 1]
      ensures r == 0 ==> Wrote(old(pages.Read()), old(pages.life[..]), pages.Read(), pages.life[..], la)
      ensures r == 0 && old(Due(la, visitcount[la] + 1)) ==>
                Tried(old(pages.Read()), old(pages.life[..]), pages.life0, pages.maplist[..], visitcount[..],
                      pages.climbershift, pages.climberpoint, la)
    {
      hide Climbed, Wrote, Drawn, BusierFresher;
      ghost var v, life := pages.Read(), pages.life[..];
      visitcount[la] := visitcount[la] + 1;
      ghost var due := Due(la, visitcount[la]);
      ghost var target;
      var climbed;
      climbed, target := TryClimb(la, visitcount[la]);
      if climbed == -1 {
        return -1;
      }
      if due {
        WriteAfterClimb(v, life, pages.life0, pages.Read(), pages.life[..], la, target, visitcount[la],
                        visitcount[v.reverselist[target]], climbed);
        NotWorse(pages.maplist[..], life, pages.life0, la, v.reverselist[target], visitcount[la],
                 visitcount[v.reverselist[target]], climbed == 1);
        assert TriedWith(v, life, pages.life0, pages.maplist[..], visitcount[..], la, target);
      } else {
        WriteWithoutClimb(v, life, la);
      }
      var addr := pages.maplist[la];
      pages.life[addr] := pages.life[addr] - 1.0;
      return if pages.life[addr] < 0.0 then -1 else 0;
    }

    /** One access. The result is 1 if it remapped the memory, -1 if a page wore out. The ghost results are the
        mapping and the endurance after the write, the remap, and the counters it started from. */
    method Access(la: nat, lifeOrder: seq<nat>, byVisits: seq<nat>, ghost rank: seq<nat>, ghost place: seq<nat>)
      returns (r: int, ghost mid: View, ghost midLife: seq<real>, ghost remap: Remap)
      requires Valid() && la < pages.n && Inverse(pages.n, lifeOrder, rank) && Inverse(pages.n, byVisits, place)
      modifies this, visitcount, pages, pages.maplist, pages.reverselist, pages.sortednow, pages.climbla2hot, pages.life
      ensures r == 1 || r == 0 || r == -1
      ensures r != -1 ==>
                && Valid() && Wrote(old(pages.Read()), old(pages.life[..]), mid, midLife, la)
                && totalcount == (if old(totalcount) + 1 == CYCLE_THRESHOLD then 0 else old(totalcount) + 1)
                && (r == 1 <==> totalcount == REMAP_THRESHOLD && climberenable == 1)
      ensures r != -1 && old(Due(la, visitcount[la] + 1)) ==>
                Tried(old(pages.Read()), old(pages.life[..]), pages.life0, mid.maplist,
                      old(visitcount[..])[la := old(visitcount[la]) + 1], pages.climbershift,
                      old(pages.climberpoint), la)
      ensures r == 0 ==> pages.Read() == mid && pages.life[..] == midLife
      ensures r == 0 ==>
                var counts := old(visitcount[..])[la := old(visitcount[la]) + 1];
                forall i :: 0 <= i < pages.n ==>
                              visitcount[i] == if totalcount == REMAP_THRESHOLD then counts[i] * 3 / 4 else counts[i]
      ensures r == 1 ==>
                var counts := old(visitcount[..])[la := old(visitcount[la]) + 1];
                && pages.sortednow[..] == lifeOrder && remap.plan.n == pages.n && remap.plan.descending
                && remap.plan.randomEnable == randomenable && remap.plan.shift == pages.climbershift
                && ByVisits(counts, byVisits, pages.Read(), midLife, lifeOrder, pages.climbershift, randomenable)
                && remap.m0 == mid.maplist && remap.life0 == midLife
                && la < |mid.maplist|
                && CostsMoves(mid.maplist, midLife, pages.maplist[..], pages.life[..], mid.maplist[la], false)
                && Remapping(remap, pages.Read(), pages.life[..], VisitOrder(byVisits, Counts(counts, byVisits)))
                && Aged(counts, visitcount[..], VisitOrder(byVisits, Counts(counts, byVisits)))
    {
      hide MapOk, PointOk, Wrote, Tried, CostsMoves, Remapping, Aged, VisitOrder, Counts, ByVisits;
      remap := Remap(Plan(0, false, false, 0, 0), [], [], [], [], 0, false);
      r := Write(la);
      mid, midLife := pages.Read(), pages.life[..];
      if r == -1 {
        return;
      }
      totalcount := totalcount + 1;
      if totalcount == CYCLE_THRESHOLD {
        totalcount := 0;
      }
      if totalcount == REMAP_THRESHOLD && climberenable == 1 {
        r, remap := DoSwap(la, 1, lifeOrder, byVisits, rank, place);
      } else if totalcount == REMAP_THRESHOLD {
        pages.StepPoint();
        HalfClear();
      }
    }
  }
}
