/** The page mapping that bwlmm_climber.cpp and hcmm_climber.cpp keep: four arrays that must agree through
    single climbs (exchanging two pages) and whole-memory remaps (placing every page anew). */
module PageMaps {
  import opened Bits
  import opened Counting

  /** maplist: logical to physical page; reverselist: its inverse; sortednow: physical pages by the endurance
      they had left at the last sort; climbla2hot: each logical page's index in sortednow. */
  datatype View = View(maplist: seq<nat>, reverselist: seq<nat>, sortednow: seq<nat>, climbla2hot: seq<nat>)

  ghost predicate MapOk(v: View, n: nat) {
    && Inverse(n, v.maplist, v.reverselist)
    && |v.sortednow| == |v.climbla2hot| == n
    && (forall i :: 0 <= i < n ==> v.sortednow[i] < n)
    && (forall la :: 0 <= la < n ==> v.climbla2hot[la] < n && v.sortednow[v.climbla2hot[la]] == v.maplist[la])
  }

  // ---------------------------------------------------------------------------------------------
  // Climbing
  // ---------------------------------------------------------------------------------------------

  /** A climb: logical page la takes over physical page target, whose page moves to la's old one. */
  ghost function Exchange(v: View, la: nat, target: nat): View
    requires la < |v.maplist| == |v.reverselist| == |v.climbla2hot| && target < |v.reverselist|
    requires v.reverselist[target] < |v.maplist| && v.maplist[la] < |v.reverselist|
  {
    var addr, tarla := v.maplist[la], v.reverselist[target];
    View(v.maplist[la := target][tarla := addr],
         v.reverselist[target := la][addr := tarla],
         v.sortednow,
         v.climbla2hot[la := v.climbla2hot[tarla]][tarla := v.climbla2hot[la]])
  }

  /** A climb keeps all four arrays in agreement, and moves nothing but the two pages. */
  lemma ExchangeKeeps(v: View, n: nat, la: nat, target: nat)
    requires MapOk(v, n) && la < n && target < n
    ensures MapOk(Exchange(v, la, target), n)
    ensures Exchange(v, la, target).maplist[la] == target
    ensures forall x :: 0 <= x < n && x != la && x != v.reverselist[target] ==>
                          Exchange(v, la, target).maplist[x] == v.maplist[x]
  {
  }

  /** Climbing back is the inverse of climbing. */
  lemma ExchangeUndone(v: View, n: nat, la: nat, target: nat)
    requires MapOk(v, n) && la < n && target < n
    ensures MapOk(Exchange(v, la, target), n) && Exchange(Exchange(v, la, target), la, v.maplist[la]) == v
  {
    ExchangeKeeps(v, n, la, target);
    var w := Exchange(Exchange(v, la, target), la, v.maplist[la]);
    assert w.maplist == v.maplist && w.reverselist == v.reverselist && w.climbla2hot == v.climbla2hot;
  }

  /** The regions of 2^shift ranks each; the climbing point is the region that pages climb to at most. */
  ghost predicate PointOk(n: nat, shift: nat, point: nat) {
    n >= 2 * Pow2(shift) && (n / 2) / Pow2(shift) <= point <= (n - 1) / Pow2(shift)
  }

  /** The end of the climbing point's region. */
  function MaxUp(n: nat, shift: nat, point: nat): nat
    requires n > 0
  {
    if point == (n - 1) / Pow2(shift) then n else (point + 1) * Pow2(shift)
  }

  /** The numbers getrandom may return when a page of the given rank climbs: the first chooses the region,
      the second the place within it (in the climbing point's own region, a distance to move by). */
  predicate RandomOk(n: nat, shift: nat, point: nat, rank: nat, region: nat, place: nat)
    requires n > 0
  {
    var size, area := Pow2(shift), rank / Pow2(shift);
    if area == point then region == point && 1 <= place <= size - 1
    else
      && (if area > point then region == point else area + 1 <= region <= point)
      && place < (if region == point then MaxUp(n, shift, point) - region * size else size)
  }

  /** The rank that a page of the given rank climbs to. */
  function ClimbRank(n: nat, shift: nat, point: nat, rank: nat, region: nat, place: nat): int
    requires n > 0
  {
    var size := Pow2(shift);
    if rank / size == point then (rank + place) % size + (MaxUp(n, shift, point) - size)
    else region * size + place
  }

  lemma RegionBound(n: nat, size: nat, point: nat)
    requires n > 0 && size > 0 && point <= (n - 1) / size
    ensures point * size < n
    ensures point < (n - 1) / size ==> (point + 1) * size < n
  {
    var top := (n - 1) / size;
    assert top * size <= n - 1;
    if point < top {
      MulStep(point, top, size);
      assert (point + 1) * size == point * size + size;
    }
  }

  lemma PlaceInRegion(n: nat, size: nat, point: nat, region: nat, place: nat)
    requires n > 0 && size > 0 && region <= point <= (n - 1) / size
    requires
      var end := if point == (n - 1) / size then n else (point + 1) * size;
      place < if region == point then end - region * size else size
    ensures place < size && region * size + place < n && (region * size + place) / size == region
  {
    RegionBound(n, size, point);
    assert (point + 1) * size == point * size + size;
    if region < point {
      MulStep(region, point, size);
    } else if point == (n - 1) / size {
      assert n - 1 == point * size + (n - 1) % size;
    }
    QuotientIs(region * size + place, size, region, place);
  }

  /** Every climb stays within the memory; a page below the climbing point moves to a strictly higher region,
      never beyond the climbing point. */
  lemma ClimbRankInRange(n: nat, shift: nat, point: nat, rank: nat, region: nat, place: nat)
    requires PointOk(n, shift, point) && rank < n && RandomOk(n, shift, point, rank, region, place)
    ensures 0 <= ClimbRank(n, shift, point, rank, region, place) < n
    ensures
      var area, to := rank / Pow2(shift), ClimbRank(n, shift, point, rank, region, place) / Pow2(shift);
      area != point ==> to == region && (area < point ==> area < to <= point)
  {
    hide PointOk, Pow2, MaxUp;
    var size, end := Pow2(shift), MaxUp(n, shift, point);
    if rank / size == point {
      MaxUpBound(n, shift, point);
      RemainderBelow(rank + place, size);
    } else {
      PlaceInPoint(n, shift, point, region, place);
    }
  }

  lemma RemainderBelow(a: nat, m: nat)
    requires m > 0
    ensures 0 <= a % m < m
  {
  }

  lemma MaxUpBound(n: nat, shift: nat, point: nat)
    requires PointOk(n, shift, point)
    ensures point * Pow2(shift) < MaxUp(n, shift, point) <= n && Pow2(shift) <= MaxUp(n, shift, point)
  {
    hide Pow2;
    var size := Pow2(shift);
    RegionBound(n, size, point);
    MulNext(point, size);
  }

  lemma PlaceInPoint(n: nat, shift: nat, point: nat, region: nat, place: nat)
    requires PointOk(n, shift, point) && region <= point
    requires place < if region == point then MaxUp(n, shift, point) - region * Pow2(shift) else Pow2(shift)
    ensures place < Pow2(shift) && region * Pow2(shift) + place < n
    ensures (region * Pow2(shift) + place) / Pow2(shift) == region
  {
    hide Pow2;
    PlaceInRegion(n, Pow2(shift), point, region, place);
  }

  /** A rank that a page of the given rank may climb to: any above its own region up to the end of the climbing
      point's; from the climbing point's region or beyond, any in that region, but from within it not the one at the
      same place as its own. */
  predicate Reachable(n: nat, shift: nat, point: nat, rank: nat, to: nat)
    requires n > 0
  {
    var size, end := Pow2(shift), MaxUp(n, shift, point);
    && to < end
    && if rank / size == point then to + size >= end && to + size - end != rank % size
       else if rank / size > point then to >= point * size
       else to >= (rank / size + 1) * size
  }

  /** The random draws reach exactly the ranks that may be climbed to. */
  lemma ClimbRankReachable(n: nat, shift: nat, point: nat, rank: nat, region: nat, place: nat)
    requires PointOk(n, shift, point) && rank < n && RandomOk(n, shift, point, rank, region, place)
    ensures 0 <= ClimbRank(n, shift, point, rank, region, place)
    ensures Reachable(n, shift, point, rank, ClimbRank(n, shift, point, rank, region, place))
  {
    hide PointOk, Pow2, MaxUp;
    MaxUpBound(n, shift, point);
    if rank / Pow2(shift) == point {
      PlaceMoves(rank, place, Pow2(shift));
    } else {
      TargetOfRegion(point, rank / Pow2(shift), region, place, Pow2(shift), MaxUp(n, shift, point));
    }
  }

  lemma PlaceMoves(rank: nat, place: nat, size: nat)
    requires 1 <= place < size
    ensures 0 <= (rank + place) % size < size && (rank + place) % size != rank % size
  {
    hide *;
    ShiftedRemainder(rank, place, size);
  }

  lemma TargetOfRegion(point: nat, area: nat, region: nat, place: nat, size: nat, end: nat)
    requires size > 0 && point * size < end && area != point
    requires if area > point then region == point else area + 1 <= region <= point
    requires place < if region == point then end - region * size else size
    ensures region * size + place < end
    ensures region * size + place >= if area > point then point * size else (area + 1) * size
  {
    if region < point {
      MulStep(region, point, size);
    }
    if area < point && area + 1 < region {
      MulStep(area + 1, region, size);
    }
  }

  lemma ReachableIsDrawn(n: nat, shift: nat, point: nat, rank: nat, to: nat) returns (region: nat, place: nat)
    requires PointOk(n, shift, point) && rank < n && Reachable(n, shift, point, rank, to)
    ensures RandomOk(n, shift, point, rank, region, place)
    ensures ClimbRank(n, shift, point, rank, region, place) == to
  {
    hide PointOk, Pow2;
    var size, end := Pow2(shift), MaxUp(n, shift, point);
    if rank / size == point {
      region := point;
      place := DistanceTo(rank, to + size - end, size);
    } else {
      region, place := to / size, to % size;
      PointInRange(n, shift, point);
      RegionOfTarget(n, size, point, rank / size, to);
    }
  }

  lemma PointInRange(n: nat, shift: nat, point: nat)
    requires PointOk(n, shift, point)
    ensures n > 0 && point <= (n - 1) / Pow2(shift)
  {
  }

  /** How far the page at rank has to move within its region to get to the given place in it. */
  lemma DistanceTo(rank: nat, wanted: nat, size: nat) returns (place: nat)
    requires wanted < size && wanted != rank % size
    ensures 1 <= place < size && (rank + place) % size == wanted
  {
    var x := rank % size;
    place := if wanted > x then wanted - x else wanted - x + size;
    ShiftedRemainder(rank, place, size);
  }

  lemma RegionOfTarget(n: nat, size: nat, point: nat, area: nat, to: nat)
    requires n > 0 && size > 0 && point <= (n - 1) / size && area != point
    requires to < if point == (n - 1) / size then n else (point + 1) * size
    requires to >= if area > point then point * size else (area + 1) * size
    ensures if area > point then to / size == point else area + 1 <= to / size <= point
    ensures to == to / size * size + to % size && to % size < size
  {
    hide *;
    BlockBelow(n - 1, size, point + 1);
    BlockBelow(to, size, point + 1);
    BlockBelow(to, size, area + 1);
    BlockBelow(to, size, point);
    DivMod(to, size);
  }

  lemma DivMod(a: nat, m: nat)
    requires m > 0
    ensures a == a / m * m + a % m && a % m < m
  {
  }

  /** Within the climbing point's region a page always moves to another rank, if the memory is made of whole regions. */
  lemma ClimbWithinPointMoves(n: nat, shift: nat, point: nat, rank: nat, place: nat)
    requires PointOk(n, shift, point) && rank < n && rank / Pow2(shift) == point && n % Pow2(shift) == 0
    requires RandomOk(n, shift, point, rank, point, place)
    ensures ClimbRank(n, shift, point, rank, point, place) != rank
    ensures ClimbRank(n, shift, point, rank, point, place) / Pow2(shift) == point
  {
    var size := Pow2(shift);
    if point == (n - 1) / size {
      LastRegionIsWhole(n, size, point);
    }
    MulNext(point, size);
    RotatedWithinRegion(size, point, rank, place);
  }

  lemma RotatedWithinRegion(size: nat, point: nat, rank: nat, place: nat)
    requires 1 <= place < size && rank / size == point
    ensures
      var to := (rank + place) % size + point * size;
      to != rank && to / size == point
  {
    var y := (rank + place) % size;
    ShiftedRemainder(rank, place, size);
    assert rank == point * size + rank % size;
    QuotientIs(point * size + y, size, point, y);
  }

  lemma LastRegionIsWhole(n: nat, size: nat, point: nat)
    requires n > 0 && size > 0 && n % size == 0 && point == (n - 1) / size
    ensures n == point * size + size
  {
    var q := n / size;
    assert n == q * size;
    assert q > 0;
    assert n - 1 == (q - 1) * size + (size - 1);
    QuotientIs(n - 1, size, q - 1, size - 1);
  }

  // ---------------------------------------------------------------------------------------------
  // Remapping the whole memory
  // ---------------------------------------------------------------------------------------------

  /** How doswap numbers the ranks: the k-th page visited gets the k-th rank from the top (or from the bottom),
      and with randomization the ranks of the weaker half are scrambled within blocks of 2^shift. */
  datatype Plan = Plan(n: nat, descending: bool, randomEnable: bool, key: nat, shift: nat) {
    ghost predicate Valid() {
      n > 0 && key < Pow2(shift)
    }

    function Limit(): nat {
      (n / 2) / Pow2(shift) * Pow2(shift)
    }

    function Scramble(i: nat): nat {
      if randomEnable && i < Limit() then Xor(i, key) else i
    }

    function Slot(k: nat): nat
      requires k < n
    {
      Scramble(if descending then n - 1 - k else k)
    }

    /** Which visit a rank belongs to. */
    function Visit(i: nat): nat
      requires Scramble(i) < n
    {
      if descending then n - 1 - Scramble(i) else Scramble(i)
    }

    lemma ScrambleInvolutive(i: nat)
      requires Valid() && i < n
      ensures Scramble(i) < n && Scramble(Scramble(i)) == i
    {
      if randomEnable && i < Limit() {
        XorBelowLimit(i, key, shift, (n / 2) / Pow2(shift));
        XorInvolutive(i, key);
        LimitBelow();
      }
    }

    lemma LimitBelow()
      requires n > 0
      ensures Limit() <= n / 2
    {
      assert (n / 2) / Pow2(shift) * Pow2(shift) <= n / 2;
    }

    /** The ranks of the stronger half are not scrambled, and none of the weaker half is scrambled into it. */
    lemma UpperHalfStays(i: nat)
      requires Valid() && i < n
      ensures Scramble(i) >= n / 2 <==> i >= n / 2
      ensures i >= n / 2 ==> Scramble(i) == i
    {
      LimitBelow();
      if i < Limit() {
        XorBelowLimit(i, key, shift, (n / 2) / Pow2(shift));
      }
    }

    /** In the whole blocks of the weaker half every rank is scrambled, unless the key drawn is 0. */
    lemma LowerHalfMoves(i: nat)
      requires Valid() && randomEnable && key > 0 && ShiftRight(i, shift) < ShiftRight(n / 2, shift)
      ensures Scramble(i) != i && i < n / 2
    {
      BlockBelow(i, Pow2(shift), (n / 2) / Pow2(shift));
      LimitBelow();
      if Xor(i, key) == i {
        XorMoves(i, key);
      }
    }

    /** The ranks handed out are a permutation, with or without randomization. */
    lemma SlotIsBijection(k: nat)
      requires Valid() && k < n
      ensures Slot(k) < n && Scramble(Slot(k)) < n && Visit(Slot(k)) == k
      ensures Scramble(k) < n && Slot(Visit(k)) == k
    {
      ScrambleInvolutive(if descending then n - 1 - k else k);
      ScrambleInvolutive(k);
    }
  }

  lemma ScrambleKeepsRegion(p: Plan, i: nat)
    requires p.Valid()
    ensures ShiftRight(p.Scramble(i), p.shift) == ShiftRight(i, p.shift)
  {
    XorStaysInBlock(i, p.key, p.shift);
  }

  /** Where the lower of two ranks is in the stronger half, or nothing is scrambled, their order stays. */
  lemma ScrambleKeepsOrder(p: Plan, i: nat, j: nat)
    requires p.Valid() && j < i < p.n && (!p.randomEnable || p.Scramble(j) >= p.n / 2)
    ensures p.Scramble(i) > p.Scramble(j)
  {
    p.UpperHalfStays(i);
    p.UpperHalfStays(j);
  }

  /** From the top, an earlier visit gets no lower region, and a higher rank unless the later one's rank may be
      scrambled. */
  lemma SlotsKeepOrder(p: Plan, j: nat, k: nat)
    requires p.Valid() && p.descending && j < k < p.n
    ensures ShiftRight(p.Slot(j), p.shift) >= ShiftRight(p.Slot(k), p.shift)
    ensures !p.randomEnable || p.Slot(k) >= p.n / 2 ==> p.Slot(j) > p.Slot(k)
  {
    hide Plan.Scramble, Plan.Limit, Pow2;
    ScrambleKeepsRegion(p, p.n - 1 - j);
    ScrambleKeepsRegion(p, p.n - 1 - k);
    QuotientMonotone(p.n - 1 - k, p.n - 1 - j, Pow2(p.shift));
    if !p.randomEnable || p.Slot(k) >= p.n / 2 {
      ScrambleKeepsOrder(p, p.n - 1 - j, p.n - 1 - k);
    }
  }

  lemma QuotientMonotone(x: nat, y: nat, m: nat)
    requires x <= y && m > 0
    ensures Quotient(x, m) <= Quotient(y, m)
  {
    BlockBelow(x, m, y / m + 1);
    BlockBelow(y, m, y / m + 1);
  }

  /** Placing logical page la at the given rank. */
  ghost function Place(v: View, la: nat, slot: nat): View
    requires la < |v.maplist| == |v.climbla2hot| && slot < |v.sortednow| && v.sortednow[slot] < |v.reverselist|
  {
    v.(maplist := v.maplist[la := v.sortednow[slot]],
    reverselist := v.reverselist[v.sortednow[slot] := la],
    climbla2hot := v.climbla2hot[la := slot])
  }

  /** The pages in `order` have been placed, one rank each, and the others not yet. */
  ghost predicate Placing(v: View, p: Plan, order: seq<nat>, rank: seq<nat>) {
    && p.Valid() && |v.maplist| == |v.reverselist| == |v.climbla2hot| == p.n
    && Inverse(p.n, v.sortednow, rank)
    && (forall la :: 0 <= la < p.n ==> v.maplist[la] < p.n)
    && Distinct(order) && (forall x :: x in order ==> x < p.n) && |order| <= p.n
    && (forall k :: 0 <= k < |order| ==> PlacedAt(v, p, order, k))
  }

  ghost predicate PlacedAt(v: View, p: Plan, order: seq<nat>, k: nat)
    requires |v.maplist| == |v.reverselist| == |v.climbla2hot| == |v.sortednow| == p.n
  {
    && k < |order| && k < p.n && order[k] < p.n && p.Slot(k) < p.n && v.sortednow[p.Slot(k)] < p.n
    && v.climbla2hot[order[k]] == p.Slot(k)
    && v.maplist[order[k]] == v.sortednow[p.Slot(k)]
    && v.reverselist[v.sortednow[p.Slot(k)]] == order[k]
  }

  /** A page not placed before gets the next rank; nothing placed earlier is disturbed. */
  lemma PlaceStep(v: View, p: Plan, order: seq<nat>, rank: seq<nat>, la: nat)
    requires Placing(v, p, order, rank) && la < p.n && la !in order
    ensures |order| < p.n && p.Slot(|order|) < p.n
    ensures v.sortednow[p.Slot(|order|)] < p.n
    ensures Placing(Place(v, la, p.Slot(|order|)), p, order + [la], rank)
  {
    hide Plan.Scramble, Xor, Pow2;
    DistinctBelow(order, p.n);
    var m := |order|;
    p.SlotIsBijection(m);
    var w, order' := Place(v, la, p.Slot(m)), order + [la];
    forall k | 0 <= k < |order'|
      ensures PlacedAt(w, p, order', k)
    {
      p.SlotIsBijection(k);
      if k < m {
        assert PlacedAt(v, p, order, k);
        assert v.sortednow[p.Slot(k)] != v.sortednow[p.Slot(m)];
      }
    }
  }

  /** Once every page has been placed, the four arrays agree again. */
  lemma PlaceDone(v: View, p: Plan, order: seq<nat>, rank: seq<nat>)
    requires Placing(v, p, order, rank) && forall la :: 0 <= la < p.n ==> la in order
    ensures MapOk(v, p.n) && |order| == p.n
  {
    DistinctBelow(order, p.n);
    forall la | 0 <= la < p.n
      ensures v.maplist[la] < p.n && v.reverselist[v.maplist[la]] == la
      ensures v.climbla2hot[la] < p.n && v.sortednow[v.climbla2hot[la]] == v.maplist[la]
    {
      assert la in order;
      var k :| 0 <= k < |order| && order[k] == la;
      assert PlacedAt(v, p, order, k);
    }
    forall a | 0 <= a < p.n
      ensures v.reverselist[a] < p.n && v.maplist[v.reverselist[a]] == a
    {
      var k := p.Visit(rank[a]) by { p.SlotIsBijection(rank[a]); }
      p.SlotIsBijection(rank[a]);
      p.SlotIsBijection(k);
      assert PlacedAt(v, p, order, k);
    }
  }

  /** Whether moving a page off a physical page costs that one a write. The page just accessed is treated
      apart: one remap always charges it, the other never. */
  predicate Pays(was: nat, now: nat, addr: nat, addrPays: bool) {
    if was == addr then addrPays else was != now
  }

  /** What a remap that started from mapping m0 and endurance life0 has cost: at most one write for every
      physical page, charged when the logical page that was there moved. */
  ghost predicate Charged(m0: seq<nat>, life0: seq<real>, v: View, life: seq<real>, addr: nat, addrPays: bool,
                          order: seq<nat>) {
    && |m0| == |life0| == |life| == |v.maplist|
    && forall la :: 0 <= la < |m0| ==> ChargedAt(m0, life0, v, life, addr, addrPays, order, la)
  }

  ghost predicate ChargedAt(m0: seq<nat>, life0: seq<real>, v: View, life: seq<real>, addr: nat, addrPays: bool,
                            order: seq<nat>, la: nat)
    requires la < |m0| == |life0| == |life| == |v.maplist|
  {
    var was := m0[la];
    && was < |life|
    && life[was] == life0[was] - (if la in order && Pays(was, v.maplist[la], addr, addrPays) then 1.0 else 0.0)
    && (la !in order ==> v.maplist[la] == was)
  }

  lemma ChargeStep(m0: seq<nat>, life0: seq<real>, v: View, life: seq<real>, addr: nat, addrPays: bool, order: seq<nat>,
                   r0: seq<nat>, la: nat, slot: nat)
    requires Charged(m0, life0, v, life, addr, addrPays, order) && Inverse(|m0|, m0, r0) && la < |m0| && la !in order
    requires |v.climbla2hot| == |m0| && slot < |v.sortednow| && v.sortednow[slot] < |v.reverselist|
    ensures v.maplist[la] == m0[la] < |life|
    ensures
      var life' := if Pays(m0[la], v.sortednow[slot], addr, addrPays) then life[m0[la] := life[m0[la]] - 1.0] else life;
      Charged(m0, life0, Place(v, la, slot), life', addr, addrPays, order + [la])
  {
    assert ChargedAt(m0, life0, v, life, addr, addrPays, order, la);
    var life' := if Pays(m0[la], v.sortednow[slot], addr, addrPays) then life[m0[la] := life[m0[la]] - 1.0] else life;
    var w := Place(v, la, slot);
    forall x | 0 <= x < |m0|
      ensures ChargedAt(m0, life0, w, life', addr, addrPays, order + [la], x)
    {
      assert ChargedAt(m0, life0, v, life, addr, addrPays, order, x);
      assert r0[m0[x]] == x && r0[m0[la]] == la;
    }
  }

  /** A whole-memory remap in progress: its plan, each physical page's rank, the mapping (and its inverse) and
      the endurance it started from, and the physical page just accessed. */
  datatype Remap = Remap(plan: Plan, rank: seq<nat>, m0: seq<nat>, r0: seq<nat>, life0: seq<real>, addr: nat,
                         addrPays: bool)

  /** The pages in `order` have been placed and paid for. */
  ghost predicate Remapping(r: Remap, v: View, life: seq<real>, order: seq<nat>) {
    && Inverse(r.plan.n, r.m0, r.r0)
    && Placing(v, r.plan, order, r.rank)
    && Charged(r.m0, r.life0, v, life, r.addr, r.addrPays, order)
  }

  /** std::sort has put the pages in this order: weakest first. */
  ghost predicate WeakestFirst(order: seq<nat>, life: seq<real>) {
    && (forall i :: 0 <= i < |order| ==> order[i] < |life|)
    && (forall i, j :: 0 <= i <= j < |order| ==> life[order[i]] <= life[order[j]])
  }

  lemma RemapStarts(r: Remap, v: View, sorted: seq<nat>, life: seq<real>)
    requires MapOk(v, r.plan.n) && r.plan.Valid() && Inverse(r.plan.n, sorted, r.rank) && |life| == r.plan.n
    requires r.m0 == v.maplist && r.r0 == v.reverselist && r.life0 == life
    ensures Remapping(r, v.(sortednow := sorted), life, [])
  {
  }

  lemma RemappingShape(r: Remap, v: View, life: seq<real>, order: seq<nat>)
    requires Remapping(r, v, life, order)
    ensures |v.climbla2hot| == |v.maplist| == |v.sortednow| == r.plan.n
    ensures forall a :: 0 <= a < r.plan.n ==> v.maplist[a] < r.plan.n
  {
    hide Charged, PlacedAt, Distinct;
  }

  lemma RemapRoom(r: Remap, v: View, life: seq<real>, order: seq<nat>, la: nat)
    requires Remapping(r, v, life, order) && la < r.plan.n && la !in order
    ensures |order| < r.plan.n && r.plan.Slot(|order|) < r.plan.n == |v.sortednow| == |v.maplist|
    ensures v.maplist[la] < r.plan.n
  {
    hide Charged, PlacedAt;
    PlaceStep(v, r.plan, order, r.rank, la);
  }

  lemma RemapStep(r: Remap, v: View, life: seq<real>, order: seq<nat>, la: nat)
    requires Remapping(r, v, life, order) && la < r.plan.n && la !in order
    ensures |order| < r.plan.n && r.plan.Slot(|order|) < r.plan.n == |v.sortednow| == |v.maplist| == |v.climbla2hot|
    ensures v.sortednow[r.plan.Slot(|order|)] < r.plan.n == |life| == |v.reverselist| && v.maplist[la] < r.plan.n
    ensures
      var slot, was := r.plan.Slot(|order|), v.maplist[la];
      var life' := if Pays(was, v.sortednow[slot], r.addr, r.addrPays) then life[was := life[was] - 1.0] else life;
      Remapping(r, Place(v, la, slot), life', order + [la])
  {
    hide PlacedAt, ChargedAt;
    PlaceStep(v, r.plan, order, r.rank, la);
    ChargeStep(r.m0, r.life0, v, life, r.addr, r.addrPays, order, r.r0, la, r.plan.Slot(|order|));
  }

  /** What a complete remap has cost, by logical page: one write at the physical page it left if it moved, but for
      the page just accessed, addr: that one is charged in any case, or never. */
  ghost predicate CostsMoves(m0: seq<nat>, life0: seq<real>, m: seq<nat>, life: seq<real>, addr: nat, addrPays: bool) {
    && |m0| == |life0| == |life| == |m|
    && forall x :: 0 <= x < |m0| ==>
                     && m0[x] < |life|
                     && life[m0[x]]
                        == life0[m0[x]] - if (if m0[x] == addr then addrPays else m[x] != m0[x]) then 1.0 else 0.0
  }

  lemma RemapCosts(r: Remap, v: View, life: seq<real>, order: seq<nat>)
    requires Remapping(r, v, life, order) && forall x: nat :: x < r.plan.n ==> x in order
    ensures CostsMoves(r.m0, r.life0, v.maplist, life, r.addr, r.addrPays)
  {
    hide Placing;
    forall x | 0 <= x < |r.m0|
      ensures r.m0[x] < |life|
      ensures life[r.m0[x]] == r.life0[r.m0[x]] - if Pays(r.m0[x], v.maplist[x], r.addr, r.addrPays) then 1.0 else 0.0
    {
      assert x in order && ChargedAt(r.m0, r.life0, v, life, r.addr, r.addrPays, order, x);
    }
  }

  // ---------------------------------------------------------------------------------------------
  // The arrays
  // ---------------------------------------------------------------------------------------------

  /** A page is worth exchanging with another if the less worn one serves the page that is written less. */
  predicate WorthClimbing(wearrate: real, targetWearrate: real, counterv: nat, targetcount: nat) {
    (targetWearrate > wearrate && targetcount <= counterv) || (targetWearrate < wearrate && targetcount > counterv)
  }

  ghost predicate AllPositive(life0: seq<real>) {
    forall i :: 0 <= i < |life0| ==> life0[i] > 0.0
  }

  /** What an attempt of la to climb onto the physical page target does: an exchange that costs the old page
      one write if it is worthwhile, nothing otherwise; -1 says that the old page is worn out. */
  ghost predicate Climbed(v: View, life: seq<real>, life0: seq<real>, w: View, life': seq<real>, la: nat, target: nat,
                          counterv: nat, targetcount: nat, r: int)
    requires MapOk(v, |life|) && |life0| == |life| && AllPositive(life0) && la < |life| && target < |life|
  {
    var addr := v.maplist[la];
    if WorthClimbing(life[addr] / life0[addr], life[target] / life0[target], counterv, targetcount) then
      && life' == life[addr := life[addr] - 1.0]
      && r == (if life'[addr] < 0.0 then -1 else 1)
      && w == if r == 1 then Exchange(v, la, target) else v
    else r == 0 && life' == life && w == v
  }

  /** The share of its endurance that a physical page has left. */
  function Share(life: seq<real>, life0: seq<real>, a: nat): real
    requires a < |life| == |life0| && AllPositive(life0)
  {
    life[a] / life0[a]
  }

  /** Of the logical pages la and other, written counterv and othercount times, the busier one (la, if neither is) is
      on the physical page of m with the larger share left, or with at least as large a share. */
  ghost predicate BusierFresher(m: seq<nat>, life: seq<real>, life0: seq<real>, la: nat, other: nat, counterv: nat,
                                othercount: nat, strictly: bool) {
    && la < |m| && other < |m| && m[la] < |life| && m[other] < |life| == |life0| && AllPositive(life0)
    && var busy, quiet := if counterv >= othercount then la else other, if counterv >= othercount then other else la;
    if strictly then Share(life, life0, m[busy]) > Share(life, life0, m[quiet])
    else Share(life, life0, m[busy]) >= Share(life, life0, m[quiet])
  }

  lemma NotWorse(m: seq<nat>, life: seq<real>, life0: seq<real>, la: nat, other: nat, counterv: nat, othercount: nat,
                 strictly: bool)
    requires BusierFresher(m, life, life0, la, other, counterv, othercount, strictly)
    ensures BusierFresher(m, life, life0, la, other, counterv, othercount, false)
  {
  }

  /** A climb helps, and none is missed that would: judged by the shares before, an exchange leaves the busier page on
      the fresher place, and without one it was there already. */
  lemma ClimbHelps(v: View, life: seq<real>, life0: seq<real>, w: View, life': seq<real>, la: nat, target: nat,
                   counterv: nat, targetcount: nat, r: int)
    requires MapOk(v, |life|) && |life0| == |life| && AllPositive(life0) && la < |life| && target < |life|
    requires Climbed(v, life, life0, w, life', la, target, counterv, targetcount, r) && r != -1
    ensures BusierFresher(w.maplist, life, life0, la, v.reverselist[target], counterv, targetcount, r == 1)
  {
    ExchangeKeeps(v, |life|, la, target);
  }

  /** The physical page target is one that the random draws may yield for la. */
  ghost predicate Drawn(v: View, n: nat, shift: nat, point: nat, la: nat, target: nat)
    requires MapOk(v, n) && la < n
  {
    exists region: nat, place: nat ::
      RandomOk(n, shift, point, v.climbla2hot[la], region, place)
      && 0 <= ClimbRank(n, shift, point, v.climbla2hot[la], region, place) < n
      && target == v.sortednow[ClimbRank(n, shift, point, v.climbla2hot[la], region, place)]
  }

  /** What one write to la does: at most one climb, one unit of wear at the page it ends up on, and one at the
      page it left if it climbed. */
  ghost predicate Wrote(v: View, life: seq<real>, w: View, life': seq<real>, la: nat)
    requires MapOk(v, |life|) && la < |life|
  {
    && (w == v || exists target: nat :: target < |life| && w == Exchange(v, la, target))
    && |life'| == |life| && la < |w.maplist|
    && forall a :: 0 <= a < |life| ==>
                     life'[a] == life[a] - if a == w.maplist[la] || a == v.maplist[la] then 1.0 else 0.0
  }

  /** The wear of the write itself, after an attempt to climb. */
  lemma WriteAfterClimb(v: View, life: seq<real>, life0: seq<real>, w: View, life': seq<real>, la: nat, target: nat,
                        counterv: nat, targetcount: nat, r: int)
    requires MapOk(v, |life|) && |life0| == |life| && AllPositive(life0) && la < |life| && target < |life| && r != -1
    requires Climbed(v, life, life0, w, life', la, target, counterv, targetcount, r)
    ensures MapOk(w, |life|) && |life'| == |life|
            && Wrote(v, life, w, life'[w.maplist[la] := life'[w.maplist[la]] - 1.0], la)
  {
    ExchangeKeeps(v, |life|, la, target);
  }

  lemma WriteWithoutClimb(v: View, life: seq<real>, la: nat)
    requires MapOk(v, |life|) && la < |life|
    ensures Wrote(v, life, v, life[v.maplist[la] := life[v.maplist[la]] - 1.0], la)
  {
  }

  class PageMap {
    const n: nat
    const climbershift: nat
    const maplist: array<nat>
    const reverselist: array<nat>
    const sortednow: array<nat>
    const climbla2hot: array<nat>
    const life: array<real>   // endurance left, by physical page
    const life0: seq<real>    // endurance at the start
    var climberpoint: nat

    ghost function Read(): View
      reads maplist, reverselist, sortednow, climbla2hot
    {
      View(maplist[..], reverselist[..], sortednow[..], climbla2hot[..])
    }

    ghost predicate Separate() {
      && n > 0 && maplist.Length == reverselist.Length == sortednow.Length == climbla2hot.Length == life.Length == n
      && |life0| == n && AllPositive(life0)
      && maplist != reverselist && maplist != sortednow && maplist != climbla2hot
      && reverselist != sortednow && reverselist != climbla2hot && sortednow != climbla2hot
    }

    ghost predicate Valid()
      reads this, maplist, reverselist, sortednow, climbla2hot
    {
      Separate() && MapOk(Read(), n) && PointOk(n, climbershift, climberpoint)
    }

    /** sortedlist is the order std::sort leaves: any permutation of the pages will do. */
    constructor (n: nat, climbershift: nat, life0: seq<real>, sortedlist: seq<nat>, ghost rank: seq<nat>)
      requires n >= 2 * Pow2(climbershift) && |life0| == n && forall i :: 0 <= i < n ==> life0[i] > 0.0
      requires Inverse(n, sortedlist, rank)
      ensures Valid() && this.n == n && this.climbershift == climbershift && this.life0 == life0 && life[..] == life0
      ensures fresh(maplist) && fresh(reverselist) && fresh(sortednow) && fresh(climbla2hot) && fresh(life)
      ensures forall la :: 0 <= la < n ==> maplist[la] == la
    {
      this.n, this.climbershift, this.life0 := n, climbershift, life0;
      maplist := new nat[n](i => i);
      reverselist := new nat[n](i => i);
      sortednow := new nat[n](i requires 0 <= i < |sortedlist| => sortedlist[i]);
      var hot := RankArray(sortedlist, rank);
      climbla2hot := hot;
      life := new real[n](i requires 0 <= i < |life0| => life0[i]);
      climberpoint := (n - 1) / Pow2(climbershift);
      new;
      TopPoint(n, climbershift);
      assert maplist[..] == seq(n, i => i) && reverselist[..] == seq(n, i => i) && sortednow[..] == sortedlist;
      InitialOk(sortedlist, rank);
    }

    /** The climbing point goes down one region at a time and starts over at the top from the middle. */
    method StepPoint()
      requires Separate() && PointOk(n, climbershift, climberpoint)
      modifies this`climberpoint
      ensures PointOk(n, climbershift, climberpoint)
      ensures climberpoint == if old(climberpoint) == (n / 2) / Pow2(climbershift) then (n - 1) / Pow2(climbershift)
                              else old(climberpoint) - 1
    {
      TopPoint(n, climbershift);
      climberpoint := climberpoint - 1;
      if climberpoint < (n / 2) / Pow2(climbershift) {
        climberpoint := (n - 1) / Pow2(climbershift);
      }
    }

    /** The random numbers that climber draws for a page of the given rank. */
    method DrawTarget(rank: nat) returns (region: nat, place: nat)
      requires Separate() && PointOk(n, climbershift, climberpoint) && climbershift > 0
      ensures RandomOk(n, climbershift, climberpoint, rank, region, place)
    {
      var size := Pow2(climbershift);
      RegionBound(n, size, climberpoint);
      MulNext(climberpoint, size);
      region := rank / size;
      var maxup := MaxUp(n, climbershift, climberpoint);
      if rank / size == climberpoint {
        place := GetRandom(1, size - 1);
      } else {
        var randommax := size;
        if rank / size > climberpoint {
          region := climberpoint;
        } else {
          region := GetRandom(rank / size + 1, climberpoint);
        }
        if region == climberpoint {
          randommax := maxup - region * size;
        }
        place := GetRandom(0, randommax - 1);
      }
    }

    /** The physical page that la may climb to: the first half of climber. */
    method Target(la: nat) returns (targetaddr: nat)
      requires Valid() && la < n && climbershift > 0
      ensures targetaddr < n && Drawn(Read(), n, climbershift, climberpoint, la, targetaddr)
    {
      hide RandomOk, ClimbRank, PointOk;
      var rank := climbla2hot[la];
      var targetindex, random := DrawTarget(rank);
      ClimbRankInRange(n, climbershift, climberpoint, rank, targetindex, random);
      targetaddr := sortednow[ClimbRank(n, climbershift, climberpoint, rank, targetindex, random)];
    }

    /** The exchange of climber: it costs the old physical page one write, and happens only if worthwhile.
        A result of -1 means that the page is worn out. */
    method Climb(la: nat, targetaddr: nat, counterv: nat, targetcount: nat) returns (r: int)
      requires Valid() && la < n && targetaddr < n
      modifies maplist, reverselist, climbla2hot, life
      ensures Valid()
      ensures Climbed(old(Read()), old(life[..]), life0, Read(), life[..], la, targetaddr, counterv, targetcount, r)
      ensures r != -1 ==>
                BusierFresher(maplist[..], old(life[..]), life0, la, old(reverselist[targetaddr]), counterv,
                              targetcount, r == 1)
    {
      ghost var v := Read();
      ExchangeKeeps(v, n, la, targetaddr);
      var addr, tarla := maplist[la], reverselist[targetaddr];
      var wearratecompare := life[targetaddr] / life0[targetaddr] - life[addr] / life0[addr];
      var countercompare := targetcount - counterv;
      if (wearratecompare > 0.0 && countercompare <= 0) || (wearratecompare < 0.0 && countercompare > 0) {
        life[addr] := life[addr] - 1.0;
        if life[addr] < 0.0 {
          return -1;
        }
        Swap(la, tarla, addr, targetaddr);
        return 1;
      }
      return 0;
    }

    method Swap(la: nat, tarla: nat, addr: nat, targetaddr: nat)
      requires Valid() && la < n && targetaddr < n && addr == maplist[la] && tarla == reverselist[targetaddr]
      modifies maplist, reverselist, climbla2hot
      ensures Read() == Exchange(old(Read()), la, targetaddr)
    {
      reverselist[targetaddr] := la;
      reverselist[addr] := tarla;
      maplist[la] := targetaddr;
      maplist[tarla] := addr;
      var swaptemp := climbla2hot[la];
      climbla2hot[la] := climbla2hot[tarla];
      climbla2hot[tarla] := swaptemp;
    }

    /** One page of a remap. If the move is charged, the page's old place loses one write and may wear out. */
    method PlaceAt(la: nat, slot: nat, charge: bool) returns (ok: bool)
      requires Separate() && la < n && slot < n && maplist[la] < n && sortednow[slot] < n
      modifies maplist, reverselist, climbla2hot, life
      ensures ok ==> Read() == Place(old(Read()), la, slot)
      ensures life[..] == if charge then old(life[..])[old(maplist[la]) := old(life[maplist[la]]) - 1.0]
                          else old(life[..])
      ensures ok <==> !(charge && life[old(maplist[la])] < 0.0)
    {
      var was := maplist[la];
      if charge {
        life[was] := life[was] - 1.0;
        if life[was] < 0.0 {
          return false;
        }
      }
      maplist[la] := sortednow[slot];
      reverselist[sortednow[slot]] := la;
      climbla2hot[la] := slot;
      return true;
    }

    /** The next page of a remap. */
    method PlaceNext(ghost r: Remap, ghost order: seq<nat>, la: nat, slot: nat, charge: bool) returns (ok: bool)
      requires Separate() && r.plan.n == n && Remapping(r, Read(), life[..], order)
      requires la < n && la !in order && |order| < n && slot == r.plan.Slot(|order|) < n && maplist[la] < n
      requires charge == Pays(maplist[la], sortednow[slot], r.addr, r.addrPays)
      modifies maplist, reverselist, climbla2hot, life
      ensures ok ==> Remapping(r, Read(), life[..], order + [la])
      ensures !ok ==> exists a :: 0 <= a < n && life[a] < 0.0
    {
      hide Remapping;
      RemapStep(r, Read(), life[..], order, la);
      ok := PlaceAt(la, slot, charge);
    }

    /** Records the order in which the pages stand after sorting them by endurance left. */
    method Resort(sorted: seq<nat>)
      requires Separate() && |sorted| == n
      modifies sortednow
      ensures sortednow[..] == sorted
    {
      for i := 0 to n
        invariant forall k :: 0 <= k < i ==> sortednow[k] == sorted[k]
      {
        sortednow[i] := sorted[i];
      }
    }
  }

  /** The random number generator: any number in the stated range. */
  method GetRandom(start: nat, end: nat) returns (r: nat)
    requires start <= end
    ensures start <= r <= end
  {
    r :| start <= r <= end;
  }

  /** The array of each page's rank in the sorted list. */
  method RankArray(sortedlist: seq<nat>, ghost rank: seq<nat>) returns (hot: array<nat>)
    requires Inverse(|sortedlist|, sortedlist, rank)
    ensures fresh(hot) && hot[..] == rank
  {
    hot := new nat[|sortedlist|](i => 0);
    for i := 0 to |sortedlist|
      invariant forall k :: 0 <= k < i ==> hot[sortedlist[k]] == k
    {
      hot[sortedlist[i]] := i;
    }
    assert forall la :: 0 <= la < |sortedlist| ==> sortedlist[rank[la]] == la;
  }

  lemma InitialOk(sortedlist: seq<nat>, rank: seq<nat>)
    requires Inverse(|sortedlist|, sortedlist, rank)
    ensures
      var id := seq(|sortedlist|, i => i);
      MapOk(View(id, id, sortedlist, rank), |sortedlist|)
  {
  }

  lemma TopPoint(n: nat, shift: nat)
    requires n >= 2 * Pow2(shift)
    ensures PointOk(n, shift, (n - 1) / Pow2(shift)) && (n / 2) / Pow2(shift) >= 1
  {
    var size := Pow2(shift);
    BlockBelow(n / 2, size, 1);
    var q := (n / 2) / size;
    assert q * size <= n / 2 <= n - 1;
    BlockBelow(n - 1, size, q);
  }
}
