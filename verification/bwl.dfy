/** Bloom-filter wear levelling, bwlmm_climber.cpp: two filters find the hot pages and the hot groups of pages,
    and a remap hands the strongest ranks to the hot pages of hot groups, the next ones to the other hot pages
    and the weakest to all others. */
module BloomWearLeveling {
  import opened Bits
  import opened BloomFilters
  import opened Counting
  import opened Options
  import opened PageMaps

  const REMAP_THRESHOLD := 2000000
  const CYCLE_THRESHOLD := 20000000
  const HOT_THRESHOLD := 1000

  // ---------------------------------------------------------------------------------------------
  // The visiting order
  // ---------------------------------------------------------------------------------------------

  /** The hot lists of pages and of groups. */
  datatype Hotness = Hotness(h1: HotList, s1: Shape, h2: HotList, s2: Shape) {
    ghost predicate Valid() {
      HotOk(h1, s1) && HotOk(h2, s2) && s1.areashift == s2.areashift + s1.groupshift
    }

    function Pages(): nat {
      s1.AreaSize()
    }

    function Group(a: nat): nat {
      s1.Group(a)
    }

    /** Pages of hot groups by their tier, then the other hot pages, then the rest. */
    ghost function Class(a: nat): nat
      requires Valid() && a < Pages()
    {
      PageGroup(this, a);
      if Index(h1, a) == None then 4 else if Index(h2, Group(a)) == None then 3 else s1.Tier(Index(h1, a).value)
    }
  }

  /** The groups of the pages are the addresses of the second filter. */
  lemma PageGroup(c: Hotness, a: nat)
    requires c.s1.areashift == c.s2.areashift + c.s1.groupshift
    ensures a < c.Pages() <==> c.Group(a) < c.s2.AreaSize()
  {
    Pow2Sum(c.s2.areashift, c.s1.groupshift);
    BlockBelow(a, Pow2(c.s1.groupshift), Pow2(c.s2.areashift));
  }

  /** x is among the first i occupants of tier t of group g, counted from the tier's last slot. */
  ghost predicate Among(h: HotList, s: Shape, x: nat, g: nat, t: nat, i: nat)
    requires HotOk(h, s)
  {
    && x < s.AreaSize() && s.Group(x) == g
    && Index(h, x).Some? && s.Tier(Index(h, x).value) == t && s.Pos(Index(h, x).value) + i >= s.ListSize(t)
  }

  /** The next slot either holds one more such address or is empty. */
  lemma AmongStep(h: HotList, s: Shape, g: nat, t: nat, i: nat)
    requires HotOk(h, s) && g < s.GroupNums() && t < 3 && i < s.ListSize(t)
    ensures g < |h.hotlist| == |h.ishotlist| && GroupShaped(h.hotlist[g], h.ishotlist[g])
    ensures
      var p, x0 := s.ListSize(t) - 1 - i, h.hotlist[g][t][s.ListSize(t) - 1 - i];
      if h.ishotlist[g][t][p] then
        && x0 < s.AreaSize() && s.Group(x0) == g && !Among(h, s, x0, g, t, i)
        && forall x: nat :: Among(h, s, x, g, t, i + 1) <==> Among(h, s, x, g, t, i) || x == x0
      else forall x: nat :: Among(h, s, x, g, t, i + 1) <==> Among(h, s, x, g, t, i)
  {
    var p := s.ListSize(t) - 1 - i;
    var x0 := h.hotlist[g][t][p];
    var code := s.Code(t, p);
    CodeFits(s, t, p);
    assert SlotOk(h, s, g, code);
    forall x: nat
      ensures Among(h, s, x, g, t, i + 1) <==> Among(h, s, x, g, t, i) || (h.ishotlist[g][t][p] && x == x0)
    {
      if Among(h, s, x, g, t, i + 1) {
        assert IndexOk(h, s, x);
      }
    }
  }

  lemma AmongNone(h: HotList, s: Shape, g: nat, t: nat)
    requires HotOk(h, s) && t < 3
    ensures forall x: nat :: !Among(h, s, x, g, t, 0)
  {
    forall x: nat
      ensures !Among(h, s, x, g, t, 0)
    {
      if x < s.AreaSize() {
        assert IndexOk(h, s, x);
      }
    }
  }

  /** All the way down the tier, these are the addresses that the index puts there. */
  lemma AmongAll(h: HotList, s: Shape, x: nat, g: nat, t: nat)
    requires HotOk(h, s) && t < 3 && x < s.AreaSize()
    ensures Among(h, s, x, g, t, s.ListSize(t)) <==>
            s.Group(x) == g && Index(h, x).Some? && s.Tier(Index(h, x).value) == t
  {
    assert IndexOk(h, s, x);
  }

  /** The order so far is by hotness class, and no class above cls has been reached. */
  ghost predicate Ranked(c: Hotness, order: seq<nat>, cls: nat) {
    && c.Valid()
    && (forall j :: 0 <= j < |order| ==> order[j] < c.Pages() && c.Class(order[j]) <= cls)
    && (forall j, k :: 0 <= j < k < |order| ==> c.Class(order[j]) <= c.Class(order[k]))
  }

  lemma RankedStep(c: Hotness, order: seq<nat>, cls: nat, a: nat)
    requires Ranked(c, order, cls) && a < c.Pages() && c.Class(a) == cls
    ensures Ranked(c, order + [a], cls)
  {
  }

  lemma RankedUp(c: Hotness, order: seq<nat>, cls: nat, cls': nat)
    requires Ranked(c, order, cls) && cls <= cls'
    ensures Ranked(c, order, cls')
  {
  }

  // The pages that one stretch of a remap places

  /** a is a page in tier t1 of its group's list, and its group is among the first i occupants of tier t2 of
      group g2 of the second filter. */
  ghost predicate HotGroupPage(c: Hotness, a: nat, t1: nat, g2: nat, t2: nat, i: nat)
    requires c.Valid()
  {
    && a < c.Pages() && Among(c.h1, c.s1, a, c.Group(a), t1, c.s1.ListSize(t1))
    && Among(c.h2, c.s2, c.Group(a), g2, t2, i)
  }

  lemma HotTierStep(c: Hotness, t1: nat, g2: nat, t2: nat, i: nat)
    requires c.Valid() && t1 < 3 && g2 < c.s2.GroupNums() && t2 < 3 && i < c.s2.ListSize(t2)
    ensures g2 < |c.h2.hotlist| == |c.h2.ishotlist| && GroupShaped(c.h2.hotlist[g2], c.h2.ishotlist[g2])
    ensures
      var p, gp := c.s2.ListSize(t2) - 1 - i, c.h2.hotlist[g2][t2][c.s2.ListSize(t2) - 1 - i];
      if c.h2.ishotlist[g2][t2][p] then
        && gp < c.s1.GroupNums()
        && (forall a: nat :: HotGroupPage(c, a, t1, g2, t2, i + 1) <==>
                             HotGroupPage(c, a, t1, g2, t2, i) || Among(c.h1, c.s1, a, gp, t1, c.s1.ListSize(t1)))
        && (forall a: nat :: Among(c.h1, c.s1, a, gp, t1, c.s1.ListSize(t1)) ==>
                               && !HotGroupPage(c, a, t1, g2, t2, i) && c.Class(a) == t1
                               && HotGroupPage(c, a, t1, g2, t2, c.s2.ListSize(t2)))
      else forall a: nat :: HotGroupPage(c, a, t1, g2, t2, i + 1) <==> HotGroupPage(c, a, t1, g2, t2, i)
  {
    AmongStep(c.h2, c.s2, g2, t2, i);
    GroupsMatch(c);
  }

  lemma GroupsMatch(c: Hotness)
    requires c.s1.areashift == c.s2.areashift + c.s1.groupshift
    ensures c.s2.AreaSize() < c.s1.GroupNums()
  {
    Pow2Sum(c.s2.areashift, c.s1.groupshift);
    QuotientIs(c.Pages(), Pow2(c.s1.groupshift), c.s2.AreaSize(), 0);
  }

  /** The pages in tier t1 whose group is hot and stands before tier t2 of group g2 of the second filter. */
  ghost predicate HotUpTo(c: Hotness, a: nat, t1: nat, g2: nat, t2: nat)
    requires c.Valid()
  {
    PageGroup(c, a);
    && a < c.Pages() && Index(c.h1, a).Some? && c.s1.Tier(Index(c.h1, a).value) == t1
    && Index(c.h2, c.Group(a)).Some?
    && (c.s2.Group(c.Group(a)) < g2 || (c.s2.Group(c.Group(a)) == g2 && c.s2.Tier(Index(c.h2, c.Group(a)).value) < t2))
  }

  lemma HotUpToStep(c: Hotness, t1: nat, g2: nat, t2: nat)
    requires c.Valid() && t1 < 3 && t2 < 3
    ensures forall a: nat :: HotUpTo(c, a, t1, g2, t2 + 1) <==>
                             HotUpTo(c, a, t1, g2, t2) || HotGroupPage(c, a, t1, g2, t2, c.s2.ListSize(t2))
    ensures forall a: nat :: HotGroupPage(c, a, t1, g2, t2, c.s2.ListSize(t2)) ==> !HotUpTo(c, a, t1, g2, t2)
  {
    forall a: nat
      ensures HotUpTo(c, a, t1, g2, t2 + 1) <==>
              HotUpTo(c, a, t1, g2, t2) || HotGroupPage(c, a, t1, g2, t2, c.s2.ListSize(t2))
      ensures HotGroupPage(c, a, t1, g2, t2, c.s2.ListSize(t2)) ==> !HotUpTo(c, a, t1, g2, t2)
    {
      if a < c.Pages() {
        PageGroup(c, a);
        AmongAll(c.h1, c.s1, a, c.Group(a), t1);
        AmongAll(c.h2, c.s2, c.Group(a), g2, t2);
      }
    }
  }

  /** All pages in tier t1 whose group is hot. */
  ghost predicate HotInTier(c: Hotness, a: nat, t1: nat)
    requires c.Valid()
  {
    PageGroup(c, a);
    && a < c.Pages() && Index(c.h1, a).Some? && c.s1.Tier(Index(c.h1, a).value) == t1
    && Index(c.h2, c.Group(a)).Some?
  }

  lemma HotUpToAll(c: Hotness, t1: nat)
    requires c.Valid()
    ensures forall a: nat :: HotUpTo(c, a, t1, c.s2.GroupNums(), 0) <==> HotInTier(c, a, t1)
  {
    forall a: nat
      ensures HotUpTo(c, a, t1, c.s2.GroupNums(), 0) <==> HotInTier(c, a, t1)
    {
      if a < c.Pages() {
        PageGroup(c, a);
        GroupInRange(c.s2, c.Group(a));
      }
    }
  }

  lemma HotInTierClass(c: Hotness, t1: nat)
    requires c.Valid() && t1 < 3
    ensures forall a: nat :: HotInTier(c, a, t1) <==> a < c.Pages() && c.Class(a) == t1
  {
    hide HotOk;
  }

  /** The hot pages of the groups that are not hot, up to tier t of group g. */
  ghost predicate OtherUpTo(c: Hotness, a: nat, g: nat, t: nat)
    requires c.Valid()
  {
    && a < c.Pages() && c.Class(a) == 3 && Index(c.h1, a).Some?
    && (c.Group(a) < g || (c.Group(a) == g && c.s1.Tier(Index(c.h1, a).value) < t))
  }

  lemma OtherUpToStep(c: Hotness, g: nat, t: nat)
    requires c.Valid() && g < c.s2.AreaSize() && t < 3 && Index(c.h2, g) == None
    ensures forall a: nat :: OtherUpTo(c, a, g, t + 1) <==>
                             OtherUpTo(c, a, g, t) || Among(c.h1, c.s1, a, g, t, c.s1.ListSize(t))
    ensures forall a: nat :: Among(c.h1, c.s1, a, g, t, c.s1.ListSize(t)) ==>
                               a < c.Pages() && !OtherUpTo(c, a, g, t) && c.Class(a) == 3
  {
    forall a: nat
      ensures OtherUpTo(c, a, g, t + 1) <==> OtherUpTo(c, a, g, t) || Among(c.h1, c.s1, a, g, t, c.s1.ListSize(t))
      ensures Among(c.h1, c.s1, a, g, t, c.s1.ListSize(t)) ==>
                a < c.Pages() && !OtherUpTo(c, a, g, t) && c.Class(a) == 3
    {
      if a < c.Pages() {
        PageGroup(c, a);
        AmongAll(c.h1, c.s1, a, g, t);
      }
    }
  }

  lemma OtherUpToSkip(c: Hotness, g: nat)
    requires c.Valid() && g < c.s2.AreaSize()
    ensures forall a: nat :: OtherUpTo(c, a, g, 3) <==> OtherUpTo(c, a, g + 1, 0)
    ensures Index(c.h2, g).Some? ==> forall a: nat :: OtherUpTo(c, a, g, 0) <==> OtherUpTo(c, a, g + 1, 0)
  {
    forall a: nat
      ensures OtherUpTo(c, a, g, 3) <==> OtherUpTo(c, a, g + 1, 0)
      ensures Index(c.h2, g).Some? ==> (OtherUpTo(c, a, g, 0) <==> OtherUpTo(c, a, g + 1, 0))
    {
      if a < c.Pages() {
        PageGroup(c, a);
      }
    }
  }

  lemma OtherUpToAll(c: Hotness)
    requires c.Valid()
    ensures forall a: nat :: OtherUpTo(c, a, c.s2.AreaSize(), 0) <==> a < c.Pages() && c.Class(a) == 3
  {
    forall a: nat
      ensures OtherUpTo(c, a, c.s2.AreaSize(), 0) <==> a < c.Pages() && c.Class(a) == 3
    {
      PageGroup(c, a);
    }
  }

  /** la has tried to climb, with an estimate of counterv accesses: of la and the page drawn for it, the one with the
      higher estimate is now on the physical page that had the larger share of its endurance left. */
  ghost predicate Tried(v: View, life: seq<real>, life0: seq<real>, m: seq<nat>, counterv: nat,
                        counter: seq<seq<nat>>, hashing: Hashing, shift: nat, point: nat, la: nat)
    requires MapOk(v, |life|) && la < |life|
  {
    exists target: nat, targetcount: nat ::
      target < |life| && Drawn(v, |life|, shift, point, la, target)
      && IsEstimate(counter, hashing, v.reverselist[target], targetcount)
      && BusierFresher(m, life, life0, la, v.reverselist[target], counterv, targetcount, false)
  }

  /** After a remap from the top, a page of a hotter class is in no lower region than one of a colder class;
      unless the colder one's rank is in the weaker half and may be scrambled, it has a higher rank. */
  lemma HotterRanksHigher(c: Hotness, r: Remap, v: View, life: seq<real>, order: seq<nat>, a: nat, b: nat)
    requires c.Valid() && Remapping(r, v, life, order) && Ranked(c, order, 4) && r.plan.n == c.Pages()
             && r.plan.descending
    requires a in order && b in order && a < c.Pages() && b < c.Pages() && c.Class(a) < c.Class(b)
    ensures |v.climbla2hot| == r.plan.n
    ensures ShiftRight(v.climbla2hot[a], r.plan.shift) >= ShiftRight(v.climbla2hot[b], r.plan.shift)
    ensures !r.plan.randomEnable || v.climbla2hot[b] >= r.plan.n / 2 ==> v.climbla2hot[a] > v.climbla2hot[b]
  {
    hide HotOk, Charged;
    var j :| 0 <= j < |order| && order[j] == a;
    var k :| 0 <= k < |order| && order[k] == b;
    assert PlacedAt(v, r.plan, order, j) && PlacedAt(v, r.plan, order, k);
    assert j < k;
    SlotsKeepOrder(r.plan, j, k);
  }

  /** And then it moves to a physical page with at least as much endurance left. */
  lemma HotterGetsStronger(c: Hotness, r: Remap, v: View, life: seq<real>, order: seq<nat>, a: nat, b: nat)
    requires c.Valid() && Remapping(r, v, life, order) && Ranked(c, order, 4) && r.plan.n == c.Pages()
             && r.plan.descending
    requires a in order && b in order && a < c.Pages() && b < c.Pages() && c.Class(a) < c.Class(b)
    requires WeakestFirst(v.sortednow, r.life0) && |v.climbla2hot| == r.plan.n
    requires !r.plan.randomEnable || v.climbla2hot[b] >= r.plan.n / 2
    ensures v.maplist[a] < |r.life0| && v.maplist[b] < |r.life0| && r.life0[v.maplist[a]] >= r.life0[v.maplist[b]]
  {
    HotterRanksHigher(c, r, v, life, order, a, b);
    hide HotOk, Charged;
    var j :| 0 <= j < |order| && order[j] == a;
    var k :| 0 <= k < |order| && order[k] == b;
    assert PlacedAt(v, r.plan, order, j) && PlacedAt(v, r.plan, order, k);
  }

  /** A hotter page is in no lower region than a colder one, and unless the colder one's rank is one of the weaker half
      and may be scrambled, on a higher rank. */
  ghost predicate HotterHigher(c: Hotness, v: View, shift: nat, randomized: bool)
    requires c.Valid()
  {
    && |v.climbla2hot| == c.Pages()
    && forall a, b :: 0 <= a < c.Pages() && 0 <= b < c.Pages() && c.Class(a) < c.Class(b) ==>
                        && ShiftRight(v.climbla2hot[a], shift) >= ShiftRight(v.climbla2hot[b], shift)
                        && (!randomized || v.climbla2hot[b] >= c.Pages() / 2 ==> v.climbla2hot[a] > v.climbla2hot[b])
  }

  /** And then it is on a physical page with at least as much endurance left. */
  ghost predicate HotterStronger(c: Hotness, v: View, life: seq<real>, randomized: bool)
    requires c.Valid()
  {
    && |v.climbla2hot| == |v.maplist| == c.Pages() && (forall a :: 0 <= a < c.Pages() ==> v.maplist[a] < |life|)
    && forall a, b :: 0 <= a < c.Pages() && 0 <= b < c.Pages() && c.Class(a) < c.Class(b)
                      && (!randomized || v.climbla2hot[b] >= c.Pages() / 2) ==>
                        life[v.maplist[a]] >= life[v.maplist[b]]
  }

  lemma RemapHigher(c: Hotness, r: Remap, v: View, life: seq<real>, order: seq<nat>)
    requires c.Valid() && Remapping(r, v, life, order) && Ranked(c, order, 4) && r.plan.n == c.Pages()
             && r.plan.descending
    requires forall a: nat :: a in order <==> a < r.plan.n
    ensures HotterHigher(c, v, r.plan.shift, r.plan.randomEnable)
  {
    hide HotOk, Hotness.Class, Ranked, Remapping;
    RemappingShape(r, v, life, order);
    forall a, b | 0 <= a < c.Pages() && 0 <= b < c.Pages() && c.Class(a) < c.Class(b)
      ensures ShiftRight(v.climbla2hot[a], r.plan.shift) >= ShiftRight(v.climbla2hot[b], r.plan.shift)
      ensures !r.plan.randomEnable || v.climbla2hot[b] >= c.Pages() / 2 ==> v.climbla2hot[a] > v.climbla2hot[b]
    {
      HotterRanksHigher(c, r, v, life, order, a, b);
    }
  }

  lemma RemapStronger(c: Hotness, r: Remap, v: View, life: seq<real>, order: seq<nat>)
    requires c.Valid() && Remapping(r, v, life, order) && Ranked(c, order, 4) && r.plan.n == c.Pages() == |r.life0|
             && r.plan.descending
    requires forall a: nat :: a in order <==> a < r.plan.n
    requires WeakestFirst(v.sortednow, r.life0)
    ensures HotterStronger(c, v, r.life0, r.plan.randomEnable)
  {
    hide HotOk, Hotness.Class, Ranked, Remapping, WeakestFirst;
    RemappingShape(r, v, life, order);
    forall a, b | 0 <= a < c.Pages() && 0 <= b < c.Pages() && c.Class(a) < c.Class(b)
                  && (!r.plan.randomEnable || v.climbla2hot[b] >= c.Pages() / 2)
      ensures r.life0[v.maplist[a]] >= r.life0[v.maplist[b]]
    {
      HotterGetsStronger(c, r, v, life, order, a, b);
    }
  }

  /** What a remap from the top achieves, begun with hotness c and endurance life0; lifeOrder is the order in which
      the pages were sorted. */
  ghost predicate ByHotness(c: Hotness, v: View, life0: seq<real>, lifeOrder: seq<nat>, shift: nat, randomized: bool) {
    && c.Valid() && HotterHigher(c, v, shift, randomized)
    && (WeakestFirst(lifeOrder, life0) ==> HotterStronger(c, v, life0, randomized))
  }

  lemma RemapByHotness(c: Hotness, r: Remap, v: View, life: seq<real>, order: seq<nat>)
    requires c.Valid() && Remapping(r, v, life, order) && Ranked(c, order, 4) && r.plan.n == c.Pages() == |r.life0|
             && r.plan.descending
    requires forall a: nat :: a in order <==> a < r.plan.n
    ensures ByHotness(c, v, r.life0, v.sortednow, r.plan.shift, r.plan.randomEnable)
  {
    hide HotOk, Ranked, Remapping, WeakestFirst, HotterHigher, HotterStronger;
    RemapHigher(c, r, v, life, order);
    if WeakestFirst(v.sortednow, r.life0) {
      RemapStronger(c, r, v, life, order);
    }
  }

  // ---------------------------------------------------------------------------------------------
  // The wear-levelling object
  // ---------------------------------------------------------------------------------------------

  class Climber {
    const pages: PageMap
    const filter1: BloomFilter
    const filter2: BloomFilter
    const visitcount: array<nat>
    const climberlocthre: seq<nat>
    const climberenable: nat
    const randomenable: bool
    var totalcount: nat
    var remaptimes: nat

    ghost predicate Separate() {
      && pages.Separate() && visitcount.Length == pages.n == |climberlocthre| && pages.climbershift > 0
      && (forall i :: 0 <= i < pages.n ==> climberlocthre[i] > 0)
      && visitcount != pages.maplist && visitcount != pages.reverselist && visitcount != pages.sortednow
      && visitcount != pages.climbla2hot
      && filter1 != filter2
    }

    ghost function Hot(): Hotness
      reads filter1, filter2
    {
      Hotness(filter1.View(), filter1.shape, filter2.View(), filter2.shape)
    }

    /** The remap r is under way: the pages in `order` have been placed, none of them colder than class cls. */
    ghost predicate Running(r: Remap, c: Hotness, p: Plan, addr: nat, order: seq<nat>, cls: nat)
      reads pages, pages.maplist, pages.reverselist, pages.sortednow, pages.climbla2hot, pages.life
      reads filter1, filter2
    {
      && Separate() && c == Hot() && p == r.plan && p.n == pages.n == c.Pages() && addr == r.addr && r.addrPays
      && Remapping(r, pages.Read(), pages.life[..], order) && Ranked(c, order, cls)
    }

    ghost predicate Valid()
      reads this, pages, pages.maplist, pages.reverselist, pages.sortednow, pages.climbla2hot
      reads filter1, filter2
    {
      Separate() && pages.Valid() && FiltersOk()
    }

    ghost predicate FiltersOk()
      reads filter1, filter2
    {
      && filter1.Valid() && filter2.Valid()
      && filter1.shape.areashift == filter2.shape.areashift + filter1.shape.groupshift
      && filter1.shape.AreaSize() == pages.n
    }

    /** The page count is a power of two and a multiple of the group size. */
    constructor (pages: PageMap, hashing1: Hashing, hashing2: Hashing, climberlocthre: seq<nat>, climberenable: nat,
                 randomenable: bool)
      requires pages.Valid() && pages.climbershift > 0
      requires |climberlocthre| == pages.n && forall i :: 0 <= i < pages.n ==> climberlocthre[i] > 0
      requires hashing1.Valid() && hashing1.shape.Valid() && hashing2.Valid() && hashing2.shape.Valid()
      requires hashing1.shape.areashift == hashing2.shape.areashift + hashing1.shape.groupshift
               && hashing1.shape.AreaSize() == pages.n
      ensures Valid() && this.pages == pages && totalcount == 0
    {
      hide HotOk, SketchOk, MapOk, PointOk, EmptyList, Inverse;
      var f1 := new BloomFilter(hashing1);
      var f2 := new BloomFilter(hashing2);
      filter1, filter2 := f1, f2;
      this.pages, this.climberlocthre := pages, climberlocthre;
      this.climberenable, this.randomenable := climberenable, randomenable;
      visitcount := new nat[pages.n](i => 0);
      totalcount, remaptimes := 0, 0;
    }

    ghost predicate WornOut()
      reads pages.life
    {
      exists a :: 0 <= a < pages.life.Length && pages.life[a] < 0.0
    }

    /** The body of doswap's innermost loops: page a gets the next rank. */
    method PlaceOne(a: nat, p: Plan, addr: nat, mapindex: nat, ghost r: Remap, ghost c: Hotness, ghost order: seq<nat>,
                    ghost cls: nat)
      returns (ok: bool)
      requires Running(r, c, p, addr, order, cls) && mapindex == |order| && a < p.n && a !in order && c.Class(a) == cls
      modifies pages.maplist, pages.reverselist, pages.climbla2hot, pages.life
      ensures ok || WornOut()
      ensures ok ==> Running(r, c, p, addr, order + [a], cls)
    {
      hide Remapping, Ranked, HotOk, Hotness.Class;
      RemapRoom(r, pages.Read(), pages.life[..], order, a);
      RankedStep(c, order, cls, a);
      var slot := p.Slot(mapindex);
      var charge := pages.maplist[a] != pages.sortednow[slot] || pages.maplist[a] == addr;
      ok := pages.PlaceNext(r, order, a, slot, charge);
    }

    /** The loop over one tier of one group of pages. */
    method PlaceTier(g: nat, t: nat, p: Plan, addr: nat, mapindex0: nat, ghost r: Remap, ghost c: Hotness,
                     ghost order0: seq<nat>, ghost cls: nat)
      returns (ok: bool, mapindex: nat, ghost order: seq<nat>)
      requires Running(r, c, p, addr, order0, cls) && mapindex0 == |order0|
      requires g < c.s1.GroupNums() && t < 3
      requires forall a :: Among(c.h1, c.s1, a, g, t, c.s1.ListSize(t)) ==> a !in order0 && c.Class(a) == cls
      modifies pages.maplist, pages.reverselist, pages.climbla2hot, pages.life
      ensures ok || WornOut()
      ensures ok ==> Running(r, c, p, addr, order, cls) && mapindex == |order|
      ensures ok ==> forall a: nat :: a in order <==> a in order0 || Among(c.h1, c.s1, a, g, t, c.s1.ListSize(t))
    {
      order, mapindex, ok := order0, mapindex0, true;
      AmongNone(c.h1, c.s1, g, t);
      for i := 0 to filter1.shape.ListSize(t)
        invariant Running(r, c, p, addr, order, cls) && mapindex == |order|
        invariant forall a: nat :: a in order <==> a in order0 || Among(c.h1, c.s1, a, g, t, i)
      {
        AmongStep(c.h1, c.s1, g, t, i);
        hide HotOk, Remapping, Ranked, Hotness.Class;
        var pos := filter1.shape.ListSize(t) - 1 - i;
        if filter1.ishotlist[g][t][pos] {
          var a := filter1.hotlist[g][t][pos];
          ok := PlaceOne(a, p, addr, mapindex, r, c, order, cls);
          if !ok {
            return;
          }
          order, mapindex := order + [a], mapindex + 1;
        }
      }
    }

    /** The loop over one tier of the groups' list: every page in tier t1 of every group there. */
    method PlaceHotTier(t1: nat, g2: nat, t2: nat, p: Plan, addr: nat, mapindex0: nat, ghost r: Remap,
                        ghost c: Hotness, ghost order0: seq<nat>)
      returns (ok: bool, mapindex: nat, ghost order: seq<nat>)
      requires Running(r, c, p, addr, order0, t1) && mapindex0 == |order0|
      requires t1 < 3 && g2 < c.s2.GroupNums() && t2 < 3
      requires forall a: nat :: HotGroupPage(c, a, t1, g2, t2, c.s2.ListSize(t2)) ==> a !in order0
      modifies pages.maplist, pages.reverselist, pages.climbla2hot, pages.life
      ensures ok || WornOut()
      ensures ok ==> Running(r, c, p, addr, order, t1) && mapindex == |order|
      ensures ok ==> forall a: nat :: a in order <==> a in order0 || HotGroupPage(c, a, t1, g2, t2, c.s2.ListSize(t2))
    {
      order, mapindex, ok := order0, mapindex0, true;
      AmongNone(c.h2, c.s2, g2, t2);
      for i := 0 to filter2.shape.ListSize(t2)
        invariant Running(r, c, p, addr, order, t1) && mapindex == |order|
        invariant forall a: nat :: a in order <==> a in order0 || HotGroupPage(c, a, t1, g2, t2, i)
      {
        HotTierStep(c, t1, g2, t2, i);
        hide HotOk, Remapping, Ranked, Hotness.Class, HotGroupPage, Among;
        var pos := filter2.shape.ListSize(t2) - 1 - i;
        if filter2.ishotlist[g2][t2][pos] {
          ok, mapindex, order := PlaceTier(filter2.hotlist[g2][t2][pos], t1, p, addr, mapindex, r, c, order, t1);
          if !ok {
            return;
          }
        }
      }
    }

    /** The loops over all hot groups: every page in tier t1 of them. */
    method PlaceHotGroups(t1: nat, p: Plan, addr: nat, mapindex0: nat, ghost r: Remap, ghost c: Hotness,
                          ghost order0: seq<nat>)
      returns (ok: bool, mapindex: nat, ghost order: seq<nat>)
      requires Running(r, c, p, addr, order0, t1) && mapindex0 == |order0| && t1 < 3
      requires forall a: nat :: HotInTier(c, a, t1) ==> a !in order0
      modifies pages.maplist, pages.reverselist, pages.climbla2hot, pages.life
      ensures ok || WornOut()
      ensures ok ==> Running(r, c, p, addr, order, t1) && mapindex == |order|
      ensures ok ==> forall a: nat :: a in order <==> a in order0 || HotInTier(c, a, t1)
    {
      order, mapindex, ok := order0, mapindex0, true;
      for g2 := 0 to filter2.shape.GroupNums()
        invariant Running(r, c, p, addr, order, t1) && mapindex == |order|
        invariant forall a: nat :: a in order <==> a in order0 || HotUpTo(c, a, t1, g2, 0)
      {
        for t2 := 0 to 3
          invariant Running(r, c, p, addr, order, t1) && mapindex == |order|
          invariant forall a: nat :: a in order <==> a in order0 || HotUpTo(c, a, t1, g2, t2)
        {
          HotUpToStep(c, t1, g2, t2);
          hide HotOk, Remapping, Ranked, Hotness.Class, HotGroupPage, Among;
          ok, mapindex, order := PlaceHotTier(t1, g2, t2, p, addr, mapindex, r, c, order);
          if !ok {
            return;
          }
        }
      }
      HotUpToAll(c, t1);
    }

    /** doswap's first loop nest: the hot pages of the hot groups, tier by tier. */
    method PlaceHot(p: Plan, addr: nat, ghost r: Remap, ghost c: Hotness)
      returns (ok: bool, mapindex: nat, ghost order: seq<nat>)
      requires Running(r, c, p, addr, [], 0)
      modifies pages.maplist, pages.reverselist, pages.climbla2hot, pages.life
      ensures ok || WornOut()
      ensures ok ==> Running(r, c, p, addr, order, 3) && mapindex == |order|
      ensures ok ==> forall a: nat :: a in order <==> a < c.Pages() && c.Class(a) < 3
    {
      order, mapindex, ok := [], 0, true;
      for t1 := 0 to 3
        invariant Running(r, c, p, addr, order, t1) && mapindex == |order|
        invariant forall a: nat :: a in order <==> a < c.Pages() && c.Class(a) < t1
      {
        HotInTierClass(c, t1);
        ok, mapindex, order := PlaceHotGroups(t1, p, addr, mapindex, r, c, order);
        if !ok {
          return;
        }
        RankedUp(c, order, t1, t1 + 1);
      }
    }

    /** The second: the hot pages of the other groups, group by group. */
    method PlaceOther(p: Plan, addr: nat, mapindex0: nat, ghost r: Remap, ghost c: Hotness, ghost order0: seq<nat>)
      returns (ok: bool, mapindex: nat, ghost order: seq<nat>)
      requires Running(r, c, p, addr, order0, 3) && mapindex0 == |order0|
      requires forall a: nat :: a in order0 <==> a < c.Pages() && c.Class(a) < 3
      modifies pages.maplist, pages.reverselist, pages.climbla2hot, pages.life
      ensures ok || WornOut()
      ensures ok ==> Running(r, c, p, addr, order, 4) && mapindex == |order|
      ensures ok ==> forall a: nat :: a in order <==> a < c.Pages() && c.Class(a) < 4
    {
      order, mapindex, ok := order0, mapindex0, true;
      for g := 0 to filter2.shape.AreaSize()
        invariant Running(r, c, p, addr, order, 3) && mapindex == |order|
        invariant forall a: nat :: a in order <==> a in order0 || OtherUpTo(c, a, g, 0)
      {
        OtherUpToSkip(c, g);
        if !filter2.isaddr2hot[g] {
          GroupsMatch(c);
          for t := 0 to 3
            invariant Running(r, c, p, addr, order, 3) && mapindex == |order|
            invariant forall a: nat :: a in order <==> a in order0 || OtherUpTo(c, a, g, t)
          {
            OtherUpToStep(c, g, t);
            ok, mapindex, order := PlaceTier(g, t, p, addr, mapindex, r, c, order, 3);
            if !ok {
              return;
            }
          }
        }
      }
      OtherUpToAll(c);
      RankedUp(c, order, 3, 4);
    }

    /** The third: the pages that are not hot. */
    method PlaceCold(p: Plan, addr: nat, mapindex0: nat, ghost r: Remap, ghost c: Hotness, ghost order0: seq<nat>)
      returns (ok: bool, ghost order: seq<nat>)
      requires Running(r, c, p, addr, order0, 4) && mapindex0 == |order0|
      requires forall a: nat :: a in order0 <==> a < c.Pages() && c.Class(a) < 4
      modifies pages.maplist, pages.reverselist, pages.climbla2hot, pages.life
      ensures ok || WornOut()
      ensures ok ==> Running(r, c, p, addr, order, 4)
      ensures ok ==> forall a: nat :: a in order <==> a < c.Pages()
    {
      var mapindex := mapindex0;
      order, ok := order0, true;
      for a0 := 0 to filter1.shape.AreaSize()
        invariant Running(r, c, p, addr, order, 4) && mapindex == |order|
        invariant forall a: nat :: a in order <==> a < c.Pages() && (c.Class(a) < 4 || a < a0)
      {
        if !filter1.isaddr2hot[a0] {
          ok := PlaceOne(a0, p, addr, mapindex, r, c, order, 4);
          if !ok {
            return;
          }
          order, mapindex := order + [a0], mapindex + 1;
        }
      }
    }

    /** The three loop nests of doswap: every page is placed exactly once. */
    method PlaceAll(p: Plan, addr: nat, ghost r: Remap, ghost c: Hotness)
      returns (ok: bool, ghost order: seq<nat>)
      requires Running(r, c, p, addr, [], 0)
      modifies pages.maplist, pages.reverselist, pages.climbla2hot, pages.life
      ensures ok || WornOut()
      ensures ok ==> Running(r, c, p, addr, order, 4) && MapOk(pages.Read(), pages.n)
      ensures ok ==> forall a: nat :: a in order <==> a < pages.n
    {
      hide HotOk, Ranked, Hotness.Class, Remapping;
      var mapindex;
      ok, mapindex, order := PlaceHot(p, addr, r, c);
      if !ok {
        return;
      }
      ok, mapindex, order := PlaceOther(p, addr, mapindex, r, c, order);
      if !ok {
        return;
      }
      ok, order := PlaceCold(p, addr, mapindex, r, c, order);
      if !ok {
        return;
      }
      AllPlaced(r, pages.Read(), pages.life[..], order);
    }

    /** The present mapping results from the complete remap r, begun in the given state by an access to la. */
    ghost predicate RemappedFrom(c: Hotness, m0: seq<nat>, life0: seq<real>, la: nat, r: Remap, order: seq<nat>)
      reads pages, pages.maplist, pages.reverselist, pages.sortednow, pages.climbla2hot, pages.life
    {
      && la < |m0| && r.m0 == m0 && r.life0 == life0 && r.addr == m0[la] && r.addrPays && r.plan.n == pages.n
      && r.plan.randomEnable == randomenable && r.plan.shift == pages.climbershift
      && Remapping(r, pages.Read(), pages.life[..], order) && Ranked(c, order, 4)
      && (forall a: nat :: a in order <==> a < pages.n)
      && CostsMoves(m0, life0, pages.maplist[..], pages.life[..], m0[la], true)
    }

    method MakePlan(isswap: nat) returns (p: Plan)
      requires pages.n > 0
      ensures p.Valid() && p.n == pages.n && p.descending == (isswap == 1) && p.randomEnable == randomenable
              && p.shift == pages.climbershift
    {
      var key := 0;
      if randomenable {
        key := GetRandom(0, Pow2(pages.climbershift) - 1);
      }
      p := Plan(pages.n, isswap == 1, randomenable, key, pages.climbershift);
    }

    /** The remap itself. lifeOrder is the order in which std::sort leaves the pages by endurance left; any
        permutation will do. */
    method RemapAll(la: nat, isswap: nat, lifeOrder: seq<nat>, ghost rank: seq<nat>)
      returns (ok: bool, ghost remap: Remap, ghost order: seq<nat>)
      requires Separate() && MapOk(pages.Read(), pages.n) && la < pages.n && Inverse(pages.n, lifeOrder, rank)
      requires FiltersOk()
      modifies pages.maplist, pages.reverselist, pages.sortednow, pages.climbla2hot, pages.life
      ensures ok || WornOut()
      ensures FiltersOk()
      ensures ok ==> pages.sortednow[..] == lifeOrder && MapOk(pages.Read(), pages.n)
                     && remap.plan.descending == (isswap == 1)
      ensures ok ==> RemappedFrom(old(Hot()), old(pages.maplist[..]), old(pages.life[..]), la, remap, order)
      ensures ok && isswap == 1 ==>
                ByHotness(old(Hot()), pages.Read(), old(pages.life[..]), lifeOrder, pages.climbershift, randomenable)
    {
      ghost var c := Hot();
      assert |lifeOrder| == pages.n;
      assert c.Valid() && c.Pages() == pages.n;
      hide HotOk, SketchOk, Ranked, Hotness.Class, Remapping, MapOk, Inverse, ByHotness, CostsMoves;
      var addr := pages.maplist[la];
      var p := MakePlan(isswap);
      remap := Remap(p, rank, pages.maplist[..], pages.reverselist[..], pages.life[..], addr, true);
      RemapStarts(remap, pages.Read(), lifeOrder, pages.life[..]);
      RankedNone(c);
      pages.Resort(lifeOrder);
      ok, order := PlaceAll(p, addr, remap, c);
      if ok {
        RemapCosts(remap, pages.Read(), pages.life[..], order);
      }
      if ok && isswap == 1 {
        RemapByHotness(c, remap, pages.Read(), pages.life[..], order);
      }
    }

    method ClearFilters()
      requires Separate() && FiltersOk()
      modifies filter1, filter2
      ensures FiltersOk()
      ensures filter1.View() == EmptyList(filter1.shape) && filter2.View() == EmptyList(filter2.shape)
      ensures pages.Read() == old(pages.Read()) && pages.life[..] == old(pages.life[..])
    {
      hide EmptyList, BloomFilter.Valid;
      filter1.Clear();
      filter2.Clear();
    }

    /** The remap and the clearing of the filters after it. */
    method RemapAndClear(la: nat, isswap: nat, lifeOrder: seq<nat>, ghost rank: seq<nat>)
      returns (ok: bool, ghost remap: Remap, ghost order: seq<nat>)
      requires Valid() && la < pages.n && Inverse(pages.n, lifeOrder, rank)
      modifies this`remaptimes, pages.maplist, pages.reverselist, pages.sortednow, pages.climbla2hot, pages.life
      modifies filter1, filter2
      ensures ok || WornOut()
      ensures ok ==> Valid() && filter1.View() == EmptyList(filter1.shape) && filter2.View() == EmptyList(filter2.shape)
      ensures ok ==> pages.sortednow[..] == lifeOrder && remaptimes == old(remaptimes) + 1
                     && remap.plan.descending == (isswap == 1)
      ensures ok ==> RemappedFrom(old(Hot()), old(pages.maplist[..]), old(pages.life[..]), la, remap, order)
      ensures ok && isswap == 1 ==>
                ByHotness(old(Hot()), pages.Read(), old(pages.life[..]), lifeOrder, pages.climbershift, randomenable)
    {
      hide RemappedFrom, ByHotness, PointOk, MapOk, Inverse, EmptyList, Separate, FiltersOk;
      ok, remap, order := RemapAll(la, isswap, lifeOrder, rank);
      if ok {
        remaptimes := remaptimes + 1;
        ClearFilters();
      }
    }

    /** doswap, including what it does when asked not to swap: only the climbing point and the filters change. */
    method DoSwap(la: nat, isswap: nat, lifeOrder: seq<nat>, ghost rank: seq<nat>)
      returns (r: int, ghost remap: Remap, ghost order: seq<nat>)
      requires Valid() && la < pages.n && Inverse(pages.n, lifeOrder, rank)
      modifies this`remaptimes, pages, pages.maplist, pages.reverselist, pages.sortednow, pages.climbla2hot, pages.life
      modifies filter1, filter2
      ensures r == (if isswap == 0 then 0 else 1) || (r == -1 && isswap != 0 && WornOut())
      ensures r != -1 ==> Valid() && filter1.View() == EmptyList(filter1.shape)
                          && filter2.View() == EmptyList(filter2.shape)
      ensures r == 0 ==> pages.Read() == old(pages.Read()) && pages.life[..] == old(pages.life[..])
      ensures r == 1 ==> pages.sortednow[..] == lifeOrder && remaptimes == old(remaptimes) + 1
                         && remap.plan.descending == (isswap == 1)
      ensures r == 1 ==> RemappedFrom(old(Hot()), old(pages.maplist[..]), old(pages.life[..]), la, remap, order)
      ensures r == 1 && isswap == 1 ==>
                ByHotness(old(Hot()), pages.Read(), old(pages.life[..]), lifeOrder, pages.climbershift, randomenable)
    {
      hide RemappedFrom, ByHotness, MapOk, Inverse, EmptyList, Separate, FiltersOk;
      remap, order := Remap(Plan(0, false, false, 0, 0), [], [], [], [], 0, true), [];
      pages.StepPoint();
      if isswap == 0 {
        ClearFilters();
        return 0, remap, order;
      }
      var ok;
      ok, remap, order := RemapAndClear(la, isswap, lifeOrder, rank);
      return if ok then 1 else -1, remap, order;
    }

    /** It is time for la to try to climb. */
    predicate Due(la: nat, counterv: nat)
      reads pages.maplist
      requires Separate() && la < pages.n && pages.maplist[la] < pages.n
    {
      counterv / 4 % climberlocthre[pages.maplist[la]] == 0 && climberenable >= 1
    }

    /** climber: as in the ideal scheme, but every so many counts divided by four, and comparing with an estimate
        of how often the other page was accessed. */
    method TryClimb(la: nat, counterv: nat) returns (r: int, ghost target: nat, ghost targetcount: nat)
      requires Separate() && pages.Valid() && FiltersOk() && la < pages.n
      modifies pages.maplist, pages.reverselist, pages.climbla2hot, pages.life
      ensures pages.Valid()
      ensures !old(Due(la, counterv)) ==>
                r == 0 && pages.Read() == old(pages.Read()) && pages.life[..] == old(pages.life[..])
      ensures old(Due(la, counterv)) ==>
                && target < pages.n
                && Drawn(old(pages.Read()), pages.n, pages.climbershift, pages.climberpoint, la, target)
                && IsEstimate(filter1.counter, filter1.hashing, old(pages.reverselist[target]), targetcount)
                && Climbed(old(pages.Read()), old(pages.life[..]), pages.life0, pages.Read(), pages.life[..], la,
                           target, counterv, targetcount, r)
                && (r != -1 ==>
                      BusierFresher(pages.maplist[..], old(pages.life[..]), pages.life0, la,
                                    old(pages.reverselist[target]), counterv, targetcount, r == 1))
    {
      hide HotOk, SketchOk, IsEstimate, Drawn, Climbed, BusierFresher;
      r, target, targetcount := 0, 0, 0;
      if Due(la, counterv) {
        var targetaddr := pages.Target(la);
        var tarla := pages.reverselist[targetaddr];
        var count := filter1.GetCount(tarla);
        target, targetcount := targetaddr, count;
        r := pages.Climb(la, targetaddr, counterv, count);
      }
    }

    /** Wears the page that la ends up on, after a climb if it is time for one. */
    method Write(la: nat, counterv: nat) returns (r: int)
      requires Separate() && pages.Valid() && FiltersOk() && la < pages.n
      modifies pages.maplist, pages.reverselist, pages.climbla2hot, pages.life
      ensures pages.Valid() && pages.sortednow[..] == old(pages.sortednow[..])
      ensures r == 0 || (r == -1 && WornOut())
      ensures r == 0 ==> Wrote(old(pages.Read()), old(pages.life[..]), pages.Read(), pages.life[..], la)
      ensures r == 0 && old(Due(la, counterv)) ==>
                Tried(old(pages.Read()), old(pages.life[..]), pages.life0, pages.maplist[..], counterv,
                      filter1.counter, filter1.hashing, pages.climbershift, pages.climberpoint, la)
    {
      hide FiltersOk, Wrote, Drawn, IsEstimate, BusierFresher;
      ghost var v, life := pages.Read(), pages.life[..];
      ghost var due := Due(la, counterv);
      ghost var target, targetcount;
      var climbed;
      climbed, target, targetcount := TryClimb(la, counterv);
      if climbed == -1 {
        return -1;
      }
      if due {
        WriteAfterClimb(v, life, pages.life0, pages.Read(), pages.life[..], la, target, counterv, targetcount, climbed);
        NotWorse(pages.maplist[..], life, pages.life0, la, v.reverselist[target], counterv, targetcount, climbed == 1);
      } else {
        WriteWithoutClimb(v, life, la);
      }
      var addr := pages.maplist[la];
      pages.life[addr] := pages.life[addr] - 1.0;
      return if pages.life[addr] < 0.0 then -1 else 0;
    }

    /** The hot lists once an access to page la has been counted. */
    ghost function NextHot(la: nat): Hotness
      reads filter1, filter2
      requires FiltersOk() && la < pages.n
    {
      PageGroup(Hot(), la);
      Hotness(filter1.NextView(la, HOT_THRESHOLD), filter1.shape,
              filter2.NextView(filter1.shape.Group(la), HOT_THRESHOLD), filter2.shape)
    }

    /** Counts an access to page la, in both filters. */
    method CountAccess(la: nat) returns (isclimb: nat)
      requires Separate() && FiltersOk() && la < pages.n
      modifies filter1, filter2
      ensures FiltersOk() && Hot() == old(NextHot(la)) && isclimb == old(filter1.NextCount(la))
      ensures filter1.accesses == old(filter1.accesses)[la := old(filter1.accesses)[la] + 1]
              && isclimb >= filter1.accesses[la]
      ensures filter1.shape.Group(la) < filter2.shape.AreaSize()
      ensures
        var g := filter1.shape.Group(la);
        filter2.accesses == old(filter2.accesses)[g := old(filter2.accesses)[g] + 1]
      ensures filter1.accesses[la] >= HOT_THRESHOLD ==> filter1.isaddr2hot[la]
      ensures filter2.accesses[filter1.shape.Group(la)] >= HOT_THRESHOLD ==> filter2.isaddr2hot[filter1.shape.Group(la)]
    {
      hide HotOk, SketchOk, Accessed, IsEstimate, Index, BloomFilter.NextView, BloomFilter.NextCount, BloomFilter.View,
        BloomFilter.Valid;
      PageGroup(Hot(), la);
      isclimb := filter1.Access(la, HOT_THRESHOLD);
      var groupcount := filter2.Access(filter1.shape.Group(la), HOT_THRESHOLD);
    }

    /** One access. The result is 1 if it remapped the memory, -1 if a page wore out. The ghost results are the
        mapping, the endurance and the hot lists after the write, and the remap. */
    method Access(la: nat, lifeOrder: seq<nat>, ghost rank: seq<nat>)
      returns (r: int, ghost mid: View, ghost midLife: seq<real>, ghost hot: Hotness, ghost remap: Remap,
               ghost order: seq<nat>)
      requires Valid() && la < pages.n && Inverse(pages.n, lifeOrder, rank)
      modifies this, visitcount, pages, pages.maplist, pages.reverselist, pages.sortednow, pages.climbla2hot, pages.life
      modifies filter1, filter2
      ensures r == 0 || r == 1 || (r == -1 && WornOut())
      ensures r != -1 ==>
                && Valid() && Wrote(old(pages.Read()), old(pages.life[..]), mid, midLife, la)
                && totalcount == (if old(totalcount) + 1 == CYCLE_THRESHOLD then 0 else old(totalcount) + 1)
                && (r == 1 <==> totalcount == REMAP_THRESHOLD && climberenable == 1)
      ensures r == 0 && old(Due(la, filter1.NextCount(la))) ==>
                Tried(old(pages.Read()), old(pages.life[..]), pages.life0, mid.maplist, old(filter1.NextCount(la)),
                      filter1.counter, filter1.hashing, pages.climbershift, pages.climberpoint, la)
      ensures hot == old(NextHot(la))
      ensures r == 0 ==> pages.Read() == mid && pages.life[..] == midLife && Hot() == hot
      ensures r == 0 ==> filter1.accesses == old(filter1.accesses)[la := old(filter1.accesses)[la] + 1]
      ensures r == 1 ==>
                && pages.sortednow[..] == lifeOrder && remap.plan.descending && |midLife| == pages.n
                && RemappedFrom(hot, mid.maplist, midLife, la, remap, order)
                && ByHotness(hot, pages.Read(), midLife, lifeOrder, pages.climbershift, randomenable)
                && filter1.View() == EmptyList(filter1.shape) && filter2.View() == EmptyList(filter2.shape)
    {
      hide MapOk, PointOk, Inverse, FiltersOk, NextHot, RemappedFrom, ByHotness, EmptyList, Wrote, Tried;
      remap, order := Remap(Plan(0, false, false, 0, 0), [], [], [], [], 0, true), [];
      if totalcount < REMAP_THRESHOLD {
        visitcount[la] := visitcount[la] + 1;
      }
      totalcount := totalcount + 1;
      var isclimb := CountAccess(la);
      r := Write(la, isclimb);
      mid, midLife, hot := pages.Read(), pages.life[..], Hot();
      if r == -1 {
        return;
      }
      if totalcount == CYCLE_THRESHOLD {
        totalcount := 0;
      }
      if totalcount == REMAP_THRESHOLD && climberenable == 1 {
        r, remap, order := DoSwap(la, 1, lifeOrder, rank);
      }
    }
  }

  lemma RankedNone(c: Hotness)
    requires c.Valid()
    ensures Ranked(c, [], 0)
  {
  }

  lemma AllPlaced(r: Remap, v: View, life: seq<real>, order: seq<nat>)
    requires Remapping(r, v, life, order) && forall a: nat :: a < r.plan.n ==> a in order
    ensures MapOk(v, r.plan.n)
  {
    PlaceDone(v, r.plan, order, r.rank);
  }
}
