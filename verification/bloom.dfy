/** The filter that bwlmm_climber.cpp keeps of the pages (and of the page groups) written most: a sketch of
    hashed counters, and for every group a hot list of three tiers with an index from pages to list slots. */
module BloomFilters {
  import opened Bits
  import opened Counting
  import opened Options

  const TIER_CAPACITY := 128
  const UNUSED: nat := 0xFFFF_FFFF_FFFF_FFFF

  // ---------------------------------------------------------------------------------------------
  // The hot list
  // ---------------------------------------------------------------------------------------------

  /** The sizes of a filter over 2^areashift addresses. Tier 0 is the hottest; slot codes count up from the
      start of tier 2 to the end of tier 0. */
  datatype Shape = Shape(list1size: nat, list2size: nat, list3size: nat, groupshift: nat, areashift: nat) {
    ghost predicate Valid() {
      1 <= list1size <= TIER_CAPACITY && 1 <= list2size <= TIER_CAPACITY && 1 <= list3size <= TIER_CAPACITY
    }

    function AreaSize(): nat {
      Pow2(areashift)
    }

    function GroupNums(): nat {
      ShiftRight(AreaSize(), groupshift) + 1
    }

    function Group(a: nat): nat {
      ShiftRight(a, groupshift)
    }

    function HotListSize(): nat {
      list1size + list2size + list3size
    }

    function ListSize(tier: nat): nat {
      if tier == 0 then list1size else if tier == 1 then list2size else list3size
    }

    function Tier(code: nat): nat {
      if code < list3size then 2 else if code < list3size + list2size then 1 else 0
    }

    function Pos(code: nat): nat {
      if code < list3size then code
      else if code < list3size + list2size then code - list3size
      else code - list3size - list2size
    }

    function Code(tier: nat, pos: nat): nat {
      if tier == 2 then pos else if tier == 1 then list3size + pos else list3size + list2size + pos
    }

    /** The slot a page is promoted to: from anywhere in tier 2 to the start of tier 1, else to the next slot. */
    function Above(code: nat): nat {
      if code < list3size then list3size else if code + 1 < HotListSize() then code + 1 else code
    }
  }

  lemma GroupInRange(s: Shape, a: nat)
    requires a < s.AreaSize()
    ensures s.Group(a) < s.GroupNums()
  {
    var m, q := Pow2(s.groupshift), s.AreaSize() / Pow2(s.groupshift);
    assert (q + 1) * m == q * m + m;
    BlockBelow(a, m, q + 1);
  }

  datatype HotList = HotList(hotlist: seq<seq<seq<nat>>>, ishotlist: seq<seq<seq<bool>>>, addr2hot: seq<nat>,
                             isaddr2hot: seq<bool>)

  ghost predicate GroupShaped(addrs: seq<seq<nat>>, flags: seq<seq<bool>>) {
    |addrs| == |flags| == 3 && forall t :: 0 <= t < 3 ==> |addrs[t]| == |flags[t]| == TIER_CAPACITY
  }

  ghost predicate WellShaped(h: HotList, s: Shape) {
    && |h.hotlist| == |h.ishotlist| == s.GroupNums() && |h.addr2hot| == |h.isaddr2hot| == s.AreaSize()
    && forall g :: 0 <= g < |h.hotlist| ==> GroupShaped(h.hotlist[g], h.ishotlist[g])
  }

  /** The address on a slot of a group's list, if it is occupied. */
  ghost function Slot(h: HotList, s: Shape, g: nat, code: nat): Option<nat>
    requires s.Valid() && WellShaped(h, s) && g < s.GroupNums() && code < s.HotListSize()
  {
    assert GroupShaped(h.hotlist[g], h.ishotlist[g]);
    if h.ishotlist[g][s.Tier(code)][s.Pos(code)] then Some(h.hotlist[g][s.Tier(code)][s.Pos(code)]) else None
  }

  /** The slot that the index holds for an address, if any. */
  ghost function Index(h: HotList, a: nat): Option<nat>
    requires a < |h.addr2hot| == |h.isaddr2hot|
  {
    if h.isaddr2hot[a] then Some(h.addr2hot[a]) else None
  }

  /** The list and its index are inverse to each other. */
  ghost predicate HotOk(h: HotList, s: Shape) {
    && s.Valid() && WellShaped(h, s)
    && (forall g, code :: 0 <= g < s.GroupNums() && 0 <= code < s.HotListSize() ==> SlotOk(h, s, g, code))
    && (forall a :: 0 <= a < s.AreaSize() ==> IndexOk(h, s, a))
  }

  ghost predicate SlotOk(h: HotList, s: Shape, g: nat, code: nat)
    requires s.Valid() && WellShaped(h, s) && g < s.GroupNums() && code < s.HotListSize()
  {
    match Slot(h, s, g, code)
    case None => true
    case Some(a) => a < s.AreaSize() && s.Group(a) == g && Index(h, a) == Some(code)
  }

  ghost predicate IndexOk(h: HotList, s: Shape, a: nat)
    requires s.Valid() && WellShaped(h, s) && a < s.AreaSize()
  {
    match Index(h, a)
    case None => true
    case Some(code) =>
      GroupInRange(s, a);
      code < s.HotListSize() && Slot(h, s, s.Group(a), code) == Some(a)
  }

  /** No address is on the list twice, and none is on the list of a group that is not its own. */
  lemma ListedOnce(h: HotList, s: Shape, g: nat, code: nat, g': nat, code': nat)
    requires HotOk(h, s) && g < s.GroupNums() && code < s.HotListSize() && g' < s.GroupNums() && code' < s.HotListSize()
    requires Slot(h, s, g, code).Some? && Slot(h, s, g, code) == Slot(h, s, g', code')
    ensures g == g' && code == code'
  {
    assert SlotOk(h, s, g, code) && SlotOk(h, s, g', code');
  }

  // Writing a slot or an index entry

  ghost function Stored(h: HotList, g: nat, t: nat, p: nat, a: nat, present: bool): HotList
    requires g < |h.hotlist| == |h.ishotlist| && GroupShaped(h.hotlist[g], h.ishotlist[g]) && t < 3 && p < TIER_CAPACITY
  {
    h.(hotlist := h.hotlist[g := h.hotlist[g][t := h.hotlist[g][t][p := a]]],
    ishotlist := h.ishotlist[g := h.ishotlist[g][t := h.ishotlist[g][t][p := present]]])
  }

  ghost function Indexed(h: HotList, a: nat, code: nat, present: bool): HotList
    requires a < |h.addr2hot| == |h.isaddr2hot|
  {
    h.(addr2hot := h.addr2hot[a := code], isaddr2hot := h.isaddr2hot[a := present])
  }

  lemma StoredSlot(h: HotList, s: Shape, g: nat, t: nat, p: nat, a: nat, present: bool, g': nat, code: nat)
    requires s.Valid() && WellShaped(h, s) && g < s.GroupNums() && t < 3 && p < s.ListSize(t)
    requires g' < s.GroupNums() && code < s.HotListSize()
    ensures GroupShaped(h.hotlist[g], h.ishotlist[g]) && WellShaped(Stored(h, g, t, p, a, present), s)
    ensures
      Slot(Stored(h, g, t, p, a, present), s, g', code) ==
      if g' == g && code == s.Code(t, p) then (if present then Some(a) else None) else Slot(h, s, g', code)
  {
    StoredShape(h, s, g, t, p, a, present);
    assert GroupShaped(h.hotlist[g'], h.ishotlist[g']);
  }

  lemma StoredShape(h: HotList, s: Shape, g: nat, t: nat, p: nat, a: nat, present: bool)
    requires WellShaped(h, s) && g < s.GroupNums() && t < 3 && p < TIER_CAPACITY
    ensures GroupShaped(h.hotlist[g], h.ishotlist[g]) && WellShaped(Stored(h, g, t, p, a, present), s)
  {
    var k := Stored(h, g, t, p, a, present);
    forall x | 0 <= x < |k.hotlist|
      ensures GroupShaped(k.hotlist[x], k.ishotlist[x])
    {
      assert GroupShaped(h.hotlist[x], h.ishotlist[x]);
    }
  }

  /** What promoting a may rely on. */
  ghost predicate MayPromote(h: HotList, s: Shape, a: nat, t: nat, p: nat, t': nat, p': nat) {
    && HotOk(h, s) && a < s.AreaSize() && t < 3 && p < s.ListSize(t) && t' < 3 && p' < s.ListSize(t')
    && (t, p) != (t', p')
    && Index(h, a) == Some(s.Code(t, p))
  }

  lemma CodeFits(s: Shape, t: nat, p: nat)
    requires s.Valid() && t < 3 && p < s.ListSize(t)
    ensures s.Code(t, p) < s.HotListSize() && s.Tier(s.Code(t, p)) == t && s.Pos(s.Code(t, p)) == p
  {
  }

  lemma PromotionDefined(h: HotList, s: Shape, a: nat, t: nat, p: nat, t': nat, p': nat)
    requires MayPromote(h, s, a, t, p, t', p')
    ensures s.Group(a) < s.GroupNums() && GroupShaped(h.hotlist[s.Group(a)], h.ishotlist[s.Group(a)])
    ensures h.ishotlist[s.Group(a)][t'][p'] ==> h.hotlist[s.Group(a)][t'][p'] < s.AreaSize()
    ensures h.ishotlist[s.Group(a)][t][p] && h.hotlist[s.Group(a)][t][p] == a
  {
    GroupInRange(s, a);
    CodeFits(s, t, p);
    CodeFits(s, t', p');
    assert SlotOk(h, s, s.Group(a), s.Code(t', p'));
    assert IndexOk(h, s, a);
  }

  /** Promotion: a moves to the slot at (t', p'), and what was there moves to a's old slot (t, p). */
  ghost function Promoted(h: HotList, s: Shape, a: nat, t: nat, p: nat, t': nat, p': nat): HotList
    requires MayPromote(h, s, a, t, p, t', p')
  {
    PromotionDefined(h, s, a, t, p, t', p');
    var g := s.Group(a);
    var other, occupied := h.hotlist[g][t'][p'], h.ishotlist[g][t'][p'];
    var h1 := if occupied then Indexed(h, other, h.addr2hot[a], h.isaddr2hot[a]) else h;
    StoredShape(h1, s, g, t, p, other, occupied);
    var h2 := Stored(h1, g, t, p, other, occupied);
    StoredShape(h2, s, g, t', p', a, true);
    Indexed(Stored(h2, g, t', p', a, true), a, s.Code(t', p'), true)
  }

  lemma PromotedSlot(h: HotList, s: Shape, a: nat, t: nat, p: nat, t': nat, p': nat, g: nat, code: nat)
    requires MayPromote(h, s, a, t, p, t', p') && g < s.GroupNums() && code < s.HotListSize()
    ensures
      var k := Promoted(h, s, a, t, p, t', p');
      && WellShaped(k, s)
      && Slot(k, s, g, code) ==
         if g == s.Group(a) && code == s.Code(t', p') then Some(a)
         else if g == s.Group(a) && code == s.Code(t, p) then Slot(h, s, g, s.Code(t', p'))
         else Slot(h, s, g, code)
  {
    PromotionDefined(h, s, a, t, p, t', p');
    hide SlotOk, IndexOk;
    var g0 := s.Group(a);
    var other, occupied := h.hotlist[g0][t'][p'], h.ishotlist[g0][t'][p'];
    var h1 := if occupied then Indexed(h, other, h.addr2hot[a], h.isaddr2hot[a]) else h;
    assert Slot(h1, s, g, code) == Slot(h, s, g, code);
    StoredSlot(h1, s, g0, t, p, other, occupied, g, code);
    var h2 := Stored(h1, g0, t, p, other, occupied);
    StoredSlot(h2, s, g0, t', p', a, true, g, code);
  }

  /** The address promoted and the one it displaces trade slots, in the list and in the index; nothing else changes. */
  lemma PromotedIndex(h: HotList, s: Shape, a: nat, t: nat, p: nat, t': nat, p': nat, x: nat)
    requires MayPromote(h, s, a, t, p, t', p') && x < s.AreaSize()
    ensures s.Group(a) < s.GroupNums() && s.Code(t', p') < s.HotListSize()
    ensures
      var k := Promoted(h, s, a, t, p, t', p');
      && |k.addr2hot| == |k.isaddr2hot| == s.AreaSize()
      && Index(k, x) ==
         if x == a then Some(s.Code(t', p'))
         else if Slot(h, s, s.Group(a), s.Code(t', p')) == Some(x) then Some(s.Code(t, p))
         else Index(h, x)
  {
    PromotionDefined(h, s, a, t, p, t', p');
    hide SlotOk, IndexOk;
    CodeFits(s, t', p');
  }

  lemma PromotedKeeps(h: HotList, s: Shape, a: nat, t: nat, p: nat, t': nat, p': nat)
    requires MayPromote(h, s, a, t, p, t', p')
    ensures HotOk(Promoted(h, s, a, t, p, t', p'), s)
  {
    hide Promoted, SlotOk, IndexOk, Slot, Index;
    var k := Promoted(h, s, a, t, p, t', p');
    CodeFits(s, t, p);
    CodeFits(s, t', p');
    PromotedSlot(h, s, a, t, p, t', p', 0, 0);
    forall g, code | 0 <= g < s.GroupNums() && 0 <= code < s.HotListSize()
      ensures SlotOk(k, s, g, code)
    {
      PromotedSlotOk(h, s, a, t, p, t', p', g, code);
    }
    forall x | 0 <= x < s.AreaSize()
      ensures IndexOk(k, s, x)
    {
      PromotedIndexOk(h, s, a, t, p, t', p', x);
    }
  }

  lemma PromotedSlotOk(h: HotList, s: Shape, a: nat, t: nat, p: nat, t': nat, p': nat, g: nat, code: nat)
    requires MayPromote(h, s, a, t, p, t', p') && g < s.GroupNums() && code < s.HotListSize()
    requires WellShaped(Promoted(h, s, a, t, p, t', p'), s)
    ensures SlotOk(Promoted(h, s, a, t, p, t', p'), s, g, code)
  {
    hide Promoted, Slot, Index;
    var g0, c, c' := s.Group(a), s.Code(t, p), s.Code(t', p');
    GroupInRange(s, a);
    CodeFits(s, t, p);
    CodeFits(s, t', p');
    PromotedSlot(h, s, a, t, p, t', p', g, code);
    assert IndexOk(h, s, a) && SlotOk(h, s, g, code) && SlotOk(h, s, g0, c');
    var k := Promoted(h, s, a, t, p, t', p');
    if Slot(k, s, g, code).Some? {
      PromotedIndex(h, s, a, t, p, t', p', Slot(k, s, g, code).value);
    }
  }

  lemma PromotedIndexOk(h: HotList, s: Shape, a: nat, t: nat, p: nat, t': nat, p': nat, x: nat)
    requires MayPromote(h, s, a, t, p, t', p') && x < s.AreaSize()
    requires WellShaped(Promoted(h, s, a, t, p, t', p'), s)
    ensures IndexOk(Promoted(h, s, a, t, p, t', p'), s, x)
  {
    hide Promoted, Slot, Index;
    var g0, c, c' := s.Group(a), s.Code(t, p), s.Code(t', p');
    GroupInRange(s, a);
    CodeFits(s, t, p);
    CodeFits(s, t', p');
    PromotedIndex(h, s, a, t, p, t', p', x);
    GroupInRange(s, x);
    assert IndexOk(h, s, a) && IndexOk(h, s, x) && SlotOk(h, s, g0, c');
    var k := Promoted(h, s, a, t, p, t', p');
    if Index(k, x).Some? {
      PromotedSlot(h, s, a, t, p, t', p', s.Group(x), Index(k, x).value);
    }
  }

  lemma InsertionDefined(h: HotList, s: Shape, a: nat, point: nat)
    requires HotOk(h, s) && a < s.AreaSize() && point < s.list3size
    ensures s.Group(a) < s.GroupNums() && GroupShaped(h.hotlist[s.Group(a)], h.ishotlist[s.Group(a)])
    ensures h.ishotlist[s.Group(a)][2][point] ==> h.hotlist[s.Group(a)][2][point] < s.AreaSize()
  {
    GroupInRange(s, a);
    CodeFits(s, 2, point);
    assert SlotOk(h, s, s.Group(a), point);
  }

  /** Insertion: a enters tier 2 at the group's point, and whatever was there leaves the list. */
  ghost function Inserted(h: HotList, s: Shape, a: nat, point: nat): HotList
    requires HotOk(h, s) && a < s.AreaSize() && point < s.list3size
  {
    InsertionDefined(h, s, a, point);
    var g := s.Group(a);
    var h1 := if h.ishotlist[g][2][point] then h.(isaddr2hot := h.isaddr2hot[h.hotlist[g][2][point] := false]) else h;
    Indexed(Stored(h1, g, 2, point, a, true), a, point, true)
  }

  /** The occupant of the insertion point is the only address evicted. */
  lemma InsertedChanges(h: HotList, s: Shape, a: nat, point: nat, g: nat, code: nat, x: nat)
    requires HotOk(h, s) && a < s.AreaSize() && point < s.list3size && Index(h, a) == None
    requires g < s.GroupNums() && code < s.HotListSize() && x < s.AreaSize()
    ensures s.Group(a) < s.GroupNums()
    ensures
      var k := Inserted(h, s, a, point);
      && WellShaped(k, s)
      && Slot(k, s, g, code) == (if g == s.Group(a) && code == point then Some(a) else Slot(h, s, g, code))
      && Index(k, x) == if x == a then Some(point) else if Slot(h, s, s.Group(a), point) == Some(x) then None
                        else Index(h, x)
  {
    InsertionDefined(h, s, a, point);
    hide SlotOk, IndexOk;
    var g0 := s.Group(a);
    var h1 := if h.ishotlist[g0][2][point] then h.(isaddr2hot := h.isaddr2hot[h.hotlist[g0][2][point] := false]) else h;
    assert Slot(h1, s, g, code) == Slot(h, s, g, code);
    CodeFits(s, 2, point);
    StoredSlot(h1, s, g0, 2, point, a, true, g, code);
  }

  lemma InsertedKeeps(h: HotList, s: Shape, a: nat, point: nat)
    requires HotOk(h, s) && a < s.AreaSize() && point < s.list3size && Index(h, a) == None
    ensures HotOk(Inserted(h, s, a, point), s)
  {
    hide Inserted, Slot, Index;
    var k, g0 := Inserted(h, s, a, point), s.Group(a);
    GroupInRange(s, a);
    InsertedChanges(h, s, a, point, g0, point, a);
    assert SlotOk(h, s, g0, point);
    forall g, code | 0 <= g < s.GroupNums() && 0 <= code < s.HotListSize()
      ensures SlotOk(k, s, g, code)
    {
      InsertedChanges(h, s, a, point, g, code, a);
      assert SlotOk(h, s, g, code);
      if Slot(k, s, g, code).Some? {
        InsertedChanges(h, s, a, point, g, code, Slot(k, s, g, code).value);
      }
    }
    forall x | 0 <= x < s.AreaSize()
      ensures IndexOk(k, s, x)
    {
      InsertedChanges(h, s, a, point, g0, point, x);
      GroupInRange(s, x);
      assert IndexOk(h, s, x);
      if Index(k, x).Some? {
        InsertedChanges(h, s, a, point, s.Group(x), Index(k, x).value, x);
      }
    }
  }

  /** What an access does to the hot list: a listed address moves up one slot; another enters the list at the
      group's point if its counters are hot. */
  ghost function Accessed(h: HotList, s: Shape, a: nat, hot: bool, point: nat): HotList
    requires HotOk(h, s) && a < s.AreaSize() && point < s.list3size
  {
    if Index(h, a).Some? then
      var c := Index(h, a).value;
      if s.Above(c) == c then h
      else
        ClimbDefined(h, s, a);
        Promoted(h, s, a, s.Tier(c), s.Pos(c), s.Tier(s.Above(c)), s.Pos(s.Above(c)))
    else if hot then
      Inserted(h, s, a, point)
    else h
  }

  lemma ClimbDefined(h: HotList, s: Shape, a: nat)
    requires HotOk(h, s) && a < s.AreaSize() && Index(h, a).Some? && s.Above(Index(h, a).value) != Index(h, a).value
    ensures
      var c := Index(h, a).value;
      var (t, p, t', p') := (s.Tier(c), s.Pos(c), s.Tier(s.Above(c)), s.Pos(s.Above(c)));
      && MayPromote(h, s, a, t, p, t', p') && s.Code(t, p) == c && s.Code(t', p') == s.Above(c) < s.HotListSize()
  {
    var c := Index(h, a).value;
    assert IndexOk(h, s, a);
  }

  /** The list and its index stay inverse to each other through every access. */
  lemma AccessedKeeps(h: HotList, s: Shape, a: nat, hot: bool, point: nat)
    requires HotOk(h, s) && a < s.AreaSize() && point < s.list3size
    ensures HotOk(Accessed(h, s, a, hot, point), s)
  {
    hide SlotOk, IndexOk, Promoted, Inserted;
    if Index(h, a).Some? {
      var c := Index(h, a).value;
      if s.Above(c) != c {
        ClimbDefined(h, s, a);
        PromotedKeeps(h, s, a, s.Tier(c), s.Pos(c), s.Tier(s.Above(c)), s.Pos(s.Above(c)));
      }
    } else if hot {
      InsertedKeeps(h, s, a, point);
    }
  }

  /** An access never lowers the address accessed, lowers at most the one it displaces, and evicts nobody
      from above the insertion point. */
  lemma AccessedMoves(h: HotList, s: Shape, a: nat, hot: bool, point: nat, x: nat)
    requires HotOk(h, s) && a < s.AreaSize() && point < s.list3size && x < s.AreaSize()
    ensures
      var k := Accessed(h, s, a, hot, point);
      && |k.addr2hot| == |k.isaddr2hot| == s.AreaSize()
      && (Index(h, x).Some? ==> 0 <= Index(h, x).value < s.HotListSize())
      && (x == a && Index(h, a).Some? ==> Index(k, a) == Some(s.Above(Index(h, a).value)))
      && (x == a && Index(h, a) == None ==> Index(k, a) == if hot then Some(point) else None)
      && (x != a && Index(k, x) != Index(h, x) ==>
            && Index(h, x).Some?
            && Index(k, x) == if Index(h, a).Some? then Index(h, a) else None)
      && (x != a && Index(h, x).Some? && Index(k, x) == None ==> Index(h, x) == Some(point) && s.Group(x) == s.Group(a))
  {
    hide Promoted, Inserted, Slot;
    assert IndexOk(h, s, x) && IndexOk(h, s, a);
    var g := s.Group(a);
    GroupInRange(s, a);
    if Index(h, a).Some? {
      var c := Index(h, a).value;
      if s.Above(c) != c {
        ClimbDefined(h, s, a);
        PromotedIndex(h, s, a, s.Tier(c), s.Pos(c), s.Tier(s.Above(c)), s.Pos(s.Above(c)), x);
        assert SlotOk(h, s, g, s.Above(c));
      }
    } else if hot {
      InsertedChanges(h, s, a, point, g, point, x);
      assert SlotOk(h, s, g, point);
    }
  }

  /** What an access to a does to the index of every address x, given the slots before. A listed address goes from
      tier 2 to the start of tier 1, or up by one slot until it has reached the top, and the occupant of its new slot
      gets its old one. An address that becomes listed starts at the insertion point, and the occupant of that, in the
      same group, is dropped. Nobody else moves. */
  ghost predicate Stepped(h: HotList, k: HotList, s: Shape, a: nat, hot: bool, point: nat) {
    && |h.addr2hot| == |h.isaddr2hot| == |k.addr2hot| == |k.isaddr2hot| == s.AreaSize() && a < s.AreaSize()
    && var top := s.list1size + s.list2size + s.list3size - 1;
    (if h.isaddr2hot[a] then
       var was := h.addr2hot[a];
       && k.isaddr2hot[a]
       && k.addr2hot[a] == (if was < s.list3size then s.list3size else if was < top then was + 1 else was)
       && forall x :: 0 <= x < s.AreaSize() && x != a ==>
                        var displaced := Index(h, x) == Some(k.addr2hot[a]) && s.Group(x) == s.Group(a);
                        Index(k, x) == if displaced then Some(was) else Index(h, x)
     else
       && Index(k, a) == (if hot then Some(point) else None)
       && forall x :: 0 <= x < s.AreaSize() && x != a ==>
                        var dropped := hot && Index(h, x) == Some(point) && s.Group(x) == s.Group(a);
                        Index(k, x) == if dropped then None else Index(h, x))
  }

  lemma AccessedSteps(h: HotList, s: Shape, a: nat, hot: bool, point: nat)
    requires HotOk(h, s) && a < s.AreaSize() && point < s.list3size
    ensures Stepped(h, Accessed(h, s, a, hot, point), s, a, hot, point)
  {
    hide Accessed, Slot;
    var k := Accessed(h, s, a, hot, point);
    AccessedMoves(h, s, a, hot, point, a);
    forall x | 0 <= x < s.AreaSize() && x != a
      ensures Index(k, x) == if Index(h, a).Some? then
                               if Index(h, x) == Some(s.Above(Index(h, a).value)) && s.Group(x) == s.Group(a)
                               then Index(h, a) else Index(h, x)
                             else if hot && Index(h, x) == Some(point) && s.Group(x) == s.Group(a) then None
                             else Index(h, x)
    {
      AccessedElsewhere(h, s, a, hot, point, x);
    }
    assert IndexOk(h, s, a);
  }

  lemma AccessedElsewhere(h: HotList, s: Shape, a: nat, hot: bool, point: nat, x: nat)
    requires HotOk(h, s) && a < s.AreaSize() && point < s.list3size && x < s.AreaSize() && x != a
    ensures
      var k := Accessed(h, s, a, hot, point);
      && |k.addr2hot| == |k.isaddr2hot| == s.AreaSize()
      && Index(k, x) == if Index(h, a).Some? then
                          if Index(h, x) == Some(s.Above(Index(h, a).value)) && s.Group(x) == s.Group(a)
                          then Index(h, a) else Index(h, x)
                        else if hot && Index(h, x) == Some(point) && s.Group(x) == s.Group(a) then None
                        else Index(h, x)
  {
    hide Promoted, Inserted, Slot;
    assert IndexOk(h, s, x) && IndexOk(h, s, a);
    var g := s.Group(a);
    GroupInRange(s, a);
    if Index(h, a).Some? {
      var c := Index(h, a).value;
      if s.Above(c) != c {
        ClimbDefined(h, s, a);
        PromotedIndex(h, s, a, s.Tier(c), s.Pos(c), s.Tier(s.Above(c)), s.Pos(s.Above(c)), x);
        assert SlotOk(h, s, g, s.Above(c));
      }
    } else if hot {
      InsertedChanges(h, s, a, point, g, point, x);
      assert SlotOk(h, s, g, point);
    }
  }

  // ---------------------------------------------------------------------------------------------
  // The counters
  // ---------------------------------------------------------------------------------------------

  /** Every address is counted in hashnums neighbouring cells of one group, chosen by its hash key. */
  datatype Hashing = Hashing(shape: Shape, key: seq<nat>, hashnums: nat, counternums: nat) {
    ghost predicate Valid() {
      && |key| == shape.AreaSize() && 1 <= hashnums <= counternums
      && forall a :: 0 <= a < |key| ==> key[a] < shape.AreaSize()
    }

    function Spread(a: nat): nat
      requires a < |key|
    {
      Xor(a, key[a])
    }

    function CountGroup(a: nat): nat
      requires a < |key|
    {
      ShiftRight(Spread(a), shape.groupshift)
    }

    function Base(a: nat): nat
      requires a < |key|
    {
      Spread(a) % Pow2(shape.groupshift)
    }

    ghost predicate Hits(a: nat, g: nat, j: nat)
      requires a < |key| && counternums > 0
    {
      CountGroup(a) == g && Covers(Base(a), hashnums, counternums, j)
    }

    lemma CountGroupInRange(a: nat)
      requires Valid() && a < shape.AreaSize()
      ensures CountGroup(a) < shape.GroupNums()
    {
      XorBelowLimit(a, key[a], shape.areashift, 1);
      GroupInRange(shape, Spread(a));
    }
  }

  function CellAt(base: nat, i: nat, m: nat): (c: nat)
    requires m > 0
    ensures c < m
  {
    (base + i) % m
  }

  ghost predicate Covers(base: nat, count: nat, m: nat, j: nat)
    requires m > 0
  {
    exists i: nat :: i < count && CellAt(base, i, m) == j
  }

  /** Neighbouring cells are distinct. */
  lemma CellsDistinct(base: nat, i: nat, k: nat, m: nat)
    requires i < k < m
    ensures CellAt(base, i, m) != CellAt(base, k, m)
  {
    ShiftedRemainder(base + i, k - i, m);
  }

  /** A row of counters after counting one access in the first `count` cells. */
  ghost function Bump(row: seq<nat>, base: nat, count: nat): (r: seq<nat>)
    requires |row| > 0
    ensures |r| == |row|
  {
    if count == 0 then row
    else
      var r := Bump(row, base, count - 1);
      var c := CellAt(base, count - 1, |row|);
      r[c := r[c] + 1]
  }

  lemma {:induction false} BumpAt(row: seq<nat>, base: nat, count: nat, j: nat)
    requires count <= |row| && j < |row|
    ensures Bump(row, base, count)[j] == row[j] + if Covers(base, count, |row|, j) then 1 else 0
  {
    if count > 0 {
      BumpAt(row, base, count - 1, j);
      var c := CellAt(base, count - 1, |row|);
      if Covers(base, count - 1, |row|, j) {
        var i: nat :| i < count - 1 && CellAt(base, i, |row|) == j;
        CellsDistinct(base, i, count - 1, |row|);
        assert Covers(base, count, |row|, j);
      } else if j == c {
        assert Covers(base, count, |row|, j);
      }
    }
  }

  /** The least of the first `count` cells: getcount. */
  function Least(row: seq<nat>, base: nat, count: nat): nat
    requires |row| > 0 && count > 0
  {
    var c := row[CellAt(base, count - 1, |row|)];
    if count == 1 then c
    else
      var l := Least(row, base, count - 1);
      if l > c then c else l
  }

  lemma {:induction false} LeastBelow(row: seq<nat>, base: nat, count: nat)
    requires |row| > 0 && count > 0
    ensures forall i: nat :: i < count ==> Least(row, base, count) <= row[CellAt(base, i, |row|)]
    ensures exists i: nat :: i < count && Least(row, base, count) == row[CellAt(base, i, |row|)]
  {
    if count > 1 {
      LeastBelow(row, base, count - 1);
      var i: nat :| i < count - 1 && Least(row, base, count - 1) == row[CellAt(base, i, |row|)];
      assert Least(row, base, count) == row[CellAt(base, i, |row|)]
             || Least(row, base, count) == row[CellAt(base, count - 1, |row|)];
    } else {
      assert Least(row, base, count) == row[CellAt(base, 0, |row|)];
    }
  }

  /** Counting in later cells leaves the minimum over the earlier ones alone. */
  lemma {:induction false} LeastFrame(row: seq<nat>, base: nat, count: nat, k: nat, v: nat)
    requires 0 < count <= k < |row|
    ensures Least(row[CellAt(base, k, |row|) := v], base, count) == Least(row, base, count)
  {
    CellsDistinct(base, count - 1, k, |row|);
    if count > 1 {
      LeastFrame(row, base, count - 1, k, v);
    }
  }

  /** How many of the accesses so far were counted in cell j of group g. */
  ghost function Load(accesses: seq<nat>, hashing: Hashing, g: nat, j: nat, n: nat): nat
    requires n <= |accesses| == |hashing.key| && hashing.counternums > 0
  {
    if n == 0 then 0
    else Load(accesses, hashing, g, j, n - 1) + if hashing.Hits(n - 1, g, j) then accesses[n - 1] else 0
  }

  lemma {:induction false} LoadStep(accesses: seq<nat>, hashing: Hashing, g: nat, j: nat, n: nat, a: nat)
    requires n <= |accesses| == |hashing.key| && hashing.counternums > 0 && a < |accesses|
    ensures Load(accesses[a := accesses[a] + 1], hashing, g, j, n) ==
            Load(accesses, hashing, g, j, n) + if a < n && hashing.Hits(a, g, j) then 1 else 0
  {
    if n > 0 {
      LoadStep(accesses, hashing, g, j, n - 1, a);
    }
  }

  lemma {:induction false} LoadAtLeast(accesses: seq<nat>, hashing: Hashing, g: nat, j: nat, n: nat, a: nat)
    requires a < n <= |accesses| == |hashing.key| && hashing.counternums > 0 && hashing.Hits(a, g, j)
    ensures Load(accesses, hashing, g, j, n) >= accesses[a]
    ensures (forall b :: 0 <= b < n && b != a && hashing.Hits(b, g, j) ==> accesses[b] == 0) ==>
              Load(accesses, hashing, g, j, n) == accesses[a]
  {
    if a == n - 1 {
      if forall b :: 0 <= b < n && b != a && hashing.Hits(b, g, j) ==> accesses[b] == 0 {
        LoadZero(accesses, hashing, g, j, n - 1);
      }
    } else {
      LoadAtLeast(accesses, hashing, g, j, n - 1, a);
    }
  }

  lemma {:induction false} LoadZero(accesses: seq<nat>, hashing: Hashing, g: nat, j: nat, n: nat)
    requires n <= |accesses| == |hashing.key| && hashing.counternums > 0
    requires forall b :: 0 <= b < n && hashing.Hits(b, g, j) ==> accesses[b] == 0
    ensures Load(accesses, hashing, g, j, n) == 0
  {
    if n > 0 {
      LoadZero(accesses, hashing, g, j, n - 1);
    }
  }

  /** Every cell holds exactly the accesses counted in it since the last clearing. */
  ghost predicate SketchOk(counter: seq<seq<nat>>, accesses: seq<nat>, hashing: Hashing) {
    && hashing.Valid() && |accesses| == hashing.shape.AreaSize() && |counter| == hashing.shape.GroupNums()
    && forall g :: 0 <= g < |counter| ==> RowOk(counter[g], accesses, hashing, g)
  }

  ghost predicate RowOk(row: seq<nat>, accesses: seq<nat>, hashing: Hashing, g: nat)
    requires |accesses| == |hashing.key| && hashing.counternums > 0
  {
    |row| == hashing.counternums && forall j :: 0 <= j < |row| ==> row[j] == Load(accesses, hashing, g, j, |accesses|)
  }

  /** Counting one access to a keeps that. */
  lemma CountKeeps(counter: seq<seq<nat>>, accesses: seq<nat>, hashing: Hashing, a: nat)
    requires SketchOk(counter, accesses, hashing) && a < |accesses| && hashing.CountGroup(a) < |counter|
    requires |counter[hashing.CountGroup(a)]| > 0
    ensures
      var g := hashing.CountGroup(a);
      var counter' := counter[g := Bump(counter[g], hashing.Base(a), hashing.hashnums)];
      SketchOk(counter', accesses[a := accesses[a] + 1], hashing)
  {
    var g0 := hashing.CountGroup(a);
    var counter' := counter[g0 := Bump(counter[g0], hashing.Base(a), hashing.hashnums)];
    var accesses' := accesses[a := accesses[a] + 1];
    forall g | 0 <= g < |counter|
      ensures RowOk(counter'[g], accesses', hashing, g)
    {
      assert RowOk(counter[g], accesses, hashing, g);
      forall j | 0 <= j < |counter'[g]|
        ensures counter'[g][j] == Load(accesses', hashing, g, j, |accesses'|)
      {
        LoadStep(accesses, hashing, g, j, |accesses|, a);
        if g == g0 {
          BumpAt(counter[g], hashing.Base(a), hashing.hashnums, j);
        }
      }
    }
  }

  /** What getcount reports for an address. */
  ghost predicate IsEstimate(counter: seq<seq<nat>>, hashing: Hashing, a: nat, estimate: nat) {
    && a < |hashing.key| && hashing.CountGroup(a) < |counter| && |counter[hashing.CountGroup(a)]| > 0
    && hashing.hashnums > 0
    && estimate == Least(counter[hashing.CountGroup(a)], hashing.Base(a), hashing.hashnums)
  }

  /** getcount never reports fewer accesses than there were since the last clearing, and reports exactly that
      many if some cell of a is shared with no other address that was accessed. */
  lemma EstimateBounds(counter: seq<seq<nat>>, accesses: seq<nat>, hashing: Hashing, a: nat, estimate: nat)
    requires SketchOk(counter, accesses, hashing) && a < |accesses|
    requires IsEstimate(counter, hashing, a, estimate)
    ensures estimate >= accesses[a]
    ensures (exists i: nat :: i < hashing.hashnums
                              && Alone(accesses, hashing, a, CellAt(hashing.Base(a), i, hashing.counternums)))
            ==> estimate == accesses[a]
  {
    hashing.CountGroupInRange(a);
    var g, base := hashing.CountGroup(a), hashing.Base(a);
    assert RowOk(counter[g], accesses, hashing, g);
    LeastBelow(counter[g], base, hashing.hashnums);
    var k: nat :| k < hashing.hashnums && estimate == counter[g][CellAt(base, k, hashing.counternums)];
    assert Covers(base, hashing.hashnums, hashing.counternums, CellAt(base, k, hashing.counternums));
    LoadAtLeast(accesses, hashing, g, CellAt(base, k, hashing.counternums), |accesses|, a);
    if i: nat :| i < hashing.hashnums && Alone(accesses, hashing, a, CellAt(base, i, hashing.counternums)) {
      assert Covers(base, hashing.hashnums, hashing.counternums, CellAt(base, i, hashing.counternums));
      LoadAtLeast(accesses, hashing, g, CellAt(base, i, hashing.counternums), |accesses|, a);
    }
  }

  /** Nothing else has been counted in this cell of a's. */
  ghost predicate Alone(accesses: seq<nat>, hashing: Hashing, a: nat, j: nat)
    requires a < |accesses| == |hashing.key| && hashing.counternums > 0
  {
    forall b :: 0 <= b < |accesses| && b != a && hashing.Hits(b, hashing.CountGroup(a), j) ==> accesses[b] == 0
  }

  // ---------------------------------------------------------------------------------------------
  // The filter
  // ---------------------------------------------------------------------------------------------

  function Filled<T>(n: nat, x: T): (r: seq<T>)
    ensures |r| == n && forall i :: 0 <= i < n ==> r[i] == x
  {
    seq(n, _ => x)
  }

  ghost function EmptyList(s: Shape): HotList {
    HotList(Filled(s.GroupNums(), Filled(3, Filled<nat>(TIER_CAPACITY, UNUSED))),
            Filled(s.GroupNums(), Filled(3, Filled(TIER_CAPACITY, false))),
            Filled<nat>(s.AreaSize(), 0), Filled(s.AreaSize(), false))
  }

  lemma EmptyListOk(s: Shape)
    requires s.Valid()
    ensures HotOk(EmptyList(s), s)
  {
  }

  lemma EmptySketchOk(hashing: Hashing)
    requires hashing.Valid()
    ensures SketchOk(Filled(hashing.shape.GroupNums(), Filled<nat>(hashing.counternums, 0)),
                     Filled<nat>(hashing.shape.AreaSize(), 0), hashing)
  {
    var zeros: seq<nat> := Filled<nat>(hashing.shape.AreaSize(), 0);
    forall g: nat | g < hashing.shape.GroupNums()
      ensures RowOk(Filled<nat>(hashing.counternums, 0), zeros, hashing, g)
    {
      forall j: nat | j < hashing.counternums
        ensures Load(zeros, hashing, g, j, |zeros|) == 0
      {
        LoadZero(zeros, hashing, g, j, |zeros|);
      }
    }
  }

  /** The loop of access over the counters of one address: it reports the least value after counting, although
      it compares while it is still counting. */
  method CountInRow(row0: seq<nat>, base: nat, hashnums: nat, hotthreshold: nat)
    returns (row: seq<nat>, isclimb: nat, ishot: nat)
    requires 0 < hashnums <= |row0|
    ensures row == Bump(row0, base, hashnums) && isclimb == Least(row, base, hashnums)
    ensures ishot >= hashnums <==> isclimb >= hotthreshold
  {
    row, isclimb, ishot := row0, 0, 0;
    var isgetclimb := false;
    for i := 0 to hashnums
      invariant row == Bump(row0, base, i)
      invariant isgetclimb == (i > 0) && ishot <= i
      invariant i > 0 ==> isclimb == Least(row, base, i) && (ishot == i <==> isclimb >= hotthreshold)
    {
      var hashvalue := CellAt(base, i, |row|);
      if i > 0 {
        LeastFrame(row, base, i, i, row[hashvalue] + 1);
      }
      row := row[hashvalue := row[hashvalue] + 1];
      if row[hashvalue] >= hotthreshold {
        ishot := ishot + 1;
      }
      if !isgetclimb {
        isclimb := row[hashvalue];
        isgetclimb := true;
      } else if isclimb > row[hashvalue] {
        isclimb := row[hashvalue];
      }
    }
  }

  /** The loop of getcount. */
  method LeastInRow(row: seq<nat>, base: nat, hashnums: nat) returns (isclimb: nat)
    requires 0 < hashnums <= |row|
    ensures isclimb == Least(row, base, hashnums)
  {
    isclimb := 0;
    var isgetclimb := false;
    for i := 0 to hashnums
      invariant isgetclimb == (i > 0)
      invariant i > 0 ==> isclimb == Least(row, base, i)
    {
      var c := row[CellAt(base, i, |row|)];
      if !isgetclimb {
        isclimb := c;
        isgetclimb := true;
      } else if isclimb > c {
        isclimb := c;
      }
    }
  }

  class BloomFilter {
    const shape: Shape
    const hashing: Hashing
    var counter: seq<seq<nat>>
    var hotlist: seq<seq<seq<nat>>>
    var ishotlist: seq<seq<seq<bool>>>
    var list3point: seq<nat>
    var addr2hot: seq<nat>
    var isaddr2hot: seq<bool>
    ghost var accesses: seq<nat>  // how often each address was accessed since the last clearing

    ghost function View(): HotList
      reads this
    {
      HotList(hotlist, ishotlist, addr2hot, isaddr2hot)
    }

    ghost predicate Sketch()
      reads this
    {
      hashing.shape == shape && SketchOk(counter, accesses, hashing)
    }

    ghost predicate Points()
      reads this
    {
      |list3point| == shape.GroupNums() && forall g :: 0 <= g < |list3point| ==> list3point[g] < shape.list3size
    }

    ghost predicate Valid()
      reads this
    {
      HotOk(View(), shape) && Sketch() && Points()
    }

    /** The hash keys are random numbers below areasize; any will do. */
    constructor (hashing: Hashing)
      requires hashing.Valid() && hashing.shape.Valid()
      ensures Valid() && this.shape == hashing.shape && this.hashing == hashing && View() == EmptyList(shape)
    {
      var s := hashing.shape;
      this.shape, this.hashing := s, hashing;
      counter := Filled(s.GroupNums(), Filled<nat>(hashing.counternums, 0));
      hotlist := Filled(s.GroupNums(), Filled(3, Filled<nat>(TIER_CAPACITY, UNUSED)));
      ishotlist := Filled(s.GroupNums(), Filled(3, Filled(TIER_CAPACITY, false)));
      list3point := Filled<nat>(s.GroupNums(), 0);
      addr2hot := Filled<nat>(s.AreaSize(), 0);
      isaddr2hot := Filled(s.AreaSize(), false);
      accesses := Filled<nat>(s.AreaSize(), 0);
      EmptyListOk(s);
      EmptySketchOk(hashing);
    }

    /** Forgets all accesses and empties the hot list. */
    method Clear()
      requires Valid()
      modifies this
      ensures Valid() && View() == EmptyList(shape) && accesses == Filled<nat>(shape.AreaSize(), 0)
    {
      EmptyListOk(shape);
      EmptySketchOk(hashing);
      assert |addr2hot| == |isaddr2hot| == shape.AreaSize();
      hide HotOk, SketchOk;
      ClearGroups();
      ClearIndex();
      accesses := Filled<nat>(shape.AreaSize(), 0);
    }

    method ClearGroups()
      requires Valid()
      modifies `counter, `hotlist, `ishotlist, `list3point
      ensures counter == Filled(shape.GroupNums(), Filled<nat>(hashing.counternums, 0))
      ensures hotlist == Filled(shape.GroupNums(), Filled(3, Filled<nat>(TIER_CAPACITY, UNUSED)))
      ensures ishotlist == Filled(shape.GroupNums(), Filled(3, Filled(TIER_CAPACITY, false)))
      ensures list3point == Filled<nat>(shape.GroupNums(), 0)
    {
      var n := shape.GroupNums();
      assert |counter| == |hotlist| == |ishotlist| == |list3point| == n;
      hide HotOk, SketchOk;
      for i := 0 to n
        invariant |counter| == |hotlist| == |ishotlist| == |list3point| == n
        invariant counter[..i] == Filled(i, Filled<nat>(hashing.counternums, 0))
        invariant hotlist[..i] == Filled(i, Filled(3, Filled<nat>(TIER_CAPACITY, UNUSED)))
        invariant ishotlist[..i] == Filled(i, Filled(3, Filled(TIER_CAPACITY, false)))
        invariant forall g :: 0 <= g < i ==> list3point[g] == 0
      {
        list3point := list3point[i := 0];
        counter := counter[i := Filled<nat>(hashing.counternums, 0)];
        hotlist := hotlist[i := Filled(3, Filled<nat>(TIER_CAPACITY, UNUSED))];
        ishotlist := ishotlist[i := Filled(3, Filled(TIER_CAPACITY, false))];
      }
    }

    method ClearIndex()
      requires |addr2hot| == |isaddr2hot| == shape.AreaSize()
      modifies `addr2hot, `isaddr2hot
      ensures addr2hot == Filled<nat>(shape.AreaSize(), 0) && isaddr2hot == Filled(shape.AreaSize(), false)
    {
      for i := 0 to shape.AreaSize()
        invariant |addr2hot| == |isaddr2hot| == shape.AreaSize()
        invariant forall k :: 0 <= k < i ==> addr2hot[k] == 0 && !isaddr2hot[k]
      {
        addr2hot := addr2hot[i := 0];
        isaddr2hot := isaddr2hot[i := false];
      }
    }

    /** A listed address trades places with the occupant of a slot above it: one branch of access. */
    method MoveUp(addr: nat, t: nat, p: nat, t': nat, p': nat)
      requires MayPromote(View(), shape, addr, t, p, t', p')
      modifies `hotlist, `ishotlist, `addr2hot, `isaddr2hot
      ensures View() == Promoted(old(View()), shape, addr, t, p, t', p')
    {
      PromotionDefined(View(), shape, addr, t, p, t', p');
      hide HotOk;
      var groupindex := shape.Group(addr);
      if ishotlist[groupindex][t'][p'] {
        var other := hotlist[groupindex][t'][p'];
        addr2hot := addr2hot[other := addr2hot[addr]];
        isaddr2hot := isaddr2hot[other := isaddr2hot[addr]];
      }
      var displaced, wasHot := hotlist[groupindex][t'][p'], ishotlist[groupindex][t'][p'];
      hotlist := hotlist[groupindex := hotlist[groupindex][t := hotlist[groupindex][t][p := displaced]]];
      ishotlist := ishotlist[groupindex := ishotlist[groupindex][t := ishotlist[groupindex][t][p := wasHot]]];
      hotlist := hotlist[groupindex := hotlist[groupindex][t' := hotlist[groupindex][t'][p' := addr]]];
      ishotlist := ishotlist[groupindex := ishotlist[groupindex][t' := ishotlist[groupindex][t'][p' := true]]];
      addr2hot := addr2hot[addr := shape.Code(t', p')];
      isaddr2hot := isaddr2hot[addr := true];
    }

    /** A listed address climbs: the four branches of access for addresses on the list. */
    method Promote(addr: nat)
      requires HotOk(View(), shape) && addr < shape.AreaSize() && isaddr2hot[addr]
      modifies `hotlist, `ishotlist, `addr2hot, `isaddr2hot
      ensures View() == Accessed(old(View()), shape, addr, false, 0)
    {
      ghost var h := View();
      var code, list3size, list2size := addr2hot[addr], shape.list3size, shape.list2size;
      assert IndexOk(h, shape, addr);
      if shape.Above(code) != code {
        ClimbDefined(h, shape, addr);
      }
      hide HotOk, Promoted;
      if code < list3size {
        MoveUp(addr, 2, code, 1, 0);
      } else if code < list3size + list2size - 1 {
        MoveUp(addr, 1, code - list3size, 1, code - list3size + 1);
      } else if code == list3size + list2size - 1 {
        MoveUp(addr, 1, code - list3size, 0, 0);
      } else if code < shape.HotListSize() - 1 {
        MoveUp(addr, 0, code - list3size - list2size, 0, code - list3size - list2size + 1);
      }
    }

    /** A newly hot address takes the next slot of tier 2, in rotation. */
    method Insert(addr: nat)
      requires HotOk(View(), shape) && Points() && addr < shape.AreaSize() && !isaddr2hot[addr]
      modifies `hotlist, `ishotlist, `addr2hot, `isaddr2hot, `list3point
      ensures Points() && shape.Group(addr) < |list3point|
      ensures View() == Inserted(old(View()), shape, addr, old(list3point[shape.Group(addr)]))
      ensures
        var g := shape.Group(addr);
        list3point == old(list3point)[g := (old(list3point[g]) + 1) % shape.list3size]
    {
      var groupindex := shape.Group(addr);
      GroupInRange(shape, addr);
      var point := list3point[groupindex];
      InsertionDefined(View(), shape, addr, point);
      hide HotOk;
      if ishotlist[groupindex][2][point] {
        isaddr2hot := isaddr2hot[hotlist[groupindex][2][point] := false];
      }
      hotlist := hotlist[groupindex := hotlist[groupindex][2 := hotlist[groupindex][2][point := addr]]];
      ishotlist := ishotlist[groupindex := ishotlist[groupindex][2 := ishotlist[groupindex][2][point := true]]];
      addr2hot := addr2hot[addr := point];
      isaddr2hot := isaddr2hot[addr := true];
      list3point := list3point[groupindex := (point + 1) % shape.list3size];
    }

    /** The count that the next access to addr will report: the least of its counters once it is counted. */
    ghost function NextCount(addr: nat): nat
      reads this
      requires Sketch() && addr < shape.AreaSize()
    {
      hashing.CountGroupInRange(addr);
      var g := hashing.CountGroup(addr);
      assert RowOk(counter[g], accesses, hashing, g);
      Least(Bump(counter[g], hashing.Base(addr), hashing.hashnums), hashing.Base(addr), hashing.hashnums)
    }

    /** The hot list that it will leave. */
    ghost function NextView(addr: nat, hotthreshold: nat): HotList
      reads this
      requires Valid() && addr < shape.AreaSize()
    {
      GroupInRange(shape, addr);
      Accessed(View(), shape, addr, NextCount(addr) >= hotthreshold, list3point[shape.Group(addr)])
    }

    /** Counts one access and reports the least of the address's counters, and how many have reached the threshold. */
    method Count(addr: nat, hotthreshold: nat) returns (isclimb: nat, ishot: nat)
      requires Sketch() && addr < shape.AreaSize()
      modifies `accesses, `counter
      ensures Sketch() && accesses == old(accesses)[addr := old(accesses)[addr] + 1]
      ensures IsEstimate(counter, hashing, addr, isclimb) && isclimb == old(NextCount(addr))
      ensures ishot >= hashing.hashnums <==> isclimb >= hotthreshold
    {
      hashing.CountGroupInRange(addr);
      var countGroup := hashing.CountGroup(addr);
      assert RowOk(counter[countGroup], accesses, hashing, countGroup);
      CountKeeps(counter, accesses, hashing, addr);
      var row;
      row, isclimb, ishot := CountInRow(counter[countGroup], hashing.Base(addr), hashing.hashnums, hotthreshold);
      counter := counter[countGroup := row];
      accesses := accesses[addr := accesses[addr] + 1];
    }

    method GetCount(addr: nat) returns (isclimb: nat)
      requires Sketch() && addr < shape.AreaSize()
      ensures IsEstimate(counter, hashing, addr, isclimb) && isclimb >= accesses[addr]
    {
      hashing.CountGroupInRange(addr);
      var countGroup := hashing.CountGroup(addr);
      assert RowOk(counter[countGroup], accesses, hashing, countGroup);
      isclimb := LeastInRow(counter[countGroup], hashing.Base(addr), hashing.hashnums);
      EstimateBounds(counter, accesses, hashing, addr, isclimb);
    }

    /** One access. Whether the address ends up on the list depends on nothing but the count reported; an
        address accessed hotthreshold times since the last clearing is always on it. */
    method Access(addr: nat, hotthreshold: nat) returns (isclimb: nat)
      requires Valid() && addr < shape.AreaSize()
      modifies this
      ensures Valid() && accesses == old(accesses)[addr := old(accesses)[addr] + 1]
      ensures IsEstimate(counter, hashing, addr, isclimb) && isclimb >= accesses[addr]
      ensures shape.Group(addr) < |list3point|
      ensures View() == Accessed(old(View()), shape, addr, isclimb >= hotthreshold, old(list3point[shape.Group(addr)]))
      ensures Stepped(old(View()), View(), shape, addr, isclimb >= hotthreshold, old(list3point[shape.Group(addr)]))
      ensures isclimb == old(NextCount(addr)) && View() == old(NextView(addr, hotthreshold))
      ensures
        var g, inserted := shape.Group(addr), !old(isaddr2hot[addr]) && isclimb >= hotthreshold;
        list3point == if inserted then old(list3point)[g := (old(list3point[g]) + 1) % shape.list3size]
        else old(list3point)
      ensures isaddr2hot[addr] <==> old(isaddr2hot[addr]) || isclimb >= hotthreshold
      ensures accesses[addr] >= hotthreshold ==> isaddr2hot[addr]
    {
      GroupInRange(shape, addr);
      ghost var h, point := View(), list3point[shape.Group(addr)];
      assert HotOk(h, shape) && point < shape.list3size;
      var inhot := isaddr2hot[addr];
      if inhot {
        Promote(addr);
      }
      var ishot;
      isclimb, ishot := Count(addr, hotthreshold);
      EstimateBounds(counter, accesses, hashing, addr, isclimb);
      if ishot >= hashing.hashnums && !inhot {
        Insert(addr);
      }
      hide Promoted, Inserted, Index;
      AccessedSteps(h, shape, addr, isclimb >= hotthreshold, point);
      AccessedKeeps(h, shape, addr, isclimb >= hotthreshold, point);
      AccessedMoves(h, shape, addr, isclimb >= hotthreshold, point, addr);
    }
  }
}
