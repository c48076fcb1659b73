/** Toss-up wear levelling, twl.cpp: the physical pages are sorted by endurance and paired strongest with
    weakest. A logical page's rank goes through a table that inter-pair swaps permute, and a bit per pair says
    which of the pair's two pages is meant. */
module TossUpWearLeveling {
  import opened Counting

  const INTER_INTERVAL := 128
  const SWAP_THRESHOLD := 32

  /** sorted: physical page by rank, pair: its inverse; inter and reverse: the permutation of ranks; isswap: by
      lower rank of the pair. */
  datatype View = View(sorted: seq<nat>, pair: seq<nat>, inter: seq<nat>, reverse: seq<nat>, isswap: seq<bool>)

  ghost predicate MapOk(v: View, n: nat) {
    n >= 2 && n % 2 == 0 && Inverse(n, v.pair, v.sorted) && Inverse(n, v.inter, v.reverse) && |v.isswap| == n
  }

  /** The lower rank of a rank's pair. */
  function Low(n: nat, rank: nat): (low: nat)
    requires rank < n
    ensures low < n
  {
    if rank >= n / 2 then n - 1 - rank else rank
  }

  /** The rank of the page that a table entry leads to. */
  function Resolve(v: View, n: nat, rank: nat): (r: nat)
    requires rank < n == |v.isswap|
    ensures r < n
  {
    if v.isswap[Low(n, rank)] then n - 1 - rank else rank
  }

  /** The physical page of logical page la. */
  ghost function Translate(v: View, n: nat, la: nat): (addr: nat)
    requires MapOk(v, n) && la < n
    ensures addr < n
  {
    v.sorted[Resolve(v, n, v.inter[v.pair[la]])]
  }

  /** The logical page on physical page addr. */
  ghost function Locate(v: View, n: nat, addr: nat): (la: nat)
    requires MapOk(v, n) && addr < n
    ensures la < n
  {
    v.sorted[v.reverse[Resolve(v, n, v.pair[addr])]]
  }

  lemma ResolveInvolutive(v: View, n: nat, rank: nat)
    requires rank < n == |v.isswap| && n % 2 == 0
    ensures Resolve(v, n, Resolve(v, n, rank)) == rank && Low(n, Resolve(v, n, rank)) == Low(n, rank)
  {
  }

  /** In every state the translation is a bijection. */
  lemma TranslateLocate(v: View, n: nat, la: nat, addr: nat)
    requires MapOk(v, n) && la < n && addr < n
    ensures Locate(v, n, Translate(v, n, la)) == la
    ensures Translate(v, n, Locate(v, n, addr)) == addr
  {
    ResolveInvolutive(v, n, v.inter[v.pair[la]]);
    ResolveInvolutive(v, n, v.pair[addr]);
  }

  // ---------------------------------------------------------------------------------------------
  // Swaps
  // ---------------------------------------------------------------------------------------------

  /** An inter-pair swap: rank takes over table entry next, whose owner gets rank's old one. */
  ghost function Interswapped(v: View, rank: nat, next: nat): View
    requires rank < |v.inter| && next < |v.reverse| && v.reverse[next] < |v.inter| && v.inter[rank] < |v.reverse|
  {
    var temp, other := v.inter[rank], v.reverse[next];
    v.(inter := v.inter[rank := next][other := temp], reverse := v.reverse[temp := other][next := rank])
  }

  /** It exchanges two logical pages and moves no other. */
  lemma InterswapExchanges(v: View, n: nat, rank: nat, next: nat, la: nat)
    requires MapOk(v, n) && rank < n && next < n && next != v.inter[rank] && la < n
    ensures MapOk(Interswapped(v, rank, next), n)
    ensures
      var w, x, y := Interswapped(v, rank, next), v.sorted[rank], v.sorted[v.reverse[next]];
      && x != y
      && Translate(w, n, la) == Translate(v, n, if la == x then y else if la == y then x else la)
  {
  }

  /** A swap within the pair of the given lower rank. */
  ghost function Flipped(v: View, low: nat): View
    requires low < |v.isswap|
  {
    v.(isswap := v.isswap[low := !v.isswap[low]])
  }

  /** It exchanges the logical pages on the pair's two pages and moves no other. */
  lemma FlipExchanges(v: View, n: nat, low: nat, la: nat)
    requires MapOk(v, n) && low < n / 2 && la < n
    ensures MapOk(Flipped(v, low), n)
    ensures
      var a, b, old' := v.sorted[low], v.sorted[n - 1 - low], Translate(v, n, la);
      && a != b
      && Translate(Flipped(v, low), n, la) == (if old' == a then b else if old' == b then a else old')
  {
    assert v.pair[v.sorted[low]] == low && v.pair[v.sorted[n - 1 - low]] == n - 1 - low;
  }

  /** The page that an inter-pair swap charges. */
  function InterCharge(v: View, n: nat, rank: nat): nat
    requires MapOk(v, n) && rank < n
  {
    var m := v.inter[rank];
    if (m >= n / 2) == v.isswap[Low(n, m)] then v.sorted[m] else v.sorted[n - 1 - m]
  }

  /** It is the page that the logical page is on exactly if the table entry is in the lower half. */
  lemma InterChargeIffLower(v: View, n: nat, la: nat)
    requires MapOk(v, n) && la < n
    ensures InterCharge(v, n, v.pair[la]) == Translate(v, n, la) <==> v.inter[v.pair[la]] < n / 2
  {
    var m := v.inter[v.pair[la]];
    assert v.pair[v.sorted[m]] == m && v.pair[v.sorted[n - 1 - m]] == n - 1 - m;
  }

  /** For example: with two pages and nothing swapped yet, moving page 1 away charges page 0. */
  lemma InterChargeMisses()
    ensures
      var v := View([0, 1], [0, 1], [0, 1], [0, 1], [false, false]);
      MapOk(v, 2) && InterCharge(v, 2, v.pair[1]) == 0 && Translate(v, 2, 1) == 1
  {
  }

  // ---------------------------------------------------------------------------------------------
  // Endurance
  // ---------------------------------------------------------------------------------------------

  /** The endurance left in the whole memory. */
  ghost function Total(life: seq<real>): real {
    if life == [] then 0.0 else Total(life[..|life| - 1]) + life[|life| - 1]
  }

  lemma {:induction false} TotalUpdate(life: seq<real>, i: nat, x: real)
    requires i < |life|
    ensures Total(life[i := x]) == Total(life) - life[i] + x
  {
    var front := life[..|life| - 1];
    if i == |life| - 1 {
      assert life[i := x][..|life| - 1] == front;
    } else {
      TotalUpdate(front, i, x);
      assert life[i := x][..|life| - 1] == front[i := x];
    }
  }

  /** A write costs the page one unit. */
  function Worn(life: seq<real>, a: nat): (r: seq<real>)
    requires a < |life|
    ensures |r| == |life|
  {
    life[a := life[a] - 1.0]
  }

  lemma TotalWorn(life: seq<real>, a: nat)
    requires a < |life|
    ensures Total(Worn(life, a)) == Total(life) - 1.0
  {
    TotalUpdate(life, a, life[a] - 1.0);
  }

  /** The mapping after an access: an inter-pair swap of the page's rank with entry next, then a swap within the
      pair it now belongs to. */
  ghost function Moved(v: View, n: nat, la: nat, inter: bool, next: nat): View
    requires MapOk(v, n) && la < n && next < n
  {
    if inter then Interswapped(v, v.pair[la], next) else v
  }

  ghost function Settled(w: View, n: nat, m: nat, flip: bool): View
    requires m < n == |w.isswap|
  {
    if flip then Flipped(w, Low(n, m)) else w
  }

  ghost function After(v: View, n: nat, la: nat, inter: bool, next: nat, flip: bool): View
    requires MapOk(v, n) && la < n && next < n && (inter ==> next != v.inter[v.pair[la]])
  {
    MovedKeeps(v, n, la, inter, next);
    var w := Moved(v, n, la, inter, next);
    Settled(w, n, w.inter[w.pair[la]], flip)
  }

  lemma MovedKeeps(v: View, n: nat, la: nat, inter: bool, next: nat)
    requires MapOk(v, n) && la < n && next < n && (inter ==> next != v.inter[v.pair[la]])
    ensures MapOk(Moved(v, n, la, inter, next), n)
    ensures Moved(v, n, la, inter, next).inter[v.pair[la]] == if inter then next else v.inter[v.pair[la]]
  {
    if inter {
      InterswapExchanges(v, n, v.pair[la], next, la);
    }
  }

  /** What a write costs: one unit at the page written, or at both pages of the pair when they trade places. */
  ghost function SettledWear(life: seq<real>, w: View, n: nat, m: nat, flip: bool): (r: seq<real>)
    requires MapOk(w, n) && m < n == |life|
    ensures |r| == |life|
  {
    var rank := Resolve(w, n, m);
    if flip then Worn(Worn(life, w.sorted[rank]), w.sorted[n - 1 - rank]) else Worn(life, w.sorted[rank])
  }

  /** And one more for an inter-pair swap. */
  ghost function MovedWear(life: seq<real>, v: View, n: nat, la: nat, inter: bool): (r: seq<real>)
    requires MapOk(v, n) && la < n == |life|
    ensures |r| == |life|
  {
    if inter then Worn(life, InterCharge(v, n, v.pair[la])) else life
  }

  ghost function Wear(life: seq<real>, v: View, n: nat, la: nat, inter: bool, next: nat, flip: bool): (r: seq<real>)
    requires MapOk(v, n) && la < n == |life| && next < n && (inter ==> next != v.inter[v.pair[la]])
    ensures |r| == |life|
  {
    MovedKeeps(v, n, la, inter, next);
    var w := Moved(v, n, la, inter, next);
    SettledWear(MovedWear(life, v, n, la, inter), w, n, w.inter[w.pair[la]], flip)
  }

  /** The memory loses exactly one unit for the write and one for every swap. */
  lemma WearTotal(life: seq<real>, v: View, n: nat, la: nat, inter: bool, next: nat, flip: bool)
    requires MapOk(v, n) && la < n == |life| && next < n && (inter ==> next != v.inter[v.pair[la]])
    ensures Total(Wear(life, v, n, la, inter, next, flip))
         == Total(life) - 1.0 - (if inter then 1.0 else 0.0) - (if flip then 1.0 else 0.0)
  {
    MovedKeeps(v, n, la, inter, next);
    var w := Moved(v, n, la, inter, next);
    if inter {
      TotalWorn(life, InterCharge(v, n, v.pair[la]));
    }
    SettledTotal(MovedWear(life, v, n, la, inter), w, n, w.inter[w.pair[la]], flip);
  }

  /** The two halves of a write together. */
  lemma HalvesMeet(life: seq<real>, v: View, w: View, n: nat, la: nat, inter: bool, next: nat, flip: bool)
    requires MapOk(v, n) && la < n == |life| && next < n && (inter ==> next != v.inter[v.pair[la]])
    requires w == Moved(v, n, la, inter, next)
    ensures MapOk(w, n) && After(v, n, la, inter, next, flip) == Settled(w, n, w.inter[v.pair[la]], flip)
    ensures Wear(life, v, n, la, inter, next, flip)
         == SettledWear(MovedWear(life, v, n, la, inter), w, n, w.inter[v.pair[la]], flip)
    ensures |w.sorted| == n && forall i :: 0 <= i < n ==> w.sorted[i] < n
  {
    MovedKeeps(v, n, la, inter, next);
  }

  lemma WornTwice(life: seq<real>, a: nat, b: nat)
    requires a < |life| && b < |life|
    ensures Total(Worn(Worn(life, a), b)) == Total(life) - 2.0
  {
    hide Total;
    TotalWorn(life, a);
    TotalWorn(Worn(life, a), b);
  }

  lemma SettledTotal(life: seq<real>, w: View, n: nat, m: nat, flip: bool)
    requires MapOk(w, n) && m < n == |life|
    ensures Total(SettledWear(life, w, n, m, flip)) == Total(life) - 1.0 - (if flip then 1.0 else 0.0)
  {
    hide Total, Worn, Resolve;
    var rank := Resolve(w, n, m);
    TotalWorn(life, w.sorted[rank]);
    WornTwice(life, w.sorted[rank], w.sorted[n - 1 - rank]);
  }

  // Reporting worn-out pages

  /** The page that la is on between the two swaps. */
  ghost function MidPage(v: View, n: nat, la: nat, inter: bool, next: nat): (page: nat)
    requires MapOk(v, n) && la < n && next < n && (inter ==> next != v.inter[v.pair[la]])
    ensures page < n
  {
    MovedKeeps(v, n, la, inter, next);
    Translate(Moved(v, n, la, inter, next), n, la)
  }

  /** The pages of the pair that la belongs to then, weaker one first. */
  ghost function MidPair(v: View, n: nat, la: nat, inter: bool, next: nat): (pages: (nat, nat))
    requires MapOk(v, n) && la < n && next < n && (inter ==> next != v.inter[v.pair[la]])
    ensures pages.0 < n && pages.1 < n
  {
    MovedKeeps(v, n, la, inter, next);
    var w := Moved(v, n, la, inter, next);
    var low := Low(n, w.inter[w.pair[la]]);
    (w.sorted[low], w.sorted[n - 1 - low])
  }

  /** The page charged for an inter-pair swap, if there is one. */
  ghost function InterCharged(v: View, n: nat, la: nat, inter: bool): (pages: set<nat>)
    requires MapOk(v, n) && la < n
    ensures forall a :: a in pages ==> a < n
  {
    if inter then {InterCharge(v, n, v.pair[la])} else {}
  }

  /** The pages that a write wears. */
  ghost function Charged(v: View, n: nat, la: nat, inter: bool, next: nat, flip: bool): (pages: set<nat>)
    requires MapOk(v, n) && la < n && next < n && (inter ==> next != v.inter[v.pair[la]])
    ensures forall a :: a in pages ==> a < n
  {
    var pair := MidPair(v, n, la, inter, next);
    InterCharged(v, n, la, inter) + if flip then {pair.0, pair.1} else {MidPage(v, n, la, inter, next)}
  }

  /** Those of them that decide whether it reports a worn-out page: only the stronger page of a pair that swaps. */
  ghost function Watched(v: View, n: nat, la: nat, inter: bool, next: nat, flip: bool): (pages: set<nat>)
    requires MapOk(v, n) && la < n && next < n && (inter ==> next != v.inter[v.pair[la]])
    ensures forall a :: a in pages ==> a < n
  {
    if flip then {MidPair(v, n, la, inter, next).1} else Charged(v, n, la, inter, next, false)
  }

  ghost predicate AnyWornOut(life: seq<real>, pages: set<nat>)
    requires forall a :: a in pages ==> a < |life|
  {
    exists a :: a in pages && life[a] < 0.0
  }

  /** The status that the first half of a write passes on. */
  ghost function MovedStatus(life: seq<real>, v: View, n: nat, la: nat, inter: bool): int
    requires MapOk(v, n) && la < n == |life|
  {
    if !inter then 0 else if life[InterCharge(v, n, v.pair[la])] < 0.0 then -1 else 1
  }

  /** The status of a write, from the endurance left after its first half and after all of it: the number of
      swaps, or -1. An inter-pair swap's -1 is counted up by a swap of the pair. */
  ghost function Status(moved: seq<real>, life: seq<real>, v: View, n: nat, la: nat, inter: bool, next: nat,
                        flip: bool): int
    requires MapOk(v, n) && la < n == |moved| == |life| && next < n && (inter ==> next != v.inter[v.pair[la]])
  {
    var status := MovedStatus(moved, v, n, la, inter);
    if flip then if life[MidPair(v, n, la, inter, next).1] < 0.0 then -1 else status + 1
    else if life[MidPage(v, n, la, inter, next)] < 0.0 then -1 else status
  }

  /** The status is -1 exactly if one of the pages looked at is worn out now. */
  lemma StatusIff(life: seq<real>, v: View, n: nat, la: nat, inter: bool, next: nat, flip: bool)
    requires MapOk(v, n) && la < n == |life| && next < n && (inter ==> next != v.inter[v.pair[la]])
    ensures
      var moved, after := MovedWear(life, v, n, la, inter), Wear(life, v, n, la, inter, next, flip);
      Status(moved, after, v, n, la, inter, next, flip) == -1
      <==> AnyWornOut(after, Watched(v, n, la, inter, next, flip))
  {
    hide MapOk, Translate, Moved, InterCharge, Resolve, Low;
    var moved, after := MovedWear(life, v, n, la, inter), Wear(life, v, n, la, inter, next, flip);
    if flip {
      assert MidPair(v, n, la, inter, next).1 in Watched(v, n, la, inter, next, flip);
    } else {
      var page := MidPage(v, n, la, inter, next);
      PlainWear(life, v, n, la, inter, next);
      assert after == Worn(moved, page);
      assert page in Watched(v, n, la, inter, next, flip);
      InterChargedIs(v, n, la, inter);
      assert forall a :: a in InterCharged(v, n, la, inter) ==> a in Watched(v, n, la, inter, next, flip);
    }
  }

  lemma InterChargedIs(v: View, n: nat, la: nat, inter: bool)
    requires MapOk(v, n) && la < n
    ensures v.pair[la] < n
    ensures InterCharged(v, n, la, inter) == if inter then {InterCharge(v, n, v.pair[la])} else {}
  {
  }

  /** The two halves of an access report together what Status says. */
  lemma HalvesStatus(life: seq<real>, v: View, w: View, n: nat, la: nat, inter: bool, next: nat, flip: bool, stat: int)
    requires MapOk(v, n) && la < n == |life| && next < n && (inter ==> next != v.inter[v.pair[la]])
    requires w == Moved(v, n, la, inter, next) && MapOk(w, n)
    requires
      var after := Wear(life, v, n, la, inter, next, flip);
      var stat0 := MovedStatus(MovedWear(life, v, n, la, inter), v, n, la, inter);
      stat == if flip then if after[w.sorted[n - 1 - Low(n, w.inter[w.pair[la]])]] < 0.0 then -1 else stat0 + 1
      else if after[Translate(w, n, la)] < 0.0 then -1 else stat0
    ensures
      var moved, after := MovedWear(life, v, n, la, inter), Wear(life, v, n, la, inter, next, flip);
      stat == Status(moved, after, v, n, la, inter, next, flip)
      && (stat == -1 <==> AnyWornOut(after, Watched(v, n, la, inter, next, flip)))
  {
    hide MovedStatus, Wear, MovedWear, Moved, Translate, Low, Watched;
    StatusIff(life, v, n, la, inter, next, flip);
  }

  lemma PlainWear(life: seq<real>, v: View, n: nat, la: nat, inter: bool, next: nat)
    requires MapOk(v, n) && la < n == |life| && next < n && (inter ==> next != v.inter[v.pair[la]])
    ensures Wear(life, v, n, la, inter, next, false)
         == Worn(MovedWear(life, v, n, la, inter), MidPage(v, n, la, inter, next))
  {
    MovedKeeps(v, n, la, inter, next);
  }

  /** What the pages of a pair that swaps, and the one charged for the inter-pair swap before, have left. */
  lemma SwappedWear(life: seq<real>, v: View, n: nat, la: nat, inter: bool, next: nat)
    requires MapOk(v, n) && la < n == |life| && next < n && (inter ==> next != v.inter[v.pair[la]])
    ensures
      var pair := MidPair(v, n, la, inter, next);
      && pair.0 != pair.1
      && Wear(life, v, n, la, inter, next, true) == Worn(Worn(MovedWear(life, v, n, la, inter), pair.0), pair.1)
  {
    hide Moved, MovedWear, Low;
    MovedKeeps(v, n, la, inter, next);
    var w := Moved(v, n, la, inter, next);
    PairWear(MovedWear(life, v, n, la, inter), w, n, w.inter[w.pair[la]]);
  }

  lemma PairWear(life: seq<real>, w: View, n: nat, m: nat)
    requires MapOk(w, n) && m < n == |life|
    ensures
      var low, high := w.sorted[Low(n, m)], w.sorted[n - 1 - Low(n, m)];
      low != high && SettledWear(life, w, n, m, true) == Worn(Worn(life, low), high)
  {
    hide Worn;
    var low, high := w.sorted[Low(n, m)], w.sorted[n - 1 - Low(n, m)];
    PairPages(w, n, m, m >= n / 2, Low(n, m), low, high);
    WornCommutes(life, low, high);
  }

  /** What a page loses for the inter-pair swap. */
  ghost function InterLoss(v: View, n: nat, la: nat, inter: bool, a: nat): real
    requires MapOk(v, n) && la < n
  {
    if a in InterCharged(v, n, la, inter) then 1.0 else 0.0
  }

  /** So, judged before the write: it wears out a page without saying so exactly if the pair will swap, its
      stronger page has enough left for this, and its weaker page, or another one charged for the inter-pair
      swap, has not. */
  lemma MissedIff(life: seq<real>, v: View, n: nat, la: nat, inter: bool, next: nat, flip: bool)
    requires MapOk(v, n) && la < n == |life| && next < n && (inter ==> next != v.inter[v.pair[la]])
    ensures
      var after, pair := Wear(life, v, n, la, inter, next, flip), MidPair(v, n, la, inter, next);
      AnyWornOut(after, Charged(v, n, la, inter, next, flip))
      && !AnyWornOut(after, Watched(v, n, la, inter, next, flip))
      <==>
      && flip && life[pair.1] >= 1.0 + InterLoss(v, n, la, inter, pair.1)
      && (life[pair.0] < 1.0 + InterLoss(v, n, la, inter, pair.0)
          || exists x :: x in InterCharged(v, n, la, inter) - {pair.0, pair.1} && life[x] < 1.0)
  {
    hide MapOk, Moved, InterCharge, MidPair, MidPage, Wear;
    var after, pair := Wear(life, v, n, la, inter, next, flip), MidPair(v, n, la, inter, next);
    if flip {
      SwappedWear(life, v, n, la, inter, next);
      SwappedLosses(life, v, n, la, inter, next);
      assert pair.0 in Charged(v, n, la, inter, next, flip) && pair.1 in Watched(v, n, la, inter, next, flip);
      assert forall a :: a in InterCharged(v, n, la, inter) ==> a in Charged(v, n, la, inter, next, flip);
    }
  }

  lemma SwappedLosses(life: seq<real>, v: View, n: nat, la: nat, inter: bool, next: nat)
    requires MapOk(v, n) && la < n == |life| && next < n && (inter ==> next != v.inter[v.pair[la]])
    ensures
      var after, pair := Wear(life, v, n, la, inter, next, true), MidPair(v, n, la, inter, next);
      && after[pair.0] == life[pair.0] - 1.0 - InterLoss(v, n, la, inter, pair.0)
      && after[pair.1] == life[pair.1] - 1.0 - InterLoss(v, n, la, inter, pair.1)
      && forall x :: x in InterCharged(v, n, la, inter) - {pair.0, pair.1} ==> after[x] == life[x] - 1.0
  {
    hide MapOk, MidPair, Wear;
    SwappedWear(life, v, n, la, inter, next);
    InterChargedIs(v, n, la, inter);
  }

  /** For example: with two pages and nothing swapped yet, a write to page 0 that swaps the pair wears page 0 out and
      reports one swap. */
  lemma WearOutMissed()
    ensures
      var v, life := View([0, 1], [0, 1], [0, 1], [0, 1], [false, false]), [0.5, 5.0];
      && MapOk(v, 2) && Wear(life, v, 2, 0, false, 1, true) == [-0.5, 4.0]
      && Status(life, [-0.5, 4.0], v, 2, 0, false, 1, true) == 1
  {
    var v := View([0, 1], [0, 1], [0, 1], [0, 1], [false, false]);
    assert MapOk(v, 2);
    assert MidPair(v, 2, 0, false, 1) == (0, 1);
    assert Worn(Worn([0.5, 5.0], 0), 1) == [-0.5, 4.0];
  }

  /** The write counters of the ranks after a write: an inter-pair swap restarts both ranks it exchanges. */
  function RankCounts(counts: seq<nat>, rank: nat, other: nat, inter: bool): seq<nat>
    requires rank < |counts| && other < |counts|
  {
    if inter then counts[rank := 0][other := 0] else counts[rank := counts[rank] + 1]
  }

  /** The write counters of the physical pages after a write to one page of the pair (a, b). */
  function PageCounts(counts: seq<nat>, page: nat, a: nat, b: nat): seq<nat>
    requires page < |counts| && a < |counts| && b < |counts|
  {
    if counts[page] + 1 >= SWAP_THRESHOLD then counts[a := 0][b := 0] else counts[page := counts[page] + 1]
  }

  lemma RankCountsAt(counts: seq<nat>, rank: nat, other: nat, inter: bool)
    requires rank < |counts| && other < |counts|
    ensures
      var r := RankCounts(counts, rank, other, inter);
      && |r| == |counts| && r[rank] == (if inter then 0 else counts[rank] + 1) && (inter ==> r[other] == 0)
      && forall a :: 0 <= a < |counts| && a != rank && (inter ==> a != other) ==> r[a] == counts[a]
  {
  }

  lemma PageCountsAt(counts: seq<nat>, page: nat, a: nat, b: nat)
    requires page < |counts| && a < |counts| && b < |counts| && (page == a || page == b)
    ensures PagesCounted(counts, PageCounts(counts, page, a, b), page, a, b)
  {
  }

  /** A write to page, which is a or b, has been counted: at the threshold both start again from 0, below it the page
      has one write more; no other page's counter has changed. */
  ghost predicate PagesCounted(was: seq<nat>, now: seq<nat>, page: nat, a: nat, b: nat) {
    && page < |was| == |now| && a < |was| && b < |was|
    && (if was[page] + 1 >= SWAP_THRESHOLD then now[a] == 0 && now[b] == 0
        else now[page] == was[page] + 1 && forall x :: 0 <= x < |was| && x != page ==> now[x] == was[x])
    && forall x :: 0 <= x < |was| && x != a && x != b ==> now[x] == was[x]
  }

  // ---------------------------------------------------------------------------------------------
  // The wear-levelling object
  // ---------------------------------------------------------------------------------------------

  class Twl {
    const n: nat
    const sortedlist: seq<nat>
    const pairlist: seq<nat>
    const life0: seq<real>
    const intermaptable: array<nat>
    const reversemaptable: array<nat>
    const isswap: array<bool>
    const swapvisitcount: array<nat>
    const interswapcount: array<nat>
    const life: array<real>
    var swaptimes: nat
    var interswaptimes: nat
    ghost var writes: nat

    ghost function Read(): View
      reads intermaptable, reversemaptable, isswap
    {
      View(sortedlist, pairlist, intermaptable[..], reversemaptable[..], isswap[..])
    }

    ghost predicate Separate() {
      && intermaptable.Length == reversemaptable.Length == isswap.Length == n
      && swapvisitcount.Length == interswapcount.Length == life.Length == |life0| == n
      && intermaptable != reversemaptable && intermaptable != swapvisitcount && intermaptable != interswapcount
      && reversemaptable != swapvisitcount && reversemaptable != interswapcount && swapvisitcount != interswapcount
    }

    /** Between accesses every counter is below its threshold. */
    ghost predicate Counters()
      reads swapvisitcount, interswapcount
    {
      && (forall a :: 0 <= a < swapvisitcount.Length ==> swapvisitcount[a] < SWAP_THRESHOLD)
      && (forall a :: 0 <= a < interswapcount.Length ==> interswapcount[a] < INTER_INTERVAL)
    }

    /** All endurance lost is accounted for. */
    ghost predicate Accounted()
      reads this, life
    {
      Total(life[..]) == Total(life0) - (writes + interswaptimes + swaptimes) as real
    }

    ghost predicate Valid()
      reads this, intermaptable, reversemaptable, isswap, swapvisitcount, interswapcount, life
    {
      Separate() && MapOk(Read(), n) && Counters() && Accounted()
    }

    /** sorted is the order in which std::sort leaves the pages by endurance; any permutation will do. */
    constructor (n: nat, sorted: seq<nat>, pair: seq<nat>, life0: seq<real>)
      requires n >= 2 && n % 2 == 0 && Inverse(n, pair, sorted) && |life0| == n
      ensures Valid() && this.n == n && life[..] == life0 && swaptimes == interswaptimes == writes == 0
      ensures forall la :: 0 <= la < n ==> Translate(Read(), n, la) == la
    {
      this.n, sortedlist, pairlist, this.life0 := n, sorted, pair, life0;
      intermaptable := new nat[n](i => i);
      reversemaptable := new nat[n](i => i);
      isswap := new bool[n](i => false);
      swapvisitcount := new nat[n](i => 0);
      interswapcount := new nat[n](i => 0);
      life := new real[n](i requires 0 <= i < |life0| => life0[i]);
      swaptimes, interswaptimes, writes := 0, 0, 0;
      new;
      assert life[..] == life0;
    }

    /** Takes one unit off a page and says whether it is worn out now. */
    method Wear1(a: nat, stat: int) returns (stat': int)
      requires a < life.Length
      modifies life
      ensures life[..] == Worn(old(life[..]), a)
      ensures stat' == if life[a] < 0.0 then -1 else stat
    {
      life[a] := life[a] - 1.0;
      stat' := if life[a] < 0.0 then -1 else stat;
    }

    /** The charge of an inter-pair swap that moves a rank away from its entry m. */
    method ChargeInter(rank: nat) returns (stat: int)
      requires Separate() && MapOk(Read(), n) && rank < n
      modifies life
      ensures life[..] == Worn(old(life[..]), InterCharge(Read(), n, rank))
      ensures stat == if life[InterCharge(Read(), n, rank)] < 0.0 then -1 else 1
    {
      var m := intermaptable[rank];
      var pairaddr0, sourceaddr0 := m, false;
      if m >= n / 2 {
        pairaddr0, sourceaddr0 := n - 1 - m, true;
      }
      if sourceaddr0 == isswap[pairaddr0] {
        stat := Wear1(sortedlist[m], 1);
      } else {
        stat := Wear1(sortedlist[n - 1 - m], 1);
      }
    }

    /** Exchanges two entries of the table. */
    method Interswap(addr: nat, addrNext: nat)
      requires Separate() && MapOk(Read(), n) && addr < n && addrNext < n && addrNext != intermaptable[addr]
      modifies intermaptable, reversemaptable
      ensures Read() == Interswapped(old(Read()), addr, addrNext) && intermaptable[addr] == addrNext
    {
      var temp := intermaptable[addr];
      intermaptable[addr] := addrNext;
      var reverseaddr := reversemaptable[addrNext];
      intermaptable[reverseaddr] := temp;
      reversemaptable[temp] := reversemaptable[addrNext];
      reversemaptable[addrNext] := addr;
    }

    method CountRank(addr: nat) returns (due: bool)
      requires Separate() && Counters() && addr < n
      modifies interswapcount
      ensures Counters() && due == (old(interswapcount[addr]) + 1 >= INTER_INTERVAL)
      ensures interswapcount[..] == old(interswapcount[..])[addr := if due then 0 else old(interswapcount[addr]) + 1]
    {
      interswapcount[addr] := interswapcount[addr] + 1;
      due := interswapcount[addr] >= INTER_INTERVAL;
      if due {
        interswapcount[addr] := 0;
      }
    }

    /** getpairaddr: every INTER_INTERVAL writes the rank moves to a random other entry of the table. */
    method GetPairAddr(pairindex: nat, sourceaddr: bool, iswrite: bool)
      returns (raddr: nat, stat: int, ghost inter: bool, ghost next: nat)
      requires Separate() && MapOk(Read(), n) && Counters() && pairindex < n / 2
      modifies this`interswaptimes, intermaptable, reversemaptable, interswapcount, life
      ensures
        var rank := if sourceaddr then n - 1 - pairindex else pairindex;
        && next < n && inter == (iswrite && old(interswapcount[rank]) + 1 >= INTER_INTERVAL)
        && (inter ==> next != old(intermaptable[rank]))
        && Read() == (if inter then Interswapped(old(Read()), rank, next) else old(Read()))
        && raddr == intermaptable[rank]
        && life[..] == (if inter then Worn(old(life[..]), InterCharge(old(Read()), n, rank)) else old(life[..]))
        && interswaptimes == old(interswaptimes) + (if inter then 1 else 0)
        && stat == (if !inter then 0 else if life[InterCharge(old(Read()), n, rank)] < 0.0 then -1 else 1)
        && interswapcount[..]
           == if iswrite then RankCounts(old(interswapcount[..]), rank, old(reversemaptable[next]), inter)
              else old(interswapcount[..])
      ensures inter ==>
                && interswapcount[if sourceaddr then n - 1 - pairindex else pairindex] == 0
                && old(reversemaptable[next]) < n && interswapcount[old(reversemaptable[next])] == 0
      ensures Counters()
    {
      hide InterCharge, Worn, Interswapped;
      var addr := if sourceaddr then n - 1 - pairindex else pairindex;
      inter, next, stat := false, 0, 0;
      if iswrite {
        assert intermaptable[addr] < n && reversemaptable.Length == n;
        var due := CountRank(addr);
        if due {
          interswaptimes := interswaptimes + 1;
          stat := ChargeInter(addr);
          var addrNext := OtherThan(intermaptable[addr]);
          assert reversemaptable[addrNext] < n;
          inter, next := true, addrNext;
          interswapcount[reversemaptable[addrNext]] := 0;
          Interswap(addr, addrNext);
        }
      }
      raddr := intermaptable[addr];
    }

    /** The generator, tried again until it yields another entry. */
    method OtherThan(m: nat) returns (r: nat)
      requires n >= 2
      ensures r < n && r != m
    {
      assert (if m == 0 then 1 else 0) < n;
      r :| r < n && r != m;
    }

    /** Counts a write to one page of a pair; at the threshold both pages start over and may trade places. */
    method CountVisit(page: nat, addr: nat, nowaddr2: nat, iswrite: bool) returns (isdoswap: bool)
      requires Separate() && Counters() && addr < n && nowaddr2 < n && (page == addr || page == nowaddr2)
      modifies swapvisitcount
      ensures Counters() && isdoswap == (iswrite && old(swapvisitcount[page]) + 1 >= SWAP_THRESHOLD)
      ensures swapvisitcount[..] == if iswrite then PageCounts(old(swapvisitcount[..]), page, addr, nowaddr2)
                                    else old(swapvisitcount[..])
    {
      if iswrite {
        swapvisitcount[page] := swapvisitcount[page] + 1;
      }
      isdoswap := swapvisitcount[page] >= SWAP_THRESHOLD;
      if isdoswap {
        swapvisitcount[addr] := 0;
        swapvisitcount[nowaddr2] := 0;
      }
    }

    /** The two pages of a pair trade places, at the cost of one write each. */
    method SwapPair(low: nat, addr: nat, nowaddr2: nat, stat0: int) returns (stat: int)
      requires Separate() && low < n && addr < n && nowaddr2 < n && addr != nowaddr2
      modifies this`swaptimes, isswap, life
      ensures Read() == Flipped(old(Read()), low) && swaptimes == old(swaptimes) + 1
      ensures life[..] == Worn(Worn(old(life[..]), addr), nowaddr2) == Worn(Worn(old(life[..]), nowaddr2), addr)
      ensures stat == if life[nowaddr2] < 0.0 then -1 else stat0
    {
      WornCommutes(life[..], addr, nowaddr2);
      swaptimes := swaptimes + 1;
      life[addr] := life[addr] - 1.0;
      stat := Wear1(nowaddr2, stat0);
      isswap[low] := !isswap[low];
    }

    /** The rest of access: a swap within the pair if due and the toss calls for it, and the wear of the write.
        A wear-out found by the inter-pair swap is forgotten if the pair swaps too. */
    method Settle(low: nat, addr: nat, nowaddr2: nat, page: nat, iswrite: bool, isdoswap: bool, toss: bool, stat0: int)
      returns (stat: int, returnaddr1: nat, returnaddr2: nat, ghost flip: bool)
      requires Separate() && low < n && addr < n && nowaddr2 < n && addr != nowaddr2 && page < n
      modifies this`swaptimes, isswap, life
      ensures flip == (isdoswap && toss != old(isswap[low]))
      ensures Read() == if flip then Flipped(old(Read()), low) else old(Read())
      ensures swaptimes == old(swaptimes) + if flip then 1 else 0
      ensures flip ==>
                life[..] == Worn(Worn(old(life[..]), addr), nowaddr2) == Worn(Worn(old(life[..]), nowaddr2), addr)
      ensures !flip ==> life[..] == if iswrite then Worn(old(life[..]), page) else old(life[..])
      ensures if flip then returnaddr1 == addr && returnaddr2 == nowaddr2 else returnaddr1 == page
      ensures stat == if flip then if life[nowaddr2] < 0.0 then -1 else stat0 + 1
                      else if iswrite && life[page] < 0.0 then -1 else stat0
    {
      hide Flipped, Worn;
      returnaddr2, flip := nowaddr2, isdoswap && toss != isswap[low];
      if isdoswap && toss != isswap[low] {
        returnaddr1 := addr;
        stat := SwapPair(low, addr, nowaddr2, stat0 + 1);
      } else {
        returnaddr1, stat := PlainAccess(page, iswrite, stat0);
      }
    }

    method PlainAccess(page: nat, iswrite: bool, stat0: int) returns (returnaddr1: nat, stat: int)
      requires page < life.Length
      modifies life
      ensures returnaddr1 == page && life[..] == (if iswrite then Worn(old(life[..]), page) else old(life[..]))
      ensures stat == if iswrite && life[page] < 0.0 then -1 else stat0
    {
      returnaddr1, stat := page, stat0;
      if iswrite {
        stat := Wear1(page, stat0);
      }
    }

    /** One access to logical page la, with the outcome of the toss (should one be made). The ghost results say
        which swaps it made, and what the mapping was between them. */
    method Access(la: nat, iswrite: bool, toss: bool)
      returns (stat: int, returnaddr1: nat, returnaddr2: nat, ghost inter: bool, ghost next: nat, ghost flip: bool,
               ghost mid: View)
      requires Valid() && la < n
      modifies this, intermaptable, reversemaptable, isswap, swapvisitcount, interswapcount, life
      ensures Valid()
      ensures next < n && (inter ==> next != old(intermaptable[pairlist[la]]))
      ensures Read() == After(old(Read()), n, la, inter, next, flip)
      ensures stat == -1 <==> iswrite && AnyWornOut(life[..], Watched(old(Read()), n, la, inter, next, flip))
      ensures iswrite ==>
                stat == Status(MovedWear(old(life[..]), old(Read()), n, la, inter), life[..], old(Read()), n, la, inter,
                               next, flip)
      ensures Translate(Read(), n, la) == returnaddr1 || (flip && Translate(Read(), n, la) == returnaddr2)
      ensures iswrite ==> life[..] == Wear(old(life[..]), old(Read()), n, la, inter, next, flip)
                          && writes == old(writes) + 1
      ensures swaptimes == old(swaptimes) + (if flip then 1 else 0)
              && interswaptimes == old(interswaptimes) + (if inter then 1 else 0)
      ensures inter == (iswrite && old(interswapcount[pairlist[la]]) + 1 >= INTER_INTERVAL)
      ensures mid == Moved(old(Read()), n, la, inter, next) && MapOk(mid, n) && old(reversemaptable[next]) < n
      ensures
        var low, page := Low(n, mid.inter[mid.pair[la]]), Translate(mid, n, la);
        && flip == (iswrite && old(swapvisitcount[..])[page] + 1 >= SWAP_THRESHOLD && toss != mid.isswap[low])
        && (iswrite ==>
              swapvisitcount[..] == PageCounts(old(swapvisitcount[..]), page, sortedlist[low], sortedlist[n - 1 - low]))
      ensures iswrite ==>
                interswapcount[..]
                == RankCounts(old(interswapcount[..]), pairlist[la], old(reversemaptable[next]), inter)
      ensures inter ==> interswapcount[pairlist[la]] == 0 && interswapcount[old(reversemaptable[next])] == 0
      ensures iswrite && !inter ==> interswapcount[pairlist[la]] == old(interswapcount[pairlist[la]]) + 1
      ensures forall a :: 0 <= a < n && a != pairlist[la] && (inter ==> a != old(reversemaptable[next])) ==>
                            interswapcount[a] == old(interswapcount[..])[a]
      ensures iswrite ==>
                var low, page := Low(n, mid.inter[mid.pair[la]]), Translate(mid, n, la);
                PagesCounted(old(swapvisitcount[..]), swapvisitcount[..], page, sortedlist[low],
                             sortedlist[n - 1 - low])
      ensures !iswrite ==>
                && !inter && !flip && stat == 0 && life[..] == old(life[..]) && writes == old(writes)
                && swapvisitcount[..] == old(swapvisitcount[..]) && interswapcount[..] == old(interswapcount[..])
    {
      hide MapOk, Translate, InterCharge, Settled, Moved, After, Wear, SettledWear, Total, Counters,
        PageCounts, PagesCounted, RankCounts, Low, Watched, AnyWornOut, Status;
      ghost var v, was := Read(), life[..];
      var m, stat0;
      m, stat0, inter, next := Enter(la, iswrite);
      mid := Read();
      HalvesMeet(was, v, mid, n, la, inter, next, true);
      HalvesMeet(was, v, mid, n, la, inter, next, false);
      stat, returnaddr1, returnaddr2, flip := Exit(la, m, iswrite, toss, stat0);
      if iswrite {
        WearTotal(was, v, n, la, inter, next, flip);
        HalvesStatus(was, v, mid, n, la, inter, next, flip, stat);
      }
      writes := writes + if iswrite then 1 else 0;
      AccountsStep(Total(life0), Total(was), Total(life[..]), old(writes + interswaptimes + swaptimes), iswrite, inter,
                   flip);
    }

    /** The two pages of the pair that a table entry leads to, and the one of them that it means. */
    method PairOf(m: nat) returns (pairaddr: nat, addr: nat, nowaddr2: nat, page: nat)
      requires Separate() && MapOk(Read(), n) && m < n
      ensures pairaddr == Low(n, m) && addr == sortedlist[pairaddr] && nowaddr2 == sortedlist[n - 1 - pairaddr]
      ensures page == if (m >= n / 2) != isswap[pairaddr] then nowaddr2 else addr
    {
      var sourceaddr;
      pairaddr, sourceaddr := m, false;
      if m >= n / 2 {
        pairaddr, sourceaddr := n - 1 - m, true;
      }
      addr := sortedlist[pairaddr];
      assert pairlist[addr] == pairaddr;
      nowaddr2 := sortedlist[n - 1 - pairlist[addr]];
      page := if sourceaddr != isswap[pairaddr] then nowaddr2 else addr;
    }

    /** The second half of access, for the table entry m of la's rank. */
    method Exit(la: nat, m: nat, iswrite: bool, toss: bool, stat0: int)
      returns (stat: int, returnaddr1: nat, returnaddr2: nat, ghost flip: bool)
      requires Separate() && MapOk(Read(), n) && Counters() && la < n == |pairlist| && pairlist[la] < n
      requires m == intermaptable[pairlist[la]] < n
      modifies this`swaptimes, isswap, swapvisitcount, life
      ensures MapOk(Read(), n) && Counters()
      ensures stat == if flip then if life[sortedlist[n - 1 - Low(n, m)]] < 0.0 then -1 else stat0 + 1
                      else if iswrite && life[old(Translate(Read(), n, la))] < 0.0 then -1 else stat0
      ensures Read() == Settled(old(Read()), n, m, flip) && swaptimes == old(swaptimes) + if flip then 1 else 0
      ensures life[..] == if iswrite then SettledWear(old(life[..]), old(Read()), n, m, flip) else old(life[..])
      ensures Translate(Read(), n, la) == returnaddr1 || (flip && Translate(Read(), n, la) == returnaddr2)
      ensures flip == (iswrite && old(swapvisitcount[Translate(Read(), n, la)]) + 1 >= SWAP_THRESHOLD
                       && toss != old(isswap[Low(n, m)]))
      ensures swapvisitcount[..]
           == if iswrite then PageCounts(old(swapvisitcount[..]), old(Translate(Read(), n, la)),
                                         sortedlist[Low(n, m)], sortedlist[n - 1 - Low(n, m)])
              else old(swapvisitcount[..])
      ensures iswrite ==>
                var page, low := old(Translate(Read(), n, la)), Low(n, m);
                PagesCounted(old(swapvisitcount[..]), swapvisitcount[..], page, sortedlist[low],
                             sortedlist[n - 1 - low])
    {
      hide MapOk, Translate, Flipped, Worn, Resolve, Settled, SettledWear, Low, PageCounts, PagesCounted;
      ghost var w := Read();
      var pairaddr, addr, nowaddr2, page := PairOf(m);
      ExitMeaning(w, n, la, m, pairaddr, addr, nowaddr2, page, life[..]);
      PageCountsAt(swapvisitcount[..], page, addr, nowaddr2);
      var isdoswap := CountVisit(page, addr, nowaddr2, iswrite);
      stat, returnaddr1, returnaddr2, flip := Settle(pairaddr, addr, nowaddr2, page, iswrite, isdoswap, toss, stat0);
    }

    /** The first half of access: looks up the table entry of la's rank. */
    method Enter(la: nat, iswrite: bool) returns (m: nat, stat: int, ghost inter: bool, ghost next: nat)
      requires Separate() && MapOk(Read(), n) && Counters() && la < n
      modifies this`interswaptimes, intermaptable, reversemaptable, interswapcount, life
      ensures next < n && inter == (iswrite && old(interswapcount[pairlist[la]]) + 1 >= INTER_INTERVAL)
      ensures inter ==> next != old(intermaptable[pairlist[la]])
      ensures Read() == Moved(old(Read()), n, la, inter, next)
      ensures n == |pairlist| && pairlist[la] < n && m == intermaptable[pairlist[la]] < n
      ensures life[..] == MovedWear(old(life[..]), old(Read()), n, la, inter)
      ensures interswaptimes == old(interswaptimes) + (if inter then 1 else 0)
      ensures stat == MovedStatus(life[..], old(Read()), n, la, inter)
      ensures Counters() && old(reversemaptable[next]) < n
      ensures interswapcount[..]
           == if iswrite then RankCounts(old(interswapcount[..]), pairlist[la], old(reversemaptable[next]), inter)
              else old(interswapcount[..])
      ensures inter ==> interswapcount[pairlist[la]] == 0 && interswapcount[old(reversemaptable[next])] == 0
      ensures iswrite && !inter ==> interswapcount[pairlist[la]] == old(interswapcount[pairlist[la]]) + 1
      ensures forall a :: 0 <= a < n && a != pairlist[la] && (inter ==> a != old(reversemaptable[next])) ==>
                            interswapcount[a] == old(interswapcount[..])[a]
    {
      var pairindex, sourceaddr := pairlist[la], false;
      if pairindex >= n / 2 {
        pairindex, sourceaddr := n - 1 - pairindex, true;
      }
      hide Interswapped, Worn, InterCharge, RankCounts;
      ghost var counts := interswapcount[..];
      m, stat, inter, next := GetPairAddr(pairindex, sourceaddr, iswrite);
      RankCountsAt(counts, pairlist[la], old(reversemaptable[..])[next], inter);
    }
  }

  lemma AccountsStep(total0: real, was: real, now: real, events: nat, iswrite: bool, inter: bool, flip: bool)
    requires was == total0 - events as real
    requires now == if iswrite then was - 1.0 - (if inter then 1.0 else 0.0) - (if flip then 1.0 else 0.0) else was
    requires !iswrite ==> !inter && !flip
    ensures
      var more := (if iswrite then 1 else 0) + (if inter then 1 else 0) + (if flip then 1 else 0);
      now == total0 - (events + more) as real
  {
  }

  /** After the second half of an access, la is on one of the pair's pages; unless they traded places, on the
      one it was on before. */
  lemma SettledMeaning(w: View, n: nat, la: nat, m: nat, low: nat, addr: nat, other: nat, flip: bool)
    requires MapOk(w, n) && la < n && m == w.inter[w.pair[la]] && low == Low(n, m)
    requires addr == w.sorted[low] && other == w.sorted[n - 1 - low]
    ensures MapOk(Settled(w, n, m, flip), n)
    ensures Translate(w, n, la) == w.sorted[Resolve(w, n, m)]
    ensures Translate(Settled(w, n, m, flip), n, la) == addr || Translate(Settled(w, n, m, flip), n, la) == other
  {
    if flip {
      FlipExchanges(w, n, low, la);
    }
    PairPages(w, n, m, m >= n / 2, low, addr, other);
  }

  lemma ExitMeaning(w: View, n: nat, la: nat, m: nat, low: nat, addr: nat, other: nat, page: nat, life: seq<real>)
    requires MapOk(w, n) && la < n == |life| && m == w.inter[w.pair[la]] && low == Low(n, m)
    requires addr == w.sorted[low] && other == w.sorted[n - 1 - low]
             && page == if (m >= n / 2) != w.isswap[low] then other else addr
    ensures low < n && addr < n && other < n && page < n && addr != other && (page == addr || page == other)
    ensures Settled(w, n, m, false) == w && Settled(w, n, m, true) == Flipped(w, low) && MapOk(Flipped(w, low), n)
    ensures Translate(w, n, la) == page
    ensures Translate(Flipped(w, low), n, la) == addr || Translate(Flipped(w, low), n, la) == other
    ensures SettledWear(life, w, n, m, false) == Worn(life, page)
    ensures SettledWear(life, w, n, m, true) == Worn(Worn(life, addr), other)
  {
    SettledMeaning(w, n, la, m, low, addr, other, true);
    PairPages(w, n, m, m >= n / 2, low, addr, other);
    WornCommutes(life, addr, other);
  }

  lemma PairPages(v: View, n: nat, m: nat, source: bool, low: nat, addr: nat, other: nat)
    requires MapOk(v, n) && m < n && source == (m >= n / 2) && low == Low(n, m)
    requires addr == v.sorted[low] && v.pair[addr] < n && other == v.sorted[n - 1 - v.pair[addr]]
    ensures addr < n && other < n && addr != other && low < n
    ensures v.sorted[Resolve(v, n, m)] == if source != v.isswap[low] then other else addr
    ensures v.sorted[n - 1 - Resolve(v, n, m)] == if source != v.isswap[low] then addr else other
  {
    assert v.pair[v.sorted[n - 1 - low]] == n - 1 - low;
  }

  lemma WornCommutes(life: seq<real>, a: nat, b: nat)
    requires a < |life| && b < |life| && a != b
    ensures Worn(Worn(life, a), b) == Worn(Worn(life, b), a)
  {
  }
}
