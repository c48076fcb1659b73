/** Scheduling and bank timing of the DDR controller, ddr_mem.cpp. The commands that a run issues are recorded
    in a trace, and the controller's few cycle counters keep that trace legal by rules that speak of the
    commands alone. */
module DdrMemory {
  import opened ActWindows
  import opened BankQueues
  import opened Bits
  import opened MemClock
  import opened Options

  /** The rank of each bank, device parameters in memory cycles, and the scheduling policy. Banks are numbered
      through all ranks. */
  datatype Timing = Timing(rankOf: seq<nat>, tBL: nat, tCL: nat, tRCD: nat, tRTP: nat, tRP: nat, tRRD: nat,
                           tRAS: nat, tFAW: nat, tWTR: nat, tWR: nat, tRFC: nat, closedPage: bool,
                           deferredWrites: bool, rowHitLimit: nat, queueDepth: nat) {
    predicate Valid() {
      tBL >= 1 && tRFC >= tRP
    }

    /** From a column command to the earliest precharge. */
    function Recovery(write: bool): nat {
      if write then tCL + tBL + tWR else tRTP
    }
  }

  // ---------------------------------------------------------------------------------------------
  // Legal traces
  // ---------------------------------------------------------------------------------------------

  /** Row activations, column accesses (reads and writes), and refreshes by the cycle they are done. */
  datatype Event =
    | Act(bank: nat, row: nat, cycle: nat)
    | Col(bank: nat, row: nat, write: bool, cycle: nat)
    | Ref(done: nat)

  /** The distance that an earlier command e imposes on a later one f. */
  ghost predicate Apart(t: Timing, e: Event, f: Event) {
    match e
    case Act(b, _, c) => (
      match f
      case Act(b', _, c') => b == b' ==> c' >= c + t.tRAS + t.tRP && c' >= c + t.tRRD
      case Col(b', _, _, c') => b == b' ==> c' >= c + t.tRCD
      case Ref(done) => done >= c + t.tRAS + t.tRFC
    )
    case Col(b, _, w, c) => (
      match f
      case Act(b', _, c') => b == b' ==> c' >= c + t.Recovery(w) + t.tRP
      case Col(_, _, w', c') => c' >= c + t.tBL && (w && !w' ==> c' >= c + t.tCL + t.tBL + t.tWTR)
      case Ref(done) => done >= c + t.Recovery(w) + t.tRFC
    )
    case Ref(d) => (
      match f
      case Act(_, _, c') => c' >= d
      case Col(_, _, _, c') => c' >= d
      case Ref(d') => d' >= d
    )
  }

  /** The row that a trace leaves open in a bank if nobody precharges it: that of the last activation since the
      last refresh. */
  ghost function RowOf(trace: seq<Event>, b: nat): OpenRow {
    if trace == [] then Closed
    else
      match trace[|trace| - 1]
      case Act(b', row, _) => if b' == b then Open(row, 0) else RowOf(trace[..|trace| - 1], b)
      case Col(_, _, _, _) => RowOf(trace[..|trace| - 1], b)
      case Ref(_) => Closed
  }

  /** Column accesses go to the row that is open. */
  ghost predicate RowMatches(trace: seq<Event>, j: nat)
    requires j < |trace|
  {
    trace[j].Col? ==> RowOf(trace[..j], trace[j].bank) == Open(trace[j].row, 0)
  }

  /** How many activations of a rank may follow each other freely. */
  const FAW_SIZE := 4

  /** The cycles of the activations in a rank, in the order of their issue. */
  ghost function ActsOf(rankOf: seq<nat>, trace: seq<Event>, rank: nat): seq<nat> {
    if trace == [] then [] else ActsOf(rankOf, trace[..|trace| - 1], rank) + ActIn(rankOf, trace[|trace| - 1], rank)
  }

  ghost function ActIn(rankOf: seq<nat>, e: Event, rank: nat): seq<nat> {
    if e.Act? && e.bank < |rankOf| && rankOf[e.bank] == rank then [e.cycle] else []
  }

  /** Any FAW_SIZE + 1 activations of a rank span at least tFAW. */
  ghost predicate ActsSpread(t: Timing, trace: seq<Event>, rank: nat) {
    Spread(ActsOf(t.rankOf, trace, rank), FAW_SIZE, t.tFAW)
  }

  ghost predicate Legal(t: Timing, trace: seq<Event>) {
    && (forall i, j :: 0 <= i < j < |trace| ==> Apart(t, trace[i], trace[j]))
    && (forall j :: 0 <= j < |trace| ==> RowMatches(trace, j))
    && (forall rank :: rank in t.rankOf ==> ActsSpread(t, trace, rank))
  }

  lemma ActsOfExtended(rankOf: seq<nat>, trace: seq<Event>, rank: nat, f: Event)
    ensures ActsOf(rankOf, trace + [f], rank) == ActsOf(rankOf, trace, rank) + ActIn(rankOf, f, rank)
  {
    assert (trace + [f])[..|trace|] == trace;
  }

  lemma LegalExtends(t: Timing, trace: seq<Event>, f: Event)
    requires Legal(t, trace) && forall i :: 0 <= i < |trace| ==> Apart(t, trace[i], f)
    requires f.Col? ==> RowOf(trace, f.bank) == Open(f.row, 0)
    requires f.Act? ==> forall rank :: rank in t.rankOf ==> ActsSpread(t, trace + [f], rank)
    ensures Legal(t, trace + [f])
  {
    hide Apart, RowOf, ActsOf, Spread;
    var trace' := trace + [f];
    forall rank | rank in t.rankOf
      ensures ActsSpread(t, trace', rank)
    {
      assert ActsSpread(t, trace, rank);
      ActsOfExtended(t.rankOf, trace, rank, f);
      assert ActsOf(t.rankOf, trace, rank) + [] == ActsOf(t.rankOf, trace, rank);
    }
    forall j | 0 <= j < |trace'|
      ensures RowMatches(trace', j)
    {
      assert trace'[..j] == trace[..j];
      if j < |trace| {
        assert RowMatches(trace, j);
      } else {
        assert trace[..j] == trace;
      }
    }
  }

  /** The bursts of two column accesses on the data bus do not overlap. */
  lemma BurstsDisjoint(t: Timing, trace: seq<Event>, i: nat, j: nat, x: nat)
    requires Legal(t, trace) && i < |trace| && j < |trace| && i != j && trace[i].Col? && trace[j].Col?
    requires trace[i].cycle + t.tCL <= x < trace[i].cycle + t.tCL + t.tBL
    ensures !(trace[j].cycle + t.tCL <= x < trace[j].cycle + t.tCL + t.tBL)
  {
    if i < j {
      assert Apart(t, trace[i], trace[j]);
    } else {
      assert Apart(t, trace[j], trace[i]);
    }
  }

  /** No tFAW cycles in a row hold more than FAW_SIZE activations of a rank. */
  lemma FewActsAtOnce(t: Timing, trace: seq<Event>, rank: nat, x: nat)
    requires Legal(t, trace) && rank in t.rankOf
    ensures
      var acts := ActsOf(t.rankOf, trace, rank);
      |set i | 0 <= i < |acts| && x <= acts[i] < x + t.tFAW| <= FAW_SIZE
  {
    assert ActsSpread(t, trace, rank);
    FewAtOnce(ActsOf(t.rankOf, trace, rank), FAW_SIZE, t.tFAW, x);
  }

  // ---------------------------------------------------------------------------------------------
  // The controller's counters
  // ---------------------------------------------------------------------------------------------

  datatype Bank = Bank(openRow: nat, open: bool, minPreCycle: nat, lastActCycle: nat, lastCmdCycle: nat,
                       curRowHits: nat, rdReqs: seq<Request>, wrReqs: seq<Request>)

  /** Besides the banks' counters: the window of each rank, oldest cycle first, and the data bus. */
  datatype State = State(banks: seq<Bank>, windows: seq<seq<nat>>, minRespCycle: nat, lastCmdWasWrite: bool)

  /** Every bank has a rank, and every rank a window. */
  ghost predicate Fits(t: Timing, s: State) {
    && |t.rankOf| == |s.banks| > 0
    && (forall b :: 0 <= b < |t.rankOf| ==> t.rankOf[b] < |s.windows|)
    && (forall k :: 0 <= k < |s.windows| ==> |s.windows[k]| == FAW_SIZE)
  }

  const NO_ACTS: seq<nat> := [0, 0, 0, 0]

  /** The window holds what the activations of its rank have left there, each of which waited for tFAW. */
  ghost predicate WindowOk(t: Timing, s: State, trace: seq<Event>, rank: nat)
    requires rank < |s.windows|
  {
    var acts := ActsOf(t.rankOf, trace, rank);
    Waited(NO_ACTS, acts, t.tFAW) && s.windows[rank] == After(NO_ACTS, acts)
  }

  /** The counters still enforce what an issued command imposes on later ones. */
  ghost predicate Enforced(t: Timing, e: Event, s: State) {
    match e
    case Act(b, _, c) =>
      && b < |s.banks| && s.banks[b].minPreCycle >= c + t.tRAS && s.banks[b].lastActCycle >= c
      && s.minRespCycle >= c + t.tRCD + t.tCL
    case Col(b, _, w, c) =>
      && b < |s.banks| && s.banks[b].minPreCycle >= c + t.Recovery(w) && s.minRespCycle >= c + t.tCL + t.tBL
      && (w && !s.lastCmdWasWrite ==> s.minRespCycle >= c + t.tCL + t.tBL + t.tWTR + t.tCL)
    case Ref(done) => forall b :: 0 <= b < |s.banks| ==> RefreshEnforced(t, s, b, done)
  }

  ghost predicate RefreshEnforced(t: Timing, s: State, b: nat, done: nat)
    requires b < |s.banks|
  {
    s.banks[b].minPreCycle + t.tRP >= done && (s.banks[b].open ==> s.minRespCycle >= done + t.tCL)
  }

  ghost predicate BankOk(t: Timing, s: State, trace: seq<Event>, b: nat)
    requires b < |s.banks|
  {
    && s.banks[b].lastCmdCycle + t.tCL + t.tBL <= s.minRespCycle
    && (s.banks[b].open ==> RowOf(trace, b) == Open(s.banks[b].openRow, 0))
  }

  /** A precharge of b before cycle pre is what e forbids. */
  ghost predicate Holds(t: Timing, e: Event, b: nat, pre: nat) {
    match e
    case Act(b', _, c) => b' == b && pre == c + t.tRAS
    case Col(b', _, w, c) => b' == b && pre == c + t.Recovery(w)
    case Ref(done) => pre + t.tRP == done
  }

  ghost predicate IsAct(e: Event, b: nat, cycle: nat) {
    e.Act? && e.bank == b && e.cycle == cycle
  }

  ghost predicate IsCol(e: Event, b: nat, cycle: nat) {
    e.Col? && e.bank == b && e.cycle == cycle
  }

  ghost predicate IsBurst(t: Timing, e: Event, done: nat, write: bool) {
    e.Col? && e.cycle + t.tCL + t.tBL == done && e.write == write
  }

  /** The counters of a bank are no later than its commands make them. */
  ghost predicate BankTight(t: Timing, s: State, trace: seq<Event>, b: nat)
    requires b < |s.banks|
  {
    var bank := s.banks[b];
    && (bank.minPreCycle == 0 || exists e :: e in trace && Holds(t, e, b, bank.minPreCycle))
    && ((bank.lastActCycle == 0 && !bank.open) || exists e :: e in trace && IsAct(e, b, bank.lastActCycle))
    && (bank.lastCmdCycle == 0 || exists e :: e in trace && IsCol(e, b, bank.lastCmdCycle))
  }

  /** All counters are, and the bus is taken for the last burst only. */
  ghost predicate Tight(t: Timing, s: State, trace: seq<Event>) {
    && (forall b :: 0 <= b < |s.banks| ==> BankTight(t, s, trace, b))
    && ((s.minRespCycle == t.tCL + t.tBL + 1 && !s.lastCmdWasWrite)
        || exists e :: e in trace && IsBurst(t, e, s.minRespCycle, s.lastCmdWasWrite))
  }

  ghost predicate Ready(t: Timing, s: State, trace: seq<Event>) {
    && t.Valid() && Legal(t, trace) && s.minRespCycle >= t.tCL + t.tBL + 1
    && (forall i :: 0 <= i < |trace| ==> Enforced(t, trace[i], s))
    && (forall b :: 0 <= b < |s.banks| ==> BankOk(t, s, trace, b))
    && (forall k :: 0 <= k < |s.windows| ==> WindowOk(t, s, trace, k))
    && Tight(t, s, trace)
  }

  /** The counters only move forward, and a bank that was closed is only opened after a precharge. */
  ghost predicate Later(t: Timing, s: State, s': State) {
    && |s'.banks| == |s.banks| && s'.minRespCycle >= s.minRespCycle
    && (s.lastCmdWasWrite && !s'.lastCmdWasWrite ==> s'.minRespCycle >= s.minRespCycle + t.tWTR + t.tCL)
    && forall b :: 0 <= b < |s.banks| ==> BankLater(t, s, s', b)
  }

  ghost predicate BankLater(t: Timing, s: State, s': State, b: nat)
    requires b < |s.banks| == |s'.banks|
  {
    && s'.banks[b].minPreCycle >= s.banks[b].minPreCycle && s'.banks[b].lastActCycle >= s.banks[b].lastActCycle
    && (s'.banks[b].open && !s.banks[b].open ==> s'.minRespCycle >= s.banks[b].minPreCycle + t.tRP + t.tCL)
  }

  lemma EnforcedLater(t: Timing, e: Event, s: State, s': State)
    requires Enforced(t, e, s) && Later(t, s, s')
    ensures Enforced(t, e, s')
  {
    match e
    case Act(b, _, _) => assert BankLater(t, s, s', b);
    case Col(b, _, _, _) => assert BankLater(t, s, s', b);
    case Ref(done) =>
      forall b | 0 <= b < |s'.banks|
        ensures RefreshEnforced(t, s', b, done)
      {
        assert RefreshEnforced(t, s, b, done) && BankLater(t, s, s', b);
      }
  }

  // The checks before a command amount to the rules

  lemma ActApart(t: Timing, e: Event, s: State, b: nat, row: nat, act: nat)
    requires Enforced(t, e, s) && b < |s.banks|
    requires act >= s.banks[b].minPreCycle + t.tRP && act >= s.banks[b].lastActCycle + t.tRRD
    ensures Apart(t, e, Act(b, row, act))
  {
    if e.Ref? {
      assert RefreshEnforced(t, s, b, e.done);
    }
  }

  lemma ColApart(t: Timing, e: Event, s: State, b: nat, row: nat, write: bool, cmd: nat)
    requires Enforced(t, e, s) && b < |s.banks| && cmd + t.tCL >= s.minRespCycle
    requires s.lastCmdWasWrite && !write ==> cmd >= s.minRespCycle + t.tWTR
    requires s.banks[b].open || cmd >= s.banks[b].minPreCycle + t.tRP
    ensures Apart(t, e, Col(b, row, write, cmd))
  {
    if e.Ref? {
      assert RefreshEnforced(t, s, b, e.done);
    }
  }

  // ---------------------------------------------------------------------------------------------
  // Issuing a request
  // ---------------------------------------------------------------------------------------------

  function Max(a: nat, b: nat): nat {
    if a >= b then a else b
  }

  predicate RowHit(bank: Bank, r: Request) {
    r.row == bank.openRow && bank.open
  }

  function PreCycle(bank: Bank, r: Request): nat {
    if !bank.open then bank.minPreCycle else Max(r.arrivalCycle, bank.minPreCycle)
  }

  /** The cycle at which the row of r can be activated. minAct is the oldest cycle in the rank's window. */
  function ActCycle(t: Timing, bank: Bank, r: Request, minAct: nat): (act: nat)
    ensures act >= bank.minPreCycle + t.tRP && act >= bank.lastActCycle + t.tRRD
    ensures act >= r.arrivalCycle && act >= minAct + t.tFAW
  {
    Max(Max(r.arrivalCycle, Max(PreCycle(bank, r) + t.tRP, bank.lastActCycle + t.tRRD)), minAct + t.tFAW)
  }

  /** findMinCmdCycle */
  function MinCmdCycle(t: Timing, bank: Bank, r: Request, minAct: nat): nat {
    if RowHit(bank, r) then Max(r.arrivalCycle, bank.lastCmdCycle + 1) else ActCycle(t, bank, r, minAct) + t.tRCD
  }

  /** The cycle of the column access, once the data bus is taken into account. */
  function CmdCycle(t: Timing, s: State, bank: Bank, r: Request, minAct: nat, cur: nat): (cmd: nat)
    requires s.minRespCycle >= t.tCL
    ensures cmd >= cur && cmd + t.tCL >= s.minRespCycle
    ensures s.lastCmdWasWrite && !r.write ==> cmd >= s.minRespCycle + t.tWTR
    ensures !RowHit(bank, r) ==> cmd >= ActCycle(t, bank, r, minAct) + t.tRCD
  {
    var free := Max(cur, s.minRespCycle - t.tCL);
    var turned := if s.lastCmdWasWrite && !r.write then Max(free, s.minRespCycle + t.tWTR) else free;
    if RowHit(bank, r) then turned else Max(turned, ActCycle(t, bank, r, minAct) + t.tRCD)
  }

  /** A request found ready at cycle cur is issued right then, unless the bus has to turn around from a write;
      its activation is over by then and did not happen before the request arrived. */
  lemma ReadyIssuesOnTime(t: Timing, s: State, bank: Bank, r: Request, minAct: nat, cur: nat)
    requires s.minRespCycle >= t.tCL && cur + t.tCL >= s.minRespCycle && MinCmdCycle(t, bank, r, minAct) <= cur
    ensures CmdCycle(t, s, bank, r, minAct, cur)
         == if s.lastCmdWasWrite && !r.write then Max(cur, s.minRespCycle + t.tWTR) else cur
    ensures r.arrivalCycle <= cur
    ensures !RowHit(bank, r) ==> r.arrivalCycle <= ActCycle(t, bank, r, minAct) <= cur - t.tRCD
  {
  }

  /** The bank after the activation, if one is needed. */
  function Opened(t: Timing, bank: Bank, r: Request, minAct: nat): Bank {
    if RowHit(bank, r) then bank
    else bank.(open := true, openRow := r.row, lastActCycle := ActCycle(t, bank, r, minAct),
         minPreCycle := if bank.open then PreCycle(bank, r) + t.tRAS else bank.minPreCycle)
  }

  /** And after the column access. moreHits: the next request in the bank's queue continues the run. */
  function Accessed(t: Timing, bank: Bank, r: Request, cmd: nat, moreHits: bool): Bank {
    var recovered := if r.write then cmd + t.tCL + t.tBL + t.tWR else cmd + t.tRTP;
    bank.(open := bank.open && !(t.closedPage && !moreHits),
                  minPreCycle := Max(bank.minPreCycle, Max(bank.lastActCycle + t.tRAS, recovered)),
                  lastCmdCycle := cmd, curRowHits := r.rowHitSeq)
  }

  /** The oldest cycle in the window of a bank's rank. */
  function MinAct(t: Timing, s: State, b: nat): nat
    requires Fits(t, s) && b < |s.banks|
  {
    s.windows[t.rankOf[b]][0]
  }

  /** The windows after the activation for r, if it needs one. */
  function WindowsAfter(t: Timing, s: State, r: Request): seq<seq<nat>>
    requires Fits(t, s) && r.bank < |s.banks|
  {
    var rank, bank := t.rankOf[r.bank], s.banks[r.bank];
    if RowHit(bank, r) then s.windows
    else s.windows[rank := Added(s.windows[rank], ActCycle(t, bank, r, MinAct(t, s, r.bank)))]
  }

  function Issued(t: Timing, s: State, r: Request, cur: nat, moreHits: bool): State
    requires Fits(t, s) && r.bank < |s.banks| && s.minRespCycle >= t.tCL
  {
    var bank, minAct := s.banks[r.bank], MinAct(t, s, r.bank);
    var cmd := CmdCycle(t, s, bank, r, minAct, cur);
    State(s.banks[r.bank := Accessed(t, Opened(t, bank, r, minAct), r, cmd, moreHits)], WindowsAfter(t, s, r),
          cmd + t.tCL + t.tBL, r.write)
  }

  ghost function Commands(t: Timing, s: State, r: Request, cur: nat): seq<Event>
    requires Fits(t, s) && r.bank < |s.banks| && s.minRespCycle >= t.tCL
  {
    var bank, minAct := s.banks[r.bank], MinAct(t, s, r.bank);
    (if RowHit(bank, r) then [] else [Act(r.bank, r.row, ActCycle(t, bank, r, minAct))])
    + [Col(r.bank, r.row, r.write, CmdCycle(t, s, bank, r, minAct, cur))]
  }

  lemma IssuedLater(t: Timing, s: State, r: Request, cur: nat, moreHits: bool)
    requires Fits(t, s) && r.bank < |s.banks| && s.minRespCycle >= t.tCL
    ensures Later(t, s, Issued(t, s, r, cur, moreHits))
  {
  }

  lemma RowOfExtended(trace: seq<Event>, b: nat, f: Event)
    ensures
      RowOf(trace + [f], b) ==
      match f
      case Act(b', row, _) => if b' == b then Open(row, 0) else RowOf(trace, b)
      case Col(_, _, _, _) => RowOf(trace, b)
      case Ref(_) => Closed
  {
    assert (trace + [f])[..|trace|] == trace;
  }

  /** An activation that waits for tFAW after the oldest cycle in its rank's window keeps the activations of
      every rank spread, and the windows in order. */
  lemma ActWaits(t: Timing, s: State, trace: seq<Event>, r: Request, act: nat, rank: nat)
    requires Fits(t, s) && rank < |s.windows| && r.bank < |s.banks| && WindowOk(t, s, trace, rank)
    requires act >= MinAct(t, s, r.bank) + t.tFAW
    ensures
      var acts := ActsOf(t.rankOf, trace + [Act(r.bank, r.row, act)], rank);
      && Waited(NO_ACTS, acts, t.tFAW) && Spread(acts, FAW_SIZE, t.tFAW)
      && After(NO_ACTS, acts) == if rank == t.rankOf[r.bank] then Added(s.windows[rank], act) else s.windows[rank]
  {
    hide Waited, After, Added, Spread, ActsOf;
    var acts := ActsOf(t.rankOf, trace, rank);
    ActsOfExtended(t.rankOf, trace, rank, Act(r.bank, r.row, act));
    if rank == t.rankOf[r.bank] {
      WaitedExtends(NO_ACTS, acts, act, t.tFAW);
    } else {
      assert acts + [] == acts;
    }
    ActivationsSpread(NO_ACTS, ActsOf(t.rankOf, trace + [Act(r.bank, r.row, act)], rank), t.tFAW);
  }

  /** The commands issued for a request are legal after those issued before. */
  lemma IssuedLegal(t: Timing, s: State, trace: seq<Event>, r: Request, cur: nat)
    requires Fits(t, s) && Ready(t, s, trace) && r.bank < |s.banks|
    ensures Legal(t, trace + Commands(t, s, r, cur))
    ensures forall b :: 0 <= b < |s.banks| ==>
                          RowOf(trace + Commands(t, s, r, cur), b)
                          == if b == r.bank then Open(r.row, 0) else RowOf(trace, b)
  {
    hide RowOf, Legal, ActCycle, CmdCycle, ActsOf, Spread, WindowOk;
    var bank, minAct := s.banks[r.bank], MinAct(t, s, r.bank);
    var act, cmd := ActCycle(t, bank, r, minAct), CmdCycle(t, s, bank, r, minAct, cur);
    var a, c := Act(r.bank, r.row, act), Col(r.bank, r.row, r.write, cmd);
    assert BankOk(t, s, trace, r.bank);
    forall i | 0 <= i < |trace|
      ensures Apart(t, trace[i], a) && Apart(t, trace[i], c)
    {
      ActApart(t, trace[i], s, r.bank, r.row, act);
      ColApart(t, trace[i], s, r.bank, r.row, r.write, cmd);
    }
    forall rank | rank in t.rankOf
      ensures ActsSpread(t, trace + [a], rank)
    {
      ActWaits(t, s, trace, r, act, rank);
    }
    forall b: nat
      ensures RowOf(trace + [c], b) == RowOf(trace, b) && RowOf(trace + [a] + [c], b) == RowOf(trace + [a], b)
      ensures RowOf(trace + [a], b) == if b == r.bank then Open(r.row, 0) else RowOf(trace, b)
    {
      RowOfExtended(trace, b, c);
      RowOfExtended(trace, b, a);
      RowOfExtended(trace + [a], b, c);
    }
    if RowHit(bank, r) {
      LegalExtends(t, trace, c);
      assert trace + Commands(t, s, r, cur) == trace + [c];
    } else {
      LegalExtends(t, trace, a);
      LegalExtends(t, trace + [a], c);
      assert trace + Commands(t, s, r, cur) == trace + [a] + [c];
    }
  }

  /** The windows record the activation. */
  lemma IssuedWindow(t: Timing, s: State, trace: seq<Event>, r: Request, cur: nat, moreHits: bool, rank: nat)
    requires Fits(t, s) && r.bank < |s.banks| && s.minRespCycle >= t.tCL
    requires rank < |s.windows| && WindowOk(t, s, trace, rank)
    ensures WindowOk(t, Issued(t, s, r, cur, moreHits), trace + Commands(t, s, r, cur), rank)
  {
    hide Waited, After, Added, ActsOf, ActCycle, CmdCycle, Accessed, Opened;
    var bank, minAct := s.banks[r.bank], MinAct(t, s, r.bank);
    var act := ActCycle(t, bank, r, minAct);
    var a, c := Act(r.bank, r.row, act), Col(r.bank, r.row, r.write, CmdCycle(t, s, bank, r, minAct, cur));
    if RowHit(bank, r) {
      assert trace + Commands(t, s, r, cur) == trace + [c];
      ActsOfExtended(t.rankOf, trace, rank, c);
      assert ActsOf(t.rankOf, trace, rank) + [] == ActsOf(t.rankOf, trace, rank);
    } else {
      assert trace + Commands(t, s, r, cur) == trace + [a] + [c];
      ActWaits(t, s, trace, r, act, rank);
      ActsOfExtended(t.rankOf, trace + [a], rank, c);
      assert ActsOf(t.rankOf, trace + [a], rank) + [] == ActsOf(t.rankOf, trace + [a], rank);
    }
  }

  lemma InExtended(trace: seq<Event>, more: seq<Event>, e: Event)
    ensures e in trace + more <==> e in trace || e in more
  {
  }

  /** What a bank's counters were due to is still in a longer trace. */
  lemma TightExtends(t: Timing, s: State, s': State, trace: seq<Event>, more: seq<Event>, b: nat)
    requires b < |s.banks| == |s'.banks| && BankTight(t, s, trace, b)
    requires s'.banks[b].minPreCycle == s.banks[b].minPreCycle && s'.banks[b].lastActCycle == s.banks[b].lastActCycle
    requires s'.banks[b].lastCmdCycle == s.banks[b].lastCmdCycle && (s'.banks[b].open ==> s.banks[b].open)
    ensures BankTight(t, s', trace + more, b)
  {
    hide Holds, IsAct, IsCol;
    forall e | e in trace
      ensures e in trace + more
    {
      InExtended(trace, more, e);
    }
  }

  /** The commands issued are what the counters are then due to. */
  lemma IssuedTight(t: Timing, s: State, trace: seq<Event>, r: Request, cur: nat, moreHits: bool)
    requires Fits(t, s) && Tight(t, s, trace) && r.bank < |s.banks| && s.minRespCycle >= t.tCL
    ensures Tight(t, Issued(t, s, r, cur, moreHits), trace + Commands(t, s, r, cur))
  {
    hide BankTight, CmdCycle, WindowsAfter;
    var bank, minAct := s.banks[r.bank], MinAct(t, s, r.bank);
    var s', commands := Issued(t, s, r, cur, moreHits), Commands(t, s, r, cur);
    forall b | 0 <= b < |s.banks|
      ensures BankTight(t, s', trace + commands, b)
    {
      assert BankTight(t, s, trace, b);
      if b == r.bank {
        AccessedTight(t, s, trace, r, cur, moreHits);
      } else {
        TightExtends(t, s, s', trace, commands, b);
      }
    }
    var c := Col(r.bank, r.row, r.write, CmdCycle(t, s, bank, r, minAct, cur));
    assert c in trace + commands && IsBurst(t, c, s'.minRespCycle, s'.lastCmdWasWrite);
  }

  lemma AccessedTight(t: Timing, s: State, trace: seq<Event>, r: Request, cur: nat, moreHits: bool)
    requires Fits(t, s) && r.bank < |s.banks| && s.minRespCycle >= t.tCL && BankTight(t, s, trace, r.bank)
    ensures BankTight(t, Issued(t, s, r, cur, moreHits), trace + Commands(t, s, r, cur), r.bank)
  {
    hide CmdCycle, ActCycle, WindowsAfter;
    var b, bank, minAct := r.bank, s.banks[r.bank], MinAct(t, s, r.bank);
    var act, cmd := ActCycle(t, bank, r, minAct), CmdCycle(t, s, bank, r, minAct, cur);
    var trace' := trace + Commands(t, s, r, cur);
    var bank' := Issued(t, s, r, cur, moreHits).banks[b];
    var a, c := Act(b, r.row, act), Col(b, r.row, r.write, cmd);
    forall e
      ensures e in trace' <==> e in trace || (!RowHit(bank, r) && e == a) || e == c
    {
      InExtended(trace, Commands(t, s, r, cur), e);
    }
    assert IsCol(c, b, cmd) && Holds(t, c, b, cmd + t.Recovery(r.write));
    assert IsAct(a, b, act);
    var opener := a;
    if RowHit(bank, r) {
      opener :| opener in trace && IsAct(opener, b, bank.lastActCycle);
    }
    assert opener in trace' && IsAct(opener, b, bank'.lastActCycle);
    assert Holds(t, opener, b, bank'.lastActCycle + t.tRAS);
    assert bank'.minPreCycle == bank.minPreCycle || bank'.minPreCycle == bank'.lastActCycle + t.tRAS
           || bank'.minPreCycle == cmd + t.Recovery(r.write);
  }

  /** And the counters enforce what they impose. */
  lemma IssuedReady(t: Timing, s: State, trace: seq<Event>, r: Request, cur: nat, moreHits: bool)
    requires Fits(t, s) && Ready(t, s, trace) && r.bank < |s.banks|
    ensures Ready(t, Issued(t, s, r, cur, moreHits), trace + Commands(t, s, r, cur))
    ensures Fits(t, Issued(t, s, r, cur, moreHits)) && Later(t, s, Issued(t, s, r, cur, moreHits))
  {
    hide Apart, RowOf, Legal, ActCycle, CmdCycle, WindowOk, Tight;
    var bank, s', commands := s.banks[r.bank], Issued(t, s, r, cur, moreHits), Commands(t, s, r, cur);
    IssuedTight(t, s, trace, r, cur, moreHits);
    IssuedLater(t, s, r, cur, moreHits);
    IssuedLegal(t, s, trace, r, cur);
    var trace' := trace + commands;
    forall i | 0 <= i < |trace'|
      ensures Enforced(t, trace'[i], s')
    {
      if i < |trace| {
        EnforcedLater(t, trace[i], s, s');
      } else {
        CommandsEnforced(t, s, r, cur, moreHits, i - |trace|);
      }
    }
    forall b | 0 <= b < |s'.banks|
      ensures BankOk(t, s', trace', b)
    {
      assert BankOk(t, s, trace, b);
    }
    forall k | 0 <= k < |s'.windows|
      ensures WindowOk(t, s', trace', k)
    {
      IssuedWindow(t, s, trace, r, cur, moreHits, k);
    }
  }

  // Nothing waits longer than it has to

  /** Some command in the trace forbids f. */
  ghost predicate Refused(t: Timing, trace: seq<Event>, f: Event) {
    exists e :: e in trace && !Apart(t, e, f)
  }

  /** An activation any earlier would come before its request has arrived and an open row has been closed for it,
      before the oldest cycle in its rank's window allows it, right at the start, or too soon after some command. */
  lemma ActIsPrompt(t: Timing, s: State, trace: seq<Event>, r: Request, x: nat)
    requires Fits(t, s) && Tight(t, s, trace) && r.bank < |s.banks|
    requires x < ActCycle(t, s.banks[r.bank], r, MinAct(t, s, r.bank))
    ensures
      || x < r.arrivalCycle + (if s.banks[r.bank].open then t.tRP else 0)
      || x < MinAct(t, s, r.bank) + t.tFAW || x < Max(t.tRP, t.tRRD)
      || Refused(t, trace, Act(r.bank, r.row, x))
  {
    var bank, f := s.banks[r.bank], Act(r.bank, r.row, x);
    assert BankTight(t, s, trace, r.bank);
    if x < bank.minPreCycle + t.tRP && bank.minPreCycle > 0 {
      var e :| e in trace && Holds(t, e, r.bank, bank.minPreCycle);
      assert !Apart(t, e, f);
    }
    if x < bank.lastActCycle + t.tRRD && bank.lastActCycle > 0 {
      var e :| e in trace && IsAct(e, r.bank, bank.lastActCycle);
      assert !Apart(t, e, f);
    }
  }

  /** A column access any earlier would come before the controller schedules it, right at the start, or too soon
      after some command, the activation for it included. */
  lemma ColIsPrompt(t: Timing, s: State, trace: seq<Event>, r: Request, cur: nat, x: nat)
    requires Fits(t, s) && Tight(t, s, trace) && r.bank < |s.banks| && s.minRespCycle >= t.tCL
    requires x < CmdCycle(t, s, s.banks[r.bank], r, MinAct(t, s, r.bank), cur)
    ensures
      var commands := Commands(t, s, r, cur);
      || x < cur || x <= t.tBL
      || Refused(t, trace + commands[..|commands| - 1], Col(r.bank, r.row, r.write, x))
  {
    hide ActCycle;
    var bank, minAct, f := s.banks[r.bank], MinAct(t, s, r.bank), Col(r.bank, r.row, r.write, x);
    var commands := Commands(t, s, r, cur);
    var before := trace + commands[..|commands| - 1];
    if x >= cur && x > t.tBL {
      if !RowHit(bank, r) && x < ActCycle(t, bank, r, minAct) + t.tRCD {
        var a := commands[0];
        assert a in before && !Apart(t, a, f);
      } else {
        var e :| e in trace && IsBurst(t, e, s.minRespCycle, s.lastCmdWasWrite);
        assert e in before && !Apart(t, e, f);
      }
    }
  }

  /** Nor would it be any use to try earlier: before the cycle that findMinCmdCycle gives, the request has not
      arrived, no command is possible at all, or some command forbids the access. */
  lemma MinCmdIsPrompt(t: Timing, s: State, trace: seq<Event>, r: Request, x: nat)
    requires Fits(t, s) && Tight(t, s, trace) && t.Valid() && r.bank < |s.banks|
    requires x < MinCmdCycle(t, s.banks[r.bank], r, MinAct(t, s, r.bank))
    ensures
      var bank, act := s.banks[r.bank], ActCycle(t, s.banks[r.bank], r, MinAct(t, s, r.bank));
      || x < r.arrivalCycle || x == 0
      || Refused(t, if RowHit(bank, r) then trace else trace + [Act(r.bank, r.row, act)],
                 Col(r.bank, r.row, r.write, x))
  {
    hide ActCycle;
    var bank, act := s.banks[r.bank], ActCycle(t, s.banks[r.bank], r, MinAct(t, s, r.bank));
    var f := Col(r.bank, r.row, r.write, x);
    assert BankTight(t, s, trace, r.bank);
    if RowHit(bank, r) {
      if x >= r.arrivalCycle && x > 0 {
        var e :| e in trace && IsCol(e, r.bank, bank.lastCmdCycle);
        assert !Apart(t, e, f);
      }
    } else {
      var a := Act(r.bank, r.row, act);
      assert a in trace + [a] && !Apart(t, a, f);
    }
  }

  lemma CommandsEnforced(t: Timing, s: State, r: Request, cur: nat, moreHits: bool, i: nat)
    requires Fits(t, s) && r.bank < |s.banks| && s.minRespCycle >= t.tCL && i < |Commands(t, s, r, cur)|
    ensures Enforced(t, Commands(t, s, r, cur)[i], Issued(t, s, r, cur, moreHits))
  {
    hide ActCycle, CmdCycle;
  }

  // ---------------------------------------------------------------------------------------------
  // Refreshing
  // ---------------------------------------------------------------------------------------------

  function Refreshed(t: Timing, bank: Bank, done: nat): Bank
    requires done >= t.tRP
  {
    bank.(minPreCycle := done - t.tRP, open := false)
  }

  /** No bank is still busy at this cycle. */
  ghost predicate AllIdle(s: State, cycle: nat) {
    forall b :: 0 <= b < |s.banks| ==> s.banks[b].minPreCycle <= cycle && s.banks[b].lastCmdCycle <= cycle
  }

  ghost predicate BusyUntil(bank: Bank, cycle: nat) {
    bank.minPreCycle == cycle || bank.lastCmdCycle == cycle
  }

  /** s' is s after a refresh that is done at the given cycle. */
  ghost predicate IsRefreshed(t: Timing, s: State, s': State, done: nat) {
    && done >= t.tRP && |s'.banks| == |s.banks| && s'.minRespCycle == s.minRespCycle
    && s'.lastCmdWasWrite == s.lastCmdWasWrite && s'.windows == s.windows
    && forall b :: 0 <= b < |s.banks| ==> s'.banks[b] == Refreshed(t, s.banks[b], done)
  }

  lemma RefreshApart(t: Timing, e: Event, s: State, start: nat)
    requires t.Valid() && Enforced(t, e, s) && AllIdle(s, start) && |s.banks| > 0
    ensures Apart(t, e, Ref(start + t.tRFC))
  {
    if e.Ref? {
      assert RefreshEnforced(t, s, 0, e.done);
    }
  }

  lemma RefreshedTight(t: Timing, s: State, s': State, trace: seq<Event>, done: nat)
    requires Tight(t, s, trace) && IsRefreshed(t, s, s', done)
    ensures Tight(t, s', trace + [Ref(done)])
  {
    hide IsAct, IsCol;
    var f, trace' := Ref(done), trace + [Ref(done)];
    assert f in trace';
    forall e | e in trace
      ensures e in trace'
    {
      InExtended(trace, [f], e);
    }
    forall b | 0 <= b < |s'.banks|
      ensures BankTight(t, s', trace', b)
    {
      assert BankTight(t, s, trace, b);
      assert Holds(t, f, b, s'.banks[b].minPreCycle);
    }
  }

  lemma RefreshedReady(t: Timing, s: State, s': State, trace: seq<Event>, start: nat)
    requires Ready(t, s, trace) && AllIdle(s, start) && |s.banks| > 0 && IsRefreshed(t, s, s', start + t.tRFC)
    ensures Ready(t, s', trace + [Ref(start + t.tRFC)]) && Later(t, s, s')
  {
    hide Apart, RowOf, Legal, ActsOf, Waited, After, Tight;
    var f := Ref(start + t.tRFC);
    RefreshedTight(t, s, s', trace, start + t.tRFC);
    forall i | 0 <= i < |trace|
      ensures Apart(t, trace[i], f) && Enforced(t, trace[i], s')
    {
      RefreshApart(t, trace[i], s, start);
      EnforcedLater(t, trace[i], s, s');
    }
    LegalExtends(t, trace, f);
    forall b | 0 <= b < |s'.banks|
      ensures RefreshEnforced(t, s', b, f.done) && BankOk(t, s', trace + [f], b)
    {
      assert BankOk(t, s, trace, b);
    }
    forall k | 0 <= k < |s'.windows|
      ensures WindowOk(t, s', trace + [f], k)
    {
      assert WindowOk(t, s, trace, k);
      ActsOfExtended(t.rankOf, trace, k, f);
      assert ActsOf(t.rankOf, trace, k) + [] == ActsOf(t.rankOf, trace, k);
    }
  }

  // ---------------------------------------------------------------------------------------------
  // The queues
  // ---------------------------------------------------------------------------------------------

  function Without(queue: seq<Request>, i: nat): seq<Request>
    requires i < |queue|
  {
    queue[..i] + queue[i + 1..]
  }

  /** A bank's queue of reads, or of writes if these are deferred. */
  function Side(bank: Bank, writes: bool): seq<Request> {
    if writes then bank.wrReqs else bank.rdReqs
  }

  function WithSide(bank: Bank, writes: bool, q: seq<Request>): Bank {
    if writes then bank.(wrReqs := q) else bank.(rdReqs := q)
  }

  ghost predicate Queues(r: Request, banks: seq<Bank>, writes: bool) {
    r.bank < |banks| && r in Side(banks[r.bank], writes)
  }

  /** The channel's queue, in arrival order, holds exactly the requests in the banks' queues. */
  ghost predicate Matches(queue: seq<Request>, banks: seq<Bank>, writes: bool, nextId: nat) {
    Ascending(queue, nextId) && Members(queue, banks, writes)
  }

  ghost predicate Ascending(queue: seq<Request>, nextId: nat) {
    && (forall i, j :: 0 <= i < j < |queue| ==> queue[i].id < queue[j].id)
    && (forall i :: 0 <= i < |queue| ==> queue[i].id < nextId)
  }

  ghost predicate Members(queue: seq<Request>, banks: seq<Bank>, writes: bool) {
    && (forall r :: r in queue <==> Queues(r, banks, writes))
    && (forall b, r :: 0 <= b < |banks| && r in Side(banks[b], writes) ==> r.bank == b)
  }

  ghost predicate SidesOk(banks: seq<Bank>, limit: nat) {
    forall b :: 0 <= b < |banks| ==> QueueOk(banks[b].rdReqs, limit) && QueueOk(banks[b].wrReqs, limit)
  }

  predicate IsFront(r: Request, banks: seq<Bank>, writes: bool) {
    r.bank < |banks| && Side(banks[r.bank], writes) != [] && Side(banks[r.bank], writes)[0] == r
  }

  /** If any request is queued, one is first in its bank's queue. */
  lemma SomeFront(queue: seq<Request>, banks: seq<Bank>, writes: bool, nextId: nat)
    requires Matches(queue, banks, writes, nextId) && queue != []
    ensures exists i :: 0 <= i < |queue| && IsFront(queue[i], banks, writes)
  {
    var b := queue[0].bank;
    assert queue[0] in queue;
    assert Queues(queue[0], banks, writes);
    var front := Side(banks[b], writes)[0];
    assert front in Side(banks[b], writes);
    assert Queues(front, banks, writes);
    assert front in queue;
    var i :| 0 <= i < |queue| && queue[i] == front;
    assert IsFront(queue[i], banks, writes);
  }

  lemma QueuedMembers(q: seq<Request>, req: Request, limit: nat, openRow: OpenRow, x: Request)
    ensures x in Queued(q, req, limit, openRow) <==> x in q || x == req.(rowHitSeq := Number(q, req, limit, openRow))
  {
    var p := Slot(q, req, limit);
    assert q == q[..p] + q[p..];
  }

  /** Queueing a request in its bank and at the end of the channel's queue. */
  lemma ArrivalMatches(queue: seq<Request>, banks: seq<Bank>, writes: bool, req: Request, limit: nat, openRow: OpenRow)
    requires Matches(queue, banks, writes, req.id) && req.bank < |banks|
    ensures
      var q := Side(banks[req.bank], writes);
      Matches(queue + [req.(rowHitSeq := Number(q, req, limit, openRow))],
              banks[req.bank := WithSide(banks[req.bank], writes, Queued(q, req, limit, openRow))], writes, req.id + 1)
  {
    hide Queued, Number;
    var q := Side(banks[req.bank], writes);
    var entry := req.(rowHitSeq := Number(q, req, limit, openRow));
    var banks' := banks[req.bank := WithSide(banks[req.bank], writes, Queued(q, req, limit, openRow))];
    var queue' := queue + [entry];
    forall x: Request
      ensures x in queue' <==> Queues(x, banks', writes)
      ensures forall b :: 0 <= b < |banks'| && x in Side(banks'[b], writes) ==> x.bank == b
    {
      QueuedMembers(q, req, limit, openRow, x);
      assert x in queue <==> Queues(x, banks, writes);
    }
  }

  lemma ArrivalNewer(queue: seq<Request>, banks: seq<Bank>, writes: bool, req: Request)
    requires Matches(queue, banks, writes, req.id) && req.bank < |banks|
    ensures Newer(req, Side(banks[req.bank], writes))
  {
    var q := Side(banks[req.bank], writes);
    forall i | 0 <= i < |q|
      ensures q[i].id < req.id
    {
      assert q[i] in q;
      assert Queues(q[i], banks, writes);
    }
  }

  /** Serving the request at position i, the first of its bank. */
  lemma ServiceMatches(queue: seq<Request>, banks: seq<Bank>, writes: bool, nextId: nat, i: nat)
    requires Matches(queue, banks, writes, nextId) && i < |queue| && IsFront(queue[i], banks, writes)
    requires SameRowInOrder(Side(banks[queue[i].bank], writes))
    ensures
      var b := queue[i].bank;
      Matches(Without(queue, i), banks[b := WithSide(banks[b], writes, Side(banks[b], writes)[1..])], writes,
              nextId)
  {
    hide SameRowInOrder, Ascending;
    var r, b := queue[i], queue[i].bank;
    var q := Side(banks[b], writes);
    var banks' := banks[b := WithSide(banks[b], writes, q[1..])];
    var queue' := Without(queue, i);
    RemovedAscending(queue, i, nextId);
    forall x: Request
      ensures x in queue' <==> Queues(x, banks', writes)
      ensures forall b' :: 0 <= b' < |banks'| && x in Side(banks'[b'], writes) ==> x.bank == b'
    {
      assert x in queue <==> Queues(x, banks, writes);
      RemovedMembers(queue, i, nextId, x);
      FrontRemoved(q, x);
    }
  }

  lemma RemovedAscending(queue: seq<Request>, i: nat, nextId: nat)
    requires i < |queue| && Ascending(queue, nextId)
    ensures Ascending(Without(queue, i), nextId)
  {
    var queue' := Without(queue, i);
    assert forall k :: 0 <= k < |queue'| ==> queue'[k] == if k < i then queue[k] else queue[k + 1];
  }

  lemma RemovedMembers(queue: seq<Request>, i: nat, nextId: nat, x: Request)
    requires i < |queue| && Ascending(queue, nextId)
    ensures x in Without(queue, i) <==> x in queue && x != queue[i]
  {
    assert queue == queue[..i] + [queue[i]] + queue[i + 1..];
  }

  lemma FrontRemoved(q: seq<Request>, x: Request)
    requires q != [] && SameRowInOrder(q)
    ensures x in q[1..] <==> x in q && x != q[0]
  {
    assert q == [q[0]] + q[1..];
  }

  lemma SameTimingLater(t: Timing, s: State, b: nat, writes: bool, q: seq<Request>)
    requires b < |s.banks|
    ensures Later(t, s, s.(banks := s.banks[b := WithSide(s.banks[b], writes, q)]))
  {
  }

  lemma LaterShape(t: Timing, s: State, s': State)
    requires Later(t, s, s')
    ensures |s'.banks| == |s.banks|
  {
  }

  lemma LaterTransitive(t: Timing, s: State, s': State, s'': State)
    requires Later(t, s, s') && Later(t, s', s'')
    ensures Later(t, s, s'')
  {
    forall b | 0 <= b < |s.banks|
      ensures BankLater(t, s, s'', b)
    {
      assert BankLater(t, s, s', b) && BankLater(t, s', s'', b);
    }
  }

  lemma SameTimingTight(t: Timing, s: State, trace: seq<Event>, b: nat, writes: bool, q: seq<Request>)
    requires Tight(t, s, trace) && b < |s.banks|
    ensures Tight(t, s.(banks := s.banks[b := WithSide(s.banks[b], writes, q)]), trace)
  {
    var s' := s.(banks := s.banks[b := WithSide(s.banks[b], writes, q)]);
    assert trace + [] == trace;
    forall k | 0 <= k < |s'.banks|
      ensures BankTight(t, s', trace, k)
    {
      assert BankTight(t, s, trace, k);
      TightExtends(t, s, s', trace, [], k);
    }
  }

  /** Which requests are queued makes no difference to the timing. */
  lemma SameTiming(t: Timing, s: State, trace: seq<Event>, b: nat, writes: bool, q: seq<Request>)
    requires Ready(t, s, trace) && b < |s.banks|
    ensures Ready(t, s.(banks := s.banks[b := WithSide(s.banks[b], writes, q)]), trace)
  {
    hide Legal, RowOf, ActsOf, Waited, After, Tight;
    var s' := s.(banks := s.banks[b := WithSide(s.banks[b], writes, q)]);
    SameTimingTight(t, s, trace, b, writes, q);
    assert Later(t, s, s');
    forall i | 0 <= i < |trace|
      ensures Enforced(t, trace[i], s')
    {
      EnforcedLater(t, trace[i], s, s');
    }
    forall b | 0 <= b < |s'.banks|
      ensures BankOk(t, s', trace, b)
    {
      assert BankOk(t, s, trace, b);
    }
    forall k | 0 <= k < |s'.windows|
      ensures WindowOk(t, s', trace, k)
    {
      assert WindowOk(t, s, trace, k);
    }
  }

  // ---------------------------------------------------------------------------------------------
  // The controller
  // ---------------------------------------------------------------------------------------------

  predicate Sooner(cycle: nat, next: Option<nat>) {
    next == None || next.value > cycle
  }

  function Earlier(next: Option<nat>, cycle: nat): Option<nat> {
    if Sooner(cycle, next) then Some(cycle) else next
  }

  /** Serving r, the first on its side of its bank, leaves its row open unless the policy is closed-page and the rest
      of that side does not go on with row hits; and only that bank's row changes. */
  ghost predicate RowLeft(t: Timing, was: seq<Bank>, banks: seq<Bank>, r: Request, writes: bool) {
    && |banks| == |was| && IsFront(r, was, writes)
    && var bank, rest := banks[r.bank], Side(was[r.bank], writes)[1..];
    && bank.openRow == r.row && bank.curRowHits == r.rowHitSeq
    && (bank.open <==> !t.closedPage || (rest != [] && rest[0].rowHitSeq != 0))
    && forall b :: 0 <= b < |banks| && b != r.bank ==> SameRow(was[b], banks[b])
  }

  /** The same row is open, with as many hits. */
  ghost predicate SameRow(a: Bank, b: Bank) {
    a.open == b.open && a.openRow == b.openRow && a.curRowHits == b.curRowHits
  }

  ghost predicate SameRows(was: seq<Bank>, banks: seq<Bank>) {
    |banks| == |was| && forall b :: 0 <= b < |banks| ==> SameRow(was[b], banks[b])
  }

  lemma RowLeftStays(t: Timing, was: seq<Bank>, mid: seq<Bank>, banks: seq<Bank>, r: Request, writes: bool)
    requires RowLeft(t, was, mid, r, writes) && SameRows(mid, banks)
    ensures RowLeft(t, was, banks, r, writes)
  {
    assert SameRow(mid[r.bank], banks[r.bank]);
    forall b | 0 <= b < |banks| && b != r.bank
      ensures SameRow(was[b], banks[b])
    {
      assert SameRow(was[b], mid[b]) && SameRow(mid[b], banks[b]);
    }
  }

  lemma AccessedRow(t: Timing, was: seq<Bank>, r: Request, minAct: nat, cmd: nat, writes: bool)
    requires IsFront(r, was, writes)
    ensures
      var q := Side(was[r.bank], writes);
      var bank := Accessed(t, Opened(t, was[r.bank], r, minAct), r, cmd, |q| > 1 && q[1].rowHitSeq != 0);
      RowLeft(t, was, was[r.bank := WithSide(bank, writes, q[1..])], r, writes)
  {
    hide ActCycle, PreCycle;
  }

  /** A request that found the queues full. */
  datatype Overflow = Overflow(bank: nat, row: nat, write: bool)

  class DDRMemory {
    const t: Timing
    var banks: seq<Bank>
    var rankActWindows: seq<seq<nat>>
    var minRespCycle: nat
    var lastCmdWasWrite: bool
    var rdQueue: seq<Request>
    var wrQueue: seq<Request>
    var nextId: nat
    const sysFreqKHz: nat
    const memFreqKHz: nat
    var overflowQueue: seq<Overflow>
    var nextSchedCycle: Option<nat>  // when to schedule again, if at all
    ghost var wakeAt: Option<nat>  // the system cycle of the event that will call tick
    ghost var trace: seq<Event>

    function Counters(): State
      reads `banks, `rankActWindows, `minRespCycle, `lastCmdWasWrite
    {
      State(banks, rankActWindows, minRespCycle, lastCmdWasWrite)
    }

    ghost predicate QueuesOk()
      reads `banks, `rdQueue, `wrQueue, `nextId
    {
      Matches(rdQueue, banks, false, nextId) && Matches(wrQueue, banks, true, nextId) && SidesOk(banks, t.rowHitLimit)
    }

    ghost predicate Valid()
      reads `banks, `rankActWindows, `minRespCycle, `lastCmdWasWrite, `rdQueue, `wrQueue, `nextId, `trace
    {
      Fits(t, Counters()) && Ready(t, Counters(), trace) && QueuesOk()
    }

    predicate Full()
      reads `rdQueue, `wrQueue
    {
      |rdQueue| >= t.queueDepth || |wrQueue| >= t.queueDepth
    }

    /** Whether any request waits for the controller. */
    predicate Busy()
      reads `rdQueue, `wrQueue, `overflowQueue
    {
      rdQueue != [] || wrQueue != [] || overflowQueue != []
    }

    /** The queues are no longer than the device's, and the requests kept aside can be queued later. */
    ghost predicate RoomOk()
      reads `banks, `rdQueue, `wrQueue, `overflowQueue
    {
      && |rdQueue| <= t.queueDepth && |wrQueue| <= t.queueDepth
      && (forall i :: 0 <= i < |overflowQueue| ==> overflowQueue[i].bank < |banks|)
      && (overflowQueue != [] ==> rdQueue != [] || wrQueue != [])
    }

    /** No request waits without an event that will wake the controller, in the memory cycle it expects. */
    ghost predicate Awake()
      reads `banks, `rdQueue, `wrQueue, `overflowQueue, `nextSchedCycle, `wakeAt
    {
      && Accepted(sysFreqKHz, memFreqKHz) && t.queueDepth > 0 && RoomOk() && (Busy() ==> nextSchedCycle.Some?)
      && (nextSchedCycle.Some? <==> wakeAt.Some?)
      && (wakeAt.Some? ==> nextSchedCycle == Some(SysToMem(wakeAt.value, sysFreqKHz, memFreqKHz)))
    }

    constructor (t: Timing, ranks: nat, banksPerRank: nat, sysFreqKHz: nat, memFreqKHz: nat)
      requires t.Valid() && ranks > 0 && banksPerRank > 0 && t.rankOf == Ranks(ranks, banksPerRank)
      requires Accepted(sysFreqKHz, memFreqKHz)
      ensures Valid() && this.t == t && trace == [] && rdQueue == [] && wrQueue == []
      ensures t.queueDepth > 0 ==> Awake()
      ensures overflowQueue == [] && nextSchedCycle == None
      ensures this.sysFreqKHz == sysFreqKHz && this.memFreqKHz == memFreqKHz
    {
      this.t := t;
      RanksInRange(ranks, banksPerRank);
      banks := seq(ranks * banksPerRank, _ => Bank(0, false, 0, 0, 0, 0, [], []));
      rankActWindows := seq(ranks, _ => NO_ACTS);
      minRespCycle, lastCmdWasWrite := t.tCL + t.tBL + 1, false;
      rdQueue, wrQueue, nextId, trace := [], [], 0, [];
      this.sysFreqKHz, this.memFreqKHz := sysFreqKHz, memFreqKHz;
      overflowQueue, nextSchedCycle, wakeAt := [], None, None;
    }

    /** queue: a request joins its bank's queue in FR-FCFS order. */
    method Queue(bank: nat, row: nat, write: bool, memCycle: nat)
      requires Valid() && bank < |banks|
      modifies `banks, `rdQueue, `wrQueue, `nextId
      ensures Valid() && nextId == old(nextId) + 1 && Later(t, old(Counters()), Counters())
      ensures
        var writes := t.deferredWrites && write;
        var was := old(banks[bank]);
        var open := if was.open then Open(was.openRow, was.curRowHits) else Closed;
        var req := Request(old(nextId), bank, row, write, memCycle, 0);
        var entry := req.(rowHitSeq := Number(Side(was, writes), req, t.rowHitLimit, open));
        && banks == old(banks)[bank := WithSide(was, writes, Queued(Side(was, writes), req, t.rowHitLimit, open))]
        && (if writes then rdQueue == old(rdQueue) && wrQueue == old(wrQueue) + [entry]
            else wrQueue == old(wrQueue) && rdQueue == old(rdQueue) + [entry])
    {
      hide Ready, Matches, SidesOk, Queued, Later;
      var writes := t.deferredWrites && write;
      var was := banks[bank];
      var open := if was.open then Open(was.openRow, was.curRowHits) else Closed;
      var req := Request(nextId, bank, row, write, memCycle, 0);
      var q, entry := BankQueues.Enqueue(Side(was, writes), req, t.rowHitLimit, open);
      SameTiming(t, Counters(), trace, bank, writes, q);
      SameTimingLater(t, Counters(), bank, writes, q);
      ArrivalKeeps(if writes then wrQueue else rdQueue, if writes then rdQueue else wrQueue, banks, writes, req,
                   t.rowHitLimit, open);
      if writes {
        wrQueue := wrQueue + [entry];
      } else {
        rdQueue := rdQueue + [entry];
      }
      banks := banks[bank := WithSide(was, writes, q)];
      nextId := nextId + 1;
    }

    ghost function MinCmd(r: Request): nat
      reads `banks, `rankActWindows, `minRespCycle, `lastCmdWasWrite
      requires Fits(t, Counters()) && r.bank < |banks|
    {
      MinCmdCycle(t, banks[r.bank], r, MinAct(t, Counters(), r.bank))
    }

    /** r is the first request of its bank and its column access is possible by cycle cur. */
    ghost predicate IsReady(r: Request, writes: bool, cur: nat)
      reads `banks, `rankActWindows, `minRespCycle, `lastCmdWasWrite
      requires Fits(t, Counters())
    {
      IsFront(r, banks, writes) && MinCmd(r) <= cur
    }

    /** The position of the first ready request in arrival order. */
    ghost function FirstReady(queue: seq<Request>, writes: bool, cur: nat): (r: Option<nat>)
      reads `banks, `rankActWindows, `minRespCycle, `lastCmdWasWrite
      requires Fits(t, Counters())
      ensures r.Some? ==> r.value < |queue| && IsReady(queue[r.value], writes, cur)
      ensures forall j :: 0 <= j < (if r.Some? then r.value else |queue|) ==> !IsReady(queue[j], writes, cur)
    {
      if queue == [] then None
      else
        var last := |queue| - 1;
        var r := FirstReady(queue[..last], writes, cur);
        if r.Some? then r else if IsReady(queue[last], writes, cur) then Some(last) else None
    }

    /** The earliest cycle at which one of the queue's requests that are first in their banks can have its
        column access; None if there is no such request. */
    ghost predicate Earliest(queue: seq<Request>, writes: bool, next: Option<nat>)
      reads `banks, `rankActWindows, `minRespCycle, `lastCmdWasWrite
      requires Fits(t, Counters())
    {
      && (next.Some? ==>
            exists j :: 0 <= j < |queue| && IsFront(queue[j], banks, writes) && MinCmd(queue[j]) == next.value)
      && (forall j :: 0 <= j < |queue| && IsFront(queue[j], banks, writes) ==>
                        next.Some? && MinCmd(queue[j]) >= next.value)
    }

    lemma EarliestStep(queue: seq<Request>, writes: bool, next: Option<nat>, i: nat)
      requires Fits(t, Counters()) && i < |queue| && Earliest(queue[..i], writes, next)
      ensures
        var r := queue[i];
        Earliest(queue[..i + 1], writes, if IsFront(r, banks, writes) then Earlier(next, MinCmd(r)) else next)
    {
      hide MinCmdCycle;
      var r, front, more := queue[i], queue[..i], queue[..i + 1];
      var next' := if IsFront(r, banks, writes) then Earlier(next, MinCmd(r)) else next;
      assert forall j :: 0 <= j < i ==> more[j] == front[j];
      assert more[i] == r;
      if next'.Some? {
        if next' == next {
          var j :| 0 <= j < i && IsFront(front[j], banks, writes) && MinCmd(front[j]) == next.value;
          assert IsFront(more[j], banks, writes);
        } else {
          assert IsFront(more[i], banks, writes);
        }
      }
    }

    lemma FirstReadyIs(queue: seq<Request>, writes: bool, cur: nat, found: Option<nat>)
      requires Fits(t, Counters())
      requires found.Some? ==> found.value < |queue| && IsReady(queue[found.value], writes, cur)
      requires forall j :: 0 <= j < (if found.Some? then found.value else |queue|) ==> !IsReady(queue[j], writes, cur)
      ensures found == FirstReady(queue, writes, cur)
    {
      hide IsReady;
    }

    /** The search of trySchedule: the first ready request in arrival order, or else the cycle at which one will
        be. */
    method FindReady(queue: seq<Request>, writes: bool, cur: nat)
      returns (found: Option<nat>, minSchedCycle: Option<nat>)
      requires Fits(t, Counters())
      ensures found == FirstReady(queue, writes, cur)
      ensures found == None ==> Earliest(queue, writes, minSchedCycle)
      ensures found == None && minSchedCycle.Some? ==> minSchedCycle.value > cur
    {
      hide FirstReady, Earliest, MinCmdCycle;
      found, minSchedCycle := None, None;
      NoneEarliest(writes);
      assert queue[..0] == [];
      for i := 0 to |queue|
        invariant forall j :: 0 <= j < i ==> !IsReady(queue[j], writes, cur)
        invariant Earliest(queue[..i], writes, minSchedCycle)
        invariant minSchedCycle.Some? ==> minSchedCycle.value > cur
      {
        var r := queue[i];
        EarliestStep(queue, writes, minSchedCycle, i);
        if IsFront(r, banks, writes) {
          var minCmdCycle := MinCmdCycle(t, banks[r.bank], r, rankActWindows[t.rankOf[r.bank]][0]);
          if minSchedCycle == None || minCmdCycle < minSchedCycle.value {
            minSchedCycle := Some(minCmdCycle);
          }
          if minCmdCycle <= cur {
            FirstReadyIs(queue, writes, cur, Some(i));
            return Some(i), minSchedCycle;
          }
        }
      }
      FirstReadyIs(queue, writes, cur, None);
      assert queue[..|queue|] == queue;
    }

    lemma NoneEarliest(writes: bool)
      requires Fits(t, Counters())
      ensures Earliest([], writes, None)
    {
    }

    method RecordAct(r: Request, rank: nat, minAct: nat)
      requires Fits(t, Counters()) && r.bank < |banks| && rank == t.rankOf[r.bank]
      requires minAct == MinAct(t, Counters(), r.bank)
      modifies `rankActWindows
      ensures rankActWindows == WindowsAfter(t, old(Counters()), r)
    {
      var bank := banks[r.bank];
      if !RowHit(bank, r) {
        var actCycle := ActCycle(t, bank, r, minAct);
        assert rankActWindows[rank][0] <= actCycle;
        rankActWindows := rankActWindows[rank := Added(rankActWindows[rank], actCycle)];
      }
    }

    /** The second half of trySchedule: issues the commands for r and takes it off its bank's queue. */
    method Issue(r: Request, writes: bool, cur: nat) returns (cmdCycle: nat)
      requires Fits(t, Counters()) && Ready(t, Counters(), trace) && IsFront(r, banks, writes)
      modifies `banks, `rankActWindows, `minRespCycle, `lastCmdWasWrite, `trace
      ensures Fits(t, Counters()) && Ready(t, Counters(), trace) && Later(t, old(Counters()), Counters())
      ensures trace == old(trace) + Commands(t, old(Counters()), r, cur)
      ensures cmdCycle == CmdCycle(t, old(Counters()), old(banks[r.bank]), r, MinAct(t, old(Counters()), r.bank), cur)
      ensures minRespCycle == cmdCycle + t.tCL + t.tBL && lastCmdWasWrite == r.write
      ensures SameSides(banks, WithoutFront(old(banks), r.bank, writes))
      ensures rankActWindows == WindowsAfter(t, old(Counters()), r)
      ensures RowLeft(t, old(banks), banks, r, writes)
    {
      hide Ready, RowLeft, Later, ActCycle, CmdCycle, WindowsAfter, Commands, Accessed, Opened, RowHit;
      ghost var s := Counters();
      var bank, rank, q := banks[r.bank], t.rankOf[r.bank], Side(banks[r.bank], writes);
      var minAct := rankActWindows[rank][0];
      var moreHits := |q| > 1 && q[1].rowHitSeq != 0;
      ReadyBounds(t, s, trace, r.bank);
      IssueDone(t, s, trace, r, writes, cur, moreHits, q[1..]);
      trace := trace + Commands(t, s, r, cur);
      bank, cmdCycle := Schedule(r, bank, minAct, cur, moreHits);
      RecordAct(r, rank, minAct);
      minRespCycle := cmdCycle + t.tCL + t.tBL;
      lastCmdWasWrite := r.write;
      AccessedSides(t, banks[r.bank], r, minAct, cmdCycle, moreHits, writes, q[1..]);
      AccessedRow(t, banks, r, minAct, cmdCycle, writes);
      banks := banks[r.bank := WithSide(bank, writes, q[1..])];
    }

    /** Finds the cycle of the column access and what the bank is like after it. */
    method Schedule(r: Request, bank0: Bank, minAct: nat, cur: nat, moreHits: bool) returns (bank: Bank, cmdCycle: nat)
      requires t.Valid() && minRespCycle >= t.tCL && bank0.lastCmdCycle + t.tCL + t.tBL <= minRespCycle
      ensures cmdCycle == CmdCycle(t, Counters(), bank0, r, minAct, cur) && cmdCycle > bank0.lastCmdCycle
      ensures bank == Accessed(t, Opened(t, bank0, r, minAct), r, cmdCycle, moreHits)
    {
      bank := bank0;
      var minCmdCycle := Max(cur, minRespCycle - t.tCL);
      if lastCmdWasWrite && !r.write {
        minCmdCycle := Max(minCmdCycle, minRespCycle + t.tWTR);
      }
      if !RowHit(bank, r) {
        var actCycle := ActCycle(t, bank, r, minAct);
        bank := bank.(open := true, openRow := r.row, lastActCycle := actCycle,
        minPreCycle := if bank.open then PreCycle(bank, r) + t.tRAS else bank.minPreCycle);
        minCmdCycle := Max(minCmdCycle, actCycle + t.tRCD);
      }
      cmdCycle := Max(minCmdCycle, minRespCycle - t.tCL);
      assert bank.lastCmdCycle < cmdCycle;
      bank := Accessed(t, bank, r, cmdCycle, moreHits);
    }

    /** Whether trySchedule looks at the writes. */
    predicate PicksWrites()
      reads `rdQueue, `wrQueue, `lastCmdWasWrite
    {
      || rdQueue == [] || |wrQueue| > 3 * t.queueDepth / 4
      || (lastCmdWasWrite && |wrQueue| > t.queueDepth / 4)
    }

    /** The queue it looks at. */
    function Picked(): seq<Request>
      reads `rdQueue, `wrQueue, `lastCmdWasWrite
    {
      if PicksWrites() then wrQueue else rdQueue
    }

    /** The bus is taken for too long to schedule anything yet. */
    predicate TooFarAhead(cur: nat)
      reads `minRespCycle
    {
      cur + t.tCL < minRespCycle
    }

    /** What trySchedule serves: the first ready request of the queue that it picks, if any, by its position there;
        nothing if it is too early. */
    ghost function Choice(cur: nat): (r: Option<nat>)
      reads `banks, `rankActWindows, `minRespCycle, `lastCmdWasWrite, `rdQueue, `wrQueue
      requires Fits(t, Counters())
      ensures r.Some? ==> r.value < |Picked()| && IsReady(Picked()[r.value], PicksWrites(), cur)
    {
      if TooFarAhead(cur) then None else FirstReady(Picked(), PicksWrites(), cur)
    }

    /** The commands for it. */
    ghost function ChosenCommands(cur: nat): seq<Event>
      reads `banks, `rankActWindows, `minRespCycle, `lastCmdWasWrite, `rdQueue, `wrQueue
      requires Fits(t, Counters()) && minRespCycle >= t.tCL
    {
      var r := Choice(cur);
      if r.Some? then Commands(t, Counters(), Picked()[r.value], cur) else []
    }

    /** trySchedule: issues the first ready request of the queue it picks, unless there is none or it is too early,
        and says when to try again; None means never. */
    method TrySchedule(cur: nat) returns (next: Option<nat>, ghost served: Option<nat>)
      requires Valid()
      modifies `banks, `rankActWindows, `minRespCycle, `lastCmdWasWrite, `rdQueue, `wrQueue, `trace
      ensures Valid() && Later(t, old(Counters()), Counters())
      ensures next == None <==> rdQueue == [] && wrQueue == []
      ensures next.Some? ==> next.value >= cur
      ensures served == old(Choice(cur)) && trace == old(trace) + old(ChosenCommands(cur))
      ensures served == None ==> rdQueue == old(rdQueue) && wrQueue == old(wrQueue)
      ensures served == None && next.Some? ==>
                if old(TooFarAhead(cur)) then next.value == minRespCycle - t.tCL
                else next.value > cur && old(Earliest(Picked(), PicksWrites(), Some(next.value)))
      ensures served.Some? ==>
                && |rdQueue| + |wrQueue| == |old(rdQueue)| + |old(wrQueue)| - 1
                && rdQueue == (if old(PicksWrites()) then old(rdQueue) else Without(old(rdQueue), served.value))
                && wrQueue == (if old(PicksWrites()) then Without(old(wrQueue), served.value) else old(wrQueue))
                && (next.Some? ==> next.value == minRespCycle - t.tCL)
                && RowLeft(t, old(banks), banks, old(Picked())[served.value], old(PicksWrites()))
      ensures served == None ==> banks == old(banks)
      ensures served.Some? ==>
                if old(|wrQueue| > 3 * t.queueDepth / 4 || (lastCmdWasWrite && |wrQueue| > t.queueDepth / 4)) then
                  rdQueue == old(rdQueue) && |wrQueue| == |old(wrQueue)| - 1
                else old(rdQueue) != [] ==> wrQueue == old(wrQueue) && |rdQueue| == |old(rdQueue)| - 1
    {
      hide RowLeft, Valid, Later, Commands, IsReady, Earliest, FirstReady, Choice, ChosenCommands;
      served := None;
      ChoiceMeaning(cur);
      LaterItself(t, Counters());
      if rdQueue == [] && wrQueue == [] {
        return None, served;
      }
      if cur + t.tCL < minRespCycle {
        return Some(minRespCycle - t.tCL), served;
      }
      var prioWrites := |wrQueue| > 3 * t.queueDepth / 4 || (lastCmdWasWrite && |wrQueue| > t.queueDepth / 4);
      var isWriteQueue := rdQueue == [] || prioWrites;
      var queue := if isWriteQueue then wrQueue else rdQueue;
      var found, minSchedCycle := FindReady(queue, isWriteQueue, cur);
      if found == None {
        PickedEarliest(isWriteQueue, minSchedCycle);
        return minSchedCycle, served;
      }
      served := found;
      ReadyIsFront(queue[found.value], isWriteQueue, cur);
      Serve(queue, found.value, isWriteQueue, cur);
      next := if rdQueue == [] && wrQueue == [] then None else Some(minRespCycle - t.tCL);
    }

    lemma ChoiceMeaning(cur: nat)
      requires Valid()
      ensures Fits(t, Counters()) && minRespCycle >= t.tCL
      ensures Choice(cur) == if TooFarAhead(cur) then None else FirstReady(Picked(), PicksWrites(), cur)
      ensures Choice(cur) == None ==> trace + ChosenCommands(cur) == trace
      ensures Choice(cur).Some? ==> ChosenCommands(cur) == Commands(t, Counters(), Picked()[Choice(cur).value], cur)
    {
      hide Commands, IsReady, FirstReady, Legal;
    }

    lemma PickedEarliest(writes: bool, next: Option<nat>)
      requires Valid() && (if writes then wrQueue else rdQueue) != []
      requires Earliest(if writes then wrQueue else rdQueue, writes, next)
      ensures next.Some?
    {
      hide Ready, SidesOk, IsFront;
      SomeFront(if writes then wrQueue else rdQueue, banks, writes, nextId);
    }

    lemma ReadyIsFront(r: Request, writes: bool, cur: nat)
      requires Fits(t, Counters()) && IsReady(r, writes, cur)
      ensures IsFront(r, banks, writes)
    {
    }

    /** Issues the request at position i of the queue and takes it off. */
    method Serve(queue: seq<Request>, i: nat, isWriteQueue: bool, cur: nat)
      requires Valid() && queue == (if isWriteQueue then wrQueue else rdQueue)
      requires i < |queue| && IsFront(queue[i], banks, isWriteQueue)
      modifies `banks, `rankActWindows, `minRespCycle, `lastCmdWasWrite, `rdQueue, `wrQueue, `trace
      ensures Valid() && Later(t, old(Counters()), Counters()) && minRespCycle >= cur + t.tCL
      ensures rdQueue == (if isWriteQueue then old(rdQueue) else Without(queue, i))
      ensures wrQueue == (if isWriteQueue then Without(queue, i) else old(wrQueue))
      ensures trace == old(trace) + Commands(t, old(Counters()), queue[i], cur)
      ensures RowLeft(t, old(banks), banks, queue[i], isWriteQueue)
    {
      hide Ready, RowLeft, Later, Matches, SidesOk, Commands, CmdCycle, Added, ActCycle;
      ServiceKeeps(queue, if isWriteQueue then rdQueue else wrQueue, banks, isWriteQueue, nextId, i, t.rowHitLimit);
      ReadyBounds(t, Counters(), trace, queue[i].bank);
      ghost var banks0 := banks;
      var cmdCycle := Issue(queue[i], isWriteQueue, cur);
      var rest := Without(queue, i);
      ghost var popped := WithoutFront(banks0, queue[i].bank, isWriteQueue);
      SameSidesKeep(rest, popped, banks, isWriteQueue, nextId, t.rowHitLimit);
      SameSidesKeep(if isWriteQueue then rdQueue else wrQueue, popped, banks, !isWriteQueue, nextId, t.rowHitLimit);
      if isWriteQueue {
        wrQueue := rest;
      } else {
        rdQueue := rest;
      }
    }

    /** The first cycle at which the data bus may be free for a request queued now. */
    function BusCycle(memCycle: nat): nat
      requires minRespCycle >= t.tCL + t.tBL
      reads `minRespCycle
    {
      Max(memCycle, minRespCycle - t.tCL - t.tBL)
    }

    /** The request that was queued last on one side: queued for this bank and row at memory cycle memCycle, at
        the end of a queue that held `before`. */
    ghost predicate Arrived(before: seq<Request>, writes: bool, bank: nat, row: nat, write: bool, memCycle: nat)
      reads `rdQueue, `wrQueue
    {
      var queue := if writes then wrQueue else rdQueue;
      && |queue| == |before| + 1 && queue[..|before|] == before
      && var req := queue[|before|];
      req.bank == bank && req.row == row && req.write == write && req.arrivalCycle == memCycle
    }

    /** queue, as enqueue and tick call it while there is room. */
    method Admit(bank: nat, row: nat, write: bool, memCycle: nat) returns (req: Request, first: bool)
      requires Valid() && bank < |banks| && !Full()
      modifies `banks, `rdQueue, `wrQueue, `nextId
      ensures Valid() && Later(t, old(Counters()), Counters())
      ensures |rdQueue| <= t.queueDepth && |wrQueue| <= t.queueDepth && SameRows(old(banks), banks)
      ensures
        var writes := t.deferredWrites && write;
        var before := if writes then old(wrQueue) else old(rdQueue);
        && Arrived(before, writes, bank, row, write, memCycle)
        && req == (if writes then wrQueue else rdQueue)[|before|]
        && (if writes then rdQueue == old(rdQueue) else wrQueue == old(wrQueue))
        && (first <==> IsFront(req, banks, writes)) && (before == [] ==> first)
    {
      hide Ready, Matches, SidesOk, Queued, Number, Later;
      Queue(bank, row, write, memCycle);
      var writes := t.deferredWrites && write;
      req := if writes then wrQueue[|wrQueue| - 1] else rdQueue[|rdQueue| - 1];
      first := IsFront(req, banks, writes);
      SomeFront(if writes then wrQueue else rdQueue, banks, writes, nextId);
    }

    /** enqueue: queues a request, or keeps it aside if a queue is full. If it is the first of its bank, the
        controller wakes no later than the request may be scheduled. */
    method Enqueue(bank: nat, row: nat, write: bool, sysCycle: nat)
      requires Valid() && Awake() && bank < |banks|
      modifies `banks, `rdQueue, `wrQueue, `nextId, `overflowQueue, `nextSchedCycle, `wakeAt
      ensures Valid() && Awake() && Busy()
      ensures old(Full()) ==>
                && overflowQueue == old(overflowQueue) + [Overflow(bank, row, write)]
                && rdQueue == old(rdQueue) && wrQueue == old(wrQueue) && nextSchedCycle == old(nextSchedCycle)
      ensures !old(Full()) ==>
                var writes, memCycle := t.deferredWrites && write, SysToMem(sysCycle, sysFreqKHz, memFreqKHz);
                var before := if writes then old(wrQueue) else old(rdQueue);
                && overflowQueue == old(overflowQueue) && Arrived(before, writes, bank, row, write, memCycle)
                && (if writes then rdQueue == old(rdQueue) else wrQueue == old(wrQueue))
                && var req := (if writes then wrQueue else rdQueue)[|before|];
                minRespCycle >= t.tCL + t.tBL && Fits(t, Counters()) &&
                nextSchedCycle == if IsFront(req, banks, writes)
                then Earlier(old(nextSchedCycle), Max(BusCycle(memCycle), MinCmd(req)))
                else old(nextSchedCycle)
    {
      hide Ready, Matches, SidesOk, SysToMem, EnqueueCycle;
      var memCycle := SysToMem(sysCycle, sysFreqKHz, memFreqKHz);
      ReadyBounds(t, Counters(), trace, bank);
      if Full() {
        overflowQueue := overflowQueue + [Overflow(bank, row, write)];
        return;
      }
      var req, first := Admit(bank, row, write, memCycle);
      if first {
        var minSchedCycle := BusCycle(memCycle);
        if Sooner(minSchedCycle, nextSchedCycle) {
          minSchedCycle := Max(minSchedCycle, MinCmdCycle(t, banks[bank], req, rankActWindows[t.rankOf[bank]][0]));
        }
        if Sooner(minSchedCycle, nextSchedCycle) {
          WakeAt(minSchedCycle, sysCycle);
        }
      }
    }

    /** Enqueues the event that calls tick, in place of any before. */
    method WakeAt(minSchedCycle: nat, sysCycle: nat)
      requires Accepted(sysFreqKHz, memFreqKHz) && minSchedCycle >= SysToMem(sysCycle, sysFreqKHz, memFreqKHz)
      modifies `nextSchedCycle, `wakeAt
      ensures nextSchedCycle == Some(minSchedCycle) && wakeAt.Some? && wakeAt.value >= sysCycle
      ensures SysToMem(wakeAt.value, sysFreqKHz, memFreqKHz) == minSchedCycle
    {
      TickLandsOnSchedule(minSchedCycle, sysCycle, sysFreqKHz, memFreqKHz);
      nextSchedCycle := Some(minSchedCycle);
      wakeAt := Some(EnqueueCycle(minSchedCycle, sysCycle, sysFreqKHz, memFreqKHz));
    }

    /** All requests that wait for the controller. */
    function Pending(): nat
      reads `rdQueue, `wrQueue, `overflowQueue
    {
      |rdQueue| + |wrQueue| + |overflowQueue|
    }

    /** Lets the oldest request in that was kept aside. Whether it is ready makes no difference to the next
        wake-up: that is lowered to the cycle at which the bus is free in either case. */
    method LetIn(memCycle: nat, next0: Option<nat>) returns (next: Option<nat>)
      requires Valid() && !Full() && overflowQueue != []
      requires forall i :: 0 <= i < |overflowQueue| ==> overflowQueue[i].bank < |banks|
      requires next0 == None ==> rdQueue == [] && wrQueue == []
      requires next0.Some? ==> next0.value >= memCycle
      modifies `banks, `rdQueue, `wrQueue, `nextId, `overflowQueue
      ensures Valid() && Later(t, old(Counters()), Counters())
      ensures RoomOk() && Pending() == old(Pending()) && overflowQueue == old(overflowQueue)[1..]
      ensures next.Some? && next.value >= memCycle && minRespCycle >= t.tCL + t.tBL
      ensures next == next0 || next == Earlier(next0, BusCycle(memCycle))
      ensures SameRows(old(banks), banks)
    {
      hide Ready, Matches, SidesOk, Later;
      var ovfReq := overflowQueue[0];
      overflowQueue := overflowQueue[1..];
      ReadyBounds(t, Counters(), trace, ovfReq.bank);
      next := next0;
      var req, first := Admit(ovfReq.bank, ovfReq.row, ovfReq.write, memCycle);
      if first {
        var minQueuedSchedCycle := BusCycle(memCycle);
        if Sooner(minQueuedSchedCycle, next) {
          next := Some(Max(minQueuedSchedCycle,
                           MinCmdCycle(t, banks[req.bank], req, rankActWindows[t.rankOf[req.bank]][0])));
        }
        if Sooner(minQueuedSchedCycle, next) {
          next := Some(minQueuedSchedCycle);
        }
      }
    }

    /** The work of tick: schedules at most one request, and lets one in that was kept aside if there is room. */
    method ServeAndRefill(cur: nat) returns (next: Option<nat>, ghost served: Option<nat>)
      requires Valid() && RoomOk() && t.queueDepth > 0
      modifies `banks, `rankActWindows, `minRespCycle, `lastCmdWasWrite, `rdQueue, `wrQueue, `nextId, `overflowQueue,
               `trace
      ensures Valid() && RoomOk() && Later(t, old(Counters()), Counters())
      ensures served == old(Choice(cur)) && trace == old(trace) + old(ChosenCommands(cur))
      ensures next == None ==> !Busy()
      ensures next.Some? ==> next.value >= cur
      ensures Pending() == old(Pending()) - if served.Some? then 1 else 0
      ensures if served.Some? then RowLeft(t, old(banks), banks, old(Picked())[served.value], old(PicksWrites()))
              else SameRows(old(banks), banks)
      ensures overflowQueue == old(overflowQueue)
              || (old(overflowQueue) != [] && overflowQueue == old(overflowQueue)[1..])
      ensures overflowQueue == old(overflowQueue) != [] ==> Full()
    {
      hide RowLeft, Valid, Later, Choice, ChosenCommands, Earliest;
      ghost var s := Counters();
      next, served := TrySchedule(cur);
      assert next.Some? ==> next.value >= cur;
      ghost var mid := Counters();
      LaterShape(t, s, mid);
      if !Full() && overflowQueue != [] {
        ghost var banks1 := banks;
        next := LetIn(cur, next);
        if served.Some? {
          RowLeftStays(t, old(banks), banks1, banks, old(Picked())[served.value], old(PicksWrites()));
        }
        LaterTransitive(t, s, mid, Counters());
      }
    }

    /** tick: runs in the memory cycle that it was scheduled for, and does not ask to be woken in the past. */
    method Tick(sysCycle: nat) returns (ghost served: Option<nat>)
      requires Valid() && Awake() && wakeAt == Some(sysCycle)
      modifies this
      ensures Valid() && Awake() && Later(t, old(Counters()), Counters())
      ensures old(nextSchedCycle) == Some(SysToMem(sysCycle, sysFreqKHz, memFreqKHz))
      ensures nextSchedCycle.Some? ==> nextSchedCycle.value >= SysToMem(sysCycle, sysFreqKHz, memFreqKHz)
      ensures
        var cur := SysToMem(sysCycle, sysFreqKHz, memFreqKHz);
        served == old(Choice(cur)) && trace == old(trace) + old(ChosenCommands(cur))
      ensures Pending() == old(Pending()) - if served.Some? then 1 else 0
      ensures if served.Some? then RowLeft(t, old(banks), banks, old(Picked())[served.value], old(PicksWrites()))
              else SameRows(old(banks), banks)
      ensures overflowQueue == old(overflowQueue)
              || (old(overflowQueue) != [] && overflowQueue == old(overflowQueue)[1..])
      ensures overflowQueue == old(overflowQueue) != [] ==> Full()
    {
      hide RowLeft, SameRows, Valid, Later, SysToMem, Choice, ChosenCommands, Full, RoomOk, Pending;
      var memCycle := SysToMem(sysCycle, sysFreqKHz, memFreqKHz);
      assert nextSchedCycle == Some(memCycle);
      var minSchedCycle;
      minSchedCycle, served := ServeAndRefill(memCycle);
      assert minSchedCycle.Some? ==> minSchedCycle.value >= memCycle;
      if minSchedCycle == None {
        nextSchedCycle, wakeAt := None, None;
      } else {
        WakeAt(minSchedCycle.value, sysCycle);
      }
    }

    /** refresh: waits until every bank may be precharged, then closes all rows. */
    method Refresh(memCycle: nat) returns (ghost start: nat)
      requires Valid()
      modifies `banks, `trace
      ensures Valid() && Later(t, old(Counters()), Counters())
      ensures start >= memCycle && AllIdle(old(Counters()), start) && trace == old(trace) + [Ref(start + t.tRFC)]
      ensures start == memCycle || exists bank :: bank in old(banks) && BusyUntil(bank, start)
      ensures IsRefreshed(t, old(Counters()), Counters(), start + t.tRFC) && (old(Awake()) ==> Awake())
    {
      hide Ready, Later, Matches, SidesOk;
      ghost var s := Counters();
      ReadyBounds(t, s, trace, 0);
      var minRefreshCycle := memCycle;
      for i := 0 to |banks|
        invariant minRefreshCycle >= memCycle
        invariant minRefreshCycle == memCycle || exists bank :: bank in s.banks && BusyUntil(bank, minRefreshCycle)
        invariant forall b :: 0 <= b < i ==>
                                banks[b].minPreCycle <= minRefreshCycle && banks[b].lastCmdCycle <= minRefreshCycle
      {
        minRefreshCycle := Max(minRefreshCycle, Max(banks[i].minPreCycle, banks[i].lastCmdCycle));
        assert banks[i] in s.banks;
      }
      start := minRefreshCycle;
      assert AllIdle(s, start);
      var refreshDoneCycle := minRefreshCycle + t.tRFC;
      for i := 0 to |banks|
        invariant trace == old(trace) && |banks| == |s.banks|
        invariant forall b :: 0 <= b < i ==> banks[b] == Refreshed(t, s.banks[b], refreshDoneCycle)
        invariant forall b :: i <= b < |banks| ==> banks[b] == s.banks[b]
      {
        banks := banks[i := Refreshed(t, banks[i], refreshDoneCycle)];
      }
      RefreshedReady(t, s, Counters(), trace, start);
      trace := trace + [Ref(refreshDoneCycle)];
      SameSidesKeep(rdQueue, s.banks, banks, false, nextId, t.rowHitLimit);
      SameSidesKeep(wrQueue, s.banks, banks, true, nextId, t.rowHitLimit);
    }
  }

  lemma ReadyBounds(t: Timing, s: State, trace: seq<Event>, b: nat)
    requires Ready(t, s, trace) && b < |s.banks|
    ensures t.Valid() && s.minRespCycle >= t.tCL + t.tBL + 1
    ensures s.banks[b].lastCmdCycle + t.tCL + t.tBL <= s.minRespCycle
  {
    assert BankOk(t, s, trace, b);
  }

  /** Issuing r and taking it off its bank's queue. */
  lemma IssueDone(t: Timing, s: State, trace: seq<Event>, r: Request, writes: bool, cur: nat, moreHits: bool,
                  q: seq<Request>)
    requires Fits(t, s) && Ready(t, s, trace) && r.bank < |s.banks| && s.minRespCycle >= t.tCL
    ensures
      var s1 := Issued(t, s, r, cur, moreHits);
      var s2 := s1.(banks := s1.banks[r.bank := WithSide(s1.banks[r.bank], writes, q)]);
      var minAct := MinAct(t, s, r.bank);
      var bank := Accessed(t, Opened(t, s.banks[r.bank], r, minAct), r,
                           CmdCycle(t, s, s.banks[r.bank], r, minAct, cur), moreHits);
      && Fits(t, s2) && Ready(t, s2, trace + Commands(t, s, r, cur)) && Later(t, s, s2)
      && s2.banks == s.banks[r.bank := WithSide(bank, writes, q)] && s2.windows == WindowsAfter(t, s, r)
  {
    hide Ready, Commands, Accessed, Opened, CmdCycle, WindowsAfter;
    IssuedReady(t, s, trace, r, cur, moreHits);
    var s1 := Issued(t, s, r, cur, moreHits);
    SameTiming(t, s1, trace + Commands(t, s, r, cur), r.bank, writes, q);
    var s2 := s1.(banks := s1.banks[r.bank := WithSide(s1.banks[r.bank], writes, q)]);
    forall k | 0 <= k < |s.banks|
      ensures BankLater(t, s, s2, k)
    {
      assert BankLater(t, s, s1, k);
    }
  }

  lemma AccessedSides(t: Timing, bank: Bank, r: Request, minAct: nat, cmd: nat, moreHits: bool, writes: bool,
                      q: seq<Request>)
    ensures
      var bank' := WithSide(Accessed(t, Opened(t, bank, r, minAct), r, cmd, moreHits), writes, q);
      bank'.rdReqs == WithSide(bank, writes, q).rdReqs && bank'.wrReqs == WithSide(bank, writes, q).wrReqs
  {
  }

  ghost predicate SameSides(banks: seq<Bank>, banks': seq<Bank>) {
    && |banks| == |banks'|
    && forall b :: 0 <= b < |banks| ==>
                     banks[b].rdReqs == banks'[b].rdReqs && banks[b].wrReqs == banks'[b].wrReqs
  }

  lemma SameSidesKeep(queue: seq<Request>, banks: seq<Bank>, banks': seq<Bank>, writes: bool, nextId: nat, limit: nat)
    requires SameSides(banks', banks)
    ensures Matches(queue, banks, writes, nextId) ==> Matches(queue, banks', writes, nextId)
    ensures SidesOk(banks, limit) ==> SidesOk(banks', limit)
  {
    hide Ascending, QueueOk;
    if Matches(queue, banks, writes, nextId) {
      forall x: Request
        ensures x in queue <==> Queues(x, banks', writes)
      {
        assert x in queue <==> Queues(x, banks, writes);
      }
    }
  }

  lemma LaterItself(t: Timing, s: State)
    ensures Later(t, s, s)
  {
  }

  /** A service on one side keeps the queues of both in order. */
  lemma ServiceKeeps(queue: seq<Request>, other: seq<Request>, banks: seq<Bank>, writes: bool, nextId: nat, i: nat,
                     limit: nat)
    requires Matches(queue, banks, writes, nextId) && Matches(other, banks, !writes, nextId) && SidesOk(banks, limit)
    requires i < |queue| && IsFront(queue[i], banks, writes)
    ensures
      var banks' := WithoutFront(banks, queue[i].bank, writes);
      && Matches(Without(queue, i), banks', writes, nextId) && Matches(other, banks', !writes, nextId)
      && SidesOk(banks', limit)
  {
    var b := queue[i].bank;
    var q := Side(banks[b], writes);
    assert QueueOk(q, limit);
    ServiceMatches(queue, banks, writes, nextId, i);
    OtherSide(other, banks, writes, b, q[1..], nextId, nextId);
    ServedOk(q, limit);
  }

  ghost function WithoutFront(banks: seq<Bank>, b: nat, writes: bool): seq<Bank>
    requires b < |banks| && Side(banks[b], writes) != []
  {
    banks[b := WithSide(banks[b], writes, Side(banks[b], writes)[1..])]
  }

  function Ranks(ranks: nat, banksPerRank: nat): seq<nat>
    requires banksPerRank > 0
  {
    seq(ranks * banksPerRank, b requires 0 <= b => Quotient(b, banksPerRank))
  }

  lemma RanksInRange(ranks: nat, banksPerRank: nat)
    requires ranks > 0 && banksPerRank > 0
    ensures ranks * banksPerRank > 0 && |Ranks(ranks, banksPerRank)| == ranks * banksPerRank
    ensures forall b :: 0 <= b < ranks * banksPerRank ==> Ranks(ranks, banksPerRank)[b] < ranks
  {
    assert ranks * banksPerRank == (ranks - 1) * banksPerRank + banksPerRank;
    forall b | 0 <= b < ranks * banksPerRank
      ensures Quotient(b, banksPerRank) < ranks
    {
      BlockBelow(b, banksPerRank, ranks);
    }
  }

  /** An arrival on one side keeps the queues of both in order. */
  lemma ArrivalKeeps(queue: seq<Request>, other: seq<Request>, banks: seq<Bank>, writes: bool, req: Request,
                     limit: nat, openRow: OpenRow)
    requires Matches(queue, banks, writes, req.id) && Matches(other, banks, !writes, req.id)
             && SidesOk(banks, limit) && req.bank < |banks|
    ensures
      var q := Side(banks[req.bank], writes);
      var banks' := banks[req.bank := WithSide(banks[req.bank], writes, Queued(q, req, limit, openRow))];
      && Matches(queue + [req.(rowHitSeq := Number(q, req, limit, openRow))], banks', writes, req.id + 1)
      && Matches(other, banks', !writes, req.id + 1) && SidesOk(banks', limit)
  {
    hide Queued, QueueOk;
    ArrivalMatches(queue, banks, writes, req, limit, openRow);
    ArrivalNewer(queue, banks, writes, req);
    QueuedOk(Side(banks[req.bank], writes), req, limit, openRow);
    OtherSide(other, banks, writes, req.bank, Queued(Side(banks[req.bank], writes), req, limit, openRow), req.id,
              req.id + 1);
  }

  lemma OtherSide(other: seq<Request>, banks: seq<Bank>, writes: bool, b: nat, q: seq<Request>, nextId: nat,
                  nextId': nat)
    requires Matches(other, banks, !writes, nextId) && b < |banks| && nextId <= nextId'
    ensures Matches(other, banks[b := WithSide(banks[b], writes, q)], !writes, nextId')
  {
    var banks' := banks[b := WithSide(banks[b], writes, q)];
    forall x: Request
      ensures x in other <==> Queues(x, banks', !writes)
    {
      assert x in other <==> Queues(x, banks, !writes);
    }
  }
}
