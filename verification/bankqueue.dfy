/** The per-bank request queues of the DDR controller, ddr_mem.cpp: requests to the same row are grouped, but
    only so many of them in a row go before others (FR-FCFS with a row-hit limit). */
module BankQueues {
  /** id tells the requests of one bank apart in the order in which they were queued. */
  datatype Request = Request(id: nat, bank: nat, row: nat, write: bool, arrivalCycle: nat, rowHitSeq: nat)

  /** The last request to a row, or -1. */
  ghost function LastSameRow(q: seq<Request>, row: nat): (m: int)
    ensures -1 <= m < |q|
    ensures m >= 0 ==> q[m].row == row
    ensures forall i :: m < i < |q| ==> q[i].row != row
  {
    if q == [] then -1
    else if q[|q| - 1].row == row then |q| - 1
    else LastSameRow(q[..|q| - 1], row)
  }

  ghost predicate IsLastSameRow(q: seq<Request>, row: nat, m: nat)
    requires m < |q|
  {
    q[m].row == row && forall i :: m < i < |q| ==> q[i].row != row
  }

  /** The row that a bank has open, if any, and how many hits it has had. */
  datatype OpenRow = Closed | Open(row: nat, hits: nat)

  function Bypasses(q: seq<Request>, req: Request, limit: nat, openRow: OpenRow): bool {
    openRow.Open? && openRow.row == req.row && openRow.hits < limit && q == []
  }

  /** Where a request is queued, and with which number among the row hits. */
  ghost function Slot(q: seq<Request>, req: Request, limit: nat): (p: nat)
    ensures p <= |q|
  {
    var m := LastSameRow(q, req.row);
    if m >= 0 && q[m].rowHitSeq < limit then m + 1 else |q|
  }

  ghost function Number(q: seq<Request>, req: Request, limit: nat, openRow: OpenRow): nat {
    var m := LastSameRow(q, req.row);
    if m >= 0 then (if q[m].rowHitSeq < limit then q[m].rowHitSeq + 1 else 0)
    else if Bypasses(q, req, limit, openRow) then openRow.hits + 1
    else 0
  }

  ghost function Queued(q: seq<Request>, req: Request, limit: nat, openRow: OpenRow): (r: seq<Request>)
    ensures |r| == |q| + 1
  {
    var p := Slot(q, req, limit);
    q[..p] + [req.(rowHitSeq := Number(q, req, limit, openRow))] + q[p..]
  }

  /** A request to a row that is queued goes directly behind the last request to that row while the run may grow, and
      last otherwise. */
  lemma QueuedBehindRow(q: seq<Request>, req: Request, limit: nat, openRow: OpenRow, m: nat)
    requires m < |q| && IsLastSameRow(q, req.row, m)
    ensures Queued(q, req, limit, openRow)
         == if q[m].rowHitSeq < limit then q[..m + 1] + [req.(rowHitSeq := q[m].rowHitSeq + 1)] + q[m + 1..]
            else q + [req.(rowHitSeq := 0)]
  {
    hide LastSameRow;
    assert LastSameRow(q, req.row) == m;
    AtEnd(q, req.(rowHitSeq := 0));
  }

  /** One to a row that is not queued goes last; it is a row hit only if the queue is empty and the row is open and may
      have more hits. */
  lemma QueuedLast(q: seq<Request>, req: Request, limit: nat, openRow: OpenRow)
    requires forall i :: 0 <= i < |q| ==> q[i].row != req.row
    ensures
      var hit := q == [] && openRow.Open? && openRow.row == req.row && openRow.hits < limit;
      Queued(q, req, limit, openRow) == q + [req.(rowHitSeq := if hit then openRow.hits + 1 else 0)]
  {
    hide LastSameRow, Number;
    assert LastSameRow(q, req.row) == -1;
    AtEnd(q, req.(rowHitSeq := Number(q, req, limit, openRow)));
    NumberOfNewRow(q, req, limit, openRow);
  }

  lemma NumberOfNewRow(q: seq<Request>, req: Request, limit: nat, openRow: OpenRow)
    requires LastSameRow(q, req.row) == -1
    ensures
      var hit := q == [] && openRow.Open? && openRow.row == req.row && openRow.hits < limit;
      Number(q, req, limit, openRow) == if hit then openRow.hits + 1 else 0
  {
    hide LastSameRow;
  }

  lemma AtEnd(q: seq<Request>, x: Request)
    ensures q[..|q|] + [x] + q[|q|..] == q + [x]
  {
    assert q[..|q|] == q && q[|q|..] == [];
  }

  // ---------------------------------------------------------------------------------------------
  // What every queue keeps
  // ---------------------------------------------------------------------------------------------

  /** Requests to the same row stay in arrival order. */
  ghost predicate SameRowInOrder(q: seq<Request>) {
    forall i, j :: 0 <= i < j < |q| && q[i].row == q[j].row ==> q[i].id < q[j].id
  }

  ghost predicate WithinLimit(q: seq<Request>, limit: nat) {
    forall i :: 0 <= i < |q| ==> q[i].rowHitSeq <= limit
  }

  /** A row hit directly follows the request to its row with the number before its own. */
  ghost predicate Chained(q: seq<Request>) {
    forall i :: 0 < i < |q| ==> Follows(q, i)
  }

  ghost predicate Follows(q: seq<Request>, i: nat)
    requires 0 < i < |q|
  {
    q[i].rowHitSeq > 0 ==> q[i - 1].row == q[i].row && q[i].rowHitSeq == q[i - 1].rowHitSeq + 1
  }

  /** The first request of a run of row hits arrived before everything behind it. */
  ghost predicate StartsOldest(q: seq<Request>) {
    forall i, j :: 0 <= i < j < |q| && q[i].rowHitSeq == 0 ==> q[i].id < q[j].id
  }

  ghost predicate QueueOk(q: seq<Request>, limit: nat) {
    SameRowInOrder(q) && WithinLimit(q, limit) && Chained(q) && StartsOldest(q)
  }

  ghost predicate Newer(req: Request, q: seq<Request>) {
    forall i :: 0 <= i < |q| ==> q[i].id < req.id
  }

  /** What follows the last request to a row does not continue a run. */
  lemma RunEnds(q: seq<Request>, row: nat)
    requires Chained(q) && 0 <= LastSameRow(q, row) < |q| - 1
    ensures q[LastSameRow(q, row) + 1].rowHitSeq == 0
  {
    assert Follows(q, LastSameRow(q, row) + 1);
  }

  lemma QueuedAt(q: seq<Request>, req: Request, limit: nat, openRow: OpenRow, i: nat)
    requires i <= |q|
    ensures
      var p := Slot(q, req, limit);
      Queued(q, req, limit, openRow)[i] ==
      if i < p then q[i] else if i == p then req.(rowHitSeq := Number(q, req, limit, openRow)) else q[i - 1]
  {
  }

  lemma QueuedInOrder(q: seq<Request>, req: Request, limit: nat, openRow: OpenRow)
    requires SameRowInOrder(q) && Newer(req, q)
    ensures SameRowInOrder(Queued(q, req, limit, openRow))
  {
    hide Queued, Number;
    var r := Queued(q, req, limit, openRow);
    forall i, j | 0 <= i < j < |r| && r[i].row == r[j].row
      ensures r[i].id < r[j].id
    {
      QueuedAt(q, req, limit, openRow, i);
      QueuedAt(q, req, limit, openRow, j);
    }
  }

  lemma QueuedStarts(q: seq<Request>, req: Request, limit: nat, openRow: OpenRow)
    requires StartsOldest(q) && Newer(req, q)
    ensures StartsOldest(Queued(q, req, limit, openRow))
  {
    hide Queued, LastSameRow;
    var r := Queued(q, req, limit, openRow);
    forall i, j | 0 <= i < j < |r| && r[i].rowHitSeq == 0
      ensures r[i].id < r[j].id
    {
      QueuedAt(q, req, limit, openRow, i);
      QueuedAt(q, req, limit, openRow, j);
    }
  }

  lemma QueuedChained(q: seq<Request>, req: Request, limit: nat, openRow: OpenRow)
    requires WithinLimit(q, limit) && Chained(q)
    ensures WithinLimit(Queued(q, req, limit, openRow), limit) && Chained(Queued(q, req, limit, openRow))
  {
    hide Queued, LastSameRow;
    var r := Queued(q, req, limit, openRow);
    forall i | 0 <= i < |r|
      ensures r[i].rowHitSeq <= limit
    {
      QueuedAt(q, req, limit, openRow, i);
    }
    forall i | 0 < i < |r|
      ensures Follows(r, i)
    {
      QueuedAt(q, req, limit, openRow, i);
      QueuedAt(q, req, limit, openRow, i - 1);
      var m := LastSameRow(q, req.row);
      if i < Slot(q, req, limit) {
        assert Follows(q, i);
      } else if i == m + 2 && 0 <= m {
        RunEnds(q, req.row);
      } else if i > Slot(q, req, limit) {
        assert Follows(q, i - 1);
      }
    }
  }

  /** Queueing a request keeps the queue in order; so does serving the first one. */
  lemma QueuedOk(q: seq<Request>, req: Request, limit: nat, openRow: OpenRow)
    requires QueueOk(q, limit) && Newer(req, q)
    ensures QueueOk(Queued(q, req, limit, openRow), limit)
  {
    QueuedInOrder(q, req, limit, openRow);
    QueuedStarts(q, req, limit, openRow);
    QueuedChained(q, req, limit, openRow);
  }

  lemma ServedOk(q: seq<Request>, limit: nat)
    requires QueueOk(q, limit) && q != []
    ensures QueueOk(q[1..], limit)
  {
    forall i | 0 < i < |q| - 1
      ensures Follows(q[1..], i)
    {
      assert Follows(q, i + 1);
    }
  }

  // ---------------------------------------------------------------------------------------------
  // Fairness
  // ---------------------------------------------------------------------------------------------

  /** How many more requests can still be queued ahead of the one at position p: for every run that ends ahead
      of it, as many as the run is short of the limit. */
  ghost function Slack(q: seq<Request>, p: nat, limit: nat): nat
    requires p < |q| && WithinLimit(q, limit)
  {
    if p == 0 then 0
    else Slack(q, p - 1, limit) + if q[p].rowHitSeq == 0 then limit - q[p - 1].rowHitSeq else 0
  }

  /** How many runs end ahead of position p. */
  ghost function RunsAhead(q: seq<Request>, p: nat): nat
    requires p < |q|
  {
    if p == 0 then 0 else RunsAhead(q, p - 1) + if q[p].rowHitSeq == 0 then 1 else 0
  }

  lemma {:induction false} SlackBound(q: seq<Request>, p: nat, limit: nat)
    requires p < |q| && WithinLimit(q, limit)
    ensures Slack(q, p, limit) <= limit * RunsAhead(q, p)
  {
    if p > 0 {
      SlackBound(q, p - 1, limit);
      var runs := RunsAhead(q, p - 1);
      assert limit * (runs + 1) == limit * runs + limit;
    }
  }

  lemma {:induction false} SlackSame(q: seq<Request>, r: seq<Request>, p: nat, limit: nat)
    requires p < |q| && p < |r| && WithinLimit(q, limit) && WithinLimit(r, limit)
    requires forall i :: 0 <= i <= p ==> q[i] == r[i]
    ensures Slack(q, p, limit) == Slack(r, p, limit)
  {
    if p > 0 {
      SlackSame(q, r, p - 1, limit);
    }
  }

  /** Being overtaken uses up one unit of slack; other arrivals leave it alone. */
  lemma {:induction false} OvertakingCosts(q: seq<Request>, req: Request, limit: nat, openRow: OpenRow, p: nat)
    requires WithinLimit(q, limit) && Chained(q) && p < |q|
    ensures WithinLimit(Queued(q, req, limit, openRow), limit) && Chained(Queued(q, req, limit, openRow))
    ensures
      var r := Queued(q, req, limit, openRow);
      if Slot(q, req, limit) <= p then
        r[p + 1] == q[p] && Slack(r, p + 1, limit) == Slack(q, p, limit) - 1
      else
        r[p] == q[p] && Slack(r, p, limit) == Slack(q, p, limit)
  {
    QueuedChained(q, req, limit, openRow);
    hide Queued, Follows, LastSameRow;
    var r, s := Queued(q, req, limit, openRow), Slot(q, req, limit);
    forall i | 0 <= i < |r|
      ensures r[i] == if i < s then q[i] else if i == s then req.(rowHitSeq := Number(q, req, limit, openRow))
                      else q[i - 1]
    {
      QueuedAt(q, req, limit, openRow, i);
    }
    if s <= p {
      if s == p {
        RunEnds(q, req.row);
        SlackSame(q, r, p - 1, limit);
      } else {
        OvertakingCosts(q, req, limit, openRow, p - 1);
      }
    } else {
      SlackSame(q, r, p, limit);
    }
  }

  lemma {:induction false} ServingKeepsSlack(q: seq<Request>, p: nat, limit: nat)
    requires WithinLimit(q, limit) && 0 < p < |q|
    ensures WithinLimit(q[1..], limit) && Slack(q[1..], p - 1, limit) <= Slack(q, p, limit)
  {
    if p > 1 {
      ServingKeepsSlack(q, p - 1, limit);
    }
  }

  /** What happens to a bank's queue. */
  datatype Step = Arrival(req: Request, openRow: OpenRow) | Service

  /** How many later arrivals go ahead of the request at position p before it is served. */
  ghost function Overtakers(q: seq<Request>, p: nat, limit: nat, steps: seq<Step>): nat
    requires p < |q|
    decreases |steps|
  {
    if steps == [] then 0
    else
      match steps[0]
      case Service => if p == 0 then 0 else Overtakers(q[1..], p - 1, limit, steps[1..])
      case Arrival(req, openRow) =>
        var r := Queued(q, req, limit, openRow);
        if Slot(q, req, limit) <= p then 1 + Overtakers(r, p + 1, limit, steps[1..])
        else Overtakers(r, p, limit, steps[1..])
  }

  /** Whatever arrives, a request is overtaken at most limit times for every run ahead of it. */
  lemma {:induction false} OvertakenAtMost(q: seq<Request>, p: nat, limit: nat, steps: seq<Step>)
    requires p < |q| && WithinLimit(q, limit) && Chained(q)
    ensures Overtakers(q, p, limit, steps) <= Slack(q, p, limit) <= limit * RunsAhead(q, p)
    decreases |steps|
  {
    SlackBound(q, p, limit);
    if steps != [] {
      match steps[0]
      case Service =>
        if p > 0 {
          ServingKeepsSlack(q, p, limit);
          assert Chained(q[1..]) by { ServedChained(q); }
          OvertakenAtMost(q[1..], p - 1, limit, steps[1..]);
        }
      case Arrival(req, openRow) =>
        OvertakingCosts(q, req, limit, openRow, p);
        var r := Queued(q, req, limit, openRow);
        OvertakenAtMost(r, if Slot(q, req, limit) <= p then p + 1 else p, limit, steps[1..]);
    }
  }

  lemma ServedChained(q: seq<Request>)
    requires Chained(q) && q != []
    ensures Chained(q[1..])
  {
    forall i | 0 < i < |q| - 1
      ensures Follows(q[1..], i)
    {
      assert Follows(q, i + 1);
    }
  }

  // ---------------------------------------------------------------------------------------------
  // Queueing
  // ---------------------------------------------------------------------------------------------

  /** The second half of queue: looks for the last request to the same row from the back. */
  method Enqueue(q: seq<Request>, req: Request, limit: nat, openRow: OpenRow) returns (r: seq<Request>, entry: Request)
    ensures r == Queued(q, req, limit, openRow) && entry == req.(rowHitSeq := Number(q, req, limit, openRow))
  {
    var m := |q|;
    while m > 0 && q[m - 1].row != req.row
      invariant 0 <= m <= |q| && forall i :: m <= i < |q| ==> q[i].row != req.row
    {
      m := m - 1;
    }
    if m > 0 {
      assert LastSameRow(q, req.row) == m - 1;
      if q[m - 1].rowHitSeq < limit {
        entry := req.(rowHitSeq := q[m - 1].rowHitSeq + 1);
        r := q[..m] + [entry] + q[m..];
      } else {
        entry := req.(rowHitSeq := 0);
        r := q + [entry];
      }
    } else if Bypasses(q, req, limit, openRow) {
      entry := req.(rowHitSeq := openRow.hits + 1);
      r := [entry] + q;
    } else {
      entry := req.(rowHitSeq := 0);
      r := q + [entry];
    }
  }
}
