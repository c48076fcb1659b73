/** The join-leave barrier with parallelism control of barrier.h. Every operation runs under the scheduler
    lock, so each one is a single atomic step. */
module Barriers {
  import opened Counting

  datatype State = OFFLINE | WAITING | RUNNING | LEFT

  datatype ThreadInfo = ThreadInfo(state: State, futexWord: nat, lastIdx: nat)

  /** The barrier's variables, with what the specification tracks beside them: each listed thread's position,
      the threads whose lastIdx has been set since they came online (placed), the threads woken in this phase
      since they last joined (woken), and those that were waiting when the phase began and have not left (due). */
  datatype Snap = Snap(
    threads: seq<ThreadInfo>, run: seq<nat>, size: nat, cur: nat, running: nat, left: nat,
    pos: seq<nat>, placed: set<nat>, woken: set<nat>, due: set<nat>)

  ghost function In(threads: seq<ThreadInfo>, st: State): set<nat> {
    set t: nat | t < |threads| && threads[t].state == st
  }

  ghost function Online(threads: seq<ThreadInfo>): set<nat> {
    set t: nat | t < |threads| && threads[t].state != OFFLINE
  }

  /** The first size entries of the run list name each thread that is not OFFLINE exactly once. */
  ghost predicate Listed(threads: seq<ThreadInfo>, run: seq<nat>, size: nat, pos: seq<nat>) {
    && |run| == |pos| == |threads| && size <= |run|
    && (forall i :: 0 <= i < size ==> run[i] < |threads| && threads[run[i]].state != OFFLINE && pos[run[i]] == i)
    && (forall t :: 0 <= t < |threads| && threads[t].state != OFFLINE ==> pos[t] < size && run[pos[t]] == t)
  }

  ghost predicate Counted(s: Snap) {
    && s.size == |Online(s.threads)|
    && s.running == |In(s.threads, RUNNING)|
    && s.left == |In(s.threads, LEFT)|
  }

  predicate Present(st: State) {
    st == WAITING || st == RUNNING
  }

  /** lastIdx is right for every placed thread, and the current phase has been played up to cur. */
  ghost predicate Tracked(s: Snap)
    requires |s.pos| == |s.threads|
  {
    && s.cur <= s.size
    && (forall t :: t in s.placed ==> t < |s.threads| && s.threads[t].state != OFFLINE
                                      && s.threads[t].lastIdx == s.pos[t])
    && (forall t :: t in s.woken ==> t in s.placed && s.pos[t] < s.cur)
    && (forall t :: 0 <= t < |s.threads| && s.threads[t].state == RUNNING ==> t in s.woken)
    && (forall t :: t in s.due ==>
                      t < |s.threads| && Present(s.threads[t].state) && (t in s.woken || s.pos[t] >= s.cur))
    && (forall t :: 0 <= t < |s.threads| && s.threads[t].state == WAITING ==> s.threads[t].futexWord == 1)
  }

  /** What holds at every point of an operation. */
  ghost predicate Consistent(s: Snap, parallel: nat) {
    && Listed(s.threads, s.run, s.size, s.pos)
    && Counted(s)
    && Tracked(s)
    && s.running <= parallel
  }

  /** Between operations a waiting thread always has a running one to wait for. */
  ghost predicate NoStall(s: Snap) {
    In(s.threads, WAITING) != {} ==> s.running > 0
  }

  // ---------------------------------------------------------------------------------------------
  // Counting
  // ---------------------------------------------------------------------------------------------

  /** Two sets that differ at most in t. */
  lemma SizesDiffer(a: set<nat>, b: set<nat>, t: nat)
    requires a - {t} == b - {t}
    ensures |b| == |a| - (if t in a then 1 else 0) + (if t in b then 1 else 0)
  {
    assert a == if t in a then a - {t} + {t} else a - {t};
    assert b == if t in b then b - {t} + {t} else b - {t};
  }

  lemma InChanges(threads: seq<ThreadInfo>, t: nat, x: ThreadInfo, st: State)
    requires t < |threads|
    ensures |In(threads[t := x], st)| ==
            |In(threads, st)| - (if threads[t].state == st then 1 else 0) + (if x.state == st then 1 else 0)
  {
    assert In(threads, st) - {t} == In(threads[t := x], st) - {t};
    SizesDiffer(In(threads, st), In(threads[t := x], st), t);
  }

  lemma OnlineChanges(threads: seq<ThreadInfo>, t: nat, x: ThreadInfo)
    requires t < |threads|
    ensures |Online(threads[t := x])| ==
            |Online(threads)| - (if threads[t].state != OFFLINE then 1 else 0) + (if x.state != OFFLINE then 1 else 0)
  {
    assert Online(threads) - {t} == Online(threads[t := x]) - {t};
    SizesDiffer(Online(threads), Online(threads[t := x]), t);
  }

  /** A change of one thread's record moves it between the counts. */
  lemma CountsChange(threads: seq<ThreadInfo>, t: nat, x: ThreadInfo)
    requires t < |threads|
    ensures |Online(threads[t := x])| ==
            |Online(threads)| - (if threads[t].state != OFFLINE then 1 else 0) + (if x.state != OFFLINE then 1 else 0)
    ensures |In(threads[t := x], RUNNING)| ==
            |In(threads, RUNNING)| - (if threads[t].state == RUNNING then 1 else 0)
            + (if x.state == RUNNING then 1 else 0)
    ensures |In(threads[t := x], LEFT)| ==
            |In(threads, LEFT)| - (if threads[t].state == LEFT then 1 else 0) + (if x.state == LEFT then 1 else 0)
  {
    OnlineChanges(threads, t, x);
    InChanges(threads, t, x, RUNNING);
    InChanges(threads, t, x, LEFT);
  }

  /** The listed threads are the running, the left and the waiting ones. */
  lemma OnlineSplits(threads: seq<ThreadInfo>)
    ensures |Online(threads)| == |In(threads, RUNNING)| + |In(threads, LEFT)| + |In(threads, WAITING)|
  {
    var r, l, w := In(threads, RUNNING), In(threads, LEFT), In(threads, WAITING);
    assert Online(threads) == (r + l) + w;
    assert r !! l && (r + l) !! w;
  }

  /** An OFFLINE thread leaves room in the run list. */
  lemma RoomToJoin(threads: seq<ThreadInfo>, t: nat)
    requires t < |threads| && threads[t].state == OFFLINE
    ensures |Online(threads)| < |threads|
  {
    assert Online(threads) <= Range(|threads|) - {t};
    SubsetSize(Online(threads), Range(|threads|) - {t});
  }

  // ---------------------------------------------------------------------------------------------
  // Waking threads
  // ---------------------------------------------------------------------------------------------

  /** One iteration of checkRunList: wake the next listed thread if it waits, skip it otherwise. */
  ghost function Advance(s: Snap): Snap
    requires s.cur < s.size <= |s.run| && s.run[s.cur] < |s.threads|
  {
    var t := s.run[s.cur];
    if s.threads[t].state == WAITING then
      s.(threads := s.threads[t := ThreadInfo(RUNNING, 0, s.cur)], cur := s.cur + 1, running := s.running + 1,
      placed := s.placed + {t}, woken := s.woken + {t})
    else s.(cur := s.cur + 1)
  }

  /** checkRunList: wake threads in list order while the parallelism limit allows. */
  ghost function Played(s: Snap, parallel: nat): Snap
    requires Consistent(s, parallel)
    decreases s.size - s.cur
  {
    if s.running < parallel && s.cur < s.size then
      AdvanceKeeps(s, parallel);
      Played(Advance(s), parallel)
    else s
  }

  lemma AdvanceKeepsTracked(s: Snap, parallel: nat)
    requires Consistent(s, parallel) && s.cur < s.size
    ensures Tracked(Advance(s)) && Listed(Advance(s).threads, s.run, s.size, s.pos)
  {
    hide Counted;
    var t, r := s.run[s.cur], Advance(s);
    assert t !in s.woken;
    assert forall u :: 0 <= u < |s.threads| && u != t ==> r.threads[u] == s.threads[u];
  }

  /** Waking is always right: the thread was not woken before in this phase, its wake-up word is set, and
      the barrier stays consistent. */
  lemma AdvanceKeeps(s: Snap, parallel: nat)
    requires Consistent(s, parallel) && s.cur < s.size && s.running < parallel
    ensures Consistent(Advance(s), parallel)
    ensures s.threads[s.run[s.cur]].state == WAITING ==>
              s.threads[s.run[s.cur]].futexWord == 1 && s.run[s.cur] !in s.woken
  {
    AdvanceKeepsTracked(s, parallel);
    CountsChange(s.threads, s.run[s.cur], ThreadInfo(RUNNING, 0, s.cur));
  }

  /** What waking may change between s and r: exactly the waiting threads it passed are now running. */
  ghost predicate Woke(s: Snap, r: Snap)
    requires |s.pos| == |s.threads|
  {
    && r == s.(threads := r.threads, cur := r.cur, running := r.running, placed := r.placed, woken := r.woken)
    && s.cur <= r.cur && s.running <= r.running
    && |r.threads| == |s.threads|
    && (forall t :: 0 <= t < |s.threads| ==>
                      if s.threads[t].state == WAITING && s.cur <= s.pos[t] < r.cur then
                        r.threads[t] == ThreadInfo(RUNNING, 0, s.pos[t]) && t in r.woken
                      else
                        && r.threads[t] == s.threads[t]
                        && (t in r.woken <==> t in s.woken) && (t in r.placed <==> t in s.placed))
    && (r.running == s.running ==> r.threads == s.threads)
  }

  lemma AdvanceWakes(s: Snap, parallel: nat)
    requires Consistent(s, parallel) && s.cur < s.size
    ensures Woke(s, Advance(s))
  {
    hide Counted;
    var t := s.run[s.cur];
    assert forall u :: 0 <= u < |s.threads| && s.threads[u].state == WAITING && s.cur <= s.pos[u] < s.cur + 1 ==>
                         u == t;
  }

  lemma WokeTransitive(a: Snap, b: Snap, c: Snap)
    requires |a.pos| == |a.threads| == |b.threads| && Woke(a, b) && Woke(b, c)
    ensures Woke(a, c)
  {
  }

  /** checkRunList keeps the barrier consistent, and stops only at the limit or at the end of the list. */
  lemma {:induction false} PlayedKeeps(s: Snap, parallel: nat)
    requires Consistent(s, parallel)
    ensures
      var r := Played(s, parallel);
      Consistent(r, parallel) && Woke(s, r) && (r.running == parallel || r.cur == r.size)
    decreases s.size - s.cur
  {
    if s.running < parallel && s.cur < s.size {
      AdvanceKeeps(s, parallel);
      AdvanceWakes(s, parallel);
      PlayedKeeps(Advance(s), parallel);
      WokeTransitive(s, Advance(s), Played(s, parallel));
    }
  }

  // ---------------------------------------------------------------------------------------------
  // The end of a phase
  // ---------------------------------------------------------------------------------------------

  /** checkEndPhase's condition: everybody has been given a chance to run, nobody runs, and not all have left. */
  ghost predicate PhaseOver(s: Snap) {
    s.cur == s.size && s.running == 0 && s.left != s.size
  }

  /** A phase ends only when every thread that was waiting at its start has been woken since, or has left. */
  lemma PhaseEndIsFair(s: Snap, parallel: nat)
    requires Consistent(s, parallel) && PhaseOver(s)
    ensures s.due <= s.woken && In(s.threads, RUNNING) == {} && In(s.threads, WAITING) != {}
  {
    OnlineSplits(s.threads);
  }

  /** Playing a fresh phase wakes somebody if anybody waits, so the barrier cannot stall. */
  lemma FreshPhaseDoesNotStall(s: Snap, parallel: nat)
    requires Consistent(s, parallel) && parallel > 0 && s.cur == 0
    ensures NoStall(Played(s, parallel))
  {
    var r := Played(s, parallel);
    PlayedKeeps(s, parallel);
    if r.running == 0 {
      forall t | 0 <= t < |s.threads|
        ensures r.threads[t].state != WAITING
      {
        assert s.pos[t] < r.cur || s.threads[t].state == OFFLINE;
      }
      assert In(r.threads, WAITING) == {};
    }
  }

  /** If the phase is not over after playing it, the barrier does not stall. */
  lemma UnfinishedPhaseDoesNotStall(s: Snap, parallel: nat)
    requires Consistent(s, parallel) && parallel > 0 && (s.running == parallel || s.cur == s.size) && !PhaseOver(s)
    ensures NoStall(s) && Played(s, parallel) == s
  {
    OnlineSplits(s.threads);
  }

  /** What checkEndPhase does: the threads that left may go offline, the list is reordered, and a new phase begins. */
  ghost predicate NextPhase(s: Snap, r: Snap, parallel: nat) {
    && Consistent(r, parallel) && |r.threads| == |s.threads|
    && r.cur == 0 && r.running == 0 && r.woken == {} && r.due == In(s.threads, WAITING)
    && (forall t :: 0 <= t < |s.threads| ==>
                      && r.threads[t].futexWord == s.threads[t].futexWord
                      && (r.threads[t].state == s.threads[t].state
                          || (s.threads[t].state == LEFT && r.threads[t].state == OFFLINE))
                      && (t in s.placed && r.threads[t].state != OFFLINE ==> t in r.placed))
  }

  /** Exchanging list positions i and j, with both threads' lastIdx brought up to date. */
  ghost function Swapped(s: Snap, i: nat, j: nat): Snap
    requires Listed(s.threads, s.run, s.size, s.pos) && i < s.size && j < s.size
  {
    var a, b := s.run[i], s.run[j];
    var threads := s.threads[a := s.threads[a].(lastIdx := j)];
    s.(run := s.run[i := b][j := a],
    threads := threads[b := threads[b].(lastIdx := i)],
    pos := s.pos[a := j][b := i],
    placed := s.placed + {a, b})
  }

  ghost predicate SameStates(a: seq<ThreadInfo>, b: seq<ThreadInfo>) {
    |a| == |b| && forall t :: 0 <= t < |a| ==> a[t].state == b[t].state && a[t].futexWord == b[t].futexWord
  }

  lemma SameStatesSameSets(a: seq<ThreadInfo>, b: seq<ThreadInfo>)
    requires SameStates(a, b)
    ensures Online(a) == Online(b) && forall st :: In(a, st) == In(b, st)
  {
  }

  lemma SwappedStates(s: Snap, i: nat, j: nat)
    requires Listed(s.threads, s.run, s.size, s.pos) && i < s.size && j < s.size
    ensures SameStates(s.threads, Swapped(s, i, j).threads)
    ensures Listed(Swapped(s, i, j).threads, Swapped(s, i, j).run, s.size, Swapped(s, i, j).pos)
  {
  }

  /** A swap in a phase of which nothing has been played yet keeps the barrier consistent. */
  lemma SwappedKeeps(s: Snap, i: nat, j: nat, parallel: nat)
    requires Consistent(s, parallel) && i < s.size && j < s.size && s.cur == 0
    ensures Consistent(Swapped(s, i, j), parallel)
  {
    SwappedStates(s, i, j);
    SameStatesSameSets(s.threads, Swapped(s, i, j).threads);
  }

  /** The clean-up of one thread that left: the last listed thread takes its place. */
  ghost function Removed(s: Snap, i: nat): Snap
    requires Listed(s.threads, s.run, s.size, s.pos) && i < s.size && s.left > 0
  {
    var t, last := s.run[i], s.run[s.size - 1];
    var threads := s.threads[t := s.threads[t].(state := OFFLINE)];
    s.(threads := threads[last := threads[last].(lastIdx := i)], run := s.run[i := last], size := s.size - 1,
    left := s.left - 1, pos := s.pos[last := i], placed := s.placed + {last} - {t})
  }

  lemma RemovedStates(s: Snap, i: nat)
    requires Listed(s.threads, s.run, s.size, s.pos) && i < s.size && s.left > 0
    ensures
      var r := Removed(s, i);
      && |r.threads| == |s.threads| && Listed(r.threads, r.run, r.size, r.pos)
      && (forall t :: 0 <= t < |s.threads| ==>
                        && r.threads[t].futexWord == s.threads[t].futexWord
                        && r.threads[t].state == (if t == s.run[i] then OFFLINE else s.threads[t].state)
                        && (t != s.run[s.size - 1] ==>
                              r.threads[t].lastIdx == s.threads[t].lastIdx && r.pos[t] == s.pos[t]))
      && r.pos[s.run[s.size - 1]] == i == r.threads[s.run[s.size - 1]].lastIdx
  {
  }

  lemma RemovedKeeps(s: Snap, i: nat, parallel: nat)
    requires Consistent(s, parallel) && i < s.size && s.cur == 0 && s.threads[s.run[i]].state == LEFT
    ensures s.left > 0 && Consistent(Removed(s, i), parallel)
  {
    var t := s.run[i];
    assert t in In(s.threads, LEFT);
    RemovedStates(s, i);
    var threads := s.threads[t := s.threads[t].(state := OFFLINE)];
    CountsChange(s.threads, t, s.threads[t].(state := OFFLINE));
    SameStatesSameSets(threads, Removed(s, i).threads);
    assert t !in s.due;
  }

  /** Rewinding the list: a new phase with the same threads. */
  ghost function Rewound(s: Snap): Snap {
    s.(cur := 0, woken := {}, due := In(s.threads, WAITING))
  }

  lemma RewindKeeps(s: Snap, parallel: nat)
    requires Consistent(s, parallel) && s.running == 0
    ensures Consistent(Rewound(s), parallel) && NextPhase(s, Rewound(s), parallel)
  {
    assert forall t :: 0 <= t < |s.threads| && s.threads[t].state == RUNNING ==> t in In(s.threads, RUNNING);
  }

  /** The clean-up pass has dealt with the first i listed threads of g. */
  ghost predicate Cleaning(s: Snap, g: Snap, i: nat, parallel: nat) {
    && NextPhase(s, g, parallel) && i <= g.size
    && (forall k :: 0 <= k < i ==> g.threads[g.run[k]].state != LEFT)
  }

  lemma CleanStep(s: Snap, g: Snap, i: nat, parallel: nat)
    requires Cleaning(s, g, i, parallel) && i < g.size
    ensures g.threads[g.run[i]].state != LEFT ==> Cleaning(s, g, i + 1, parallel)
    ensures g.threads[g.run[i]].state == LEFT ==> g.left > 0 && Cleaning(s, Removed(g, i), i, parallel)
    ensures Listed(g.threads, g.run, g.size, g.pos)
  {
    if g.threads[g.run[i]].state == LEFT {
      RemovedKeeps(g, i, parallel);
      RemovedStates(g, i);
    }
  }

  /** After the pass no thread is LEFT, so the number of removed entries was leftThreads. */
  lemma CleanEnds(s: Snap, g: Snap, parallel: nat)
    requires Cleaning(s, g, g.size, parallel)
    ensures g.left == 0 && In(g.threads, LEFT) == {}
  {
    forall t | 0 <= t < |g.threads|
      ensures g.threads[t].state != LEFT
    {
      assert g.threads[t].state != OFFLINE ==> g.run[g.pos[t]] == t;
    }
    assert In(g.threads, LEFT) == {};
  }

  lemma ShuffleStep(s: Snap, g: Snap, i: nat, j: nat, parallel: nat)
    requires NextPhase(s, g, parallel) && i < g.size && j < g.size
    ensures NextPhase(s, Swapped(g, i, j), parallel) && SameStates(g.threads, Swapped(g, i, j).threads)
  {
    SwappedKeeps(g, i, j, parallel);
    SwappedStates(g, i, j);
  }

  // ---------------------------------------------------------------------------------------------
  // Joining, leaving, synchronizing
  // ---------------------------------------------------------------------------------------------

  /** The assertion in join: a thread that comes back after it was passed must stand where its lastIdx says.
      It holds for every thread placed since it came online. */
  ghost predicate MayJoin(s: Snap, tid: nat) {
    && |s.pos| == |s.threads| && tid < |s.threads| && (s.threads[tid].state == OFFLINE || s.threads[tid].state == LEFT)
    && (s.threads[tid].state == LEFT && s.cur > s.threads[tid].lastIdx ==> s.pos[tid] == s.threads[tid].lastIdx)
  }

  /** Scheduled again in the current phase: the thread trades places with the one played last. */
  ghost function Rescheduled(s: Snap, tid: nat): Snap
    requires Listed(s.threads, s.run, s.size, s.pos) && tid < |s.threads| && s.threads[tid].lastIdx < s.cur <= s.size
  {
    Swapped(s, s.threads[tid].lastIdx, s.cur - 1).(cur := s.cur - 1, woken := s.woken - {tid})
  }

  /** A thread that had left waits again. */
  ghost function Returned(s: Snap, tid: nat): Snap
    requires tid < |s.threads| && s.left > 0
  {
    s.(left := s.left - 1, woken := s.woken - {tid},
    threads := s.threads[tid := s.threads[tid].(state := WAITING, futexWord := 1)])
  }

  /** A thread that was offline is appended to the list. */
  ghost function Appended(s: Snap, tid: nat): Snap
    requires |s.pos| == |s.run| == |s.threads| && tid < |s.threads| && s.size < |s.run|
  {
    s.(run := s.run[s.size := tid], size := s.size + 1, pos := s.pos[tid := s.size],
    threads := s.threads[tid := s.threads[tid].(state := WAITING, futexWord := 1)])
  }

  /** join, before it tries to wake threads. */
  ghost function Joined(s: Snap, tid: nat): Snap
    requires Listed(s.threads, s.run, s.size, s.pos) && MayJoin(s, tid)
    requires s.size == |Online(s.threads)| && s.cur <= s.size && (s.threads[tid].state == LEFT ==> s.left > 0)
  {
    if s.threads[tid].state == OFFLINE then
      RoomToJoin(s.threads, tid);
      Appended(s, tid)
    else Returned(if s.cur > s.threads[tid].lastIdx then Rescheduled(s, tid) else s, tid)
  }

  lemma NewcomerKeeps(s: Snap, tid: nat, parallel: nat)
    requires Consistent(s, parallel) && MayJoin(s, tid) && s.threads[tid].state == OFFLINE
    ensures Consistent(Joined(s, tid), parallel)
  {
    RoomToJoin(s.threads, tid);
    CountsChange(s.threads, tid, s.threads[tid].(state := WAITING, futexWord := 1));
  }

  /** Rescheduling changes nothing but the position of the thread and of the one played last. */
  lemma RescheduledShape(s: Snap, tid: nat)
    requires Listed(s.threads, s.run, s.size, s.pos) && tid < |s.threads| && s.threads[tid].state == LEFT
    requires s.pos[tid] == s.threads[tid].lastIdx < s.cur <= s.size
    ensures
      var r, other := Rescheduled(s, tid), s.run[s.cur - 1];
      && other < |s.threads| && |r.threads| == |r.pos| == |s.threads|
      && r.size == s.size && r.cur == s.cur - 1 && r.running == s.running && r.due == s.due
      && r.placed == s.placed + {tid, other} && r.woken == s.woken - {tid}
      && forall t :: 0 <= t < |s.threads| ==>
                       var p := if t == tid then s.cur - 1 else s.pos[tid];
                       if t == tid || t == other then r.pos[t] == p && r.threads[t] == s.threads[t].(lastIdx := p)
                       else r.pos[t] == s.pos[t] && r.threads[t] == s.threads[t]
  {
  }

  lemma RescheduleKeepsTracked(s: Snap, tid: nat, parallel: nat)
    requires Consistent(s, parallel) && MayJoin(s, tid)
    requires s.threads[tid].state == LEFT && s.cur > s.threads[tid].lastIdx
    ensures Tracked(Rescheduled(s, tid))
  {
    hide Counted, Rescheduled;
    RescheduledShape(s, tid);
    var r, other := Rescheduled(s, tid), s.run[s.cur - 1];
    forall t | 0 <= t < |s.threads|
      ensures t in r.placed ==> r.threads[t].state != OFFLINE && r.threads[t].lastIdx == r.pos[t]
      ensures t in r.woken ==> t in r.placed && r.pos[t] < r.cur
      ensures r.threads[t].state == RUNNING ==> t in r.woken
      ensures t in r.due ==> Present(r.threads[t].state) && (t in r.woken || r.pos[t] >= r.cur)
    {
      assert s.threads[t].state != OFFLINE && s.pos[t] == s.cur - 1 ==> t == other;
    }
  }

  lemma RescheduleKeeps(s: Snap, tid: nat, parallel: nat)
    requires Consistent(s, parallel) && MayJoin(s, tid)
    requires s.threads[tid].state == LEFT && s.cur > s.threads[tid].lastIdx
    ensures Consistent(Rescheduled(s, tid), parallel) && Rescheduled(s, tid).threads[tid].state == LEFT
  {
    var i, j := s.threads[tid].lastIdx, s.cur - 1;
    RescheduleKeepsTracked(s, tid, parallel);
    SwappedStates(s, i, j);
    SameStatesSameSets(s.threads, Swapped(s, i, j).threads);
  }

  lemma ReturnKeeps(s: Snap, tid: nat, parallel: nat)
    requires Consistent(s, parallel) && tid < |s.threads| && s.threads[tid].state == LEFT
    ensures s.left > 0 && Consistent(Returned(s, tid), parallel)
  {
    assert tid in In(s.threads, LEFT);
    CountsChange(s.threads, tid, s.threads[tid].(state := WAITING, futexWord := 1));
  }

  lemma JoinedKeeps(s: Snap, tid: nat, parallel: nat)
    requires Consistent(s, parallel) && MayJoin(s, tid)
    ensures s.threads[tid].state == LEFT ==> s.left > 0
    ensures Consistent(Joined(s, tid), parallel)
    ensures |Joined(s, tid).threads| == |s.threads| && Joined(s, tid).threads[tid].state == WAITING
  {
    if s.threads[tid].state == OFFLINE {
      NewcomerKeeps(s, tid, parallel);
    } else {
      assert tid in In(s.threads, LEFT);
      if s.cur > s.threads[tid].lastIdx {
        RescheduleKeeps(s, tid, parallel);
        ReturnKeeps(Rescheduled(s, tid), tid, parallel);
      } else {
        ReturnKeeps(s, tid, parallel);
      }
    }
  }

  ghost function Departed(s: Snap, tid: nat): Snap
    requires tid < |s.threads| && (s.threads[tid].state == RUNNING ==> s.running > 0)
  {
    var x := s.threads[tid];
    s.(threads := s.threads[tid := x.(state := LEFT)], left := s.left + 1, due := s.due - {tid},
    running := if x.state == RUNNING then s.running - 1 else s.running)
  }

  lemma DepartedKeepsTracked(s: Snap, tid: nat, parallel: nat)
    requires Consistent(s, parallel) && tid < |s.threads| && Present(s.threads[tid].state)
    requires s.threads[tid].state == RUNNING ==> s.running > 0
    ensures Tracked(Departed(s, tid)) && Listed(Departed(s, tid).threads, s.run, s.size, s.pos)
  {
    hide Counted;
    var r := Departed(s, tid);
    assert forall t :: 0 <= t < |s.threads| && t != tid ==> r.threads[t] == s.threads[t];
    assert r.threads[tid] == s.threads[tid].(state := LEFT);
  }

  lemma DepartedKeeps(s: Snap, tid: nat, parallel: nat)
    requires Consistent(s, parallel) && tid < |s.threads| && Present(s.threads[tid].state)
    ensures s.threads[tid].state == RUNNING ==> s.running > 0
    ensures Consistent(Departed(s, tid), parallel)
    ensures NoStall(s) && s.threads[tid].state == WAITING ==> NoStall(Departed(s, tid))
  {
    hide Tracked, Listed;
    CountsChange(s.threads, tid, s.threads[tid].(state := LEFT));
    assert s.threads[tid].state == RUNNING ==> tid in In(s.threads, RUNNING);
    assert s.threads[tid].state == WAITING ==> tid in In(s.threads, WAITING);
    DepartedKeepsTracked(s, tid, parallel);
  }

  ghost function Synced(s: Snap, tid: nat): Snap
    requires tid < |s.threads| && s.running > 0
  {
    s.(threads := s.threads[tid := s.threads[tid].(state := WAITING, futexWord := 1)], running := s.running - 1)
  }

  lemma SyncedKeeps(s: Snap, tid: nat, parallel: nat)
    requires Consistent(s, parallel) && tid < |s.threads| && s.threads[tid].state == RUNNING
    ensures s.running > 0 && Consistent(Synced(s, tid), parallel)
  {
    CountsChange(s.threads, tid, s.threads[tid].(state := WAITING, futexWord := 1));
    assert tid in In(s.threads, RUNNING);
  }

  /** When nobody runs, the joining thread is the only one that waits. */
  lemma JoinerIsOnlyWaiter(s: Snap, tid: nat, parallel: nat)
    requires Consistent(s, parallel) && NoStall(s) && s.running == 0 && MayJoin(s, tid)
    requires s.threads[tid].state == LEFT ==> s.left > 0
    ensures In(Joined(s, tid).threads, WAITING) == {tid}
    ensures Joined(s, tid).pos[tid] < Joined(s, tid).cur <==>
            s.threads[tid].state == LEFT && s.pos[tid] < s.cur <= s.threads[tid].lastIdx
  {
    assert In(s.threads, WAITING) == {};
    forall t | 0 <= t < |s.threads|
      ensures s.threads[t].state != WAITING
    {
      assert t in In(s.threads, WAITING) <==> s.threads[t].state == WAITING;
    }
  }

  /** With one waiting thread and no running one, the phase is over after playing it exactly if the waiting
      thread's position was already passed. */
  lemma SingleWaiter(j: Snap, tid: nat, parallel: nat)
    requires Consistent(j, parallel) && parallel > 0 && j.running == 0 && tid < |j.threads|
             && In(j.threads, WAITING) == {tid}
    ensures PhaseOver(Played(j, parallel)) <==> j.pos[tid] < j.cur
  {
    var r := Played(j, parallel);
    PlayedKeeps(j, parallel);
    assert j.threads[tid].state == WAITING;
    if j.pos[tid] < j.cur {
      forall t | 0 <= t < |j.threads|
        ensures r.threads[t] == j.threads[t]
      {
        assert j.threads[t].state == WAITING ==> t in In(j.threads, WAITING);
      }
      assert r.threads == j.threads;
      OnlineSplits(r.threads);
    } else if r.cur == r.size {
      assert tid in In(r.threads, RUNNING);
    }
  }

  /** The comment in join says that it cannot end a phase. Exactly: it ends one if and only if nobody runs and
      the thread comes back at a list position that was already passed, with a lastIdx that does not show it.
      A placed thread never does. */
  lemma JoinEndsPhaseIff(s: Snap, tid: nat, parallel: nat)
    requires Consistent(s, parallel) && parallel > 0 && NoStall(s) && MayJoin(s, tid)
    requires s.threads[tid].state == LEFT ==> s.left > 0
    ensures Consistent(Joined(s, tid), parallel)
    ensures PhaseOver(Played(Joined(s, tid), parallel)) <==>
            s.running == 0 && s.threads[tid].state == LEFT && s.pos[tid] < s.cur <= s.threads[tid].lastIdx
    ensures tid in s.placed ==> !PhaseOver(Played(Joined(s, tid), parallel))
  {
    var j := Joined(s, tid);
    JoinedKeeps(s, tid, parallel);
    if s.running == 0 {
      JoinerIsOnlyWaiter(s, tid, parallel);
      SingleWaiter(j, tid, parallel);
    } else {
      PlayedKeeps(j, parallel);
    }
  }

  /** A placed thread may always come back. */
  lemma PlacedMayJoin(s: Snap, tid: nat, parallel: nat)
    requires Consistent(s, parallel) && tid in s.placed && s.threads[tid].state == LEFT
    ensures MayJoin(s, tid)
  {
  }

  /** Thread 0 runs at the parallelism limit of 1; thread 1 is offline. */
  ghost function OneRunning(): Snap {
    Snap([ThreadInfo(RUNNING, 0, 0), ThreadInfo(OFFLINE, 0, 0)], [0, 0], 1, 1, 1, 0, [0, 0], {0}, {0}, {})
  }

  lemma OneRunningIsConsistent()
    ensures Consistent(OneRunning(), 1) && NoStall(OneRunning()) && MayJoin(OneRunning(), 1)
  {
    var threads := OneRunning().threads;
    assert Online(threads) == {0} && In(threads, RUNNING) == {0};
    assert In(threads, LEFT) == {} && In(threads, WAITING) == {};
  }

  /** Without having been placed it may not: thread 1 joins while thread 0 runs at the limit, leaves before it
      is ever woken, and then fails the assertion of join, although every step was legal. */
  lemma UnplacedMayNotJoin()
    ensures Consistent(OneRunning(), 1) && NoStall(OneRunning()) && MayJoin(OneRunning(), 1)
    ensures Consistent(Joined(OneRunning(), 1), 1) && Played(Joined(OneRunning(), 1), 1) == Joined(OneRunning(), 1)
    ensures !MayJoin(Departed(Joined(OneRunning(), 1), 1), 1)
  {
    OneRunningIsConsistent();
    JoinedKeeps(OneRunning(), 1, 1);
  }

  ghost function WithLastIdx(s: Snap, tid: nat, x: nat): Snap
    requires tid < |s.threads|
  {
    s.(threads := s.threads[tid := s.threads[tid].(lastIdx := x)])
  }

  lemma UnplacedLastIdx(s: Snap, tid: nat, x: nat, parallel: nat)
    requires Consistent(s, parallel) && tid < |s.threads| && tid !in s.placed
    ensures Consistent(WithLastIdx(s, tid, x), parallel)
  {
    CountsChange(s.threads, tid, s.threads[tid].(lastIdx := x));
  }

  /** Exactly: a thread that has left passes the assertion of join, whatever the consistent value of its lastIdx,
      if and only if it is placed, the phase has not begun, or only the thread itself has been looked at. */
  lemma AlwaysMayJoinIff(s: Snap, tid: nat, parallel: nat)
    requires Consistent(s, parallel) && tid < |s.threads| && s.threads[tid].state == LEFT
    ensures (forall x: nat :: Consistent(WithLastIdx(s, tid, x), parallel) ==> MayJoin(WithLastIdx(s, tid, x), tid))
       <==> tid in s.placed || s.cur == 0 || (s.cur == 1 && s.pos[tid] == 0)
  {
    if tid in s.placed {
      forall x: nat | Consistent(WithLastIdx(s, tid, x), parallel)
        ensures MayJoin(WithLastIdx(s, tid, x), tid)
      {
        PlacedMayJoin(WithLastIdx(s, tid, x), tid, parallel);
      }
    } else {
      var wrong := if s.pos[tid] == 0 then 1 else 0;
      UnplacedLastIdx(s, tid, wrong, parallel);
      assert MayJoin(WithLastIdx(s, tid, wrong), tid) <==> s.cur <= wrong;
    }
  }

  // ---------------------------------------------------------------------------------------------
  // Operations as a whole
  // ---------------------------------------------------------------------------------------------

  /** tryWakeNext takes s to r: the phase is played on and, if that ends it, the next one is begun and played. */
  ghost predicate Resolved(s: Snap, r: Snap, parallel: nat, ended: bool) {
    && Consistent(s, parallel) && Consistent(Played(s, parallel), parallel)
    && (ended <==> PhaseOver(Played(s, parallel)))
    && if ended then exists next :: NextPhase(Played(s, parallel), next, parallel) && r == Played(next, parallel)
       else r == Played(s, parallel)
  }

  ghost predicate JoinsTo(s: Snap, tid: nat, r: Snap, parallel: nat, ended: bool) {
    && Consistent(s, parallel) && MayJoin(s, tid) && (s.threads[tid].state == LEFT ==> s.left > 0)
    && Resolved(Joined(s, tid), r, parallel, ended)
  }

  ghost predicate LeavesTo(s: Snap, tid: nat, r: Snap, parallel: nat, ended: bool) {
    && tid < |s.threads| && (s.threads[tid].state == RUNNING ==> s.running > 0)
    && if s.threads[tid].state == RUNNING then Resolved(Departed(s, tid), r, parallel, ended)
       else !ended && r == Departed(s, tid)
  }

  ghost predicate SyncsTo(s: Snap, tid: nat, r: Snap, parallel: nat, ended: bool) {
    tid < |s.threads| && s.running > 0 && Resolved(Synced(s, tid), r, parallel, ended)
  }

  // A run in which a join ends a phase: thread 1 was woken at index 2 while the list was longer, and has gone
  // offline since; now it joins, leaves while it waits for its first wake-up, and joins again

  /** Thread 0 runs at the parallelism limit of 1 and is the only one listed. */
  ghost function Shrunk(): Snap {
    WithLastIdx(OneRunning(), 1, 2)
  }

  ghost function LateJoined(): Snap {
    Snap([ThreadInfo(RUNNING, 0, 0), ThreadInfo(WAITING, 1, 2)], [0, 1], 2, 1, 1, 0, [0, 1], {0}, {0}, {})
  }

  ghost function LateLeft(): Snap {
    Snap([ThreadInfo(RUNNING, 0, 0), ThreadInfo(LEFT, 1, 2)], [0, 1], 2, 1, 1, 1, [0, 1], {0}, {0}, {})
  }

  ghost function BothLeft(): Snap {
    Snap([ThreadInfo(LEFT, 0, 0), ThreadInfo(LEFT, 1, 2)], [0, 1], 2, 2, 0, 2, [0, 1], {0}, {0}, {})
  }

  lemma ShrunkIsConsistent()
    ensures Consistent(Shrunk(), 1) && NoStall(Shrunk()) && MayJoin(Shrunk(), 1)
  {
    hide Consistent, In;
    OneRunningIsConsistent();
    UnplacedLastIdx(OneRunning(), 1, 2, 1);
  }

  lemma LateJoin()
    ensures Consistent(LateJoined(), 1) && JoinsTo(Shrunk(), 1, LateJoined(), 1, false)
  {
    ShrunkIsConsistent();
    JoinedKeeps(Shrunk(), 1, 1);
    hide In, Online, Listed, Tracked;
    assert Joined(Shrunk(), 1) == LateJoined();
  }

  lemma LateLeave()
    ensures Consistent(LateLeft(), 1) && LeavesTo(LateJoined(), 1, LateLeft(), 1, false)
  {
    hide Consistent, JoinsTo;
    LateJoin();
    DepartedKeeps(LateJoined(), 1, 1);
    assert Departed(LateJoined(), 1) == LateLeft();
  }

  lemma LastIsSkipped(g: Snap)
    requires Consistent(g, 1) && g.cur + 1 == g.size && g.running == 0 && g.threads[g.run[g.cur]].state == LEFT
    ensures Consistent(g.(cur := g.size), 1) && Played(g, 1) == g.(cur := g.size)
  {
    hide In, Online, Tracked;
    AdvanceKeeps(g, 1);
    assert Advance(g) == g.(cur := g.size);
  }

  lemma LastLeave()
    ensures Consistent(BothLeft(), 1) && NoStall(BothLeft()) && LeavesTo(LateLeft(), 0, BothLeft(), 1, false)
  {
    hide Consistent, In, NoStall;
    LateLeave();
    DepartedKeeps(LateLeft(), 0, 1);
    var g := Snap([ThreadInfo(LEFT, 0, 0), ThreadInfo(LEFT, 1, 2)], [0, 1], 2, 1, 0, 2, [0, 1], {0}, {0}, {});
    assert Departed(LateLeft(), 0) == g;
    LastIsSkipped(g);
    UnfinishedPhaseDoesNotStall(BothLeft(), 1);
  }

  /** The second join of thread 1 ends the phase. */
  lemma JoinMayEndPhase()
    ensures JoinsTo(Shrunk(), 1, LateJoined(), 1, false) && LeavesTo(LateJoined(), 1, LateLeft(), 1, false)
    ensures LeavesTo(LateLeft(), 0, BothLeft(), 1, false)
    ensures Consistent(BothLeft(), 1) && NoStall(BothLeft()) && MayJoin(BothLeft(), 1)
    ensures Consistent(Joined(BothLeft(), 1), 1) && PhaseOver(Played(Joined(BothLeft(), 1), 1))
  {
    hide JoinsTo, LeavesTo, In, Online;
    LateJoin();
    LateLeave();
    LastLeave();
    JoinEndsPhaseIff(BothLeft(), 1, 1);
  }

  /** Resolving keeps threads where they are, except that it wakes waiting ones and may take left ones offline. */
  lemma ResolvedStates(s: Snap, r: Snap, parallel: nat, ended: bool, t: nat)
    requires Resolved(s, r, parallel, ended) && t < |s.threads|
    ensures |r.threads| == |s.threads|
    ensures Present(s.threads[t].state) ==> Present(r.threads[t].state)
    ensures s.threads[t].state == LEFT ==> r.threads[t].state == LEFT || (ended && r.threads[t].state == OFFLINE)
  {
    hide Consistent, PhaseOver;
    PlayedKeeps(s, parallel);
    if ended {
      var next :| NextPhase(Played(s, parallel), next, parallel) && r == Played(next, parallel);
      PlayedKeeps(next, parallel);
    }
  }

  /** t runs, or the limit is reached and the rest of the list still has t's turn in it. */
  ghost predicate RunsOrIsAhead(s: Snap, t: nat, parallel: nat) {
    && t < |s.threads| && s.size <= |s.run|
    && (s.threads[t].state == RUNNING
        || (s.running == parallel && exists k :: s.cur <= k < s.size && s.run[k] == t))
  }

  /** Playing on wakes a waiting thread that is ahead, or leaves it ahead because the limit is reached. */
  lemma PlayedReaches(s: Snap, t: nat, parallel: nat)
    requires Consistent(s, parallel) && t < |s.threads| && s.threads[t].state == WAITING && s.cur <= s.pos[t]
    ensures RunsOrIsAhead(Played(s, parallel), t, parallel)
  {
    var r := Played(s, parallel);
    PlayedKeeps(s, parallel);
    if r.threads[t].state != RUNNING {
      assert r.run[s.pos[t]] == t;
    }
  }

  /** A thread that comes back after it was passed is next: it runs at once, or as soon as another one stops. */
  lemma RescheduledIsNext(s: Snap, tid: nat, parallel: nat)
    requires Consistent(s, parallel) && MayJoin(s, tid) && s.threads[tid].state == LEFT && s.left > 0
    requires s.threads[tid].lastIdx < s.cur
    ensures Consistent(Joined(s, tid), parallel)
    ensures
      var r := Played(Joined(s, tid), parallel);
      && |r.threads| == |s.threads| == |r.run|
      && (r.threads[tid].state == RUNNING
          || (r.running == parallel && r.cur < r.size <= |r.run| && r.run[r.cur] == tid))
  {
    hide Joined, In, Online;
    var j := Joined(s, tid);
    RescheduledStandsNext(s, tid, parallel);
    PlayedKeeps(j, parallel);
  }

  lemma RescheduledStandsNext(s: Snap, tid: nat, parallel: nat)
    requires Consistent(s, parallel) && MayJoin(s, tid) && s.threads[tid].state == LEFT && s.left > 0
    requires s.threads[tid].lastIdx < s.cur
    ensures
      var j := Joined(s, tid);
      && Consistent(j, parallel) && |j.threads| == |s.threads| && j.threads[tid].state == WAITING
      && j.pos[tid] == j.cur < j.size && j.run[j.cur] == tid
  {
    hide In, Online, Swapped, Rescheduled;
    JoinedKeeps(s, tid, parallel);
    RescheduledShape(s, tid);
  }

  /** A thread that joins runs in the current phase or is still ahead in it, unless it comes back at a position that
      was passed with a lastIdx that does not show it. */
  lemma JoinerHasItsTurn(s: Snap, tid: nat, parallel: nat)
    requires Consistent(s, parallel) && MayJoin(s, tid) && (s.threads[tid].state == LEFT ==> s.left > 0)
    requires !(s.threads[tid].state == LEFT && s.pos[tid] < s.cur <= s.threads[tid].lastIdx)
    ensures Consistent(Joined(s, tid), parallel)
    ensures RunsOrIsAhead(Played(Joined(s, tid), parallel), tid, parallel)
  {
    JoinedKeeps(s, tid, parallel);
    if s.threads[tid].state == LEFT && s.threads[tid].lastIdx < s.cur {
      RescheduledShape(s, tid);
    }
    PlayedReaches(Joined(s, tid), tid, parallel);
  }

  /** Nobody is waiting in the part of the list that has not been played yet. */
  ghost predicate NobodyAhead(s: Snap) {
    && s.size <= |s.run|
    && forall k :: s.cur <= k < s.size && s.run[k] < |s.threads| ==> s.threads[s.run[k]].state != WAITING
  }

  /** Exactly when playing on ends the phase: nobody runs, nobody is left to be woken, and not everybody has left. */
  lemma PhaseEndsIff(s: Snap, parallel: nat)
    requires Consistent(s, parallel) && parallel > 0
    ensures PhaseOver(Played(s, parallel)) <==> s.running == 0 && NobodyAhead(s) && s.left != s.size
  {
    var r := Played(s, parallel);
    PlayedKeeps(s, parallel);
    if PhaseOver(r) {
      assert r.threads == s.threads;
      forall k | s.cur <= k < s.size
        ensures s.threads[s.run[k]].state != WAITING
      {
        assert s.pos[s.run[k]] == k;
      }
    } else if s.running == 0 && NobodyAhead(s) {
      forall t | 0 <= t < |s.threads|
        ensures r.threads[t] == s.threads[t]
      {
        assert s.threads[t].state == WAITING ==> s.run[s.pos[t]] == t;
      }
      assert r.threads == s.threads;
    }
  }

  /** What the two lemmas say of a join that does not end the phase. */
  lemma JoinedOutcome(s: Snap, tid: nat, r: Snap, parallel: nat, ended: bool)
    requires Consistent(s, parallel) && parallel > 0 && NoStall(s) && JoinsTo(s, tid, r, parallel, ended)
    ensures s.threads[tid].state == LEFT && s.threads[tid].lastIdx < s.cur ==>
              && |r.threads| == |s.threads|
              && (r.threads[tid].state == RUNNING
                  || (r.running == parallel && r.cur < r.size <= |r.run| && r.run[r.cur] == tid))
    ensures ended || RunsOrIsAhead(r, tid, parallel)
            || (s.threads[tid].state == LEFT && s.pos[tid] < s.cur <= s.threads[tid].lastIdx)
  {
    hide Consistent, RunsOrIsAhead, PhaseOver;
    JoinEndsPhaseIff(s, tid, parallel);
    if s.threads[tid].state == LEFT && s.threads[tid].lastIdx < s.cur {
      RescheduledIsNext(s, tid, parallel);
    }
    if !(s.threads[tid].state == LEFT && s.pos[tid] < s.cur <= s.threads[tid].lastIdx) {
      JoinerHasItsTurn(s, tid, parallel);
    }
  }

  /** How an operation goes on, from the threads as it leaves them. In the same phase the list stays as it is, the
      waiting threads up to the new curThreadIdx are woken and nobody else changes, and it stops only at the limit or
      at the end of the list. In a new phase every thread that waited runs or has its turn ahead. */
  ghost predicate PlaysOn(threads: seq<ThreadInfo>, run: seq<nat>, size: nat, cur: nat, r: Snap, parallel: nat,
                          ended: bool) {
    && |r.threads| == |threads|
    && if ended then
         forall t :: 0 <= t < |threads| && threads[t].state == WAITING ==> RunsOrIsAhead(r, t, parallel)
       else
         && r.run == run && r.size == size && cur <= r.cur <= size <= |run|
         && (r.running == parallel || r.cur == size)
         && forall t :: 0 <= t < |threads| ==>
                          r.threads[t].state ==
                          if threads[t].state == WAITING && t in run[cur..r.cur] then RUNNING else threads[t].state
  }

  lemma PlayedPlaysOn(s: Snap, parallel: nat)
    requires Consistent(s, parallel)
    ensures PlaysOn(s.threads, s.run, s.size, s.cur, Played(s, parallel), parallel, false)
  {
    hide Counted;
    var r := Played(s, parallel);
    PlayedKeeps(s, parallel);
    forall t | 0 <= t < |s.threads| && s.threads[t].state == WAITING
      ensures t in s.run[s.cur..r.cur] <==> s.cur <= s.pos[t] < r.cur
    {
      if s.cur <= s.pos[t] < r.cur {
        assert s.run[s.cur..r.cur][s.pos[t] - s.cur] == t;
      }
    }
  }

  lemma ResolvedPlaysOn(s: Snap, r: Snap, parallel: nat, ended: bool)
    requires Resolved(s, r, parallel, ended)
    ensures PlaysOn(s.threads, s.run, s.size, s.cur, r, parallel, ended)
  {
    hide Consistent, PhaseOver, RunsOrIsAhead;
    PlayedPlaysOn(s, parallel);
    if ended {
      PlayedKeeps(s, parallel);
      var next :| NextPhase(Played(s, parallel), next, parallel) && r == Played(next, parallel);
      PlayedKeeps(next, parallel);
      forall t | 0 <= t < |s.threads| && s.threads[t].state == WAITING
        ensures RunsOrIsAhead(r, t, parallel)
      {
        NextReaches(Played(s, parallel), next, t, parallel);
      }
    }
  }

  /** How a sync goes on, and when it ends the phase. */
  lemma SyncedOutcome(s: Snap, tid: nat, r: Snap, parallel: nat, ended: bool)
    requires Consistent(s, parallel) && parallel > 0 && tid < |s.threads| && s.threads[tid].state == RUNNING
    requires SyncsTo(s, tid, r, parallel, ended)
    ensures ended <==> s.running == 1 && NobodyAhead(s)
    ensures PlaysOn(s.threads[tid := s.threads[tid].(state := WAITING, futexWord := 1)], s.run, s.size, s.cur, r,
                    parallel, ended)
  {
    hide PlaysOn, Resolved;
    SyncedKeeps(s, tid, parallel);
    var j := Synced(s, tid);
    ResolvedPlaysOn(j, r, parallel, ended);
    ResolvedEnds(j, r, parallel, ended);
    OnlineSplits(j.threads);
    assert tid in In(j.threads, WAITING);
    assert tid in s.woken;
    assert NobodyAhead(j) <==> NobodyAhead(s);
  }

  /** How a running thread's leaving goes on, and when it ends the phase. */
  lemma DepartedOutcome(s: Snap, tid: nat, r: Snap, parallel: nat, ended: bool)
    requires Consistent(s, parallel) && parallel > 0 && tid < |s.threads| && s.threads[tid].state == RUNNING
    requires LeavesTo(s, tid, r, parallel, ended)
    ensures ended <==> s.running == 1 && NobodyAhead(s) && s.left + 1 != s.size
    ensures PlaysOn(s.threads[tid := s.threads[tid].(state := LEFT)], s.run, s.size, s.cur, r, parallel, ended)
  {
    hide PlaysOn, Resolved;
    DepartedKeeps(s, tid, parallel);
    var j := Departed(s, tid);
    ResolvedPlaysOn(j, r, parallel, ended);
    ResolvedEnds(j, r, parallel, ended);
    assert NobodyAhead(j) <==> NobodyAhead(s);
  }

  lemma ResolvedEnds(s: Snap, r: Snap, parallel: nat, ended: bool)
    requires Resolved(s, r, parallel, ended) && parallel > 0
    ensures ended <==> s.running == 0 && NobodyAhead(s) && s.left != s.size
  {
    hide NobodyAhead;
    PhaseEndsIff(s, parallel);
  }

  lemma NextReaches(s: Snap, next: Snap, t: nat, parallel: nat)
    requires Consistent(s, parallel) && PhaseOver(s) && NextPhase(s, next, parallel) && t < |s.threads|
    requires Present(s.threads[t].state)
    ensures RunsOrIsAhead(Played(next, parallel), t, parallel)
  {
    PhaseEndIsFair(s, parallel);
    assert t !in In(s.threads, RUNNING);
    PlayedReaches(next, t, parallel);
  }

  // ---------------------------------------------------------------------------------------------
  // The barrier
  // ---------------------------------------------------------------------------------------------

  class Barrier {
    const parallelThreads: nat
    const threadList: array<ThreadInfo>
    const runList: array<nat>
    var runListSize: nat
    var curThreadIdx: nat
    var runningThreads: nat
    var leftThreads: nat
    var phaseCount: nat
    ghost var pos: seq<nat>
    ghost var placed: set<nat>
    ghost var woken: set<nat>
    ghost var due: set<nat>

    ghost function Snapshot(): Snap
      reads this, threadList, runList
    {
      Snap(threadList[..], runList[..], runListSize, curThreadIdx, runningThreads, leftThreads, pos, placed, woken, due)
    }

    ghost predicate Valid()
      reads this, threadList, runList
    {
      parallelThreads > 0 && Consistent(Snapshot(), parallelThreads) && NoStall(Snapshot())
    }

    constructor (parallelThreads: nat, maxThreads: nat, stale: nat -> nat)
      requires parallelThreads > 0
      ensures Valid() && this.parallelThreads == parallelThreads && threadList.Length == maxThreads
      ensures fresh(threadList) && fresh(runList)
      ensures forall t :: 0 <= t < maxThreads ==> threadList[t].state == OFFLINE
    {
      this.parallelThreads := parallelThreads;
      threadList := new ThreadInfo[maxThreads](t requires t >= 0 => ThreadInfo(OFFLINE, 0, stale(t)));
      runList := new nat[maxThreads](i => 0);
      runListSize, curThreadIdx, runningThreads, leftThreads, phaseCount := 0, 0, 0, 0, 0;
      pos, placed, woken, due := seq(maxThreads, t => 0), {}, {}, {};
      new;
      assert Online(threadList[..]) == {} && In(threadList[..], RUNNING) == {} && In(threadList[..], LEFT) == {};
      assert In(threadList[..], WAITING) == {};
    }

    /** One iteration of checkRunList; the wake-up compare-and-swap always finds a 1. */
    method WakeNext()
      requires Consistent(Snapshot(), parallelThreads)
      requires runningThreads < parallelThreads && curThreadIdx < runListSize
      modifies this, threadList
      ensures Snapshot() == Advance(old(Snapshot())) && phaseCount == old(phaseCount)
    {
      hide Counted, Tracked;
      AdvanceKeeps(Snapshot(), parallelThreads);
      var idx := curThreadIdx;
      curThreadIdx := curThreadIdx + 1;
      var wtid := runList[idx];
      if threadList[wtid].state == WAITING {
        assert threadList[wtid].futexWord == 1;
        threadList[wtid] := ThreadInfo(RUNNING, 0, idx);
        runningThreads := runningThreads + 1;
        placed, woken := placed + {wtid}, woken + {wtid};
      }
    }

    method CheckRunList()
      requires Consistent(Snapshot(), parallelThreads)
      modifies this, threadList
      ensures Snapshot() == Played(old(Snapshot()), parallelThreads) && phaseCount == old(phaseCount)
    {
      while runningThreads < parallelThreads && curThreadIdx < runListSize
        invariant Consistent(Snapshot(), parallelThreads) && phaseCount == old(phaseCount)
        invariant Played(Snapshot(), parallelThreads) == Played(old(Snapshot()), parallelThreads)
        decreases runListSize - curThreadIdx
      {
        ghost var before := Snapshot();
        AdvanceKeeps(before, parallelThreads);
        WakeNext();
        assert before.size == runListSize && before.cur < curThreadIdx;
      }
    }

    /** Takes the threads that left off the list, so that the list is not traversed for their sake. */
    method CleanUp(ghost s: Snap)
      requires NextPhase(s, Snapshot(), parallelThreads)
      modifies this, threadList, runList
      ensures NextPhase(s, Snapshot(), parallelThreads) && leftThreads == 0
      ensures In(threadList[..], LEFT) == {} && phaseCount == old(phaseCount)
    {
      hide Consistent, Removed;
      var idx, newSize := 0, runListSize;
      ghost var g := Snapshot();
      while idx < newSize
        invariant Cleaning(s, g, idx, parallelThreads)
        invariant g == Snapshot().(size := newSize, left := g.left)
        invariant g.left + runListSize == leftThreads + newSize && phaseCount == old(phaseCount)
        decreases newSize - idx
      {
        CleanStep(s, g, idx, parallelThreads);
        var removed := CleanAt(idx, newSize, g);
        if removed {
          g := Removed(g, idx);
          newSize := newSize - 1;
        } else {
          idx := idx + 1;
        }
      }
      CleanEnds(s, g, parallelThreads);
      assert runListSize - newSize == leftThreads;
      leftThreads := 0;
      runListSize := newSize;
    }

    method CleanAt(idx: nat, newSize: nat, ghost g: Snap) returns (removed: bool)
      requires Consistent(g, parallelThreads) && idx < newSize && g == Snapshot().(size := newSize, left := g.left)
      requires g.threads[g.run[idx]].state == LEFT ==> g.left > 0
      modifies this`pos, this`placed, threadList, runList
      ensures removed <==> g.threads[g.run[idx]].state == LEFT
      ensures removed ==> Removed(g, idx) == Snapshot().(size := newSize - 1, left := g.left - 1)
      ensures !removed ==> g == Snapshot().(size := newSize, left := g.left)
    {
      removed := threadList[runList[idx]].state == LEFT;
      if removed {
        RemoveAt(idx, newSize);
      }
    }

    method RemoveAt(idx: nat, newSize: nat)
      requires idx < newSize <= runList.Length && |pos| == threadList.Length
      requires runList[idx] < threadList.Length && runList[newSize - 1] < threadList.Length
      modifies this`pos, this`placed, threadList, runList
      ensures
        var t, last := old(runList[idx]), old(runList[newSize - 1]);
        var threads := old(threadList[..])[t := old(threadList[..])[t].(state := OFFLINE)];
        && threadList[..] == threads[last := threads[last].(lastIdx := idx)]
        && runList[..] == old(runList[..])[idx := last]
        && pos == old(pos)[last := idx] && placed == old(placed) + {last} - {t}
    {
      var wtid := runList[idx];
      threadList[wtid] := threadList[wtid].(state := OFFLINE);
      var stid := runList[newSize - 1];
      runList[idx] := stid;
      threadList[stid] := threadList[stid].(lastIdx := idx);
      pos, placed := pos[stid := idx], placed + {stid} - {wtid};
    }

    /** Fisher-Yates shuffle of the run list; any choice of the random numbers is allowed. */
    method Shuffle(ghost s: Snap)
      requires NextPhase(s, Snapshot(), parallelThreads) && runListSize > 0
      modifies this`pos, this`placed, threadList, runList
      ensures NextPhase(s, Snapshot(), parallelThreads) && SameStates(old(threadList[..]), threadList[..])
    {
      var i := runListSize - 1;
      while i > 0
        invariant i < runListSize
        invariant NextPhase(s, Snapshot(), parallelThreads) && SameStates(old(threadList[..]), threadList[..])
        decreases i
      {
        var j: nat :| j <= i;
        ShuffleStep(s, Snapshot(), i, j, parallelThreads);
        SwapEntries(i, j);
        i := i - 1;
      }
    }

    method SwapEntries(i: nat, j: nat)
      requires Listed(threadList[..], runList[..], runListSize, pos) && i < runListSize && j < runListSize
      modifies this`pos, this`placed, threadList, runList
      ensures Snapshot() == Swapped(old(Snapshot()), i, j)
    {
      var itid, jtid := runList[i], runList[j];
      runList[i] := jtid;
      runList[j] := itid;
      threadList[itid] := threadList[itid].(lastIdx := j);
      threadList[jtid] := threadList[jtid].(lastIdx := i);
      pos, placed := pos[itid := j][jtid := i], placed + {itid, jtid};
    }

    /** Ends the phase if it is over; one time out of 32 the threads that left go offline. */
    method CheckEndPhase() returns (ended: bool)
      requires Consistent(Snapshot(), parallelThreads)
      modifies this, threadList, runList
      ensures ended <==> PhaseOver(old(Snapshot()))
      ensures !ended ==> Snapshot() == old(Snapshot()) && phaseCount == old(phaseCount)
      ensures ended ==> NextPhase(old(Snapshot()), Snapshot(), parallelThreads) && phaseCount == old(phaseCount) + 1
      ensures ended && old(phaseCount) % 32 == 0 ==> In(threadList[..], LEFT) == {}
      ensures ended && old(phaseCount) % 32 != 0 ==> SameStates(old(threadList[..]), threadList[..])
      ensures ended && old(phaseCount) % 32 != 0 && old(runListSize) <= parallelThreads ==>
                runList[..] == old(runList[..]) && runListSize == old(runListSize)
    {
      hide Consistent, NextPhase;
      ended := false;
      if curThreadIdx == runListSize && runningThreads == 0 {
        if leftThreads == runListSize {
          return;
        }
        ghost var s := Snapshot();
        RewindKeeps(s, parallelThreads);
        curThreadIdx, woken, due := 0, {}, In(threadList[..], WAITING);
        phaseCount := phaseCount + 1;
        if (phaseCount - 1) % 32 == 0 {
          CleanUp(s);
        }
        ghost var mid := threadList[..];
        if parallelThreads < runListSize {
          Shuffle(s);
          SameStatesSameSets(mid, threadList[..]);
        }
        ended := true;
      }
    }

    method TryWakeNext() returns (ended: bool)
      requires parallelThreads > 0 && Consistent(Snapshot(), parallelThreads)
      modifies this, threadList, runList
      ensures Valid() && Resolved(old(Snapshot()), Snapshot(), parallelThreads, ended)
      ensures phaseCount == old(phaseCount) + if ended then 1 else 0
    {
      PlayedKeeps(Snapshot(), parallelThreads);
      CheckRunList();
      ghost var played := Snapshot();
      if !PhaseOver(played) {
        UnfinishedPhaseDoesNotStall(played, parallelThreads);
      }
      ended := CheckEndPhase();
      PlayedKeeps(Snapshot(), parallelThreads);
      if ended {
        FreshPhaseDoesNotStall(Snapshot(), parallelThreads);
        assert NextPhase(played, Snapshot(), parallelThreads);
      }
      CheckRunList();
    }

    /** A thread joins. The phase ends in the process only in the one case that JoinEndsPhaseIff names. */
    method Join(tid: nat) returns (ended: bool)
      requires Valid() && MayJoin(Snapshot(), tid)
      modifies this, threadList, runList
      ensures Valid() && JoinsTo(old(Snapshot()), tid, Snapshot(), parallelThreads, ended)
              && Present(threadList[tid].state)
      ensures ended <==> old(runningThreads == 0 && threadList[tid].state == LEFT
                             && pos[tid] < curThreadIdx <= threadList[tid].lastIdx)
      ensures old(threadList[tid].state == LEFT && threadList[tid].lastIdx < curThreadIdx) ==>
                || threadList[tid].state == RUNNING
                || (runningThreads == parallelThreads && curThreadIdx < runListSize <= runList.Length
                    && runList[curThreadIdx] == tid)
      ensures ended || RunsOrIsAhead(Snapshot(), tid, parallelThreads)
              || old(threadList[tid].state == LEFT && pos[tid] < curThreadIdx <= threadList[tid].lastIdx)
    {
      hide In, Online, Joined, Played, RunsOrIsAhead;
      ghost var s := Snapshot();
      JoinedKeeps(s, tid, parallelThreads);
      JoinEndsPhaseIff(s, tid, parallelThreads);
      EnterList(tid);
      ended := TryWakeNext();
      ResolvedStates(Joined(s, tid), Snapshot(), parallelThreads, ended, tid);
      JoinedOutcome(s, tid, Snapshot(), parallelThreads, ended);
    }

    method EnterList(tid: nat)
      requires Consistent(Snapshot(), parallelThreads) && MayJoin(Snapshot(), tid)
      requires threadList[tid].state == LEFT ==> leftThreads > 0
      modifies this, threadList, runList
      ensures Snapshot() == Joined(old(Snapshot()), tid) && phaseCount == old(phaseCount)
    {
      hide In, Tracked;
      if threadList[tid].state == OFFLINE {
        RoomToJoin(threadList[..], tid);
        runList[runListSize] := tid;
        pos := pos[tid := runListSize];
        runListSize := runListSize + 1;
        threadList[tid] := threadList[tid].(state := WAITING, futexWord := 1);
      } else {
        Return(tid);
      }
    }

    /** A thread that had left waits again; if it was passed already, in the current phase. */
    method Return(tid: nat)
      requires Consistent(Snapshot(), parallelThreads) && MayJoin(Snapshot(), tid)
      requires threadList[tid].state == LEFT && leftThreads > 0
      modifies this, threadList, runList
      ensures Snapshot() == Joined(old(Snapshot()), tid) && phaseCount == old(phaseCount)
    {
      hide In, Online, Swapped;
      ghost var s := Snapshot();
      if curThreadIdx > threadList[tid].lastIdx {
        Reschedule(tid);
        assert s.woken - {tid} - {tid} == s.woken - {tid};
      }
      ghost var mid := Snapshot();
      leftThreads := leftThreads - 1;
      woken := woken - {tid};
      threadList[tid] := threadList[tid].(state := WAITING, futexWord := 1);
      assert Snapshot() == Returned(mid, tid);
    }

    /** Swaps the thread's list entry with the one played last, so that it is scheduled next. */
    method Reschedule(tid: nat)
      requires Listed(threadList[..], runList[..], runListSize, pos) && tid < threadList.Length
      requires threadList[tid].lastIdx < curThreadIdx <= runListSize && pos[tid] == threadList[tid].lastIdx
      requires threadList[tid].state == LEFT
      modifies this`curThreadIdx, this`pos, this`placed, this`woken, threadList, runList
      ensures Snapshot() == Rescheduled(old(Snapshot()), tid)
    {
      var lastIdx := threadList[tid].lastIdx;
      curThreadIdx := curThreadIdx - 1;
      assert tid == runList[lastIdx];
      SwapEntries(lastIdx, curThreadIdx);
      woken := woken - {tid};
    }

    /** A thread leaves; only a running one can end the phase by it. */
    method Leave(tid: nat) returns (ended: bool)
      requires Valid() && tid < threadList.Length && Present(threadList[tid].state)
      modifies this, threadList, runList
      ensures Valid() && LeavesTo(old(Snapshot()), tid, Snapshot(), parallelThreads, ended)
      ensures threadList[tid].state == LEFT || (ended && threadList[tid].state == OFFLINE)
      ensures ended <==> old(threadList[tid].state == RUNNING && runningThreads == 1 && NobodyAhead(Snapshot())
                             && leftThreads + 1 != runListSize)
      ensures
        var was := old(threadList[..]);
        var threads := was[tid := was[tid].(state := LEFT)];
        if was[tid].state == RUNNING then
          PlaysOn(threads, old(runList[..]), old(runListSize), old(curThreadIdx), Snapshot(), parallelThreads, ended)
        else
          && threadList[..] == threads && runList[..] == old(runList[..]) && runListSize == old(runListSize)
          && curThreadIdx == old(curThreadIdx)
    {
      hide Counted, Tracked;
      ghost var s := Snapshot();
      DepartedKeeps(s, tid, parallelThreads);
      ended := false;
      due := due - {tid};
      leftThreads := leftThreads + 1;
      if threadList[tid].state == RUNNING {
        threadList[tid] := threadList[tid].(state := LEFT);
        runningThreads := runningThreads - 1;
        assert Snapshot() == Departed(s, tid);
        ended := TryWakeNext();
        ResolvedStates(Departed(s, tid), Snapshot(), parallelThreads, ended, tid);
        DepartedOutcome(s, tid, Snapshot(), parallelThreads, ended);
      } else {
        threadList[tid] := threadList[tid].(state := LEFT);
        assert Snapshot() == Departed(s, tid);
      }
    }

    /** A running thread has reached the barrier. */
    method Sync(tid: nat) returns (ended: bool)
      requires Valid() && tid < threadList.Length && threadList[tid].state == RUNNING
      modifies this, threadList, runList
      ensures Valid() && SyncsTo(old(Snapshot()), tid, Snapshot(), parallelThreads, ended)
              && Present(threadList[tid].state)
      ensures ended <==> old(runningThreads == 1 && NobodyAhead(Snapshot()))
      ensures
        var was := old(threadList[..]);
        PlaysOn(was[tid := was[tid].(state := WAITING, futexWord := 1)], old(runList[..]), old(runListSize),
                old(curThreadIdx), Snapshot(), parallelThreads, ended)
    {
      ghost var s := Snapshot();
      SyncedKeeps(s, tid, parallelThreads);
      threadList[tid] := threadList[tid].(futexWord := 1, state := WAITING);
      runningThreads := runningThreads - 1;
      assert Snapshot() == Synced(s, tid);
      ended := TryWakeNext();
      ResolvedStates(Synced(s, tid), Snapshot(), parallelThreads, ended, tid);
      SyncedOutcome(s, tid, Snapshot(), parallelThreads, ended);
    }
  }
}
