/** The activation window of a DDR rank, ddr_mem.h: a circular buffer of the latest ACT cycles, which limits how
    many rows may be activated within tFAW. */
module ActWindows {
  // ---------------------------------------------------------------------------------------------
  // The window, oldest cycle first
  // ---------------------------------------------------------------------------------------------

  /** How many cycles, from the latest back to but excluding the oldest, are later than act. */
  function Passed(w: seq<nat>, act: nat): (k: nat)
    requires |w| > 0
    ensures k < |w|
    ensures forall i :: |w| - k <= i < |w| ==> w[i] > act
    ensures k < |w| - 1 ==> w[|w| - 1 - k] <= act
  {
    if |w| == 1 || w[|w| - 1] <= act then 0 else 1 + Passed(w[..|w| - 1], act)
  }

  /** What addActivation makes of the window. The oldest cycle goes and act is inserted in order, unless all
      others are later than act: then the loop reads the slot it has already overwritten. */
  function Added(w: seq<nat>, act: nat): (r: seq<nat>)
    requires |w| > 0
    ensures |r| == |w|
  {
    var n, k := |w|, Passed(w, act);
    if n > 1 && k == n - 1 then [w[n - 1]] + w[1..n - 1] + [act]
    else w[1..n - k] + [act] + w[n - k..]
  }

  lemma Parts(a: seq<nat>, b: seq<nat>, c: seq<nat>)
    ensures multiset(a + b + c) == multiset(a) + multiset(b) + multiset(c)
  {
  }

  lemma WrappedContents(w: seq<nat>, act: nat)
    requires |w| > 1
    ensures multiset([w[|w| - 1]] + w[1..|w| - 1] + [act]) == multiset(w[1..]) + multiset{act}
  {
    var mid, last := w[1..|w| - 1], [w[|w| - 1]];
    assert w[1..] == mid + last + [];
    Parts(mid, last, []);
    Parts(last, mid, [act]);
  }

  lemma InsertedContents(w: seq<nat>, p: nat, act: nat)
    requires 1 <= p <= |w|
    ensures multiset(w[1..p] + [act] + w[p..]) == multiset(w[1..]) + multiset{act}
  {
    assert w[1..] == w[1..p] + [] + w[p..];
    Parts(w[1..p], [], w[p..]);
    Parts(w[1..p], [act], w[p..]);
  }

  /** In every case the cycles held are the old ones without the oldest, and act. */
  lemma AddedContents(w: seq<nat>, act: nat)
    requires |w| > 0
    ensures multiset(Added(w, act)) == multiset(w[1..]) + multiset{act}
  {
    hide Passed;
    var n, k := |w|, Passed(w, act);
    if n > 1 && k == n - 1 {
      assert Added(w, act) == [w[n - 1]] + w[1..n - 1] + [act];
      WrappedContents(w, act);
    } else {
      assert Added(w, act) == w[1..n - k] + [act] + w[n - k..];
      InsertedContents(w, n - k, act);
    }
  }

  /** If all cycles but the oldest are later than act, the loop passes all of them. */
  lemma {:induction false} PassedAll(w: seq<nat>, act: nat)
    requires |w| > 0 && forall i :: 1 <= i < |w| ==> w[i] > act
    ensures Passed(w, act) == |w| - 1
  {
    if |w| > 1 {
      PassedAll(w[..|w| - 1], act);
    }
  }

  ghost predicate Sorted(w: seq<nat>) {
    forall i, j :: 0 <= i <= j < |w| ==> w[i] <= w[j]
  }

  /** A sorted window stays sorted exactly if act is no earlier than its second-oldest cycle. */
  lemma AddedSortedIff(w: seq<nat>, act: nat)
    requires Sorted(w) && |w| >= 2
    ensures Sorted(Added(w, act)) <==> act >= w[1]
  {
    var n, k, r := |w|, Passed(w, act), Added(w, act);
    if act >= w[1] {
      forall i, j | 0 <= i <= j < n
        ensures r[i] <= r[j]
      {
        assert r[i] == if i < n - k - 1 then w[i + 1] else if i == n - k - 1 then act else w[i];
        assert r[j] == if j < n - k - 1 then w[j + 1] else if j == n - k - 1 then act else w[j];
      }
    } else {
      PassedAll(w, act);
      assert r[0] == w[n - 1] && r[n - 1] == act;
    }
  }

  /** For example: this window is sorted, and adding 30 to it leaves it unsorted. */
  lemma AddedUnsorted()
    ensures Added([0, 100, 101, 102], 30) == [102, 100, 101, 30]
  {
    var w := [0, 100, 101, 102];
    assert w[..3] == [0, 100, 101] && w[..3][..2] == [0, 100] && w[..3][..2][..1] == [0];
    assert Passed([0], 30) == 0 && Passed([0, 100], 30) == 1;
    assert Passed([0, 100, 101], 30) == 2;
  }

  // ---------------------------------------------------------------------------------------------
  // Runs of activations
  // ---------------------------------------------------------------------------------------------

  /** What a run of activations, in the order of their issue, makes of the window. */
  ghost function After(w: seq<nat>, acts: seq<nat>): (r: seq<nat>)
    requires |w| > 0
    ensures |r| == |w|
  {
    if acts == [] then w else Added(After(w, acts[..|acts| - 1]), acts[|acts| - 1])
  }

  /** Every activation waits for tFAW after the cycle then at the head of the window. */
  ghost predicate Waited(w: seq<nat>, acts: seq<nat>, tFAW: nat)
    requires |w| > 0
  {
    forall j :: 0 <= j < |acts| ==> acts[j] >= After(w, acts[..j])[0] + tFAW
  }

  lemma WaitedExtends(w: seq<nat>, acts: seq<nat>, act: nat, tFAW: nat)
    requires |w| > 0 && Waited(w, acts, tFAW) && act >= After(w, acts)[0] + tFAW
    ensures Waited(w, acts + [act], tFAW) && After(w, acts + [act]) == Added(After(w, acts), act)
  {
    var acts' := acts + [act];
    assert acts'[..|acts|] == acts;
    forall j | 0 <= j < |acts'|
      ensures acts'[j] >= After(w, acts'[..j])[0] + tFAW
    {
      assert acts'[..j] == acts[..j];
      assert acts[..|acts|] == acts;
    }
  }

  ghost predicate Indices(s: set<nat>, acts: seq<nat>) {
    forall i :: i in s ==> i < |acts|
  }

  /** Any n + 1 activations span at least tFAW: one of them comes that long after one issued before it. */
  ghost predicate Spread(acts: seq<nat>, n: nat, tFAW: nat) {
    forall s: set<nat> :: Indices(s, acts) && |s| > n ==>
                            exists i, j :: i in s && j in s && i < j && acts[i] + tFAW <= acts[j]
  }

  /** The activations fall into |w| chains, in each of which every one waits for its predecessors. The window
      holds the latest cycle of each chain, in any order. */
  ghost predicate Chains(w: seq<nat>, acts: seq<nat>, tFAW: nat, chain: seq<nat>, latest: seq<nat>) {
    && |chain| == |acts| && multiset(latest) == multiset(w) && |latest| == |w|
    && (forall i :: 0 <= i < |acts| ==> chain[i] < |w| && acts[i] <= latest[chain[i]])
    && (forall i, j :: 0 <= i < j < |acts| && chain[i] == chain[j] ==> acts[i] + tFAW <= acts[j])
  }

  lemma Replaced(w: seq<nat>, latest: seq<nat>, c: nat, act: nat)
    requires |w| > 0 && multiset(latest) == multiset(w) && c < |latest| && latest[c] == w[0]
    ensures multiset(latest[c := act]) == multiset(w[1..]) + multiset{act}
  {
    assert w == [w[0]] + w[1..];
    assert multiset(latest[c := act]) == multiset(latest) - multiset{w[0]} + multiset{act};
  }

  /** An activation joins the chain of the cycle that it evicts. */
  lemma ChainsExtend(w: seq<nat>, acts: seq<nat>, tFAW: nat, chain: seq<nat>, latest: seq<nat>, act: nat)
    returns (c: nat)
    requires Chains(w, acts, tFAW, chain, latest) && |w| > 0 && act >= w[0] + tFAW
    ensures c < |w| && Chains(Added(w, act), acts + [act], tFAW, chain + [c], latest[c := act])
  {
    hide Added;
    assert w[0] in multiset(w);
    assert w[0] in latest;
    c :| 0 <= c < |latest| && latest[c] == w[0];
    AddedContents(w, act);
    Replaced(w, latest, c, act);
  }

  lemma ChainsStart(w: seq<nat>, tFAW: nat)
    ensures Chains(w, [], tFAW, [], w)
  {
  }

  lemma {:induction false} ChainsExist(w: seq<nat>, acts: seq<nat>, tFAW: nat)
    returns (chain: seq<nat>, latest: seq<nat>)
    requires |w| > 0 && Waited(w, acts, tFAW)
    ensures |latest| == |w| && Chains(After(w, acts), acts, tFAW, chain, latest)
  {
    hide Chains, Added;
    if acts == [] {
      ChainsStart(w, tFAW);
      chain, latest := [], w;
    } else {
      var front, act := acts[..|acts| - 1], acts[|acts| - 1];
      forall j | 0 <= j < |front|
        ensures front[j] >= After(w, front[..j])[0] + tFAW
      {
        assert front[..j] == acts[..j];
      }
      chain, latest := ChainsExist(w, front, tFAW);
      var c := ChainsExtend(After(w, front), front, tFAW, chain, latest, act);
      assert acts == front + [act];
      chain, latest := chain + [c], latest[c := act];
    }
  }

  /** More than n indices with tags below n share one. */
  lemma {:induction false} SharedTag(s: set<nat>, tag: seq<nat>, n: nat)
    requires |s| > n && forall i :: i in s ==> i < |tag| && tag[i] < n
    ensures exists i, j :: i in s && j in s && i < j && tag[i] == tag[j]
  {
    var x :| x in s;
    if n > 0 {
      var top := set i | i in s && tag[i] == n - 1;
      if y, z :| y in top && z in top && y != z {
        var i, j := if y < z then y else z, if y < z then z else y;
        assert i in s && j in s && i < j && tag[i] == tag[j];
      } else {
        assert |s - top| >= |s| - 1 by {
          if y :| y in top {
            assert s - top == s - {y};
          } else {
            assert s - top == s;
          }
        }
        SharedTag(s - top, tag, n - 1);
      }
    }
  }

  /** Whatever the order in the window, waiting for tFAW after its head keeps every |w| + 1 activations of a run
      apart. */
  lemma ActivationsSpread(w: seq<nat>, acts: seq<nat>, tFAW: nat)
    requires |w| > 0 && Waited(w, acts, tFAW)
    ensures Spread(acts, |w|, tFAW)
  {
    hide Waited, After;
    var chain, latest := ChainsExist(w, acts, tFAW);
    forall s: set<nat> | Indices(s, acts) && |s| > |w|
      ensures exists i, j :: i in s && j in s && i < j && acts[i] + tFAW <= acts[j]
    {
      SharedTag(s, chain, |w|);
    }
  }

  /** So no interval of tFAW cycles holds more than n of them. */
  lemma FewAtOnce(acts: seq<nat>, n: nat, tFAW: nat, x: nat)
    requires Spread(acts, n, tFAW)
    ensures |set i | 0 <= i < |acts| && x <= acts[i] < x + tFAW| <= n
  {
    var s := set i | 0 <= i < |acts| && x <= acts[i] < x + tFAW;
    assert Indices(s, acts);
  }

  // ---------------------------------------------------------------------------------------------
  // The buffer
  // ---------------------------------------------------------------------------------------------

  /** The contents of a circular buffer from slot idx on. */
  ghost function Ring(b: seq<nat>, idx: nat): (w: seq<nat>)
    requires idx < |b|
    ensures |w| == |b|
  {
    b[idx..] + b[..idx]
  }

  /** The slot of the i-th oldest cycle. */
  function At(n: nat, idx: nat, i: nat): (slot: nat)
    requires idx < n && i < n
    ensures slot < n
  {
    if idx + i < n then idx + i else idx + i - n
  }

  lemma RingUpdate(b: seq<nat>, idx: nat, i: nat, x: nat)
    requires idx < |b| && i < |b|
    ensures Ring(b, idx)[i] == b[At(|b|, idx, i)]
    ensures Ring(b[At(|b|, idx, i) := x], idx) == Ring(b, idx)[i := x]
  {
  }

  lemma RingAdvances(b: seq<nat>, idx: nat)
    requires idx < |b|
    ensures Ring(b, if idx + 1 < |b| then idx + 1 else 0) == Ring(b, idx)[1..] + [Ring(b, idx)[0]]
  {
  }

  /** The window while addActivation has moved the j latest cycles up. */
  ghost function Shifted(w: seq<nat>, j: nat): (r: seq<nat>)
    requires j < |w|
    ensures |r| == |w|
  {
    if j == 0 then w else [w[|w| - 1]] + w[1..|w| - j + 1] + w[|w| - j..|w| - 1]
  }

  /** The position that is free after j moves. */
  function Free(n: nat, j: nat): (i: nat)
    requires j < n
    ensures i < n
  {
    if j == 0 then 0 else n - j
  }

  lemma ShiftedNone(w: seq<nat>)
    requires |w| > 0
    ensures Shifted(w, 0) == w
  {
  }

  lemma ShiftedAt(w: seq<nat>, j: nat, i: nat)
    requires j < |w| && i < |w|
    ensures Shifted(w, j)[i] == if j == 0 then w[i] else if i == 0 then w[|w| - 1]
                                else if i <= |w| - j then w[i] else w[i - 1]
  {
    if j > 0 {
      var front := [w[|w| - 1]] + w[1..|w| - j + 1];
      assert Shifted(w, j) == front + w[|w| - j..|w| - 1];
      assert i <= |w| - j ==> Shifted(w, j)[i] == front[i];
    }
  }

  lemma ShiftedStep(w: seq<nat>, j: nat)
    requires j + 1 < |w|
    ensures Shifted(w, j)[|w| - 1 - j] == w[|w| - 1 - j]
    ensures Shifted(w, j)[Free(|w|, j) := w[|w| - 1 - j]] == Shifted(w, j + 1)
  {
    hide Shifted;
    ShiftedAt(w, j, |w| - 1 - j);
    var r := Shifted(w, j)[Free(|w|, j) := w[|w| - 1 - j]];
    forall i | 0 <= i < |w|
      ensures r[i] == Shifted(w, j + 1)[i]
    {
      ShiftedAt(w, j, i);
      ShiftedAt(w, j + 1, i);
    }
  }

  /** The loop stops at the first cycle that is not later than act. */
  lemma ShiftedEnds(w: seq<nat>, j: nat, act: nat)
    requires j < |w| && j == Passed(w, act) && (j < |w| - 1 || |w| == 1)
    ensures Shifted(w, j)[Free(|w|, j) := act][1..] + [Shifted(w, j)[Free(|w|, j) := act][0]] == Added(w, act)
  {
    hide Passed, Shifted;
    var n, r := |w|, Shifted(w, j)[Free(|w|, j) := act];
    forall i | 0 <= i < n
      ensures (r[1..] + [r[0]])[i] == Added(w, act)[i]
    {
      ShiftedAt(w, j, if i + 1 < n then i + 1 else 0);
    }
  }

  /** Or it comes round to the slot it started from. */
  lemma ShiftedWraps(w: seq<nat>, act: nat)
    requires |w| > 1 && Passed(w, act) == |w| - 1
    ensures Shifted(w, |w| - 1)[0] == w[|w| - 1]
    ensures
      var r := Shifted(w, |w| - 1)[1 := w[|w| - 1]][0 := act];
      r[1..] + [r[0]] == Added(w, act)
  {
    hide Passed, Shifted;
    var n, r := |w|, Shifted(w, |w| - 1)[1 := w[|w| - 1]][0 := act];
    ShiftedAt(w, n - 1, 0);
    forall i | 0 <= i < n
      ensures (r[1..] + [r[0]])[i] == Added(w, act)[i]
    {
      ShiftedAt(w, n - 1, if i + 1 < n then i + 1 else 0);
    }
  }

  class ActWindow {
    const buf: array<nat>
    var idx: nat

    ghost predicate Valid()
      reads this
    {
      idx < buf.Length
    }

    ghost function Window(): (w: seq<nat>)
      requires Valid()
      reads this, buf
      ensures |w| == buf.Length
    {
      Ring(buf[..], idx)
    }

    constructor (size: nat)
      requires size > 0
      ensures Valid() && buf.Length == size && fresh(buf)
      ensures Window() == seq(size, _ => 0)
    {
      buf := new nat[size](_ => 0);
      idx := 0;
    }

    function Inc(i: nat): nat {
      if i + 1 < buf.Length then i + 1 else 0
    }

    function Dec(i: nat): nat
      requires buf.Length > 0
    {
      if i > 0 then i - 1 else buf.Length - 1
    }

    method MinActCycle() returns (c: nat)
      requires Valid()
      ensures c == Window()[0]
    {
      c := buf[idx];
    }

    method AddActivation(actCycle: nat)
      requires Valid() && Window()[0] <= actCycle
      modifies this, buf
      ensures Valid() && Window() == Added(old(Window()), actCycle)
    {
      ghost var w := Window();
      ghost var j;
      var cur;
      cur, j := MakeRoom(actCycle);
      buf[cur] := actCycle;
      RingAdvances(buf[..], idx);
      idx := Inc(idx);
    }

    /** The loop of addActivation. */
    method MakeRoom(actCycle: nat) returns (cur: nat, ghost j: nat)
      requires Valid() && Window()[0] <= actCycle
      modifies buf
      ensures cur < buf.Length
      ensures
        var r := Ring(buf[..][cur := actCycle], idx);
        r[1..] + [r[0]] == Added(old(Window()), actCycle)
    {
      hide Passed, Added, Shifted, Ring;
      ghost var w, n := Window(), buf.Length;
      cur, j := idx, 0;
      ShiftedNone(w);
      RingUpdate(buf[..], idx, n - 1, 0);
      while buf[Dec(cur)] > actCycle
        invariant j < n && cur == At(n, idx, Free(n, j)) && Dec(cur) == At(n, idx, n - 1 - j)
        invariant j <= Passed(w, actCycle)
        invariant Window() == Shifted(w, j) && buf[Dec(cur)] == Shifted(w, j)[n - 1 - j]
        decreases n - j
      {
        ghost var b := buf[..];
        RingUpdate(b, idx, Free(n, j), b[Dec(cur)]);
        buf[cur] := buf[Dec(cur)];
        cur := Dec(cur);
        assert buf[..] == b[At(n, idx, Free(n, j)) := b[cur]];
        if cur == idx {
          RingUpdate(buf[..], idx, 0, actCycle);
          ShiftedWraps(w, actCycle);
          return;
        }
        ShiftedStep(w, j);
        j := j + 1;
        RingUpdate(buf[..], idx, n - 1 - j, 0);
      }
      LoopEnds(w, j, actCycle);
      RingUpdate(buf[..], idx, Free(n, j), actCycle);
      ShiftedEnds(w, j, actCycle);
    }
  }

  lemma LoopEnds(w: seq<nat>, j: nat, act: nat)
    requires j < |w| && j <= Passed(w, act) && Shifted(w, j)[|w| - 1 - j] <= act
    ensures j == Passed(w, act) && (j < |w| - 1 || |w| == 1)
  {
    ShiftedAt(w, j, |w| - 1 - j);
  }
}
