/** The zcache array of cache_arrays.cpp: a breadth-first walk over hash positions picks a victim
    line, and relocations along the walk make room for the incoming address. */
module ZCache {
  import opened Bits
  import opened Counting

  type Address = nat

  /** One entry of the walk: a physical position, the line stored there, and the index of the walk
      entry whose line could move to this position (-1 for the seeds). */
  datatype ZWalkInfo = ZWalkInfo(pos: nat, lineId: nat, parentIdx: int)

  /** The constructor's parameters. The hash family is an arbitrary function; `& setMask` is `% numSets`. */
  datatype Geometry = Geometry(ways: nat, numSets: nat, cands: nat, hash: (nat, Address) -> nat) {
    ghost predicate Valid() {
      ways > 1 && numSets > 0 && cands >= ways
    }

    function NumLines(): nat {
      ways * numSets
    }

    /** The position of address a in way w. */
    function Pos(w: nat, a: Address): (p: nat)
      requires Valid() && w < ways
      ensures p < NumLines()
    {
      WayBound(w, hash(w, a) % numSets);
      w * numSets + hash(w, a) % numSets
    }

    ghost predicate AtHash(p: nat, a: Address)
      requires Valid()
    {
      exists w: nat :: w < ways && p == Pos(w, a)
    }

    lemma WayBound(w: nat, x: nat)
      requires Valid() && w < ways && x < numSets
      ensures w * numSets + x < NumLines()
    {
      MulStep(w, ways, numSets);
    }

    lemma PosInjective(v: nat, w: nat, a: Address, b: Address)
      requires Valid() && v < ways && w < ways && v != w
      ensures Pos(v, a) != Pos(w, b)
    {
      var x, y := hash(v, a) % numSets, hash(w, b) % numSets;
      if v < w {
        MulStep(v, w, numSets);
      } else {
        MulStep(w, v, numSets);
      }
    }
  }

  // ---------------------------------------------------------------------------------------------
  // Array invariant
  // ---------------------------------------------------------------------------------------------

  ghost predicate DistinctTags(tags: seq<Address>) {
    forall i, j :: 0 <= i < |tags| && 0 <= j < |tags| && tags[i] == tags[j] != 0 ==> i == j
  }

  /** Every valid line sits at one of its own hash positions. */
  ghost predicate Placed(g: Geometry, home: seq<nat>, tags: seq<Address>)
    requires g.Valid()
  {
    && |home| == |tags|
    && forall i :: 0 <= i < |tags| && tags[i] != 0 ==> g.AtHash(home[i], tags[i])
  }

  ghost predicate ArrayOk(g: Geometry, lookup: seq<nat>, home: seq<nat>, tags: seq<Address>) {
    && g.Valid()
    && |tags| == g.NumLines()
    && Inverse(g.NumLines(), lookup, home)
    && DistinctTags(tags)
    && Placed(g, home, tags)
  }

  /** The plain map the array stands for. */
  ghost function Contents(tags: seq<Address>): map<Address, nat>
    requires DistinctTags(tags)
  {
    map i: nat | i < |tags| && tags[i] != 0 :: tags[i] := i
  }

  // ---------------------------------------------------------------------------------------------
  // The walk
  // ---------------------------------------------------------------------------------------------

  /** Entry i is a seed (a hash position of the incoming address a), or it was added while expanding
      entry f = parentIdx: another line occupies one of the hash positions of f's line. */
  ghost predicate EntryOk(g: Geometry, lookup: seq<nat>, tags: seq<Address>, a: Address, walk: seq<ZWalkInfo>, i: nat)
    requires g.Valid() && i < |walk| && |lookup| == |tags| == g.NumLines()
  {
    var f := walk[i].parentIdx;
    && walk[i].pos < |lookup| && walk[i].lineId == lookup[walk[i].pos]
    && if i < g.ways then f == -1 && walk[i].pos == g.Pos(i, a)
       else
         && 0 <= f && f + g.ways <= i
         && walk[f].lineId < |tags| && tags[walk[f].lineId] != 0
         && g.AtHash(walk[i].pos, tags[walk[f].lineId])
         && walk[i].lineId != walk[f].lineId
  }

  ghost predicate EntriesOk(g: Geometry, lookup: seq<nat>, tags: seq<Address>, a: Address, walk: seq<ZWalkInfo>)
    requires g.Valid() && |lookup| == |tags| == g.NumLines()
  {
    forall i {:trigger EntryOk(g, lookup, tags, a, walk, i)} :: 0 <= i < |walk| ==> EntryOk(g, lookup, tags, a, walk, i)
  }

  /** Expanding entry f has recorded way w: either f's own line sits there or some child of f holds it. */
  ghost predicate WayRecorded(g: Geometry, lookup: seq<nat>, tags: seq<Address>, walk: seq<ZWalkInfo>, f: nat, w: nat)
    requires g.Valid() && f < |walk| && w < g.ways && |lookup| == |tags| == g.NumLines()
  {
    walk[f].lineId < |tags| &&
    var pos := g.Pos(w, tags[walk[f].lineId]);
    lookup[pos] == walk[f].lineId || exists i :: 0 <= i < |walk| && walk[i].parentIdx == f && walk[i].pos == pos
  }

  /** A breadth-first walk whose first f entries have been expanded. */
  ghost predicate WalkOk(g: Geometry, lookup: seq<nat>, tags: seq<Address>, a: Address, walk: seq<ZWalkInfo>, f: nat)
    requires g.Valid() && |lookup| == |tags| == g.NumLines()
  {
    && g.ways <= |walk| && f <= |walk|
    && (forall i :: 0 <= i < |walk| ==> walk[i].parentIdx < f)
    && EntriesOk(g, lookup, tags, a, walk)
    && (forall i, j :: 0 <= i < j < |walk| ==> walk[i].parentIdx <= walk[j].parentIdx)
    && (forall e, w :: 0 <= e < f && 0 <= w < g.ways ==> WayRecorded(g, lookup, tags, walk, e, w))
  }

  ghost predicate AllTagged(tags: seq<Address>, walk: seq<ZWalkInfo>) {
    forall i :: 0 <= i < |walk| ==> walk[i].lineId < |tags| && tags[walk[i].lineId] != 0
  }

  lemma AllTaggedAppend(tags: seq<Address>, walk: seq<ZWalkInfo>, x: ZWalkInfo)
    requires x.lineId < |tags|
    ensures AllTagged(tags, walk + [x]) <==> AllTagged(tags, walk) && tags[x.lineId] != 0
  {
    assert (walk + [x])[|walk|] == x;
    assert forall i :: 0 <= i < |walk| ==> (walk + [x])[i] == walk[i];
  }

  /** A walk that consists of the first few seeds only, which are distinct positions. */
  ghost predicate Seeding(g: Geometry, lookup: seq<nat>, tags: seq<Address>, a: Address, walk: seq<ZWalkInfo>)
    requires g.Valid() && |lookup| == |tags| == g.NumLines()
  {
    && |walk| <= g.ways && EntriesOk(g, lookup, tags, a, walk)
    && (forall i :: 0 <= i < |walk| ==> walk[i].parentIdx == -1)
    && (forall i, j :: 0 <= i < j < |walk| ==> walk[i].pos != walk[j].pos)
  }

  lemma SeedStep(g: Geometry, lookup: seq<nat>, tags: seq<Address>, a: Address, walk: seq<ZWalkInfo>)
    requires g.Valid() && |lookup| == |tags| == g.NumLines() && Seeding(g, lookup, tags, a, walk) && |walk| < g.ways
    ensures
      var pos := g.Pos(|walk|, a);
      Seeding(g, lookup, tags, a, walk + [ZWalkInfo(pos, lookup[pos], -1)])
  {
    var pos := g.Pos(|walk|, a);
    var walk' := walk + [ZWalkInfo(pos, lookup[pos], -1)];
    forall i | 0 <= i < |walk'|
      ensures EntryOk(g, lookup, tags, a, walk', i)
    {
      if i < |walk| {
        assert EntryOk(g, lookup, tags, a, walk, i);
      }
    }
    forall i | 0 <= i < |walk|
      ensures walk'[i].pos != pos
    {
      assert EntryOk(g, lookup, tags, a, walk, i);
      g.PosInjective(i, |walk|, a, a);
    }
  }

  lemma AddMultiple(f: nat, k: nat)
    ensures (f + 1) * k == f * k + k
  {
  }

  /** A valid line occupies exactly one of its own hash positions. */
  lemma OwnWay(g: Geometry, lookup: seq<nat>, home: seq<nat>, tags: seq<Address>, id: nat) returns (own: nat)
    requires ArrayOk(g, lookup, home, tags) && id < |tags| && tags[id] != 0
    ensures own < g.ways
    ensures forall w: nat :: w < g.ways ==> (lookup[g.Pos(w, tags[id])] == id <==> w == own)
  {
    assert g.AtHash(home[id], tags[id]);
    own :| own < g.ways && home[id] == g.Pos(own, tags[id]);
    forall w: nat | w < g.ways && w != own
      ensures lookup[g.Pos(w, tags[id])] != id
    {
      g.PosInjective(w, own, tags[id], tags[id]);
    }
  }

  /** A walk whose first f entries have been expanded, and entry f in its first w ways. */
  ghost predicate Expanding(g: Geometry, lookup: seq<nat>, tags: seq<Address>, a: Address, walk: seq<ZWalkInfo>,
                            f: nat, w: nat)
    requires g.Valid() && |lookup| == |tags| == g.NumLines()
  {
    && w <= g.ways && f < |walk| && f + g.ways <= |walk|
    && (forall i :: 0 <= i < |walk| ==> walk[i].parentIdx <= f)
    && EntriesOk(g, lookup, tags, a, walk)
    && (forall i, j :: 0 <= i < j < |walk| ==> walk[i].parentIdx <= walk[j].parentIdx)
    && (forall e, v :: 0 <= e < f && 0 <= v < g.ways ==> WayRecorded(g, lookup, tags, walk, e, v))
    && (forall v :: 0 <= v < w ==> WayRecorded(g, lookup, tags, walk, f, v))
  }

  lemma AppendKeepsRecords(g: Geometry, lookup: seq<nat>, tags: seq<Address>, walk: seq<ZWalkInfo>, x: ZWalkInfo,
                           f: nat, w: nat)
    requires g.Valid() && f < |walk| && w < g.ways && |lookup| == |tags| == g.NumLines()
    requires WayRecorded(g, lookup, tags, walk, f, w)
    ensures WayRecorded(g, lookup, tags, walk + [x], f, w)
  {
    var pos := g.Pos(w, tags[walk[f].lineId]);
    if lookup[pos] != walk[f].lineId {
      var i :| 0 <= i < |walk| && walk[i].parentIdx == f && walk[i].pos == pos;
      assert (walk + [x])[i] == walk[i];
    }
  }

  /** Visiting way w of entry f: record the line found there, unless it is f's own. */
  lemma ExpandWay(g: Geometry, lookup: seq<nat>, tags: seq<Address>, a: Address, walk: seq<ZWalkInfo>, f: nat,
                  w: nat) returns (walk': seq<ZWalkInfo>)
    requires g.Valid() && |lookup| == |tags| == g.NumLines() && Expanding(g, lookup, tags, a, walk, f, w) && w < g.ways
    requires walk[f].lineId < |tags| && tags[walk[f].lineId] != 0
    requires forall p :: 0 <= p < |lookup| ==> lookup[p] < |tags|
    ensures
      var pos := g.Pos(w, tags[walk[f].lineId]);
      walk' == if lookup[pos] == walk[f].lineId then walk else walk + [ZWalkInfo(pos, lookup[pos], f)]
    ensures Expanding(g, lookup, tags, a, walk', f, w + 1) && walk'[f] == walk[f]
    ensures AllTagged(tags, walk') <==> AllTagged(tags, walk) && tags[lookup[g.Pos(w, tags[walk[f].lineId])]] != 0
  {
    var pos := g.Pos(w, tags[walk[f].lineId]);
    walk' := walk;
    if lookup[pos] != walk[f].lineId {
      var x := ZWalkInfo(pos, lookup[pos], f);
      walk' := walk + [x];
      AllTaggedAppend(tags, walk, x);
      forall i | 0 <= i < |walk'|
        ensures EntryOk(g, lookup, tags, a, walk', i)
      {
        if i < |walk| {
          assert EntryOk(g, lookup, tags, a, walk, i);
        } else {
          assert g.AtHash(pos, tags[walk[f].lineId]);
        }
      }
      forall e, v | 0 <= e < f && 0 <= v < g.ways
        ensures WayRecorded(g, lookup, tags, walk', e, v)
      {
        AppendKeepsRecords(g, lookup, tags, walk, x, e, v);
      }
      forall v | 0 <= v < w + 1
        ensures WayRecorded(g, lookup, tags, walk', f, v)
      {
        if v < w {
          AppendKeepsRecords(g, lookup, tags, walk, x, f, v);
        } else {
          assert walk'[|walk|] == x;
        }
      }
    }
  }

  /** Entry i is the minimum-index occurrence of its line. */
  ghost predicate FirstOccurrence(walk: seq<ZWalkInfo>, i: nat) {
    i < |walk| && forall j :: 0 <= j < i ==> walk[j].lineId != walk[i].lineId
  }

  /** If the parent's line already occurs at q, expanding q recorded the child's line at an earlier index. */
  lemma RepeatedParent(g: Geometry, lookup: seq<nat>, tags: seq<Address>, a: Address, walk: seq<ZWalkInfo>, f: nat,
                       i: nat, q: nat)
    requires g.Valid() && |lookup| == |tags| == g.NumLines() && WalkOk(g, lookup, tags, a, walk, f)
    requires i < |walk| && q < walk[i].parentIdx && walk[q].lineId == walk[walk[i].parentIdx].lineId
    ensures exists c :: 0 <= c < i && walk[c].lineId == walk[i].lineId
  {
    var p := walk[i].parentIdx;
    assert EntryOk(g, lookup, tags, a, walk, i);
    var w: nat :| w < g.ways && walk[i].pos == g.Pos(w, tags[walk[p].lineId]);
    assert WayRecorded(g, lookup, tags, walk, q, w);
    var c :| 0 <= c < |walk| && walk[c].parentIdx == q && walk[c].pos == walk[i].pos;
    assert EntryOk(g, lookup, tags, a, walk, c);
  }

  /** The parent of a minimum-index occurrence is itself a minimum-index occurrence. */
  lemma ParentIsFirstOccurrence(g: Geometry, lookup: seq<nat>, tags: seq<Address>, a: Address, walk: seq<ZWalkInfo>,
                                f: nat, i: nat)
    requires g.Valid() && |lookup| == |tags| == g.NumLines() && WalkOk(g, lookup, tags, a, walk, f)
    requires FirstOccurrence(walk, i) && walk[i].parentIdx >= 0
    ensures FirstOccurrence(walk, walk[i].parentIdx)
  {
    assert EntryOk(g, lookup, tags, a, walk, i);
    forall q | 0 <= q < walk[i].parentIdx
      ensures walk[q].lineId != walk[walk[i].parentIdx].lineId
    {
      if walk[q].lineId == walk[walk[i].parentIdx].lineId {
        RepeatedParent(g, lookup, tags, a, walk, f, i, q);
      }
    }
  }

  // ---------------------------------------------------------------------------------------------
  // The relocation path
  // ---------------------------------------------------------------------------------------------

  /** The line at path position k is valid and may move to the position before it. */
  ghost predicate MoveOk(g: Geometry, lookup: seq<nat>, tags: seq<Address>, path: seq<nat>, k: nat)
    requires g.Valid() && 0 < k < |path|
  {
    && path[k] < |lookup| && lookup[path[k]] < |tags|
    && tags[lookup[path[k]]] != 0 && g.AtHash(path[k - 1], tags[lookup[path[k]]])
  }

  /** A relocation path for address a: pairwise distinct positions; the line at each position but the
      first may move one step towards the front, and the last position is a hash position of a. */
  ghost predicate PathOk(g: Geometry, lookup: seq<nat>, tags: seq<Address>, a: Address, path: seq<nat>)
    requires g.Valid() && |lookup| == |tags| == g.NumLines()
  {
    && |path| > 0
    && (forall k :: 0 <= k < |path| ==> path[k] < |lookup| && lookup[path[k]] < |tags|)
    && (forall j, k :: 0 <= j < k < |path| ==> path[j] != path[k])
    && (forall k :: 0 < k < |path| ==> MoveOk(g, lookup, tags, path, k))
    && g.AtHash(path[|path| - 1], a)
  }

  ghost predicate Moved(from: seq<nat>, path: seq<nat>, to: seq<nat>, k: nat) {
    && 0 < k < |path| && path[k - 1] < |to| && path[k] < |from|
    && to[path[k - 1]] == from[path[k]]
  }

  /** `to` is `from` rotated by one step along the path: each line moves one step towards the front and
      the victim's line id goes to the end. */
  ghost predicate Rotated(from: seq<nat>, path: seq<nat>, to: seq<nat>) {
    && |from| == |to| && |path| > 0
    && (forall k :: 0 <= k < |path| ==> path[k] < |from|)
    && (forall k :: 0 < k < |path| ==> Moved(from, path, to, k))
    && to[path[|path| - 1]] == from[path[0]]
    && (forall p :: 0 <= p < |from| && p !in path ==> to[p] == from[p])
  }

  /** The first i moves of a rotation are done. */
  ghost predicate PartlyRotated(from: seq<nat>, path: seq<nat>, to: seq<nat>, i: nat) {
    && |from| == |to| && i < |path|
    && (forall k :: 0 <= k < |path| ==> path[k] < |from|)
    && (forall k :: 0 < k <= i ==> Moved(from, path, to, k))
    && (forall k :: i <= k < |path| ==> to[path[k]] == from[path[k]])
    && (forall p :: 0 <= p < |from| && p !in path ==> to[p] == from[p])
  }

  lemma RotateStep(from: seq<nat>, path: seq<nat>, to: seq<nat>, i: nat)
    requires PartlyRotated(from, path, to, i) && i + 1 < |path|
    requires forall j, k :: 0 <= j < k < |path| ==> path[j] != path[k]
    ensures PartlyRotated(from, path, to[path[i] := to[path[i + 1]]], i + 1)
  {
    var to' := to[path[i] := to[path[i + 1]]];
    forall k | 0 < k <= i + 1
      ensures Moved(from, path, to', k)
    {
      assert k <= i ==> Moved(from, path, to, k) && path[k - 1] != path[i];
    }
  }

  lemma RotateEnd(from: seq<nat>, path: seq<nat>, to: seq<nat>)
    requires |path| > 0 && PartlyRotated(from, path, to, |path| - 1)
    requires forall j, k :: 0 <= j < k < |path| ==> path[j] != path[k]
    ensures Rotated(from, path, to[path[|path| - 1] := from[path[0]]])
  {
    var to' := to[path[|path| - 1] := from[path[0]]];
    forall k | 0 < k < |path|
      ensures Moved(from, path, to', k)
    {
      assert Moved(from, path, to, k) && path[k - 1] != path[|path| - 1];
    }
  }

  ghost predicate ParentLink(walk: seq<ZWalkInfo>, idxs: seq<nat>, k: nat) {
    0 < k < |idxs| && idxs[k - 1] < |walk| && walk[idxs[k - 1]].parentIdx == idxs[k]
  }

  /** Walk indices from the victim back to its seed. */
  ghost predicate Chain(walk: seq<ZWalkInfo>, idxs: seq<nat>) {
    && |idxs| > 0
    && (forall k :: 0 <= k < |idxs| ==> FirstOccurrence(walk, idxs[k]))
    && (forall j, k :: 0 <= j < k < |idxs| ==> idxs[k] < idxs[j])
    && (forall k :: 0 < k < |idxs| ==> ParentLink(walk, idxs, k))
  }

  ghost function Positions(walk: seq<ZWalkInfo>, idxs: seq<nat>): (path: seq<nat>)
    requires forall k :: 0 <= k < |idxs| ==> idxs[k] < |walk|
    ensures |path| == |idxs| && forall k :: 0 <= k < |idxs| ==> path[k] == walk[idxs[k]].pos
  {
    seq(|idxs|, k requires 0 <= k < |idxs| => walk[idxs[k]].pos)
  }

  lemma LinkIsMove(g: Geometry, lookup: seq<nat>, tags: seq<Address>, a: Address, walk: seq<ZWalkInfo>, idxs: seq<nat>,
                   k: nat)
    requires g.Valid() && |lookup| == |tags| == g.NumLines() && EntriesOk(g, lookup, tags, a, walk)
    requires 0 < k < |idxs| && (forall j :: 0 <= j < |idxs| ==> idxs[j] < |walk|) && ParentLink(walk, idxs, k)
    ensures MoveOk(g, lookup, tags, Positions(walk, idxs), k)
  {
    var child, parent := idxs[k - 1], idxs[k];
    assert EntryOk(g, lookup, tags, a, walk, child) && EntryOk(g, lookup, tags, a, walk, parent);
    assert Positions(walk, idxs)[k] == walk[parent].pos && Positions(walk, idxs)[k - 1] == walk[child].pos;
  }

  lemma ChainPositionsDistinct(lookup: seq<nat>, walk: seq<ZWalkInfo>, idxs: seq<nat>, j: nat, k: nat)
    requires Chain(walk, idxs) && j < k < |idxs|
    requires forall i :: 0 <= i < |walk| ==> walk[i].pos < |lookup| && walk[i].lineId == lookup[walk[i].pos]
    ensures walk[idxs[j]].pos != walk[idxs[k]].pos
  {
    assert FirstOccurrence(walk, idxs[j]) && idxs[k] < idxs[j];
  }

  /** Following parents from a first occurrence never repeats a position, even if the walk has loops. */
  lemma ChainIsPath(g: Geometry, lookup: seq<nat>, tags: seq<Address>, a: Address, walk: seq<ZWalkInfo>, idxs: seq<nat>)
    requires g.Valid() && |lookup| == |tags| == g.NumLines() && EntriesOk(g, lookup, tags, a, walk)
    requires forall p :: 0 <= p < |lookup| ==> lookup[p] < |tags|
    requires Chain(walk, idxs) && walk[idxs[|idxs| - 1]].parentIdx < 0
    ensures PathOk(g, lookup, tags, a, Positions(walk, idxs))
  {
    var path := Positions(walk, idxs);
    forall i | 0 <= i < |walk|
      ensures walk[i].pos < |lookup| && walk[i].lineId == lookup[walk[i].pos]
    {
      assert EntryOk(g, lookup, tags, a, walk, i);
    }
    forall k | 0 < k < |path|
      ensures MoveOk(g, lookup, tags, path, k)
    {
      assert ParentLink(walk, idxs, k);
      LinkIsMove(g, lookup, tags, a, walk, idxs, k);
    }
    forall j, k | 0 <= j < k < |path|
      ensures path[j] != path[k]
    {
      ChainPositionsDistinct(lookup, walk, idxs, j, k);
    }
    var last := idxs[|idxs| - 1];
    assert EntryOk(g, lookup, tags, a, walk, last);
    assert path[|path| - 1] == g.Pos(last, a);
  }

  /** The walk indices collected so far, when the next index to visit is idx (-1: none left). */
  ghost predicate PartialChain(walk: seq<ZWalkInfo>, idxs: seq<nat>, idx: int, first: nat) {
    && first < |walk| && -1 <= idx <= first
    && (if idxs == [] then idx == first
        else Chain(walk, idxs) && idxs[0] == first && walk[idxs[|idxs| - 1]].parentIdx == idx)
    && (idx >= 0 ==> FirstOccurrence(walk, idx))
    && (forall k :: 0 <= k < |idxs| ==> idx < idxs[k])
  }

  /** Visiting idx extends the chain; its length stays within (first / ways) + 1 because a child's index
      exceeds its parent's by at least the number of ways. */
  lemma ChainStep(g: Geometry, lookup: seq<nat>, tags: seq<Address>, a: Address, walk: seq<ZWalkInfo>, f: nat,
                  idxs: seq<nat>, idx: nat, first: nat)
    requires g.Valid() && |lookup| == |tags| == g.NumLines() && WalkOk(g, lookup, tags, a, walk, f)
    requires PartialChain(walk, idxs, idx, first)
    ensures PartialChain(walk, idxs + [idx], walk[idx].parentIdx, first)
    ensures walk[idx].parentIdx >= 0 ==> walk[idx].parentIdx + g.ways <= idx
  {
    var idxs' := idxs + [idx];
    assert EntryOk(g, lookup, tags, a, walk, idx);
    if walk[idx].parentIdx >= 0 {
      ParentIsFirstOccurrence(g, lookup, tags, a, walk, f, idx);
    }
    forall k | 0 < k < |idxs'|
      ensures ParentLink(walk, idxs', k)
    {
      assert k < |idxs| ==> ParentLink(walk, idxs, k);
    }
  }

  lemma QuotientBound(k: nat, d: nat, m: nat)
    requires d > 0 && k * d <= m
    ensures k <= m / d
  {
    if k > m / d {
      MulStep(m / d, k, d);
    }
  }

  /** Where the line at position p ends up. */
  ghost function Target(path: seq<nat>, p: nat): nat {
    if p !in path then p
    else
      var k :| 0 <= k < |path| && path[k] == p;
      if k == 0 then path[|path| - 1] else path[k - 1]
  }

  ghost function Targets(path: seq<nat>, home: seq<nat>): (home': seq<nat>)
    ensures |home'| == |home| && forall i :: 0 <= i < |home| ==> home'[i] == Target(path, home[i])
  {
    seq(|home|, i requires 0 <= i < |home| => Target(path, home[i]))
  }

  /** A rotation along a path keeps the position table a permutation of the line ids. */
  lemma RotationIsPermutation(n: nat, lookup: seq<nat>, home: seq<nat>, path: seq<nat>, to: seq<nat>)
    requires Inverse(n, lookup, home) && Rotated(lookup, path, to)
    requires forall j, k :: 0 <= j < k < |path| ==> path[j] != path[k]
    ensures Inverse(n, to, Targets(path, home))
  {
    var home' := Targets(path, home);
    forall p | 0 <= p < n
      ensures to[p] < n && home'[to[p]] == p
    {
      if p in path {
        var k :| 0 <= k < |path| && path[k] == p;
        var next := if k == |path| - 1 then path[0] else path[k + 1];
        if k < |path| - 1 {
          assert Moved(lookup, path, to, k + 1);
        }
        assert to[p] == lookup[next] && home[to[p]] == next;
      }
    }
    forall i | 0 <= i < n
      ensures home'[i] < n && to[home'[i]] == i
    {
      if home[i] in path {
        var k :| 0 <= k < |path| && path[k] == home[i];
        if k > 0 {
          assert Moved(lookup, path, to, k);
        }
        assert home'[i] == if k == 0 then path[|path| - 1] else path[k - 1];
      }
    }
  }

  lemma ContentsAt(tags: seq<Address>, i: nat)
    requires DistinctTags(tags) && i < |tags| && tags[i] != 0
    ensures tags[i] in Contents(tags) && Contents(tags)[tags[i]] == i
  {
  }

  lemma RetagDistinct(tags: seq<Address>, victim: nat, a: Address)
    requires DistinctTags(tags) && victim < |tags| && a != 0 && a !in Contents(tags)
    ensures DistinctTags(tags[victim := a])
  {
    assert forall i :: 0 <= i < |tags| && tags[i] != 0 ==> tags[i] in Contents(tags);
  }

  /** Retagging one line replaces its entry of the plain map. */
  lemma RetagMap(tags: seq<Address>, victim: nat, a: Address)
    requires DistinctTags(tags) && victim < |tags| && a != 0 && a !in Contents(tags)
    ensures DistinctTags(tags[victim := a])
    ensures Contents(tags[victim := a]) == (Contents(tags) - {tags[victim]})[a := victim]
  {
    hide DistinctTags;
    RetagDistinct(tags, victim, a);
    var tags' := tags[victim := a];
    var want := (Contents(tags) - {tags[victim]})[a := victim];
    forall x
      ensures x in Contents(tags') <==> x in want
      ensures x in Contents(tags') ==> Contents(tags')[x] == want[x]
    {
      if x in Contents(tags') {
        var i: nat :| i < |tags| && tags'[i] != 0 && tags'[i] == x;
        ContentsAt(tags', i);
        if i != victim {
          ContentsAt(tags, i);
          if tags[victim] != 0 {
            ContentsAt(tags, victim);
          }
        }
      }
      if x in want {
        if x != a {
          ContentsAt(tags, Contents(tags)[x]);
        }
        ContentsAt(tags', want[x]);
      }
    }
  }

  /** A line on the path moves to the position before it, the victim's line to the path's end; both are
      hash positions of the line's new tag. */
  lemma MovedLineIsPlaced(g: Geometry, lookup: seq<nat>, tags: seq<Address>, a: Address, path: seq<nat>, k: nat)
    requires g.Valid() && |lookup| == |tags| == g.NumLines() && PathOk(g, lookup, tags, a, path) && k < |path|
    ensures g.AtHash(Target(path, path[k]), if k == 0 then a else tags[lookup[path[k]]])
  {
    var j :| 0 <= j < |path| && path[j] == path[k]
             && Target(path, path[k]) == if j == 0 then path[|path| - 1] else path[j - 1];
    assert j == k;
    assert k > 0 ==> MoveOk(g, lookup, tags, path, k);
  }

  /** Every valid line still sits at one of its own hash positions. */
  lemma RelocationKeepsPlacement(g: Geometry, lookup: seq<nat>, home: seq<nat>, tags: seq<Address>, a: Address,
                                 path: seq<nat>, i: nat)
    requires g.Valid() && |tags| == g.NumLines() && Inverse(g.NumLines(), lookup, home) && Placed(g, home, tags)
    requires PathOk(g, lookup, tags, a, path)
    requires i < |tags| && tags[lookup[path[0]] := a][i] != 0
    ensures g.AtHash(Targets(path, home)[i], tags[lookup[path[0]] := a][i])
  {
    if home[i] in path {
      var k :| 0 <= k < |path| && path[k] == home[i];
      MovedLineIsPlaced(g, lookup, tags, a, path, k);
      assert lookup[path[k]] == i && (i == lookup[path[0]] <==> k == 0);
    } else {
      assert home[lookup[path[0]]] == path[0];
    }
  }

  /** Relocation refines the plain map: after rotating along a relocation path and retagging the victim,
      the array invariant holds again, the evicted address is gone, the new one maps to the victim's line
      id, and every other address keeps its line id. */
  lemma RelocationRefinesMap(g: Geometry, lookup: seq<nat>, home: seq<nat>, tags: seq<Address>, a: Address,
                             path: seq<nat>, to: seq<nat>)
    requires ArrayOk(g, lookup, home, tags) && PathOk(g, lookup, tags, a, path) && Rotated(lookup, path, to)
    requires a != 0 && a !in Contents(tags)
    ensures
      var victim := lookup[path[0]];
      var tags' := tags[victim := a];
      && ArrayOk(g, to, Targets(path, home), tags')
      && Contents(tags') == (Contents(tags) - {tags[victim]})[a := victim]
  {
    RotationIsPermutation(g.NumLines(), lookup, home, path, to);
    forall i | 0 <= i < |tags| && tags[lookup[path[0]] := a][i] != 0
      ensures g.AtHash(Targets(path, home)[i], tags[lookup[path[0]] := a][i])
    {
      RelocationKeepsPlacement(g, lookup, home, tags, a, path, i);
    }
    RetagMap(tags, lookup[path[0]], a);
  }

  /** A cached address is found at one of its hash positions. */
  lemma CachedIsAtHash(g: Geometry, lookup: seq<nat>, home: seq<nat>, tags: seq<Address>, a: Address)
    requires ArrayOk(g, lookup, home, tags) && a in Contents(tags)
    ensures exists w: nat :: w < g.ways && tags[lookup[g.Pos(w, a)]] == a
  {
    var i := Contents(tags)[a];
    assert g.AtHash(home[i], a);
    var w: nat :| w < g.ways && home[i] == g.Pos(w, a);
    assert tags[lookup[g.Pos(w, a)]] == a;
  }

  // ---------------------------------------------------------------------------------------------
  // The array
  // ---------------------------------------------------------------------------------------------

  class ZArray {
    const g: Geometry
    const lookupArray: array<nat>  // physical position to line id
    const tags: array<Address>     // line id to address, 0 if invalid (`array` in the source)
    const swapArray: array<nat>    // physical positions, filled by Preinsert
    var swapArrayLen: nat
    ghost var home: seq<nat>       // line id to physical position

    ghost predicate Valid()
      reads this, lookupArray, tags, swapArray
    {
      && lookupArray != tags && lookupArray != swapArray && tags != swapArray
      && ArrayOk(g, lookupArray[..], home, tags[..])
      && swapArray.Length == g.cands / g.ways + 2
      && swapArrayLen <= swapArray.Length
    }

    ghost function Map(): map<Address, nat>
      requires Valid()
      reads this, lookupArray, tags, swapArray
    {
      Contents(tags[..])
    }

    /** What Preinsert leaves for Postinsert. */
    ghost predicate Prepared(a: Address, candidate: nat)
      requires Valid()
      reads this, lookupArray, tags, swapArray
    {
      && PathOk(g, lookupArray[..], tags[..], a, swapArray[..swapArrayLen])
      && lookupArray[swapArray[0]] == candidate
    }

    constructor (g: Geometry)
      requires g.Valid()
      ensures Valid() && this.g == g && Map() == map[]
      ensures fresh(lookupArray) && fresh(tags) && fresh(swapArray)
    {
      this.g := g;
      lookupArray := new nat[g.NumLines()](i => i);
      tags := new Address[g.NumLines()](i => 0);
      swapArray := new nat[g.cands / g.ways + 2];
      swapArrayLen := 0;
      home := seq(g.NumLines(), i => i);
    }

    /** Looking up an address is looking it up in the plain map. */
    method Lookup(a: Address) returns (id: int)
      requires Valid() && a != 0
      ensures id == if a in Map() then Map()[a] else -1
    {
      for w := 0 to g.ways
        invariant forall v :: 0 <= v < w ==> tags[lookupArray[g.Pos(v, a)]] != a
      {
        var lineId := lookupArray[g.Pos(w, a)];
        if tags[lineId] == a {
          assert tags[..][lineId] == a;
          return lineId;
        }
      }
      if a in Map() {
        CachedIsAtHash(g, lookupArray[..], home, tags[..], a);
      }
      return -1;
    }

    /** Breadth-first walk: every expansion adds exactly ways - 1 candidates, so the walk ends and fits. */
    method Walk(a: Address) returns (candidates: array<ZWalkInfo>, numCandidates: nat, ghost fringeEnd: nat)
      requires Valid() && a != 0
      ensures fresh(candidates) && g.ways <= numCandidates <= candidates.Length == g.cands + g.ways
      ensures WalkOk(g, lookupArray[..], tags[..], a, candidates[..numCandidates], fringeEnd)
      ensures numCandidates == g.ways + fringeEnd * (g.ways - 1)
      ensures numCandidates >= g.cands || !AllTagged(tags[..], candidates[..numCandidates])
    {
      ghost var lookup, addrs := lookupArray[..], tags[..];
      candidates := new ZWalkInfo[g.cands + g.ways](i => ZWalkInfo(0, 0, -1));
      ghost var walk := [];
      var allValid := true;
      for w := 0 to g.ways
        invariant candidates[..w] == walk
        invariant Seeding(g, lookup, addrs, a, walk)
        invariant allValid <==> AllTagged(addrs, walk)
      {
        var pos := g.Pos(w, a);
        var lineId := lookupArray[pos];
        SeedStep(g, lookup, addrs, a, walk);
        AllTaggedAppend(addrs, walk, ZWalkInfo(pos, lineId, -1));
        walk := walk + [ZWalkInfo(pos, lineId, -1)];
        candidates[w] := ZWalkInfo(pos, lineId, -1);
        allValid := allValid && tags[lineId] != 0;
      }
      var fringeStart := 0;
      numCandidates := g.ways;
      while numCandidates < g.cands && allValid
        invariant numCandidates <= candidates.Length && candidates[..numCandidates] == walk
        invariant fringeStart + g.ways <= numCandidates
        invariant WalkOk(g, lookup, addrs, a, walk, fringeStart)
        invariant numCandidates == g.ways + fringeStart * (g.ways - 1)
        invariant allValid <==> AllTagged(addrs, walk)
        decreases g.cands - numCandidates
      {
        numCandidates, allValid, walk := ExpandFringe(a, candidates, numCandidates, fringeStart, walk);
        AddMultiple(fringeStart, g.ways - 1);
        fringeStart := fringeStart + 1;
      }
      fringeEnd := fringeStart;
    }

    /** One iteration of the walk's outer loop: visit every way of the fringe entry's line. */
    method ExpandFringe(a: Address, candidates: array<ZWalkInfo>, num: nat, f: nat, ghost before: seq<ZWalkInfo>)
      returns (numCandidates: nat, allValid: bool, ghost walk: seq<ZWalkInfo>)
      requires Valid() && a != 0
      requires candidates.Length == g.cands + g.ways && g.ways <= num < g.cands && f + g.ways <= num
      requires candidates[..num] == before
      requires WalkOk(g, lookupArray[..], tags[..], a, before, f) && AllTagged(tags[..], before)
      modifies candidates
      ensures numCandidates == num + g.ways - 1
      ensures candidates[..numCandidates] == walk
      ensures WalkOk(g, lookupArray[..], tags[..], a, walk, f + 1)
      ensures allValid <==> AllTagged(tags[..], walk)
    {
      ghost var lookup, addrs := lookupArray[..], tags[..];
      var fringeId := candidates[f].lineId;
      assert fringeId == before[f].lineId < |addrs|;
      var fringeAddr := tags[fringeId];
      ghost var own := OwnWay(g, lookup, home, addrs, fringeId);
      numCandidates, allValid, walk := num, true, before;
      for w := 0 to g.ways
        invariant numCandidates == num + w - (if own < w then 1 else 0)
        invariant candidates[..numCandidates] == walk
        invariant Expanding(g, lookup, addrs, a, walk, f, w) && walk[f].lineId == fringeId
        invariant allValid <==> AllTagged(addrs, walk)
      {
        var pos := g.Pos(w, fringeAddr);
        var lineId := lookupArray[pos];
        ghost var walk' := ExpandWay(g, lookup, addrs, a, walk, f, w);
        if lineId != fringeId {
          candidates[numCandidates] := ZWalkInfo(pos, lineId, f);
          numCandidates := numCandidates + 1;
          allValid := allValid && tags[lineId] != 0;
        }
        walk := walk';
      }
    }

    /** The replacement policy: it may choose any of the candidate lines. */
    method RankCands(ids: seq<nat>) returns (best: nat)
      requires ids != []
      ensures best in ids
    {
      assert ids[0] in ids;
      best :| best in ids;
    }

    /** The smallest index of the candidates that holds the chosen line. */
    method FirstIndex(candidates: array<ZWalkInfo>, numCandidates: nat, best: nat) returns (minIdx: nat)
      requires numCandidates <= candidates.Length
      requires exists i :: 0 <= i < numCandidates && candidates[i].lineId == best
      ensures minIdx < numCandidates && candidates[minIdx].lineId == best
      ensures FirstOccurrence(candidates[..numCandidates], minIdx)
    {
      minIdx := 0;
      while candidates[minIdx].lineId != best
        invariant minIdx < numCandidates
        invariant forall j :: 0 <= j <= minIdx && candidates[j].lineId == best ==> j == minIdx
        invariant exists i :: minIdx <= i < numCandidates && candidates[i].lineId == best
        decreases numCandidates - minIdx
      {
        minIdx := minIdx + 1;
      }
    }

    /** Stores the positions from the chosen candidate back to its seed; they always fit. */
    method FillSwapArray(a: Address, candidates: array<ZWalkInfo>, ghost walk: seq<ZWalkInfo>, ghost f: nat,
                         minIdx: nat)
      requires Valid() && |walk| <= candidates.Length && candidates[..|walk|] == walk
      requires WalkOk(g, lookupArray[..], tags[..], a, walk, f)
      requires minIdx < g.cands && FirstOccurrence(walk, minIdx)
      modifies this`swapArrayLen, swapArray
      ensures Valid() && Prepared(a, walk[minIdx].lineId)
    {
      ghost var lookup, addrs := lookupArray[..], tags[..];
      ghost var idxs: seq<nat> := [];
      var idx: int := minIdx;
      var swapIdx := 0;
      while idx >= 0
        invariant PartialChain(walk, idxs, idx, minIdx)
        invariant swapIdx == |idxs| <= swapArray.Length && swapArray[..swapIdx] == Positions(walk, idxs)
        invariant swapIdx * g.ways + idx <= minIdx + (if idx < 0 then g.ways - 1 else 0)
        decreases idx
      {
        QuotientBound(swapIdx, g.ways, g.cands);
        AddMultiple(swapIdx, g.ways);
        ChainStep(g, lookup, addrs, a, walk, f, idxs, idx, minIdx);
        swapArray[swapIdx] := candidates[idx].pos;
        idxs := idxs + [idx as nat];
        swapIdx := swapIdx + 1;
        idx := candidates[idx].parentIdx;
      }
      swapArrayLen := swapIdx;
      ChainIsPath(g, lookup, addrs, a, walk, idxs);
      assert EntryOk(g, lookup, addrs, a, walk, minIdx);
    }

    /** Chooses a victim and prepares the relocation path; the cached contents do not change. */
    method Preinsert(a: Address) returns (best: nat, wbLineAddr: Address)
      requires Valid() && a != 0
      modifies this`swapArrayLen, swapArray
      ensures Valid() && Prepared(a, best) && wbLineAddr == tags[best]
    {
      hide WalkOk, FirstOccurrence, Prepared, AllTagged;
      var candidates, numCandidates, f := Walk(a);
      ghost var walk := candidates[..numCandidates];
      numCandidates := if numCandidates > g.cands then g.cands else numCandidates;
      var ids := seq(numCandidates, i requires 0 <= i < numCandidates reads candidates => candidates[i].lineId);
      best := RankCands(ids);
      var minIdx := FirstIndex(candidates, numCandidates, best);
      assert candidates[..numCandidates] == walk[..numCandidates];
      FirstInWalk(lookupArray[..], home, tags[..], a, walk, f, numCandidates, minIdx);
      FillSwapArray(a, candidates, walk, f, minIdx);
      wbLineAddr := tags[best];
    }

    /** The minimum index among the candidates is the minimum index in the walk. */
    lemma FirstInWalk(lookup: seq<nat>, home: seq<nat>, addrs: seq<Address>, a: Address, walk: seq<ZWalkInfo>, f: nat,
                      numCandidates: nat, minIdx: nat)
      requires ArrayOk(g, lookup, home, addrs) && |lookup| == |addrs| == g.NumLines()
      requires WalkOk(g, lookup, addrs, a, walk, f)
      requires numCandidates <= |walk| && FirstOccurrence(walk[..numCandidates], minIdx)
      ensures FirstOccurrence(walk, minIdx) && walk[minIdx].lineId < |addrs|
    {
      assert EntryOk(g, lookup, addrs, a, walk, minIdx);
    }

    /** The swaps in lookupArray: a rotation along the stored path. */
    method Relocate(candidate: nat)
      requires lookupArray != swapArray && 0 < swapArrayLen <= swapArray.Length
      requires forall k :: 0 <= k < swapArrayLen ==> swapArray[k] < lookupArray.Length
      requires forall j, k :: 0 <= j < k < swapArrayLen ==> swapArray[j] != swapArray[k]
      requires lookupArray[swapArray[0]] == candidate
      modifies lookupArray
      ensures Rotated(old(lookupArray[..]), swapArray[..swapArrayLen], lookupArray[..])
    {
      ghost var lookup, path := lookupArray[..], swapArray[..swapArrayLen];
      for i := 0 to swapArrayLen - 1
        invariant PartlyRotated(lookup, path, lookupArray[..], i)
      {
        RotateStep(lookup, path, lookupArray[..], i);
        ghost var next := lookupArray[..][path[i] := lookupArray[..][path[i + 1]]];
        lookupArray[swapArray[i]] := lookupArray[swapArray[i + 1]];
        assert lookupArray[..] == next;
      }
      RotateEnd(lookup, path, lookupArray[..]);
      ghost var next := lookupArray[..][path[|path| - 1] := lookup[path[0]]];
      lookupArray[swapArray[swapArrayLen - 1]] := candidate;
      assert lookupArray[..] == next;
    }

    /** Moves the lines along the prepared path and installs the new address in the victim's line. */
    method Postinsert(a: Address, candidate: nat)
      requires Valid() && a != 0 && a !in Map() && Prepared(a, candidate)
      modifies lookupArray, tags, this`home
      ensures Valid() && candidate < tags.Length
      ensures Map() == (old(Map()) - {old(tags[candidate])})[a := candidate]
      ensures Rotated(old(lookupArray[..]), swapArray[..swapArrayLen], lookupArray[..])
      ensures tags[..] == old(tags[..])[candidate := a]
    {
      ghost var lookup, addrs, path := lookupArray[..], tags[..], swapArray[..swapArrayLen];
      Relocate(candidate);
      RelocationRefinesMap(g, lookup, home, addrs, a, path, lookupArray[..]);
      home := Targets(path, home);
      tags[candidate] := a;
      assert tags[..] == addrs[candidate := a];
    }

    /** The array's part of a cache access: look the address up, and on a miss replace a line. */
    method Access(a: Address) returns (id: nat, ghost evicted: Address)
      requires Valid() && a != 0
      modifies lookupArray, tags, swapArray, this`home, this`swapArrayLen
      ensures Valid() && a in Map() && Map()[a] == id
      ensures a in old(Map()) ==> Map() == old(Map())
      ensures a !in old(Map()) ==> id < tags.Length && evicted == old(tags[id])
                                   && Map() == (old(Map()) - {evicted})[a := id]
    {
      evicted := 0;
      var found := Lookup(a);
      if found >= 0 {
        id := found;
      } else {
        var wbLineAddr;
        id, wbLineAddr := Preinsert(a);
        evicted := wbLineAddr;
        Postinsert(a, id);
      }
    }
  }
}
