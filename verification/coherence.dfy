/** The MESI controllers of coherence_ctrls.h/.cpp, for one line cached by a tree of inclusive caches.
    Caches are numbered so that a parent precedes its children; cache 0 is the root, and memory is above it. */
module Coherence {
  datatype MESI = I | S | E | M

  datatype AccessType = GETS | GETX | PUTS | PUTX

  datatype InvType = INV | INVX

  /** A directory entry: which children hold the line. */
  datatype Entry = Entry(numSharers: nat, sharers: set<nat>, exclusive: bool) {
    predicate IsEmpty() {
      numSharers == 0
    }

    predicate IsExclusive() {
      numSharers == 1 && exclusive
    }

    function Cleared(): Entry {
      this.(numSharers := 0, sharers := {})
    }
  }

  /** A request a cache has issued to its parent and that is not answered yet. */
  datatype Request = NoRequest | Request(kind: AccessType, initialState: MESI, noExcl: bool)

  /** Why a cache is waiting: for its core's access, to evict the line, or to serve one of its children. */
  datatype Work = Idle | Core | Evicting | Serving(child: nat)

  /** One cache's view of the line. `cached` says that the tag is in the array. `latest` says that this copy
      holds the most recent store; the simulator moves no data, so this field only observes the protocol. */
  datatype Node = Node(state: MESI, cached: bool, dir: Entry, request: Request, work: Work, latest: bool)

  ghost predicate Tree(t: seq<nat>) {
    |t| > 0 && forall i :: 0 < i < |t| ==> t[i] < i
  }

  /** Cache m is in K or below a member of K. */
  ghost predicate Under(t: seq<nat>, K: set<nat>, m: nat)
    requires Tree(t) && m < |t|
  {
    m in K || (m > 0 && Under(t, K, t[m]))
  }

  ghost predicate Owned(s: MESI) {
    s == E || s == M
  }

  // ---------------------------------------------------------------------------------------------
  // Local invariants
  // ---------------------------------------------------------------------------------------------

  /** What p's directory entry says is right: the sharers are children with valid copies, at most one of
      them if the exclusive bit is set, which then owns the line; otherwise they only share it. */
  ghost predicate EntryOk(t: seq<nat>, nodes: seq<Node>, p: nat)
    requires Tree(t) && |nodes| == |t| && p < |t|
  {
    var d := nodes[p].dir;
    && d.numSharers == |d.sharers|
    && (d.exclusive ==> d.numSharers <= 1)
    && forall c :: c in d.sharers ==>
                     && p < c < |t| && t[c] == p
                     && nodes[c].state != I && nodes[c].cached
                     && (if d.exclusive then Owned(nodes[c].state) else nodes[c].state == S)
  }

  /** The local invariant of cache p and its children: the directory entry is right and complete, inclusion
      holds, and the copy is the latest unless an owner below p may have newer data. A clean owner that is
      up to date got its data from p, so p is up to date too. */
  ghost predicate NodeOk(t: seq<nat>, nodes: seq<Node>, p: nat)
    requires Tree(t) && |nodes| == |t| && p < |t|
  {
    var x := nodes[p];
    && EntryOk(t, nodes, p)
    && (forall c :: p < c < |t| && t[c] == p && nodes[c].state != I ==> c in x.dir.sharers)
    && (x.state != I ==> x.cached)
    && (x.dir.sharers != {} ==> x.state != I && (x.dir.exclusive ==> Owned(x.state)))
    && (x.state != I && !x.dir.IsExclusive() ==> x.latest)
    && (forall c :: c in x.dir.sharers && nodes[c].state == E && nodes[c].latest ==> x.latest)
  }

  ghost predicate SubtreesOk(t: seq<nat>, nodes: seq<Node>, K: set<nat>)
    requires Tree(t) && |nodes| == |t|
  {
    forall m :: 0 <= m < |t| && Under(t, K, m) ==> NodeOk(t, nodes, m)
  }

  // ---------------------------------------------------------------------------------------------
  // Invalidation waves
  // ---------------------------------------------------------------------------------------------

  /** The effect of an invalidation on one cache: INV drops the copy, INVX takes away ownership (and dirty
      data passing through leaves the copy up to date). */
  ghost function Hit(x: Node, kind: InvType): Node {
    match kind
    case INV => x.(state := I, dir := x.dir.Cleared())
    case INVX =>
      if Owned(x.state) then
        x.(state := S, latest := true, dir := if x.dir.IsExclusive() then x.dir.(exclusive := false) else x.dir)
      else x
  }

  ghost function Wave(t: seq<nat>, nodes: seq<Node>, K: set<nat>, kind: InvType): (nodes': seq<Node>)
    requires Tree(t) && |nodes| == |t|
    ensures |nodes'| == |nodes|
    ensures forall m :: 0 <= m < |t| ==> nodes'[m] == if Under(t, K, m) then Hit(nodes[m], kind) else nodes[m]
  {
    seq(|t|, m requires 0 <= m < |t| => if Under(t, K, m) then Hit(nodes[m], kind) else nodes[m])
  }

  /** Some copy in or below K is modified. */
  ghost predicate Dirty(t: seq<nat>, nodes: seq<Node>, K: set<nat>)
    requires Tree(t) && |nodes| == |t|
  {
    exists m :: 0 <= m < |t| && Under(t, K, m) && nodes[m].state == M
  }

  /** What p's top controller leaves behind after sending invalidations to its sharers. */
  ghost function Sent(t: seq<nat>, nodes: seq<Node>, p: nat, kind: InvType): (nodes': seq<Node>)
    requires Tree(t) && |nodes| == |t| && p < |t|
    ensures |nodes'| == |nodes|
  {
    var x := nodes[p];
    if kind == INVX && !x.dir.IsExclusive() then nodes
    else Wave(t, nodes, x.dir.sharers, kind)[p := x.(dir := if kind == INV then x.dir.Cleared()
         else x.dir.(exclusive := false))]
  }

  /** Whether an invalidation sent by p finds a modified copy. */
  ghost predicate Induces(t: seq<nat>, nodes: seq<Node>, p: nat, kind: InvType)
    requires Tree(t) && |nodes| == |t| && p < |t|
  {
    (kind == INVX ==> nodes[p].dir.IsExclusive()) && Dirty(t, nodes, nodes[p].dir.sharers)
  }

  lemma UnderIsBelow(t: seq<nat>, K: set<nat>, p: nat, m: nat)
    requires Tree(t) && m < |t| && Under(t, K, m) && forall k :: k in K ==> k > p
    ensures m > p
  {
    if m !in K {
      UnderIsBelow(t, K, p, t[m]);
    }
  }

  lemma UnderUnion(t: seq<nat>, A: set<nat>, B: set<nat>, m: nat)
    requires Tree(t) && m < |t|
    ensures Under(t, A + B, m) <==> Under(t, A, m) || Under(t, B, m)
  {
    if m > 0 {
      UnderUnion(t, A, B, t[m]);
    }
  }

  /** The subtrees of two siblings are disjoint. */
  lemma SiblingsDisjoint(t: seq<nat>, K: set<nat>, c: nat, p: nat, m: nat)
    requires Tree(t) && m < |t| && Under(t, K, m) && Under(t, {c}, m)
    requires p < c < |t| && t[c] == p && forall k :: k in K ==> p < k < |t| && t[k] == p
    ensures c in K
  {
    if m == c {
      if c !in K {
        UnderIsBelow(t, K, p, p);
      }
    } else if m in K {
      UnderIsBelow(t, {c}, p, p);
    } else {
      SiblingsDisjoint(t, K, c, p, t[m]);
    }
  }

  /** Where there is nothing to take away, an invalidation changes nothing and finds nothing dirty. */
  lemma QuietSubtree(t: seq<nat>, nodes: seq<Node>, K: set<nat>, kind: InvType, m: nat)
    requires Tree(t) && |nodes| == |t| && m < |t| && Under(t, K, m) && SubtreesOk(t, nodes, K)
    requires forall k :: k in K && k < |t| ==> if kind == INV then nodes[k].state == I else !Owned(nodes[k].state)
    ensures Hit(nodes[m], kind) == nodes[m] && nodes[m].state != M
    ensures if kind == INV then nodes[m].state == I else !Owned(nodes[m].state)
  {
    assert NodeOk(t, nodes, m);
    if m !in K {
      QuietSubtree(t, nodes, K, kind, t[m]);
      assert NodeOk(t, nodes, t[m]);
    }
  }

  lemma UnderTransitive(t: seq<nat>, A: set<nat>, B: set<nat>, m: nat)
    requires Tree(t) && m < |t| && Under(t, A, m)
    requires forall a :: a in A && a <= m ==> Under(t, B, a)
    ensures Under(t, B, m)
  {
    if m !in A {
      UnderTransitive(t, A, B, t[m]);
    }
  }

  /** The child of c on the way down to m. */
  ghost function Branch(t: seq<nat>, c: nat, m: nat): (k: nat)
    requires Tree(t) && m < |t| && Under(t, {c}, m) && m != c
    ensures c < k < |t| && t[k] == c && Under(t, {k}, m)
  {
    if t[m] == c then m else Branch(t, c, t[m])
  }

  /** Whether a subtree's invariant holds depends on that subtree only. */
  lemma SubtreeFrame(t: seq<nat>, a: seq<Node>, b: seq<Node>, c: nat)
    requires Tree(t) && |a| == |b| == |t| && SubtreesOk(t, a, {c})
    requires forall m :: 0 <= m < |t| && Under(t, {c}, m) ==> a[m] == b[m]
    ensures SubtreesOk(t, b, {c})
  {
    forall m | 0 <= m < |t| && Under(t, {c}, m)
      ensures NodeOk(t, b, m)
    {
      assert NodeOk(t, a, m);
      assert forall k :: m < k < |t| && t[k] == m ==> Under(t, {c}, k);
    }
  }

  /** Without a modified copy below it, a valid copy is the latest. */
  lemma CleanCopyIsLatest(t: seq<nat>, nodes: seq<Node>, c: nat)
    requires Tree(t) && |nodes| == |t| && c < |t| && SubtreesOk(t, nodes, {c})
    requires nodes[c].state != I && !Dirty(t, nodes, nodes[c].dir.sharers)
    ensures nodes[c].latest
    decreases |t| - c
  {
    assert Under(t, {c}, c) && NodeOk(t, nodes, c);
    if nodes[c].dir.IsExclusive() {
      var d :| d in nodes[c].dir.sharers;
      forall m | 0 <= m < |t| && Under(t, {d}, m)
        ensures Under(t, {c}, m) && Under(t, nodes[c].dir.sharers, m)
      {
        UnderTransitive(t, {d}, {c}, m);
        UnderTransitive(t, {d}, nodes[c].dir.sharers, m);
      }
      assert Under(t, nodes[c].dir.sharers, d);
      assert NodeOk(t, nodes, d);
      forall m | 0 <= m < |t| && Under(t, nodes[d].dir.sharers, m)
        ensures nodes[m].state != M
      {
        UnderTransitive(t, nodes[d].dir.sharers, {d}, m);
      }
      CleanCopyIsLatest(t, nodes, d);
    }
  }

  /** A cache below c is below one of the invalidated sharers, or the invalidation finds nothing in it. */
  lemma BelowIsSentOrQuiet(t: seq<nat>, nodes: seq<Node>, c: nat, kind: InvType, m: nat)
    requires Tree(t) && |nodes| == |t| && c < |t| && SubtreesOk(t, nodes, {c})
    requires m < |t| && m != c && Under(t, {c}, m)
    ensures
      || (Under(t, nodes[c].dir.sharers, m) && (kind == INVX ==> nodes[c].dir.IsExclusive()))
      || (Hit(nodes[m], kind) == nodes[m] && nodes[m].state != M)
  {
    var K := nodes[c].dir.sharers;
    assert Under(t, {c}, c) && NodeOk(t, nodes, c);
    var k := Branch(t, c, m);
    forall j | 0 <= j < |t| && Under(t, {k}, j)
      ensures Under(t, {c}, j)
    {
      UnderTransitive(t, {k}, {c}, j);
    }
    if k in K {
      UnderTransitive(t, {k}, K, m);
    }
    if k !in K || (kind == INVX && !nodes[c].dir.IsExclusive()) {
      QuietSubtree(t, nodes, {k}, kind, m);
    }
  }

  /** Invalidating the sharers of c and then c itself hits exactly the subtree of c. */
  lemma InvalidateHitsSubtree(t: seq<nat>, nodes: seq<Node>, c: nat, kind: InvType, m: nat)
    requires Tree(t) && |nodes| == |t| && c < |t| && SubtreesOk(t, nodes, {c})
    requires m < |t| && m != c
    ensures Sent(t, nodes, c, kind)[m] == Wave(t, nodes, {c}, kind)[m]
    ensures Under(t, {c}, m) && nodes[m].state == M ==>
              Under(t, nodes[c].dir.sharers, m) && (kind == INVX ==> nodes[c].dir.IsExclusive())
  {
    if Under(t, nodes[c].dir.sharers, m) {
      assert Under(t, {c}, c) && NodeOk(t, nodes, c);
      UnderTransitive(t, nodes[c].dir.sharers, {c}, m);
    }
    if Under(t, {c}, m) {
      BelowIsSentOrQuiet(t, nodes, c, kind, m);
    }
  }

  /** Cache::invalidate on c is a wave over the subtree of c, and the write-back flag it raises says exactly
      whether the subtree held a modified copy. */
  lemma InvalidateIsWave(t: seq<nat>, nodes: seq<Node>, c: nat, kind: InvType)
    requires Tree(t) && |nodes| == |t| && c < |t| && SubtreesOk(t, nodes, {c})
    ensures Sent(t, nodes, c, kind)[c := Hit(nodes[c], kind)] == Wave(t, nodes, {c}, kind)
    ensures Dirty(t, nodes, {c}) <==>
            nodes[c].state == M || ((kind == INVX ==> nodes[c].dir.IsExclusive())
                                    && Dirty(t, nodes, nodes[c].dir.sharers))
  {
    var K := nodes[c].dir.sharers;
    assert Under(t, {c}, c) && NodeOk(t, nodes, c);
    forall m | 0 <= m < |t|
      ensures m != c ==> Sent(t, nodes, c, kind)[m] == Wave(t, nodes, {c}, kind)[m]
      ensures m != c && Under(t, {c}, m) && nodes[m].state == M ==>
                Under(t, K, m) && (kind == INVX ==> nodes[c].dir.IsExclusive())
      ensures Under(t, K, m) ==> Under(t, {c}, m)
    {
      if m != c {
        InvalidateHitsSubtree(t, nodes, c, kind, m);
      }
      if Under(t, K, m) {
        UnderTransitive(t, K, {c}, m);
      }
    }
  }

  // ---------------------------------------------------------------------------------------------
  // The loop of sendInvalidates
  // ---------------------------------------------------------------------------------------------

  ghost function Before(K: set<nat>, c: nat): set<nat> {
    set k | k in K && k < c
  }

  /** The state while p's sharers are being invalidated: those before c have been. */
  ghost function Sending(t: seq<nat>, nodes: seq<Node>, p: nat, kind: InvType, c: nat): (nodes': seq<Node>)
    requires Tree(t) && |nodes| == |t| && p < |t|
    ensures |nodes'| == |nodes|
  {
    var x := nodes[p];
    var done := Before(x.dir.sharers, c);
    Wave(t, nodes, done, kind)[p := if kind == INV then x.(dir := x.dir.(sharers := x.dir.sharers - done)) else x]
  }

  ghost predicate SendReady(t: seq<nat>, nodes: seq<Node>, p: nat)
    requires Tree(t) && |nodes| == |t| && p < |t|
  {
    EntryOk(t, nodes, p) && SubtreesOk(t, nodes, nodes[p].dir.sharers)
  }

  /** The subtree of the next sharer is untouched so far. */
  lemma NextSharerUntouched(t: seq<nat>, nodes: seq<Node>, p: nat, kind: InvType, c: nat)
    requires Tree(t) && |nodes| == |t| && p < |t| && SendReady(t, nodes, p) && c in nodes[p].dir.sharers
    ensures forall m :: 0 <= m < |t| && Under(t, {c}, m) ==> Sending(t, nodes, p, kind, c)[m] == nodes[m]
    ensures SubtreesOk(t, Sending(t, nodes, p, kind, c), {c})
    ensures Dirty(t, Sending(t, nodes, p, kind, c), {c}) <==> Dirty(t, nodes, {c})
  {
    var K := nodes[p].dir.sharers;
    forall m | 0 <= m < |t| && Under(t, {c}, m)
      ensures Sending(t, nodes, p, kind, c)[m] == nodes[m] && NodeOk(t, nodes, m)
    {
      UnderIsBelow(t, {c}, p, m);
      if Under(t, Before(K, c), m) {
        SiblingsDisjoint(t, Before(K, c), c, p, m);
      }
      UnderTransitive(t, {c}, K, m);
    }
    SubtreeFrame(t, nodes, Sending(t, nodes, p, kind, c), c);
  }

  /** Invalidating the next sharer, and dropping it from the entry on an INV, is one step of the loop. */
  lemma SendStep(t: seq<nat>, nodes: seq<Node>, p: nat, kind: InvType, c: nat)
    requires Tree(t) && |nodes| == |t| && p < |t| && SendReady(t, nodes, p) && c in nodes[p].dir.sharers
    ensures
      var w := Wave(t, Sending(t, nodes, p, kind, c), {c}, kind);
      Sending(t, nodes, p, kind, c + 1) ==
      if kind == INV then w[p := w[p].(dir := w[p].dir.(sharers := w[p].dir.sharers - {c}))] else w
  {
    var K := nodes[p].dir.sharers;
    assert Before(K, c + 1) == Before(K, c) + {c};
    assert K - Before(K, c + 1) == K - Before(K, c) - {c};
    var w := Wave(t, Sending(t, nodes, p, kind, c), {c}, kind);
    forall m | 0 <= m < |t|
      ensures m != p ==> w[m] == Sending(t, nodes, p, kind, c + 1)[m]
      ensures !Under(t, {c}, p)
    {
      UnderUnion(t, Before(K, c), {c}, m);
      if Under(t, {c}, p) {
        UnderIsBelow(t, {c}, p, p);
      }
      NextSharerUntouched(t, nodes, p, kind, c);
    }
  }

  lemma DirtyStep(t: seq<nat>, nodes: seq<Node>, K: set<nat>, c: nat)
    requires Tree(t) && |nodes| == |t| && c in K
    ensures Dirty(t, nodes, Before(K, c + 1)) <==> Dirty(t, nodes, Before(K, c)) || Dirty(t, nodes, {c})
  {
    assert Before(K, c + 1) == Before(K, c) + {c};
    forall m | 0 <= m < |t|
      ensures Under(t, Before(K, c + 1), m) <==> Under(t, Before(K, c), m) || Under(t, {c}, m)
    {
      UnderUnion(t, Before(K, c), {c}, m);
    }
  }

  lemma BeforeSkips(K: set<nat>, c: nat)
    ensures c !in K ==> Before(K, c + 1) == Before(K, c)
    ensures c in K ==> |Before(K, c + 1)| == |Before(K, c)| + 1
  {
    if c in K {
      assert Before(K, c + 1) == Before(K, c) + {c};
    } else {
      assert Before(K, c + 1) == Before(K, c);
    }
  }

  /** Before the first child nothing has happened; after the last one every sharer has been invalidated. */
  lemma SendEnds(t: seq<nat>, nodes: seq<Node>, p: nat, kind: InvType)
    requires Tree(t) && |nodes| == |t| && p < |t| && EntryOk(t, nodes, p)
    ensures Before(nodes[p].dir.sharers, p + 1) == {} && Before(nodes[p].dir.sharers, |t|) == nodes[p].dir.sharers
    ensures Sending(t, nodes, p, kind, p + 1) == nodes && !Dirty(t, nodes, {})
  {
    assert Before(nodes[p].dir.sharers, p + 1) == {};
    forall m | 0 <= m < |t|
      ensures !Under(t, {}, m)
    {
      if Under(t, {}, m) {
        UnderIsBelow(t, {}, |t|, m);
      }
    }
    assert nodes[p].dir.sharers - {} == nodes[p].dir.sharers;
  }

  /** Once every sharer has been invalidated, fixing p's own entry gives the announced result. */
  lemma SendFinish(t: seq<nat>, nodes: seq<Node>, p: nat, kind: InvType)
    requires Tree(t) && |nodes| == |t| && p < |t| && EntryOk(t, nodes, p)
    requires kind == INVX ==> nodes[p].dir.IsExclusive()
    ensures
      var x := Sending(t, nodes, p, kind, |t|)[p];
      Sent(t, nodes, p, kind) ==
      Sending(t, nodes, p, kind, |t|)[p := x.(dir := if kind == INV then x.dir.(numSharers := 0)
      else x.dir.(exclusive := false))]
    ensures kind == INV && nodes[p].dir.IsEmpty() ==> Sent(t, nodes, p, kind) == nodes
  {
    SendEnds(t, nodes, p, kind);
    var K := nodes[p].dir.sharers;
    assert K - K == {};
    if nodes[p].dir.IsEmpty() {
      assert K == {};
      assert Wave(t, nodes, {}, kind) == nodes by {
        forall m | 0 <= m < |t|
          ensures !Under(t, {}, m)
        {
          if Under(t, {}, m) {
            UnderIsBelow(t, {}, |t|, m);
          }
        }
      }
    }
  }

  /** A valid cache in a consistent subtree can be invalidated; on a downgrade it ends up with the latest data. */
  lemma InvalidateReady(t: seq<nat>, nodes: seq<Node>, c: nat, kind: InvType)
    requires Tree(t) && |nodes| == |t| && c < |t| && SubtreesOk(t, nodes, {c}) && nodes[c].state != I
    ensures SendReady(t, nodes, c)
    ensures nodes[c].latest || (nodes[c].dir.IsExclusive() && Dirty(t, nodes, nodes[c].dir.sharers))
    ensures Sent(t, nodes, c, kind)[c] == nodes[c].(dir := Hit(nodes[c].(state := M), kind).dir)
  {
    var K := nodes[c].dir.sharers;
    assert Under(t, {c}, c) && NodeOk(t, nodes, c);
    forall m | 0 <= m < |t| && Under(t, K, m)
      ensures NodeOk(t, nodes, m)
    {
      UnderTransitive(t, K, {c}, m);
    }
    if !Dirty(t, nodes, K) {
      CleanCopyIsLatest(t, nodes, c);
    }
  }

  // ---------------------------------------------------------------------------------------------
  // Pending requests
  // ---------------------------------------------------------------------------------------------

  predicate IsGet(k: AccessType) {
    k == GETS || k == GETX
  }

  datatype Race = Proceed(kind: AccessType) | Skip | Panic

  /** CheckForMESIRace; Panic stands for its panic and its failing asserts. */
  function CheckForMESIRace(kind: AccessType, state: MESI, initialState: MESI): Race {
    if state == initialState then Proceed(kind)
    else if kind == PUTS || kind == PUTX then
      if state == I then Skip
      else if state != S then Panic
      else Proceed(PUTS)
    else if kind == GETX then
      if initialState == S && state == I then Proceed(GETX) else Panic
    else Panic
  }

  ghost predicate Leaf(t: seq<nat>, n: nat) {
    forall c :: 0 < c < |t| ==> t[c] != n
  }

  /** How invalidations may have changed a cache's state since it issued a request. */
  ghost predicate RaceOk(k: AccessType, initialState: MESI, state: MESI) {
    match k
    case GETS => initialState == I && state == I
    case GETX => (initialState == I || initialState == S) && (state == initialState || state == I)
    case PUTS =>
      && (initialState == S || initialState == E)
      && (state == initialState || state == I || (initialState == E && state == S))
    case PUTX => initialState == M && state != E
  }

  /** What the parent's answer to a request leaves as the child's state. */
  ghost predicate AnsweredOk(k: AccessType, state: MESI) {
    match k
    case GETS => state == S || state == E
    case GETX => state == M
    case PUTS => state == I
    case PUTX => state == I
  }

  ghost predicate WorkOk(t: seq<nat>, nodes: seq<Node>, n: nat)
    requires |nodes| == |t| && n < |t| && nodes[n].request.Request?
  {
    var r := nodes[n].request;
    match nodes[n].work
    case Idle => false
    case Core => IsGet(r.kind) && Leaf(t, n)
    case Evicting => !IsGet(r.kind) && nodes[n].dir.sharers == {}
    case Serving(d) =>
      && IsGet(r.kind) && n < d < |t| && t[d] == n
      && nodes[d].request.Request? && nodes[d].request.kind == r.kind && nodes[d].request.noExcl == r.noExcl
  }

  ghost predicate WaitOk(t: seq<nat>, nodes: seq<Node>, n: nat, g: nat)
    requires |nodes| == |t| && n < |t|
  {
    var x := nodes[n];
    if x.request.NoRequest? then x.work == Idle && n != g
    else
      && n > 0 && x.cached && WorkOk(t, nodes, n)
      && if n == g then AnsweredOk(x.request.kind, x.state) else RaceOk(x.request.kind, x.request.initialState, x.state)
  }

  /** The global invariant; g is the cache whose request has just been answered, or |t| if there is none. */
  ghost predicate Inv(t: seq<nat>, nodes: seq<Node>, mem: bool, g: nat) {
    && Tree(t) && |nodes| == |t| && g <= |t|
    && (forall p :: 0 <= p < |t| ==> NodeOk(t, nodes, p))
    && (forall n :: 0 <= n < |t| ==> WaitOk(t, nodes, n, g))
    && (g < |t| ==> g > 0 && nodes[t[g]].work == Idle)
    && (nodes[0].state == I || (nodes[0].state != M && nodes[0].latest) ==> mem)
  }

  /** The protocol cannot get stuck: as long as any cache has a request, the parent of one of them is idle and may
      take it. */
  lemma {:induction false} SomeRequestMayGoOn(t: seq<nat>, nodes: seq<Node>, mem: bool, n: nat) returns (c: nat)
    requires Inv(t, nodes, mem, |t|) && n < |t| && nodes[n].request.Request?
    ensures 0 < c < |t| && nodes[c].request.Request? && nodes[t[c]].work == Idle
  {
    assert WaitOk(t, nodes, n, |t|) && WaitOk(t, nodes, t[n], |t|);
    c := n;
    if nodes[t[n]].work != Idle {
      c := SomeRequestMayGoOn(t, nodes, mem, t[n]);
    }
  }

  ghost function Depth(t: seq<nat>, n: nat): nat
    requires Tree(t) && n < |t|
  {
    if n == 0 then 0 else 1 + Depth(t, t[n])
  }

  /** n has a request that its parent has not taken. */
  ghost predicate Untaken(t: seq<nat>, nodes: seq<Node>, n: nat)
    requires Tree(t) && |nodes| == |t| && n < |t|
  {
    n > 0 && nodes[n].request.Request? && nodes[t[n]].work != Serving(n)
  }

  /** How many levels the untaken requests of the first k caches may still have to go up, all together. */
  ghost function ToGo(t: seq<nat>, nodes: seq<Node>, k: nat): nat
    requires Tree(t) && |nodes| == |t| && k <= |t|
  {
    if k == 0 then 0 else ToGo(t, nodes, k - 1) + if Untaken(t, nodes, k - 1) then Depth(t, k - 1) else 0
  }

  lemma {:induction false} ToGoChanges(t: seq<nat>, a: seq<Node>, b: seq<Node>, c: nat, p: nat, k: nat)
    requires Tree(t) && |a| == |b| == |t| && c < |t| && c != p && k <= |t|
    requires Untaken(t, a, c) && !Untaken(t, b, c)
    requires forall n :: 0 <= n < |t| && n != p ==> Untaken(t, b, n) ==> Untaken(t, a, n)
    ensures ToGo(t, b, k) + (if c < k then Depth(t, c) else 0) <= ToGo(t, a, k) + if p < k then Depth(t, p) else 0
  {
    if k > 0 {
      ToGoChanges(t, a, b, c, p, k - 1);
    }
  }

  lemma NoRequestNoWork(t: seq<nat>, nodes: seq<Node>, mem: bool, p: nat)
    requires Inv(t, nodes, mem, |t|) && p < |t| && nodes[p].request.NoRequest?
    ensures |nodes| == |t| && nodes[p].work == Idle
  {
    assert WaitOk(t, nodes, p, |t|);
  }

  ghost predicate SameBooks(a: seq<Node>, b: seq<Node>, m: nat)
    requires m < |a| == |b|
  {
    a[m].request == b[m].request && a[m].work == b[m].work
  }

  /** The request of c is complete, and so are those of the children that completed caches were serving; no other
      cache's request has changed. */
  ghost predicate Completed(before: seq<Node>, after: seq<Node>, c: nat) {
    && c < |before| == |after| && after[c].request.NoRequest?
    && forall m :: 0 <= m < |before| ==> CompletedAt(before, after, m)
  }

  ghost predicate CompletedAt(before: seq<Node>, after: seq<Node>, m: nat)
    requires m < |before| == |after|
  {
    var work := before[m].work;
    || SameBooks(before, after, m)
    || (after[m].request.NoRequest?
        && (work.Serving? && work.child < |before| ==> after[work.child].request.NoRequest?))
  }

  ghost predicate AllBooks(a: seq<Node>, b: seq<Node>) {
    |a| == |b| && forall m :: 0 <= m < |a| ==> SameBooks(a, b, m)
  }

  lemma AllBooksTransitive(a: seq<Node>, b: seq<Node>, c: seq<Node>)
    requires AllBooks(a, b) && AllBooks(b, c)
    ensures AllBooks(a, c)
  {
    forall m | 0 <= m < |a|
      ensures SameBooks(a, c, m)
    {
      assert SameBooks(a, b, m) && SameBooks(b, c, m);
    }
  }

  lemma CompletedFrom(before: seq<Node>, mid: seq<Node>, after: seq<Node>, c: nat)
    requires AllBooks(before, mid) && Completed(mid, after, c)
    ensures Completed(before, after, c)
  {
    forall m | 0 <= m < |before|
      ensures CompletedAt(before, after, m)
    {
      assert SameBooks(before, mid, m) && CompletedAt(mid, after, m);
    }
  }

  /** c is retired and was serving no child. */
  lemma CompletedAlone(before: seq<Node>, mid: seq<Node>, after: seq<Node>, c: nat)
    requires c < |before| == |mid| && mid[c].request.NoRequest? && !before[c].work.Serving? && AllBooks(mid, after)
    requires forall m :: 0 <= m < |before| && m != c ==> mid[m] == before[m]
    ensures Completed(before, after, c)
  {
    forall m | 0 <= m < |before|
      ensures CompletedAt(before, after, m)
    {
      assert SameBooks(mid, after, m);
    }
    assert SameBooks(mid, after, c);
  }

  /** c is retired, and the child d that it was serving is answered and completed. */
  lemma CompletedWithChild(before: seq<Node>, mid: seq<Node>, answered: seq<Node>, after: seq<Node>, c: nat, d: nat)
    requires c < |before| == |mid| && mid[c].request.NoRequest? && before[c].work == Serving(d)
    requires forall m :: 0 <= m < |before| && m != c ==> mid[m] == before[m]
    requires AllBooks(mid, answered) && Completed(answered, after, d)
    ensures Completed(before, after, c)
  {
    assert SameBooks(mid, answered, c) && CompletedAt(answered, after, c);
    forall m | 0 <= m < |before|
      ensures CompletedAt(before, after, m)
    {
      assert SameBooks(mid, answered, m) && CompletedAt(answered, after, m);
    }
  }

  lemma CompletedLowers(t: seq<nat>, before: seq<Node>, after: seq<Node>, c: nat)
    requires Tree(t) && |before| == |t| && Completed(before, after, c) && Untaken(t, before, c)
    ensures ToGo(t, after, |t|) < ToGo(t, before, |t|)
  {
    forall n | 0 <= n < |t| && Untaken(t, after, n)
      ensures Untaken(t, before, n)
    {
      assert CompletedAt(before, after, n) && CompletedAt(before, after, t[n]);
    }
    ToGoChanges(t, before, after, c, |t|, |t|);
  }

  /** A request that p passes on for c goes up one level. */
  lemma PassedLowers(t: seq<nat>, before: seq<Node>, after: seq<Node>, p: nat, c: nat)
    requires Tree(t) && |before| == |after| == |t| && c < |t| && p == t[c] && c > 0
    requires Untaken(t, before, c) && after[p].work == Serving(c)
    requires before[p].work == Idle && forall m :: 0 <= m < |t| && m != p ==> after[m] == before[m]
    ensures ToGo(t, after, |t|) < ToGo(t, before, |t|)
  {
    forall n | 0 <= n < |t| && n != p && Untaken(t, after, n)
      ensures Untaken(t, before, n)
    {
    }
    ToGoChanges(t, before, after, c, p, |t|);
  }

  /** The race check never panics; a skipped request is a PUT of an invalid line, and a request that goes on
      finds the child in a state its kind allows: in particular only a modified line is PUTX. */
  lemma RaceCheckIsSafe(k: AccessType, initialState: MESI, state: MESI)
    requires RaceOk(k, initialState, state)
    ensures
      match CheckForMESIRace(k, state, initialState)
      case Panic => false
      case Skip => !IsGet(k) && state == I
      case Proceed(GETS) => k == GETS && state == I
      case Proceed(GETX) => k == GETX && (state == I || state == S)
      case Proceed(PUTS) => !IsGet(k) && (state == S || state == E)
      case Proceed(PUTX) => k == PUTX && state == M
  {
  }

  /** An invalidation in flight may change what a waiting cache holds, but only as the race check expects. */
  lemma HitKeepsWaiting(t: seq<nat>, a: seq<Node>, b: seq<Node>, n: nat, kind: InvType, g: nat)
    requires |a| == |b| == |t| && n < |t| && n != g && WaitOk(t, a, n, |t|)
    requires b[n] == Hit(a[n], kind) || b[n] == a[n]
    requires forall d :: 0 <= d < |t| ==> a[d].request == b[d].request
    ensures WaitOk(t, b, n, g)
  {
  }

  // ---------------------------------------------------------------------------------------------
  // Frames
  // ---------------------------------------------------------------------------------------------

  /** As its parent sees it, y is x, possibly after a silent E to M transition. */
  ghost predicate SeenFromAbove(x: Node, y: Node) {
    && x.cached == y.cached
    && (y.state == x.state || (x.state == E && y.state == M))
    && (y.state == E ==> y.latest == x.latest)
  }

  lemma NodeFrame(t: seq<nat>, a: seq<Node>, b: seq<Node>, q: nat)
    requires Tree(t) && |a| == |b| == |t| && q < |t| && NodeOk(t, a, q)
    requires a[q].state == b[q].state && a[q].cached == b[q].cached
    requires a[q].dir == b[q].dir && a[q].latest == b[q].latest
    requires forall k :: q < k < |t| && t[k] == q ==> SeenFromAbove(a[k], b[k])
    ensures NodeOk(t, b, q)
  {
  }

  /** A wave leaves the subtrees it hits consistent. */
  lemma WaveKeepsSubtrees(t: seq<nat>, nodes: seq<Node>, K: set<nat>, kind: InvType, b: seq<Node>, q: nat)
    requires Tree(t) && |nodes| == |b| == |t| && q < |t| && Under(t, K, q) && NodeOk(t, nodes, q)
    requires forall m :: 0 <= m < |t| && Under(t, K, m) ==> b[m] == Hit(nodes[m], kind)
    ensures NodeOk(t, b, q)
  {
    assert forall k :: q < k < |t| && t[k] == q ==> Under(t, K, k);
  }

  // ---------------------------------------------------------------------------------------------
  // Collecting a cache's subtree, and answering a child
  // ---------------------------------------------------------------------------------------------

  /** p invalidates or downgrades its sharers and takes over the dirty data they hold. */
  ghost function Collected(t: seq<nat>, nodes: seq<Node>, p: nat, kind: InvType): (nodes': seq<Node>)
    requires Tree(t) && |nodes| == |t| && p < |t|
    ensures |nodes'| == |nodes|
  {
    var sent := Sent(t, nodes, p, kind);
    if Induces(t, nodes, p, kind) then sent[p := sent[p].(state := M, latest := true)] else sent
  }

  ghost function WithoutSharer(x: Node, c: nat): Node {
    if c in x.dir.sharers then x.(dir := x.dir.(sharers := x.dir.sharers - {c},
                               numSharers := |x.dir.sharers - {c}|)) else x
  }

  /** The caches after p has answered c's request; nothing else changes than p, c and what p invalidates. */
  ghost function Answered(t: seq<nat>, nodes: seq<Node>, p: nat, c: nat, kind: AccessType,
                          noExcl: bool): (nodes': seq<Node>)
    requires Tree(t) && |nodes| == |t| && p < |t| && c < |t|
    ensures |nodes'| == |nodes|
  {
    var x := nodes[p];
    match kind
    case PUTS => nodes[p := WithoutSharer(x, c)][c := nodes[c].(state := I)]
    case PUTX => nodes[p := WithoutSharer(x, c).(state := M, latest := nodes[c].latest)][c := nodes[c].(state := I)]
    case GETS =>
      if x.dir.IsEmpty() && Owned(x.state) && !noExcl then
        nodes[p := x.(dir := Entry(1, {c}, true))][c := nodes[c].(state := E, latest := x.latest)]
      else
        var a := Collected(t, nodes, p, INVX);
        a[p := a[p].(dir := Entry(a[p].dir.numSharers + 1, a[p].dir.sharers + {c}, false))]
        [c := a[c].(state := S, latest := a[p].latest)]
    case GETX =>
      var a := Collected(t, nodes[p := WithoutSharer(x, c)], p, INV);
      a[p := a[p].(dir := Entry(1, {c}, true))][c := a[c].(state := M, latest := a[p].latest)]
  }

  /** The cache on whose behalf c waits: each cache that serves a child waits for what that child waits for. */
  ghost function Requester(nodes: seq<Node>, c: nat): (l: nat)
    ensures l >= c
    decreases |nodes| - c
  {
    if c < |nodes| && nodes[c].work.Serving? && c < nodes[c].work.child < |nodes| then
      Requester(nodes, nodes[c].work.child)
    else c
  }

  lemma {:induction false} RequesterFrame(a: seq<Node>, b: seq<Node>, c: nat)
    requires |a| == |b| && forall n :: c <= n < |a| ==> a[n].work == b[n].work
    ensures Requester(a, c) == Requester(b, c)
    decreases |a| - c
  {
    if c < |a| && a[c].work.Serving? && c < a[c].work.child < |a| {
      RequesterFrame(a, b, a[c].work.child);
    }
  }

  lemma AnsweredKeepsBooks(t: seq<nat>, nodes: seq<Node>, p: nat, c: nat, kind: AccessType, noExcl: bool)
    requires Tree(t) && |nodes| == |t| && p < |t| && c < |t|
    ensures AllBooks(nodes, Answered(t, nodes, p, c, kind, noExcl))
  {
    hide Answered;
    forall n | 0 <= n < |t|
      ensures SameBooks(nodes, Answered(t, nodes, p, c, kind, noExcl), n)
    {
      AnsweredKeepsWork(t, nodes, p, c, kind, noExcl, n);
    }
  }

  /** What a GETS answered with a shared copy does, with and without an exclusive sharer to downgrade. */
  lemma SharedAnswer(t: seq<nat>, nodes: seq<Node>, p: nat, c: nat, noExcl: bool)
    requires Tree(t) && |nodes| == |t| && p < |t| && c < |t|
    requires !(nodes[p].dir.IsEmpty() && Owned(nodes[p].state) && !noExcl)
    ensures
      var a := if nodes[p].dir.IsExclusive() then Collected(t, nodes, p, INVX) else nodes;
      Answered(t, nodes, p, c, GETS, noExcl)
      == a[p := a[p].(dir := Entry(a[p].dir.numSharers + 1, a[p].dir.sharers + {c}, false))]
      [c := a[c].(state := S, latest := a[p].latest)]
    ensures !Sent(t, nodes, p, INVX)[p].dir.IsExclusive() && Sent(t, nodes, p, INVX)[p].state == nodes[p].state
  {
  }

  lemma CollectedKeepsWork(t: seq<nat>, nodes: seq<Node>, p: nat, kind: InvType, n: nat)
    requires Tree(t) && |nodes| == |t| && p < |t| && n < |t|
    ensures Collected(t, nodes, p, kind)[n].work == nodes[n].work
    ensures Collected(t, nodes, p, kind)[n].request == nodes[n].request
  {
  }

  lemma AnsweredKeepsWork(t: seq<nat>, nodes: seq<Node>, p: nat, c: nat, kind: AccessType, noExcl: bool, n: nat)
    requires Tree(t) && |nodes| == |t| && p < |t| && c < |t| && n < |t|
    ensures Answered(t, nodes, p, c, kind, noExcl)[n].work == nodes[n].work
    ensures Answered(t, nodes, p, c, kind, noExcl)[n].request == nodes[n].request
  {
    hide Collected;
    CollectedKeepsWork(t, nodes, p, INVX, n);
    CollectedKeepsWork(t, nodes[p := WithoutSharer(nodes[p], c)], p, INV, n);
  }

  lemma AnsweredRequester(t: seq<nat>, before: seq<Node>, mid: seq<Node>, p: nat, c: nat, kind: AccessType,
                          noExcl: bool)
    requires Tree(t) && |before| == |mid| == |t| && p < c < |t| && forall n :: c <= n < |t| ==> mid[n] == before[n]
    ensures
      var after := Answered(t, mid, p, c, kind, noExcl);
      && Requester(after, c) == Requester(before, c)
      && forall n :: c <= n < |t| ==> after[n].work == before[n].work && after[n].request == before[n].request
  {
    hide Answered;
    var after := Answered(t, mid, p, c, kind, noExcl);
    forall n | c <= n < |t|
      ensures after[n].work == before[n].work && after[n].request == before[n].request
    {
      AnsweredKeepsWork(t, mid, p, c, kind, noExcl, n);
    }
    RequesterFrame(after, before, c);
  }

  /** Once c has answered child d, d waits on behalf of the same core as c did. */
  lemma ServingRequester(t: seq<nat>, before: seq<Node>, mid: seq<Node>, c: nat, d: nat, kind: AccessType, noExcl: bool)
    requires Tree(t) && |before| == |mid| == |t| && c < d < |t| && before[c].work == Serving(d)
    requires forall n :: c < n < |t| ==> mid[n] == before[n]
    ensures
      var after := Answered(t, mid, c, d, kind, noExcl);
      && Requester(after, d) == Requester(before, c)
      && forall n :: d <= n < |t| ==> after[n].work == before[n].work && after[n].request == before[n].request
  {
    AnsweredRequester(t, before, mid, c, d, kind, noExcl);
  }

  /** A cache in this state can answer such a request without asking the next level. */
  predicate Suffices(kind: AccessType, state: MESI) {
    state == E || state == M || (kind == GETS && state == S)
  }

  /** When p's request for c may be answered. */
  ghost predicate CanAnswer(t: seq<nat>, nodes: seq<Node>, p: nat, c: nat, kind: AccessType) {
    && Tree(t) && |nodes| == |t| && p < c < |t| && t[c] == p
    && nodes[p].work == Idle && nodes[c].request.Request?
    && match kind
       case GETS => nodes[c].request.kind == GETS && nodes[p].state != I
       case GETX => nodes[c].request.kind == GETX && nodes[p].state == M
       case PUTS => !IsGet(nodes[c].request.kind) && (nodes[c].state == S || nodes[c].state == E)
       case PUTX => nodes[c].request.kind == PUTX && nodes[c].state == M
  }

  /** Every cache but the answered one and its parent changes at most by an invalidation. */
  lemma AnswerKeepsWaiting(t: seq<nat>, nodes: seq<Node>, b: seq<Node>, p: nat, c: nat)
    requires Tree(t) && |nodes| == |b| == |t| && p < c < |t| && t[c] == p
    requires forall n :: 0 <= n < |t| ==> WaitOk(t, nodes, n, |t|)
    requires nodes[p].work == Idle && nodes[c].request.Request? && b[p].request == nodes[p].request && b[p].work == Idle
    requires b[c] == nodes[c].(state := b[c].state, latest := b[c].latest) && AnsweredOk(b[c].request.kind, b[c].state)
    requires forall n :: 0 <= n < |t| && n != p && n != c ==>
                           b[n] == nodes[n] || b[n] == Hit(nodes[n], INV) || b[n] == Hit(nodes[n], INVX)
    ensures forall n :: 0 <= n < |t| ==> WaitOk(t, b, n, c)
  {
    forall n | 0 <= n < |t|
      ensures WaitOk(t, b, n, c)
    {
      assert WaitOk(t, nodes, n, |t|);
      if n != p && n != c {
        HitKeepsWaiting(t, nodes, b, n, if b[n] == Hit(nodes[n], INV) then INV else INVX, c);
      }
    }
  }

  lemma AnswerPutKeepsNodes(t: seq<nat>, nodes: seq<Node>, mem: bool, p: nat, c: nat, kind: AccessType, q: nat)
    requires Inv(t, nodes, mem, |t|) && CanAnswer(t, nodes, p, c, kind) && !IsGet(kind) && q < |t|
    ensures NodeOk(t, Answered(t, nodes, p, c, kind, false), q)
  {
    var b := Answered(t, nodes, p, c, kind, false);
    assert NodeOk(t, nodes, q) && NodeOk(t, nodes, p) && NodeOk(t, nodes, c);
    assert WaitOk(t, nodes, c, |t|);
    if q != p && q != c {
      NodeFrame(t, nodes, b, q);
    }
  }

  /** Answering a PUT keeps the invariant. */
  lemma AnswerPutKeepsInv(t: seq<nat>, nodes: seq<Node>, mem: bool, p: nat, c: nat, kind: AccessType)
    requires Inv(t, nodes, mem, |t|) && CanAnswer(t, nodes, p, c, kind) && !IsGet(kind)
    ensures Inv(t, Answered(t, nodes, p, c, kind, false), mem, c)
  {
    var b := Answered(t, nodes, p, c, kind, false);
    forall q | 0 <= q < |t|
      ensures NodeOk(t, b, q)
    {
      AnswerPutKeepsNodes(t, nodes, mem, p, c, kind, q);
    }
    assert WaitOk(t, nodes, p, |t|) && WaitOk(t, nodes, c, |t|);
    AnswerKeepsWaiting(t, nodes, b, p, c);
  }

  lemma NotUnderSelf(t: seq<nat>, K: set<nat>, p: nat)
    requires Tree(t) && p < |t| && forall k :: k in K ==> k > p
    ensures !Under(t, K, p)
  {
    if Under(t, K, p) {
      UnderIsBelow(t, K, p, p);
    }
  }

  lemma NothingUnderSelf(t: seq<nat>, nodes: seq<Node>, p: nat, q: nat)
    requires Tree(t) && |nodes| == |t| && p < |t| && q < |t| && EntryOk(t, nodes, p)
    requires Under(t, nodes[p].dir.sharers, q)
    ensures q > p && (q > 0 ==> t[q] == p ==> q in nodes[p].dir.sharers)
  {
    UnderIsBelow(t, nodes[p].dir.sharers, p, q);
    NotUnderSelf(t, nodes[p].dir.sharers, p);
  }

  /** Collecting changes p as announced, hits the subtrees of its sharers, and nothing else. */
  lemma CollectedShape(t: seq<nat>, nodes: seq<Node>, p: nat, kind: InvType, q: nat)
    requires Tree(t) && |nodes| == |t| && p < |t| && q < |t| && EntryOk(t, nodes, p)
    requires kind == INVX ==> nodes[p].dir.IsExclusive()
    ensures
      var hit := Under(t, nodes[p].dir.sharers, q);
      q != p ==> Collected(t, nodes, p, kind)[q] == if hit then Hit(nodes[q], kind) else nodes[q]
    ensures Under(t, nodes[p].dir.sharers, q) ==> q > p
    ensures Under(t, nodes[p].dir.sharers, q) && t[q] == p ==> q in nodes[p].dir.sharers
    ensures Under(t, nodes[p].dir.sharers, q) && q !in nodes[p].dir.sharers ==> Under(t, nodes[p].dir.sharers, t[q])
  {
    if Under(t, nodes[p].dir.sharers, q) {
      NothingUnderSelf(t, nodes, p, q);
    }
  }

  /** Dirty data below p means that p owns the line; otherwise a valid p already has the latest data. */
  lemma DirtyMeansOwned(t: seq<nat>, nodes: seq<Node>, p: nat)
    requires Tree(t) && |nodes| == |t| && p < |t| && (forall q :: 0 <= q < |t| ==> NodeOk(t, nodes, q))
    ensures Dirty(t, nodes, nodes[p].dir.sharers) ==> nodes[p].dir.IsExclusive() && Owned(nodes[p].state)
    ensures nodes[p].state != I && !Dirty(t, nodes, nodes[p].dir.sharers) ==> nodes[p].latest
  {
    assert NodeOk(t, nodes, p);
    if Dirty(t, nodes, nodes[p].dir.sharers) && !nodes[p].dir.IsExclusive() {
      var m :| 0 <= m < |t| && Under(t, nodes[p].dir.sharers, m) && nodes[m].state == M;
      QuietSubtree(t, nodes, nodes[p].dir.sharers, INVX, m);
    }
    if nodes[p].state != I && !Dirty(t, nodes, nodes[p].dir.sharers) {
      CleanCopyIsLatest(t, nodes, p);
    }
  }

  lemma AnswerGetsKeepsNodes(t: seq<nat>, nodes: seq<Node>, mem: bool, p: nat, c: nat, noExcl: bool, q: nat)
    requires Inv(t, nodes, mem, |t|) && CanAnswer(t, nodes, p, c, GETS) && q < |t|
    ensures NodeOk(t, Answered(t, nodes, p, c, GETS, noExcl), q)
  {
    if nodes[p].dir.IsExclusive() {
      AnswerDowngradeKeepsNodes(t, nodes, mem, p, c, noExcl, q);
    } else {
      AnswerSharedKeepsNodes(t, nodes, mem, p, c, noExcl, q);
    }
  }

  /** A child that held nothing is consistent with any up-to-date copy it is given. */
  lemma GivenChildOk(t: seq<nat>, nodes: seq<Node>, b: seq<Node>, c: nat)
    requires Tree(t) && |nodes| == |b| == |t| && c < |t| && NodeOk(t, nodes, c) && nodes[c].cached
    requires !Owned(nodes[c].state) && b[c].state != I && b[c].latest
    requires b[c] == nodes[c].(state := b[c].state, latest := b[c].latest)
    requires forall k :: c < k < |t| && t[k] == c ==> b[k] == nodes[k]
    ensures NodeOk(t, b, c)
  {
  }

  /** p's entry after a child joined its sharers. */
  lemma JoinedParentOk(t: seq<nat>, nodes: seq<Node>, b: seq<Node>, p: nat, c: nat)
    requires Tree(t) && |nodes| == |b| == |t| && p < c < |t| && t[c] == p && NodeOk(t, nodes, p) && nodes[p].state != I
    requires nodes[c].state == I && b[c].cached && b[c].state == S && b[p].latest
    requires b[p].state != I && b[p].cached
             && b[p].dir == Entry(nodes[p].dir.numSharers + 1, nodes[p].dir.sharers + {c}, false)
    requires forall k :: p < k < |t| && t[k] == p && k != c ==>
                           && b[k].state == (if Owned(nodes[k].state) then S else nodes[k].state)
                           && b[k].cached == nodes[k].cached
    ensures NodeOk(t, b, p)
  {
    assert |nodes[p].dir.sharers + {c}| == |nodes[p].dir.sharers| + 1;
  }

  /** Answering a GETS without an exclusive sharer touches only p and c. */
  lemma AnswerSharedShape(t: seq<nat>, nodes: seq<Node>, mem: bool, p: nat, c: nat, noExcl: bool)
    requires Inv(t, nodes, mem, |t|) && CanAnswer(t, nodes, p, c, GETS) && !nodes[p].dir.IsExclusive()
    ensures
      var b := Answered(t, nodes, p, c, GETS, noExcl);
      var alone := nodes[p].dir.IsEmpty() && Owned(nodes[p].state) && !noExcl;
      && (forall m :: 0 <= m < |t| && m != p && m != c ==> b[m] == nodes[m])
      && b[p].latest && b[c] == nodes[c].(state := if alone then E else S, latest := true)
      && b[p] == nodes[p].(dir := if alone then Entry(1, {c}, true)
                 else Entry(nodes[p].dir.numSharers + 1, nodes[p].dir.sharers + {c}, false))
  {
    hide Under, Wave;
    assert NodeOk(t, nodes, p) && WaitOk(t, nodes, c, |t|);
    assert Collected(t, nodes, p, INVX) == nodes;
  }

  lemma AnswerSharedKeepsNodes(t: seq<nat>, nodes: seq<Node>, mem: bool, p: nat, c: nat, noExcl: bool, q: nat)
    requires Inv(t, nodes, mem, |t|) && CanAnswer(t, nodes, p, c, GETS) && !nodes[p].dir.IsExclusive() && q < |t|
    ensures NodeOk(t, Answered(t, nodes, p, c, GETS, noExcl), q)
  {
    hide Answered, Wave, Under;
    var b := Answered(t, nodes, p, c, GETS, noExcl);
    AnswerSharedShape(t, nodes, mem, p, c, noExcl);
    assert NodeOk(t, nodes, q) && NodeOk(t, nodes, p) && WaitOk(t, nodes, c, |t|);
    if q == c {
      GivenChildOk(t, nodes, b, c);
    } else if q != p {
      NodeFrame(t, nodes, b, q);
    } else if b[c].state == S {
      JoinedParentOk(t, nodes, b, p, c);
    }
  }

  /** Outside p and c, exactly the subtrees of K are hit. */
  ghost predicate HitOnly(t: seq<nat>, nodes: seq<Node>, b: seq<Node>, p: nat, c: nat, K: set<nat>, kind: InvType)
    requires Tree(t) && |nodes| == |b| == |t|
  {
    forall m :: 0 <= m < |t| ==>
                  && (Under(t, K, m) ==> m != p && m != c)
                  && (m != p && m != c ==> b[m] == if Under(t, K, m) then Hit(nodes[m], kind) else nodes[m])
                  && (Under(t, K, m) && m !in K ==> Under(t, K, t[m]))
  }

  lemma ElsewhereOk(t: seq<nat>, nodes: seq<Node>, b: seq<Node>, p: nat, c: nat, K: set<nat>, kind: InvType, q: nat)
    requires Tree(t) && |nodes| == |b| == |t| && p < c < |t| && t[c] == p && q < |t| && q != p && q != c
    requires HitOnly(t, nodes, b, p, c, K, kind) && NodeOk(t, nodes, q) && SeenFromAbove(nodes[p], b[p])
    requires forall k :: k in K ==> k < |t| && t[k] == p
    ensures NodeOk(t, b, q)
  {
    if Under(t, K, q) {
      WaveKeepsSubtrees(t, nodes, K, kind, b, q);
    } else {
      NodeFrame(t, nodes, b, q);
    }
  }

  lemma DowngradeShape(t: seq<nat>, nodes: seq<Node>, mem: bool, p: nat, c: nat, noExcl: bool)
    requires Inv(t, nodes, mem, |t|) && CanAnswer(t, nodes, p, c, GETS) && nodes[p].dir.IsExclusive()
    ensures
      var b := Answered(t, nodes, p, c, GETS, noExcl);
      && HitOnly(t, nodes, b, p, c, nodes[p].dir.sharers, INVX)
      && SeenFromAbove(nodes[p], b[p]) && b[p].latest && b[p].state != I
      && b[p].dir == Entry(2, nodes[p].dir.sharers + {c}, false)
      && b[p].request == nodes[p].request && b[p].work == nodes[p].work
      && b[c] == nodes[c].(state := S, latest := true)
  {
    assert NodeOk(t, nodes, p) && WaitOk(t, nodes, c, |t|);
    DirtyMeansOwned(t, nodes, p);
    forall m | 0 <= m < |t|
      ensures
        var hit := Under(t, nodes[p].dir.sharers, m);
        m != p ==> Collected(t, nodes, p, INVX)[m] == if hit then Hit(nodes[m], INVX) else nodes[m]
      ensures Under(t, nodes[p].dir.sharers, m) ==> m > p && m != c
      ensures Under(t, nodes[p].dir.sharers, m) && m !in nodes[p].dir.sharers ==> Under(t, nodes[p].dir.sharers, t[m])
    {
      CollectedShape(t, nodes, p, INVX, m);
    }
  }

  lemma AnswerDowngradeKeepsNodes(t: seq<nat>, nodes: seq<Node>, mem: bool, p: nat, c: nat, noExcl: bool, q: nat)
    requires Inv(t, nodes, mem, |t|) && CanAnswer(t, nodes, p, c, GETS) && nodes[p].dir.IsExclusive() && q < |t|
    ensures NodeOk(t, Answered(t, nodes, p, c, GETS, noExcl), q)
  {
    var b := Answered(t, nodes, p, c, GETS, noExcl);
    assert NodeOk(t, nodes, q) && NodeOk(t, nodes, p) && NodeOk(t, nodes, c) && WaitOk(t, nodes, c, |t|);
    DowngradeShape(t, nodes, mem, p, c, noExcl);
    if q == p {
      assert forall k :: k in nodes[p].dir.sharers ==> Under(t, nodes[p].dir.sharers, k);
      JoinedParentOk(t, nodes, b, p, c);
    } else if q == c {
      GivenChildOk(t, nodes, b, c);
    } else {
      ElsewhereOk(t, nodes, b, p, c, nodes[p].dir.sharers, INVX, q);
    }
  }

  /** p's entry after it made c the sole, modified, sharer. */
  lemma GrantedParentOk(t: seq<nat>, b: seq<Node>, p: nat, c: nat)
    requires Tree(t) && |b| == |t| && p < c < |t| && t[c] == p
    requires b[p].state == M && b[p].cached && b[p].dir == Entry(1, {c}, true) && b[c].state == M && b[c].cached
    requires forall k :: p < k < |t| && t[k] == p && k != c ==> b[k].state == I
    ensures NodeOk(t, b, p)
  {
  }

  /** Answering a GETX touches exactly p, c and the subtrees of p's other sharers. */
  lemma AnswerGetxShape(t: seq<nat>, nodes: seq<Node>, mem: bool, p: nat, c: nat)
    requires Inv(t, nodes, mem, |t|) && CanAnswer(t, nodes, p, c, GETX)
    ensures HitOnly(t, nodes, Answered(t, nodes, p, c, GETX, false), p, c, nodes[p].dir.sharers - {c}, INV)
  {
    hide Under, WaitOk, Answered, Collected;
    var a := nodes[p := WithoutSharer(nodes[p], c)];
    assert NodeOk(t, nodes, p);
    var K := nodes[p].dir.sharers - {c};
    assert a[p].dir.sharers == K;
    forall m | 0 <= m < |t|
      ensures m != p ==> Collected(t, a, p, INV)[m] == if Under(t, K, m) then Hit(a[m], INV) else a[m]
      ensures Under(t, K, m) ==> m > p && m != c
      ensures Under(t, K, m) && m !in K ==> Under(t, K, t[m])
    {
      CollectedShape(t, a, p, INV, m);
    }
    GetxElsewhere(t, nodes, p, c);
  }

  lemma GetxElsewhere(t: seq<nat>, nodes: seq<Node>, p: nat, c: nat)
    requires Tree(t) && |nodes| == |t| && p < |t| && c < |t|
    ensures
      var a := Collected(t, nodes[p := WithoutSharer(nodes[p], c)], p, INV);
      forall m :: 0 <= m < |t| && m != p && m != c ==> Answered(t, nodes, p, c, GETX, false)[m] == a[m]
  {
  }

  /** The answering cache ends with the latest data, and so does the child. */
  lemma AnswerGetxIsLatest(t: seq<nat>, nodes: seq<Node>, mem: bool, p: nat, c: nat)
    requires Inv(t, nodes, mem, |t|) && CanAnswer(t, nodes, p, c, GETX)
    ensures
      var b := Answered(t, nodes, p, c, GETX, false);
      && b[p].latest && b[c].latest && b[p].state == M && b[p].cached && b[c].state == M
      && b[c] == nodes[c].(state := M, latest := true) && b[p].dir == Entry(1, {c}, true)
      && b[p].request == nodes[p].request && b[p].work == nodes[p].work
  {
    hide Under, Wave;
    var K := nodes[p].dir.sharers;
    var a := nodes[p := WithoutSharer(nodes[p], c)];
    assert NodeOk(t, nodes, p) && WaitOk(t, nodes, c, |t|) && WaitOk(t, nodes, p, |t|);
    DirtyMeansOwned(t, nodes, p);
    if c in K {
      assert !Dirty(t, nodes, K);
    } else {
      assert K - {c} == K && a == nodes;
    }
    CollectedShape(t, a, p, INV, c);
  }

  lemma AnswerGetxKeepsNodes(t: seq<nat>, nodes: seq<Node>, mem: bool, p: nat, c: nat, q: nat)
    requires Inv(t, nodes, mem, |t|) && CanAnswer(t, nodes, p, c, GETX) && q < |t|
    ensures NodeOk(t, Answered(t, nodes, p, c, GETX, false), q)
  {
    hide Answered;
    var K := nodes[p].dir.sharers - {c};
    var b := Answered(t, nodes, p, c, GETX, false);
    assert NodeOk(t, nodes, q) && NodeOk(t, nodes, p) && NodeOk(t, nodes, c) && WaitOk(t, nodes, c, |t|);
    AnswerGetxIsLatest(t, nodes, mem, p, c);
    AnswerGetxShape(t, nodes, mem, p, c);
    if q == p {
      assert forall k :: k in K ==> Under(t, K, k);
      GrantedParentOk(t, b, p, c);
    } else if q == c {
      GivenChildOk(t, nodes, b, c);
    } else {
      ElsewhereOk(t, nodes, b, p, c, K, INV, q);
    }
  }

  /** Answering any request the race check lets through keeps the global invariant. */
  lemma AnswerKeepsInv(t: seq<nat>, nodes: seq<Node>, mem: bool, p: nat, c: nat, kind: AccessType, noExcl: bool)
    requires Inv(t, nodes, mem, |t|) && CanAnswer(t, nodes, p, c, kind)
    ensures Inv(t, Answered(t, nodes, p, c, kind, noExcl), mem, c)
  {
    var b := Answered(t, nodes, p, c, kind, noExcl);
    assert WaitOk(t, nodes, p, |t|) && WaitOk(t, nodes, c, |t|);
    match kind
    case PUTS => AnswerPutKeepsInv(t, nodes, mem, p, c, PUTS);
    case PUTX => AnswerPutKeepsInv(t, nodes, mem, p, c, PUTX);
    case GETS => AnswerGetsKeepsInv(t, nodes, mem, p, c, noExcl);
    case GETX =>
      forall q | 0 <= q < |t|
        ensures NodeOk(t, b, q)
      {
        AnswerGetxKeepsNodes(t, nodes, mem, p, c, q);
      }
      AnswerGetxShape(t, nodes, mem, p, c);
      AnswerGetxIsLatest(t, nodes, mem, p, c);
      assert NodeOk(t, nodes, p) && 0 !in nodes[p].dir.sharers;
      AnswerKeepsWaiting(t, nodes, b, p, c);
  }

  lemma AnswerGetsKeepsInv(t: seq<nat>, nodes: seq<Node>, mem: bool, p: nat, c: nat, noExcl: bool)
    requires Inv(t, nodes, mem, |t|) && CanAnswer(t, nodes, p, c, GETS)
    ensures Inv(t, Answered(t, nodes, p, c, GETS, noExcl), mem, c)
  {
    var b := Answered(t, nodes, p, c, GETS, noExcl);
    assert WaitOk(t, nodes, p, |t|) && WaitOk(t, nodes, c, |t|);
    forall q | 0 <= q < |t|
      ensures NodeOk(t, b, q)
    {
      AnswerGetsKeepsNodes(t, nodes, mem, p, c, noExcl, q);
    }
    if nodes[p].dir.IsExclusive() {
      DowngradeShape(t, nodes, mem, p, c, noExcl);
      assert NodeOk(t, nodes, p) && 0 !in nodes[p].dir.sharers;
    } else {
      assert Collected(t, nodes, p, INVX) == nodes;
    }
    AnswerKeepsWaiting(t, nodes, b, p, c);
  }

  /** Every child of n is invalid, and by inclusion everything else below n is too. */
  ghost predicate NothingBelow(t: seq<nat>, nodes: seq<Node>, n: nat)
    requires |nodes| == |t|
  {
    forall k :: n < k < |t| && t[k] == n ==> nodes[k].state == I
  }

  /** No copy has been taken away. */
  ghost predicate CopiesKept(before: seq<Node>, after: seq<Node>) {
    |before| == |after| && forall m :: 0 <= m < |before| && before[m].state != I ==> after[m].state != I
  }

  /** What p changed of itself before it answered makes no difference to the copies of its children. */
  lemma FromParent(t: seq<nat>, before: seq<Node>, mid: seq<Node>, after: seq<Node>, p: nat)
    requires |before| == |mid| == |t| && p < |t| && forall m :: 0 <= m < |t| && m != p ==> mid[m] == before[m]
    ensures NothingBelow(t, mid, p) <==> NothingBelow(t, before, p)
    ensures (before[p].state != I ==> mid[p].state != I) && CopiesKept(mid, after) ==> CopiesKept(before, after)
  {
  }

  lemma EmptyEntryMeansNothingBelow(t: seq<nat>, nodes: seq<Node>, n: nat)
    requires Tree(t) && |nodes| == |t| && n < |t| && NodeOk(t, nodes, n)
    ensures nodes[n].dir.IsEmpty() <==> NothingBelow(t, nodes, n)
    ensures nodes[n].state == I ==> NothingBelow(t, nodes, n)
  {
    if !nodes[n].dir.IsEmpty() {
      var c :| c in nodes[n].dir.sharers;
      assert nodes[c].state != I;
    } else {
      assert nodes[n].dir.sharers == {};
    }
  }

  /** What a core that asked for a shared copy is given: it may write without asking again unless it said that it
      will not, or the cache that serves it merely shares the line, or some other copy is below that cache. */
  ghost function GrantedState(t: seq<nat>, nodes: seq<Node>, p: nat, noExcl: bool): MESI
    requires |nodes| == |t| && p < |t|
  {
    if noExcl || nodes[p].state == S || !NothingBelow(t, nodes, p) then S else E
  }

  /** A GETS takes no copy away. The child gets the line exclusively just when it may have it so, the answering
      cache owns it, and no other child has a copy; nothing below the child is valid. */
  lemma AnswerGetsGrants(t: seq<nat>, nodes: seq<Node>, mem: bool, p: nat, c: nat, noExcl: bool)
    requires Inv(t, nodes, mem, |t|) && CanAnswer(t, nodes, p, c, GETS)
    ensures
      var b := Answered(t, nodes, p, c, GETS, noExcl);
      && b[c].state == (if !noExcl && Owned(nodes[p].state) && NothingBelow(t, nodes, p) then E else S)
      && NothingBelow(t, b, c) && CopiesKept(nodes, b)
  {
    hide Answered;
    assert NodeOk(t, nodes, p) && NodeOk(t, nodes, c) && WaitOk(t, nodes, c, |t|);
    EmptyEntryMeansNothingBelow(t, nodes, p);
    EmptyEntryMeansNothingBelow(t, nodes, c);
    if nodes[p].dir.IsExclusive() {
      DowngradeShape(t, nodes, mem, p, c, noExcl);
    } else {
      AnswerSharedShape(t, nodes, mem, p, c, noExcl);
    }
  }

  // ---------------------------------------------------------------------------------------------
  // Single writer, and stores
  // ---------------------------------------------------------------------------------------------

  /** If x owns the line, every other valid copy is above or below x. */
  lemma OwnerExcludesOthers(t: seq<nat>, nodes: seq<Node>, mem: bool, g: nat, x: nat, y: nat)
    requires Inv(t, nodes, mem, g) && x < |t| && y < |t| && Owned(nodes[x].state) && nodes[y].state != I
    ensures Under(t, {x}, y) || Under(t, {y}, x)
    decreases x + y
  {
    if x > y {
      assert NodeOk(t, nodes, t[x]);
      OwnerExcludesOthers(t, nodes, mem, g, t[x], y);
      if Under(t, {t[x]}, y) && y != t[x] {
        var k := Branch(t, t[x], y);
        ValidAbove(t, nodes, mem, g, y, k);
        OneElement(nodes[t[x]].dir.sharers, k, x);
      }
    } else if y > x {
      assert NodeOk(t, nodes, t[y]);
      OwnerExcludesOthers(t, nodes, mem, g, x, t[y]);
      if !Under(t, {x}, t[y]) {
        var k := Branch(t, t[y], x);
        OwnedAbove(t, nodes, mem, g, x, k);
        OwnedAbove(t, nodes, mem, g, x, t[y]);
        OneElement(nodes[t[y]].dir.sharers, k, y);
      }
    }
  }

  lemma OneElement(s: set<nat>, a: nat, b: nat)
    requires a in s && b in s && |s| == 1
    ensures a == b
  {
    assert |s - {a}| == 0;
  }

  /** Inclusion: a cache above a valid copy is valid. */
  lemma ValidAbove(t: seq<nat>, nodes: seq<Node>, mem: bool, g: nat, y: nat, k: nat)
    requires Inv(t, nodes, mem, g) && y < |t| && k < |t| && Under(t, {k}, y) && nodes[y].state != I
    ensures nodes[k].state != I
  {
    if y != k {
      assert NodeOk(t, nodes, t[y]);
      ValidAbove(t, nodes, mem, g, t[y], k);
    }
  }

  /** A cache above an owner owns the line too, and lists only the child on the way down to it. */
  lemma OwnedAbove(t: seq<nat>, nodes: seq<Node>, mem: bool, g: nat, x: nat, k: nat)
    requires Inv(t, nodes, mem, g) && x < |t| && k < |t| && Under(t, {k}, x) && Owned(nodes[x].state)
    ensures Owned(nodes[k].state) && (x != k ==> nodes[k].dir.IsExclusive())
  {
    if x != k {
      assert NodeOk(t, nodes, t[x]);
      OwnedAbove(t, nodes, mem, g, t[x], k);
    }
  }

  lemma LeafHasNothingBelow(t: seq<nat>, x: nat, y: nat)
    requires Tree(t) && x < |t| && y < |t| && x != y && Leaf(t, x)
    ensures !Under(t, {x}, y)
  {
    if Under(t, {x}, y) {
      var k := Branch(t, x, y);
    }
  }

  /** A directory entry describes the children exactly: the sharers are the children with valid copies, and the
      entry is exclusive just when one of them owns the line. */
  lemma DirectoryIsExact(t: seq<nat>, nodes: seq<Node>, mem: bool, g: nat, p: nat)
    requires Inv(t, nodes, mem, g) && p < |t|
    ensures forall c :: c in nodes[p].dir.sharers <==> 0 < c < |t| && t[c] == p && nodes[c].state != I
    ensures nodes[p].dir.numSharers == |nodes[p].dir.sharers|
    ensures nodes[p].dir.IsExclusive() <==> exists c :: 0 < c < |t| && t[c] == p && Owned(nodes[c].state)
  {
    assert NodeOk(t, nodes, p);
    if nodes[p].dir.IsExclusive() {
      var c :| c in nodes[p].dir.sharers;
      assert Owned(nodes[c].state);
    }
    forall c | 0 < c < |t| && t[c] == p && Owned(nodes[c].state)
      ensures nodes[p].dir.IsExclusive()
    {
      assert c in nodes[p].dir.sharers && nodes[p].dir.exclusive;
      assert |nodes[p].dir.sharers - {c}| < |nodes[p].dir.sharers|;
    }
  }

  /** Single writer: a line held in E or M by one leaf is held by no other leaf. */
  lemma SingleWriter(t: seq<nat>, nodes: seq<Node>, mem: bool, g: nat, x: nat, y: nat)
    requires Inv(t, nodes, mem, g) && x < |t| && y < |t| && x != y && Leaf(t, x) && Leaf(t, y)
    requires Owned(nodes[x].state)
    ensures nodes[y].state == I
  {
    if nodes[y].state != I {
      OwnerExcludesOthers(t, nodes, mem, g, x, y);
      LeafHasNothingBelow(t, x, y);
      LeafHasNothingBelow(t, y, x);
    }
  }

  /** No store is ever lost: either memory has the latest data or some valid cache does; and if memory does
      not, some cache holds the line in M and will write it back. */
  lemma LatestSurvives(t: seq<nat>, nodes: seq<Node>, mem: bool, g: nat)
    requires Inv(t, nodes, mem, g)
    ensures mem || Dirty(t, nodes, {0})
    ensures mem || exists n :: 0 <= n < |t| && nodes[n].state != I && nodes[n].latest
  {
    if !mem && !(nodes[0].state != I && nodes[0].latest) {
      assert Under(t, {0}, 0);
      LatestBelow(t, nodes, mem, g, 0);
    } else if !mem {
      assert Under(t, {0}, 0) && nodes[0].state == M;
    }
  }

  lemma LatestBelow(t: seq<nat>, nodes: seq<Node>, mem: bool, g: nat, n: nat)
    requires Inv(t, nodes, mem, g) && n < |t| && nodes[n].state != I && !nodes[n].latest
    ensures exists m :: 0 <= m < |t| && Under(t, {n}, m) && nodes[m].state == M
    ensures exists m :: 0 <= m < |t| && nodes[m].state != I && nodes[m].latest
    decreases |t| - n
  {
    assert NodeOk(t, nodes, n);
    var d :| d in nodes[n].dir.sharers;
    forall m | 0 <= m < |t| && Under(t, {d}, m)
      ensures Under(t, {n}, m)
    {
      UnderTransitive(t, {d}, {n}, m);
    }
    assert Under(t, {d}, d);
    if !nodes[d].latest {
      LatestBelow(t, nodes, mem, g, d);
    }
  }

  /** A store by a leaf that owns the line: its copy becomes the latest, every other one is outdated. */
  function Stored(t: seq<nat>, nodes: seq<Node>, l: nat): (nodes': seq<Node>)
    requires |nodes| == |t| && l < |t|
    ensures |nodes'| == |nodes|
    ensures forall n :: 0 <= n < |t| ==>
                          nodes'[n] == nodes[n].(latest := n == l, state := if n == l then M else nodes[n].state)
  {
    seq(|t|, n requires 0 <= n < |t| => nodes[n].(latest := n == l, state := if n == l then M else nodes[n].state))
  }

  lemma StoreKeepsInv(t: seq<nat>, nodes: seq<Node>, mem: bool, l: nat)
    requires Inv(t, nodes, mem, |t|) && l < |t| && Leaf(t, l) && Owned(nodes[l].state) && nodes[l].request.NoRequest?
    ensures Inv(t, Stored(t, nodes, l), false, |t|)
  {
    var b := Stored(t, nodes, l);
    forall q | 0 <= q < |t|
      ensures NodeOk(t, b, q)
    {
      assert NodeOk(t, nodes, q);
      if nodes[q].state != I && q != l {
        OwnerAboveLeaf(t, nodes, mem, l, q);
      }
    }
    forall n | 0 <= n < |t|
      ensures WaitOk(t, b, n, |t|)
    {
      assert WaitOk(t, nodes, n, |t|);
    }
    OwnedAbove(t, nodes, mem, |t|, l, 0) by { RootAboveAll(t, l); }
  }

  lemma RootAboveAll(t: seq<nat>, n: nat)
    requires Tree(t) && n < |t|
    ensures Under(t, {0}, n)
  {
    if n > 0 {
      RootAboveAll(t, t[n]);
    }
  }

  lemma OwnerAboveLeaf(t: seq<nat>, nodes: seq<Node>, mem: bool, l: nat, q: nat)
    requires Inv(t, nodes, mem, |t|) && l < |t| && q < |t| && Leaf(t, l) && Owned(nodes[l].state)
             && nodes[q].state != I && q != l
    ensures nodes[q].dir.IsExclusive()
  {
    OwnerExcludesOthers(t, nodes, mem, |t|, l, q);
    LeafHasNothingBelow(t, l, q);
    OwnedAbove(t, nodes, mem, |t|, l, q);
  }

  // ---------------------------------------------------------------------------------------------
  // Eviction, allocation, issuing and completing requests
  // ---------------------------------------------------------------------------------------------

  /** Collecting hits exactly the subtrees of n's sharers. */
  lemma CollectShape(t: seq<nat>, nodes: seq<Node>, n: nat)
    requires Tree(t) && |nodes| == |t| && n < |t| && EntryOk(t, nodes, n)
    ensures
      var b, K := Collected(t, nodes, n, INV), nodes[n].dir.sharers;
      forall m :: 0 <= m < |t| ==>
                    && (m != n ==> b[m] == if Under(t, K, m) then Hit(nodes[m], INV) else nodes[m])
                    && (Under(t, K, m) ==> m > n)
                    && (Under(t, K, m) && m !in K ==> Under(t, K, t[m]))
  {
    forall m | 0 <= m < |t|
      ensures
        var b, K := Collected(t, nodes, n, INV), nodes[n].dir.sharers;
        && (m != n ==> b[m] == if Under(t, K, m) then Hit(nodes[m], INV) else nodes[m])
        && (Under(t, K, m) ==> m > n)
        && (Under(t, K, m) && m !in K ==> Under(t, K, t[m]))
    {
      CollectedShape(t, nodes, n, INV, m);
    }
  }

  lemma CollectKeepsNode(t: seq<nat>, nodes: seq<Node>, mem: bool, n: nat, q: nat)
    requires Inv(t, nodes, mem, |t|) && n < |t| && q < |t|
    ensures NodeOk(t, Collected(t, nodes, n, INV), q)
  {
    var b, K := Collected(t, nodes, n, INV), nodes[n].dir.sharers;
    assert NodeOk(t, nodes, n) && NodeOk(t, nodes, q);
    DirtyMeansOwned(t, nodes, n);
    CollectShape(t, nodes, n);
    if Under(t, K, q) {
      WaveKeepsSubtrees(t, nodes, K, INV, b, q);
    } else if q != n {
      NodeFrame(t, nodes, b, q);
    } else {
      assert forall k :: k in K ==> Under(t, K, k);
    }
  }

  /** Invalidating everything below an idle cache, and taking over its dirty data, keeps the invariant. */
  lemma CollectKeepsInv(t: seq<nat>, nodes: seq<Node>, mem: bool, n: nat)
    requires Inv(t, nodes, mem, |t|) && n < |t| && nodes[n].request.NoRequest?
    ensures SendReady(t, nodes, n)
    ensures Induces(t, nodes, n, INV) ==> Owned(nodes[n].state)
    ensures
      var b := Collected(t, nodes, n, INV);
      && Inv(t, b, mem, |t|) && b[n].dir == nodes[n].dir.Cleared()
      && b[n].request.NoRequest? && b[n].work == Idle && b[n].cached == nodes[n].cached
      && (forall m :: 0 <= m < |t| ==> b[m].request == nodes[m].request)
  {
    var b := Collected(t, nodes, n, INV);
    assert NodeOk(t, nodes, n) && WaitOk(t, nodes, n, |t|);
    DirtyMeansOwned(t, nodes, n);
    CollectShape(t, nodes, n);
    forall q | 0 <= q < |t|
      ensures NodeOk(t, b, q) && WaitOk(t, b, q, |t|)
    {
      CollectKeepsNode(t, nodes, mem, n, q);
      assert WaitOk(t, nodes, q, |t|);
      if q != n {
        HitKeepsWaiting(t, nodes, b, q, INV, |t|);
      }
    }
  }

  /** Changing only what a cache waits for, or allocating or dropping an invalid line, keeps the copies consistent. */
  lemma BookkeepingKeepsInv(t: seq<nat>, nodes: seq<Node>, mem: bool, g: nat, n: nat, y: Node, g': nat)
    requires Inv(t, nodes, mem, g) && n < |t| && (g' == |t| || g' == g)
    requires g < |t| && g' == |t| ==> n == g
    requires y.state == nodes[n].state && y.latest == nodes[n].latest && y.dir.sharers == nodes[n].dir.sharers
             && y.dir.numSharers == nodes[n].dir.numSharers
    requires if y.state == I then true else y.cached && y.dir == nodes[n].dir
    requires WaitOk(t, nodes[n := y], n, g') && (n > 0 ==> nodes[t[n]].work != Serving(n))
    requires g' < |t| ==> n != t[g']
    ensures Inv(t, nodes[n := y], mem, g')
  {
    var b := nodes[n := y];
    forall q | 0 <= q < |t|
      ensures NodeOk(t, b, q)
    {
      assert NodeOk(t, nodes, q) && NodeOk(t, nodes, n);
      if q != n {
        BookkeepingFrame(t, nodes, b, q, n);
      }
    }
    forall q | 0 <= q < |t|
      ensures WaitOk(t, b, q, g')
    {
      assert WaitOk(t, nodes, q, g);
    }
  }

  lemma BookkeepingFrame(t: seq<nat>, a: seq<Node>, b: seq<Node>, q: nat, n: nat)
    requires Tree(t) && |a| == |b| == |t| && q < |t| && n < |t| && q != n && NodeOk(t, a, q)
    requires b == a[n := b[n]] && b[n].state == a[n].state && b[n].latest == a[n].latest
    requires b[n].state != I ==> b[n].cached
    ensures NodeOk(t, b, q)
  {
  }

  /** A request the race check skips is as good as answered: the line is already gone. */
  lemma SkipKeepsInv(t: seq<nat>, nodes: seq<Node>, mem: bool, c: nat)
    requires Inv(t, nodes, mem, |t|) && 0 < c < |t| && nodes[c].request.Request? && nodes[t[c]].work == Idle
    requires !IsGet(nodes[c].request.kind) && nodes[c].state == I
    ensures Inv(t, nodes, mem, c)
  {
    forall q | 0 <= q < |t|
      ensures WaitOk(t, nodes, q, c)
    {
      assert WaitOk(t, nodes, q, |t|);
    }
  }

  /** A silent E to M transition in an idle cache keeps the invariant. */
  lemma SilentUpgradeKeepsInv(t: seq<nat>, nodes: seq<Node>, mem: bool, n: nat)
    requires Inv(t, nodes, mem, |t|) && n < |t| && nodes[n].request.NoRequest? && Owned(nodes[n].state)
    ensures Inv(t, nodes[n := nodes[n].(state := M)], mem, |t|)
  {
    var b := nodes[n := nodes[n].(state := M)];
    forall q | 0 <= q < |t|
      ensures NodeOk(t, b, q) && WaitOk(t, b, q, |t|)
    {
      assert NodeOk(t, nodes, q) && WaitOk(t, nodes, q, |t|);
      if q != n {
        NodeFrame(t, nodes, b, q);
      }
    }
  }

  /** The root's GET is answered by memory at once; memory is up to date whenever the root needs its data. */
  lemma FetchKeepsInv(t: seq<nat>, nodes: seq<Node>, mem: bool, kind: AccessType, noExcl: bool)
    requires Inv(t, nodes, mem, |t|) && nodes[0].request.NoRequest? && nodes[0].cached
    requires nodes[0].state == I || (kind == GETX && nodes[0].state == S)
    ensures mem && Inv(t, nodes[0 := Fetched(nodes[0], kind, noExcl, mem)], mem, |t|)
  {
    var b := nodes[0 := Fetched(nodes[0], kind, noExcl, mem)];
    assert NodeOk(t, nodes, 0);
    forall q | 0 <= q < |t|
      ensures NodeOk(t, b, q) && WaitOk(t, b, q, |t|)
    {
      assert NodeOk(t, nodes, q) && WaitOk(t, nodes, q, |t|);
      if q != 0 {
        NodeFrame(t, nodes, b, q);
      }
    }
  }

  /** What memory's access method gives the root. */
  function Fetched(x: Node, kind: AccessType, noExcl: bool, mem: bool): Node {
    x.(state := if kind == GETX then M else if noExcl then S else E, latest := if x.state == I then mem else x.latest)
  }

  lemma ShareReady(t: seq<nat>, nodes: seq<Node>, mem: bool, p: nat, c: nat)
    requires Inv(t, nodes, mem, |t|) && CanAnswer(t, nodes, p, c, GETS)
    ensures c !in nodes[p].dir.sharers && SendReady(t, nodes, p)
    ensures Induces(t, nodes, p, INVX) ==> Owned(nodes[p].state)
  {
    assert NodeOk(t, nodes, p) && WaitOk(t, nodes, c, |t|);
    DirtyMeansOwned(t, nodes, p);
  }

  lemma SentInvEntry(t: seq<nat>, nodes: seq<Node>, p: nat)
    requires Tree(t) && |nodes| == |t| && p < |t|
    ensures Sent(t, nodes, p, INV)[p] == nodes[p].(dir := nodes[p].dir.Cleared())
  {
  }

  /** A GETX finds the upgrading child, if it is listed at all, as a plain sharer. */
  lemma GetxReady(t: seq<nat>, nodes: seq<Node>, mem: bool, p: nat, c: nat)
    requires Inv(t, nodes, mem, |t|) && CanAnswer(t, nodes, p, c, GETX)
    ensures c in nodes[p].dir.sharers ==>
              !nodes[p].dir.IsExclusive() && nodes[p].dir.numSharers == |nodes[p].dir.sharers| > 0
    ensures SendReady(t, nodes[p := WithoutSharer(nodes[p], c)], p)
  {
    var a := nodes[p := WithoutSharer(nodes[p], c)];
    var K := a[p].dir.sharers;
    assert NodeOk(t, nodes, p) && WaitOk(t, nodes, c, |t|);
    assert EntryOk(t, a, p);
    forall m | 0 <= m < |t| && Under(t, K, m)
      ensures NodeOk(t, a, m)
    {
      UnderIsBelow(t, K, p, m);
      assert NodeOk(t, nodes, m);
    }
  }

  /** A leaf's valid copy is always the latest. */
  lemma LeafIsLatest(t: seq<nat>, nodes: seq<Node>, l: nat)
    requires Tree(t) && |nodes| == |t| && l < |t| && Leaf(t, l) && NodeOk(t, nodes, l) && nodes[l].state != I
    ensures nodes[l].latest
  {
    assert nodes[l].dir.sharers == {};
  }

  /** After collecting, nothing valid is left below. */
  lemma CollectEmpties(t: seq<nat>, nodes: seq<Node>, mem: bool, n: nat)
    requires Inv(t, nodes, mem, |t|) && n < |t|
    ensures forall m :: 0 <= m < |t| && m != n && Under(t, {n}, m) ==> Collected(t, nodes, n, INV)[m].state == I
  {
    assert NodeOk(t, nodes, n);
    forall m | 0 <= m < |t| && m != n && Under(t, {n}, m)
      ensures Collected(t, nodes, n, INV)[m].state == I
    {
      CollectedShape(t, nodes, n, INV, m);
      var k := Branch(t, n, m);
      if nodes[m].state != I {
        ValidAbove(t, nodes, mem, |t|, m, k);
        UnderTransitive(t, {k}, nodes[n].dir.sharers, m);
      }
    }
  }

  /** Collecting makes n's copy modified exactly if it or a copy below was, and touches nothing outside. */
  lemma CollectFinds(t: seq<nat>, nodes: seq<Node>, mem: bool, n: nat)
    requires Inv(t, nodes, mem, |t|) && n < |t|
    ensures Collected(t, nodes, n, INV)[n].state == M <==> Dirty(t, nodes, {n})
    ensures forall m :: 0 <= m < |t| && !Under(t, {n}, m) ==> Collected(t, nodes, n, INV)[m] == nodes[m]
  {
    hide Collected, Wave, WaitOk;
    assert NodeOk(t, nodes, n) && Under(t, {n}, n);
    assert SubtreesOk(t, nodes, {n});
    InvalidateIsWave(t, nodes, n, INV);
    CollectedState(t, nodes, n);
    CollectShape(t, nodes, n);
    forall m | 0 <= m < |t| && Under(t, nodes[n].dir.sharers, m)
      ensures Under(t, {n}, m)
    {
      UnderTransitive(t, nodes[n].dir.sharers, {n}, m);
    }
  }

  lemma CollectedState(t: seq<nat>, nodes: seq<Node>, n: nat)
    requires Tree(t) && |nodes| == |t| && n < |t|
    ensures Collected(t, nodes, n, INV)[n].state == if Dirty(t, nodes, nodes[n].dir.sharers) then M else nodes[n].state
  {
  }

  lemma DropKeepsInv(t: seq<nat>, nodes: seq<Node>, mem: bool, n: nat)
    requires Inv(t, nodes, mem, |t|) && n < |t| && nodes[n].request.NoRequest? && nodes[n].dir.sharers == {}
             && (n > 0 ==> nodes[n].state == I)
    ensures nodes[n].state == M ==> nodes[n].latest
    ensures nodes[0].state == M || n != 0 || mem
    ensures Inv(t, nodes[n := nodes[n].(state := I, cached := false)], mem || (n == 0 && nodes[0].state == M), |t|)
  {
    var b := nodes[n := nodes[n].(state := I, cached := false)];
    assert NodeOk(t, nodes, n);
    assert n > 0 ==> WaitOk(t, nodes, t[n], |t|);
    forall q | 0 <= q < |t|
      ensures NodeOk(t, b, q) && WaitOk(t, b, q, |t|)
    {
      assert NodeOk(t, nodes, q) && WaitOk(t, nodes, q, |t|);
      if q != n {
        DropFrame(t, nodes, b, q, n);
      }
    }
  }

  lemma DropFrame(t: seq<nat>, a: seq<Node>, b: seq<Node>, q: nat, n: nat)
    requires Tree(t) && |a| == |b| == |t| && q < |t| && n < |t| && q != n && NodeOk(t, a, q)
    requires b == a[n := b[n]] && b[n].state == I && (n > 0 ==> a[n].state == I)
    ensures NodeOk(t, b, q)
  {
  }

  /** An answered request can be taken off the books. */
  lemma CompleteKeepsInv(t: seq<nat>, nodes: seq<Node>, mem: bool, c: nat)
    requires Inv(t, nodes, mem, c) && c < |t|
    ensures
      var x := nodes[c];
      var y := x.(request := NoRequest, work := Idle, cached := x.cached && !x.work.Evicting?);
      && x.request.Request? && AnsweredOk(x.request.kind, x.state) && WorkOk(t, nodes, c)
      && Inv(t, nodes[c := y], mem, |t|)
  {
    var x := nodes[c];
    assert WaitOk(t, nodes, c, c) && NodeOk(t, nodes, c);
    var y := x.(request := NoRequest, work := Idle, cached := x.cached && !x.work.Evicting?);
    BookkeepingKeepsInv(t, nodes, mem, c, c, y, |t|);
  }

  /** The loop's progress: the sharers before c have been invalidated, counted, and searched for dirty data. */
  ghost predicate Progress(t: seq<nat>, before: seq<Node>, nodes: seq<Node>, p: nat, kind: InvType, c: nat,
                           sentInvs: nat, start: bool, wb: bool)
    requires Tree(t) && |before| == |t| && p < |t|
  {
    var done := Before(before[p].dir.sharers, c);
    && nodes == Sending(t, before, p, kind, c)
    && sentInvs == |done|
    && wb == (start || Dirty(t, before, done))
  }

  lemma StartSending(t: seq<nat>, nodes: seq<Node>, p: nat, kind: InvType, start: bool)
    requires Tree(t) && |nodes| == |t| && p < |t| && EntryOk(t, nodes, p)
    ensures Progress(t, nodes, nodes, p, kind, p + 1, 0, start, start)
  {
    SendEnds(t, nodes, p, kind);
  }

  lemma NothingDirty(t: seq<nat>, nodes: seq<Node>, p: nat)
    requires Tree(t) && |nodes| == |t| && p < |t| && EntryOk(t, nodes, p) && nodes[p].dir.IsEmpty()
    ensures !Dirty(t, nodes, nodes[p].dir.sharers)
  {
    SendEnds(t, nodes, p, INV);
    assert nodes[p].dir.sharers == {};
  }

  class Hierarchy {
    const parent: seq<nat>
    var nodes: seq<Node>
    var memory: bool  // memory holds the latest store

    ghost predicate Valid()
      reads this
    {
      Inv(parent, nodes, memory, |parent|)
    }

    constructor (parent: seq<nat>)
      requires Tree(parent)
      ensures Valid() && this.parent == parent && memory && forall n :: 0 <= n < |nodes| ==> nodes[n].state == I
    {
      this.parent := parent;
      nodes := seq(|parent|, i => Node(I, false, Entry(0, {}, false), NoRequest, Idle, false));
      memory := true;
      new;
      assert forall p :: 0 <= p < |parent| ==> NodeOk(parent, nodes, p) && WaitOk(parent, nodes, p, |parent|);
    }

    /** MESITopCC::sendInvalidates. */
    method SendInvalidates(p: nat, kind: InvType, reqWriteback: bool) returns (wb: bool)
      requires Tree(parent) && |nodes| == |parent| && p < |parent| && SendReady(parent, nodes, p)
      modifies this`nodes
      ensures nodes == Sent(parent, old(nodes), p, kind)
      ensures wb == (reqWriteback || Induces(parent, old(nodes), p, kind))
      decreases |parent| - p, 0, 2
    {
      wb := reqWriteback;
      if kind == INVX && !nodes[p].dir.IsExclusive() {
        return;
      }
      ghost var before := nodes;
      SendFinish(parent, before, p, kind);
      if nodes[p].dir.IsEmpty() {
        NothingDirty(parent, nodes, p);
      } else {
        var sentInvs;
        sentInvs, wb := SendToChildren(p, kind, reqWriteback);
        SendEnds(parent, before, p, kind);
        assert sentInvs == nodes[p].dir.numSharers;
        if kind == INV {
          nodes := nodes[p := nodes[p].(dir := nodes[p].dir.(numSharers := 0))];
        } else {
          assert nodes[p].dir.exclusive;
          assert nodes[p].dir.numSharers == 1;
          nodes := nodes[p := nodes[p].(dir := nodes[p].dir.(exclusive := false))];
        }
      }
    }

    /** The loop over p's children. */
    method SendToChildren(p: nat, kind: InvType, reqWriteback: bool) returns (sentInvs: nat, wb: bool)
      requires Tree(parent) && |nodes| == |parent| && p < |parent| && SendReady(parent, nodes, p)
      requires kind == INVX ==> nodes[p].dir.IsExclusive()
      modifies this`nodes
      ensures Progress(parent, old(nodes), nodes, p, kind, |parent|, sentInvs, reqWriteback, wb)
      decreases |parent| - p, 0, 1
    {
      hide Progress;
      ghost var before := nodes;
      StartSending(parent, before, p, kind, reqWriteback);
      sentInvs, wb := 0, reqWriteback;
      for c := p + 1 to |parent|
        invariant Progress(parent, before, nodes, p, kind, c, sentInvs, reqWriteback, wb)
      {
        sentInvs, wb := SendToChild(p, c, kind, sentInvs, wb, before, reqWriteback);
      }
    }

    /** One iteration of that loop: invalidate c if it is one of p's sharers and has the line in its array. */
    method SendToChild(p: nat, c: nat, kind: InvType, sentBefore: nat, wbBefore: bool, ghost before: seq<Node>,
                       ghost start: bool)
      returns (sentInvs: nat, wb: bool)
      requires Tree(parent) && |before| == |parent| && p < c < |parent| && SendReady(parent, before, p)
      requires kind == INVX ==> before[p].dir.exclusive
      requires Progress(parent, before, nodes, p, kind, c, sentBefore, start, wbBefore)
      modifies this`nodes
      ensures Progress(parent, before, nodes, p, kind, c + 1, sentInvs, start, wb)
      decreases |parent| - p, 0, 0
    {
      ghost var K := before[p].dir.sharers;
      BeforeSkips(K, c);
      sentInvs, wb := sentBefore, wbBefore;
      if parent[c] == p && c in nodes[p].dir.sharers {
        NextSharerUntouched(parent, before, p, kind, c);
        SendStep(parent, before, p, kind, c);
        DirtyStep(parent, before, K, c);
        assert Under(parent, {c}, c);
        if nodes[c].cached {
          wb := Invalidate(c, kind, wb);
          if kind == INV {
            nodes := nodes[p := nodes[p].(dir := nodes[p].dir.(sharers := nodes[p].dir.sharers - {c}))];
          }
          sentInvs := sentInvs + 1;
        }
      }
    }

    /** MESIBottomCC::processInval. Dirty data collected from below passes through c on a downgrade. */
    method ProcessInval(c: nat, kind: InvType, reqWriteback: bool) returns (wb: bool)
      requires c < |nodes| && (kind == INVX ==> nodes[c].state == I || Owned(nodes[c].state))
      modifies this`nodes
      ensures wb == (reqWriteback || old(nodes)[c].state == M)
      ensures old(nodes)[c].state == I ==> nodes == old(nodes)
      ensures old(nodes)[c].state != I ==>
                nodes == old(nodes)[c := old(nodes)[c].(state := if kind == INV then I else S,
                latest := old(nodes)[c].latest || (kind == INVX && reqWriteback))]
    {
      wb := reqWriteback;
      if nodes[c].state != I {
        match kind
        case INVX =>
          assert nodes[c].state == E || nodes[c].state == M;
          if nodes[c].state == M {
            wb := true;
          }
          nodes := nodes[c := nodes[c].(state := S, latest := nodes[c].latest || reqWriteback)];
        case INV =>
          if nodes[c].state == M {
            wb := true;
          }
          nodes := nodes[c := nodes[c].(state := I)];
      }
    }

    /** Cache::invalidate on cache c, which holds the line: first its children, then its own copy. */
    method Invalidate(c: nat, kind: InvType, reqWriteback: bool) returns (wb: bool)
      requires Tree(parent) && |nodes| == |parent| && c < |parent| && SubtreesOk(parent, nodes, {c})
      requires nodes[c].cached && (if kind == INV then nodes[c].state != I else Owned(nodes[c].state))
      modifies this`nodes
      ensures nodes == Wave(parent, old(nodes), {c}, kind)
      ensures wb == (reqWriteback || Dirty(parent, old(nodes), {c}))
      decreases |parent| - c, 1
    {
      InvalidateIsWave(parent, nodes, c, kind);
      InvalidateReady(parent, nodes, c, kind);
      wb := SendInvalidates(c, kind, reqWriteback);
      wb := ProcessInval(c, kind, wb);
    }

    /** MESIBottomCC::processWritebackOnAccess: a cache that collected dirty data is dirty itself. */
    method ProcessWriteback(p: nat)
      requires p < |nodes| && Owned(nodes[p].state)
      modifies this`nodes
      ensures nodes == old(nodes)[p := old(nodes)[p].(state := M, latest := true)]
    {
      assert nodes[p].state == M || nodes[p].state == E;
      nodes := nodes[p := nodes[p].(state := M, latest := true)];
    }

    /** MESIBottomCC and MESITopCC::processAccess for a PUT that passed the race check. */
    method AnswerPut(p: nat, c: nat, kind: AccessType)
      requires Valid() && !IsGet(kind) && CanAnswer(parent, nodes, p, c, kind)
      modifies this`nodes
      ensures nodes == Answered(parent, old(nodes), p, c, kind, false)
    {
      assert NodeOk(parent, nodes, p);
      assert nodes[p].state != I;
      if kind == PUTX {
        assert nodes[p].state == M || nodes[p].state == E;
        nodes := nodes[p := nodes[p].(state := M, latest := nodes[c].latest)];
        assert nodes[p].dir.IsExclusive();
      }
      assert c in nodes[p].dir.sharers;
      nodes := nodes[p := nodes[p].(dir := nodes[p].dir.(sharers := nodes[p].dir.sharers - {c},
      numSharers := nodes[p].dir.numSharers - 1))];
      nodes := nodes[c := nodes[c].(state := I)];
    }

    /** The end of a GET: p's new entry, c's new state, and E to M in p if dirty data came back. */
    method GiveToChild(p: nat, c: nat, entry: Entry, state: MESI, wb: bool)
      requires p < c < |nodes| && (wb ==> Owned(nodes[p].state))
      modifies this`nodes
      ensures
        var a := if wb then old(nodes)[p := old(nodes)[p].(state := M, latest := true)] else old(nodes);
        nodes == a[p := a[p].(dir := entry)][c := a[c].(state := state, latest := a[p].latest)]
    {
      nodes := nodes[p := nodes[p].(dir := entry)];
      nodes := nodes[c := nodes[c].(state := state, latest := nodes[p].latest || wb)];
      if wb {
        ProcessWriteback(p);
      }
    }

    /** MESITopCC::processAccess for a GETS, and the write-back it may induce in p. */
    method AnswerGets(p: nat, c: nat, noExcl: bool)
      requires Valid() && CanAnswer(parent, nodes, p, c, GETS)
      modifies this`nodes
      ensures nodes == Answered(parent, old(nodes), p, c, GETS, noExcl)
    {
      if nodes[p].dir.IsEmpty() && (nodes[p].state == E || nodes[p].state == M) && !noExcl {
        assert NodeOk(parent, nodes, p);
        nodes := nodes[p := nodes[p].(dir := Entry(1, nodes[p].dir.sharers + {c}, true))];
        nodes := nodes[c := nodes[c].(state := E, latest := nodes[p].latest)];
      } else {
        ShareReady(parent, nodes, memory, p, c);
        AnswerShared(p, c, noExcl);
      }
    }

    method AnswerShared(p: nat, c: nat, noExcl: bool)
      requires Tree(parent) && |nodes| == |parent| && p < c < |parent| && c !in nodes[p].dir.sharers
      requires !(nodes[p].dir.IsEmpty() && Owned(nodes[p].state) && !noExcl)
      requires nodes[p].dir.IsExclusive() ==>
                 && SendReady(parent, nodes, p)
                 && (Induces(parent, nodes, p, INVX) ==> Owned(nodes[p].state))
      modifies this`nodes
      ensures nodes == Answered(parent, old(nodes), p, c, GETS, noExcl)
    {
      hide Answered, Sent, Induces, Tree;
      SharedAnswer(parent, nodes, p, c, noExcl);
      assert c !in nodes[p].dir.sharers;
      var wb := false;
      if nodes[p].dir.IsExclusive() {
        wb := SendInvalidates(p, INVX, false);
      }
      assert !nodes[p].dir.IsExclusive();
      GiveToChild(p, c, Entry(nodes[p].dir.numSharers + 1, nodes[p].dir.sharers + {c}, false), S, wb);
    }

    /** MESITopCC::processAccess for a GETX, and the write-back it may induce in p. */
    method AnswerGetx(p: nat, c: nat)
      requires Tree(parent) && |nodes| == |parent| && p < c < |parent| && Owned(nodes[p].state)
      requires c in nodes[p].dir.sharers ==>
                 !nodes[p].dir.IsExclusive() && nodes[p].dir.numSharers == |nodes[p].dir.sharers| > 0
      requires SendReady(parent, nodes[p := WithoutSharer(nodes[p], c)], p)
      modifies this`nodes
      ensures nodes == Answered(parent, old(nodes), p, c, GETX, false)
    {
      assert nodes[p].state == E || nodes[p].state == M;
      if c in nodes[p].dir.sharers {
        assert !nodes[p].dir.IsExclusive();
        nodes := nodes[p := nodes[p].(dir := nodes[p].dir.(sharers := nodes[p].dir.sharers - {c},
        numSharers := nodes[p].dir.numSharers - 1))];
      }
      ghost var a := old(nodes)[p := WithoutSharer(old(nodes)[p], c)];
      assert nodes == a;
      SentInvEntry(parent, a, p);
      var wb := SendInvalidates(p, INV, false);
      assert {} + {c} == {c};
      assert nodes[p].dir.numSharers + 1 == 1;
      GiveToChild(p, c, Entry(nodes[p].dir.numSharers + 1, nodes[p].dir.sharers + {c}, true), M, wb);
    }

    /** Makes room for the line, whose fresh directory entry may carry a stale exclusive bit. */
    method Allocate(n: nat)
      requires Valid() && n < |parent| && nodes[n].request.NoRequest?
      modifies this`nodes
      ensures Valid() && nodes[n].cached && nodes[n].request.NoRequest? && nodes[n].state == old(nodes)[n].state
      ensures nodes[n].latest == old(nodes)[n].latest
      ensures old(nodes)[n].cached ==> nodes == old(nodes)
      ensures forall m :: 0 <= m < |parent| && m != n ==> nodes[m] == old(nodes)[m]
    {
      if !nodes[n].cached {
        assert NodeOk(parent, nodes, n) && WaitOk(parent, nodes, n, |parent|);
        assert n > 0 ==> WaitOk(parent, nodes, parent[n], |parent|);
        var stale: bool := *;
        var x := nodes[n].(cached := true, dir := nodes[n].dir.(exclusive := stale));
        BookkeepingKeepsInv(parent, nodes, memory, |parent|, n, x, |parent|);
        nodes := nodes[n := x];
      }
    }

    /** Sends a request up and releases the lock: from here on the parent may invalidate this cache. */
    method Issue(n: nat, kind: AccessType, noExcl: bool, work: Work)
      requires Valid() && 0 < n < |parent| && nodes[n].request.NoRequest? && nodes[n].cached && work != Idle
      requires WaitOk(parent, nodes[n := nodes[n].(request := Request(kind, nodes[n].state, noExcl), work := work)], n,
                      |parent|)
      modifies this`nodes
      ensures Valid() && nodes == old(nodes)[n := old(nodes)[n].(request := Request(kind, old(nodes)[n].state, noExcl),
                                  work := work)]
    {
      assert WaitOk(parent, nodes, parent[n], |parent|) && WaitOk(parent, nodes, n, |parent|);
      var x := nodes[n].(request := Request(kind, nodes[n].state, noExcl), work := work);
      BookkeepingKeepsInv(parent, nodes, memory, |parent|, n, x, |parent|);
      nodes := nodes[n := x];
    }

    /** The core writes the line that its cache owns. */
    method Write(l: nat)
      requires Valid() && l < |parent| && Leaf(parent, l) && Owned(nodes[l].state) && nodes[l].request.NoRequest?
      modifies this
      ensures Valid() && nodes == Stored(parent, old(nodes), l) && !memory
    {
      StoreKeepsInv(parent, nodes, memory, l);
      nodes := Stored(parent, nodes, l);
      memory := false;
    }

    /** A core's load: a hit reads the latest data, a miss issues a GETS. */
    method Load(l: nat, noExcl: bool) returns (hit: bool)
      requires Valid() && l < |parent| && Leaf(parent, l) && nodes[l].request.NoRequest?
      modifies this`nodes
      ensures Valid() && (hit <==> old(nodes)[l].state != I || l == 0)
      ensures hit ==> nodes[l].state != I && nodes[l].latest && nodes[l].request.NoRequest?
      ensures hit ==>
                var s := old(nodes)[l].state;
                nodes[l].state == if s != I then s else if noExcl then S else E
      ensures !hit ==> nodes[l].request == Request(GETS, I, noExcl) && nodes[l].work == Core && nodes[l].state == I
      ensures forall m :: 0 <= m < |parent| && m != l ==> nodes[m] == old(nodes)[m]
    {
      Allocate(l);
      hit := true;
      if nodes[l].state == I {
        if l == 0 {
          FetchKeepsInv(parent, nodes, memory, GETS, noExcl);
          nodes := nodes[0 := Fetched(nodes[0], GETS, noExcl, memory)];
        } else {
          hit := false;
          Issue(l, GETS, noExcl, Core);
        }
      }
      if hit {
        LeafIsLatest(parent, nodes, l);
      }
    }

    /** A core's store: a hit in E or M writes at once, otherwise a GETX is issued. */
    method Store(l: nat) returns (hit: bool)
      requires Valid() && l < |parent| && Leaf(parent, l) && nodes[l].request.NoRequest?
      modifies this
      ensures Valid() && (hit <==> Owned(old(nodes)[l].state) || l == 0)
      ensures hit ==> nodes[l].state == M && nodes[l].latest && !memory && nodes[l].request.NoRequest?
      ensures !hit ==>
                && nodes[l].request == Request(GETX, old(nodes)[l].state, false) && nodes[l].work == Core
                && nodes[l].state == old(nodes)[l].state && nodes[l].latest == old(nodes)[l].latest
                && memory == old(memory)
                && forall m :: 0 <= m < |parent| && m != l ==> nodes[m] == old(nodes)[m]
      ensures hit && l != 0 ==>
                forall m :: 0 <= m < |parent| && m != l ==> nodes[m] == old(nodes)[m].(latest := false)
    {
      Allocate(l);
      hit := true;
      if nodes[l].state == I || nodes[l].state == S {
        if l == 0 {
          FetchKeepsInv(parent, nodes, memory, GETX, false);
          nodes := nodes[0 := Fetched(nodes[0], GETX, false, memory)];
        } else {
          hit := false;
          Issue(l, GETX, false, Core);
        }
      }
      if hit {
        Write(l);
      }
    }

    /** Evicts the line: invalidates everything below, then drops a clean copy or issues the write-back. */
    method Evict(n: nat)
      requires Valid() && n < |parent| && nodes[n].request.NoRequest? && nodes[n].cached
      modifies this
      ensures Valid()
      ensures nodes[n].request.NoRequest? ==> nodes[n].state == I && !nodes[n].cached
      ensures nodes[n].request.Request? ==> n > 0 && nodes[n].work == Evicting && memory == old(memory)
      ensures nodes[n].request.Request? ==> nodes[n].request.kind == if nodes[n].state == M then PUTX else PUTS
      ensures n > 0 ==> (nodes[n].request.Request? <==> old(nodes)[n].state != I)
      ensures n == 0 ==> memory == (old(memory) || Dirty(parent, old(nodes), {0}))
      ensures n > 0 ==>
                (Dirty(parent, old(nodes), {n}) <==> nodes[n].request.Request? && nodes[n].request.kind == PUTX)
      ensures forall m :: 0 <= m < |parent| && !Under(parent, {n}, m) ==> nodes[m] == old(nodes)[m]
      ensures forall m :: 0 <= m < |parent| && m != n && Under(parent, {n}, m) ==> nodes[m].state == I
    {
      CollectKeepsInv(parent, nodes, memory, n);
      CollectEmpties(parent, nodes, memory, n);
      CollectFinds(parent, nodes, memory, n);
      var wb := SendInvalidates(n, INV, false);
      if wb {
        ProcessWriteback(n);
      }
      if nodes[n].state == I || n == 0 {
        Drop(n);
      } else {
        Issue(n, if nodes[n].state == M then PUTX else PUTS, false, Evicting);
      }
    }

    /** The line leaves the array; the root's dirty copy goes to memory first. */
    method Drop(n: nat)
      requires Valid() && n < |parent| && nodes[n].request.NoRequest? && nodes[n].dir.sharers == {}
      requires n > 0 ==> nodes[n].state == I
      modifies this
      ensures Valid() && nodes == old(nodes)[n := old(nodes)[n].(state := I, cached := false)]
      ensures memory == (old(memory) || (n == 0 && old(nodes)[0].state == M))
    {
      DropKeepsInv(parent, nodes, memory, n);
      if nodes[n].state == M {
        memory := nodes[n].latest;
      }
      nodes := nodes[n := nodes[n].(state := I, cached := false)];
    }

    /** What a core finds when its access is done: the latest data, written if it asked for exclusivity. */
    ghost predicate Served(kind: AccessType, l: nat)
      reads this
    {
      && l < |parent| && l < |nodes| && Leaf(parent, l) && nodes[l].latest
      && match kind
         case GETS => nodes[l].state == S || nodes[l].state == E
         case GETX => nodes[l].state == M && !memory
         case _ => false
    }

    /** The core that is served is the one on whose behalf c was waiting before. */
    ghost predicate ServedFor(before: seq<Node>, c: nat, kind: AccessType, l: nat)
      reads this
    {
      && Served(kind, l) && nodes[l].request.NoRequest? && l == Requester(before, c)
      && l < |before| && before[l].work == Core && Tree(parent) && Under(parent, {c}, l)
    }

    /** Cache c's request has been answered: it drops what it evicted, lets its core access the line, or
        answers the child it was serving, whose request is then complete in turn. */
    method Complete(c: nat) returns (l: nat)
      requires Inv(parent, nodes, memory, c) && c < |parent|
      modifies this
      ensures Valid() && old(nodes)[c].request.Request?
      ensures IsGet(old(nodes)[c].request.kind) ==> ServedFor(old(nodes), c, old(nodes)[c].request.kind, l)
      ensures old(nodes)[c].request.kind == GETS ==> CopiesKept(old(nodes), nodes)
      ensures old(nodes)[c].request.kind == GETS && NothingBelow(parent, old(nodes), c)
              && (old(nodes)[c].request.noExcl ==> old(nodes)[c].state == S)
              ==> l < |nodes| && nodes[l].state == old(nodes)[c].state
      ensures !IsGet(old(nodes)[c].request.kind) ==>
                nodes == old(nodes)[c := old(nodes)[c].(cached := false, request := NoRequest, work := Idle)]
                && memory == old(memory)
      ensures Completed(old(nodes), nodes, c)
      decreases |parent| - c
    {
      hide Answered;
      var x := nodes[c];
      Retire(c);
      ghost var mid := nodes;
      l := c;
      match x.work
      case Evicting =>
        CompletedAlone(old(nodes), mid, nodes, c);
      case Core =>
        CoreAccess(c, x.request.kind);
        CompletedAlone(old(nodes), mid, nodes, c);
      case Serving(d) =>
        ServingRequester(parent, old(nodes), nodes, c, d, x.request.kind, nodes[d].request.noExcl);
        if x.request.kind == GETS {
          AnswerGetsGrants(parent, mid, memory, c, d, x.request.noExcl);
        }
        Answer(c, d, x.request.kind, nodes[d].request.noExcl);
        AnsweredKeepsBooks(parent, mid, c, d, x.request.kind, mid[d].request.noExcl);
        ghost var answered := nodes;
        l := Complete(d);
        UnderTransitive(parent, {d}, {c}, l);
        CompletedWithChild(old(nodes), mid, answered, nodes, c, d);
    }

    /** Takes an answered request off the books; the cache is idle again, and an evicted line is gone. */
    method Retire(c: nat)
      requires Inv(parent, nodes, memory, c) && c < |parent|
      modifies this`nodes
      ensures Valid() && old(nodes)[c].request.Request?
      ensures
        var x := old(nodes)[c];
        && nodes == old(nodes)[c := x.(request := NoRequest, work := Idle, cached := x.cached && !x.work.Evicting?)]
        && (x.work.Evicting? ==> !IsGet(x.request.kind) && x.state == I)
        && (x.work.Core? ==> IsGet(x.request.kind) && Leaf(parent, c) && AnsweredOk(x.request.kind, x.state))
        && (x.work.Serving? ==> IsGet(x.request.kind) && CanAnswer(parent, nodes, c, x.work.child, x.request.kind)
                                && nodes[x.work.child].request.noExcl == x.request.noExcl)
        && (x.request.kind == GETS ==> x.state == S || x.state == E)
        && x.work != Idle
    {
      var x := nodes[c];
      CompleteKeepsInv(parent, nodes, memory, c);
      nodes := nodes[c := x.(request := NoRequest, work := Idle, cached := x.cached && !x.work.Evicting?)];
    }

    method CoreAccess(l: nat, kind: AccessType)
      requires Valid() && l < |parent| && Leaf(parent, l) && nodes[l].request.NoRequest?
      requires IsGet(kind) && AnsweredOk(kind, nodes[l].state)
      modifies this
      ensures Valid() && Served(kind, l) && nodes[l].request.NoRequest? && AllBooks(old(nodes), nodes)
      ensures kind == GETS ==> nodes == old(nodes)
    {
      LeafIsLatest(parent, nodes, l);
      if kind == GETX {
        Write(l);
      }
    }

    /** processAccess of the non-terminal controller, once the line is in a good state in p. */
    method Answer(p: nat, c: nat, kind: AccessType, noExcl: bool)
      requires Valid() && CanAnswer(parent, nodes, p, c, kind)
      modifies this`nodes
      ensures nodes == Answered(parent, old(nodes), p, c, kind, noExcl) && Inv(parent, nodes, memory, c)
    {
      AnswerKeepsInv(parent, nodes, memory, p, c, kind, noExcl);
      match kind
      case GETS => AnswerGets(p, c, noExcl);
      case GETX =>
        GetxReady(parent, nodes, memory, p, c);
        AnswerGetx(p, c);
      case _ => AnswerPut(p, c, kind);
    }

    /** The parent of c takes its request: race check, allocation, and either an answer at once or a request
        of its own to the next level. None of the panics can be reached. */
    method Accept(c: nat)
      requires Valid() && 0 < c < |parent| && nodes[c].request.Request? && nodes[parent[c]].work == Idle
      modifies this
      ensures Valid()
      ensures old(CheckForMESIRace(nodes[c].request.kind, nodes[c].state, nodes[c].request.initialState)) != Panic
      ensures !IsGet(old(nodes)[c].request.kind) ==>
                && nodes[c].state == I && !nodes[c].cached && nodes[c].request.NoRequest?
                && nodes[parent[c]].state == (if old(nodes)[c].state == M then M else old(nodes)[parent[c]].state)
                && forall m :: 0 <= m < |parent| && m != c && m != parent[c] ==> nodes[m] == old(nodes)[m]
      ensures IsGet(old(nodes)[c].request.kind) ==>
                var kind, p := old(nodes)[c].request.kind, parent[c];
                if p == 0 || Suffices(kind, old(nodes)[p].state) then
                  ServedFor(old(nodes), c, kind, Requester(old(nodes), c))
                else
                  && Passed(kind, p, c) && nodes[p].state == old(nodes)[p].state && memory == old(memory)
                  && forall m :: 0 <= m < |parent| && m != p ==> nodes[m] == old(nodes)[m]
      ensures
        var r, p, l := old(nodes)[c].request, parent[c], Requester(old(nodes), c);
        r.kind == GETS && (p == 0 || Suffices(GETS, old(nodes)[p].state)) ==>
          && CopiesKept(old(nodes), nodes)
          && nodes[l].state == GrantedState(parent, old(nodes), p, r.noExcl)
      ensures ToGo(parent, nodes, |parent|) < ToGo(parent, old(nodes), |parent|)
    {
      hide Completed, ToGo, AllBooks, Requester, Under, GrantedState, CopiesKept, NothingBelow;
      var p := parent[c];
      assert WaitOk(parent, nodes, c, |parent|) && WaitOk(parent, nodes, p, |parent|) && NodeOk(parent, nodes, p);
      var r := nodes[c].request;
      RaceCheckIsSafe(r.kind, r.initialState, nodes[c].state);
      match CheckForMESIRace(r.kind, nodes[c].state, r.initialState)
      case Panic =>
        assert false;
      case Skip =>
        SkipKeepsInv(parent, nodes, memory, c);
        var l := Complete(c);
        CompletedLowers(parent, old(nodes), nodes, c);
      case Proceed(kind) =>
        if IsGet(kind) {
          var done, l := AcceptGet(p, c, kind, r.noExcl);
          if done {
            CompletedLowers(parent, old(nodes), nodes, c);
          } else {
            PassedLowers(parent, old(nodes), nodes, p, c);
          }
        } else {
          AcceptPut(p, c, kind);
          CompletedLowers(parent, old(nodes), nodes, c);
        }
    }

    method AcceptPut(p: nat, c: nat, kind: AccessType)
      requires Valid() && CanAnswer(parent, nodes, p, c, kind) && !IsGet(kind)
      modifies this
      ensures Valid() && Completed(old(nodes), nodes, c)
      ensures nodes[c].state == I && !nodes[c].cached && nodes[c].request.NoRequest?
      ensures nodes[p].state == if kind == PUTX then M else old(nodes)[p].state
      ensures forall m :: 0 <= m < |parent| && m != c && m != p ==> nodes[m] == old(nodes)[m]
    {
      hide Completed, AllBooks, Requester, Under;
      assert WaitOk(parent, nodes, c, |parent|);
      AnsweredKeepsBooks(parent, nodes, p, c, kind, false);
      Answer(p, c, kind, false);
      ghost var answered := nodes;
      var l := Complete(c);
      CompletedFrom(old(nodes), answered, nodes, c);
    }

    /** p has sent the request on to its own parent, on behalf of c. */
    ghost predicate Passed(kind: AccessType, p: nat, c: nat)
      reads this
    {
      && 0 < p < |nodes| && c < |nodes|
      && nodes[p].request.Request? && nodes[p].request.kind == kind && nodes[p].work == Serving(c)
      && nodes[c].request.Request? && nodes[c].request.kind == kind
    }

    method AcceptGet(p: nat, c: nat, kind: AccessType, noExcl: bool) returns (done: bool, l: nat)
      requires Valid() && p < c < |parent| && parent[c] == p && IsGet(kind)
      requires nodes[c].request.Request? && nodes[c].request.kind == kind && nodes[p].request.NoRequest?
      requires nodes[c].request.noExcl == noExcl
      modifies this
      ensures Valid() && if done then ServedFor(old(nodes), c, kind, l) else Passed(kind, p, c)
      ensures done <==> p == 0 || Suffices(kind, old(nodes)[p].state)
      ensures done ==> Completed(old(nodes), nodes, c)
      ensures done && kind == GETS ==>
                CopiesKept(old(nodes), nodes) && nodes[l].state == GrantedState(parent, old(nodes), p, noExcl)
      ensures !done ==>
                && |nodes| == |old(nodes)| && nodes[p].state == old(nodes)[p].state && memory == old(memory)
                && forall m :: 0 <= m < |nodes| && m != p ==> nodes[m] == old(nodes)[m]
    {
      hide Requester, Tree, Under, Completed, CopiesKept, NothingBelow, Served, NodeOk, WaitOk;
      l := 0;
      NoRequestNoWork(parent, nodes, memory, p);
      assert NodeOk(parent, nodes, p);
      EmptyEntryMeansNothingBelow(parent, nodes, p);
      Allocate(p);
      done := Obtain(p, c, kind, noExcl);
      if done {
        NoRequestNoWork(parent, nodes, memory, p);
        assert AllBooks(old(nodes), nodes);
        ghost var mid := nodes;
        RequesterFrame(old(nodes), mid, c);
        l := Respond(p, c, kind, noExcl);
        CompletedFrom(old(nodes), mid, nodes, c);
        FromParent(parent, old(nodes), mid, nodes, p);
      }
    }

    /** p answers c, whose request is then complete. */
    method Respond(p: nat, c: nat, kind: AccessType, noExcl: bool) returns (l: nat)
      requires Valid() && CanAnswer(parent, nodes, p, c, kind) && IsGet(kind) && nodes[c].request.noExcl == noExcl
      modifies this
      ensures Valid() && ServedFor(old(nodes), c, kind, l) && Completed(old(nodes), nodes, c)
      ensures kind == GETS ==>
                && CopiesKept(old(nodes), nodes)
                && nodes[l].state == (if !noExcl && Owned(old(nodes)[p].state) && NothingBelow(parent, old(nodes), p)
                                      then E else S)
    {
      hide Answered, Requester, Tree, Under, Completed;
      if kind == GETS {
        AnswerGetsGrants(parent, nodes, memory, p, c, noExcl);
      }
      AnsweredRequester(parent, old(nodes), nodes, p, c, kind, noExcl);
      AnsweredKeepsBooks(parent, nodes, p, c, kind, noExcl);
      Answer(p, c, kind, noExcl);
      ghost var answered := nodes;
      l := Complete(c);
      CompletedFrom(old(nodes), answered, nodes, c);
    }

    /** MESIBottomCC::processAccess for a GET: if p's own permission does not suffice, ask the next level. */
    method Obtain(p: nat, c: nat, kind: AccessType, noExcl: bool) returns (done: bool)
      requires Valid() && p < c < |parent| && parent[c] == p && IsGet(kind) && nodes[p].cached
      requires nodes[c].request.Request? && nodes[c].request.kind == kind && nodes[p].request.NoRequest?
      requires nodes[c].request.noExcl == noExcl
      modifies this`nodes
      ensures Valid()
      ensures if done then CanAnswer(parent, nodes, p, c, kind) && nodes[p].request.NoRequest? else Passed(kind, p, c)
      ensures done <==> p == 0 || Suffices(kind, old(nodes)[p].state)
      ensures done && kind == GETS ==>
                nodes[p].state == if old(nodes)[p].state != I then old(nodes)[p].state else if noExcl then S else E
      ensures !done ==> nodes[p].state == old(nodes)[p].state
      ensures forall m :: 0 <= m < |parent| && m != p ==> nodes[m] == old(nodes)[m]
    {
      done := true;
      if nodes[p].state == I || (kind == GETX && nodes[p].state == S) {
        if p > 0 {
          Issue(p, kind, noExcl, Serving(c));
          return false;
        }
        FetchKeepsInv(parent, nodes, memory, kind, noExcl);
        nodes := nodes[0 := Fetched(nodes[0], kind, noExcl, memory)];
      } else if kind == GETX {
        SilentUpgradeKeepsInv(parent, nodes, memory, p);
        nodes := nodes[p := nodes[p].(state := M)];
      }
      assert WaitOk(parent, nodes, p, |parent|);
    }
  }
}
