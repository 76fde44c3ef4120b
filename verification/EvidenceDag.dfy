/**
  The receipt evidence check: a content-addressed graph of evidence nodes, walked depth first from
  the receipt's node with three colours and Lamport clocks.

  SHA-256 is a free constructor: `Digest(c)` is the hash of the content `c`, `Hash(n)` a well-formed
  hash that no node in view hashes to, and `Text(s)` a string that is not a well-formed hash.
 */
module EvidenceDag {
  import Utf16
  import opened Wrappers

  datatype Ref = Digest(content: Content) | Hash(n: nat) | Text(s: string)

  datatype Content = Content(parents: seq<Ref>, artifacts: seq<string>,
                             session: string, reservation: string, lamport: int)

  datatype Node = Node(hash: Ref, content: Content)

  datatype Receipt = Receipt(session: string, reservation: string, lamport: int, top: Ref,
                             receiptId: string, previousId: string, chainId: string,
                             packRef: string, packHash: string)

  datatype Outcome =
    | Accepted
    | Empty | BadHash | Duplicate | Unbound | Unsafe | Escaped | NotBefore | BadRefs | Forbidden | NoTop
    | Missing | OutOfOrder | Cycle

  type Graph = map<Ref, Content>

  // ----- per-node checks

  /** A reference list is strictly increasing and has no empty entry. */
  predicate CanonicalRefs(refs: seq<string>) {
    && (forall i :: 0 <= i < |refs| ==> refs[i] != "")
    && (forall i :: 0 < i < |refs| ==> Utf16.CodePointLess(refs[i - 1], refs[i]))
  }

  function Texts(text: Ref -> string, refs: seq<Ref>): seq<string> {
    seq(|refs|, i requires 0 <= i < |refs| => text(refs[i]))
  }

  function Lower(s: string): string {
    seq(|s|, i requires 0 <= i < |s| =>
      if 'A' <= s[i] <= 'Z' then (s[i] as int + 32) as char else s[i])
  }

  predicate LooksLikeReceiptId(s: string) {
    |s| == 64 && forall i :: 0 <= i < 64 ==> '0' <= s[i] <= '9' || 'a' <= s[i] <= 'f'
  }

  /** The artifact names a receipt or an EvidencePack, in any letter case. */
  predicate NamesReceipt(r: Receipt, artifact: string) {
    var s := Lower(artifact);
    || s in {Lower(r.receiptId), Lower(r.previousId), Lower(r.chainId), Lower(r.packRef), Lower(r.packHash),
             Lower("sha256:" + r.receiptId), Lower("sha256:" + r.previousId)}
    || "receipt:" <= s || "evidencepack:" <= s || LooksLikeReceiptId(s)
  }

  /** The checks made on one node, in order; `Accepted` when all pass. */
  function CheckNode(text: Ref -> string, r: Receipt, seen: Graph, n: Node): (o: Outcome)
    ensures o != Cycle
  {
    if n.hash.Text? then BadHash
    else if n.hash in seen then Duplicate
    else if n.content.lamport < -MAX_SAFE_INTEGER || n.content.lamport > MAX_SAFE_INTEGER then Unsafe
    else if n.hash != Digest(n.content) then Unbound
    else if n.content.session != r.session || n.content.reservation != r.reservation then Escaped
    else if n.content.lamport < 1 || n.content.lamport >= r.lamport then NotBefore
    else if !CanonicalRefs(Texts(text, n.content.parents)) || !CanonicalRefs(n.content.artifacts) then BadRefs
    else if exists i :: 0 <= i < |n.content.parents| && n.content.parents[i].Text? then BadRefs
    else if exists i :: 0 <= i < |n.content.artifacts| && NamesReceipt(r, n.content.artifacts[i]) then Forbidden
    else Accepted
  }

  /** What the checks on one node establish together. */
  ghost predicate Admissible(text: Ref -> string, r: Receipt, n: Node) {
    && n.hash == Digest(n.content)
    && n.content.session == r.session && n.content.reservation == r.reservation
    && 1 <= n.content.lamport < r.lamport && n.content.lamport <= MAX_SAFE_INTEGER
    && CanonicalRefs(Texts(text, n.content.parents)) && CanonicalRefs(n.content.artifacts)
    && (forall i :: 0 <= i < |n.content.parents| ==> !n.content.parents[i].Text?)
    && (forall i :: 0 <= i < |n.content.artifacts| ==> !NamesReceipt(r, n.content.artifacts[i]))
  }

  /** A node passes exactly when it is admissible and its hash is new. */
  lemma CheckNodeExact(text: Ref -> string, r: Receipt, seen: Graph, n: Node)
    ensures CheckNode(text, r, seen, n).Accepted? <==> Admissible(text, r, n) && n.hash !in seen
  {
  }

  function ByHash(nodes: seq<Node>): Graph {
    if nodes == [] then map[]
    else ByHash(nodes[..|nodes| - 1])[nodes[|nodes| - 1].hash := nodes[|nodes| - 1].content]
  }

  /** Every node passes its checks, given the nodes before it. */
  predicate NodesPass(text: Ref -> string, r: Receipt, nodes: seq<Node>) {
    nodes == [] ||
    (var init := nodes[..|nodes| - 1];
     NodesPass(text, r, init) && CheckNode(text, r, ByHash(init), nodes[|nodes| - 1]).Accepted?)
  }

  lemma {:induction false} PassPrefix(text: Ref -> string, r: Receipt, nodes: seq<Node>, n: nat)
    requires NodesPass(text, r, nodes) && n <= |nodes|
    ensures NodesPass(text, r, nodes[..n])
  {
    if n < |nodes| {
      PassPrefix(text, r, nodes[..|nodes| - 1], n);
      assert nodes[..|nodes| - 1][..n] == nodes[..n];
    } else {
      assert nodes[..n] == nodes;
    }
  }

  predicate DistinctHashes(nodes: seq<Node>) {
    forall i, j :: 0 <= i < j < |nodes| ==> nodes[i].hash != nodes[j].hash
  }

  ghost predicate AllAdmissible(text: Ref -> string, r: Receipt, nodes: seq<Node>) {
    forall i :: 0 <= i < |nodes| ==> Admissible(text, r, nodes[i])
  }

  lemma {:induction false} HashFiled(nodes: seq<Node>, h: Ref)
    ensures h in ByHash(nodes) <==> exists i :: 0 <= i < |nodes| && nodes[i].hash == h
  {
    if nodes != [] {
      var init := nodes[..|nodes| - 1];
      HashFiled(init, h);
      if i :| 0 <= i < |init| && init[i].hash == h { assert nodes[i].hash == h; }
      if i :| 0 <= i < |nodes| && nodes[i].hash == h { assert i < |init| ==> init[i].hash == h; }
    }
  }

  /** The nodes pass one after the other exactly when each is admissible and no hash repeats. */
  lemma {:induction false} NodesPassExact(text: Ref -> string, r: Receipt, nodes: seq<Node>)
    ensures NodesPass(text, r, nodes) <==> AllAdmissible(text, r, nodes) && DistinctHashes(nodes)
  {
    if nodes != [] {
      var n := |nodes| - 1;
      var init := nodes[..n];
      NodesPassExact(text, r, init);
      CheckNodeExact(text, r, ByHash(init), nodes[n]);
      HashFiled(init, nodes[n].hash);
      assert forall i :: 0 <= i < n ==> init[i] == nodes[i];
      assert AllAdmissible(text, r, nodes) <==> AllAdmissible(text, r, init) && Admissible(text, r, nodes[n]);
      if nodes[n].hash !in ByHash(init) && DistinctHashes(init) {
        forall i, j | 0 <= i < j < |nodes| ensures nodes[i].hash != nodes[j].hash {
          if j == n { assert init[i].hash == nodes[i].hash; }
        }
      }
    }
  }

  // ----- the graph

  /** Each entry but the last is a node and names the next one as a parent. */
  ghost predicate Chain(g: Graph, w: seq<Ref>) {
    && w != []
    && forall i :: 0 <= i < |w| - 1 ==> w[i] in g && w[i + 1] in g[w[i]].parents
  }

  predicate ParentFits(g: Graph, x: Ref, p: Ref)
    requires x in g
  {
    p in g && g[p].lamport < g[x].lamport
  }

  /** The node is present and every parent is present with a strictly smaller clock. */
  predicate Sound(g: Graph, x: Ref) {
    x in g && forall i :: 0 <= i < |g[x].parents| ==> ParentFits(g, x, g[x].parents[i])
  }

  /** Everything reachable from `top` is sound. */
  ghost predicate AllSound(g: Graph, top: Ref) {
    forall w :: Chain(g, w) && w[0] == top ==> Sound(g, w[|w| - 1])
  }

  ghost predicate Repeats(w: seq<Ref>) {
    exists i :: 0 <= i < |w| - 1 && w[i] == w[|w| - 1]
  }

  lemma ChainExtend(g: Graph, w: seq<Ref>, p: Ref)
    requires Chain(g, w) && w[|w| - 1] in g && p in g[w[|w| - 1]].parents
    ensures Chain(g, w + [p])
  {
  }

  lemma ChainPrefix(g: Graph, w: seq<Ref>, n: nat)
    requires Chain(g, w) && 0 < n <= |w|
    ensures Chain(g, w[..n])
  {
  }

  lemma SoundAt(g: Graph, w: seq<Ref>, n: nat)
    requires Chain(g, w) && AllSound(g, w[0]) && n < |w|
    ensures Sound(g, w[n])
  {
    ChainPrefix(g, w, n + 1);
    assert w[..n + 1][0] == w[0] && w[..n + 1][n] == w[n];
  }

  /** Along a chain in a sound graph the clock falls at every step. */
  lemma {:induction false} ClockFalls(g: Graph, w: seq<Ref>, m: nat, n: nat)
    requires Chain(g, w) && AllSound(g, w[0]) && m <= n < |w|
    ensures w[m] in g && w[n] in g
    ensures g[w[n]].lamport <= g[w[m]].lamport - (n - m)
  {
    SoundAt(g, w, n);
    if m < n {
      ClockFalls(g, w, m, n - 1);
      SoundAt(g, w, n - 1);
      assert w[n - 1 + 1] in g[w[n - 1]].parents;
      assert ParentFits(g, w[n - 1], w[n]);
    }
  }

  lemma SoundHasNoRepeat(g: Graph, w: seq<Ref>)
    requires Chain(g, w) && AllSound(g, w[0])
    ensures !Repeats(w)
  {
    forall i | 0 <= i < |w| - 1 ensures w[i] != w[|w| - 1] {
      ClockFalls(g, w, i, |w| - 1);
    }
  }

  // ----- the walk

  class Walk {
    const g: Graph
    var state: map<Ref, int>

    constructor (g: Graph)
      ensures this.g == g && state == map[]
    {
      this.g := g;
      state := map[];
    }

    /** Nodes in progress are exactly those on `path`; finished nodes are sound with finished parents. */
    ghost predicate Consistent(path: seq<Ref>)
      reads this
    {
      && (forall x :: x in state ==> x in g && (state[x] == 1 || state[x] == 2))
      && (forall x :: x in path <==> x in state && state[x] == 1)
      && (forall x :: x in state && state[x] == 2 ==> Finished(x))
    }

    ghost predicate Finished(x: Ref)
      reads this
      requires x in g
    {
      forall i :: 0 <= i < |g[x].parents| ==>
        var p := g[x].parents[i];
        ParentFits(g, x, p) && p in state && state[p] == 2
    }

    ghost predicate Kept(was: map<Ref, int>)
      reads this
    {
      forall x :: x in was ==> x in state && (was[x] == 2 ==> state[x] == 2)
    }

    /** `w` runs from the root of the walk to the fault that `r` reports. */
    ghost predicate Explains(r: Outcome, w: seq<Ref>) {
      && Chain(g, w)
      && match r
         case Missing => !Sound(g, w[|w| - 1])
         case OutOfOrder => !Sound(g, w[|w| - 1])
         case Cycle => Repeats(w)
         case _ => false
    }

    /** Colours a new node as in progress. */
    method Begin(h: Ref, ghost path: seq<Ref>)
      requires Consistent(path) && h in g && h !in state
      modifies this
      ensures state == old(state)[h := 1] && Consistent(path + [h])
    {
      state := state[h := 1];
      forall x | x in state && state[x] == 2 ensures Finished(x) {
        assert x != h && old(Finished(x));
      }
    }

    /** Colours a node in progress as finished, once its parents are. */
    method Finish(h: Ref, ghost path: seq<Ref>)
      requires Consistent(path + [h]) && h !in path && h in g && Finished(h)
      modifies this
      ensures state == old(state)[h := 2] && Consistent(path)
    {
      ghost var trail := path + [h];
      state := state[h := 2];
      forall x ensures x in path <==> x in state && state[x] == 1 {
        assert x in trail <==> x in path || x == h;
      }
    }

    /**
      Visits one node. Success colours it finished; a failure comes with a chain that continues the
      current path up to the fault.
     */
    method Visit(h: Ref, ghost path: seq<Ref>) returns (r: Outcome, ghost w: seq<Ref>)
      requires Consistent(path) && Chain(g, path + [h])
      modifies this
      ensures r.Accepted? ==> Consistent(path) && h in state && state[h] == 2
      ensures r.Accepted? ==> Kept(old(state))
      ensures !r.Accepted? ==> Explains(r, w) && path + [h] <= w
      decreases g.Keys - state.Keys
    {
      w := path + [h];
      if h in state && state[h] == 1 {
        ghost var i :| 0 <= i < |path| && path[i] == h;
        assert w[i] == w[|w| - 1];
        return Cycle, w;
      }
      if h in state && state[h] == 2 {
        return Accepted, w;
      }
      if h !in g {
        return Missing, w;
      }
      Begin(h, path);
      ghost var trail := path + [h];
      ghost var was := state;
      var parents := g[h].parents;
      for i := 0 to |parents|
        invariant Consistent(trail) && Kept(was)
        invariant forall j :: 0 <= j < i ==>
          ParentFits(g, h, parents[j]) && parents[j] in state && state[parents[j]] == 2
      {
        var p := parents[i];
        if p !in g {
          assert !ParentFits(g, h, p);
          return Missing, trail;
        }
        ChainExtend(g, trail, p);
        assert h in state;
        ghost var before := state;
        r, w := Visit(p, trail);
        if !r.Accepted? {
          return;
        }
        assert Kept(was) by {
          forall x | x in was ensures x in state && (was[x] == 2 ==> state[x] == 2) {
            assert x in before;
          }
        }
        if g[p].lamport >= g[h].lamport {
          assert !ParentFits(g, h, parents[i]);
          return OutOfOrder, trail;
        }
        assert forall j :: 0 <= j < i ==> parents[j] in before;
      }
      Finish(h, path);
      r := Accepted;
    }
  }

  /** A set of sound nodes that contains its own parents contains every chain that starts in it. */
  ghost predicate Closed(g: Graph, done: set<Ref>) {
    forall x :: x in done ==> Sound(g, x) && forall i :: 0 <= i < |g[x].parents| ==> g[x].parents[i] in done
  }

  lemma {:induction false} ClosedReaches(g: Graph, done: set<Ref>, w: seq<Ref>)
    requires Closed(g, done) && Chain(g, w) && w[0] in done
    ensures w[|w| - 1] in done
  {
    if |w| > 1 {
      var u := w[..|w| - 1];
      ChainPrefix(g, w, |w| - 1);
      ClosedReaches(g, done, u);
      assert u[|u| - 1] == w[|w| - 2];
    }
  }

  lemma ClosedSound(g: Graph, done: set<Ref>, top: Ref)
    requires Closed(g, done) && top in done
    ensures AllSound(g, top)
  {
    forall w | Chain(g, w) && w[0] == top ensures Sound(g, w[|w| - 1]) {
      ClosedReaches(g, done, w);
    }
  }

  // ----- content addressing rules cycles out

  /** Every node is filed under the hash of its own content. */
  ghost predicate Bound(g: Graph) {
    forall x :: x in g ==> x == Digest(g[x])
  }

  function Height(r: Ref): nat {
    match r
    case Digest(c) => 1 + MaxHeight(c.parents)
    case _ => 0
  }

  function MaxHeight(refs: seq<Ref>): (m: nat)
    ensures forall i :: 0 <= i < |refs| ==> Height(refs[i]) <= m
  {
    if refs == [] then 0
    else
      var m, h := MaxHeight(refs[1..]), Height(refs[0]);
      assert forall i :: 0 < i < |refs| ==> refs[i] == refs[1..][i - 1];
      if h > m then h else m
  }

  lemma {:induction false} HeightFalls(g: Graph, w: seq<Ref>, i: nat)
    requires Bound(g) && Chain(g, w) && i < |w| - 1
    ensures Height(w[|w| - 1]) < Height(w[i])
    decreases |w| - i
  {
    assert w[i + 1] in g[w[i]].parents;
    var k :| 0 <= k < |g[w[i]].parents| && g[w[i]].parents[k] == w[i + 1];
    if i + 1 < |w| - 1 { HeightFalls(g, w, i + 1); }
  }

  /** A content-bound graph has no parent cycle at all, sound or not. */
  lemma BoundAcyclic(g: Graph, w: seq<Ref>)
    requires Bound(g) && Chain(g, w)
    ensures !Repeats(w)
  {
    forall i | 0 <= i < |w| - 1 ensures w[i] != w[|w| - 1] {
      HeightFalls(g, w, i);
    }
  }

  lemma {:induction false} PassBound(text: Ref -> string, r: Receipt, nodes: seq<Node>)
    requires NodesPass(text, r, nodes)
    ensures Bound(ByHash(nodes))
    ensures forall x :: x in ByHash(nodes) ==> 1 <= ByHash(nodes)[x].lamport < r.lamport
  {
    if nodes != [] {
      PassBound(text, r, nodes[..|nodes| - 1]);
    }
  }

  // ----- the whole check

  /** What acceptance means, without reference to the walk. */
  ghost predicate Accepts(text: Ref -> string, r: Receipt, nodes: seq<Node>) {
    && nodes != []
    && AllAdmissible(text, r, nodes) && DistinctHashes(nodes)
    && r.top in ByHash(nodes)
    && AllSound(ByHash(nodes), r.top)
  }

  /** Files the nodes under their hashes, stopping at the first node that fails a check. */
  method IndexNodes(text: Ref -> string, r: Receipt, nodes: seq<Node>) returns (outcome: Outcome, byHash: Graph)
    ensures outcome.Accepted? <==> AllAdmissible(text, r, nodes) && DistinctHashes(nodes)
    ensures outcome.Accepted? ==> byHash == ByHash(nodes)
    ensures outcome != Cycle
  {
    NodesPassExact(text, r, nodes);
    byHash := map[];
    for i := 0 to |nodes|
      invariant byHash == ByHash(nodes[..i]) && NodesPass(text, r, nodes[..i])
    {
      var check := CheckNode(text, r, byHash, nodes[i]);
      assert nodes[..i + 1][..i] == nodes[..i];
      if !check.Accepted? {
        if NodesPass(text, r, nodes) { PassPrefix(text, r, nodes, i + 1); }
        return check, byHash;
      }
      byHash := byHash[nodes[i].hash := nodes[i].content];
    }
    assert nodes[..|nodes|] == nodes;
    outcome := Accepted;
  }

  /** On any graph the walk succeeds exactly when everything reachable is sound. */
  method WalkFrom(g: Graph, top: Ref) returns (outcome: Outcome)
    ensures outcome.Accepted? <==> AllSound(g, top)
    ensures outcome == Cycle ==> exists w :: Chain(g, w) && w[0] == top && Repeats(w)
  {
    var walk := new Walk(g);
    ghost var w;
    outcome, w := walk.Visit(top, []);
    if outcome.Accepted? {
      ClosedSound(g, walk.state.Keys, top);
    } else {
      assert w[0] == top;
      if AllSound(g, top) { SoundHasNoRepeat(g, w); }
    }
  }

  /**
    The evidence check accepts exactly the graphs whose reachable part is sound, and its cycle
    guard never fires.
   */
  method VerifyReceiptEvidence(text: Ref -> string, r: Receipt, nodes: seq<Node>) returns (outcome: Outcome)
    ensures outcome.Accepted? <==> Accepts(text, r, nodes)
    ensures outcome != Cycle
  {
    if nodes == [] {
      return Empty;
    }
    NodesPassExact(text, r, nodes);
    var byHash;
    outcome, byHash := IndexNodes(text, r, nodes);
    if !outcome.Accepted? {
      return;
    }
    if r.top !in byHash {
      return NoTop;
    }
    outcome := WalkFrom(byHash, r.top);
    PassBound(text, r, nodes);
    if outcome == Cycle {
      ghost var w :| Chain(byHash, w) && w[0] == r.top && Repeats(w);
      BoundAcyclic(byHash, w);
      assert false;
    }
  }

  /** In an accepted graph every ancestor chain is shorter than the receipt's clock, and none repeats. */
  lemma AcceptedBounded(text: Ref -> string, r: Receipt, nodes: seq<Node>, w: seq<Ref>)
    requires Accepts(text, r, nodes)
    requires Chain(ByHash(nodes), w) && w[0] == r.top
    ensures !Repeats(w)
    ensures w[|w| - 1] in ByHash(nodes)
    ensures |w| < r.lamport
  {
    var g := ByHash(nodes);
    NodesPassExact(text, r, nodes);
    PassBound(text, r, nodes);
    SoundHasNoRepeat(g, w);
    ClockFalls(g, w, 0, |w| - 1);
  }

  lemma {:induction false} BoundSame(g: Graph, g': Graph, x: Ref)
    requires Bound(g) && Bound(g') && x in g && x in g'
    ensures g[x] == g'[x]
  {
    assert Digest(g[x]) == x && x == Digest(g'[x]);
  }

  lemma {:induction false} BoundEnd(g: Graph, g': Graph, w: seq<Ref>)
    requires Bound(g) && Bound(g') && Chain(g, w) && Chain(g', w) && AllSound(g, w[0]) && AllSound(g', w[0])
    ensures w[|w| - 1] in g && w[|w| - 1] in g' && g[w[|w| - 1]] == g'[w[|w| - 1]]
  {
    SoundAt(g, w, |w| - 1);
    SoundAt(g', w, |w| - 1);
    BoundSame(g, g', w[|w| - 1]);
  }

  lemma {:induction false} BoundStep(g: Graph, g': Graph, u: seq<Ref>, x: Ref)
    requires Bound(g) && Bound(g') && Chain(g, u + [x]) && Chain(g, u) && Chain(g', u)
    requires AllSound(g, u[0]) && AllSound(g', u[0])
    ensures Chain(g', u + [x])
  {
    BoundEnd(g, g', u);
    var w := u + [x];
    assert w[|u| - 1] == u[|u| - 1] && w[|u|] == x;
    assert x in g[u[|u| - 1]].parents;
    ChainExtend(g', u, x);
  }

  lemma {:induction false} BoundAgree(g: Graph, g': Graph, w: seq<Ref>)
    requires Bound(g) && Bound(g') && Chain(g, w) && AllSound(g, w[0]) && AllSound(g', w[0])
    ensures Chain(g', w)
    decreases |w|
  {
    if |w| > 1 {
      var u, x := w[..|w| - 1], w[|w| - 1];
      assert w == u + [x] && u[0] == w[0];
      ChainPrefix(g, w, |w| - 1);
      BoundAgree(g, g', u);
      BoundStep(g, g', u, x);
    }
  }

  /** The receipt's node hash pins the whole ancestry: two accepted graphs agree below it. */
  lemma TopPinsAncestry(text: Ref -> string, r: Receipt, nodes: seq<Node>,
                        r': Receipt, nodes': seq<Node>, w: seq<Ref>)
    requires Accepts(text, r, nodes) && Accepts(text, r', nodes') && r.top == r'.top
    requires Chain(ByHash(nodes), w) && w[0] == r.top
    ensures Chain(ByHash(nodes'), w)
    ensures w[|w| - 1] in ByHash(nodes) && w[|w| - 1] in ByHash(nodes')
    ensures ByHash(nodes)[w[|w| - 1]] == ByHash(nodes')[w[|w| - 1]]
  {
    NodesPassExact(text, r, nodes);
    NodesPassExact(text, r', nodes');
    PassBound(text, r, nodes);
    PassBound(text, r', nodes');
    BoundAgree(ByHash(nodes), ByHash(nodes'), w);
    BoundEnd(ByHash(nodes), ByHash(nodes'), w);
  }

  // ----- what an accepted node cannot name

  /** The same letters, whatever their case. */
  predicate SameLetter(a: char, b: char) {
    || a == b || ('a' <= a <= 'z' && b as int == a as int - 32) || ('A' <= a <= 'Z' && b as int == a as int + 32)
  }

  predicate SameLetters(a: string, b: string) {
    |a| == |b| && forall i :: 0 <= i < |a| ==> SameLetter(a[i], b[i])
  }

  lemma LowerExact(a: string, b: string)
    ensures Lower(a) == Lower(b) <==> SameLetters(a, b)
  {
    if Lower(a) == Lower(b) {
      assert |a| == |Lower(a)| == |b|;
      forall i | 0 <= i < |a| ensures SameLetter(a[i], b[i]) { assert Lower(a)[i] == Lower(b)[i]; }
    }
  }

  predicate HexAnyCase(c: char) { '0' <= c <= '9' || 'a' <= c <= 'f' || 'A' <= c <= 'F' }

  predicate Begins(a: string, prefix: string) { |prefix| <= |a| && SameLetters(a[..|prefix|], prefix) }

  lemma LowerBegins(a: string, prefix: string)
    requires Lower(prefix) == prefix
    ensures prefix <= Lower(a) <==> Begins(a, prefix)
  {
    if |prefix| <= |a| {
      LowerExact(a[..|prefix|], prefix);
      assert Lower(a[..|prefix|]) == Lower(a)[..|prefix|];
    }
  }

  lemma LowerHexExact(a: string)
    ensures LooksLikeReceiptId(Lower(a)) <==> |a| == 64 && forall i :: 0 <= i < 64 ==> HexAnyCase(a[i])
  {
    if LooksLikeReceiptId(Lower(a)) {
      forall i | 0 <= i < 64 ensures HexAnyCase(a[i]) { assert '0' <= Lower(a)[i] <= '9' || 'a' <= Lower(a)[i] <= 'f'; }
    }
  }

  /** An artifact is forbidden exactly when, in some letter case, it names the receipt or looks like one. */
  lemma NamesReceiptExact(r: Receipt, a: string)
    ensures NamesReceipt(r, a) <==>
            || SameLetters(a, r.receiptId) || SameLetters(a, r.previousId) || SameLetters(a, r.chainId)
            || SameLetters(a, r.packRef) || SameLetters(a, r.packHash)
            || SameLetters(a, "sha256:" + r.receiptId) || SameLetters(a, "sha256:" + r.previousId)
            || Begins(a, "receipt:") || Begins(a, "evidencepack:")
            || (|a| == 64 && forall i :: 0 <= i < 64 ==> HexAnyCase(a[i]))
  {
    LowerExact(a, r.receiptId);
    LowerExact(a, r.previousId);
    LowerExact(a, r.chainId);
    LowerExact(a, r.packRef);
    LowerExact(a, r.packHash);
    LowerExact(a, "sha256:" + r.receiptId);
    LowerExact(a, "sha256:" + r.previousId);
    assert Lower("receipt:") == "receipt:" && Lower("evidencepack:") == "evidencepack:";
    LowerBegins(a, "receipt:");
    LowerBegins(a, "evidencepack:");
    LowerHexExact(a);
  }

  /** A canonical list is strictly increasing throughout, so nothing in it repeats. */
  lemma {:induction false} CanonicalOrdered(refs: seq<string>, i: nat, j: nat)
    requires CanonicalRefs(refs) && i < j < |refs|
    ensures Utf16.CodePointLess(refs[i], refs[j]) && refs[i] != refs[j] && refs[i] != ""
    decreases j
  {
    Utf16.CodePointOrderTotal();
    assert Utf16.CodePointLess(refs[j - 1], refs[j]);
    if i < j - 1 { CanonicalOrdered(refs, i, j - 1); }
  }

  /** Every node of accepted evidence is sealed by its content, of the receipt's reservation and before the receipt. */
  lemma AcceptedNode(text: Ref -> string, r: Receipt, nodes: seq<Node>, i: nat)
    requires Accepts(text, r, nodes) && i < |nodes|
    ensures nodes[i].hash == Digest(nodes[i].content)
    ensures nodes[i].content.session == r.session && nodes[i].content.reservation == r.reservation
    ensures 1 <= nodes[i].content.lamport < r.lamport && nodes[i].content.lamport < Power(2, 53)
    ensures forall k :: 0 <= k < |nodes[i].content.artifacts| ==> !NamesReceipt(r, nodes[i].content.artifacts[k])
    ensures forall j, k :: 0 <= j < k < |nodes[i].content.artifacts| ==>
              nodes[i].content.artifacts[j] != nodes[i].content.artifacts[k]
    ensures forall k :: 0 <= k < |nodes[i].content.parents| ==> !nodes[i].content.parents[k].Text?
    ensures forall j :: 0 <= j < |nodes| && j != i ==> nodes[j].hash != nodes[i].hash
  {
    assert Admissible(text, r, nodes[i]);
    SafeIntegerBound();
    forall j, k | 0 <= j < k < |nodes[i].content.artifacts|
      ensures nodes[i].content.artifacts[j] != nodes[i].content.artifacts[k]
    {
      CanonicalOrdered(nodes[i].content.artifacts, j, k);
    }
  }
}
