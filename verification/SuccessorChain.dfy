/**
  EvidencePack successors: a root node and addenda that each name their predecessor by identity and
  hash, sealed into proof-graph nodes that each name their parent node. SHA-256 over canonical JSON
  is the free constructor `Digest` over the document hashed.
 */
module SuccessorChain {
  import opened HostText

  /** A reference field: the digest of a document, another well-formed hash, or plain text. */
  datatype Ref = Digest(doc: Document) | Hash(n: nat) | Text(text: string)

  datatype Kind = OperationalEvaluation | MeasurementProgress | MeasurementFinal | MeasurementCensored
                | OtherKind(name: string)

  datatype Lineage = Lineage(schema: string, tenant: string, company: string, workspace: string, environment: string,
                             activationRef: string, outcomeRef: string, planRef: string, window: string,
                             activationHash: Ref, outcomeHash: Ref, planHash: Ref)

  datatype Successor = Successor(schema: string, contract: string, id: Ref, kind: Kind,
                                 predecessorRef: Ref, predecessorHash: Ref,
                                 sealedRef: Ref, sealedHash: Ref, lineage: Lineage,
                                 evidenceRef: Ref, evidenceHash: Ref, recordedAt: string, hash: Ref)

  datatype Payload =
    | RootPayload(schema: string, sealedRef: Ref, sealedHash: Ref, lineage: Lineage)
    | SuccessorPayload(successor: Successor)
    | OtherPayload(text: string)

  /** The documents that are hashed. An empty signature purpose is left out of its node document. */
  datatype Document =
    | Identity(schema: string, contract: string, predecessorHash: Ref, kind: Kind, contractHash: Ref, window: string)
    | Unsealed(successor: Successor)
    | NodeBody(nodeKind: string, parents: seq<Ref>, lamport: int, principal: string, principalSeq: int,
               payload: Payload, sig: string, purpose: string)

  datatype Node = Node(nodeKind: string, parents: seq<Ref>, lamport: int, principal: string, principalSeq: int,
                       payload: Payload, sig: string, purpose: string, hash: Ref)

  datatype Verdict =
    | Accepted | ChainMismatch | ProofGraphRejected | NodeHashMismatch | ContractRejected | DanglingPredecessor
    | IdMismatch | SuccessorHashMismatch | TransitionRejected | LineageConflict

  // ----- hashes

  function SuccessorIdentity(s: Successor): Ref {
    var contractHash := if s.kind.OperationalEvaluation? then s.lineage.outcomeHash else s.lineage.planHash;
    Digest(Identity(s.schema, s.contract, s.predecessorHash, s.kind, contractHash, s.lineage.window))
  }

  function SuccessorHash(s: Successor): Ref { Digest(Unsealed(s.(hash := Text("")))) }

  function Body(n: Node): Document {
    NodeBody(n.nodeKind, n.parents, n.lamport, n.principal, n.principalSeq, n.payload, n.sig, n.purpose)
  }

  function NodeHash(n: Node): Ref { Digest(Body(n)) }

  // ----- field checks

  predicate Token(s: string) { s != "" && |s| <= 512 && forall i :: 0 <= i < |s| ==> !Space(s[i]) }

  predicate TokenRef(r: Ref) { r.Text? ==> Token(r.text) }

  predicate HashRef(r: Ref) { !r.Text? }

  predicate ValidLineage(l: Lineage) {
    && l.schema == "evidence-pack-lineage.v1"
    && Token(l.tenant) && Token(l.company) && Token(l.workspace) && Token(l.environment)
    && Token(l.activationRef) && Token(l.outcomeRef) && Token(l.planRef) && Token(l.window)
    && l.company == l.tenant
    && HashRef(l.activationHash) && HashRef(l.outcomeHash) && HashRef(l.planHash)
  }

  function CheckSuccessor(s: Successor): Verdict {
    if s.schema != "evidence-pack-successor.v1" || s.contract != "2026-09-04" || s.kind.OtherKind? then ContractRejected
    else if !TokenRef(s.predecessorRef) || !TokenRef(s.sealedRef) || !TokenRef(s.evidenceRef) then ContractRejected
    else if !HashRef(s.id) || !HashRef(s.predecessorHash) || !HashRef(s.sealedHash) || !HashRef(s.evidenceHash)
            || !HashRef(s.hash) then ContractRejected
    else if !ValidLineage(s.lineage) then ContractRejected
    else if s.id != SuccessorIdentity(s) then IdMismatch
    else if s.hash != SuccessorHash(s) then SuccessorHashMismatch
    else Accepted
  }

  function CheckNode(n: Node): Verdict {
    if n.nodeKind != "ATTESTATION" || !HashRef(n.hash) then ProofGraphRejected
    else if n.hash != NodeHash(n) then NodeHashMismatch
    else Accepted
  }

  function CheckRoot(n: Node): Verdict {
    if CheckNode(n) != Accepted then CheckNode(n)
    else if !n.payload.RootPayload? || n.payload.schema != "proofgraph-evidence-pack-lineage-root.v1" then
      ContractRejected
    else if !TokenRef(n.payload.sealedRef) || !HashRef(n.payload.sealedHash) || !ValidLineage(n.payload.lineage) then
      ContractRejected
    else Accepted
  }

  /** The reference and the hash that an addendum to `p` must name. */
  function NextRef(p: Payload): Ref {
    match p
    case RootPayload(_, ref, _, _) => ref
    case SuccessorPayload(s) => s.id
    case OtherPayload(t) => Text(t)
  }

  function NextHash(p: Payload): Ref {
    match p
    case RootPayload(_, _, hash, _) => hash
    case SuccessorPayload(s) => s.hash
    case OtherPayload(t) => Text(t)
  }

  /** The checks on one addendum, given the root payload, the node before it and the hashes seen. */
  function CheckAddendum(root: Payload, seen: set<Ref>, before: Node, n: Node, kind: Kind): Verdict
    requires root.RootPayload?
  {
    if CheckNode(n) != Accepted then CheckNode(n)
    else if n.parents != [before.hash] then
      if n.parents == [] || n.parents[0] !in seen then DanglingPredecessor else ChainMismatch
    else if !n.payload.SuccessorPayload? then ContractRejected
    else
      var s := n.payload.successor;
      if CheckSuccessor(s) != Accepted then CheckSuccessor(s)
      else if s.kind != kind then TransitionRejected
      else if s.lineage != root.lineage || s.sealedRef != root.sealedRef || s.sealedHash != root.sealedHash then
        LineageConflict
      else if s.predecessorRef != NextRef(before.payload) || s.predecessorHash != NextHash(before.payload) then
        LineageConflict
      else Accepted
  }

  // ----- chains

  /** `b` is a valid addendum to `a` on a chain with this root payload. */
  predicate Follows(root: Payload, a: Node, b: Node) {
    && b.hash == NodeHash(b) && b.parents == [a.hash] && b.payload.SuccessorPayload? && root.RootPayload?
    && var s := b.payload.successor;
       && CheckSuccessor(s).Accepted?
       && s.lineage == root.lineage && s.sealedRef == root.sealedRef && s.sealedHash == root.sealedHash
       && s.predecessorRef == NextRef(a.payload) && s.predecessorHash == NextHash(a.payload)
  }

  predicate ChainOk(nodes: seq<Node>) {
    && nodes != [] && CheckRoot(nodes[0]).Accepted?
    && forall i :: 0 < i < |nodes| ==>
         nodes[i].nodeKind == "ATTESTATION" && Follows(nodes[0].payload, nodes[i - 1], nodes[i])
  }

  predicate KindsMatch(nodes: seq<Node>, kinds: seq<Kind>) {
    |nodes| == |kinds| + 1 &&
    forall i :: 0 < i < |nodes| ==>
      nodes[i].payload.SuccessorPayload? && nodes[i].payload.successor.kind == kinds[i - 1]
  }

  function Hashes(nodes: seq<Node>): seq<Ref> {
    seq(|nodes|, i requires 0 <= i < |nodes| => nodes[i].hash)
  }

  lemma AddendumExact(root: Payload, seen: set<Ref>, before: Node, n: Node, kind: Kind)
    requires root.RootPayload?
    ensures CheckAddendum(root, seen, before, n, kind).Accepted? <==>
            && n.nodeKind == "ATTESTATION" && Follows(root, before, n)
            && n.payload.successor.kind == kind
  {
  }

  /** The chain check: the root, then every addendum against the one before it. */
  method ValidateChain(nodes: seq<Node>, expectedHashes: seq<Ref>, expectedKinds: seq<Kind>) returns (v: Verdict)
    ensures v.Accepted? <==> Hashes(nodes) == expectedHashes && ChainOk(nodes) && KindsMatch(nodes, expectedKinds)
    ensures v.Accepted? ==> |nodes| == |expectedHashes| == |expectedKinds| + 1
    ensures v.Accepted? ==> forall i :: 0 <= i < |nodes| ==> nodes[i].hash == expectedHashes[i]
    ensures v.Accepted? ==> forall i :: 0 < i < |nodes| ==>
              nodes[i].payload.SuccessorPayload? && nodes[i].payload.successor.kind == expectedKinds[i - 1]
  {
    if Hashes(nodes) != expectedHashes || |nodes| != |expectedKinds| + 1 {
      return ChainMismatch;
    }
    v := CheckRoot(nodes[0]);
    if !v.Accepted? {
      return;
    }
    var root := nodes[0].payload;
    var seen := {nodes[0].hash};
    for i := 1 to |nodes|
      invariant v.Accepted?
      invariant forall j :: 0 < j < i ==>
        && nodes[j].nodeKind == "ATTESTATION" && Follows(root, nodes[j - 1], nodes[j])
        && nodes[j].payload.successor.kind == expectedKinds[j - 1]
    {
      AddendumExact(root, seen, nodes[i - 1], nodes[i], expectedKinds[i - 1]);
      assert ChainOk(nodes) ==> nodes[i].nodeKind == "ATTESTATION" && Follows(root, nodes[i - 1], nodes[i]);
      assert KindsMatch(nodes, expectedKinds) ==>
        nodes[i].payload.SuccessorPayload? && nodes[i].payload.successor.kind == expectedKinds[i - 1];
      v := CheckAddendum(root, seen, nodes[i - 1], nodes[i], expectedKinds[i - 1]);
      if !v.Accepted? {
        return;
      }
      seen := seen + {nodes[i].hash};
    }
    forall i | 0 < i < |nodes|
      ensures nodes[i].payload.SuccessorPayload? && nodes[i].payload.successor.kind == expectedKinds[i - 1]
    {
      assert Follows(root, nodes[i - 1], nodes[i]);
    }
  }

  // ----- what acceptance gives

  /** How many sealed successors stand behind a hash. */
  function Depth(r: Ref): nat {
    match r
    case Digest(Unsealed(s)) => 1 + Depth(s.predecessorHash)
    case _ => 0
  }

  lemma {:induction false} DepthGrows(nodes: seq<Node>, i: nat)
    requires ChainOk(nodes) && i < |nodes|
    ensures Depth(NextHash(nodes[i].payload)) == Depth(NextHash(nodes[0].payload)) + i
  {
    if i > 0 {
      DepthGrows(nodes, i - 1);
      assert Follows(nodes[0].payload, nodes[i - 1], nodes[i]);
    }
  }

  /** Successor identities and hashes are pairwise different along a chain of any length. */
  lemma IdentitiesDistinct(nodes: seq<Node>, i: nat, j: nat)
    requires ChainOk(nodes) && 0 < i < j < |nodes|
    ensures nodes[i].payload.SuccessorPayload? && nodes[j].payload.SuccessorPayload?
    ensures nodes[i].payload.successor.id != nodes[j].payload.successor.id
    ensures nodes[i].payload.successor.hash != nodes[j].payload.successor.hash
  {
    assert Follows(nodes[0].payload, nodes[i - 1], nodes[i]);
    assert Follows(nodes[0].payload, nodes[j - 1], nodes[j]);
    DepthGrows(nodes, i - 1);
    DepthGrows(nodes, j - 1);
    DepthGrows(nodes, i);
    DepthGrows(nodes, j);
  }

  /** Every addendum carries the root's frozen lineage and sealed pack. */
  lemma LineageFrozen(nodes: seq<Node>, i: nat)
    requires ChainOk(nodes) && 0 < i < |nodes|
    ensures nodes[i].payload.SuccessorPayload? && nodes[0].payload.RootPayload?
    ensures var s, root := nodes[i].payload.successor, nodes[0].payload;
            && s.lineage == root.lineage && s.sealedRef == root.sealedRef && s.sealedHash == root.sealedHash
            && ValidLineage(s.lineage) && !s.kind.OtherKind?
            && s.id == SuccessorIdentity(s) && s.hash == SuccessorHash(s)
    ensures i == 1 ==>
              && nodes[1].payload.successor.predecessorRef == nodes[0].payload.sealedRef
              && nodes[1].payload.successor.predecessorHash == nodes[0].payload.sealedHash
    ensures i > 1 ==>
              && nodes[i - 1].payload.SuccessorPayload?
              && nodes[i].payload.successor.predecessorRef == nodes[i - 1].payload.successor.id
              && nodes[i].payload.successor.predecessorHash == SuccessorHash(nodes[i - 1].payload.successor)
  {
    assert Follows(nodes[0].payload, nodes[i - 1], nodes[i]);
    if i > 1 { assert Follows(nodes[0].payload, nodes[i - 2], nodes[i - 1]); }
  }

  lemma ChainPrefix(nodes: seq<Node>)
    requires ChainOk(nodes) && |nodes| > 1
    ensures ChainOk(nodes[..|nodes| - 1])
  {
    var init := nodes[..|nodes| - 1];
    forall i | 0 < i < |init|
      ensures init[i].nodeKind == "ATTESTATION" && Follows(init[0].payload, init[i - 1], init[i])
    {
      assert Follows(nodes[0].payload, nodes[i - 1], nodes[i]);
    }
  }

  /** The last node hash determines the hashed content of the whole chain, and its length. */
  lemma {:induction false} LastHashPinsChain(a: seq<Node>, b: seq<Node>)
    requires ChainOk(a) && ChainOk(b) && a[|a| - 1].hash == b[|b| - 1].hash
    ensures |a| == |b| && forall i :: 0 <= i < |a| ==> Body(a[i]) == Body(b[i])
  {
    var x, y := a[|a| - 1], b[|b| - 1];
    assert |a| > 1 ==> Follows(a[0].payload, a[|a| - 2], x);
    assert |b| > 1 ==> Follows(b[0].payload, b[|b| - 2], y);
    assert x.hash == NodeHash(x) && y.hash == NodeHash(y);
    assert Body(x) == Body(y);
    if |a| > 1 {
      ChainPrefix(a);
      ChainPrefix(b);
      var u, w := a[..|a| - 1], b[..|b| - 1];
      assert u[|u| - 1].hash == w[|w| - 1].hash;
      LastHashPinsChain(u, w);
      forall i | 0 <= i < |a| ensures Body(a[i]) == Body(b[i]) {
        if i < |u| { assert a[i] == u[i] && b[i] == w[i]; }
      }
    }
  }

  // ----- what the hashes commit to

  /** Equal identities: the same version, predecessor, kind, window, and contract of that kind. */
  lemma IdentityExact(s: Successor, s': Successor)
    ensures SuccessorIdentity(s) == SuccessorIdentity(s') <==>
            && s.schema == s'.schema && s.contract == s'.contract && s.predecessorHash == s'.predecessorHash
            && s.kind == s'.kind && s.lineage.window == s'.lineage.window
            && (s.kind == OperationalEvaluation ==> s.lineage.outcomeHash == s'.lineage.outcomeHash)
            && (s.kind != OperationalEvaluation ==> s.lineage.planHash == s'.lineage.planHash)
  {
  }

  /** Equal successor hashes: everything but the hash field is the same. */
  lemma SuccessorHashExact(s: Successor, s': Successor)
    ensures SuccessorHash(s) == SuccessorHash(s') <==> s.(hash := s'.hash) == s'
  {
  }

  /** Equal node hashes: everything but the hash field is the same. */
  lemma NodeHashExact(n: Node, n': Node)
    ensures NodeHash(n) == NodeHash(n') <==> n.(hash := n'.hash) == n'
  {
  }

  predicate Tokens(texts: seq<string>) {
    forall i :: 0 <= i < |texts| ==> 0 < |texts[i]| <= 512 && forall k :: 0 <= k < |texts[i]| ==> !Space(texts[i][k])
  }

  lemma LineageExact(l: Lineage)
    ensures ValidLineage(l) <==>
            && l.schema == "evidence-pack-lineage.v1" && l.tenant == l.company
            && Tokens([l.tenant, l.company, l.workspace, l.environment,
                       l.activationRef, l.outcomeRef, l.planRef, l.window])
            && !l.activationHash.Text? && !l.outcomeHash.Text? && !l.planHash.Text?
  {
    var texts := [l.tenant, l.company, l.workspace, l.environment, l.activationRef, l.outcomeRef, l.planRef, l.window];
    if Tokens(texts) {
      assert Token(texts[0]) && Token(texts[1]) && Token(texts[2]) && Token(texts[3]);
      assert Token(texts[4]) && Token(texts[5]) && Token(texts[6]) && Token(texts[7]);
    }
  }

  /** In an accepted chain every node and every addendum is of the released version and sealed by its own hashes. */
  lemma AcceptedNodes(nodes: seq<Node>, i: nat)
    requires ChainOk(nodes) && i < |nodes|
    ensures nodes[i].nodeKind == "ATTESTATION" && nodes[i].hash == NodeHash(nodes[i])
    ensures i > 0 ==> nodes[i].parents == [nodes[i - 1].hash]
    ensures i == 0 ==> nodes[0].payload.RootPayload? &&
                       nodes[0].payload.schema == "proofgraph-evidence-pack-lineage-root.v1"
    ensures i > 0 ==>
            nodes[i].payload.SuccessorPayload? &&
            var s := nodes[i].payload.successor;
            && s.schema == "evidence-pack-successor.v1" && s.contract == "2026-09-04" && !s.kind.OtherKind?
            && s.id == SuccessorIdentity(s) && s.hash == SuccessorHash(s) && !s.evidenceHash.Text?
            && (s.evidenceRef.Text? ==> Tokens([s.evidenceRef.text]))
  {
    if i > 0 { assert Follows(nodes[0].payload, nodes[i - 1], nodes[i]); }
  }
}
