/**
  The quorum check: assertions are verified one by one, signers must differ in every dimension, and
  the signer set is sorted into a projection that cannot depend on submission order.
 */
module Quorum {
  import opened Sorting
  import opened Utf16
  import opened Wrappers

  datatype Signer = Signer(principal: string, credential: string, device: string, keyId: string,
                           role: string, assertionHash: string)

  /** A verified assertion: its signer and the public key that signed. */
  datatype Evidence = Evidence(signer: Signer, publicKey: string)

  datatype Status = Exactly | OverQuorum

  /** What the case promises; `contextMatches` stands for the fields no signer enters. */
  datatype Case = Case(keyIds: seq<string>, expectedStatus: Status,
                       signerSet: seq<Signer>, projection: seq<Signer>, contextMatches: bool)

  datatype Outcome = Accepted(status: Status, signers: seq<Signer>)
                   | QuorumNotMet | DuplicateSigner | StatusMismatch | Rejected | ProjectionMismatch

  predicate Distinct<T(==)>(s: seq<T>) { forall i, j :: 0 <= i < j < |s| ==> s[i] != s[j] }

  predicate AllDifferent(e: Evidence, f: Evidence) {
    && e.signer.principal != f.signer.principal
    && e.signer.credential != f.signer.credential
    && e.signer.device != f.signer.device
    && e.signer.keyId != f.signer.keyId
    && e.publicKey != f.publicKey
  }

  predicate PairwiseDifferent(es: seq<Evidence>) {
    forall i, j :: 0 <= i < j < |es| ==> AllDifferent(es[i], es[j])
  }

  // ----- the sorted signer set

  type SortKey = (string, (string, (string, string)))

  function KeyOf(s: Signer): SortKey { (s.principal, (s.credential, (s.device, s.keyId))) }

  function KeyLess(): (SortKey, SortKey) -> bool {
    PairLess(CodePointLess, PairLess(CodePointLess, PairLess(CodePointLess, CodePointLess)))
  }

  lemma KeyOrderTotal()
    ensures StrictTotal(KeyLess())
  {
    CodePointOrderTotal();
    PairTotal(CodePointLess, CodePointLess);
    PairTotal(CodePointLess, PairLess(CodePointLess, CodePointLess));
    PairTotal(CodePointLess, PairLess(CodePointLess, PairLess(CodePointLess, CodePointLess)));
  }

  function Entries(es: seq<Evidence>): seq<(SortKey, Signer)> {
    seq(|es|, i requires 0 <= i < |es| => (KeyOf(es[i].signer), es[i].signer))
  }

  function Values(s: seq<(SortKey, Signer)>): seq<Signer> {
    seq(|s|, i requires 0 <= i < |s| => s[i].1)
  }

  /** The signers of verified assertions, sorted by principal, credential, device and key id. */
  function SortedSigners(es: seq<Evidence>): seq<Signer> { Values(Sort(KeyLess(), Entries(es))) }

  // ----- acceptance

  predicate AllVerify(verify: string -> Option<Evidence>, keyIds: seq<string>) {
    forall i :: 0 <= i < |keyIds| ==> verify(keyIds[i]).Some?
  }

  function Verified(verify: string -> Option<Evidence>, keyIds: seq<string>): seq<Evidence>
    requires AllVerify(verify, keyIds)
  {
    seq(|keyIds|, i requires 0 <= i < |keyIds| => verify(keyIds[i]).value)
  }

  function DerivedStatus(n: nat, quorum: int): Status { if n == quorum then Exactly else OverQuorum }

  predicate Accepts(verify: string -> Option<Evidence>, quorum: int, c: Case) {
    && |c.keyIds| >= quorum
    && Distinct(c.keyIds)
    && c.expectedStatus == DerivedStatus(|c.keyIds|, quorum)
    && AllVerify(verify, c.keyIds)
    && PairwiseDifferent(Verified(verify, c.keyIds))
    && SortedSigners(Verified(verify, c.keyIds)) == c.signerSet == c.projection
    && c.contextMatches
  }

  /** The dimensions seen so far, one set each. */
  datatype Seen = Seen(principals: set<string>, credentials: set<string>, devices: set<string>,
                       keyIds: set<string>, publicKeys: set<string>)

  predicate Clashes(seen: Seen, e: Evidence) {
    || e.signer.principal in seen.principals || e.signer.credential in seen.credentials
    || e.signer.device in seen.devices || e.signer.keyId in seen.keyIds || e.publicKey in seen.publicKeys
  }

  function Add(seen: Seen, e: Evidence): Seen {
    Seen(seen.principals + {e.signer.principal}, seen.credentials + {e.signer.credential},
         seen.devices + {e.signer.device}, seen.keyIds + {e.signer.keyId}, seen.publicKeys + {e.publicKey})
  }

  function SeenOf(es: seq<Evidence>): Seen {
    if es == [] then Seen({}, {}, {}, {}, {}) else Add(SeenOf(es[..|es| - 1]), es[|es| - 1])
  }

  lemma {:induction false} ClashExact(es: seq<Evidence>, e: Evidence)
    ensures Clashes(SeenOf(es), e) <==> exists i :: 0 <= i < |es| && !AllDifferent(es[i], e)
  {
    if es != [] {
      var init, last := es[..|es| - 1], es[|es| - 1];
      ClashExact(init, e);
      assert Clashes(SeenOf(es), e) <==> Clashes(SeenOf(init), e) || !AllDifferent(last, e);
      if i :| 0 <= i < |init| && !AllDifferent(init[i], e) {
        assert es[i] == init[i];
      }
      if i :| 0 <= i < |es| && !AllDifferent(es[i], e) {
        assert i < |init| ==> init[i] == es[i];
      }
    }
  }

  lemma PairwiseAppend(es: seq<Evidence>, e: Evidence)
    ensures PairwiseDifferent(es + [e]) <==> PairwiseDifferent(es) && !Clashes(SeenOf(es), e)
  {
    ClashExact(es, e);
    var all := es + [e];
    assert forall i :: 0 <= i < |es| ==> all[i] == es[i];
    assert all[|es|] == e;
    if PairwiseDifferent(all) {
      forall i, j | 0 <= i < j < |es| ensures AllDifferent(es[i], es[j]) {
        assert AllDifferent(all[i], all[j]);
      }
      forall i | 0 <= i < |es| ensures AllDifferent(es[i], e) {
        assert AllDifferent(all[i], all[|es|]);
      }
    }
  }

  lemma PairwisePrefix(es: seq<Evidence>, n: nat)
    requires PairwiseDifferent(es) && n <= |es|
    ensures PairwiseDifferent(es[..n])
  {
    forall i, j | 0 <= i < j < n ensures AllDifferent(es[..n][i], es[..n][j]) {
      assert AllDifferent(es[i], es[j]);
    }
  }

  /** One more key id: the evidence grows by one, and a clash there rules the whole case out. */
  lemma VerifiedAppend(verify: string -> Option<Evidence>, keyIds: seq<string>, i: nat)
    requires i < |keyIds| && AllVerify(verify, keyIds[..i]) && verify(keyIds[i]).Some?
    ensures AllVerify(verify, keyIds[..i + 1])
    ensures Verified(verify, keyIds[..i + 1]) == Verified(verify, keyIds[..i]) + [verify(keyIds[i]).value]
    ensures AllVerify(verify, keyIds) && PairwiseDifferent(Verified(verify, keyIds)) ==>
            PairwiseDifferent(Verified(verify, keyIds[..i + 1]))
  {
    if AllVerify(verify, keyIds) && PairwiseDifferent(Verified(verify, keyIds)) {
      PairwisePrefix(Verified(verify, keyIds), i + 1);
      assert Verified(verify, keyIds)[..i + 1] == Verified(verify, keyIds[..i + 1]);
    }
  }

  /** The loop over submitted key ids; `None` for a failed verification or a repeated dimension. */
  method Collect(verify: string -> Option<Evidence>, keyIds: seq<string>)
    returns (es: Option<seq<Evidence>>, clash: bool)
    ensures es.Some? <==> AllVerify(verify, keyIds) && PairwiseDifferent(Verified(verify, keyIds))
    ensures es.Some? ==> es.value == Verified(verify, keyIds)
  {
    var found: seq<Evidence> := [];
    var seen := Seen({}, {}, {}, {}, {});
    for i := 0 to |keyIds|
      invariant AllVerify(verify, keyIds[..i]) && found == Verified(verify, keyIds[..i])
      invariant seen == SeenOf(found) && PairwiseDifferent(found)
    {
      var e := verify(keyIds[i]);
      if e.None? {
        return None, false;
      }
      PairwiseAppend(found, e.value);
      VerifiedAppend(verify, keyIds, i);
      if Clashes(seen, e.value) {
        return None, true;
      }
      seen := Add(seen, e.value);
      assert (found + [e.value])[..|found|] == found;
      found := found + [e.value];
    }
    assert keyIds[..|keyIds|] == keyIds;
    return Some(found), false;
  }

  /** The whole case: accepted exactly when the declared condition holds, with the sorted signers. */
  method VerifyCase(verify: string -> Option<Evidence>, quorum: int, c: Case) returns (outcome: Outcome)
    ensures outcome.Accepted? <==> Accepts(verify, quorum, c)
    ensures outcome.Accepted? ==> outcome.signers == c.projection && outcome.status == c.expectedStatus
  {
    if |c.keyIds| < quorum {
      return QuorumNotMet;
    }
    if !Distinct(c.keyIds) {
      return DuplicateSigner;
    }
    var status := DerivedStatus(|c.keyIds|, quorum);
    if c.expectedStatus != status {
      return StatusMismatch;
    }
    var es, clash := Collect(verify, c.keyIds);
    if es.None? {
      return if clash then DuplicateSigner else Rejected;
    }
    var signers := SortedSigners(es.value);
    if signers != c.signerSet || signers != c.projection || !c.contextMatches {
      return ProjectionMismatch;
    }
    outcome := Accepted(status, signers);
  }

  // ----- what acceptance gives

  lemma EntriesDistinct(es: seq<Evidence>)
    requires PairwiseDifferent(es)
    ensures DistinctKeys(Entries(es))
  {
    forall i, j | 0 <= i < j < |es| ensures Entries(es)[i].0 != Entries(es)[j].0 {
      assert AllDifferent(es[i], es[j]);
    }
  }

  /** The verified assertions under their signers' sort keys. */
  function Filed(es: seq<Evidence>): seq<(SortKey, Evidence)> {
    seq(|es|, i requires 0 <= i < |es| => (KeyOf(es[i].signer), es[i]))
  }

  function SignerOf(e: Evidence): Signer { e.signer }

  /** The evidence in the order of the sorted signers. */
  function SortedEvidence(es: seq<Evidence>): seq<Evidence> {
    var sorted := Sort(KeyLess(), Filed(es));
    seq(|sorted|, i requires 0 <= i < |sorted| => sorted[i].1)
  }

  lemma SignersOfSorted(es: seq<Evidence>, i: nat)
    requires i < |es|
    ensures |SortedSigners(es)| == |SortedEvidence(es)| == |es|
    ensures SortedSigners(es)[i] == SortedEvidence(es)[i].signer
  {
    assert Entries(es) == MapValues(SignerOf, Filed(es));
    SortMap(KeyLess(), SignerOf, Filed(es));
  }

  lemma SortedAt(es: seq<Evidence>, i: nat) returns (a: nat)
    requires i < |es|
    ensures a < |es| && Sort(KeyLess(), Filed(es))[i] == (KeyOf(es[a].signer), es[a])
  {
    var sorted := Sort(KeyLess(), Filed(es));
    SortMembers(KeyLess(), Filed(es));
    assert sorted[i] in sorted;
    a :| 0 <= a < |es| && Filed(es)[a] == sorted[i];
  }

  /** Sorting keeps the evidence pairwise different, and orders it strictly by its signers. */
  lemma SortedDifferent(es: seq<Evidence>, i: nat, j: nat)
    requires PairwiseDifferent(es) && i < j < |es|
    ensures AllDifferent(SortedEvidence(es)[i], SortedEvidence(es)[j])
    ensures KeyLess()(KeyOf(SortedEvidence(es)[i].signer), KeyOf(SortedEvidence(es)[j].signer))
  {
    var a := SortedAt(es, i);
    var b := SortedAt(es, j);
    KeyOrderTotal();
    forall x, y | 0 <= x < y < |es| ensures Filed(es)[x].0 != Filed(es)[y].0 {
      assert AllDifferent(es[x], es[y]);
    }
    SortOrdered(KeyLess(), Filed(es));
    assert a != b;
    assert if a < b then AllDifferent(es[a], es[b]) else AllDifferent(es[b], es[a]);
  }

  lemma SortedSame(es: seq<Evidence>)
    ensures SameMembers(SortedEvidence(es), es)
  {
    var sorted := Sort(KeyLess(), Filed(es));
    SortMembers(KeyLess(), Filed(es));
    forall e | e in es ensures e in SortedEvidence(es) {
      var a :| 0 <= a < |es| && es[a] == e;
      assert Filed(es)[a] in sorted;
      var i :| 0 <= i < |sorted| && sorted[i] == Filed(es)[a];
      assert SortedEvidence(es)[i] == e;
    }
    forall e | e in SortedEvidence(es) ensures e in es {
      var i :| 0 <= i < |es| && SortedEvidence(es)[i] == e;
      var a := SortedAt(es, i);
    }
  }

  /**
    An accepted case has at least `quorum` signers, and behind them as many verified assertions,
    those of the submitted key ids: pairwise different in principal, credential, device, key id and
    public key, in strictly increasing order.
   */
  lemma AcceptedSigners(verify: string -> Option<Evidence>, quorum: int, c: Case)
    requires Accepts(verify, quorum, c)
    ensures var es := SortedEvidence(Verified(verify, c.keyIds));
            && |es| == |c.projection| == |c.keyIds| >= quorum
            && SameMembers(es, Verified(verify, c.keyIds))
            && (forall i :: 0 <= i < |es| ==> es[i].signer == c.projection[i])
            && PairwiseDifferent(es)
            && forall i, j :: 0 <= i < j < |es| ==> CodePointLess(c.projection[i].principal, c.projection[j].principal)
    ensures c.expectedStatus == Exactly <==> |c.keyIds| == quorum
    ensures c.expectedStatus == OverQuorum <==> |c.keyIds| > quorum
    ensures c.signerSet == c.projection && c.contextMatches
  {
    var found := Verified(verify, c.keyIds);
    var es := SortedEvidence(found);
    SortedSame(found);
    forall i | 0 <= i < |es| ensures es[i].signer == c.projection[i] { SignersOfSorted(found, i); }
    forall i, j | 0 <= i < j < |es|
      ensures AllDifferent(es[i], es[j]) && CodePointLess(c.projection[i].principal, c.projection[j].principal)
    {
      SortedDifferent(found, i, j);
    }
  }

  /** Any two of them differ in principal, credential, device, key id and public key. */
  lemma AcceptedDimensions(verify: string -> Option<Evidence>, quorum: int, c: Case, i: nat, j: nat)
    requires Accepts(verify, quorum, c) && i < |c.keyIds| && j < |c.keyIds| && i != j
    ensures verify(c.keyIds[i]).Some? && verify(c.keyIds[j]).Some?
    ensures var e, f := verify(c.keyIds[i]).value, verify(c.keyIds[j]).value;
            && e.signer.principal != f.signer.principal && e.signer.credential != f.signer.credential
            && e.signer.device != f.signer.device && e.signer.keyId != f.signer.keyId && e.publicKey != f.publicKey
  {
    var es := Verified(verify, c.keyIds);
    assert if i < j then AllDifferent(es[i], es[j]) else AllDifferent(es[j], es[i]);
  }

  /** Signers are ordered by principal, then credential, device and key id, each by code points. */
  lemma SignerOrder(a: Signer, b: Signer)
    ensures KeyLess()(KeyOf(a), KeyOf(b)) <==>
            || CodePointLess(a.principal, b.principal)
            || (a.principal == b.principal && CodePointLess(a.credential, b.credential))
            || (a.principal == b.principal && a.credential == b.credential && CodePointLess(a.device, b.device))
            || (a.principal == b.principal && a.credential == b.credential && a.device == b.device &&
                CodePointLess(a.keyId, b.keyId))
  {
  }

  lemma PermutedIndex(s: seq<string>, t: seq<string>, i: nat)
    requires multiset(s) == multiset(t) && i < |s|
    ensures s[i] in t
  {
    assert s[i] in multiset(t);
  }

  lemma PermutedDistinct(s: seq<string>, t: seq<string>)
    requires multiset(s) == multiset(t) && Distinct(s)
    ensures Distinct(t) && |s| == |t|
  {
    assert |s| == |multiset(s)| && |t| == |multiset(t)|;
    forall i, j | 0 <= i < j < |t| ensures t[i] != t[j] {
      DistinctCounts(s, t[i]);
      if t[i] == t[j] { RepeatCounts(t, i, j); }
    }
  }

  lemma {:induction false} DistinctCounts(s: seq<string>, x: string)
    requires Distinct(s)
    ensures multiset(s)[x] <= 1
  {
    if s != [] {
      var init := s[..|s| - 1];
      assert Distinct(init) by {
        forall i, j | 0 <= i < j < |init| ensures init[i] != init[j] { assert s[i] != s[j]; }
      }
      assert s == init + [s[|s| - 1]];
      DistinctCounts(init, x);
      assert forall i :: 0 <= i < |init| ==> init[i] == s[i] != s[|s| - 1];
      assert s[|s| - 1] !in init;
    }
  }

  lemma RepeatCounts(t: seq<string>, i: nat, j: nat)
    requires i < j < |t| && t[i] == t[j]
    ensures multiset(t)[t[i]] >= 2
  {
    assert t == t[..j] + [t[j]] + t[j + 1..];
    assert t[..j][i] == t[i];
    assert t[i] in multiset(t[..j]);
  }

  /** Verifying a rearrangement finds the same evidence. */
  lemma PermutedEvidence(verify: string -> Option<Evidence>, s: seq<string>, t: seq<string>)
    requires multiset(s) == multiset(t) && AllVerify(verify, s) && PairwiseDifferent(Verified(verify, s)) && Distinct(t)
    ensures AllVerify(verify, t) && PairwiseDifferent(Verified(verify, t))
    ensures SameMembers(Entries(Verified(verify, s)), Entries(Verified(verify, t)))
  {
    forall i | 0 <= i < |t| ensures verify(t[i]).Some? {
      PermutedIndex(t, s, i);
    }
    var es, fs := Verified(verify, s), Verified(verify, t);
    forall i, j | 0 <= i < j < |t| ensures AllDifferent(fs[i], fs[j]) {
      PermutedIndex(t, s, i);
      PermutedIndex(t, s, j);
      var a :| 0 <= a < |s| && s[a] == t[i];
      var b :| 0 <= b < |s| && s[b] == t[j];
      assert a != b;
      assert if a < b then AllDifferent(es[a], es[b]) else AllDifferent(es[b], es[a]);
    }
    forall x ensures x in Entries(es) <==> x in Entries(fs) {
      if x in Entries(es) {
        var a :| 0 <= a < |s| && Entries(es)[a] == x;
        PermutedIndex(s, t, a);
        var i :| 0 <= i < |t| && t[i] == s[a];
        assert Entries(fs)[i] == x;
      }
      if x in Entries(fs) {
        var i :| 0 <= i < |t| && Entries(fs)[i] == x;
        PermutedIndex(t, s, i);
        var a :| 0 <= a < |s| && s[a] == t[i];
        assert Entries(es)[a] == x;
      }
    }
  }

  /** Any rearrangement of the submitted key ids is accepted alike, with the same signer set. */
  lemma OrderIrrelevant(verify: string -> Option<Evidence>, quorum: int, c: Case, permuted: seq<string>)
    requires Accepts(verify, quorum, c) && multiset(c.keyIds) == multiset(permuted)
    ensures Accepts(verify, quorum, c.(keyIds := permuted))
    ensures SortedSigners(Verified(verify, permuted)) == SortedSigners(Verified(verify, c.keyIds))
  {
    PermutedDistinct(c.keyIds, permuted);
    PermutedEvidence(verify, c.keyIds, permuted);
    var es, fs := Verified(verify, c.keyIds), Verified(verify, permuted);
    KeyOrderTotal();
    EntriesDistinct(es);
    EntriesDistinct(fs);
    SortCanonical(KeyLess(), Entries(es), Entries(fs));
  }
}
