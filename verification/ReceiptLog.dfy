/**
  The proxy receipt log: each receipt names the hash of the line before it and counts its Lamport
  clock up by one. The hash of a line is the free constructor `Digest`.
 */
module ReceiptLog {

  /** What a receipt gives as its predecessor. */
  datatype Ref = Genesis | Digest(line: Line) | OtherRef(text: string)

  /**
    A line of the log. `lamport` is the number its clock compares as, and `rest` stands for everything
    in the line that the check does not read, the spelling of the clock included.
   */
  datatype Line = Blank | Unreadable(text: string) | Receipt(prev: Ref, lamport: int, signed: bool, rest: string)

  datatype Verdict = Ok(count: nat, signed: nat) | Fail

  /** The lines that are not blank. */
  function Entries(log: seq<Line>): seq<Line> {
    if log == [] then []
    else if log[|log| - 1].Blank? then Entries(log[..|log| - 1])
    else Entries(log[..|log| - 1]) + [log[|log| - 1]]
  }

  /** The reference that the next receipt must give. */
  function Tip(es: seq<Line>): Ref { if es == [] then Genesis else Digest(es[|es| - 1]) }

  predicate Linked(es: seq<Line>, k: nat)
    requires k < |es|
  {
    es[k].Receipt? && es[k].prev == Tip(es[..k]) && es[k].lamport == k + 1
  }

  predicate Chained(es: seq<Line>) { forall k :: 0 <= k < |es| ==> Linked(es, k) }

  function Signed(es: seq<Line>): nat {
    if es == [] then 0
    else Signed(es[..|es| - 1]) + if es[|es| - 1].Receipt? && es[|es| - 1].signed then 1 else 0
  }

  predicate Accepted(log: seq<Line>) { Entries(log) != [] && Chained(Entries(log)) }

  lemma ChainedPrefix(es: seq<Line>, n: nat)
    requires Chained(es) && n <= |es|
    ensures Chained(es[..n])
  {
    forall k | 0 <= k < n ensures Linked(es[..n], k) {
      assert Linked(es, k);
      assert es[..n][..k] == es[..k];
    }
  }

  lemma ChainedAppend(es: seq<Line>, l: Line)
    requires Chained(es)
    ensures Chained(es + [l]) <==> l.Receipt? && l.prev == Tip(es) && l.lamport == |es| + 1
  {
    var all := es + [l];
    assert all[..|es|] == es;
    if Chained(all) { assert Linked(all, |es|); }
    if l.Receipt? && l.prev == Tip(es) && l.lamport == |es| + 1 {
      forall k | 0 <= k < |all| ensures Linked(all, k) {
        if k < |es| {
          assert Linked(es, k);
          assert all[..k] == es[..k];
        }
      }
    }
  }

  lemma {:induction false} EntriesPrefix(log: seq<Line>, n: nat)
    requires n <= |log|
    ensures Entries(log[..n]) <= Entries(log)
  {
    if n < |log| {
      EntriesPrefix(log[..|log| - 1], n);
      assert log[..|log| - 1][..n] == log[..n];
    } else {
      assert log[..n] == log;
    }
  }

  /** One more line: what it adds, and that a fault in it is a fault of the whole log. */
  lemma LogStep(log: seq<Line>, i: nat)
    requires i < |log| && Chained(Entries(log[..i]))
    ensures var es := Entries(log[..i]);
            && Entries(log[..i + 1]) == (if log[i].Blank? then es else es + [log[i]])
            && (!log[i].Blank? ==>
                  && (Chained(es + [log[i]]) <==>
                      log[i].Receipt? && log[i].prev == Tip(es) && log[i].lamport == |es| + 1)
                  && (Chained(Entries(log)) ==> Chained(es + [log[i]])))
  {
    var es := Entries(log[..i]);
    assert log[..i + 1][..i] == log[..i];
    if !log[i].Blank? {
      ChainedAppend(es, log[i]);
      EntriesPrefix(log, i + 1);
      if Chained(Entries(log)) {
        ChainedPrefix(Entries(log), |es| + 1);
        assert Entries(log)[..|es| + 1] == es + [log[i]];
      }
    }
  }

  /** The check of the log, line by line. */
  method Verify(log: seq<Line>) returns (v: Verdict)
    ensures v.Ok? <==> Accepted(log)
    ensures v.Ok? ==> v.count == |Entries(log)| && v.signed == Signed(Entries(log))
  {
    var prev, lastLamport, count, signed := Genesis, 0, 0, 0;
    for i := 0 to |log|
      invariant Chained(Entries(log[..i]))
      invariant prev == Tip(Entries(log[..i])) && lastLamport == count == |Entries(log[..i])|
      invariant signed == Signed(Entries(log[..i]))
    {
      var line := log[i];
      ghost var es := Entries(log[..i]);
      LogStep(log, i);
      if line.Blank? {
        continue;
      }
      if !line.Receipt? || line.prev != prev || line.lamport != lastLamport + 1 {
        return Fail;
      }
      assert (es + [line])[..|es|] == es;
      if line.signed {
        signed := signed + 1;
      }
      prev, lastLamport, count := Digest(line), line.lamport, count + 1;
    }
    assert log[..|log|] == log;
    v := if count == 0 then Fail else Ok(count, signed);
  }

  /** In an accepted log the clock is the position, and cutting the log short keeps it acceptable. */
  lemma AcceptedPrefix(log: seq<Line>, n: nat)
    requires Accepted(log) && n <= |log|
    ensures forall k :: 0 <= k < |Entries(log)| ==> Entries(log)[k].Receipt? && Entries(log)[k].lamport == k + 1
    ensures Entries(log[..n]) == [] || Accepted(log[..n])
  {
    forall k | 0 <= k < |Entries(log)| ensures Entries(log)[k].Receipt? && Entries(log)[k].lamport == k + 1 {
      assert Linked(Entries(log), k);
    }
    EntriesPrefix(log, n);
    ChainedPrefix(Entries(log), |Entries(log[..n])|);
    assert Entries(log[..n]) == Entries(log)[..|Entries(log[..n])|];
  }

  lemma {:induction false} ChainedPinned(es: seq<Line>, fs: seq<Line>)
    requires Chained(es) && Chained(fs) && Tip(es) == Tip(fs)
    ensures es == fs
  {
    if es != [] && fs != [] {
      var i, j := |es| - 1, |fs| - 1;
      assert Linked(es, i) && Linked(fs, j);
      ChainedPrefix(es, i);
      ChainedPrefix(fs, j);
      ChainedPinned(es[..i], fs[..j]);
      assert es == es[..i] + [es[i]] && fs == fs[..j] + [fs[j]];
    }
  }

  /** The hash of the last receipt pins the whole log. */
  lemma TipPinsLog(log: seq<Line>, log': seq<Line>)
    requires Accepted(log) && Accepted(log') && Tip(Entries(log)) == Tip(Entries(log'))
    ensures Entries(log) == Entries(log')
  {
    ChainedPinned(Entries(log), Entries(log'));
  }

  /** The entries of a log are its lines in order, without the blank ones. */
  lemma {:induction false} EntriesExact(log: seq<Line>, l: Line)
    ensures Entries([]) == [] && Entries(log + [l]) == if l == Blank then Entries(log) else Entries(log) + [l]
  {
    assert (log + [l])[..|log|] == log;
  }

  /** The positions before `n` whose receipt carries a signature. */
  ghost function SignedAt(es: seq<Line>, n: nat): set<nat>
    requires n <= |es|
  {
    set k: nat | k < n && es[k].Receipt? && es[k].signed
  }

  lemma {:induction false} SignedStep(es: seq<Line>, n: nat)
    requires n < |es|
    ensures SignedAt(es, n + 1) == SignedAt(es, n) + if es[n].Receipt? && es[n].signed then {n} else {}
    ensures n !in SignedAt(es, n)
  {
  }

  lemma {:induction false} SignedPrefix(es: seq<Line>, n: nat)
    requires n <= |es|
    ensures Signed(es[..n]) == |SignedAt(es, n)|
  {
    if n > 0 {
      SignedPrefix(es, n - 1);
      SignedStep(es, n - 1);
      assert es[..n][..n - 1] == es[..n - 1] && es[..n][n - 1] == es[n - 1];
    }
  }

  /** The signatures counted are those of the receipts that carry one. */
  lemma {:induction false} SignedExact(es: seq<Line>)
    ensures Signed(es) == |SignedAt(es, |es|)|
  {
    SignedPrefix(es, |es|);
    assert es[..|es|] == es;
  }

  /** Each receipt of an accepted log names the line before it, the first one the beginning. */
  lemma AcceptedLinks(log: seq<Line>, k: nat)
    requires Accepted(log) && k < |Entries(log)|
    ensures Entries(log)[k].Receipt?
    ensures Entries(log)[k].prev == if k == 0 then Genesis else Digest(Entries(log)[k - 1])
  {
    assert Linked(Entries(log), k);
    if k > 0 { assert Entries(log)[..k][k - 1] == Entries(log)[k - 1]; }
  }
}
