/** What several models share: optional values, the host's insertion-ordered dictionary, the safe integers. */
module Wrappers {

  datatype Option<T> = None | Some(value: T)

  /** The largest integer that every JSON implementation holds exactly. */
  const MAX_SAFE_INTEGER := 9007199254740991

  /** Sets a dictionary entry: an existing key keeps its place. */
  function SetKey<V>(ms: seq<(string, V)>, k: string, v: V): (r: seq<(string, V)>) {
    if ms == [] then [(k, v)]
    else if ms[0].0 == k then [(k, v)] + ms[1..]
    else [ms[0]] + SetKey(ms[1..], k, v)
  }

  lemma SetKeyFresh<V>(ms: seq<(string, V)>, k: string, v: V)
    requires forall i :: 0 <= i < |ms| ==> ms[i].0 != k
    ensures SetKey(ms, k, v) == ms + [(k, v)]
  {
    if ms != [] { SetKeyFresh(ms[1..], k, v); }
  }

  function NamesOf<V>(ms: seq<(string, V)>): seq<string> {
    seq(|ms|, i requires 0 <= i < |ms| => ms[i].0)
  }

  /** Setting an entry keeps the names and their order, and adds a new name at the end. */
  lemma {:induction false} SetKeyNames<V>(ms: seq<(string, V)>, k: string, v: V)
    ensures NamesOf(SetKey(ms, k, v)) == if k in NamesOf(ms) then NamesOf(ms) else NamesOf(ms) + [k]
  {
    if ms != [] {
      assert NamesOf(ms) == [ms[0].0] + NamesOf(ms[1..]);
      if ms[0].0 == k {
        assert NamesOf([(k, v)] + ms[1..]) == NamesOf(ms);
      } else {
        SetKeyNames(ms[1..], k, v);
        var tail := SetKey(ms[1..], k, v);
        assert NamesOf([ms[0]] + tail) == [ms[0].0] + NamesOf(tail);
      }
    }
  }

  function Power(b: int, e: nat): int { if e == 0 then 1 else b * Power(b, e - 1) }

  lemma SafeIntegerBound()
    ensures MAX_SAFE_INTEGER == Power(2, 53) - 1
  {
    assert Power(2, 10) == 1024;
    assert Power(2, 20) == 1048576;
    assert Power(2, 30) == 1073741824;
    assert Power(2, 40) == 1099511627776;
    assert Power(2, 50) == 1125899906842624;
  }
}
