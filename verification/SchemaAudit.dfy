/**
  The registry's JSON Schema checker: `audit` walks the schema itself and reports every keyword or
  type the interpreter does not enforce; `validate` interprets the schema on an instance.
 */
module SchemaAudit {
  import opened Json
  import opened Wrappers

  /** A schema object: the enforced keywords, and the names of all keywords that are not enforced. */
  datatype Spec = Spec(ref: Option<string>, typ: Option<string>, constant: Option<Value>,
                       enumeration: Option<seq<Value>>, pattern: Option<string>, minItems: int, items: Option<Spec>,
                       required: seq<string>, properties: seq<(string, Spec)>, defs: seq<(string, Spec)>,
                       unenforced: set<string>)

  datatype Step = Property(name: string) | Definition(name: string) | Elements | Index(i: nat)

  type Path = seq<Step>

  datatype Problem = Keywords | UnknownType | Unresolved | WrongType | NotConst | NotInEnum | NoMatch | TooFew
                   | MissingField(name: string)

  datatype Finding = Finding(where: Path, problem: Problem)

  /** The number a token stands for, and the host's regular-expression search. */
  datatype Host = Host(number: string -> real, search: (string, string) -> bool)

  predicate KnownType(t: string) { t == "object" || t == "array" || t == "string" }

  // ----- the audit

  function AuditOwn(where: Path, s: Spec): seq<Finding> {
    (if s.unenforced != {} then [Finding(where, Keywords)] else []) +
    (if s.typ.Some? && !KnownType(s.typ.value) then [Finding(where, UnknownType)] else [])
  }

  function AuditOf(where: Path, s: Spec): seq<Finding>
    decreases s, 0
  {
    AuditOwn(where, s) + AuditEach(where, s.properties, true) + AuditEach(where, s.defs, false) +
    (if s.items.Some? then AuditOf(where + [Elements], s.items.value) else [])
  }

  function AuditEach(where: Path, ps: seq<(string, Spec)>, properties: bool): seq<Finding>
    decreases ps, 0
  {
    if ps == [] then []
    else AuditNamed(where, ps[0], properties) + AuditEach(where, ps[1..], properties)
  }

  function AuditNamed(where: Path, p: (string, Spec), property: bool): seq<Finding>
    decreases p, 0
  {
    AuditOf(where + [if property then Property(p.0) else Definition(p.0)], p.1)
  }

  /** All schemas the audit visits. */
  function Visited(s: Spec): set<Spec>
    decreases s, 0
  {
    {s} + VisitedEach(s.properties) + VisitedEach(s.defs) + (if s.items.Some? then Visited(s.items.value) else {})
  }

  function VisitedEach(ps: seq<(string, Spec)>): set<Spec>
    decreases ps, 0
  {
    if ps == [] then {} else VisitedNamed(ps[0]) + VisitedEach(ps[1..])
  }

  function VisitedNamed(p: (string, Spec)): set<Spec>
    decreases p, 0
  {
    Visited(p.1)
  }

  predicate Enforced(s: Spec) { s.unenforced == {} && (s.typ.Some? ==> KnownType(s.typ.value)) }

  /** The audit is silent exactly when every schema it visits is enforced. */
  lemma {:induction false} AuditExact(where: Path, s: Spec)
    ensures AuditOf(where, s) == [] <==> forall t :: t in Visited(s) ==> Enforced(t)
    decreases s, 0
  {
    AuditEachExact(where, s.properties, true);
    AuditEachExact(where, s.defs, false);
    if s.items.Some? { AuditExact(where + [Elements], s.items.value); }
    assert AuditOwn(where, s) == [] <==> Enforced(s);
    assert s in Visited(s);
  }

  lemma {:induction false} AuditEachExact(where: Path, ps: seq<(string, Spec)>, properties: bool)
    ensures AuditEach(where, ps, properties) == [] <==> forall t :: t in VisitedEach(ps) ==> Enforced(t)
    decreases ps, 0
  {
    if ps != [] {
      AuditNamedExact(where, ps[0], properties);
      AuditEachExact(where, ps[1..], properties);
    }
  }

  lemma {:induction false} AuditNamedExact(where: Path, p: (string, Spec), property: bool)
    ensures AuditNamed(where, p, property) == [] <==> forall t :: t in VisitedNamed(p) ==> Enforced(t)
    decreases p, 0
  {
    AuditExact(where + [if property then Property(p.0) else Definition(p.0)], p.1);
  }

  // ----- references

  const PREFIX := "#/$defs/"

  /** No earlier entry has the same name. */
  predicate FirstAt<V>(ps: seq<(string, V)>, i: nat) {
    i < |ps| && forall k :: 0 <= k < i ==> ps[k].0 != ps[i].0
  }

  /** The index of the first entry with the name, or the length. */
  function Find<V>(ps: seq<(string, V)>, name: string): (i: nat)
    ensures i <= |ps| && (i < |ps| ==> ps[i].0 == name)
    ensures forall k :: 0 <= k < i ==> ps[k].0 != name
  {
    if ps == [] || ps[0].0 == name then 0 else 1 + Find(ps[1..], name)
  }

  /** The definition that a reference names, if it names one. */
  function Resolve(root: Spec, ref: string): Option<Spec> {
    if !(PREFIX <= ref) then None
    else
      var i := Find(root.defs, ref[|PREFIX|..]);
      if i < |root.defs| then Some(root.defs[i].1) else None
  }

  /** What references mean: the schema each one names. */
  type Refs = string -> Option<Spec>

  function Local(root: Spec): Refs { (ref: string) => Resolve(root, ref) }

  // ----- what validation brings together

  /** Applying `s` to `v` directly applies `s'` to `v'`. */
  ghost predicate Calls(refs: Refs, v: Value, s: Spec, v': Value, s': Spec) {
    || (v' == v && s.ref.Some? && refs(s.ref.value) == Some(s'))
    || (v.Arr? && v' in v.items && s.items == Some(s'))
    || (v.Obj? && exists j :: 0 <= j < |s.properties| && FieldCall(v.members, s.properties[j], v', s'))
  }

  /** The field is present, and its schema is applied to its value. */
  predicate FieldCall(ms: seq<(string, Value)>, p: (string, Spec), v': Value, s': Spec) {
    var i := Find(ms, p.0);
    i < |ms| && v' == ms[i].1 && s' == p.1
  }

  type Chain = seq<(Value, Spec)>

  ghost predicate CallChain(refs: Refs, c: Chain) {
    c != [] && forall i :: 0 < i < |c| ==> Calls(refs, c[i - 1].0, c[i - 1].1, c[i].0, c[i].1)
  }

  /** A condition on an instance and a schema, each without its parts. */
  type Check = (Value, Spec) -> bool

  /** The condition holds of every instance and schema that applying `s` to `v` brings together. */
  ghost predicate Everywhere(at: Check, refs: Refs, v: Value, s: Spec) {
    forall c: Chain :: CallChain(refs, c) && c[0] == (v, s) ==> at(c[|c| - 1].0, c[|c| - 1].1)
  }

  ghost predicate InField(at: Check, refs: Refs, ms: seq<(string, Value)>, p: (string, Spec)) {
    Find(ms, p.0) < |ms| ==> Everywhere(at, refs, ms[Find(ms, p.0)].1, p.1)
  }

  ghost predicate InItems(at: Check, refs: Refs, xs: seq<Value>, i: nat, s: Spec) {
    forall k :: i <= k < |xs| ==> Everywhere(at, refs, xs[k], s)
  }

  ghost predicate InFields(at: Check, refs: Refs, ms: seq<(string, Value)>, ps: seq<(string, Spec)>) {
    forall j :: 0 <= j < |ps| ==> InField(at, refs, ms, ps[j])
  }

  ghost predicate Inside(at: Check, refs: Refs, v: Value, s: Spec) {
    match v
    case Arr(xs) => s.items.Some? ==> InItems(at, refs, xs, 0, s.items.value)
    case Obj(ms) => InFields(at, refs, ms, s.properties)
    case _ => true
  }

  lemma {:induction false} EverywhereHere(at: Check, refs: Refs, v: Value, s: Spec)
    requires Everywhere(at, refs, v, s)
    ensures at(v, s)
  {
    assert CallChain(refs, [(v, s)]);
  }

  /** What holds everywhere holds everywhere below. */
  lemma {:induction false} EverywhereBelow(at: Check, refs: Refs, v: Value, s: Spec, v': Value, s': Spec)
    requires Everywhere(at, refs, v, s) && Calls(refs, v, s, v', s')
    ensures Everywhere(at, refs, v', s')
  {
    forall c: Chain | CallChain(refs, c) && c[0] == (v', s') ensures at(c[|c| - 1].0, c[|c| - 1].1) {
      var d := [(v, s)] + c;
      forall i | 0 < i < |d| ensures Calls(refs, d[i - 1].0, d[i - 1].1, d[i].0, d[i].1) {
        if i > 1 { assert Calls(refs, c[i - 2].0, c[i - 2].1, c[i - 1].0, c[i - 1].1); }
      }
      assert CallChain(refs, d) && d[|d| - 1] == c[|c| - 1];
    }
  }

  lemma {:induction false} EverywhereFrom(at: Check, refs: Refs, v: Value, s: Spec)
    requires at(v, s) && forall v', s' :: Calls(refs, v, s, v', s') ==> Everywhere(at, refs, v', s')
    ensures Everywhere(at, refs, v, s)
  {
    forall c: Chain | CallChain(refs, c) && c[0] == (v, s) ensures at(c[|c| - 1].0, c[|c| - 1].1) {
      if |c| > 1 {
        var d := c[1..];
        forall i | 0 < i < |d| ensures Calls(refs, d[i - 1].0, d[i - 1].1, d[i].0, d[i].1) {
          assert Calls(refs, c[i].0, c[i].1, c[i + 1].0, c[i + 1].1);
        }
        assert CallChain(refs, d) && d[|d| - 1] == c[|c| - 1];
        assert Calls(refs, c[0].0, c[0].1, c[1].0, c[1].1);
      }
    }
  }

  /** The condition everywhere, part by part. */
  lemma {:induction false} EverywhereParts(at: Check, refs: Refs, v: Value, s: Spec)
    ensures Everywhere(at, refs, v, s) <==>
            && at(v, s)
            && (s.ref.Some? && refs(s.ref.value).Some? ==> Everywhere(at, refs, v, refs(s.ref.value).value))
            && Inside(at, refs, v, s)
  {
    if Everywhere(at, refs, v, s) {
      EverywhereHere(at, refs, v, s);
      if s.ref.Some? && refs(s.ref.value).Some? { EverywhereBelow(at, refs, v, s, v, refs(s.ref.value).value); }
      PartsBelow(at, refs, v, s);
    }
    if && at(v, s) && Inside(at, refs, v, s)
       && (s.ref.Some? && refs(s.ref.value).Some? ==> Everywhere(at, refs, v, refs(s.ref.value).value)) {
      EverywhereFrom(at, refs, v, s);
    }
  }

  lemma {:induction false} PartsBelow(at: Check, refs: Refs, v: Value, s: Spec)
    requires Everywhere(at, refs, v, s)
    ensures Inside(at, refs, v, s)
  {
    match v
    case Arr(xs) =>
      if s.items.Some? {
        forall i | 0 <= i < |xs| ensures Everywhere(at, refs, xs[i], s.items.value) {
          EverywhereBelow(at, refs, v, s, xs[i], s.items.value);
        }
      }
    case Obj(ms) =>
      forall j | 0 <= j < |s.properties| ensures InField(at, refs, ms, s.properties[j]) {
        var p := s.properties[j];
        var i := Find(ms, p.0);
        if i < |ms| {
          assert FieldCall(ms, p, ms[i].1, p.1);
          EverywhereBelow(at, refs, v, s, ms[i].1, p.1);
        }
      }
    case _ =>
  }

  // ----- references that end

  /** Following references from `s` on one value comes to an end within `n` steps. */
  predicate Settles(root: Spec, s: Spec, n: nat)
    decreases n
  {
    || s.ref.None? || Resolve(root, s.ref.value).None?
    || (n > 0 && Settles(root, Resolve(root, s.ref.value).value, n - 1))
  }

  ghost predicate Settled(root: Spec, s: Spec) { exists n: nat :: Settles(root, s, n) }

  ghost function LeastFrom(root: Spec, s: Spec, m: nat, n: nat): (k: nat)
    requires m <= n && Settles(root, s, n) && forall j :: 0 <= j < m ==> !Settles(root, s, j)
    ensures Settles(root, s, k) && forall j :: 0 <= j < k ==> !Settles(root, s, j)
    decreases n - m
  {
    if Settles(root, s, m) then m else LeastFrom(root, s, m + 1, n)
  }

  /** The number of references that are followed from `s` on one value. */
  ghost function Hops(root: Spec, s: Spec): (k: nat)
    ensures Settled(root, s) ==> Settles(root, s, k) && forall j :: 0 <= j < k ==> !Settles(root, s, j)
  {
    if Settled(root, s) then
      var n: nat :| Settles(root, s, n);
      LeastFrom(root, s, 0, n)
    else 0
  }

  lemma {:induction false} HopsFall(root: Spec, s: Spec)
    requires Settled(root, s) && s.ref.Some? && Resolve(root, s.ref.value).Some?
    ensures Hops(root, Resolve(root, s.ref.value).value) < Hops(root, s)
  {
    var t := Resolve(root, s.ref.value).value;
    var k := Hops(root, s);
    assert Settles(root, s, k);
    assert Settles(root, t, k - 1);
  }

  ghost function SettledAt(root: Spec): Check { (v: Value, s: Spec) => Settled(root, s) }

  /** Validation comes to an end: no schema it applies starts an endless run of references. */
  ghost predicate Ends(root: Spec, v: Value, s: Spec) { Everywhere(SettledAt(root), Local(root), v, s) }

  lemma {:induction false} EndsThere(root: Spec, v: Value, s: Spec)
    requires Ends(root, v, s) && s.ref.Some? && Resolve(root, s.ref.value).Some?
    ensures Ends(root, v, Resolve(root, s.ref.value).value)
    ensures Hops(root, Resolve(root, s.ref.value).value) < Hops(root, s)
  {
    EverywhereParts(SettledAt(root), Local(root), v, s);
    HopsFall(root, s);
  }

  ghost predicate ItemsEnd(root: Spec, xs: seq<Value>, i: nat, s: Spec) {
    forall k :: i <= k < |xs| ==> Ends(root, xs[k], s)
  }

  ghost predicate FieldEnds(root: Spec, ms: seq<(string, Value)>, p: (string, Spec)) {
    Find(ms, p.0) < |ms| ==> Ends(root, ms[Find(ms, p.0)].1, p.1)
  }

  ghost predicate FieldsEnd(root: Spec, ms: seq<(string, Value)>, ps: seq<(string, Spec)>) {
    forall j :: 0 <= j < |ps| ==> FieldEnds(root, ms, ps[j])
  }

  lemma {:induction false} ItemsTail(root: Spec, xs: seq<Value>, i: nat, s: Spec)
    requires ItemsEnd(root, xs, i, s) && i < |xs|
    ensures Ends(root, xs[i], s) && ItemsEnd(root, xs, i + 1, s)
  {
  }

  lemma {:induction false} FieldsTail(root: Spec, ms: seq<(string, Value)>, ps: seq<(string, Spec)>)
    requires FieldsEnd(root, ms, ps) && ps != []
    ensures FieldEnds(root, ms, ps[0]) && FieldsEnd(root, ms, ps[1..])
  {
  }

  lemma {:induction false} EndsInside(root: Spec, v: Value, s: Spec)
    requires Ends(root, v, s)
    ensures v.Arr? && s.items.Some? ==> ItemsEnd(root, v.items, 0, s.items.value)
    ensures v.Obj? ==> FieldsEnd(root, v.members, s.properties)
  {
    EverywhereParts(SettledAt(root), Local(root), v, s);
    if v.Obj? {
      forall j | 0 <= j < |s.properties| ensures FieldEnds(root, v.members, s.properties[j]) {
        assert InField(SettledAt(root), Local(root), v.members, s.properties[j]);
      }
    }
  }

  // ----- the interpreter

  predicate IsType(v: Value, t: string) {
    (t == "object" && v.Obj?) || (t == "array" && v.Arr?) || (t == "string" && v.Str?)
  }

  /** The value of a truth value among the host's numbers. */
  function BoolNumber(b: bool): real { if b then 1.0 else 0.0 }

  /**
    The host's equality: numbers by what they stand for, with true for 1 and false for 0, lists by
    position, dictionaries by name.
   */
  predicate Same(h: Host, v: Value, w: Value) {
    match (v, w)
    case (Num(a), Num(b)) => h.number(a) == h.number(b)
    case (Bool(b), Num(a)) => h.number(a) == BoolNumber(b)
    case (Num(a), Bool(b)) => h.number(a) == BoolNumber(b)
    case (Arr(xs), Arr(ys)) => |xs| == |ys| && forall i :: 0 <= i < |xs| ==> Same(h, xs[i], ys[i])
    case (Obj(ms), Obj(ns)) =>
      && (forall j :: 0 <= j < |ns| ==> Find(ms, ns[j].0) < |ms|)
      && forall i :: 0 <= i < |ms| && FirstAt(ms, i) ==> SameMember(h, ms[i], ns)
    case _ => v == w
  }

  predicate SameMember(h: Host, m: (string, Value), ns: seq<(string, Value)>) {
    var j := Find(ns, m.0);
    j < |ns| && Same(h, m.1, ns[j].1)
  }

  predicate Among(h: Host, v: Value, ws: seq<Value>) {
    exists i :: 0 <= i < |ws| && Same(h, v, ws[i])
  }

  /** `const`, `enum` and `pattern`. */
  function ScalarFindings(h: Host, where: Path, v: Value, s: Spec): seq<Finding> {
    (if s.constant.Some? && !Same(h, v, s.constant.value) then [Finding(where, NotConst)] else []) +
    (if s.enumeration.Some? && !Among(h, v, s.enumeration.value) then [Finding(where, NotInEnum)] else []) +
    (if s.pattern.Some? && !(v.Str? && h.search(s.pattern.value, v.s)) then [Finding(where, NoMatch)] else [])
  }

  function MissingFields(where: Path, ms: seq<(string, Value)>, required: seq<string>): seq<Finding> {
    if required == [] then []
    else (if Find(ms, required[0]) == |ms| then [Finding(where, MissingField(required[0]))] else [])
         + MissingFields(where, ms, required[1..])
  }

  function ValidateOf(h: Host, root: Spec, where: Path, v: Value, s: Spec): seq<Finding>
    requires Ends(root, v, s)
    decreases v, Hops(root, s), 2
  {
    if s.ref.None? then OwnFindings(h, root, where, v, s)
    else if Resolve(root, s.ref.value).None? then [Finding(where, Unresolved)]
    else
      EndsThere(root, v, s);
      ValidateOf(h, root, where, v, Resolve(root, s.ref.value).value) + OwnFindings(h, root, where, v, s)
  }

  /** The findings of the keywords beside `$ref`. */
  function OwnFindings(h: Host, root: Spec, where: Path, v: Value, s: Spec): seq<Finding>
    requires Ends(root, v, s)
    decreases v, 0, 1
  {
    if s.typ.Some? && !KnownType(s.typ.value) then []
    else if s.typ.Some? && !IsType(v, s.typ.value) then [Finding(where, WrongType)]
    else ScalarFindings(h, where, v, s) + NestedFindings(h, root, where, v, s)
  }

  function CountFindings(where: Path, xs: seq<Value>, s: Spec): seq<Finding> {
    if |xs| < s.minItems then [Finding(where, TooFew)] else []
  }

  /** The findings about the elements of a list or the fields of an object. */
  function NestedFindings(h: Host, root: Spec, where: Path, v: Value, s: Spec): seq<Finding>
    requires Ends(root, v, s)
    decreases v, 0, 0
  {
    EndsInside(root, v, s);
    match v
    case Arr(xs) => ListFindings(h, root, where, xs, s)
    case Obj(ms) => MissingFields(where, ms, s.required) + PropertyFindings(h, root, where, ms, s.properties)
    case _ => []
  }

  function ListFindings(h: Host, root: Spec, where: Path, xs: seq<Value>, s: Spec): seq<Finding>
    requires s.items.Some? ==> ItemsEnd(root, xs, 0, s.items.value)
    decreases xs, |xs| + 1, 0
  {
    CountFindings(where, xs, s) +
    (if s.items.Some? then ItemFindings(h, root, where, xs, 0, s.items.value) else [])
  }

  function ItemFindings(h: Host, root: Spec, where: Path, xs: seq<Value>, i: nat, s: Spec): seq<Finding>
    requires i <= |xs| && ItemsEnd(root, xs, i, s)
    decreases xs, |xs| - i, 0
  {
    if i == |xs| then []
    else ValidateOf(h, root, where + [Index(i)], xs[i], s) + ItemFindings(h, root, where, xs, i + 1, s)
  }

  function PropertyFindings(h: Host, root: Spec, where: Path, ms: seq<(string, Value)>,
                            ps: seq<(string, Spec)>): seq<Finding>
    requires FieldsEnd(root, ms, ps)
    decreases ms, |ps|, 0
  {
    if ps == [] then []
    else
      FieldsTail(root, ms, ps);
      var i := Find(ms, ps[0].0);
      (if i < |ms| then MemberFindings(h, root, where, ms[i], ps[0].1) else []) +
      PropertyFindings(h, root, where, ms, ps[1..])
  }

  function MemberFindings(h: Host, root: Spec, where: Path, m: (string, Value), s: Spec): seq<Finding>
    requires Ends(root, m.1, s)
    decreases m, 0, 0
  {
    ValidateOf(h, root, where + [Property(m.0)], m.1, s)
  }

  // ----- the walkers of the source, appending to one shared list

  lemma {:induction false} Appended(o: seq<Finding>, a: seq<Finding>, b: seq<Finding>)
    ensures o + a + b == o + (a + b)
  {
  }

  class Report {
    var out: seq<Finding>

    constructor ()
      ensures out == []
    {
      out := [];
    }

    method Audit(where: Path, s: Spec)
      modifies this
      ensures out == old(out) + AuditOf(where, s)
      decreases s, 1
    {
      ghost var o := out;
      ghost var a, b, c := AuditOwn(where, s), AuditEach(where, s.properties, true), AuditEach(where, s.defs, false);
      out := out + AuditOwn(where, s);
      AuditAll(where, s.properties, true);
      Appended(o, a, b);
      AuditAll(where, s.defs, false);
      Appended(o, a + b, c);
      if s.items.Some? {
        Audit(where + [Elements], s.items.value);
        Appended(o, a + b + c, AuditOf(where + [Elements], s.items.value));
      }
    }

    method AuditAll(where: Path, ps: seq<(string, Spec)>, properties: bool)
      modifies this
      ensures out == old(out) + AuditEach(where, ps, properties)
      decreases ps, 1
    {
      if ps != [] {
        AuditOne(where, ps[0], properties);
        AuditAll(where, ps[1..], properties);
      }
    }

    method AuditOne(where: Path, p: (string, Spec), property: bool)
      modifies this
      ensures out == old(out) + AuditNamed(where, p, property)
      decreases p, 1
    {
      Audit(where + [if property then Property(p.0) else Definition(p.0)], p.1);
    }

    method Validate(h: Host, root: Spec, where: Path, v: Value, s: Spec)
      requires Ends(root, v, s)
      modifies this
      ensures out == old(out) + ValidateOf(h, root, where, v, s)
      decreases v, Hops(root, s), 2
    {
      if s.ref.Some? {
        var target := Resolve(root, s.ref.value);
        if target.None? {
          out := out + [Finding(where, Unresolved)];
          return;
        }
        EndsThere(root, v, s);
        Validate(h, root, where, v, target.value);
      }
      ValidateOwn(h, root, where, v, s);
    }

    method ValidateOwn(h: Host, root: Spec, where: Path, v: Value, s: Spec)
      requires Ends(root, v, s)
      modifies this
      ensures out == old(out) + OwnFindings(h, root, where, v, s)
      decreases v, 0, 1
    {
      if s.typ.Some? {
        if !KnownType(s.typ.value) {
          return;
        }
        if !IsType(v, s.typ.value) {
          out := out + [Finding(where, WrongType)];
          return;
        }
      }
      ghost var o := out;
      out := out + ScalarFindings(h, where, v, s);
      ValidateNested(h, root, where, v, s);
      Appended(o, ScalarFindings(h, where, v, s), NestedFindings(h, root, where, v, s));
    }

    method ValidateNested(h: Host, root: Spec, where: Path, v: Value, s: Spec)
      requires Ends(root, v, s)
      modifies this
      ensures out == old(out) + NestedFindings(h, root, where, v, s)
      decreases v, 0, 0
    {
      EndsInside(root, v, s);
      match v
      case Arr(xs) => ValidateList(h, root, where, xs, s);
      case Obj(ms) =>
        ghost var o, missing := out, MissingFields(where, ms, s.required);
        out := out + MissingFields(where, ms, s.required);
        ValidateProperties(h, root, where, ms, s.properties);
        Appended(o, missing, PropertyFindings(h, root, where, ms, s.properties));
      case _ =>
    }

    method ValidateList(h: Host, root: Spec, where: Path, xs: seq<Value>, s: Spec)
      requires s.items.Some? ==> ItemsEnd(root, xs, 0, s.items.value)
      modifies this
      ensures out == old(out) + ListFindings(h, root, where, xs, s)
      decreases xs, |xs| + 1, 0
    {
      ghost var o, count := out, CountFindings(where, xs, s);
      if |xs| < s.minItems {
        out := out + [Finding(where, TooFew)];
      }
      if s.items.Some? {
        ValidateItems(h, root, where, xs, 0, s.items.value);
        Appended(o, count, ItemFindings(h, root, where, xs, 0, s.items.value));
      }
    }

    method ValidateItems(h: Host, root: Spec, where: Path, xs: seq<Value>, i: nat, s: Spec)
      requires i <= |xs| && ItemsEnd(root, xs, i, s)
      modifies this
      ensures out == old(out) + ItemFindings(h, root, where, xs, i, s)
      decreases xs, |xs| - i, 0
    {
      if i < |xs| {
        ItemsTail(root, xs, i, s);
        ghost var o, here := out, ValidateOf(h, root, where + [Index(i)], xs[i], s);
        Validate(h, root, where + [Index(i)], xs[i], s);
        ValidateItems(h, root, where, xs, i + 1, s);
        Appended(o, here, ItemFindings(h, root, where, xs, i + 1, s));
      }
    }

    method ValidateProperties(h: Host, root: Spec, where: Path, ms: seq<(string, Value)>,
                              ps: seq<(string, Spec)>)
      requires FieldsEnd(root, ms, ps)
      modifies this
      ensures out == old(out) + PropertyFindings(h, root, where, ms, ps)
      decreases ms, |ps|, 0
    {
      if ps != [] {
        FieldsTail(root, ms, ps);
        var i := Find(ms, ps[0].0);
        ghost var o, here := out, [];
        if i < |ms| {
          here := MemberFindings(h, root, where, ms[i], ps[0].1);
          ValidateMember(h, root, where, ms[i], ps[0].1);
        }
        ValidateProperties(h, root, where, ms, ps[1..]);
        Appended(o, here, PropertyFindings(h, root, where, ms, ps[1..]));
      }
    }

    method ValidateMember(h: Host, root: Spec, where: Path, m: (string, Value), s: Spec)
      requires Ends(root, m.1, s)
      modifies this
      ensures out == old(out) + MemberFindings(h, root, where, m, s)
      decreases m, 0, 0
    {
      Validate(h, root, where + [Property(m.0)], m.1, s);
    }
  }

  // ----- everything validated was audited

  lemma {:induction false} EachIncluded(ps: seq<(string, Spec)>, i: nat)
    requires i < |ps|
    ensures Visited(ps[i].1) <= VisitedEach(ps)
  {
    if i > 0 { EachIncluded(ps[1..], i - 1); }
    assert VisitedNamed(ps[0]) == Visited(ps[0].1);
  }

  lemma {:induction false} VisitedClosed(s: Spec, t: Spec)
    requires t in Visited(s)
    ensures Visited(t) <= Visited(s)
    decreases s, 1
  {
    if t != s {
      if t in VisitedEach(s.properties) {
        EachClosed(s.properties, t);
      } else if t in VisitedEach(s.defs) {
        EachClosed(s.defs, t);
      } else {
        VisitedClosed(s.items.value, t);
      }
    }
  }

  lemma {:induction false} EachClosed(ps: seq<(string, Spec)>, t: Spec)
    requires t in VisitedEach(ps)
    ensures Visited(t) <= VisitedEach(ps)
    decreases ps, 1
  {
    if t in VisitedNamed(ps[0]) { NamedClosed(ps[0], t); } else { EachClosed(ps[1..], t); }
  }

  lemma {:induction false} NamedClosed(p: (string, Spec), t: Spec)
    requires t in VisitedNamed(p)
    ensures Visited(t) <= VisitedNamed(p)
    decreases p, 1
  {
    VisitedClosed(p.1, t);
  }

  /** References lead to schemas that the audit visits. */
  ghost predicate Within(refs: Refs, root: Spec) {
    forall ref :: refs(ref).Some? ==> refs(ref).value in Visited(root)
  }

  lemma {:induction false} LocalWithin(root: Spec)
    ensures Within(Local(root), root)
  {
    forall ref | Resolve(root, ref).Some? ensures Resolve(root, ref).value in Visited(root) {
      var i := Find(root.defs, ref[|PREFIX|..]);
      EachIncluded(root.defs, i);
      assert root.defs[i].1 in Visited(root.defs[i].1);
    }
  }

  lemma {:induction false} CallStaysVisited(refs: Refs, root: Spec, v: Value, s: Spec, v': Value, s': Spec)
    requires Within(refs, root) && s in Visited(root) && Calls(refs, v, s, v', s')
    ensures s' in Visited(root)
  {
    VisitedClosed(root, s);
    assert s' in Visited(s');
    if !(s.ref.Some? && refs(s.ref.value) == Some(s')) {
      if s.items == Some(s') {
        assert s' in Visited(s);
      } else {
        var j :| 0 <= j < |s.properties| && FieldCall(v.members, s.properties[j], v', s');
        EachIncluded(s.properties, j);
      }
    }
  }

  lemma {:induction false} ChainVisited(refs: Refs, root: Spec, c: Chain)
    requires Within(refs, root) && CallChain(refs, c) && c[0].1 in Visited(root)
    ensures c[|c| - 1].1 in Visited(root)
    decreases |c|
  {
    if |c| > 1 {
      ChainVisited(refs, root, c[..|c| - 1]);
      CallStaysVisited(refs, root, c[|c| - 2].0, c[|c| - 2].1, c[|c| - 1].0, c[|c| - 1].1);
    }
  }

  /**
    Every schema that validation can reach from the root, on any instance and through any
    references, was visited by the audit; after a clean audit each has an enforced type.
   */
  lemma {:induction false} ReachedWasAudited(root: Spec, where: Path, c: Chain)
    requires CallChain(Local(root), c) && c[0].1 == root
    ensures c[|c| - 1].1 in Visited(root)
    ensures AuditOf(where, root) == [] ==> Enforced(c[|c| - 1].1)
  {
    AuditExact(where, root);
    assert root in Visited(root);
    LocalWithin(root);
    ChainVisited(Local(root), root, c);
  }

  // ----- what validation reports

  /** Every test the interpreter makes on one instance and schema succeeds. */
  predicate Tested(h: Host, root: Spec, v: Value, s: Spec) {
    && (s.ref.Some? ==> Resolve(root, s.ref.value).Some?)
    && (s.typ.Some? ==> IsType(v, s.typ.value))
    && (s.constant.Some? ==> Same(h, v, s.constant.value))
    && (s.enumeration.Some? ==> Among(h, v, s.enumeration.value))
    && (s.pattern.Some? ==> v.Str? && h.search(s.pattern.value, v.s))
    && Sized(v, s)
  }

  /** Lists are long enough, and required fields are there. */
  predicate Sized(v: Value, s: Spec) {
    && (v.Arr? ==> |v.items| >= s.minItems)
    && (v.Obj? ==> forall i :: 0 <= i < |s.required| ==> Find(v.members, s.required[i]) < |v.members|)
  }

  function Interpreted(h: Host, root: Spec): Check { (v: Value, s: Spec) => Tested(h, root, v, s) }

  /** The interpreter's tests succeed on everything it brings together. */
  ghost predicate Passes(h: Host, root: Spec, v: Value, s: Spec) {
    Everywhere(Interpreted(h, root), Local(root), v, s)
  }

  lemma MissingExact(where: Path, ms: seq<(string, Value)>, required: seq<string>)
    ensures MissingFields(where, ms, required) == [] <==>
            forall i :: 0 <= i < |required| ==> Find(ms, required[i]) < |ms|
  {
    if required != [] {
      MissingExact(where, ms, required[1..]);
      assert forall i :: 0 < i < |required| ==> required[i] == required[1..][i - 1];
      assert forall i :: 0 <= i < |required[1..]| ==> required[1..][i] == required[i + 1];
    }
  }

  /** The audit of the root found nothing. */
  ghost predicate CleanRoot(root: Spec) { forall t :: t in Visited(root) ==> Enforced(t) }

  /** After a clean audit, validation is silent exactly when every test it makes anywhere succeeds. */
  lemma {:induction false} SilentExact(h: Host, root: Spec, where: Path, v: Value, s: Spec)
    requires Ends(root, v, s) && CleanRoot(root) && s in Visited(root)
    ensures ValidateOf(h, root, where, v, s) == [] <==> Passes(h, root, v, s)
    decreases v, Hops(root, s), 3
  {
    if s.ref.Some? && Resolve(root, s.ref.value).Some? { EndsThere(root, v, s); }
    EverywhereParts(Interpreted(h, root), Local(root), v, s);
    if s.ref.None? || Resolve(root, s.ref.value).Some? { OwnExact(h, root, where, v, s); }
    if s.ref.Some? && Resolve(root, s.ref.value).Some? {
      var target := Resolve(root, s.ref.value).value;
      LocalWithin(root);
      assert Local(root)(s.ref.value) == Some(target);
      SilentExact(h, root, where, v, target);
    }
  }

  lemma {:induction false} OwnExact(h: Host, root: Spec, where: Path, v: Value, s: Spec)
    requires Ends(root, v, s) && CleanRoot(root) && s in Visited(root)
    requires s.ref.Some? ==> Resolve(root, s.ref.value).Some?
    ensures OwnFindings(h, root, where, v, s) == [] <==>
            Tested(h, root, v, s) && Inside(Interpreted(h, root), Local(root), v, s)
    decreases v, 0, 2
  {
    assert Enforced(s);
    NestedExact(h, root, where, v, s);
  }

  lemma {:induction false} NestedExact(h: Host, root: Spec, where: Path, v: Value, s: Spec)
    requires Ends(root, v, s) && CleanRoot(root) && s in Visited(root)
    ensures NestedFindings(h, root, where, v, s) == [] <==>
            Sized(v, s) && Inside(Interpreted(h, root), Local(root), v, s)
    decreases v, 0, 1
  {
    EndsInside(root, v, s);
    VisitedClosed(root, s);
    match v
    case Arr(xs) =>
      if s.items.Some? {
        assert s.items.value in Visited(s.items.value);
        assert s.items.value in Visited(s);
        ItemsExact(h, root, where, xs, 0, s.items.value);
      }
    case Obj(ms) =>
      MissingExact(where, ms, s.required);
      PropertiesExact(h, root, where, ms, s.properties);
    case _ =>
  }

  lemma {:induction false} ItemsFrom(at: Check, refs: Refs, xs: seq<Value>, i: nat, s: Spec)
    requires i < |xs|
    ensures InItems(at, refs, xs, i, s) <==> Everywhere(at, refs, xs[i], s) && InItems(at, refs, xs, i + 1, s)
  {
  }

  lemma {:induction false} ItemsExact(h: Host, root: Spec, where: Path, xs: seq<Value>, i: nat, s: Spec)
    requires i <= |xs| && ItemsEnd(root, xs, i, s) && CleanRoot(root) && s in Visited(root)
    ensures ItemFindings(h, root, where, xs, i, s) == [] <==> InItems(Interpreted(h, root), Local(root), xs, i, s)
    decreases xs, |xs| - i, 0
  {
    if i < |xs| {
      SilentExact(h, root, where + [Index(i)], xs[i], s);
      ItemsExact(h, root, where, xs, i + 1, s);
      ItemsFrom(Interpreted(h, root), Local(root), xs, i, s);
    }
  }

  lemma {:induction false} PropertiesExact(h: Host, root: Spec, where: Path, ms: seq<(string, Value)>,
                                           ps: seq<(string, Spec)>)
    requires FieldsEnd(root, ms, ps) && CleanRoot(root) && VisitedEach(ps) <= Visited(root)
    ensures PropertyFindings(h, root, where, ms, ps) == [] <==> InFields(Interpreted(h, root), Local(root), ms, ps)
    decreases ms, |ps|, 0
  {
    if ps != [] {
      EachIncluded(ps, 0);
      FieldsTail(root, ms, ps);
      var i := Find(ms, ps[0].0);
      if i < |ms| {
        assert ps[0].1 in Visited(ps[0].1);
        MemberExact(h, root, where, ms[i], ps[0].1);
      }
      PropertiesExact(h, root, where, ms, ps[1..]);
      assert forall k :: 0 < k < |ps| ==> ps[k] == ps[1..][k - 1];
      assert forall k :: 0 <= k < |ps[1..]| ==> ps[1..][k] == ps[k + 1];
    }
  }

  lemma {:induction false} MemberExact(h: Host, root: Spec, where: Path, m: (string, Value), s: Spec)
    requires Ends(root, m.1, s) && CleanRoot(root) && s in Visited(root)
    ensures MemberFindings(h, root, where, m, s) == [] <==> Passes(h, root, m.1, s)
    decreases m, 0, 0
  {
    SilentExact(h, root, where + [Property(m.0)], m.1, s);
  }

  // ----- what is reported

  /** Each finding about `const`, `enum` and `pattern` says what failed, and no failure is kept back. */
  lemma {:induction false} ScalarReported(h: Host, where: Path, v: Value, s: Spec, f: Finding)
    ensures f in ScalarFindings(h, where, v, s) <==>
            f.where == where &&
            match f.problem
            case NotConst => s.constant.Some? && !Same(h, v, s.constant.value)
            case NotInEnum => s.enumeration.Some? && forall i :: 0 <= i < |s.enumeration.value| ==>
                                !Same(h, v, s.enumeration.value[i])
            case NoMatch => s.pattern.Some? && (v.Str? ==> !h.search(s.pattern.value, v.s))
            case _ => false
  {
  }

  /** Exactly the required names without a member are reported missing. */
  lemma {:induction false} MissingReported(where: Path, ms: seq<(string, Value)>, required: seq<string>, f: Finding)
    ensures f in MissingFields(where, ms, required) <==>
            && f.where == where && f.problem.MissingField? && f.problem.name in required
            && forall i :: 0 <= i < |ms| ==> ms[i].0 != f.problem.name
  {
    if required != [] { MissingReported(where, ms, required[1..], f); }
  }

  /** An unresolved reference, or a wrong type beside no reference, is all that is reported. */
  lemma {:induction false} EarlyReturns(h: Host, root: Spec, where: Path, v: Value, s: Spec)
    requires Ends(root, v, s)
    ensures s.ref.Some? && Resolve(root, s.ref.value).None? ==>
            ValidateOf(h, root, where, v, s) == [Finding(where, Unresolved)]
    ensures s.ref.None? && s.typ.Some? && KnownType(s.typ.value) && !IsType(v, s.typ.value) ==>
            ValidateOf(h, root, where, v, s) == [Finding(where, WrongType)]
  {
  }

  /** The findings about a list: too few elements, and those of each element under its index. */
  lemma {:induction false} ListReported(h: Host, root: Spec, where: Path, xs: seq<Value>, s: Spec, f: Finding)
    requires s.items.Some? ==> ItemsEnd(root, xs, 0, s.items.value)
    ensures f in ListFindings(h, root, where, xs, s) <==>
            || (f == Finding(where, TooFew) && |xs| < s.minItems)
            || (&& s.items.Some?
                && exists i :: 0 <= i < |xs| && ItemReports(h, root, where, xs, i, s.items.value, f))
  {
    if s.items.Some? { ItemsReported(h, root, where, xs, 0, s.items.value, f); }
  }

  ghost predicate ItemReports(h: Host, root: Spec, where: Path, xs: seq<Value>, k: nat, s: Spec, f: Finding)
    requires k < |xs| && Ends(root, xs[k], s)
  {
    f in ValidateOf(h, root, where + [Index(k)], xs[k], s)
  }

  lemma {:induction false} ItemsReported(h: Host, root: Spec, where: Path, xs: seq<Value>, i: nat, s: Spec, f: Finding)
    requires i <= |xs| && ItemsEnd(root, xs, i, s)
    ensures f in ItemFindings(h, root, where, xs, i, s) <==>
            exists k :: i <= k < |xs| && ItemReports(h, root, where, xs, k, s, f)
    decreases |xs| - i
  {
    if i < |xs| {
      ItemsTail(root, xs, i, s);
      ItemsReported(h, root, where, xs, i + 1, s, f);
      assert f in ItemFindings(h, root, where, xs, i, s) <==>
             ItemReports(h, root, where, xs, i, s, f) || f in ItemFindings(h, root, where, xs, i + 1, s);
    }
  }

  ghost predicate FieldReports(h: Host, root: Spec, where: Path, ms: seq<(string, Value)>, p: (string, Spec),
                               f: Finding)
    requires FieldEnds(root, ms, p)
  {
    Find(ms, p.0) < |ms| && f in ValidateOf(h, root, where + [Property(p.0)], ms[Find(ms, p.0)].1, p.1)
  }

  /** The findings about the fields of an object are those of each present field under its name. */
  lemma {:induction false} PropertiesReported(h: Host, root: Spec, where: Path, ms: seq<(string, Value)>,
                                              ps: seq<(string, Spec)>, f: Finding)
    requires FieldsEnd(root, ms, ps)
    ensures f in PropertyFindings(h, root, where, ms, ps) <==>
            exists j :: 0 <= j < |ps| && FieldReports(h, root, where, ms, ps[j], f)
    decreases |ps|
  {
    if ps != [] {
      FieldsTail(root, ms, ps);
      PropertiesReported(h, root, where, ms, ps[1..], f);
      assert f in PropertyFindings(h, root, where, ms, ps) <==>
             FieldReports(h, root, where, ms, ps[0], f) || f in PropertyFindings(h, root, where, ms, ps[1..]);
      if j :| 0 <= j < |ps[1..]| && FieldReports(h, root, where, ms, ps[1..][j], f) {
        assert ps[1..][j] == ps[j + 1];
      }
      if j :| 0 <= j < |ps| && FieldReports(h, root, where, ms, ps[j], f) {
        if j > 0 { assert ps[1..][j - 1] == ps[j]; }
      }
    }
  }

  /** The steps lead from the schema to the schema below it. */
  ghost predicate Leads(s: Spec, steps: Path, t: Spec)
    decreases |steps|
  {
    if steps == [] then t == s
    else
      match steps[0]
      case Property(name) => exists i :: 0 <= i < |s.properties| && s.properties[i].0 == name
                               && Leads(s.properties[i].1, steps[1..], t)
      case Definition(name) => exists i :: 0 <= i < |s.defs| && s.defs[i].0 == name && Leads(s.defs[i].1, steps[1..], t)
      case Elements => s.items.Some? && Leads(s.items.value, steps[1..], t)
      case Index(_) => false
  }

  predicate Faulty(t: Spec, problem: Problem) {
    (problem.Keywords? && t.unenforced != {}) || (problem.UnknownType? && t.typ.Some? && !KnownType(t.typ.value))
  }

  lemma {:induction false} OwnReported(where: Path, s: Spec, f: Finding)
    ensures f in AuditOwn(where, s) <==> f.where == where && Faulty(s, f.problem)
  {
  }

  ghost predicate Reported(where: Path, s: Spec, f: Finding, steps: Path) {
    f.where == where + steps && exists t :: Leads(s, steps, t) && Faulty(t, f.problem)
  }

  lemma {:induction false} ReportedBelow(where: Path, step: Step, s: Spec, t: Spec, f: Finding, steps: Path)
    requires Reported(where + [step], t, f, steps)
    requires forall u :: Leads(t, steps, u) ==> Leads(s, [step] + steps, u)
    ensures Reported(where, s, f, [step] + steps)
  {
    assert where + [step] + steps == where + ([step] + steps);
  }

  /** Every finding of the audit is a fault of the schema that its path leads to. */
  lemma {:induction false} AuditSound(where: Path, s: Spec, f: Finding) returns (steps: Path)
    requires f in AuditOf(where, s)
    ensures Reported(where, s, f, steps)
    decreases s, 0
  {
    if f in AuditOwn(where, s) {
      OwnReported(where, s, f);
      steps := [];
      assert where + steps == where && Leads(s, steps, s);
    } else if f in AuditEach(where, s.properties, true) {
      var i, rest := AuditEachSound(where, s.properties, true, f);
      steps := [Property(s.properties[i].0)] + rest;
      assert steps[1..] == rest;
      ReportedBelow(where, Property(s.properties[i].0), s, s.properties[i].1, f, rest);
    } else if f in AuditEach(where, s.defs, false) {
      var i, rest := AuditEachSound(where, s.defs, false, f);
      steps := [Definition(s.defs[i].0)] + rest;
      assert steps[1..] == rest;
      ReportedBelow(where, Definition(s.defs[i].0), s, s.defs[i].1, f, rest);
    } else {
      var rest := AuditSound(where + [Elements], s.items.value, f);
      steps := [Elements] + rest;
      assert steps[1..] == rest;
      ReportedBelow(where, Elements, s, s.items.value, f, rest);
    }
  }

  lemma {:induction false} AuditEachSound(where: Path, ps: seq<(string, Spec)>, properties: bool, f: Finding)
    returns (i: nat, rest: Path)
    requires f in AuditEach(where, ps, properties)
    ensures i < |ps|
    ensures Reported(where + [if properties then Property(ps[i].0) else Definition(ps[i].0)], ps[i].1, f, rest)
    decreases ps, 0
  {
    if f in AuditNamed(where, ps[0], properties) {
      i := 0;
      rest := AuditNamedSound(where, ps[0], properties, f);
    } else {
      i, rest := AuditEachSound(where, ps[1..], properties, f);
      i := i + 1;
    }
  }

  lemma {:induction false} AuditNamedSound(where: Path, p: (string, Spec), property: bool, f: Finding)
    returns (rest: Path)
    requires f in AuditNamed(where, p, property)
    ensures Reported(where + [if property then Property(p.0) else Definition(p.0)], p.1, f, rest)
    decreases p, 0
  {
    rest := AuditSound(where + [if property then Property(p.0) else Definition(p.0)], p.1, f);
  }

  /** Every fault of a schema below is reported under its path. */
  lemma {:induction false} AuditComplete(where: Path, s: Spec, steps: Path, t: Spec, problem: Problem)
    requires Leads(s, steps, t) && Faulty(t, problem)
    ensures Finding(where + steps, problem) in AuditOf(where, s)
    decreases |steps|
  {
    var f := Finding(where + steps, problem);
    if steps == [] {
      assert where + steps == where;
      OwnReported(where, s, f);
    } else {
      var rest := steps[1..];
      assert where + [steps[0]] + rest == where + steps;
      match steps[0]
      case Property(name) =>
        var i :| 0 <= i < |s.properties| && s.properties[i].0 == name && Leads(s.properties[i].1, rest, t);
        AuditComplete(where + [steps[0]], s.properties[i].1, rest, t, problem);
        EachHolds(where, s.properties, true, i, f);
      case Definition(name) =>
        var i :| 0 <= i < |s.defs| && s.defs[i].0 == name && Leads(s.defs[i].1, rest, t);
        AuditComplete(where + [steps[0]], s.defs[i].1, rest, t, problem);
        EachHolds(where, s.defs, false, i, f);
      case Elements =>
        AuditComplete(where + [steps[0]], s.items.value, rest, t, problem);
    }
  }

  lemma {:induction false} EachHolds(where: Path, ps: seq<(string, Spec)>, properties: bool, i: nat, f: Finding)
    requires i < |ps| && f in AuditNamed(where, ps[i], properties)
    ensures f in AuditEach(where, ps, properties)
  {
    if i > 0 { EachHolds(where, ps[1..], properties, i - 1, f); }
  }

  // ----- conditions everywhere

  ghost predicate SameChecks(p: Check, q: Check, root: Spec) {
    forall v, s :: s in Visited(root) ==> (p(v, s) <==> q(v, s))
  }

  /** Conditions that agree on visited schemas agree everywhere. */
  lemma {:induction false} EverywhereSame(p: Check, q: Check, refs: Refs, root: Spec, v: Value, s: Spec)
    requires Within(refs, root) && SameChecks(p, q, root) && s in Visited(root)
    ensures Everywhere(p, refs, v, s) <==> Everywhere(q, refs, v, s)
  {
    forall c: Chain | CallChain(refs, c) && c[0] == (v, s)
      ensures p(c[|c| - 1].0, c[|c| - 1].1) <==> q(c[|c| - 1].0, c[|c| - 1].1)
    {
      ChainVisited(refs, root, c);
    }
  }

  function Both(p: Check, q: Check): Check { (v: Value, s: Spec) => p(v, s) && q(v, s) }

  lemma {:induction false} EverywhereBoth(p: Check, q: Check, refs: Refs, v: Value, s: Spec)
    ensures Everywhere(Both(p, q), refs, v, s) <==> Everywhere(p, refs, v, s) && Everywhere(q, refs, v, s)
  {
    if Everywhere(Both(p, q), refs, v, s) {
      forall c: Chain | CallChain(refs, c) && c[0] == (v, s)
        ensures p(c[|c| - 1].0, c[|c| - 1].1) && q(c[|c| - 1].0, c[|c| - 1].1)
      {
        assert Both(p, q)(c[|c| - 1].0, c[|c| - 1].1);
      }
    }
  }

  ghost predicate Agree(at: Check, refs: Refs, refs': Refs) {
    forall v, s :: at(v, s) && s.ref.Some? ==> refs(s.ref.value) == refs'(s.ref.value)
  }

  lemma {:induction false} ChainCarries(at: Check, refs: Refs, refs': Refs, c: Chain)
    requires Agree(at, refs, refs') && CallChain(refs', c) && Everywhere(at, refs, c[0].0, c[0].1)
    ensures CallChain(refs, c)
    decreases |c|
  {
    if |c| > 1 {
      var init := c[..|c| - 1];
      ChainCarries(at, refs, refs', init);
      assert at(init[|init| - 1].0, init[|init| - 1].1);
      forall i | 0 < i < |c| ensures Calls(refs, c[i - 1].0, c[i - 1].1, c[i].0, c[i].1) {
        if i < |init| {
          assert Calls(refs, init[i - 1].0, init[i - 1].1, init[i].0, init[i].1);
        } else {
          assert Calls(refs', c[i - 1].0, c[i - 1].1, c[i].0, c[i].1);
        }
      }
    }
  }

  /** Where two readings of references agree, what holds everywhere by one holds everywhere by the other. */
  lemma {:induction false} EverywhereCarries(agree: Check, at: Check, refs: Refs, refs': Refs, v: Value, s: Spec)
    requires Agree(agree, refs, refs') && Everywhere(agree, refs, v, s) && Everywhere(at, refs, v, s)
    ensures Everywhere(at, refs', v, s)
  {
    forall c: Chain | CallChain(refs', c) && c[0] == (v, s) ensures at(c[|c| - 1].0, c[|c| - 1].1) {
      ChainCarries(agree, refs, refs', c);
    }
  }

  // ----- definitions that nothing refers to

  const EMPTY := Spec(None, None, None, None, None, 0, None, [], [], [], {})

  /** A definition that refers to itself is no obstacle while nothing refers to it. */
  lemma {:induction false} UnusedLoopEnds(h: Host, where: Path, v: Value)
    ensures var s := EMPTY.(defs := [("x", EMPTY.(ref := Some(PREFIX + "x")))]);
            Ends(s, v, s) && ValidateOf(h, s, where, v, s) == []
  {
    var s := EMPTY.(defs := [("x", EMPTY.(ref := Some(PREFIX + "x")))]);
    assert Settles(s, s, 0);
    EverywhereParts(SettledAt(s), Local(s), v, s);
    NothingNested(h, s, where, v, s);
  }

  lemma {:induction false} NothingNested(h: Host, root: Spec, where: Path, v: Value, s: Spec)
    requires Ends(root, v, s) && s.minItems <= 0 && s.items.None? && s.required == [] && s.properties == []
    ensures NestedFindings(h, root, where, v, s) == []
  {
  }
}
