/**
  The interoperable number subset, and the second canonical encoder, which loads numbers into host
  values and renders them again instead of keeping their literals: exactly when the two encoders
  print the same text, and which texts pass the second one's canonical check.
 */
module Interop {
  import opened Sorting
  import opened Utf16
  import opened Json
  import opened JsonRoundTrip
  import opened Wrappers

  function DigitChar(n: nat): (c: char)
    requires n < 10
    ensures Digit(c) && DigitValue(c) == n
  {
    ('0' as int + n) as char
  }

  function DigitValue(c: char): (n: nat)
    requires Digit(c)
    ensures n < 10
  {
    c as int - '0' as int
  }

  /** Decimal rendering without leading zeros. */
  function ShowNat(n: nat): (s: string)
    ensures s != "" && AllDigits(s)
    ensures s[0] == '0' <==> n == 0
    ensures s == "0" <==> n == 0
  {
    if n < 10 then [DigitChar(n)] else ShowNat(n / 10) + [DigitChar(n % 10)]
  }

  function Show(n: int): string { if n < 0 then "-" + ShowNat(-n) else ShowNat(n) }

  function NatOf(s: string): (n: nat)
    requires AllDigits(s)
  {
    if s == "" then 0 else NatOf(s[..|s| - 1]) * 10 + DigitValue(s[|s| - 1])
  }

  function Body(lit: string): string
    requires lit != ""
  {
    if lit[0] == '-' then lit[1..] else lit
  }

  function IntOf(lit: string): int
    requires lit != "" && AllDigits(Body(lit))
  {
    var n: int := NatOf(Body(lit));
    if lit[0] == '-' then -n else n
  }

  /** The literal test, check by check. */
  predicate InteroperableLiteral(lit: string) {
    if lit == "" || '.' in lit || 'e' in lit || 'E' in lit then false
    else if lit[0] == '-' && Body(lit) == "0" then false
    else if Body(lit) == "" || !AllDigits(Body(lit)) then false
    else if |Body(lit)| > 1 && Body(lit)[0] == '0' then false
    else -MAX_SAFE_INTEGER <= IntOf(lit) <= MAX_SAFE_INTEGER
  }

  lemma {:induction false} NatOfShow(n: nat)
    ensures NatOf(ShowNat(n)) == n
  {
    if n >= 10 {
      NatOfShow(n / 10);
      var s := ShowNat(n);
      assert s[..|s| - 1] == ShowNat(n / 10);
    } else {
      assert ShowNat(n)[..0] == "";
    }
  }

  lemma {:induction false} ShowNatOf(s: string)
    requires s != "" && AllDigits(s) && (|s| > 1 ==> s[0] != '0')
    ensures ShowNat(NatOf(s)) == s
    ensures |s| > 1 ==> NatOf(s) >= 10
  {
    var init, d := s[..|s| - 1], DigitValue(s[|s| - 1]);
    assert s == init + [s[|s| - 1]] && DigitChar(d) == s[|s| - 1];
    if |s| == 1 {
      assert init == "" && NatOf(init) == 0;
    } else {
      ShowNatOf(init);
      assert init[0] == s[0] != '0';
      assert NatOf(init) >= 1;
      assert (NatOf(init) * 10 + d) / 10 == NatOf(init) && (NatOf(init) * 10 + d) % 10 == d;
    }
  }

  lemma {:induction false} ShownInteroperable(n: int)
    requires -MAX_SAFE_INTEGER <= n <= MAX_SAFE_INTEGER
    ensures InteroperableLiteral(Show(n))
  {
    var m := if n < 0 then -n else n;
    var lit := Show(n);
    NatOfShow(m);
    assert Body(lit) == ShowNat(m);
    forall i | 0 <= i < |lit| ensures lit[i] != '.' && lit[i] != 'e' && lit[i] != 'E' {
      assert i > 0 || n >= 0 ==> Digit(ShowNat(m)[if n < 0 then i - 1 else i]);
    }
    ShowNatHead(m);
  }

  /** A literal passes the test exactly when it is the decimal rendering of a safe integer. */
  lemma {:induction false} InteroperableExact(lit: string)
    ensures InteroperableLiteral(lit) <==>
            exists n :: -MAX_SAFE_INTEGER <= n <= MAX_SAFE_INTEGER && Show(n) == lit
    ensures InteroperableLiteral(lit) ==> Show(IntOf(lit)) == lit
  {
    if InteroperableLiteral(lit) {
      ShowNatOf(Body(lit));
      assert Show(IntOf(lit)) == lit;
    }
    forall n | -MAX_SAFE_INTEGER <= n <= MAX_SAFE_INTEGER && Show(n) == lit ensures InteroperableLiteral(lit) {
      ShownInteroperable(n);
    }
  }

  lemma ShowNatHead(n: nat)
    ensures |ShowNat(n)| > 1 ==> ShowNat(n)[0] != '0'
  {
  }

  /** A number token without fraction and exponent, which the host reads as an integer. */
  predicate IntegerToken(lit: string) { lit != "" && IntPart(Body(lit)) }

  lemma IntegerTokenParts(lit: string)
    ensures IntegerToken(lit) <==> exists sign, i :: Parts(lit, sign, i, "", "")
    ensures IntegerToken(lit) ==> NumberLiteral(lit)
  {
    if IntegerToken(lit) {
      var sign := if lit[0] == '-' then "-" else "";
      assert Parts(lit, sign, Body(lit), "", "");
    }
    forall sign, i | Parts(lit, sign, i, "", "") ensures IntegerToken(lit) {
      assert lit == sign + i && i[0] != '-';
    }
  }

  /** Re-rendering a JSON integer token gives the token back, except for negative zero. */
  lemma IntegerTokenExact(lit: string)
    requires IntegerToken(lit)
    ensures Show(IntOf(lit)) == lit <==> lit != "-0"
    ensures IntegerToken(Show(IntOf(lit)))
  {
    var i := Body(lit);
    ShowNatOf(i);
    if lit[0] == '-' {
      assert lit == "-" + i;
      if i == "0" {
        assert NatOf(i) == 0 && Show(0) == "0";
      } else {
        assert NatOf(i) != 0;
      }
    }
  }

  lemma InteroperableIsInteger(lit: string)
    requires InteroperableLiteral(lit)
    ensures IntegerToken(lit) && lit != "-0"
  {
  }

  /** Every number in the value satisfies `ok`. */
  predicate EveryNumber(ok: string -> bool, v: Value) {
    match v
    case Num(lit) => ok(lit)
    case Arr(items) => forall i :: 0 <= i < |items| ==> EveryNumber(ok, items[i])
    case Obj(ms) => forall i :: 0 <= i < |ms| ==> EveryNumber(ok, ms[i].1)
    case _ => true
  }

  /** Every number in the value is interoperable. */
  predicate Interoperable(v: Value) { EveryNumber(InteroperableLiteral, v) }

  // ----- the second encoder

  datatype Host =
    | HNone
    | HBool(b: bool)
    | HInt(n: int)
    | HFloat(shown: string)
    | HStr(s: string)
    | HList(items: seq<Host>)
    | HDict(members: seq<(string, Host)>)

  /**
    The host's floating-point numbers, as the text a token with fraction or exponent is rendered to
    after loading; `None` for a token beyond their range, which renders to a word that no JSON text
    holds, so that a text with one never passes.
   */
  type Floats = string -> Option<string>

  /** Rendering gives a token that is no integer token and renders to itself. */
  ghost predicate FloatsRoundTrip(floats: Floats) {
    forall lit :: floats(lit).Some? ==> FloatToken(floats, floats(lit).value)
  }

  ghost predicate FloatToken(floats: Floats, shown: string) {
    NumberLiteral(shown) && !IntegerToken(shown) && floats(shown) == Some(shown)
  }

  /** The host can hold the number. */
  function Held(floats: Floats): string -> bool { lit => IntegerToken(lit) || floats(lit).Some? }

  predicate Loadable(floats: Floats, v: Value) { EveryNumber(Held(floats), v) }

  /** What the host renders a loaded token to. */
  function Rendered(floats: Floats, lit: string): string {
    if IntegerToken(lit) then Show(IntOf(lit)) else if floats(lit).Some? then floats(lit).value else lit
  }

  /** What the ordinary JSON reader makes of a value. */
  function Load(floats: Floats, v: Value): Host {
    match v
    case Null => HNone
    case Bool(b) => HBool(b)
    case Num(lit) => if IntegerToken(lit) then HInt(IntOf(lit)) else HFloat(Rendered(floats, lit))
    case Str(s) => HStr(s)
    case Arr(items) => HList(seq(|items|, i requires 0 <= i < |items| => Load(floats, items[i])))
    case Obj(ms) => HDict(seq(|ms|, i requires 0 <= i < |ms| => LoadMember(floats, ms[i])))
  }

  function LoadMember(floats: Floats, m: (string, Value)): (string, Host) { (m.0, Load(floats, m.1)) }

  /** Rebuilds every dictionary with its names inserted in UTF-16 order. */
  function Utf16Ordered(h: Host): Host {
    match h
    case HList(items) => HList(seq(|items|, i requires 0 <= i < |items| => Utf16Ordered(items[i])))
    case HDict(ms) => HDict(Sort(NameLess, seq(|ms|, i requires 0 <= i < |ms| => Utf16OrderedMember(ms[i]))))
    case _ => h
  }

  function Utf16OrderedMember(m: (string, Host)): (string, Host) { (m.0, Utf16Ordered(m.1)) }

  /** Compact encoding in insertion order. */
  function Encoded(h: Host): string {
    match h
    case HNone => "null"
    case HBool(b) => if b then "true" else "false"
    case HInt(n) => Show(n)
    case HFloat(shown) => shown
    case HStr(s) => Quote(s)
    case HList(items) => "[" + Join(seq(|items|, i requires 0 <= i < |items| => Encoded(items[i]))) + "]"
    case HDict(ms) => "{" + Join(seq(|ms|, i requires 0 <= i < |ms| => EncodedMember(ms[i]))) + "}"
  }

  function EncodedMember(m: (string, Host)): string { Quote(m.0) + ":" + Encoded(m.1) }

  function CanonicalJson(h: Host): string { Encoded(Utf16Ordered(h)) }

  /** Reordering after loading is loading after reordering. */
  lemma {:induction false} LoadOrdered(floats: Floats, v: Value)
    ensures Utf16Ordered(Load(floats, v)) == Load(floats, Ordered(v))
  {
    match v
    case Arr(items) =>
      forall i | 0 <= i < |items| ensures Utf16Ordered(Load(floats, items[i])) == Load(floats, Ordered(items[i])) {
        LoadOrdered(floats, items[i]);
      }
      assert Utf16Ordered(Load(floats, v)).items == Load(floats, Ordered(v)).items;
    case Obj(ms) =>
      LoadOrderedMembers(floats, ms);
    case _ =>
  }

  lemma {:induction false} LoadedMember(floats: Floats, ms: seq<(string, Value)>, i: nat)
    requires i < |ms|
    ensures Load(floats, Obj(ms)).HDict? && |Load(floats, Obj(ms)).members| == |ms|
    ensures Load(floats, Obj(ms)).members[i] == (ms[i].0, Load(floats, ms[i].1))
  {
    assert Load(floats, Obj(ms)).members[i] == LoadMember(floats, ms[i]);
  }

  function Rebuilt(floats: Floats): Value -> Host { v => Utf16Ordered(Load(floats, v)) }

  lemma {:induction false} RebuiltMembers(floats: Floats, ms: seq<(string, Value)>)
    ensures Utf16Ordered(Load(floats, Obj(ms))) == HDict(MapValues(Rebuilt(floats), Sort(NameLess, ms)))
  {
    var loaded := Load(floats, Obj(ms)).members;
    var rebuilt := seq(|loaded|, i requires 0 <= i < |loaded| => Utf16OrderedMember(loaded[i]));
    forall i | 0 <= i < |ms| ensures rebuilt[i] == (ms[i].0, Rebuilt(floats)(ms[i].1)) {
      LoadedMember(floats, ms, i);
      assert rebuilt[i] == Utf16OrderedMember(loaded[i]);
    }
    SameAsMapped(Rebuilt(floats), ms, rebuilt);
    SortMap(NameLess, Rebuilt(floats), ms);
  }

  lemma {:induction false} LoadOrderedMembers(floats: Floats, ms: seq<(string, Value)>)
    ensures Utf16Ordered(Load(floats, Obj(ms))) == Load(floats, Ordered(Obj(ms)))
    decreases ms
  {
    var sorted := Sort(NameLess, ms);
    OrderedSort(ms);
    var ordered := OrderedMembers(sorted);
    RebuiltMembers(floats, ms);
    forall i | 0 <= i < |sorted|
      ensures (sorted[i].0, Rebuilt(floats)(sorted[i].1)) == Load(floats, Obj(ordered)).members[i]
    {
      SortedMember(ms, i);
      LoadOrdered(floats, sorted[i].1);
      LoadedMember(floats, ordered, i);
      assert ordered[i] == (sorted[i].0, Ordered(sorted[i].1));
    }
    SameAsMapped(Rebuilt(floats), sorted, Load(floats, Obj(ordered)).members);
  }

  lemma {:induction false} SameAsMapped<T>(f: Value -> T, s: seq<(string, Value)>, t: seq<(string, T)>)
    requires |s| == |t| && forall i :: 0 <= i < |s| ==> t[i] == (s[i].0, f(s[i].1))
    ensures MapValues(f, s) == t
  {
  }

  // ----- what loading does to the literals

  /** The value with every number token replaced by what the host renders it to. */
  function Rerendered(floats: Floats, v: Value): Value {
    match v
    case Num(lit) => Num(Rendered(floats, lit))
    case Arr(items) => Arr(seq(|items|, i requires 0 <= i < |items| => Rerendered(floats, items[i])))
    case Obj(ms) => Obj(seq(|ms|, i requires 0 <= i < |ms| => RerenderedMember(floats, ms[i])))
    case _ => v
  }

  function RerenderedMember(floats: Floats, m: (string, Value)): (string, Value) { (m.0, Rerendered(floats, m.1)) }

  /** Printing a loaded value prints its re-rendered literals. */
  lemma {:induction false} EncodedLoad(floats: Floats, v: Value)
    ensures Encoded(Load(floats, v)) == Dump(Rerendered(floats, v))
  {
    match v
    case Arr(items) =>
      var again := Rerendered(floats, v).items;
      var parts := seq(|items|, i requires 0 <= i < |items| => Encoded(Load(floats, v).items[i]));
      forall i | 0 <= i < |items| ensures parts[i] == Dump(again[i]) {
        EncodedLoad(floats, items[i]);
      }
      JoinItems(again, parts);
    case Obj(ms) =>
      var again := Rerendered(floats, v).members;
      var parts := seq(|ms|, i requires 0 <= i < |ms| => EncodedMember(Load(floats, v).members[i]));
      forall i | 0 <= i < |ms| ensures parts[i] == DumpMember(again[i]) {
        LoadedMember(floats, ms, i);
        assert again[i] == RerenderedMember(floats, ms[i]);
        assert ms[i] in ms;
        EncodedLoad(floats, ms[i].1);
      }
      JoinMembers(again, parts);
    case _ =>
  }

  /** A token that loading and rendering gives back. */
  function Stable(floats: Floats): string -> bool {
    lit => if IntegerToken(lit) then lit != "-0" else floats(lit) == Some(lit)
  }

  lemma StableExact(floats: Floats, lit: string)
    requires Held(floats)(lit)
    ensures Stable(floats)(lit) <==> Rendered(floats, lit) == lit
  {
    if IntegerToken(lit) { IntegerTokenExact(lit); }
  }

  /** Rendering does not change a value whose tokens are all stable. */
  lemma {:induction false} RerenderedFixed(floats: Floats, v: Value)
    requires EveryNumber(Stable(floats), v)
    ensures Rerendered(floats, v) == v
  {
    match v
    case Num(lit) => StableExact(floats, lit);
    case Arr(items) =>
      forall i | 0 <= i < |items| ensures Rerendered(floats, items[i]) == items[i] {
        RerenderedFixed(floats, items[i]);
      }
      assert Rerendered(floats, v).items == items;
    case Obj(ms) =>
      var again := Rerendered(floats, v).members;
      forall i | 0 <= i < |ms| ensures again[i] == ms[i] {
        assert again[i] == RerenderedMember(floats, ms[i]);
        assert ms[i] in ms;
        RerenderedFixed(floats, ms[i].1);
      }
      assert again == ms;
    case _ =>
  }

  /** A weaker demand on tokens holds of the same values. */
  lemma {:induction false} EveryWeaker(ok: string -> bool, weak: string -> bool, v: Value)
    requires EveryNumber(ok, v) && forall lit :: ok(lit) ==> weak(lit)
    ensures EveryNumber(weak, v)
  {
    match v
    case Arr(items) =>
      forall i | 0 <= i < |items| ensures EveryNumber(weak, items[i]) { EveryWeaker(ok, weak, items[i]); }
    case Obj(ms) =>
      forall i | 0 <= i < |ms| ensures EveryNumber(weak, ms[i].1) {
        assert ms[i] in ms;
        EveryWeaker(ok, weak, ms[i].1);
      }
    case _ =>
  }

  /** Reordering keeps the tokens. */
  lemma {:induction false} OrderedEvery(ok: string -> bool, v: Value)
    requires EveryNumber(ok, v)
    ensures EveryNumber(ok, Ordered(v))
  {
    match v
    case Arr(items) =>
      forall i | 0 <= i < |items| ensures EveryNumber(ok, Ordered(items[i])) {
        OrderedEvery(ok, items[i]);
      }
    case Obj(ms) =>
      OrderedSort(ms);
      var sorted := Sort(NameLess, ms);
      forall i | 0 <= i < |sorted| ensures EveryNumber(ok, Ordered(sorted[i].1)) {
        SortedMember(ms, i);
        OrderedEvery(ok, sorted[i].1);
      }
    case _ =>
  }

  /** On stable values the two encoders print the same text. */
  lemma {:induction false} StableAgree(floats: Floats, v: Value)
    requires EveryNumber(Stable(floats), v)
    ensures CanonicalJson(Load(floats, v)) == Canon(v)
  {
    LoadOrdered(floats, v);
    OrderedEvery(Stable(floats), v);
    EncodedLoad(floats, Ordered(v));
    RerenderedFixed(floats, Ordered(v));
  }

  /** The two canonical encoders print the same text for every interoperable value. */
  lemma {:induction false} EncodersAgree(floats: Floats, v: Value)
    requires Interoperable(v)
    ensures CanonicalJson(Load(floats, v)) == Canon(v)
  {
    forall lit | InteroperableLiteral(lit) ensures Stable(floats)(lit) { InteroperableIsInteger(lit); }
    EveryWeaker(InteroperableLiteral, Stable(floats), v);
    StableAgree(floats, v);
  }

  // ----- exactly when the encoders agree

  lemma {:induction false} RenderedToken(floats: Floats, lit: string)
    requires FloatsRoundTrip(floats) && Held(floats)(lit)
    ensures NumberLiteral(Rendered(floats, lit)) && Stable(floats)(Rendered(floats, lit))
  {
    if IntegerToken(lit) {
      IntegerTokenExact(lit);
      IntegerTokenParts(Rendered(floats, lit));
      MinusZeroNotShown(IntOf(lit));
    } else {
      assert FloatToken(floats, floats(lit).value);
    }
  }

  lemma MinusZeroNotShown(n: int)
    ensures Show(n) != "-0"
  {
    if n < 0 { assert Show(n)[1..] == ShowNat(-n); }
  }

  lemma {:induction false} RerenderedAt(floats: Floats, ms: seq<(string, Value)>, i: nat)
    requires i < |ms|
    ensures Rerendered(floats, Obj(ms)).Obj? && |Rerendered(floats, Obj(ms)).members| == |ms|
    ensures Rerendered(floats, Obj(ms)).members[i] == (ms[i].0, Rerendered(floats, ms[i].1))
  {
    assert Rerendered(floats, Obj(ms)).members[i] == RerenderedMember(floats, ms[i]);
  }

  /** Rendering keeps a value well formed and leaves only stable tokens. */
  lemma {:induction false} RerenderedStable(floats: Floats, v: Value)
    requires FloatsRoundTrip(floats) && WellFormed(v) && Loadable(floats, v)
    ensures WellFormed(Rerendered(floats, v)) && EveryNumber(Stable(floats), Rerendered(floats, v))
  {
    match v
    case Num(lit) => RenderedToken(floats, lit);
    case Arr(items) =>
      forall i | 0 <= i < |items|
        ensures WellFormed(Rerendered(floats, items[i])) && EveryNumber(Stable(floats), Rerendered(floats, items[i]))
      {
        RerenderedStable(floats, items[i]);
      }
    case Obj(ms) =>
      var again := Rerendered(floats, v).members;
      forall i | 0 <= i < |ms| ensures WellFormed(again[i].1) && EveryNumber(Stable(floats), again[i].1) {
        assert again[i] == RerenderedMember(floats, ms[i]);
        assert ms[i] in ms;
        RerenderedStable(floats, ms[i].1);
      }
      forall i, j | 0 <= i < j < |ms| ensures again[i].0 != again[j].0 {
        RerenderedAt(floats, ms, i);
        RerenderedAt(floats, ms, j);
      }
    case _ =>
  }

  lemma {:induction false} IntOfShow(n: int)
    ensures IntegerToken(Show(n)) && IntOf(Show(n)) == n
  {
    var m := if n < 0 then -n else n;
    NatOfShow(m);
    ShowNatHead(m);
    assert Body(Show(n)) == ShowNat(m);
  }

  /** Loading what was rendered gives the same host value again. */
  lemma {:induction false} LoadAgain(floats: Floats, v: Value)
    requires FloatsRoundTrip(floats) && Loadable(floats, v)
    ensures Load(floats, Rerendered(floats, v)) == Load(floats, v)
  {
    match v
    case Num(lit) =>
      if IntegerToken(lit) { IntOfShow(IntOf(lit)); } else { assert FloatToken(floats, floats(lit).value); }
    case Arr(items) =>
      var again := Rerendered(floats, v);
      forall i | 0 <= i < |items| ensures Load(floats, again).items[i] == Load(floats, v).items[i] {
        LoadAgain(floats, items[i]);
      }
      assert Load(floats, again).items == Load(floats, v).items;
    case Obj(ms) =>
      var again := Rerendered(floats, v);
      forall i | 0 <= i < |ms| ensures Load(floats, again).members[i] == Load(floats, v).members[i] {
        RerenderedAt(floats, ms, i);
        LoadedMember(floats, again.members, i);
        LoadedMember(floats, ms, i);
        assert ms[i] in ms;
        LoadAgain(floats, ms[i].1);
      }
      assert Load(floats, again).members == Load(floats, v).members;
    case _ =>
  }

  /** The second encoder prints the canonical text of the re-rendered value. */
  lemma {:induction false} SecondEncoder(floats: Floats, v: Value)
    requires FloatsRoundTrip(floats) && WellFormed(v) && Loadable(floats, v)
    ensures CanonicalJson(Load(floats, v)) == Canon(Rerendered(floats, v))
  {
    LoadAgain(floats, v);
    RerenderedStable(floats, v);
    StableAgree(floats, Rerendered(floats, v));
  }

  /** Rendering leaves the JSON value unchanged only if every token is stable. */
  lemma {:induction false} SameIsStable(floats: Floats, v: Value)
    requires WellFormed(v) && Loadable(floats, v) && SameValue(Rerendered(floats, v), v)
    ensures EveryNumber(Stable(floats), v)
  {
    match v
    case Num(lit) => StableExact(floats, lit);
    case Arr(items) =>
      forall i | 0 <= i < |items| ensures EveryNumber(Stable(floats), items[i]) {
        SameIsStable(floats, items[i]);
      }
    case Obj(ms) =>
      var again := Rerendered(floats, v).members;
      forall i | 0 <= i < |ms| ensures EveryNumber(Stable(floats), ms[i].1) {
        assert again[i] == RerenderedMember(floats, ms[i]) && again[i].0 == ms[i].0;
        assert ms[i] in ms;
        SameIsStable(floats, ms[i].1);
      }
    case _ =>
  }

  /**
    For every value the host can load, the encoders print the same text exactly when each number is
    an integer token other than negative zero or a fractional token the host renders as it stands.
   */
  lemma {:induction false} EncodersAgreeExact(floats: Floats, v: Value)
    requires FloatsRoundTrip(floats) && WellFormed(v) && Loadable(floats, v)
    ensures CanonicalJson(Load(floats, v)) == Canon(v) <==> EveryNumber(Stable(floats), v)
  {
    if EveryNumber(Stable(floats), v) { StableAgree(floats, v); }
    if CanonicalJson(Load(floats, v)) == Canon(v) {
      SecondEncoder(floats, v);
      RerenderedStable(floats, v);
      CanonExact(Rerendered(floats, v), v);
      SameIsStable(floats, v);
    }
  }

  // ----- the canonical check on a text

  /** The check on stored text: load it, encode it again, compare. */
  predicate CanonicalText(floats: Floats, text: string) {
    var v := ReadText(text);
    v.Ok? && Loadable(floats, v.value) && CanonicalJson(Load(floats, v.value)) == text
  }

  /** The texts that pass are exactly the canonical texts of JSON values with stable numbers. */
  lemma {:induction false} CanonicalTextExact(floats: Floats, text: string)
    requires FloatsRoundTrip(floats)
    ensures CanonicalText(floats, text) <==>
            exists v :: WellFormed(v) && EveryNumber(Stable(floats), v) && Canon(v) == text
  {
    if CanonicalText(floats, text) {
      var v := ReadText(text).value;
      ReadSound(SkipSpace(text));
      RerenderedStable(floats, v);
      SecondEncoder(floats, v);
    }
    forall v | WellFormed(v) && EveryNumber(Stable(floats), v) && Canon(v) == text ensures CanonicalText(floats, text) {
      ReadCanon(v);
      OrderedFixed(v);
      OrderedEvery(Stable(floats), v);
      EveryWeaker(Stable(floats), Held(floats), Ordered(v));
      StableAgree(floats, Ordered(v));
    }
  }

  /**
    Negative zero is where the encoders part: it is its own canonical text for the first, and the
    second loads 0, prints `0` and refuses the text.
   */
  lemma NegativeZeroRefused(floats: Floats)
    ensures WellFormed(Num("-0")) && Canon(Num("-0")) == "-0" && ReadText("-0") == Ok(Num("-0"), "")
    ensures CanonicalJson(Load(floats, Num("-0"))) == "0"
    ensures !CanonicalText(floats, "-0")
  {
    assert Body("-0") == "0" && NatOf("0") == 0;
    IntegerTokenParts("-0");
    ReadCanon(Num("-0"));
  }
}
