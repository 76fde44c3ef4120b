/**
  The registry's schema checker against JSON Schema Core 2020-12: the meaning the standard gives to
  the enforced keywords and to references, and exactly where the interpreter departs from it.
 */
module SchemaStandard {
  import opened HostText
  import opened Json
  import opened JsonRoundTrip
  import opened Sorting
  import opened SchemaAudit
  import opened Wrappers

  // ----- references as the standard reads them

  /** The octet of a percent escape at the head of the text; 256 if there is none. */
  function Octet(s: string): (n: nat)
    ensures n <= 256 && (n < 256 ==> |s| >= 3)
  {
    if |s| < 3 || s[0] != '%' || HexValue(s[1]) < 0 || HexValue(s[2]) < 0 then 256
    else 16 * HexValue(s[1]) + HexValue(s[2])
  }

  /** The first `n` escaped octets, and the text behind them. */
  function TakeOctets(s: string, n: nat): (r: Option<(seq<nat>, string)>)
    ensures r.Some? ==> |r.value.0| == n && |r.value.1| + 3 * n == |s|
    decreases n
  {
    if n == 0 then Some(([], s))
    else if Octet(s) == 256 then None
    else
      var tail := TakeOctets(s[3..], n - 1);
      if tail.None? then None else Some(([Octet(s)] + tail.value.0, tail.value.1))
  }

  /** How many octets a UTF-8 sequence has that begins with this one; 0 if none does. */
  function Width(lead: nat): nat {
    if lead < 0x80 then 1
    else if 0xC0 <= lead < 0xE0 then 2
    else if 0xE0 <= lead < 0xF0 then 3
    else if 0xF0 <= lead < 0xF8 then 4
    else 0
  }

  predicate Continuation(octet: nat) { 0x80 <= octet < 0xC0 }

  /** The number that the octets of a sequence of that width carry. */
  function Carried(o: seq<nat>): int {
    var at := (i: int, base: int) requires 0 <= i < |o| => o[i] as int - base;
    if |o| == 2 then at(0, 0xC0) * 64 + at(1, 0x80)
    else if |o| == 3 then at(0, 0xE0) * 4096 + at(1, 0x80) * 64 + at(2, 0x80)
    else if |o| == 4 then at(0, 0xF0) * 262144 + at(1, 0x80) * 4096 + at(2, 0x80) * 64 + at(3, 0x80)
    else 0
  }

  /** The character that the octets spell in UTF-8, in no more octets than it needs. */
  function FromUtf8(o: seq<nat>): Option<char> {
    if |o| == 1 && o[0] < 0x80 then Some(o[0] as char)
    else if |o| < 2 || Width(o[0]) != |o| || exists i :: 0 < i < |o| && !Continuation(o[i]) then None
    else
      var n, least := Carried(o), if |o| == 2 then 0x80 else if |o| == 3 then 0x800 else 0x10000;
      if n < least || 0xD800 <= n < 0xE000 || n >= 0x110000 then None else Some(n as char)
  }

  /** The character that the escapes at the head of the text spell. */
  function EscapedChar(s: string): (r: Option<(char, string)>)
    ensures r.Some? ==> |r.value.1| < |s|
  {
    var n := Width(Octet(s));
    var o := TakeOctets(s, n);
    if n == 0 || o.None? || FromUtf8(o.value.0).None? then None
    else Some((FromUtf8(o.value.0).value, o.value.1))
  }

  /** The fragment with its percent escapes decoded (section 6 of RFC 6901). */
  function PercentDecoded(s: string): Option<string>
    decreases |s|
  {
    if s == "" then Some("")
    else
      var head := if s[0] == '%' then EscapedChar(s) else Some((s[0], s[1..]));
      if head.None? then None
      else
        var tail := PercentDecoded(head.value.1);
        if tail.None? then None else Some([head.value.0] + tail.value)
  }

  /** A reference token with `~1` read as a slash and `~0` as a tilde (section 4 of RFC 6901). */
  function Unescaped(t: string): Option<string> {
    if t == "" then Some("")
    else if t[0] != '~' then
      var rest := Unescaped(t[1..]);
      if rest.None? then None else Some([t[0]] + rest.value)
    else if |t| < 2 || (t[1] != '0' && t[1] != '1') then None
    else
      var rest := Unescaped(t[2..]);
      if rest.None? then None else Some([if t[1] == '0' then '~' else '/'] + rest.value)
  }

  function DefinitionAt(ps: seq<(string, Spec)>, name: string): Option<Spec> {
    var i := Find(ps, name);
    if i < |ps| then Some(ps[i].1) else None
  }

  /** The schema that a JSON Pointer names below `s`. */
  function PointedAt(s: Spec, tokens: seq<string>): Option<Spec>
    decreases |tokens|
  {
    if tokens == [] then Some(s)
    else
      var key := Unescaped(tokens[0]);
      if key == Some("items") then
        if s.items.Some? then PointedAt(s.items.value, tokens[1..]) else None
      else if |tokens| < 2 || (key != Some("$defs") && key != Some("properties")) then None
      else
        var name := Unescaped(tokens[1]);
        if name.None? then None
        else
          var below := DefinitionAt(if key == Some("$defs") then s.defs else s.properties, name.value);
          if below.None? then None else PointedAt(below.value, tokens[2..])
  }

  /**
    The schema that a reference names in its own document by the standard (section 8.2.3.1 of JSON
    Schema Core 2020-12): the document itself, or what the pointer in the fragment leads to.
   */
  function Target(root: Spec, ref: string): Option<Spec> {
    if ref == "" then Some(root)
    else if ref[0] != '#' then None
    else
      var fragment := PercentDecoded(ref[1..]);
      if fragment.None? then None
      else if fragment.value == "" then Some(root)
      else if fragment.value[0] != '/' then None
      else PointedAt(root, Split(fragment.value[1..], '/'))
  }

  function Meant(root: Spec): Refs { (ref: string) => Target(root, ref) }

  lemma {:induction false} NoPercent(s: string)
    requires Without(s, '%')
    ensures PercentDecoded(s) == Some(s)
  {
    if s != "" {
      NoPercent(s[1..]);
      assert [s[0]] + s[1..] == s;
    }
  }

  lemma {:induction false} NoTilde(t: string)
    requires Without(t, '~')
    ensures Unescaped(t) == Some(t)
  {
    if t != "" {
      NoTilde(t[1..]);
      assert [t[0]] + t[1..] == t;
    }
  }

  /** A token as a pointer spells it. */
  function PointerEscaped(t: string): string {
    if t == "" then ""
    else (if t[0] == '~' then "~0" else if t[0] == '/' then "~1" else [t[0]]) + PointerEscaped(t[1..])
  }

  /** Reading a token undoes its spelling. */
  lemma {:induction false} UnescapedBack(t: string)
    ensures Unescaped(PointerEscaped(t)) == Some(t) && Without(PointerEscaped(t), '/')
  {
    if t != "" {
      UnescapedBack(t[1..]);
      var tail := PointerEscaped(t[1..]);
      var s := PointerEscaped(t);
      assert t == [t[0]] + t[1..];
      if t[0] == '~' || t[0] == '/' {
        assert s[0] == '~' && s[1] == (if t[0] == '~' then '0' else '1') && s[2..] == tail;
        assert forall i :: 2 <= i < |s| ==> s[i] == tail[i - 2];
      } else {
        assert s[0] == t[0] && s[1..] == tail;
        assert forall i :: 1 <= i < |s| ==> s[i] == tail[i - 1];
      }
    }
  }

  function Percent(octet: nat): (s: string)
    requires octet < 256
    ensures |s| == 3
  {
    ['%', HexDigit(octet / 16), HexDigit(octet % 16)]
  }

  function Percents(octets: seq<nat>): string
    requires forall i :: 0 <= i < |octets| ==> octets[i] < 256
  {
    if octets == [] then "" else Percent(octets[0]) + Percents(octets[1..])
  }

  lemma {:induction false} OctetBack(octet: nat, rest: string)
    requires octet < 256
    ensures Octet(Percent(octet) + rest) == octet && (Percent(octet) + rest)[3..] == rest
  {
    var s := Percent(octet) + rest;
    HexBack(octet / 16);
    HexBack(octet % 16);
    assert s[0] == '%' && s[1] == HexDigit(octet / 16) && s[2] == HexDigit(octet % 16);
  }

  lemma SixBits(n: nat)
    requires n < 0x110000
    ensures n == n / 64 * 64 + n % 64
    ensures n / 64 == n / 4096 * 64 + n / 64 % 64
    ensures n / 4096 == n / 262144 * 64 + n / 4096 % 64
  {
    assert n / 64 / 64 == n / 4096 && n / 4096 / 64 == n / 262144;
  }

  lemma {:induction false} CarriedBack(c: char)
    requires c as int >= 0x80
    ensures Carried(Utf8(c)) == c as int
  {
    SixBits(c as int);
  }

  lemma {:induction false} Utf8Shape(c: char)
    ensures Width(Utf8(c)[0]) == |Utf8(c)|
    ensures forall i :: 0 < i < |Utf8(c)| ==> Continuation(Utf8(c)[i])
    ensures |Utf8(c)| == 1 <==> c as int < 0x80
    ensures |Utf8(c)| == 2 ==> c as int >= 0x80
    ensures |Utf8(c)| == 3 ==> c as int >= 0x800
    ensures |Utf8(c)| == 4 ==> c as int >= 0x10000
  {
  }

  /** Decoding the octets of a character gives the character. */
  lemma {:induction false} Utf8Back(c: char)
    ensures FromUtf8(Utf8(c)) == Some(c)
  {
    Utf8Shape(c);
    if c as int >= 0x80 { CarriedBack(c); }
  }

  lemma {:induction false} PercentsCons(octets: seq<nat>, rest: string)
    requires octets != [] && forall i :: 0 <= i < |octets| ==> octets[i] < 256
    ensures Percents(octets) + rest == Percent(octets[0]) + (Percents(octets[1..]) + rest)
  {
  }

  lemma {:induction false} TakeBack(octets: seq<nat>, rest: string)
    requires forall i :: 0 <= i < |octets| ==> octets[i] < 256
    ensures TakeOctets(Percents(octets) + rest, |octets|) == Some((octets, rest))
  {
    if octets == [] {
      assert Percents(octets) + rest == rest;
    } else {
      PercentsCons(octets, rest);
      OctetBack(octets[0], Percents(octets[1..]) + rest);
      TakeBack(octets[1..], rest);
      assert octets == [octets[0]] + octets[1..];
    }
  }

  /** The escapes of a character's UTF-8 octets read as the character. */
  lemma {:induction false} EscapedCharBack(c: char, rest: string)
    ensures EscapedChar(Percents(Utf8(c)) + rest) == Some((c, rest))
  {
    var octets := Utf8(c);
    Utf8Back(c);
    Utf8Shape(c);
    TakeBack(octets, rest);
    PercentsCons(octets, rest);
    OctetBack(octets[0], Percents(octets[1..]) + rest);
  }

  /** Every character written as escapes. */
  function PercentEncoded(s: string): string {
    if s == "" then "" else Percents(Utf8(s[0])) + PercentEncoded(s[1..])
  }

  /** Decoding undoes writing every character as escapes. */
  lemma {:induction false} PercentBack(s: string)
    ensures PercentDecoded(PercentEncoded(s)) == Some(s)
  {
    if s != "" {
      PercentBack(s[1..]);
      var tail := PercentEncoded(s[1..]);
      EscapedCharBack(s[0], tail);
      assert PercentEncoded(s)[0] == '%' by { assert Percents(Utf8(s[0]))[0] == '%'; }
      assert [s[0]] + s[1..] == s;
    }
  }

  const DEFS := "$defs"

  lemma {:induction false} PointerParts(name: string)
    requires Without(name, '/')
    ensures Split(DEFS + (['/'] + name), '/') == [DEFS, name]
  {
    var s := DEFS + (['/'] + name);
    assert Without(DEFS, '/');
    FirstExact(DEFS, '/', name);
    assert s[..|DEFS|] == DEFS && s[|DEFS| + 1..] == name;
    FirstNone(name, '/');
    assert name[..|name|] == name;
  }

  lemma {:induction false} DefinitionPointed(root: Spec, token: string)
    ensures PointedAt(root, [DEFS, token]) ==
            if Unescaped(token).Some? then DefinitionAt(root.defs, Unescaped(token).value) else None
  {
    var tokens := [DEFS, token];
    NoTilde(DEFS);
    assert DEFS[0] != "items"[0];
    assert tokens[0] == DEFS && tokens[1] == token && tokens[2..] == [];
  }

  lemma {:induction false} FragmentOf(token: string)
    requires Without(token, '%')
    ensures PercentDecoded((PREFIX + token)[1..]) == Some(['/'] + (DEFS + (['/'] + token)))
  {
    var fragment := ['/'] + (DEFS + (['/'] + token));
    assert (PREFIX + token)[1..] == fragment;
    NoPercent(fragment);
  }

  /** A reference to a definition whose pointer spells its token out. */
  lemma {:induction false} DefinitionMeant(root: Spec, token: string)
    requires Without(token, '/') && Without(token, '%')
    ensures Target(root, PREFIX + token) ==
            if Unescaped(token).Some? then DefinitionAt(root.defs, Unescaped(token).value) else None
  {
    FragmentOf(token);
    var below := DEFS + (['/'] + token);
    assert (['/'] + below)[1..] == below;
    PointerParts(token);
    DefinitionPointed(root, token);
  }

  /** The references that mean the same to the interpreter and to the standard, by their spelling. */
  predicate PlainRef(ref: string) {
    PREFIX <= ref &&
    var name := ref[|PREFIX|..];
    Without(name, '/') && Without(name, '~') && Without(name, '%')
  }

  lemma {:induction false} PlainRefMeant(root: Spec, ref: string)
    requires PlainRef(ref)
    ensures Resolve(root, ref) == Target(root, ref)
  {
    var name := ref[|PREFIX|..];
    assert ref == PREFIX + name;
    DefinitionMeant(root, name);
    NoTilde(name);
  }

  lemma {:induction false} PointedWithin(s: Spec, tokens: seq<string>)
    requires PointedAt(s, tokens).Some?
    ensures PointedAt(s, tokens).value in Visited(s)
    decreases |tokens|
  {
    if tokens == [] {
      assert s in Visited(s);
    } else if Unescaped(tokens[0]) == Some("items") {
      PointedWithin(s.items.value, tokens[1..]);
    } else {
      var ps := if Unescaped(tokens[0]) == Some("$defs") then s.defs else s.properties;
      var i := Find(ps, Unescaped(tokens[1]).value);
      PointedWithin(ps[i].1, tokens[2..]);
      EachIncluded(ps, i);
    }
  }

  lemma {:induction false} MeantWithin(root: Spec)
    ensures Within(Meant(root), root)
  {
    forall ref | Target(root, ref).Some? ensures Target(root, ref).value in Visited(root) {
      assert root in Visited(root);
      if ref != "" && PercentDecoded(ref[1..]).value != "" {
        PointedWithin(root, Split(PercentDecoded(ref[1..]).value[1..], '/'));
      }
    }
  }

  // ----- meaning

  /** The seven type names of the standard. */
  predicate HasType(h: Host, v: Value, t: string) {
    match v
    case Null => t == "null"
    case Bool(_) => t == "boolean"
    case Num(lit) => t == "number" || (t == "integer" && h.number(lit).Floor as real == h.number(lit))
    case Str(_) => t == "string"
    case Arr(_) => t == "array"
    case Obj(_) => t == "object"
  }

  /** Equality of JSON instances (section 4.2.2 of JSON Schema Core 2020-12). */
  ghost predicate Equal(h: Host, v: Value, w: Value) {
    match (v, w)
    case (Null, Null) => true
    case (Bool(a), Bool(b)) => a == b
    case (Num(a), Num(b)) => h.number(a) == h.number(b)
    case (Str(a), Str(b)) => a == b
    case (Arr(xs), Arr(ys)) => |xs| == |ys| && forall i :: 0 <= i < |xs| ==> Equal(h, xs[i], ys[i])
    case (Obj(ms), Obj(ns)) =>
      && Keys(ms) == Keys(ns)
      && forall i, j :: 0 <= i < |ms| && 0 <= j < |ns| && FirstAt(ms, i) && FirstAt(ns, j) && ms[i].0 == ns[j].0 ==>
           Equal(h, ms[i].1, ns[j].1)
    case _ => false
  }

  ghost predicate OneOf(h: Host, v: Value, ws: seq<Value>) {
    exists i :: 0 <= i < |ws| && Equal(h, v, ws[i])
  }

  /** The keywords as the standard reads them: a pattern constrains strings only. */
  ghost predicate Satisfied(h: Host, root: Spec, v: Value, s: Spec) {
    && (s.ref.Some? ==> Target(root, s.ref.value).Some?)
    && (s.typ.Some? ==> HasType(h, v, s.typ.value))
    && (s.constant.Some? ==> Equal(h, v, s.constant.value))
    && (s.enumeration.Some? ==> OneOf(h, v, s.enumeration.value))
    && (s.pattern.Some? && v.Str? ==> h.search(s.pattern.value, v.s))
    && (v.Arr? ==> !(|v.items| < s.minItems))
    && (v.Obj? ==> forall name :: name in s.required ==> name in Keys(v.members))
  }

  ghost function Standard(h: Host, root: Spec): Check { (v: Value, s: Spec) => Satisfied(h, root, v, s) }

  /** The instance satisfies every keyword of the schema, references followed as the standard says. */
  ghost predicate Conforms(h: Host, root: Spec, v: Value, s: Spec) {
    Everywhere(Standard(h, root), Meant(root), v, s)
  }

  // ----- where the interpreter reads keywords differently

  /** The reference names the same schema for the interpreter and for the standard. */
  function SameTarget(root: Spec): Check {
    (v: Value, s: Spec) => s.ref.Some? ==> Resolve(root, s.ref.value) == Target(root, s.ref.value)
  }

  /** A pattern is applied to a string. */
  function PatternsFit(): Check { (v: Value, s: Spec) => s.pattern.Some? ==> v.Str? }

  /** Somewhere one value has a truth value where the other has a number. */
  predicate Mixes(v: Value, w: Value) {
    match (v, w)
    case (Bool(_), Num(_)) => true
    case (Num(_), Bool(_)) => true
    case (Arr(xs), Arr(ys)) => exists i :: 0 <= i < |xs| && i < |ys| && Mixes(xs[i], ys[i])
    case (Obj(ms), Obj(ns)) => exists i :: 0 <= i < |ms| && FirstAt(ms, i) && MixesMember(ms[i], ns)
    case _ => false
  }

  predicate MixesMember(m: (string, Value), ns: seq<(string, Value)>) {
    var j := Find(ns, m.0);
    j < |ns| && Mixes(m.1, ns[j].1)
  }

  /** No constant, and no listed value that alone admits the instance, mixes truth values with numbers. */
  function Unmixed(h: Host): Check {
    (v: Value, s: Spec) =>
      && (s.constant.Some? ==> !Mixes(v, s.constant.value))
      && (s.enumeration.Some? && Among(h, v, s.enumeration.value) ==> AmongUnmixed(h, v, s.enumeration.value))
  }

  predicate AmongUnmixed(h: Host, v: Value, ws: seq<Value>) {
    exists i :: 0 <= i < |ws| && Same(h, v, ws[i]) && !Mixes(v, ws[i])
  }

  lemma {:induction false} FindKey(ms: seq<(string, Value)>, name: string)
    ensures Find(ms, name) < |ms| <==> name in Keys(ms)
    ensures Find(ms, name) < |ms| ==> FirstAt(ms, Find(ms, name))
  {
    var i := Find(ms, name);
    if i < |ms| { assert ms[i].0 in Keys(ms); }
  }

  lemma {:induction false} FindFirst(ms: seq<(string, Value)>, i: nat)
    requires FirstAt(ms, i)
    ensures Find(ms, ms[i].0) == i
  {
  }

  ghost predicate EqualMember(h: Host, m: (string, Value), ns: seq<(string, Value)>) {
    forall j :: 0 <= j < |ns| && FirstAt(ns, j) && ns[j].0 == m.0 ==> Equal(h, m.1, ns[j].1)
  }

  /** One first member against the other object. */
  lemma {:induction false} MemberExact(h: Host, m: (string, Value), ns: seq<(string, Value)>)
    requires m.0 in Keys(ns)
    requires var j := Find(ns, m.0);
             j < |ns| ==> (Same(h, m.1, ns[j].1) && !Mixes(m.1, ns[j].1) <==> Equal(h, m.1, ns[j].1))
    ensures SameMember(h, m, ns) && !MixesMember(m, ns) <==> EqualMember(h, m, ns)
  {
    FindKey(ns, m.0);
    forall j | 0 <= j < |ns| && FirstAt(ns, j) && ns[j].0 == m.0 ensures j == Find(ns, m.0) {
      FindFirst(ns, j);
    }
  }

  lemma {:induction false} NamesExact(ms: seq<(string, Value)>, ns: seq<(string, Value)>)
    ensures Keys(ms) == Keys(ns) <==>
            && (forall j :: 0 <= j < |ns| ==> Find(ms, ns[j].0) < |ms|)
            && (forall i :: 0 <= i < |ms| && FirstAt(ms, i) ==> ms[i].0 in Keys(ns))
  {
    forall name { FindKey(ms, name); }
    if && (forall j :: 0 <= j < |ns| ==> Find(ms, ns[j].0) < |ms|)
       && (forall i :: 0 <= i < |ms| && FirstAt(ms, i) ==> ms[i].0 in Keys(ns)) {
      forall name | name in Keys(ms) ensures name in Keys(ns) {
        assert ms[Find(ms, name)].0 == name;
      }
      forall name | name in Keys(ns) ensures name in Keys(ms) {
        var j :| 0 <= j < |ns| && ns[j].0 == name;
      }
    }
    if Keys(ms) == Keys(ns) {
      forall j | 0 <= j < |ns| ensures Find(ms, ns[j].0) < |ms| { assert ns[j].0 in Keys(ns); }
      forall i | 0 <= i < |ms| ensures ms[i].0 in Keys(ns) { assert ms[i].0 in Keys(ms); }
    }
  }

  ghost predicate EachMember(h: Host, ms: seq<(string, Value)>, ns: seq<(string, Value)>) {
    forall i :: 0 <= i < |ms| && FirstAt(ms, i) ==> ms[i].0 in Keys(ns) && EqualMember(h, ms[i], ns)
  }

  lemma {:induction false} EqualObjects(h: Host, ms: seq<(string, Value)>, ns: seq<(string, Value)>)
    ensures Equal(h, Obj(ms), Obj(ns)) <==>
            (forall j :: 0 <= j < |ns| ==> Find(ms, ns[j].0) < |ms|) && EachMember(h, ms, ns)
  {
    NamesExact(ms, ns);
  }

  lemma {:induction false} SameObjects(h: Host, ms: seq<(string, Value)>, ns: seq<(string, Value)>)
    requires forall i :: 0 <= i < |ms| && FirstAt(ms, i) && ms[i].0 in Keys(ns) ==>
               (SameMember(h, ms[i], ns) && !MixesMember(ms[i], ns) <==> EqualMember(h, ms[i], ns))
    ensures Same(h, Obj(ms), Obj(ns)) && !Mixes(Obj(ms), Obj(ns)) <==> Equal(h, Obj(ms), Obj(ns))
  {
    EqualObjects(h, ms, ns);
    forall i | 0 <= i < |ms| && SameMember(h, ms[i], ns) ensures ms[i].0 in Keys(ns) { FindKey(ns, ms[i].0); }
  }

  /** Host equality without mixing is the equality of the standard. */
  lemma {:induction false} SameExact(h: Host, v: Value, w: Value)
    ensures Same(h, v, w) && !Mixes(v, w) <==> Equal(h, v, w)
  {
    match (v, w)
    case (Arr(xs), Arr(ys)) =>
      forall i | 0 <= i < |xs| && i < |ys|
        ensures Same(h, xs[i], ys[i]) && !Mixes(xs[i], ys[i]) <==> Equal(h, xs[i], ys[i])
      {
        SameExact(h, xs[i], ys[i]);
      }
    case (Obj(ms), Obj(ns)) =>
      forall i | 0 <= i < |ms| && FirstAt(ms, i) && ms[i].0 in Keys(ns)
        ensures SameMember(h, ms[i], ns) && !MixesMember(ms[i], ns) <==> EqualMember(h, ms[i], ns)
      {
        assert ms[i] in ms;
        var j := Find(ns, ms[i].0);
        if j < |ns| { SameExact(h, ms[i].1, ns[j].1); }
        MemberExact(h, ms[i], ns);
      }
      SameObjects(h, ms, ns);
    case _ =>
  }

  /** Where a truth value meets a number, the host takes true for 1 and false for 0. */
  lemma MixedExact(h: Host, lit: string)
    ensures Same(h, Bool(true), Num(lit)) <==> h.number(lit) == 1.0
    ensures Same(h, Bool(false), Num(lit)) <==> h.number(lit) == 0.0
    ensures Same(h, Num(lit), Bool(true)) <==> h.number(lit) == 1.0
    ensures Same(h, Num(lit), Bool(false)) <==> h.number(lit) == 0.0
  {
  }

  /** Number tokens stand for different numbers. */
  ghost predicate Injective(h: Host) { forall a, b :: h.number(a) == h.number(b) ==> a == b }

  /** If tokens stand for different numbers, it is the equality that canonical text decides. */
  lemma {:induction false} EqualIsSameValue(h: Host, v: Value, w: Value)
    requires WellFormed(v) && WellFormed(w) && Injective(h)
    ensures Equal(h, v, w) <==> SameValue(v, w)
  {
    match (v, w)
    case (Arr(xs), Arr(ys)) =>
      forall i | 0 <= i < |xs| && i < |ys| ensures Equal(h, xs[i], ys[i]) <==> SameValue(xs[i], ys[i]) {
        EqualIsSameValue(h, xs[i], ys[i]);
      }
    case (Obj(ms), Obj(ns)) =>
      forall i, j | 0 <= i < |ms| && 0 <= j < |ns| && ms[i].0 == ns[j].0
        ensures Equal(h, ms[i].1, ns[j].1) <==> SameValue(ms[i].1, ns[j].1)
      {
        assert ms[i] in ms;
        EqualIsSameValue(h, ms[i].1, ns[j].1);
      }
      assert forall i :: 0 <= i < |ms| ==> FirstAt(ms, i);
      assert forall j :: 0 <= j < |ns| ==> FirstAt(ns, j);
    case _ =>
  }

  lemma {:induction false} EnumReadings(h: Host, v: Value, ws: seq<Value>)
    ensures AmongUnmixed(h, v, ws) <==> OneOf(h, v, ws)
    ensures OneOf(h, v, ws) ==> Among(h, v, ws)
  {
    forall i | 0 <= i < |ws|
      ensures Same(h, v, ws[i]) && !Mixes(v, ws[i]) <==> Equal(h, v, ws[i])
    {
      SameExact(h, v, ws[i]);
    }
  }

  lemma {:induction false} SizedExact(v: Value, s: Spec)
    ensures Sized(v, s) <==>
            && (v.Arr? ==> !(|v.items| < s.minItems))
            && (v.Obj? ==> forall name :: name in s.required ==> name in Keys(v.members))
  {
    if v.Obj? {
      forall name { FindKey(v.members, name); }
      if Sized(v, s) {
        forall name | name in s.required ensures name in Keys(v.members) {
          var i :| 0 <= i < |s.required| && s.required[i] == name;
        }
      }
    }
  }

  lemma {:induction false} TypeExact(h: Host, v: Value, t: string)
    requires KnownType(t)
    ensures IsType(v, t) <==> HasType(h, v, t)
  {
  }

  /** On one instance and enforced schema the readings differ by these three conditions and no more. */
  lemma {:induction false} ReadingsDiffer(h: Host, root: Spec, v: Value, s: Spec)
    requires Enforced(s) && SameTarget(root)(v, s)
    ensures Interpreted(h, root)(v, s) && Unmixed(h)(v, s) <==> Standard(h, root)(v, s) && PatternsFit()(v, s)
  {
    if s.constant.Some? { SameExact(h, v, s.constant.value); }
    if s.enumeration.Some? { EnumReadings(h, v, s.enumeration.value); }
    SizedExact(v, s);
    if s.typ.Some? { TypeExact(h, v, s.typ.value); }
  }

  // ----- validation against the standard

  /** Every reference that validation follows names what the standard says. */
  ghost predicate ReferencesMeant(root: Spec, v: Value, s: Spec) {
    Everywhere(SameTarget(root), Local(root), v, s)
  }

  /** Every pattern that validation applies meets a string. */
  ghost predicate PatternsMeetStrings(root: Spec, v: Value, s: Spec) {
    Everywhere(PatternsFit(), Local(root), v, s)
  }

  /** No instance part is compared with a value that has a number where it has a truth value. */
  ghost predicate NothingMixed(h: Host, root: Spec, v: Value, s: Spec) {
    Everywhere(Unmixed(h), Local(root), v, s)
  }

  lemma {:induction false} TargetsAgree(root: Spec)
    ensures Agree(SameTarget(root), Local(root), Meant(root)) && Agree(SameTarget(root), Meant(root), Local(root))
  {
  }

  /** Where references mean the same, a condition holds everywhere by both readings or by neither. */
  lemma {:induction false} ReadingIrrelevant(at: Check, root: Spec, v: Value, s: Spec)
    requires ReferencesMeant(root, v, s)
    ensures Everywhere(at, Local(root), v, s) <==> Everywhere(at, Meant(root), v, s)
  {
    var same := SameTarget(root);
    TargetsAgree(root);
    if Everywhere(at, Local(root), v, s) { EverywhereCarries(same, at, Local(root), Meant(root), v, s); }
    EverywhereCarries(same, same, Local(root), Meant(root), v, s);
    if Everywhere(at, Meant(root), v, s) { EverywhereCarries(same, at, Meant(root), Local(root), v, s); }
  }

  /**
    After a clean audit, for the root and every schema below it and for every instance on which
    references end and mean what the standard says: a silent validation without mixed comparisons
    is exactly a conforming instance whose patterns all meet strings. So where the side conditions
    hold, silence is conformance; a silent validation always has its patterns on strings, and a
    conforming instance never mixes.
   */
  lemma {:induction false} ValidateExact(h: Host, root: Spec, where: Path, v: Value, s: Spec)
    requires Ends(root, v, s) && CleanRoot(root) && s in Visited(root)
    ensures ReferencesMeant(root, v, s) ==>
            (ValidateOf(h, root, where, v, s) == [] && NothingMixed(h, root, v, s) <==>
             Conforms(h, root, v, s) && PatternsMeetStrings(root, v, s))
    ensures ValidateOf(h, root, where, v, s) == [] ==> PatternsMeetStrings(root, v, s)
    ensures ReferencesMeant(root, v, s) && Conforms(h, root, v, s) ==> NothingMixed(h, root, v, s)
  {
    var i, p := Interpreted(h, root), PatternsFit();
    SilentExact(h, root, where, v, s);
    LocalWithin(root);
    EverywhereBoth(i, p, Local(root), v, s);
    EverywhereSame(Both(i, p), i, Local(root), root, v, s);
    if ReferencesMeant(root, v, s) {
      PassesExact(h, root, v, s);
      ReadingIrrelevant(Standard(h, root), root, v, s);
    }
  }

  /** The exact difference, on the pairs that the interpreter brings together. */
  lemma {:induction false} PassesExact(h: Host, root: Spec, v: Value, s: Spec)
    requires CleanRoot(root) && s in Visited(root) && ReferencesMeant(root, v, s)
    ensures var refs := Local(root);
            && (Passes(h, root, v, s) && NothingMixed(h, root, v, s) <==>
                Everywhere(Standard(h, root), refs, v, s) && PatternsMeetStrings(root, v, s))
            && (Everywhere(Standard(h, root), refs, v, s) ==> NothingMixed(h, root, v, s))
  {
    var refs, same := Local(root), SameTarget(root);
    var i, u, c, p := Interpreted(h, root), Unmixed(h), Standard(h, root), PatternsFit();
    LocalWithin(root);
    forall v', s' | s' in Visited(root)
      ensures Both(Both(i, u), same)(v', s') <==> Both(Both(c, p), same)(v', s')
      ensures c(v', s') ==> u(v', s')
    {
      assert Enforced(s');
      if same(v', s') { ReadingsDiffer(h, root, v', s'); }
      StandardUnmixed(h, root, v', s');
    }
    EverywhereSame(Both(Both(i, u), same), Both(Both(c, p), same), refs, root, v, s);
    EverywhereBoth(Both(i, u), same, refs, v, s);
    EverywhereBoth(Both(c, p), same, refs, v, s);
    EverywhereBoth(i, u, refs, v, s);
    EverywhereBoth(c, p, refs, v, s);
    EverywhereBoth(c, u, refs, v, s);
    EverywhereSame(Both(c, u), c, refs, root, v, s);
  }

  lemma {:induction false} StandardUnmixed(h: Host, root: Spec, v: Value, s: Spec)
    ensures Standard(h, root)(v, s) ==> Unmixed(h)(v, s)
  {
    if s.constant.Some? { SameExact(h, v, s.constant.value); }
    if s.enumeration.Some? { EnumReadings(h, v, s.enumeration.value); }
  }

  /** The value holds neither a truth value nor a number. */
  predicate Textual(v: Value) {
    match v
    case Bool(_) => false
    case Num(_) => false
    case Arr(xs) => forall i :: 0 <= i < |xs| ==> Textual(xs[i])
    case Obj(ms) => forall i :: 0 <= i < |ms| ==> Textual(ms[i].1)
    case _ => true
  }

  lemma {:induction false} TextualUnmixed(v: Value, w: Value)
    requires Textual(w)
    ensures !Mixes(v, w)
  {
    match (v, w)
    case (Arr(xs), Arr(ys)) =>
      forall i | 0 <= i < |xs| && i < |ys| ensures !Mixes(xs[i], ys[i]) { TextualUnmixed(xs[i], ys[i]); }
    case (Obj(ms), Obj(ns)) =>
      forall i | 0 <= i < |ms| ensures !MixesMember(ms[i], ns) {
        var j := Find(ns, ms[i].0);
        assert ms[i] in ms;
        if j < |ns| { TextualUnmixed(ms[i].1, ns[j].1); }
      }
    case _ =>
  }

  /**
    As in the registry's own schema: references are `#/$defs/` and a bare name, patterns come with
    the string type, and listed values are text.
   */
  predicate Plain(s: Spec) {
    && (s.ref.Some? ==> PlainRef(s.ref.value))
    && (s.pattern.Some? ==> s.typ == Some("string"))
    && (s.constant.Some? ==> Textual(s.constant.value))
    && (s.enumeration.Some? ==> forall i :: 0 <= i < |s.enumeration.value| ==> Textual(s.enumeration.value[i]))
  }

  ghost predicate PlainRoot(root: Spec) { forall t :: t in Visited(root) ==> Plain(t) }

  lemma {:induction false} PlainAgrees(h: Host, root: Spec, v: Value, s: Spec)
    requires Plain(s) && Enforced(s)
    ensures Interpreted(h, root)(v, s) <==> Standard(h, root)(v, s)
    ensures SameTarget(root)(v, s)
  {
    if s.ref.Some? { PlainRefMeant(root, s.ref.value); }
    SizedExact(v, s);
    if s.typ.Some? { TypeExact(h, v, s.typ.value); }
    if s.constant.Some? {
      TextualUnmixed(v, s.constant.value);
      SameExact(h, v, s.constant.value);
    }
    if s.enumeration.Some? {
      var ws := s.enumeration.value;
      forall i | 0 <= i < |ws| ensures Same(h, v, ws[i]) <==> Equal(h, v, ws[i]) {
        TextualUnmixed(v, ws[i]);
        SameExact(h, v, ws[i]);
      }
    }
  }

  /** On plain schemas every test anywhere is the standard's. */
  lemma {:induction false} PlainExact(h: Host, root: Spec, v: Value)
    requires CleanRoot(root) && PlainRoot(root)
    ensures ReferencesMeant(root, v, root)
    ensures Passes(h, root, v, root) <==> Conforms(h, root, v, root)
  {
    var i, c, same, all := Interpreted(h, root), Standard(h, root), SameTarget(root), (v: Value, s: Spec) => true;
    assert root in Visited(root);
    LocalWithin(root);
    forall v', s | s in Visited(root) ensures (i(v', s) <==> c(v', s)) && same(v', s) {
      assert Enforced(s) && Plain(s);
      PlainAgrees(h, root, v', s);
    }
    EverywhereSame(i, c, Local(root), root, v, root);
    EverywhereSame(same, all, Local(root), root, v, root);
    ReadingIrrelevant(c, root, v, root);
  }

  /** The checker as it is run, on any schema; on plain ones it is exact on every instance. */
  lemma {:induction false} CheckerExact(h: Host, root: Spec, where: Path, v: Value)
    requires Ends(root, v, root)
    ensures ReferencesMeant(root, v, root) ==>
            (AuditOf(where, root) == [] && ValidateOf(h, root, where, v, root) == [] &&
             NothingMixed(h, root, v, root) <==>
             CleanRoot(root) && Conforms(h, root, v, root) && PatternsMeetStrings(root, v, root))
    ensures PlainRoot(root) ==>
            (AuditOf(where, root) == [] && ValidateOf(h, root, where, v, root) == [] <==>
             CleanRoot(root) && Conforms(h, root, v, root))
  {
    AuditExact(where, root);
    assert root in Visited(root);
    if CleanRoot(root) {
      ValidateExact(h, root, where, v, root);
      SilentExact(h, root, where, v, root);
      if PlainRoot(root) { PlainExact(h, root, v); }
    }
  }

  // ----- one input for each departure

  /** A schema without reference and parts is applied alone. */
  lemma {:induction false} AppliedAlone(at: Check, refs: Refs, v: Value, s: Spec)
    requires s.ref.None? && s.items.None? && s.properties == []
    ensures Everywhere(at, refs, v, s) <==> at(v, s)
  {
    EverywhereParts(at, refs, v, s);
  }

  lemma {:induction false} AloneEnds(root: Spec, v: Value, s: Spec)
    requires s.ref.None? && s.items.None? && s.properties == []
    ensures Ends(root, v, s)
  {
    assert Settles(root, s, 0);
    AppliedAlone(SettledAt(root), Local(root), v, s);
  }

  /** A pattern is held against a number, where the standard constrains strings only. */
  lemma {:induction false} PatternOnNumber(h: Host, where: Path)
    ensures var s := EMPTY.(pattern := Some("a"));
            && Ends(s, Num("5"), s) && AuditOf(where, s) == []
            && ValidateOf(h, s, where, Num("5"), s) == [Finding(where, NoMatch)]
            && Conforms(h, s, Num("5"), s)
  {
    var s := EMPTY.(pattern := Some("a"));
    AloneEnds(s, Num("5"), s);
    AppliedAlone(Standard(h, s), Meant(s), Num("5"), s);
  }

  /** The host's equality lets true pass for the constant 1. */
  lemma {:induction false} TrueForOne(h: Host, where: Path)
    requires h.number("1") == 1.0
    ensures var s := EMPTY.(constant := Some(Num("1")));
            && Ends(s, Bool(true), s) && AuditOf(where, s) == []
            && ValidateOf(h, s, where, Bool(true), s) == []
            && !Conforms(h, s, Bool(true), s)
  {
    var s := EMPTY.(constant := Some(Num("1")));
    AloneEnds(s, Bool(true), s);
    assert Same(h, Bool(true), Num("1")) && !Equal(h, Bool(true), Num("1"));
    NothingNested(h, s, where, Bool(true), s);
    assert ScalarFindings(h, where, Bool(true), s) == [];
    AppliedAlone(Standard(h, s), Meant(s), Bool(true), s);
  }

  /**
    Without the audit the silent return is real: an unenforced type hides every other keyword, so
    validation passes an instance that does not satisfy the schema. The audit reports that schema.
   */
  lemma {:induction false} UnauditedTypeHides(h: Host, where: Path)
    ensures var s := EMPTY.(typ := Some("integer"));
            && Ends(s, Null, s)
            && ValidateOf(h, s, where, Null, s) == []
            && !Conforms(h, s, Null, s)
            && AuditOf(where, s) == [Finding(where, UnknownType)]
  {
    var s := EMPTY.(typ := Some("integer"));
    AloneEnds(s, Null, s);
    AppliedAlone(Standard(h, s), Meant(s), Null, s);
  }

  const WHOLE := EMPTY.(ref := Some("#"))

  const NESTED := EMPTY.(properties := [("a", WHOLE)])

  lemma {:induction false} NestedEnds(inner: Value)
    requires inner == Obj([])
    ensures Ends(NESTED, inner, WHOLE) && Ends(NESTED, Obj([("a", inner)]), NESTED)
  {
    var ends, l := SettledAt(NESTED), Local(NESTED);
    assert Settles(NESTED, NESTED, 0) && Settles(NESTED, WHOLE, 0);
    EverywhereParts(ends, l, inner, WHOLE);
    EverywhereParts(ends, l, Obj([("a", inner)]), NESTED);
  }

  lemma {:induction false} NestedConforms(h: Host, inner: Value)
    requires inner == Obj([])
    ensures Conforms(h, NESTED, Obj([("a", inner)]), NESTED)
  {
    var c, m := Standard(h, NESTED), Meant(NESTED);
    assert m("#") == Some(NESTED);
    EverywhereParts(c, m, inner, NESTED);
    EverywhereParts(c, m, inner, WHOLE);
    EverywhereParts(c, m, Obj([("a", inner)]), NESTED);
  }

  lemma {:induction false} NestedReported(h: Host, where: Path, inner: Value)
    requires inner == Obj([]) && Ends(NESTED, inner, WHOLE) && Ends(NESTED, Obj([("a", inner)]), NESTED)
    ensures ValidateOf(h, NESTED, where, Obj([("a", inner)]), NESTED) == [Finding(where + [Property("a")], Unresolved)]
  {
    var ms, ps := [("a", inner)], NESTED.properties;
    EndsInside(NESTED, Obj(ms), NESTED);
    assert ps[1..] == [] && Find(ms, "a") == 0;
    assert MemberFindings(h, NESTED, where, ms[0], WHOLE) == [Finding(where + [Property("a")], Unresolved)];
    assert PropertyFindings(h, NESTED, where, ms, ps) == MemberFindings(h, NESTED, where, ms[0], WHOLE) + [];
    assert MissingFields(where, ms, NESTED.required) == [];
    assert NestedFindings(h, NESTED, where, Obj(ms), NESTED) == PropertyFindings(h, NESTED, where, ms, ps);
  }

  lemma {:induction false} NestedAudit(where: Path)
    ensures AuditOf(where, NESTED) == []
  {
    var ps := NESTED.properties;
    assert ps[1..] == [];
    assert AuditOf(where + [Property("a")], WHOLE) == [];
    assert AuditNamed(where, ps[0], true) == [];
    assert AuditEach(where, ps, true) == [];
  }

  /** A reference to the whole document is reported, where the standard applies the document again. */
  lemma {:induction false} RootReference(h: Host, where: Path)
    ensures var v := Obj([("a", Obj([]))]);
            && Ends(NESTED, v, NESTED) && AuditOf(where, NESTED) == []
            && ValidateOf(h, NESTED, where, v, NESTED) == [Finding(where + [Property("a")], Unresolved)]
            && Conforms(h, NESTED, v, NESTED)
  {
    NestedEnds(Obj([]));
    NestedConforms(h, Obj([]));
    NestedReported(h, where, Obj([]));
    NestedAudit(where);
  }

  const SLASHED := EMPTY.(ref := Some(PREFIX + "a~1b"),
                          defs := [("a/b", EMPTY.(typ := Some("string"))), ("a~1b", EMPTY)])

  lemma {:induction false} SlashedLocal(h: Host, where: Path, v: Value)
    requires v == Num("5")
    ensures Ends(SLASHED, v, SLASHED) && ValidateOf(h, SLASHED, where, v, SLASHED) == []
  {
    assert (PREFIX + "a~1b")[|PREFIX|..] == "a~1b";
    assert |"a/b"| != |"a~1b"| && Find(SLASHED.defs[1..], "a~1b") == 0;
    assert Resolve(SLASHED, SLASHED.ref.value) == Some(EMPTY);
    assert Settles(SLASHED, EMPTY, 0) && Settles(SLASHED, SLASHED, 1);
    AloneEnds(SLASHED, v, EMPTY);
    EverywhereParts(SettledAt(SLASHED), Local(SLASHED), v, SLASHED);
    assert ValidateOf(h, SLASHED, where, v, EMPTY) == [];
  }

  lemma {:induction false} SlashedMeans()
    ensures Target(SLASHED, PREFIX + "a~1b") == Some(EMPTY.(typ := Some("string")))
  {
    SlashUnescaped();
    DefinitionMeant(SLASHED, "a~1b");
  }

  lemma {:induction false} SlashedRejected(h: Host, v: Value)
    requires v == Num("5")
    ensures !Conforms(h, SLASHED, v, SLASHED)
  {
    var c, m, text := Standard(h, SLASHED), Meant(SLASHED), EMPTY.(typ := Some("string"));
    SlashedMeans();
    AppliedAlone(c, m, v, text);
    EverywhereParts(c, m, v, SLASHED);
    assert m(SLASHED.ref.value) == Some(text) && !c(v, text);
  }

  /** An escaped reference is taken by its spelling, where the standard decodes it. */
  lemma {:induction false} EscapedReference(h: Host, where: Path)
    ensures && Ends(SLASHED, Num("5"), SLASHED) && AuditOf(where, SLASHED) == []
            && ValidateOf(h, SLASHED, where, Num("5"), SLASHED) == []
            && !Conforms(h, SLASHED, Num("5"), SLASHED)
  {
    SlashedLocal(h, where, Num("5"));
    SlashedRejected(h, Num("5"));
    var ds := SLASHED.defs;
    assert AuditNamed(where, ds[0], false) == [] && AuditNamed(where, ds[1], false) == [];
    assert ds[1..] == [ds[1]] && ds[1..][1..] == [];
    assert AuditEach(where, ds[1..], false) == [];
  }

  lemma {:induction false} SlashUnescaped()
    ensures Unescaped("a~1b") == Some("a/b")
  {
    NoTilde("b");
    assert "~1b"[2..] == "b" && ['/'] + "b" == "/b";
    assert Unescaped("~1b") == Some("/b");
    assert "a~1b"[1..] == "~1b" && ['a'] + "/b" == "a/b";
  }
}
