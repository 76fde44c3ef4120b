/**
  Canonical JSON can be undone: reading canonical text gives back the value, so canonical text is
  an exact name for a JSON value; and whatever the reader returns is well formed.
 */
module JsonRoundTrip {
  import opened Sorting
  import opened Utf16
  import opened Json
  import opened Wrappers
  import HostText

  /** `rest` cannot be taken for a continuation of a number token. */
  predicate EndsNumber(rest: string) {
    rest == "" || (!Digit(rest[0]) && rest[0] != '.' && rest[0] != 'e' && rest[0] != 'E')
  }

  // ----- number tokens

  lemma {:induction false} DigitRunExact(d: string, rest: string)
    requires AllDigits(d) && (rest == "" || !Digit(rest[0]))
    ensures DigitRun(d + rest) == |d|
  {
    if d == "" {
      assert d + rest == rest;
    } else {
      assert (d + rest)[1..] == d[1..] + rest;
      DigitRunExact(d[1..], rest);
    }
  }

  lemma ExpExact(e: string, rest: string)
    requires ExpPart(e) && EndsNumber(rest)
    ensures ExpLen(e + rest) == |e|
  {
    if e == "" {
      assert e + rest == rest;
    } else {
      var s := e + rest;
      assert s[0] == e[0] && s[1] == e[1];
      var sign := if e[1] == '+' || e[1] == '-' then 1 else 0;
      assert s[1 + sign] == e[1 + sign] == e[1 + sign..][0];
      assert s[1 + sign..] == e[1 + sign..] + rest;
      DigitRunExact(e[1 + sign..], rest);
    }
  }

  lemma FracExact(f: string, rest: string)
    requires FracPart(f) && (rest == "" || (!Digit(rest[0]) && rest[0] != '.'))
    ensures FracLen(f + rest) == |f|
  {
    if f == "" {
      assert f + rest == rest;
    } else {
      assert (f + rest)[1..] == f[1..] + rest;
      assert (f + rest)[1] == f[1..][0];
      DigitRunExact(f[1..], rest);
    }
  }

  lemma IntExact(i: string, rest: string)
    requires IntPart(i) && (rest == "" || !Digit(rest[0]))
    ensures IntLen(i + rest) == |i| > 0
  {
    assert (i + rest)[0] == i[0];
    if i != "0" { DigitRunExact(i, rest); }
  }

  lemma Drop(p: string, t: string)
    ensures (p + t)[|p|..] == t
  {
  }

  lemma TailLengths(i: string, f: string, e: string, rest: string)
    requires IntPart(i) && FracPart(f) && ExpPart(e) && EndsNumber(rest)
    ensures IntLen(i + (f + (e + rest))) == |i| > 0
    ensures FracLen(f + (e + rest)) == |f|
    ensures ExpLen(e + rest) == |e|
  {
    ExpExact(e, rest);
    assert e + rest == "" || (e + rest)[0] == if e == "" then rest[0] else e[0];
    FracExact(f, e + rest);
    assert f + (e + rest) == "" || (f + (e + rest))[0] == if f == "" then (e + rest)[0] else f[0];
    IntExact(i, f + (e + rest));
  }

  lemma SignExact(sign: string, t: string)
    requires (sign == "" || sign == "-") && t != "" && t[0] != '-'
    ensures SignLen(sign + t) == |sign| && (sign + t)[|sign|..] == t
  {
    assert sign != "" ==> (sign + t)[0] == '-';
    assert sign == "" ==> sign + t == t;
    Drop(sign, t);
  }

  /** A number token is read whole, whatever follows it. */
  lemma NumberExact(lit: string, rest: string)
    requires NumberLiteral(lit) && EndsNumber(rest)
    ensures NumberLen(lit + rest) == |lit| > 0
    ensures lit[0] == '-' || Digit(lit[0])
  {
    var sign, i, f, e :| Parts(lit, sign, i, f, e);
    var w := e + rest;
    var u := f + w;
    var t := i + u;
    TailLengths(i, f, e, rest);
    assert t[0] == i[0];
    SignExact(sign, t);
    Drop(i, u);
    Drop(f, w);
    assert lit + rest == sign + t by {
      HostText.Assoc(sign + i + f, e, rest);
      HostText.Assoc(sign + i, f, w);
      HostText.Assoc(sign, i, u);
    }
    assert lit[0] == (lit + rest)[0] == if sign == "" then t[0] else sign[0];
  }

  // ----- strings

  lemma HexBack(n: nat)
    requires n < 16
    ensures HexValue(HexDigit(n)) == n
  {
  }

  lemma EscapeRead(c: char, rest: string)
    requires EscapeChar(c) != [c]
    ensures EscapeChar(c)[0] == '\\'
    ensures ReadEscape(EscapeChar(c)[1..] + rest) == Ok(c, rest)
  {
    var e := EscapeChar(c)[1..];
    Drop(e, rest);
    if |e| == 1 {
      assert (e + rest)[0] == e[0];
    } else {
      var n := c as int;
      var h, l := HexDigit(n / 16), HexDigit(n % 16);
      HexBack(n / 16);
      HexBack(n % 16);
      assert e == ['u', '0', '0', h, l];
      var t := (e + rest)[1..];
      assert t[0] == '0' && t[1] == '0' && t[2] == h && t[3] == l;
      assert Unit(t) == n;
    }
  }

  predicate PlainChar(c: char) { c != '"' && c != '\\' && c as int >= 0x20 }

  lemma PlainEscape(c: char)
    ensures EscapeChar(c) == [c] <==> PlainChar(c)
  {
  }

  /** `text` is the rest of a string token that spells `x`, followed by `rest`. */
  ghost predicate Spells(text: string, x: string, rest: string) { ReadChars(text) == Ok(x, rest) }

  lemma PlainRead(c: char, x: string, u: string, rest: string)
    requires PlainChar(c) && Spells(u, x, rest)
    ensures Spells([c] + u, [c] + x, rest)
  {
    Drop([c], u);
  }

  lemma EscapedRead(e: string, c: char, x: string, u: string, rest: string)
    requires ReadEscape(e + u) == Ok(c, u) && Spells(u, x, rest)
    ensures Spells("\\" + (e + u), [c] + x, rest)
  {
    Drop("\\", e + u);
  }

  lemma CharRead(c: char, x: string, u: string, rest: string)
    requires Spells(u, x, rest)
    ensures Spells(EscapeChar(c) + u, [c] + x, rest)
  {
    PlainEscape(c);
    if PlainChar(c) {
      PlainRead(c, x, u, rest);
    } else {
      var e := EscapeChar(c)[1..];
      EscapeRead(c, u);
      EscapedRead(e, c, x, u, rest);
      assert EscapeChar(c) == "\\" + e;
      HostText.Assoc("\\", e, u);
    }
  }

  lemma QuoteEnds(rest: string)
    ensures Spells("\"" + rest, "", rest)
  {
    Drop("\"", rest);
  }

  lemma {:induction false} CharsRead(s: string, rest: string)
    ensures Spells(Escaped(s) + ("\"" + rest), s, rest)
  {
    var q := "\"" + rest;
    if s == "" {
      QuoteEnds(rest);
      assert Escaped(s) + q == q;
    } else {
      CharsRead(s[1..], rest);
      CharRead(s[0], s[1..], Escaped(s[1..]) + q, rest);
      HostText.Assoc(EscapeChar(s[0]), Escaped(s[1..]), q);
      assert s == [s[0]] + s[1..];
    }
  }

  lemma QuoteRead(s: string, rest: string)
    ensures (Quote(s) + rest)[0] == '"'
    ensures ReadChars((Quote(s) + rest)[1..]) == Ok(s, rest)
  {
    Bracketed("\"", Escaped(s), "\"", rest);
    Drop("\"", Escaped(s) + ("\"" + rest));
    CharsRead(s, rest);
  }

  // ----- values

  lemma FromPairsDistinct<V>(ps: seq<(string, V)>)
    requires DistinctKeys(ps)
    ensures FromPairs(ps) == ps
  {
    if ps != [] {
      var init := ps[..|ps| - 1];
      FromPairsDistinct(init);
      SetKeyFresh(init, ps[|ps| - 1].0, ps[|ps| - 1].1);
      assert ps == init + [(ps[|ps| - 1].0, ps[|ps| - 1].1)];
    }
  }

  lemma {:induction false} NumberHead(lit: string)
    requires NumberLiteral(lit)
    ensures lit != "" && (lit[0] == '-' || Digit(lit[0]))
  {
    var sign, i, f, e :| Parts(lit, sign, i, f, e);
    assert i != "" && Digit(i[0]);
    assert lit[0] == if sign == "" then i[0] else '-';
  }

  lemma {:induction false} DumpHead(v: Value)
    requires WellFormed(v)
    ensures Dump(v) != "" && !Space(Dump(v)[0]) && Dump(v)[0] != ']' && Dump(v)[0] != '}'
  {
    match v
    case Null => assert Dump(v)[0] == 'n';
    case Bool(b) => assert Dump(v)[0] == if b then 't' else 'f';
    case Num(lit) => NumberHead(lit);
    case Str(_) => assert Dump(v)[0] == '"';
    case Arr(_) => assert Dump(v)[0] == '[';
    case Obj(_) => assert Dump(v)[0] == '{';
  }

  lemma ScalarRead(v: Value, rest: string)
    requires WellFormed(v) && EndsNumber(rest) && !v.Arr? && !v.Obj?
    ensures ReadValue(Dump(v) + rest) == Ok(v, rest)
  {
    match v
    case Null => KeywordRead("null", Null, rest);
    case Bool(b) => KeywordRead(if b then "true" else "false", v, rest);
    case Num(lit) => NumberRead(lit, rest);
    case Str(x) => QuoteRead(x, rest);
  }

  lemma KeywordRead(word: string, v: Value, rest: string)
    requires || (word == "null" && v == Null) || (word == "true" && v == Bool(true))
             || (word == "false" && v == Bool(false))
    ensures ReadValue(word + rest) == Ok(v, rest)
  {
    Drop(word, rest);
    assert (word + rest)[0] == word[0] && (word + rest)[..|word|] == word;
  }

  lemma NumberRead(lit: string, rest: string)
    requires NumberLiteral(lit) && EndsNumber(rest)
    ensures ReadValue(lit + rest) == Ok(Num(lit), rest)
  {
    var s := lit + rest;
    NumberExact(lit, rest);
    Drop(lit, rest);
    assert s[0] == lit[0] && s[..|lit|] == lit;
    NotKeyword(s);
  }

  lemma NotKeyword(s: string)
    requires s != "" && (s[0] == '-' || Digit(s[0]))
    ensures !("null" <= s) && !("true" <= s) && !("false" <= s)
  {
  }

  lemma ArrayRead(items: seq<Value>, body: string, rest: string)
    requires if items == [] then body == "]" + rest
             else body != "" && !Space(body[0]) && body[0] != ']' && ReadItems(body) == Ok(items, rest)
    ensures ReadValue("[" + body) == Ok(Arr(items), rest)
  {
    Drop("[", body);
    Drop("]", rest);
  }

  lemma ObjectRead(ms: seq<(string, Value)>, body: string, rest: string)
    requires DistinctKeys(ms)
    requires if ms == [] then body == "}" + rest
             else body != "" && !Space(body[0]) && body[0] != '}' && ReadMembers(body) == Ok(ms, rest)
    ensures ReadValue("{" + body) == Ok(Obj(ms), rest)
  {
    Drop("{", body);
    Drop("}", rest);
    FromPairsDistinct(ms);
  }

  lemma ItemsHead(items: seq<Value>, tail: string)
    requires items != [] && WellFormed(items[0])
    ensures var s := DumpItems(items) + tail; s != "" && !Space(s[0]) && s[0] != ']'
  {
    DumpHead(items[0]);
    assert DumpItems(items)[0] == Dump(items[0])[0];
  }

  lemma MembersHead(ms: seq<(string, Value)>, tail: string)
    requires ms != []
    ensures var s := DumpMembers(ms) + tail; s != "" && s[0] == '"'
  {
    assert DumpMember(ms[0])[0] == '"';
    assert DumpMembers(ms)[0] == DumpMember(ms[0])[0];
  }

  lemma Bracketed(open: string, body: string, close: string, rest: string)
    ensures open + body + close + rest == open + (body + (close + rest))
  {
    HostText.Assoc(open + body, close, rest);
    HostText.Assoc(open, body, close + rest);
  }

  /** Reading what `Dump` prints gives back the value and leaves the rest of the text. */
  lemma {:induction false} ReadDump(v: Value, rest: string)
    requires WellFormed(v) && EndsNumber(rest)
    ensures ReadValue(Dump(v) + rest) == Ok(v, rest)
    decreases v, 0
  {
    match v
    case Arr(items) =>
      if items != [] {
        ReadDumpItems(items, rest);
        ItemsHead(items, "]" + rest);
      } else {
        assert DumpItems(items) + ("]" + rest) == "]" + rest;
      }
      ArrayRead(items, DumpItems(items) + ("]" + rest), rest);
      Bracketed("[", DumpItems(items), "]", rest);
    case Obj(ms) =>
      if ms != [] {
        ReadDumpMembers(ms, rest);
        MembersHead(ms, "}" + rest);
      } else {
        assert DumpMembers(ms) + ("}" + rest) == "}" + rest;
      }
      ObjectRead(ms, DumpMembers(ms) + ("}" + rest), rest);
      Bracketed("{", DumpMembers(ms), "}", rest);
    case _ => ScalarRead(v, rest);
  }

  lemma ItemsLast(a: string, v: Value, rest: string)
    requires ReadValue(a + ("]" + rest)) == Ok(v, "]" + rest)
    ensures ReadItems(a + ("]" + rest)) == Ok([v], rest)
  {
    Drop("]", rest);
  }

  lemma ItemsCons(a: string, v: Value, u: string, vs: seq<Value>, rest: string)
    requires u != "" && !Space(u[0])
    requires ReadValue(a + ("," + u)) == Ok(v, "," + u) && ReadItems(u) == Ok(vs, rest)
    ensures ReadItems(a + ("," + u)) == Ok([v] + vs, rest)
  {
    Drop(",", u);
  }

  lemma {:induction false} ReadDumpItems(items: seq<Value>, rest: string)
    requires items != [] && forall i :: 0 <= i < |items| ==> WellFormed(items[i])
    ensures ReadItems(DumpItems(items) + ("]" + rest)) == Ok(items, rest)
    decreases items, 1
  {
    if |items| == 1 {
      ReadDump(items[0], "]" + rest);
      ItemsLast(Dump(items[0]), items[0], rest);
      assert items == [items[0]];
    } else {
      var u := DumpItems(items[1..]) + ("]" + rest);
      ReadDump(items[0], "," + u);
      ReadDumpItems(items[1..], rest);
      ItemsHead(items[1..], "]" + rest);
      ItemsCons(Dump(items[0]), items[0], u, items[1..], rest);
      Bracketed(Dump(items[0]), ",", DumpItems(items[1..]), "]" + rest);
      assert items == [items[0]] + items[1..];
    }
  }

  lemma {:induction false} ReadDumpMember(m: (string, Value), rest: string)
    requires WellFormed(m.1) && EndsNumber(rest)
    ensures ReadMember(DumpMember(m) + rest) == Ok(m, rest)
    decreases m, 1
  {
    var t := Dump(m.1) + rest;
    Bracketed(Quote(m.0), ":", Dump(m.1), rest);
    QuoteRead(m.0, ":" + t);
    Drop(":", t);
    DumpHead(m.1);
    assert t[0] == Dump(m.1)[0];
    ReadDump(m.1, rest);
  }

  lemma MembersLast(a: string, m: (string, Value), rest: string)
    requires ReadMember(a + ("}" + rest)) == Ok(m, "}" + rest)
    ensures ReadMembers(a + ("}" + rest)) == Ok([m], rest)
  {
    Drop("}", rest);
  }

  lemma MembersCons(a: string, m: (string, Value), u: string, ms: seq<(string, Value)>, rest: string)
    requires u != "" && !Space(u[0])
    requires ReadMember(a + ("," + u)) == Ok(m, "," + u) && ReadMembers(u) == Ok(ms, rest)
    ensures ReadMembers(a + ("," + u)) == Ok([m] + ms, rest)
  {
    Drop(",", u);
  }

  lemma {:induction false} DumpedCons(ms: seq<(string, Value)>, rest: string)
    requires |ms| > 1
    ensures DumpMembers(ms) + rest == DumpMember(ms[0]) + ("," + (DumpMembers(ms[1..]) + rest))
  {
    Bracketed(DumpMember(ms[0]), ",", DumpMembers(ms[1..]), rest);
  }

  lemma {:induction false} MembersStep(ms: seq<(string, Value)>, rest: string)
    requires |ms| > 1 && forall i :: 0 <= i < |ms| ==> WellFormed(ms[i].1)
    requires var u := DumpMembers(ms[1..]) + ("}" + rest);
             ReadMember(DumpMember(ms[0]) + ("," + u)) == Ok(ms[0], "," + u) && ReadMembers(u) == Ok(ms[1..], rest)
    ensures ReadMembers(DumpMembers(ms) + ("}" + rest)) == Ok(ms, rest)
  {
    var u := DumpMembers(ms[1..]) + ("}" + rest);
    DumpedCons(ms, "}" + rest);
    MembersHead(ms[1..], "}" + rest);
    MembersCons(DumpMember(ms[0]), ms[0], u, ms[1..], rest);
    assert DumpMembers(ms) + ("}" + rest) == DumpMember(ms[0]) + ("," + u);
    assert ms == [ms[0]] + ms[1..];
  }

  lemma {:induction false} ReadDumpMembers(ms: seq<(string, Value)>, rest: string)
    requires ms != [] && forall i :: 0 <= i < |ms| ==> WellFormed(ms[i].1)
    ensures ReadMembers(DumpMembers(ms) + ("}" + rest)) == Ok(ms, rest)
    decreases ms, 1
  {
    if |ms| == 1 {
      ReadDumpMember(ms[0], "}" + rest);
      MembersLast(DumpMember(ms[0]), ms[0], rest);
      assert ms == [ms[0]];
    } else {
      ReadDumpMember(ms[0], "," + (DumpMembers(ms[1..]) + ("}" + rest)));
      ReadDumpMembers(ms[1..], rest);
      MembersStep(ms, rest);
    }
  }

  // ----- canonical order

  lemma {:induction false} OrderedWellFormed(v: Value)
    requires WellFormed(v)
    ensures WellFormed(Ordered(v))
  {
    match v
    case Arr(items) =>
      forall i | 0 <= i < |items| ensures WellFormed(Ordered(items[i])) {
        OrderedWellFormed(items[i]);
      }
    case Obj(ms) =>
      var om := OrderedMembers(ms);
      NameOrderTotal();
      SortOrdered(NameLess, om);
      forall i | 0 <= i < |ms| ensures WellFormed(Sort(NameLess, om)[i].1) {
        SortedMember(om, i);
        var j :| 0 <= j < |om| && om[j] == Sort(NameLess, om)[i];
        assert ms[j] in ms;
        OrderedWellFormed(ms[j].1);
      }
    case _ =>
  }

  lemma {:induction false} OrderedFixed(v: Value)
    requires WellFormed(v)
    ensures Ordered(Ordered(v)) == Ordered(v)
  {
    match v
    case Arr(items) =>
      forall i | 0 <= i < |items| ensures Ordered(Ordered(items[i])) == Ordered(items[i]) {
        OrderedFixed(items[i]);
      }
      assert OrderedItems(OrderedItems(items)) == OrderedItems(items);
    case Obj(ms) =>
      var om := OrderedMembers(ms);
      forall i | 0 <= i < |ms| ensures Ordered(om[i].1) == om[i].1 {
        OrderedFixed(ms[i].1);
      }
      NameOrderTotal();
      SortOrdered(NameLess, om);
      var sorted := Sort(NameLess, om);
      forall i | 0 <= i < |sorted| ensures OrderedMember(sorted[i]) == sorted[i] {
        SortedMember(om, i);
      }
      assert OrderedMembers(sorted) == sorted;
      SortFixed(NameLess, sorted);
    case _ =>
  }

  /** Reading canonical text returns the value with its members in canonical order. */
  lemma ReadCanon(v: Value)
    requires WellFormed(v)
    ensures ReadText(Canon(v)) == Ok(Ordered(v), "")
  {
    OrderedWellFormed(v);
    ReadDump(Ordered(v), "");
    DumpHead(Ordered(v));
    assert Canon(v) + "" == Canon(v);
  }

  /** Canonicalizing what canonical text reads as changes nothing. */
  lemma CanonIdempotent(v: Value)
    requires WellFormed(v)
    ensures ReadText(Canon(v)).Ok? && Canon(ReadText(Canon(v)).value) == Canon(v)
  {
    ReadCanon(v);
    OrderedFixed(v);
  }

  // ----- equality of values

  function Keys<V>(ms: seq<(string, V)>): set<string> { set i | 0 <= i < |ms| :: ms[i].0 }

  /** Equality of JSON values: arrays by position, objects as finite maps. */
  ghost predicate SameValue(v: Value, w: Value) {
    match (v, w)
    case (Arr(xs), Arr(ys)) => |xs| == |ys| && forall i :: 0 <= i < |xs| ==> SameValue(xs[i], ys[i])
    case (Obj(ms), Obj(ns)) =>
      && Keys(ms) == Keys(ns)
      && forall i, j :: 0 <= i < |ms| && 0 <= j < |ns| && ms[i].0 == ns[j].0 ==> SameValue(ms[i].1, ns[j].1)
    case _ => v == w
  }

  lemma MembersShared(ms: seq<(string, Value)>, ns: seq<(string, Value)>)
    requires Keys(ms) == Keys(ns)
    requires forall i, j :: 0 <= i < |ms| && 0 <= j < |ns| && ms[i].0 == ns[j].0 ==>
               Ordered(ms[i].1) == Ordered(ns[j].1)
    ensures SameMembers(OrderedMembers(ms), OrderedMembers(ns))
  {
    var om, on := OrderedMembers(ms), OrderedMembers(ns);
    forall x | x in om ensures x in on {
      var i :| 0 <= i < |om| && om[i] == x;
      assert ms[i].0 in Keys(ns);
      var j :| 0 <= j < |ns| && ns[j].0 == ms[i].0;
      assert on[j] == x;
    }
    forall x | x in on ensures x in om {
      var j :| 0 <= j < |on| && on[j] == x;
      assert ns[j].0 in Keys(ms);
      var i :| 0 <= i < |ms| && ms[i].0 == ns[j].0;
      assert om[i] == x;
    }
  }

  lemma {:induction false} SameGivesOrdered(v: Value, w: Value)
    requires WellFormed(v) && WellFormed(w) && SameValue(v, w)
    ensures Ordered(v) == Ordered(w)
  {
    match (v, w)
    case (Arr(xs), Arr(ys)) =>
      forall i | 0 <= i < |xs| ensures Ordered(xs[i]) == Ordered(ys[i]) {
        SameGivesOrdered(xs[i], ys[i]);
      }
      assert OrderedItems(xs) == OrderedItems(ys);
    case (Obj(ms), Obj(ns)) =>
      forall i, j | 0 <= i < |ms| && 0 <= j < |ns| && ms[i].0 == ns[j].0
        ensures Ordered(ms[i].1) == Ordered(ns[j].1)
      {
        assert ms[i] in ms;
        SameGivesOrdered(ms[i].1, ns[j].1);
      }
      MembersShared(ms, ns);
      NameOrderTotal();
      SortCanonical(NameLess, OrderedMembers(ms), OrderedMembers(ns));
    case _ =>
  }

  lemma {:induction false} OrderedGivesSame(v: Value, w: Value)
    requires WellFormed(v) && WellFormed(w) && Ordered(v) == Ordered(w)
    ensures SameValue(v, w)
  {
    match (v, w)
    case (Arr(xs), Arr(ys)) =>
      forall i | 0 <= i < |xs| ensures SameValue(xs[i], ys[i]) {
        assert OrderedItems(xs)[i] == OrderedItems(ys)[i];
        OrderedGivesSame(xs[i], ys[i]);
      }
    case (Obj(ms), Obj(ns)) =>
      SharedMembers(ms, ns);
      KeysIncluded(ms, ns);
      KeysIncluded(ns, ms);
      forall i, j | 0 <= i < |ms| && 0 <= j < |ns| && ms[i].0 == ns[j].0 ensures SameValue(ms[i].1, ns[j].1) {
        ValueShared(ms, ns, i, j);
        assert ms[i] in ms;
        OrderedGivesSame(ms[i].1, ns[j].1);
      }
    case _ =>
  }

  lemma SharedMembers(ms: seq<(string, Value)>, ns: seq<(string, Value)>)
    requires Sort(NameLess, OrderedMembers(ms)) == Sort(NameLess, OrderedMembers(ns))
    ensures SameMembers(OrderedMembers(ms), OrderedMembers(ns)) && SameMembers(OrderedMembers(ns), OrderedMembers(ms))
  {
    SortMembers(NameLess, OrderedMembers(ms));
    SortMembers(NameLess, OrderedMembers(ns));
  }

  lemma ValueShared(ms: seq<(string, Value)>, ns: seq<(string, Value)>, i: nat, j: nat)
    requires SameMembers(OrderedMembers(ms), OrderedMembers(ns)) && DistinctKeys(ns)
    requires i < |ms| && j < |ns| && ms[i].0 == ns[j].0
    ensures Ordered(ms[i].1) == Ordered(ns[j].1)
  {
    var om, on := OrderedMembers(ms), OrderedMembers(ns);
    assert om[i] in om;
    var k :| 0 <= k < |on| && on[k] == om[i];
    assert on[k].0 == ns[k].0 && om[i].0 == ms[i].0;
    assert k == j;
  }

  lemma KeysIncluded(ms: seq<(string, Value)>, ns: seq<(string, Value)>)
    requires SameMembers(OrderedMembers(ms), OrderedMembers(ns))
    ensures Keys(ms) <= Keys(ns)
  {
    var om, on := OrderedMembers(ms), OrderedMembers(ns);
    forall k | k in Keys(ms) ensures k in Keys(ns) {
      var i :| 0 <= i < |ms| && ms[i].0 == k;
      assert om[i] in om;
      var j :| 0 <= j < |on| && on[j] == om[i];
      assert on[j].0 == ns[j].0 && om[i].0 == ms[i].0;
    }
  }

  /** Two values share canonical text exactly when they are equal as JSON values. */
  lemma CanonExact(v: Value, w: Value)
    requires WellFormed(v) && WellFormed(w)
    ensures Canon(v) == Canon(w) <==> SameValue(v, w)
  {
    if SameValue(v, w) { SameGivesOrdered(v, w); }
    if Canon(v) == Canon(w) {
      ReadCanon(v);
      ReadCanon(w);
      OrderedGivesSame(v, w);
    }
  }

  // ----- what the reader accepts

  lemma ExpSound(s: string)
    ensures ExpPart(s[..ExpLen(s)])
  {
    var n := ExpLen(s);
    if n > 0 {
      var g := if s[1] == '+' || s[1] == '-' then 1 else 0;
      assert DigitRun(s[1 + g..]) > 0 by { assert s[1 + g..][0] == s[1 + g]; }
      assert s[..n][1 + g..] == s[1 + g..][..n - 1 - g];
    }
  }

  lemma FracSound(s: string)
    ensures FracPart(s[..FracLen(s)])
  {
    var n := FracLen(s);
    if n > 0 {
      assert DigitRun(s[1..]) > 0 by { assert s[1..][0] == s[1]; }
      assert s[..n][1..] == s[1..][..n - 1];
    }
  }

  lemma IntSound(s: string)
    requires IntLen(s) > 0
    ensures IntPart(s[..IntLen(s)])
  {
    if s[0] == '0' { assert s[..1] == "0"; }
  }

  lemma SignSound(s: string)
    ensures s[..SignLen(s)] == "" || s[..SignLen(s)] == "-"
  {
    if s != "" && s[0] == '-' { assert s[..1] == "-"; }
  }

  lemma ScaleSound(s: string) returns (f: string, e: string)
    ensures FracPart(f) && ExpPart(e) && s[..ScaleLen(s)] == f + e
  {
    var w := s[FracLen(s)..];
    f, e := s[..FracLen(s)], w[..ExpLen(w)];
    FracSound(s);
    ExpSound(w);
    TakePlus(s, FracLen(s), ExpLen(w));
  }

  lemma MagnitudeSound(s: string) returns (i: string, f: string, e: string)
    requires MagnitudeLen(s) > 0
    ensures IntPart(i) && FracPart(f) && ExpPart(e) && s[..MagnitudeLen(s)] == i + (f + e)
  {
    var u := s[IntLen(s)..];
    i := s[..IntLen(s)];
    IntSound(s);
    f, e := ScaleSound(u);
    TakePlus(s, IntLen(s), ScaleLen(u));
  }

  lemma NumberSound(s: string)
    requires NumberLen(s) > 0
    ensures NumberLiteral(s[..NumberLen(s)])
  {
    var t := s[SignLen(s)..];
    var i, f, e := MagnitudeSound(t);
    var sign := s[..SignLen(s)];
    SignSound(s);
    TakePlus(s, SignLen(s), MagnitudeLen(t));
    PartsSound(s[..NumberLen(s)], sign, i, f, e);
  }

  lemma PartsSound(lit: string, sign: string, i: string, f: string, e: string)
    requires (sign == "" || sign == "-") && IntPart(i) && FracPart(f) && ExpPart(e)
    requires lit == sign + (i + (f + e))
    ensures NumberLiteral(lit)
  {
    HostText.Assoc(sign, i, f + e);
    HostText.Assoc(sign + i, f, e);
    assert Parts(lit, sign, i, f, e);
  }

  lemma TakePlus(s: string, a: nat, n: nat)
    requires a + n <= |s|
    ensures s[..a + n] == s[..a] + s[a..][..n]
  {
  }

  lemma SetKeyKeys(ms: seq<(string, Value)>, k: string, v: Value)
    ensures Keys(SetKey(ms, k, v)) == Keys(ms) + {k}
  {
    var r := SetKey(ms, k, v);
    KeysCons(r);
    if ms != [] {
      KeysCons(ms);
      if ms[0].0 == k {
        assert r[1..] == ms[1..];
      } else {
        SetKeyKeys(ms[1..], k, v);
        assert r[1..] == SetKey(ms[1..], k, v);
      }
    } else {
      assert Keys(r[1..]) == {} && Keys(ms) == {};
    }
  }

  lemma ObjCons(m: (string, Value), t: seq<(string, Value)>)
    requires WellFormed(m.1) && WellFormed(Obj(t)) && m.0 !in Keys(t)
    ensures WellFormed(Obj([m] + t))
  {
    var r := [m] + t;
    forall i | 0 < i < |r| ensures r[i].0 != m.0 {
      assert r[i] == t[i - 1] && t[i - 1].0 in Keys(t);
    }
    assert forall i :: 0 < i < |r| ==> r[i] == t[i - 1];
  }

  lemma ObjTail(ms: seq<(string, Value)>)
    requires WellFormed(Obj(ms)) && ms != []
    ensures WellFormed(ms[0].1) && WellFormed(Obj(ms[1..])) && ms[0].0 !in Keys(ms[1..])
  {
    assert forall i :: 0 <= i < |ms[1..]| ==> ms[1..][i] == ms[i + 1];
  }

  lemma SetKeyKeeps(ms: seq<(string, Value)>, k: string, v: Value)
    requires WellFormed(Obj(ms)) && WellFormed(v)
    ensures WellFormed(Obj(SetKey(ms, k, v)))
  {
    if ms != [] {
      ObjTail(ms);
      if ms[0].0 == k {
        ObjCons((k, v), ms[1..]);
      } else {
        SetKeyKeeps(ms[1..], k, v);
        SetKeyKeys(ms[1..], k, v);
        ObjCons(ms[0], SetKey(ms[1..], k, v));
      }
    }
  }

  lemma KeysCons(ms: seq<(string, Value)>)
    requires ms != []
    ensures Keys(ms) == {ms[0].0} + Keys(ms[1..])
  {
    forall k | k in Keys(ms) ensures k in {ms[0].0} + Keys(ms[1..]) {
      var i :| 0 <= i < |ms| && ms[i].0 == k;
      if i > 0 { assert ms[1..][i - 1].0 == k; }
    }
    forall k | k in {ms[0].0} + Keys(ms[1..]) ensures k in Keys(ms) {
      if k != ms[0].0 {
        var i :| 0 <= i < |ms[1..]| && ms[1..][i].0 == k;
        assert ms[i + 1].0 == k;
      }
    }
  }

  lemma FromPairsSound(ps: seq<(string, Value)>)
    requires forall i :: 0 <= i < |ps| ==> WellFormed(ps[i].1)
    ensures WellFormed(Obj(FromPairs(ps)))
  {
    if ps != [] {
      FromPairsSound(ps[..|ps| - 1]);
      SetKeyKeeps(FromPairs(ps[..|ps| - 1]), ps[|ps| - 1].0, ps[|ps| - 1].1);
    }
  }

  /** Everything the reader returns is well formed, duplicate names included. */
  lemma {:induction false} ReadSound(s: string)
    requires ReadValue(s).Ok?
    ensures WellFormed(ReadValue(s).value)
    decreases |s|, 1
  {
    if s[0] == '{' {
      var t := SkipSpace(s[1..]);
      if !(t != "" && t[0] == '}') {
        ReadMembersSound(t);
        FromPairsSound(ReadMembers(t).value);
      }
    } else if s[0] == '[' {
      var t := SkipSpace(s[1..]);
      if !(t != "" && t[0] == ']') { ReadItemsSound(t); }
    } else if s[0] != '"' && !("null" <= s) && !("true" <= s) && !("false" <= s) {
      NumberSound(s);
    }
  }

  lemma {:induction false} ReadItemsSound(s: string)
    requires ReadItems(s).Ok?
    ensures forall i :: 0 <= i < |ReadItems(s).value| ==> WellFormed(ReadItems(s).value[i])
    decreases |s|, 2
  {
    ReadSound(s);
    var t := SkipSpace(ReadValue(s).rest);
    if t[0] == ',' { ReadItemsSound(SkipSpace(t[1..])); }
  }

  lemma {:induction false} ReadMembersSound(s: string)
    requires ReadMembers(s).Ok?
    ensures forall i :: 0 <= i < |ReadMembers(s).value| ==> WellFormed(ReadMembers(s).value[i].1)
    decreases |s|, 2
  {
    var k := ReadChars(s[1..]);
    var u := SkipSpace(SkipSpace(k.rest)[1..]);
    ReadSound(u);
    var t := SkipSpace(ReadMember(s).rest);
    if t[0] == ',' { ReadMembersSound(SkipSpace(t[1..])); }
  }

  // ----- which text is printed

  /** The characters with a short escape print as that escape. */
  lemma EscapeTable()
    ensures EscapeChar('"') == "\\\"" && EscapeChar('\\') == "\\\\"
    ensures EscapeChar(8 as char) == "\\b" && EscapeChar(12 as char) == "\\f"
    ensures EscapeChar('\n') == "\\n" && EscapeChar('\r') == "\\r" && EscapeChar('\t') == "\\t"
  {
  }

  predicate LowerHex(c: char) { '0' <= c <= '9' || 'a' <= c <= 'f' }

  /** A character has the shortest escape the reader knows: itself, one letter, or four lower-case digits. */
  lemma EscapeShortest(c: char, e: char)
    ensures PlainChar(c) ==> EscapeChar(c) == [c]
    ensures !PlainChar(c) && ReadEscape([e]) == Ok(c, "") ==> EscapeChar(c) == ['\\', e]
    ensures |EscapeChar(c)| in {1, 2, 6}
    ensures |EscapeChar(c)| == 6 ==>
            && EscapeChar(c)[..2] == "\\u" && forall i :: 2 <= i < 6 ==> LowerHex(EscapeChar(c)[i])
  {
    if |EscapeChar(c)| == 6 {
      var t := EscapeChar(c);
      assert t[0] == '\\' && t[1] == 'u' && t[2] == '0' && t[3] == '0';
      assert LowerHex(t[4]) && LowerHex(t[5]);
    }
  }

  /** Four lower-case hexadecimal digits. */
  function HexUnit(u: nat): (s: string)
    requires u < 0x10000
    ensures |s| == 4
  {
    [HexDigit(u / 4096), HexDigit(u / 256 % 16), HexDigit(u / 16 % 16), HexDigit(u % 16)]
  }

  lemma Nibbles(u: nat)
    requires u < 0x10000
    ensures u / 4096 < 16 && u == u / 4096 * 4096 + u / 256 % 16 * 256 + u / 16 % 16 * 16 + u % 16
  {
    assert u == 16 * (u / 16) + u % 16;
    assert u / 16 == 16 * (u / 16 / 16) + u / 16 % 16 && u / 16 / 16 == u / 256;
    assert u / 256 == 16 * (u / 256 / 16) + u / 256 % 16 && u / 256 / 16 == u / 4096;
  }

  lemma {:induction false} UnitOf(a: nat, b: nat, c: nat, d: nat, rest: string)
    requires a < 16 && b < 16 && c < 16 && d < 16
    ensures Unit([HexDigit(a), HexDigit(b), HexDigit(c), HexDigit(d)] + rest) == a * 4096 + b * 256 + c * 16 + d
  {
    var t := [HexDigit(a), HexDigit(b), HexDigit(c), HexDigit(d)] + rest;
    HexBack(a);
    HexBack(b);
    HexBack(c);
    HexBack(d);
    assert t[0] == HexDigit(a) && t[1] == HexDigit(b) && t[2] == HexDigit(c) && t[3] == HexDigit(d);
  }

  lemma {:induction false} UnitBack(u: nat, rest: string)
    requires u < 0x10000
    ensures Unit(HexUnit(u) + rest) == u
  {
    Nibbles(u);
    UnitOf(u / 4096, u / 256 % 16, u / 16 % 16, u % 16, rest);
  }

  lemma {:induction false} OneUnitRead(c: char, rest: string)
    requires c as int < 0x10000
    ensures ReadUnits(HexUnit(c as int) + rest) == Ok(c, rest)
  {
    UnitBack(c as int, rest);
    assert (HexUnit(c as int) + rest)[4..] == rest;
  }

  lemma {:induction false} PairLayout(high: string, low: string, rest: string)
    requires |high| == 4 && |low| == 4
    ensures var s := high + ("\\u" + (low + rest));
            |s| >= 10 && s[4..6] == "\\u" && s[6..] == low + rest && s[10..] == rest
  {
    var s := high + ("\\u" + (low + rest));
    assert s[4..] == "\\u" + (low + rest);
  }

  lemma {:induction false} PairRead(c: char, high: nat, low: nat, rest: string)
    requires 0xD800 <= high < 0xDC00 <= low < 0xE000
    requires c as int == 0x10000 + (high - 0xD800) * 0x400 + (low - 0xDC00)
    ensures ReadUnits(HexUnit(high) + ("\\u" + (HexUnit(low) + rest))) == Ok(c, rest)
  {
    PairLayout(HexUnit(high), HexUnit(low), rest);
    UnitBack(high, "\\u" + (HexUnit(low) + rest));
    UnitBack(low, rest);
  }

  lemma {:induction false} UnitEscape(s: string)
    ensures ReadEscape(['u'] + s) == ReadUnits(s)
  {
    assert (['u'] + s)[1..] == s;
  }

  /** The escapes of a character's UTF-16 code units, one or a pair, read back as the character. */
  lemma {:induction false} UnitsRead(c: char, rest: string)
    ensures var u := Units(c);
            if |u| == 1 then ReadUnits(HexUnit(u[0]) + rest) == Ok(c, rest)
            else ReadUnits(HexUnit(u[0]) + ("\\u" + (HexUnit(u[1]) + rest))) == Ok(c, rest)
  {
    var u := Units(c);
    if |u| == 1 { OneUnitRead(c, rest); } else { PairRead(c, u[0], u[1], rest); }
  }

  /** No string in the value, and no name, holds white space. */
  predicate Unspaced(v: Value) {
    match v
    case Str(x) => NoSpace(x)
    case Arr(items) => forall i :: 0 <= i < |items| ==> Unspaced(items[i])
    case Obj(ms) => forall i :: 0 <= i < |ms| ==> NoSpace(ms[i].0) && Unspaced(ms[i].1)
    case _ => true
  }

  predicate NoSpace(s: string) { forall i :: 0 <= i < |s| ==> !Space(s[i]) }

  lemma {:induction false} EscapedNoSpace(s: string)
    requires NoSpace(s)
    ensures NoSpace(Escaped(s))
  {
    if s != "" { EscapedNoSpace(s[1..]); }
  }

  lemma {:induction false} NumberNoSpace(lit: string)
    requires NumberLiteral(lit)
    ensures NoSpace(lit)
  {
    var sign, i, f, e :| Parts(lit, sign, i, f, e);
    assert NoSpace(sign) && NoSpace(i) && NoSpace(f) && NoSpace(e);
  }

  /** Printed text has no white space but what strings hold. */
  lemma {:induction false} DumpCompact(v: Value)
    requires WellFormed(v) && Unspaced(v)
    ensures NoSpace(Dump(v))
    decreases v, 0
  {
    match v
    case Num(lit) => NumberNoSpace(lit);
    case Str(x) => EscapedNoSpace(x);
    case Arr(items) => ItemsCompact(items);
    case Obj(ms) => MembersCompact(ms);
    case _ =>
  }

  lemma {:induction false} ItemsCompact(items: seq<Value>)
    requires forall i :: 0 <= i < |items| ==> WellFormed(items[i]) && Unspaced(items[i])
    ensures NoSpace(DumpItems(items))
    decreases items, 0
  {
    if items != [] {
      DumpCompact(items[0]);
      ItemsCompact(items[1..]);
    }
  }

  lemma {:induction false} MembersCompact(ms: seq<(string, Value)>)
    requires forall i :: 0 <= i < |ms| ==> WellFormed(ms[i].1) && NoSpace(ms[i].0) && Unspaced(ms[i].1)
    ensures NoSpace(DumpMembers(ms))
    decreases ms, 0
  {
    if ms != [] {
      MemberCompact(ms[0]);
      MembersCompact(ms[1..]);
    }
  }

  lemma {:induction false} MemberCompact(m: (string, Value))
    requires WellFormed(m.1) && NoSpace(m.0) && Unspaced(m.1)
    ensures NoSpace(DumpMember(m))
    decreases m, 0
  {
    EscapedNoSpace(m.0);
    DumpCompact(m.1);
    assert NoSpace(Quote(m.0));
  }

  // ----- repeated names

  lemma {:induction false} SetKeyMember(ms: seq<(string, Value)>, k: string, v: Value, m: (string, Value))
    requires DistinctKeys(ms)
    ensures m in SetKey(ms, k, v) <==> if m.0 == k then m.1 == v else m in ms
  {
    if ms != [] {
      assert DistinctKeys(ms[1..]);
      assert ms == [ms[0]] + ms[1..];
      SetKeyMember(ms[1..], k, v, m);
      if ms[0].0 == k {
        assert m in ms[1..] ==> m.0 != k;
      }
    }
  }

  lemma {:induction false} FromPairsKeys(ps: seq<(string, Value)>)
    ensures DistinctKeys(FromPairs(ps))
  {
    if ps != [] {
      var ms := FromPairs(ps[..|ps| - 1]);
      FromPairsKeys(ps[..|ps| - 1]);
      SetKeyNames(ms, ps[|ps| - 1].0, ps[|ps| - 1].1);
      NamesDistinct(ms, ps[|ps| - 1].0, ps[|ps| - 1].1);
    }
  }

  lemma {:induction false} NamesDistinct(ms: seq<(string, Value)>, k: string, v: Value)
    requires DistinctKeys(ms)
    requires NamesOf(SetKey(ms, k, v)) == if k in NamesOf(ms) then NamesOf(ms) else NamesOf(ms) + [k]
    ensures DistinctKeys(SetKey(ms, k, v))
  {
    var r := SetKey(ms, k, v);
    forall i, j | 0 <= i < j < |r| ensures r[i].0 != r[j].0 {
      assert |r| == |NamesOf(r)| && NamesOf(r)[i] == r[i].0 && NamesOf(r)[j] == r[j].0;
      if j < |ms| {
        assert NamesOf(r)[i] == ms[i].0 && NamesOf(r)[j] == ms[j].0;
      } else {
        assert NamesOf(ms)[i] == ms[i].0 && NamesOf(r)[i] in NamesOf(ms);
      }
    }
  }

  /** Of a repeated name the last value counts. */
  lemma {:induction false} LastPairCounts(ps: seq<(string, Value)>, m: (string, Value))
    ensures m in FromPairs(ps) <==>
            exists i :: 0 <= i < |ps| && ps[i] == m && forall j :: i < j < |ps| ==> ps[j].0 != m.0
  {
    if ps != [] {
      var init, last := ps[..|ps| - 1], ps[|ps| - 1];
      LastPairCounts(init, m);
      FromPairsKeys(init);
      SetKeyMember(FromPairs(init), last.0, last.1, m);
      if i :| 0 <= i < |init| && init[i] == m && (forall j :: i < j < |init| ==> init[j].0 != m.0) && last.0 != m.0 {
        assert ps[i] == m && forall j :: i < j < |ps| ==> ps[j].0 != m.0;
      }
      if i :| 0 <= i < |ps| && ps[i] == m && forall j :: i < j < |ps| ==> ps[j].0 != m.0 {
        if i < |init| { assert init[i] == m && forall j :: i < j < |init| ==> init[j].0 != m.0; }
      }
    }
  }
}
