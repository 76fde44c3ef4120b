/**
  JSON values, the canonical printer of the reference verifier, and the reader it is paired with.
  Objects keep their members in insertion order, as the source's dictionaries do, and number
  tokens keep their literal.
 */
module Json {
  import opened Sorting
  import opened Utf16
  import opened Wrappers

  datatype Value =
    | Null
    | Bool(b: bool)
    | Num(literal: string)
    | Str(s: string)
    | Arr(items: seq<Value>)
    | Obj(members: seq<(string, Value)>)

  // ----- number tokens (section 6 of RFC 8259)

  predicate Digit(c: char) { '0' <= c <= '9' }

  predicate AllDigits(s: string) { forall i :: 0 <= i < |s| ==> Digit(s[i]) }

  predicate IntPart(s: string) { s == "0" || (s != "" && s[0] != '0' && AllDigits(s)) }

  predicate FracPart(s: string) { s == "" || (|s| > 1 && s[0] == '.' && AllDigits(s[1..])) }

  predicate ExpPart(s: string) {
    s == "" || (|s| > 1 && (s[0] == 'e' || s[0] == 'E') &&
                ((s[1] != '+' && s[1] != '-' && AllDigits(s[1..])) ||
                 (|s| > 2 && (s[1] == '+' || s[1] == '-') && AllDigits(s[2..]))))
  }

  ghost predicate Parts(lit: string, sign: string, i: string, f: string, e: string) {
    && (sign == "" || sign == "-") && IntPart(i) && FracPart(f) && ExpPart(e)
    && lit == sign + i + f + e
  }

  ghost predicate NumberLiteral(lit: string) {
    exists sign, i, f, e :: Parts(lit, sign, i, f, e)
  }

  /** Keys are unique in every object and every number token is in the grammar. */
  ghost predicate WellFormed(v: Value) {
    match v
    case Num(lit) => NumberLiteral(lit)
    case Arr(items) => forall i :: 0 <= i < |items| ==> WellFormed(items[i])
    case Obj(ms) => DistinctKeys(ms) && forall i :: 0 <= i < |ms| ==> WellFormed(ms[i].1)
    case _ => true
  }

  // ----- printing

  function HexDigit(n: nat): char
    requires n < 16
  {
    "0123456789abcdef"[n]
  }

  function EscapeChar(c: char): string {
    if c == '"' then "\\\""
    else if c == '\\' then "\\\\"
    else if c as int == 8 then "\\b"
    else if c as int == 12 then "\\f"
    else if c == '\n' then "\\n"
    else if c == '\r' then "\\r"
    else if c == '\t' then "\\t"
    else if c as int < 0x20 then "\\u00" + [HexDigit(c as int / 16), HexDigit(c as int % 16)]
    else [c]
  }

  function Escaped(s: string): string {
    if s == "" then "" else EscapeChar(s[0]) + Escaped(s[1..])
  }

  function Quote(s: string): string { "\"" + Escaped(s) + "\"" }

  /** Prints a value with the members of every object in the order they are stored. */
  function Dump(v: Value): string {
    match v
    case Null => "null"
    case Bool(b) => if b then "true" else "false"
    case Num(lit) => lit
    case Str(s) => Quote(s)
    case Arr(items) => "[" + DumpItems(items) + "]"
    case Obj(ms) => "{" + DumpMembers(ms) + "}"
  }

  function DumpItems(items: seq<Value>): string {
    if items == [] then ""
    else if |items| == 1 then Dump(items[0])
    else Dump(items[0]) + "," + DumpItems(items[1..])
  }

  function DumpMember(m: (string, Value)): string { Quote(m.0) + ":" + Dump(m.1) }

  function DumpMembers(ms: seq<(string, Value)>): string {
    if ms == [] then ""
    else if |ms| == 1 then DumpMember(ms[0])
    else DumpMember(ms[0]) + "," + DumpMembers(ms[1..])
  }

  /** The same value with the members of every object arranged by UTF-16 name order. */
  function Ordered(v: Value): Value {
    match v
    case Arr(items) => Arr(OrderedItems(items))
    case Obj(ms) => Obj(Sort(NameLess, OrderedMembers(ms)))
    case _ => v
  }

  function OrderedItems(items: seq<Value>): (r: seq<Value>)
    ensures |r| == |items|
    ensures forall i :: 0 <= i < |items| ==> r[i] == Ordered(items[i])
  {
    if items == [] then [] else [Ordered(items[0])] + OrderedItems(items[1..])
  }

  function OrderedMember(m: (string, Value)): (string, Value) { (m.0, Ordered(m.1)) }

  function OrderedMembers(ms: seq<(string, Value)>): (r: seq<(string, Value)>)
    ensures |r| == |ms|
    ensures forall i :: 0 <= i < |ms| ==> r[i] == OrderedMember(ms[i])
  {
    if ms == [] then [] else [OrderedMember(ms[0])] + OrderedMembers(ms[1..])
  }

  /** Canonical text. */
  function Canon(v: Value): string { Dump(Ordered(v)) }

  // ----- the reference implementation, in its own form

  lemma EscapedAppend(s: string, c: char)
    ensures Escaped(s + [c]) == Escaped(s) + EscapeChar(c)
  {
    if s == "" {
      assert s + [c] == [c];
    } else {
      assert (s + [c])[1..] == s[1..] + [c];
      EscapedAppend(s[1..], c);
    }
  }

  method EscapeString(value: string) returns (out: string)
    ensures out == Quote(value)
  {
    var body := "";
    for i := 0 to |value|
      invariant body == Escaped(value[..i])
    {
      assert value[..i + 1] == value[..i] + [value[i]];
      EscapedAppend(value[..i], value[i]);
      var piece := EscapeChar(value[i]);
      body := body + piece;
    }
    assert value[..|value|] == value;
    out := "\"" + body + "\"";
  }

  function Join(parts: seq<string>): string {
    if parts == [] then ""
    else if |parts| == 1 then parts[0]
    else parts[0] + "," + Join(parts[1..])
  }

  lemma JoinItems(items: seq<Value>, parts: seq<string>)
    requires |items| == |parts|
    requires forall i :: 0 <= i < |items| ==> parts[i] == Dump(items[i])
    ensures Join(parts) == DumpItems(items)
  {
    if |items| > 1 { JoinItems(items[1..], parts[1..]); }
  }

  lemma JoinMembers(ms: seq<(string, Value)>, parts: seq<string>)
    requires |ms| == |parts|
    requires forall i :: 0 <= i < |ms| ==> parts[i] == DumpMember(ms[i])
    ensures Join(parts) == DumpMembers(ms)
  {
    if |ms| > 1 { JoinMembers(ms[1..], parts[1..]); }
  }

  /** Canonicalizing the values of an object commutes with sorting its names. */
  lemma OrderedSort(s: seq<(string, Value)>)
    ensures Sort(NameLess, OrderedMembers(s)) == OrderedMembers(Sort(NameLess, s))
  {
    assert OrderedMembers(s) == MapValues(Ordered, s);
    assert OrderedMembers(Sort(NameLess, s)) == MapValues(Ordered, Sort(NameLess, s));
    SortMap(NameLess, Ordered, s);
  }

  lemma SortedMember(ms: seq<(string, Value)>, i: nat)
    requires i < |ms|
    ensures Sort(NameLess, ms)[i] in ms
  {
    SortMembers(NameLess, ms);
    assert Sort(NameLess, ms)[i] in Sort(NameLess, ms);
  }

  /**
    The recursive canonicalizer: sorts the names of each object first and appends one part per name.
    It prints exactly the reordered value.
   */
  method Canonicalize(v: Value) returns (text: string)
    ensures text == Canon(v)
    decreases v, 0
  {
    match v
    case Null => text := "null";
    case Bool(b) => text := if b then "true" else "false";
    case Num(lit) => text := lit;
    case Str(s) => text := EscapeString(s);
    case Arr(items) =>
      var parts := ItemParts(items);
      JoinItems(OrderedItems(items), parts);
      text := "[" + Join(parts) + "]";
    case Obj(ms) =>
      var parts := MemberParts(ms);
      JoinMembers(OrderedMembers(Sort(NameLess, ms)), parts);
      OrderedSort(ms);
      text := "{" + Join(parts) + "}";
  }

  method ItemParts(items: seq<Value>) returns (parts: seq<string>)
    ensures |parts| == |items| && forall j :: 0 <= j < |items| ==> parts[j] == Canon(items[j])
    decreases items, 1
  {
    parts := [];
    for i := 0 to |items|
      invariant |parts| == i
      invariant forall j :: 0 <= j < i ==> parts[j] == Canon(items[j])
    {
      var part := Canonicalize(items[i]);
      parts := parts + [part];
    }
  }

  method MemberParts(ms: seq<(string, Value)>) returns (parts: seq<string>)
    ensures |parts| == |ms|
    ensures forall j :: 0 <= j < |ms| ==> parts[j] == DumpMember(OrderedMember(Sort(NameLess, ms)[j]))
    decreases ms, 1
  {
    var sorted := Sort(NameLess, ms);
    parts := [];
    for i := 0 to |sorted|
      invariant |parts| == i
      invariant forall j :: 0 <= j < i ==> parts[j] == DumpMember(OrderedMember(sorted[j]))
    {
      SortedMember(ms, i);
      var part := MemberPart(sorted[i]);
      parts := parts + [part];
    }
  }

  method MemberPart(m: (string, Value)) returns (part: string)
    ensures part == DumpMember(OrderedMember(m))
    decreases m, 1
  {
    var name := EscapeString(m.0);
    var text := Canonicalize(m.1);
    part := name + ":" + text;
  }

  // ----- reading

  datatype Read<T> = Fail | Ok(value: T, rest: string)

  predicate Space(c: char) { c == ' ' || c == '\t' || c == '\n' || c == '\r' }

  function SkipSpace(s: string): (r: string)
    ensures |r| <= |s|
    ensures s == "" || !Space(s[0]) ==> r == s
  {
    if s != "" && Space(s[0]) then SkipSpace(s[1..]) else s
  }

  function DigitRun(s: string): (n: nat)
    ensures n <= |s| && AllDigits(s[..n])
    ensures n < |s| ==> !Digit(s[n])
  {
    if s == "" || !Digit(s[0]) then 0
    else
      var n := DigitRun(s[1..]);
      assert s[..n + 1] == [s[0]] + s[1..][..n];
      1 + n
  }

  /** Length of the fraction at the head of `s`, 0 when there is none. */
  function FracLen(s: string): (n: nat)
    ensures n <= |s|
  {
    if |s| > 1 && s[0] == '.' && Digit(s[1]) then 1 + DigitRun(s[1..]) else 0
  }

  function ExpLen(s: string): (n: nat)
    ensures n <= |s|
  {
    if |s| > 1 && (s[0] == 'e' || s[0] == 'E') then
      var sign := if s[1] == '+' || s[1] == '-' then 1 else 0;
      if |s| > 1 + sign && Digit(s[1 + sign]) then 1 + sign + DigitRun(s[1 + sign..]) else 0
    else 0
  }

  function SignLen(s: string): (n: nat)
    ensures n <= |s|
  {
    if s != "" && s[0] == '-' then 1 else 0
  }

  function IntLen(s: string): (n: nat)
    ensures n <= |s|
  {
    if s == "" || !Digit(s[0]) then 0 else if s[0] == '0' then 1 else DigitRun(s)
  }

  /** Length of the fraction and exponent at the head of `s`. */
  function ScaleLen(s: string): (n: nat)
    ensures n <= |s|
  {
    FracLen(s) + ExpLen(s[FracLen(s)..])
  }

  /** Length of the unsigned number at the head of `s`, 0 when there is none. */
  function MagnitudeLen(s: string): (n: nat)
    ensures n <= |s|
  {
    if IntLen(s) == 0 then 0 else IntLen(s) + ScaleLen(s[IntLen(s)..])
  }

  /** Length of the number token at the head of `s`, 0 when there is none. */
  function NumberLen(s: string): (n: nat)
    ensures n <= |s|
  {
    var m := MagnitudeLen(s[SignLen(s)..]);
    if m == 0 then 0 else SignLen(s) + m
  }

  function HexValue(c: char): (n: int)
    ensures -1 <= n < 16
  {
    if '0' <= c <= '9' then c as int - '0' as int
    else if 'a' <= c <= 'f' then c as int - 'a' as int + 10
    else if 'A' <= c <= 'F' then c as int - 'A' as int + 10
    else -1
  }

  /** Four hexadecimal digits as a code unit; -1 when they are not. */
  function Unit(s: string): (n: int)
    ensures -1 <= n < 0x10000
  {
    if |s| < 4 || HexValue(s[0]) < 0 || HexValue(s[1]) < 0 || HexValue(s[2]) < 0 || HexValue(s[3]) < 0 then -1
    else HexValue(s[0]) * 4096 + HexValue(s[1]) * 256 + HexValue(s[2]) * 16 + HexValue(s[3])
  }

  /** One code unit, or a surrogate pair, after the `u` of an escape. */
  function ReadUnits(s: string): (r: Read<char>)
    ensures r.Ok? ==> |r.rest| < |s|
  {
    var u := Unit(s);
    if u < 0 then Fail
    else if u < 0xD800 || u >= 0xE000 then Ok(u as char, s[4..])
    else if u < 0xDC00 && |s| >= 6 && s[4..6] == "\\u" then
      var w := Unit(s[6..]);
      if 0xDC00 <= w < 0xE000 then Ok((0x10000 + (u - 0xD800) * 0x400 + (w - 0xDC00)) as char, s[10..]) else Fail
    else Fail
  }

  /** What follows a backslash inside a string. */
  function ReadEscape(s: string): (r: Read<char>)
    ensures r.Ok? ==> |r.rest| < |s|
  {
    if s == "" then Fail
    else match s[0]
      case '"' => Ok('"', s[1..])
      case '\\' => Ok('\\', s[1..])
      case '/' => Ok('/', s[1..])
      case 'b' => Ok(8 as char, s[1..])
      case 'f' => Ok(12 as char, s[1..])
      case 'n' => Ok('\n', s[1..])
      case 'r' => Ok('\r', s[1..])
      case 't' => Ok('\t', s[1..])
      case 'u' => ReadUnits(s[1..])
      case _ => Fail
  }

  /** The rest of a string token, after its opening quotation mark. */
  function ReadChars(s: string): (r: Read<string>)
    ensures r.Ok? ==> |r.rest| < |s|
    decreases |s|
  {
    if s == "" then Fail
    else if s[0] == '"' then Ok("", s[1..])
    else if s[0] as int < 0x20 then Fail
    else
      var first := if s[0] == '\\' then ReadEscape(s[1..]) else Ok(s[0], s[1..]);
      if first.Fail? then Fail
      else
        var tail := ReadChars(first.rest);
        if tail.Fail? then Fail else Ok([first.value] + tail.value, tail.rest)
  }

  /** The dictionary built from a sequence of pairs. */
  function FromPairs<V>(ps: seq<(string, V)>): (r: seq<(string, V)>) {
    if ps == [] then [] else SetKey(FromPairs(ps[..|ps| - 1]), ps[|ps| - 1].0, ps[|ps| - 1].1)
  }

  function ReadValue(s: string): (r: Read<Value>)
    ensures r.Ok? ==> |r.rest| < |s|
    decreases |s|, 1
  {
    if s == "" then Fail
    else if s[0] == '"' then
      var t := ReadChars(s[1..]);
      if t.Fail? then Fail else Ok(Str(t.value), t.rest)
    else if s[0] == '{' then
      var t := SkipSpace(s[1..]);
      if t != "" && t[0] == '}' then Ok(Obj([]), t[1..])
      else
        var ms := ReadMembers(t);
        if ms.Fail? then Fail else Ok(Obj(FromPairs(ms.value)), ms.rest)
    else if s[0] == '[' then
      var t := SkipSpace(s[1..]);
      if t != "" && t[0] == ']' then Ok(Arr([]), t[1..])
      else
        var items := ReadItems(t);
        if items.Fail? then Fail else Ok(Arr(items.value), items.rest)
    else if "null" <= s then Ok(Null, s[4..])
    else if "true" <= s then Ok(Bool(true), s[4..])
    else if "false" <= s then Ok(Bool(false), s[5..])
    else
      var n := NumberLen(s);
      if n == 0 then Fail else Ok(Num(s[..n]), s[n..])
  }

  /** One or more comma-separated values up to and including the closing bracket. */
  function ReadItems(s: string): (r: Read<seq<Value>>)
    ensures r.Ok? ==> |r.rest| < |s| && r.value != []
    decreases |s|, 2
  {
    var v := ReadValue(s);
    if v.Fail? then Fail
    else
      var t := SkipSpace(v.rest);
      if t == "" then Fail
      else if t[0] == ']' then Ok([v.value], t[1..])
      else if t[0] != ',' then Fail
      else
        var tail := ReadItems(SkipSpace(t[1..]));
        if tail.Fail? then Fail else Ok([v.value] + tail.value, tail.rest)
  }

  /** One name, colon and value. */
  function ReadMember(s: string): (r: Read<(string, Value)>)
    ensures r.Ok? ==> |r.rest| < |s|
    decreases |s|, 2
  {
    if s == "" || s[0] != '"' then Fail
    else
      var k := ReadChars(s[1..]);
      if k.Fail? then Fail
      else
        var t := SkipSpace(k.rest);
        if t == "" || t[0] != ':' then Fail
        else
          var v := ReadValue(SkipSpace(t[1..]));
          if v.Fail? then Fail else Ok((k.value, v.value), v.rest)
  }

  function ReadMembers(s: string): (r: Read<seq<(string, Value)>>)
    ensures r.Ok? ==> |r.rest| < |s| && r.value != []
    decreases |s|, 3
  {
    var m := ReadMember(s);
    if m.Fail? then Fail
    else
      var t := SkipSpace(m.rest);
      if t == "" then Fail
      else if t[0] == '}' then Ok([m.value], t[1..])
      else if t[0] != ',' then Fail
      else
        var tail := ReadMembers(SkipSpace(t[1..]));
        if tail.Fail? then Fail else Ok([m.value] + tail.value, tail.rest)
  }

  /** A whole JSON text: one value between optional white space. */
  function ReadText(s: string): (r: Read<Value>) {
    var v := ReadValue(SkipSpace(s));
    if v.Fail? || SkipSpace(v.rest) != "" then Fail else Ok(v.value, "")
  }
}
