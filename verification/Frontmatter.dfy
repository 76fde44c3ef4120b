/**
  The indentation parser for SKILL.md frontmatter: nested maps and scalar lists read from indented
  lines by two mutually nested loops, and the printer it inverts.
 */
module Frontmatter {
  import opened HostText
  import opened Sorting
  import opened Wrappers

  datatype Tree = Scalar(text: string) | List(items: seq<string>) | Map(entries: seq<(string, Tree)>)

  /** A line that is neither blank nor a comment: its indentation and its trimmed text. */
  datatype Line = Line(indent: nat, text: string)

  // ----- text helpers

  function StripLeft(drop: char -> bool, s: string): (r: string)
    ensures |r| <= |s|
    ensures s == "" || !drop(s[0]) ==> r == s
  {
    if s != "" && drop(s[0]) then StripLeft(drop, s[1..]) else s
  }

  function StripRight(drop: char -> bool, s: string): (r: string)
    ensures |r| <= |s|
    ensures s == "" || !drop(s[|s| - 1]) ==> r == s
  {
    if s != "" && drop(s[|s| - 1]) then StripRight(drop, s[..|s| - 1]) else s
  }

  function Strip(drop: char -> bool, s: string): string { StripRight(drop, StripLeft(drop, s)) }

  predicate Quote(c: char) { c == '"' || c == '\'' }

  function Trim(s: string): string { Strip(Space, s) }

  function ScalarOf(s: string): string { Strip(Quote, Trim(s)) }

  predicate IsItem(text: string) { |text| >= 2 && text[0] == '-' && text[1] == ' ' }

  /** A line of raw text as the reader keeps it. */
  function Prepare(raw: string): Line {
    Line(|raw| - |StripLeft(Space, raw)|, Trim(raw))
  }

  predicate Kept(raw: string) { Trim(raw) != "" && Trim(raw)[0] != '#' }

  // ----- the parser on the remaining lines

  /** The list items at the head of `ls`, and what follows them. */
  function ListOf(ls: seq<Line>, indent: nat, acc: seq<string>): (r: (seq<string>, seq<Line>))
    ensures |r.1| <= |ls|
    decreases |ls|
  {
    if ls == [] || ls[0].indent != indent || !IsItem(ls[0].text) then (acc, ls)
    else ListOf(ls[1..], indent, acc + [ScalarOf(ls[0].text[2..])])
  }

  predicate Ignored(l: Line, indent: nat) {
    l.indent != indent || IsItem(l.text) || First(l.text, ':') == |l.text|
  }

  function KeyOf(text: string): string { Trim(text[..First(text, ':')]) }

  function ValueOf(text: string): string
    requires First(text, ':') < |text|
  {
    Trim(text[First(text, ':') + 1..])
  }

  /** The value of a key whose own line holds none: what the following lines spell. */
  function ChildOf(ls: seq<Line>, indent: nat): (r: (Tree, seq<Line>))
    ensures |r.1| <= |ls|
    decreases |ls|, 2
  {
    if ls == [] || ls[0].indent <= indent then (Map([]), ls)
    else if IsItem(ls[0].text) then
      var (items, rest) := ListOf(ls, ls[0].indent, []);
      (List(items), rest)
    else
      var (es, rest) := MapOf(ls, ls[0].indent, []);
      (Map(es), rest)
  }

  /** The value of the key line at the head of `ls`, and the lines after it. */
  function EntryOf(ls: seq<Line>, indent: nat): (r: (Tree, seq<Line>))
    requires ls != [] && !Ignored(ls[0], indent)
    ensures |r.1| < |ls|
    decreases |ls|, 0
  {
    if ValueOf(ls[0].text) != "" then (Scalar(ScalarOf(ValueOf(ls[0].text))), ls[1..])
    else ChildOf(ls[1..], indent)
  }

  /** The map at the head of `ls`, and what follows it. */
  function MapOf(ls: seq<Line>, indent: nat, acc: seq<(string, Tree)>): (r: (seq<(string, Tree)>, seq<Line>))
    ensures |r.1| <= |ls|
    decreases |ls|, 1
  {
    if ls == [] || ls[0].indent < indent then (acc, ls)
    else if Ignored(ls[0], indent) then MapOf(ls[1..], indent, acc)
    else
      var (v, rest) := EntryOf(ls, indent);
      MapOf(rest, indent, SetKey(acc, KeyOf(ls[0].text), v))
  }

  // ----- the parser of the source: loops over an index

  lemma ListUnfold(lines: seq<Line>, i: nat, indent: nat, acc: seq<string>)
    requires i < |lines|
    ensures ListOf(lines[i..], indent, acc) ==
            if lines[i].indent != indent || !IsItem(lines[i].text) then (acc, lines[i..])
            else ListOf(lines[i + 1..], indent, acc + [ScalarOf(lines[i].text[2..])])
  {
    assert lines[i..][0] == lines[i] && lines[i..][1..] == lines[i + 1..];
  }

  method ParseList(lines: seq<Line>, start: nat, indent: nat) returns (values: seq<string>, index: nat)
    requires start <= |lines|
    ensures start <= index <= |lines|
    ensures (values, lines[index..]) == ListOf(lines[start..], indent, [])
  {
    values, index := [], start;
    while index < |lines|
      invariant start <= index <= |lines|
      invariant ListOf(lines[start..], indent, []) == ListOf(lines[index..], indent, values)
    {
      var l := lines[index];
      ListUnfold(lines, index, indent, values);
      if l.indent != indent || !IsItem(l.text) {
        return;
      }
      values := values + [ScalarOf(l.text[2..])];
      index := index + 1;
    }
    assert lines[index..] == [];
  }

  method ParseMap(lines: seq<Line>, start: nat, indent: nat) returns (result: seq<(string, Tree)>, index: nat)
    requires start <= |lines|
    ensures start <= index <= |lines|
    ensures (result, lines[index..]) == MapOf(lines[start..], indent, [])
    decreases |lines| - start, 1
  {
    result, index := [], start;
    while index < |lines|
      invariant start <= index <= |lines|
      invariant MapOf(lines[start..], indent, []) == MapOf(lines[index..], indent, result)
      decreases |lines| - index
    {
      var l := lines[index];
      assert lines[index..][0] == l && lines[index..][1..] == lines[index + 1..];
      if l.indent < indent {
        break;
      }
      if Ignored(l, indent) {
        index := index + 1;
        continue;
      }
      var key := KeyOf(l.text);
      var value;
      value, index := ParseEntry(lines, index, indent);
      result := SetKey(result, key, value);
    }
  }

  /** The value of the key line at `start`: its own scalar, or the nested list or map after it. */
  method ParseEntry(lines: seq<Line>, start: nat, indent: nat) returns (value: Tree, index: nat)
    requires start < |lines| && !Ignored(lines[start], indent)
    ensures start < index <= |lines|
    ensures (value, lines[index..]) == EntryOf(lines[start..], indent)
    decreases |lines| - start, 0
  {
    var text := ValueOf(lines[start].text);
    assert lines[start..][0] == lines[start] && lines[start..][1..] == lines[start + 1..];
    index := start + 1;
    if text != "" {
      value := Scalar(ScalarOf(text));
    } else if index >= |lines| || lines[index].indent <= lines[start].indent {
      assert index < |lines| ==> lines[index..][0] == lines[index];
      value := Map([]);
    } else {
      assert lines[index..][0] == lines[index];
      if IsItem(lines[index].text) {
        var items;
        items, index := ParseList(lines, index, lines[index].indent);
        value := List(items);
      } else {
        var es;
        es, index := ParseMap(lines, index, lines[index].indent);
        value := Map(es);
      }
    }
  }

  /** The whole frontmatter: the first kept line fixes the outer indentation. */
  function Parse(ls: seq<Line>): seq<(string, Tree)> {
    if ls == [] then [] else MapOf(ls, ls[0].indent, []).0
  }

  // ----- the printer

  function Print(es: seq<(string, Tree)>, indent: nat): seq<Line> {
    if es == [] then [] else PrintEntry(es[0], indent) + Print(es[1..], indent)
  }

  function PrintEntry(e: (string, Tree), indent: nat): seq<Line> {
    match e.1
    case Scalar(s) => [Line(indent, e.0 + ": " + s)]
    case List(items) => [Line(indent, e.0 + ":")] + PrintItems(items, indent + 2)
    case Map(es) => [Line(indent, e.0 + ":")] + Print(es, indent + 2)
  }

  function PrintItems(items: seq<string>, indent: nat): seq<Line> {
    if items == [] then [] else [Line(indent, "- " + items[0])] + PrintItems(items[1..], indent)
  }

  /** The characters at which a text is split into lines. */
  predicate LineBreak(c: char) {
    var n := c as int;
    0x0A <= n <= 0x0D || 0x1C <= n <= 0x1E || n == 0x85 || n == 0x2028 || n == 0x2029
  }

  predicate OneLine(s: string) { forall i :: 0 <= i < |s| ==> !LineBreak(s[i]) }

  predicate Trimmed(s: string) { s == "" || (!Space(s[0]) && !Space(s[|s| - 1])) }

  /** A scalar that survives: not empty, on one line, trimmed, and without a quotation mark at either end. */
  predicate PlainScalar(s: string) {
    s != "" && OneLine(s) && Trimmed(s) && !Quote(s[0]) && !Quote(s[|s| - 1])
  }

  predicate PlainKey(k: string) {
    OneLine(k) && Trimmed(k) && ':' !in k && !IsItem(k) && (k != "" ==> k[0] != '#')
  }

  predicate PlainEntries(es: seq<(string, Tree)>) {
    DistinctKeys(es) && forall i :: 0 <= i < |es| ==> PlainEntry(es[i])
  }

  predicate PlainEntry(e: (string, Tree)) {
    PlainKey(e.0) &&
    match e.1
    case Scalar(s) => PlainScalar(s)
    case List(items) => items != [] && forall i :: 0 <= i < |items| ==> PlainScalar(items[i])
    case Map(es) => PlainEntries(es)
  }

  // ----- parsing what was printed

  lemma TrimFixed(s: string)
    requires Trimmed(s)
    ensures Trim(s) == s
  {
  }

  lemma ScalarFixed(s: string)
    requires PlainScalar(s)
    ensures ScalarOf(s) == s
  {
  }

  /** A plain key in front of a colon: no list item, and the colon is the first one. */
  lemma {:induction false} KeyHead(k: string, t: string)
    requires PlainKey(k)
    ensures !IsItem(k + ":" + t) && First(k + ":" + t, ':') == |k|
    ensures (k + ":" + t)[..|k|] == k && (k + ":" + t)[|k| + 1..] == t
  {
    var s := k + ":" + t;
    assert s == k + ([':'] + t);
    FirstExact(k, ':', t);
    assert s[|k|] == ':';
    assert forall i :: 0 <= i < |k| ==> s[i] == k[i];
  }

  /** A printed key line is read as that key and that value. */
  lemma KeyLine(k: string, v: string, indent: nat)
    requires PlainKey(k) && Trimmed(v)
    ensures var text := if v == "" then k + ":" else k + ": " + v;
            !Ignored(Line(indent, text), indent) && KeyOf(text) == k && ValueOf(text) == v
  {
    var t := if v == "" then "" else " " + v;
    assert (if v == "" then k + ":" else k + ": " + v) == k + ":" + t;
    KeyHead(k, t);
    TrimFixed(k);
    if v != "" { TrimPadded(v); }
  }

  lemma TrimPadded(v: string)
    requires v != "" && Trimmed(v)
    ensures Trim(" " + v) == v
  {
    var t := " " + v;
    assert t[1..] == v && Space(t[0]);
    assert StripLeft(Space, t) == StripLeft(Space, v) == v;
  }

  lemma ItemsCons(items: seq<string>, indent: nat, rest: seq<Line>)
    requires items != []
    ensures PrintItems(items, indent) + rest ==
            [Line(indent, "- " + items[0])] + (PrintItems(items[1..], indent) + rest)
  {
  }

  lemma ItemParse(item: string, indent: nat, tail: seq<Line>, acc: seq<string>)
    requires PlainScalar(item)
    ensures ListOf([Line(indent, "- " + item)] + tail, indent, acc) == ListOf(tail, indent, acc + [item])
  {
    var ls := [Line(indent, "- " + item)] + tail;
    assert ls[1..] == tail && ("- " + item)[2..] == item;
    ScalarFixed(item);
  }

  /** Reading list items from `ls` ends with `items` in front of `rest`. */
  ghost predicate Lists(ls: seq<Line>, indent: nat, acc: seq<string>, items: seq<string>, rest: seq<Line>) {
    ListOf(ls, indent, acc) == (items, rest)
  }

  lemma ListEnds(rest: seq<Line>, indent: nat, acc: seq<string>)
    requires rest == [] || rest[0].indent < indent
    ensures Lists(rest, indent, acc, acc, rest)
  {
  }

  lemma ListExtends(item: string, indent: nat, tail: seq<Line>, acc: seq<string>, items: seq<string>, rest: seq<Line>)
    requires PlainScalar(item) && Lists(tail, indent, acc + [item], items, rest)
    ensures Lists([Line(indent, "- " + item)] + tail, indent, acc, items, rest)
  {
    ItemParse(item, indent, tail, acc);
  }

  lemma {:induction false} ItemsParse(items: seq<string>, indent: nat, rest: seq<Line>, acc: seq<string>)
    requires forall i :: 0 <= i < |items| ==> PlainScalar(items[i])
    requires rest == [] || rest[0].indent < indent
    ensures Lists(PrintItems(items, indent) + rest, indent, acc, acc + items, rest)
  {
    if items == [] {
      ListEnds(rest, indent, acc);
      assert PrintItems(items, indent) + rest == rest && acc + items == acc;
    } else {
      var tail := PrintItems(items[1..], indent) + rest;
      ItemsParse(items[1..], indent, rest, acc + [items[0]]);
      assert acc + [items[0]] + items[1..] == acc + items;
      ListExtends(items[0], indent, tail, acc, acc + items, rest);
      ItemsCons(items, indent, rest);
    }
  }

  lemma PrintHead(es: seq<(string, Tree)>, indent: nat)
    requires es != []
    ensures Print(es, indent) != [] && Print(es, indent)[0].indent == indent
  {
  }

  lemma FirstText(es: seq<(string, Tree)>, indent: nat)
    requires es != [] && PlainEntries(es)
    ensures Print(es, indent) != [] && !IsItem(Print(es, indent)[0].text)
  {
    var e := es[0];
    assert PlainEntry(e);
    match e.1
    case Scalar(s) => KeyLine(e.0, s, indent);
    case _ => KeyLine(e.0, "", indent);
  }

  lemma {:induction false} ListParses(items: seq<string>, indent: nat, rest: seq<Line>)
    requires items != [] && (forall i :: 0 <= i < |items| ==> PlainScalar(items[i]))
    requires rest == [] || rest[0].indent <= indent
    ensures ChildOf(PrintItems(items, indent + 2) + rest, indent) == (List(items), rest)
  {
    var ls := PrintItems(items, indent + 2);
    ItemsCons(items, indent + 2, rest);
    assert (ls + rest)[0] == Line(indent + 2, "- " + items[0]);
    ItemsParse(items, indent + 2, rest, []);
    assert [] + items == items;
  }

  /** Parsing the printed form of a child gives the child back. */
  lemma {:induction false} ChildParse(e: (string, Tree), indent: nat, rest: seq<Line>)
    requires PlainEntry(e) && !e.1.Scalar?
    requires rest == [] || rest[0].indent <= indent
    ensures ChildOf(PrintEntry(e, indent)[1..] + rest, indent) == (e.1, rest)
    decreases e, 0
  {
    match e.1
    case List(items) =>
      assert PrintEntry(e, indent)[1..] == PrintItems(items, indent + 2);
      ListParses(items, indent, rest);
    case Map(es) =>
      assert PrintEntry(e, indent)[1..] == Print(es, indent + 2);
      if es == [] {
        assert Print(es, indent + 2) + rest == rest;
      } else {
        assert [] + es == es;
        EntriesParse(es, indent + 2, rest, []);
        MapParses(es, indent, rest);
      }
  }

  lemma {:induction false} MapParses(es: seq<(string, Tree)>, indent: nat, rest: seq<Line>)
    requires PlainEntries(es) && es != []
    requires MapOf(Print(es, indent + 2) + rest, indent + 2, []) == (es, rest)
    ensures ChildOf(Print(es, indent + 2) + rest, indent) == (Map(es), rest)
  {
    var ls := Print(es, indent + 2);
    PrintHead(es, indent + 2);
    FirstText(es, indent + 2);
    assert (ls + rest)[0] == ls[0];
  }

  /** One printed entry in front of other lines adds that entry. */
  lemma EntryStep(e: (string, Tree), indent: nat, after: seq<Line>, acc: seq<(string, Tree)>)
    requires PlainEntry(e) && forall i :: 0 <= i < |acc| ==> acc[i].0 != e.0
    requires e.1.Scalar? || ChildOf(PrintEntry(e, indent)[1..] + after, indent) == (e.1, after)
    ensures MapOf(PrintEntry(e, indent) + after, indent, acc) == MapOf(after, indent, acc + [e])
  {
    var ls := PrintEntry(e, indent) + after;
    SetKeyFresh(acc, e.0, e.1);
    assert ls[0] == PrintEntry(e, indent)[0];
    assert ls[1..] == PrintEntry(e, indent)[1..] + after;
    if e.1.Scalar? {
      KeyLine(e.0, e.1.text, indent);
      ScalarFixed(e.1.text);
      assert ls[1..] == after;
    } else {
      KeyLine(e.0, "", indent);
    }
  }

  lemma AfterIndent(tail: seq<(string, Tree)>, indent: nat, rest: seq<Line>)
    requires rest == [] || rest[0].indent < indent
    ensures var after := Print(tail, indent) + rest; after == [] || after[0].indent <= indent
  {
    if tail != [] {
      PrintHead(tail, indent);
    } else {
      assert Print(tail, indent) + rest == rest;
    }
  }

  /** Parsing a printed map in front of shallower lines gives the map back and stops there. */
  lemma {:induction false} EntriesParse(es: seq<(string, Tree)>, indent: nat, rest: seq<Line>, acc: seq<(string, Tree)>)
    requires PlainEntries(es) && DistinctKeys(acc + es)
    requires rest == [] || rest[0].indent < indent
    ensures MapOf(Print(es, indent) + rest, indent, acc) == (acc + es, rest)
    decreases es, 1
  {
    if es == [] {
      assert Print(es, indent) + rest == rest && acc + es == acc;
    } else {
      var e, tail := es[0], es[1..];
      var after := Print(tail, indent) + rest;
      PrintCons(es, indent, rest);
      FreshKey(acc, es);
      PlainTail(es);
      EntriesParse(tail, indent, rest, acc + [e]);
      if !e.1.Scalar? {
        AfterIndent(tail, indent, rest);
        ChildParse(e, indent, after);
      }
      EntryStep(e, indent, after, acc);
    }
  }

  lemma PrintCons(es: seq<(string, Tree)>, indent: nat, rest: seq<Line>)
    requires es != []
    ensures Print(es, indent) + rest == PrintEntry(es[0], indent) + (Print(es[1..], indent) + rest)
  {
  }

  lemma FreshKey(acc: seq<(string, Tree)>, es: seq<(string, Tree)>)
    requires es != [] && DistinctKeys(acc + es)
    ensures acc + es == acc + [es[0]] + es[1..]
    ensures forall i :: 0 <= i < |acc| ==> acc[i].0 != es[0].0
  {
    var all := acc + es;
    forall i | 0 <= i < |acc| ensures acc[i].0 != es[0].0 {
      assert all[i] == acc[i] && all[|acc|] == es[0];
    }
  }

  lemma PlainTail(es: seq<(string, Tree)>)
    requires es != [] && PlainEntries(es)
    ensures PlainEntry(es[0]) && PlainEntries(es[1..])
  {
    assert forall i :: 0 <= i < |es[1..]| ==> es[1..][i] == es[i + 1];
  }

  /** Printing any plain tree and parsing the lines gives the tree back, at any indentation. */
  lemma {:induction false} ParsePrint(es: seq<(string, Tree)>, indent: nat)
    requires PlainEntries(es)
    ensures Parse(Print(es, indent)) == es
  {
    var ls := Print(es, indent);
    if es != [] {
      PrintHead(es, indent);
      assert [] + es == es && ls + [] == ls;
      EntriesParse(es, indent, [], []);
    }
  }

  // ----- raw lines

  function Spaces(n: nat): string { seq(n, _ => ' ') }

  function Raw(l: Line): string { Spaces(l.indent) + l.text }

  predicate PlainLine(l: Line) {
    l.text != "" && OneLine(l.text) && Trimmed(l.text) && l.text[0] != '#'
  }

  lemma {:induction false} StripSpaces(n: nat, s: string)
    requires s != "" && !Space(s[0])
    ensures StripLeft(Space, Spaces(n) + s) == s
  {
    var t := Spaces(n) + s;
    if n == 0 {
      assert t == s;
    } else {
      assert t[1..] == Spaces(n - 1) + s && t[0] == ' ';
      StripSpaces(n - 1, s);
    }
  }

  lemma PrepareRaw(l: Line)
    requires PlainLine(l)
    ensures Kept(Raw(l)) && Prepare(Raw(l)) == l
  {
    StripSpaces(l.indent, l.text);
  }

  /** The lines the reader keeps, prepared. */
  function ReadLines(raws: seq<string>): seq<Line> {
    if raws == [] then []
    else (if Kept(raws[0]) then [Prepare(raws[0])] else []) + ReadLines(raws[1..])
  }

  function RawLines(ls: seq<Line>): seq<string> {
    seq(|ls|, i requires 0 <= i < |ls| => Raw(ls[i]))
  }

  lemma {:induction false} ReadKept(l: Line, raws: seq<string>)
    requires Kept(Raw(l)) && Prepare(Raw(l)) == l
    ensures ReadLines([Raw(l)] + raws) == [l] + ReadLines(raws)
  {
    assert ([Raw(l)] + raws)[1..] == raws;
  }

  lemma {:induction false} ReadRaw(ls: seq<Line>)
    requires forall i :: 0 <= i < |ls| ==> PlainLine(ls[i])
    ensures ReadLines(RawLines(ls)) == ls
  {
    if ls != [] {
      var l, tail := ls[0], ls[1..];
      PrepareRaw(l);
      ReadRaw(tail);
      assert ls == [l] + tail;
      RawAppend([l], tail);
      assert RawLines([l]) == [Raw(l)];
      ReadKept(l, RawLines(tail));
    }
  }

  lemma {:induction false} PrintPlain(es: seq<(string, Tree)>, indent: nat)
    requires PlainEntries(es)
    ensures forall i :: 0 <= i < |Print(es, indent)| ==> PlainLine(Print(es, indent)[i])
    decreases es, 1
  {
    if es != [] {
      var tail := es[1..];
      PlainTail(es);
      PrintEntryPlain(es[0], indent);
      PrintPlain(tail, indent);
    }
  }

  lemma {:induction false} PrintItemsPlain(items: seq<string>, indent: nat)
    requires forall i :: 0 <= i < |items| ==> PlainScalar(items[i])
    ensures forall i :: 0 <= i < |PrintItems(items, indent)| ==> PlainLine(PrintItems(items, indent)[i])
  {
    if items != [] {
      PrintItemsPlain(items[1..], indent);
      var text := "- " + items[0];
      assert text[0] == '-' && text[|text| - 1] == items[0][|items[0]| - 1];
    }
  }

  lemma {:induction false} PrintEntryPlain(e: (string, Tree), indent: nat)
    requires PlainEntry(e)
    ensures forall i :: 0 <= i < |PrintEntry(e, indent)| ==> PlainLine(PrintEntry(e, indent)[i])
    decreases e, 0
  {
    var head := PrintEntry(e, indent)[0];
    assert head.text[0] == if e.0 == "" then ':' else e.0[0];
    match e.1
    case Scalar(s) => assert head.text[|head.text| - 1] == s[|s| - 1];
    case List(items) =>
      assert head.text[|head.text| - 1] == ':';
      PrintItemsPlain(items, indent + 2);
    case Map(es) =>
      assert head.text[|head.text| - 1] == ':';
      PrintPlain(es, indent + 2);
  }

  /** The same round trip through raw text lines. */
  lemma {:induction false} ParsePrintRaw(es: seq<(string, Tree)>, indent: nat)
    requires PlainEntries(es)
    ensures Parse(ReadLines(RawLines(Print(es, indent)))) == es
  {
    PrintPlain(es, indent);
    ReadRaw(Print(es, indent));
    ParsePrint(es, indent);
  }

  // ----- the whole text

  function BreakAt(s: string): (n: nat)
    ensures n <= |s| && (n < |s| ==> LineBreak(s[n]))
  {
    if s == "" || LineBreak(s[0]) then 0 else 1 + BreakAt(s[1..])
  }

  /** The lines of a text; a carriage return and line feed are one break, and a final break adds no line. */
  function SplitLines(s: string): seq<string>
    decreases |s|
  {
    if s == "" then []
    else
      var n := BreakAt(s);
      if n == |s| then [s]
      else
        var next := if s[n] == '\r' && n + 1 < |s| && s[n + 1] == '\n' then n + 2 else n + 1;
        [s[..n]] + SplitLines(s[next..])
  }

  const FENCE := "---"

  predicate Fenced(s: string) { |s| >= 3 && s[0] == '-' && s[1] == '-' && s[2] == '-' }

  /** The first line feed that is followed by the closing fence. */
  function FenceAt(s: string): (n: Option<nat>)
    ensures n.Some? ==> n.value < |s|
  {
    if s == "" then None
    else if s[0] == '\n' && Fenced(s[1..]) then Some(0)
    else
      var n := FenceAt(s[1..]);
      if n.None? then None else Some(1 + n.value)
  }

  function ParseDocument(text: string): seq<(string, Tree)> {
    if !Fenced(text) then []
    else
      var end := FenceAt(text[|FENCE|..]);
      if end.None? then [] else Parse(ReadLines(SplitLines(text[|FENCE|..][..end.value])))
  }

  lemma {:induction false} ReadUnfold(raws: seq<string>, i: nat, lines: seq<Line>)
    requires i < |raws|
    ensures lines + ReadLines(raws[i..]) ==
            (if Kept(raws[i]) then lines + [Prepare(raws[i])] else lines) + ReadLines(raws[i + 1..])
  {
    var here := if Kept(raws[i]) then [Prepare(raws[i])] else [];
    assert raws[i..][0] == raws[i] && raws[i..][1..] == raws[i + 1..];
    assert ReadLines(raws[i..]) == here + ReadLines(raws[i + 1..]);
    assert lines + (here + ReadLines(raws[i + 1..])) == lines + here + ReadLines(raws[i + 1..]);
  }

  /** The lines that say something, prepared, in order. */
  method KeepLines(raws: seq<string>) returns (lines: seq<Line>)
    ensures lines == ReadLines(raws)
  {
    lines := [];
    for i := 0 to |raws|
      invariant ReadLines(raws) == lines + ReadLines(raws[i..])
    {
      ReadUnfold(raws, i, lines);
      if Kept(raws[i]) {
        lines := lines + [Prepare(raws[i])];
      }
    }
  }

  /** The reader as written: cut at the fences, keep the lines that say something, parse them. */
  method ParseFrontmatter(text: string) returns (result: seq<(string, Tree)>)
    ensures result == ParseDocument(text)
  {
    if !Fenced(text) {
      return [];
    }
    var end := FenceAt(text[|FENCE|..]);
    if end.None? {
      return [];
    }
    var lines := KeepLines(SplitLines(text[|FENCE|..][..end.value]));
    if lines == [] {
      return [];
    }
    var index;
    result, index := ParseMap(lines, 0, lines[0].indent);
    assert lines[0..] == lines;
  }

  /** Lines joined by line feeds. */
  function Joined(parts: seq<string>): string {
    if parts == [] then "" else if |parts| == 1 then parts[0] else parts[0] + (['\n'] + Joined(parts[1..]))
  }

  /** A tree printed between fences, with anything after the closing one. */
  function Document(es: seq<(string, Tree)>, indent: nat, rest: string): string {
    FENCE + (Joined([""] + RawLines(Print(es, indent))) + (['\n'] + (FENCE + rest)))
  }

  lemma {:induction false} BreakExact(a: string, b: string)
    requires OneLine(a) && (b == "" || LineBreak(b[0]))
    ensures BreakAt(a + b) == |a|
  {
    var s := a + b;
    if a == "" {
      assert s == b;
    } else {
      assert s[0] == a[0] && s[1..] == a[1..] + b;
      BreakExact(a[1..], b);
    }
  }

  lemma {:induction false} SplitFirst(p: string, t: string)
    requires OneLine(p)
    ensures SplitLines(p + (['\n'] + t)) == [p] + SplitLines(t)
  {
    var s := p + (['\n'] + t);
    BreakExact(p, ['\n'] + t);
    assert s[..|p|] == p && s[|p|] == '\n' && s[|p| + 1..] == t;
  }

  lemma {:induction false} SplitLast(p: string)
    requires OneLine(p)
    ensures SplitLines(p) == if p == "" then [] else [p]
  {
    BreakExact(p, "");
    assert p + "" == p;
  }

  /** A final break adds no line. */
  function WithoutBlankEnd(parts: seq<string>): seq<string> {
    if parts == [] || parts[|parts| - 1] != "" then parts else parts[..|parts| - 1]
  }

  lemma {:induction false} BlankEndCons(parts: seq<string>)
    requires |parts| > 1
    ensures [parts[0]] + WithoutBlankEnd(parts[1..]) == WithoutBlankEnd(parts)
  {
  }

  /** Splitting undoes joining, up to an empty last line. */
  lemma {:induction false} SplitJoined(parts: seq<string>)
    requires parts != [] && (forall i :: 0 <= i < |parts| ==> OneLine(parts[i]))
    ensures SplitLines(Joined(parts)) == WithoutBlankEnd(parts)
  {
    if |parts| == 1 {
      SplitLast(parts[0]);
      assert parts == [parts[0]];
    } else {
      SplitFirst(parts[0], Joined(parts[1..]));
      SplitJoined(parts[1..]);
      BlankEndCons(parts);
    }
  }

  lemma {:induction false} FenceSkip(p: string, u: string)
    requires OneLine(p) && FenceAt(u).Some?
    ensures FenceAt(p + u) == Some(|p| + FenceAt(u).value)
  {
    var s := p + u;
    if p == "" {
      assert s == u;
    } else {
      assert s[0] == p[0] && s[1..] == p[1..] + u;
      assert !LineBreak(s[0]);
      FenceSkip(p[1..], u);
    }
  }

  lemma {:induction false} FenceHere(u: string)
    requires Fenced(u)
    ensures FenceAt(['\n'] + u) == Some(0)
  {
    assert (['\n'] + u)[1..] == u;
  }

  lemma {:induction false} FenceLater(u: string)
    requires !Fenced(u) && FenceAt(u).Some?
    ensures FenceAt(['\n'] + u) == Some(1 + FenceAt(u).value)
  {
    assert (['\n'] + u)[1..] == u;
  }

  /** A line opens with the fence on its own account, not with what follows it. */
  lemma FencedLocal(p: string, c: char, u: string)
    requires c != '-'
    ensures Fenced(p + ([c] + u)) <==> Fenced(p)
  {
    var s := p + ([c] + u);
    assert s[|p|] == c && forall i :: 0 <= i < |p| ==> s[i] == p[i];
  }

  lemma {:induction false} JoinedStart(parts: seq<string>, u: string)
    requires parts != []
    ensures Fenced(Joined(parts) + (['\n'] + u)) <==> Fenced(parts[0])
  {
    var more := if |parts| == 1 then u else Joined(parts[1..]) + (['\n'] + u);
    assert Joined(parts) + (['\n'] + u) == parts[0] + (['\n'] + more);
    FencedLocal(parts[0], '\n', more);
  }

  lemma Rejoin(a: string, b: string, close: string)
    ensures a + (['\n'] + b) + close == a + (['\n'] + (b + close))
  {
  }

  lemma {:induction false} FenceBehind(p: string, after: string)
    requires OneLine(p) && !Fenced(after) && FenceAt(after).Some?
    ensures FenceAt(p + (['\n'] + after)) == Some(|p| + 1 + FenceAt(after).value)
  {
    var u := ['\n'] + after;
    FenceLater(after);
    FenceSkip(p, u);
  }

  /** The closing fence is found behind lines that do not open with one. */
  lemma {:induction false} FenceExact(parts: seq<string>, rest: string)
    requires parts != [] && (forall i :: 0 <= i < |parts| ==> OneLine(parts[i]))
    requires forall i :: 0 < i < |parts| ==> !Fenced(parts[i])
    ensures FenceAt(Joined(parts) + (['\n'] + (FENCE + rest))) == Some(|Joined(parts)|)
  {
    var close := ['\n'] + (FENCE + rest);
    if |parts| == 1 {
      FenceHere(FENCE + rest);
      FenceSkip(parts[0], close);
    } else {
      FenceExact(parts[1..], rest);
      JoinedStart(parts[1..], FENCE + rest);
      FenceBehind(parts[0], Joined(parts[1..]) + close);
      Rejoin(parts[0], Joined(parts[1..]), close);
    }
  }

  lemma ReadBlank(raws: seq<string>)
    ensures ReadLines([""] + raws) == ReadLines(raws)
  {
    assert ([""] + raws)[1..] == raws;
    assert Trim("") == "";
  }

  predicate NoFences(raws: seq<string>) { forall i :: 0 <= i < |raws| ==> !Fenced(raws[i]) }

  lemma {:induction false} RawOneLine(ls: seq<Line>, i: nat)
    requires i < |ls| && PlainLine(ls[i])
    ensures OneLine(RawLines(ls)[i]) && RawLines(ls)[i] != ""
  {
    var l := ls[i];
    assert forall k :: 0 <= k < |Raw(l)| ==> Raw(l)[k] == if k < l.indent then ' ' else l.text[k - l.indent];
  }

  /** Lines that do not open with the fence are read back from between the fences. */
  lemma {:induction false} FencedLines(parts: seq<string>, rest: string)
    requires parts != [] && (forall i :: 0 <= i < |parts| ==> OneLine(parts[i]))
    requires forall i :: 0 < i < |parts| ==> !Fenced(parts[i])
    ensures ParseDocument(FENCE + (Joined(parts) + (['\n'] + (FENCE + rest)))) ==
            Parse(ReadLines(SplitLines(Joined(parts))))
  {
    FenceExact(parts, rest);
    Unfenced(Joined(parts), ['\n'] + (FENCE + rest));
  }

  lemma {:induction false} Unfenced(body: string, close: string)
    requires FenceAt(body + close) == Some(|body|)
    ensures ParseDocument(FENCE + (body + close)) == Parse(ReadLines(SplitLines(body)))
  {
    var text := FENCE + (body + close);
    assert text[|FENCE|..] == body + close && (body + close)[..|body|] == body;
  }

  /** No entry printed at the margin opens with the fence. */
  predicate ClearOfFence(es: seq<(string, Tree)>, indent: nat) {
    indent > 0 || forall i :: 0 <= i < |es| ==> !Fenced(es[i].0)
  }

  lemma RawFence(l: Line)
    ensures Fenced(Raw(l)) <==> l.indent == 0 && Fenced(l.text)
  {
    if l.indent > 0 { assert Raw(l)[0] == ' '; } else { assert Raw(l) == l.text; }
  }

  lemma {:induction false} LinesClear(es: seq<(string, Tree)>, indent: nat)
    requires PlainEntries(es) && ClearOfFence(es, indent)
    ensures NoFences(RawLines(Print(es, indent)))
    decreases es, 1
  {
    if es != [] {
      PlainTail(es);
      EntryClear(es[0], indent);
      LinesClear(es[1..], indent);
      RawAppend(PrintEntry(es[0], indent), Print(es[1..], indent));
    }
  }

  lemma {:induction false} EntryClear(e: (string, Tree), indent: nat)
    requires PlainEntry(e) && (indent > 0 || !Fenced(e.0))
    ensures NoFences(RawLines(PrintEntry(e, indent)))
    decreases e, 0
  {
    var ls := PrintEntry(e, indent);
    var t := if e.1.Scalar? then " " + e.1.text else "";
    assert ls[0] == Line(indent, e.0 + (":" + t));
    assert e.0 + (":" + t) == e.0 + ([':'] + t);
    FencedLocal(e.0, ':', t);
    RawFence(ls[0]);
    match e.1
    case Scalar(_) =>
    case List(items) =>
      ItemsClear(items, indent + 2);
      RawAppend([ls[0]], PrintItems(items, indent + 2));
    case Map(es) =>
      LinesClear(es, indent + 2);
      RawAppend([ls[0]], Print(es, indent + 2));
  }

  lemma {:induction false} ItemsClear(items: seq<string>, indent: nat)
    requires indent > 0
    ensures NoFences(RawLines(PrintItems(items, indent)))
  {
    if items != [] {
      var l := Line(indent, "- " + items[0]);
      RawFence(l);
      ItemsClear(items[1..], indent);
      assert RawLines(PrintItems(items, indent)) == [Raw(l)] + RawLines(PrintItems(items[1..], indent));
    }
  }

  lemma {:induction false} DocumentParses(es: seq<(string, Tree)>, indent: nat, rest: string)
    requires PlainEntries(es) && ClearOfFence(es, indent)
    ensures ParseDocument(Document(es, indent, rest)) == es
  {
    var ls := Print(es, indent);
    var raws := RawLines(ls);
    PrintPlain(es, indent);
    forall i | 0 <= i < |ls| ensures OneLine(raws[i]) && raws[i] != "" { RawOneLine(ls, i); }
    LinesClear(es, indent);
    var parts := [""] + raws;
    FencedLines(parts, rest);
    SplitJoined(parts);
    assert parts[|parts| - 1] == "" <==> raws == [];
    ReadBlank(raws);
    ParsePrintRaw(es, indent);
  }

  lemma {:induction false} PrintAppend(es: seq<(string, Tree)>, fs: seq<(string, Tree)>, indent: nat)
    ensures Print(es + fs, indent) == Print(es, indent) + Print(fs, indent)
  {
    if es == [] {
      assert es + fs == fs;
    } else {
      PrintAppend(es[1..], fs, indent);
      assert (es + fs)[0] == es[0] && (es + fs)[1..] == es[1..] + fs;
      PrintCons(es, indent, Print(fs, indent));
    }
  }

  lemma {:induction false} JoinedAppend(a: seq<string>, b: seq<string>)
    requires a != [] && b != []
    ensures Joined(a + b) == Joined(a) + (['\n'] + Joined(b))
  {
    if |a| == 1 {
      assert (a + b)[1..] == b;
    } else {
      JoinedAppend(a[1..], b);
      assert (a + b)[0] == a[0] && (a + b)[1..] == a[1..] + b;
      Rejoin(a[0], Joined(a[1..]), ['\n'] + Joined(b));
    }
  }

  lemma FencePrefix(s: string) returns (t: string)
    requires Fenced(s)
    ensures s == FENCE + t
  {
    t := s[3..];
  }

  /** A key that opens with the fence, printed at the margin, closes the document before it. */
  lemma {:induction false} CutShort(es: seq<(string, Tree)>, n: nat, indent: nat, rest: string)
    returns (rest': string)
    requires PlainEntries(es) && n < |es| && Fenced(es[n].0) && indent == 0
    ensures Document(es, indent, rest) == Document(es[..n], indent, rest')
  {
    var a, b := [""] + RawLines(Print(es[..n], indent)), RawLines(Print(es[n..], indent));
    LinesAt(es, n, indent);
    assert [""] + RawLines(Print(es, indent)) == a + b;
    JoinedAppend(a, b);
    FencedEntry(es[n..], indent);
    var close := ['\n'] + (FENCE + rest);
    JoinedStart(b, FENCE + rest);
    rest' := FencePrefix(Joined(b) + close);
    Rejoin(Joined(a), Joined(b), close);
  }

  lemma {:induction false} RawAppend(a: seq<Line>, b: seq<Line>)
    ensures RawLines(a + b) == RawLines(a) + RawLines(b)
  {
  }

  lemma {:induction false} LinesAt(es: seq<(string, Tree)>, n: nat, indent: nat)
    requires n <= |es|
    ensures RawLines(Print(es, indent)) == RawLines(Print(es[..n], indent)) + RawLines(Print(es[n..], indent))
  {
    assert es == es[..n] + es[n..];
    PrintAppend(es[..n], es[n..], indent);
    RawAppend(Print(es[..n], indent), Print(es[n..], indent));
  }

  lemma {:induction false} FencedEntry(es: seq<(string, Tree)>, indent: nat)
    requires es != [] && Fenced(es[0].0) && indent == 0
    ensures RawLines(Print(es, indent)) != [] && Fenced(RawLines(Print(es, indent))[0])
  {
    var e := es[0];
    var l := PrintEntry(e, indent)[0];
    assert Print(es, indent)[0] == l;
    var t := if e.1.Scalar? then " " + e.1.text else "";
    assert l.text == e.0 + ([':'] + t);
    FencedLocal(e.0, ':', t);
    RawFence(l);
  }

  lemma {:induction false} PlainTake(es: seq<(string, Tree)>, n: nat)
    requires PlainEntries(es) && n <= |es|
    ensures PlainEntries(es[..n])
  {
  }

  lemma {:induction false} FirstFenced(es: seq<(string, Tree)>) returns (n: nat)
    requires !ClearOfFence(es, 0)
    ensures n < |es| && Fenced(es[n].0) && ClearOfFence(es[..n], 0)
  {
    if Fenced(es[0].0) {
      n := 0;
    } else {
      var m := FirstFenced(es[1..]);
      n := m + 1;
      assert forall i :: 0 < i < n ==> es[..n][i] == es[1..][..m][i - 1];
    }
  }

  /** What is read then is what stands before that key. */
  lemma {:induction false} CutParses(es: seq<(string, Tree)>, n: nat, indent: nat, rest: string)
    requires PlainEntries(es) && n < |es| && Fenced(es[n].0) && ClearOfFence(es[..n], indent) && indent == 0
    ensures ParseDocument(Document(es, indent, rest)) == es[..n]
  {
    var rest' := CutShort(es, n, indent, rest);
    PlainTake(es, n);
    DocumentParses(es[..n], indent, rest');
  }

  lemma {:induction false} FencedKeyCuts(es: seq<(string, Tree)>, indent: nat, rest: string)
    requires PlainEntries(es) && !ClearOfFence(es, indent)
    ensures ParseDocument(Document(es, indent, rest)) != es
  {
    var n := FirstFenced(es);
    CutParses(es, n, indent, rest);
    assert |es[..n]| < |es|;
  }

  /**
    Printed between fences, a plain tree is read back exactly when no key at the margin opens with
    the fence itself; whatever follows the closing fence is ignored.
   */
  lemma {:induction false} DocumentExact(es: seq<(string, Tree)>, indent: nat, rest: string)
    requires PlainEntries(es)
    ensures ParseDocument(Document(es, indent, rest)) == es <==> ClearOfFence(es, indent)
  {
    if ClearOfFence(es, indent) { DocumentParses(es, indent, rest); } else { FencedKeyCuts(es, indent, rest); }
  }

  /** A top-level key `---` ends the frontmatter: nothing of it is read. */
  lemma FenceKeyLost(rest: string)
    ensures PlainEntries([("---", Scalar("a"))])
    ensures ParseDocument(Document([("---", Scalar("a"))], 0, rest)) == []
  {
    CutParses([("---", Scalar("a"))], 0, 0, rest);
  }

  // ----- quotation marks, comments and skipped lines

  predicate AllDropped(drop: char -> bool, s: string) { forall i :: 0 <= i < |s| ==> drop(s[i]) }

  lemma {:induction false} StripRightExact(drop: char -> bool, s: string)
    ensures var r := StripRight(drop, s);
            && r <= s && AllDropped(drop, s[|r|..])
            && (r == "" || !drop(r[|r| - 1]))
  {
    if s != "" && drop(s[|s| - 1]) {
      StripRightExact(drop, s[..|s| - 1]);
      var r := StripRight(drop, s[..|s| - 1]);
      assert s[|r|..] == s[..|s| - 1][|r|..] + [s[|s| - 1]];
    } else {
      assert s[|s|..] == "";
    }
  }

  lemma {:induction false} StripFront(drop: char -> bool, a: string, x: string)
    requires AllDropped(drop, a) && (x == "" || !drop(x[0]))
    ensures StripLeft(drop, a + x) == x
  {
    if a == "" {
      assert a + x == x;
    } else {
      assert (a + x)[0] == a[0] && (a + x)[1..] == a[1..] + x;
      StripFront(drop, a[1..], x);
    }
  }

  lemma {:induction false} StripBack(drop: char -> bool, x: string, b: string)
    requires AllDropped(drop, b) && (x == "" || !drop(x[|x| - 1]))
    ensures StripRight(drop, x + b) == x
  {
    if b == "" {
      assert x + b == x;
    } else {
      var s := x + b;
      assert s[|s| - 1] == b[|b| - 1] && s[..|s| - 1] == x + b[..|b| - 1];
      StripBack(drop, x, b[..|b| - 1]);
    }
  }

  /** Stripping takes off exactly what may be dropped at both ends. */
  lemma {:induction false} StripExact(drop: char -> bool, a: string, x: string, b: string)
    requires AllDropped(drop, a) && AllDropped(drop, b) && x != "" && !drop(x[0]) && !drop(x[|x| - 1])
    ensures Strip(drop, a + x + b) == x
  {
    assert a + x + b == a + (x + b) && (x + b)[0] == x[0];
    StripFront(drop, a, x + b);
    StripBack(drop, x, b);
  }

  /** A scalar in quotation marks reads as its inside, blanks included, wherever it stands. */
  lemma {:induction false} QuotedScalar(before: string, quote: char, x: string, quote': char, after: string)
    requires AllDropped(Space, before) && AllDropped(Space, after) && Quote(quote) && Quote(quote')
    requires x != "" && !Quote(x[0]) && !Quote(x[|x| - 1])
    ensures ScalarOf(before + ([quote] + x + [quote']) + after) == x
  {
    var inner := [quote] + x + [quote'];
    assert inner[0] == quote && inner[|inner| - 1] == quote';
    StripExact(Space, before, inner, after);
    StripExact(Quote, [quote], x, [quote']);
  }

  lemma {:induction false} ReadCons(raw: string, raws: seq<string>)
    ensures ReadLines([raw] + raws) == ReadLines([raw]) + ReadLines(raws)
  {
    assert ([raw] + raws)[1..] == raws && [raw][1..] == [];
  }

  lemma {:induction false} LinesAssoc(x: seq<Line>, y: seq<Line>, z: seq<Line>)
    ensures x + (y + z) == x + y + z
  {
  }

  lemma {:induction false} ReadAppend(a: seq<string>, b: seq<string>)
    ensures ReadLines(a + b) == ReadLines(a) + ReadLines(b)
  {
    if a == [] {
      assert a + b == b;
    } else {
      var raw, tail := a[0], a[1..];
      assert a + b == [raw] + (tail + b) && a == [raw] + tail;
      ReadCons(raw, tail + b);
      ReadCons(raw, tail);
      ReadAppend(tail, b);
      LinesAssoc(ReadLines([raw]), ReadLines(tail), ReadLines(b));
    }
  }

  /** A blank line, or a line whose first character that is no blank is `#`. */
  predicate SaysNothing(raw: string) {
    AllDropped(Space, raw) || exists n :: 0 <= n < |raw| && raw[n] == '#' && AllDropped(Space, raw[..n])
  }

  lemma {:induction false} NothingKept(raw: string)
    requires SaysNothing(raw)
    ensures !Kept(raw)
  {
    if AllDropped(Space, raw) {
      StripFront(Space, raw, "");
      assert raw + "" == raw;
    } else {
      var n :| 0 <= n < |raw| && raw[n] == '#' && AllDropped(Space, raw[..n]);
      assert raw == raw[..n] + raw[n..];
      StripFront(Space, raw[..n], raw[n..]);
      StripRightExact(Space, raw[n..]);
      var r := StripRight(Space, raw[n..]);
      if r != "" { assert r[0] == raw[n..][0] == '#'; }
    }
  }

  /** Blank lines and comments change nothing, wherever they stand. */
  lemma {:induction false} CommentsIgnored(a: seq<string>, raw: string, b: seq<string>)
    requires SaysNothing(raw)
    ensures ReadLines(a + [raw] + b) == ReadLines(a + b)
  {
    NothingKept(raw);
    ReadAppend(a, [raw] + b);
    assert a + [raw] + b == a + ([raw] + b) && ([raw] + b)[1..] == b;
    ReadAppend(a, b);
  }

  /** Inside a map a deeper line, a list item or a line without a colon is passed over. */
  lemma {:induction false} LineSkipped(l: Line, ls: seq<Line>, indent: nat, acc: seq<(string, Tree)>)
    requires l.indent > indent || (l.indent == indent && ("- " <= l.text || ':' !in l.text))
    ensures MapOf([l] + ls, indent, acc) == MapOf(ls, indent, acc)
  {
    assert ([l] + ls)[1..] == ls;
    if ':' !in l.text { FirstNone(l.text, ':'); }
  }
}
