/**
  The closure inventory of a release archive: a sorted list of digests and paths, the member loop
  over the archive, and the comparison that ties the two together through one bundle hash.
 */
module Inventory {
  import opened HostText
  import opened Sorting
  import opened Utf16
  import opened Wrappers

  const BUNDLE_MAX_BYTES := 536870912
  const INVENTORY_MAX_BYTES := 16777216

  /** Name and digest, in the order of the file. */
  type Entry = (string, string)

  // ----- paths

  predicate PlainPart(p: string) { p != "" && p != "." && p != ".." }

  /** A relative path in canonical form: no backslash and no empty, `.` or `..` component. */
  predicate SafePath(name: string) {
    Without(name, '\\') && forall i :: 0 <= i < |Split(name, '/')| ==> PlainPart(Split(name, '/')[i])
  }

  /** The canonical name of a member; one trailing slash is allowed on a directory only. */
  function SafeArchivePath(name: string, directory: bool): Option<string> {
    if name == "" then None
    else
      var raw := if name[|name| - 1] == '/' && directory then name[..|name| - 1] else name;
      if SafePath(raw) then Some(raw) else None
  }

  // ----- inventory lines

  predicate Hex(c: char) { '0' <= c <= '9' || 'a' <= c <= 'f' }

  predicate IsDigest(d: string) { |d| == 64 && forall i :: 0 <= i < 64 ==> Hex(d[i]) }

  predicate SupportedName(name: string) {
    "app/" <= name || name == "runtime/node/bin/node" || name == "runtime/node/LICENSE"
  }

  predicate NameOk(name: string) {
    name != "" && !Space(name[0]) && SafePath(name) && SupportedName(name)
  }

  function ShowLine(e: Entry): string { e.1 + "  " + e.0 }

  /** One line: 64 hexadecimal digits, two spaces and a supported safe path. */
  function ParseLine(line: string): Option<Entry> {
    if |line| < 67 || !IsDigest(line[..64]) || line[64..66] != "  " || !NameOk(line[66..]) then None
    else Some((line[66..], line[..64]))
  }

  predicate EntryOk(e: Entry) { IsDigest(e.1) && NameOk(e.0) && Without(e.0, '\n') && Without(e.0, '\r') }

  lemma ParseLineExact(line: string)
    ensures ParseLine(line).Some? ==> ShowLine(ParseLine(line).value) == line
    ensures forall e: Entry :: IsDigest(e.1) && NameOk(e.0) && ShowLine(e) == line ==> ParseLine(line) == Some(e)
  {
    if ParseLine(line).Some? {
      assert line == line[..64] + line[64..66] + line[66..];
    }
    forall e: Entry | IsDigest(e.1) && NameOk(e.0) && ShowLine(e) == line ensures ParseLine(line) == Some(e) {
      assert line[..64] == e.1 && line[64..66] == "  " && line[66..] == e.0;
    }
  }

  /** Length in bytes of the UTF-8 encoding. */
  function Utf8Len(s: string): nat {
    if s == "" then 0
    else (var n := s[0] as int; if n < 0x80 then 1 else if n < 0x800 then 2 else if n < 0x10000 then 3 else 4)
         + Utf8Len(s[1..])
  }

  function Lines(es: seq<Entry>): seq<string> {
    seq(|es|, i requires 0 <= i < |es| => ShowLine(es[i]))
  }

  function Print(es: seq<Entry>): string { Unsplit(Lines(es), '\n') }

  predicate ValidInventory(es: seq<Entry>) {
    es != [] && (forall i :: 0 <= i < |es| ==> EntryOk(es[i])) && StrictlyOrdered(CodePointLess, es)
  }

  predicate Increasing(names: seq<string>) {
    forall i :: 0 < i < |names| ==> CodePointLess(names[i - 1], names[i]) || names[i - 1] == names[i]
  }

  function Names(es: seq<Entry>): seq<string> {
    seq(|es|, i requires 0 <= i < |es| => es[i].0)
  }

  predicate LineEntries(es: seq<Entry>) {
    forall i :: 0 <= i < |es| ==> IsDigest(es[i].1) && NameOk(es[i].0)
  }

  /** The loop over lines: every line must parse and no name may repeat. */
  method ParseEntries(lines: seq<string>) returns (r: Option<seq<Entry>>)
    ensures r.Some? ==> Lines(r.value) == lines && DistinctKeys(r.value) && LineEntries(r.value)
    ensures r.None? ==> forall es :: ValidInventory(es) ==> Lines(es) != lines
  {
    var entries: seq<Entry> := [];
    for i := 0 to |lines|
      invariant |entries| == i && Lines(entries) == lines[..i] && DistinctKeys(entries) && LineEntries(entries)
    {
      var e := ParseLine(lines[i]);
      ParseLineExact(lines[i]);
      if e.None? || exists j :: 0 <= j < |entries| && entries[j].0 == e.value.0 {
        forall es | ValidInventory(es) && Lines(es) == lines ensures false {
          RefuseAt(es, entries, lines, i);
        }
        return None;
      }
      LinesAppend(entries, e.value);
      assert lines[..i + 1] == lines[..i] + [lines[i]];
      entries := entries + [e.value];
    }
    assert lines[..|lines|] == lines;
    r := Some(entries);
  }

  lemma LinesAppend(es: seq<Entry>, e: Entry)
    ensures Lines(es + [e]) == Lines(es) + [ShowLine(e)]
  {
  }

  /**
    The reader of the inventory. What it accepts is exactly the printed form of a valid inventory,
    and it returns that inventory.
   */
  method ParseInventory(data: string) returns (r: Option<seq<Entry>>)
    ensures r.Some? <==> Utf8Len(data) <= INVENTORY_MAX_BYTES && exists es :: ValidInventory(es) && Print(es) == data
    ensures r.Some? ==> ValidInventory(r.value) && Print(r.value) == data
  {
    if data == "" || Utf8Len(data) > INVENTORY_MAX_BYTES || data[|data| - 1] != '\n' || !Without(data, '\r') {
      forall es | ValidInventory(es) && Print(es) == data
        ensures data != "" && data[|data| - 1] == '\n' && Without(data, '\r')
      {
        PrintShape(es);
      }
      return None;
    }
    var text := data[..|data| - 1];
    var lines := Split(text, '\n');
    UnsplitSplit(text, '\n');
    assert data == text + ['\n'];
    forall es | ValidInventory(es) && Print(es) == data ensures Lines(es) == lines {
      PrintedLines(es, text, lines);
    }
    r := ParseEntries(lines);
    if r.None? {
      return;
    }
    NoReturns(r.value, lines, data);
    forall es | ValidInventory(es) && Print(es) == data ensures Increasing(Names(r.value)) {
      SameLines(es, r.value);
      OrderedIncreasing(es);
    }
    if !Increasing(Names(r.value)) {
      return None;
    }
    IncreasingOrdered(r.value);
    assert |Lines(r.value)| == |r.value| > 0;
    assert ValidInventory(r.value) && Print(r.value) == data;
  }

  lemma PrintedLines(es: seq<Entry>, text: string, lines: seq<string>)
    requires ValidInventory(es) && Print(es) == text + ['\n'] && lines == Split(text, '\n')
    ensures Lines(es) == lines
  {
    forall i | 0 <= i < |es| ensures Without(Lines(es)[i], '\n') {
      assert EntryOk(es[i]);
      LineWithout(es[i], '\n');
    }
    SplitUnsplit(Lines(es), text, '\n');
  }

  lemma LineWithout(e: Entry, c: char)
    requires EntryOk(e) && (c == '\n' || c == '\r')
    ensures Without(ShowLine(e), c)
  {
    forall i | 0 <= i < |ShowLine(e)| ensures ShowLine(e)[i] != c {
      if i < 64 {
        assert Hex(e.1[i]);
      } else if i >= 66 {
        assert ShowLine(e)[i] == e.0[i - 66];
      }
    }
  }

  lemma SameLines(es: seq<Entry>, fs: seq<Entry>)
    requires Lines(es) == Lines(fs)
    requires LineEntries(es)
    requires LineEntries(fs)
    ensures es == fs
  {
    assert |es| == |Lines(es)| == |fs|;
    forall i | 0 <= i < |es| ensures es[i] == fs[i] {
      assert ShowLine(es[i]) == Lines(es)[i] == ShowLine(fs[i]);
      ParseLineExact(ShowLine(es[i]));
    }
  }

  /** A line that does not parse, or repeats a name, cannot be part of a printed inventory. */
  lemma RefuseAt(es: seq<Entry>, entries: seq<Entry>, lines: seq<string>, i: nat)
    requires ValidInventory(es) && Lines(es) == lines && i < |lines| && |entries| == i && Lines(entries) == lines[..i]
    requires LineEntries(entries)
    ensures ParseLine(lines[i]) == Some(es[i])
    ensures forall j :: 0 <= j < i ==> entries[j].0 != es[i].0
  {
    assert EntryOk(es[i]);
    assert lines[i] == ShowLine(es[i]);
    ParseLineExact(lines[i]);
    assert Lines(es[..i]) == lines[..i];
    SameLines(es[..i], entries);
    CodePointOrderTotal();
    forall j | 0 <= j < i ensures entries[j].0 != es[i].0 {
      assert entries[j] == es[j];
      assert CodePointLess(es[j].0, es[i].0);
    }
  }

  lemma OrderedIncreasing(es: seq<Entry>)
    requires StrictlyOrdered(CodePointLess, es)
    ensures Increasing(Names(es))
  {
  }

  lemma IncreasingOrdered(es: seq<Entry>)
    requires Increasing(Names(es)) && DistinctKeys(es)
    ensures StrictlyOrdered(CodePointLess, es)
  {
    forall i, j | 0 <= i < j < |es| ensures CodePointLess(es[i].0, es[j].0) {
      IncreasingPair(es, i, j);
    }
  }

  lemma {:induction false} IncreasingPair(es: seq<Entry>, i: nat, j: nat)
    requires Increasing(Names(es)) && DistinctKeys(es) && i < j < |es|
    ensures CodePointLess(es[i].0, es[j].0)
    decreases j
  {
    assert Names(es)[j - 1] == es[j - 1].0 && Names(es)[j] == es[j].0;
    assert CodePointLess(es[j - 1].0, es[j].0);
    if i < j - 1 {
      IncreasingPair(es, i, j - 1);
      CodePointOrderTotal();
    }
  }

  lemma {:induction false} UnsplitWithout(lines: seq<string>, c: char)
    requires c != '\n'
    ensures Without(Unsplit(lines, '\n'), c) <==> forall i :: 0 <= i < |lines| ==> Without(lines[i], c)
  {
    if lines != [] {
      var rest := lines[1..];
      UnsplitWithout(rest, c);
      var u := Unsplit(rest, '\n');
      var s := lines[0] + ['\n'] + u;
      assert Unsplit(lines, '\n') == s;
      assert forall i :: 0 <= i < |lines[0]| ==> s[i] == lines[0][i];
      assert forall i :: 0 <= i < |u| ==> s[|lines[0]| + 1 + i] == u[i];
      assert Without(s, c) <==> Without(lines[0], c) && Without(u, c) by {
        if Without(s, c) {
          forall i | 0 <= i < |u| ensures u[i] != c { assert s[|lines[0]| + 1 + i] != c; }
        }
      }
      assert forall i :: 0 < i < |lines| ==> lines[i] == rest[i - 1];
      if forall i :: 0 <= i < |lines| ==> Without(lines[i], c) {
        forall i | 0 <= i < |rest| ensures Without(rest[i], c) { assert rest[i] == lines[i + 1]; }
      }
    }
  }

  lemma NameWithout(e: Entry, c: char)
    requires IsDigest(e.1) && Without(ShowLine(e), c)
    ensures Without(e.0, c)
  {
    var line := ShowLine(e);
    forall k | 0 <= k < |e.0| ensures e.0[k] != c {
      assert line[66 + k] == e.0[k];
    }
  }

  lemma NoReturns(es: seq<Entry>, lines: seq<string>, data: string)
    requires Lines(es) == lines && data == Unsplit(lines, '\n') && Without(data, '\r')
    requires forall i :: 0 <= i < |lines| ==> Without(lines[i], '\n')
    requires LineEntries(es)
    ensures forall i :: 0 <= i < |es| ==> EntryOk(es[i])
  {
    UnsplitWithout(lines, '\r');
    forall i | 0 <= i < |es| ensures EntryOk(es[i]) {
      assert lines[i] == ShowLine(es[i]);
      NameWithout(es[i], '\n');
      NameWithout(es[i], '\r');
    }
  }

  lemma PrintShape(es: seq<Entry>)
    requires ValidInventory(es)
    ensures var d := Print(es); d != "" && d[|d| - 1] == '\n' && Without(d, '\r')
  {
    UnsplitEnds(Lines(es), '\n');
    forall i | 0 <= i < |es| ensures Without(Lines(es)[i], '\r') {
      assert EntryOk(es[i]);
      LineWithout(es[i], '\r');
    }
    UnsplitWithout(Lines(es), '\r');
  }

  /** A printed inventory determines its entries. */
  lemma PrintInjective(es: seq<Entry>, fs: seq<Entry>)
    requires ValidInventory(es) && ValidInventory(fs) && Print(es) == Print(fs)
    ensures es == fs
  {
    PrintShape(es);
    var d := Print(es);
    var text := d[..|d| - 1];
    assert d == text + ['\n'];
    PrintedLines(es, text, Split(text, '\n'));
    PrintedLines(fs, text, Split(text, '\n'));
    SameLines(es, fs);
  }

  // ----- the archive

  datatype Kind = Directory | Regular | Other

  /** `digest` is the hexadecimal digest of the payload; `content` its text, needed for metadata only. */
  datatype Member = Member(name: string, kind: Kind, size: int, digest: string, executable: bool, content: string)

  const INVENTORY_NAME := "INVENTORY.sha256"
  const PROVENANCE_NAME := "PROVENANCE.json"

  function CanonicalName(m: Member): Option<string> { SafeArchivePath(m.name, m.kind.Directory?) }

  function TopPart(name: string): string { name[..First(name, '/')] }

  /** The path below the root; `.` for a member that is the root itself. */
  function Relative(name: string): string {
    var n := First(name, '/');
    if n == |name| then "." else name[n + 1..]
  }

  predicate IsMetadata(relative: string) { relative == INVENTORY_NAME || relative == PROVENANCE_NAME }

  /** A member after the checks made on it alone. */
  datatype Item = Bad | Folder(name: string) | File(name: string, relative: string, member: Member)

  function Classify(root: string, m: Member): Item {
    var name := CanonicalName(m);
    if m.kind.Other? || name.None? || TopPart(name.value) != root then Bad
    else if m.kind.Directory? then Folder(name.value)
    else
      var relative := Relative(name.value);
      if m.size < 0 || m.size > BUNDLE_MAX_BYTES || (IsMetadata(relative) && m.size > INVENTORY_MAX_BYTES) then Bad
      else File(name.value, relative, m)
  }

  function Items(root: string, ms: seq<Member>): (r: seq<Item>)
    ensures |r| == |ms|
  {
    if ms == [] then [] else Items(root, ms[..|ms| - 1]) + [Classify(root, ms[|ms| - 1])]
  }

  lemma {:induction false} ItemsAt(root: string, ms: seq<Member>, i: nat)
    requires i < |ms|
    ensures Items(root, ms)[i] == Classify(root, ms[i])
  {
    if i < |ms| - 1 { ItemsAt(root, ms[..|ms| - 1], i); }
  }

  function Total(items: seq<Item>): int {
    if items == [] then 0
    else Total(items[..|items| - 1]) + SizeOf(items[|items| - 1])
  }

  function SizeOf(it: Item): int { if it.File? then it.member.size else 0 }

  /** Every member is admissible, no path repeats, and the payload fits the limit. */
  predicate ItemsOk(items: seq<Item>) {
    && (forall i :: 0 <= i < |items| ==> !items[i].Bad? && SizeOf(items[i]) >= 0)
    && (forall i, j :: 0 <= i < j < |items| ==> items[i].name != items[j].name)
    && Total(items) <= BUNDLE_MAX_BYTES
  }

  predicate MembersOk(root: string, ms: seq<Member>) { ItemsOk(Items(root, ms)) }

  /** Equal relative paths mean equal names. */
  predicate Faithful(items: seq<Item>) {
    forall i, j :: (0 <= i < |items| && 0 <= j < |items| && items[i].File? && items[j].File? &&
                    items[i].relative == items[j].relative) ==> items[i].name == items[j].name
  }

  /** `files` holds exactly the file items, under their relative paths. */
  ghost predicate FilesOf(items: seq<Item>, files: map<string, Member>) {
    && (forall i :: 0 <= i < |items| && items[i].File? ==>
          items[i].relative in files && files[items[i].relative] == items[i].member)
    && (forall r :: r in files ==> exists i :: 0 <= i < |items| && items[i].File? && items[i].relative == r)
  }

  lemma {:induction false} TotalPrefix(items: seq<Item>, n: nat)
    requires n <= |items| && forall i :: 0 <= i < |items| ==> SizeOf(items[i]) >= 0
    ensures Total(items[..n]) <= Total(items)
  {
    if n < |items| {
      var init := items[..|items| - 1];
      TotalPrefix(init, n);
      assert init[..n] == items[..n];
    } else {
      assert items[..n] == items;
    }
  }

  lemma ItemsPrefix(items: seq<Item>, n: nat)
    requires ItemsOk(items) && n <= |items|
    ensures ItemsOk(items[..n])
  {
    TotalPrefix(items, n);
  }

  /** One step of the member loop, on its declared outcome. */
  lemma ItemsStep(items: seq<Item>, i: nat)
    requires i < |items| && ItemsOk(items[..i])
    ensures ItemsOk(items[..i + 1]) <==>
            && !items[i].Bad? && SizeOf(items[i]) >= 0
            && (forall j :: 0 <= j < i ==> items[j].name != items[i].name)
            && Total(items[..i]) + SizeOf(items[i]) <= BUNDLE_MAX_BYTES
    ensures Total(items[..i + 1]) == Total(items[..i]) + SizeOf(items[i])
  {
    var now := items[..i + 1];
    assert now[..i] == items[..i] && now[i] == items[i];
    assert forall j :: 0 <= j < i ==> items[..i][j] == items[j] == now[j];
    if ItemsOk(now) {
      forall j | 0 <= j < i ensures items[j].name != items[i].name {
        assert now[j].name != now[i].name;
      }
    }
  }

  lemma FilesStep(items: seq<Item>, files: map<string, Member>, i: nat)
    requires i < |items| && ItemsOk(items[..i + 1]) && Faithful(items) && FilesOf(items[..i], files)
    ensures items[i].Folder? ==> FilesOf(items[..i + 1], files)
    ensures items[i].File? ==>
            && items[i].relative !in files
            && FilesOf(items[..i + 1], files[items[i].relative := items[i].member])
  {
    var now := items[..i + 1];
    assert forall j :: 0 <= j < i ==> items[..i][j] == items[j] == now[j];
    assert now[i] == items[i];
  }

  // ----- relative paths identify members

  lemma SplitCons(s: string, c: char)
    requires First(s, c) < |s|
    ensures Split(s, c) == [s[..First(s, c)]] + Split(s[First(s, c) + 1..], c)
  {
  }

  /** Below the root of a safe path there is never just a dot. */
  lemma NotDot(a: string)
    requires SafePath(a) && First(a, '/') < |a|
    ensures a[First(a, '/') + 1..] != "."
  {
    var parts := Split(a, '/');
    SplitCons(a, '/');
    assert parts[1] == Split(a[First(a, '/') + 1..], '/')[0];
    assert PlainPart(parts[1]);
    FirstNone(".", '/');
    assert Split(".", '/') == ["."];
  }

  lemma Rebuild(a: string)
    requires SafePath(a)
    ensures if Relative(a) == "." then a == TopPart(a) else a == TopPart(a) + "/" + Relative(a)
  {
    var n := First(a, '/');
    if n < |a| {
      NotDot(a);
      assert a == a[..n] + "/" + a[n + 1..];
    } else {
      assert a[..n] == a;
    }
  }

  lemma ClassifyName(root: string, m: Member)
    requires Classify(root, m).File?
    ensures var it := Classify(root, m);
            SafePath(it.name) && TopPart(it.name) == root && Relative(it.name) == it.relative
  {
  }

  /** Distinct safe names under one root have distinct relative paths. */
  lemma ItemsFaithful(root: string, ms: seq<Member>)
    ensures Faithful(Items(root, ms))
  {
    var items := Items(root, ms);
    forall i, j | 0 <= i < |items| && 0 <= j < |items| && items[i].File? && items[j].File? &&
                  items[i].relative == items[j].relative
      ensures items[i].name == items[j].name
    {
      ItemsAt(root, ms, i);
      ItemsAt(root, ms, j);
      ClassifyName(root, ms[i]);
      ClassifyName(root, ms[j]);
      Rebuild(items[i].name);
      Rebuild(items[j].name);
    }
  }

  /** The member loop over checked members: the set of seen paths and the running payload total. */
  method ScanItems(items: seq<Item>) returns (ok: bool, files: map<string, Member>, total: int)
    requires Faithful(items) && forall i :: 0 <= i < |items| ==> SizeOf(items[i]) >= 0
    ensures ok <==> ItemsOk(items)
    ensures ok ==> FilesOf(items, files) && total == Total(items)
  {
    files, total := map[], 0;
    var seen: set<string> := {};
    for i := 0 to |items|
      invariant ItemsOk(items[..i]) && FilesOf(items[..i], files) && total == Total(items[..i])
      invariant seen == set j | 0 <= j < i && !items[j].Bad? :: items[j].name
    {
      var it := items[i];
      ItemsStep(items, i);
      if ItemsOk(items) { ItemsPrefix(items, i + 1); }
      if it.Bad? || it.name in seen || (it.File? && total > BUNDLE_MAX_BYTES - it.member.size) {
        return false, files, total;
      }
      FilesStep(items, files, i);
      if it.File? {
        total := total + it.member.size;
        files := files[it.relative := it.member];
      }
      seen := seen + {it.name};
    }
    assert items[..|items|] == items;
    ok := true;
  }

  /**
    The archive's members are accepted exactly when each is admissible under the root, no path
    repeats and the payload total stays within the limit.
   */
  method ScanMembers(root: string, ms: seq<Member>) returns (ok: bool, files: map<string, Member>, total: int)
    ensures ok <==> MembersOk(root, ms)
    ensures ok ==> FilesOf(Items(root, ms), files) && total == Total(Items(root, ms)) <= BUNDLE_MAX_BYTES
  {
    ItemsFaithful(root, ms);
    forall i | 0 <= i < |ms| ensures SizeOf(Items(root, ms)[i]) >= 0 {
      ItemsAt(root, ms, i);
    }
    ok, files, total := ScanItems(Items(root, ms));
  }

  lemma {:induction false} ItemsOfPrefix(root: string, ms: seq<Member>, n: nat)
    requires n <= |ms|
    ensures Items(root, ms[..n]) == Items(root, ms)[..n]
  {
    if n < |ms| {
      ItemsOfPrefix(root, ms[..|ms| - 1], n);
      assert ms[..|ms| - 1][..n] == ms[..n];
    } else {
      assert ms[..n] == ms;
    }
  }

  lemma ClassifyGood(root: string, m: Member)
    requires !Classify(root, m).Bad?
    ensures var it := Classify(root, m);
            && CanonicalName(m) == Some(it.name) && SafePath(it.name) && TopPart(it.name) == root
            && (it.File? <==> m.kind.Regular?) && (m.kind.Regular? ==> 0 <= m.size <= BUNDLE_MAX_BYTES)
  {
  }

  /** The canonical name is the name, or the name without the one slash a directory may end in. */
  lemma {:induction false} CanonicalForm(m: Member)
    requires CanonicalName(m).Some?
    ensures m.name == CanonicalName(m).value ||
            (m.kind.Directory? && m.name == CanonicalName(m).value + "/")
  {
    assert m.name == m.name[..|m.name| - 1] + [m.name[|m.name| - 1]];
  }

  /** Every member of an accepted list has a canonical path under the root, and a file fits the limit. */
  lemma AcceptedMember(root: string, ms: seq<Member>, i: nat)
    requires MembersOk(root, ms) && i < |ms|
    ensures CanonicalName(ms[i]).Some? && SafePath(CanonicalName(ms[i]).value)
    ensures TopPart(CanonicalName(ms[i]).value) == root && !ms[i].kind.Other?
    ensures CanonicalName(ms[i]) == Some(Items(root, ms)[i].name)
    ensures ms[i].name == CanonicalName(ms[i]).value ||
            (ms[i].kind.Directory? && ms[i].name == CanonicalName(ms[i]).value + "/")
    ensures ms[i].kind.Regular? ==> 0 <= ms[i].size <= BUNDLE_MAX_BYTES
  {
    ItemsAt(root, ms, i);
    assert !Items(root, ms)[i].Bad?;
    ClassifyGood(root, ms[i]);
    CanonicalForm(ms[i]);
  }

  /** A safe path has no backslash, and no component that is empty or steps in place or upwards. */
  lemma {:induction false} SafePathExact(name: string)
    ensures SafePath(name) <==>
            && '\\' !in name
            && "" !in Split(name, '/') && "." !in Split(name, '/') && ".." !in Split(name, '/')
  {
    var parts := Split(name, '/');
    if SafePath(name) {
      forall i | 0 <= i < |parts| ensures parts[i] != "" && parts[i] != "." && parts[i] != ".." {
        assert PlainPart(parts[i]);
      }
    }
  }

  /** No member of an accepted list climbs out of the root: its path is the root or lies below it. */
  lemma AcceptedInside(root: string, ms: seq<Member>, i: nat)
    requires MembersOk(root, ms) && i < |ms|
    ensures CanonicalName(ms[i]).Some?
    ensures var name := CanonicalName(ms[i]).value;
            && (name == root || root + "/" <= name)
            && (forall k :: 0 <= k < |Split(name, '/')| ==> Split(name, '/')[k] != "..")
            && (ms[i].kind.Regular? && Relative(name) in {"INVENTORY.sha256", "PROVENANCE.json"} ==>
                  ms[i].size <= INVENTORY_MAX_BYTES)
  {
    AcceptedMember(root, ms, i);
    var name := CanonicalName(ms[i]).value;
    ItemsAt(root, ms, i);
    Rebuild(name);
    var n := First(name, '/');
    if n < |name| { assert name[..n + 1] == root + "/"; } else { assert name[..n] == name; }
  }

  /** A file lies at its relative path below the root. */
  lemma FileRelative(root: string, m: Member)
    requires Classify(root, m).File?
    ensures var it := Classify(root, m);
            it.member == m && it.name == if it.relative == "." then root else root + "/" + it.relative
  {
    ClassifyName(root, m);
    Rebuild(Classify(root, m).name);
  }

  /** No two members of an accepted list share a path. */
  lemma AcceptedMembers(root: string, ms: seq<Member>, i: nat, j: nat)
    requires MembersOk(root, ms) && i < j < |ms|
    ensures CanonicalName(ms[i]) != CanonicalName(ms[j])
  {
    AcceptedMember(root, ms, i);
    AcceptedMember(root, ms, j);
    assert Items(root, ms)[i].name != Items(root, ms)[j].name;
  }

  /** The payload total never passes the limit at any point of the loop, its end included. */
  lemma AcceptedTotal(root: string, ms: seq<Member>, n: nat)
    requires MembersOk(root, ms) && n <= |ms|
    ensures MembersOk(root, ms[..n]) && 0 <= Total(Items(root, ms[..n])) <= Total(Items(root, ms)) <= BUNDLE_MAX_BYTES
  {
    ItemsPrefix(Items(root, ms), n);
    ItemsOfPrefix(root, ms, n);
    TotalPrefix(Items(root, ms), n);
    TotalPrefix(Items(root, ms[..n]), 0);
  }

  // ----- the archive against its inventory

  /** SHA-256 as a free constructor. */
  datatype Hash = Sha256(text: string) | OtherHash(n: nat)

  function EntryMap(es: seq<Entry>): map<string, string> {
    if es == [] then map[] else EntryMap(es[..|es| - 1])[es[|es| - 1].0 := es[|es| - 1].1]
  }

  function Payload(files: map<string, Member>): map<string, string> {
    map r | r in files && !IsMetadata(r) :: files[r].digest
  }

  const REQUIRED: set<string> :=
    {INVENTORY_NAME, PROVENANCE_NAME, "app/helm-local-sidecar.mjs", "runtime/node/bin/node", "runtime/node/LICENSE"}

  /** The conditions on the collected files, given the entries of the released inventory. */
  ghost predicate ClosureOk(files: map<string, Member>, es: seq<Entry>, inventory: string, bundle: Hash) {
    && REQUIRED <= files.Keys
    && files[INVENTORY_NAME].content == inventory
    && files["runtime/node/bin/node"].executable
    && ValidInventory(es) && Print(es) == inventory && Utf8Len(inventory) <= INVENTORY_MAX_BYTES
    && EntryMap(es) == Payload(files)
    && bundle == Sha256(inventory)
  }

  ghost predicate ArchiveAccepts(root: string, ms: seq<Member>, inventory: string, bundle: Hash) {
    MembersOk(root, ms) &&
    exists files, es :: FilesOf(Items(root, ms), files) && ClosureOk(files, es, inventory, bundle)
  }

  lemma {:induction false} EntryMapExact(es: seq<Entry>, k: string, d: string)
    requires DistinctKeys(es)
    ensures (k, d) in es <==> k in EntryMap(es) && EntryMap(es)[k] == d
  {
    if es != [] {
      var init, last := es[..|es| - 1], es[|es| - 1];
      EntryMapExact(init, k, d);
      assert es == init + [last];
      assert forall i :: 0 <= i < |init| ==> init[i] == es[i] && init[i].0 != last.0;
    }
  }

  lemma OrderedDistinct(es: seq<Entry>)
    requires StrictlyOrdered(CodePointLess, es)
    ensures DistinctKeys(es)
  {
    CodePointOrderTotal();
    forall i, j | 0 <= i < j < |es| ensures es[i].0 != es[j].0 {
      assert CodePointLess(es[i].0, es[j].0);
    }
  }

  /** A sorted inventory is determined by the map it spells. */
  lemma EntriesFromMap(es: seq<Entry>, fs: seq<Entry>)
    requires ValidInventory(es) && ValidInventory(fs) && EntryMap(es) == EntryMap(fs)
    ensures es == fs
  {
    OrderedDistinct(es);
    OrderedDistinct(fs);
    forall x: Entry ensures x in es <==> x in fs {
      EntryMapExact(es, x.0, x.1);
      EntryMapExact(fs, x.0, x.1);
    }
    CodePointOrderTotal();
    OrderedUnique(CodePointLess, es, fs);
  }

  lemma FilesUnique(items: seq<Item>, f: map<string, Member>, g: map<string, Member>)
    requires FilesOf(items, f) && FilesOf(items, g)
    ensures f == g
  {
    forall r | r in f ensures r in g && f[r] == g[r] {
      var i :| 0 <= i < |items| && items[i].File? && items[i].relative == r;
    }
    forall r | r in g ensures r in f {
      var i :| 0 <= i < |items| && items[i].File? && items[i].relative == r;
    }
  }

  /** Compares the inventory with the payload: the same names, then each digest. */
  method MatchesPayload(es: seq<Entry>, payload: map<string, string>) returns (same: bool)
    requires DistinctKeys(es)
    ensures same <==> EntryMap(es) == payload
  {
    var inventory := EntryMap(es);
    if inventory.Keys != payload.Keys {
      return false;
    }
    for i := 0 to |es|
      invariant forall j :: 0 <= j < i ==> es[j].0 in payload && payload[es[j].0] == es[j].1
    {
      EntryMapExact(es, es[i].0, es[i].1);
      assert es[i] in es && es[i].0 in inventory.Keys;
      if payload[es[i].0] != es[i].1 {
        return false;
      }
    }
    forall k | k in inventory ensures inventory[k] == payload[k] {
      EntryMapExact(es, k, inventory[k]);
      var j :| 0 <= j < |es| && es[j] == (k, inventory[k]);
    }
    same := true;
  }

  /** The archive check, up to provenance: it accepts exactly the archives that `ArchiveAccepts` describes. */
  method VerifyArchive(root: string, ms: seq<Member>, inventory: string, bundle: Hash) returns (ok: bool)
    ensures ok <==> ArchiveAccepts(root, ms, inventory, bundle)
  {
    var scanned, files, total := ScanMembers(root, ms);
    if !scanned {
      return false;
    }
    forall g | FilesOf(Items(root, ms), g) ensures g == files {
      FilesUnique(Items(root, ms), g, files);
    }
    if !(REQUIRED <= files.Keys) || files[INVENTORY_NAME].content != inventory
       || !files["runtime/node/bin/node"].executable {
      return false;
    }
    var parsed := ParseInventory(inventory);
    if parsed.None? {
      return false;
    }
    var es := parsed.value;
    OrderedDistinct(es);
    forall fs | ValidInventory(fs) && Print(fs) == inventory ensures fs == es {
      PrintInjective(fs, es);
    }
    var same := MatchesPayload(es, Payload(files));
    ok := same && bundle == Sha256(inventory);
    assert ok ==> ClosureOk(files, es, inventory, bundle);
  }

  /** For accepted archives the bundle hash names the payload: equal hashes exactly when equal payload maps. */
  lemma BundleHashExact(root: string, ms: seq<Member>, inventory: string, bundle: Hash, files: map<string, Member>,
                        root': string, ms': seq<Member>, inventory': string, bundle': Hash, files': map<string, Member>)
    requires ArchiveAccepts(root, ms, inventory, bundle) && FilesOf(Items(root, ms), files)
    requires ArchiveAccepts(root', ms', inventory', bundle') && FilesOf(Items(root', ms'), files')
    ensures bundle == bundle' <==> Payload(files) == Payload(files')
  {
    var f, es :| FilesOf(Items(root, ms), f) && ClosureOk(f, es, inventory, bundle);
    var f', es' :| FilesOf(Items(root', ms'), f') && ClosureOk(f', es', inventory', bundle');
    FilesUnique(Items(root, ms), f, files);
    FilesUnique(Items(root', ms'), f', files');
    if bundle == bundle' { PrintInjective(es, es'); }
    if Payload(files) == Payload(files') { EntriesFromMap(es, es'); }
  }

  lemma {:induction false} PayloadListed(files: map<string, Member>, es: seq<Entry>, inventory: string, bundle: Hash,
                                        name: string)
    requires ClosureOk(files, es, inventory, bundle) && name in files && !IsMetadata(name)
    ensures SupportedName(name) && SafePath(name) && (name, files[name].digest) in es
  {
    assert name in Payload(files) && Payload(files)[name] == files[name].digest;
    OrderedDistinct(es);
    EntryMapExact(es, name, files[name].digest);
    var j :| 0 <= j < |es| && es[j] == (name, files[name].digest);
    assert EntryOk(es[j]);
  }

  /** In an accepted archive every payload file is listed under a supported path with its digest. */
  lemma AcceptedPayload(root: string, ms: seq<Member>, inventory: string, bundle: Hash, i: nat)
    requires ArchiveAccepts(root, ms, inventory, bundle) && i < |ms|
    requires Items(root, ms)[i].File? && !IsMetadata(Items(root, ms)[i].relative)
    ensures SupportedName(Items(root, ms)[i].relative) && SafePath(Items(root, ms)[i].relative)
    ensures exists es :: ValidInventory(es) && Print(es) == inventory &&
                         (Items(root, ms)[i].relative, ms[i].digest) in es
  {
    var it := Items(root, ms)[i];
    ItemsAt(root, ms, i);
    var files, es :| FilesOf(Items(root, ms), files) && ClosureOk(files, es, inventory, bundle);
    PayloadListed(files, es, inventory, bundle, it.relative);
  }

  /** What a line of a valid inventory holds: a lower-case digest and a supported path on one line. */
  lemma ListedEntry(es: seq<Entry>, i: nat)
    requires ValidInventory(es) && i < |es|
    ensures var (name, digest) := es[i];
            && |digest| == 64 && (forall k :: 0 <= k < 64 ==> '0' <= digest[k] <= '9' || 'a' <= digest[k] <= 'f')
            && (name == "runtime/node/bin/node" || name == "runtime/node/LICENSE" || "app/" <= name)
            && (forall k :: 0 <= k < |name| ==> name[k] != '\n' && name[k] != '\r' && name[k] != '\\')
            && (forall k :: 0 <= k < |Split(name, '/')| ==> Split(name, '/')[k] !in {"", ".", ".."})
            && name != "" && !Space(name[0])
  {
    assert EntryOk(es[i]);
  }

  /** An accepted archive holds the required files, with an executable runtime and the released inventory. */
  lemma AcceptedRequired(root: string, ms: seq<Member>, inventory: string, bundle: Hash, files: map<string, Member>)
    requires ArchiveAccepts(root, ms, inventory, bundle) && FilesOf(Items(root, ms), files)
    ensures "INVENTORY.sha256" in files && "PROVENANCE.json" in files && "app/helm-local-sidecar.mjs" in files
    ensures "runtime/node/bin/node" in files && "runtime/node/LICENSE" in files
    ensures files["runtime/node/bin/node"].executable && files["INVENTORY.sha256"].content == inventory
    ensures bundle == Sha256(inventory)
  {
    var f, es :| FilesOf(Items(root, ms), f) && ClosureOk(f, es, inventory, bundle);
    FilesUnique(Items(root, ms), f, files);
    assert "app/helm-local-sidecar.mjs" in REQUIRED && "runtime/node/LICENSE" in REQUIRED;
    assert "INVENTORY.sha256" in REQUIRED && "PROVENANCE.json" in REQUIRED && "runtime/node/bin/node" in REQUIRED;
  }

  /** The payload is every file but the two metadata files, under its digest. */
  lemma PayloadExact(files: map<string, Member>, name: string)
    ensures name in Payload(files) <==> name in files && name != "INVENTORY.sha256" && name != "PROVENANCE.json"
    ensures name in Payload(files) ==> Payload(files)[name] == files[name].digest
  {
  }

  /** The limits in bytes: 512 and 16 binary megabytes, counted on the UTF-8 encoding. */
  lemma {:induction false} Limits(s: string, c: char)
    ensures BUNDLE_MAX_BYTES == 512 * 1024 * 1024 && INVENTORY_MAX_BYTES == 16 * 1024 * 1024
    ensures Utf8Len("") == 0 && Utf8Len([c] + s) == |Utf8(c)| + Utf8Len(s)
  {
    assert ([c] + s)[1..] == s;
  }
}
