/**
  Blanking of Go comments and string/rune literals. The source scans ahead segment by segment; the
  reference here is an automaton that looks at one character and its successor.
 */
module GoStrip {

  datatype Mode =
    | Code
    | LineComment
    | BlockOpen             // on the star that opens a block comment
    | BlockComment
    | BlockClose            // on the slash that closes it
    | Quoted(quote: char)
    | Skipping(quote: char) // on the character after a backslash
    | Raw

  predicate IsQuote(c: char) { c == '"' || c == '\'' || c == '`' }

  function Blank(c: char): char { if c == '\n' then '\n' else ' ' }

  predicate Pair(t: string, i: nat, a: char, b: char) {
    i + 1 < |t| && t[i] == a && t[i + 1] == b
  }

  /** A comment opens at `i`. */
  predicate Opens(t: string, i: nat) { Pair(t, i, '/', '/') || Pair(t, i, '/', '*') }

  predicate Survives(m: Mode, t: string, i: nat)
    requires i < |t|
  {
    (m.Code? && !Opens(t, i) && !IsQuote(t[i])) || (m.LineComment? && t[i] == '\n')
  }

  /** The mode after reading position `i` in mode `m`. */
  function Next(m: Mode, t: string, i: nat): Mode
    requires i < |t|
  {
    var c := t[i];
    match m
    case Code =>
      if Pair(t, i, '/', '/') then LineComment
      else if Pair(t, i, '/', '*') then BlockOpen
      else if c == '`' then Raw
      else if IsQuote(c) then Quoted(c)
      else Code
    case LineComment => if c == '\n' then Code else LineComment
    case BlockOpen => BlockComment
    case BlockComment => if Pair(t, i, '*', '/') then BlockClose else BlockComment
    case BlockClose => Code
    case Quoted(q) => if c == '\\' then Skipping(q) else if c == q then Code else Quoted(q)
    case Skipping(q) => Quoted(q)
    case Raw => if c == '`' then Code else Raw
  }

  function Emit(m: Mode, t: string, i: nat): char
    requires i < |t|
  {
    if Survives(m, t, i) then t[i] else Blank(t[i])
  }

  /** The output of the automaton from position `i` on. */
  function Run(m: Mode, t: string, i: nat): (r: string)
    requires i <= |t|
    ensures |r| == |t| - i
    decreases |t| - i
  {
    if i == |t| then "" else [Emit(m, t, i)] + Run(Next(m, t, i), t, i + 1)
  }

  function Strip(t: string): string { Run(Code, t, 0) }

  /** The mode in which the automaton reads position `k`. */
  function ModeAt(m: Mode, t: string, i: nat, k: nat): Mode
    requires i <= k < |t|
    decreases k - i
  {
    if i == k then m else ModeAt(Next(m, t, i), t, i + 1, k)
  }

  // ----- the scanner of the source

  function Blanks(t: string, i: nat, j: nat): (r: string)
    requires i <= j <= |t|
    ensures |r| == j - i
  {
    seq(j - i, k requires 0 <= k < j - i => Blank(t[i + k]))
  }

  predicate FoundAt(t: string, needle: string, k: nat) {
    k + |needle| <= |t| && forall d :: 0 <= d < |needle| ==> t[k + d] == needle[d]
  }

  /** Index of the first occurrence of `needle` at or after `from`, or -1. */
  method Find(t: string, needle: string, from: nat) returns (j: int)
    requires from <= |t|
    ensures j == -1 || (from <= j && FoundAt(t, needle, j))
    ensures forall k :: from <= k <= |t| && (j == -1 || k < j) ==> !FoundAt(t, needle, k)
  {
    j := from;
    while j <= |t|
      invariant from <= j
      invariant forall k :: from <= k < j ==> !FoundAt(t, needle, k)
    {
      if FoundAt(t, needle, j) {
        return;
      }
      j := j + 1;
    }
    j := -1;
  }

  lemma FoundOne(t: string, a: char, k: nat)
    ensures FoundAt(t, [a], k) <==> k < |t| && t[k] == a
  {
    assert k < |t| ==> t[k + 0] == t[k];
    assert FoundAt(t, [a], k) ==> t[k + 0] == [a][0];
  }

  lemma FoundTwo(t: string, a: char, b: char, k: nat)
    ensures FoundAt(t, [a, b], k) <==> Pair(t, k, a, b)
  {
    assert FoundAt(t, [a, b], k) ==> t[k + 0] == [a, b][0] && t[k + 1] == [a, b][1];
  }

  /** From `i` in mode `m`, everything before `j` is blanked and `j` is read in mode `m'`. */
  ghost predicate Segment(m: Mode, t: string, i: nat, m': Mode, j: nat) {
    i <= j <= |t| && Run(m, t, i) == Blanks(t, i, j) + Run(m', t, j)
  }

  lemma SegmentStep(m: Mode, t: string, i: nat)
    requires i < |t| && !Survives(m, t, i)
    ensures Segment(m, t, i, Next(m, t, i), i + 1)
  {
  }

  lemma SegmentJoin(m: Mode, t: string, i: nat, m': Mode, j: nat, m'': Mode, k: nat)
    requires Segment(m, t, i, m', j) && Segment(m', t, j, m'', k)
    ensures Segment(m, t, i, m'', k)
  {
    assert Blanks(t, i, k) == Blanks(t, i, j) + Blanks(t, j, k);
  }

  /** A stretch on which every step stays in the same blanking mode. */
  lemma {:induction false} SegmentStay(m: Mode, t: string, i: nat, j: nat)
    requires i <= j <= |t|
    requires forall k :: i <= k < j ==> Next(m, t, k) == m && !Survives(m, t, k)
    ensures Segment(m, t, i, m, j)
    decreases j - i
  {
    if i < j {
      SegmentStep(m, t, i);
      SegmentStay(m, t, i + 1, j);
      SegmentJoin(m, t, i, m, i + 1, m, j);
    }
  }

  lemma LineSegment(t: string, i: nat, j: nat)
    requires Pair(t, i, '/', '/') && i + 2 <= j <= |t|
    requires forall k :: i <= k < j ==> t[k] != '\n'
    requires j < |t| ==> t[j] == '\n'
    ensures Segment(Code, t, i, Code, j)
  {
    SegmentStep(Code, t, i);
    SegmentStay(LineComment, t, i + 1, j);
    SegmentJoin(Code, t, i, LineComment, i + 1, LineComment, j);
    assert Run(LineComment, t, j) == Run(Code, t, j);
  }

  lemma BlockSegment(t: string, i: nat, j: nat, e: nat)
    requires Pair(t, i, '/', '*') && i + 2 <= j <= |t|
    requires forall k :: i + 2 <= k < j ==> !Pair(t, k, '*', '/')
    requires if j < |t| then Pair(t, j, '*', '/') && e == j + 2 else e == j
    ensures Segment(Code, t, i, Code, e)
  {
    SegmentStep(Code, t, i);
    SegmentStep(BlockOpen, t, i + 1);
    SegmentJoin(Code, t, i, BlockOpen, i + 1, BlockComment, i + 2);
    SegmentStay(BlockComment, t, i + 2, j);
    SegmentJoin(Code, t, i, BlockComment, i + 2, BlockComment, j);
    if j < |t| {
      SegmentStep(BlockComment, t, j);
      SegmentStep(BlockClose, t, j + 1);
      SegmentJoin(BlockComment, t, j, BlockClose, j + 1, Code, e);
      SegmentJoin(Code, t, i, BlockComment, j, Code, e);
    }
  }

  lemma RawSegment(t: string, i: nat, j: nat, e: nat)
    requires i < |t| && t[i] == '`' && i + 1 <= j <= |t|
    requires forall k :: i + 1 <= k < j ==> t[k] != '`'
    requires if j < |t| then t[j] == '`' && e == j + 1 else e == j
    ensures Segment(Code, t, i, Code, e)
  {
    SegmentStep(Code, t, i);
    SegmentStay(Raw, t, i + 1, j);
    SegmentJoin(Code, t, i, Raw, i + 1, Raw, j);
    if j < |t| {
      SegmentStep(Raw, t, j);
      SegmentJoin(Code, t, i, Raw, j, Code, e);
    }
  }

  /** At the end of the text the mode no longer matters. */
  lemma SegmentEnd(m: Mode, t: string, i: nat, m': Mode)
    requires Segment(m, t, i, m', |t|)
    ensures Segment(m, t, i, Code, |t|)
  {
  }

  /** Scans a quoted literal that starts at `i` and returns the index just past it. */
  method SkipQuoted(t: string, i: nat) returns (e: nat)
    requires i < |t| && IsQuote(t[i]) && t[i] != '`'
    ensures i < e && Segment(Code, t, i, Code, e)
  {
    var quote, n := t[i], |t|;
    var j := i + 1;
    SegmentStep(Code, t, i);
    while j < n
      invariant i < j <= n + 1
      invariant j <= n ==> Segment(Code, t, i, Quoted(quote), j)
      invariant j > n ==> Segment(Code, t, i, Code, n)
    {
      SegmentStep(Quoted(quote), t, j);
      SegmentJoin(Code, t, i, Quoted(quote), j, Next(Quoted(quote), t, j), j + 1);
      if t[j] == '\\' {
        if j + 1 < n {
          SegmentStep(Skipping(quote), t, j + 1);
          SegmentJoin(Code, t, i, Skipping(quote), j + 1, Quoted(quote), j + 2);
        } else {
          SegmentEnd(Code, t, i, Skipping(quote));
        }
        j := j + 2;
        continue;
      }
      if t[j] == quote {
        return j + 1;
      }
      j := j + 1;
    }
    if j == n { SegmentEnd(Code, t, i, Quoted(quote)); }
    e := if n < j then n else j;
  }

  lemma Emitted(out: string, t: string, i: nat, e: nat)
    requires Segment(Code, t, i, Code, e) && out + Run(Code, t, i) == Strip(t)
    ensures out + Blanks(t, i, e) + Run(Code, t, e) == Strip(t)
  {
  }

  /** The end of the comment or literal at `i`; `i` itself when ordinary code stands there. */
  method SegmentFrom(text: string, i: nat) returns (e: nat)
    requires i < |text|
    ensures if Survives(Code, text, i) then e == i else i < e && Segment(Code, text, i, Code, e)
  {
    var ch, n := text[i], |text|;
    var nxt := if i + 1 < n then [text[i + 1]] else "";
    if ch == '/' && nxt == "/" {
      var j := Find(text, "\n", i);
      e := if j == -1 then n else j;
      forall k | i <= k < e ensures text[k] != '\n' {
        FoundOne(text, '\n', k);
      }
      if j != -1 { FoundOne(text, '\n', j); }
      LineSegment(text, i, e);
    } else if ch == '/' && nxt == "*" {
      var j := Find(text, "*/", i + 2);
      e := if j == -1 then n else j + 2;
      forall k | i + 2 <= k < n && (j == -1 || k < j) ensures !Pair(text, k, '*', '/') {
        FoundTwo(text, '*', '/', k);
      }
      if j != -1 { FoundTwo(text, '*', '/', j); }
      BlockSegment(text, i, if j == -1 then n else j, e);
    } else if ch == '`' {
      var j := Find(text, "`", i + 1);
      e := if j == -1 then n else j + 1;
      forall k | i + 1 <= k < n && (j == -1 || k < j) ensures text[k] != '`' {
        FoundOne(text, '`', k);
      }
      if j != -1 { FoundOne(text, '`', j); }
      RawSegment(text, i, if j == -1 then n else j, e);
    } else if IsQuote(ch) {
      e := SkipQuoted(text, i);
    } else {
      e := i;
    }
  }

  /** The scanner computes what the automaton computes, on every text. */
  method StripGoNoncode(text: string) returns (out: string)
    ensures out == Strip(text)
  {
    out := "";
    var i, n := 0, |text|;
    while i < n
      invariant 0 <= i <= n
      invariant out + Run(Code, text, i) == Strip(text)
    {
      var e := SegmentFrom(text, i);
      if e == i {
        out := out + [text[i]];
        i := i + 1;
      } else {
        Emitted(out, text, i, e);
        out := out + Blanks(text, i, e);
        i := e;
      }
    }
  }

  // ----- what the result means

  /** Position by position: a character is kept exactly when the automaton reads it as code. */
  lemma {:induction false} CharacterFate(m: Mode, t: string, i: nat, k: nat)
    requires i <= k < |t|
    ensures Run(m, t, i)[k - i] == Emit(ModeAt(m, t, i, k), t, k)
    decreases k - i
  {
    if i < k { CharacterFate(Next(m, t, i), t, i + 1, k); }
  }

  /** The text keeps its length and its lines; every character is the original or a space. */
  lemma StripAligned(t: string, k: nat)
    requires k < |t|
    ensures |Strip(t)| == |t|
    ensures Strip(t)[k] == '\n' <==> t[k] == '\n'
    ensures Strip(t)[k] == t[k] || Strip(t)[k] == ' '
    ensures Survives(ModeAt(Code, t, 0, k), t, k) ==> Strip(t)[k] == t[k]
  {
    CharacterFate(Code, t, 0, k);
  }

  /** No quotation mark and no comment opener is left anywhere. */
  predicate Clean(s: string) {
    forall i :: 0 <= i < |s| ==> !IsQuote(s[i]) && !Opens(s, i)
  }

  lemma StripClean(t: string)
    ensures Clean(Strip(t))
  {
    var s := Strip(t);
    forall i | 0 <= i < |s| ensures !IsQuote(s[i]) && !Opens(s, i) {
      CharacterFate(Code, t, 0, i);
      if i + 1 < |s| { StripAligned(t, i + 1); }
    }
  }

  lemma {:induction false} CleanFixed(s: string, i: nat)
    requires Clean(s) && i <= |s|
    ensures Run(Code, s, i) == s[i..]
    decreases |s| - i
  {
    if i < |s| { CleanFixed(s, i + 1); }
  }

  /** Stripped text is clean and stripping it again changes nothing. */
  lemma StripIdempotent(t: string)
    ensures Clean(Strip(t))
    ensures Strip(Strip(t)) == Strip(t)
  {
    StripClean(t);
    CleanFixed(Strip(t), 0);
  }

  // ----- form by form, without modes

  function BlankText(s: string): string { Blanks(s, 0, |s|) }

  lemma {:induction false} RunSuffix(m: Mode, a: string, b: string, k: nat)
    requires k <= |b|
    ensures Run(m, a + b, |a| + k) == Run(m, b, k)
    decreases |b| - k
  {
    var t := a + b;
    assert forall i :: 0 <= i < |b| ==> t[|a| + i] == b[i];
    if k < |b| {
      assert Next(m, t, |a| + k) == Next(m, b, k) && Emit(m, t, |a| + k) == Emit(m, b, k);
      RunSuffix(Next(m, b, k), a, b, k + 1);
    }
  }

  /** A form at the head of the text is blanked, and stripping goes on behind it. */
  lemma {:induction false} FormBlanked(form: string, rest: string)
    requires Segment(Code, form + rest, 0, Code, |form|)
    ensures Strip(form + rest) == BlankText(form) + Strip(rest)
  {
    var t := form + rest;
    RunSuffix(Code, form, rest, 0);
    assert Blanks(t, 0, |form|) == BlankText(form);
  }

  /** Ordinary code is kept. */
  lemma {:induction false} CodeKept(c: char, rest: string)
    requires !IsQuote(c) && !(c == '/' && rest != "" && (rest[0] == '/' || rest[0] == '*'))
    ensures Strip([c] + rest) == [c] + Strip(rest)
  {
    var t := [c] + rest;
    RunSuffix(Code, [c], rest, 0);
    assert t[0] == c && (rest != "" ==> t[1] == rest[0]);
  }

  /** The inside of a quoted literal: plain characters, and a backslash with any character. */
  predicate QuotedBody(b: string, quote: char) {
    || b == ""
    || (b[0] != quote && b[0] != '\\' && QuotedBody(b[1..], quote))
    || (b[0] == '\\' && |b| >= 2 && QuotedBody(b[2..], quote))
  }

  lemma {:induction false} QuotedSegment(t: string, i: nat, b: string, quote: char)
    requires i + |b| <= |t| && t[i..i + |b|] == b && QuotedBody(b, quote) && quote != '\\'
    ensures Segment(Quoted(quote), t, i, Quoted(quote), i + |b|)
    decreases |b|
  {
    if b != "" {
      var n := if b[0] == '\\' then 2 else 1;
      assert t[i] == b[0];
      SegmentStep(Quoted(quote), t, i);
      if n == 2 {
        SegmentStep(Skipping(quote), t, i + 1);
        SegmentJoin(Quoted(quote), t, i, Skipping(quote), i + 1, Quoted(quote), i + 2);
      }
      assert t[i + n..i + n + |b[n..]|] == b[n..];
      QuotedSegment(t, i + n, b[n..], quote);
      SegmentJoin(Quoted(quote), t, i, Quoted(quote), i + n, Quoted(quote), i + |b|);
    }
  }

  lemma {:induction false} QuotedOpened(t: string, b: string, quote: char)
    requires (quote == '"' || quote == '\'') && QuotedBody(b, quote) && [quote] + b <= t
    ensures Segment(Code, t, 0, Quoted(quote), 1 + |b|)
  {
    assert t[0] == quote && t[1..1 + |b|] == b;
    SegmentStep(Code, t, 0);
    QuotedSegment(t, 1, b, quote);
    SegmentJoin(Code, t, 0, Quoted(quote), 1, Quoted(quote), 1 + |b|);
  }

  /** A string or rune literal, escapes included, is blanked from quote to quote. */
  lemma {:induction false} QuotedBlanked(quote: char, b: string, rest: string)
    requires (quote == '"' || quote == '\'') && QuotedBody(b, quote)
    ensures Strip([quote] + b + [quote] + rest) == BlankText([quote] + b + [quote]) + Strip(rest)
  {
    var form := [quote] + b + [quote];
    var t := form + rest;
    assert t[..1 + |b|] == [quote] + b;
    QuotedOpened(t, b, quote);
    assert t[1 + |b|] == quote;
    SegmentStep(Quoted(quote), t, 1 + |b|);
    SegmentJoin(Code, t, 0, Quoted(quote), 1 + |b|, Code, |form|);
    FormBlanked(form, rest);
  }

  /** A literal without its closing quote, with or without a last backslash, is blanked to the end. */
  lemma {:induction false} OpenQuotedBlanked(quote: char, b: string, tail: string)
    requires (quote == '"' || quote == '\'') && QuotedBody(b, quote) && (tail == "" || tail == "\\")
    ensures Strip([quote] + b + tail) == BlankText([quote] + b + tail)
  {
    var t := [quote] + b + tail;
    assert t[..1 + |b|] == [quote] + b;
    QuotedOpened(t, b, quote);
    if tail != "" {
      assert t[1 + |b|] == '\\';
      SegmentStep(Quoted(quote), t, 1 + |b|);
      SegmentJoin(Code, t, 0, Quoted(quote), 1 + |b|, Skipping(quote), |t|);
      SegmentEnd(Code, t, 0, Skipping(quote));
    } else {
      SegmentEnd(Code, t, 0, Quoted(quote));
    }
    assert t + "" == t;
    FormBlanked(t, "");
  }

  predicate Lacks(b: string, c: char) { forall i :: 0 <= i < |b| ==> b[i] != c }

  /** A raw literal is blanked from backquote to backquote, or to the end. */
  lemma {:induction false} RawBlanked(b: string, rest: string)
    requires Lacks(b, '`')
    ensures Strip("`" + b + "`" + rest) == BlankText("`" + b + "`") + Strip(rest)
    ensures Strip("`" + b) == BlankText("`" + b)
  {
    var form := "`" + b + "`";
    var t := form + rest;
    assert t[0] == '`' && t[1 + |b|] == '`' && forall k :: 1 <= k < 1 + |b| ==> t[k] == b[k - 1];
    RawSegment(t, 0, 1 + |b|, |form|);
    FormBlanked(form, rest);
    var u := "`" + b;
    assert u[0] == '`' && forall k :: 1 <= k < |u| ==> u[k] == b[k - 1];
    RawSegment(u, 0, |u|, |u|);
    assert u + "" == u;
    FormBlanked(u, "");
  }

  /** A line comment is blanked up to its line feed, which stays, or to the end. */
  lemma {:induction false} LineCommentBlanked(b: string, rest: string)
    requires Lacks(b, '\n')
    ensures Strip("//" + b + ("\n" + rest)) == BlankText("//" + b) + "\n" + Strip(rest)
    ensures Strip("//" + b) == BlankText("//" + b)
  {
    var form := "//" + b;
    var t := form + ("\n" + rest);
    assert t[0] == '/' && t[1] == '/' && t[|form|] == '\n' && forall k :: 2 <= k < |form| ==> t[k] == b[k - 2];
    LineSegment(t, 0, |form|);
    FormBlanked(form, "\n" + rest);
    CodeKept('\n', rest);
    assert ['\n'] + rest == "\n" + rest;
    assert form[0] == '/' && form[1] == '/' && forall k :: 2 <= k < |form| ==> form[k] == b[k - 2];
    LineSegment(form, 0, |form|);
    assert form + "" == form;
    FormBlanked(form, "");
  }

  predicate LacksClose(b: string) { forall i :: 0 <= i < |b| ==> !Pair(b, i, '*', '/') }

  /** A block comment is blanked from its opening to the first closing, or to the end. */
  lemma {:induction false} BlockCommentBlanked(b: string, rest: string)
    requires LacksClose(b)
    ensures Strip("/*" + b + "*/" + rest) == BlankText("/*" + b + "*/") + Strip(rest)
    ensures Strip("/*" + b) == BlankText("/*" + b)
  {
    var form := "/*" + b + "*/";
    var t := form + rest;
    var j := 2 + |b|;
    assert t[0] == '/' && t[1] == '*' && t[j] == '*' && t[j + 1] == '/' && forall k :: 2 <= k < j ==> t[k] == b[k - 2];
    forall k | 2 <= k < j ensures !Pair(t, k, '*', '/') {
      assert !Pair(b, k - 2, '*', '/');
    }
    BlockSegment(t, 0, j, |form|);
    FormBlanked(form, rest);
    var u := "/*" + b;
    assert u[0] == '/' && u[1] == '*' && forall k :: 2 <= k < |u| ==> u[k] == b[k - 2];
    forall k | 2 <= k < |u| ensures !Pair(u, k, '*', '/') {
      assert !Pair(b, k - 2, '*', '/');
    }
    BlockSegment(u, 0, |u|, |u|);
    assert u + "" == u;
    FormBlanked(u, "");
  }

  /** A blanked text has a space for every character but its line feeds. */
  lemma BlankTextAt(s: string, i: nat)
    requires i < |s|
    ensures |BlankText(s)| == |s| && BlankText(s)[i] == if s[i] == '\n' then '\n' else ' '
  {
  }
}
