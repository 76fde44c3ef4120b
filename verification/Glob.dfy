/**
  The glob compiler of the source inventory: a pattern becomes the text of an anchored regular
  expression. The text is read back as a regular expression, given its matching semantics, and
  compared with a direct matcher on patterns.
 */
module Glob {
  import opened HostText
  import opened Wrappers

  // ----- regular expressions of the fragment the compiler can produce

  datatype Item = Lit(c: char) | AnyRun | SegmentRun   // `c`, `.*`, `[^/]*`

  /** `.` matches anything but a newline; `[^/]` anything but a slash. */
  predicate Repeats(it: Item, c: char)
    requires !it.Lit?
  {
    if it.AnyRun? then c != '\n' else c != '/'
  }

  /** The items match exactly the whole of `s`. */
  ghost predicate Full(items: seq<Item>, s: string) {
    if items == [] then s == ""
    else if items[0].Lit? then s != "" && s[0] == items[0].c && Full(items[1..], s[1..])
    else exists n :: 0 <= n <= |s| && Run(items[0], s, n) && Full(items[1..], s[n..])
  }

  ghost predicate Run(it: Item, s: string, n: nat)
    requires !it.Lit? && n <= |s|
  {
    forall k :: 0 <= k < n ==> Repeats(it, s[k])
  }

  /** `^items$` at the start of `s`: the dollar also matches before a final newline. */
  ghost predicate Match(items: seq<Item>, s: string) {
    Full(items, s) || (s != "" && s[|s| - 1] == '\n' && Full(items, s[..|s| - 1]))
  }

  /** The characters that the host's `re.escape` puts a backslash before. */
  predicate Special(c: char) {
    c in "()[]{}?*+-|^$\\.&~# \t\n\r" || c as int == 11 || c as int == 12
  }

  function Escape(c: char): string { if Special(c) then ['\\', c] else [c] }

  function ItemText(it: Item): string {
    match it
    case Lit(c) => Escape(c)
    case AnyRun => ".*"
    case SegmentRun => "[^/]*"
  }

  function Text(items: seq<Item>): string {
    if items == [] then "" else ItemText(items[0]) + Text(items[1..])
  }

  function Cons(it: Item, r: Option<seq<Item>>): Option<seq<Item>> {
    if r.None? then None else Some([it] + r.value)
  }

  /** The characters with a meaning of their own in a regular expression. */
  predicate Meta(c: char) { c in ".^$*+?{}[]\\|()" }

  /** A backslash before one of these is not a plain escape. */
  predicate Alphanumeric(c: char) { '0' <= c <= '9' || 'a' <= c <= 'z' || 'A' <= c <= 'Z' }

  /** Reads the body of a regular expression up to its closing dollar; `None` outside the fragment. */
  function ReadBody(t: string): Option<seq<Item>> {
    if t == "$" then Some([])
    else if |t| >= 2 && t[0] == '\\' then if Alphanumeric(t[1]) then None else Cons(Lit(t[1]), ReadBody(t[2..]))
    else if |t| >= 2 && t[..2] == ".*" then Cons(AnyRun, ReadBody(t[2..]))
    else if |t| >= 5 && t[..5] == "[^/]*" then Cons(SegmentRun, ReadBody(t[5..]))
    else if t == "" || Meta(t[0]) then None
    else Cons(Lit(t[0]), ReadBody(t[1..]))
  }

  /** Escaping covers every meta character and never turns a letter or digit into a class. */
  lemma EscapeCovers(c: char)
    ensures Meta(c) ==> Special(c)
    ensures Special(c) ==> !Alphanumeric(c)
  {
  }

  function ReadRegex(t: string): Option<seq<Item>> {
    if t != "" && t[0] == '^' then ReadBody(t[1..]) else None
  }

  // ----- the compiler

  function Items(p: string): seq<Item> {
    if p == "" then []
    else if |p| >= 2 && p[0] == '*' && p[1] == '*' then [AnyRun] + Items(p[2..])
    else if p[0] == '*' then [SegmentRun] + Items(p[1..])
    else [Lit(p[0])] + Items(p[1..])
  }

  method InventoryPatternToRegex(pattern: string) returns (output: string)
    ensures output == "^" + Text(Items(pattern)) + "$"
  {
    output := "^";
    var index := 0;
    assert pattern[0..] == pattern;
    while index < |pattern|
      invariant 0 <= index <= |pattern|
      invariant output + Text(Items(pattern[index..])) == "^" + Text(Items(pattern))
    {
      ghost var rest := pattern[index..];
      var ch := pattern[index];
      var next := if index + 1 < |pattern| then [pattern[index + 1]] else "";
      if ch == '*' && next == "*" {
        assert rest[2..] == pattern[index + 2..];
        TextCons(AnyRun, Items(rest[2..]));
        Assoc(output, ".*", Text(Items(rest[2..])));
        output := output + ".*";
        index := index + 2;
        continue;
      }
      assert rest[1..] == pattern[index + 1..];
      if ch == '*' {
        TextCons(SegmentRun, Items(rest[1..]));
        Assoc(output, "[^/]*", Text(Items(rest[1..])));
        output := output + "[^/]*";
      } else {
        TextCons(Lit(ch), Items(rest[1..]));
        Assoc(output, Escape(ch), Text(Items(rest[1..])));
        output := output + Escape(ch);
      }
      index := index + 1;
    }
    assert pattern[|pattern|..] == "";
    output := output + "$";
  }

  lemma TextCons(it: Item, items: seq<Item>)
    ensures Text([it] + items) == ItemText(it) + Text(items)
  {
    assert ([it] + items)[1..] == items;
  }

  lemma ReadItem(it: Item, t: string)
    requires t != ""
    ensures ReadBody(ItemText(it) + t) == Cons(it, ReadBody(t))
  {
    var s := ItemText(it) + t;
    match it
    case Lit(c) =>
      EscapeCovers(c);
      if Special(c) {
        assert s[..2] == ['\\', c] && s[2..] == t;
      } else {
        assert s[0] == c && s[1..] == t;
        assert s[..2] != ".*" by { assert s[..2][0] == c; }
        assert |s| >= 5 ==> s[..5] != "[^/]*" by { if |s| >= 5 { assert s[..5][0] == c; } }
      }
    case AnyRun =>
      assert s[..2] == ".*" && s[2..] == t;
    case SegmentRun =>
      assert s[..5] == "[^/]*" && s[5..] == t;
      assert s[..2] != ".*" by { assert s[..2][0] == '['; }
  }

  lemma {:induction false} ReadText(items: seq<Item>)
    ensures ReadBody(Text(items) + "$") == Some(items)
  {
    if items == [] {
      assert Text(items) + "$" == "$";
    } else {
      ReadText(items[1..]);
      ReadItem(items[0], Text(items[1..]) + "$");
      assert Text(items) + "$" == ItemText(items[0]) + (Text(items[1..]) + "$");
      assert items == [items[0]] + items[1..];
    }
  }

  // ----- the direct matcher

  predicate DoubleStar(p: string) { |p| >= 2 && p[0] == '*' && p[1] == '*' }

  /** Two stars take any text without a newline, one star any text without a slash. */
  predicate Glob(p: string, s: string)
    decreases |p| + |s|
  {
    if p == "" then s == ""
    else if DoubleStar(p) then Glob(p[2..], s) || (s != "" && s[0] != '\n' && Glob(p, s[1..]))
    else if p[0] == '*' then Glob(p[1..], s) || (s != "" && s[0] != '/' && Glob(p, s[1..]))
    else s != "" && s[0] == p[0] && Glob(p[1..], s[1..])
  }

  lemma {:induction false} StarUnfold(it: Item, items: seq<Item>, s: string)
    requires !it.Lit?
    ensures Full([it] + items, s) <==>
            Full(items, s) || (s != "" && Repeats(it, s[0]) && Full([it] + items, s[1..]))
  {
    var all := [it] + items;
    assert all[1..] == items && all[0] == it;
    assert s[0..] == s;
    if Full(items, s) {
      assert Run(it, s, 0) && Full(all[1..], s[0..]);
    }
    if s != "" && Repeats(it, s[0]) && Full(all, s[1..]) {
      var n :| 0 <= n <= |s[1..]| && Run(it, s[1..], n) && Full(items, s[1..][n..]);
      assert s[1..][n..] == s[n + 1..];
      forall k | 0 <= k < n + 1 ensures Repeats(it, s[k]) {
        if k > 0 { assert s[k] == s[1..][k - 1]; }
      }
      assert Run(it, s, n + 1) && Full(all[1..], s[n + 1..]);
    }
    if Full(all, s) {
      var n :| 0 <= n <= |s| && Run(it, s, n) && Full(all[1..], s[n..]);
      if n > 0 {
        assert Repeats(it, s[0]);
        assert s[1..][n - 1..] == s[n..];
        forall k | 0 <= k < n - 1 ensures Repeats(it, s[1..][k]) {
          assert s[1..][k] == s[k + 1];
        }
        assert Run(it, s[1..], n - 1);
      }
    }
  }

  /** The compiled items match what the direct matcher matches. */
  lemma {:induction false} ItemsMeaning(p: string, s: string)
    ensures Full(Items(p), s) <==> Glob(p, s)
    decreases |p| + |s|
  {
    if p != "" {
      if DoubleStar(p) {
        StarUnfold(AnyRun, Items(p[2..]), s);
        ItemsMeaning(p[2..], s);
        if s != "" { ItemsMeaning(p, s[1..]); }
      } else if p[0] == '*' {
        StarUnfold(SegmentRun, Items(p[1..]), s);
        ItemsMeaning(p[1..], s);
        if s != "" { ItemsMeaning(p, s[1..]); }
      } else {
        assert Items(p)[1..] == Items(p[1..]);
        if s != "" { ItemsMeaning(p[1..], s[1..]); }
      }
    }
  }

  /** What the compiled regular expression accepts, for every pattern and every path. */
  ghost predicate Accepts(p: string, path: string) {
    var r := ReadRegex("^" + Text(Items(p)) + "$");
    r.Some? && Match(r.value, path)
  }

  lemma CompilerExact(p: string, path: string)
    ensures Accepts(p, path) <==>
            Glob(p, path) || (path != "" && path[|path| - 1] == '\n' && Glob(p, path[..|path| - 1]))
  {
    var t := "^" + Text(Items(p)) + "$";
    ReadText(Items(p));
    assert t[1..] == Text(Items(p)) + "$";
    ItemsMeaning(p, path);
    if path != "" { ItemsMeaning(p, path[..|path| - 1]); }
  }

  /** On a path without a final newline the compiled pattern is exactly the glob. */
  lemma CompilerMeaning(p: string, path: string)
    requires path == "" || path[|path| - 1] != '\n'
    ensures Accepts(p, path) <==> Glob(p, path)
  {
    CompilerExact(p, path);
  }

  /** With a final newline the anchor is looser than the glob: `a` accepts the path "a\n". */
  lemma FinalNewlineAccepted()
    ensures Accepts("a", "a\n") && !Glob("a", "a\n")
  {
    CompilerExact("a", "a\n");
    assert "a\n"[..1] == "a";
    assert "a"[1..] == "" && "a\n"[1..] == "\n";
  }

  function Stars(n: nat): string { seq(n, _ => '*') }

  predicate NewlineFree(s: string) { forall i :: 0 <= i < |s| ==> s[i] != '\n' }

  ghost predicate SomeSuffix(q: string, s: string) {
    exists n :: 0 <= n <= |s| && Glob(q, s[n..])
  }

  lemma SuffixStep(q: string, s: string)
    ensures SomeSuffix(q, s) <==> Glob(q, s) || (s != "" && SomeSuffix(q, s[1..]))
  {
    assert s[0..] == s;
    if SomeSuffix(q, s) && !Glob(q, s) {
      var n :| 0 <= n <= |s| && Glob(q, s[n..]);
      assert s[1..][n - 1..] == s[n..];
    }
    if s != "" && SomeSuffix(q, s[1..]) {
      var n :| 0 <= n <= |s[1..]| && Glob(q, s[1..][n..]);
      assert s[1..][n..] == s[n + 1..];
    }
  }

  lemma {:induction false} DoubleStarSuffix(q: string, s: string)
    requires NewlineFree(s)
    ensures Glob("**" + q, s) <==> SomeSuffix(q, s)
    decreases |s|
  {
    assert ("**" + q)[2..] == q && DoubleStar("**" + q);
    SuffixStep(q, s);
    if s != "" { DoubleStarSuffix(q, s[1..]); }
  }

  lemma {:induction false} SingleStarSuffix(p: string, s: string)
    requires p == "" || p[0] != '*'
    ensures Glob("*" + p, s) ==> SomeSuffix(p, s)
    ensures Glob(p, s) ==> Glob("*" + p, s)
    decreases |s|
  {
    assert ("*" + p)[1..] == p && !DoubleStar("*" + p);
    SuffixStep(p, s);
    if s != "" { SingleStarSuffix(p, s[1..]); }
  }

  lemma SuffixChain(q: string, p: string, s: string)
    requires forall n :: 0 <= n <= |s| ==> (Glob(q, s[n..]) ==> SomeSuffix(p, s[n..]))
    requires forall n :: 0 <= n <= |s| ==> (Glob(p, s[n..]) ==> Glob(q, s[n..]))
    ensures SomeSuffix(q, s) <==> SomeSuffix(p, s)
  {
    if SomeSuffix(q, s) {
      var n :| 0 <= n <= |s| && Glob(q, s[n..]);
      var m :| 0 <= m <= |s[n..]| && Glob(p, s[n..][m..]);
      assert s[n..][m..] == s[n + m..];
    }
  }

  /** On a newline-free path any run of two or more stars means the same as two. */
  lemma {:induction false} StarRuns(k: nat, p: string, s: string)
    requires k >= 2 && NewlineFree(s) && (p == "" || p[0] != '*')
    ensures Glob(Stars(k) + p, s) <==> Glob("**" + p, s)
    decreases k
  {
    DoubleStarSuffix(p, s);
    var q := Stars(k - 2) + p;
    assert Stars(k) + p == "**" + q;
    DoubleStarSuffix(q, s);
    if k == 2 {
      assert q == p;
    } else {
      forall n | 0 <= n <= |s|
        ensures (Glob(q, s[n..]) ==> SomeSuffix(p, s[n..])) && (Glob(p, s[n..]) ==> Glob(q, s[n..]))
      {
        if k == 3 {
          assert q == "*" + p;
          SingleStarSuffix(p, s[n..]);
        } else {
          StarRuns(k - 2, p, s[n..]);
          DoubleStarSuffix(p, s[n..]);
          SuffixStep(p, s[n..]);
        }
      }
      SuffixChain(q, p, s);
    }
  }

  // ----- the direct matcher, form by form

  /** Text without stars matches itself in front of whatever the rest matches. */
  lemma {:induction false} LiteralLaw(lit: string, p: string, s: string)
    requires Without(lit, '*')
    ensures Glob(lit + p, s) <==> lit <= s && Glob(p, s[|lit|..])
  {
    if lit == "" {
      assert lit + p == p && s[0..] == s;
    } else {
      assert (lit + p)[0] == lit[0] && (lit + p)[1..] == lit[1..] + p;
      if s != "" && s[0] == lit[0] {
        LiteralLaw(lit[1..], p, s[1..]);
        assert lit <= s <==> lit[1..] <= s[1..] by {
          assert lit == [lit[0]] + lit[1..] && s == [s[0]] + s[1..];
        }
        if lit <= s { assert s[1..][|lit| - 1..] == s[|lit|..]; }
      }
    }
  }

  /** A text without stars is the only path it matches. */
  lemma LiteralExact(lit: string, s: string)
    requires Without(lit, '*')
    ensures Glob(lit, s) <==> s == lit
  {
    LiteralLaw(lit, "", s);
    assert lit + "" == lit;
    if lit <= s && s[|lit|..] == "" { assert s == s[..|lit|] + s[|lit|..]; }
    if s == lit { assert s[|lit|..] == ""; }
  }

  /** A path has a cut whose front lacks `c` and whose back the pattern matches. */
  ghost predicate CutWithout(c: char, p: string, s: string) {
    exists n :: 0 <= n <= |s| && Without(s[..n], c) && Glob(p, s[n..])
  }

  lemma {:induction false} CutStep(c: char, p: string, s: string)
    ensures CutWithout(c, p, s) <==> Glob(p, s) || (s != "" && s[0] != c && CutWithout(c, p, s[1..]))
  {
    assert s[0..] == s && s[..0] == "";
    if Glob(p, s) { assert Without(s[..0], c) && Glob(p, s[0..]); }
    if CutWithout(c, p, s) && !Glob(p, s) {
      var n :| 0 <= n <= |s| && Without(s[..n], c) && Glob(p, s[n..]);
      assert s[..n][0] == s[0] && s[1..][..n - 1] == s[..n][1..] && s[1..][n - 1..] == s[n..];
    }
    if s != "" && s[0] != c && CutWithout(c, p, s[1..]) {
      var n :| 0 <= n <= |s[1..]| && Without(s[1..][..n], c) && Glob(p, s[1..][n..]);
      assert s[..n + 1] == [s[0]] + s[1..][..n] && s[1..][n..] == s[n + 1..];
    }
  }

  /** One star stands for any text without a slash, in front of a pattern that is no star. */
  lemma {:induction false} OneStarLaw(p: string, s: string)
    requires p == "" || p[0] != '*'
    ensures Glob("*" + p, s) <==> CutWithout('/', p, s)
    decreases |s|
  {
    assert ("*" + p)[1..] == p && ("*" + p)[0] == '*' && !DoubleStar("*" + p);
    CutStep('/', p, s);
    if s != "" { OneStarLaw(p, s[1..]); }
  }

  /** Two stars stand for any text without a newline, in front of any pattern. */
  lemma {:induction false} TwoStarLaw(p: string, s: string)
    ensures Glob("**" + p, s) <==> CutWithout('\n', p, s)
    decreases |s|
  {
    assert ("**" + p)[2..] == p && DoubleStar("**" + p);
    CutStep('\n', p, s);
    if s != "" { TwoStarLaw(p, s[1..]); }
  }
}
