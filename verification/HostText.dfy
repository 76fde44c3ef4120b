/** Text facts of the host language that several readers share. */
module HostText {

  /** White space, as string trimming and `\s` see it. */
  predicate Space(c: char) {
    var n := c as int;
    || 0x09 <= n <= 0x0D || 0x1C <= n <= 0x20 || n == 0x85 || n == 0xA0 || n == 0x1680
    || 0x2000 <= n <= 0x200A || n == 0x2028 || n == 0x2029 || n == 0x202F || n == 0x205F || n == 0x3000
  }

  lemma Assoc(a: string, b: string, c: string)
    ensures a + b + c == a + (b + c)
  {
  }

  predicate Without(s: string, c: char) { forall i :: 0 <= i < |s| ==> s[i] != c }

  /** Index of the first `c`, or the length. */
  function First(s: string, c: char): (n: nat)
    ensures n <= |s| && Without(s[..n], c)
    ensures n < |s| ==> s[n] == c
  {
    if s == "" || s[0] == c then 0
    else
      var n := First(s[1..], c);
      assert s[..n + 1] == [s[0]] + s[1..][..n];
      1 + n
  }

  lemma {:induction false} FirstExact(a: string, c: char, b: string)
    requires Without(a, c)
    ensures First(a + ([c] + b), c) == |a|
  {
    var s := a + ([c] + b);
    if a == "" {
      assert s[0] == c;
    } else {
      assert s[0] == a[0] && s[1..] == a[1..] + ([c] + b);
      FirstExact(a[1..], c, b);
    }
  }

  lemma FirstNone(s: string, c: char)
    requires Without(s, c)
    ensures First(s, c) == |s|
  {
    if s != "" { FirstNone(s[1..], c); }
  }

  /** Splitting at every `c`; the result is never empty. */
  function Split(s: string, c: char): (r: seq<string>)
    ensures r != []
    ensures forall i :: 0 <= i < |r| ==> Without(r[i], c)
    decreases |s|
  {
    var n := First(s, c);
    if n == |s| then
      assert s[..n] == s;
      [s]
    else [s[..n]] + Split(s[n + 1..], c)
  }

  /** Each part followed by `c`. */
  function Unsplit(parts: seq<string>, c: char): string {
    if parts == [] then "" else parts[0] + [c] + Unsplit(parts[1..], c)
  }

  lemma {:induction false} UnsplitCons(p: string, parts: seq<string>, c: char)
    ensures Unsplit([p] + parts, c) == p + [c] + Unsplit(parts, c)
  {
    assert ([p] + parts)[1..] == parts;
  }

  lemma {:induction false} UnsplitSplit(s: string, c: char)
    ensures Unsplit(Split(s, c), c) == s + [c]
    decreases |s|
  {
    var n := First(s, c);
    if n == |s| {
      UnsplitCons(s, [], c);
      assert Split(s, c) == [s] + [];
    } else {
      var p, t := s[..n], s[n + 1..];
      UnsplitSplit(t, c);
      UnsplitCons(p, Split(t, c), c);
      Assoc(p + [c], t, [c]);
      assert s == p + [c] + t;
    }
  }

  lemma {:induction false} SplitUnsplit(parts: seq<string>, s: string, c: char)
    requires parts != [] && (forall i :: 0 <= i < |parts| ==> Without(parts[i], c))
    requires s + [c] == Unsplit(parts, c)
    ensures Split(s, c) == parts
    decreases |parts|
  {
    var p, rest := parts[0], parts[1..];
    if rest == [] {
      assert Unsplit(parts, c) == p + [c];
      assert s == (s + [c])[..|s|] == p;
      assert parts == [p];
      FirstNone(s, c);
    } else {
      var u := Unsplit(rest, c);
      UnsplitEnds(rest, c);
      var t := u[..|u| - 1];
      assert u == t + [c];
      assert s + [c] == p + ([c] + t) + [c];
      assert s == (s + [c])[..|s|] == p + ([c] + t);
      FirstExact(p, c, t);
      assert s[..|p|] == p && s[|p| + 1..] == t;
      SplitUnsplit(rest, t, c);
      assert parts == [p] + rest;
    }
  }

  lemma {:induction false} UnsplitEnds(parts: seq<string>, c: char)
    requires parts != []
    ensures var u := Unsplit(parts, c); u != "" && u[|u| - 1] == c
  {
    if |parts| > 1 { UnsplitEnds(parts[1..], c); }
  }

  /** The UTF-8 octets of a character. */
  function Utf8(c: char): (r: seq<nat>)
    ensures 1 <= |r| <= 4 && forall i :: 0 <= i < |r| ==> r[i] < 256
  {
    var n := c as int;
    if n < 0x80 then [n]
    else if n < 0x800 then [0xC0 + n / 64, 0x80 + n % 64]
    else if n < 0x10000 then [0xE0 + n / 4096, 0x80 + n / 64 % 64, 0x80 + n % 64]
    else [0xF0 + n / 262144, 0x80 + n / 4096 % 64, 0x80 + n / 64 % 64, 0x80 + n % 64]
  }
}
