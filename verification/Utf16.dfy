/**
  The property-name order of canonical JSON: names compared by their big-endian UTF-16 bytes.
  `char` is exactly the set of Unicode scalar values, so `string` is what both encoders accept.
 */
module Utf16 {
  import opened Sorting

  /** Lexicographic comparison; a proper prefix comes first. */
  predicate Lex(a: seq<int>, b: seq<int>)
    decreases |a|
  {
    b != [] && (a == [] || a[0] < b[0] || (a[0] == b[0] && Lex(a[1..], b[1..])))
  }

  function CodePoints(s: string): (r: seq<int>) {
    seq(|s|, i requires 0 <= i < |s| => s[i] as int)
  }

  function Units(c: char): (r: seq<int>)
    ensures 1 <= |r| <= 2
    ensures forall i :: 0 <= i < |r| ==> 0 <= r[i] < 0x10000
  {
    var n := c as int;
    if n < 0x10000 then [n] else [0xD800 + (n - 0x10000) / 0x400, 0xDC00 + (n - 0x10000) % 0x400]
  }

  function Encode(s: string): (r: seq<int>)
    ensures forall i :: 0 <= i < |r| ==> 0 <= r[i] < 0x10000
  {
    if s == "" then [] else Units(s[0]) + Encode(s[1..])
  }

  function BigEndian(units: seq<int>): (r: seq<int>) {
    if units == [] then [] else [units[0] / 256, units[0] % 256] + BigEndian(units[1..])
  }

  /** The source's comparison of property names: bytes of the UTF-16BE encoding. */
  predicate NameLess(a: string, b: string) {
    Lex(BigEndian(Encode(a)), BigEndian(Encode(b)))
  }

  predicate CodePointLess(a: string, b: string) {
    Lex(CodePoints(a), CodePoints(b))
  }

  /** The length of the longest common prefix. */
  function Agree(a: string, b: string): (n: nat)
    ensures n <= |a| && n <= |b| && a[..n] == b[..n]
    ensures n < |a| && n < |b| ==> a[n] != b[n]
  {
    if a == "" || b == "" || a[0] != b[0] then 0
    else
      var n := Agree(a[1..], b[1..]);
      assert a[..n + 1] == [a[0]] + a[1..][..n] && b[..n + 1] == [b[0]] + b[1..][..n];
      1 + n
  }

  predicate Supplementary(c: char) { c as int >= 0x10000 }

  predicate AboveSurrogates(c: char) { 0xE000 <= c as int < 0x10000 }

  /** At the first difference one name is above U+FFFF and the other in U+E000..U+FFFF. */
  predicate Crossing(a: string, b: string) {
    var n := Agree(a, b);
    n < |a| && n < |b| &&
    ((Supplementary(a[n]) && AboveSurrogates(b[n])) || (AboveSurrogates(a[n]) && Supplementary(b[n])))
  }

  lemma {:induction false} BytesOrderIsUnitOrder(a: seq<int>, b: seq<int>)
    requires forall i :: 0 <= i < |a| ==> 0 <= a[i] < 0x10000
    requires forall i :: 0 <= i < |b| ==> 0 <= b[i] < 0x10000
    ensures Lex(BigEndian(a), BigEndian(b)) <==> Lex(a, b)
  {
    if a != [] && b != [] {
      var x, y := a[0], b[0];
      var p, q := BigEndian(a), BigEndian(b);
      assert p[1..] == [x % 256] + BigEndian(a[1..]) && q[1..] == [y % 256] + BigEndian(b[1..]);
      assert p[1..][1..] == BigEndian(a[1..]) && q[1..][1..] == BigEndian(b[1..]);
      BytesOrderIsUnitOrder(a[1..], b[1..]);
      if x / 256 == y / 256 && x % 256 == y % 256 {
        assert x == y;
      } else {
        assert x < y <==> x / 256 < y / 256 || (x / 256 == y / 256 && x % 256 < y % 256);
      }
    }
  }

  lemma UnitsInjective(c: char, d: char)
    requires c != d
    ensures Units(c)[0] != Units(d)[0] || (|Units(c)| == |Units(d)| == 2 && Units(c)[1] != Units(d)[1])
  {
    var m, n := c as int, d as int;
    if m >= 0x10000 && n >= 0x10000 && (m - 0x10000) / 0x400 == (n - 0x10000) / 0x400 {
      assert m != n;
    }
  }

  /** Comparison of two distinct characters by code unit: reversed exactly on the crossing class. */
  lemma UnitsOrder(c: char, d: char, s: seq<int>, t: seq<int>)
    requires c != d
    ensures Lex(Units(c) + s, Units(d) + t) <==>
            ((c as int < d as int) !=
             ((Supplementary(c) && AboveSurrogates(d)) || (AboveSurrogates(c) && Supplementary(d))))
  {
    UnitsInjective(c, d);
    var p, q := Units(c) + s, Units(d) + t;
    assert p[0] == Units(c)[0] && q[0] == Units(d)[0];
    if p[0] == q[0] {
      assert p[1..][0] == Units(c)[1] && q[1..][0] == Units(d)[1];
    }
  }

  lemma LexCommonPrefix(p: seq<int>, s: seq<int>, t: seq<int>)
    ensures Lex(p + s, p + t) <==> Lex(s, t)
  {
    if p == [] {
      assert p + s == s && p + t == t;
    } else {
      assert (p + s)[1..] == p[1..] + s && (p + t)[1..] == p[1..] + t;
      LexCommonPrefix(p[1..], s, t);
    }
  }

  lemma {:induction false} UnitOrderAgainstCodePoints(a: string, b: string)
    ensures Lex(Encode(a), Encode(b)) <==> (CodePointLess(a, b) != Crossing(a, b))
  {
    if a != "" && b != "" {
      assert CodePoints(a)[1..] == CodePoints(a[1..]) && CodePoints(b)[1..] == CodePoints(b[1..]);
      if a[0] == b[0] {
        UnitOrderAgainstCodePoints(a[1..], b[1..]);
        LexCommonPrefix(Units(a[0]), Encode(a[1..]), Encode(b[1..]));
        var n := Agree(a[1..], b[1..]);
        assert n < |a[1..]| ==> a[1..][n] == a[n + 1];
        assert n < |b[1..]| ==> b[1..][n] == b[n + 1];
      } else {
        UnitsOrder(a[0], b[0], Encode(a[1..]), Encode(b[1..]));
      }
    }
  }

  /**
    The order used for property names is the code-unit order, and it differs from code-point order
    exactly when the first difference crosses the surrogate range, where it is reversed.
   */
  lemma NameOrderExact(a: string, b: string)
    ensures NameLess(a, b) <==> Lex(Encode(a), Encode(b))
    ensures NameLess(a, b) <==> (CodePointLess(a, b) != Crossing(a, b))
  {
    BytesOrderIsUnitOrder(Encode(a), Encode(b));
    UnitOrderAgainstCodePoints(a, b);
  }

  lemma {:induction false} LexTransitive(a: seq<int>, b: seq<int>, c: seq<int>)
    requires Lex(a, b) && Lex(b, c)
    ensures Lex(a, c)
  {
    if a != [] && a[0] == b[0] == c[0] {
      LexTransitive(a[1..], b[1..], c[1..]);
    }
  }

  lemma {:induction false} LexIrreflexive(a: seq<int>)
    ensures !Lex(a, a)
  {
    if a != [] { LexIrreflexive(a[1..]); }
  }

  lemma {:induction false} LexTotal(a: seq<int>, b: seq<int>)
    requires a != b
    ensures Lex(a, b) || Lex(b, a)
  {
    if a != [] && b != [] && a[0] == b[0] {
      assert a == [a[0]] + a[1..] && b == [b[0]] + b[1..];
      LexTotal(a[1..], b[1..]);
    }
  }

  lemma {:induction false} EncodeInjective(a: string, b: string)
    requires a != b
    ensures Encode(a) != Encode(b)
  {
    if a != "" && b != "" {
      if a[0] == b[0] {
        assert a == [a[0]] + a[1..] && b == [b[0]] + b[1..];
        EncodeInjective(a[1..], b[1..]);
        var u := Units(a[0]);
        assert Encode(a)[|u|..] == Encode(a[1..]) && Encode(b)[|u|..] == Encode(b[1..]);
      } else {
        UnitsInjective(a[0], b[0]);
        assert Encode(a)[0] == Units(a[0])[0] && Encode(b)[0] == Units(b[0])[0];
        if |Units(a[0])| == |Units(b[0])| == 2 {
          assert Encode(a)[1] == Units(a[0])[1] && Encode(b)[1] == Units(b[0])[1];
        }
      }
    }
  }

  /** The name order is a strict total order on names, so sorting by it has exactly one result. */
  lemma NameOrderTotal()
    ensures StrictTotal(NameLess)
  {
    forall a ensures !NameLess(a, a) {
      LexIrreflexive(BigEndian(Encode(a)));
    }
    forall a, b, c | NameLess(a, b) && NameLess(b, c) ensures NameLess(a, c) {
      LexTransitive(BigEndian(Encode(a)), BigEndian(Encode(b)), BigEndian(Encode(c)));
    }
    forall a, b ensures a == b || NameLess(a, b) || NameLess(b, a) {
      if a != b {
        EncodeInjective(a, b);
        LexTotal(Encode(a), Encode(b));
        BytesOrderIsUnitOrder(Encode(a), Encode(b));
        BytesOrderIsUnitOrder(Encode(b), Encode(a));
      }
    }
  }

  /** Code-point order, the host's own order on strings, is total as well. */
  lemma CodePointOrderTotal()
    ensures StrictTotal(CodePointLess)
  {
    forall a ensures !CodePointLess(a, a) {
      LexIrreflexive(CodePoints(a));
    }
    forall a, b, c | CodePointLess(a, b) && CodePointLess(b, c) ensures CodePointLess(a, c) {
      LexTransitive(CodePoints(a), CodePoints(b), CodePoints(c));
    }
    forall a, b ensures a == b || CodePointLess(a, b) || CodePointLess(b, a) {
      if a != b {
        CodePointsInjective(a, b);
        LexTotal(CodePoints(a), CodePoints(b));
      }
    }
  }

  lemma CodePointsInjective(a: string, b: string)
    requires a != b
    ensures CodePoints(a) != CodePoints(b)
  {
    if |a| == |b| {
      var i :| 0 <= i < |a| && a[i] != b[i];
      assert CodePoints(a)[i] != CodePoints(b)[i];
    }
  }

  predicate IsAscii(s: string) { forall i :: 0 <= i < |s| ==> s[i] as int < 0x80 }

  /**
    The kernel's comparison loop with its ASCII short cut: it decides the same order as the
    byte comparison of the reference verifier.
   */
  method LessUtf16(a: string, b: string) returns (less: bool)
    ensures less <==> NameLess(a, b)
  {
    NameOrderExact(a, b);
    if a == b {
      LexIrreflexive(Encode(a));
      return false;
    }
    if IsAscii(a) && IsAscii(b) {
      return CodePointLess(a, b);
    }
    var ua, ub := Encode(a), Encode(b);
    var n := if |ub| < |ua| then |ub| else |ua|;
    var i := 0;
    while i < n
      invariant 0 <= i <= n
      invariant Lex(ua, ub) <==> Lex(ua[i..], ub[i..])
    {
      if ua[i] != ub[i] {
        return ua[i] < ub[i];
      }
      assert ua[i..][1..] == ua[i + 1..] && ub[i..][1..] == ub[i + 1..];
      i := i + 1;
    }
    return |ua| < |ub|;
  }
}
