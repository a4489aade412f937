/** OIDs as text: decimal numbers joined by dots, and `split` of `utils.cpp` that takes them apart. */
module OidText {
  type Path = seq<nat>

  // --- decimal numbers

  function DigitChar(d: nat): (c: char)
    requires d < 10
    ensures c != '.'
  {
    "0123456789"[d]
  }

  function Decimal(n: nat): (s: string)
    ensures s != []
  {
    if n < 10 then [DigitChar(n)] else Decimal(n / 10) + [DigitChar(n % 10)]
  }

  predicate IsDigit(c: char) {
    '0' <= c <= '9'
  }

  function DigitValue(c: char): nat
    requires IsDigit(c)
  {
    c as nat - '0' as nat
  }

  /** `atoi` on text without sign or leading blanks: the number its leading digits make up. */
  function Atoi(s: string): nat {
    AtoiFrom(s, 0)
  }

  function AtoiFrom(s: string, acc: nat): nat
    decreases |s|
  {
    if s == [] || !IsDigit(s[0]) then acc else AtoiFrom(s[1..], acc * 10 + DigitValue(s[0]))
  }

  lemma DigitCharValue(d: nat)
    requires d < 10
    ensures IsDigit(DigitChar(d)) && DigitValue(DigitChar(d)) == d
  {}

  lemma {:induction false} DecimalIsDigits(n: nat)
    ensures forall i :: 0 <= i < |Decimal(n)| ==> IsDigit(Decimal(n)[i])
  {
    if n < 10 {
      DigitCharValue(n);
    } else {
      DecimalIsDigits(n / 10);
      DigitCharValue(n % 10);
    }
  }

  lemma {:induction false} AtoiAppend(s: string, c: char, acc: nat)
    requires (forall i :: 0 <= i < |s| ==> IsDigit(s[i])) && IsDigit(c)
    ensures AtoiFrom(s + [c], acc) == AtoiFrom(s, acc) * 10 + DigitValue(c)
    decreases |s|
  {
    if s == [] {
      assert (s + [c])[1..] == [];
    } else {
      assert (s + [c])[1..] == s[1..] + [c];
      AtoiAppend(s[1..], c, acc * 10 + DigitValue(s[0]));
    }
  }

  /** Reading a number back. */
  lemma {:induction false} AtoiDecimal(n: nat)
    ensures Atoi(Decimal(n)) == n
  {
    if n < 10 {
      DigitCharValue(n);
      assert Decimal(n)[1..] == [];
      assert AtoiFrom(Decimal(n), 0) == AtoiFrom([], n);
    } else {
      DecimalIsDigits(n / 10);
      DigitCharValue(n % 10);
      AtoiAppend(Decimal(n / 10), DigitChar(n % 10), 0);
      AtoiDecimal(n / 10);
    }
  }

  lemma DecimalInjective(m: nat, n: nat)
    requires Decimal(m) == Decimal(n)
    ensures m == n
  {
    AtoiDecimal(m);
    AtoiDecimal(n);
  }

  lemma DecimalHasNoDot(n: nat)
    ensures '.' !in Decimal(n)
  {
    DecimalIsDigits(n);
  }

  // --- splitting and joining

  /** The position of the first dot, or the length. */
  function FirstDot(s: string): (k: nat)
    ensures k <= |s| && (k < |s| ==> s[k] == '.') && '.' !in s[..k]
  {
    if s == [] || s[0] == '.' then 0
    else
      var k := FirstDot(s[1..]);
      assert s[..k + 1] == [s[0]] + s[1..][..k];
      k + 1
  }

  /** `split(s, ".")`. A dot at the end gives an empty last part; the empty text has no parts. */
  function Split(s: string): seq<string>
    decreases |s|
  {
    var k := FirstDot(s);
    if k == |s| then (if s == [] then [] else [s])
    else if k + 1 == |s| then [s[..k], []]
    else [s[..k]] + Split(s[k + 1..])
  }

  /** The loop of `split`, which consumes its text and grows a vector. */
  method SplitLoop(text: string) returns (out: seq<string>)
    ensures out == Split(text)
  {
    hide FirstDot;
    out := [];
    var rest := text;
    while true
      invariant out + Split(rest) == Split(text)
      decreases |rest|
    {
      var pos := FirstDot(rest);
      if pos == |rest| {
        break;
      }
      ghost var tail := Split(rest)[1..];
      assert (out + [rest[..pos]]) + tail == out + ([rest[..pos]] + tail);
      out := out + [rest[..pos]];
      if |rest| == pos + 1 {
        out := out + [[]];
        return;
      }
      rest := rest[pos + 1..];
    }
    if |rest| > 0 {
      out := out + [rest];
    }
  }

  function Join(parts: seq<string>): string {
    if parts == [] then []
    else if |parts| == 1 then parts[0]
    else parts[0] + "." + Join(parts[1..])
  }

  lemma {:induction false} JoinSplit(s: string)
    ensures Join(Split(s)) == s
    decreases |s|
  {
    var k := FirstDot(s);
    if k < |s| && k + 1 < |s| {
      JoinSplit(s[k + 1..]);
      assert Split(s)[1..] == Split(s[k + 1..]);
      assert s == s[..k] + "." + s[k + 1..];
    } else if k < |s| {
      assert [s[..k], []][1..] == [[]];
      assert s == s[..k] + "." + [];
    }
  }

  /** The components as texts. */
  function Parts(p: Path): (r: seq<string>)
    ensures |r| == |p|
  {
    seq(|p|, i requires 0 <= i < |p| => Decimal(p[i]))
  }

  /** An OID as text, built up from the left as the code does. */
  function Dotted(p: Path): (s: string)
    ensures p != [] ==> s != []
  {
    if p == [] then []
    else if |p| == 1 then Decimal(p[0])
    else Dotted(p[..|p| - 1]) + "." + Decimal(p[|p| - 1])
  }

  lemma JoinSnoc(parts: seq<string>, x: string)
    requires parts != []
    ensures Join(parts + [x]) == Join(parts) + "." + x
  {
    if |parts| == 1 {
      assert (parts + [x])[1..] == [x];
    } else {
      assert (parts + [x])[1..] == parts[1..] + [x];
      JoinSnoc(parts[1..], x);
    }
  }

  lemma {:induction false} DottedIsJoin(p: Path)
    ensures Dotted(p) == Join(Parts(p))
  {
    if |p| > 1 {
      var q := p[..|p| - 1];
      DottedIsJoin(q);
      assert Parts(p) == Parts(q) + [Decimal(p[|p| - 1])];
      JoinSnoc(Parts(q), Decimal(p[|p| - 1]));
    }
  }

  lemma {:induction false} NoDot(a: string, rest: string)
    requires '.' !in a
    ensures FirstDot(a) == |a|
    ensures FirstDot(a + "." + rest) == |a|
  {
    if a != [] {
      assert (a + "." + rest)[1..] == a[1..] + "." + rest;
      NoDot(a[1..], rest);
    }
  }

  lemma {:induction false} SplitJoin(p: Path)
    ensures Split(Join(Parts(p))) == Parts(p)
  {
    if p != [] {
      var a := Decimal(p[0]);
      DecimalHasNoDot(p[0]);
      if |p| == 1 {
        NoDot(a, []);
      } else {
        var rest := Join(Parts(p)[1..]);
        assert Parts(p)[1..] == Parts(p[1..]);
        SplitJoin(p[1..]);
        NoDot(a, rest);
        var s := a + "." + rest;
        assert s[..|a|] == a && s[|a| + 1..] == rest;
        JoinNotEmpty(p[1..]);
      }
    }
  }

  lemma JoinNotEmpty(p: Path)
    requires p != []
    ensures Join(Parts(p)) != []
  {}

  /** The components of an OID come back from its text. */
  lemma SplitDotted(p: Path)
    ensures Split(Dotted(p)) == Parts(p)
  {
    DottedIsJoin(p);
    SplitJoin(p);
  }

  lemma PartsInjective(p: Path, q: Path)
    requires Parts(p) == Parts(q)
    ensures p == q
  {
    assert |p| == |Parts(p)| == |q|;
    forall i | 0 <= i < |p| ensures p[i] == q[i] {
      assert Parts(p)[i] == Parts(q)[i];
      DecimalInjective(p[i], q[i]);
    }
  }

  lemma DottedInjective(p: Path, q: Path)
    requires Dotted(p) == Dotted(q)
    ensures p == q
  {
    SplitDotted(p);
    SplitDotted(q);
    PartsInjective(p, q);
  }
}
