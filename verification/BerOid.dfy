/** Object identifiers on the wire: the base-128 encoder of `snmp_elem.cpp` and the decoder of `snmp.cpp`. */
module BerOid {
  import opened Bytes
  import opened OidText

  const LLONG_MAX: nat := 0x7fff_ffff_ffff_ffff

  // --- encoding

  /** What `atoll` returns at most. */
  function Clamp(v: nat): (r: nat) {
    Min(v, LLONG_MAX)
  }

  /** `atoll` on text that starts with a digit, a dot or nothing. */
  function Atoll(s: string): (r: nat) {
    Clamp(Atoi(s))
  }

  /** The higher base-128 digits of a number, all with the continuation bit. */
  function High(v: nat): (r: seq<byte>) {
    if v == 0 then [] else High(v / 128) + [v % 128 + 128]
  }

  function Base128(v: nat): (r: seq<byte>) {
    High(v / 128) + [v % 128]
  }

  /** All components of the text, each in base 128. */
  function Components(work: string): (r: seq<byte>)
    decreases |work|
  {
    if work == [] then []
    else
      var dot := FirstDot(work);
      Base128(Atoll(work)) + if dot == |work| then [] else Components(work[dot + 1..])
  }

  predicate StartsWith13(text: string) {
    |text| >= 4 && text[..4] == "1.3."
  }

  /** What the constructor of `snmp_oid` stores; "1.3." becomes one byte. */
  function Encode(text: string): (r: seq<byte>) {
    if StartsWith13(text) then [43] + Components(text[4..]) else Components(text)
  }

  /** The base-128 digits, lowest first. */
  function Low(v: nat): (r: seq<byte>) {
    if v == 0 then [] else [v % 128] + Low(v / 128)
  }

  /** The digits in `temp` from the last to the first, all but the first of them with the continuation bit. */
  function Emit(temp: seq<byte>): (r: seq<byte>)
    requires forall i :: 0 <= i < |temp| ==> temp[i] < 128
  {
    if temp == [] then [] else
      var k := |temp| - 1;
      [if k == 0 then temp[k] else temp[k] + 128] + Emit(temp[..k])
  }

  lemma {:induction false} EmitHigh(temp: seq<byte>)
    requires temp != [] && forall i :: 0 <= i < |temp| ==> temp[i] < 128
    ensures Emit(temp) == EmitFlagged(temp[1..]) + [temp[0]]
    decreases |temp|
  {
    if |temp| > 1 {
      var k := |temp| - 1;
      EmitHigh(temp[..k]);
      assert temp[..k][1..] == temp[1..][..k - 1];
    }
  }

  function EmitFlagged(temp: seq<byte>): (r: seq<byte>)
    requires forall i :: 0 <= i < |temp| ==> temp[i] < 128
  {
    if temp == [] then [] else [temp[|temp| - 1] + 128] + EmitFlagged(temp[..|temp| - 1])
  }

  lemma {:induction false} LowDigits(v: nat)
    ensures forall i :: 0 <= i < |Low(v)| ==> Low(v)[i] < 128
    ensures EmitFlagged(Low(v)) == High(v)
  {
    if v > 0 {
      LowDigits(v / 128);
      FlaggedCons(v % 128, Low(v / 128));
    }
  }

  lemma {:induction false} FlaggedCons(d: byte, t: seq<byte>)
    requires d < 128 && forall i :: 0 <= i < |t| ==> t[i] < 128
    ensures forall i :: 0 <= i < |[d] + t| ==> ([d] + t)[i] < 128
    ensures EmitFlagged([d] + t) == EmitFlagged(t) + [d + 128]
    decreases |t|
  {
    var s := [d] + t;
    if t != [] {
      var front, last := t[..|t| - 1], [t[|t| - 1] + 128];
      FlaggedCons(d, front);
      assert s[..|s| - 1] == [d] + front;
      assert last + (EmitFlagged(front) + [d + 128]) == (last + EmitFlagged(front)) + [d + 128];
    } else {
      assert s[..0] == [];
      assert EmitFlagged(s) == [d + 128] + EmitFlagged(s[..0]);
    }
  }

  /** The loops over `temp` write the number in base 128. */
  lemma EmitLow(v: nat)
    requires v > 0
    ensures forall i :: 0 <= i < |Low(v)| ==> Low(v)[i] < 128
    ensures Emit(Low(v)) == Base128(v)
  {
    LowDigits(v);
    LowDigits(v / 128);
    EmitHigh(Low(v));
    assert Low(v)[1..] == Low(v / 128);
  }

  method EncodeLoop(text: string) returns (out: seq<byte>)
    ensures out == Encode(text)
  {
    hide Atoll, FirstDot, Components, Base128, StartsWith13;
    out := [];
    var work := text;
    if StartsWith13(work) {
      out := [43];
      work := SkipPrefix(work);
    }
    assert ToGo(out, work, text);
    hide Encode, ToGo;
    while work != []
      invariant ToGo(out, work, text)
      decreases |work|
    {
      NextComponent(out, work, text);
      var digits := EncodeNumber(Atoll(work));
      out := out + digits;
      var dot := FirstDot(work);
      if dot == |work| { return; }
      work := work[dot + 1..];
    }
    NothingToGo(out, text);
  }

  /** The components of `work` complete the encoding. */
  predicate ToGo(out: seq<byte>, work: string, text: string) {
    out + Components(work) == Encode(text)
  }

  lemma NextComponent(out: seq<byte>, work: string, text: string)
    requires work != [] && ToGo(out, work, text)
    ensures var dot := FirstDot(work); var next := out + Base128(Atoll(work));
            if dot == |work| then next == Encode(text) else ToGo(next, work[dot + 1..], text)
  {
    hide Atoll, FirstDot, Components, Base128, Encode;
    ComponentsStep(work);
    var dot := FirstDot(work);
    if dot == |work| {
      Glue(out, Base128(Atoll(work)), []);
    } else {
      Glue(out, Base128(Atoll(work)), Components(work[dot + 1..]));
    }
  }

  lemma Glue(a: seq<byte>, b: seq<byte>, c: seq<byte>)
    ensures a + (b + c) == (a + b) + c && a + b + [] == a + b
  {}

  lemma NothingToGo(out: seq<byte>, text: string)
    requires ToGo(out, [], text)
    ensures out == Encode(text)
  {
    hide Encode;
  }

  function SkipPrefix(text: string): (r: string)
    requires StartsWith13(text)
    ensures r == text[4..]
  {
    text[4..]
  }

  lemma ComponentsStep(work: string)
    requires work != []
    ensures var dot := FirstDot(work);
            Components(work) == Base128(Atoll(work)) + (if dot == |work| then [] else Components(work[dot + 1..]))
  {
    hide Atoll, FirstDot, Base128;
  }

  method EncodeNumber(value: nat) returns (out: seq<byte>)
    ensures out == Base128(value)
  {
    hide Emit, Low, Base128;
    var temp: seq<byte>;
    if value == 0 {
      temp := [0];
      EmitOne();
    } else {
      temp := TakeDigits(value);
      EmitLow(value);
    }
    out := WriteDigits(temp);
  }

  /** The lowest digit first. */
  method TakeDigits(value: nat) returns (temp: seq<byte>)
    ensures temp == Low(value)
  {
    var v: nat := value;
    temp := [];
    while v > 0
      invariant temp + Low(v) == Low(value)
    {
      temp := temp + [v % 128];
      v := v / 128;
    }
  }

  /** The last digit first. */
  method WriteDigits(temp: seq<byte>) returns (out: seq<byte>)
    requires forall i :: 0 <= i < |temp| ==> temp[i] < 128
    ensures out == Emit(temp)
  {
    hide Emit;
    out := [];
    var k := |temp|;
    EmitNothing();
    assert temp[..k] == temp;
    while k > 0
      invariant 0 <= k <= |temp|
      invariant out + Emit(temp[..k]) == Emit(temp)
    {
      EmitStep(temp[..k]);
      assert temp[..k][..k - 1] == temp[..k - 1];
      k := k - 1;
      out := out + [if k == 0 then temp[k] else temp[k] + 128];
    }
  }

  lemma EmitOne()
    ensures Emit([0]) == Base128(0)
  {
    assert [0][..0] == [];
    assert Emit([0]) == [0] + Emit([0][..0]);
  }

  lemma EmitNothing()
    ensures forall t: seq<byte> :: t == [] ==> Emit(t) == []
  {}

  lemma EmitStep(t: seq<byte>)
    requires t != [] && forall i :: 0 <= i < |t| ==> t[i] < 128
    ensures Emit(t) == [if |t| == 1 then t[|t| - 1] else t[|t| - 1] + 128] + Emit(t[..|t| - 1])
  {}

  // --- decoding

  /** `%d` of a 32-bit value. */
  function Shown(v: uint32): (r: string) {
    if v < 0x8000_0000 then Decimal(v) else "-" + Decimal(TWO32 - v)
  }

  /** The loop of `get_OID`: `v` is the number read so far, `out` the text. */
  function Decode(b: seq<byte>, v: uint32, first: bool, out: string): (r: Option<string>)
    decreases |b|
  {
    if b == [] then (if v != 0 then None else Some(out))
    else
      var v' := U32(v * 128 + b[0] % 128);
      if b[0] < 128 then
        Decode(b[1..], 0, false, out + if first && v' == 43 then "1.3" else "." + Shown(v'))
      else Decode(b[1..], v', false, out)
  }

  function GetOid(b: seq<byte>): (r: Option<string>) {
    Decode(b, 0, true, "")
  }

  // --- round trip

  lemma DecodeStep(d: byte, rest: seq<byte>, v: uint32, first: bool, out: string)
    ensures var v' := U32(v * 128 + d % 128);
            Decode([d] + rest, v, first, out) ==
            if d < 128 then Decode(rest, 0, false, out + if first && v' == 43 then "1.3" else "." + Shown(v'))
            else Decode(rest, v', false, out)
  {
    assert ([d] + rest)[1..] == rest;
  }

  lemma {:induction false} DecodeHigh(v: nat, rest: seq<byte>, out: string)
    ensures Decode(High(v) + rest, 0, false, out) == Decode(rest, U32(v), false, out)
    decreases v
  {
    hide Decode, U32;
    if v == 0 {
      assert High(0) + rest == rest;
    } else {
      var d := v % 128 + 128;
      assert High(v) + rest == High(v / 128) + ([d] + rest);
      DecodeHigh(v / 128, [d] + rest, out);
      DecodeStep(d, rest, U32(v / 128), false, out);
      ShiftIn(v);
    }
  }

  lemma ShiftIn(v: nat)
    ensures U32(U32(v / 128) * 128 + v % 128) == U32(v)
  {
    var q := (v / 128) / TWO32;
    assert v == (v / 128) * 128 + v % 128;
    assert v / 128 == q * TWO32 + U32(v / 128);
    assert v == (U32(v / 128) * 128 + v % 128) + (q * 128) * TWO32;
  }

  lemma DecodeNumber(v: nat, rest: seq<byte>, out: string)
    ensures Decode(Base128(v) + rest, 0, false, out) == Decode(rest, 0, false, out + ("." + Shown(U32(v))))
  {
    hide Decode, U32, High, Shown;
    var d := v % 128;
    assert Base128(v) + rest == High(v / 128) + ([d] + rest);
    DecodeHigh(v / 128, [d] + rest, out);
    DecodeStep(d, rest, U32(v / 128), false, out);
    ShiftIn(v);
  }

  /** Each text with a dot before it. */
  function Dots(parts: seq<string>): (r: string) {
    if parts == [] then "" else "." + parts[0] + Dots(parts[1..])
  }

  function ShownParts(p: Path): (r: seq<string>)
    ensures |r| == |p|
  {
    seq(|p|, i requires 0 <= i < |p| => Shown(U32(Clamp(p[i]))))
  }

  predicate Small(p: Path, bound: nat) {
    forall i :: 0 <= i < |p| ==> p[i] < bound
  }

  lemma {:induction false} AtoiStops(s: string, t: string, acc: nat)
    requires t == [] || t[0] == '.'
    ensures AtoiFrom(s + t, acc) == AtoiFrom(s, acc)
    decreases |s|
  {
    if s != [] && IsDigit(s[0]) {
      assert (s + t)[1..] == s[1..] + t;
      AtoiStops(s[1..], t, acc * 10 + DigitValue(s[0]));
    }
  }

  /** The encoder reads one component off the front of the text. */
  lemma ComponentsCons(p: Path)
    requires p != []
    ensures Components(Join(Parts(p))) == Base128(Clamp(p[0])) + if |p| == 1 then [] else Components(Join(Parts(p[1..])))
  {
    hide Components, Base128, Decimal, FirstDot, AtoiFrom;
    var a := Decimal(p[0]);
    DecimalHasNoDot(p[0]);
    AtoiDecimal(p[0]);
    if |p| == 1 {
      NoDot(a, []);
      ComponentsStep(a);
    } else {
      var rest := Join(Parts(p[1..]));
      assert Parts(p)[1..] == Parts(p[1..]);
      NoDot(a, rest);
      var s := a + "." + rest;
      assert s == a + ("." + rest) && s[|a| + 1..] == rest;
      AtoiStops(a, "." + rest, 0);
      ComponentsStep(s);
    }
  }

  lemma {:induction false} DecodeComponents(p: Path, out: string)
    ensures Decode(Components(Join(Parts(p))), 0, false, out) == Some(out + Dots(ShownParts(p)))
    decreases |p|
  {
    hide Decode, Components, Join, Base128, Shown, U32, Dots, Clamp;
    if p == [] {
      NoComponents(out);
      assert Parts(p) == [] && ShownParts(p) == [];
    } else {
      var rest, shown := p[1..], "." + Shown(U32(Clamp(p[0])));
      ComponentsCons(p);
      var tail := Components(Join(Parts(rest)));
      NoComponents(out);
      assert |p| == 1 ==> Parts(rest) == [];
      DecodeNumber(Clamp(p[0]), tail, out);
      DecodeComponents(rest, out + shown);
      assert ShownParts(p)[1..] == ShownParts(rest);
      DotsStep(ShownParts(p));
      assert (out + shown) + Dots(ShownParts(rest)) == out + (shown + Dots(ShownParts(rest)));
    }
  }

  lemma NoComponents(out: string)
    ensures Join([]) == [] && Components([]) == [] && Dots([]) == [] && Decode([], 0, false, out) == Some(out) && out + [] == out
  {}

  lemma DotsStep(parts: seq<string>)
    requires parts != []
    ensures Dots(parts) == ("." + parts[0]) + Dots(parts[1..])
  {}

  /** The text of an OID below "1.3". */
  function Below13(p: Path): (r: string) {
    Dotted([1, 3] + p)
  }

  lemma {:induction false} JoinIsDots(p: Path)
    requires p != []
    ensures Join(Parts(p)) == Decimal(p[0]) + Dots(Parts(p[1..]))
    decreases |p|
  {
    if |p| > 1 {
      JoinIsDots(p[1..]);
      assert Parts(p)[1..] == Parts(p[1..]);
      assert Parts(p[1..])[1..] == Parts(p[1..][1..]);
      assert Join(Parts(p)) == Decimal(p[0]) + "." + Join(Parts(p[1..]));
    } else {
      assert Parts(p[1..]) == [];
    }
  }

  lemma SmallDecimals()
    ensures Decimal(1) == "1" && Decimal(3) == "3"
  {}

  lemma TextBelow13(p: Path)
    ensures Below13(p) == "1.3" + Dots(Parts(p))
    ensures p != [] ==> StartsWith13(Below13(p)) && Below13(p)[4..] == Join(Parts(p))
  {
    hide Dots, Decimal, Join, Dotted;
    var q := [1, 3] + p;
    DottedIsJoin(q);
    SmallDecimals();
    assert q[1..] == [3] + p;
    JoinIsDots(q);
    var parts := Parts([3] + p);
    assert parts[1..] == Parts(p);
    DotsStep(parts);
    assert "1" + (("." + "3") + Dots(Parts(p))) == "1.3" + Dots(Parts(p));
    if p != [] {
      JoinIsDots(p);
      DotsStep(Parts(p));
      assert Parts(p)[1..] == Parts(p[1..]);
      assert "1.3" + (("." + Decimal(p[0])) + Dots(Parts(p[1..]))) == "1.3." + (Decimal(p[0]) + Dots(Parts(p[1..])));
      Prefix13(Join(Parts(p)));
    }
  }

  lemma Prefix13(rest: string)
    ensures StartsWith13("1.3." + rest) && ("1.3." + rest)[4..] == rest
  {}

  /** What decoding the encoder's output gives, for every OID below "1.3". */
  lemma DecodeEncode(p: Path)
    requires p != []
    ensures GetOid(Encode(Below13(p))) == Some("1.3" + Dots(ShownParts(p)))
  {
    hide Decode, Components, Join, Dots, Below13, StartsWith13, Shown;
    TextBelow13(p);
    var rest := Components(Join(Parts(p)));
    DecodeStep(43, rest, 0, true, "");
    assert "" + "1.3" == "1.3";
    DecodeComponents(p, "1.3");
  }

  lemma {:induction false} DotsInjective(a: seq<string>, b: seq<string>)
    requires |a| == |b| && (forall i :: 0 <= i < |a| ==> '.' !in a[i]) && (forall i :: 0 <= i < |b| ==> '.' !in b[i])
    requires Dots(a) == Dots(b)
    ensures a == b
    decreases |a|
  {
    if a != [] {
      var x, y := a[0] + Dots(a[1..]), b[0] + Dots(b[1..]);
      assert Dots(a)[1..] == x && Dots(b)[1..] == y;
      HeadLength(a);
      HeadLength(b);
      assert x[..|a[0]|] == a[0] && y[..|b[0]|] == b[0];
      assert x[|a[0]|..] == Dots(a[1..]) && y[|b[0]|..] == Dots(b[1..]);
      DotsInjective(a[1..], b[1..]);
      assert a == [a[0]] + a[1..] && b == [b[0]] + b[1..];
    }
  }

  lemma HeadLength(a: seq<string>)
    requires a != [] && '.' !in a[0]
    ensures FirstDot(a[0] + Dots(a[1..])) == |a[0]|
  {
    var rest := a[1..];
    if rest == [] {
      NoDot(a[0], []);
      assert a[0] + Dots(rest) == a[0];
    } else {
      var t := rest[0] + Dots(rest[1..]);
      NoDot(a[0], t);
      assert a[0] + Dots(rest) == a[0] + "." + t;
    }
  }

  lemma ShownHasNoDot(v: uint32)
    ensures '.' !in Shown(v)
  {
    if v < 0x8000_0000 { DecimalHasNoDot(v); } else { DecimalHasNoDot(TWO32 - v); }
  }

  lemma ShownIff(c: nat)
    ensures Shown(U32(Clamp(c))) == Decimal(c) <==> c < 0x8000_0000
  {
    var v := U32(Clamp(c));
    if v >= 0x8000_0000 {
      DecimalIsDigits(c);
      assert Decimal(c)[0] != Shown(v)[0];
    } else if Shown(v) == Decimal(c) {
      DecimalInjective(v, c);
    }
  }

  /** The text of an OID survives the wire exactly when every component is below 2^31. */
  lemma OidRoundTripIff(p: Path)
    requires p != []
    ensures GetOid(Encode(Below13(p))) == Some(Below13(p)) <==> Small(p, 0x8000_0000)
  {
    hide Decode, Encode, Below13, Shown;
    DecodeEncode(p);
    TextBelow13(p);
    forall i | 0 <= i < |p| ensures Shown(U32(Clamp(p[i]))) == Decimal(p[i]) <==> p[i] < 0x8000_0000 {
      ShownIff(p[i]);
    }
    forall i | 0 <= i < |p| ensures '.' !in ShownParts(p)[i] && '.' !in Parts(p)[i] {
      ShownHasNoDot(U32(Clamp(p[i])));
      DecimalHasNoDot(p[i]);
    }
    if Small(p, 0x8000_0000) {
      assert ShownParts(p) == Parts(p);
    }
    if GetOid(Encode(Below13(p))) == Some(Below13(p)) {
      assert ("1.3" + Dots(ShownParts(p)))[3..] == Dots(ShownParts(p)) && ("1.3" + Dots(Parts(p)))[3..] == Dots(Parts(p));
      DotsInjective(ShownParts(p), Parts(p));
      forall i | 0 <= i < |p| ensures p[i] < 0x8000_0000 {
        assert ShownParts(p)[i] == Parts(p)[i];
      }
    }
  }

  /** A text that cannot be told apart by more than what follows: decoding only appends. */
  lemma {:induction false} DecodeAppends(b: seq<byte>, v: uint32, out: string)
    ensures Decode(b, v, false, out).Some? ==> out <= Decode(b, v, false, out).value
    ensures out == [] && Decode(b, v, false, out).Some? && Decode(b, v, false, out).value != [] ==>
            Decode(b, v, false, out).value[0] == '.'
    decreases |b|
  {
    hide Shown, U32;
    if b != [] {
      var v' := U32(v * 128 + b[0] % 128);
      if b[0] < 128 {
        DecodeAppends(b[1..], 0, out + ("." + Shown(v')));
      } else {
        DecodeAppends(b[1..], v', out);
      }
    }
  }

  /** Anything that does not start with byte 43 is shown with a leading dot. */
  lemma OtherTextsStartWithDot(b: seq<byte>)
    requires b != [] && b[0] != 43
    ensures GetOid(b).Some? && GetOid(b).value != [] ==> GetOid(b).value[0] == '.'
  {
    hide Shown, Decode;
    assert b == [b[0]] + b[1..];
    DecodeStep(b[0], b[1..], 0, true, "");
    var v' := U32(0 * 128 + b[0] % 128);
    if b[0] < 128 {
      DecodeAppends(b[1..], 0, "" + ("." + Shown(v')));
    } else {
      DecodeAppends(b[1..], v', "");
    }
  }

  lemma {:induction false} DecimalStarts(n: nat)
    ensures Decimal(n)[0] == '0' ==> n == 0
    ensures IsDigit(Decimal(n)[0])
  {
    if n >= 10 { DecimalStarts(n / 10); }
    else { DigitCharValue(n); }
  }

  /** The first byte of an encoded number, and when it is 43. */
  lemma FirstByteIs43(v: nat)
    ensures |Base128(v)| > 0
    ensures Base128(v)[0] == 43 <==> v == 43
  {
    hide High;
    if v < 128 {
      assert High(0) == [] by { NoHigh(); }
    } else {
      HighFirst(v / 128);
    }
  }

  lemma NoHigh()
    ensures High(0) == []
  {}

  lemma {:induction false} HighFirst(v: nat)
    requires v > 0
    ensures High(v) != [] && High(v)[0] >= 128
  {
    if v >= 128 { HighFirst(v / 128); } else { NoHigh(); }
  }

  lemma Decimal43()
    ensures Decimal(43) == "43"
  {}

  /** What comes back for an OID that does not start with "1.3.": it differs from the text in the first character. */
  lemma OtherOidsChange(p: Path)
    requires p != [] && !StartsWith13(Dotted(p))
    ensures GetOid(Encode(Dotted(p))) != Some(Dotted(p))
  {
    hide Decode, Components, Join, Decimal, Dots, Dotted, Base128, StartsWith13, Shown;
    DottedIsJoin(p);
    var text := Dotted(p);
    JoinIsDots(p);
    assert text[0] == Decimal(p[0])[0];
    DecimalStarts(p[0]);
    var b := Components(text);
    ComponentsCons(p);
    FirstByteIs43(Clamp(p[0]));
    assert b[0] == Base128(Clamp(p[0]))[0];
    if p[0] != 43 {
      OtherTextsStartWithDot(b);
    } else {
      Decimal43();
      assert b == [43] + b[1..];
      DecodeStep(43, b[1..], 0, true, "");
      DecodeAppends(b[1..], 0, "" + "1.3");
    }
  }

  lemma EmptyOid()
    ensures GetOid(Encode(Dotted([]))) == Some(Dotted([]))
  {}

  /** The text of any OID survives the wire exactly when it is below "1.3" with components below 2^31 there, or empty. */
  lemma AnyOidRoundTripIff(p: Path)
    ensures GetOid(Encode(Dotted(p))) == Some(Dotted(p)) <==>
            p == [] || (|p| > 2 && p[0] == 1 && p[1] == 3 && Small(p[2..], 0x8000_0000))
  {
    hide Encode, GetOid, Dotted, Below13, StartsWith13;
    if p == [] {
      EmptyOid();
    } else if StartsWith13(Dotted(p)) {
      BelowIff(p);
      OidRoundTripIff(p[2..]);
    } else {
      OtherOidsChange(p);
      if |p| > 2 && p[0] == 1 && p[1] == 3 {
        BelowIs(p);
        TextBelow13(p[2..]);
      }
    }
  }

  // --- what the bytes denote by the standard

  /** Base-128 numbers as section 8.19 of ITU-T X.690 has them, of any size; `None` when the last one is not finished. */
  function SubIds(b: seq<byte>, v: nat, open: bool): (r: Option<Path>)
    decreases |b|
  {
    if b == [] then (if open then None else Some([]))
    else
      var v' := v * 128 + b[0] % 128;
      if b[0] >= 128 then SubIds(b[1..], v', true)
      else
        var rest := SubIds(b[1..], 0, false);
        if rest.None? then None else Some([v'] + rest.value)
  }

  /** The first number stands for two components. */
  function FirstArcs(v: nat): (r: Path)
    ensures |r| == 2
  {
    if v < 40 then [0, v] else if v < 80 then [1, v - 40] else [2, v - 80]
  }

  /** The OID that the bytes denote. */
  function Denotes(b: seq<byte>): (r: Option<Path>)
    ensures r.Some? ==> |r.value| >= 2
  {
    var ids := SubIds(b, 0, false);
    if ids.None? || ids.value == [] then None else Some(FirstArcs(ids.value[0]) + ids.value[1..])
  }

  lemma SubIdsStep(d: byte, rest: seq<byte>, v: nat, open: bool)
    ensures var v' := v * 128 + d % 128; var more := SubIds(rest, 0, false);
            SubIds([d] + rest, v, open) ==
            if d >= 128 then SubIds(rest, v', true) else if more.None? then None else Some([v'] + more.value)
  {
    assert ([d] + rest)[1..] == rest;
  }

  lemma {:induction false} SubIdsHigh(v: nat, rest: seq<byte>)
    ensures SubIds(High(v) + rest, 0, false) == SubIds(rest, v, v > 0)
    decreases v
  {
    hide SubIds;
    if v == 0 {
      assert High(0) + rest == rest;
    } else {
      var d := v % 128 + 128;
      assert High(v) + rest == High(v / 128) + ([d] + rest);
      SubIdsHigh(v / 128, [d] + rest);
      SubIdsStep(d, rest, v / 128, v / 128 > 0);
    }
  }

  lemma SubIdsNumber(v: nat, rest: seq<byte>)
    ensures var more := SubIds(rest, 0, false);
            SubIds(Base128(v) + rest, 0, false) == if more.None? then None else Some([v] + more.value)
  {
    hide SubIds, High;
    var d := v % 128;
    assert Base128(v) + rest == High(v / 128) + ([d] + rest);
    SubIdsHigh(v / 128, [d] + rest);
    SubIdsStep(d, rest, v / 128, v / 128 > 0);
  }

  function Clamped(p: Path): (r: Path)
    ensures |r| == |p|
  {
    seq(|p|, i requires 0 <= i < |p| => Clamp(p[i]))
  }

  lemma {:induction false} SubIdsComponents(p: Path)
    ensures SubIds(Components(Join(Parts(p))), 0, false) == Some(Clamped(p))
    decreases |p|
  {
    hide SubIds, Components, Join, Base128, Clamp;
    if p == [] {
      NoComponents("");
      NoSubIds();
      assert Parts(p) == [] && Clamped(p) == [];
    } else {
      var rest := p[1..];
      ComponentsCons(p);
      var tail := Components(Join(Parts(rest)));
      NoComponents("");
      assert |p| == 1 ==> Parts(rest) == [];
      SubIdsNumber(Clamp(p[0]), tail);
      SubIdsComponents(rest);
      assert Clamped(p) == [Clamp(p[0])] + Clamped(rest);
    }
  }

  lemma NoSubIds()
    ensures SubIds([], 0, false) == Some([])
  {}

  /** The encoder follows the standard for OIDs below "1.3" exactly as long as the components fit in 63 bits. */
  lemma EncodeDenotesIff(p: Path)
    requires p != []
    ensures Denotes(Encode(Below13(p))) == Some([1, 3] + Clamped(p))
    ensures Denotes(Encode(Below13(p))) == Some([1, 3] + p) <==> Small(p, LLONG_MAX + 1)
  {
    hide SubIds, Components, Join, Below13, StartsWith13;
    TextBelow13(p);
    var rest := Components(Join(Parts(p)));
    SubIdsStep(43, rest, 0, false);
    SubIdsComponents(p);
    assert ([43] + Clamped(p))[1..] == Clamped(p);
    if Small(p, LLONG_MAX + 1) {
      assert Clamped(p) == p;
    } else {
      var i :| 0 <= i < |p| && p[i] > LLONG_MAX;
      assert ([1, 3] + Clamped(p))[i + 2] != ([1, 3] + p)[i + 2];
    }
  }

  /** The text that `get_OID` makes of finished numbers. */
  function ShownIds(ids: Path): (r: seq<string>)
    ensures |r| == |ids|
  {
    seq(|ids|, i requires 0 <= i < |ids| => Shown(U32(ids[i])))
  }

  lemma {:induction false} DecodeShowsSubIds(b: seq<byte>, v: nat, open: bool, out: string)
    requires SubIds(b, v, open).Some? && (!open ==> v == 0)
    ensures Decode(b, U32(v), false, out) == Some(out + Dots(ShownIds(SubIds(b, v, open).value)))
    decreases |b|
  {
    hide Decode, Shown, U32, Dots;
    if b == [] {
      ZeroIs();
      NoComponents(out);
    } else {
      var d, rest := b[0], b[1..];
      assert b == [d] + rest;
      var v' := v * 128 + d % 128;
      DecodeStep(d, rest, U32(v), false, out);
      PushDigit(v, d);
      if d >= 128 {
        DecodeShowsSubIds(rest, v', true, out);
      } else {
        var shown := "." + Shown(U32(v'));
        ZeroIs();
        DecodeShowsSubIds(rest, 0, false, out + shown);
        var ids := SubIds(b, v, open).value;
        assert ids[1..] == SubIds(rest, 0, false).value;
        assert ShownIds(ids)[1..] == ShownIds(ids[1..]) && ShownIds(ids)[0] == Shown(U32(v'));
        DotsStep(ShownIds(ids));
        assert (out + shown) + Dots(ShownIds(ids[1..])) == out + (shown + Dots(ShownIds(ids[1..])));
      }
    }
  }

  lemma ZeroIs()
    ensures U32(0) == 0
  {}

  lemma PushDigit(v: nat, d: byte)
    ensures U32(U32(v) * 128 + d % 128) == U32(v * 128 + d % 128)
  {
    var n := v * 128 + d % 128;
    assert n / 128 == v && n % 128 == d % 128;
    ShiftIn(n);
  }

  /** Bytes that start with 43 and hold components below 2^31 are shown as the OID that they denote. */
  lemma ShownAsDenoted(b: seq<byte>)
    requires b != [] && b[0] == 43 && Denotes(b).Some? && Small(Denotes(b).value[2..], 0x8000_0000)
    ensures GetOid(b) == Some(Dotted(Denotes(b).value))
  {
    hide SubIds, Decode, Dots, Dotted, Shown, U32;
    var rest := b[1..];
    assert b == [43] + rest;
    SubIdsStep(43, rest, 0, false);
    var ids := SubIds(rest, 0, false).value;
    assert ([43] + ids)[1..] == ids;
    var q := Denotes(b).value;
    assert q == [1, 3] + ids && q[2..] == ids;
    Step43(rest);
    ZeroIs();
    DecodeShowsSubIds(rest, 0, false, "1.3");
    TextBelow13(ids);
    SmallShown(ids);
  }

  lemma Step43(rest: seq<byte>)
    ensures GetOid([43] + rest) == Decode(rest, 0, false, "1.3")
  {
    hide Decode, Shown;
    DecodeStep(43, rest, 0, true, "");
    assert "" + "1.3" == "1.3";
  }

  lemma SmallShown(ids: Path)
    requires Small(ids, 0x8000_0000)
    ensures ShownIds(ids) == Parts(ids)
  {}

  // --- the buffer is large enough

  lemma {:induction false} Base128Short(v: nat)
    ensures |Base128(v)| <= |Decimal(v)|
    decreases v
  {
    if v >= 128 {
      HighShort(v / 128);
      DecimalGrows(v / 128, v / 10);
    }
  }

  lemma {:induction false} HighShort(v: nat)
    requires v > 0
    ensures |High(v)| <= |Decimal(v)|
    decreases v
  {
    if v >= 128 {
      HighShort(v / 128);
      DecimalGrows(v / 128, v / 10);
    } else {
      assert High(v / 128) == [];
    }
  }

  lemma {:induction false} DecimalGrows(m: nat, n: nat)
    requires m <= n
    ensures |Decimal(m)| <= |Decimal(n)|
    decreases n
  {
    if m >= 10 {
      DecimalGrows(m / 10, n / 10);
    }
  }

  lemma {:induction false} ComponentsShort(p: Path)
    ensures |Components(Join(Parts(p)))| <= |Join(Parts(p))|
    decreases |p|
  {
    hide Components, Decimal, Base128;
    if p == [] {
      NoComponents("");
    } else {
      ComponentsCons(p);
      Base128Short(Clamp(p[0]));
      DecimalGrows(Clamp(p[0]), p[0]);
      assert Parts(p)[1..] == Parts(p[1..]);
      ComponentsShort(p[1..]);
    }
  }

  /** The bytes written never exceed the text length, which is how much the constructor allocates. */
  lemma EncodeFitsBuffer(p: Path)
    ensures |Encode(Dotted(p))| <= |Dotted(p)|
  {
    hide Components;
    DottedIsJoin(p);
    var text := Dotted(p);
    if StartsWith13(text) {
      BelowIff(p);
      TextBelow13(p[2..]);
      ComponentsShort(p[2..]);
    } else {
      ComponentsShort(p);
    }
  }

  /** Only an OID whose first components are 1 and 3 starts with "1.3.". */
  lemma BelowIff(p: Path)
    requires StartsWith13(Dotted(p))
    ensures |p| > 2 && p[0] == 1 && p[1] == 3 && Dotted(p) == Below13(p[2..])
  {
    hide *;
    SplitDotted(p);
    SplitBelow13(Dotted(p));
    FirstTwo(p);
    BelowIs(p);
  }

  lemma BelowIs(p: Path)
    requires |p| > 2 && p[0] == 1 && p[1] == 3
    ensures Dotted(p) == Below13(p[2..])
  {
    hide Dotted;
    assert p == [1, 3] + p[2..];
  }

  lemma FirstTwo(p: Path)
    requires |Parts(p)| > 2 && Parts(p)[0] == "1" && Parts(p)[1] == "3"
    ensures |p| > 2 && p[0] == 1 && p[1] == 3
  {
    hide Decimal;
    SmallDecimals();
    assert |p| == |Parts(p)|;
    assert Parts(p)[0] == Decimal(p[0]) && Parts(p)[1] == Decimal(p[1]);
    DecimalInjective(p[0], 1);
    DecimalInjective(p[1], 3);
  }

  lemma SplitBelow13(text: string)
    requires StartsWith13(text)
    ensures |Split(text)| > 2 && Split(text)[0] == "1" && Split(text)[1] == "3"
  {
    hide FirstDot;
    var rest := text[4..];
    var tail := "3" + "." + rest;
    assert text == text[..4] + rest;
    assert text == "1" + "." + tail;
    NoDot("1", tail);
    NoDot("3", rest);
    assert text[2..] == tail && text[..1] == "1" && tail[2..] == rest && tail[..1] == "3";
    assert Split(text) == ["1"] + Split(tail);
    assert |Split(tail)| > 1 && Split(tail)[0] == "3" by { SplitNotEmpty(rest); }
  }

  lemma SplitNotEmpty(s: string)
    ensures s != [] ==> |Split(s)| > 0
  {}
}
