/**
 The code of `snmp/block.cpp`, `snmp/snmp.cpp` and `snmp/snmp_elem.cpp` as it runs: a cursor over bytes, the parser that
 moves it, and the encoders that fill buffers. Each method is tied to the function about which the properties are proved.
 */
module Snmp {
  import opened Bytes
  import opened BerElements
  import P = BerParser
  import BerOid

  /** A block of bytes with a cursor; `None` stands for a range error. */
  class Block {
    const data: seq<byte>
    var offset: nat

    constructor (data: seq<byte>)
      ensures Valid() && Left() == data
    {
      this.data, offset := data, 0;
    }

    predicate Valid()
      reads this
    {
      offset <= |data|
    }

    /** What is still to be read. */
    function Left(): (r: seq<byte>)
      requires Valid()
      reads this
    {
      data[offset..]
    }

    method IsEmpty() returns (r: bool)
      requires Valid()
      ensures r <==> Left() == []
    {
      r := offset == |data|;
    }

    method GetByte() returns (r: Option<byte>)
      requires Valid()
      modifies this`offset
      ensures Valid()
      ensures if old(Left()) == [] then r == None && Left() == old(Left())
              else r == Some(old(Left())[0]) && Left() == old(Left())[1..]
    {
      if offset == |data| { return None; }
      r := Some(data[offset]);
      offset := offset + 1;
    }

    method GetBytes(n: nat) returns (r: Option<seq<byte>>)
      requires Valid()
      modifies this`offset
      ensures Valid()
      ensures if n > |old(Left())| then r == None && Left() == old(Left())
              else r == Some(old(Left())[..n]) && Left() == old(Left())[n..]
    {
      if offset + n > |data| { return None; }
      r := Some(data[offset..offset + n]);
      assert Left()[..n] == r.value && Left()[n..] == data[offset + n..];
      offset := offset + n;
    }

    method SkipBytes(n: nat) returns (ok: bool)
      requires Valid()
      modifies this`offset
      ensures Valid()
      ensures ok <==> n <= |old(Left())|
      ensures Left() == if ok then old(Left())[n..] else old(Left())
    {
      ok := offset + n <= |data|;
      if ok {
        offset := offset + n;
      }
    }
  }

  // --- parsing

  method GetInteger(b: Block) returns (v: uint64)
    requires b.Valid()
    modifies b`offset
    ensures b.Valid() && v == IntegerFrom(old(b.Left()), 0)
  {
    v := 0;
    var empty := b.IsEmpty();
    while !empty
      invariant b.Valid() && empty == (b.Left() == [])
      invariant IntegerFrom(b.Left(), v) == IntegerFrom(old(b.Left()), 0)
      decreases |b.Left()|
    {
      var next := b.GetByte();
      v := U64((v as int) * 256 + next.value);
      empty := b.IsEmpty();
    }
  }

  method GetOid(b: Block) returns (oid: Option<string>)
    requires b.Valid()
    modifies b`offset
    ensures b.Valid() && oid == BerOid.GetOid(old(b.Left()))
  {
    hide BerOid.Shown;
    var out, first, v: uint32 := "", true, 0;
    var empty := b.IsEmpty();
    while !empty
      invariant b.Valid() && empty == (b.Left() == [])
      invariant BerOid.Decode(b.Left(), v, first, out) == BerOid.GetOid(old(b.Left()))
      decreases |b.Left()|
    {
      var cur := b.GetByte();
      v := U32((v as int) * 128 + cur.value % 128);
      if cur.value < 128 {
        if first && v == 43 {
          out := out + "1.3";
        } else {
          out := out + ("." + BerOid.Shown(v));
        }
        v := 0;
      }
      first := false;
      empty := b.IsEmpty();
    }
    oid := if v != 0 then None else Some(out);
  }

  /** Type, length and value of the next element, as the loops of the parser read them. */
  method NextElement(b: Block) returns (tag: byte, value: Option<seq<byte>>)
    requires b.Valid() && b.Left() != []
    modifies b`offset
    ensures b.Valid() && |b.Left()| < |old(b.Left())|
    ensures if !P.HasElement(old(b.Left())) then value == None
            else tag == old(b.Left())[0] && value == Some(P.Value(old(b.Left()))) && b.Left() == P.Rest(old(b.Left()))
  {
    var t := b.GetByte();
    tag := t.value;
    var length := b.GetByte();
    if length.None? { return tag, None; }
    SkipTwo(old(b.Left()));
    value := b.GetBytes(length.value);
  }

  lemma SkipTwo(s: seq<byte>)
    requires |s| >= 2
    ensures s[1..][1..] == s[2..]
    ensures forall n: nat :: n <= |s| - 2 ==> s[2..][..n] == s[2..2 + n] && s[2..][n..] == s[2 + n..]
  {}

  method ProcessBer(next: P.NextOid, b: Block, req0: P.Request, getNext: bool, top: int) returns (r: P.Outcome)
    requires b.Valid()
    modifies b`offset
    ensures b.Valid() && r == P.ProcessBer(next, old(b.Left()), req0, P.Context(getNext, top, true, true))
    decreases |b.Left()|, 1
  {
    hide P.HasElement, P.Value, P.Rest, P.Element;
    var req, firstInteger, firstString := req0, true, true;
    var empty := b.IsEmpty();
    while !empty
      invariant b.Valid() && empty == (b.Left() == []) && |b.Left()| <= |old(b.Left())|
      invariant P.ProcessBer(next, b.Left(), req, P.Context(getNext, top, firstInteger, firstString)) ==
                P.ProcessBer(next, old(b.Left()), req0, P.Context(getNext, top, true, true))
      decreases |b.Left()|
    {
      var tag, value := NextElement(b);
      if value.None? { return P.Thrown; }
      r := ProcessElement(next, tag, value.value, req, P.Context(getNext, top, firstInteger, firstString));
      if r.Thrown? || !r.ok { return; }
      req := r.req;
      firstInteger := firstInteger && tag != INTEGER;
      firstString := firstString && tag != OCTET_STRING;
      empty := b.IsEmpty();
    }
    r := P.Parsed(true, req);
  }

  method ProcessElement(next: P.NextOid, tag: byte, value: seq<byte>, req: P.Request, ctx: P.Context) returns (r: P.Outcome)
    ensures r == P.Element(next, tag, value, req, ctx)
    decreases |value|, 2
  {
    hide P.ProcessBer, P.ProcessPdu, IntegerFrom, BerOid.GetOid;
    var temp := new Block(value);
    r := P.Parsed(true, req);
    if tag == INTEGER {
      if ctx.top != 0 && ctx.firstInteger {
        var v := GetInteger(temp);
        r := P.Parsed(true, req.(version := P.I32(v)));
      }
    } else if tag == OCTET_STRING {
      if ctx.top != 0 && ctx.firstString {
        r := P.Parsed(true, req.(community := value));
      }
    } else if tag == NULL {
    } else if tag == OBJECT_ID {
      var oid := GetOid(temp);
      if oid.None? { return P.Parsed(false, req); }
      if ctx.getNext {
        var following := next(oid.value);
        if following == "" {
          r := P.Parsed(true, req.(err := 2, errIdx := 1));
        } else {
          r := P.Parsed(true, req.(oids := req.oids + [following]));
        }
      } else {
        r := P.Parsed(true, req.(oids := req.oids + [oid.value]));
      }
    } else if tag == SEQUENCE {
      r := ProcessBer(next, temp, req, ctx.getNext, ctx.top - 1);
    } else if tag == GET || tag == SET {
      r := ProcessPdu(next, temp, req, ctx.getNext);
    } else if tag == GET_NEXT {
      r := ProcessPdu(next, temp, req, true);
    } else {
      r := P.Parsed(false, req);
    }
  }

  /** The header of an integer is checked before its bytes are taken. */
  method GetField(b: Block) returns (f: P.Field)
    requires b.Valid()
    modifies b`offset
    ensures b.Valid() && |b.Left()| <= |old(b.Left())| && f == P.IntegerAt(old(b.Left()))
    ensures f.IntegerField? ==> b.Left() == f.rest
  {
    var tag := b.GetByte();
    if tag.None? { return P.NoField; }
    var length := b.GetByte();
    if length.None? { return P.NoField; }
    if tag.value != INTEGER { return P.WrongField; }
    SkipTwo(old(b.Left()));
    var value := b.GetBytes(length.value);
    if value.None? { return P.NoField; }
    f := P.IntegerField(value.value, b.Left());
  }

  /** The same for a field whose value is skipped. */
  method SkipField(b: Block) returns (f: P.Field)
    requires b.Valid()
    modifies b`offset
    ensures b.Valid() && |b.Left()| <= |old(b.Left())|
    ensures var g := P.IntegerAt(old(b.Left()));
            (f.NoField? <==> g.NoField?) && (f.WrongField? <==> g.WrongField?) && (g.IntegerField? ==> b.Left() == g.rest)
  {
    var tag := b.GetByte();
    if tag.None? { return P.NoField; }
    var length := b.GetByte();
    if length.None? { return P.NoField; }
    if tag.value != INTEGER { return P.WrongField; }
    SkipTwo(old(b.Left()));
    var ok := b.SkipBytes(length.value);
    f := if ok then P.IntegerField([], b.Left()) else P.NoField;
  }

  method ProcessPdu(next: P.NextOid, b: Block, req0: P.Request, getNext: bool) returns (r: P.Outcome)
    requires b.Valid()
    modifies b`offset
    ensures b.Valid() && r == P.ProcessPdu(next, old(b.Left()), req0, getNext)
    decreases |b.Left()|, 1
  {
    hide P.IntegerAt, P.BindList, IntegerFrom;
    var f := GetField(b);
    if f.NoField? { return P.Thrown; }
    if f.WrongField? { return P.Parsed(false, req0); }
    var id := new Block(f.value);
    var reqId := GetInteger(id);
    var req := req0.(reqId := reqId);
    f := SkipField(b);
    if f.NoField? { return P.Thrown; }
    if f.WrongField? { return P.Parsed(false, req); }
    f := SkipField(b);
    if f.NoField? { return P.Thrown; }
    if f.WrongField? { return P.Parsed(false, req); }
    r := ProcessBindList(next, b, req, getNext);
  }

  method ProcessBindList(next: P.NextOid, b: Block, req0: P.Request, getNext: bool) returns (r: P.Outcome)
    requires b.Valid()
    modifies b`offset
    ensures b.Valid() && r == P.BindList(next, old(b.Left()), req0, getNext)
    decreases |b.Left()|, 0
  {
    hide P.Binds, P.ProcessBer;
    var tag := b.GetByte();
    if tag.None? { return P.Thrown; }
    if tag.value != SEQUENCE { return P.Parsed(false, req0); }
    var length := b.GetByte();
    if length.None? { return P.Thrown; }
    if length.value == 0 { return P.Parsed(true, req0); }
    SkipTwo(old(b.Left()));
    var list := b.GetBytes(length.value);
    if list.None? { return P.Thrown; }
    r := ProcessBinds(next, list.value, req0, getNext);
  }

  method ProcessBinds(next: P.NextOid, list: seq<byte>, req0: P.Request, getNext: bool) returns (r: P.Outcome)
    ensures r == P.Binds(next, list, req0, getNext)
    decreases |list|, 1
  {
    hide P.HasElement, P.Value, P.Rest, P.ProcessBer;
    var temp := new Block(list);
    var req := req0;
    var empty := temp.IsEmpty();
    while !empty
      invariant temp.Valid() && empty == (temp.Left() == []) && |temp.Left()| <= |list|
      invariant P.Binds(next, temp.Left(), req, getNext) == P.Binds(next, list, req0, getNext)
      decreases |temp.Left()|
    {
      var tag, value := NextElement(temp);
      if value.None? { return P.Thrown; }
      if tag != SEQUENCE { return P.Parsed(false, req); }
      var bind := new Block(value.value);
      var one := ProcessBer(next, bind, req, getNext, 0);
      if one.Thrown? { return P.Thrown; }
      req := one.req;
      empty := temp.IsEmpty();
    }
    r := P.Parsed(true, req);
  }

  // --- encoding

  /** `snmp_sequence::get_payload` and `snmp_pdu::get_payload`; the buffer is not initialised. */
  method PackSequence(tag: byte, payloads: seq<seq<byte>>) returns (r: seq<byte>)
    ensures exists memory :: |memory| == 258 && r == BerElements.PackSequence(tag, payloads, memory)
  {
    hide Pack, Splice;
    var out := new byte[258];
    ghost var memory: seq<byte> := out[..];
    out[0] := SEQUENCE;
    assert out[..] == memory[0 := SEQUENCE];
    var o := PackLoop(out, payloads);
    ghost var filled: seq<byte> := out[..];
    var length: byte := U8((o as int) - 2);
    out[1] := length;
    out[0] := tag;
    r := out[..o];
    assert out[..] == filled[1 := length][0 := tag];
    assert r == BerElements.PackSequence(tag, payloads, memory);
  }

  /** Copies payloads one after the other until one does not fit. */
  method PackLoop(out: array<byte>, payloads: seq<seq<byte>>) returns (o: byte)
    requires out.Length == 258
    modifies out
    ensures (out[..], o) == Pack(payloads, old(out[..]), 2)
  {
    hide Pack, Splice;
    var i := 0;
    o := 2;
    assert payloads[0..] == payloads;
    while i < |payloads|
      invariant 0 <= i <= |payloads|
      invariant Pack(payloads[i..], out[..], o) == Pack(payloads, old(out[..]), 2)
    {
      var payload := payloads[i];
      PackStep(payloads, i, out[..], o);
      if (o as int) + |payload| >= 257 { return; }
      Memcpy(out, o, payload);
      o := U8((o as int) + |payload|);
      i := i + 1;
    }
    assert payloads[i..] == [];
    PackEnd(out[..], o);
  }

  lemma PackStep(payloads: seq<seq<byte>>, i: nat, buffer: seq<byte>, o: byte)
    requires i < |payloads| && |buffer| == 258
    ensures Pack(payloads[i..], buffer, o) ==
            if o + |payloads[i]| >= 257 then (buffer, o)
            else Pack(payloads[i + 1..], Splice(buffer, o, payloads[i]), U8(o + |payloads[i]|))
  {
    assert payloads[i..][0] == payloads[i] && payloads[i..][1..] == payloads[i + 1..];
  }

  lemma PackEnd(buffer: seq<byte>, o: byte)
    requires |buffer| == 258
    ensures Pack([], buffer, o) == (buffer, o)
  {}

  /** `snmp_integer::get_payload`: the bytes of the value by shifting. */
  method IntegerPayload(kind: byte, v: uint64) returns (out: seq<byte>)
    ensures out == Tlv(Integer(kind, v))
  {
    var n := IntegerLength(v);
    out := [kind, n];
    var i := 0;
    while i < n
      invariant 0 <= i <= n && n == IntegerLength(v)
      invariant out == [kind, n] + BigEndian(v, n)[..i]
    {
      ByteOf(v, n, i);
      out := out + [(v / Power256(n - 1 - i)) % 256];
      i := i + 1;
    }
    assert BigEndian(v, n)[..n] == BigEndian(v, n);
  }
}
