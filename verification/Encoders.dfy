/** The two passes of protocol.Encode (protocol/encoder.go): LenEncoder measures, ByteEncoder
    writes into a buffer of that length and back-fills the reserved fields. */
module Encoders {
  import opened Bytes
  import opened Wire

  lemma {:induction false} StrsSize(ss: seq<bytes>, i: nat)
    requires i < |ss|
    ensures Strs(ss[i..]) == StrBytes(ss[i]) + Strs(ss[i + 1..])
  {
    assert ss[i..][1..] == ss[i + 1..];
  }

  lemma IntsFrom(w: nat, vs: seq<int>, i: nat)
    requires i < |vs|
    ensures Ints(w, vs[i..]) == PutInt(w, vs[i]) + Ints(w, vs[i + 1..])
  {
    assert vs[i..][1..] == vs[i + 1..];
  }

  class LenEncoder {
    var length: nat

    constructor ()
      ensures length == 0
    {
      length := 0;
    }

    method PutRawBytes(n: nat) returns (ok: bool)
      modifies this
      ensures ok <==> n <= MAX_INT32
      ensures ok ==> length == old(length) + n
    {
      if n > MAX_INT32 {
        return false;
      }
      length := length + n;
      return true;
    }

    method PutString(s: bytes) returns (ok: bool)
      modifies this
      ensures ok <==> |s| <= MAX_INT16
      ensures ok ==> length == old(length) + |StrBytes(s)|
    {
      length := length + 2;
      if |s| > MAX_INT16 {
        return false;
      }
      length := length + |s|;
      return true;
    }

    method PutArrayLength(n: nat) returns (ok: bool)
      modifies this
      ensures ok <==> n <= MAX_INT32
      ensures ok ==> length == old(length) + 4
    {
      if n > MAX_INT32 {
        return false;
      }
      length := length + 4;
      return true;
    }

    method PutStringArray(ss: seq<bytes>) returns (ok: bool)
      modifies this
      ensures ok <==> Accepts(StrArray(ss))
      ensures ok ==> length == old(length) + 4 + |Strs(ss)|
    {
      hide Strs;
      ok := PutArrayLength(|ss|);
      if !ok {
        return;
      }
      StrsEnds(ss);
      for i := 0 to |ss|
        invariant forall j :: 0 <= j < i ==> |ss[j]| <= MAX_INT16
        invariant length + |Strs(ss[i..])| == old(length) + 4 + |Strs(ss)|
      {
        StrsSize(ss, i);
        ok := PutString(ss[i]);
        if !ok {
          return;
        }
      }
    }

    /** Measures one put; rejected puts are the ones whose length does not fit its field. */
    method Put(op: Op) returns (ok: bool)
      modifies this
      ensures ok <==> Accepts(op)
      ensures ok ==> length == old(length) + |Emit(op)|
    {
      hide Strs, Ints, PutInt;
      ok := true;
      match op
      case Bool(_) => length := length + 1;
      case Int8(_) => length := length + 1;
      case Int16(_) => length := length + 2;
      case Int32(_) => length := length + 4;
      case Int64(_) => length := length + 8;
      case ArrayLength(n) => ok := PutArrayLength(n);
      case Raw(raw) => ok := PutRawBytes(|raw|);
      case Blob(o) =>
        length := length + 4;
        if o.Some? {
          ok := PutRawBytes(|o.value|);
        }
      case Str(s) => ok := PutString(s);
      case NullableStr(o) =>
        if o.None? {
          length := length + 2;
        } else {
          ok := PutString(o.value);
        }
      case StrArray(ss) => ok := PutStringArray(ss);
      case Int32Array(vs) =>
        ok := PutArrayLength(|vs|);
        if ok {
          length := length + 4 * |vs|;
        }
      case Int64Array(vs) =>
        ok := PutArrayLength(|vs|);
        if ok {
          length := length + 8 * |vs|;
        }
    }

    /** Measures a whole program: Push reserves its field, Pop does nothing. */
    method Run(p: Prog) returns (ok: bool)
      modifies this
      ensures ok <==> AcceptsAll(p)
      ensures ok ==> length == old(length) + Size(p)
      decreases p
    {
      match p
      case Done => ok := true;
      case Put(op, next) =>
        ok := Put(op);
        if ok {
          ok := Run(next);
        }
      case Framed(_, body, next) =>
        length := length + 4;
        ok := Run(body);
        if ok {
          ok := Run(next);
        }
    }
  }

  lemma StrsEnds(ss: seq<bytes>)
    ensures ss[0..] == ss && Strs(ss[|ss|..]) == []
  {}

  lemma IntsEnds(w: nat, vs: seq<int>)
    ensures vs[0..] == vs && Ints(w, vs[|vs|..]) == []
  {}

  class ByteEncoder {
    const b: array<byte>
    const crc: Checksum
    var off: nat
    var stack: seq<Open>

    constructor (b: array<byte>, crc: Checksum)
      ensures this.b == b && this.crc == crc && off == 0 && stack == []
    {
      this.b, this.crc, off, stack := b, crc, 0, [];
    }

    /** The bytes written so far; everything from the cursor on is still zero. */
    ghost function Written(): (w: bytes)
      reads this, b
    {
      if off <= b.Length then b[..off] else []
    }

    ghost predicate Blank()
      reads this, b
    {
      off <= b.Length && forall i :: off <= i < b.Length ==> b[i] == 0
    }

    method Copy(bs: bytes)
      requires Blank() && off + |bs| <= b.Length
      modifies this`off, b
      ensures Blank() && off == old(off) + |bs| && Written() == old(Written()) + bs
    {
      forall i | 0 <= i < |bs| {
        b[off + i] := bs[i];
      }
      off := off + |bs|;
    }

    /** A false is not written: the byte is already zero. */
    method PutBool(v: bool)
      requires Blank() && off < b.Length
      modifies this`off, b
      ensures Blank() && off == old(off) + 1 && Written() == old(Written()) + [if v then 1 else 0]
    {
      if v {
        b[off] := 1;
      }
      off := off + 1;
    }

    method PutStrings(ss: seq<bytes>)
      requires Blank() && off + |Strs(ss)| <= b.Length
      modifies this`off, b
      ensures Blank() && off == old(off) + |Strs(ss)| && Written() == old(Written()) + Strs(ss)
    {
      hide Strs, Written, Blank, StrBytes;
      ghost var w := Written();
      StrsEnds(ss);
      for i := 0 to |ss|
        invariant Blank() && off + |Strs(ss[i..])| == old(off) + |Strs(ss)|
        invariant Written() + Strs(ss[i..]) == w + Strs(ss)
      {
        StrsSize(ss, i);
        Regroup(Written(), StrBytes(ss[i]), Strs(ss[i + 1..]));
        Copy(StrBytes(ss[i]));
      }
      assert Written() + [] == Written();
    }

    method PutInts(width: nat, vs: seq<int>)
      requires Blank() && off + |Ints(width, vs)| <= b.Length
      modifies this`off, b
      ensures Blank() && off == old(off) + |Ints(width, vs)| && Written() == old(Written()) + Ints(width, vs)
    {
      hide Ints, Written, Blank, PutInt;
      ghost var w := Written();
      IntsEnds(width, vs);
      for i := 0 to |vs|
        invariant Blank() && off + |Ints(width, vs[i..])| == old(off) + |Ints(width, vs)|
        invariant Written() + Ints(width, vs[i..]) == w + Ints(width, vs)
      {
        IntsFrom(width, vs, i);
        Regroup(Written(), PutInt(width, vs[i]), Ints(width, vs[i + 1..]));
        Copy(PutInt(width, vs[i]));
      }
      assert Written() + [] == Written();
    }

    method Put(op: Op)
      requires Blank() && off + |Emit(op)| <= b.Length
      modifies this`off, b
      ensures Blank() && off == old(off) + |Emit(op)| && Written() == old(Written()) + Emit(op)
    {
      hide Strs, Ints, PutInt, Written, Blank, StrBytes;
      match op
      case Bool(v) => PutBool(v);
      case Int8(v) => Copy(PutInt(1, v));
      case Int16(v) => Copy(PutInt(2, v));
      case Int32(v) => Copy(PutInt(4, v));
      case Int64(v) => Copy(PutInt(8, v));
      case ArrayLength(n) => Copy(PutInt(4, n));
      case Raw(raw) => Copy(raw);
      case Blob(o) => PutBlob(o);
      case Str(s) => Copy(StrBytes(s));
      case NullableStr(o) =>
        if o.None? {
          Copy(PutInt(2, -1));
        } else {
          Copy(StrBytes(o.value));
        }
      case StrArray(ss) =>
        Regroup(Written(), PutInt(4, |ss|), Strs(ss));
        Copy(PutInt(4, |ss|));
        PutStrings(ss);
      case Int32Array(vs) =>
        Regroup(Written(), PutInt(4, |vs|), Ints(4, vs));
        Copy(PutInt(4, |vs|));
        PutInts(4, vs);
      case Int64Array(vs) =>
        Regroup(Written(), PutInt(4, |vs|), Ints(8, vs));
        Copy(PutInt(4, |vs|));
        PutInts(8, vs);
    }

    method PutBlob(o: Option<bytes>)
      requires Blank() && off + |Bytes.Blob(o)| <= b.Length
      modifies this`off, b
      ensures Blank() && off == old(off) + |Bytes.Blob(o)| && Written() == old(Written()) + Bytes.Blob(o)
    {
      hide PutInt, Written, Blank;
      if o.None? {
        Copy(PutInt(4, -1));
        return;
      }
      Regroup(Written(), PutInt(4, |o.value|), o.value);
      Copy(PutInt(4, |o.value|));
      Copy(o.value);
    }

    /** Push reserves four bytes, still zero, and remembers where. */
    method Push(kind: Kind)
      requires Blank() && off + 4 <= b.Length
      modifies this
      ensures Blank() && off == old(off) + 4 && Written() == old(Written()) + [0, 0, 0, 0]
      ensures stack == old(stack) + [Open(kind, old(off))]
    {
      stack := stack + [Open(kind, off)];
      off := off + 4;
    }

    /** Pop fills the innermost reserved field from the bytes written since its Push, and
        changes nothing else. */
    method Pop()
      requires Blank() && stack != [] && stack[|stack| - 1].start + 4 <= off
      modifies this`stack, b
      ensures Blank() && stack == old(stack)[..|old(stack)| - 1]
      ensures var open, w := old(stack[|stack| - 1]), old(Written());
              Written() == w[..open.start] + Field(crc, open.kind, w[open.start + 4..]) + w[open.start + 4..]
    {
      hide PutInt;
      ghost var w := Written();
      var open := stack[|stack| - 1];
      stack := stack[..|stack| - 1];
      var field := match open.kind
        case SizeField => PutInt(4, off - open.start - 4)
        case CRCField => PutInt(4, crc(b[open.start + 4..off]));
      assert b[open.start + 4..off] == w[open.start + 4..];
      assert field == Field(crc, open.kind, w[open.start + 4..]);
      forall i | 0 <= i < 4 {
        b[open.start + i] := field[i];
      }
      assert Written() == w[..open.start] + field + w[open.start + 4..];
    }

    /** Running a program in a blank buffer of its measured size writes exactly its layout:
        no put disturbs what was written, and every field is filled with its final value. */
    method Run(p: Prog)
      requires Blank() && off + Size(p) <= b.Length
      modifies this, b
      ensures Blank() && off == old(off) + Size(p) && stack == old(stack)
      ensures Written() == old(Written()) + Lay(crc, p, [])
      decreases p
    {
      hide Written, Blank, Emit, Field;
      ghost var w := Written();
      match p
      case Done =>
        assert w + [] == w;
      case Put(op, next) =>
        Put(op);
        Run(next);
        Regroup(w, Emit(op), Lay(crc, next, []));
      case Framed(kind, body, next) =>
        ghost var inner := Lay(crc, body, []);
        LayTail(crc, body, Lay(crc, next, []));
        WrittenSize();
        Push(kind);
        Run(body);
        assert stack == old(stack) + [Open(kind, |w|)];
        Hole(w, inner);
        Pop();
        Run(next);
        FrameLaid(w, Field(crc, kind, inner), inner, Lay(crc, next, []));
    }

    lemma WrittenSize()
      requires Blank()
      ensures |Written()| == off
    {}
  }

  lemma Hole(w: bytes, inner: bytes)
    ensures (w + [0, 0, 0, 0] + inner)[..|w|] == w
    ensures (w + [0, 0, 0, 0] + inner)[|w| + 4..] == inner
  {}

  lemma FrameLaid(w: bytes, field: bytes, inner: bytes, rest: bytes)
    ensures w + field + inner + rest == w + (field + (inner + rest))
  {}

  /** protocol.Encode: the first pass measures, the second writes into a zeroed buffer of the
      measured length. The passes may visit maps in different orders, hence two programs. */
  method Encode(crc: Checksum, measured: Prog, written: Prog) returns (r: Option<bytes>)
    requires Size(measured) == Size(written)
    ensures r == if AcceptsAll(measured) then Some(Lay(crc, written, [])) else None
  {
    hide Lay, Size, AcceptsAll;
    var lenEnc := new LenEncoder();
    var ok := lenEnc.Run(measured);
    if !ok {
      return None;
    }
    var b := new byte[lenEnc.length](_ => 0);
    var byteEnc := new ByteEncoder(b, crc);
    byteEnc.Run(written);
    assert byteEnc.Written() == [] + Lay(crc, written, []);
    assert b[..] == byteEnc.Written();
    return Some(b[..]);
  }
}
