/** The cursor decoder (protocol/decoder.go). Each read states what it does on any input; the
    ghost parameters `want` and `tail` add that it undoes the matching put: on the encoding
    of `want` followed by `tail` it returns `want` and stops at `tail`. */
module Decoders {
  import opened Bytes
  import opened Wire

  datatype Error =
    | InsufficientData
    | InvalidStringLength
    | InvalidArrayLength
    | InvalidByteSliceLength
    | LengthFieldInvalid
    | CRCMismatch
    | Panic  // Go's index out of range: Int8 and Int16 do not check bounds

  datatype Result<+T> = Ok(value: T) | Err(error: Error) {
    predicate IsFailure() {
      Err?
    }

    function PropagateFailure<U>(): Result<U>
      requires Err?
    {
      Err(error)
    }

    function Extract(): T
      requires Ok?
    {
      value
    }
  }

  /** Taking the put apart again: the first `w` bytes are the integer, the rest the tail. */
  lemma Peel(w: nat, v: int, tail: bytes)
    requires Fits(w, v)
    ensures var s := PutInt(w, v) + tail; s[..w] == PutInt(w, v) && GetInt(s[..w]) == v && s[w..] == tail
  {
    hide PutInt, GetInt;
    var s := PutInt(w, v) + tail;
    assert s[..w] == PutInt(w, v);
    GetPut(w, v);
  }

  lemma PeelUn(n: nat, tail: bytes)
    requires n < 0x1_0000_0000
    ensures var s := PutInt(4, n) + tail; Un(s[..4]) == n && s[4..] == tail
  {
    hide Be, Un, Pow256;
    Pows();
    UnBe(4, n);
    ModOnce(n, Pow256(4));
    assert (PutInt(4, n) + tail)[..4] == PutInt(4, n);
  }

  // ---- what the length-prefixed reads do on any input -----------------------------------------------
  // A result, written out again, is what was read: nothing else of the input is lost.

  ghost predicate BlobRead(s: bytes, r: Result<Option<bytes>>, rest: bytes) {
    match r
    case Ok(o) => s == Bytes.Blob(o) + rest && (o.Some? ==> |o.value| <= MAX_INT32)
    case Err(InsufficientData) => rest == [] && (|s| < 4 || GetInt(s[..4]) > |s| - 4)
    case Err(InvalidByteSliceLength) => |s| >= 4 && rest == s[4..] && GetInt(s[..4]) < -1
    case _ => false
  }

  /** A length of -1 is read as the empty string too. */
  ghost predicate StringRead(s: bytes, r: Result<bytes>, rest: bytes) {
    match r
    case Ok(str) => |str| <= MAX_INT16 && (s == StrBytes(str) + rest || (str == [] && s == PutInt(2, -1) + rest))
    case Err(InsufficientData) => rest == [] && |s| >= 2 && GetInt(s[..2]) > |s| - 2
    case Err(Panic) => rest == s && |s| < 2
    case Err(InvalidStringLength) => |s| >= 2 && rest == s[2..] && GetInt(s[..2]) < -1
    case _ => false
  }

  ghost predicate NullableRead(s: bytes, r: Result<Option<bytes>>, rest: bytes) {
    match r
    case Ok(o) => s == Emit(NullableStr(o)) + rest && (o.Some? ==> |o.value| <= MAX_INT16)
    case Err(InsufficientData) => rest == [] && |s| >= 2 && GetInt(s[..2]) > |s| - 2
    case Err(Panic) => rest == s && |s| < 2
    case Err(InvalidStringLength) => |s| >= 2 && rest == s[2..] && GetInt(s[..2]) < -1
    case _ => false
  }

  lemma Shown(s: bytes, w: nat)
    requires w <= |s|
    ensures s == PutInt(w, GetInt(s[..w])) + s[w..]
  {
    PutGet(s[..w]);
    SplitAt(s, w);
  }

  lemma Rejoin(s: bytes, w: nat, str: bytes, rest: bytes)
    requires w <= |s| && rest == s[w..] && |str| <= |rest| && str == rest[..|str|] && GetInt(s[..w]) == |str|
    ensures s == PutInt(w, |str|) + str + rest[|str|..]
  {
    hide PutInt, GetInt;
    Shown(s, w);
    SplitAt(rest, |str|);
    Regroup(PutInt(w, |str|), str, rest[|str|..]);
  }

  class ByteDecoder {
    const b: bytes
    const crc: Checksum
    var off: nat
    var stack: seq<Open>

    ghost predicate Valid()
      reads this
    {
      off <= |b|
    }

    ghost function Rest(): (s: bytes)
      requires Valid()
      reads this
    {
      b[off..]
    }

    constructor (b: bytes, crc: Checksum)
      ensures Valid() && this.b == b && this.crc == crc && Rest() == b && off == 0 && stack == []
    {
      this.b, this.crc, off, stack := b, crc, 0, [];
    }

    function Remaining(): (n: nat)
      requires Valid()
      reads this
    {
      |b| - off
    }

    method Int8(ghost want: int, ghost tail: bytes) returns (r: Result<int>)
      requires Valid()
      modifies this`off
      ensures Valid() && off >= old(off)
      ensures r == if |old(Rest())| < 1 then Err(Panic) else Ok(GetInt(old(Rest())[..1]))
      ensures Rest() == if r.Ok? then old(Rest())[1..] else old(Rest())
      ensures old(Rest()) == PutInt(1, want) + tail && Fits(1, want) ==> r == Ok(want) && Rest() == tail
    {
      hide PutInt, GetInt, Fits;
      if Fits(1, want) {
        Peel(1, want, tail);
      }
      if Remaining() < 1 {
        return Err(Panic);
      }
      r := Ok(GetInt(b[off..][..1]));
      off := off + 1;
    }

    method Int16(ghost want: int, ghost tail: bytes) returns (r: Result<int>)
      requires Valid()
      modifies this`off
      ensures Valid() && off >= old(off)
      ensures r == if |old(Rest())| < 2 then Err(Panic) else Ok(GetInt(old(Rest())[..2]))
      ensures Rest() == if r.Ok? then old(Rest())[2..] else old(Rest())
      ensures old(Rest()) == PutInt(2, want) + tail && Fits(2, want) ==> r == Ok(want) && Rest() == tail
    {
      hide PutInt, GetInt, Fits;
      if Fits(2, want) {
        Peel(2, want, tail);
      }
      if Remaining() < 2 {
        return Err(Panic);
      }
      r := Ok(GetInt(b[off..][..2]));
      off := off + 2;
    }

    /** Int32 and Int64: a guarded read of `w` bytes. */
    method Int(w: nat, ghost want: int, ghost tail: bytes) returns (r: Result<int>)
      requires Valid()
      modifies this`off
      ensures Valid() && off >= old(off)
      ensures r == if |old(Rest())| < w then Err(InsufficientData) else Ok(GetInt(old(Rest())[..w]))
      ensures Rest() == if r.Ok? then old(Rest())[w..] else []
      ensures old(Rest()) == PutInt(w, want) + tail && Fits(w, want) ==> r == Ok(want) && Rest() == tail
    {
      hide PutInt, GetInt, Fits;
      if Fits(w, want) {
        Peel(w, want, tail);
      }
      if Remaining() < w {
        off := |b|;
        return Err(InsufficientData);
      }
      r := Ok(GetInt(b[off..][..w]));
      off := off + w;
    }

    method Take(n: nat) returns (s: bytes)
      requires Valid() && n <= Remaining()
      modifies this`off
      ensures Valid() && off >= old(off) && s == old(Rest())[..n] && Rest() == old(Rest())[n..]
    {
      s := b[off..off + n];
      off := off + n;
    }

    method Bool(ghost want: bool, ghost tail: bytes) returns (r: Result<bool>)
      requires Valid()
      modifies this`off
      ensures Valid() && off >= old(off)
      ensures r == if |old(Rest())| < 1 then Err(Panic) else Ok(GetInt(old(Rest())[..1]) == 1)
      ensures old(Rest()) == Emit(Op.Bool(want)) + tail ==> r == Ok(want) && Rest() == tail
    {
      hide PutInt, GetInt, Fits;
      BoolByte(want);
      var i :- Int8(if want then 1 else 0, tail);
      return Ok(i == 1);
    }

    method ArrayLength(ghost want: nat, ghost tail: bytes) returns (r: Result<nat>)
      requires Valid()
      modifies this`off
      ensures Valid() && off >= old(off)
      ensures old(Rest()) == PutInt(4, want) + tail && want <= |tail| && want <= MAX_INT32 ==>
                if want <= MAX_ARRAY then r == Ok(want) && Rest() == tail else r == Err(InvalidArrayLength)
      ensures Rest() == if r == Err(InsufficientData) || |old(Rest())| < 4 then [] else old(Rest())[4..]
      ensures r.Ok? ==> |old(Rest())| >= 4 && r.value == Un(old(Rest())[..4]) <= |Rest()| && r.value <= MAX_ARRAY
      ensures r.Err? ==>
                var s := old(Rest());
                r == if |s| < 4 || Un(s[..4]) > |s| - 4 then Err(InsufficientData) else Err(InvalidArrayLength)
    {
      hide PutInt;
      if want <= MAX_INT32 {
        PeelUn(want, tail);
      }
      if Remaining() < 4 {
        off := |b|;
        return Err(InsufficientData);
      }
      var n := Un(b[off..][..4]);
      off := off + 4;
      if n > Remaining() {
        off := |b|;
        return Err(InsufficientData);
      } else if n > MAX_ARRAY {
        return Err(InvalidArrayLength);
      }
      return Ok(n);
    }

    /** Bytes. */
    method Blob(ghost want: Option<bytes>, ghost tail: bytes) returns (r: Result<Option<bytes>>)
      requires Valid()
      modifies this`off
      ensures Valid() && off >= old(off)
      ensures old(Rest()) == Bytes.Blob(want) + tail && (want.Some? ==> |want.value| <= MAX_INT32) ==>
                r == Ok(want) && Rest() == tail
      ensures old(Rest()) < Bytes.Blob(want) && (want.Some? ==> |want.value| <= MAX_INT32) ==>
                r == Err(InsufficientData)
      ensures BlobRead(old(Rest()), r, Rest())
    {
      hide BlobRead;
      r := AnyBlob();
      BlobUndone(old(Rest()), r, Rest(), want, tail);
    }

    method AnyBlob() returns (r: Result<Option<bytes>>)
      requires Valid()
      modifies this`off
      ensures Valid() && off >= old(off) && BlobRead(old(Rest()), r, Rest())
    {
      hide PutInt, GetInt;
      ghost var s := Rest();
      var len :- Int(4, 0, []);
      Shown(s, 4);
      if len < -1 {
        return Err(InvalidByteSliceLength);
      } else if len == -1 {
        return Ok(None);
      } else if len == 0 {
        Rejoin(s, 4, [], Rest());
        return Ok(Some([]));
      } else if len > Remaining() {
        off := |b|;
        return Err(InsufficientData);
      }
      ghost var rest := Rest();
      var bs := Take(len);
      Rejoin(s, 4, bs, rest);
      return Ok(Some(bs));
    }

    method String(ghost want: bytes, ghost tail: bytes) returns (r: Result<bytes>)
      requires Valid()
      modifies this`off
      ensures Valid() && off >= old(off)
      ensures old(Rest()) == StrBytes(want) + tail && |want| <= MAX_INT16 ==> r == Ok(want) && Rest() == tail
      ensures StringRead(old(Rest()), r, Rest())
    {
      hide StringRead;
      r := AnyString();
      if old(Rest()) == StrBytes(want) + tail && |want| <= MAX_INT16 {
        StringUndone(old(Rest()), r, Rest(), want, tail);
      }
    }

    method AnyString() returns (r: Result<bytes>)
      requires Valid()
      modifies this`off
      ensures Valid() && off >= old(off) && StringRead(old(Rest()), r, Rest())
    {
      hide PutInt, GetInt;
      ghost var s := Rest();
      var len :- Int16(0, []);
      Shown(s, 2);
      if len < -1 {
        return Err(InvalidStringLength);
      } else if len <= 0 {
        if len == 0 {
          Rejoin(s, 2, [], Rest());
        }
        return Ok([]);
      } else if len > Remaining() {
        off := |b|;
        return Err(InsufficientData);
      }
      ghost var rest := Rest();
      var str := Take(len);
      Rejoin(s, 2, str, rest);
      return Ok(str);
    }

    method NullableString(ghost want: Option<bytes>, ghost tail: bytes) returns (r: Result<Option<bytes>>)
      requires Valid()
      modifies this`off
      ensures Valid() && off >= old(off)
      ensures old(Rest()) == Emit(NullableStr(want)) + tail && (want.Some? ==> |want.value| <= MAX_INT16) ==>
                r == Ok(want) && Rest() == tail
      ensures NullableRead(old(Rest()), r, Rest())
    {
      hide NullableRead;
      r := AnyNullable();
      if old(Rest()) == Emit(NullableStr(want)) + tail && (want.Some? ==> |want.value| <= MAX_INT16) {
        NullableUndone(old(Rest()), r, Rest(), want, tail);
      }
    }

    method AnyNullable() returns (r: Result<Option<bytes>>)
      requires Valid()
      modifies this`off
      ensures Valid() && off >= old(off) && NullableRead(old(Rest()), r, Rest())
    {
      hide PutInt, GetInt;
      ghost var s := Rest();
      var len :- Int16(0, []);
      Shown(s, 2);
      if len < -1 {
        return Err(InvalidStringLength);
      } else if len > Remaining() {
        off := |b|;
        return Err(InsufficientData);
      } else if len == -1 {
        return Ok(None);
      }
      ghost var rest := Rest();
      var str := Take(len);
      Rejoin(s, 2, str, rest);
      return Ok(Some(str));
    }

    method Push(kind: Kind) returns (r: Result<()>)
      requires Valid()
      modifies this
      ensures Valid() && off >= old(off) && (r.Ok? <==> |old(Rest())| >= 4)
      ensures r.Ok? ==> Rest() == old(Rest())[4..] && stack == old(stack) + [Open(kind, old(off))]
      ensures r.Err? ==> r == Err(InsufficientData) && Rest() == [] && stack == old(stack)
    {
      if Remaining() < 4 {
        off := |b|;
        return Err(InsufficientData);
      }
      stack := stack + [Open(kind, off)];
      off := off + 4;
      return Ok(());
    }

    /** The innermost field is held against the bytes since its Push: a size field against their
        number in 32 bits, a checksum field against their checksum. */
    method Pop() returns (r: Result<()>)
      requires Valid() && stack != [] && stack[|stack| - 1].start + 4 <= off
      modifies this`stack
      ensures Valid() && stack == old(stack)[..|old(stack)| - 1]
      ensures var open := old(stack[|stack| - 1]);
              var held := Un(b[open.start..open.start + 4]);
              r == match open.kind
                   case SizeField =>
                     if held == (off - open.start - 4) % 0x1_0000_0000 then Ok(()) else Err(LengthFieldInvalid)
                   case CRCField => if held == crc(b[open.start + 4..off]) then Ok(()) else Err(CRCMismatch)
    {
      var open := stack[|stack| - 1];
      stack := stack[..|stack| - 1];
      if Check(crc, open.kind, open.start, off, b) {
        return Ok(());
      }
      return Err(if open.kind == SizeField then LengthFieldInvalid else CRCMismatch);
    }
  }

  lemma TakeFront(a: bytes, b: bytes)
    ensures (a + b)[..|a|] == a && (a + b)[|a|..] == b
  {}

  lemma BoolByte(v: bool)
    ensures Emit(Op.Bool(v)) == PutInt(1, if v then 1 else 0) && Fits(1, if v then 1 else 0)
  {
    Pows();
    var x := if v then 1 else 0;
    assert Be(1, x) == Be(0, x / 256) + [x % 256];
  }

  /** The length that the first `w` bytes show, whatever follows them. */
  lemma Seen(s: bytes, w: nat, v: int, body: bytes)
    requires Fits(w, v) && w <= |s| && s <= PutInt(w, v) + body
    ensures GetInt(s[..w]) == v
  {
    hide PutInt, GetInt, Fits;
    assert s[..w] == PutInt(w, v);
    GetPut(w, v);
  }

  /** A length and as many bytes can be read in one way only. */
  lemma OneWay(w: nat, n: int, body: bytes, tail: bytes, m: int, other: bytes, rest: bytes)
    requires Fits(w, n) && Fits(w, m) && PutInt(w, n) + (body + tail) == PutInt(w, m) + (other + rest)
    requires n == m ==> |body| == |other|
    ensures n == m && body == other && tail == rest
  {
    hide PutInt, GetInt, Fits;
    TakeFront(PutInt(w, n), body + tail);
    TakeFront(PutInt(w, m), other + rest);
    GetPut(w, n);
    GetPut(w, m);
    TakeFront(body, tail);
    TakeFront(other, rest);
  }

  ghost function LengthOf(o: Option<bytes>): (n: int) {
    if o.Some? then |o.value| else -1
  }

  ghost function BodyOf(o: Option<bytes>): (s: bytes) {
    if o.Some? then o.value else []
  }

  lemma BlobParts(o: Option<bytes>, tail: bytes)
    ensures Bytes.Blob(o) + tail == PutInt(4, LengthOf(o)) + (BodyOf(o) + tail)
    ensures Bytes.Blob(o) == PutInt(4, LengthOf(o)) + BodyOf(o)
  {
    hide PutInt;
    Regroup(PutInt(4, LengthOf(o)), BodyOf(o), tail);
    assert PutInt(4, -1) + [] == PutInt(4, -1);
  }

  lemma NullableParts(o: Option<bytes>, tail: bytes)
    ensures Emit(NullableStr(o)) + tail == PutInt(2, LengthOf(o)) + (BodyOf(o) + tail)
  {
    hide PutInt;
    Regroup(PutInt(2, LengthOf(o)), BodyOf(o), tail);
    assert PutInt(2, -1) + [] == PutInt(2, -1);
  }

  lemma LengthFits(w: nat, o: Option<bytes>)
    requires w == 2 || w == 4
    requires o.Some? ==> |o.value| <= if w == 2 then MAX_INT16 else MAX_INT32
    ensures Fits(w, LengthOf(o))
  {
    Pows();
  }

  lemma BlobUndone(s: bytes, r: Result<Option<bytes>>, rest: bytes, want: Option<bytes>, tail: bytes)
    requires BlobRead(s, r, rest)
    ensures s == Bytes.Blob(want) + tail && (want.Some? ==> |want.value| <= MAX_INT32) ==> r == Ok(want) && rest == tail
    ensures s < Bytes.Blob(want) && (want.Some? ==> |want.value| <= MAX_INT32) ==> r == Err(InsufficientData)
  {
    hide PutInt, GetInt, Fits, Bytes.Blob;
    if want.Some? ==> |want.value| <= MAX_INT32 {
      LengthFits(4, want);
      BlobParts(want, tail);
      if r.Ok? {
        LengthFits(4, r.value);
        BlobParts(r.value, rest);
      }
      if s == Bytes.Blob(want) + tail {
        Seen(s, 4, LengthOf(want), BodyOf(want) + tail);
        if r.Ok? {
          OneWay(4, LengthOf(want), BodyOf(want), tail, LengthOf(r.value), BodyOf(r.value), rest);
        }
      }
      if s < Bytes.Blob(want) && |s| >= 4 {
        Seen(s, 4, LengthOf(want), BodyOf(want));
        if r.Ok? {
          Seen(s, 4, LengthOf(r.value), BodyOf(r.value) + rest);
        }
      }
    }
  }

  lemma StringUndone(s: bytes, r: Result<bytes>, rest: bytes, want: bytes, tail: bytes)
    requires StringRead(s, r, rest) && s == StrBytes(want) + tail && |want| <= MAX_INT16
    ensures r == Ok(want) && rest == tail
  {
    hide PutInt, GetInt, Fits;
    LengthFits(2, Some(want));
    Regroup(PutInt(2, |want|), want, tail);
    Seen(s, 2, |want|, want + tail);
    if r.Ok? {
      LengthFits(2, None);
      LengthFits(2, Some(r.value));
      Regroup(PutInt(2, |r.value|), r.value, rest);
      assert [] + rest == rest;
      if s == StrBytes(r.value) + rest {
        OneWay(2, |want|, want, tail, |r.value|, r.value, rest);
      } else {
        Seen(s, 2, -1, rest);
      }
    }
  }

  lemma NullableUndone(s: bytes, r: Result<Option<bytes>>, rest: bytes, want: Option<bytes>, tail: bytes)
    requires NullableRead(s, r, rest) && s == Emit(NullableStr(want)) + tail
    requires want.Some? ==> |want.value| <= MAX_INT16
    ensures r == Ok(want) && rest == tail
  {
    hide PutInt, GetInt, Fits, Emit;
    LengthFits(2, want);
    NullableParts(want, tail);
    Seen(s, 2, LengthOf(want), BodyOf(want) + tail);
    if r.Ok? {
      LengthFits(2, r.value);
      NullableParts(r.value, rest);
      OneWay(2, LengthOf(want), BodyOf(want), tail, LengthOf(r.value), BodyOf(r.value), rest);
    }
  }

  // ---- the same, by the length that the first bytes show ---------------------------------------------

  /** The rest behind a length and as many bytes. */
  lemma Split(s: bytes, w: nat, str: bytes, rest: bytes)
    requires Fits(w, |str|) && s == PutInt(w, |str|) + str + rest
    ensures |s| == w + |str| + |rest| && GetInt(s[..w]) == |str|
    ensures s[w..w + |str|] == str && s[w + |str|..] == rest
  {
    hide PutInt, GetInt, Fits;
    Regroup(PutInt(w, |str|), str, rest);
    Peel(w, |str|, str + rest);
    TakeFront(str, rest);
    SliceTail(s, w, |str|);
  }

  lemma LengthBound(s: bytes)
    ensures |s| == 2 ==> GetInt(s) <= MAX_INT16
    ensures |s| == 4 ==> GetInt(s) <= MAX_INT32
  {
    Pows();
  }

  lemma SliceTail(s: bytes, w: nat, n: nat)
    requires w + n <= |s|
    ensures s[w..][..n] == s[w..w + n] && s[w..][n..] == s[w + n..]
  {}

  /** String: no bytes for a length of zero or -1. */
  lemma StringReadExact(s: bytes, r: Result<bytes>, rest: bytes)
    ensures StringRead(s, r, rest) <==>
            if |s| < 2 then r == Err(Panic) && rest == s
            else
              var n := GetInt(s[..2]);
              if n < -1 then r == Err(InvalidStringLength) && rest == s[2..]
              else if n <= 0 then r == Ok([]) && rest == s[2..]
              else if n > |s| - 2 then r == Err(InsufficientData) && rest == []
              else r == Ok(s[2..2 + n]) && rest == s[2 + n..]
  {
    hide PutInt, GetInt, Fits;
    if |s| >= 2 {
      var n := GetInt(s[..2]);
      Shown(s, 2);
      LengthBound(s[..2]);
      if 0 <= n <= |s| - 2 {
        SliceTail(s, 2, n);
        Rejoin(s, 2, s[2..2 + n], s[2..]);
      }
    }
    if StringRead(s, r, rest) && r.Ok? {
      LengthFits(2, Some(r.value));
      LengthFits(2, None);
      if s == StrBytes(r.value) + rest {
        Split(s, 2, r.value, rest);
      } else {
        Peel(2, -1, rest);
      }
    }
  }

  /** Nullable strings: null for a length of -1. */
  lemma NullableReadExact(s: bytes, r: Result<Option<bytes>>, rest: bytes)
    ensures NullableRead(s, r, rest) <==>
            if |s| < 2 then r == Err(Panic) && rest == s
            else
              var n := GetInt(s[..2]);
              if n < -1 then r == Err(InvalidStringLength) && rest == s[2..]
              else if n == -1 then r == Ok(None) && rest == s[2..]
              else if n > |s| - 2 then r == Err(InsufficientData) && rest == []
              else r == Ok(Some(s[2..2 + n])) && rest == s[2 + n..]
  {
    hide PutInt, GetInt, Fits;
    if |s| >= 2 {
      var n := GetInt(s[..2]);
      Shown(s, 2);
      LengthBound(s[..2]);
      if 0 <= n <= |s| - 2 {
        SliceTail(s, 2, n);
        Rejoin(s, 2, s[2..2 + n], s[2..]);
      }
    }
    if NullableRead(s, r, rest) && r.Ok? {
      LengthFits(2, r.value);
      if r.value.Some? {
        Split(s, 2, r.value.value, rest);
      } else {
        Peel(2, -1, rest);
      }
    }
  }

  /** Blobs: null for a length of -1. */
  lemma BlobReadExact(s: bytes, r: Result<Option<bytes>>, rest: bytes)
    ensures BlobRead(s, r, rest) <==>
            if |s| < 4 then r == Err(InsufficientData) && rest == []
            else
              var n := GetInt(s[..4]);
              if n < -1 then r == Err(InvalidByteSliceLength) && rest == s[4..]
              else if n == -1 then r == Ok(None) && rest == s[4..]
              else if n > |s| - 4 then r == Err(InsufficientData) && rest == []
              else r == Ok(Some(s[4..4 + n])) && rest == s[4 + n..]
  {
    hide PutInt, GetInt, Fits;
    if |s| >= 4 {
      var n := GetInt(s[..4]);
      Shown(s, 4);
      LengthBound(s[..4]);
      if 0 <= n <= |s| - 4 {
        SliceTail(s, 4, n);
        Rejoin(s, 4, s[4..4 + n], s[4..]);
      }
    }
    if BlobRead(s, r, rest) && r.Ok? {
      LengthFits(4, r.value);
      if r.value.Some? {
        Split(s, 4, r.value.value, rest);
      } else {
        Peel(4, -1, rest);
      }
    }
  }
}
