/** The zero-copy views of commitlog/message.go and commitlog/message_set.go. */
module MessageView {
  import opened Bytes

  const HEADER_LEN := 12

  // ---- message sets ----------------------------------------------------------------

  function Offset(ms: bytes): (o: int)
    requires |ms| >= HEADER_LEN
  {
    GetInt(ms[0..8])
  }

  function PutOffset(ms: bytes, offset: int): (r: bytes)
    requires |ms| >= HEADER_LEN
  {
    PutInt(8, offset) + ms[8..]
  }

  /** The declared payload size plus the header, in 32-bit arithmetic. */
  function Size(ms: bytes): (n: int)
    requires |ms| >= HEADER_LEN
  {
    Wrap32(Un(ms[8..12]) + HEADER_LEN)
  }

  /** A header followed by exactly the declared number of bytes. */
  predicate WellFormed(ms: bytes) {
    HEADER_LEN <= |ms| < 0x8000_0000 && Un(ms[8..12]) == |ms| - HEADER_LEN
  }

  lemma SizeOfWellFormed(ms: bytes)
    requires WellFormed(ms)
    ensures Size(ms) == |ms|
  {
    Pows();
  }

  /** Stamping an offset keeps the length, the declared size and the payload. */
  lemma Stamped(ms: bytes, offset: int64)
    requires |ms| >= HEADER_LEN
    ensures WellFormed(PutOffset(ms, offset)) <==> WellFormed(ms)
    ensures |PutOffset(ms, offset)| == |ms|
    ensures Offset(PutOffset(ms, offset)) == offset
    ensures PutOffset(ms, offset)[8..] == ms[8..]
  {
    var r := PutOffset(ms, offset);
    assert r[0..8] == PutInt(8, offset);
    assert r[8..12] == ms[8..12];
    GetPutFixed();
  }

  /** The offset is unsigned here and signed where it is read. */
  method NewMessageSet(offset: nat, msgs: seq<bytes>) returns (ms: bytes)
    ensures |ms| == HEADER_LEN + |Concat(msgs)|
    ensures Offset(ms) == Wrap64(offset) && ms[HEADER_LEN..] == Concat(msgs)
    ensures |ms| < 0x8000_0000 ==> WellFormed(ms) && Size(ms) == |ms|
  {
    hide PutInt, GetInt, Be, Wrap64;
    var head := PutInt(8, offset);
    var payload: bytes, n: nat := [], 0;
    for i := 0 to |msgs|
      invariant payload == Concat(msgs[..i])
      invariant n == |payload| % 0x1_0000_0000
    {
      ConcatNext(msgs, i);
      payload := payload + msgs[i];
      n := (n + |msgs[i]|) % 0x1_0000_0000;
    }
    assert msgs[..|msgs|] == msgs;
    ms := head + Be(4, n) + payload;
    assert ms[0..8] == head && ms[8..12] == Be(4, n);
    GetPut64(offset);
    Pows();
    UnBe(4, n);
  }

  // ---- messages --------------------------------------------------------------------

  function KeyStart(m: bytes): (n: int)
    requires |m| > 4
  {
    if m[4] == 0 then 6 else 14
  }

  /** A signed 32-bit read; None is Go's out-of-range panic. */
  function Int32At(m: bytes, at: int): (r: Option<int>) {
    if 0 <= at && at + 4 <= |m| then Some(GetInt(m[at..at + 4])) else None
  }

  function KeySize(m: bytes): (r: Option<int>) {
    if |m| <= 4 then None else Int32At(m, KeyStart(m))
  }

  /** Where the value's length is read: the key's end, which a null key puts one byte early. */
  function ValueStart(m: bytes): (r: Option<int>) {
    match KeySize(m)
    case None => None
    case Some(k) => Some(Wrap32(KeyStart(m) + 4 + k))
  }

  function ValueSize(m: bytes): (r: Option<int>) {
    match ValueStart(m)
    case None => None
    case Some(at) => Int32At(m, at)
  }

  /** Message.Size: a signed magic byte decides the timestamp, unlike in KeyStart. */
  function MessageSize(m: bytes): (r: Option<int>) {
    match ValueSize(m)
    case None => None
    case Some(v) =>
      var k := KeySize(m).value;
      var head := if 0 < m[4] < 0x80 then 14 else 6;
      Some(Wrap32(head + 4 + (if k != -1 then k else 0) + 4 + (if v != -1 then v else 0)))
  }

  /** Message.Key, with nil and the empty key read alike as the hash does. */
  function KeyBytes(m: bytes): (r: Option<bytes>) {
    match KeySize(m)
    case None => None
    case Some(k) =>
      if k == -1 then Some([])
      else
        var start, end := KeyStart(m) + 4, Wrap32(KeyStart(m) + 4 + k);
        if start <= end <= |m| then Some(m[start..end]) else None
  }

  /** A message laid out as the protocol does: crc, magic byte, attributes and, for a
      positive magic byte, a timestamp; then the nullable key and value. */
  function Shape(head: bytes, key: Option<bytes>, value: Option<bytes>): (m: bytes) {
    head + Blob(key) + Blob(value)
  }

  ghost predicate Head(head: bytes) {
    |head| > 5 && |head| == if head[4] == 0 then 6 else 14
  }

  lemma Un4(s: bytes)
    requires |s| == 4
    ensures Un(s) == 0x100_0000 * (s[0] as int) + 0x1_0000 * (s[1] as int) + 0x100 * (s[2] as int) + s[3]
  {
    assert s[..3][..2] == s[..2] && s[..2][..1] == s[..1];
    assert Un(s[..1]) == s[0];
    assert Un(s[..2]) == 0x100 * (s[0] as int) + s[1];
    assert Un(s[..3]) == 0x1_0000 * (s[0] as int) + 0x100 * (s[1] as int) + s[2];
  }

  lemma BlobSize(m: bytes, at: nat, o: Option<bytes>)
    requires at + 4 <= |m| && m[at..at + 4] == Blob(o)[..4]
    requires o.Some? ==> |o.value| < 0x8000_0000
    ensures Int32At(m, at) == Some(if o.Some? then |o.value| else -1)
  {
    Pows();
    var n := if o.Some? then |o.value| else -1;
    assert Blob(o)[..4] == PutInt(4, n);
    GetPut(4, n);
  }

  lemma Regroup3(a: bytes, b: bytes, c: bytes, d: bytes)
    ensures a + b + c + d == a + b + (c + d)
  {}

  /** Where a blob lies behind its head, and the bytes in it. */
  lemma BlobAt(head: bytes, o: Option<bytes>, rest: bytes)
    ensures var m, at := head + Blob(o) + rest, |head|;
            && |m| >= at + 4 && m[at..at + 4] == Blob(o)[..4]
            && (o.Some? ==> |m| >= at + 4 + |o.value| && m[at + 4..at + 4 + |o.value|] == o.value)
  {
    hide PutInt;
  }

  lemma ViewKey(head: bytes, key: Option<bytes>, value: Option<bytes>, tail: bytes)
    requires Head(head) && |Shape(head, key, value)| < 0x8000_0000
    ensures var m := Shape(head, key, value) + tail;
            KeySize(m) == Some(if key.Some? then |key.value| else -1)
    ensures KeyBytes(Shape(head, key, value) + tail) == Some(if key.Some? then key.value else [])
  {
    hide PutInt, GetInt, Un, Int32At, Wrap32;
    var m := Shape(head, key, value) + tail;
    var at := |head|;
    assert m[4] == head[4] && KeyStart(m) == at;
    BlobAt(head, key, Blob(value) + tail);
    Regroup3(head, Blob(key), Blob(value), tail);
    BlobSize(m, at, key);
    if key.Some? {
      Small(at + 4 + |key.value|);
    }
  }

  lemma ViewValueKeyed(head: bytes, key: bytes, value: Option<bytes>, tail: bytes)
    requires Head(head) && |Shape(head, Some(key), value)| < 0x8000_0000
    ensures var m := Shape(head, Some(key), value) + tail;
            ValueSize(m) == Some(if value.Some? then |value.value| else -1)
  {
    hide PutInt, GetInt, Un, Int32At, KeySize, KeyBytes;
    var m := Shape(head, Some(key), value) + tail;
    ViewKey(head, Some(key), value, tail);
    var at := |head| + 4 + |key|;
    Small(at);
    assert m[at..at + 4] == Blob(value)[..4];
    BlobSize(m, at, value);
  }

  lemma Small(n: int)
    requires -0x8000_0000 <= n < 0x8000_0000
    ensures Wrap32(n) == n
  {}

  lemma ViewSizeKeyed(head: bytes, key: bytes, value: Option<bytes>, tail: bytes)
    requires Head(head) && |Shape(head, Some(key), value)| < 0x8000_0000
    ensures var m := Shape(head, Some(key), value);
            MessageSize(m + tail) == Some(if head[4] < 0x80 then |m| else |m| - 8)
  {
    hide PutInt, GetInt, Un, Int32At, KeySize, ValueSize, KeyBytes, Wrap32;
    var m := Shape(head, Some(key), value);
    ViewKey(head, Some(key), value, tail);
    ViewValueKeyed(head, key, value, tail);
    assert (m + tail)[4] == head[4];
    Small(if head[4] < 0x80 then |m| else |m| - 8);
  }

  /** The last byte of a null key's length and the first three of the value's. */
  lemma EarlyBytes(head: bytes, value: Option<bytes>, tail: bytes)
    ensures var m, at := Shape(head, None, value) + tail, |head| + 3;
            |m| >= at + 5 && m[at..at + 4] == [255] + Blob(value)[..3]
  {
    hide PutInt;
    NullBlob();
    var m, at := Shape(head, None, value) + tail, |head| + 3;
    assert m[at] == PutInt(4, -1)[3];
    assert m[at + 1..at + 4] == Blob(value)[..3];
    assert m[at..at + 4] == [m[at]] + m[at + 1..at + 4];
  }

  /** With a null key the value's length is read one byte early: its first byte is the last
      of the key's -1. A value then seems to have a length far below zero. */
  lemma ViewSizeNull(head: bytes, value: Option<bytes>, tail: bytes)
    requires Head(head) && |Shape(head, None, value)| < 0x8000_0000
    ensures var m := Shape(head, None, value) + tail;
            ValueSize(m).Some? && if value.None? then ValueSize(m).value == -1 else ValueSize(m).value < -0x80_0000
  {
    hide PutInt, GetInt, Un, Wrap32, KeySize, KeyBytes;
    var m := Shape(head, None, value) + tail;
    ViewKey(head, None, value, tail);
    var at := |head| + 3;
    Small(at);
    EarlyBytes(head, value, tail);
    assert m[4] == head[4] && KeyStart(m) == |head|;
    NullBlob();
    if value.None? {
      BlobSize(m, at, value);
    } else {
      LengthByte(|value.value|);
      EarlyLength(m[at..at + 4]);
    }
  }

  lemma EarlyLength(s: bytes)
    requires |s| == 4 && s[0] == 255 && s[1] < 0x80
    ensures GetInt(s) < -0x80_0000
  {
    Un4(s);
    Pows();
  }

  /** The size computed from the view is the message's real size exactly when the key is
      present or the value is null too, since only then is the value's length read in place,
      and the magic byte is not negative, since the size then leaves out the timestamp. A value
      without a key makes the size negative. */
  lemma ViewSize(head: bytes, key: Option<bytes>, value: Option<bytes>, tail: bytes)
    requires Head(head) && |Shape(head, key, value)| < 0x8000_0000
    ensures var m := Shape(head, key, value);
            && (MessageSize(m + tail) == Some(|m|) <==> head[4] < 0x80 && (key.Some? || value.None?))
            && MessageSize(m + tail).Some?
            && (key.None? && value.Some? ==> MessageSize(m + tail).value < 0)
  {
    hide PutInt, GetInt, Un;
    if key.Some? {
      ViewSizeKeyed(head, key.value, value, tail);
    } else {
      ViewKey(head, None, value, tail);
      ViewSizeNull(head, value, tail);
    }
  }

  lemma NullBlob()
    ensures PutInt(4, -1) == [255, 255, 255, 255]
  {
    Pows();
    var v := 0xFFFF_FFFF;
    ModFits(4, -1);
    assert Be(4, v) == Be(3, 0xFF_FFFF) + [255];
    assert Be(3, 0xFF_FFFF) == Be(2, 0xFFFF) + [255];
    assert Be(2, 0xFFFF) == Be(1, 0xFF) + [255];
    assert Be(1, 0xFF) == [] + [255];
  }

  lemma LengthByte(n: nat)
    requires n < 0x8000_0000
    ensures PutInt(4, n)[0] < 0x80
  {
    hide Be, Un, Pow256;
    Pows();
    UnBe(4, n);
    ModOnce(n, Pow256(4));
    Un4(Be(4, n));
  }

  // ---- the messages of a set -------------------------------------------------------

  /** The loop of MessageSet.Messages from an arbitrary point: `offset` is twice the size of
      the message just read, not a running total. None is a panic (or a loop that never
      ends, on a message that claims no bytes). */
  function MessagesFrom(b: bytes, payloadSize: int, offset: int): (r: Option<seq<bytes>>)
    decreases |b|
  {
    if offset >= payloadSize then Some([])
    else
      match MessageSize(b)
      case None => None
      case Some(n) =>
        if n <= 0 || n > |b| then None
        else
          match MessagesFrom(b[n..], payloadSize, Wrap32(2 * n))
          case None => None
          case Some(rest) => Some([b[..n]] + rest)
  }

  /** MessageSet.Messages: the length of the payload is cut to 32 bits first. */
  function MessagesOf(ms: bytes): (r: Option<seq<bytes>>)
    requires |ms| >= HEADER_LEN
  {
    MessagesFrom(ms[HEADER_LEN..], Wrap32(|ms| - HEADER_LEN), 0)
  }

  function Prepend(got: seq<bytes>, rest: Option<seq<bytes>>): (r: Option<seq<bytes>>) {
    if rest.None? then None else Some(got + rest.value)
  }

  method Messages(ms: bytes) returns (msgs: Option<seq<bytes>>)
    requires |ms| >= HEADER_LEN
    ensures msgs == MessagesOf(ms)
  {
    hide MessageSize, Wrap32;
    var b := ms[HEADER_LEN..];
    var payloadSize, offset := Wrap32(|b|), 0;
    var got: seq<bytes> := [];
    ghost var all := MessagesFrom(b, payloadSize, 0);
    assert all.Some? ==> [] + all.value == all.value;
    while offset < payloadSize
      invariant all == Prepend(got, MessagesFrom(b, payloadSize, offset))
      decreases |b|
    {
      var size := MessageSize(b);
      if size == None || size.value <= 0 || size.value > |b| {
        return None;
      }
      offset := size.value;
      ghost var rest := MessagesFrom(b[offset..], payloadSize, Wrap32(2 * offset));
      if rest.Some? {
        assert got + ([b[..offset]] + rest.value) == got + [b[..offset]] + rest.value;
      }
      got := got + [b[..offset]];
      b := b[offset..];
      offset := Wrap32(2 * offset);
    }
    assert got + [] == got;
    return Some(got);
  }

  /** A message whose size the view gets right whatever follows it. */
  ghost predicate Sized(m: bytes) {
    |m| > 0 && forall tail: bytes :: MessageSize(m + tail) == Some(|m|)
  }

  /** A message that seems to have a negative size whatever follows it: reading it panics. */
  ghost predicate Unsized(m: bytes) {
    forall tail: bytes :: MessageSize(m + tail).Some? && MessageSize(m + tail).value < 0
  }

  /** How many of the messages the loop reads before it stops, if it stops: None is a panic, at a
      message without a size or past the last one. */
  ghost function Stop(msgs: seq<bytes>, payloadSize: int, offset: int): (n: Option<nat>)
    ensures n.Some? ==> n.value <= |msgs|
    ensures n.Some? ==> forall i :: 0 <= i < n.value ==> Sized(msgs[i])
  {
    if offset >= payloadSize then Some(0)
    else if msgs == [] || !Sized(msgs[0]) then None
    else
      match Stop(msgs[1..], payloadSize, Wrap32(2 * |msgs[0]|))
      case None => None
      case Some(n) => assert forall i :: 0 < i <= n ==> msgs[i] == msgs[1..][i - 1]; Some(n + 1)
  }

  /** What the loop reads of any list of messages. */
  lemma {:induction false} MessagesRead(msgs: seq<bytes>, payloadSize: int, offset: int)
    requires forall m :: m in msgs ==> Sized(m) || Unsized(m)
    ensures var n := Stop(msgs, payloadSize, offset);
            MessagesFrom(Concat(msgs), payloadSize, offset) == if n.None? then None else Some(msgs[..n.value])
  {
    hide MessageSize, Wrap32, Sized, Unsized;
    if offset < payloadSize {
      if msgs == [] {
        NoSize();
      } else {
        var rest := msgs[1..];
        ConcatFirst(msgs);
        if Sized(msgs[0]) {
          ReadOne(msgs[0], Concat(rest), payloadSize, offset);
          MessagesRead(rest, payloadSize, Wrap32(2 * |msgs[0]|));
          var n := Stop(rest, payloadSize, Wrap32(2 * |msgs[0]|));
          assert n.Some? ==> msgs[..n.value + 1] == [msgs[0]] + rest[..n.value];
        } else {
          UnsizedPanics(msgs[0], Concat(rest), payloadSize, offset);
        }
      }
    }
  }

  lemma UnsizedPanics(m: bytes, rest: bytes, payloadSize: int, offset: int)
    requires Unsized(m) && offset < payloadSize
    ensures MessagesFrom(m + rest, payloadSize, offset) == None
  {
    assert MessageSize(m + rest).Some? && MessageSize(m + rest).value < 0;
  }

  lemma ConcatFirst(ss: seq<bytes>)
    requires ss != []
    ensures Concat(ss) == ss[0] + Concat(ss[1..])
  {
    hide Concat;
    DropNext(ss, 0);
    assert ss[0..] == ss;
    ConcatCat([ss[0]], ss[1..]);
    ConcatOne(ss[0]);
  }

  /** The loop stops after the first message whose doubled size, in 32 bits, reaches the payload's
      size, provided that it gets there. */
  lemma {:induction false} StopWhere(msgs: seq<bytes>, payloadSize: int, offset: int, n: nat)
    requires offset < payloadSize
    ensures Stop(msgs, payloadSize, offset) == Some(n) <==>
            && 0 < n <= |msgs| && (forall i :: 0 <= i < n ==> Sized(msgs[i]))
            && (forall i :: 0 <= i < n - 1 ==> Wrap32(2 * |msgs[i]|) < payloadSize)
            && Wrap32(2 * |msgs[n - 1]|) >= payloadSize
  {
    hide Wrap32, Sized;
    if msgs != [] && n > 0 {
      var rest, next := msgs[1..], Wrap32(2 * |msgs[0]|);
      if next < payloadSize {
        StopWhere(rest, payloadSize, next, n - 1);
        assert forall i :: 0 <= i < |rest| ==> rest[i] == msgs[i + 1];
        assert forall i :: 1 <= i < |msgs| ==> msgs[i] == rest[i - 1];
      }
    }
  }

  /** Whether the loop over a payload stops at its end and not before: twice the size of the
      last message reaches the payload's size, and twice the size of no earlier one does, all
      in 32-bit arithmetic. */
  ghost predicate ReadWhole(msgs: seq<bytes>) {
    var p := Wrap32(|Concat(msgs)|);
    msgs == [] ||
    (&& 0 < p
     && (forall i :: 0 <= i < |msgs| - 1 ==> Wrap32(2 * |msgs[i]|) < p)
     && Wrap32(2 * |msgs[|msgs| - 1]|) >= p)
  }

  /** Because the loop does not accumulate its offset, the messages read back are the ones
      stored exactly under that condition. */
  lemma MessagesExact(msgs: seq<bytes>)
    requires forall m :: m in msgs ==> Sized(m)
    ensures Stop(msgs, Wrap32(|Concat(msgs)|), 0) == Some(|msgs|) <==> ReadWhole(msgs)
    ensures MessagesFrom(Concat(msgs), Wrap32(|Concat(msgs)|), 0) == Some(msgs) <==> ReadWhole(msgs)
  {
    hide Sized, Concat, Wrap32, Stop, MessagesFrom;
    var p := Wrap32(|Concat(msgs)|);
    MessagesRead(msgs, p, 0);
    NothingStored();
    if 0 < p {
      StopWhere(msgs, p, 0, |msgs|);
    } else {
      StopAtOnce(msgs, p);
    }
    assert msgs[..|msgs|] == msgs;
  }

  lemma StopAtOnce(msgs: seq<bytes>, payloadSize: int)
    requires payloadSize <= 0
    ensures Stop(msgs, payloadSize, 0) == Some(0)
  {}

  lemma NothingStored()
    ensures Wrap32(|Concat([])|) == 0
  {}

  lemma Doubled(n: nat)
    requires n < 0x8000_0000
    ensures Wrap32(n) == n
    ensures n < 0x4000_0000 ==> Wrap32(2 * n) == 2 * n
    ensures n >= 0x4000_0000 ==> Wrap32(2 * n) < 0
  {}

  /** Of payloads below a gigabyte that is the condition that the last message fills at least
      half of the payload and each earlier one less than half. */
  lemma ReadWholeBelow(msgs: seq<bytes>)
    requires 0 < |Concat(msgs)| < 0x4000_0000
    ensures var p := |Concat(msgs)|;
            msgs != [] &&
            (ReadWhole(msgs) <==>
             (forall i :: 0 <= i < |msgs| - 1 ==> 2 * |msgs[i]| < p) && 2 * |msgs[|msgs| - 1]| >= p)
  {
    assert msgs != [];
    hide Wrap32, Concat;
    Doubled(|Concat(msgs)|);
    forall i | 0 <= i < |msgs| ensures Wrap32(2 * |msgs[i]|) == 2 * |msgs[i]| {
      ConcatAt(msgs, i);
      Doubled(|msgs[i]|);
    }
  }

  /** One round of the loop over a message whose size the view gets right. */
  lemma ReadOne(a: bytes, rest: bytes, payloadSize: int, offset: int)
    requires Sized(a) && offset < payloadSize
    ensures var later := MessagesFrom(rest, payloadSize, Wrap32(2 * |a|));
            MessagesFrom(a + rest, payloadSize, offset) == if later.None? then None else Some([a] + later.value)
  {
    hide MessageSize, Wrap32;
    assert MessageSize(a + rest) == Some(|a|);
    assert (a + rest)[..|a|] == a && (a + rest)[|a|..] == rest;
  }

  /** A set of one message gives back that message exactly below a gigabyte. */
  lemma SingleMessage(m: bytes)
    requires Sized(m) && |m| < 0x8000_0000
    ensures MessagesFrom(m, Wrap32(|m|), 0) == if |m| < 0x4000_0000 then Some([m]) else None
  {
    hide MessageSize, Wrap32, Sized;
    SizedNotEmpty(m);
    Doubled(|m|);
    ReadOne(m, [], Wrap32(|m|), 0);
    assert m + [] == m;
    NoSize();
    var none: seq<bytes> := [];
    assert [m] + none == [m];
  }

  lemma SizedNotEmpty(m: bytes)
    requires Sized(m)
    ensures m != []
  {}

  lemma NoSize()
    ensures MessageSize([]) == None
  {}

  /** Of two equally long messages only the first is read. */
  lemma SecondUnread(a: bytes, b: bytes)
    requires Sized(a) && |a| == |b| < 0x4000_0000
    ensures MessagesFrom(a + b, Wrap32(|a + b|), 0) == Some([a])
  {
    hide MessageSize, Wrap32;
    Doubled(|a|);
    ReadOne(a, b, Wrap32(|a + b|), 0);
    var none: seq<bytes> := [];
    assert [a] + none == [a];
  }
}
