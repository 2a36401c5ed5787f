/** Where the two packages meet: the commit log's views (commitlog/message.go,
    commitlog/message_set.go) read the bytes that the wire encoder wrote
    (protocol/message.go, protocol/message_set.go). */
module MessageBridge {
  import opened Bytes
  import opened Wire
  import opened ProtocolMessages
  import View = MessageView
  import Compaction

  /** The part of an encoded message before its key. */
  function HeadBytes(crc: Checksum, m: Message): (s: bytes) {
    Field(crc, CRCField, Lay(crc, BodyProg(m), [])) + PutInt(1, m.magic) + PutInt(1, m.attributes) + TimeBytes(m)
  }

  lemma MagicByte(v: int8)
    ensures PutInt(1, v) == [if v >= 0 then v else v + 256]
  {
    Pows();
    ModFits(1, v);
    var u := v % Pow256(1);
    assert Be(1, u) == Be(0, u / 256) + [u % 256];
  }

  /** An encoded message has the shape the view expects, as far as its magic byte is not
      negative. */
  lemma EncodedShape(crc: Checksum, m: Message)
    requires m.magic >= 0
    ensures var head := HeadBytes(crc, m);
            && View.Head(head) && head[4] == m.magic
            && Lay(crc, MessageProg(m, Done), []) == View.Shape(head, m.key, m.value)
  {
    hide PutInt, Field, Bytes.Blob, UnixMillis, BodyProg, Lay;
    var f := Field(crc, CRCField, Lay(crc, BodyProg(m), []));
    var a, b, c := PutInt(1, m.magic), PutInt(1, m.attributes), TimeBytes(m);
    var head := HeadBytes(crc, m);
    MagicByte(m.magic);
    MessageLaid(crc, m, []);
    BodyBytes(crc, m, []);
    assert head[4] == m.magic;
    var key, value := Bytes.Blob(m.key), Bytes.Blob(m.value);
    assert value + [] == value;
    Flatten(f, a, b, c, key, value);
  }

  lemma Flatten(f: bytes, a: bytes, b: bytes, c: bytes, d: bytes, e: bytes)
    ensures f + (a + (b + (c + (d + e)))) == f + a + b + c + d + e
  {}

  /** The commit log sizes a stored message right, whatever follows it, exactly when its key
      is present or its value is null too; the key it reads is always the key sent. */
  lemma StoredMessageView(crc: Checksum, m: Message, tail: bytes)
    requires m.magic >= 0 && |Lay(crc, MessageProg(m, Done), [])| < 0x8000_0000
    ensures var b := Lay(crc, MessageProg(m, Done), []);
            && (View.MessageSize(b + tail) == Some(|b|) <==> m.key.Some? || m.value.None?)
            && View.KeyBytes(b + tail) == Some(if m.key.Some? then m.key.value else [])
  {
    hide Lay, HeadBytes, View.MessageSize, View.KeyBytes, View.Shape, View.Head;
    EncodedShape(crc, m);
    var head := HeadBytes(crc, m);
    ViewHead(head);
    View.ViewSize(head, m.key, m.value, tail);
    View.ViewKey(head, m.key, m.value, tail);
  }

  lemma ViewHead(head: bytes)
    requires View.Head(head)
    ensures |head| > 5
  {}

  /** With a negative magic byte the encoder writes no timestamp but the view skips one: of a message
      without a value it never reads the key that was sent. */
  lemma NegativeMagicMisread(crc: Checksum, m: Message)
    requires m.magic < 0 && m.value.None?
    ensures View.KeyBytes(Encoded(crc, m)) != Some(KeyOf(m))
  {
    hide Lay, Field, GetInt, Wrap32;
    var b := Encoded(crc, m);
    MessageLaid(crc, m, []);
    BodyBytes(crc, m, []);
    MagicByte(m.magic);
    assert b[4] == PutInt(1, m.magic)[0];
    assert |b| == 14 + |KeyOf(m)|;
    // a key read from position 18 on is at least four bytes too short
    assert View.KeyBytes(b).Some? ==> |View.KeyBytes(b).value| < |KeyOf(m)|;
  }

  /** So the commit log reads the key that was sent, whatever the value and whatever follows the
      message, exactly if the magic byte is not negative. */
  lemma KeyReadAlways(crc: Checksum, m: Message)
    requires |Encoded(crc, m.(value := None))| < 0x8000_0000
    ensures m.magic >= 0 <==>
            forall value: Option<bytes>, tail: bytes :: |Encoded(crc, m.(value := value))| < 0x8000_0000 ==>
              View.KeyBytes(Encoded(crc, m.(value := value)) + tail) == Some(KeyOf(m))
  {
    hide Encoded, View.KeyBytes;
    if m.magic >= 0 {
      forall value: Option<bytes>, tail: bytes | |Encoded(crc, m.(value := value))| < 0x8000_0000
        ensures View.KeyBytes(Encoded(crc, m.(value := value)) + tail) == Some(KeyOf(m))
      {
        EncodedKey(crc, m.(value := value), tail);
      }
    } else {
      var bare := m.(value := None);
      NegativeMagicMisread(crc, bare);
      assert Encoded(crc, bare) + [] == Encoded(crc, bare);
    }
  }

  lemma EncodedKey(crc: Checksum, m: Message, tail: bytes)
    requires m.magic >= 0 && |Encoded(crc, m)| < 0x8000_0000
    ensures View.KeyBytes(Encoded(crc, m) + tail) == Some(KeyOf(m))
  {
    hide Lay, View.KeyBytes, View.MessageSize;
    StoredMessageView(crc, m, tail);
  }

  lemma StoredMessageSized(crc: Checksum, m: Message)
    requires m.magic >= 0 && (m.key.Some? || m.value.None?)
    requires |Lay(crc, MessageProg(m, Done), [])| < 0x8000_0000
    ensures View.Sized(Lay(crc, MessageProg(m, Done), []))
  {
    hide Lay, View.MessageSize, MessageProg;
    var b := Lay(crc, MessageProg(m, Done), []);
    forall tail: bytes ensures View.MessageSize(b + tail) == Some(|b|) {
      StoredMessageView(crc, m, tail);
    }
    MessageNotEmpty(crc, m);
  }

  lemma MessageNotEmpty(crc: Checksum, m: Message)
    ensures |Lay(crc, MessageProg(m, Done), [])| > 0
  {
    hide Lay;
    MessageLaid(crc, m, []);
  }

  // ---- stored sets ----------------------------------------------------------------------------

  function Encoded(crc: Checksum, m: Message): (b: bytes) {
    Lay(crc, MessageProg(m, Done), [])
  }

  function EncodedAll(crc: Checksum, msgs: seq<Message>): (bs: seq<bytes>)
    ensures |bs| == |msgs| && forall i :: 0 <= i < |msgs| ==> bs[i] == Encoded(crc, msgs[i])
  {
    seq(|msgs|, i requires 0 <= i < |msgs| => Encoded(crc, msgs[i]))
  }

  /** A set as it was sent, and its bytes. */
  datatype Sent = Sent(offset: int64, msgs: seq<Message>)

  function Stored(crc: Checksum, s: Sent): (ms: bytes) {
    Lay(crc, SetProg(s.offset, s.msgs), [])
  }

  lemma {:induction false} PayloadIsConcat(crc: Checksum, msgs: seq<Message>)
    ensures Lay(crc, MessagesProg(msgs), []) == Concat(EncodedAll(crc, msgs))
  {
    if msgs != [] {
      hide Lay, MessageProg, Concat;
      var rest := msgs[1..];
      PayloadIsConcat(crc, rest);
      MessagesLaid(crc, msgs, []);
      LayTail(crc, MessageProg(msgs[0], Done), Lay(crc, MessagesProg(rest), []));
      var bs := EncodedAll(crc, msgs);
      assert bs == [bs[0]] + EncodedAll(crc, rest);
      ConcatCat([bs[0]], EncodedAll(crc, rest));
      ConcatOne(bs[0]);
    }
  }

  /** A stored set is a header with its offset, and its messages one after the other. */
  lemma StoredShape(crc: Checksum, s: Sent)
    ensures var ms := Stored(crc, s);
            && |ms| >= View.HEADER_LEN && View.Offset(ms) == s.offset
            && ms[View.HEADER_LEN..] == Concat(EncodedAll(crc, s.msgs))
            && |ms| - View.HEADER_LEN == |Concat(EncodedAll(crc, s.msgs))|
            && (|ms| < 0x8000_0000 ==> View.WellFormed(ms))
  {
    hide Lay, PutInt, GetInt, Un, SetProg, MessagesProg, EncodedAll;
    var payload := Lay(crc, MessagesProg(s.msgs), []);
    SetLaid(crc, s.offset, s.msgs);
    CutWhole(payload);
    PayloadIsConcat(crc, s.msgs);
    Header(s.offset, payload);
  }

  lemma CutWhole(s: bytes)
    ensures Cut(s, |s|) == s
  {}

  lemma Header(offset: int64, b: bytes)
    ensures var ms := PutInt(8, offset) + (PutInt(4, |b|) + b);
            && |ms| == View.HEADER_LEN + |b| && View.Offset(ms) == offset && ms[View.HEADER_LEN..] == b
            && (|ms| < 0x8000_0000 ==> View.WellFormed(ms))
  {
    hide PutInt;
    var ms := PutInt(8, offset) + (PutInt(4, |b|) + b);
    assert ms[0..8] == PutInt(8, offset) && ms[8..12] == PutInt(4, |b|);
    GetPutFixed();
    if |ms| < 0x8000_0000 {
      LengthField(|b|);
    }
  }

  lemma LengthField(n: nat)
    requires n < 0x1_0000_0000
    ensures Un(PutInt(4, n)) == n
  {
    hide Be, Un, Pow256;
    Pows();
    UnBe(4, n);
    ModOnce(n, Pow256(4));
  }

  /** The key as the cleaner hashes it: no key and the empty key alike. */
  function KeyOf(m: Message): (k: bytes) {
    if m.key.Some? then m.key.value else []
  }

  /** The messages whose bytes the view takes apart where they were put. */
  ghost predicate InView(crc: Checksum, m: Message) {
    m.magic >= 0 && |Encoded(crc, m)| < 0x8000_0000
  }

  /** The commit log sizes the message right. */
  ghost predicate Viewable(crc: Checksum, m: Message) {
    InView(crc, m) && (m.key.Some? || m.value.None?)
  }

  ghost predicate AllInView(crc: Checksum, s: Sent) {
    forall i :: 0 <= i < |s.msgs| ==> InView(crc, s.msgs[i])
  }

  /** How many messages of a stored set the commit log reads; None if reading the set panics. */
  ghost function StopOf(crc: Checksum, s: Sent): (n: Option<nat>)
    ensures n.Some? ==> n.value <= |s.msgs|
  {
    var bs := EncodedAll(crc, s.msgs);
    View.Stop(bs, Wrap32(|Concat(bs)|), 0)
  }

  /** The cleaner gets through a stored set exactly if the reading stops, and then takes exactly the
      keys that were sent before the stop. */
  lemma StopHashes(crc: Checksum, hash: bytes -> int, s: Sent)
    requires AllInView(crc, s)
    ensures Compaction.Parses(Stored(crc, s)) <==> StopOf(crc, s).Some?
    ensures StopOf(crc, s).Some? ==>
              var hs := Compaction.Hashing(hash)(Stored(crc, s));
              |hs| == StopOf(crc, s).value && forall i :: 0 <= i < |hs| ==> hs[i] == hash(KeyOf(s.msgs[i]))
  {
    hide Encoded, View.KeyBytes, View.MessagesFrom, View.Sized, View.Unsized, View.Stop, Stored, Concat,
      Compaction.Hashing, Compaction.Parses, InView, Wrap32;
    var bs, ms := EncodedAll(crc, s.msgs), Stored(crc, s);
    forall i | 0 <= i < |s.msgs|
      ensures View.Sized(bs[i]) || View.Unsized(bs[i])
      ensures View.KeyBytes(bs[i]) == Some(KeyOf(s.msgs[i]))
    {
      MessageInView(crc, s.msgs[i]);
    }
    StoredShape(crc, s);
    View.MessagesRead(bs, Wrap32(|Concat(bs)|), 0);
    Compaction.ParsesWhen(ms);
    if StopOf(crc, s).Some? {
      Compaction.HashingAt(hash, ms, bs[..StopOf(crc, s).value]);
    }
  }

  lemma MessageInView(crc: Checksum, m: Message)
    requires InView(crc, m)
    ensures if Viewable(crc, m) then View.Sized(Encoded(crc, m)) else View.Unsized(Encoded(crc, m))
    ensures View.KeyBytes(Encoded(crc, m)) == Some(KeyOf(m))
  {
    hide Encoded, View.Sized, View.Unsized, View.KeyBytes;
    EncodedKey(crc, m, []);
    assert Encoded(crc, m) + [] == Encoded(crc, m);
    if Viewable(crc, m) {
      ViewableMessage(crc, m);
    } else {
      UnsizedMessage(crc, m);
    }
  }

  lemma UnsizedMessage(crc: Checksum, m: Message)
    requires InView(crc, m) && m.key.None? && m.value.Some?
    ensures View.Unsized(Encoded(crc, m))
  {
    hide Lay, HeadBytes, View.MessageSize, View.Shape, View.Head;
    var head := HeadBytes(crc, m);
    EncodedShape(crc, m);
    ViewHead(head);
    forall tail: bytes
      ensures View.MessageSize(Encoded(crc, m) + tail).Some? && View.MessageSize(Encoded(crc, m) + tail).value < 0
    {
      View.ViewSize(head, m.key, m.value, tail);
    }
  }

  /** The commit log reads exactly the messages that were sent in the set. */
  ghost predicate ReadBack(crc: Checksum, s: Sent) {
    && (forall i :: 0 <= i < |s.msgs| ==> Viewable(crc, s.msgs[i]))
    && View.ReadWhole(EncodedAll(crc, s.msgs))
  }

  lemma ReadBackStops(crc: Checksum, s: Sent)
    requires ReadBack(crc, s)
    ensures AllInView(crc, s) && StopOf(crc, s) == Some(|s.msgs|)
  {
    hide Encoded, View.Sized, View.Stop, View.ReadWhole, View.MessagesFrom, Concat, Wrap32;
    var bs := EncodedAll(crc, s.msgs);
    forall i | 0 <= i < |s.msgs| ensures View.Sized(bs[i]) {
      ViewableMessage(crc, s.msgs[i]);
    }
    View.MessagesExact(bs);
  }

  lemma ViewableMessage(crc: Checksum, m: Message)
    requires Viewable(crc, m)
    ensures View.Sized(Encoded(crc, m)) && View.KeyBytes(Encoded(crc, m)) == Some(KeyOf(m))
  {
    hide Lay, View.Sized, View.KeyBytes, View.MessageSize, MessageProg;
    StoredMessageSized(crc, m);
    StoredMessageView(crc, m, []);
    assert Encoded(crc, m) + [] == Encoded(crc, m);
  }

  /** The cleaner gets through a set of one message exactly if its key is present or its value is
      null too, and it is below a gigabyte; otherwise reading the set panics. */
  lemma SingleMessageSet(crc: Checksum, offset: int64, m: Message)
    requires InView(crc, m)
    ensures Compaction.Parses(Stored(crc, Sent(offset, [m])))
            <==> (m.key.Some? || m.value.None?) && |Encoded(crc, m)| < 0x4000_0000
  {
    hide Encoded, View.KeyBytes, View.MessagesFrom, View.Sized, View.Unsized, Stored, Concat, Compaction.Parses, Wrap32;
    var s, b := Sent(offset, [m]), Encoded(crc, m);
    StoredShape(crc, s);
    assert EncodedAll(crc, s.msgs) == [b];
    ConcatOne(b);
    MessageInView(crc, m);
    Compaction.ParsesWhen(Stored(crc, s));
    View.Doubled(|b|);
    if Viewable(crc, m) {
      View.SingleMessage(b);
    } else {
      EncodedNotEmpty(crc, m);
      View.UnsizedPanics(b, [], |b|, 0);
      assert b + [] == b;
    }
  }

  lemma EncodedNotEmpty(crc: Checksum, m: Message)
    ensures |Encoded(crc, m)| > 0
  {
    hide Lay;
    MessageNotEmpty(crc, m);
  }

  /** Appending stamps a stored set with its new offset and changes nothing else. */
  lemma StampStored(crc: Checksum, s: Sent, offset: int64)
    ensures |Stored(crc, s)| >= View.HEADER_LEN
    ensures View.PutOffset(Stored(crc, s), offset) == Stored(crc, Sent(offset, s.msgs))
  {
    hide Lay, PutInt, SetProg, MessagesProg, Cut;
    SetLaid(crc, s.offset, s.msgs);
    SetLaid(crc, offset, s.msgs);
    var payload := Lay(crc, MessagesProg(s.msgs), []);
    var rest := PutInt(4, |payload|) + Cut(payload, |payload|);
    assert (PutInt(8, s.offset) + rest)[8..] == rest;
  }
}
