/** Messages and message sets on the wire (protocol/message.go, protocol/message_set.go):
    decoding undoes encoding, also when the bytes are cut short. */
module ProtocolMessages {
  import opened Bytes
  import opened Wire
  import opened Decoders
  import opened Encoders

  /** time.Time{}, in nanoseconds since 1970. */
  const ZERO_TIME := -62_135_596_800_000_000_000

  /** Timestamps are instants in nanoseconds since 1970. */
  datatype Message = Message(magic: int8, attributes: int8, timestamp: int, key: Option<bytes>, value: Option<bytes>)

  /** A timestamp as sent: UnixNano, which wraps at 64 bits, in whole milliseconds. */
  function UnixMillis(ns: int): (ms: int64) {
    WholeMillis(Wrap64(ns))
  }

  function BodyProg(m: Message): (p: Prog) {
    var payload := Put(Blob(m.key), Put(Blob(m.value), Done));
    Put(Int8(m.magic), Put(Int8(m.attributes),
      if m.magic > 0 then Put(Int64(UnixMillis(m.timestamp)), payload) else payload))
  }

  function MessageProg(m: Message, next: Prog): (p: Prog) {
    Framed(CRCField, BodyProg(m), next)
  }

  predicate Encodable(m: Message) {
    && (m.key.Some? ==> |m.key.value| <= MAX_INT32)
    && (m.value.Some? ==> |m.value.value| <= MAX_INT32)
  }

  lemma EncodableAccepted(m: Message, next: Prog)
    ensures AcceptsAll(MessageProg(m, next)) <==> Encodable(m) && AcceptsAll(next)
  {
    hide UnixMillis;
    var last := Put(Blob(m.value), Done);
    assert AcceptsAll(last) <==> Accepts(Blob(m.value));
    var payload := Put(Blob(m.key), last);
    var timed := if m.magic > 0 then Put(Int64(UnixMillis(m.timestamp)), payload) else payload;
    assert AcceptsAll(payload) <==> Encodable(m);
    assert AcceptsAll(timed) <==> Encodable(m);
    assert AcceptsAll(Put(Int8(m.attributes), timed)) <==> Encodable(m);
  }

  /** What a decoded message can still say: milliseconds, and only with a positive magic byte. */
  function Carried(m: Message): (r: Message) {
    m.(timestamp := if m.magic > 0 then UnixMillis(m.timestamp) * MILLISECOND else ZERO_TIME)
  }

  /** Nothing is lost exactly when the timestamp is a whole number of milliseconds whose
      nanoseconds fit 64 bits, or is not set and not sent. */
  lemma CarriedExact(m: Message)
    ensures Carried(m) == m <==>
            if m.magic > 0 then m.timestamp % MILLISECOND == 0 && Wrap64(m.timestamp) == m.timestamp
            else m.timestamp == ZERO_TIME
  {
    var sent := Wrap64(m.timestamp);
    WholeMillisExact(sent);
    WholeMillisRange(sent);
  }

  /** What is sent stands for an instant that 64 bits of nanoseconds can hold. */
  lemma WholeMillisRange(ns: int64)
    ensures Wrap64(WholeMillis(ns) * MILLISECOND) == WholeMillis(ns) * MILLISECOND
  {}

  /** A timestamp that is not set comes back as an instant in 1754 if it is sent. */
  lemma ZeroTimeLost(m: Message)
    requires m.magic > 0 && m.timestamp == ZERO_TIME
    ensures Carried(m).timestamp == -6_795_364_578_871_000_000
  {}

  // ---- cutting a byte string short ------------------------------------------------------

  function Cut(s: bytes, c: int): (r: bytes) {
    if c <= 0 then [] else if c < |s| then s[..c] else s
  }

  lemma CutFront(e: bytes, rest: bytes, c: int)
    ensures c >= |e| ==> Cut(e + rest, c) == e + Cut(rest, c - |e|)
    ensures 0 <= c < |e| ==> Cut(e + rest, c) == e[..c] && e[..c] < e
  {}

  // ---- decoding a message ---------------------------------------------------------------

  /** The bytes of a message between its checksum and the next one. */
  function PairBytes(m: Message, tail: bytes): (s: bytes) {
    Bytes.Blob(m.key) + (Bytes.Blob(m.value) + tail)
  }

  function PairSize(m: Message): (n: nat) {
    |Bytes.Blob(m.key)| + |Bytes.Blob(m.value)|
  }

  function TimeBytes(m: Message): (s: bytes) {
    if m.magic > 0 then PutInt(8, UnixMillis(m.timestamp)) else []
  }

  lemma BodyBytes(crc: Checksum, m: Message, tail: bytes)
    ensures Lay(crc, BodyProg(m), tail)
            == PutInt(1, m.magic) + (PutInt(1, m.attributes) + (TimeBytes(m) + PairBytes(m, tail)))
    ensures Size(BodyProg(m)) == 2 + |TimeBytes(m)| + PairSize(m)
  {
    hide PutInt, UnixMillis, Bytes.Blob;
    var last := Put(Blob(m.value), Done);
    var payload := Put(Blob(m.key), last);
    assert Lay(crc, last, tail) == Bytes.Blob(m.value) + tail && Size(last) == |Bytes.Blob(m.value)|;
    assert Lay(crc, payload, tail) == PairBytes(m, tail) && Size(payload) == PairSize(m);
    assert [] + PairBytes(m, tail) == PairBytes(m, tail);
    var timed := if m.magic > 0 then Put(Int64(UnixMillis(m.timestamp)), payload) else payload;
    assert Lay(crc, timed, tail) == TimeBytes(m) + PairBytes(m, tail) && Size(timed) == |TimeBytes(m)| + PairSize(m);
    assert Lay(crc, Put(Int8(m.attributes), timed), tail) == PutInt(1, m.attributes) + Lay(crc, timed, tail);
  }

  /** The bytes of a message, field by field. */
  lemma MessageLayout(crc: Checksum, m: Message)
    ensures var time := if m.magic > 0 then PutInt(8, WholeMillis(Wrap64(m.timestamp))) else [];
            var body := PutInt(1, m.magic) + (PutInt(1, m.attributes)
                          + (time + (Bytes.Blob(m.key) + Bytes.Blob(m.value))));
            Lay(crc, MessageProg(m, Done), []) == PutInt(4, crc(body)) + body
  {
    hide PutInt, Bytes.Blob, Lay, BodyProg, WholeMillis, Wrap64;
    BodyBytes(crc, m, []);
    MessageLaid(crc, m, []);
    assert Bytes.Blob(m.value) + [] == Bytes.Blob(m.value);
  }

  method DecodePair(d: ByteDecoder, ghost m: Message, ghost tail: bytes, ghost c: int)
    returns (r: Result<(Option<bytes>, Option<bytes>)>)
    requires d.Valid()
    modifies d`off
    ensures d.Valid() && d.off >= old(d.off)
    ensures old(d.Rest()) == Cut(PairBytes(m, tail), c) && c >= 0 && Encodable(m) ==>
              if c >= PairSize(m) then r == Ok((m.key, m.value)) && d.Rest() == Cut(tail, c - PairSize(m))
              else r == Err(InsufficientData)
  {
    hide PutInt, GetInt, Cut, Bytes.Blob, Un, Pow256, BlobRead, StringRead, NullableRead;
    ghost var n := |Bytes.Blob(m.key)|;
    ghost var rest := Bytes.Blob(m.value) + tail;
    CutFront(Bytes.Blob(m.key), rest, c);
    CutFront(Bytes.Blob(m.value), tail, c - n);
    var key :- d.Blob(m.key, Cut(rest, c - n));
    var value :- d.Blob(m.value, Cut(tail, c - PairSize(m)));
    return Ok((key, value));
  }

  /** The timestamp, which is there only with a positive magic byte. */
  method DecodeTime(d: ByteDecoder, magic: int, ghost m: Message, ghost rest: bytes, ghost c: int)
    returns (r: Result<int>)
    requires d.Valid()
    modifies d`off
    ensures d.Valid() && d.off >= old(d.off)
    ensures old(d.Rest()) == Cut(TimeBytes(m) + rest, c) && c >= 0 && magic == m.magic ==>
              if c >= |TimeBytes(m)| then r == Ok(Carried(m).timestamp) && d.Rest() == Cut(rest, c - |TimeBytes(m)|)
              else r == Err(InsufficientData)
  {
    hide PutInt, GetInt, UnixMillis, Cut, Fits, Un, Pow256;
    CutFront(TimeBytes(m), rest, c);
    if magic <= 0 {
      assert m.magic <= 0 ==> [] + Cut(rest, c) == Cut(rest, c);
      return Ok(ZERO_TIME);
    }
    FieldsFit(m);
    var ms :- d.Int(8, UnixMillis(m.timestamp), Cut(rest, c - 8));
    return Ok(ms * MILLISECOND);
  }

  /** Magic byte and attributes, which are read without a look at what is left. */
  method DecodeHead(d: ByteDecoder, ghost m: Message, ghost rest: bytes, ghost c: int) returns (r: Result<(int8, int8)>)
    requires d.Valid()
    modifies d`off
    ensures d.Valid() && d.off >= old(d.off)
    ensures old(d.Rest()) == Cut(PutInt(1, m.magic) + (PutInt(1, m.attributes) + rest), c) && c >= 0 ==>
              if c >= 2 then r == Ok((m.magic, m.attributes)) && d.Rest() == Cut(rest, c - 2) else r == Err(Panic)
  {
    hide PutInt, GetInt, Cut, Fits, Un, Pow256;
    ghost var s1 := PutInt(1, m.attributes) + rest;
    CutFront(PutInt(1, m.magic), s1, c);
    CutFront(PutInt(1, m.attributes), rest, c - 1);
    FieldsFit(m);
    var magic :- d.Int8(m.magic, Cut(s1, c - 1));
    var attributes :- d.Int8(m.attributes, Cut(rest, c - 2));
    Int8Range(magic);
    Int8Range(attributes);
    return Ok((magic, attributes));
  }

  /** The fields after the checksum: on a body followed by `tail`, cut to `c` bytes, the
      message comes back if it is whole; otherwise data runs out, or Int8 reads past the end. */
  method DecodeBody(d: ByteDecoder, ghost m: Message, ghost tail: bytes, ghost c: int) returns (r: Result<Message>)
    requires d.Valid()
    modifies d`off
    ensures d.Valid() && d.off >= old(d.off)
    ensures old(d.Rest()) == Cut(Lay(d.crc, BodyProg(m), tail), c) && c >= 0 && Encodable(m) ==>
              if c >= Size(BodyProg(m)) then r == Ok(Carried(m)) && d.Rest() == Cut(tail, c - Size(BodyProg(m)))
              else r == Err(if c < 2 then Panic else InsufficientData)
  {
    hide PutInt, UnixMillis, Cut, PairBytes, PairSize, TimeBytes, Lay, Size, BodyProg, Encodable;
    BodyBytes(d.crc, m, tail);
    var head :- DecodeHead(d, m, TimeBytes(m) + PairBytes(m, tail), c);
    var timestamp :- DecodeTime(d, head.0, m, PairBytes(m, tail), c - 2);
    var pair :- DecodePair(d, m, tail, c - 2 - |TimeBytes(m)|);
    return Ok(Message(head.0, head.1, timestamp, pair.0, pair.1));
  }

  lemma FieldsFit(m: Message)
    ensures Fits(1, m.magic) && Fits(1, m.attributes) && Fits(8, UnixMillis(m.timestamp))
  {
    Pows();
  }

  lemma Int8Range(v: int)
    requires Fits(1, v)
    ensures -0x80 <= v < 0x80
  {
    Pows();
  }

  /** A whole body, and what is left of `tail` in the first `c` bytes, behind any four bytes. */
  ghost predicate BodyBehind(crc: Checksum, s: bytes, m: Message, tail: bytes, c: int) {
    && |s| >= 4 && c >= 4 + Size(BodyProg(m)) && Encodable(m)
    && s[4..] == Cut(Lay(crc, BodyProg(m), tail), c - 4)
  }

  /** A whole message, whatever follows it, or the beginning of one: tails of four and five
      bytes make Int8 read past the end, every other proper prefix is insufficient data. A whole body
      is accepted exactly behind its own checksum, and nothing at all behind another checksum than
      that of the bytes taken. */
  method DecodeMessage(d: ByteDecoder, ghost m: Message, ghost tail: bytes, ghost c: int) returns (r: Result<Message>)
    requires d.Valid()
    modifies d
    ensures d.Valid()
    ensures old(d.Rest()) == Cut(Lay(d.crc, MessageProg(m, Done), tail), c) && c >= 0 && Encodable(m) ==>
              var n := 4 + Size(BodyProg(m));
              if c >= n then r == Ok(Carried(m)) && d.Rest() == Cut(tail, c - n) && d.stack == old(d.stack)
              else r == Err(if c == 4 || c == 5 then Panic else InsufficientData)
    ensures BodyBehind(d.crc, old(d.Rest()), m, tail, c) ==>
              r == if Un(old(d.Rest())[..4]) == d.crc(Lay(d.crc, BodyProg(m), [])) then Ok(Carried(m))
                   else Err(CRCMismatch)
    ensures r.Ok? ==> |d.Rest()| + 4 <= |old(d.Rest())|
    ensures r.Ok? ==> Un(old(d.Rest())[..4]) == d.crc(old(d.Rest())[4..|old(d.Rest())| - |d.Rest()|])
  {
    hide Lay, Size, BodyProg, Cut, Carried, Un, Encodable, MessageProg, BodyBehind;
    ghost var s, start := d.Rest(), d.off;
    MessageStarts(d.crc, s, m, tail, c);
    BodyStarts(d.crc, s, m, tail, c);
    var pushed := d.Push(CRCField);
    if pushed.Err? {
      return Err(pushed.error);
    }
    r := DecodeBody(d, m, tail, c - 4);
    if r.Err? {
      return;
    }
    Taken(d.b, start, d.off);
    var popped :- d.Pop();
  }

  lemma Taken(b: bytes, start: nat, off: nat)
    requires start + 4 <= off <= |b|
    ensures b[start..][..4] == b[start..start + 4]
    ensures b[start..][4..|b[start..]| - |b[off..]|] == b[start + 4..off]
  {}

  /** Where the body lies, and what follows it. */
  lemma BodyStarts(crc: Checksum, s: bytes, m: Message, tail: bytes, c: int)
    ensures BodyBehind(crc, s, m, tail, c) ==>
              var body, rest := Lay(crc, BodyProg(m), []), Cut(tail, c - 4 - Size(BodyProg(m)));
              && |s| >= 4 && c >= 4 + Size(BodyProg(m)) && Encodable(m)
              && s[4..] == Cut(Lay(crc, BodyProg(m), tail), c - 4)
              && |s| - |rest| == 4 + |body| && s[4..|s| - |rest|] == body
  {
    hide Lay, Size, BodyProg, Cut, Encodable;
    MessageLaid(crc, m, tail);
    CutFront(Lay(crc, BodyProg(m), []), tail, c - 4);
  }

  lemma MessageStarts(crc: Checksum, s: bytes, m: Message, tail: bytes, c: int)
    ensures s == Cut(Lay(crc, MessageProg(m, Done), tail), c) && c >= 0 ==>
              && (c < 4 ==> |s| < 4)
              && (c >= 4 ==> |s| >= 4 && s[4..] == Cut(Lay(crc, BodyProg(m), tail), c - 4))
              && (c >= 4 + Size(BodyProg(m)) && Encodable(m) ==>
                    BodyBehind(crc, s, m, tail, c) && Un(s[..4]) == crc(Lay(crc, BodyProg(m), [])))
  {
    hide Lay, Size, BodyProg, Cut, Encodable, Field, Un;
    var body := Lay(crc, BodyProg(m), []);
    MessageLaid(crc, m, tail);
    CutFront(Field(crc, CRCField, body), Lay(crc, BodyProg(m), tail), c);
    CutSize(Lay(crc, MessageProg(m, Done), tail), c);
    FieldChecks(crc, CRCField, body);
  }

  lemma CutSize(s: bytes, c: int)
    ensures |Cut(s, c)| == if c <= 0 then 0 else if c < |s| then c else |s|
  {}

  lemma MessageLaid(crc: Checksum, m: Message, tail: bytes)
    ensures Lay(crc, MessageProg(m, Done), tail)
            == Field(crc, CRCField, Lay(crc, BodyProg(m), [])) + Lay(crc, BodyProg(m), tail)
    ensures Lay(crc, BodyProg(m), tail) == Lay(crc, BodyProg(m), []) + tail
    ensures |Lay(crc, BodyProg(m), [])| == Size(BodyProg(m))
  {
    hide Field, BodyProg;
    LayTail(crc, BodyProg(m), tail);
  }

  // ---- message sets -----------------------------------------------------------------------

  datatype MessageSet = MessageSet(offset: int64, size: int32, messages: seq<Message>, partial: bool)

  function MessagesProg(msgs: seq<Message>): (p: Prog) {
    if msgs == [] then Done else MessageProg(msgs[0], MessagesProg(msgs[1..]))
  }

  function SetProg(offset: int64, msgs: seq<Message>): (p: Prog) {
    Put(Int64(offset), Framed(SizeField, MessagesProg(msgs), Done))
  }

  function MessageSize(m: Message): (n: nat) {
    4 + Size(BodyProg(m))
  }

  /** How many of the messages are whole in the first `c` bytes, and the bytes left over. */
  function Whole(msgs: seq<Message>, c: int): (n: nat)
    ensures n <= |msgs|
  {
    if msgs == [] || c < MessageSize(msgs[0]) then 0 else 1 + Whole(msgs[1..], c - MessageSize(msgs[0]))
  }

  function Leftover(msgs: seq<Message>, c: int): (r: int) {
    if msgs == [] || c < MessageSize(msgs[0]) then c else Leftover(msgs[1..], c - MessageSize(msgs[0]))
  }

  function CarriedAll(msgs: seq<Message>): (r: seq<Message>)
    ensures |r| == |msgs|
  {
    seq(|msgs|, i requires 0 <= i < |msgs| => Carried(msgs[i]))
  }

  lemma CarriedFields(msgs: seq<Message>)
    ensures forall i :: 0 <= i < |msgs| ==>
              var m, c := msgs[i], CarriedAll(msgs)[i];
              && c.magic == m.magic && c.attributes == m.attributes && c.key == m.key && c.value == m.value
              && (m.magic <= 0 ==> c.timestamp == ZERO_TIME)
              && (m.magic > 0 && 0 <= m.timestamp < 0x8000_0000_0000_0000 ==>
                    c.timestamp % MILLISECOND == 0 && 0 <= m.timestamp - c.timestamp < MILLISECOND)
  {}

  ghost predicate AllEncodable(msgs: seq<Message>) {
    forall i :: 0 <= i < |msgs| ==> Encodable(msgs[i])
  }

  lemma MessagesLaid(crc: Checksum, msgs: seq<Message>, tail: bytes)
    requires msgs != []
    ensures Lay(crc, MessagesProg(msgs), tail)
              == Lay(crc, MessageProg(msgs[0], Done), Lay(crc, MessagesProg(msgs[1..]), tail))
    ensures |Lay(crc, MessagesProg(msgs), tail)| == MessageSize(msgs[0]) + |Lay(crc, MessagesProg(msgs[1..]), tail)|
    ensures MessageSize(msgs[0]) >= 6
  {
    hide Field, TimeBytes, PairBytes, PairSize;
    MessageLaid(crc, msgs[0], Lay(crc, MessagesProg(msgs[1..]), tail));
    BodyBytes(crc, msgs[0], []);
    hide BodyProg;
  }

  /** The beginning of a message. */
  ghost predicate Part(crc: Checksum, s: bytes, m: Message) {
    s != [] && Encodable(m) && s < Lay(crc, MessageProg(m, Done), [])
  }

  /** A whole body behind four bytes that are not its checksum, and anything after it. */
  ghost predicate Spoilt(crc: Checksum, s: bytes, m: Message, tail: bytes) {
    && |s| >= 4 && Encodable(m) && s[4..] == Lay(crc, BodyProg(m), tail)
    && Un(s[..4]) != crc(Lay(crc, BodyProg(m), []))
  }

  /** The message loop of MessageSet.Decode, on whole messages and then `end`: the beginning of `m`,
      or a spoilt message with the body of `m`. */
  method DecodeMessages(d: ByteDecoder, ghost msgs: seq<Message>, ghost end: bytes, ghost m: Message, ghost tail: bytes)
    returns (got: seq<Message>, partial: bool, err: Option<Error>)
    requires d.Valid()
    modifies d
    ensures d.Valid()
    ensures old(d.Rest()) == Lay(d.crc, MessagesProg(msgs), end) && AllEncodable(msgs) ==>
              && (end == [] ==> got == CarriedAll(msgs) && !partial && err == None)
              && (Part(d.crc, end, m) ==>
                    if |end| == 4 || |end| == 5 then err == Some(Panic)
                    else got == CarriedAll(msgs) && partial && err == None)
              && (Spoilt(d.crc, end, m, tail) ==> err == Some(CRCMismatch))
  {
    hide Lay, MessagesProg, Cut, Carried, Size, BodyProg, Encodable, MessageProg, MessageSize, BodyBehind, Un, Part,
      Spoilt;
    got, partial, err := [], false, None;
    ghost var good := d.Rest() == Lay(d.crc, MessagesProg(msgs), end) && AllEncodable(msgs);
    ghost var known := end == [] || Part(d.crc, end, m) || Spoilt(d.crc, end, m, tail);
    ghost var i, on := 0, good;
    assert msgs[0..] == msgs && msgs[..0] == [];
    while d.Remaining() > 0
      invariant d.Valid()
      invariant on ==> i <= |msgs| && d.Rest() == Lay(d.crc, MessagesProg(msgs[i..]), end)
      invariant on ==> good && got == CarriedAll(msgs[..i])
      invariant good && known ==> on
      decreases d.Remaining()
    {
      ghost var x, rest, c := m, tail, |d.Rest()|;
      if on {
        NextMessage(d.crc, msgs, i, end, m, tail);
        if i < |msgs| {
          x, rest := msgs[i], Lay(d.crc, MessagesProg(msgs[i + 1..]), end);
        } else if !Spoilt(d.crc, end, m, tail) {
          rest := [];
        }
      }
      var r := DecodeMessage(d, x, rest, c);
      match r
      case Ok(msg) =>
        if on {
          if i < |msgs| {
            CarriedNext(msgs, i);
          }
          on, i := i < |msgs|, i + 1;
        }
        got := got + [msg];
      case Err(InsufficientData) =>
        partial := true;
        return;
      case Err(e) =>
        err := Some(e);
        return;
    }
    if on {
      NextMessage(d.crc, msgs, i, end, m, tail);
      assert i == |msgs| && msgs[..i] == msgs;
    }
  }

  /** What the loop meets after `i` messages. */
  lemma NextMessage(crc: Checksum, msgs: seq<Message>, i: nat, end: bytes, m: Message, tail: bytes)
    requires i <= |msgs|
    ensures i < |msgs| ==>
              var s, rest := Lay(crc, MessagesProg(msgs[i..]), end), Lay(crc, MessagesProg(msgs[i + 1..]), end);
              && s == Cut(Lay(crc, MessageProg(msgs[i], Done), rest), |s|)
              && |s| >= 4 + Size(BodyProg(msgs[i])) && Cut(rest, |s| - 4 - Size(BodyProg(msgs[i]))) == rest
    ensures i == |msgs| ==> Lay(crc, MessagesProg(msgs[i..]), end) == end
    ensures Part(crc, end, m) ==>
              && end != [] && end == Cut(Lay(crc, MessageProg(m, Done), []), |end|)
              && |end| < 4 + Size(BodyProg(m)) && Encodable(m) && !Spoilt(crc, end, m, tail)
    ensures Spoilt(crc, end, m, tail) ==>
              && |end| >= 4 && Un(end[..4]) != crc(Lay(crc, BodyProg(m), []))
              && BodyBehind(crc, end, m, tail, |end|)
  {
    assert i == |msgs| ==> Lay(crc, MessagesProg(msgs[i..]), end) == end;
    hide Lay, MessagesProg, Cut, Size, BodyProg, Encodable, MessageProg, Un;
    if i < |msgs| {
      assert msgs[i..][1..] == msgs[i + 1..];
      MessagesLaid(crc, msgs[i..], end);
      CutAll(Lay(crc, MessagesProg(msgs[i..]), end));
      CutAll(Lay(crc, MessagesProg(msgs[i + 1..]), end));
    }
    if Part(crc, end, m) {
      PartCut(crc, end, m);
      MessageStarts(crc, end, m, [], |end|);
      MessageLaid(crc, m, []);
    }
    if Spoilt(crc, end, m, tail) {
      MessageLaid(crc, m, tail);
      CutAll(Lay(crc, BodyProg(m), tail));
    }
  }

  lemma CutAll(s: bytes)
    ensures Cut(s, |s|) == s
  {}

  lemma PartCut(crc: Checksum, s: bytes, m: Message)
    requires Part(crc, s, m)
    ensures s == Cut(Lay(crc, MessageProg(m, Done), []), |s|) && |s| < |Lay(crc, MessageProg(m, Done), [])|
  {
    hide Lay;
  }

  lemma CarriedNext(msgs: seq<Message>, i: nat)
    requires i < |msgs|
    ensures CarriedAll(msgs[..i + 1]) == CarriedAll(msgs[..i]) + [Carried(msgs[i])]
  {
    hide Carried;
  }

  /** A payload cut to `c` bytes is its whole messages and the beginning of the next one. */
  lemma {:induction false} CutSplits(crc: Checksum, msgs: seq<Message>, c: nat) returns (end: bytes)
    requires c <= |Lay(crc, MessagesProg(msgs), [])|
    ensures Cut(Lay(crc, MessagesProg(msgs), []), c) == Lay(crc, MessagesProg(msgs[..Whole(msgs, c)]), end)
    ensures |end| == Leftover(msgs, c)
    ensures end != [] ==>
              Whole(msgs, c) < |msgs| && end < Lay(crc, MessageProg(msgs[Whole(msgs, c)], Done), [])
  {
    if msgs == [] {
      end := [];
    } else {
      var rest := msgs[1..];
      var later, n := Lay(crc, MessagesProg(rest), []), MessageSize(msgs[0]);
      MessagesLaid(crc, msgs, []);
      MessageLaidWhole(crc, msgs[0], later);
      hide Lay, Cut, MessageProg, MessageSize;
      CutFront(Lay(crc, MessageProg(msgs[0], Done), []), later, c);
      if c < n {
        end := Cut(Lay(crc, MessagesProg(msgs), []), c);
        NoMessages(crc, msgs, end);
      } else {
        end := CutSplits(crc, rest, c - n);
        var w := Whole(rest, c - n);
        assert msgs[..w + 1][1..] == rest[..w] && msgs[..w + 1][0] == msgs[0];
        MessagesLaid(crc, msgs[..w + 1], end);
        MessageLaidWhole(crc, msgs[0], Lay(crc, MessagesProg(rest[..w]), end));
      }
    }
  }

  lemma MessageLaidWhole(crc: Checksum, m: Message, tail: bytes)
    ensures Lay(crc, MessageProg(m, Done), tail) == Lay(crc, MessageProg(m, Done), []) + tail
    ensures |Lay(crc, MessageProg(m, Done), [])| == MessageSize(m)
  {
    LayTail(crc, MessageProg(m, Done), tail);
    hide Lay, BodyProg;
  }

  lemma NoMessages(crc: Checksum, msgs: seq<Message>, end: bytes)
    ensures Lay(crc, MessagesProg(msgs[..0]), end) == end
  {}

  /** What that says of the bytes: the whole messages are as many as fit, and the rest is left over. */
  lemma WholeExact(crc: Checksum, msgs: seq<Message>, c: nat)
    requires c <= |Lay(crc, MessagesProg(msgs), [])|
    ensures var n := Whole(msgs, c);
            && |Lay(crc, MessagesProg(msgs[..n]), [])| + Leftover(msgs, c) == c && Leftover(msgs, c) >= 0
            && (n < |msgs| ==> Leftover(msgs, c) < |Lay(crc, MessageProg(msgs[n], Done), [])|)
  {
    hide Lay, Cut, MessageProg, Whole, Leftover;
    var end := CutSplits(crc, msgs, c);
    LayTail(crc, MessagesProg(msgs[..Whole(msgs, c)]), end);
    CutSize(Lay(crc, MessagesProg(msgs), []), c);
    if Whole(msgs, c) < |msgs| {
      MessageLaidWhole(crc, msgs[Whole(msgs, c)], []);
    }
  }

  /** Decoding a cut set gives its offset and size and exactly the whole messages before the
      cut, flagging a partial one if bytes are left, unless four or five bytes are left. A message
      behind a wrong checksum makes the whole set fail. */
  method DecodeSet(d: ByteDecoder, ghost offset: int64, ghost size: int32, ghost msgs: seq<Message>, ghost c: int,
                   ghost bad: bytes, ghost m: Message, ghost tail: bytes)
    returns (r: Result<MessageSet>)
    requires d.Valid()
    modifies d
    ensures d.Valid()
    ensures old(d.Rest()) == PutInt(8, offset) + (PutInt(4, size) + Cut(Lay(d.crc, MessagesProg(msgs), []), c))
            && AllEncodable(msgs) && 0 <= c <= |Lay(d.crc, MessagesProg(msgs), [])| ==>
              r == if Leftover(msgs, c) == 4 || Leftover(msgs, c) == 5 then Err(Panic)
                   else Ok(MessageSet(offset, size, CarriedAll(msgs[..Whole(msgs, c)]), Leftover(msgs, c) > 0))
    ensures old(d.Rest()) == PutInt(8, offset) + (PutInt(4, size) + Lay(d.crc, MessagesProg(msgs), bad))
            && AllEncodable(msgs) && Spoilt(d.crc, bad, m, tail) ==>
              r == Err(CRCMismatch)
  {
    hide PutInt, GetInt, Lay, MessagesProg, Cut, CarriedAll, Un, Pow256, AllEncodable, Whole, Leftover, Part, Spoilt;
    Pows();
    ghost var all := Lay(d.crc, MessagesProg(msgs), []);
    ghost var payload, whole, end, last := Lay(d.crc, MessagesProg(msgs), bad), msgs, bad, m;
    if 0 <= c <= |all| && AllEncodable(msgs)
       && d.Rest() == PutInt(8, offset) + (PutInt(4, size) + Cut(all, c)) {
      payload := Cut(all, c);
      whole, end, last := CutParts(d.crc, msgs, c);
      NotSpoilt(d.crc, msgs, c, PutInt(8, offset), PutInt(4, size), bad, m, tail);
    }
    var o :- d.Int(8, offset, PutInt(4, size) + payload);
    var n :- d.Int(4, size, payload);
    var got, partial, err := DecodeMessages(d, whole, end, last, tail);
    if err.Some? {
      return Err(err.value);
    }
    return Ok(MessageSet(o, n, got, partial));
  }

  lemma CutParts(crc: Checksum, msgs: seq<Message>, c: nat) returns (whole: seq<Message>, end: bytes, last: Message)
    requires c <= |Lay(crc, MessagesProg(msgs), [])| && AllEncodable(msgs)
    ensures Cut(Lay(crc, MessagesProg(msgs), []), c) == Lay(crc, MessagesProg(whole), end) && AllEncodable(whole)
    ensures whole == msgs[..Whole(msgs, c)] && |end| == Leftover(msgs, c) && (end != [] ==> Part(crc, end, last))
  {
    hide Lay, Cut, MessageProg, Whole, Leftover, Encodable, MessagesProg;
    end := CutSplits(crc, msgs, c);
    var n := Whole(msgs, c);
    whole, last := msgs[..n], if n < |msgs| then msgs[n] else Message(0, 0, 0, None, None);
  }

  /** A cut payload and a spoilt one behind all its messages differ in length. */
  lemma NotSpoilt(crc: Checksum, msgs: seq<Message>, c: nat, a: bytes, b: bytes, bad: bytes, m: Message, tail: bytes)
    requires c <= |Lay(crc, MessagesProg(msgs), [])|
    ensures Spoilt(crc, bad, m, tail) ==>
              a + (b + Cut(Lay(crc, MessagesProg(msgs), []), c)) != a + (b + Lay(crc, MessagesProg(msgs), bad))
  {
    hide Lay, Cut, MessagesProg, Un;
    LayTail(crc, MessagesProg(msgs), bad);
    CutSize(Lay(crc, MessagesProg(msgs), []), c);
  }

  lemma {:induction false} WholeOfAll(crc: Checksum, msgs: seq<Message>)
    ensures var c := |Lay(crc, MessagesProg(msgs), [])|;
            Whole(msgs, c) == |msgs| && Leftover(msgs, c) == 0
  {
    hide MessageSize, MessageProg;
    if msgs != [] {
      hide Lay;
      MessagesLaid(crc, msgs, []);
      WholeOfAll(crc, msgs[1..]);
    }
  }

  /** The bytes of an encoded set are its offset, its size and its messages. */
  lemma SetLaid(crc: Checksum, offset: int64, msgs: seq<Message>)
    ensures var payload := Lay(crc, MessagesProg(msgs), []);
            Lay(crc, SetProg(offset, msgs), []) == PutInt(8, offset) + (PutInt(4, |payload|) + Cut(payload, |payload|))
  {
    hide PutInt, MessagesProg;
    var frame := Framed(SizeField, MessagesProg(msgs), Done);
    assert Lay(crc, frame, []) == PutInt(4, |Lay(crc, MessagesProg(msgs), [])|) + Lay(crc, MessagesProg(msgs), []);
  }

  lemma {:induction false} MessagesAccepted(msgs: seq<Message>)
    ensures AcceptsAll(MessagesProg(msgs)) <==> AllEncodable(msgs)
  {
    hide Encodable;
    if msgs != [] {
      EncodableAccepted(msgs[0], MessagesProg(msgs[1..]));
      MessagesAccepted(msgs[1..]);
      assert forall i :: 1 <= i < |msgs| ==> msgs[i] == msgs[1..][i - 1];
    }
  }

  lemma SetAccepted(offset: int64, msgs: seq<Message>)
    ensures AcceptsAll(SetProg(offset, msgs)) <==> AllEncodable(msgs)
  {
    hide MessagesProg;
    MessagesAccepted(msgs);
    var frame := Framed(SizeField, MessagesProg(msgs), Done);
    assert AcceptsAll(frame) <==> AcceptsAll(MessagesProg(msgs));
  }

  /** Encoding a set and decoding the bytes gives back the set, with its timestamps cut to whole
      milliseconds; a set with an oversized key or value is not encoded at all. */
  method RoundTrip(crc: Checksum, offset: int64, msgs: seq<Message>) returns (r: Option<Result<MessageSet>>)
    ensures r == if AllEncodable(msgs)
                 then Some(Ok(MessageSet(offset, Wrap32(Size(MessagesProg(msgs))), CarriedAll(msgs), false)))
                 else None
    ensures r.Some? && r.value.Ok? ==>
              var got := r.value.value;
              && got.offset == offset && |got.messages| == |msgs| && !got.partial
              && forall i :: 0 <= i < |msgs| ==>
                   var m, c := msgs[i], got.messages[i];
                   && c.magic == m.magic && c.attributes == m.attributes && c.key == m.key && c.value == m.value
                   && (m.magic <= 0 ==> c.timestamp == ZERO_TIME)
                   && (m.magic > 0 && 0 <= m.timestamp < 0x8000_0000_0000_0000 ==>
                         c.timestamp % MILLISECOND == 0 && 0 <= m.timestamp - c.timestamp < MILLISECOND)
  {
    CarriedFields(msgs);
    hide PutInt, Wrap32, Lay, Size, MessagesProg, SetProg, CarriedAll, Cut, AcceptsAll, AllEncodable;
    SetAccepted(offset, msgs);
    var p := SetProg(offset, msgs);
    LayTail(crc, MessagesProg(msgs), []);
    SetLaid(crc, offset, msgs);
    WholeOfAll(crc, msgs);
    assert msgs[..|msgs|] == msgs;
    var encoded := Encode(crc, p, p);
    if encoded == None {
      return None;
    }
    SameLowBytes(Size(MessagesProg(msgs)));
    var d := new ByteDecoder(encoded.value, crc);
    var got := DecodeSet(d, offset, Wrap32(Size(MessagesProg(msgs))), msgs, Size(MessagesProg(msgs)),
                         [], Message(0, 0, 0, None, None), []);
    return Some(got);
  }
}
