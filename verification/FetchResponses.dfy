/** The versioned, three-level codec of protocol/fetch_response.go. */
module FetchResponses {
  import opened Bytes
  import opened Wire
  import opened Encoders
  import opened Decoders

  datatype AbortedTransaction = AbortedTransaction(producerID: int64, firstOffset: int64)

  datatype PartitionResponse = PartitionResponse(
    partition: int32,
    errorCode: int16,
    highWatermark: int64,
    lastStableOffset: int64,
    abortedTransactions: seq<AbortedTransaction>,
    recordSet: Option<bytes>)

  datatype TopicResponse = TopicResponse(topic: bytes, partitions: seq<PartitionResponse>)

  /** Durations are in nanoseconds. */
  datatype FetchResponse = FetchResponse(apiVersion: int, throttleTime: int, responses: seq<TopicResponse>)

  // ---- Encode, as programs ended by `k` ---------------------------------------------------

  function TransactionsProg(ts: seq<AbortedTransaction>, k: Prog): (p: Prog) {
    if ts == [] then k
    else Put(Int64(ts[0].producerID), Put(Int64(ts[0].firstOffset), TransactionsProg(ts[1..], k)))
  }

  function PartitionProg(p: PartitionResponse, version: int, k: Prog): (r: Prog) {
    var records := Put(Blob(p.recordSet), k);
    Put(Int32(p.partition), Put(Int16(p.errorCode), Put(Int64(p.highWatermark),
      if version >= 4 then
        Put(Int64(p.lastStableOffset), Put(ArrayLength(|p.abortedTransactions|),
          TransactionsProg(p.abortedTransactions, records)))
      else records)))
  }

  function PartitionsProg(ps: seq<PartitionResponse>, version: int, k: Prog): (r: Prog) {
    if ps == [] then k else PartitionProg(ps[0], version, PartitionsProg(ps[1..], version, k))
  }

  function TopicProg(t: TopicResponse, version: int, k: Prog): (r: Prog) {
    Put(Str(t.topic), Put(ArrayLength(|t.partitions|), PartitionsProg(t.partitions, version, k)))
  }

  function TopicsProg(ts: seq<TopicResponse>, version: int, k: Prog): (r: Prog) {
    if ts == [] then k else TopicProg(ts[0], version, TopicsProg(ts[1..], version, k))
  }

  function FetchProg(r: FetchResponse, k: Prog): (p: Prog) {
    var topics := Put(ArrayLength(|r.responses|), TopicsProg(r.responses, r.apiVersion, k));
    if r.apiVersion >= 1 then Put(Int32(Millis(r.throttleTime)), topics) else topics
  }

  // ---- what a version carries ---------------------------------------------------------------

  function CarriedPartition(p: PartitionResponse, version: int): (r: PartitionResponse) {
    if version >= 4 then p else p.(lastStableOffset := 0, abortedTransactions := [])
  }

  function CarriedPartitions(ps: seq<PartitionResponse>, version: int): (r: seq<PartitionResponse>)
    ensures |r| == |ps|
  {
    seq(|ps|, i requires 0 <= i < |ps| => CarriedPartition(ps[i], version))
  }

  function CarriedTopic(t: TopicResponse, version: int): (r: TopicResponse) {
    t.(partitions := CarriedPartitions(t.partitions, version))
  }

  function CarriedTopics(ts: seq<TopicResponse>, version: int): (r: seq<TopicResponse>)
    ensures |r| == |ts|
  {
    seq(|ts|, i requires 0 <= i < |ts| => CarriedTopic(ts[i], version))
  }

  function Carried(r: FetchResponse): (c: FetchResponse) {
    FetchResponse(r.apiVersion,
                  if r.apiVersion >= 1 then Millis(r.throttleTime) * MILLISECOND else 0,
                  CarriedTopics(r.responses, r.apiVersion))
  }

  ghost predicate PlainPartitions(ps: seq<PartitionResponse>) {
    forall i :: 0 <= i < |ps| ==> ps[i].lastStableOffset == 0 && ps[i].abortedTransactions == []
  }

  ghost predicate PlainTopics(ts: seq<TopicResponse>) {
    forall i :: 0 <= i < |ts| ==> PlainPartitions(ts[i].partitions)
  }

  /** Nothing is lost exactly if the throttle time is in whole milliseconds that fit 32 bits, or is
      zero at version 0, and the fields that exist from version 4 on are empty before it. */
  lemma CarriedExact(r: FetchResponse)
    ensures Carried(r) == r <==>
            && (if r.apiVersion >= 1 then ExactMillis(r.throttleTime) else r.throttleTime == 0)
            && (r.apiVersion >= 4 || PlainTopics(r.responses))
  {
    MillisExact(r.throttleTime);
    TopicsExact(r.responses, r.apiVersion);
  }

  lemma CarriedFields(x: FetchResponse)
    ensures var got := Carried(x);
            && got.apiVersion == x.apiVersion && |got.responses| == |x.responses|
            && got.throttleTime == (if x.apiVersion >= 1 then Millis(x.throttleTime) * MILLISECOND else 0)
            && (forall i :: 0 <= i < |x.responses| ==>
                  && got.responses[i].topic == x.responses[i].topic
                  && |got.responses[i].partitions| == |x.responses[i].partitions|)
            && forall i, j :: 0 <= i < |x.responses| && 0 <= j < |x.responses[i].partitions| ==>
                 var p, q := x.responses[i].partitions[j], got.responses[i].partitions[j];
                 && q.partition == p.partition && q.errorCode == p.errorCode
                 && q.highWatermark == p.highWatermark && q.recordSet == p.recordSet
                 && if x.apiVersion >= 4
                    then q.lastStableOffset == p.lastStableOffset && q.abortedTransactions == p.abortedTransactions
                    else q.lastStableOffset == 0 && q.abortedTransactions == []
  {
    hide Millis;
  }

  lemma PartitionsExact(ps: seq<PartitionResponse>, version: int)
    ensures CarriedPartitions(ps, version) == ps <==> version >= 4 || PlainPartitions(ps)
  {
    var carried := CarriedPartitions(ps, version);
    assert forall i :: 0 <= i < |ps| ==> carried[i] == CarriedPartition(ps[i], version);
    if carried == ps && version < 4 {
      forall i | 0 <= i < |ps| ensures ps[i].lastStableOffset == 0 && ps[i].abortedTransactions == [] {
        assert carried[i] == ps[i];
      }
    }
  }

  lemma TopicsExact(ts: seq<TopicResponse>, version: int)
    ensures CarriedTopics(ts, version) == ts <==> version >= 4 || PlainTopics(ts)
  {
    hide CarriedPartitions, PlainPartitions;
    var carried := CarriedTopics(ts, version);
    assert forall i :: 0 <= i < |ts| ==> carried[i] == CarriedTopic(ts[i], version);
    forall i | 0 <= i < |ts| ensures carried[i] == ts[i] <==> version >= 4 || PlainPartitions(ts[i].partitions) {
      PartitionsExact(ts[i].partitions, version);
    }
  }

  // ---- limits -------------------------------------------------------------------------------
  // The encoder refuses strings of more than 32767 bytes, and arrays and record sets of more than
  // 2^31 - 1 elements; the decoder refuses arrays of more than 131070. Only what the version
  // carries is held against them.

  ghost predicate PartitionSendable(p: PartitionResponse, version: int) {
    (p.recordSet.Some? ==> |p.recordSet.value| <= MAX_INT32) && (version >= 4 ==> |p.abortedTransactions| <= MAX_INT32)
  }

  ghost predicate PartitionCounted(p: PartitionResponse, version: int) {
    version >= 4 ==> |p.abortedTransactions| <= MAX_ARRAY
  }

  ghost predicate AllSendable(ps: seq<PartitionResponse>, version: int) {
    forall i :: 0 <= i < |ps| ==> PartitionSendable(ps[i], version)
  }

  ghost predicate AllCounted(ps: seq<PartitionResponse>, version: int) {
    forall i :: 0 <= i < |ps| ==> PartitionCounted(ps[i], version)
  }

  ghost predicate TopicSendable(t: TopicResponse, version: int) {
    |t.topic| <= MAX_INT16 && |t.partitions| <= MAX_INT32 && AllSendable(t.partitions, version)
  }

  ghost predicate TopicCounted(t: TopicResponse, version: int) {
    |t.partitions| <= MAX_ARRAY && AllCounted(t.partitions, version)
  }

  ghost predicate TopicsSendable(ts: seq<TopicResponse>, version: int) {
    forall i :: 0 <= i < |ts| ==> TopicSendable(ts[i], version)
  }

  ghost predicate TopicsCounted(ts: seq<TopicResponse>, version: int) {
    forall i :: 0 <= i < |ts| ==> TopicCounted(ts[i], version)
  }

  ghost predicate Sendable(r: FetchResponse) {
    |r.responses| <= MAX_INT32 && TopicsSendable(r.responses, r.apiVersion)
  }

  ghost predicate Counted(r: FetchResponse) {
    |r.responses| <= MAX_ARRAY && TopicsCounted(r.responses, r.apiVersion)
  }

  // ---- Decode -------------------------------------------------------------------------------

  lemma {:induction false} TransactionsSize(crc: Checksum, ts: seq<AbortedTransaction>, k: Prog, t: bytes)
    ensures |Lay(crc, TransactionsProg(ts, k), t)| >= |ts|
  {
    if ts != [] {
      TransactionsSize(crc, ts[1..], k, t);
    }
  }

  /** The bytes still to come when `i` transactions have been read. */
  lemma TransactionsNext(crc: Checksum, ts: seq<AbortedTransaction>, i: nat, k: Prog, t: bytes)
    requires i <= |ts|
    ensures i == |ts| ==> Lay(crc, TransactionsProg(ts[i..], k), t) == Lay(crc, k, t) && ts[..i] == ts
    ensures i < |ts| ==> Lay(crc, TransactionsProg(ts[i..], k), t)
                         == PutInt(8, ts[i].producerID)
                            + (PutInt(8, ts[i].firstOffset) + Lay(crc, TransactionsProg(ts[i + 1..], k), t))
    ensures i < |ts| ==> ts[..i + 1] == ts[..i] + [AbortedTransaction(ts[i].producerID, ts[i].firstOffset)]
  {
    hide PutInt;
    if i < |ts| {
      var rest := TransactionsProg(ts[i + 1..], k);
      assert ts[i..][1..] == ts[i + 1..];
      assert Lay(crc, Put(Int64(ts[i].firstOffset), rest), t) == PutInt(8, ts[i].firstOffset) + Lay(crc, rest, t);
    }
  }

  method DecodeTransactions(d: ByteDecoder, n: nat, ghost ts: seq<AbortedTransaction>, ghost k: Prog, ghost t: bytes)
    returns (r: Result<seq<AbortedTransaction>>)
    requires d.Valid()
    modifies d`off
    ensures d.Valid() && d.off >= old(d.off)
    ensures old(d.Rest()) == Lay(d.crc, TransactionsProg(ts, k), t) && n == |ts| ==>
              r == Ok(ts) && d.Rest() == Lay(d.crc, k, t)
  {
    hide PutInt, GetInt, Lay, TransactionsProg, Un, Pow256, BlobRead, StringRead, NullableRead;
    Pows();
    ghost var good := d.Rest() == Lay(d.crc, TransactionsProg(ts, k), t) && n == |ts|;
    var got: seq<AbortedTransaction> := [];
    assert ts[0..] == ts && ts[..0] == [];
    for i := 0 to n
      invariant d.Valid() && d.off >= old(d.off)
      invariant good ==> d.Rest() == Lay(d.crc, TransactionsProg(ts[i..], k), t) && got == ts[..i]
    {
      ghost var x, rest := AbortedTransaction(0, 0), [];
      if good {
        x, rest := ts[i], Lay(d.crc, TransactionsProg(ts[i + 1..], k), t);
        TransactionsNext(d.crc, ts, i, k, t);
      }
      var producer :- d.Int(8, x.producerID, PutInt(8, x.firstOffset) + rest);
      var first :- d.Int(8, x.firstOffset, rest);
      got := got + [AbortedTransaction(producer, first)];
    }
    if good {
      TransactionsNext(d.crc, ts, n, k, t);
    }
    return Ok(got);
  }

  /** The bytes of a partition. */
  lemma PartitionLaid(crc: Checksum, p: PartitionResponse, version: int, k: Prog, t: bytes)
    ensures var records := Put(Blob(p.recordSet), k);
            && Lay(crc, records, t) == Bytes.Blob(p.recordSet) + Lay(crc, k, t)
            && Lay(crc, PartitionProg(p, version, k), t)
               == PutInt(4, p.partition) + (PutInt(2, p.errorCode) + (PutInt(8, p.highWatermark)
                    + if version >= 4 then
                        PutInt(8, p.lastStableOffset) + (PutInt(4, |p.abortedTransactions|)
                          + Lay(crc, TransactionsProg(p.abortedTransactions, records), t))
                      else Lay(crc, records, t)))
  {
    hide PutInt, TransactionsProg;
    var records := Put(Blob(p.recordSet), k);
    var counted := Put(ArrayLength(|p.abortedTransactions|), TransactionsProg(p.abortedTransactions, records));
    var rest := if version >= 4 then Put(Int64(p.lastStableOffset), counted) else records;
    assert Lay(crc, records, t) == Bytes.Blob(p.recordSet) + Lay(crc, k, t);
    assert Lay(crc, counted, t) == PutInt(4, |p.abortedTransactions|)
                                   + Lay(crc, TransactionsProg(p.abortedTransactions, records), t);
    assert Lay(crc, Put(Int64(p.highWatermark), rest), t) == PutInt(8, p.highWatermark) + Lay(crc, rest, t);
    assert Lay(crc, Put(Int16(p.errorCode), Put(Int64(p.highWatermark), rest)), t)
           == PutInt(2, p.errorCode) + (PutInt(8, p.highWatermark) + Lay(crc, rest, t));
  }

  /** The fields a partition has from version 4 on. */
  method DecodeIsolation(d: ByteDecoder, ghost p: PartitionResponse, ghost records: Prog, ghost t: bytes)
    returns (r: Result<(int64, seq<AbortedTransaction>)>)
    requires d.Valid()
    modifies d`off
    ensures d.Valid() && d.off >= old(d.off)
    ensures old(d.Rest()) == PutInt(8, p.lastStableOffset) + (PutInt(4, |p.abortedTransactions|)
                               + Lay(d.crc, TransactionsProg(p.abortedTransactions, records), t))
            && |p.abortedTransactions| <= MAX_INT32 ==>
              if |p.abortedTransactions| <= MAX_ARRAY
              then r == Ok((p.lastStableOffset, p.abortedTransactions)) && d.Rest() == Lay(d.crc, records, t)
              else r == Err(InvalidArrayLength)
  {
    hide PutInt, GetInt, Lay, TransactionsProg, Un, Pow256, BlobRead, StringRead, NullableRead;
    Pows();
    ghost var s4 := Lay(d.crc, TransactionsProg(p.abortedTransactions, records), t);
    TransactionsSize(d.crc, p.abortedTransactions, records, t);
    var stable :- d.Int(8, p.lastStableOffset, PutInt(4, |p.abortedTransactions|) + s4);
    var n :- d.ArrayLength(|p.abortedTransactions|, s4);
    var aborted :- DecodeTransactions(d, n, p.abortedTransactions, records, t);
    return Ok((stable, aborted));
  }

  method DecodePartition(d: ByteDecoder, version: int, ghost p: PartitionResponse, ghost k: Prog, ghost t: bytes)
    returns (r: Result<PartitionResponse>)
    requires d.Valid()
    modifies d`off
    ensures d.Valid() && d.off >= old(d.off)
    ensures old(d.Rest()) == Lay(d.crc, PartitionProg(p, version, k), t) && PartitionSendable(p, version) ==>
              if PartitionCounted(p, version)
              then r == Ok(CarriedPartition(p, version)) && d.Rest() == Lay(d.crc, k, t)
              else r == Err(InvalidArrayLength)
  {
    hide PutInt, GetInt, Lay, PartitionProg, TransactionsProg, Bytes.Blob, Un, Pow256, BlobRead, StringRead,
      NullableRead;
    Pows();
    PartitionLaid(d.crc, p, version, k, t);
    ghost var records := Put(Blob(p.recordSet), k);
    ghost var s4 := Lay(d.crc, TransactionsProg(p.abortedTransactions, records), t);
    ghost var s3 := PutInt(4, |p.abortedTransactions|) + s4;
    ghost var s2 := if version >= 4 then PutInt(8, p.lastStableOffset) + s3 else Lay(d.crc, records, t);
    ghost var s1 := PutInt(8, p.highWatermark) + s2;
    var partition :- d.Int(4, p.partition, PutInt(2, p.errorCode) + s1);
    var code :- d.Int16(p.errorCode, s1);
    var watermark :- d.Int(8, p.highWatermark, s2);
    var stable, aborted := 0, [];
    if version >= 4 {
      var isolation :- DecodeIsolation(d, p, records, t);
      stable, aborted := isolation.0, isolation.1;
    }
    var recordSet :- d.Blob(p.recordSet, Lay(d.crc, k, t));
    return Ok(PartitionResponse(partition, code, watermark, stable, aborted, recordSet));
  }

  lemma {:induction false} PartitionsSize(crc: Checksum, ps: seq<PartitionResponse>, version: int, k: Prog, t: bytes)
    ensures |Lay(crc, PartitionsProg(ps, version, k), t)| >= |ps|
  {
    if ps != [] {
      hide Lay, PartitionProg, PutInt, TransactionsProg;
      PartitionsSize(crc, ps[1..], version, k, t);
      PartitionLaid(crc, ps[0], version, PartitionsProg(ps[1..], version, k), t);
      var records := Put(Blob(ps[0].recordSet), PartitionsProg(ps[1..], version, k));
      TransactionsKeep(crc, ps[0].abortedTransactions, records, t);
    }
  }

  lemma {:induction false} TransactionsKeep(crc: Checksum, ts: seq<AbortedTransaction>, k: Prog, t: bytes)
    ensures |Lay(crc, TransactionsProg(ts, k), t)| >= |Lay(crc, k, t)|
  {
    if ts != [] {
      TransactionsKeep(crc, ts[1..], k, t);
    }
  }

  lemma PartitionsNext(crc: Checksum, ps: seq<PartitionResponse>, i: nat, version: int, k: Prog, t: bytes)
    requires i <= |ps|
    ensures i == |ps| ==> Lay(crc, PartitionsProg(ps[i..], version, k), t) == Lay(crc, k, t) && ps[..i] == ps
    ensures i < |ps| ==> Lay(crc, PartitionsProg(ps[i..], version, k), t)
                         == Lay(crc, PartitionProg(ps[i], version, PartitionsProg(ps[i + 1..], version, k)), t)
    ensures i < |ps| ==> CarriedPartitions(ps[..i + 1], version)
                         == CarriedPartitions(ps[..i], version) + [CarriedPartition(ps[i], version)]
  {
    hide Lay, PartitionProg, CarriedPartition;
    if i < |ps| {
      assert ps[i..][1..] == ps[i + 1..];
    }
  }

  method DecodePartitions(d: ByteDecoder, n: nat, version: int, ghost ps: seq<PartitionResponse>, ghost k: Prog,
                          ghost t: bytes)
    returns (r: Result<seq<PartitionResponse>>)
    requires d.Valid()
    modifies d`off
    ensures d.Valid() && d.off >= old(d.off)
    ensures old(d.Rest()) == Lay(d.crc, PartitionsProg(ps, version, k), t) && AllSendable(ps, version) && n == |ps| ==>
              if AllCounted(ps, version)
              then r == Ok(CarriedPartitions(ps, version)) && d.Rest() == Lay(d.crc, k, t)
              else r == Err(InvalidArrayLength)
  {
    hide Lay, PartitionsProg, PartitionProg, CarriedPartition, CarriedPartitions, PartitionSendable, PartitionCounted;
    ghost var good := d.Rest() == Lay(d.crc, PartitionsProg(ps, version, k), t) && AllSendable(ps, version)
        && n == |ps|;
    var got: seq<PartitionResponse> := [];
    PartitionsStart(ps, version);
    for i := 0 to n
      invariant d.Valid() && d.off >= old(d.off)
      invariant good ==> d.Rest() == Lay(d.crc, PartitionsProg(ps[i..], version, k), t)
      invariant good ==> got == CarriedPartitions(ps[..i], version)
      invariant good ==> forall j :: 0 <= j < i ==> PartitionCounted(ps[j], version)
    {
      ghost var x, rest := PartitionResponse(0, 0, 0, 0, [], None), Done;
      if good {
        x, rest := ps[i], PartitionsProg(ps[i + 1..], version, k);
        PartitionsNext(d.crc, ps, i, version, k, t);
      }
      var p :- DecodePartition(d, version, x, rest, t);
      got := got + [p];
    }
    if good {
      PartitionsNext(d.crc, ps, n, version, k, t);
    }
    return Ok(got);
  }

  lemma PartitionsStart(ps: seq<PartitionResponse>, version: int)
    ensures ps[0..] == ps && CarriedPartitions(ps[..0], version) == []
  {}

  lemma TopicLaid(crc: Checksum, x: TopicResponse, version: int, k: Prog, t: bytes)
    ensures Lay(crc, TopicProg(x, version, k), t)
            == StrBytes(x.topic) + (PutInt(4, |x.partitions|) + Lay(crc, PartitionsProg(x.partitions, version, k), t))
  {
    hide PutInt, PartitionsProg, StrBytes;
    var counted := Put(ArrayLength(|x.partitions|), PartitionsProg(x.partitions, version, k));
    assert Lay(crc, counted, t) == PutInt(4, |x.partitions|) + Lay(crc, PartitionsProg(x.partitions, version, k), t);
  }

  method DecodeTopic(d: ByteDecoder, version: int, ghost x: TopicResponse, ghost k: Prog, ghost t: bytes)
    returns (r: Result<TopicResponse>)
    requires d.Valid()
    modifies d`off
    ensures d.Valid() && d.off >= old(d.off)
    ensures old(d.Rest()) == Lay(d.crc, TopicProg(x, version, k), t) && TopicSendable(x, version) ==>
              if TopicCounted(x, version)
              then r == Ok(CarriedTopic(x, version)) && d.Rest() == Lay(d.crc, k, t)
              else r == Err(InvalidArrayLength)
  {
    hide PutInt, Lay, TopicProg, PartitionsProg, StrBytes, CarriedPartitions, AllSendable, AllCounted, Un, Pow256,
      BlobRead, StringRead, NullableRead;
    TopicLaid(d.crc, x, version, k, t);
    ghost var s := Lay(d.crc, PartitionsProg(x.partitions, version, k), t);
    PartitionsSize(d.crc, x.partitions, version, k, t);
    var topic :- d.String(x.topic, PutInt(4, |x.partitions|) + s);
    var n :- d.ArrayLength(|x.partitions|, s);
    var ps :- DecodePartitions(d, n, version, x.partitions, k, t);
    return Ok(TopicResponse(topic, ps));
  }

  lemma TopicsNext(crc: Checksum, ts: seq<TopicResponse>, i: nat, version: int, k: Prog, t: bytes)
    requires i <= |ts|
    ensures i == |ts| ==> Lay(crc, TopicsProg(ts[i..], version, k), t) == Lay(crc, k, t) && ts[..i] == ts
    ensures i < |ts| ==> Lay(crc, TopicsProg(ts[i..], version, k), t)
                         == Lay(crc, TopicProg(ts[i], version, TopicsProg(ts[i + 1..], version, k)), t)
    ensures i < |ts| ==>
              CarriedTopics(ts[..i + 1], version) == CarriedTopics(ts[..i], version) + [CarriedTopic(ts[i], version)]
  {
    hide Lay, TopicProg, CarriedTopic;
    if i < |ts| {
      assert ts[i..][1..] == ts[i + 1..];
    }
  }

  lemma {:induction false} TopicsSize(crc: Checksum, ts: seq<TopicResponse>, version: int, k: Prog, t: bytes)
    ensures |Lay(crc, TopicsProg(ts, version, k), t)| >= |ts|
  {
    if ts != [] {
      hide Lay, TopicProg, PutInt, PartitionsProg;
      var rest := TopicsProg(ts[1..], version, k);
      TopicsSize(crc, ts[1..], version, k, t);
      TopicLaid(crc, ts[0], version, rest, t);
      PartitionsKeep(crc, ts[0].partitions, version, rest, t);
    }
  }

  lemma {:induction false} PartitionsKeep(crc: Checksum, ps: seq<PartitionResponse>, version: int, k: Prog, t: bytes)
    ensures |Lay(crc, PartitionsProg(ps, version, k), t)| >= |Lay(crc, k, t)|
  {
    if ps != [] {
      hide Lay, PartitionProg, PutInt, TransactionsProg;
      PartitionsKeep(crc, ps[1..], version, k, t);
      var rest := PartitionsProg(ps[1..], version, k);
      PartitionLaid(crc, ps[0], version, rest, t);
      TransactionsKeep(crc, ps[0].abortedTransactions, Put(Blob(ps[0].recordSet), rest), t);
    }
  }

  method DecodeTopics(d: ByteDecoder, n: nat, version: int, ghost ts: seq<TopicResponse>, ghost k: Prog, ghost t: bytes)
    returns (r: Result<seq<TopicResponse>>)
    requires d.Valid()
    modifies d`off
    ensures d.Valid() && d.off >= old(d.off)
    ensures old(d.Rest()) == Lay(d.crc, TopicsProg(ts, version, k), t) && TopicsSendable(ts, version) && n == |ts| ==>
              if TopicsCounted(ts, version)
              then r == Ok(CarriedTopics(ts, version)) && d.Rest() == Lay(d.crc, k, t)
              else r == Err(InvalidArrayLength)
  {
    hide Lay, TopicsProg, TopicProg, CarriedTopic, CarriedTopics, TopicSendable, TopicCounted;
    ghost var good := d.Rest() == Lay(d.crc, TopicsProg(ts, version, k), t) && TopicsSendable(ts, version) && n == |ts|;
    var got: seq<TopicResponse> := [];
    TopicsStart(ts, version);
    for i := 0 to n
      invariant d.Valid() && d.off >= old(d.off)
      invariant good ==> d.Rest() == Lay(d.crc, TopicsProg(ts[i..], version, k), t)
      invariant good ==> got == CarriedTopics(ts[..i], version)
      invariant good ==> forall j :: 0 <= j < i ==> TopicCounted(ts[j], version)
    {
      ghost var x, rest := TopicResponse([], []), Done;
      if good {
        x, rest := ts[i], TopicsProg(ts[i + 1..], version, k);
        TopicsNext(d.crc, ts, i, version, k, t);
      }
      var p :- DecodeTopic(d, version, x, rest, t);
      got := got + [p];
    }
    if good {
      TopicsNext(d.crc, ts, n, version, k, t);
    }
    return Ok(got);
  }

  lemma TopicsStart(ts: seq<TopicResponse>, version: int)
    ensures ts[0..] == ts && CarriedTopics(ts[..0], version) == []
  {}

  lemma FetchLaid(crc: Checksum, x: FetchResponse, k: Prog, t: bytes)
    ensures var counted := PutInt(4, |x.responses|) + Lay(crc, TopicsProg(x.responses, x.apiVersion, k), t);
            Lay(crc, FetchProg(x, k), t)
                == if x.apiVersion >= 1 then PutInt(4, Millis(x.throttleTime)) + counted else counted
  {
    hide PutInt, TopicsProg, Millis;
    var counted := Put(ArrayLength(|x.responses|), TopicsProg(x.responses, x.apiVersion, k));
    assert Lay(crc, counted, t) == PutInt(4, |x.responses|) + Lay(crc, TopicsProg(x.responses, x.apiVersion, k), t);
  }

  /** FetchResponse.Decode gives back every field that the version carries, or refuses an array that
      is too long. */
  method Decode(d: ByteDecoder, version: int, ghost x: FetchResponse, ghost k: Prog, ghost t: bytes)
    returns (r: Result<FetchResponse>)
    requires d.Valid()
    modifies d`off
    ensures d.Valid() && d.off >= old(d.off)
    ensures old(d.Rest()) == Lay(d.crc, FetchProg(x, k), t) && Sendable(x) && version == x.apiVersion ==>
              if Counted(x) then r == Ok(Carried(x)) && d.Rest() == Lay(d.crc, k, t) else r == Err(InvalidArrayLength)
  {
    hide PutInt, GetInt, Lay, FetchProg, TopicsProg, CarriedTopics, Millis, TopicsSendable, TopicsCounted, Un,
      Pow256, BlobRead, StringRead, NullableRead;
    Pows();
    ghost var s := Lay(d.crc, TopicsProg(x.responses, x.apiVersion, k), t);
    ghost var counted := PutInt(4, |x.responses|) + s;
    FetchLaid(d.crc, x, k, t);
    TopicsSize(d.crc, x.responses, x.apiVersion, k, t);
    var throttle := 0;
    if version >= 1 {
      var ms :- d.Int(4, Millis(x.throttleTime), counted);
      throttle := ms * MILLISECOND;
    }
    var n :- d.ArrayLength(|x.responses|, s);
    var ts :- DecodeTopics(d, n, version, x.responses, k, t);
    return Ok(FetchResponse(version, throttle, ts));
  }

  // ---- encoding and decoding together -----------------------------------------------------

  lemma {:induction false} TransactionsAccepted(ts: seq<AbortedTransaction>, k: Prog)
    ensures AcceptsAll(TransactionsProg(ts, k)) <==> AcceptsAll(k)
  {
    if ts != [] {
      TransactionsAccepted(ts[1..], k);
    }
  }

  lemma PartitionAccepted(p: PartitionResponse, version: int, k: Prog)
    ensures AcceptsAll(PartitionProg(p, version, k)) <==> PartitionSendable(p, version) && AcceptsAll(k)
  {
    var records := Put(Blob(p.recordSet), k);
    TransactionsAccepted(p.abortedTransactions, records);
    hide TransactionsProg;
    var n := |p.abortedTransactions|;
    var counted := Put(ArrayLength(n), TransactionsProg(p.abortedTransactions, records));
    assert AcceptsAll(records) <==> Accepts(Blob(p.recordSet)) && AcceptsAll(k);
    assert AcceptsAll(counted) <==> n <= MAX_INT32 && AcceptsAll(records);
    var rest := if version >= 4 then Put(Int64(p.lastStableOffset), counted) else records;
    assert AcceptsAll(Put(Int64(p.highWatermark), rest)) <==> AcceptsAll(rest);
    assert AcceptsAll(Put(Int16(p.errorCode), Put(Int64(p.highWatermark), rest))) <==> AcceptsAll(rest);
  }

  lemma {:induction false} PartitionsAccepted(ps: seq<PartitionResponse>, version: int, k: Prog)
    ensures AcceptsAll(PartitionsProg(ps, version, k)) <==> AllSendable(ps, version) && AcceptsAll(k)
  {
    hide PartitionProg, PartitionSendable;
    if ps != [] {
      PartitionsAccepted(ps[1..], version, k);
      PartitionAccepted(ps[0], version, PartitionsProg(ps[1..], version, k));
      assert forall i :: 1 <= i < |ps| ==> ps[i] == ps[1..][i - 1];
    }
  }

  lemma {:induction false} TopicsAccepted(ts: seq<TopicResponse>, version: int, k: Prog)
    ensures AcceptsAll(TopicsProg(ts, version, k)) <==> TopicsSendable(ts, version) && AcceptsAll(k)
  {
    if ts != [] {
      TopicsAccepted(ts[1..], version, k);
      var rest := TopicsProg(ts[1..], version, k);
      PartitionsAccepted(ts[0].partitions, version, rest);
      hide AllSendable, PartitionsProg;
      var counted := Put(ArrayLength(|ts[0].partitions|), PartitionsProg(ts[0].partitions, version, rest));
      assert AcceptsAll(counted) <==>
               |ts[0].partitions| <= MAX_INT32 && AllSendable(ts[0].partitions, version) && AcceptsAll(rest);
      assert forall i :: 1 <= i < |ts| ==> ts[i] == ts[1..][i - 1];
    }
  }

  lemma FetchAccepted(r: FetchResponse)
    ensures AcceptsAll(FetchProg(r, Done)) <==> Sendable(r)
  {
    hide TopicsProg, Millis, TopicsSendable;
    TopicsAccepted(r.responses, r.apiVersion, Done);
    var counted := Put(ArrayLength(|r.responses|), TopicsProg(r.responses, r.apiVersion, Done));
    assert AcceptsAll(counted) <==> Sendable(r);
  }

  /** At every version, encoding a response and decoding the bytes gives back all that the version
      carries, and nothing in its other fields, exactly if the encoder accepts the response and the
      decoder its arrays. */
  method RoundTrip(crc: Checksum, x: FetchResponse) returns (r: Option<Result<FetchResponse>>)
    ensures r == if !Sendable(x) then None else Some(if Counted(x) then Ok(Carried(x)) else Err(InvalidArrayLength))
    ensures r.Some? && r.value.Ok? ==>
              var got := r.value.value;
              && got.apiVersion == x.apiVersion && |got.responses| == |x.responses|
              && got.throttleTime == (if x.apiVersion >= 1 then Millis(x.throttleTime) * MILLISECOND else 0)
              && (forall i :: 0 <= i < |x.responses| ==>
                    && got.responses[i].topic == x.responses[i].topic
                    && |got.responses[i].partitions| == |x.responses[i].partitions|)
              && forall i, j :: 0 <= i < |x.responses| && 0 <= j < |x.responses[i].partitions| ==>
                   var p, q := x.responses[i].partitions[j], got.responses[i].partitions[j];
                   && q.partition == p.partition && q.errorCode == p.errorCode
                   && q.highWatermark == p.highWatermark && q.recordSet == p.recordSet
                   && if x.apiVersion >= 4
                      then q.lastStableOffset == p.lastStableOffset && q.abortedTransactions == p.abortedTransactions
                      else q.lastStableOffset == 0 && q.abortedTransactions == []
  {
    CarriedFields(x);
    hide Sendable, Counted, FetchProg, Carried, AcceptsAll, Lay;
    FetchAccepted(x);
    var p := FetchProg(x, Done);
    var encoded := Encode(crc, p, p);
    if encoded == None {
      return None;
    }
    var d := new ByteDecoder(encoded.value, crc);
    var got := Decode(d, x.apiVersion, x, Done, []);
    return Some(got);
  }
}
