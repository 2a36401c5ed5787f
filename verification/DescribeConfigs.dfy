/** The versioned, four-level codec of protocol/describe_configs_response.go. */
module DescribeConfigs {
  import opened Bytes
  import opened Wire
  import opened Encoders
  import opened Decoders

  datatype Synonym = Synonym(name: bytes, value: Option<bytes>, source: int8)

  datatype Entry = Entry(
    name: bytes,
    value: Option<bytes>,
    readOnly: bool,
    isDefault: bool,
    isSensitive: bool,
    synonyms: seq<Synonym>)

  datatype Resource = Resource(
    errorCode: int16, errorMessage: Option<bytes>, kind: int8, name: bytes, entries: seq<Entry>)

  /** Durations are in nanoseconds. */
  datatype Response = Response(apiVersion: int, throttleTime: int, resources: seq<Resource>)

  // ---- Encode, as programs ended by `k` ---------------------------------------------------

  function SynonymsProg(ss: seq<Synonym>, k: Prog): (p: Prog) {
    if ss == [] then k
    else Put(Str(ss[0].name), Put(NullableStr(ss[0].value), Put(Int8(ss[0].source), SynonymsProg(ss[1..], k))))
  }

  function FlagsProg(e: Entry, k: Prog): (p: Prog) {
    Put(Bool(e.readOnly), Put(Bool(e.isDefault), Put(Bool(e.isSensitive), k)))
  }

  function SynonymsPart(e: Entry, version: int, k: Prog): (p: Prog) {
    if version >= 1 then Put(ArrayLength(|e.synonyms|), SynonymsProg(e.synonyms, k)) else k
  }

  function EntryProg(e: Entry, version: int, k: Prog): (p: Prog) {
    Put(Str(e.name), Put(NullableStr(e.value), FlagsProg(e, SynonymsPart(e, version, k))))
  }

  function EntriesProg(es: seq<Entry>, version: int, k: Prog): (p: Prog) {
    if es == [] then k else EntryProg(es[0], version, EntriesProg(es[1..], version, k))
  }

  function ResourceProg(r: Resource, version: int, k: Prog): (p: Prog) {
    var entries := Put(ArrayLength(|r.entries|), EntriesProg(r.entries, version, k));
    Put(Int16(r.errorCode), Put(NullableStr(r.errorMessage), Put(Int8(r.kind), Put(Str(r.name), entries))))
  }

  function ResourcesProg(rs: seq<Resource>, version: int, k: Prog): (p: Prog) {
    if rs == [] then k else ResourceProg(rs[0], version, ResourcesProg(rs[1..], version, k))
  }

  function ResponseProg(r: Response, k: Prog): (p: Prog) {
    Put(Int32(Millis(r.throttleTime)), Put(ArrayLength(|r.resources|), ResourcesProg(r.resources, r.apiVersion, k)))
  }

  // ---- what a version carries, and the limits -----------------------------------------------

  function CarriedEntry(e: Entry, version: int): (r: Entry) {
    if version >= 1 then e else e.(synonyms := [])
  }

  function CarriedEntries(es: seq<Entry>, version: int): (r: seq<Entry>)
    ensures |r| == |es|
  {
    seq(|es|, i requires 0 <= i < |es| => CarriedEntry(es[i], version))
  }

  function CarriedResource(r: Resource, version: int): (c: Resource) {
    r.(entries := CarriedEntries(r.entries, version))
  }

  function CarriedResources(rs: seq<Resource>, version: int): (r: seq<Resource>)
    ensures |r| == |rs|
  {
    seq(|rs|, i requires 0 <= i < |rs| => CarriedResource(rs[i], version))
  }

  function Carried(r: Response): (c: Response) {
    Response(r.apiVersion, Millis(r.throttleTime) * MILLISECOND, CarriedResources(r.resources, r.apiVersion))
  }

  ghost predicate PlainEntries(es: seq<Entry>) {
    forall i :: 0 <= i < |es| ==> es[i].synonyms == []
  }

  ghost predicate PlainResources(rs: seq<Resource>) {
    forall i :: 0 <= i < |rs| ==> PlainEntries(rs[i].entries)
  }

  /** Nothing is lost exactly if the throttle time is in whole milliseconds that fit 32 bits, and at
      version 0 no entry has synonyms. */
  lemma CarriedExact(r: Response)
    ensures Carried(r) == r <==> ExactMillis(r.throttleTime) && (r.apiVersion >= 1 || PlainResources(r.resources))
  {
    MillisExact(r.throttleTime);
    ResourcesExact(r.resources, r.apiVersion);
  }

  lemma CarriedFields(x: Response)
    ensures var got := Carried(x);
            && got.apiVersion == x.apiVersion && |got.resources| == |x.resources|
            && got.throttleTime == Millis(x.throttleTime) * MILLISECOND
            && (forall i :: 0 <= i < |x.resources| ==>
                  var a, b := x.resources[i], got.resources[i];
                  && b.errorCode == a.errorCode && b.errorMessage == a.errorMessage && b.kind == a.kind
                  && b.name == a.name && |b.entries| == |a.entries|)
            && forall i, j :: 0 <= i < |x.resources| && 0 <= j < |x.resources[i].entries| ==>
                 var e, f := x.resources[i].entries[j], got.resources[i].entries[j];
                 && f.name == e.name && f.value == e.value && f.readOnly == e.readOnly
                 && f.isDefault == e.isDefault && f.isSensitive == e.isSensitive
                 && f.synonyms == if x.apiVersion >= 1 then e.synonyms else []
  {
    hide Millis;
  }

  lemma EntriesExact(es: seq<Entry>, version: int)
    ensures CarriedEntries(es, version) == es <==> version >= 1 || PlainEntries(es)
  {
    var carried := CarriedEntries(es, version);
    assert forall i :: 0 <= i < |es| ==> carried[i] == CarriedEntry(es[i], version);
    if carried == es && version < 1 {
      forall i | 0 <= i < |es| ensures es[i].synonyms == [] {
        assert carried[i] == es[i];
      }
    }
  }

  lemma ResourcesExact(rs: seq<Resource>, version: int)
    ensures CarriedResources(rs, version) == rs <==> version >= 1 || PlainResources(rs)
  {
    hide CarriedEntries, PlainEntries;
    var carried := CarriedResources(rs, version);
    assert forall i :: 0 <= i < |rs| ==> carried[i] == CarriedResource(rs[i], version);
    forall i | 0 <= i < |rs| ensures carried[i] == rs[i] <==> version >= 1 || PlainEntries(rs[i].entries) {
      EntriesExact(rs[i].entries, version);
    }
  }

  predicate Short(o: Option<bytes>) {
    o.Some? ==> |o.value| <= MAX_INT16
  }

  // The encoder refuses strings of more than 32767 bytes and arrays of more than 2^31 - 1 elements;
  // the decoder refuses arrays of more than 131070. Only what the version carries is held against
  // them.

  ghost predicate SynonymsSendable(ss: seq<Synonym>) {
    forall i :: 0 <= i < |ss| ==> |ss[i].name| <= MAX_INT16 && Short(ss[i].value)
  }

  ghost predicate EntrySendable(e: Entry, version: int) {
    && |e.name| <= MAX_INT16 && Short(e.value)
    && (version >= 1 ==> |e.synonyms| <= MAX_INT32 && SynonymsSendable(e.synonyms))
  }

  ghost predicate EntryCounted(e: Entry, version: int) {
    version >= 1 ==> |e.synonyms| <= MAX_ARRAY
  }

  ghost predicate EntriesSendable(es: seq<Entry>, version: int) {
    forall i :: 0 <= i < |es| ==> EntrySendable(es[i], version)
  }

  ghost predicate EntriesCounted(es: seq<Entry>, version: int) {
    forall i :: 0 <= i < |es| ==> EntryCounted(es[i], version)
  }

  ghost predicate ResourceSendable(r: Resource, version: int) {
    |r.name| <= MAX_INT16 && Short(r.errorMessage) && |r.entries| <= MAX_INT32 && EntriesSendable(r.entries, version)
  }

  ghost predicate ResourceCounted(r: Resource, version: int) {
    |r.entries| <= MAX_ARRAY && EntriesCounted(r.entries, version)
  }

  ghost predicate ResourcesSendable(rs: seq<Resource>, version: int) {
    forall i :: 0 <= i < |rs| ==> ResourceSendable(rs[i], version)
  }

  ghost predicate ResourcesCounted(rs: seq<Resource>, version: int) {
    forall i :: 0 <= i < |rs| ==> ResourceCounted(rs[i], version)
  }

  ghost predicate Sendable(x: Response) {
    |x.resources| <= MAX_INT32 && ResourcesSendable(x.resources, x.apiVersion)
  }

  ghost predicate Counted(x: Response) {
    |x.resources| <= MAX_ARRAY && ResourcesCounted(x.resources, x.apiVersion)
  }

  // ---- synonyms -----------------------------------------------------------------------------

  lemma SynonymsNext(crc: Checksum, ss: seq<Synonym>, i: nat, k: Prog, t: bytes)
    requires i <= |ss|
    ensures i == |ss| ==> Lay(crc, SynonymsProg(ss[i..], k), t) == Lay(crc, k, t) && ss[..i] == ss
    ensures i < |ss| ==> Lay(crc, SynonymsProg(ss[i..], k), t)
                         == StrBytes(ss[i].name) + (Emit(NullableStr(ss[i].value))
                              + (PutInt(1, ss[i].source) + Lay(crc, SynonymsProg(ss[i + 1..], k), t)))
    ensures i < |ss| ==> ss[..i + 1] == ss[..i] + [Synonym(ss[i].name, ss[i].value, ss[i].source)]
  {
    hide PutInt, StrBytes;
    if i < |ss| {
      var rest := SynonymsProg(ss[i + 1..], k);
      assert ss[i..][1..] == ss[i + 1..];
      assert Lay(crc, Put(Int8(ss[i].source), rest), t) == PutInt(1, ss[i].source) + Lay(crc, rest, t);
      assert Lay(crc, Put(NullableStr(ss[i].value), Put(Int8(ss[i].source), rest)), t)
             == Emit(NullableStr(ss[i].value)) + (PutInt(1, ss[i].source) + Lay(crc, rest, t));
    }
  }

  lemma {:induction false} SynonymsLong(crc: Checksum, ss: seq<Synonym>, k: Prog, t: bytes)
    ensures |Lay(crc, SynonymsProg(ss, k), t)| >= |ss| + |Lay(crc, k, t)|
  {
    if ss != [] {
      SynonymsLong(crc, ss[1..], k, t);
      assert ss[0..] == ss;
      hide Lay, SynonymsProg;
      SynonymsNext(crc, ss, 0, k, t);
    }
  }

  method DecodeSynonyms(d: ByteDecoder, n: nat, ghost ss: seq<Synonym>, ghost k: Prog, ghost t: bytes)
    returns (r: Result<seq<Synonym>>)
    requires d.Valid()
    modifies d`off
    ensures d.Valid() && d.off >= old(d.off)
    ensures old(d.Rest()) == Lay(d.crc, SynonymsProg(ss, k), t) && n == |ss| && SynonymsSendable(ss) ==>
              r == Ok(ss) && d.Rest() == Lay(d.crc, k, t)
  {
    hide PutInt, GetInt, Lay, SynonymsProg, StrBytes, Emit, Un, Pow256, BlobRead, StringRead, NullableRead;
    Pows();
    ghost var good := d.Rest() == Lay(d.crc, SynonymsProg(ss, k), t) && n == |ss| && SynonymsSendable(ss);
    var got: seq<Synonym> := [];
    assert ss[0..] == ss && ss[..0] == [];
    for i := 0 to n
      invariant d.Valid() && d.off >= old(d.off)
      invariant good ==> d.Rest() == Lay(d.crc, SynonymsProg(ss[i..], k), t) && got == ss[..i]
    {
      ghost var x, rest := Synonym([], None, 0), [];
      if good {
        x, rest := ss[i], Lay(d.crc, SynonymsProg(ss[i + 1..], k), t);
        SynonymsNext(d.crc, ss, i, k, t);
      }
      var name :- d.String(x.name, Emit(NullableStr(x.value)) + (PutInt(1, x.source) + rest));
      var value :- d.NullableString(x.value, PutInt(1, x.source) + rest);
      var source :- d.Int8(x.source, rest);
      got := got + [Synonym(name, value, source)];
    }
    if good {
      SynonymsNext(d.crc, ss, n, k, t);
    }
    return Ok(got);
  }

  // ---- entries ------------------------------------------------------------------------------

  lemma EntryLaid(crc: Checksum, e: Entry, version: int, k: Prog, t: bytes)
    ensures Lay(crc, EntryProg(e, version, k), t)
            == StrBytes(e.name) + (Emit(NullableStr(e.value)) + (Emit(Bool(e.readOnly)) + (Emit(Bool(e.isDefault))
                 + (Emit(Bool(e.isSensitive)) + Lay(crc, SynonymsPart(e, version, k), t)))))
    ensures version >= 1 ==> Lay(crc, SynonymsPart(e, version, k), t)
                             == PutInt(4, |e.synonyms|) + Lay(crc, SynonymsProg(e.synonyms, k), t)
    ensures |Lay(crc, EntryProg(e, version, k), t)| > |Lay(crc, k, t)|
  {
    hide PutInt, StrBytes, SynonymsProg;
    var p := SynonymsPart(e, version, k);
    var p3 := Put(Bool(e.isSensitive), p);
    var p2 := Put(Bool(e.isDefault), p3);
    assert Lay(crc, p3, t) == Emit(Bool(e.isSensitive)) + Lay(crc, p, t);
    assert Lay(crc, p2, t) == Emit(Bool(e.isDefault)) + Lay(crc, p3, t);
    assert Lay(crc, FlagsProg(e, p), t) == Emit(Bool(e.readOnly)) + Lay(crc, p2, t);
    assert Lay(crc, Put(NullableStr(e.value), FlagsProg(e, p)), t)
           == Emit(NullableStr(e.value)) + Lay(crc, FlagsProg(e, p), t);
    SynonymsLong(crc, e.synonyms, k, t);
  }

  method DecodeFlags(d: ByteDecoder, ghost e: Entry, ghost rest: bytes) returns (r: Result<(bool, bool, bool)>)
    requires d.Valid()
    modifies d`off
    ensures d.Valid() && d.off >= old(d.off)
    ensures old(d.Rest()) == Emit(Bool(e.readOnly)) + (Emit(Bool(e.isDefault)) + (Emit(Bool(e.isSensitive)) + rest)) ==>
              r == Ok((e.readOnly, e.isDefault, e.isSensitive)) && d.Rest() == rest
  {
    hide Emit;
    var readOnly :- d.Bool(e.readOnly, Emit(Bool(e.isDefault)) + (Emit(Bool(e.isSensitive)) + rest));
    var isDefault :- d.Bool(e.isDefault, Emit(Bool(e.isSensitive)) + rest);
    var isSensitive :- d.Bool(e.isSensitive, rest);
    return Ok((readOnly, isDefault, isSensitive));
  }

  method DecodeEntry(d: ByteDecoder, version: int, ghost e: Entry, ghost k: Prog, ghost t: bytes)
    returns (r: Result<Entry>)
    requires d.Valid()
    modifies d`off
    ensures d.Valid() && d.off >= old(d.off)
    ensures old(d.Rest()) == Lay(d.crc, EntryProg(e, version, k), t) && EntrySendable(e, version) ==>
              if EntryCounted(e, version)
              then r == Ok(CarriedEntry(e, version)) && d.Rest() == Lay(d.crc, k, t)
              else r == Err(InvalidArrayLength)
  {
    hide PutInt, Lay, EntryProg, SynonymsProg, StrBytes, Emit, SynonymsSendable, Un, Pow256, BlobRead, StringRead,
      NullableRead;
    EntryLaid(d.crc, e, version, k, t);
    SynonymsLong(d.crc, e.synonyms, k, t);
    ghost var s := Lay(d.crc, SynonymsPart(e, version, k), t);
    ghost var flagged := Emit(Bool(e.readOnly)) + (Emit(Bool(e.isDefault)) + (Emit(Bool(e.isSensitive)) + s));
    var name :- d.String(e.name, Emit(NullableStr(e.value)) + flagged);
    var value :- d.NullableString(e.value, flagged);
    var flags :- DecodeFlags(d, e, s);
    var synonyms: seq<Synonym> := [];
    if version >= 1 {
      var n :- d.ArrayLength(|e.synonyms|, Lay(d.crc, SynonymsProg(e.synonyms, k), t));
      var ss :- DecodeSynonyms(d, n, e.synonyms, k, t);
      synonyms := ss;
    }
    return Ok(Entry(name, value, flags.0, flags.1, flags.2, synonyms));
  }

  lemma EntriesNext(crc: Checksum, es: seq<Entry>, i: nat, version: int, k: Prog, t: bytes)
    requires i <= |es|
    ensures i == |es| ==> Lay(crc, EntriesProg(es[i..], version, k), t) == Lay(crc, k, t) && es[..i] == es
    ensures i < |es| ==> Lay(crc, EntriesProg(es[i..], version, k), t)
                         == Lay(crc, EntryProg(es[i], version, EntriesProg(es[i + 1..], version, k)), t)
    ensures i < |es| ==>
              CarriedEntries(es[..i + 1], version) == CarriedEntries(es[..i], version) + [CarriedEntry(es[i], version)]
    ensures es[0..] == es && CarriedEntries(es[..0], version) == []
  {
    hide Lay, EntryProg, CarriedEntry;
    if i < |es| {
      assert es[i..][1..] == es[i + 1..];
    }
  }

  lemma {:induction false} EntriesLong(crc: Checksum, es: seq<Entry>, version: int, k: Prog, t: bytes)
    ensures |Lay(crc, EntriesProg(es, version, k), t)| >= |es| + |Lay(crc, k, t)|
  {
    if es != [] {
      hide Lay, EntryProg;
      EntriesLong(crc, es[1..], version, k, t);
      EntryLaid(crc, es[0], version, EntriesProg(es[1..], version, k), t);
    }
  }

  method DecodeEntries(d: ByteDecoder, n: nat, version: int, ghost es: seq<Entry>, ghost k: Prog, ghost t: bytes)
    returns (r: Result<seq<Entry>>)
    requires d.Valid()
    modifies d`off
    ensures d.Valid() && d.off >= old(d.off)
    ensures old(d.Rest()) == Lay(d.crc, EntriesProg(es, version, k), t) && n == |es| && EntriesSendable(es, version) ==>
              if EntriesCounted(es, version)
              then r == Ok(CarriedEntries(es, version)) && d.Rest() == Lay(d.crc, k, t)
              else r == Err(InvalidArrayLength)
  {
    hide Lay, EntriesProg, EntryProg, CarriedEntry, CarriedEntries, EntrySendable, EntryCounted;
    ghost var good := d.Rest() == Lay(d.crc, EntriesProg(es, version, k), t) && n == |es|
        && EntriesSendable(es, version);
    var got: seq<Entry> := [];
    EntriesNext(d.crc, es, 0, version, k, t);
    for i := 0 to n
      invariant d.Valid() && d.off >= old(d.off)
      invariant good ==> d.Rest() == Lay(d.crc, EntriesProg(es[i..], version, k), t)
      invariant good ==> got == CarriedEntries(es[..i], version)
      invariant good ==> forall j :: 0 <= j < i ==> EntryCounted(es[j], version)
    {
      ghost var x, rest := Entry([], None, false, false, false, []), Done;
      if good {
        x, rest := es[i], EntriesProg(es[i + 1..], version, k);
        EntriesNext(d.crc, es, i, version, k, t);
      }
      var e :- DecodeEntry(d, version, x, rest, t);
      got := got + [e];
    }
    if good {
      EntriesNext(d.crc, es, n, version, k, t);
    }
    return Ok(got);
  }

  // ---- resources ----------------------------------------------------------------------------

  lemma ResourceLaid(crc: Checksum, r: Resource, version: int, k: Prog, t: bytes)
    ensures Lay(crc, ResourceProg(r, version, k), t)
            == PutInt(2, r.errorCode) + (Emit(NullableStr(r.errorMessage)) + (PutInt(1, r.kind) + (StrBytes(r.name)
                 + (PutInt(4, |r.entries|) + Lay(crc, EntriesProg(r.entries, version, k), t)))))
    ensures |Lay(crc, ResourceProg(r, version, k), t)| > |Lay(crc, k, t)|
    ensures |Lay(crc, EntriesProg(r.entries, version, k), t)| >= |r.entries|
  {
    hide PutInt, StrBytes, EntriesProg;
    var p := Put(ArrayLength(|r.entries|), EntriesProg(r.entries, version, k));
    var p3 := Put(Str(r.name), p);
    var p2 := Put(Int8(r.kind), p3);
    assert Lay(crc, p, t) == PutInt(4, |r.entries|) + Lay(crc, EntriesProg(r.entries, version, k), t);
    assert Lay(crc, p3, t) == StrBytes(r.name) + Lay(crc, p, t);
    assert Lay(crc, p2, t) == PutInt(1, r.kind) + Lay(crc, p3, t);
    assert Lay(crc, Put(NullableStr(r.errorMessage), p2), t) == Emit(NullableStr(r.errorMessage)) + Lay(crc, p2, t);
    EntriesLong(crc, r.entries, version, k, t);
  }

  method DecodeHead(d: ByteDecoder, ghost x: Resource, ghost rest: bytes)
    returns (r: Result<(int16, Option<bytes>, int8, bytes)>)
    requires d.Valid()
    modifies d`off
    ensures d.Valid() && d.off >= old(d.off)
    ensures old(d.Rest()) == PutInt(2, x.errorCode) + (Emit(NullableStr(x.errorMessage)) + (PutInt(1, x.kind)
                               + (StrBytes(x.name) + rest)))
            && |x.name| <= MAX_INT16 && Short(x.errorMessage) ==>
              r == Ok((x.errorCode, x.errorMessage, x.kind, x.name)) && d.Rest() == rest
  {
    hide PutInt, GetInt, StrBytes, Emit, Pow256, StringRead, NullableRead;
    Pows();
    ghost var s2 := StrBytes(x.name) + rest;
    ghost var s1 := PutInt(1, x.kind) + s2;
    var code :- d.Int16(x.errorCode, Emit(NullableStr(x.errorMessage)) + s1);
    var message :- d.NullableString(x.errorMessage, s1);
    var kind :- d.Int8(x.kind, s2);
    var name :- d.String(x.name, rest);
    return Ok((code, message, kind, name));
  }

  method DecodeResource(d: ByteDecoder, version: int, ghost x: Resource, ghost k: Prog, ghost t: bytes)
    returns (r: Result<Resource>)
    requires d.Valid()
    modifies d`off
    ensures d.Valid() && d.off >= old(d.off)
    ensures old(d.Rest()) == Lay(d.crc, ResourceProg(x, version, k), t) && ResourceSendable(x, version) ==>
              if ResourceCounted(x, version)
              then r == Ok(CarriedResource(x, version)) && d.Rest() == Lay(d.crc, k, t)
              else r == Err(InvalidArrayLength)
  {
    hide PutInt, GetInt, Lay, ResourceProg, EntriesProg, StrBytes, Emit, CarriedEntries, EntriesSendable,
      EntriesCounted, Un, Pow256, BlobRead, StringRead, NullableRead;
    Pows();
    ResourceLaid(d.crc, x, version, k, t);
    ghost var s3 := Lay(d.crc, EntriesProg(x.entries, version, k), t);
    var head :- DecodeHead(d, x, PutInt(4, |x.entries|) + s3);
    var n :- d.ArrayLength(|x.entries|, s3);
    var es :- DecodeEntries(d, n, version, x.entries, k, t);
    return Ok(Resource(head.0, head.1, head.2, head.3, es));
  }

  lemma ResourcesNext(crc: Checksum, rs: seq<Resource>, i: nat, version: int, k: Prog, t: bytes)
    requires i <= |rs|
    ensures i == |rs| ==> Lay(crc, ResourcesProg(rs[i..], version, k), t) == Lay(crc, k, t) && rs[..i] == rs
    ensures i < |rs| ==> Lay(crc, ResourcesProg(rs[i..], version, k), t)
                         == Lay(crc, ResourceProg(rs[i], version, ResourcesProg(rs[i + 1..], version, k)), t)
    ensures i < |rs| ==> CarriedResources(rs[..i + 1], version)
                         == CarriedResources(rs[..i], version) + [CarriedResource(rs[i], version)]
    ensures rs[0..] == rs && CarriedResources(rs[..0], version) == []
  {
    hide Lay, ResourceProg, CarriedResource;
    if i < |rs| {
      assert rs[i..][1..] == rs[i + 1..];
    }
  }

  lemma {:induction false} ResourcesLong(crc: Checksum, rs: seq<Resource>, version: int, k: Prog, t: bytes)
    ensures |Lay(crc, ResourcesProg(rs, version, k), t)| >= |rs|
  {
    if rs != [] {
      hide Lay, ResourceProg;
      ResourcesLong(crc, rs[1..], version, k, t);
      ResourceLaid(crc, rs[0], version, ResourcesProg(rs[1..], version, k), t);
    }
  }

  method DecodeResources(d: ByteDecoder, n: nat, version: int, ghost rs: seq<Resource>, ghost k: Prog, ghost t: bytes)
    returns (r: Result<seq<Resource>>)
    requires d.Valid()
    modifies d`off
    ensures d.Valid() && d.off >= old(d.off)
    ensures old(d.Rest()) == Lay(d.crc, ResourcesProg(rs, version, k), t) && n == |rs|
            && ResourcesSendable(rs, version) ==>
              if ResourcesCounted(rs, version)
              then r == Ok(CarriedResources(rs, version)) && d.Rest() == Lay(d.crc, k, t)
              else r == Err(InvalidArrayLength)
  {
    hide Lay, ResourcesProg, ResourceProg, CarriedResource, CarriedResources, ResourceSendable, ResourceCounted;
    ghost var good := d.Rest() == Lay(d.crc, ResourcesProg(rs, version, k), t) && n == |rs|
        && ResourcesSendable(rs, version);
    var got: seq<Resource> := [];
    ResourcesNext(d.crc, rs, 0, version, k, t);
    for i := 0 to n
      invariant d.Valid() && d.off >= old(d.off)
      invariant good ==> d.Rest() == Lay(d.crc, ResourcesProg(rs[i..], version, k), t)
      invariant good ==> got == CarriedResources(rs[..i], version)
      invariant good ==> forall j :: 0 <= j < i ==> ResourceCounted(rs[j], version)
    {
      ghost var x, rest := Resource(0, None, 0, [], []), Done;
      if good {
        x, rest := rs[i], ResourcesProg(rs[i + 1..], version, k);
        ResourcesNext(d.crc, rs, i, version, k, t);
      }
      var e :- DecodeResource(d, version, x, rest, t);
      got := got + [e];
    }
    if good {
      ResourcesNext(d.crc, rs, n, version, k, t);
    }
    return Ok(got);
  }

  lemma ResponseLaid(crc: Checksum, x: Response, k: Prog, t: bytes)
    ensures Lay(crc, ResponseProg(x, k), t)
            == PutInt(4, Millis(x.throttleTime))
               + (PutInt(4, |x.resources|) + Lay(crc, ResourcesProg(x.resources, x.apiVersion, k), t))
  {
    hide PutInt, ResourcesProg, Millis;
    var counted := Put(ArrayLength(|x.resources|), ResourcesProg(x.resources, x.apiVersion, k));
    assert Lay(crc, counted, t) == PutInt(4, |x.resources|) + Lay(crc, ResourcesProg(x.resources, x.apiVersion, k), t);
  }

  /** DescribeConfigsResponse.Decode gives back every field that the version carries, or refuses an
      array that is too long. */
  method Decode(d: ByteDecoder, version: int, ghost x: Response, ghost k: Prog, ghost t: bytes)
    returns (r: Result<Response>)
    requires d.Valid()
    modifies d`off
    ensures d.Valid()
    ensures old(d.Rest()) == Lay(d.crc, ResponseProg(x, k), t) && Sendable(x) && version == x.apiVersion ==>
              if Counted(x) then r == Ok(Carried(x)) && d.Rest() == Lay(d.crc, k, t) else r == Err(InvalidArrayLength)
  {
    hide PutInt, GetInt, Lay, ResponseProg, ResourcesProg, CarriedResources, Millis, ResourcesSendable,
      ResourcesCounted, Un, Pow256, BlobRead, StringRead, NullableRead;
    Pows();
    ghost var s := Lay(d.crc, ResourcesProg(x.resources, x.apiVersion, k), t);
    ResponseLaid(d.crc, x, k, t);
    ResourcesLong(d.crc, x.resources, x.apiVersion, k, t);
    var ms :- d.Int(4, Millis(x.throttleTime), PutInt(4, |x.resources|) + s);
    var n :- d.ArrayLength(|x.resources|, s);
    var rs :- DecodeResources(d, n, version, x.resources, k, t);
    return Ok(Response(version, ms * MILLISECOND, rs));
  }

  // ---- encoding and decoding together -------------------------------------------------------

  lemma {:induction false} SynonymsAccepted(ss: seq<Synonym>, k: Prog)
    ensures AcceptsAll(SynonymsProg(ss, k)) <==> SynonymsSendable(ss) && AcceptsAll(k)
  {
    if ss != [] {
      SynonymsAccepted(ss[1..], k);
      var rest := Put(Int8(ss[0].source), SynonymsProg(ss[1..], k));
      assert AcceptsAll(rest) <==> AcceptsAll(SynonymsProg(ss[1..], k));
      assert AcceptsAll(Put(NullableStr(ss[0].value), rest)) <==> Short(ss[0].value) && AcceptsAll(rest);
      assert forall i :: 1 <= i < |ss| ==> ss[i] == ss[1..][i - 1];
    }
  }

  lemma EntryAccepted(e: Entry, version: int, k: Prog)
    ensures AcceptsAll(EntryProg(e, version, k)) <==> EntrySendable(e, version) && AcceptsAll(k)
  {
    SynonymsAccepted(e.synonyms, k);
    hide SynonymsProg, SynonymsSendable;
    var p := SynonymsPart(e, version, k);
    assert version >= 1 ==>
        (AcceptsAll(p) <==> |e.synonyms| <= MAX_INT32 && SynonymsSendable(e.synonyms) && AcceptsAll(k));
    assert AcceptsAll(Put(Bool(e.isDefault), Put(Bool(e.isSensitive), p))) <==> AcceptsAll(p);
    assert AcceptsAll(FlagsProg(e, p)) <==> AcceptsAll(p);
    assert AcceptsAll(Put(NullableStr(e.value), FlagsProg(e, p))) <==> Short(e.value) && AcceptsAll(p);
  }

  lemma {:induction false} EntriesAccepted(es: seq<Entry>, version: int, k: Prog)
    ensures AcceptsAll(EntriesProg(es, version, k)) <==> EntriesSendable(es, version) && AcceptsAll(k)
  {
    hide EntryProg, EntrySendable;
    if es != [] {
      EntriesAccepted(es[1..], version, k);
      EntryAccepted(es[0], version, EntriesProg(es[1..], version, k));
      assert forall i :: 1 <= i < |es| ==> es[i] == es[1..][i - 1];
    }
  }

  lemma ResourceAccepted(r: Resource, version: int, k: Prog)
    ensures AcceptsAll(ResourceProg(r, version, k)) <==> ResourceSendable(r, version) && AcceptsAll(k)
  {
    EntriesAccepted(r.entries, version, k);
    hide EntriesProg, EntriesSendable;
    var counted := Put(ArrayLength(|r.entries|), EntriesProg(r.entries, version, k));
    assert AcceptsAll(counted) <==> |r.entries| <= MAX_INT32 && EntriesSendable(r.entries, version) && AcceptsAll(k);
    var named := Put(Int8(r.kind), Put(Str(r.name), counted));
    assert AcceptsAll(named) <==> |r.name| <= MAX_INT16 && AcceptsAll(counted);
    assert AcceptsAll(Put(NullableStr(r.errorMessage), named)) <==> Short(r.errorMessage) && AcceptsAll(named);
  }

  lemma {:induction false} ResourcesAccepted(rs: seq<Resource>, version: int, k: Prog)
    ensures AcceptsAll(ResourcesProg(rs, version, k)) <==> ResourcesSendable(rs, version) && AcceptsAll(k)
  {
    hide ResourceProg, ResourceSendable;
    if rs != [] {
      ResourcesAccepted(rs[1..], version, k);
      ResourceAccepted(rs[0], version, ResourcesProg(rs[1..], version, k));
      assert forall i :: 1 <= i < |rs| ==> rs[i] == rs[1..][i - 1];
    }
  }

  lemma ResponseAccepted(x: Response)
    ensures AcceptsAll(ResponseProg(x, Done)) <==> Sendable(x)
  {
    hide ResourcesProg, Millis, ResourcesSendable;
    ResourcesAccepted(x.resources, x.apiVersion, Done);
    var counted := Put(ArrayLength(|x.resources|), ResourcesProg(x.resources, x.apiVersion, Done));
    assert AcceptsAll(counted) <==> Sendable(x);
  }

  /** At every version, encoding a response and decoding the bytes gives back all that the version
      carries, and no synonyms at version 0, exactly if the encoder accepts the response and the
      decoder its arrays. */
  method RoundTrip(crc: Checksum, x: Response) returns (r: Option<Result<Response>>)
    ensures r == if !Sendable(x) then None else Some(if Counted(x) then Ok(Carried(x)) else Err(InvalidArrayLength))
    ensures r.Some? && r.value.Ok? ==>
              var got := r.value.value;
              && got.apiVersion == x.apiVersion && |got.resources| == |x.resources|
              && got.throttleTime == Millis(x.throttleTime) * MILLISECOND
              && (forall i :: 0 <= i < |x.resources| ==>
                    var a, b := x.resources[i], got.resources[i];
                    && b.errorCode == a.errorCode && b.errorMessage == a.errorMessage && b.kind == a.kind
                    && b.name == a.name && |b.entries| == |a.entries|)
              && forall i, j :: 0 <= i < |x.resources| && 0 <= j < |x.resources[i].entries| ==>
                   var e, f := x.resources[i].entries[j], got.resources[i].entries[j];
                   && f.name == e.name && f.value == e.value && f.readOnly == e.readOnly
                   && f.isDefault == e.isDefault && f.isSensitive == e.isSensitive
                   && f.synonyms == if x.apiVersion >= 1 then e.synonyms else []
  {
    CarriedFields(x);
    hide Sendable, Counted, ResponseProg, Carried, AcceptsAll, Lay;
    ResponseAccepted(x);
    var p := ResponseProg(x, Done);
    var encoded := Encode(crc, p, p);
    if encoded == None {
      return None;
    }
    var d := new ByteDecoder(encoded.value, crc);
    var got := Decode(d, x.apiVersion, x, Done, []);
    return Some(got);
  }
}
