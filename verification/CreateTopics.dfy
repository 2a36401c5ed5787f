/** The codec of protocol/create_topic_requests.go, which walks maps: the measuring pass and
    the writing pass may each visit them in any order. */
module CreateTopics {
  import opened Bytes
  import opened Wire
  import opened Encoders
  import opened Decoders

  datatype CreateTopicRequest = CreateTopicRequest(
    topic: bytes,
    numPartitions: int32,
    replicationFactor: int16,
    replicaAssignment: map<int32, seq<int32>>,
    configs: map<bytes, Option<bytes>>)

  /** Durations are in nanoseconds. */
  datatype CreateTopicRequests = CreateTopicRequests(
    apiVersion: int, requests: seq<CreateTopicRequest>, timeout: int, validateOnly: bool)

  /** The order in which one pass visits the two maps of a request. */
  datatype Order = Order(assignments: seq<int32>, configs: seq<bytes>)

  // ---- visiting a map -----------------------------------------------------------------------

  /** Every key of the set once. */
  ghost predicate Enumerates<K(!new)>(order: seq<K>, keys: set<K>) {
    && (forall x :: x in order <==> x in keys)
    && forall i, j :: 0 <= i < j < |order| ==> order[i] != order[j]
  }

  function Total<K>(f: K -> nat, order: seq<K>): (n: nat) {
    if order == [] then 0 else f(order[0]) + Total(f, order[1..])
  }

  lemma {:induction false} TotalRemove<K>(f: K -> nat, order: seq<K>, j: nat)
    requires j < |order|
    ensures Total(f, order) == f(order[j]) + Total(f, order[..j] + order[j + 1..])
  {
    var rest := order[..j] + order[j + 1..];
    if j == 0 {
      assert rest == order[1..];
    } else {
      TotalRemove(f, order[1..], j - 1);
      assert order[1..][..j - 1] + order[1..][j..] == rest[1..];
    }
  }

  /** Totals over a map do not depend on the order in which it is visited. */
  lemma {:induction false} TotalAnyOrder<K(!new)>(f: K -> nat, a: seq<K>, b: seq<K>, keys: set<K>)
    requires Enumerates(a, keys) && Enumerates(b, keys)
    ensures Total(f, a) == Total(f, b) && |a| == |b|
    decreases |a|
  {
    assert b == [] || b[0] in keys;
    if a == [] {
    } else {
      assert a[0] in b;
      var j :| 0 <= j < |b| && b[j] == a[0];
      var rest := b[..j] + b[j + 1..];
      TotalRemove(f, b, j);
      EnumeratesRest(a, keys, 0);
      EnumeratesRest(b, keys, j);
      assert a[..0] + a[1..] == a[1..];
      TotalAnyOrder(f, a[1..], rest, keys - {a[0]});
    }
  }

  lemma EnumeratesRest<K(!new)>(order: seq<K>, keys: set<K>, j: nat)
    requires Enumerates(order, keys) && j < |order|
    ensures Enumerates(order[..j] + order[j + 1..], keys - {order[j]})
  {
    var rest := order[..j] + order[j + 1..];
    forall x | x in rest ensures x in keys - {order[j]} {
      var i :| 0 <= i < |rest| && rest[i] == x;
      assert x == order[if i < j then i else i + 1];
    }
    forall x | x in keys - {order[j]} ensures x in rest {
      assert x in order;
      var i :| 0 <= i < |order| && order[i] == x;
      assert rest[if i < j then i else i - 1] == x;
    }
  }

  // ---- Encode, as programs ended by `k` -----------------------------------------------------

  function AssignmentsProg(ra: map<int32, seq<int32>>, order: seq<int32>, k: Prog): (p: Prog)
    requires forall x :: x in order ==> x in ra
  {
    if order == [] then k
    else Put(Int32(order[0]), Put(Int32Array(ra[order[0]]), AssignmentsProg(ra, order[1..], k)))
  }

  function ConfigsProg(cs: map<bytes, Option<bytes>>, order: seq<bytes>, k: Prog): (p: Prog)
    requires forall x :: x in order ==> x in cs
  {
    if order == [] then k
    else Put(Str(order[0]), Put(NullableStr(cs[order[0]]), ConfigsProg(cs, order[1..], k)))
  }

  ghost predicate Visits(r: CreateTopicRequest, o: Order) {
    Enumerates(o.assignments, r.replicaAssignment.Keys) && Enumerates(o.configs, r.configs.Keys)
  }

  ghost function RequestProg(r: CreateTopicRequest, o: Order, k: Prog): (p: Prog)
    requires Visits(r, o)
  {
    var configs := Put(ArrayLength(|r.configs|), ConfigsProg(r.configs, o.configs, k));
    Put(Str(r.topic), Put(Int32(r.numPartitions), Put(Int16(r.replicationFactor),
      Put(ArrayLength(|r.replicaAssignment|), AssignmentsProg(r.replicaAssignment, o.assignments, configs)))))
  }

  ghost predicate VisitsAll(rs: seq<CreateTopicRequest>, os: seq<Order>) {
    |os| == |rs| && forall i :: 0 <= i < |rs| ==> Visits(rs[i], os[i])
  }

  ghost function ListProg(rs: seq<CreateTopicRequest>, os: seq<Order>, k: Prog): (p: Prog)
    requires VisitsAll(rs, os)
  {
    if rs == [] then k else RequestProg(rs[0], os[0], ListProg(rs[1..], os[1..], k))
  }

  ghost function RequestsProg(r: CreateTopicRequests, os: seq<Order>): (p: Prog)
    requires VisitsAll(r.requests, os)
  {
    var end := Put(Int32(Millis(r.timeout)), if r.apiVersion >= 1 then Put(Bool(r.validateOnly), Done) else Done);
    Put(ArrayLength(|r.requests|), ListProg(r.requests, os, end))
  }

  // ---- both passes measure the same ---------------------------------------------------------

  lemma {:induction false} AssignmentsSize(ra: map<int32, seq<int32>>, order: seq<int32>, k: Prog)
    requires forall x :: x in order ==> x in ra
    ensures Size(AssignmentsProg(ra, order, k))
            == Size(k) + Total((x: int32) => if x in ra then 8 + 4 * |ra[x]| else 0, order)
  {
    hide PutInt, Ints;
    if order != [] {
      AssignmentsSize(ra, order[1..], k);
      var rest := AssignmentsProg(ra, order[1..], k);
      assert Size(Put(Int32Array(ra[order[0]]), rest)) == 4 + 4 * |ra[order[0]]| + Size(rest);
    }
  }

  lemma {:induction false} ConfigsSize(cs: map<bytes, Option<bytes>>, order: seq<bytes>, k: Prog)
    requires forall x :: x in order ==> x in cs
    ensures Size(ConfigsProg(cs, order, k))
            == Size(k) + Total((x: bytes) => if x in cs then 2 + |x| + |Emit(NullableStr(cs[x]))| else 0, order)
  {
    hide PutInt, StrBytes;
    if order != [] {
      ConfigsSize(cs, order[1..], k);
      var rest := ConfigsProg(cs, order[1..], k);
      assert Size(Put(NullableStr(cs[order[0]]), rest)) == |Emit(NullableStr(cs[order[0]]))| + Size(rest);
    }
  }

  lemma RequestSize(r: CreateTopicRequest, a: Order, b: Order, k: Prog, k': Prog)
    requires Visits(r, a) && Visits(r, b) && Size(k) == Size(k')
    ensures Size(RequestProg(r, a, k)) == Size(RequestProg(r, b, k'))
  {
    hide PutInt, AssignmentsProg, ConfigsProg, Enumerates, Total;
    var fa := (x: int32) => if x in r.replicaAssignment then 8 + 4 * |r.replicaAssignment[x]| else 0;
    var fc := (x: bytes) => if x in r.configs then 2 + |x| + |Emit(NullableStr(r.configs[x]))| else 0;
    TotalAnyOrder(fa, a.assignments, b.assignments, r.replicaAssignment.Keys);
    TotalAnyOrder(fc, a.configs, b.configs, r.configs.Keys);
    HeadSize(r, a, k, fa, fc);
    HeadSize(r, b, k', fa, fc);
  }

  lemma HeadSize(r: CreateTopicRequest, o: Order, k: Prog, fa: int32 -> nat, fc: bytes -> nat)
    requires Visits(r, o)
    requires fa == ((x: int32) => if x in r.replicaAssignment then 8 + 4 * |r.replicaAssignment[x]| else 0)
    requires fc == ((x: bytes) => if x in r.configs then 2 + |x| + |Emit(NullableStr(r.configs[x]))| else 0)
    ensures Size(RequestProg(r, o, k))
            == 2 + |r.topic| + 4 + 2 + 4 + 4 + Total(fa, o.assignments) + Total(fc, o.configs) + Size(k)
  {
    hide PutInt, AssignmentsProg, ConfigsProg, Total;
    var configs := Put(ArrayLength(|r.configs|), ConfigsProg(r.configs, o.configs, k));
    var assignments := AssignmentsProg(r.replicaAssignment, o.assignments, configs);
    AssignmentsSize(r.replicaAssignment, o.assignments, configs);
    ConfigsSize(r.configs, o.configs, k);
    assert Size(configs) == 4 + Size(ConfigsProg(r.configs, o.configs, k));
    assert Size(Put(ArrayLength(|r.replicaAssignment|), assignments)) == 4 + Size(assignments);
    assert Size(Put(Int16(r.replicationFactor), Put(ArrayLength(|r.replicaAssignment|), assignments)))
           == 2 + 4 + Size(assignments);
  }

  lemma {:induction false} ListSize(rs: seq<CreateTopicRequest>, a: seq<Order>, b: seq<Order>, k: Prog)
    requires VisitsAll(rs, a) && VisitsAll(rs, b)
    ensures Size(ListProg(rs, a, k)) == Size(ListProg(rs, b, k))
  {
    if rs != [] {
      hide Size, Visits, RequestProg;
      ListSize(rs[1..], a[1..], b[1..], k);
      RequestSize(rs[0], a[0], b[0], ListProg(rs[1..], a[1..], k), ListProg(rs[1..], b[1..], k));
    }
  }

  /** The measured length is right for whatever orders the writing pass takes. */
  lemma SameSize(r: CreateTopicRequests, a: seq<Order>, b: seq<Order>)
    requires VisitsAll(r.requests, a) && VisitsAll(r.requests, b)
    ensures Size(RequestsProg(r, a)) == Size(RequestsProg(r, b))
  {
    hide ListProg, Millis, PutInt;
    var end := Put(Int32(Millis(r.timeout)), if r.apiVersion >= 1 then Put(Bool(r.validateOnly), Done) else Done);
    ListSize(r.requests, a, b, end);
  }

  // ---- Decode -------------------------------------------------------------------------------

  // The encoder refuses strings of more than 32767 bytes and arrays of more than 2^31 - 1 elements;
  // the decoder refuses arrays of more than 131070.

  ghost predicate ReplicasAtMost(ra: map<int32, seq<int32>>, limit: int) {
    forall x :: x in ra ==> |ra[x]| <= limit
  }

  ghost predicate VisitedAtMost(ra: map<int32, seq<int32>>, order: seq<int32>, limit: int) {
    forall x :: x in order && x in ra ==> |ra[x]| <= limit
  }

  ghost predicate ShortConfigs(cs: map<bytes, Option<bytes>>) {
    forall x :: x in cs ==> |x| <= MAX_INT16 && (cs[x].Some? ==> |cs[x].value| <= MAX_INT16)
  }

  ghost predicate RequestSendable(r: CreateTopicRequest) {
    && |r.topic| <= MAX_INT16 && |r.replicaAssignment| <= MAX_INT32 && |r.configs| <= MAX_INT32
    && ReplicasAtMost(r.replicaAssignment, MAX_INT32) && ShortConfigs(r.configs)
  }

  ghost predicate RequestCounted(r: CreateTopicRequest) {
    |r.replicaAssignment| <= MAX_ARRAY && |r.configs| <= MAX_ARRAY && ReplicasAtMost(r.replicaAssignment, MAX_ARRAY)
  }

  ghost predicate AllSendable(rs: seq<CreateTopicRequest>) {
    forall i :: 0 <= i < |rs| ==> RequestSendable(rs[i])
  }

  ghost predicate AllCounted(rs: seq<CreateTopicRequest>) {
    forall i :: 0 <= i < |rs| ==> RequestCounted(rs[i])
  }

  ghost predicate Sendable(r: CreateTopicRequests) {
    |r.requests| <= MAX_INT32 && AllSendable(r.requests)
  }

  ghost predicate Counted(r: CreateTopicRequests) {
    |r.requests| <= MAX_ARRAY && AllCounted(r.requests)
  }

  method DecodeReplicas(d: ByteDecoder, n: nat, ghost vs: seq<int32>, ghost tail: bytes) returns (r: Result<seq<int32>>)
    requires d.Valid()
    modifies d`off
    ensures d.Valid() && d.off >= old(d.off)
    ensures old(d.Rest()) == Ints(4, vs) + tail && n == |vs| ==> r == Ok(vs) && d.Rest() == tail
  {
    hide PutInt, GetInt, Ints;
    Pows();
    ghost var good := d.Rest() == Ints(4, vs) + tail && n == |vs|;
    var got: seq<int32> := [];
    assert vs[0..] == vs && vs[..0] == [];
    for i := 0 to n
      invariant d.Valid() && d.off >= old(d.off)
      invariant good ==> d.Rest() == Ints(4, vs[i..]) + tail && got == vs[..i]
    {
      ghost var x, rest := 0, [];
      if good {
        IntsFrom(4, vs, i);
        TakeNext(vs, i);
        x, rest := vs[i], Ints(4, vs[i + 1..]) + tail;
        Regroup(PutInt(4, vs[i]), Ints(4, vs[i + 1..]), tail);
      }
      var v :- d.Int(4, x, rest);
      got := got + [v];
    }
    if good {
      IntsEnds(4, vs);
      assert vs[..n] == vs && [] + tail == tail;
    }
    return Ok(got);
  }

  function Picked<K, V>(m: map<K, V>, order: seq<K>): (r: map<K, V>)
    requires forall x :: x in order ==> x in m
  {
    map x | x in order :: m[x]
  }

  lemma PickedAll<K(!new), V>(m: map<K, V>, order: seq<K>)
    requires Enumerates(order, m.Keys)
    ensures Picked(m, order) == m && |order| == |m|
  {
    EnumeratesCount(order, m.Keys);
  }

  lemma {:induction false} EnumeratesCount<K(!new)>(order: seq<K>, keys: set<K>)
    requires Enumerates(order, keys)
    ensures |order| == |keys|
    decreases |order|
  {
    if order == [] {
      assert keys == {};
    } else {
      EnumeratesRest(order, keys, 0);
      assert order[..0] + order[1..] == order[1..];
      EnumeratesCount(order[1..], keys - {order[0]});
      assert order[0] in keys;
    }
  }

  lemma AssignmentsNext(crc: Checksum, ra: map<int32, seq<int32>>, order: seq<int32>, i: nat, k: Prog, t: bytes)
    requires (forall x :: x in order ==> x in ra) && i <= |order|
    ensures i == |order| ==> Lay(crc, AssignmentsProg(ra, order[i..], k), t) == Lay(crc, k, t) && order[..i] == order
    ensures i < |order| ==>
              var x := order[i];
              Lay(crc, AssignmentsProg(ra, order[i..], k), t)
              == PutInt(4, x) + (PutInt(4, |ra[x]|) + (Ints(4, ra[x])
                   + Lay(crc, AssignmentsProg(ra, order[i + 1..], k), t)))
    ensures i < |order| ==> Picked(ra, order[..i + 1]) == Picked(ra, order[..i])[order[i] := ra[order[i]]]
  {
    hide PutInt, Ints;
    if i < |order| {
      var x, rest := order[i], AssignmentsProg(ra, order[i + 1..], k);
      assert order[i..][1..] == order[i + 1..];
      TakeNext(order, i);
      Regroup(PutInt(4, |ra[x]|), Ints(4, ra[x]), Lay(crc, rest, t));
      assert Lay(crc, Put(Int32Array(ra[x]), rest), t) == PutInt(4, |ra[x]|) + Ints(4, ra[x]) + Lay(crc, rest, t);
    }
  }

  method DecodeAssignment(d: ByteDecoder, ghost x: int32, ghost vs: seq<int32>, ghost rest: bytes)
    returns (r: Result<(int32, seq<int32>)>)
    requires d.Valid()
    modifies d`off
    ensures d.Valid() && d.off >= old(d.off)
    ensures old(d.Rest()) == PutInt(4, x) + (PutInt(4, |vs|) + (Ints(4, vs) + rest)) && |vs| <= MAX_INT32 ==>
              if |vs| <= MAX_ARRAY then r == Ok((x, vs)) && d.Rest() == rest else r == Err(InvalidArrayLength)
  {
    hide PutInt, GetInt, Ints, Un, Pow256;
    Pows();
    var pid :- d.Int(4, x, PutInt(4, |vs|) + (Ints(4, vs) + rest));
    var count :- d.ArrayLength(|vs|, Ints(4, vs) + rest);
    var reps :- DecodeReplicas(d, count, vs, rest);
    return Ok((pid, reps));
  }

  method DecodeAssignments(d: ByteDecoder, n: nat, ghost ra: map<int32, seq<int32>>, ghost order: seq<int32>,
                           ghost k: Prog, ghost t: bytes)
    returns (r: Result<map<int32, seq<int32>>>)
    requires d.Valid()
    requires forall x :: x in order ==> x in ra
    modifies d`off
    ensures d.Valid() && d.off >= old(d.off)
    ensures old(d.Rest()) == Lay(d.crc, AssignmentsProg(ra, order, k), t) && n == |order|
            && VisitedAtMost(ra, order, MAX_INT32) ==>
              if VisitedAtMost(ra, order, MAX_ARRAY)
              then r == Ok(Picked(ra, order)) && d.Rest() == Lay(d.crc, k, t)
              else r == Err(InvalidArrayLength)
  {
    hide PutInt, Lay, AssignmentsProg, Ints, Picked;
    ghost var good := d.Rest() == Lay(d.crc, AssignmentsProg(ra, order, k), t) && n == |order|
        && VisitedAtMost(ra, order, MAX_INT32);
    var got: map<int32, seq<int32>> := map[];
    AssignmentsStart(ra, order);
    for i := 0 to n
      invariant d.Valid() && d.off >= old(d.off)
      invariant good ==> d.Rest() == Lay(d.crc, AssignmentsProg(ra, order[i..], k), t) && got == Picked(ra, order[..i])
      invariant good ==> forall j :: 0 <= j < i ==> |ra[order[j]]| <= MAX_ARRAY
    {
      ghost var x, vs, rest := 0, [], [];
      if good {
        AssignmentsNext(d.crc, ra, order, i, k, t);
        x, vs, rest := order[i], ra[order[i]], Lay(d.crc, AssignmentsProg(ra, order[i + 1..], k), t);
      }
      var entry :- DecodeAssignment(d, x, vs, rest);
      got := got[entry.0 := entry.1];
    }
    if good {
      AssignmentsNext(d.crc, ra, order, n, k, t);
    }
    return Ok(got);
  }

  lemma AssignmentsStart(ra: map<int32, seq<int32>>, order: seq<int32>)
    requires forall x :: x in order ==> x in ra
    ensures order[0..] == order && Picked(ra, order[..0]) == map[]
  {}

  lemma ConfigsNext(crc: Checksum, cs: map<bytes, Option<bytes>>, order: seq<bytes>, i: nat, k: Prog, t: bytes)
    requires (forall x :: x in order ==> x in cs) && i <= |order|
    ensures i == |order| ==> Lay(crc, ConfigsProg(cs, order[i..], k), t) == Lay(crc, k, t) && order[..i] == order
    ensures i < |order| ==>
              var x := order[i];
              Lay(crc, ConfigsProg(cs, order[i..], k), t)
              == StrBytes(x) + (Emit(NullableStr(cs[x])) + Lay(crc, ConfigsProg(cs, order[i + 1..], k), t))
    ensures i < |order| ==> Picked(cs, order[..i + 1]) == Picked(cs, order[..i])[order[i] := cs[order[i]]]
  {
    hide PutInt, StrBytes;
    if i < |order| {
      var x, rest := order[i], ConfigsProg(cs, order[i + 1..], k);
      assert order[i..][1..] == order[i + 1..];
      TakeNext(order, i);
      assert Lay(crc, Put(NullableStr(cs[x]), rest), t) == Emit(NullableStr(cs[x])) + Lay(crc, rest, t);
    }
  }

  lemma ConfigsStart(cs: map<bytes, Option<bytes>>, order: seq<bytes>)
    requires forall x :: x in order ==> x in cs
    ensures order[0..] == order && Picked(cs, order[..0]) == map[]
  {}

  method DecodeConfigs(d: ByteDecoder, n: nat, ghost cs: map<bytes, Option<bytes>>, ghost order: seq<bytes>,
                       ghost k: Prog, ghost t: bytes)
    returns (r: Result<map<bytes, Option<bytes>>>)
    requires d.Valid()
    requires forall x :: x in order ==> x in cs
    modifies d`off
    ensures d.Valid() && d.off >= old(d.off)
    ensures old(d.Rest()) == Lay(d.crc, ConfigsProg(cs, order, k), t) && n == |order| && ShortConfigs(cs) ==>
              r == Ok(Picked(cs, order)) && d.Rest() == Lay(d.crc, k, t)
  {
    hide PutInt, GetInt, Lay, ConfigsProg, StrBytes, Emit, Picked, Un, Pow256, BlobRead, StringRead, NullableRead;
    ghost var good := d.Rest() == Lay(d.crc, ConfigsProg(cs, order, k), t) && n == |order| && ShortConfigs(cs);
    var got: map<bytes, Option<bytes>> := map[];
    ConfigsStart(cs, order);
    for i := 0 to n
      invariant d.Valid() && d.off >= old(d.off)
      invariant good ==> d.Rest() == Lay(d.crc, ConfigsProg(cs, order[i..], k), t) && got == Picked(cs, order[..i])
    {
      ghost var x, o, rest := [], None, [];
      if good {
        ConfigsNext(d.crc, cs, order, i, k, t);
        x, o, rest := order[i], cs[order[i]], Lay(d.crc, ConfigsProg(cs, order[i + 1..], k), t);
      }
      var key :- d.String(x, Emit(NullableStr(o)) + rest);
      var value :- d.NullableString(o, rest);
      got := got[key := value];
    }
    if good {
      ConfigsNext(d.crc, cs, order, n, k, t);
    }
    return Ok(got);
  }

  lemma {:induction false} AssignmentsLong(crc: Checksum, ra: map<int32, seq<int32>>, order: seq<int32>, k: Prog,
                                           t: bytes)
    requires forall x :: x in order ==> x in ra
    ensures |Lay(crc, AssignmentsProg(ra, order, k), t)| >= |order| + |Lay(crc, k, t)|
  {
    if order != [] {
      AssignmentsLong(crc, ra, order[1..], k, t);
    }
  }

  lemma {:induction false} ConfigsLong(crc: Checksum, cs: map<bytes, Option<bytes>>, order: seq<bytes>, k: Prog,
                                       t: bytes)
    requires forall x :: x in order ==> x in cs
    ensures |Lay(crc, ConfigsProg(cs, order, k), t)| >= |order| + |Lay(crc, k, t)|
  {
    if order != [] {
      ConfigsLong(crc, cs, order[1..], k, t);
    }
  }

  /** The bytes of a request. */
  lemma RequestLaid(crc: Checksum, r: CreateTopicRequest, o: Order, k: Prog, t: bytes)
    requires Visits(r, o)
    ensures var configs := Put(ArrayLength(|r.configs|), ConfigsProg(r.configs, o.configs, k));
            var assignments := AssignmentsProg(r.replicaAssignment, o.assignments, configs);
            && Lay(crc, configs, t) == PutInt(4, |r.configs|) + Lay(crc, ConfigsProg(r.configs, o.configs, k), t)
            && Lay(crc, RequestProg(r, o, k), t)
               == StrBytes(r.topic) + (PutInt(4, r.numPartitions) + (PutInt(2, r.replicationFactor)
                    + (PutInt(4, |r.replicaAssignment|) + Lay(crc, assignments, t))))
            && |Lay(crc, assignments, t)| >= |o.assignments|
            && |Lay(crc, ConfigsProg(r.configs, o.configs, k), t)| >= |o.configs|
            && |Lay(crc, RequestProg(r, o, k), t)| > |Lay(crc, k, t)|
  {
    hide PutInt, AssignmentsProg, ConfigsProg, StrBytes, Enumerates;
    OrdersKnown(r, o);
    var configs := Put(ArrayLength(|r.configs|), ConfigsProg(r.configs, o.configs, k));
    var assignments := AssignmentsProg(r.replicaAssignment, o.assignments, configs);
    ConfigsLong(crc, r.configs, o.configs, k, t);
    AssignmentsLong(crc, r.replicaAssignment, o.assignments, configs, t);
    var p3 := Put(ArrayLength(|r.replicaAssignment|), assignments);
    var p2 := Put(Int16(r.replicationFactor), p3);
    assert Lay(crc, configs, t) == PutInt(4, |r.configs|) + Lay(crc, ConfigsProg(r.configs, o.configs, k), t);
    assert Lay(crc, p3, t) == PutInt(4, |r.replicaAssignment|) + Lay(crc, assignments, t);
    assert Lay(crc, p2, t) == PutInt(2, r.replicationFactor) + Lay(crc, p3, t);
    assert Lay(crc, Put(Int32(r.numPartitions), p2), t) == PutInt(4, r.numPartitions) + Lay(crc, p2, t);
  }

  lemma OrdersKnown(r: CreateTopicRequest, o: Order)
    requires Visits(r, o)
    ensures forall x :: x in o.assignments ==> x in r.replicaAssignment
    ensures forall x :: x in o.configs ==> x in r.configs
    ensures Picked(r.replicaAssignment, o.assignments) == r.replicaAssignment
              && |o.assignments| == |r.replicaAssignment|
    ensures Picked(r.configs, o.configs) == r.configs && |o.configs| == |r.configs|
    ensures forall limit :: VisitedAtMost(r.replicaAssignment, o.assignments, limit) <==>
              ReplicasAtMost(r.replicaAssignment, limit)
  {
    PickedAll(r.replicaAssignment, o.assignments);
    PickedAll(r.configs, o.configs);
  }

  method DecodeShape(d: ByteDecoder, ghost x: CreateTopicRequest, ghost tail: bytes)
    returns (r: Result<(bytes, int32, int16)>)
    requires d.Valid()
    modifies d`off
    ensures d.Valid() && d.off >= old(d.off)
    ensures old(d.Rest()) == StrBytes(x.topic) + (PutInt(4, x.numPartitions) + (PutInt(2, x.replicationFactor) + tail))
            && |x.topic| <= MAX_INT16 ==>
              r == Ok((x.topic, x.numPartitions, x.replicationFactor)) && d.Rest() == tail
  {
    hide PutInt, GetInt, StrBytes, StringRead;
    Pows();
    ghost var s1 := PutInt(2, x.replicationFactor) + tail;
    var topic :- d.String(x.topic, PutInt(4, x.numPartitions) + s1);
    var partitions :- d.Int(4, x.numPartitions, s1);
    var factor :- d.Int16(x.replicationFactor, tail);
    return Ok((topic, partitions, factor));
  }

  method DecodeRequest(d: ByteDecoder, ghost x: CreateTopicRequest, ghost o: Order, ghost k: Prog, ghost t: bytes)
    returns (r: Result<CreateTopicRequest>)
    requires d.Valid() && Visits(x, o)
    modifies d`off
    ensures d.Valid() && d.off >= old(d.off)
    ensures old(d.Rest()) == Lay(d.crc, RequestProg(x, o, k), t) && RequestSendable(x) ==>
              if RequestCounted(x) then r == Ok(x) && d.Rest() == Lay(d.crc, k, t) else r == Err(InvalidArrayLength)
  {
    hide PutInt, GetInt, Lay, RequestProg, AssignmentsProg, ConfigsProg, StrBytes, Visits, Picked, VisitedAtMost,
      ReplicasAtMost, Un, Pow256, BlobRead, StringRead, NullableRead;
    Pows();
    OrdersKnown(x, o);
    RequestLaid(d.crc, x, o, k, t);
    ghost var configs := Put(ArrayLength(|x.configs|), ConfigsProg(x.configs, o.configs, k));
    ghost var s3 := Lay(d.crc, AssignmentsProg(x.replicaAssignment, o.assignments, configs), t);
    ghost var s2 := PutInt(4, |x.replicaAssignment|) + s3;
    var shape :- DecodeShape(d, x, s2);
    var n :- d.ArrayLength(|x.replicaAssignment|, s3);
    var ra :- DecodeAssignments(d, n, x.replicaAssignment, o.assignments, configs, t);
    var m :- d.ArrayLength(|x.configs|, Lay(d.crc, ConfigsProg(x.configs, o.configs, k), t));
    var cs :- DecodeConfigs(d, m, x.configs, o.configs, k, t);
    return Ok(CreateTopicRequest(shape.0, shape.1, shape.2, ra, cs));
  }

  lemma ListNext(crc: Checksum, rs: seq<CreateTopicRequest>, os: seq<Order>, i: nat, k: Prog, t: bytes)
    requires VisitsAll(rs, os) && i <= |rs|
    ensures i == |rs| ==> Lay(crc, ListProg(rs[i..], os[i..], k), t) == Lay(crc, k, t) && rs[..i] == rs
    ensures i < |rs| ==> Lay(crc, ListProg(rs[i..], os[i..], k), t)
                         == Lay(crc, RequestProg(rs[i], os[i], ListProg(rs[i + 1..], os[i + 1..], k)), t)
    ensures i < |rs| ==> rs[..i + 1] == rs[..i] + [rs[i]]
  {
    hide Lay, RequestProg, Visits;
    if i < |rs| {
      assert rs[i..][1..] == rs[i + 1..] && os[i..][1..] == os[i + 1..];
    }
  }

  lemma {:induction false} ListLong(crc: Checksum, rs: seq<CreateTopicRequest>, os: seq<Order>, k: Prog, t: bytes)
    requires VisitsAll(rs, os)
    ensures |Lay(crc, ListProg(rs, os, k), t)| >= |rs|
  {
    if rs != [] {
      hide Lay, RequestProg, Visits;
      ListLong(crc, rs[1..], os[1..], k, t);
      RequestLaid(crc, rs[0], os[0], ListProg(rs[1..], os[1..], k), t);
    }
  }

  method DecodeList(d: ByteDecoder, n: nat, ghost rs: seq<CreateTopicRequest>, ghost os: seq<Order>, ghost k: Prog,
                    ghost t: bytes)
    returns (r: Result<seq<CreateTopicRequest>>)
    requires d.Valid() && VisitsAll(rs, os)
    modifies d`off
    ensures d.Valid() && d.off >= old(d.off)
    ensures old(d.Rest()) == Lay(d.crc, ListProg(rs, os, k), t) && n == |rs| && AllSendable(rs) ==>
              if AllCounted(rs) then r == Ok(rs) && d.Rest() == Lay(d.crc, k, t) else r == Err(InvalidArrayLength)
  {
    hide Lay, ListProg, RequestProg, RequestSendable, RequestCounted, Visits;
    ghost var good := d.Rest() == Lay(d.crc, ListProg(rs, os, k), t) && n == |rs| && AllSendable(rs);
    var got: seq<CreateTopicRequest> := [];
    NothingVisited();
    assert rs[0..] == rs && os[0..] == os && rs[..0] == [];
    for i := 0 to n
      invariant d.Valid() && d.off >= old(d.off)
      invariant good ==> d.Rest() == Lay(d.crc, ListProg(rs[i..], os[i..], k), t) && got == rs[..i]
      invariant good ==> forall j :: 0 <= j < i ==> RequestCounted(rs[j])
    {
      ghost var x, o, rest := CreateTopicRequest([], 0, 0, map[], map[]), Order([], []), Done;
      if good {
        ListNext(d.crc, rs, os, i, k, t);
        x, o, rest := rs[i], os[i], ListProg(rs[i + 1..], os[i + 1..], k);
      }
      var req :- DecodeRequest(d, x, o, rest, t);
      got := got + [req];
    }
    if good {
      ListNext(d.crc, rs, os, n, k, t);
    }
    return Ok(got);
  }

  lemma NothingVisited()
    ensures Visits(CreateTopicRequest([], 0, 0, map[], map[]), Order([], []))
  {}

  /** What a decoded request list can still say: the version is not set by Decode, the timeout
      is in milliseconds, and validateOnly exists from version 1 on. */
  function Carried(r: CreateTopicRequests): (c: CreateTopicRequests) {
    r.(apiVersion := 0, timeout := Millis(r.timeout) * MILLISECOND, validateOnly := r.apiVersion >= 1 && r.validateOnly)
  }

  /** So only a request list of version 0 with a timeout of whole milliseconds comes back as it
      was, and only if validateOnly, which that version does not send, is not set. */
  lemma CarriedExact(r: CreateTopicRequests)
    ensures Carried(r) == r <==>
            r.apiVersion == 0 && !r.validateOnly && ExactMillis(r.timeout)
  {
    MillisExact(r.timeout);
  }

  lemma RequestsLaid(crc: Checksum, x: CreateTopicRequests, os: seq<Order>)
    requires VisitsAll(x.requests, os)
    ensures var last := if x.apiVersion >= 1 then Put(Bool(x.validateOnly), Done) else Done;
            var end := Put(Int32(Millis(x.timeout)), last);
            && Lay(crc, RequestsProg(x, os), [])
                == PutInt(4, |x.requests|) + Lay(crc, ListProg(x.requests, os, end), [])
            && Lay(crc, end, []) == PutInt(4, Millis(x.timeout)) + Lay(crc, last, [])
            && Lay(crc, last, []) == if x.apiVersion >= 1 then Emit(Bool(x.validateOnly)) + [] else []
  {
    hide PutInt, ListProg, Millis, Visits;
  }

  /** CreateTopicRequests.Decode gives back the same maps, whatever order they were written in, or
      refuses an array that is too long. */
  method Decode(d: ByteDecoder, version: int, ghost x: CreateTopicRequests, ghost os: seq<Order>)
    returns (r: Result<CreateTopicRequests>)
    requires d.Valid() && VisitsAll(x.requests, os)
    modifies d`off
    ensures d.Valid()
    ensures old(d.Rest()) == Lay(d.crc, RequestsProg(x, os), []) && Sendable(x) && version == x.apiVersion ==>
              if Counted(x) then r == Ok(Carried(x)) && d.Rest() == [] else r == Err(InvalidArrayLength)
  {
    hide PutInt, GetInt, Lay, Emit, RequestsProg, ListProg, Millis, Visits, AllSendable, AllCounted, Un, Pow256,
      BlobRead, StringRead, NullableRead;
    Pows();
    ghost var last := if x.apiVersion >= 1 then Put(Bool(x.validateOnly), Done) else Done;
    ghost var end := Put(Int32(Millis(x.timeout)), last);
    ghost var s := Lay(d.crc, ListProg(x.requests, os, end), []);
    RequestsLaid(d.crc, x, os);
    ListLong(d.crc, x.requests, os, end, []);
    var n :- d.ArrayLength(|x.requests|, s);
    var requests :- DecodeList(d, n, x.requests, os, end, []);
    var timeout :- d.Int(4, Millis(x.timeout), Lay(d.crc, last, []));
    var validateOnly := false;
    if version >= 1 {
      var v :- d.Bool(x.validateOnly, []);
      validateOnly := v;
    }
    return Ok(CreateTopicRequests(0, requests, timeout * MILLISECOND, validateOnly));
  }

  // ---- encoding and decoding together -------------------------------------------------------

  lemma {:induction false} AssignmentsAccepted(ra: map<int32, seq<int32>>, order: seq<int32>, k: Prog)
    requires forall x :: x in order ==> x in ra
    ensures AcceptsAll(AssignmentsProg(ra, order, k)) <==> VisitedAtMost(ra, order, MAX_INT32) && AcceptsAll(k)
  {
    if order != [] {
      AssignmentsAccepted(ra, order[1..], k);
      var rest := AssignmentsProg(ra, order[1..], k);
      assert AcceptsAll(Put(Int32Array(ra[order[0]]), rest)) <==> |ra[order[0]]| <= MAX_INT32 && AcceptsAll(rest);
      assert forall x :: x in order <==> x == order[0] || x in order[1..];
    }
  }

  lemma {:induction false} ConfigsAccepted(cs: map<bytes, Option<bytes>>, order: seq<bytes>, k: Prog)
    requires forall x :: x in order ==> x in cs
    ensures AcceptsAll(ConfigsProg(cs, order, k)) <==>
            && (forall x :: x in order ==> |x| <= MAX_INT16 && (cs[x].Some? ==> |cs[x].value| <= MAX_INT16))
            && AcceptsAll(k)
  {
    if order != [] {
      ConfigsAccepted(cs, order[1..], k);
      var rest, o := ConfigsProg(cs, order[1..], k), cs[order[0]];
      assert AcceptsAll(Put(NullableStr(o), rest)) <==> (o.Some? ==> |o.value| <= MAX_INT16) && AcceptsAll(rest);
      assert forall x :: x in order <==> x == order[0] || x in order[1..];
    }
  }

  lemma AllConfigsAccepted(r: CreateTopicRequest, o: Order, k: Prog)
    requires Visits(r, o) && forall x :: x in o.configs ==> x in r.configs
    ensures AcceptsAll(ConfigsProg(r.configs, o.configs, k)) <==> ShortConfigs(r.configs) && AcceptsAll(k)
  {
    hide ConfigsProg;
    ConfigsAccepted(r.configs, o.configs, k);
    assert forall x :: x in o.configs <==> x in r.configs;
  }

  lemma RequestAccepted(r: CreateTopicRequest, o: Order, k: Prog)
    requires Visits(r, o)
    ensures AcceptsAll(RequestProg(r, o, k)) <==> RequestSendable(r) && AcceptsAll(k)
  {
    hide AssignmentsProg, ConfigsProg, Visits, Picked, VisitedAtMost, ReplicasAtMost, ShortConfigs;
    OrdersKnown(r, o);
    AllConfigsAccepted(r, o, k);
    var configs := Put(ArrayLength(|r.configs|), ConfigsProg(r.configs, o.configs, k));
    assert AcceptsAll(configs) <==> |r.configs| <= MAX_INT32 && ShortConfigs(r.configs) && AcceptsAll(k);
    AssignmentsAccepted(r.replicaAssignment, o.assignments, configs);
    var assignments := AssignmentsProg(r.replicaAssignment, o.assignments, configs);
    var p3 := Put(ArrayLength(|r.replicaAssignment|), assignments);
    assert AcceptsAll(p3) <==> |r.replicaAssignment| <= MAX_INT32 && AcceptsAll(assignments);
    assert AcceptsAll(Put(Int16(r.replicationFactor), p3)) <==> AcceptsAll(p3);
    assert AcceptsAll(Put(Int32(r.numPartitions), Put(Int16(r.replicationFactor), p3))) <==> AcceptsAll(p3);
  }

  lemma {:induction false} ListAccepted(rs: seq<CreateTopicRequest>, os: seq<Order>, k: Prog)
    requires VisitsAll(rs, os)
    ensures AcceptsAll(ListProg(rs, os, k)) <==> AllSendable(rs) && AcceptsAll(k)
  {
    hide RequestProg, RequestSendable, Visits;
    if rs != [] {
      ListAccepted(rs[1..], os[1..], k);
      RequestAccepted(rs[0], os[0], ListProg(rs[1..], os[1..], k));
      assert forall i :: 1 <= i < |rs| ==> rs[i] == rs[1..][i - 1];
    }
  }

  lemma RequestsAccepted(r: CreateTopicRequests, os: seq<Order>)
    requires VisitsAll(r.requests, os)
    ensures AcceptsAll(RequestsProg(r, os)) <==> Sendable(r)
  {
    hide ListProg, Millis, AllSendable, Visits;
    var last := if r.apiVersion >= 1 then Put(Bool(r.validateOnly), Done) else Done;
    var end := Put(Int32(Millis(r.timeout)), last);
    assert AcceptsAll(last);
    assert AcceptsAll(end);
    ListAccepted(r.requests, os, end);
  }

  /** Encoding with any two orders of visit, one per pass, and decoding gives back the same requests
      with the same maps, exactly if the encoder accepts them and the decoder their arrays.
      `measured` and `written` are the puts of the two passes. */
  method RoundTrip(crc: Checksum, x: CreateTopicRequests, measured: Prog, written: Prog,
                   ghost a: seq<Order>, ghost b: seq<Order>)
    returns (r: Option<Result<CreateTopicRequests>>)
    requires VisitsAll(x.requests, a) && VisitsAll(x.requests, b)
    requires measured == RequestsProg(x, a) && written == RequestsProg(x, b)
    ensures r == if !Sendable(x) then None else Some(if Counted(x) then Ok(Carried(x)) else Err(InvalidArrayLength))
    ensures r.Some? && r.value.Ok? ==>
              var got := r.value.value;
              && got.requests == x.requests && got.timeout == Millis(x.timeout) * MILLISECOND
              && got.validateOnly == (x.apiVersion >= 1 && x.validateOnly)
  {
    hide Sendable, Counted, RequestsProg, AcceptsAll, Lay, Size, VisitsAll, Millis;
    RequestsAccepted(x, a);
    SameSize(x, a, b);
    var encoded := Encode(crc, measured, written);
    if encoded == None {
      return None;
    }
    var d := new ByteDecoder(encoded.value, crc);
    var got := Decode(d, x.apiVersion, x, b);
    return Some(got);
  }
}
