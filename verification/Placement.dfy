/** The brokers a leader knows (jocko/broker_lookup.go) and how the replicas of a new topic are
    placed on them (Broker.buildPartitions in jocko/broker.go). */
module Placement {
  import opened Bytes
  import opened StoreSpec

  datatype Broker = Broker(id: int32, raftAddr: bytes)

  ghost predicate Distinct<T(!new)>(s: seq<T>) {
    forall i, j :: 0 <= i < j < |s| ==> s[i] != s[j]
  }

  // ---- the broker lookup ------------------------------------------------------------------------

  type Addresses = map<bytes, Broker>

  /** No two addresses hold the same broker id. */
  ghost predicate IdsDistinct(m: Addresses) {
    forall a, b :: a in m && b in m && m[a].id == m[b].id ==> a == b
  }

  class BrokerLookup {
    var addressToBroker: Addresses
    var idToBroker: map<int32, Broker>
    ghost var events: seq<Member>  // every join and leave so far

    /** What is known by address is what the joins and leaves amount to. */
    ghost predicate Valid()
      reads this
    {
      addressToBroker == Membership(events)
    }

    constructor ()
      ensures Valid() && addressToBroker == map[] && idToBroker == map[] && events == []
    {
      addressToBroker, idToBroker, events := map[], map[], [];
    }

    /** Ids stay distinct exactly if the broker is not already known under another address. */
    method AddBroker(b: Broker)
      requires Valid()
      modifies this
      ensures Valid() && events == old(events) + [Joined(b)]
      ensures addressToBroker == old(addressToBroker)[b.raftAddr := b]
      ensures idToBroker == old(idToBroker)[b.id := b]
      ensures old(IdsDistinct(addressToBroker)) ==>
                (IdsDistinct(addressToBroker) <==>
                 forall a :: a in old(addressToBroker) && a != b.raftAddr ==> old(addressToBroker[a]).id != b.id)
    {
      addressToBroker := addressToBroker[b.raftAddr := b];
      idToBroker := idToBroker[b.id := b];
      events := events + [Joined(b)];
      assert events[..|events| - 1] == old(events);
      ghost var m := old(addressToBroker);
      if a :| a in m && a != b.raftAddr && m[a].id == b.id {
        assert a in addressToBroker && b.raftAddr in addressToBroker;
        assert !IdsDistinct(addressToBroker);
      }
    }

    method RemoveBroker(b: Broker)
      requires Valid()
      modifies this
      ensures Valid() && events == old(events) + [Gone(b)]
      ensures addressToBroker == old(addressToBroker) - {b.raftAddr}
      ensures idToBroker == old(idToBroker) - {b.id}
      ensures old(IdsDistinct(addressToBroker)) ==> IdsDistinct(addressToBroker)
    {
      addressToBroker := addressToBroker - {b.raftAddr};
      idToBroker := idToBroker - {b.id};
      events := events + [Gone(b)];
      assert events[..|events| - 1] == old(events);
    }

    /** All brokers, in any order; no two share an id exactly if no two addresses do. */
    method Brokers() returns (brokers: seq<Broker>)
      ensures forall b :: b in brokers <==> exists a :: a in addressToBroker && addressToBroker[a] == b
      ensures |brokers| == |addressToBroker|
      ensures Distinct(Ids(brokers)) <==> IdsDistinct(addressToBroker)
    {
      var addrs := Order(addressToBroker.Keys);
      brokers := [];
      for n := 0 to |addrs|
        invariant |brokers| == n && forall i :: 0 <= i < n ==> brokers[i] == addressToBroker[addrs[i]]
      {
        brokers := brokers + [addressToBroker[addrs[n]]];
      }
      forall a | a in addressToBroker ensures addressToBroker[a] in brokers {
        var i :| 0 <= i < |addrs| && addrs[i] == a;
        assert brokers[i] == addressToBroker[a];
      }
      IdsOfOrder(addressToBroker, addrs, brokers);
    }
  }

  function Ids(brokers: seq<Broker>): (ids: seq<int32>)
    ensures |ids| == |brokers| && forall i :: 0 <= i < |ids| ==> ids[i] == brokers[i].id
  {
    seq(|brokers|, i requires 0 <= i < |brokers| => brokers[i].id)
  }

  lemma IdsOfOrder(m: Addresses, addrs: seq<bytes>, brokers: seq<Broker>)
    requires Distinct(addrs) && |brokers| == |addrs| && (forall a :: a in addrs <==> a in m)
    requires forall i :: 0 <= i < |addrs| ==> brokers[i] == m[addrs[i]]
    ensures Distinct(Ids(brokers)) <==> IdsDistinct(m)
  {
    var ids := Ids(brokers);
    if IdsDistinct(m) {
      forall i, j | 0 <= i < j < |ids| ensures ids[i] != ids[j] {
        assert m[addrs[i]].id == ids[i] && m[addrs[j]].id == ids[j];
      }
    }
    if Distinct(ids) {
      forall a, b | a in m && b in m && m[a].id == m[b].id ensures a == b {
        var i :| 0 <= i < |addrs| && addrs[i] == a;
        var j :| 0 <= j < |addrs| && addrs[j] == b;
        assert ids[i] == ids[j];
      }
    }
  }

  /** The iteration order of a Go map. */
  method Order(keys: set<bytes>) returns (s: seq<bytes>)
    ensures Distinct(s) && |s| == |keys| && forall a :: a in s <==> a in keys
  {
    var rest := keys;
    s := [];
    while rest != {}
      invariant rest <= keys && Distinct(s) && |s| + |rest| == |keys|
      invariant forall a :: a in keys <==> a in s || a in rest
      invariant forall a :: a in s ==> a !in rest
      decreases |rest|
    {
      var a :| a in rest;
      s, rest := s + [a], rest - {a};
    }
  }

  datatype Member = Joined(broker: Broker) | Gone(broker: Broker)

  function Membership(events: seq<Member>): (m: Addresses) {
    if events == [] then map[] else
      var m := Membership(events[..|events| - 1]);
      match events[|events| - 1]
      case Joined(b) => m[b.raftAddr := b]
      case Gone(b) => m - {b.raftAddr}
  }

  ghost predicate OneAddressEach(events: seq<Member>) {
    forall i, j :: 0 <= i < |events| && 0 <= j < |events| && events[i].broker.id == events[j].broker.id ==>
                     events[i].broker.raftAddr == events[j].broker.raftAddr
  }

  /** While every broker keeps one address, ids stay distinct whatever joins and leaves. */
  lemma {:induction false} FixedAddressesDistinct(events: seq<Member>)
    requires OneAddressEach(events)
    ensures IdsDistinct(Membership(events))
  {
    forall a | a in Membership(events)
      ensures exists i :: 0 <= i < |events| && events[i].broker == Membership(events)[a]
                && events[i].broker.raftAddr == a
    {
      MemberOrigin(events, a);
    }
  }

  lemma {:induction false} MemberOrigin(events: seq<Member>, a: bytes)
    requires a in Membership(events)
    ensures exists i :: 0 <= i < |events| && events[i].broker == Membership(events)[a] && events[i].broker.raftAddr == a
  {
    var n := |events| - 1;
    if a in Membership(events[..n]) && Membership(events[..n])[a] == Membership(events)[a] {
      MemberOrigin(events[..n], a);
      var i :| 0 <= i < n && events[..n][i].broker == Membership(events)[a] && events[..n][i].broker.raftAddr == a;
      assert events[i] == events[..n][i];
    } else {
      assert events[n].broker == Membership(events)[a] && events[n].broker.raftAddr == a;
    }
  }

  // ---- placement --------------------------------------------------------------------------------

  datatype Placing = Placed(partitions: seq<Partition>) | InvalidReplicationFactor | Panics

  /** Go's 16-bit subtraction: -32768 - 1 is 32767. */
  function Wrap16(v: int): (r: int16) {
    (v + 0x8000) % 0x1_0000 - 0x8000
  }

  /** How many replicas a partition gets: the leader, and one for each round of a loop that counts
      to one below the factor. */
  function Replicas(factor: int16): (n: nat)
    ensures n >= 1
  {
    if Wrap16(factor - 1) < 0 then 1 else 1 + Wrap16(factor - 1)
  }

  /** That is as many as asked for, and at least one, for every factor but the lowest. */
  lemma ReplicasExact(factor: int16)
    ensures Replicas(factor) == (if factor < 1 then 1 else factor) <==> factor != -0x8000
    ensures factor == -0x8000 ==> Replicas(factor) == 0x8000
  {}

  /** Brokers with distinct ids, and enough of them: what it takes for distinct replicas. */
  ghost predicate Spread(ids: seq<int32>, factor: int16) {
    Distinct(ids) && Replicas(factor) <= |ids|
  }

  /** Partition `i` of the topic: its replicas are brokers, the leader is the first of them, and all
      are in sync; on brokers with distinct ids they are distinct exactly if there are enough. */
  ghost predicate WellPlaced(ids: seq<int32>, topic: bytes, i: int, factor: int16, p: Partition) {
    && p.topic == topic && p.id == i && p.partition == i
    && |p.ar| == Replicas(factor) && p.isr == p.ar
    && p.leader == p.ar[0]
    && (forall r :: r in p.ar ==> r in ids)
    && (Distinct(ids) ==> (Distinct(p.ar) <==> Replicas(factor) <= |ids|))
  }

  /** At most as many replicas as brokers were checked for, so with distinct ids a partition repeats
      a broker exactly for the lowest factor on fewer than 32768 brokers. */
  lemma PlacedApart(ids: seq<int32>, topic: bytes, i: int, factor: int16, p: Partition)
    requires WellPlaced(ids, topic, i, factor, p) && Distinct(ids) && ids != [] && factor <= |ids|
    ensures Distinct(p.ar) <==> factor != -0x8000 || |ids| >= 0x8000
  {
    ReplicasExact(factor);
  }

  /** On a single broker the lowest factor puts it in every one of 32768 places. */
  lemma LowestFactorRepeats(id: int32, topic: bytes, p: Partition)
    requires WellPlaced([id], topic, 0, -0x8000, p)
    ensures |p.ar| == 0x8000 && (forall i :: 0 <= i < |p.ar| ==> p.ar[i] == id) && !Distinct(p.ar)
  {
    ReplicasExact(-0x8000);
    forall i | 0 <= i < |p.ar| ensures p.ar[i] == id {
      assert p.ar[i] in p.ar;
    }
    assert p.ar[0] == p.ar[1];
  }

  /** The place `k` steps on from `at` in a ring. */
  function Around(count: nat, at: nat, k: nat): (r: nat)
    requires at < count
    ensures r < count
    decreases k
  {
    if k == 0 then at else
      var r := Around(count, at, k - 1);
      if r + 1 == count then 0 else r + 1
  }

  lemma AroundNext(count: nat, at: nat, k: nat)
    requires at < count
    ensures Around(count, at, 0) == at
    ensures var r := Around(count, at, k); Around(count, at, k + 1) == if r + 1 == count then 0 else r + 1
  {}

  lemma {:induction false} AroundOnce(count: nat, at: nat, k: nat)
    requires at < count && k <= count
    ensures Around(count, at, k) == if at + k < count then at + k else at + k - count
  {
    if k > 0 {
      AroundOnce(count, at, k - 1);
    }
  }

  ghost predicate Walked(ids: seq<int32>, start: nat, replicas: seq<int32>)
    requires start < |ids|
  {
    forall j :: 0 <= j < |replicas| ==> replicas[j] == ids[Around(|ids|, start, j)]
  }

  /** Brokers that follow one another around the ring. */
  ghost predicate OnRing(ids: seq<int32>, replicas: seq<int32>) {
    exists start: nat :: start < |ids| && Walked(ids, start, replicas)
  }

  lemma PlacedHere(ids: seq<int32>, topic: bytes, i: int32, factor: int16, start: nat, replicas: seq<int32>)
    requires start < |ids| && Walked(ids, start, replicas) && |replicas| == Replicas(factor)
    requires Distinct(ids) ==> (Distinct(replicas) <==> Replicas(factor) <= |ids|)
    ensures WellPlaced(ids, topic, i, factor, Partition(i, i, topic, replicas, replicas, replicas[0]))
  {
    hide Distinct, Around;
  }

  /** One walk around the ring from `start`: the replicas of one partition. A walk of fewer steps
      than the ring has places meets no place twice; a longer one comes back to its start. */
  method Pick(ids: seq<int32>, start: nat, factor: int16) returns (replicas: seq<int32>, at: nat)
    requires start < |ids|
    ensures |replicas| == Replicas(factor) && at < |ids|
    ensures replicas[0] == ids[start]
    ensures Walked(ids, start, replicas)
    ensures Distinct(ids) ==> (Distinct(replicas) <==> Replicas(factor) <= |ids|)
  {
    WalkNext(ids, start, []);
    hide Wrap16, Distinct, Around, Walked;
    replicas, at := [ids[start]], start;
    var i := 0;
    while i < Wrap16(factor - 1)
      invariant 0 <= i && |replicas| == i + 1 <= Replicas(factor)
      invariant at == Around(|ids|, start, i) && Walked(ids, start, replicas) && replicas[0] == ids[start]
    {
      AroundNext(|ids|, start, i);
      WalkNext(ids, start, replicas);
      at := if at + 1 == |ids| then 0 else at + 1;
      replicas := replicas + [ids[at]];
      i := i + 1;
    }
    if Distinct(ids) {
      WalkDistinct(ids, start, replicas);
    }
  }

  lemma WalkNext(ids: seq<int32>, start: nat, replicas: seq<int32>)
    requires start < |ids| && Walked(ids, start, replicas)
    ensures Walked(ids, start, replicas + [ids[Around(|ids|, start, |replicas|)]])
    ensures Around(|ids|, start, 0) == start
  {
    hide Around;
    AroundNext(|ids|, start, 0);
  }

  lemma WalkDistinct(ids: seq<int32>, start: nat, replicas: seq<int32>)
    requires start < |ids| && Distinct(ids) && Walked(ids, start, replicas)
    ensures Distinct(replicas) <==> |replicas| <= |ids|
  {
    if |replicas| <= |ids| {
      forall j, k | 0 <= j < k < |replicas| ensures replicas[j] != replicas[k] {
        AroundOnce(|ids|, start, j);
        AroundOnce(|ids|, start, k);
      }
    } else {
      AroundOnce(|ids|, start, |ids|);
      assert replicas[0] == replicas[|ids|];
    }
  }

  /** Where on the ring a partition starts is drawn by rand.Intn, which panics on an empty ring. */
  method BuildPartitions(ids: seq<int32>, topic: bytes, partitionsCount: int32, factor: int16) returns (r: Placing)
    ensures r.InvalidReplicationFactor? <==> factor > |ids|
    ensures r.Panics? <==> factor <= |ids| && ids == [] && partitionsCount > 0
    ensures r.Placed? ==>
              && |r.partitions| == (if partitionsCount < 0 then 0 else partitionsCount)
              && forall i :: 0 <= i < |r.partitions| ==> WellPlaced(ids, topic, i, factor, r.partitions[i])
    ensures r.Placed? ==> forall i :: 0 <= i < |r.partitions| ==> OnRing(ids, r.partitions[i].ar)
  {
    hide WellPlaced, Walked;
    if factor > |ids| {
      return InvalidReplicationFactor;
    }
    if |ids| == 0 {
      return if partitionsCount > 0 then Panics else Placed([]);
    }
    var partitions: seq<Partition> := [];
    var at: nat, i := 0, 0;
    while i < partitionsCount
      invariant 0 <= i && |partitions| == i && at < |ids|
      invariant partitionsCount >= 0 ==> i <= partitionsCount
      invariant partitionsCount < 0 ==> i == 0
      invariant forall j :: 0 <= j < i ==> WellPlaced(ids, topic, j, factor, partitions[j])
      invariant forall j :: 0 <= j < i ==> OnRing(ids, partitions[j].ar)
    {
      var moved: nat :| moved < |ids|;
      var replicas;
      var start := Around(|ids|, at, moved);
      replicas, at := Pick(ids, start, factor);
      PlacedHere(ids, topic, i, factor, start, replicas);
      partitions := partitions + [Partition(i, i, topic, replicas, replicas, replicas[0])];
      i := i + 1;
    }
    r := Placed(partitions);
  }

  /** Placing a topic on the brokers that are known. If each of them kept one address through every
      join and leave so far, no partition has a broker twice, but for the lowest factor. */
  method PlaceTopic(lookup: BrokerLookup, topic: bytes, partitionsCount: int32, factor: int16)
    returns (r: Placing, ids: seq<int32>)
    requires lookup.Valid()
    ensures |ids| == |lookup.addressToBroker|
    ensures forall id :: id in ids <==> exists a :: a in lookup.addressToBroker && lookup.addressToBroker[a].id == id
    ensures OneAddressEach(lookup.events) ==> Distinct(ids)
    ensures r.InvalidReplicationFactor? <==> factor > |ids|
    ensures r.Panics? <==> factor <= |ids| && ids == [] && partitionsCount > 0
    ensures r.Placed? ==>
              && |r.partitions| == (if partitionsCount < 0 then 0 else partitionsCount)
              && forall i :: 0 <= i < |r.partitions| ==>
                   && WellPlaced(ids, topic, i, factor, r.partitions[i]) && OnRing(ids, r.partitions[i].ar)
                   && (OneAddressEach(lookup.events) ==>
                         (Distinct(r.partitions[i].ar) <==> factor != -0x8000 || |ids| >= 0x8000))
  {
    hide OneAddressEach, WellPlaced, OnRing, Distinct, Membership, IdsDistinct;
    var brokers := lookup.Brokers();
    ids := Ids(brokers);
    forall id ensures id in ids <==> exists a :: a in lookup.addressToBroker && lookup.addressToBroker[a].id == id {
      IdsFrom(lookup.addressToBroker, brokers, id);
    }
    if OneAddressEach(lookup.events) {
      FixedAddressesDistinct(lookup.events);
    }
    r := BuildPartitions(ids, topic, partitionsCount, factor);
    if r.Placed? && OneAddressEach(lookup.events) {
      forall i | 0 <= i < |r.partitions|
        ensures Distinct(r.partitions[i].ar) <==> factor != -0x8000 || |ids| >= 0x8000
      {
        PlacedApart(ids, topic, i, factor, r.partitions[i]);
      }
    }
  }

  lemma IdsFrom(m: Addresses, brokers: seq<Broker>, id: int32)
    requires forall b :: b in brokers <==> exists a :: a in m && m[a] == b
    ensures id in Ids(brokers) <==> exists a :: a in m && m[a].id == id
  {
    var ids := Ids(brokers);
    if id in ids {
      var i :| 0 <= i < |ids| && ids[i] == id;
      assert brokers[i] in brokers;
    }
    if a :| a in m && m[a].id == id {
      assert m[a] in brokers;
      var i :| 0 <= i < |brokers| && brokers[i] == m[a];
      assert ids[i] == id;
    }
  }
}
