/** The leader's side of the Raft log: what creating a topic and the joining, failing and leaving
    of members do to the store (createTopic in jocko/broker.go; jocko/leader.go). */
module Controllers {
  import opened Basics
  import opened Bytes
  import opened Tables
  import opened StoreSpec
  import opened Stores
  import opened Placement
  import opened Failover

  ghost predicate AllIssued(distinct: bool, lower: Lower, log: seq<LogEntry>) {
    forall i :: 0 <= i < |log| ==> Issued(distinct, lower, log, i)
  }

  /** Only the last entry of a longer log is in question. */
  lemma IssuedNext(distinct: bool, lower: Lower, log: seq<LogEntry>, e: LogEntry)
    requires AllIssued(distinct, lower, log) && Issued(distinct, lower, log + [e], |log|)
    ensures AllIssued(distinct, lower, log + [e])
  {
    forall i | 0 <= i < |log| ensures Issued(distinct, lower, log + [e], i) {
      IssuedLonger(distinct, lower, log, e, i);
    }
  }

  lemma IssuedLonger(distinct: bool, lower: Lower, log: seq<LogEntry>, e: LogEntry, i: int)
    requires 0 <= i < |log| && Issued(distinct, lower, log, i)
    ensures Issued(distinct, lower, log + [e], i)
  {
    hide Replay, Reassigned, WellPlaced, Distinct;
    forall j, pk, f, leader, p | 0 <= j <= i && ReadAt(lower, log, j, pk, f, leader, p)
      ensures ReadAt(lower, log + [e], j, pk, f, leader, p)
    {
      assert (log + [e])[..j] == log[..j];
    }
  }

  /** Rows are filed under their topic and number, and no topic is nameless. */
  lemma {:induction false} RowsNamed(lower: Lower, log: seq<LogEntry>, pk: PartitionKey)
    requires pk in Replay(lower, log).partitions.rows
    ensures var p := Replay(lower, log).partitions.rows[pk].value;
            pk == (p.topic, p.partition) && p.topic != []
  {
    var n := |log| - 1;
    if pk in Replay(lower, log[..n]).partitions.rows {
      RowsNamed(lower, log[..n], pk);
    }
  }

  // ---- what a failover does to the partitions -----------------------------------------------------

  /** The partitions in `done` have a leader from `passing` and lost broker `f`; nothing else
      changed. */
  ghost predicate Moved(before: Partitions, after: Partitions, f: int32, passing: set<int32>, done: seq<Partition>) {
    && (forall pk :: pk in after <==> pk in before)
    && (forall pk :: pk in before && before[pk].value !in done ==> after[pk] == before[pk])
    && forall pk :: pk in before && before[pk].value in done ==>
         MovedRow(before[pk], after[pk], f, passing)
  }

  ghost predicate MovedRow(was: Row<Partition>, now: Row<Partition>, f: int32, passing: set<int32>) {
    && now.value.leader in passing
    && now.value == Reassigned(was.value, f, now.value.leader)
    && now.createIndex == was.createIndex
  }

  ghost predicate Named(rows: Partitions) {
    forall pk :: pk in rows ==> pk == (rows[pk].value.topic, rows[pk].value.partition)
  }

  lemma KeysNamed(rows: Partitions, idx: LeaderIndex)
    requires InSync(rows, idx)
    ensures Named(rows)
  {}

  /** Registering one more of the read partitions. */
  lemma MovedNext(before: Partitions, was: Partitions, now: Partitions, f: int32, passing: set<int32>,
                  done: seq<Partition>, p: Partition, row: Row<Partition>)
    requires Moved(before, was, f, passing, done) && p !in done
    requires Named(before)
    requires var pk := (p.topic, p.partition);
             && pk in before && before[pk].value == p
             && now == was[pk := row] && MovedRow(before[pk], row, f, passing)
    ensures Moved(before, now, f, passing, done + [p])
  {
    hide MovedRow;
  }

  /** After a failover the failed broker leads nothing and is no replica of what it led. */
  lemma FailedLeadsNothing(before: Partitions, after: Partitions, f: int32, passing: set<int32>, done: seq<Partition>)
    requires Moved(before, after, f, passing, done) && LedBy(before, f, done) && f !in passing
    ensures forall pk :: pk in after ==> after[pk].value.leader != f
    ensures forall pk :: pk in after && before[pk].value.leader == f ==>
                           f !in after[pk].value.ar && f !in after[pk].value.isr
  {}

  /** The new leader is sure to be a replica, whichever node is drawn, exactly if every passing
      node already is one. */
  lemma NewLeaderIsReplica(p: Partition, f: int32, passing: set<int32>)
    requires f !in passing
    ensures (forall l :: l in passing ==> l in Reassigned(p, f, l).ar) <==> passing <= set r | r in p.ar
  {
    if !(passing <= set r | r in p.ar) {
      var l :| l in passing && l !in p.ar;
      assert l !in Reassigned(p, f, l).ar;
    } else {
      forall l | l in passing ensures l in Reassigned(p, f, l).ar {}
    }
  }

  /** So a partition with one replica never keeps its leader among its replicas. */
  lemma SoleReplicaLost(p: Partition, l: int32)
    requires p.ar == [p.leader]
    ensures Reassigned(p, p.leader, l).ar == [] && l !in Reassigned(p, p.leader, l).ar
  {
    assert Without(p.ar[..0], p.leader) == [];
  }

  // ---- the leader -----------------------------------------------------------------------------------

  /** The nodes that may take over from `f`: passing, and with an id other than `f`. */
  function Candidates(nodes: map<int32, Row<Node>>, f: int32): (s: set<int32>) {
    set k | k in nodes && nodes[k].value.status == PASSING && nodes[k].value.id != f
  }

  /** Nodes are registered without their id, which stays zero. */
  ghost predicate NodesPlain(nodes: map<int32, Row<Node>>) {
    forall k :: k in nodes ==> nodes[k].value.node == k && nodes[k].value.id == 0
  }

  /** So broker 0 is never replaced: no node's id differs from its own. */
  lemma NoCandidatesForZero(nodes: map<int32, Row<Node>>, f: int32)
    requires NodesPlain(nodes)
    ensures Candidates(nodes, f) == if f == 0 then {} else set k | k in nodes && nodes[k].value.status == PASSING
  {}

  class Controller {
    const store: Store
    ghost var log: seq<LogEntry>
    var last: nat  // the last Raft index
    ghost var distinct: bool  // topics were only placed on enough brokers with distinct ids

    ghost predicate Valid()
      reads this, store
    {
      && store.Valid()
      && store.Abs() == Replay(store.lower, log)
      && StoreSpec.Ordered(log) && (forall i :: 0 <= i < |log| ==> log[i].index <= last)
      && AllIssued(distinct, store.lower, log)
      && NodesPlain(store.nodes)
    }

    constructor (lower: Lower)
      ensures Valid() && fresh(store) && log == [] && distinct
    {
      var s := new Store(lower);
      store := s;
      log, last, distinct := [], 0, true;
    }

    /** So every partition is sound in every state the leader can reach. */
    lemma PartitionsSound()
      requires Valid()
      ensures AllSound(distinct, store.partitions)
    {
      EveryRunSound(distinct, store.lower, log);
    }

    /** The Raft log gives the command an index above all earlier ones; other entries may take
        some in between. The error that the store reports is not looked at. */
    method RaftApply(c: Command)
      requires Valid()
      requires c.RegisterNode? ==> c.node.id == 0
      requires forall i: nat :: Issued(distinct, store.lower, log + [LogEntry(i, c)], |log|)
      modifies this, store
      ensures Valid() && last > old(last) && distinct == old(distinct)
      ensures log == old(log) + [LogEntry(last, c)]
      ensures store.Abs() == Step(store.lower, old(store.Abs()), LogEntry(last, c))
    {
      hide Replay, Issued, Step, AllIssued, InSync;
      var i: nat :| i > last;
      var e := LogEntry(i, c);
      IssuedNext(distinct, store.lower, log, e);
      ReplayNext(store.lower, log, e);
      PlainNext(store.lower, store.Abs(), e);
      store.Apply(e);
      log, last := log + [e], i;
    }

    /** A member that is alive and could join the Raft cluster is registered as passing, unless it has
        a row already: a failed broker that comes back stays critical. False is a panic, on a member
        that is no broker and so has no id. */
    method HandleAlive(member: Option<(int32, bytes)>, joined: bool) returns (ok: bool)
      requires Valid()
      modifies this, store
      ensures Valid() && distinct == old(distinct) && store.partitions == old(store.partitions)
      ensures store.topics == old(store.topics) && store.groups == old(store.groups)
      ensures ok <==> member.Some?
      ensures member.None? || !joined || member.value.0 in old(store.nodes) ==> store.nodes == old(store.nodes)
      ensures member.Some? && joined && member.value.0 !in old(store.nodes) ==>
                store.nodes == old(store.nodes)[
                  member.value.0 := Row(Node(0, member.value.0, member.value.1, PASSING), last, last)]
    {
      hide Replay, Issued, Step, AllIssued, InSync;
      if member.None? {
        return false;
      }
      if !joined {
        return true;
      }
      var id, address := member.value.0, member.value.1;
      if id in store.nodes {
        return true;
      }
      NotAPartition(distinct, store.lower, log, RegisterNode(Node(0, id, address, PASSING)));
      ghost var s := store.Abs();
      RaftApply(RegisterNode(Node(0, id, address, PASSING)));
      NodeEffect(store.lower, s, last, Node(0, id, address, PASSING));
      return true;
    }

    /** A member that left or was reaped loses its row, unless it is no broker, is the leader itself
        or could not be removed from the Raft cluster. */
    method HandleDeregister(self: int32, member: Option<int32>, removed: bool)
      requires Valid()
      modifies this, store
      ensures Valid() && distinct == old(distinct) && store.partitions == old(store.partitions)
      ensures store.topics == old(store.topics) && store.groups == old(store.groups)
      ensures store.nodes == if member.None? || member.value == self || !removed then old(store.nodes)
                             else old(store.nodes) - {member.value}
    {
      hide Replay, Issued, AllIssued, InSync;
      if member.None? || member.value == self || !removed || member.value !in store.nodes {
        return;
      }
      NotAPartition(distinct, store.lower, log, DeregisterNode(member.value));
      RaftApply(DeregisterNode(member.value));
    }

    /** Registers one partition of a failed broker under a new leader. The row was read when the log
        had `at` entries. */
    method Reassign(p: Partition, f: int32, leader: int32, ghost at: nat)
      requires Valid() && at <= |log|
      requires var pk := (p.topic, p.partition);
               && pk in Replay(store.lower, log[..at]).partitions.rows
               && Replay(store.lower, log[..at]).partitions.rows[pk].value == p
               && pk in store.partitions
      modifies this, store
      ensures Valid() && distinct == old(distinct) && store.nodes == old(store.nodes)
      ensures store.topics == old(store.topics)
      ensures |log| > |old(log)| && log[..|old(log)|] == old(log)
      ensures var pk := (p.topic, p.partition);
              store.partitions == old(store.partitions)[
                pk := Row(Reassigned(p, f, leader), old(store.partitions[pk]).createIndex, last)]
      ensures var q := Reassigned(p, f, leader);
              && q.topic == p.topic && q.partition == p.partition && q.id == p.partition && q.leader == leader
              && Subsequence(q.ar, p.ar) && multiset(q.ar) == multiset(p.ar)[f := 0]
              && Subsequence(q.isr, p.isr) && multiset(q.isr) == multiset(p.isr)[f := 0]
    {
      hide Replay, Issued, Step, AllIssued, InSync, NodesPlain, Without, Subsequence;
      ReassignedKeeps(p, f, leader);
      var ar := Drop(p.ar, f);
      var isr := Drop(p.isr, f);
      var q := Partition(p.partition, p.partition, p.topic, isr, ar, leader);
      assert q == Reassigned(p, f, leader);
      ReadEarlier(distinct, store.lower, log, at, p, f, leader);
      RowsNamed(store.lower, log[..at], (p.topic, p.partition));
      ghost var s := store.Abs();
      RaftApply(RegisterPartition(q));
      PartitionEffect(store.lower, s, last, q);
    }

    ghost predicate ReadFrom(rows: Partitions, at: nat)
      reads this, store
    {
      at <= |log| && Replay(store.lower, log[..at]).partitions.rows == rows
    }

    method MarkFailed(f: int32)
      requires Valid()
      modifies this, store
      ensures Valid() && distinct == old(distinct) && store.topics == old(store.topics)
      ensures store.partitions == old(store.partitions) && ReadFrom(store.partitions, |log|)
      ensures f in store.nodes && store.nodes[f].value == Node(0, f, [], CRITICAL)
      ensures store.nodes - {f} == old(store.nodes) - {f}
    {
      hide Replay, Issued, Step, AllIssued, InSync;
      NotAPartition(distinct, store.lower, log, RegisterNode(Node(0, f, [], CRITICAL)));
      ghost var s := store.Abs();
      RaftApply(RegisterNode(Node(0, f, [], CRITICAL)));
      NodeEffect(store.lower, s, last, Node(0, f, [], CRITICAL));
      assert log[..|log|] == log;
    }

    /** Draws a new leader for each of the partitions that the failed broker led. */
    method TakeOver(f: int32, partitions: seq<Partition>) returns (ok: bool)
      requires Valid() && ReadFrom(store.partitions, |log|) && LedBy(store.partitions, f, partitions)
      modifies this, store
      ensures Valid() && distinct == old(distinct) && store.nodes == old(store.nodes)
      ensures store.topics == old(store.topics)
      ensures ok <==> Candidates(store.nodes, f) != {} || partitions == []
      ensures ok ==> Moved(old(store.partitions), store.partitions, f, Candidates(store.nodes, f), partitions)
      ensures !ok ==> store.partitions == old(store.partitions)
    {
      hide Replay, Issued, Step, AllIssued, InSync, NodesPlain, Moved, LedBy, Candidates, Without;
      ghost var at := |log|;
      ghost var before := store.partitions;
      KeysNamed(before, store.leaders);
      var passing := Candidates(store.nodes, f);
      MovedNone(before, f, passing);
      for i := 0 to |partitions|
        invariant Valid() && distinct == old(distinct) && store.nodes == old(store.nodes) && ReadFrom(before, at)
        invariant store.topics == old(store.topics)
        invariant Moved(before, store.partitions, f, passing, partitions[..i])
        invariant i > 0 ==> passing != {}
        invariant i == 0 ==> store.partitions == before
      {
        if passing == {} {
          return false;
        }
        var node :| node in passing;
        var p := partitions[i];
        LedRow(before, store.partitions, f, passing, partitions, i);
        ghost var was, soFar := store.partitions, log;
        Reassign(p, f, node, at);
        assert log[..at] == soFar[..at] by {
          assert log[..|soFar|][..at] == log[..at];
        }
        ghost var row := store.partitions[(p.topic, p.partition)];
        MovedNext(before, was, store.partitions, f, passing, partitions[..i], p, row);
        TakeNext(partitions, i);
      }
      assert partitions[..|partitions|] == partitions;
      ok := true;
    }

    /** Every partition the failed broker led gets a passing leader and loses the broker as a
        replica; all other rows stay. With nobody to take over, drawing a node panics. */
    method HandleFailed(f: int32) returns (ok: bool, ghost led: seq<Partition>)
      requires Valid()
      modifies this, store
      ensures Valid() && distinct == old(distinct) && store.topics == old(store.topics)
      ensures f in store.nodes && store.nodes[f].value == Node(0, f, [], CRITICAL)
      ensures store.nodes - {f} == old(store.nodes) - {f}
      ensures LedBy(old(store.partitions), f, led)
      ensures ok <==> Candidates(store.nodes, f) != {} || led == []
      ensures ok ==> Moved(old(store.partitions), store.partitions, f, Candidates(store.nodes, f), led)
      ensures ok ==> forall pk :: pk in store.partitions ==> store.partitions[pk].value.leader != f
      ensures ok ==> store.partitions.Keys == old(store.partitions).Keys
      ensures ok ==> forall pk :: pk in old(store.partitions) && old(store.partitions)[pk].value.leader != f ==>
                       store.partitions[pk] == old(store.partitions)[pk]
      ensures ok ==> forall pk :: pk in old(store.partitions) && old(store.partitions)[pk].value.leader == f ==>
                       var was, now := old(store.partitions)[pk].value, store.partitions[pk].value;
                       && now.leader in store.nodes && store.nodes[now.leader].value.status == PASSING
                       && now.topic == was.topic && now.partition == was.partition && now.id == was.id
                       && Subsequence(now.ar, was.ar) && multiset(now.ar) == multiset(was.ar)[f := 0]
                       && Subsequence(now.isr, was.isr) && multiset(now.isr) == multiset(was.isr)[f := 0]
      ensures !ok ==> store.partitions == old(store.partitions)
    {
      hide Replay, Issued, Step, AllIssued, InSync, NodesPlain, LedBy, Moved, AllSound, Subsequence;
      PartitionsSound();
      MarkFailed(f);
      var idx, partitions := store.PartitionsByLeader(f);
      led := partitions;
      ok := TakeOver(f, partitions);
      if ok {
        FailedLeadsNothing(old(store.partitions), store.partitions, f, Candidates(store.nodes, f), led);
        LedMoved(distinct, old(store.partitions), store.partitions, f, store.nodes, led);
      }
    }

    /** Registers the partitions of a new topic, one command each. A topic without a name has no
        key, so none of its partitions is stored. */
    method RegisterAll(ids: seq<int32>, name: bytes, factor: int16, ps: seq<Partition>)
      requires Valid() && |ps| <= MAX_INT32 && (distinct && ps != [] ==> Spread(ids, factor))
      requires forall i :: 0 <= i < |ps| ==> WellPlaced(ids, name, i, factor, ps[i])
      modifies this, store
      ensures Valid() && distinct == old(distinct)
      ensures store.nodes == old(store.nodes) && store.topics == old(store.topics) && store.groups == old(store.groups)
      ensures name == [] ==> store.Abs() == old(store.Abs())
      ensures name != [] ==> Registered(old(store.partitions), store.partitions, name, ps)
    {
      hide Replay, Issued, Step, AllIssued, InSync, NodesPlain, WellPlaced, Spread, Registered;
      RegisteredNone(store.partitions, name);
      for i := 0 to |ps|
        invariant Valid() && distinct == old(distinct)
        invariant store.nodes == old(store.nodes) && store.topics == old(store.topics)
        invariant store.groups == old(store.groups)
        invariant name == [] ==> store.Abs() == old(store.Abs())
        invariant name != [] ==> Registered(old(store.partitions), store.partitions, name, ps[..i])
      {
        FreshlyPlaced(distinct, store.lower, log, ids, name, i, factor, ps[i]);
        ghost var s := store.Abs();
        RaftApply(RegisterPartition(ps[i]));
        assert ps[i].topic == name && ps[i].partition == i by {
          PlacedAt(ids, name, i, factor, ps[i]);
        }
        if name != [] {
          PartitionEffect(store.lower, s, last, ps[i]);
          RegisteredNext(old(store.partitions), s.partitions.rows, store.partitions, name, ps, i);
        } else {
          NamelessEffect(store.lower, s, last, ps[i]);
        }
      }
      assert ps[..|ps|] == ps;
    }

    method RegisterPlaced(ids: seq<int32>, name: bytes, factor: int16, ps: seq<Partition>)
      requires Valid() && store.lower(name) !in store.topics && |ps| <= MAX_INT32
      requires forall i :: 0 <= i < |ps| ==> WellPlaced(ids, name, i, factor, ps[i])
      modifies this, store
      ensures Valid() && store.nodes == old(store.nodes) && store.groups == old(store.groups)
      ensures distinct == (old(distinct) && (ps != [] ==> Spread(ids, factor)))
      ensures name == [] ==> store.Abs() == old(store.Abs())
      ensures name != [] ==> Registered(old(store.partitions), store.partitions, name, ps)
      ensures name != [] ==> TopicAdded(store.lower, old(store.topics), store.topics, TopicOf(name, ps))
    {
      hide Replay, Issued, Step, AllIssued, InSync, NodesPlain, WellPlaced, Spread, Registered;
      Weaken(distinct, store.lower, log);
      distinct := distinct && (ps != [] ==> Spread(ids, factor));
      AllPlacedAt(ids, name, factor, ps);
      var t := TopicRow(name, ps);
      NotAPartition(distinct, store.lower, log, RegisterTopic(t));
      ghost var s := store.Abs();
      RaftApply(RegisterTopic(t));
      TopicEffect(store.lower, s, last, t);
      RegisterAll(ids, name, factor, ps);
    }

    /** Creates a topic on the brokers that are known. What can be refused is refused before anything
        is registered. */
    method CreateTopic(lookup: BrokerLookup, name: bytes, n: int32, factor: int16)
      returns (r: Creating, ghost ids: seq<int32>)
      requires Valid() && lookup.Valid()
      modifies this, store
      ensures Valid() && lookup.events == old(lookup.events)
      ensures store.nodes == old(store.nodes) && store.groups == old(store.groups)
      ensures r.Created? ==> |ids| == |lookup.addressToBroker| && (OneAddressEach(lookup.events) ==> Distinct(ids))
      ensures distinct == (old(distinct) && (r.Created? && r.partitions != [] ==> Spread(ids, factor)))
      ensures r == TopicAlreadyExists <==> store.lower(name) in old(store.topics)
      ensures r == InvalidFactor <==> store.lower(name) !in old(store.topics) && factor > |lookup.addressToBroker|
      ensures r == NoBrokers <==>
                store.lower(name) !in old(store.topics) && factor <= 0 && |lookup.addressToBroker| == 0 && n > 0
      ensures !r.Created? || name == [] ==> store.Abs() == old(store.Abs())
      ensures r.Created? ==>
                && |r.partitions| == (if n < 0 then 0 else n)
                && forall i :: 0 <= i < |r.partitions| ==> WellPlaced(ids, name, i, factor, r.partitions[i])
      ensures r.Created? && name != [] ==>
                && Registered(old(store.partitions), store.partitions, name, r.partitions)
                && TopicAdded(store.lower, old(store.topics), store.topics, TopicOf(name, r.partitions))
      ensures r.Created? ==>
                forall id :: id in ids <==>
                  exists a :: a in lookup.addressToBroker && lookup.addressToBroker[a].id == id
      ensures r.Created? ==>
                forall i :: 0 <= i < |r.partitions| ==>
                  var p := r.partitions[i];
                  && p.topic == name && p.partition == i && p.id == i && p.isr == p.ar
                  && |p.ar| == (if factor == -0x8000 then 0x8000 else if factor < 1 then 1 else factor)
                  && p.leader == p.ar[0] && forall b :: b in p.ar ==> b in ids
      ensures r.Created? && name != [] ==>
                var key := store.lower(name);
                && key in store.topics && store.topics - {key} == old(store.topics)
                && store.topics[key].value.topic == name
                && (forall i :: i in store.topics[key].value.partitions <==> 0 <= i < |r.partitions|)
                && forall i :: i in store.topics[key].value.partitions ==>
                     store.topics[key].value.partitions[i] == r.partitions[i].ar
      ensures r.Created? && name != [] ==>
                && (forall i: int32 :: 0 <= i < |r.partitions| ==>
                      (name, i) in store.partitions && store.partitions[(name, i)].value == r.partitions[i])
                && forall pk :: (pk in old(store.partitions) || pk in store.partitions)
                                && !(pk.0 == name && 0 <= pk.1 < |r.partitions|) ==>
                     && pk in old(store.partitions) && pk in store.partitions
                     && store.partitions[pk] == old(store.partitions)[pk]
    {
      hide Replay, Issued, Step, AllIssued, InSync, NodesPlain, WellPlaced, Spread, Registered, Distinct,
        OneAddressEach, Membership, Replicas;
      ids := [];
      if store.lower(name) in store.topics {
        return TopicAlreadyExists, ids;
      }
      var placing, known := PlaceTopic(lookup, name, n, factor);
      ids := known;
      match placing
      case InvalidReplicationFactor => return InvalidFactor, ids;
      case Panics => return NoBrokers, ids;
      case Placed(ps) =>
        RegisterPlaced(known, name, factor, ps);
        PlacedFields(known, name, factor, ps);
        if name != [] {
          RowsPlaced(old(store.partitions), store.partitions, name, ps);
        }
        r := Created(ps);
    }
  }

  lemma NotAPartition(distinct: bool, lower: Lower, log: seq<LogEntry>, c: Command)
    requires !c.RegisterPartition?
    ensures forall i: nat :: Issued(distinct, lower, log + [LogEntry(i, c)], |log|)
  {}

  lemma ReadEarlier(distinct: bool, lower: Lower, log: seq<LogEntry>, at: nat, p: Partition, f: int32, leader: int32)
    requires at <= |log|
    requires var pk := (p.topic, p.partition);
             && pk in Replay(lower, log[..at]).partitions.rows
             && Replay(lower, log[..at]).partitions.rows[pk].value == p
    ensures forall i: nat ::
              Issued(distinct, lower, log + [LogEntry(i, RegisterPartition(Reassigned(p, f, leader)))], |log|)
  {
    forall i: nat
      ensures Issued(distinct, lower, log + [LogEntry(i, RegisterPartition(Reassigned(p, f, leader)))], |log|)
    {
      var longer := log + [LogEntry(i, RegisterPartition(Reassigned(p, f, leader)))];
      assert longer[..at] == log[..at];
      assert ReadAt(lower, longer, at, (p.topic, p.partition), f, leader, Reassigned(p, f, leader));
    }
  }

  lemma NodeEffect(lower: Lower, s: State, i: nat, n: Node)
    ensures var r := Step(lower, s, LogEntry(i, RegisterNode(n)));
            && r.partitions == s.partitions && r.topics == s.topics && r.groups == s.groups
            && r.nodes.rows == s.nodes.rows[
                 n.node := Row(n, if n.node in s.nodes.rows then s.nodes.rows[n.node].createIndex else i, i)]
  {}

  lemma PartitionEffect(lower: Lower, s: State, i: nat, p: Partition)
    requires p.topic != []
    ensures var r := Step(lower, s, LogEntry(i, RegisterPartition(p)));
            var pk := (p.topic, p.partition);
            && r.nodes == s.nodes && r.topics == s.topics && r.groups == s.groups
            && r.partitions.rows == s.partitions.rows[
                 pk := Row(p, if pk in s.partitions.rows then s.partitions.rows[pk].createIndex else i, i)]
  {}

  lemma MovedNone(rows: Partitions, f: int32, passing: set<int32>)
    ensures Moved(rows, rows, f, passing, [])
  {}

  lemma LedRow(before: Partitions, was: Partitions, f: int32, passing: set<int32>, led: seq<Partition>, i: nat)
    requires LedBy(before, f, led) && i < |led| && Moved(before, was, f, passing, led[..i])
    ensures var p := led[i];
            var pk := (p.topic, p.partition);
            pk in before && before[pk].value == p && pk in was && was[pk] == before[pk] && p !in led[..i]
  {}

  /** What a failover leaves of each row. */
  lemma LedMoved(distinct: bool, before: Partitions, after: Partitions, f: int32, nodes: map<int32, Row<Node>>,
                 led: seq<Partition>)
    requires Moved(before, after, f, Candidates(nodes, f), led) && LedBy(before, f, led) && AllSound(distinct, before)
    ensures after.Keys == before.Keys
    ensures forall pk :: pk in before && before[pk].value.leader != f ==> after[pk] == before[pk]
    ensures forall pk :: pk in before && before[pk].value.leader == f ==>
              var was, now := before[pk].value, after[pk].value;
              && now.leader in nodes && nodes[now.leader].value.status == PASSING
              && now.topic == was.topic && now.partition == was.partition && now.id == was.id
              && Subsequence(now.ar, was.ar) && multiset(now.ar) == multiset(was.ar)[f := 0]
              && Subsequence(now.isr, was.isr) && multiset(now.isr) == multiset(was.isr)[f := 0]
  {
    hide Subsequence, Without, Distinct;
    forall pk | pk in before && before[pk].value.leader == f
      ensures MovedRow(before[pk], after[pk], f, Candidates(nodes, f)) && Sound(distinct, before[pk].value)
    {}
    hide Moved, LedBy, AllSound;
    forall pk | pk in before && before[pk].value.leader == f
      ensures var was, now := before[pk].value, after[pk].value;
              && now.leader in nodes && nodes[now.leader].value.status == PASSING
              && now.topic == was.topic && now.partition == was.partition && now.id == was.id
              && Subsequence(now.ar, was.ar) && multiset(now.ar) == multiset(was.ar)[f := 0]
              && Subsequence(now.isr, was.isr) && multiset(now.isr) == multiset(was.isr)[f := 0]
    {
      ReassignedKeeps(before[pk].value, f, after[pk].value.leader);
    }
  }

  // ---- new topics -----------------------------------------------------------------------------------

  datatype Creating = Created(partitions: seq<Partition>) | TopicAlreadyExists | InvalidFactor | NoBrokers

  /** The partitions of the topic are the given ones; all others are as before. */
  ghost predicate Registered(before: Partitions, after: Partitions, name: bytes, ps: seq<Partition>) {
    && (forall j: int32 :: 0 <= j < |ps| ==> (name, j) in after && after[(name, j)].value == ps[j])
    && forall pk: PartitionKey :: !(pk.0 == name && 0 <= pk.1 < |ps|) ==>
         (pk in after <==> pk in before) && (pk in before ==> after[pk] == before[pk])
  }

  lemma RegisteredNone(rows: Partitions, name: bytes)
    ensures Registered(rows, rows, name, [])
  {}

  lemma RegisteredNext(before: Partitions, was: Partitions, now: Partitions, name: bytes, ps: seq<Partition>, i: int32)
    requires 0 <= i < |ps| && Registered(before, was, name, ps[..i])
    requires (name, i) in now && now[(name, i)].value == ps[i]
    requires now - {(name, i)} == was - {(name, i)}
    ensures Registered(before, now, name, ps[..i + 1])
  {
    forall pk | pk != (name, i) ensures (pk in now <==> pk in was) && (pk in was ==> now[pk] == was[pk]) {
      assert pk in now <==> pk in now - {(name, i)};
    }
  }

  /** The row of a topic: the replicas of each of its partitions. */
  function TopicOf(name: bytes, ps: seq<Partition>): (t: Topic) {
    Topic(name, map i: int32 | 0 <= i < |ps| :: ps[i].ar)
  }

  ghost predicate TopicAdded(lower: Lower, before: map<bytes, Row<Topic>>, after: map<bytes, Row<Topic>>, t: Topic) {
    var key := lower(t.topic);
    key !in before && key in after && after[key].value == t && after - {key} == before
  }

  method TopicRow(name: bytes, ps: seq<Partition>) returns (t: Topic)
    requires |ps| <= MAX_INT32
    requires forall i :: 0 <= i < |ps| ==> ps[i].id == i
    ensures t == TopicOf(name, ps)
  {
    var replicas: map<int32, seq<int32>> := map[];
    for i := 0 to |ps|
      invariant replicas == map j: int32 | 0 <= j < i :: ps[j].ar
    {
      replicas := replicas[ps[i].id := ps[i].ar];
    }
    t := Topic(name, replicas);
  }

  lemma FreshlyPlaced(distinct: bool, lower: Lower, log: seq<LogEntry>, ids: seq<int32>, name: bytes, i: int,
                      factor: int16, p: Partition)
    requires (distinct ==> Spread(ids, factor)) && WellPlaced(ids, name, i, factor, p)
    ensures forall k: nat :: Issued(distinct, lower, log + [LogEntry(k, RegisterPartition(p))], |log|)
  {
    hide ReadAt;
  }

  lemma PlacedAt(ids: seq<int32>, name: bytes, i: int, factor: int16, p: Partition)
    requires WellPlaced(ids, name, i, factor, p)
    ensures p.topic == name && p.partition == i && p.id == i
  {}

  lemma PlacedFields(ids: seq<int32>, name: bytes, factor: int16, ps: seq<Partition>)
    requires forall i :: 0 <= i < |ps| ==> WellPlaced(ids, name, i, factor, ps[i])
    ensures forall i :: 0 <= i < |ps| ==>
              var p := ps[i];
              && p.topic == name && p.partition == i && p.id == i && p.isr == p.ar
              && |p.ar| == (if factor == -0x8000 then 0x8000 else if factor < 1 then 1 else factor)
              && p.leader == p.ar[0] && forall b :: b in p.ar ==> b in ids
  {
    hide Distinct;
    ReplicasExact(factor);
  }

  lemma RowsPlaced(before: Partitions, after: Partitions, name: bytes, ps: seq<Partition>)
    requires Registered(before, after, name, ps)
    ensures forall i: int32 :: 0 <= i < |ps| ==> (name, i) in after && after[(name, i)].value == ps[i]
    ensures forall pk :: (pk in before || pk in after) && !(pk.0 == name && 0 <= pk.1 < |ps|) ==>
              pk in before && pk in after && after[pk] == before[pk]
  {}

  lemma AllPlacedAt(ids: seq<int32>, name: bytes, factor: int16, ps: seq<Partition>)
    requires forall i :: 0 <= i < |ps| ==> WellPlaced(ids, name, i, factor, ps[i])
    ensures forall i :: 0 <= i < |ps| ==> ps[i].id == i
  {}

  lemma Weaken(distinct: bool, lower: Lower, log: seq<LogEntry>)
    requires AllIssued(distinct, lower, log)
    ensures AllIssued(false, lower, log)
  {
    hide ReadAt, WellPlaced;
    forall i | 0 <= i < |log| ensures Issued(false, lower, log, i) {
      assert Issued(distinct, lower, log, i);
    }
  }

  lemma TopicEffect(lower: Lower, s: State, i: nat, t: Topic)
    ensures var r := Step(lower, s, LogEntry(i, RegisterTopic(t)));
            && r.nodes == s.nodes && r.partitions == s.partitions && r.groups == s.groups
            && (t.topic == [] ==> r == s)
            && (t.topic != [] && lower(t.topic) !in s.topics.rows ==>
                  r.topics.rows == s.topics.rows[lower(t.topic) := Row(t, i, i)])
  {}

  lemma NamelessEffect(lower: Lower, s: State, i: nat, p: Partition)
    requires p.topic == []
    ensures Step(lower, s, LogEntry(i, RegisterPartition(p))) == s
  {}

  lemma ReplayNext(lower: Lower, log: seq<LogEntry>, e: LogEntry)
    ensures Replay(lower, log + [e]) == Step(lower, Replay(lower, log), e)
  {
    assert (log + [e])[..|log|] == log;
  }

  lemma PlainNext(lower: Lower, s: State, e: LogEntry)
    requires NodesPlain(s.nodes.rows) && (e.command.RegisterNode? ==> e.command.node.id == 0)
    ensures NodesPlain(Step(lower, s, e).nodes.rows)
  {}
}
