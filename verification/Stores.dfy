/** The store itself (jocko/fsm/fsm.go): tables changed in transactions, the index table, and
    the secondary index on partition leaders. */
module Stores {
  import opened Bytes
  import opened IntKeys
  import opened Tables
  import opened StoreSpec

  // ---- index keys -------------------------------------------------------------------------------

  /** The primary key of a partition: its topic, a terminating zero, its number. */
  function IdKey(pk: PartitionKey): (s: bytes) {
    pk.0 + [0] + Key(Kind.Int32, pk.1).value
  }

  /** The leader index is not unique: the primary key is appended to the leader's key. */
  function LeaderKey(leader: int32, pk: PartitionKey): (s: bytes) {
    Key(Kind.Int32, leader).value + IdKey(pk)
  }

  lemma IdKeyInjective(a: PartitionKey, b: PartitionKey)
    requires IdKey(a) == IdKey(b)
    ensures a == b
  {
    hide Key;
    var ka, kb := Key(Kind.Int32, a.1).value, Key(Kind.Int32, b.1).value;
    var n := |a.0|;
    assert |ka| == 5 && |kb| == 5;
    assert IdKey(a)[..n] == a.0 && IdKey(b)[..n] == b.0;
    assert IdKey(a)[n + 1..] == ka && IdKey(b)[n + 1..] == kb;
    assert kb + [] == kb;
    KeyPrefix(Kind.Int32, a.1, b.1, []);
  }

  lemma LeaderKeyInjective(l: int32, m: int32, a: PartitionKey, b: PartitionKey)
    requires LeaderKey(l, a) == LeaderKey(m, b)
    ensures l == m && a == b
  {
    hide Key, IdKey;
    var kl, km := Key(Kind.Int32, l).value, Key(Kind.Int32, m).value;
    assert LeaderKey(l, a)[..5] == kl && LeaderKey(m, b)[..5] == km;
    assert LeaderKey(l, a)[5..] == IdKey(a) && LeaderKey(m, b)[5..] == IdKey(b);
    assert km + [] == km;
    KeyPrefix(Kind.Int32, l, m, []);
    IdKeyInjective(a, b);
  }

  type Partitions = map<PartitionKey, Row<Partition>>
  type LeaderIndex = map<bytes, PartitionKey>

  /** Rows are filed under their own key, and the leader index holds exactly one key per row,
      made from the row's leader. */
  ghost predicate InSync(rows: Partitions, idx: LeaderIndex) {
    && (forall pk :: pk in rows ==> (rows[pk].value.topic, rows[pk].value.partition) == pk)
    && (forall pk :: pk in rows ==>
          LeaderKey(rows[pk].value.leader, pk) in idx && idx[LeaderKey(rows[pk].value.leader, pk)] == pk)
    && (forall s :: s in idx ==> idx[s] in rows && s == LeaderKey(rows[idx[s]].value.leader, idx[s]))
  }

  /** Txn.Delete on the leader index. */
  lemma SyncDeleted(rows: Partitions, idx: LeaderIndex, pk: PartitionKey)
    requires InSync(rows, idx) && pk in rows
    ensures InSync(rows - {pk}, idx - {LeaderKey(rows[pk].value.leader, pk)})
  {
    hide LeaderKey;
    var gone := LeaderKey(rows[pk].value.leader, pk);
    forall q | q in rows && q != pk ensures LeaderKey(rows[q].value.leader, q) != gone {
      assert idx[LeaderKey(rows[q].value.leader, q)] == q && idx[gone] == pk;
    }
  }

  /** Txn.Insert on the leader index of a row whose old key, if any, was taken out. */
  lemma SyncInserted(rows: Partitions, idx: LeaderIndex, row: Row<Partition>)
    requires InSync(rows, idx)
    ensures var p := row.value;
            var pk := (p.topic, p.partition);
            pk !in rows ==> InSync(rows[pk := row], idx[LeaderKey(p.leader, pk) := pk])
  {
    var p := row.value;
    var pk := (p.topic, p.partition);
    forall q | q in rows ensures LeaderKey(rows[q].value.leader, q) == LeaderKey(p.leader, pk) ==> q == pk {
      if LeaderKey(rows[q].value.leader, q) == LeaderKey(p.leader, pk) {
        LeaderKeyInjective(rows[q].value.leader, p.leader, q, pk);
      }
    }
  }

  /** The partitions with a given leader, each once, in some order. */
  ghost predicate LedBy(rows: Partitions, leader: int32, found: seq<Partition>) {
    && (forall p :: p in found ==> p.leader == leader && (p.topic, p.partition) in rows
                                   && rows[(p.topic, p.partition)].value == p)
    && (forall pk :: pk in rows && rows[pk].value.leader == leader ==> rows[pk].value in found)
    && forall i, j :: 0 <= i < j < |found| ==> found[i] != found[j]
  }

  lemma MetAll(rows: Partitions, idx: LeaderIndex, leader: int32, all: set<bytes>, met: seq<bytes>,
               found: seq<Partition>)
    requires InSync(rows, idx) && |met| == |found|
    requires all == set s | s in idx && Key(Kind.Int32, leader).value <= s
    requires forall i :: 0 <= i < |met| ==> met[i] in all && found[i] == rows[idx[met[i]]].value
    requires forall s :: s in all ==> s in met
    requires forall i, j :: 0 <= i < j < |met| ==> met[i] != met[j]
    ensures LedBy(rows, leader, found)
  {
    hide Key;
    forall s | s in idx
      ensures s in all <==> rows[idx[s]].value.leader == leader
    {
      KeyPrefix(Kind.Int32, leader, rows[idx[s]].value.leader, IdKey(idx[s]));
    }
    hide LeaderKey;
    forall pk | pk in rows && rows[pk].value.leader == leader ensures rows[pk].value in found {
      var s := LeaderKey(leader, pk);
      assert s in all;
      var i :| 0 <= i < |met| && met[i] == s;
      assert found[i] == rows[pk].value;
    }
  }

  ghost predicate Within(rows: Partitions, idx: LeaderIndex, keys: set<bytes>) {
    forall s :: s in keys ==> s in idx && idx[s] in rows
  }

  lemma KeysWithin(rows: Partitions, idx: LeaderIndex, keys: set<bytes>)
    requires InSync(rows, idx) && forall s :: s in keys ==> s in idx
    ensures Within(rows, idx, keys)
  {}

  /** The iterator over some keys of the index, in an order it chooses. */
  method Walk(rows: Partitions, idx: LeaderIndex, keys: set<bytes>)
    returns (ghost met: seq<bytes>, found: seq<Partition>)
    requires Within(rows, idx, keys)
    ensures |met| == |found|
    ensures forall i :: 0 <= i < |met| ==> met[i] in keys && found[i] == rows[idx[met[i]]].value
    ensures forall s :: s in keys ==> s in met
    ensures forall i, j :: 0 <= i < j < |met| ==> met[i] != met[j]
  {
    var rest := keys;
    met, found := [], [];
    while rest != {}
      invariant rest <= keys && |met| == |found|
      invariant forall i :: 0 <= i < |met| ==> met[i] in keys && found[i] == rows[idx[met[i]]].value
      invariant forall i :: 0 <= i < |met| ==> met[i] !in rest
      invariant forall i, j :: 0 <= i < j < |met| ==> met[i] != met[j]
      invariant forall s :: s in keys && s !in rest ==> s in met
      decreases |rest|
    {
      var s :| s in rest;
      rest := rest - {s};
      found, met := found + [rows[idx[s]].value], met + [s];
    }
  }

  // ---- the store ----------------------------------------------------------------------------------

  class Store {
    const lower: Lower
    var nodes: map<int32, Row<Node>>
    var topics: map<bytes, Row<Topic>>
    var partitions: Partitions
    var groups: map<bytes, Row<Group>>
    var index: map<string, nat>
    var leaders: LeaderIndex

    ghost predicate Valid()
      reads this
    {
      InSync(partitions, leaders)
    }

    function IndexOf(table: string): (n: nat)
      reads this
    {
      if table in index then index[table] else 0
    }

    ghost function Abs(): (s: State)
      reads this
    {
      State(Table(nodes, IndexOf("nodes")), Table(topics, IndexOf("topics")),
            Table(partitions, IndexOf("partitions")), Table(groups, IndexOf("groups")))
    }

    constructor (lower: Lower)
      ensures Valid() && Abs() == EMPTY && this.lower == lower
    {
      this.lower := lower;
      nodes, topics, partitions, groups, index, leaders := map[], map[], map[], map[], map[], map[];
    }

    method EnsureNode(idx: nat, node: Node)
      requires Valid()
      modifies this`nodes, this`index
      ensures Valid() && Abs() == Step(lower, old(Abs()), LogEntry(idx, RegisterNode(node)))
      ensures nodes == old(nodes)[
                node.node := Row(node, if node.node in old(nodes) then old(nodes[node.node]).createIndex else idx, idx)]
      ensures index == old(index)["nodes" := idx]
    {
      var createIndex := if node.node in nodes then nodes[node.node].createIndex else idx;
      nodes := nodes[node.node := Row(node, createIndex, idx)];
      index := index["nodes" := idx];
    }

    method DeleteNode(idx: nat, id: int32)
      requires Valid()
      modifies this`nodes, this`index
      ensures Valid() && Abs() == Step(lower, old(Abs()), LogEntry(idx, DeregisterNode(id)))
      ensures nodes == old(nodes) - {id}
      ensures index == if id in old(nodes) then old(index)["nodes" := idx] else old(index)
    {
      if id !in nodes {
        return;
      }
      nodes := nodes - {id};
      index := index["nodes" := idx];
    }

    method EnsureTopic(idx: nat, topic: Topic) returns (ok: bool)
      requires Valid()
      modifies this`topics, this`index
      ensures Valid() && Abs() == Step(lower, old(Abs()), LogEntry(idx, RegisterTopic(topic)))
      ensures ok <==> topic.topic != []
      ensures topics == if !ok then old(topics)
                        else
                          var key := lower(topic.topic);
                          old(topics)[
                            key := Row(topic, if key in old(topics) then old(topics)[key].createIndex else idx, idx)]
      ensures index == if ok then old(index)["topics" := idx] else old(index)
    {
      if topic.topic == [] {
        return false;
      }
      var key := lower(topic.topic);
      var createIndex := if key in topics then topics[key].createIndex else idx;
      topics := topics[key := Row(topic, createIndex, idx)];
      index := index["topics" := idx];
      return true;
    }

    method DeleteTopic(idx: nat, name: bytes)
      requires Valid()
      modifies this`topics, this`index
      ensures Valid() && Abs() == Step(lower, old(Abs()), LogEntry(idx, DeregisterTopic(name)))
      ensures topics == old(topics) - {lower(name)}
      ensures index == if lower(name) in old(topics) then old(index)["topics" := idx] else old(index)
    {
      var key := lower(name);
      if key !in topics {
        return;
      }
      topics := topics - {key};
      index := index["topics" := idx];
    }

    method EnsureGroup(idx: nat, group: Group) returns (ok: bool)
      requires Valid()
      modifies this`groups, this`index
      ensures Valid() && Abs() == Step(lower, old(Abs()), LogEntry(idx, RegisterGroup(group)))
      ensures ok <==> group.group != []
      ensures groups == if !ok then old(groups)
                        else
                          var key := lower(group.group);
                          old(groups)[
                            key := Row(group, if key in old(groups) then old(groups)[key].createIndex else idx, idx)]
      ensures index == if ok then old(index)["groups" := idx] else old(index)
    {
      if group.group == [] {
        return false;
      }
      var key := lower(group.group);
      var createIndex := if key in groups then groups[key].createIndex else idx;
      groups := groups[key := Row(group, createIndex, idx)];
      index := index["groups" := idx];
      return true;
    }

    /** An upsert takes the old row's key out of the leader index before it adds the new one. */
    method EnsurePartition(idx: nat, p: Partition) returns (ok: bool)
      requires Valid()
      modifies this`partitions, this`leaders, this`index
      ensures Valid() && Abs() == Step(lower, old(Abs()), LogEntry(idx, RegisterPartition(p)))
      ensures ok <==> p.topic != []
      ensures partitions == if !ok then old(partitions)
                            else
                              var pk := (p.topic, p.partition);
                              old(partitions)[pk := Row(
                                p, if pk in old(partitions) then old(partitions)[pk].createIndex else idx, idx)]
      ensures index == if ok then old(index)["partitions" := idx] else old(index)
    {
      hide InSync, LeaderKey;
      if p.topic == [] {
        return false;
      }
      var pk := (p.topic, p.partition);
      var createIndex := if pk in partitions then partitions[pk].createIndex else idx;
      var row := Row(p, createIndex, idx);
      ghost var rows := partitions;
      if pk in partitions {
        SyncDeleted(partitions, leaders, pk);
        rows := partitions - {pk};
        leaders := leaders - {LeaderKey(partitions[pk].value.leader, pk)};
      }
      SyncInserted(rows, leaders, row);
      assert rows[pk := row] == partitions[pk := row];
      leaders := leaders[LeaderKey(p.leader, pk) := pk];
      partitions := partitions[pk := row];
      index := index["partitions" := idx];
      return true;
    }

    method DeletePartition(idx: nat, topic: bytes, n: int32)
      requires Valid()
      modifies this`partitions, this`leaders, this`index
      ensures Valid() && Abs() == Step(lower, old(Abs()), LogEntry(idx, DeregisterPartition(topic, n)))
      ensures partitions == old(partitions) - {(topic, n)}
      ensures index == if (topic, n) in old(partitions) then old(index)["partitions" := idx] else old(index)
    {
      hide InSync, LeaderKey;
      var pk := (topic, n);
      if pk !in partitions {
        return;
      }
      SyncDeleted(partitions, leaders, pk);
      leaders := leaders - {LeaderKey(partitions[pk].value.leader, pk)};
      partitions := partitions - {pk};
      index := index["partitions" := idx];
    }

    /** FSM.Apply: the type of a log entry picks its command; other types do nothing. */
    method Apply(e: LogEntry)
      requires Valid()
      modifies this
      ensures Valid() && Abs() == Step(lower, old(Abs()), e)
    {
      match e.command
      case RegisterNode(n) => EnsureNode(e.index, n);
      case DeregisterNode(id) => DeleteNode(e.index, id);
      case RegisterTopic(t) => var ok := EnsureTopic(e.index, t);
      case DeregisterTopic(name) => DeleteTopic(e.index, name);
      case RegisterPartition(p) => var ok := EnsurePartition(e.index, p);
      case DeregisterPartition(topic, n) => DeletePartition(e.index, topic, n);
      case RegisterGroup(g) => var ok := EnsureGroup(e.index, g);
      case Unregistered =>
    }

    /** PartitionsByLeader walks the keys of the leader index that start with the leader's key; it
        finds every partition that filtering the table would give, each once. */
    method PartitionsByLeader(leader: int32) returns (idx: nat, found: seq<Partition>)
      requires Valid()
      ensures idx == IndexOf("partitions")
      ensures LedBy(partitions, leader, found)
    {
      var tables := ["partitions"];
      idx := MaxIndex(tables);
      assert tables[0] == "partitions";
      var keys := set s | s in leaders && Key(Kind.Int32, leader).value <= s;
      ghost var met;
      hide InSync, LedBy, Key;
      assert Within(partitions, leaders, keys) by {
        KeysWithin(partitions, leaders, keys);
      }
      met, found := Walk(partitions, leaders, keys);
      MetAll(partitions, leaders, leader, keys, met, found);
    }

    /** maxIndexTxn: the highest index of the given tables, zero for none. */
    method MaxIndex(tables: seq<string>) returns (m: nat)
      ensures forall i :: 0 <= i < |tables| ==> IndexOf(tables[i]) <= m
      ensures m == 0 || exists i :: 0 <= i < |tables| && IndexOf(tables[i]) == m
    {
      m := 0;
      for i := 0 to |tables|
        invariant forall j :: 0 <= j < i ==> IndexOf(tables[j]) <= m
        invariant m == 0 || exists j :: 0 <= j < i && IndexOf(tables[j]) == m
      {
        if tables[i] in index && index[tables[i]] > m {
          m := index[tables[i]];
          assert IndexOf(tables[i]) == m;
        }
      }
    }
  }

  /** Any run of log entries builds the store that the log describes. */
  method ReplayLog(lower: Lower, log: seq<LogEntry>) returns (store: Store)
    ensures fresh(store) && store.Valid() && store.Abs() == Replay(lower, log) && store.lower == lower
  {
    hide Step;
    store := new Store(lower);
    for i := 0 to |log|
      invariant fresh(store) && store.Valid() && store.Abs() == Replay(lower, log[..i]) && store.lower == lower
    {
      assert log[..i + 1][..i] == log[..i];
      store.Apply(log[i]);
    }
    assert log[..|log|] == log;
  }
}
