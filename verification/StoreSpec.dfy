/** The commands of the Raft log (jocko/fsm/commands.go) and the store they build, as values
    (jocko/fsm/fsm.go). */
module StoreSpec {
  import opened Basics
  import opened Bytes
  import opened Tables

  datatype Node = Node(id: int32, node: int32, address: bytes, status: bytes)

  datatype Topic = Topic(topic: bytes, partitions: map<int32, seq<int32>>)

  datatype Partition = Partition(
    id: int32, partition: int32, topic: bytes, isr: seq<int32>, ar: seq<int32>, leader: int32)

  datatype Group = Group(group: bytes, coordinator: int32)

  type PartitionKey = (bytes, int32)

  datatype Command =
    | RegisterNode(node: Node)
    | DeregisterNode(id: int32)
    | RegisterTopic(topic: Topic)
    | DeregisterTopic(name: bytes)
    | RegisterPartition(partition: Partition)
    | DeregisterPartition(of: bytes, number: int32)
    | RegisterGroup(group: Group)
    | Unregistered  // a message type without a command

  datatype LogEntry = LogEntry(index: nat, command: Command)

  datatype State = State(
    nodes: Table<int32, Node>,
    topics: Table<bytes, Topic>,
    partitions: Table<PartitionKey, Partition>,
    groups: Table<bytes, Group>)

  /** Topics and groups are keyed by their lower-case name. */
  type Lower = bytes -> bytes

  // ---- what a command does to each table ------------------------------------------------------

  function NodeChange(c: Command): (r: Change<int32, Node>) {
    match c
    case RegisterNode(n) => Upsert(n.node, n)
    case DeregisterNode(id) => Remove(id)
    case _ => Nothing
  }

  /** A row whose name is empty has no primary key: inserting it is an error. */
  function TopicChange(lower: Lower, c: Command): (r: Change<bytes, Topic>) {
    match c
    case RegisterTopic(t) => if t.topic == [] then Nothing else Upsert(lower(t.topic), t)
    case DeregisterTopic(name) => Remove(lower(name))
    case _ => Nothing
  }

  function PartitionChange(c: Command): (r: Change<PartitionKey, Partition>) {
    match c
    case RegisterPartition(p) => if p.topic == [] then Nothing else Upsert((p.topic, p.partition), p)
    case DeregisterPartition(topic, n) => Remove((topic, n))
    case _ => Nothing
  }

  function GroupChange(lower: Lower, c: Command): (r: Change<bytes, Group>) {
    match c
    case RegisterGroup(g) => if g.group == [] then Nothing else Upsert(lower(g.group), g)
    case _ => Nothing
  }

  function Step(lower: Lower, s: State, e: LogEntry): (r: State) {
    State(
      Tables.Apply(s.nodes, Entry(e.index, NodeChange(e.command))),
      Tables.Apply(s.topics, Entry(e.index, TopicChange(lower, e.command))),
      Tables.Apply(s.partitions, Entry(e.index, PartitionChange(e.command))),
      Tables.Apply(s.groups, Entry(e.index, GroupChange(lower, e.command))))
  }

  const EMPTY := State(Table(map[], 0), Table(map[], 0), Table(map[], 0), Table(map[], 0))

  function Replay(lower: Lower, log: seq<LogEntry>): (s: State) {
    if log == [] then EMPTY else Step(lower, Replay(lower, log[..|log| - 1]), log[|log| - 1])
  }

  // ---- every table has a history ----------------------------------------------------------------

  /** The part of the log that concerns one table. */
  function History<K, V>(log: seq<LogEntry>, change: Command -> Change<K, V>): (h: seq<Entry<K, V>>)
    ensures |h| == |log|
    ensures forall i :: 0 <= i < |log| ==> h[i] == Entry(log[i].index, change(log[i].command))
  {
    seq(|log|, i requires 0 <= i < |log| => Entry(log[i].index, change(log[i].command)))
  }

  /** Each table is what its own part of the log makes of it, so the facts about one table's
      history hold of every table of the store. */
  lemma {:induction false} TablesHaveHistories(lower: Lower, log: seq<LogEntry>)
    ensures var s := Replay(lower, log);
            && s.nodes == Run(History(log, NodeChange))
            && s.topics == Run(History(log, c => TopicChange(lower, c)))
            && s.partitions == Run(History(log, PartitionChange))
            && s.groups == Run(History(log, c => GroupChange(lower, c)))
  {
    if log != [] {
      var n := |log| - 1;
      TablesHaveHistories(lower, log[..n]);
      hide NodeChange, TopicChange, PartitionChange, GroupChange, Tables.Apply;
      HistoryPrefix(log, NodeChange);
      HistoryPrefix(log, c => TopicChange(lower, c));
      HistoryPrefix(log, PartitionChange);
      HistoryPrefix(log, c => GroupChange(lower, c));
    }
  }

  lemma HistoryPrefix<K, V>(log: seq<LogEntry>, change: Command -> Change<K, V>)
    requires log != []
    ensures History(log, change)[..|log| - 1] == History(log[..|log| - 1], change)
  {}

  // ---- which rows a log leaves ------------------------------------------------------------------

  lemma RowsRegistered<K, V>(log: seq<LogEntry>, change: Command -> Change<K, V>, key: K)
    ensures key in Run(History(log, change)).rows <==>
            exists i :: 0 <= i < |log|
              && (var c := change(log[i].command); c.Upsert? && c.key == key)
              && forall j :: i < j < |log| ==> (var d := change(log[j].command); !(d.Remove? && d.key == key))
  {
    var h := History(log, change);
    RowsAreLive(h, key);
    hide Run;
    if i :| Survives(h, key, i) {
      forall j | i < j < |log| ensures !(change(log[j].command).Remove? && change(log[j].command).key == key) {
        assert !Deletes(h[j], key);
      }
    }
    if i :| 0 <= i < |log| && (var c := change(log[i].command); c.Upsert? && c.key == key)
            && forall j :: i < j < |log| ==> (var d := change(log[j].command); !(d.Remove? && d.key == key)) {
      assert Survives(h, key, i);
    }
  }

  /** A node has a row exactly if it was registered and not deregistered since. */
  lemma NodeRows(lower: Lower, log: seq<LogEntry>, id: int32)
    ensures id in Replay(lower, log).nodes.rows <==>
            exists i :: 0 <= i < |log|
              && log[i].command.RegisterNode? && log[i].command.node.node == id
              && forall j :: i < j < |log| && log[j].command.DeregisterNode? ==> log[j].command.id != id
  {
    hide Replay;
    TablesHaveHistories(lower, log);
    RowsRegistered(log, NodeChange, id);
  }

  /** A topic has a row, under its lower-case name, exactly if it was registered with a name and not
      deregistered since under a name of the same lower case. */
  lemma TopicRows(lower: Lower, log: seq<LogEntry>, key: bytes)
    ensures key in Replay(lower, log).topics.rows <==>
            exists i :: 0 <= i < |log|
              && log[i].command.RegisterTopic?
              && log[i].command.topic.topic != [] && lower(log[i].command.topic.topic) == key
              && forall j :: i < j < |log| && log[j].command.DeregisterTopic? ==> lower(log[j].command.name) != key
  {
    hide Replay;
    TablesHaveHistories(lower, log);
    RowsRegistered(log, c => TopicChange(lower, c), key);
  }

  /** A partition has a row exactly if it was registered, of a topic with a name, and not deregistered
      since. */
  lemma PartitionRows(lower: Lower, log: seq<LogEntry>, pk: PartitionKey)
    ensures pk in Replay(lower, log).partitions.rows <==>
            exists i :: 0 <= i < |log|
              && log[i].command.RegisterPartition? && log[i].command.partition.topic != []
              && (log[i].command.partition.topic, log[i].command.partition.partition) == pk
              && forall j :: i < j < |log| && log[j].command.DeregisterPartition? ==>
                   (log[j].command.of, log[j].command.number) != pk
  {
    hide Replay;
    TablesHaveHistories(lower, log);
    RowsRegistered(log, PartitionChange, pk);
  }

  /** A group has a row exactly if it was ever registered with a name: groups are not deleted. */
  lemma GroupRows(lower: Lower, log: seq<LogEntry>, key: bytes)
    ensures key in Replay(lower, log).groups.rows <==>
            exists i :: 0 <= i < |log|
              && log[i].command.RegisterGroup?
              && log[i].command.group.group != [] && lower(log[i].command.group.group) == key
  {
    hide Replay;
    TablesHaveHistories(lower, log);
    RowsRegistered(log, c => GroupChange(lower, c), key);
  }

  // ---- the last index of the whole store ----------------------------------------------------------

  /** maxIndexTxn over all tables, as a snapshot records it. */
  function LastIndex(s: State): (m: nat) {
    Max(Max(s.nodes.index, s.topics.index), Max(s.partitions.index, s.groups.index))
  }

  ghost predicate Ordered(log: seq<LogEntry>) {
    && (forall i :: 0 <= i < |log| ==> log[i].index > 0)
    && forall i, j :: 0 <= i < j < |log| ==> log[i].index < log[j].index
  }

  /** Entry `i` of the log changes some table. */
  ghost predicate Changes(lower: Lower, log: seq<LogEntry>, i: int) {
    || Effective(History(log, NodeChange), i)
    || Effective(History(log, c => TopicChange(lower, c)), i)
    || Effective(History(log, PartitionChange), i)
    || Effective(History(log, c => GroupChange(lower, c)), i)
  }

  lemma TableIndexBound<K, V>(log: seq<LogEntry>, change: Command -> Change<K, V>)
    requires Ordered(log)
    ensures var h := History(log, change);
            && (forall i :: Effective(h, i) ==> 0 <= i < |log| && log[i].index <= Run(h).index)
            && (Run(h).index == 0 || exists i :: Effective(h, i) && log[i].index == Run(h).index)
  {
    var h := History(log, change);
    var last := IndexOrigin(h);
    assert forall i :: Effective(h, i) ==> i <= last;
  }

  /** The snapshot index is the index of the last command that changed anything, and zero if
      none did. */
  lemma SnapshotIndex(lower: Lower, log: seq<LogEntry>)
    requires Ordered(log)
    ensures var m := LastIndex(Replay(lower, log));
            && (forall i :: Changes(lower, log, i) ==> 0 <= i < |log| && log[i].index <= m)
            && (m == 0 || exists i :: Changes(lower, log, i) && log[i].index == m)
  {
    hide Effective, History, Run, Replay;
    TablesHaveHistories(lower, log);
    TableIndexBound(log, NodeChange);
    TableIndexBound(log, c => TopicChange(lower, c));
    TableIndexBound(log, PartitionChange);
    TableIndexBound(log, c => GroupChange(lower, c));
  }
}
