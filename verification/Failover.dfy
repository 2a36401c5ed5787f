/** What the leader does to the store when topics are created and members join, fail or go
    (createTopic in jocko/broker.go; jocko/leader.go). */
module Failover {
  import opened Basics
  import opened Bytes
  import opened StoreSpec
  import opened Placement
  import opened Stores

  const PASSING: bytes := [112, 97, 115, 115, 105, 110, 103]
  const CRITICAL: bytes := [99, 114, 105, 116, 105, 99, 97, 108]

  /** The replicas that are left without a failed broker. */
  function Without(s: seq<int32>, f: int32): (r: seq<int32>)
    ensures f !in r && forall x :: x in r <==> x in s && x != f
  {
    if s == [] then [] else
      var r := Without(s[..|s| - 1], f);
      if s[|s| - 1] == f then r else r + [s[|s| - 1]]
  }

  /** Exactly the failed broker is gone, and the rest is in its old order. */
  lemma {:induction false} WithoutKeepsOrder(s: seq<int32>, f: int32)
    ensures Subsequence(Without(s, f), s) && multiset(Without(s, f)) == multiset(s)[f := 0]
  {
    if s != [] {
      var n := |s| - 1;
      WithoutKeepsOrder(s[..n], f);
      assert s == s[..n] + [s[n]];
      SubsequenceMore(Without(s[..n], f), s[..n], s[n]);
    }
  }

  method Drop(s: seq<int32>, f: int32) returns (r: seq<int32>)
    ensures r == Without(s, f) && Subsequence(r, s) && multiset(r) == multiset(s)[f := 0]
  {
    WithoutKeepsOrder(s, f);
    r := [];
    for i := 0 to |s|
      invariant r == Without(s[..i], f)
    {
      assert s[..i + 1][..i] == s[..i];
      if s[i] != f {
        r := r + [s[i]];
      }
    }
    assert s[..|s|] == s;
  }

  /** What a failed broker's partition is registered as, under a new leader. */
  function Reassigned(p: Partition, f: int32, leader: int32): (q: Partition) {
    Partition(p.partition, p.partition, p.topic, Without(p.isr, f), Without(p.ar, f), leader)
  }

  /** Everything but the leader stays, and of the replicas exactly the failed broker goes. */
  lemma ReassignedKeeps(p: Partition, f: int32, leader: int32)
    ensures var q := Reassigned(p, f, leader);
            && q.topic == p.topic && q.partition == p.partition && q.id == p.partition && q.leader == leader
            && Subsequence(q.ar, p.ar) && multiset(q.ar) == multiset(p.ar)[f := 0]
            && Subsequence(q.isr, p.isr) && multiset(q.isr) == multiset(p.isr)[f := 0]
  {
    hide Without;
    WithoutKeepsOrder(p.ar, f);
    WithoutKeepsOrder(p.isr, f);
  }

  // ---- every partition any run can register -------------------------------------------------------

  /** Assigned and in-sync replicas agree, the id is the number, and, if topics were placed on
      enough brokers with distinct ids, no broker is listed twice. */
  ghost predicate Sound(distinct: bool, p: Partition) {
    p.isr == p.ar && p.id == p.partition && (distinct ==> Distinct(p.ar))
  }

  ghost predicate AllSound(distinct: bool, rows: Partitions) {
    forall pk :: pk in rows ==> Sound(distinct, rows[pk].value)
  }

  lemma {:induction false} WithoutDistinct(s: seq<int32>, f: int32)
    requires Distinct(s)
    ensures Distinct(Without(s, f))
  {
    if s != [] {
      var n := |s| - 1;
      WithoutDistinct(s[..n], f);
      assert forall x :: x in s[..n] ==> exists i :: 0 <= i < n && s[i] == x;
      assert s[n] !in Without(s[..n], f);
    }
  }

  lemma ReassignedSound(distinct: bool, p: Partition, f: int32, leader: int32)
    requires Sound(distinct, p)
    ensures Sound(distinct, Reassigned(p, f, leader))
  {
    if distinct {
      WithoutDistinct(p.ar, f);
    }
  }

  /** Where the leader's partition registrations come from: a new topic placed on brokers,
      enough of them with distinct ids if so required, or a row read from the store at some earlier
      point of the log. Anything may have been applied between the read and the registration. */
  ghost predicate Issued(distinct: bool, lower: Lower, log: seq<LogEntry>, i: int)
    requires 0 <= i < |log|
  {
    log[i].command.RegisterPartition? ==>
      var p := log[i].command.partition;
      || (exists ids: seq<int32>, factor ::
            (distinct ==> Spread(ids, factor)) && WellPlaced(ids, p.topic, p.partition, factor, p))
      || (exists j, pk, f, leader :: 0 <= j <= i && ReadAt(lower, log, j, pk, f, leader, p))
  }

  ghost predicate ReadAt(lower: Lower, log: seq<LogEntry>, j: int, pk: PartitionKey, f: int32, leader: int32,
                         p: Partition) {
    && 0 <= j <= |log|
    && pk in Replay(lower, log[..j]).partitions.rows
    && p == Reassigned(Replay(lower, log[..j]).partitions.rows[pk].value, f, leader)
  }

  /** However the registrations of failovers and new topics interleave, every row of the
      partition table is sound. */
  lemma {:induction false} EveryRunSound(distinct: bool, lower: Lower, log: seq<LogEntry>)
    requires forall i :: 0 <= i < |log| ==> Issued(distinct, lower, log, i)
    ensures AllSound(distinct, Replay(lower, log).partitions.rows)
    decreases |log|, 1
  {
    if log != [] {
      var n := |log| - 1;
      forall i | 0 <= i < n ensures Issued(distinct, lower, log[..n], i) {
        IssuedPrefix(distinct, lower, log, n, i);
      }
      EveryRunSound(distinct, lower, log[..n]);
      if log[n].command.RegisterPartition? {
        RegisteredSound(distinct, lower, log);
      }
    }
  }

  lemma IssuedPrefix(distinct: bool, lower: Lower, log: seq<LogEntry>, n: int, i: int)
    requires 0 <= i < n <= |log| && Issued(distinct, lower, log, i)
    ensures Issued(distinct, lower, log[..n], i)
  {
    hide Replay, Reassigned, WellPlaced, Distinct;
    forall j | 0 <= j <= i ensures log[..n][..j] == log[..j] {}
    forall j, pk, f, leader, p | 0 <= j <= i && ReadAt(lower, log, j, pk, f, leader, p)
      ensures ReadAt(lower, log[..n], j, pk, f, leader, p)
    {}
  }

  lemma {:induction false} RegisteredSound(distinct: bool, lower: Lower, log: seq<LogEntry>)
    requires forall i :: 0 <= i < |log| ==> Issued(distinct, lower, log, i)
    requires log != [] && log[|log| - 1].command.RegisterPartition?
    ensures Sound(distinct, log[|log| - 1].command.partition)
    decreases |log|, 0
  {
    var n := |log| - 1;
    var p := log[n].command.partition;
    assert Issued(distinct, lower, log, n);
    if j, pk, f, leader :| 0 <= j <= n && ReadAt(lower, log, j, pk, f, leader, p) {
      forall i | 0 <= i < j ensures Issued(distinct, lower, log[..j], i) {
        IssuedPrefix(distinct, lower, log, j, i);
      }
      EveryRunSound(distinct, lower, log[..j]);
      ReassignedSound(distinct, Replay(lower, log[..j]).partitions.rows[pk].value, f, leader);
    }
  }
}
