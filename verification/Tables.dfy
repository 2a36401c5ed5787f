/** One table of the Raft-applied store (jocko/fsm/fsm.go) and what its rows and its index
    entry say about the history of commands that produced it. */
module Tables {

  datatype Row<V> = Row(value: V, createIndex: nat, modifyIndex: nat)

  /** The rows by primary key, and the table's entry in the index table (0 if it has none). */
  datatype Table<K, V> = Table(rows: map<K, Row<V>>, index: nat)

  datatype Change<K, V> = Upsert(key: K, value: V) | Remove(key: K) | Nothing

  /** A command of the Raft log, as far as it concerns this table. */
  datatype Entry<K, V> = Entry(index: nat, change: Change<K, V>)

  function Apply<K, V>(t: Table<K, V>, e: Entry<K, V>): (r: Table<K, V>) {
    match e.change
    case Upsert(k, v) =>
      Table(t.rows[k := Row(v, if k in t.rows then t.rows[k].createIndex else e.index, e.index)], e.index)
    case Remove(k) => if k in t.rows then Table(t.rows - {k}, e.index) else t
    case Nothing => t
  }

  function Run<K, V>(h: seq<Entry<K, V>>): (t: Table<K, V>) {
    if h == [] then Table(map[], 0) else Apply(Run(h[..|h| - 1]), h[|h| - 1])
  }

  // ---- the history, without running it ------------------------------------------------------

  predicate Puts<K(==), V>(e: Entry<K, V>, k: K) {
    e.change.Upsert? && e.change.key == k
  }

  predicate Deletes<K(==), V>(e: Entry<K, V>, k: K) {
    e.change.Remove? && e.change.key == k
  }

  /** Entry `i` puts the key, and no later entry deletes it. */
  ghost predicate Survives<K, V>(h: seq<Entry<K, V>>, k: K, i: int) {
    0 <= i < |h| && Puts(h[i], k) && forall j :: i < j < |h| ==> !Deletes(h[j], k)
  }

  ghost predicate Live<K, V>(h: seq<Entry<K, V>>, k: K) {
    exists i :: Survives(h, k, i)
  }

  /** The last put of a live key. */
  ghost predicate LastPut<K, V>(h: seq<Entry<K, V>>, k: K, i: int) {
    Survives(h, k, i) && forall j :: i < j < |h| ==> !Puts(h[j], k)
  }

  /** The first put of a live key since it was last deleted: every earlier put was deleted
      again before this one. */
  ghost predicate FirstPut<K, V>(h: seq<Entry<K, V>>, k: K, i: int) {
    Survives(h, k, i) && forall j :: 0 <= j < i && Puts(h[j], k) ==> exists d :: j < d < i && Deletes(h[d], k)
  }

  /** Entry `i` changes the table: it puts, or deletes a key that is live at that point. */
  ghost predicate Effective<K, V>(h: seq<Entry<K, V>>, i: int) {
    && 0 <= i < |h|
    && (h[i].change.Upsert? || (h[i].change.Remove? && Live(h[..i], h[i].change.key)))
  }

  ghost predicate LastEffective<K, V>(h: seq<Entry<K, V>>, i: int) {
    Effective(h, i) && forall j :: i < j < |h| ==> !Effective(h, j)
  }

  // ---- rows -----------------------------------------------------------------------------------

  lemma SurvivesNext<K, V>(h: seq<Entry<K, V>>, k: K, i: int)
    requires h != []
    ensures var n := |h| - 1;
            Survives(h, k, i) <==> (i == n && Puts(h[n], k)) || (Survives(h[..n], k, i) && !Deletes(h[n], k))
  {}

  /** A row exists exactly for the live keys. */
  lemma {:induction false} RowsAreLive<K, V>(h: seq<Entry<K, V>>, k: K)
    ensures k in Run(h).rows <==> Live(h, k)
  {
    if h != [] {
      var n := |h| - 1;
      RowsAreLive(h[..n], k);
      if Live(h, k) {
        var i :| Survives(h, k, i);
        SurvivesNext(h, k, i);
      }
      if k in Run(h).rows {
        if Puts(h[n], k) {
          SurvivesNext(h, k, n);
        } else {
          var i :| Survives(h[..n], k, i);
          SurvivesNext(h, k, i);
        }
      }
    }
  }

  /** A row holds what its last put wrote and that put's index, and was created by the first
      put since the key was last deleted. */
  lemma {:induction false} RowOrigin<K, V>(h: seq<Entry<K, V>>, k: K) returns (first: int, last: int)
    requires k in Run(h).rows
    ensures FirstPut(h, k, first) && LastPut(h, k, last) && first <= last
    ensures Run(h).rows[k] == Row(h[last].change.value, h[first].index, h[last].index)
  {
    var n := |h| - 1;
    var before := h[..n];
    if k in Run(before).rows {
      first, last := RowOrigin(before, k);
      SurvivesNext(h, k, first);
      if Puts(h[n], k) {
        last := n;
      }
      assert FirstPut(h, k, first) by {
        forall j | 0 <= j < first && Puts(h[j], k) ensures exists d :: j < d < first && Deletes(h[d], k) {
          assert Puts(before[j], k);
          var d :| j < d < first && Deletes(before[d], k);
          assert Deletes(h[d], k);
        }
      }
      SurvivesNext(h, k, last);
    } else {
      first, last := n, n;
      RowsAreLive(before, k);
      forall j | 0 <= j < n && Puts(h[j], k) ensures exists d :: j < d < n && Deletes(h[d], k) {
        assert !Survives(before, k, j) && Puts(before[j], k);
        var d :| j < d < n && Deletes(before[d], k);
        assert Deletes(h[d], k);
      }
    }
  }

  /** The table's index entry is the index of the last entry that changed the table. */
  lemma {:induction false} IndexOrigin<K, V>(h: seq<Entry<K, V>>) returns (last: int)
    ensures last == -1 ==> Run(h).index == 0 && forall i :: !Effective(h, i)
    ensures last != -1 ==> LastEffective(h, last) && Run(h).index == h[last].index
  {
    if h == [] {
      last := -1;
    } else {
      var n := |h| - 1;
      var before := h[..n];
      last := IndexOrigin(before);
      forall i | 0 <= i < n ensures Effective(h, i) <==> Effective(before, i) {
        assert h[..i] == before[..i];
      }
      if h[n].change.Remove? {
        RowsAreLive(before, h[n].change.key);
      }
      if Effective(h, n) {
        last := n;
      }
    }
  }

  // ---- indexes --------------------------------------------------------------------------------

  /** Raft applies commands in the order of their indexes, which start at 1. */
  ghost predicate Ordered<K, V>(h: seq<Entry<K, V>>) {
    && (forall i :: 0 <= i < |h| ==> h[i].index > 0)
    && forall i, j :: 0 <= i < j < |h| ==> h[i].index < h[j].index
  }

  /** CreateIndex <= ModifyIndex <= the table's index <= the last applied index. */
  lemma IndexesOrdered<K, V>(h: seq<Entry<K, V>>, k: K)
    requires Ordered(h) && k in Run(h).rows
    ensures var row := Run(h).rows[k];
            && 0 < row.createIndex <= row.modifyIndex <= Run(h).index
            && h != [] && Run(h).index <= h[|h| - 1].index
  {
    var first, last := RowOrigin(h, k);
    var changed := IndexOrigin(h);
    assert Effective(h, last);
  }
}
