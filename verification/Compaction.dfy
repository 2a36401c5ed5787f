/** The compact cleanup policy (commitlog/compact_cleaner.go), on the bytes it writes. */
module Compaction {
  import opened Basics
  import opened Bytes
  import opened MessageView
  import opened SegmentIndex
  import opened Segments
  import opened LogSpec
  import opened CommitLogs

  /** Key hashes of a message set. */
  type HashesOf = bytes -> seq<int>

  // ---- what compaction should do --------------------------------------------------------

  predicate Carries(hs: HashesOf, sets: seq<bytes>, h: int) {
    exists i :: 0 <= i < |sets| && h in hs(sets[i])
  }

  /** A set worth keeping: one of its keys has no later value. */
  predicate Current(hs: HashesOf, ms: bytes, later: seq<bytes>) {
    exists h :: h in hs(ms) && !Carries(hs, later, h)
  }

  /** The sets of `sets` that hold a key's last value, when `later` follows. */
  function Compact(hs: HashesOf, sets: seq<bytes>, later: seq<bytes>): (r: seq<bytes>)
    decreases |sets|
  {
    if sets == [] then []
    else (if Current(hs, sets[0], sets[1..] + later) then [sets[0]] else []) + Compact(hs, sets[1..], later)
  }

  /** The last set that carries a key hash: what a reader of the whole log ends up with. */
  function Lookup(hs: HashesOf, sets: seq<bytes>, h: int): (r: Option<bytes>)
  {
    if sets == [] then None
    else
      match Lookup(hs, sets[1..], h)
      case Some(ms) => Some(ms)
      case None => if h in hs(sets[0]) then Some(sets[0]) else None
  }

  lemma {:induction false} LookupCarries(hs: HashesOf, sets: seq<bytes>, h: int)
    ensures Lookup(hs, sets, h).Some? <==> Carries(hs, sets, h)
  {
    if sets != [] {
      var rest := sets[1..];
      LookupCarries(hs, rest, h);
      if Carries(hs, rest, h) {
        var i :| 0 <= i < |rest| && h in hs(rest[i]);
        assert sets[i + 1] == rest[i];
      }
      if Carries(hs, sets, h) && h !in hs(sets[0]) {
        var i :| 0 <= i < |sets| && h in hs(sets[i]);
        assert rest[i - 1] == sets[i];
      }
    }
  }

  /** Compaction preserves meaning: every key hash keeps its last set. */
  lemma {:induction false} CompactPreservesLookup(hs: HashesOf, sets: seq<bytes>, h: int)
    ensures Lookup(hs, Compact(hs, sets, []), h) == Lookup(hs, sets, h)
  {
    if sets != [] {
      var rest := sets[1..];
      assert rest + [] == rest;
      CompactPreservesLookup(hs, rest, h);
      LookupCarries(hs, rest, h);
      var kept := Compact(hs, rest, []);
      assert ([sets[0]] + kept)[1..] == kept;
      assert [] + kept == kept;
    }
  }

  /** Kept sets are the old ones in the old order, byte for byte. */
  lemma {:induction false} CompactIsSubsequence(hs: HashesOf, sets: seq<bytes>, later: seq<bytes>)
    ensures Subsequence(Compact(hs, sets, later), sets)
  {
    if sets != [] {
      CompactIsSubsequence(hs, sets[1..], later);
      var kept := Compact(hs, sets[1..], later);
      assert ([sets[0]] + kept)[1..] == kept;
      assert [] + kept == kept;
    }
  }

  lemma {:induction false} CompactHas(hs: HashesOf, sets: seq<bytes>, x: bytes)
    ensures x in Compact(hs, sets, []) <==> exists k :: 0 <= k < |sets| && sets[k] == x && Current(hs, x, sets[k + 1..])
  {
    hide Current;
    if sets != [] {
      var rest := sets[1..];
      assert rest + [] == rest;
      CompactHas(hs, rest, x);
      if k :| 0 <= k < |rest| && rest[k] == x && Current(hs, x, rest[k + 1..]) {
        assert sets[k + 1] == x && sets[k + 1 + 1..] == rest[k + 1..];
      }
      if k :| 0 < k < |sets| && sets[k] == x && Current(hs, x, sets[k + 1..]) {
        assert rest[k - 1] == x && rest[k - 1 + 1..] == sets[k + 1..];
      }
    }
  }

  /** Which sets are kept: exactly those with a key hash that no later set has. */
  lemma CompactExact(hs: HashesOf, sets: seq<bytes>, x: bytes)
    ensures x in Compact(hs, sets, []) <==>
            exists k, h :: 0 <= k < |sets| && sets[k] == x && h in hs(x)
              && forall j :: k < j < |sets| ==> h !in hs(sets[j])
  {
    hide Compact, Current;
    CompactHas(hs, sets, x);
    if k :| 0 <= k < |sets| && sets[k] == x && Current(hs, x, sets[k + 1..]) {
      CurrentFrom(hs, sets, k, x);
    }
    if k, h :| 0 <= k < |sets| && sets[k] == x && h in hs(x) && forall j :: k < j < |sets| ==> h !in hs(sets[j]) {
      CurrentFrom(hs, sets, k, x);
    }
  }

  lemma CurrentFrom(hs: HashesOf, sets: seq<bytes>, k: nat, x: bytes)
    requires k < |sets|
    ensures Current(hs, x, sets[k + 1..]) <==>
            exists h :: h in hs(x) && forall j :: k < j < |sets| ==> h !in hs(sets[j])
  {
    hide Carries;
    if h :| h in hs(x) && !Carries(hs, sets[k + 1..], h) {
      CarriesFrom(hs, sets, k, h);
    }
    if h :| h in hs(x) && forall j :: k < j < |sets| ==> h !in hs(sets[j]) {
      CarriesFrom(hs, sets, k, h);
    }
  }

  lemma CarriesFrom(hs: HashesOf, sets: seq<bytes>, k: nat, h: int)
    requires k < |sets|
    ensures Carries(hs, sets[k + 1..], h) <==> exists j :: k < j < |sets| && h in hs(sets[j])
  {
    var later := sets[k + 1..];
    assert forall i :: 0 <= i < |later| ==> later[i] == sets[k + 1 + i];
    assert forall j :: k < j < |sets| ==> sets[j] == later[j - k - 1];
  }

  lemma {:induction false} CompactCarries(hs: HashesOf, sets: seq<bytes>, later: seq<bytes>, h: int)
    ensures Carries(hs, Compact(hs, sets, later), h) ==> Carries(hs, sets, h)
  {
    var kept := Compact(hs, sets, later);
    if sets != [] && Carries(hs, kept, h) {
      var i :| 0 <= i < |kept| && h in hs(kept[i]);
      var rest := Compact(hs, sets[1..], later);
      CompactCarries(hs, sets[1..], later, h);
      if kept == [sets[0]] + rest && i == 0 {
        assert h in hs(sets[0]);
      } else {
        assert kept[i] in rest;
        var j :| 0 <= j < |rest| && rest[j] == kept[i];
        assert Carries(hs, rest, h);
        var k :| 0 <= k < |sets[1..]| && h in hs(sets[1..][k]);
        assert sets[k + 1] == sets[1..][k];
      }
    }
  }

  /** Compacting again drops nothing. */
  lemma {:induction false} CompactIdempotent(hs: HashesOf, sets: seq<bytes>)
    ensures Compact(hs, Compact(hs, sets, []), []) == Compact(hs, sets, [])
  {
    if sets != [] {
      var rest := sets[1..];
      var kept := Compact(hs, rest, []);
      CompactIdempotent(hs, rest);
      assert rest + [] == rest && kept + [] == kept;
      if Current(hs, sets[0], rest) {
        var h :| h in hs(sets[0]) && !Carries(hs, rest, h);
        CompactCarries(hs, rest, [], h);
        assert Current(hs, sets[0], kept);
        assert ([sets[0]] + kept)[1..] == kept;
      } else {
        assert [] + kept == kept;
      }
    }
  }

  lemma Assoc<T>(a: seq<T>, b: seq<T>, c: seq<T>)
    ensures a + (b + c) == (a + b) + c
  {}

  /** Segments can be compacted one by one, each against everything after it. */
  lemma {:induction false} CompactSplit(hs: HashesOf, a: seq<bytes>, b: seq<bytes>, later: seq<bytes>)
    ensures Compact(hs, a + b, later) == Compact(hs, a, b + later) + Compact(hs, b, later)
  {
    hide Current;
    if a == [] {
      assert a + b == b;
    } else {
      assert (a + b)[1..] == a[1..] + b;
      assert a[1..] + b + later == a[1..] + (b + later);
      CompactSplit(hs, a[1..], b, later);
      var head := if Current(hs, a[0], a[1..] + (b + later)) then [a[0]] else [];
      Assoc(head, Compact(hs, a[1..], b + later), Compact(hs, b, later));
    }
  }

  // ---- how the cleaner decides ----------------------------------------------------------

  type Latest = map<int, int>

  function NoteSet(m: Latest, hashes: seq<int>, offset: int): (r: Latest) {
    m + map h | h in hashes :: offset
  }

  predicate Headed(sets: seq<bytes>) {
    forall i :: 0 <= i < |sets| ==> |sets[i]| >= HEADER_LEN
  }

  /** The map of key hashes to latest offsets after scanning `sets`. */
  function Note(hs: HashesOf, m: Latest, sets: seq<bytes>): (r: Latest)
    requires Headed(sets)
  {
    if sets == [] then m
    else NoteSet(Note(hs, m, sets[..|sets| - 1]), hs(sets[|sets| - 1]), Offset(sets[|sets| - 1]))
  }

  /** Go's map lookup: zero for a missing key. */
  function At(m: Latest, h: int): (offset: int) {
    if h in m then m[h] else 0
  }

  predicate Retained(hs: HashesOf, m: Latest, ms: bytes)
    requires |ms| >= HEADER_LEN
  {
    exists i :: 0 <= i < |hs(ms)| && At(m, hs(ms)[i]) <= Offset(ms)
  }

  ghost predicate Increasing(sets: seq<bytes>) {
    && Headed(sets)
    && forall i, j :: 0 <= i < j < |sets| ==> Offset(sets[i]) < Offset(sets[j])
  }

  lemma CarriesLast(hs: HashesOf, sets: seq<bytes>, k: nat, h: int)
    requires k < |sets|
    ensures var n := |sets| - 1;
            Carries(hs, sets[k..], h) <==> Carries(hs, sets[..n][k..], h) || h in hs(sets[n])
  {
    var n := |sets| - 1;
    var all, before := sets[k..], sets[..n][k..];
    assert all == before + [sets[n]];
    if h in hs(sets[n]) {
      assert all[|all| - 1] == sets[n];
    }
    assert forall i :: 0 <= i < |before| ==> all[i] == before[i];
  }

  /** After the scan, a hash carried at `k` maps to that set's offset if no later set carries
      it, and to a greater offset if one does; the map before the scan does not matter. */
  lemma {:induction false} NoteAt(hs: HashesOf, m: Latest, sets: seq<bytes>, k: nat, h: int)
    requires Increasing(sets) && k < |sets| && h in hs(sets[k])
    ensures h in Note(hs, m, sets)
    ensures !Carries(hs, sets[k + 1..], h) ==> Note(hs, m, sets)[h] == Offset(sets[k])
    ensures Carries(hs, sets[k + 1..], h) ==> Note(hs, m, sets)[h] > Offset(sets[k])
  {
    hide Offset, Carries;
    var n := |sets| - 1;
    if k < n {
      NoteAt(hs, m, sets[..n], k, h);
      CarriesLast(hs, sets, k + 1, h);
    } else {
      assert sets[k + 1..] == [];
      CarriesNone(hs, h);
    }
  }

  lemma CarriesNone(hs: HashesOf, h: int)
    ensures !Carries(hs, [], h)
  {}

  /** The cleaner's test on the map says exactly whether a set is current. */
  lemma RetainedIsCurrent(hs: HashesOf, m: Latest, sets: seq<bytes>, k: nat)
    requires Increasing(sets) && k < |sets|
    ensures Retained(hs, Note(hs, m, sets), sets[k]) <==> Current(hs, sets[k], sets[k + 1..])
  {
    hide Offset, Note, Carries;
    var ms, noted, later := sets[k], Note(hs, m, sets), sets[k + 1..];
    forall h | h in hs(ms)
      ensures h in noted && (noted[h] <= Offset(ms) <==> !Carries(hs, later, h))
    {
      NoteAt(hs, m, sets, k, h);
    }
    if Current(hs, ms, later) {
      var h :| h in hs(ms) && !Carries(hs, later, h);
      var i :| 0 <= i < |hs(ms)| && hs(ms)[i] == h;
      assert At(noted, hs(ms)[i]) <= Offset(ms);
    }
    if Retained(hs, noted, ms) {
      var i :| 0 <= i < |hs(ms)| && At(noted, hs(ms)[i]) <= Offset(ms);
      var h := hs(ms)[i];
      assert h in hs(ms) && !Carries(hs, later, h);
    }
  }

  lemma {:induction false} NoteCat(hs: HashesOf, m: Latest, a: seq<bytes>, b: seq<bytes>)
    requires Headed(a) && Headed(b)
    ensures Note(hs, m, a + b) == Note(hs, Note(hs, m, a), b)
  {
    hide Offset, NoteSet;
    if b == [] {
      assert a + b == a;
    } else {
      var n := |b| - 1;
      assert (a + b)[..|a| + n] == a + b[..n] && (a + b)[|a| + n] == b[n];
      NoteCat(hs, m, a, b[..n]);
    }
  }

  // ---- the cleaner ----------------------------------------------------------------------

  /** Reading the messages of a set, and their keys, does not panic. */
  predicate Parses(ms: bytes) {
    && |ms| >= HEADER_LEN
    && MessagesOf(ms).Some?
    && forall i :: 0 <= i < |MessagesOf(ms).value| ==> KeyBytes(MessagesOf(ms).value[i]).Some?
  }

  /** The hashes of the keys of a set's messages. */
  function Hashing(hash: bytes -> int): (hs: HashesOf) {
    (ms: bytes) =>
      if !Parses(ms) then []
      else
        var msgs := MessagesOf(ms).value;
        seq(|msgs|, i requires 0 <= i < |msgs| => hash(KeyBytes(msgs[i]).value))
  }

  lemma HashingAt(hash: bytes -> int, ms: bytes, msgs: seq<bytes>)
    requires Parses(ms) && MessagesOf(ms) == Some(msgs)
    ensures |Hashing(hash)(ms)| == |msgs|
    ensures forall i :: 0 <= i < |msgs| ==>
              KeyBytes(msgs[i]).Some? && Hashing(hash)(ms)[i] == hash(KeyBytes(msgs[i]).value)
  {}

  lemma NoteSetNext(m: Latest, hashes: seq<int>, i: nat, offset: int)
    requires i < |hashes|
    ensures NoteSet(m, hashes[..i + 1], offset) == NoteSet(m, hashes[..i], offset)[hashes[i] := offset]
  {
    assert forall h :: h in hashes[..i + 1] <==> h in hashes[..i] || h == hashes[i];
  }

  class CompactCleaner {
    const hash: bytes -> int
    var m: Latest

    constructor (hash: bytes -> int)
      ensures this.hash == hash && m == map[]
    {
      this.hash, m := hash, map[];
    }

    /** False is a panic; what the map holds then is not looked at again. */
    method NoteMessages(ms: bytes) returns (ok: bool)
      requires |ms| >= HEADER_LEN
      modifies this
      ensures ok <==> Parses(ms)
      ensures ok ==> m == NoteSet(old(m), Hashing(hash)(ms), Offset(ms))
    {
      hide Offset, Hashing, NoteSet, Parses, KeyBytes, MessagesOf;
      ghost var hashes := Hashing(hash)(ms);
      var offset := Offset(ms);
      var msgs := Messages(ms);
      ParsesWhen(ms);
      if msgs == None {
        return false;
      }
      if Parses(ms) {
        HashingAt(hash, ms, msgs.value);
      }
      NoteSetNone(m, hashes, offset);
      for i := 0 to |msgs.value|
        invariant forall k :: 0 <= k < i ==> KeyBytes(msgs.value[k]).Some?
        invariant Parses(ms) ==> m == NoteSet(old(m), hashes[..i], offset)
      {
        var key := KeyBytes(msgs.value[i]);
        if key == None {
          return false;
        }
        if Parses(ms) {
          NoteSetNext(old(m), hashes, i, offset);
        }
        m := m[hash(key.value) := offset];
      }
      assert Parses(ms) ==> hashes[..|hashes|] == hashes;
      return true;
    }

    /** None is a panic. */
    method Retains(ms: bytes) returns (retain: Option<bool>)
      requires |ms| >= HEADER_LEN
      ensures retain == if Parses(ms) then Some(Retained(Hashing(hash), m, ms)) else None
    {
      hide Offset, Hashing, Parses, KeyBytes, MessagesOf;
      ghost var hashes := Hashing(hash)(ms);
      var offset := Offset(ms);
      var msgs := Messages(ms);
      ParsesWhen(ms);
      if msgs == None {
        return None;
      }
      if Parses(ms) {
        HashingAt(hash, ms, msgs.value);
      }
      var found := false;
      for i := 0 to |msgs.value|
        invariant forall k :: 0 <= k < i ==> KeyBytes(msgs.value[k]).Some?
        invariant Parses(ms) ==> (found <==> exists j :: 0 <= j < i && At(m, hashes[j]) <= offset)
      {
        var key := KeyBytes(msgs.value[i]);
        if key == None {
          return None;
        }
        if At(m, hash(key.value)) <= offset {
          assert Parses(ms) ==> At(m, hashes[i]) <= offset;
          found := true;
        }
      }
      return Some(found);
    }

    /** First pass over one segment: records the latest offset of each key hash, up to the first
        set that does not parse. */
    method NoteSegment(s: Segment) returns (ok: bool)
      requires s.Valid() && s.Readable()
      modifies this
      ensures Headed(s.sets) && (ok <==> Parsed(s.sets))
      ensures ok ==> m == Note(Hashing(hash), old(m), s.sets)
    {
      hide Segment.Valid, Segment.Readable, Hashing, Note, Parses, Parsed;
      ReadableHeaded(s);
      var ss := new SegmentScanner(s);
      ghost var j := 0;
      NoteNone(Hashing(hash), m, s.sets);
      ParsedStep(s.sets, 0);
      var ms := ss.Scan();
      while ms.Some?
        invariant ss.Valid() && ss.s == s && 0 <= j <= |s.sets|
        invariant if j < |s.sets| then ms == Some(s.sets[j]) && ss.Done() == j + 1 else ms == None
        invariant m == Note(Hashing(hash), old(m), s.sets[..j]) && Parsed(s.sets[..j])
        decreases |s.sets| - j
      {
        NoteNext(Hashing(hash), old(m), s.sets, j);
        ParsedStep(s.sets, j);
        ok := NoteMessages(ms.value);
        if !ok {
          return;
        }
        j := j + 1;
        ms := ss.Scan();
      }
      assert s.sets[..j] == s.sets;
      ok := true;
    }

    /** Second pass over one segment: writes the sets the map retains. */
    method KeepSegment(s: Segment, ghost earlier: seq<bytes>, ghost later: seq<bytes>, ghost m0: Latest)
      returns (cs: Option<bytes>)
      requires s.Valid() && s.Readable()
      requires Increasing(earlier + s.sets + later) && m == Note(Hashing(hash), m0, earlier + s.sets + later)
      ensures cs == if Parsed(s.sets) then Some(Concat(Compact(Hashing(hash), s.sets, later))) else None
    {
      hide Segment.Valid, Segment.Readable, Hashing, Note, Parses, Parsed, Compact, Concat, Retained, Increasing;
      ReadableHeaded(s);
      var ss := new SegmentScanner(s);
      ghost var j, kept := 0, [];
      var written: bytes := [];
      KeepStart(Hashing(hash), s.sets, later);
      ParsedStep(s.sets, 0);
      var ms := ss.Scan();
      while ms.Some?
        invariant ss.Valid() && ss.s == s && 0 <= j <= |s.sets|
        invariant if j < |s.sets| then ms == Some(s.sets[j]) && ss.Done() == j + 1 else ms == None
        invariant written == Concat(kept) && Parsed(s.sets[..j])
        invariant Compact(Hashing(hash), s.sets, later) == kept + Compact(Hashing(hash), s.sets[j..], later)
        decreases |s.sets| - j
      {
        KeepStep(Hashing(hash), m0, earlier, s.sets, later, j, kept);
        ParsedStep(s.sets, j);
        var retain := Retains(ms.value);
        if retain == None {
          return None;
        }
        if retain.value {
          written := written + ms.value;
          kept := kept + [ms.value];
        }
        j := j + 1;
        ms := ss.Scan();
      }
      KeepEnd(Hashing(hash), s.sets, later, kept);
      assert s.sets[..j] == s.sets;
      return Some(written);
    }

    /** First pass over all segments. */
    method NoteAll(segments: seq<Segment>) returns (ok: bool)
      requires forall s :: s in segments ==> s.Valid() && s.Readable()
      modifies this
      ensures Headed(Live(Models(segments))) && (ok <==> Parsed(Live(Models(segments))))
      ensures ok ==> m == Note(Hashing(hash), old(m), Live(Models(segments)))
    {
      hide Segment.Valid, Segment.Readable, Hashing, Note, Parsed, Live, Headed;
      ghost var log, hs, m0 := Models(segments), Hashing(hash), m;
      AllHeaded(segments);
      NoneNoted(hs, m0, log);
      for i := 0 to |segments|
        invariant Headed(Live(log[..i])) && m == Note(hs, m0, Live(log[..i])) && Parsed(Live(log[..i]))
      {
        LiveSplit(log, i);
        ok := NoteSegment(segments[i]);
        ParsedCat(Live(log[..i]), log[i].sets);
        ParsedCat(Live(log[..i]) + log[i].sets, Live(log[i + 1..]));
        if !ok {
          return;
        }
        HeadedCat(Live(log[..i]), log[i].sets);
        NoteCat(hs, m0, Live(log[..i]), log[i].sets);
      }
      assert log[..|log|] == log;
      ok := true;
    }

    /** Clean scans every segment twice: the first pass maps each key hash to its latest
        offset, the second writes the sets the map retains. What the map held before does
        not matter. It panics, in the first pass, exactly if some set does not parse. */
    method Clean(segments: seq<Segment>) returns (cleaned: Option<seq<bytes>>)
      requires forall s :: s in segments ==> s.Valid() && s.Readable()
      requires Increasing(Live(Models(segments)))
      modifies this
      ensures cleaned.Some? <==> Parsed(Live(Models(segments)))
      ensures cleaned.Some? ==>
                && Cleaned(Hashing(hash), Models(segments), cleaned.value)
                && Concat(cleaned.value) == Concat(Compact(Hashing(hash), Live(Models(segments)), []))
    {
      hide Segment.Valid, Segment.Readable, Hashing, Note, Parsed, Compact, Concat, Increasing, Live, Headed;
      ghost var log, hs, m0 := Models(segments), Hashing(hash), m;
      var ok := NoteAll(segments);
      if !ok {
        return None;
      }
      var files: seq<bytes> := [];
      for i := 0 to |segments|
        invariant |files| == i && m == Note(hs, m0, Live(log))
        invariant forall k :: 0 <= k < i ==> files[k] == Concat(Compact(hs, log[k].sets, Live(log[k + 1..])))
      {
        LiveSplit(log, i);
        ParsedCat(Live(log[..i]), log[i].sets);
        ParsedCat(Live(log[..i]) + log[i].sets, Live(log[i + 1..]));
        var cs := KeepSegment(segments[i], Live(log[..i]), Live(log[i + 1..]), m0);
        files := files + [cs.value];
      }
      CleanedWhole(hs, log, files);
      return Some(files);
    }
  }

  lemma ParsesWhen(ms: bytes)
    requires |ms| >= HEADER_LEN
    ensures Parses(ms) <==>
            && MessagesOf(ms).Some?
            && forall i :: 0 <= i < |MessagesOf(ms).value| ==> KeyBytes(MessagesOf(ms).value[i]).Some?
  {}

  lemma ReadableHeaded(s: Segment)
    requires s.Readable()
    ensures Headed(s.sets)
  {}

  lemma {:induction false} AllHeaded(segments: seq<Segment>)
    requires forall s :: s in segments ==> s.Readable()
    ensures Headed(Live(Models(segments)))
  {
    if segments != [] {
      ReadableHeaded(segments[0]);
      AllHeaded(segments[1..]);
      assert Models(segments)[1..] == Models(segments[1..]);
      HeadedCat(segments[0].sets, Live(Models(segments[1..])));
    }
  }

  lemma ParsedStep(sets: seq<bytes>, j: nat)
    requires j < |sets| || j == 0
    ensures Parsed(sets[..0])
    ensures j < |sets| && Parsed(sets[..j]) ==> (Parses(sets[j]) <==> Parsed(sets[..j + 1]))
    ensures j < |sets| && Parsed(sets) ==> Parses(sets[j])
  {
    hide Parses;
    if j < |sets| {
      assert sets[..j + 1][j] == sets[j];
      assert forall k :: 0 <= k < j ==> sets[..j + 1][k] == sets[..j][k];
    }
  }

  lemma ParsedCat(a: seq<bytes>, b: seq<bytes>)
    ensures Parsed(a + b) <==> Parsed(a) && Parsed(b)
  {
    hide Parses;
    assert forall i :: 0 <= i < |a| ==> (a + b)[i] == a[i];
    assert forall i :: 0 <= i < |b| ==> (a + b)[|a| + i] == b[i];
  }

  lemma NoteSetNone(m: Latest, hashes: seq<int>, offset: int)
    ensures NoteSet(m, hashes[..0], offset) == m
  {
    assert NoteSet(m, [], offset) == m;
  }

  ghost predicate Parsed(sets: seq<bytes>) {
    forall i :: 0 <= i < |sets| ==> Parses(sets[i])
  }

  lemma NoteNone(hs: HashesOf, m: Latest, sets: seq<bytes>)
    ensures Note(hs, m, sets[..0]) == m
  {}

  lemma NoteNext(hs: HashesOf, m: Latest, sets: seq<bytes>, j: nat)
    requires Headed(sets) && j < |sets|
    ensures Note(hs, m, sets[..j + 1]) == NoteSet(Note(hs, m, sets[..j]), hs(sets[j]), Offset(sets[j]))
  {
    hide NoteSet, Offset;
    assert sets[..j + 1][..j] == sets[..j];
  }

  lemma KeepStart(hs: HashesOf, sets: seq<bytes>, later: seq<bytes>)
    ensures Concat([]) == [] && Compact(hs, sets, later) == [] + Compact(hs, sets[0..], later)
  {
    assert sets[0..] == sets;
  }

  lemma KeepEnd(hs: HashesOf, sets: seq<bytes>, later: seq<bytes>, kept: seq<bytes>)
    requires Compact(hs, sets, later) == kept + Compact(hs, sets[|sets|..], later)
    ensures Compact(hs, sets, later) == kept
  {}

  /** Keeping a set exactly when the map retains it follows the compaction of the rest. */
  lemma KeepStep(hs: HashesOf, m0: Latest, earlier: seq<bytes>, sets: seq<bytes>, later: seq<bytes>, j: nat,
                 kept: seq<bytes>)
    requires Increasing(earlier + sets + later) && j < |sets|
    requires Compact(hs, sets, later) == kept + Compact(hs, sets[j..], later)
    ensures |sets[j]| >= HEADER_LEN
    ensures var retain := Retained(hs, Note(hs, m0, earlier + sets + later), sets[j]);
            Compact(hs, sets, later) == (if retain then kept + [sets[j]] else kept) + Compact(hs, sets[j + 1..], later)
    ensures Concat(kept + [sets[j]]) == Concat(kept) + sets[j]
  {
    var all, k := earlier + sets + later, |earlier| + j;
    assert all[k] == sets[j] && all[k + 1..] == sets[j + 1..] + later;
    RetainedIsCurrent(hs, m0, all, k);
    assert (kept + [sets[j]])[..|kept|] == kept;
    hide Retained, Note, Current, Increasing;
    assert sets[j..][1..] == sets[j + 1..];
    var rest := Compact(hs, sets[j + 1..], later);
    Assoc(kept, [sets[j]], rest);
    assert [] + rest == rest;
  }

  lemma NoneNoted(hs: HashesOf, m: Latest, log: Log)
    ensures Headed(Live(log[..0])) && Note(hs, m, Live(log[..0])) == m && Parsed(Live(log[..0]))
  {}

  lemma HeadedCat(a: seq<bytes>, b: seq<bytes>)
    requires Headed(a) && Headed(b)
    ensures Headed(a + b)
  {}

  /** Each cleaned file is its segment's sets compacted against everything after them. */
  ghost predicate Cleaned(hs: HashesOf, log: Log, cleaned: seq<bytes>) {
    && |cleaned| == |log|
    && forall k :: 0 <= k < |log| ==> cleaned[k] == Concat(Compact(hs, log[k].sets, Live(log[k + 1..])))
  }

  lemma {:induction false} CleanedWhole(hs: HashesOf, log: Log, cleaned: seq<bytes>)
    requires Cleaned(hs, log, cleaned)
    ensures Concat(cleaned) == Concat(Compact(hs, Live(log), []))
  {
    if log != [] {
      var later := Live(log[1..]);
      forall k | 0 <= k < |log| - 1
        ensures cleaned[1..][k] == Concat(Compact(hs, log[1..][k].sets, Live(log[1..][k + 1..])))
      {
        assert log[1..][k + 1..] == log[k + 2..];
      }
      CleanedWhole(hs, log[1..], cleaned[1..]);
      assert later + [] == later;
      CompactSplit(hs, log[0].sets, later, []);
      ConcatCat(Compact(hs, log[0].sets, later), Compact(hs, later, []));
      assert cleaned == [cleaned[0]] + cleaned[1..];
      ConcatCat([cleaned[0]], cleaned[1..]);
      ConcatOne(cleaned[0]);
    }
  }

  /** The sets of a commit log come in the order of their offsets, as the cleaner needs. */
  lemma LiveIncreasing(c: Config, log: Log, flat: seq<bytes>)
    requires Inv(c, log, flat) && Flat(flat)
    ensures Increasing(Live(log))
  {
    hide Offset, Live, Inv, Un;
    LiveInRange(c, log, flat);
    LiveIsSuffix(c, log, flat);
    var base, live := log[0].base, Live(log);
    assert forall i :: 0 <= i < |live| ==> live[i] == flat[base + i];
  }

  lemma LiveInRange(c: Config, log: Log, flat: seq<bytes>)
    requires Inv(c, log, flat)
    ensures log != [] && log[0].base <= |flat|
  {}

  // ---- collision-free hashes --------------------------------------------------------------

  ghost predicate Injective(hash: bytes -> int) {
    forall a: bytes, b: bytes :: hash(a) == hash(b) ==> a == b
  }
}
