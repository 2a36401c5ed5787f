/** The commit log (commitlog/commitlog.go) with the delete policy
    (commitlog/delete_cleaner.go), refining the steps of LogSpec. */
module CommitLogs {
  import opened Basics
  import opened Bytes
  import opened MessageView
  import opened SegmentIndex
  import opened Segments
  import opened LogSpec

  ghost function Models(segments: seq<Segment>): (log: Log)
    reads segments
    ensures |log| == |segments|
    ensures forall i :: 0 <= i < |segments| ==> log[i] == segments[i].Model()
  {
    seq(|segments|, i requires 0 <= i < |segments| reads segments => segments[i].Model())
  }

  lemma PositionsAreSizes(segments: seq<Segment>)
    requires forall s :: s in segments ==> s.LogValid()
    ensures forall k :: 0 <= k < |segments| ==> segments[k].position == Sizes(Models(segments))[k]
  {
    forall k | 0 <= k < |segments| ensures segments[k].position == Sizes(Models(segments))[k] {
      assert segments[k] in segments;
    }
  }

  lemma SumFrom(sizes: seq<nat>, i: nat)
    requires i < |sizes|
    ensures Sum(sizes[i..]) == sizes[i] + Sum(sizes[i + 1..])
  {
    assert sizes[i..][1..] == sizes[i + 1..];
  }

  lemma SumNone(sizes: seq<nat>)
    ensures Sum(sizes[|sizes|..]) == 0
  {}

  /** Where the backward scan stops is where the longest fitting suffix starts. */
  lemma StopsAtCut(limit: int, sizes: seq<nat>, cut: nat)
    requires cut < |sizes|
    requires cut == |sizes| - 1 || Sum(sizes[cut..]) <= limit
    requires cut > 0 ==> Sum(sizes[cut - 1..]) > limit
    ensures cut == Cut(limit, sizes)
  {
    forall j | 0 <= j < cut ensures Sum(sizes[j..]) > limit {
      SuffixSums(sizes, j, cut - 1);
    }
    CutIsLongest(limit, sizes);
    LongestFitUnique(limit, sizes, cut, Cut(limit, sizes));
  }

  class DeleteCleaner {
    const retentionBytes: int

    constructor (bytes: int)
      ensures retentionBytes == bytes
    {
      retentionBytes := bytes;
    }

    /** The backward scan: adds up segments from the newest while they fit. */
    method Retain(segments: seq<Segment>) returns (cleaned: seq<Segment>, i: int)
      requires segments != [] && forall s :: s in segments ==> s.LogValid()
      ensures -1 <= i < |segments| - 1 && cleaned == segments[i + 1..]
      ensures i + 1 == Cut(retentionBytes, Sizes(Models(segments)))
    {
      hide *;
      ghost var sizes := Sizes(Models(segments));
      PositionsAreSizes(segments);
      cleaned := [segments[|segments| - 1]];
      var totalBytes := cleaned[0].position;
      i := |segments| - 2;
      SumFrom(sizes, i + 1);
      SumNone(sizes);
      DropNext(segments, i + 1);
      while i > -1
        invariant -1 <= i <= |segments| - 2
        invariant cleaned == segments[i + 1..]
        invariant totalBytes == Sum(sizes[i + 1..])
        invariant i == |segments| - 2 || totalBytes <= retentionBytes
      {
        var s := segments[i];
        SumFrom(sizes, i);
        DropNext(segments, i);
        totalBytes := totalBytes + s.position;
        if totalBytes > retentionBytes {
          break;
        }
        cleaned := [s] + cleaned;
        i := i - 1;
      }
      StopsAtCut(retentionBytes, sizes, i + 1);
    }

    /** Keeps the longest suffix of the segments that fits the retention size, or the last
        segment alone, and deletes the segments before it, newest first. */
    method Clean(segments: seq<Segment>) returns (cleaned: seq<Segment>, deleted: seq<Segment>)
      requires forall s :: s in segments ==> s.LogValid()
      ensures |cleaned| <= |segments| && cleaned == segments[|segments| - |cleaned|..]
      ensures Models(cleaned) == LogSpec.Clean(retentionBytes, Models(segments))
      ensures if segments == [] || retentionBytes == -1 then |cleaned| == |segments|
              else LongestFit(retentionBytes, Sizes(Models(segments)), |segments| - |cleaned|)
      ensures Reverses(deleted, segments[..|segments| - |cleaned|])
    {
      hide Segment.LogValid, Sum, Cut, LongestFit;
      if |segments| == 0 || retentionBytes == -1 {
        return segments, [];
      }
      var i;
      cleaned, i := Retain(segments);
      CutIsLongest(retentionBytes, Sizes(Models(segments)));
      assert Models(cleaned) == Models(segments)[i + 1..];
      deleted := Delete(segments, i);
    }

    /** Deletes segment `last` and the ones before it, newest first. */
    method Delete(segments: seq<Segment>, last: int) returns (deleted: seq<Segment>)
      requires -1 <= last < |segments|
      ensures Reverses(deleted, segments[..last + 1])
    {
      deleted := [];
      var i := last;
      while i > -1
        invariant -1 <= i <= last && |deleted| == last - i
        invariant forall k :: 0 <= k < |deleted| ==> deleted[k] == segments[last - k]
      {
        deleted := deleted + [segments[i]];
        i := i - 1;
      }
    }
  }

  lemma PosExtends(sets: seq<bytes>, ms: bytes)
    ensures Pos(sets + [ms], |sets|) == |Concat(sets)|
    ensures forall k :: 0 <= k <= |sets| ==> Pos(sets + [ms], k) == Pos(sets, k)
  {
    assert forall k :: 0 <= k <= |sets| ==> (sets + [ms])[..k] == sets[..k];
    assert sets[..|sets|] == sets;
  }

  /** The second half of CommitLog.Append: the set goes to the file, then its offset and
      position to the index. If the index is full, it panics after the file was written. */
  method WriteSet(s: Segment, ms: bytes) returns (ok: bool)
    requires s.Valid()
    modifies s, s.index, s.index.mmap
    ensures ok <==> old(s.index.position) + ENTRY_WIDTH <= s.index.mmap.Length
    ensures s.LogValid() && s.sets == old(s.sets) + [ms]
    ensures s.Valid() <==> ok
  {
    hide Index.At, Pos, Concat, Wrap32;
    ghost var sets := s.sets;
    var position, offset := s.position, s.nextOffset;
    s.Write(ms);
    ok := s.index.WriteEntry(Entry(offset, position));
    PosExtends(sets, ms);
    if !ok {
      return;
    }
    forall k | 0 <= k < |s.sets|
      ensures s.index.At(k) == Entry(s.baseOffset + k, Wrap32(Pos(s.sets, k)))
    {
      if k == |sets| {
        SmallSlot(s, k);
        assert NewRelEntry(Entry(offset, position), s.baseOffset) == RelEntry(k, Wrap32(position));
      }
    }
  }

  lemma SmallSlot(s: Segment, k: nat)
    requires s.index.Valid() && s.index.bytes == DEFAULT_BYTES && (k + 1) * ENTRY_WIDTH <= s.index.position
    ensures Wrap32(k) == k
  {}

  /** The objects that make up a list of segments. */
  ghost function Reprs(segments: seq<Segment>): (r: set<object>)
  {
    set s, o | s in segments && o in s.Repr() :: o
  }

  ghost predicate Apart(s: Segment, t: Segment) {
    s != t && s.index != t.index && s.index.mmap != t.index.mmap
  }

  ghost predicate Separate(segments: seq<Segment>) {
    forall i, j :: 0 <= i < j < |segments| ==> Apart(segments[i], segments[j])
  }

  lemma SeparateGrown(segments: seq<Segment>, s: Segment)
    requires Separate(segments) && forall t :: t in segments ==> Apart(t, s)
    ensures Separate(segments + [s])
  {}

  lemma SeparateSuffix(segments: seq<Segment>, i: nat)
    requires Separate(segments) && i <= |segments|
    ensures Separate(segments[i..])
  {}

  /** A list of segments that holds the log `Models(segments)` of the flat list. */
  ghost predicate Holds(config: Config, segments: seq<Segment>, flat: seq<bytes>)
    reads segments, set s | s in segments :: s.index, set s | s in segments :: s.index.mmap
  {
    && Separate(segments)
    && (forall s :: s in segments ==> s.Valid() && s.maxBytes == config.maxSegmentBytes)
    && Inv(config, Models(segments), flat) && Flat(flat)
  }

  lemma LastSegment(config: Config, segments: seq<Segment>, flat: seq<bytes>)
    requires Holds(config, segments, flat)
    ensures segments != [] && Models(segments) != [] && config.maxSegmentBytes > 0
    ensures forall s :: s in segments ==> s.Valid() && s.LogValid() && s.maxBytes == config.maxSegmentBytes
    ensures var s := segments[|segments| - 1];
            && Last(Models(segments)) == s.Model()
            && s.nextOffset == |flat| == s.Model().Next() && s.position == s.Model().Size()
  {
    assert segments[|segments| - 1] in segments;
  }

  /** Every set of a segment carries its offset and starts below the segment size. */
  lemma SegmentIsReadable(config: Config, segments: seq<Segment>, flat: seq<bytes>, i: nat)
    requires Holds(config, segments, flat) && i < |segments|
    ensures Starts(config, segments[i].Model())
    ensures config.maxSegmentBytes <= 0x8000_0000 ==> segments[i].Reachable()
    ensures config.maxSegmentBytes <= 0x8000_0000 && Formed(flat) ==> segments[i].Readable()
    ensures forall k :: 0 <= k < |segments[i].sets| ==>
              |segments[i].sets[k]| >= HEADER_LEN && Offset(segments[i].sets[k]) == segments[i].baseOffset + k
  {
    hide Segment.Valid, Separate, Concat, Un, GetInt, Offset, WellFormed;
    var s := Models(segments)[i];
    assert s == segments[i].Model() && s.sets == flat[s.base..s.Next()];
    assert forall k :: 0 <= k < |s.sets| ==> s.sets[k] == flat[s.base + k];
  }

  lemma HoldsParts(config: Config, segments: seq<Segment>, flat: seq<bytes>)
    requires Holds(config, segments, flat)
    ensures segments != [] && Separate(segments) && Inv(config, Models(segments), flat) && Flat(flat)
    ensures forall s :: s in segments ==> s.Valid() && s.maxBytes == config.maxSegmentBytes
  {
    LastSegment(config, segments, flat);
  }

  /** The log with a set added to its last segment. */
  ghost function Grown(log: Log, b: bytes): (r: Log)
    requires |b| >= HEADER_LEN
  {
    if log == [] then log else log[|log| - 1 := Extend(Last(log), b)]
  }

  lemma GrownReady(config: Config, log: Log, b: bytes)
    requires log != [] && |b| >= HEADER_LEN
    ensures Grown(Ready(config, log), b) == AppendStep(config, log, b)
  {
    hide Extend;
  }

  lemma NotHeld(config: Config, segments: seq<Segment>, flat: seq<bytes>)
    requires segments != [] && !segments[|segments| - 1].Valid()
    ensures !Holds(config, segments, flat)
  {
    hide Segment.Valid;
    assert segments[|segments| - 1] in segments;
  }

  lemma SeparateLast(segments: seq<Segment>, i: nat)
    requires Separate(segments) && i < |segments| - 1
    ensures var s, t := segments[i], segments[|segments| - 1];
            s != t && s.index != t.index && s.index.mmap != t.index.mmap
  {
    assert Apart(segments[i], segments[|segments| - 1]);
  }

  /** The last segment of the list has been extended and the others are as they were. */
  lemma HoldsWritten(config: Config, segments: seq<Segment>, log: Log, flat: seq<bytes>, b: bytes)
    requires segments != [] && |log| == |segments| && |b| >= HEADER_LEN
    requires Separate(segments) && Flat(flat)
    requires forall s :: s in segments ==> s.maxBytes == config.maxSegmentBytes
    requires forall i :: 0 <= i < |segments| ==> segments[i].Valid()
    requires forall i :: 0 <= i < |segments| - 1 ==> segments[i].Model() == log[i]
    requires segments[|segments| - 1].Model() == Extend(Last(log), b)
    requires Inv(config, log[|log| - 1 := Extend(Last(log), b)], flat)
    ensures Holds(config, segments, flat) && Models(segments) == Grown(log, b)
  {
    hide Segment.Valid, Separate, Flat, Inv, Extend, Segment.Model;
    assert Models(segments) == log[|log| - 1 := Extend(Last(log), b)];
  }

  lemma ModelsGrown(segments: seq<Segment>, s: Segment)
    ensures Models(segments + [s]) == Models(segments) + [s.Model()]
  {}

  lemma CleanKeepsLast(limit: int, log: Log)
    requires log != []
    ensures LogSpec.Clean(limit, log) != []
  {}

  lemma AllLogValid(segments: seq<Segment>, s: Segment)
    requires s.LogValid() && forall t :: t in segments ==> t.LogValid()
    ensures forall t :: t in segments + [s] ==> t.LogValid()
  {}

  /** Splitting: a fresh segment is added and a suffix is kept. */
  lemma HoldsRolled(config: Config, segments: seq<Segment>, s: Segment, cleaned: seq<Segment>, flat: seq<bytes>)
    requires Holds(config, segments, flat) && segments[|segments| - 1].position >= config.maxSegmentBytes
    requires s.Valid() && s.maxBytes == config.maxSegmentBytes && s.sets == [] && s.baseOffset == |flat|
    requires forall t :: t in segments ==> Apart(t, s)
    requires var grown := segments + [s]; |cleaned| <= |grown| && cleaned == grown[|grown| - |cleaned|..]
    requires Models(cleaned) == LogSpec.Clean(config.maxLogBytes, Models(segments + [s]))
    ensures Holds(config, cleaned, flat) && Models(cleaned) == Roll(config, Models(segments))
    ensures cleaned != [] && cleaned[|cleaned| - 1] == s
    ensures forall t :: t in cleaned ==> t == s || t in segments
  {
    hide Segment.Valid, Segment.LogValid, Inv, Flat, LogSpec.Clean, Separate, Models;
    HoldsParts(config, segments, flat);
    LastSegment(config, segments, flat);
    var grown, log := segments + [s], Models(segments);
    ModelsGrown(segments, s);
    CleanKeepsLast(config.maxLogBytes, Models(grown));
    RollInv(config, log, flat);
    SeparateGrown(segments, s);
    SeparateSuffix(grown, |grown| - |cleaned|);
    forall t | t in cleaned ensures t == s || t in segments {
      assert t in grown;
    }
  }

  lemma HoldsSuffix(config: Config, segments: seq<Segment>, flat: seq<bytes>, n: nat)
    requires Holds(config, segments, flat) && n < |segments|
    requires Inv(config, Models(segments)[n..], flat)
    ensures Holds(config, segments[n..], flat)
  {
    hide Segment.Valid, Separate, Flat, Inv;
    SeparateSuffix(segments, n);
    assert Models(segments[n..]) == Models(segments)[n..];
    assert forall s :: s in segments[n..] ==> s in segments;
  }

  lemma HoldsTruncated(config: Config, segments: seq<Segment>, flat: seq<bytes>, offset: int)
    requires Holds(config, segments, flat)
    ensures var n := Below(Models(segments), offset);
            && Models(segments[n..]) == TruncateStep(Models(segments), offset)
            && (forall j :: 0 <= j < |segments| ==> (segments[j].baseOffset < offset <==> j < n))
            && (n < |segments| ==> Holds(config, segments[n..], flat))
            && segments != [] && (n < |segments| <==> offset <= segments[|segments| - 1].baseOffset)
  {
    hide Segment.Valid, Separate, Flat, Inv, Below, TruncateStep;
    LastSegment(config, segments, flat);
    var log := Models(segments);
    var n := Below(log, offset);
    TruncateShape(config, log, flat, offset);
    assert Models(segments[n..]) == log[n..];
    forall j | 0 <= j < |segments| ensures segments[j].baseOffset < offset <==> j < n {
      assert log[j].base == segments[j].baseOffset;
    }
    if n < |segments| {
      HoldsSuffix(config, segments, flat, n);
    }
  }

  method KeepFrom(segments: seq<Segment>, offset: int, ghost n: nat) returns (kept: seq<Segment>)
    requires n <= |segments|
    requires forall j :: 0 <= j < |segments| ==> (segments[j].baseOffset < offset <==> j < n)
    ensures kept == segments[n..]
  {
    kept := [];
    for i := 0 to |segments|
      invariant kept == if i <= n then [] else segments[n..i]
    {
      if segments[i].baseOffset >= offset {
        kept := kept + [segments[i]];
      }
    }
  }

  class CommitLog {
    const config: Config
    const cleaner: DeleteCleaner
    var segments: seq<Segment>
    var active: Segment
    ghost var flat: seq<bytes>

    ghost predicate Valid()
      reads this, segments, set s | s in segments :: s.index, set s | s in segments :: s.index.mmap
    {
      && Holds(config, segments, flat)
      && segments != [] && active == segments[|segments| - 1]
      && cleaner.retentionBytes == config.maxLogBytes
    }

    /** The log of a fresh directory: one empty segment at offset zero. */
    constructor (config: Config)
      requires config.maxSegmentBytes > 0
      ensures Valid() && this.config == config && fresh(Reprs(segments))
      ensures flat == [] && Models(segments) == Run(config, [])
    {
      this.config := config;
      cleaner := new DeleteCleaner(config.maxLogBytes);
      var segment := new Segment(0, config.maxSegmentBytes);
      segments := [segment];
      active := segment;
      flat := [];
    }

    /** What cleaning leaves of the segments and a new one at the newest offset. */
    method CleanWith(segment: Segment) returns (cleaned: seq<Segment>)
      requires Valid() && active.position >= config.maxSegmentBytes
      requires segment.Valid() && segment.maxBytes == config.maxSegmentBytes
      requires segment.sets == [] && segment.baseOffset == |flat| && forall t :: t in segments ==> Apart(t, segment)
      ensures Holds(config, cleaned, flat) && Models(cleaned) == Roll(config, Models(segments))
      ensures cleaned != [] && cleaned[|cleaned| - 1] == segment
      ensures forall s :: s in cleaned ==> s == segment || s in segments
    {
      hide Segment.Valid, Segment.LogValid, Segment.IndexValid, Holds, Roll, LogSpec.Clean, Models, LongestFit, Sizes,
        Reverses;
      LastSegment(config, segments, flat);
      segment.Parts();
      var grown := segments + [segment];
      AllLogValid(segments, segment);
      var deleted;
      cleaned, deleted := cleaner.Clean(grown);
      HoldsRolled(config, segments, segment, cleaned, flat);
    }

    /** Starts a new active segment at the newest offset and cleans the closed ones. */
    method Split()
      requires Valid() && active.position >= config.maxSegmentBytes
      modifies this`segments, this`active
      ensures Valid() && Models(segments) == Roll(config, old(Models(segments)))
      ensures fresh(active.Repr()) && active.sets == [] && active.position == 0
      ensures active.index.position + ENTRY_WIDTH <= active.index.mmap.Length
      ensures forall s :: s in segments ==> s == active || s in old(segments)
    {
      hide Segment.Valid, Segment.LogValid, Segment.IndexValid, Holds, Roll, Models;
      LastSegment(config, segments, flat);
      var segment := new Segment(active.nextOffset, config.maxSegmentBytes);
      var cleaned := CleanWith(segment);
      segments := cleaned;
      active := segment;
    }

    /** Writing a stamped set to the active segment leaves the others as they were. */
    method WriteActive(ms: bytes, ghost b: bytes) returns (ok: bool)
      requires Valid() && active.position < config.maxSegmentBytes && |flat| <= 0x7FFF_FFFF_FFFF_FFFF
      requires |b| >= HEADER_LEN && ms == PutOffset(b, |flat|)
      modifies this`flat, active, active.index, active.index.mmap
      ensures ok <==> old(active.index.position) + ENTRY_WIDTH <= active.index.mmap.Length
      ensures Valid() <==> ok
      ensures ok ==> flat == old(flat) + [ms] && Models(segments) == Grown(old(Models(segments)), b)
      ensures !ok ==> flat == old(flat) && active.LogValid() && active.sets == old(active.sets) + [ms]
    {
      hide Segment.Valid, Segment.LogValid, Segment.IndexValid, Holds, Inv, Flat, PutOffset, Separate, Models;
      HoldsParts(config, segments, flat);
      LastSegment(config, segments, flat);
      ghost var log, last := Models(segments), |segments| - 1;
      FlatExtends(flat, b);
      ExtendInv(config, log, flat, b);
      ok := WriteSet(active, ms);
      if !ok {
        NotHeld(config, segments, flat);
        return;
      }
      assert active.Model() == Extend(Last(log), b);
      forall i | 0 <= i < last ensures segments[i].Valid() && segments[i].Model() == log[i] {
        SeparateLast(segments, i);
      }
      flat := flat + [ms];
      HoldsWritten(config, segments, log, flat, b);
    }

    /** Room for the entry of the next append: a full segment is split first, so only a
        segment that is not full needs a free slot. */
    ghost predicate Room()
      reads this, active, active.index
    {
      active.position >= config.maxSegmentBytes || active.index.position + ENTRY_WIDTH <= active.index.mmap.Length
    }

    /** A full active segment is split before anything is written. */
    method Prepare()
      requires Valid()
      modifies this`segments, this`active
      ensures Valid() && Models(segments) == Ready(config, old(Models(segments)))
      ensures active.position < config.maxSegmentBytes && active.nextOffset == |flat| == old(active.nextOffset)
      ensures active.index.position + ENTRY_WIDTH <= active.index.mmap.Length <==> old(Room())
      ensures active == old(active) || fresh(active.Repr())
      ensures !old(Room()) ==> active == old(active) && segments == old(segments)
      ensures forall s :: s in segments ==> s == active || s in old(segments)
    {
      hide Segment.Valid, Segment.LogValid, Holds, Roll;
      LastSegment(config, segments, flat);
      var full := active.IsFull();
      if full {
        Split();
        LastSegment(config, segments, flat);
      }
    }

    /** Append stamps the caller's buffer with the newest offset, writes it as that offset's set and
        returns the offset. Without room in the index it panics, exactly then: the set is in the file
        but not in the index, and the log is not valid any more. */
    method Append(b: array<byte>) returns (offset: int, ok: bool)
      requires Valid() && b.Length >= HEADER_LEN && |flat| <= 0x7FFF_FFFF_FFFF_FFFF
      requires forall s :: s in segments ==> s.index.mmap != b
      modifies this, b, active, active.index, active.index.mmap
      ensures ok <==> old(active.position) >= config.maxSegmentBytes || |old(active.sets)| < ENTRIES
      ensures (ok <==> old(Room())) && (Valid() <==> ok)
      ensures offset == |old(flat)| == old(active.nextOffset) && b[..] == PutOffset(old(b[..]), offset)
      ensures ok ==> flat == old(flat) + [b[..]]
      ensures ok ==> Models(segments) == AppendStep(config, old(Models(segments)), old(b[..]))
      ensures ok ==> forall s :: s in segments ==> s.index.mmap != b
      ensures !ok ==> segments == old(segments) && flat == old(flat) && active == old(active)
      ensures !ok ==> active.LogValid() && active.sets == old(active.sets) + [b[..]]
    {
      hide Segment.Valid, Segment.LogValid, Segment.IndexValid, Holds, PutOffset, Ready, AppendStep, Grown, Models;
      ghost var given, log := b[..], Models(segments);
      LastSegment(config, segments, flat);
      active.IndexSize();
      GrownReady(config, log, given);
      Prepare();
      offset := active.nextOffset;
      Stamp(b, offset);
      ok := WriteActive(b[..], given);
    }

    /** With segments of at most 12 bytes per index slot the index never overflows. */
    lemma RoomAlways()
      requires Valid() && config.maxSegmentBytes <= HEADER_LEN * ENTRIES
      ensures Room()
    {
      hide Holds, Segment.Valid;
      LastSegment(config, segments, flat);
      active.IndexSize();
      SegmentIsReadable(config, segments, flat, |segments| - 1);
      SegmentRoom(config, active.Model(), ENTRIES);
    }

    method NewestOffset() returns (offset: int)
      requires Valid()
      ensures offset == |flat|
    {
      LastSegment(config, segments, flat);
      return active.nextOffset;
    }

    method OldestOffset() returns (offset: int)
      requires Valid()
      ensures 0 <= offset <= |flat| && Live(Models(segments)) == flat[offset..]
    {
      LiveIsSuffix(config, Models(segments), flat);
      return segments[0].baseOffset;
    }

    /** Deletes the segments that begin below the offset. The log stays usable exactly when
        the active segment is not one of them. */
    method Truncate(offset: int)
      requires Valid()
      modifies this`segments
      ensures Models(segments) == TruncateStep(old(Models(segments)), offset)
      ensures Valid() <==> offset <= active.baseOffset
    {
      hide Segment.Valid, Holds, TruncateStep, Below, Models;
      ghost var log := Models(segments);
      ghost var n := Below(log, offset);
      HoldsTruncated(config, segments, flat, offset);
      var kept := KeepFrom(segments, offset, n);
      segments := kept;
    }
  }

  /** MessageSet.PutOffset: stamps the buffer in place. */
  method Stamp(b: array<byte>, offset: int)
    requires b.Length >= HEADER_LEN
    modifies b
    ensures b[..] == PutOffset(old(b[..]), offset)
  {
    hide PutInt;
    var head := PutInt(8, offset);
    forall i | 0 <= i < 8 {
      b[i] := head[i];
    }
    assert b[..] == head + old(b[..])[8..];
  }

  lemma FlatExtends(flat: seq<bytes>, b: bytes)
    requires Flat(flat) && |b| >= HEADER_LEN && |flat| <= 0x7FFF_FFFF_FFFF_FFFF
    ensures Flat(flat + [PutOffset(b, |flat|)])
    ensures Formed(flat + [PutOffset(b, |flat|)]) <==> Formed(flat) && WellFormed(b)
  {
    hide Offset, WellFormed, PutOffset;
    Stamped(b, |flat|);
    var longer := flat + [PutOffset(b, |flat|)];
    assert forall k :: 0 <= k < |flat| ==> longer[k] == flat[k];
    assert longer[|flat|] == PutOffset(b, |flat|);
  }
}
