/** Reading the commit log from an offset (commitlog/reader.go, commitlog/util.go). */
module Readers {
  import opened Bytes
  import opened MessageView
  import opened SegmentIndex
  import opened Segments
  import opened LogSpec
  import opened CommitLogs

  // ---- the stream a reader delivers ----------------------------------------------------

  /** The bytes from position `pos` of segment `idx` to the end of the log. */
  ghost function Stream(log: Log, idx: nat, pos: nat): (s: bytes)
    requires idx < |log|
  {
    var all := Concat(Live(log[idx..]));
    if pos <= |all| then all[pos..] else []
  }

  lemma LiveHead(log: Log)
    requires log != []
    ensures Concat(Live(log)) == Concat(log[0].sets) + Concat(Live(log[1..]))
  {
    ConcatCat(log[0].sets, Live(log[1..]));
  }

  /** Within a segment the stream is the rest of its file and then the later segments. */
  lemma StreamSplit(log: Log, idx: nat, pos: nat)
    requires idx < |log| && pos <= log[idx].Size()
    ensures Stream(log, idx, pos) == Concat(log[idx].sets)[pos..] + Concat(Live(log[idx + 1..]))
    ensures idx + 1 < |log| ==> Stream(log, idx, log[idx].Size()) == Stream(log, idx + 1, 0)
    ensures idx + 1 == |log| ==> Stream(log, idx, log[idx].Size()) == []
  {
    assert idx + 1 == |log| ==> Concat(Live(log[idx + 1..])) == [];
    hide Concat, Live;
    LiveHead(log[idx..]);
    assert log[idx..][1..] == log[idx + 1..];
    DropFront(Concat(log[idx].sets), Concat(Live(log[idx + 1..])), pos);
    DropFront(Concat(log[idx].sets), Concat(Live(log[idx + 1..])), log[idx].Size());
  }

  lemma DropFront<T>(a: seq<T>, b: seq<T>, n: nat)
    requires n <= |a|
    ensures (a + b)[n..] == a[n..] + b
  {}

  /** What one read at a position of a segment's file gives, as a stretch of the stream. */
  lemma StreamChunk(log: Log, idx: nat, pos: nat, chunk: bytes)
    requires idx < |log| && pos + |chunk| <= log[idx].Size()
    requires chunk == Concat(log[idx].sets)[pos..pos + |chunk|]
    ensures |chunk| <= |Stream(log, idx, pos)| && chunk == Stream(log, idx, pos)[..|chunk|]
    ensures Stream(log, idx, pos + |chunk|) == Stream(log, idx, pos)[|chunk|..]
  {
    hide Stream, Live, Concat;
    StreamSplit(log, idx, pos);
    StreamSplit(log, idx, pos + |chunk|);
    SplitFront(Concat(log[idx].sets), Concat(Live(log[idx + 1..])), pos, |chunk|);
  }

  lemma SegmentChunk(segments: seq<Segment>, idx: nat, pos: nat, chunk: bytes)
    requires idx < |segments| && segments[idx].LogValid() && pos + |chunk| <= |segments[idx].log|
    requires chunk == segments[idx].log[pos..pos + |chunk|]
    ensures var s := Stream(Models(segments), idx, pos);
            && |chunk| <= |s| && chunk == s[..|chunk|]
            && Stream(Models(segments), idx, pos + |chunk|) == s[|chunk|..]
  {
    hide Stream, Live;
    StreamChunk(Models(segments), idx, pos, chunk);
  }

  lemma SplitFront<T>(a: seq<T>, b: seq<T>, p: nat, n: nat)
    requires p + n <= |a|
    ensures (a[p..] + b)[..n] == a[p..p + n]
    ensures (a[p..] + b)[n..] == a[p + n..] + b
  {}

  lemma Advance<T>(all: seq<T>, n: nat, chunk: seq<T>)
    requires n + |chunk| <= |all| && chunk == all[n..][..|chunk|]
    ensures all[..n] + chunk == all[..n + |chunk|]
    ensures all[n..][|chunk|..] == all[n + |chunk|..]
  {}

  /** At a set boundary the stream is the flat list from that set's offset on. */
  lemma StreamAtSet(c: Config, log: Log, flat: seq<bytes>, idx: nat, k: nat)
    requires Inv(c, log, flat) && idx < |log| && k <= |log[idx].sets|
    ensures Stream(log, idx, Pos(log[idx].sets, k)) == Concat(flat[log[idx].base + k..])
  {
    hide Concat, Live;
    var base, sets := log[idx].base, log[idx].sets;
    SuffixInv(c, log, flat, idx);
    LiveIsSuffix(c, log[idx..], flat);
    var all := flat[base..];
    assert all == flat[base..base + k] + flat[base + k..];
    ConcatCat(flat[base..base + k], flat[base + k..]);
    assert sets[..k] == flat[base..base + k];
  }

  /** An append that drops no segment only extends what a reader still has to deliver. */
  lemma StreamGrows(c: Config, log: Log, flat: seq<bytes>, b: bytes, idx: nat, pos: nat)
    requires Inv(c, log, flat) && |b| >= HEADER_LEN && idx < |log| && pos <= log[idx].Size()
    requires AppendStep(c, log, b)[0].base == log[0].base
    ensures var log' := AppendStep(c, log, b);
            idx < |log'| && Stream(log', idx, pos) == Stream(log, idx, pos) + PutOffset(b, |flat|)
  {
    hide Concat, Live, PutOffset, Inv, AppendStep, Stream;
    var log', ms := AppendStep(c, log, b), PutOffset(b, |flat|);
    AppendInv(c, log, flat, b);
    NothingDropped(c, log, flat, b);
    StreamAtStart(c, log, flat, idx);
    StreamAtStart(c, log', flat + [ms], idx);
    LiveHead(log[idx..]);
    ConcatMore(flat, log[idx].base, ms);
    StreamMore(log, log', idx, pos, ms);
  }

  lemma ConcatMore(flat: seq<bytes>, base: nat, ms: bytes)
    requires base <= |flat|
    ensures Concat((flat + [ms])[base..]) == Concat(flat[base..]) + ms
  {
    hide Concat;
    assert (flat + [ms])[base..] == flat[base..] + [ms];
    ConcatCat(flat[base..], [ms]);
    ConcatOne(ms);
  }

  lemma StreamMore(log: Log, log': Log, idx: nat, pos: nat, ms: bytes)
    requires idx < |log| && idx < |log'| && pos <= |Concat(Live(log[idx..]))|
    requires Concat(Live(log'[idx..])) == Concat(Live(log[idx..])) + ms
    ensures Stream(log', idx, pos) == Stream(log, idx, pos) + ms
  {
    hide Concat, Live;
  }

  lemma StreamAtStart(c: Config, log: Log, flat: seq<bytes>, idx: nat)
    requires Inv(c, log, flat) && idx < |log|
    ensures log[idx].base <= |flat| && Live(log[idx..]) == flat[log[idx].base..]
  {
    hide Live, Concat;
    SuffixInv(c, log, flat, idx);
    LiveIsSuffix(c, log[idx..], flat);
  }

  lemma NothingDropped(c: Config, log: Log, flat: seq<bytes>, b: bytes)
    requires Inv(c, log, flat) && |b| >= HEADER_LEN
    requires AppendStep(c, log, b)[0].base == log[0].base
    ensures |log| <= |AppendStep(c, log, b)|
    ensures forall i :: 0 <= i < |log| ==> AppendStep(c, log, b)[i].base == log[i].base
  {
    hide Concat, PutOffset;
    if Last(log).Size() >= c.maxSegmentBytes && c.maxLogBytes != -1 {
      var grown := log + [Seg(Last(log).Next(), [])];
      var i := Cut(c.maxLogBytes, Sizes(grown));
      BasesIncrease(c, log, flat);
      if i > 0 {
        LaterBase(c, log, flat, i);
        assert false;
      }
    }
  }

  lemma LaterBase(c: Config, log: Log, flat: seq<bytes>, i: nat)
    requires Inv(c, log, flat) && 0 < i <= |log| && Last(log).Size() >= c.maxSegmentBytes
    ensures log[0].base < (log + [Seg(Last(log).Next(), [])])[i].base
  {
    assert log[0].sets != [];
    BasesOrdered(c, log, flat, 0, if i < |log| then i else i - 1);
    assert Last(log).sets != [];
  }

  // ---- readers -------------------------------------------------------------------------

  class Reader {
    const cl: CommitLog
    var idx: nat
    var pos: int

    /** The reader stands inside a segment of its log. */
    ghost predicate Placed()
      reads this, cl, cl.segments
    {
      && idx < |cl.segments|
      && (forall s :: s in cl.segments ==> s.LogValid())
      && 0 <= pos <= |cl.segments[idx].log|
    }

    ghost function Rest(): (s: bytes)
      requires idx < |cl.segments| && pos >= 0
      reads this, cl, cl.segments
    {
      Stream(Models(cl.segments), idx, pos)
    }

    constructor (cl: CommitLog, idx: nat, pos: int)
      ensures this.cl == cl && this.idx == idx && this.pos == pos
    {
      this.cl, this.idx, this.pos := cl, idx, pos;
    }

    /** One read from the current segment's file into the buffer at `n`. */
    method Fill(p: array<byte>, n: nat, ghost all: bytes) returns (m: nat, eof: bool)
      requires Placed() && n <= p.Length && n <= |all|
      requires Rest() == all[n..] && p[..n] == all[..n]
      modifies this`pos, p
      ensures Placed() && n <= m <= p.Length && m <= |all|
      ensures Rest() == all[m..] && p[..m] == all[..m]
      ensures forall i :: m <= i < p.Length ==> p[i] == old(p[i])
      ensures eof <==> m < p.Length
      ensures eof ==> pos == |cl.segments[idx].log|
    {
      hide Stream, Concat, Live, Models, Segment.LogValid;
      var segment := cl.segments[idx];
      var chunk;
      chunk, eof := segment.ReadAt(p.Length - n, pos);
      SegmentChunk(cl.segments, idx, pos, chunk);
      Advance(all, n, chunk);
      CopyAt(p, n, chunk);
      m, pos := n + |chunk|, pos + |chunk|;
    }

    lemma AtEnd()
      requires Placed() && pos == |cl.segments[idx].log|
      ensures idx + 1 == |cl.segments| ==> Rest() == []
      ensures idx + 1 < |cl.segments| ==> Rest() == Stream(Models(cl.segments), idx + 1, 0)
    {
      hide Stream, Concat, Live;
      var segment := cl.segments[idx];
      assert segment.LogValid() && Models(cl.segments)[idx] == segment.Model();
      StreamSplit(Models(cl.segments), idx, pos);
    }

    /** Reads on across segments: fills the buffer with the next bytes of the log, and
        reports the end exactly when there were too few of them. */
    method Read(p: array<byte>) returns (n: nat, eof: bool)
      requires Placed()
      modifies this, p
      ensures Placed() && n <= p.Length && n <= |old(Rest())|
      ensures n == p.Length || n == |old(Rest())|
      ensures eof <==> n < p.Length
      ensures p[..n] == old(Rest())[..n] && p[n..] == old(p[n..])
      ensures Rest() == old(Rest())[n..]
    {
      hide Segment.LogValid, Stream, Models;
      ghost var all := Rest();
      n := 0;
      while true
        invariant Placed() && n <= p.Length && n <= |all|
        invariant Rest() == all[n..] && p[..n] == all[..n]
        invariant forall i :: n <= i < p.Length ==> p[i] == old(p[i])
        decreases |cl.segments| - idx, p.Length - n
      {
        var before := n;
        n, eof := Fill(p, n, all);
        if n != before && !eof {
          continue;
        }
        if n == p.Length || !eof {
          break;
        }
        AtEnd();
        if |cl.segments| <= idx + 1 {
          eof := true;
          break;
        }
        idx, pos := idx + 1, 0;
      }
    }
  }

  method CopyAt(p: array<byte>, n: nat, chunk: bytes)
    requires n + |chunk| <= p.Length
    modifies p
    ensures p[..n + |chunk|] == old(p[..n]) + chunk
    ensures forall i :: n + |chunk| <= i < p.Length ==> p[i] == old(p[i])
  {
    forall i | 0 <= i < |chunk| {
      p[n + i] := chunk[i];
    }
  }

  // ---- opening a reader ----------------------------------------------------------------

  /** findSegment: a binary search with a pure predicate, hence exact. */
  method FindSegment(segments: seq<Segment>, offset: int) returns (idx: nat)
    requires forall i, j :: 0 <= i <= j < |segments| ==> segments[i].nextOffset <= segments[j].nextOffset
    ensures idx <= |segments|
    ensures forall i :: 0 <= i < idx ==> segments[i].nextOffset <= offset
    ensures idx < |segments| ==> segments[idx].nextOffset > offset
  {
    var i, j := 0, |segments|;
    while i < j
      invariant 0 <= i <= j <= |segments|
      invariant forall k :: 0 <= k < i ==> segments[k].nextOffset <= offset
      invariant j < |segments| ==> segments[j].nextOffset > offset
    {
      var h := (i + j) / 2;
      if segments[h].nextOffset > offset {
        j := h;
      } else {
        i := h + 1;
      }
    }
    return i;
  }

  /** The segment a reader starts in: the first one for offset zero, and otherwise the first
      that ends past the offset. */
  ghost predicate Picks(log: Log, offset: int, i: int) {
    && 0 <= i < |log|
    && if offset == 0 then i == 0
       else log[i].Next() > offset && forall j :: 0 <= j < i ==> log[j].Next() <= offset
  }

  /** The index search in segment `i` runs off the end of the index. */
  ghost predicate Lost(log: Log, offset: int, i: int) {
    0 <= i < |log| && log[i].sets != [] && Missed(ENTRIES, |log[i].sets|, offset - log[i].base)
  }

  /** The set of segment `i` that the index search settles on. */
  ghost function FirstSet(log: Log, offset: int, i: int): (k: int)
    requires 0 <= i < |log|
  {
    if log[i].sets == [] then 0 else Chosen(ENTRIES, |log[i].sets|, log[i].base, offset - log[i].base)
  }

  /** For a live offset that is the one segment that contains it. */
  lemma PicksContaining(c: Config, log: Log, flat: seq<bytes>, offset: int, i: int)
    requires Inv(c, log, flat) && Picks(log, offset, i) && log[0].base <= offset < |flat|
    ensures log[i].base <= offset < log[i].Next()
    ensures forall j :: 0 <= j < |log| && log[j].base <= offset < log[j].Next() ==> j == i
  {
    BasesIncrease(c, log, flat);
    if i > 0 {
      assert log[i - 1].Next() == log[i].base;
    }
    forall j | 0 <= j < |log| && log[j].base <= offset < log[j].Next() ensures j == i {
      if i < j {
        BasesOrdered(c, log, flat, i, j);
      }
    }
    if offset == 0 {
      assert log[0].base < log[0].Next();
    }
  }

  /** For an offset that is no longer live, and for the oldest one, it is the oldest segment, and the
      index search settles on its first set. */
  lemma PicksOldest(c: Config, log: Log, flat: seq<bytes>, offset: int, i: int)
    requires Inv(c, log, flat) && Picks(log, offset, i) && offset <= log[0].base && |log[0].sets| <= ENTRIES
    ensures i == 0 && !Lost(log, offset, i) && FirstSet(log, offset, i) == 0
  {
    hide Threshold;
    BasesIncrease(c, log, flat);
    if log[0].sets != [] {
      ThresholdBounds(ENTRIES, |log[0].sets|);
    }
  }

  lemma NextsSorted(config: Config, segments: seq<Segment>, flat: seq<bytes>)
    requires Holds(config, segments, flat)
    ensures forall i, j :: 0 <= i <= j < |segments| ==> segments[i].nextOffset <= segments[j].nextOffset
    ensures forall i :: 0 <= i < |segments| ==> segments[i].nextOffset == Models(segments)[i].Next() <= |flat|
  {
    hide Segment.Valid, Separate, Concat;
    LastSegment(config, segments, flat);
    var log := Models(segments);
    forall i | 0 <= i < |segments| ensures segments[i].nextOffset == log[i].Next() {
      assert segments[i] in segments;
    }
    forall i, j | 0 <= i <= j < |segments| ensures segments[i].nextOffset <= segments[j].nextOffset {
      BasesOrdered(config, log, flat, i, j);
    }
  }

  datatype OpenError = NoError | SegmentNotFound | EntryNotFound

  /** What a reader opened at `offset` gets: the segment picked, and the position of the set found
      there as the index keeps it, in 32 bits. */
  ghost predicate Opened(log: Log, offset: int, idx: int, pos: int) {
    && Picks(log, offset, idx) && !Lost(log, offset, idx)
    && (FirstSet(log, offset, idx) == 0 || 0 < FirstSet(log, offset, idx) < |log[idx].sets|)
    && pos == Wrap32(Pos(log[idx].sets, FirstSet(log, offset, idx)))
  }

  lemma HoldsInv(config: Config, segments: seq<Segment>, flat: seq<bytes>)
    requires Holds(config, segments, flat)
    ensures Inv(config, Models(segments), flat)
  {}

  /** The position found in a segment is that of the set the search settles on. */
  method Locate(cl: CommitLog, idx: nat, offset: int) returns (pos: Option<int>)
    requires cl.Valid() && idx < |cl.segments|
    ensures pos.None? <==> Lost(Models(cl.segments), offset, idx)
    ensures var log := Models(cl.segments);
            && (FirstSet(log, offset, idx) == 0 || 0 < FirstSet(log, offset, idx) < |log[idx].sets|)
            && (pos.Some? ==> pos.value == Wrap32(Pos(log[idx].sets, FirstSet(log, offset, idx))))
  {
    hide Segment.Valid, Segment.LogValid, Segment.IndexValid, Missed, Chosen, Concat, Holds, Pos, Index.At, Wrap32;
    var s := cl.segments[idx];
    LastSegment(cl.config, cl.segments, cl.flat);
    s.Parts();
    s.Slots();
    assert Models(cl.segments)[idx] == s.Model();
    var e := s.FindEntry(offset);
    if s.sets == [] {
      NoPosition();
    } else {
      ChosenBounds(ENTRIES, |s.sets|, s.baseOffset, offset - s.baseOffset);
      s.SlotWrapped(Chosen(ENTRIES, |s.sets|, s.baseOffset, offset - s.baseOffset));
    }
    if e == None {
      return None;
    }
    return Some(e.value.position);
  }

  lemma NoPosition()
    ensures Wrap32(Pos([], 0)) == 0
  {}

  lemma BoundaryInFile(s: Segment, k: nat)
    requires s.LogValid() && k <= |s.sets|
    ensures Pos(s.sets, k) <= |s.log|
    ensures Pos(s.sets, 0) == 0
  {
    if k < |s.sets| {
      ConcatAt(s.sets, k);
    } else {
      assert s.sets[..k] == s.sets;
    }
  }

  /** Where the stream of a reader opened at a live offset starts: at the offset itself if that is
      within the threshold of its segment's index (one set early for offset 1 at base 0), and
      otherwise at the threshold, which lies in the second half of the segment's sets. */
  ghost predicate StartsAt(log: Log, offset: int, idx: int, start: int)
    requires 0 <= idx < |log|
  {
    var base, count := log[idx].base, |log[idx].sets|;
    && start <= offset
    && (count > 0 && offset - base > Threshold(ENTRIES, count) ==>
          start == base + Threshold(ENTRIES, count) && count <= ENTRIES / 2 && start >= base + (count - 1) / 2)
    && (count > 0 && offset - base <= Threshold(ENTRIES, count) ==>
          start == if base == 0 && offset == 1 then 0 else offset)
  }

  /** As far as the position fits 32 bits, an opened reader stands on the boundary of a set, and
      the bytes it delivers are every set from there on, to the newest: no gap, no duplicate. */
  lemma OpenedDelivers(c: Config, log: Log, flat: seq<bytes>, offset: int, idx: nat, pos: int)
    requires Inv(c, log, flat) && Opened(log, offset, idx, pos)
    requires Pos(log[idx].sets, FirstSet(log, offset, idx)) < 0x8000_0000
    ensures var start := log[idx].base + FirstSet(log, offset, idx);
            && 0 <= start <= |flat| && 0 <= pos && Stream(log, idx, pos) == Concat(flat[start..])
            && (log[0].base <= offset < |flat| && |log[idx].sets| <= ENTRIES ==> StartsAt(log, offset, idx, start))
  {
    hide Stream, Concat, Pos, Missed, Chosen, Threshold, Inv;
    var k, count := FirstSet(log, offset, idx), |log[idx].sets|;
    StreamAtSet(c, log, flat, idx, k);
    SetInRange(c, log, flat, idx, k);
    if log[0].base <= offset < |flat| && count <= ENTRIES {
      PicksContaining(c, log, flat, offset, idx);
      ChosenStart(log, offset, idx);
    }
  }

  lemma SetInRange(c: Config, log: Log, flat: seq<bytes>, idx: nat, k: nat)
    requires Inv(c, log, flat) && idx < |log| && k <= |log[idx].sets|
    ensures log[idx].base + k <= |flat|
  {}

  lemma ChosenStart(log: Log, offset: int, idx: nat)
    requires idx < |log| && 0 < |log[idx].sets| <= ENTRIES && log[idx].base <= offset && !Lost(log, offset, idx)
    ensures StartsAt(log, offset, idx, log[idx].base + FirstSet(log, offset, idx))
  {
    hide Threshold;
    ThresholdBounds(ENTRIES, |log[idx].sets|);
  }

  method PickSegment(cl: CommitLog, offset: int) returns (idx: nat)
    requires cl.Valid()
    ensures idx <= |cl.segments| && (idx == |cl.segments| <==> offset != 0 && offset >= |cl.flat|)
    ensures idx < |cl.segments| ==> Picks(Models(cl.segments), offset, idx)
  {
    hide Segment.Valid, Segment.LogValid, Holds, Models;
    LastSegment(cl.config, cl.segments, cl.flat);
    NextsSorted(cl.config, cl.segments, cl.flat);
    idx := 0;
    if offset != 0 {
      idx := FindSegment(cl.segments, offset);
    }
  }

  /** Opens a reader at an offset. Past the newest offset there is no segment; otherwise the
      segment picked is searched, unless its index search runs off the end. */
  method NewReader(cl: CommitLog, offset: int) returns (r: Reader?, err: OpenError)
    requires cl.Valid()
    ensures r != null <==> err == NoError
    ensures err == SegmentNotFound <==> offset != 0 && offset >= |cl.flat|
    ensures err == EntryNotFound ==>
              exists i :: Picks(Models(cl.segments), offset, i) && Lost(Models(cl.segments), offset, i)
    ensures r != null ==>
              fresh(r) && r.cl == cl && r.idx < |cl.segments| && Opened(Models(cl.segments), offset, r.idx, r.pos)
    ensures r != null && cl.segments[0].baseOffset <= offset < |cl.flat| ==>
              var s, k := cl.segments[r.idx], FirstSet(Models(cl.segments), offset, r.idx);
              && s.baseOffset <= offset < s.nextOffset && 0 <= k <= offset - s.baseOffset
              && (k < offset - s.baseOffset ==>
                    k >= (s.nextOffset - s.baseOffset - 1) / 2 || (s.baseOffset == 0 && offset == 1))
    ensures cl.segments[0].baseOffset <= |cl.flat| && (offset <= cl.segments[0].baseOffset ==> err != EntryNotFound)
    ensures r != null && offset <= cl.segments[0].baseOffset ==> r.idx == 0 && r.pos == 0
    ensures r != null && cl.config.maxSegmentBytes <= 0x8000_0000 ==>
              && r.Placed()
              && var start := cl.segments[r.idx].baseOffset + FirstSet(Models(cl.segments), offset, r.idx);
              && 0 <= start <= |cl.flat| && r.Rest() == Concat(cl.flat[start..])
    ensures r != null && cl.config.maxSegmentBytes <= 0x8000_0000 && offset <= cl.segments[0].baseOffset ==>
              r.Rest() == Concat(cl.flat[cl.segments[0].baseOffset..])
  {
    hide Segment.Valid, Segment.LogValid, Picks, Lost, Holds, Models, FirstSet, Stream, Concat, Pos, Wrap32;
    OldestInRange(cl);
    var idx := PickSegment(cl, offset);
    if idx == |cl.segments| {
      return null, SegmentNotFound;
    }
    PickedRight(cl, offset, idx);
    var pos := Locate(cl, idx, offset);
    if pos == None {
      return null, EntryNotFound;
    }
    if cl.config.maxSegmentBytes <= 0x8000_0000 {
      OpenedStands(cl, offset, idx, pos.value);
    }
    r := new Reader(cl, idx, pos.value);
    err := NoError;
  }

  lemma FirstSetBounds(log: Log, offset: int, i: nat)
    requires i < |log| && 0 < |log[i].sets| <= ENTRIES && log[i].base <= offset
    ensures var k, target := FirstSet(log, offset, i), offset - log[i].base;
            && 0 <= k <= target
            && (k < target ==> k >= (|log[i].sets| - 1) / 2 || (log[i].base == 0 && offset == 1))
  {
    hide Chosen, Threshold;
    ChosenBounds(ENTRIES, |log[i].sets|, log[i].base, offset - log[i].base);
  }

  lemma OldestInRange(cl: CommitLog)
    requires cl.Valid()
    ensures cl.segments[0].baseOffset <= |cl.flat|
  {
    hide Segment.Valid, Holds, Inv;
    HoldsInv(cl.config, cl.segments, cl.flat);
    SetInRange(cl.config, Models(cl.segments), cl.flat, 0, 0);
  }

  lemma PickedRight(cl: CommitLog, offset: int, idx: nat)
    requires cl.Valid() && idx < |cl.segments| && Picks(Models(cl.segments), offset, idx)
    ensures cl.segments[0].baseOffset <= offset < |cl.flat| ==>
              var s, k := cl.segments[idx], FirstSet(Models(cl.segments), offset, idx);
              && s.baseOffset <= offset < s.nextOffset && 0 <= k <= offset - s.baseOffset
              && (k < offset - s.baseOffset ==>
                    k >= (s.nextOffset - s.baseOffset - 1) / 2 || (s.baseOffset == 0 && offset == 1))
    ensures offset <= cl.segments[0].baseOffset ==>
              var log := Models(cl.segments);
              && idx == 0 && !Lost(log, offset, idx) && FirstSet(log, offset, idx) == 0
              && Wrap32(Pos(log[idx].sets, 0)) == 0
  {
    hide Segment.Valid, Holds, Inv, Picks, Lost, FirstSet;
    var log := Models(cl.segments);
    LastSegment(cl.config, cl.segments, cl.flat);
    HoldsInv(cl.config, cl.segments, cl.flat);
    cl.segments[0].Parts();
    cl.segments[0].Slots();
    cl.segments[idx].Parts();
    cl.segments[idx].Slots();
    assert log[idx] == cl.segments[idx].Model() && log[0] == cl.segments[0].Model();
    assert cl.segments[idx] in cl.segments;
    if log[0].base <= offset < |cl.flat| {
      PicksContaining(cl.config, log, cl.flat, offset, idx);
      FirstSetBounds(log, offset, idx);
    }
    if offset <= log[0].base {
      PicksOldest(cl.config, log, cl.flat, offset, idx);
    }
  }

  lemma OpenedStands(cl: CommitLog, offset: int, idx: nat, pos: int)
    requires cl.Valid() && cl.config.maxSegmentBytes <= 0x8000_0000 && Opened(Models(cl.segments), offset, idx, pos)
    ensures 0 <= pos <= |cl.segments[idx].log|
    ensures forall s :: s in cl.segments ==> s.LogValid()
    ensures var start := cl.segments[idx].baseOffset + FirstSet(Models(cl.segments), offset, idx);
            0 <= start <= |cl.flat| && Stream(Models(cl.segments), idx, pos) == Concat(cl.flat[start..])
  {
    hide Segment.Valid, Segment.LogValid, Segment.Readable, Holds, Stream, Concat, Pos, Inv, Lost, FirstSet;
    var s, log := cl.segments[idx], Models(cl.segments);
    LastSegment(cl.config, cl.segments, cl.flat);
    SegmentIsReadable(cl.config, cl.segments, cl.flat, idx);
    HoldsInv(cl.config, cl.segments, cl.flat);
    assert log[idx] == s.Model();
    var k := FirstSet(log, offset, idx);
    BoundaryInFile(s, k);
    WithinReach(s, k);
    OpenedDelivers(cl.config, log, cl.flat, offset, idx, pos);
  }

  lemma WithinReach(s: Segment, k: nat)
    requires s.Reachable() && (k < |s.sets| || k == 0)
    ensures Pos(s.sets, k) < 0x8000_0000
  {}

  /** With segments of at most 12 bytes for every second index slot, the search never runs off:
      every offset that falls in a segment can be opened. */
  lemma SmallSegmentsFound(c: Config, log: Log, flat: seq<bytes>, offset: int, i: nat)
    requires Inv(c, log, flat) && Flat(flat) && c.maxSegmentBytes <= HEADER_LEN * (ENTRIES / 2)
    requires Picks(log, offset, i)
    ensures !Lost(log, offset, i)
  {
    hide Missed, Un, GetInt, Offset;
    forall k | 0 <= k < |log[i].sets| ensures |log[i].sets[k]| >= HEADER_LEN {
      assert |flat[log[i].base + k]| >= HEADER_LEN;
    }
    SegmentRoom(c, log[i], ENTRIES / 2);
    FirstHalfFound(ENTRIES, |log[i].sets|, offset - log[i].base);
  }
}
