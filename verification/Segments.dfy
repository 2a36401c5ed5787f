/** A segment of the commit log (commitlog/segment.go): a file of message sets and the index
    of where each of them starts. */
module Segments {
  import opened Bytes
  import opened MessageView
  import opened SegmentIndex
  import LogSpec

  const ENTRIES := DEFAULT_BYTES / ENTRY_WIDTH

  /** Where the k-th set starts in the file. */
  function Pos(sets: seq<bytes>, k: nat): (p: nat)
    requires k <= |sets|
  {
    |Concat(sets[..k])|
  }

  // ---- findEntry's search, over `n` slots of which `count` are written ------------------------

  /** The probes that find nothing written yet see a zero cell and succeed, which halves the
      slots until the middle one is written. */
  ghost function Span(n: int, count: int): (j: int)
    decreases n
  {
    if 0 < n && n / 2 >= count then Span(n / 2, count) else n
  }

  /** The last written slot that a walk to the right of `i` probes. */
  ghost function LastProbe(i: int, j: int, count: int): (k: int)
    decreases j - i
  {
    var h := (i + j) / 2;
    if i >= j || h >= count then i - 1 else LastProbe(h + 1, j, count)
  }

  /** The highest slot that the search can still find exactly: past it every probe fails, and
      from the first slot not written on it fails on the stale cell. */
  ghost function Threshold(n: int, count: int): (k: int) {
    LastProbe(0, Span(n, count), count)
  }

  /** The search for slot `target` runs off the end of the slots. */
  ghost predicate Missed(n: int, count: int, target: int) {
    count > n / 2 && target > Threshold(n, count)
  }

  /** The slot whose entry is returned if the search does not run off: the one asked for up to
      the threshold, the threshold past it. At base 0 the entry of slot 0 reads as found. */
  ghost function Chosen(n: int, count: int, base: int, target: int): (k: int) {
    if target > Threshold(n, count) then Threshold(n, count)
    else if target <= 0 || (base == 0 && target == 1) then 0
    else target
  }

  lemma {:induction false} SpanBounds(n: int, count: int)
    requires 0 < count <= n
    ensures count <= Span(n, count) <= n && Span(n, count) / 2 < count
    ensures Span(n, count) == n <==> n / 2 < count
    decreases n
  {
    if n / 2 >= count {
      SpanBounds(n / 2, count);
    }
  }

  lemma {:induction false} LastProbeBounds(i: int, j: int, count: int)
    requires 0 <= i <= j && i <= count
    ensures i - 1 <= LastProbe(i, j, count) < count
    ensures i < j && (i + j) / 2 < count ==> (i + j) / 2 <= LastProbe(i, j, count)
    decreases j - i
  {
    var h := (i + j) / 2;
    if i < j && h < count {
      LastProbeBounds(h + 1, j, count);
    }
  }

  /** The threshold is a written slot, in the middle of the written ones or past it. */
  lemma ThresholdBounds(n: int, count: int)
    requires 0 < count <= n
    ensures (count - 1) / 2 <= Threshold(n, count) < count
    ensures count > n / 2 ==> n / 2 <= Threshold(n, count)
  {
    SpanBounds(n, count);
    LastProbeBounds(0, Span(n, count), count);
  }

  /** Every slot of the first half is found. */
  lemma FirstHalfFound(n: int, count: int, target: int)
    requires 0 <= count <= n && target <= n / 2
    ensures !Missed(n, count, target)
  {
    if count > n / 2 {
      ThresholdBounds(n, count);
    }
  }

  /** Until the second probe of the walk is written, every slot past the first half is lost. */
  lemma SecondHalfLost(n: int, count: int, target: int)
    requires 0 < n / 2 < count <= (n / 2 + 1 + n) / 2 && count <= n
    ensures Missed(n, count, target) <==> target > n / 2
  {
    SpanBounds(n, count);
    assert LastProbe(n / 2 + 1, n, count) == n / 2;
  }

  /** What is returned never lies past the slot asked for, and not far before it. */
  lemma ChosenBounds(n: int, count: int, base: int, target: int)
    requires 0 < count <= n
    ensures var k := Chosen(n, count, base, target);
            && 0 <= k < count && (k == 0 || k <= target)
            && (k < target ==> (k == Threshold(n, count) && k >= (count - 1) / 2) || (base == 0 && target == 1))
            && (target <= 0 ==> k == 0)
  {
    ThresholdBounds(n, count);
  }

  /** The state of the search between slots `i` and `j`: the cell holds slot `last`, or is still
      zero if that is -1. The search narrows down to a written probe, walks right from failed
      ones, gets stuck on the stale cell, or closes in on the target below a probe that
      succeeded. */
  ghost predicate Searching(i: int, j: int, n: int, count: int, base: int, target: int, last: int) {
    && 0 <= i <= j <= n && base >= 0 && 1 < n && 0 <= count <= n && -1 <= last < count
    && if count == 0 then i == 0 && last == -1
       else
         || (i == 0 && last == -1 && j >= count && Span(j, count) == Span(n, count))
         || Walking(i, j, n, count, base, target, last)
         || Closing(i, j, n, count, base, target)
  }

  ghost predicate Walking(i: int, j: int, n: int, count: int, base: int, target: int, last: int) {
    && i > 0 && j == Span(n, count) && 0 <= last < target && base + last != 0
    && if i <= count then last == i - 1 && LastProbe(i, j, count) == Threshold(n, count)
       else last == Threshold(n, count)
  }

  ghost predicate Closing(i: int, j: int, n: int, count: int, base: int, target: int) {
    && j < count && (i == 0 || i <= target) && (base == 0 ==> i != 1)
    && ((target <= j && target <= Threshold(n, count)) || (j == 0 && base == 0 && Chosen(n, count, base, target) == 0))
  }

  lemma SearchStarts(n: int, count: int, base: int, target: int)
    requires n > 1 && base >= 0 && 0 <= count <= n
    ensures Searching(0, n, n, count, base, target, -1)
  {}

  /** The first written probe decides between walking and closing in. */
  lemma FirstWritten(j: int, n: int, count: int, base: int, target: int)
    requires 0 < count <= j && j == Span(n, count) && j / 2 < count && base >= 0
    ensures var h := j / 2;
            if h >= target || base + h == 0 then Closing(0, h, n, count, base, target)
            else Walking(h + 1, j, n, count, base, target, h)
  {
    LastProbeBounds(0, j, count);
    if j / 2 == 0 {
      assert LastProbe(1, 1, count) == 0;
    }
  }

  lemma WalkOn(i: int, j: int, n: int, count: int, base: int, target: int, last: int)
    requires Walking(i, j, n, count, base, target, last) && i < j && base >= 0
    ensures var h := (i + j) / 2;
            if h >= count then Walking(h + 1, j, n, count, base, target, last)
            else if h >= target then Closing(i, h, n, count, base, target)
            else Walking(h + 1, j, n, count, base, target, h)
  {
    if i <= count {
      LastProbeBounds(i, j, count);
    }
  }

  lemma CloseIn(i: int, j: int, n: int, count: int, base: int, target: int)
    requires Closing(i, j, n, count, base, target) && 0 <= i < j && base >= 0
    ensures var h := (i + j) / 2;
            if h >= target || base + h == 0 then Closing(i, h, n, count, base, target)
            else Closing(h + 1, j, n, count, base, target)
  {}

  /** One probe, in slot `h`: a written slot fills the cell, and the cell decides. */
  lemma Probe(i: int, j: int, n: int, count: int, base: int, target: int, last: int)
    requires Searching(i, j, n, count, base, target, last) && i < j
    ensures var h := (i + j) / 2;
            var cell := if h < count then h else last;
            && 0 <= i <= h < j && -1 <= last < count && -1 <= cell < count
            && if cell == -1 || cell >= target || base + cell == 0
            then Searching(i, h, n, count, base, target, cell)
            else Searching(h + 1, j, n, count, base, target, cell)
  {
    if count > 0 {
      if Walking(i, j, n, count, base, target, last) {
        WalkOn(i, j, n, count, base, target, last);
      } else if Closing(i, j, n, count, base, target) {
        CloseIn(i, j, n, count, base, target);
      } else if j / 2 < count {
        FirstWritten(j, n, count, base, target);
      }
    }
  }

  lemma SearchEnds(i: int, n: int, count: int, base: int, target: int, last: int)
    requires Searching(i, i, n, count, base, target, last)
    ensures 0 <= i <= n
    ensures count == 0 ==> i == 0 && last == -1
    ensures count > 0 ==> (i == n <==> Missed(n, count, target))
    ensures 0 < count <= i ==> last == Chosen(n, count, base, target)
    ensures i < count ==> i == Chosen(n, count, base, target)
  {
    if count > 0 {
      SpanBounds(n, count);
      LastProbeBounds(0, Span(n, count), count);
    }
  }

  class Segment {
    const index: Index
    const baseOffset: nat
    const maxBytes: int
    var log: bytes
    var nextOffset: int
    var position: int
    ghost var sets: seq<bytes>

    ghost function Repr(): (r: set<object>) {
      {this, index, index.mmap}
    }

    ghost function Model(): (s: LogSpec.Seg)
      reads this
    {
      LogSpec.Seg(baseOffset, sets)
    }

    /** The file, its length and the next offset agree with the sets written. */
    ghost predicate LogValid()
      reads this
    {
      && log == Concat(sets)
      && position == |log|
      && nextOffset == baseOffset + |sets|
    }

    /** Slot `k` of the index holds the offset and the position of the k-th set. */
    ghost predicate IndexValid()
      reads this, index, index.mmap
    {
      && index.Valid() && index.baseOffset == baseOffset && index.bytes == DEFAULT_BYTES
      && index.Count() == |sets|
      && forall k :: 0 <= k < |sets| ==> index.At(k) == Entry(baseOffset + k, Wrap32(Pos(sets, k)))
    }

    ghost predicate Valid()
      reads this, index, index.mmap
    {
      LogValid() && IndexValid()
    }

    /** Every set starts where a 32-bit position can reach. */
    ghost predicate Reachable()
      reads this
    {
      forall k :: 0 <= k < |sets| ==> Pos(sets, k) < 0x8000_0000
    }

    /** Every set is well formed and can be reached. */
    ghost predicate Readable()
      reads this
    {
      Reachable() && forall k :: 0 <= k < |sets| ==> WellFormed(sets[k])
    }

    lemma Slot(k: nat)
      requires IndexValid() && k < |sets| && Pos(sets, k) < 0x8000_0000
      ensures index.At(k) == Entry(baseOffset + k, Pos(sets, k))
    {
      hide Index.At, Pos;
      assert index.At(k) == Entry(baseOffset + k, Wrap32(Pos(sets, k)));
    }

    lemma SlotWrapped(k: nat)
      requires IndexValid() && k < |sets|
      ensures index.At(k) == Entry(baseOffset + k, Wrap32(Pos(sets, k)))
    {
      hide Index.At, Pos;
    }

    lemma Parts()
      requires Valid()
      ensures LogValid() && IndexValid()
    {}

    lemma IndexSize()
      requires Valid()
      ensures index.position == ENTRY_WIDTH * |sets| && index.mmap.Length == ENTRY_WIDTH * ENTRIES
    {
      hide Index.At;
    }

    lemma Slots()
      requires IndexValid()
      ensures |sets| <= ENTRIES
      ensures index.Valid() && index.Count() == |sets| && index.bytes / ENTRY_WIDTH == ENTRIES
      ensures forall k :: 0 <= k < |sets| ==> index.At(k).offset == baseOffset + k
      ensures index.At(-1) == Entry(0, 0)
    {}

    lemma Scannable()
      requires Valid() && Readable()
      ensures LogValid() && IndexValid() && index.Valid() && index.Count() == |sets|
      ensures forall k :: 0 <= k < |sets| ==> WellFormed(sets[k]) && Pos(sets, k) < 0x8000_0000
    {}

    constructor (baseOffset: nat, maxBytes: int)
      ensures Valid() && fresh(Repr())
      ensures this.baseOffset == baseOffset && this.maxBytes == maxBytes && sets == []
      ensures position == 0 && index.position == 0 && index.mmap.Length == DEFAULT_BYTES
    {
      this.baseOffset, this.maxBytes := baseOffset, maxBytes;
      nextOffset, position, log, sets := baseOffset, 0, [], [];
      index := new Index(0, baseOffset);
    }

    method IsFull() returns (full: bool)
      ensures full == (position >= maxBytes)
    {
      full := position >= maxBytes;
    }

    /** Write appends a set to the file; the index entry is the caller's to write. */
    method Write(p: bytes)
      requires LogValid()
      modifies this`log, this`nextOffset, this`position, this`sets
      ensures LogValid() && sets == old(sets) + [p]
    {
      log := log + p;
      nextOffset := nextOffset + 1;
      position := position + |p|;
      sets := sets + [p];
    }

    /** Bytes of the file from `off`, fewer than asked only at the end of the file. */
    method ReadAt(size: nat, off: nat) returns (p: bytes, eof: bool)
      ensures |p| <= size && eof == (|p| < size)
      ensures p == if off >= |log| then [] else if off + size <= |log| then log[off..off + size] else log[off..]
    {
      if off >= |log| {
        p := [];
      } else if off + size <= |log| {
        p := log[off..off + size];
      } else {
        p := log[off..];
      }
      eof := |p| < size;
    }

    /** The set at a position: its header first, then as many bytes as the header declares. */
    method ReadSet(at: nat, ghost k: nat) returns (ms: bytes)
      requires LogValid() && k < |sets| && at == Pos(sets, k) && WellFormed(sets[k])
      ensures ms == sets[k]
    {
      hide Pos, Concat, WellFormed, Size;
      ghost var want := sets[k];
      SetParts(sets, k);
      var header, eof := ReadAt(HEADER_LEN, at);
      SameHeader(header, want);
      var payload;
      payload, eof := ReadAt(Size(header) - HEADER_LEN, at + HEADER_LEN);
      return header + payload;
    }

    /** The search predicate of findEntry: reads slot `h` into the cell, if it is written,
        and tests the cell. */
    method Reached(e: Entry, h: nat, offset: int, ghost last: int)
      returns (r: Entry, found: bool, ghost now: int)
      requires IndexValid() && -1 <= last < |sets| && e == index.At(last)
      ensures now == (if h < |sets| then h else last) && r == index.At(now)
      ensures found <==> now == -1 || now >= offset - baseOffset || baseOffset + now == 0
    {
      hide Index.At, Index.Count, Index.Valid, IndexValid;
      Slots();
      var eof;
      r, eof := index.ReadEntryAtLogOffset(e, h);
      now := if eof then last else h;
      found := r.offset >= offset || r.offset == 0;
    }

    /** sort.Search as findEntry calls it: over all slots, written or not, and through one
        reused cell that keeps its old value past the written slots. */
    method Search(offset: int) returns (idx: int, e: Entry, ghost last: int)
      requires IndexValid()
      ensures Searching(idx, idx, ENTRIES, |sets|, baseOffset, offset - baseOffset, last)
      ensures e == index.At(last)
    {
      hide Index.At, Index.Count, Index.Valid, IndexValid, Searching, Missed, Chosen;
      Slots();
      var n := index.bytes / ENTRY_WIDTH;
      assert n == ENTRIES > 1;
      ghost var target, count := offset - baseOffset, |sets|;
      e, last := Entry(0, 0), -1;
      var i, j := 0, n;
      SearchStarts(n, count, baseOffset, target);
      while i < j
        invariant i <= j
        invariant Searching(i, j, n, count, baseOffset, target, last)
        invariant e == index.At(last)
      {
        Probe(i, j, n, count, baseOffset, target, last);
        var h := (i + j) / 2;
        var found;
        e, found, last := Reached(e, h, offset, last);
        if found {
          j := h;
        } else {
          i := h + 1;
        }
      }
      idx := i;
    }

    /** Looks an offset up in the index: exactly up to the threshold, and past it either not at
        all or at the threshold. */
    method FindEntry(offset: int) returns (r: Option<Entry>)
      requires IndexValid()
      ensures sets == [] ==> r == Some(Entry(0, 0))
      ensures sets != [] ==>
                r == if Missed(ENTRIES, |sets|, offset - baseOffset) then None
                     else Some(index.At(Chosen(ENTRIES, |sets|, baseOffset, offset - baseOffset)))
    {
      hide Index.At, Index.Count, Index.Valid, IndexValid, Searching, Missed, Chosen;
      Slots();
      var idx, e, last := Search(offset);
      SearchEnds(idx, ENTRIES, |sets|, baseOffset, offset - baseOffset, last);
      if idx == ENTRIES {
        return None;
      }
      var eof;
      e, eof := index.ReadEntryAtLogOffset(e, idx);
      return Some(e);
    }
  }

  /** Header and payload of a set, where they lie in the file. */
  lemma SetParts(sets: seq<bytes>, k: nat)
    requires k < |sets| && WellFormed(sets[k])
    ensures var all, at, ms := Concat(sets), Pos(sets, k), sets[k];
            && HEADER_LEN <= |ms| == Size(ms) && at + |ms| <= |all|
            && all[at..at + HEADER_LEN] == ms[0..HEADER_LEN]
            && all[at + HEADER_LEN..at + |ms|] == ms[HEADER_LEN..]
            && ms[0..HEADER_LEN] + ms[HEADER_LEN..] == ms
  {
    hide Concat, Pos, Size, Un;
    var ms := sets[k];
    SizeOfWellFormed(ms);
    SetSlice(sets, k, 0, HEADER_LEN);
    SetSlice(sets, k, HEADER_LEN, |ms|);
    assert ms[HEADER_LEN..|ms|] == ms[HEADER_LEN..] && ms[0..HEADER_LEN] == ms[..HEADER_LEN];
    SplitAt(ms, HEADER_LEN);
  }

  lemma SameHeader(header: bytes, ms: bytes)
    requires WellFormed(ms) && header == ms[0..HEADER_LEN]
    ensures Size(header) == Size(ms)
  {
    SliceSlice(ms, 0, HEADER_LEN, 8, 12);
  }

  class SegmentScanner {
    const s: Segment
    const scan: IndexScanner

    ghost predicate Valid()
      reads this, scan, s, s.index, s.index.mmap
    {
      scan.idx == s.index && s.Valid() && s.Readable() && scan.offset <= |s.sets|
    }

    /** How many sets have been scanned. */
    ghost function Done(): (n: nat)
      reads scan
    {
      scan.offset
    }

    constructor (s: Segment)
      requires s.Valid() && s.Readable()
      ensures Valid() && this.s == s && Done() == 0 && fresh(this) && fresh(scan)
    {
      this.s := s;
      scan := new IndexScanner(s.index);
    }

    /** The next set of the segment, byte for byte, or None (io.EOF) after the last one:
        the rule that a zero offset ends the scan never cuts it short. */
    method Scan() returns (ms: Option<bytes>)
      requires Valid()
      modifies scan
      ensures Valid()
      ensures if old(Done()) < |s.sets| then ms == Some(s.sets[old(Done())]) && Done() == old(Done()) + 1
              else ms == None && Done() == |s.sets|
    {
      hide Index.At, Segment.Valid, Segment.Readable, Segment.LogValid, Segment.IndexValid, Pos, WellFormed;
      s.Scannable();
      ghost var k := scan.offset;
      if k < |s.sets| {
        s.Slot(k);
      }
      var entry := scan.Scan();
      if entry == None {
        return None;
      }
      var got := s.ReadSet(entry.value.position, k);
      return Some(got);
    }
  }

  /** A stretch of a set, read from the file that holds all of them. */
  lemma SetSlice(sets: seq<bytes>, k: nat, lo: nat, hi: nat)
    requires k < |sets| && lo <= hi <= |sets[k]|
    ensures Pos(sets, k) + hi <= |Concat(sets)|
    ensures Concat(sets)[Pos(sets, k) + lo..Pos(sets, k) + hi] == sets[k][lo..hi]
  {
    hide Concat;
    ConcatAt(sets, k);
    SliceSlice(Concat(sets), Pos(sets, k), |sets[k]|, lo, hi);
  }
}
