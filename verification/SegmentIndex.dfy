/** The memory-mapped index of a segment (commitlog/index.go): fixed-width entries that
    map an offset to a byte position, both relative to the segment and 32 bits wide. */
module SegmentIndex {
  import opened Bytes

  const ENTRY_WIDTH := 8
  const DEFAULT_BYTES := 10 * 1024 * 1024

  datatype Entry = Entry(offset: int, position: int)

  datatype RelEntry = RelEntry(offset: int32, position: int32)

  /** The largest multiple of `factor` that is at most `total`. */
  function RoundDown(total: nat, factor: nat): (r: nat)
    requires factor > 0
    ensures r <= total < r + factor && r % factor == 0
  {
    Multiple(factor, total / factor);
    factor * (total / factor)
  }

  lemma {:induction false} Multiple(factor: nat, q: nat)
    requires factor > 0
    ensures (factor * q) % factor == 0
  {
    var r, d := (factor * q) % factor, (factor * q) / factor;
    assert factor * (q - d) == r;
    NoFraction(factor, q - d, r);
  }

  lemma NoFraction(factor: int, q: int, r: int)
    requires 0 <= r < factor && factor * q == r
    ensures r == 0
  {}

  function NewRelEntry(e: Entry, baseOffset: int): (r: RelEntry) {
    RelEntry(Wrap32(e.offset - baseOffset), Wrap32(e.position))
  }

  function Fill(rel: RelEntry, baseOffset: int): (e: Entry) {
    Entry(baseOffset + rel.offset, rel.position)
  }

  function Encode(rel: RelEntry): (b: bytes)
    ensures |b| == ENTRY_WIDTH
  {
    PutInt(4, rel.offset) + PutInt(4, rel.position)
  }

  function Decode(b: bytes): (rel: RelEntry)
    requires |b| == ENTRY_WIDTH
  {
    Pows();
    RelEntry(GetInt(b[..4]), GetInt(b[4..]))
  }

  lemma EncodeDecode(rel: RelEntry)
    ensures Decode(Encode(rel)) == rel
  {
    var b := Encode(rel);
    assert b[..4] == PutInt(4, rel.offset) && b[4..] == PutInt(4, rel.position);
    GetPutFixed();
  }

  /** The bytes of an entry: the low 32 bits of its relative offset, then of its position. */
  lemma EntryBytes(e: Entry, baseOffset: int)
    ensures Encode(NewRelEntry(e, baseOffset)) == PutInt(4, e.offset - baseOffset) + PutInt(4, e.position)
  {
    hide PutInt, Wrap32;
    SameLowBytes(e.offset - baseOffset);
    SameLowBytes(e.position);
  }

  /** An entry survives the narrowing to 32 bits exactly when it is within 2^31 of the
      base offset and the start of the file. */
  lemma NarrowingExact(e: Entry, baseOffset: int)
    ensures Fill(NewRelEntry(e, baseOffset), baseOffset) == e
            <==> -0x8000_0000 <= e.offset - baseOffset < 0x8000_0000 && -0x8000_0000 <= e.position < 0x8000_0000
  {}

  class Index {
    const mmap: array<byte>
    const bytes: nat
    const baseOffset: int
    var position: nat

    ghost predicate Valid()
      reads this
    {
      && mmap.Length == RoundDown(bytes, ENTRY_WIDTH)
      && position % ENTRY_WIDTH == 0 && position <= mmap.Length
    }

    ghost function Count(): (n: nat)
      reads this
    {
      position / ENTRY_WIDTH
    }

    /** The entry in slot `k`; the zero entry outside the map. */
    ghost function At(k: int): (e: Entry)
      reads mmap
    {
      if !(0 <= k && (k + 1) * ENTRY_WIDTH <= mmap.Length) then Entry(0, 0)
      else Fill(Decode(mmap[k * ENTRY_WIDTH..(k + 1) * ENTRY_WIDTH]), baseOffset)
    }

    constructor (bytes: nat, baseOffset: int)
      ensures Valid() && fresh(this) && fresh(mmap)
      ensures this.baseOffset == baseOffset && position == 0
      ensures this.bytes == if bytes == 0 then DEFAULT_BYTES else bytes
    {
      var size := if bytes == 0 then DEFAULT_BYTES else bytes;
      this.bytes := size;
      this.baseOffset := baseOffset;
      mmap := new byte[RoundDown(size, ENTRY_WIDTH)](_ => 0);
      position := 0;
    }

    /** False is Go's out-of-range panic. */
    method WriteAt(p: bytes, offset: nat) returns (ok: bool)
      requires |p| == ENTRY_WIDTH
      modifies mmap
      ensures ok <==> offset + ENTRY_WIDTH <= mmap.Length
      ensures ok ==> mmap[..] == old(mmap[..offset]) + p + old(mmap[offset + ENTRY_WIDTH..])
      ensures !ok ==> mmap[..] == old(mmap[..])
    {
      if offset + ENTRY_WIDTH > mmap.Length {
        return false;
      }
      forall i | 0 <= i < ENTRY_WIDTH {
        mmap[offset + i] := p[i];
      }
      return true;
    }

    /** Appends an entry, narrowed to 32 bits, and leaves the earlier ones alone; panics exactly if the
        map is full. */
    method WriteEntry(entry: Entry) returns (ok: bool)
      requires Valid()
      modifies this`position, mmap
      ensures Valid() && (ok <==> old(position) + ENTRY_WIDTH <= mmap.Length)
      ensures Count() == old(Count()) + if ok then 1 else 0
      ensures ok ==> At(old(Count())) == Fill(NewRelEntry(entry, baseOffset), baseOffset)
      ensures ok ==> mmap[old(position)..position] == PutInt(4, entry.offset - baseOffset) + PutInt(4, entry.position)
      ensures forall k :: 0 <= k < old(Count()) ==> At(k) == old(At(k))
    {
      hide Encode, Decode;
      ghost var was, n := mmap[..], Count();
      var rel := NewRelEntry(entry, baseOffset);
      ok := WriteAt(Encode(rel), position);
      forall k | 0 <= k < n ensures At(k) == old(At(k)) {
        var lo, hi := k * ENTRY_WIDTH, (k + 1) * ENTRY_WIDTH;
        assert mmap[lo..hi] == mmap[..][lo..hi] == was[lo..hi];
      }
      if !ok {
        return;
      }
      assert mmap[position..position + ENTRY_WIDTH] == mmap[..][position..position + ENTRY_WIDTH] == Encode(rel);
      EncodeDecode(rel);
      EntryBytes(entry, baseOffset);
      position := position + ENTRY_WIDTH;
    }

    /** None is io.EOF. */
    method ReadAt(offset: nat) returns (p: Option<bytes>)
      requires Valid()
      ensures p == if position < offset + ENTRY_WIDTH then None
                   else Some(mmap[offset..offset + ENTRY_WIDTH])
    {
      if position < offset + ENTRY_WIDTH {
        return None;
      }
      return Some(mmap[offset..offset + ENTRY_WIDTH]);
    }

    /** Fills the cell `e` with the entry in slot `k`, or leaves it as it was at the end. */
    method ReadEntryAtLogOffset(e: Entry, k: nat) returns (r: Entry, eof: bool)
      requires Valid()
      ensures eof == (Count() <= k)
      ensures r == if eof then e else At(k)
    {
      var p := ReadAt(k * ENTRY_WIDTH);
      if p == None {
        return e, true;
      }
      return Fill(Decode(p.value), baseOffset), false;
    }
  }

  class IndexScanner {
    const idx: Index
    var entry: Entry
    var offset: nat

    constructor (idx: Index)
      ensures this.idx == idx && offset == 0
    {
      this.idx := idx;
      entry := Entry(0, 0);
      offset := 0;
    }

    /** The next entry, or None (io.EOF) at the end or at a zero offset past the first slot. */
    method Scan() returns (r: Option<Entry>)
      requires idx.Valid()
      modifies this
      ensures r == if old(offset) >= idx.Count() || (idx.At(old(offset)).offset == 0 && old(offset) != 0)
                   then None else Some(idx.At(old(offset)))
      ensures offset == if r.Some? then old(offset) + 1 else old(offset)
    {
      var eof;
      entry, eof := idx.ReadEntryAtLogOffset(entry, offset);
      if eof {
        return None;
      }
      if entry.offset == 0 && offset != 0 {
        return None;
      }
      offset := offset + 1;
      return Some(entry);
    }
  }
}
