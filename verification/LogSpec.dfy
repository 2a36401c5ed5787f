/** What a commit log holds, as values: a list of segments, each a base offset and the sets
    written to it, and the steps that change it (commitlog/commitlog.go). Every run of steps
    is compared with one flat append-only list of sets. */
module LogSpec {
  import opened Basics
  import opened Bytes
  import opened MessageView

  datatype Seg = Seg(base: nat, sets: seq<bytes>) {
    function Next(): (n: nat) {
      base + |sets|
    }

    function Size(): (n: nat) {
      |Concat(sets)|
    }
  }

  type Log = seq<Seg>

  datatype Config = Config(maxSegmentBytes: int, maxLogBytes: int)

  function Last(log: Log): (s: Seg)
    requires log != []
  {
    log[|log| - 1]
  }

  // ---- retention (commitlog/delete_cleaner.go) ----------------------------------------

  function Sum(sizes: seq<nat>): (n: nat) {
    if sizes == [] then 0 else sizes[0] + Sum(sizes[1..])
  }

  lemma {:induction false} SumCat(a: seq<nat>, b: seq<nat>)
    ensures Sum(a + b) == Sum(a) + Sum(b)
  {
    if a == [] {
      assert a + b == b;
    } else {
      assert (a + b)[1..] == a[1..] + b;
      SumCat(a[1..], b);
    }
  }

  lemma {:induction false} SuffixSums(sizes: seq<nat>, i: nat, j: nat)
    requires i <= j <= |sizes|
    ensures Sum(sizes[j..]) <= Sum(sizes[i..])
    decreases j - i
  {
    if i < j {
      SuffixSums(sizes, i + 1, j);
      assert sizes[i..][1..] == sizes[i + 1..];
    }
  }

  /** How many leading segments retention drops. */
  function Cut(limit: int, sizes: seq<nat>): (i: nat)
    ensures i <= |sizes|
    ensures sizes != [] ==> i < |sizes|
  {
    if |sizes| <= 1 || Sum(sizes) <= limit then 0 else 1 + Cut(limit, sizes[1..])
  }

  /** The kept suffix starts at `i`: it fits the limit or is the last segment alone, and no
      longer suffix fits. */
  ghost predicate LongestFit(limit: int, sizes: seq<nat>, i: nat) {
    && i < |sizes|
    && (i == |sizes| - 1 || Sum(sizes[i..]) <= limit)
    && forall j :: 0 <= j < i ==> Sum(sizes[j..]) > limit
  }

  lemma {:induction false} CutIsLongest(limit: int, sizes: seq<nat>)
    requires sizes != []
    ensures LongestFit(limit, sizes, Cut(limit, sizes))
  {
    assert sizes[0..] == sizes;
    if |sizes| > 1 && Sum(sizes) > limit {
      var rest := sizes[1..];
      CutIsLongest(limit, rest);
      var i := Cut(limit, sizes);
      assert sizes[i..] == rest[i - 1..];
      forall j | 0 <= j < i ensures Sum(sizes[j..]) > limit {
        if j > 0 {
          assert sizes[j..] == rest[j - 1..];
        }
      }
    }
  }

  lemma LongestFitUnique(limit: int, sizes: seq<nat>, i: nat, j: nat)
    requires LongestFit(limit, sizes, i) && LongestFit(limit, sizes, j)
    ensures i == j
  {}

  function Sizes(log: Log): (r: seq<nat>)
    ensures |r| == |log|
    ensures forall i :: 0 <= i < |log| ==> r[i] == log[i].Size()
  {
    seq(|log|, i requires 0 <= i < |log| => log[i].Size())
  }

  /** DeleteCleaner.Clean; a limit of -1 means no limit. */
  function Clean(limit: int, log: Log): (r: Log)
    ensures log != [] ==> r != [] && Last(r) == Last(log)
  {
    if log == [] || limit == -1 then log else log[Cut(limit, Sizes(log))..]
  }

  /** What is kept is the longest suffix that fits the limit, or the newest segment alone. */
  lemma CleanExact(limit: int, log: Log)
    ensures var r := Clean(limit, log); |r| <= |log| && r == log[|log| - |r|..]
    ensures limit == -1 ==> Clean(limit, log) == log
    ensures log != [] && limit != -1 ==> LongestFit(limit, Sizes(log), |log| - |Clean(limit, log)|)
  {
    hide Sum, Cut, LongestFit;
    if log != [] && limit != -1 {
      CutIsLongest(limit, Sizes(log));
    }
  }

  // ---- steps (commitlog/commitlog.go) -------------------------------------------------

  function Roll(c: Config, log: Log): (r: Log)
    requires log != []
    ensures r != [] && Last(r) == Seg(Last(log).Next(), [])
  {
    Clean(c.maxLogBytes, log + [Seg(Last(log).Next(), [])])
  }

  /** The log an append writes to: a full active segment is split off first. */
  function Ready(c: Config, log: Log): (r: Log)
    requires log != []
    ensures r != [] && Last(r).Next() == Last(log).Next()
  {
    if Last(log).Size() >= c.maxSegmentBytes then Roll(c, log) else log
  }

  /** The log with the segment that an append starts if the active one is full. */
  function WithNew(c: Config, log: Log): (r: Log)
    requires log != []
    ensures r != []
  {
    if Last(log).Size() >= c.maxSegmentBytes then log + [Seg(Last(log).Next(), [])] else log
  }

  function Extend(s: Seg, b: bytes): (r: Seg)
    requires |b| >= HEADER_LEN
  {
    Seg(s.base, s.sets + [PutOffset(b, s.Next())])
  }

  function AppendStep(c: Config, log: Log, b: bytes): (r: Log)
    requires log != [] && |b| >= HEADER_LEN
  {
    var ready := Ready(c, log);
    ready[|ready| - 1 := Extend(Last(ready), b)]
  }

  /** CommitLog.Truncate: segments whose base lies below the offset are deleted. */
  function TruncateStep(log: Log, offset: int): (r: Log) {
    if log == [] then []
    else (if log[0].base < offset then [] else [log[0]]) + TruncateStep(log[1..], offset)
  }

  // ---- the invariant ------------------------------------------------------------------

  ghost predicate Contiguous(log: Log) {
    forall i :: 0 <= i < |log| - 1 ==> log[i].Next() == log[i + 1].base
  }

  /** Every segment but the active one has reached the segment size. */
  ghost predicate Rolled(c: Config, log: Log) {
    forall i :: 0 <= i < |log| - 1 ==> log[i].Size() >= c.maxSegmentBytes
  }

  /** Each segment is the stretch of the flat list between its base and next offsets. */
  ghost predicate Slices(log: Log, flat: seq<bytes>) {
    forall i :: 0 <= i < |log| ==> log[i].Next() <= |flat| && log[i].sets == flat[log[i].base..log[i].Next()]
  }

  /** Every set starts below the segment size: it was written while the segment was not full. */
  ghost predicate Starts(c: Config, s: Seg) {
    forall k :: 0 <= k < |s.sets| ==> |Concat(s.sets[..k])| < c.maxSegmentBytes
  }

  ghost predicate Inv(c: Config, log: Log, flat: seq<bytes>) {
    && log != [] && c.maxSegmentBytes > 0
    && Contiguous(log) && Rolled(c, log) && Slices(log, flat)
    && Last(log).Next() == |flat|
    && forall i :: 0 <= i < |log| ==> Starts(c, log[i])
  }

  /** A list of sets stamped with their positions. */
  ghost predicate Flat(flat: seq<bytes>) {
    forall k :: 0 <= k < |flat| ==> |flat[k]| >= HEADER_LEN && Offset(flat[k]) == k
  }

  /** Each set declares its real size. */
  ghost predicate Formed(flat: seq<bytes>) {
    forall k :: 0 <= k < |flat| ==> WellFormed(flat[k])
  }

  lemma SuffixInv(c: Config, log: Log, flat: seq<bytes>, i: nat)
    requires Inv(c, log, flat) && i < |log|
    ensures Inv(c, log[i..], flat)
  {}

  lemma WithNewInv(c: Config, log: Log, flat: seq<bytes>)
    requires Inv(c, log, flat)
    ensures Inv(c, WithNew(c, log), flat)
  {
    hide Sum;
    var newSeg := Seg(Last(log).Next(), []);
    assert newSeg.sets == flat[|flat|..|flat|];
    assert newSeg.Size() == 0;
    hide Concat;
    assert Starts(c, newSeg);
  }

  lemma CleanInv(c: Config, log: Log, flat: seq<bytes>)
    requires Inv(c, log, flat)
    ensures Inv(c, Clean(c.maxLogBytes, log), flat)
  {
    assert log != [];
    hide Inv, Clean, LongestFit, Sizes;
    CleanExact(c.maxLogBytes, log);
    SuffixInv(c, log, flat, |log| - |Clean(c.maxLogBytes, log)|);
  }

  lemma RollInv(c: Config, log: Log, flat: seq<bytes>)
    requires Inv(c, log, flat) && Last(log).Size() >= c.maxSegmentBytes
    ensures Inv(c, Roll(c, log), flat)
  {
    var grown := WithNew(c, log);
    WithNewInv(c, log, flat);
    CleanInv(c, grown, flat);
  }

  lemma ExtendStarts(c: Config, s: Seg, b: bytes)
    requires |b| >= HEADER_LEN && Starts(c, s) && s.Size() < c.maxSegmentBytes
    ensures Starts(c, Extend(s, b))
  {
    var r := Extend(s, b);
    forall k | 0 <= k < |r.sets| ensures |Concat(r.sets[..k])| < c.maxSegmentBytes {
      if k < |s.sets| {
        assert r.sets[..k] == s.sets[..k];
      } else {
        assert r.sets[..k] == s.sets;
      }
    }
  }

  /** One append keeps the log a suffix of the flat list, which grows by the stamped set. */
  lemma AppendInv(c: Config, log: Log, flat: seq<bytes>, b: bytes)
    requires Inv(c, log, flat) && |b| >= HEADER_LEN
    ensures Inv(c, AppendStep(c, log, b), flat + [PutOffset(b, |flat|)])
  {
    if Last(log).Size() >= c.maxSegmentBytes {
      RollInv(c, log, flat);
    }
    var ready := Ready(c, log);
    assert Last(ready).Size() < c.maxSegmentBytes;
    ExtendInv(c, ready, flat, b);
  }

  lemma ExtendInv(c: Config, log: Log, flat: seq<bytes>, b: bytes)
    requires Inv(c, log, flat) && |b| >= HEADER_LEN && Last(log).Size() < c.maxSegmentBytes
    ensures Inv(c, log[|log| - 1 := Extend(Last(log), b)], flat + [PutOffset(b, |flat|)])
  {
    hide PutOffset, Concat;
    var set' := PutOffset(b, |flat|);
    var last := Extend(Last(log), b);
    var log', flat' := log[|log| - 1 := last], flat + [set'];
    ExtendStarts(c, Last(log), b);
    forall i | 0 <= i < |log'|
      ensures log'[i].Next() <= |flat'| && log'[i].sets == flat'[log'[i].base..log'[i].Next()]
    {
      assert log[i].sets == flat[log[i].base..log[i].Next()];
    }
  }

  // ---- what an append drops -----------------------------------------------------------

  lemma FitsFrom(limit: int, sizes: seq<nat>, n: nat, j: nat)
    requires LongestFit(limit, sizes, n) && j < |sizes| - 1
    ensures j < n <==> Sum(sizes[j..]) > limit
  {
    if n <= j {
      SuffixSums(sizes, n, j);
    }
  }

  lemma SizesFrom(log: Log, j: nat)
    requires j <= |log|
    ensures Sizes(log)[j..] == Sizes(log[j..])
  {}

  /** Of the closed segments cleaning drops exactly those from which on the log exceeds the limit. */
  lemma CleanDrops(limit: int, log: Log, j: nat)
    requires j < |log| - 1
    ensures |Clean(limit, log)| <= |log|
    ensures j < |log| - |Clean(limit, log)| <==> limit != -1 && Sum(Sizes(log[j..])) > limit
  {
    hide Sum, Clean, LongestFit;
    CleanExact(limit, log);
    SizesFrom(log, j);
    if limit != -1 {
      FitsFrom(limit, Sizes(log), |log| - |Clean(limit, log)|, j);
    }
  }

  /** An append keeps a suffix of the segments, of which only the active one changes. */
  lemma AppendShape(c: Config, log: Log, b: bytes)
    requires log != [] && |b| >= HEADER_LEN
    ensures var grown, r := WithNew(c, log), AppendStep(c, log, b);
            var n := |grown| - |r|;
            && 0 <= n < |grown| && r[..|r| - 1] == grown[n..|grown| - 1] && r[0].base == grown[n].base
            && |r| == if Last(log).Size() >= c.maxSegmentBytes then |Clean(c.maxLogBytes, grown)| else |log|
  {
    hide Concat, PutOffset, Clean;
    if Last(log).Size() >= c.maxSegmentBytes {
      CleanExact(c.maxLogBytes, WithNew(c, log));
    }
  }

  /** It drops segments only when it starts a new one and retention is on, and then exactly those
      from which on the log, with the new segment, exceeds the limit. */
  lemma AppendDrops(c: Config, log: Log, b: bytes, j: nat)
    requires log != [] && |b| >= HEADER_LEN && j < |WithNew(c, log)| - 1
    ensures j < |WithNew(c, log)| - |AppendStep(c, log, b)| <==>
            && Last(log).Size() >= c.maxSegmentBytes && c.maxLogBytes != -1
            && Sum(Sizes(WithNew(c, log)[j..])) > c.maxLogBytes
  {
    hide Sum, Concat, Clean, Sizes, AppendStep;
    AppendShape(c, log, b);
    CleanDrops(c.maxLogBytes, WithNew(c, log), j);
  }

  /** How many leading segments begin below the offset. */
  function Below(log: Log, offset: int): (n: nat)
    ensures n <= |log|
    ensures forall j :: 0 <= j < n ==> log[j].base < offset
    ensures n < |log| ==> log[n].base >= offset
  {
    if log == [] || log[0].base >= offset then 0 else 1 + Below(log[1..], offset)
  }

  lemma {:induction false} TruncateDrops(log: Log, offset: int)
    requires Contiguous(log)
    ensures TruncateStep(log, offset) == log[Below(log, offset)..]
  {
    if log != [] {
      var rest := log[1..];
      TruncateDrops(rest, offset);
      if log[0].base >= offset {
        if rest != [] {
          assert log[0].Next() == log[1].base;
        }
        assert rest[0..] == rest;
      }
    }
  }

  lemma {:induction false} BelowExact(log: Log, offset: int)
    requires Contiguous(log)
    ensures forall j :: 0 <= j < |log| ==> (log[j].base < offset <==> j < Below(log, offset))
  {
    var n := Below(log, offset);
    for j := n to |log|
      invariant forall k :: n <= k < j ==> log[k].base >= offset
    {
      if j > n {
        assert log[j - 1].Next() == log[j].base;
      }
    }
  }

  lemma TruncateShape(c: Config, log: Log, flat: seq<bytes>, offset: int)
    requires Inv(c, log, flat)
    ensures var n := Below(log, offset);
            && TruncateStep(log, offset) == log[n..]
            && (forall j :: 0 <= j < |log| ==> (log[j].base < offset <==> j < n))
            && (n < |log| ==> Inv(c, log[n..], flat))
            && (n < |log| <==> offset <= Last(log).base)
  {
    hide TruncateStep, Below, Starts, Slices, Rolled;
    var n := Below(log, offset);
    TruncateDrops(log, offset);
    BelowExact(log, offset);
    if n < |log| {
      SuffixInv(c, log, flat, n);
    }
  }

  /** Truncation at or below the active segment's base drops a prefix and keeps the rest. */
  lemma TruncateInv(c: Config, log: Log, flat: seq<bytes>, offset: int)
    requires Inv(c, log, flat) && offset <= Last(log).base
    ensures Below(log, offset) < |log| && TruncateStep(log, offset) == log[Below(log, offset)..]
    ensures Inv(c, TruncateStep(log, offset), flat)
  {
    TruncateDrops(log, offset);
    SuffixInv(c, log, flat, Below(log, offset));
  }

  // ---- runs -----------------------------------------------------------------------------

  datatype Op = Append(ms: bytes) | Truncate(offset: int)

  /** Everything a run appends, each set stamped with its position in this list. */
  function Appended(ops: seq<Op>): (flat: seq<bytes>)
    ensures |flat| <= |ops|
  {
    if ops == [] then []
    else
      var flat := Appended(ops[..|ops| - 1]);
      match ops[|ops| - 1]
      case Append(b) => if |b| >= HEADER_LEN then flat + [PutOffset(b, |flat|)] else flat
      case Truncate(_) => flat
  }

  /** Sets have a header, and truncation stays at or below the active segment's base. */
  ghost predicate Legal(c: Config, ops: seq<Op>)
    decreases |ops|, 0
  {
    if ops == [] then c.maxSegmentBytes > 0
    else
      var before := ops[..|ops| - 1];
      && Legal(c, before)
      && match ops[|ops| - 1]
         case Append(b) => |b| >= HEADER_LEN
         case Truncate(offset) => offset <= Last(Run(c, before)).base
  }

  /** The log after a run from an empty directory. It is always a contiguous stretch of the
      flat list of everything appended, reaching up to its end. */
  ghost function Run(c: Config, ops: seq<Op>): (log: Log)
    requires Legal(c, ops)
    ensures Inv(c, log, Appended(ops))
    decreases |ops|, 1
  {
    if ops == [] then [Seg(0, [])]
    else
      var before := Run(c, ops[..|ops| - 1]);
      var flat := Appended(ops[..|ops| - 1]);
      match ops[|ops| - 1]
      case Append(b) => AppendInv(c, before, flat, b); AppendStep(c, before, b)
      case Truncate(offset) => TruncateInv(c, before, flat, offset); TruncateStep(before, offset)
  }

  lemma {:induction false} AppendedFlat(c: Config, ops: seq<Op>)
    requires Legal(c, ops) && |ops| <= 0x7FFF_FFFF_FFFF_FFFF
    ensures Flat(Appended(ops))
  {
    if ops != [] {
      AppendedFlat(c, ops[..|ops| - 1]);
      match ops[|ops| - 1]
      case Append(b) => Stamped(b, |Appended(ops[..|ops| - 1])|);
      case Truncate(_) =>
    }
  }

  /** What was appended well formed is stored well formed. */
  lemma {:induction false} AppendedFormed(c: Config, ops: seq<Op>)
    requires Legal(c, ops) && |ops| <= 0x7FFF_FFFF_FFFF_FFFF
    requires forall i :: 0 <= i < |ops| && ops[i].Append? ==> WellFormed(ops[i].ms)
    ensures Formed(Appended(ops))
  {
    if ops != [] {
      AppendedFormed(c, ops[..|ops| - 1]);
      match ops[|ops| - 1]
      case Append(b) => Stamped(b, |Appended(ops[..|ops| - 1])|);
      case Truncate(_) =>
    }
  }

  /** The sets held by a log, in order. */
  function Live(log: Log): (sets: seq<bytes>) {
    if log == [] then [] else log[0].sets + Live(log[1..])
  }

  lemma {:induction false} LiveCat(a: Log, b: Log)
    ensures Live(a + b) == Live(a) + Live(b)
  {
    if a == [] {
      assert a + b == b;
    } else {
      assert (a + b)[1..] == a[1..] + b;
      LiveCat(a[1..], b);
    }
  }

  lemma LiveOne(s: Seg)
    ensures Live([s]) == s.sets
  {
    assert Live([s]) == s.sets + Live([]);
  }

  /** The live sets before, in and after segment `i`. */
  lemma LiveSplit(log: Log, i: nat)
    requires i < |log|
    ensures Live(log[..i + 1]) == Live(log[..i]) + log[i].sets
    ensures Live(log) == Live(log[..i]) + log[i].sets + Live(log[i + 1..])
  {
    hide Live;
    SplitAt(log, i + 1);
    TakeNext(log, i);
    LiveCat(log[..i + 1], log[i + 1..]);
    LiveCat(log[..i], [log[i]]);
    LiveOne(log[i]);
  }

  lemma {:induction false} LiveIsSuffix(c: Config, log: Log, flat: seq<bytes>)
    requires Inv(c, log, flat)
    ensures Live(log) == flat[log[0].base..]
  {
    if |log| == 1 {
      assert Live(log[1..]) == [];
    } else {
      SuffixInv(c, log, flat, 1);
      LiveIsSuffix(c, log[1..], flat);
      assert flat[log[0].base..] == flat[log[0].base..log[0].Next()] + flat[log[0].Next()..];
    }
  }

  lemma BasesIncrease(c: Config, log: Log, flat: seq<bytes>)
    requires Inv(c, log, flat)
    ensures forall i :: 0 <= i < |log| - 1 ==> log[i].base < log[i + 1].base == log[i].Next()
  {
    forall i | 0 <= i < |log| - 1 ensures log[i].base < log[i + 1].base == log[i].Next() {
      assert log[i].Size() > 0;
    }
  }

  lemma {:induction false} BasesOrdered(c: Config, log: Log, flat: seq<bytes>, i: nat, j: nat)
    requires Inv(c, log, flat) && i <= j < |log|
    ensures log[i].base <= log[j].base && (i < j ==> log[i].Next() <= log[j].base)
    decreases j - i
  {
    if i < j {
      BasesOrdered(c, log, flat, i + 1, j);
    }
  }

  /** Every run refines a flat append-only list: the live sets are exactly those from the
      oldest offset on, each segment holds a non-empty stretch that ends where the next
      begins, and the set at an offset is stamped with it. */
  lemma RunRefinesFlat(c: Config, ops: seq<Op>)
    requires Legal(c, ops) && |ops| <= 0x7FFF_FFFF_FFFF_FFFF
    ensures var log, flat := Run(c, ops), Appended(ops);
            && log != [] && Flat(flat)
            && Live(log) == flat[log[0].base..] && Last(log).Next() == |flat|
            && Slices(log, flat)
            && forall i :: 0 <= i < |log| - 1 ==> log[i].base < log[i + 1].base == log[i].Next()
  {
    var log, flat := Run(c, ops), Appended(ops);
    hide Run, Appended, Legal, Live, Concat;
    AppendedFlat(c, ops);
    LiveIsSuffix(c, log, flat);
    BasesIncrease(c, log, flat);
  }

  // ---- bounds over runs -----------------------------------------------------------------

  /** What retention leaves in the closed segments, and how far the active one can grow. */
  ghost predicate Bounded(c: Config, log: Log, maxSet: int) {
    && log != []
    && Sum(Sizes(log[..|log| - 1])) <= Max(c.maxLogBytes, 0)
    && Last(log).Size() < c.maxSegmentBytes + maxSet
  }

  lemma SplitSum(log: Log)
    requires log != []
    ensures Sum(Sizes(log)) == Sum(Sizes(log[..|log| - 1])) + Last(log).Size()
  {
    var n := |log| - 1;
    assert Sizes(log) == Sizes(log[..n]) + [Last(log).Size()];
    SumCat(Sizes(log[..n]), [Last(log).Size()]);
    assert Sum([Last(log).Size()]) == Last(log).Size() + Sum([]);
  }

  lemma SuffixSum(log: Log, i: nat)
    requires i < |log|
    ensures Sum(Sizes(log[i..][..|log| - i - 1])) <= Sum(Sizes(log[..|log| - 1]))
  {
    var n := |log| - 1;
    assert log[i..][..n - i] == log[i..n];
    assert Sizes(log[..n]) == Sizes(log[..i]) + Sizes(log[i..n]);
    SumCat(Sizes(log[..i]), Sizes(log[i..n]));
  }

  lemma NothingClosed(log: Log)
    requires |log| == 1
    ensures Sum(Sizes(log[..|log| - 1])) == 0
  {}

  lemma RollBounded(c: Config, log: Log, maxSet: nat)
    requires log != [] && c.maxLogBytes != -1 && c.maxSegmentBytes > 0
    ensures Bounded(c, Roll(c, log), maxSet)
  {
    hide Sum, Cut;
    var grown := log + [Seg(Last(log).Next(), [])];
    var sizes := Sizes(grown);
    var i := Cut(c.maxLogBytes, sizes);
    CutIsLongest(c.maxLogBytes, sizes);
    var kept := Roll(c, log);
    assert Sizes(kept) == sizes[i..];
    SplitSum(kept);
    if |kept| == 1 {
      NothingClosed(kept);
    }
  }

  lemma AppendBounded(c: Config, log: Log, b: bytes, maxSet: nat)
    requires Bounded(c, log, maxSet) && c.maxLogBytes != -1 && c.maxSegmentBytes > 0
    requires HEADER_LEN <= |b| <= maxSet
    ensures Bounded(c, AppendStep(c, log, b), maxSet)
  {
    if Last(log).Size() >= c.maxSegmentBytes {
      RollBounded(c, log, maxSet);
    }
    var ready, r := Ready(c, log), AppendStep(c, log, b);
    assert r[..|r| - 1] == ready[..|ready| - 1];
    var s := Last(ready);
    assert (s.sets + [PutOffset(b, s.Next())])[..|s.sets|] == s.sets;
    assert Last(r).Size() == s.Size() + |b|;
  }

  ghost predicate SetsAtMost(ops: seq<Op>, maxSet: int) {
    forall i :: 0 <= i < |ops| ==> ops[i].Append? ==> |ops[i].ms| <= maxSet
  }

  lemma EmptyBounded(c: Config, maxSet: nat)
    requires c.maxSegmentBytes > 0
    ensures Bounded(c, [Seg(0, [])], maxSet)
  {
    assert Concat([]) == [];
  }

  lemma TruncateBounded(c: Config, log: Log, flat: seq<bytes>, offset: int, maxSet: nat)
    requires Inv(c, log, flat) && offset <= Last(log).base && Bounded(c, log, maxSet)
    ensures Bounded(c, TruncateStep(log, offset), maxSet)
  {
    hide Inv, Sum, Sizes, Concat, TruncateStep, Below;
    TruncateInv(c, log, flat, offset);
    SuffixSum(log, Below(log, offset));
  }

  /** One more step of a run. */
  lemma RunNext(c: Config, ops: seq<Op>)
    requires Legal(c, ops) && ops != []
    ensures var before := ops[..|ops| - 1];
            && Legal(c, before)
            && match ops[|ops| - 1]
               case Append(b) => |b| >= HEADER_LEN && Run(c, ops) == AppendStep(c, Run(c, before), b)
               case Truncate(offset) =>
                 offset <= Last(Run(c, before)).base && Run(c, ops) == TruncateStep(Run(c, before), offset)
  {
    hide AppendStep, TruncateStep, Inv, Appended;
  }

  lemma {:induction false} RunBounded(c: Config, ops: seq<Op>, maxSet: nat)
    requires Legal(c, ops) && c.maxLogBytes != -1 && SetsAtMost(ops, maxSet)
    ensures Bounded(c, Run(c, ops), maxSet) && c.maxSegmentBytes > 0
  {
    hide Bounded, AppendStep, TruncateStep, Inv, Appended;
    if ops == [] {
      EmptyBounded(c, maxSet);
    } else {
      var before := ops[..|ops| - 1];
      RunNext(c, ops);
      RunBounded(c, before, maxSet);
      hide Run, Legal;
      match ops[|ops| - 1]
      case Append(b) => AppendBounded(c, Run(c, before), b, maxSet);
      case Truncate(offset) => TruncateBounded(c, Run(c, before), Appended(before), offset, maxSet);
    }
  }

  lemma {:induction false} SizesLive(log: Log)
    ensures Sum(Sizes(log)) == |Concat(Live(log))|
  {
    if log != [] {
      SizesLive(log[1..]);
      assert Sizes(log)[1..] == Sizes(log[1..]);
      ConcatCat(log[0].sets, Live(log[1..]));
    }
  }

  /** The segment that holds the set at an offset. */
  lemma {:induction false} HolderOf(c: Config, log: Log, flat: seq<bytes>, k: nat, n: nat) returns (j: nat)
    requires Inv(c, log, flat) && n < |log| && log[0].base <= k < log[n].base
    ensures j < n && log[j].base <= k < log[j].Next()
    decreases n
  {
    if log[n - 1].base <= k {
      assert log[n - 1].Next() == log[n - 1 + 1].base;
      j := n - 1;
    } else {
      j := HolderOf(c, log, flat, k, n - 1);
    }
  }

  /** A segment holds less than the segment size before each of its sets. */
  lemma SizeFromSet(c: Config, log: Log, flat: seq<bytes>, j: nat, k: nat)
    requires Inv(c, log, flat) && j < |log| && log[j].base <= k < log[j].Next()
    ensures k < |flat| && Sum(Sizes(log[j..])) < c.maxSegmentBytes + |Concat(flat[k..])|
  {
    hide Concat, Live, Sum;
    var base := log[j].base;
    SuffixInv(c, log, flat, j);
    LiveIsSuffix(c, log[j..], flat);
    SizesLive(log[j..]);
    assert flat[base..] == flat[base..k] + flat[k..];
    ConcatCat(flat[base..k], flat[k..]);
    assert log[j].sets[..k - base] == flat[base..k];
  }

  /** Everything from offset `k` on, with one segment more, is within the retention limit. */
  ghost predicate Recent(c: Config, flat: seq<bytes>, k: nat) {
    k < |flat| && (c.maxLogBytes == -1 || |Concat(flat[k..])| + c.maxSegmentBytes <= c.maxLogBytes + 1)
  }

  lemma RecentBefore(c: Config, flat: seq<bytes>, x: bytes, k: nat)
    requires Recent(c, flat + [x], k) && k < |flat|
    ensures Recent(c, flat, k)
  {
    assert (flat + [x])[k..] == flat[k..] + [x];
    ConcatCat(flat[k..], [x]);
  }

  lemma AppendKeepsRecent(c: Config, log: Log, flat: seq<bytes>, b: bytes, k: nat)
    requires log != [] && Inv(c, log, flat) && |b| >= HEADER_LEN && Recent(c, flat, k) && log[0].base <= k
    ensures AppendStep(c, log, b) != [] && AppendStep(c, log, b)[0].base <= k
  {
    hide Inv, Sum, Concat, AppendStep, Sizes;
    AppendShape(c, log, b);
    WithNewInv(c, log, flat);
    var grown, r := WithNew(c, log), AppendStep(c, log, b);
    var n := |grown| - |r|;
    if k < grown[n].base {
      var j := HolderOf(c, grown, flat, k, n);
      SizeFromSet(c, grown, flat, j, k);
      AppendDrops(c, log, b, j);
    }
  }

  lemma NewestLive(c: Config, log: Log, flat: seq<bytes>, b: bytes)
    requires Inv(c, log, flat) && |b| >= HEADER_LEN
    ensures AppendStep(c, log, b) != [] && AppendStep(c, log, b)[0].base <= |flat|
  {
    hide Sum, Concat, AppendStep, WithNew;
    AppendShape(c, log, b);
    WithNewInv(c, log, flat);
  }

  /** While nothing is truncated, no run loses a set that retention has room for: what lies within
      the limit, less one segment, of the newest byte is live. */
  lemma {:induction false} RunKeepsRecent(c: Config, ops: seq<Op>, k: nat)
    requires Legal(c, ops) && (forall i :: 0 <= i < |ops| ==> ops[i].Append?)
    requires Recent(c, Appended(ops), k)
    ensures Run(c, ops)[0].base <= k
  {
    assert ops != [];
    hide Inv, AppendStep, Recent;
    var before, b := ops[..|ops| - 1], ops[|ops| - 1].ms;
    var log, flat := Run(c, before), Appended(before);
    RunNext(c, ops);
    AppendInv(c, log, flat, b);
    if k < |flat| {
      RecentBefore(c, flat, PutOffset(b, |flat|), k);
      RunKeepsRecent(c, before, k);
      AppendKeepsRecent(c, log, flat, b, k);
    } else {
      NewestLive(c, log, flat, b);
    }
  }

  /** With retention on, no run ever holds more than the retention limit plus one segment
      and one set. */
  lemma RunStorageBound(c: Config, ops: seq<Op>, maxSet: nat)
    requires Legal(c, ops) && c.maxLogBytes != -1 && SetsAtMost(ops, maxSet)
    ensures Sum(Sizes(Run(c, ops))) <= Max(c.maxLogBytes, 0) + c.maxSegmentBytes + maxSet - 1
  {
    RunBounded(c, ops, maxSet);
    SplitSum(Run(c, ops));
  }

  lemma {:induction false} SetsTakeRoom(sets: seq<bytes>)
    requires forall k :: 0 <= k < |sets| ==> |sets[k]| >= HEADER_LEN
    ensures |Concat(sets)| >= HEADER_LEN * |sets|
  {
    if sets != [] {
      SetsTakeRoom(sets[..|sets| - 1]);
    }
  }

  /** A segment never holds more sets than headers fit below the segment size, so an index
      of `capacity` entries never overflows when the segment size is at most 12 times it. */
  lemma SegmentRoom(c: Config, s: Seg, capacity: nat)
    requires Starts(c, s) && forall k :: 0 <= k < |s.sets| ==> |s.sets[k]| >= HEADER_LEN
    requires c.maxSegmentBytes <= HEADER_LEN * capacity
    ensures |s.sets| <= capacity
    ensures s.Size() < c.maxSegmentBytes ==> |s.sets| < capacity
  {
    if s.sets != [] {
      var k := |s.sets| - 1;
      SetsTakeRoom(s.sets[..k]);
      SetsTakeRoom(s.sets);
    }
  }
}
