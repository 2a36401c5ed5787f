/** What the wire encoder writes (protocol/encoder.go, protocol/size_field.go,
    protocol/crc_field.go): programs of put operations with nested reserved fields, and the
    bytes each of them stands for. */
module Wire {
  import opened Bytes

  type uint32 = x: int | 0 <= x < 0x1_0000_0000

  /** hash/crc32's IEEE checksum, of which only its range is used. */
  type Checksum = bytes -> uint32

  /** The longest array the decoder accepts. */
  const MAX_ARRAY := 2 * 65535

  const MILLISECOND := 1_000_000

  /** Go's division of nanoseconds by a millisecond, truncating toward zero. */
  function WholeMillis(ns: int): (ms: int)
    ensures ns >= 0 ==> 0 <= ns - ms * MILLISECOND < MILLISECOND
    ensures ns <= 0 ==> -MILLISECOND < ns - ms * MILLISECOND <= 0
  {
    if ns >= 0 then ns / MILLISECOND else -((-ns) / MILLISECOND)
  }

  /** A duration as sent: whole milliseconds in 32 bits. */
  function Millis(ns: int): (ms: int32) {
    Wrap32(WholeMillis(ns))
  }

  /** Whole milliseconds, of which 32 bits can hold the number. */
  predicate ExactMillis(ns: int) {
    ns % MILLISECOND == 0 && -0x8000_0000 <= ns / MILLISECOND < 0x8000_0000
  }

  lemma MillisExact(ns: int)
    ensures Millis(ns) * MILLISECOND == ns <==> ExactMillis(ns)
  {
    WholeMillisExact(ns);
    if Millis(ns) * MILLISECOND == ns {
      WholeMillisOf(Millis(ns));
    }
  }

  /** As far as 32 bits hold the number, less than a millisecond is lost, toward zero. */
  lemma MillisNear(ns: int)
    ensures 0 <= ns < 0x8000_0000 * MILLISECOND ==> 0 <= ns - Millis(ns) * MILLISECOND < MILLISECOND
    ensures -0x8000_0000 * MILLISECOND <= ns <= 0 ==> -MILLISECOND < ns - Millis(ns) * MILLISECOND <= 0
  {}

  lemma WholeMillisExact(ns: int)
    ensures WholeMillis(ns) * MILLISECOND == ns <==> ns % MILLISECOND == 0
  {}

  lemma WholeMillisOf(ms: int)
    ensures WholeMillis(ms * MILLISECOND) == ms
  {}

  datatype Op =
    | Bool(b: bool)
    | Int8(v8: int8)
    | Int16(v16: int16)
    | Int32(v32: int32)
    | Int64(v64: int64)
    | ArrayLength(n: nat)
    | Raw(raw: bytes)
    | Blob(blob: Option<bytes>)
    | Str(s: bytes)
    | NullableStr(o: Option<bytes>)
    | StrArray(ss: seq<bytes>)
    | Int32Array(vs32: seq<int32>)
    | Int64Array(vs64: seq<int64>)

  datatype Kind = SizeField | CRCField

  /** A field pushed but not popped yet, and where it was saved. */
  datatype Open = Open(kind: Kind, start: nat)

  /** A program of puts in which every Push has its Pop: a frame is the reserved field, the
      program run between Push and Pop, and what follows. */
  datatype Prog = Done | Put(op: Op, next: Prog) | Framed(kind: Kind, body: Prog, next: Prog)

  function StrBytes(s: bytes): (r: bytes)
    ensures |r| == 2 + |s|
  {
    PutInt(2, |s|) + s
  }

  function Strs(ss: seq<bytes>): (r: bytes) {
    if ss == [] then [] else StrBytes(ss[0]) + Strs(ss[1..])
  }

  function Ints(w: nat, vs: seq<int>): (r: bytes)
    ensures |r| == w * |vs|
  {
    if vs == [] then [] else PutInt(w, vs[0]) + Ints(w, vs[1..])
  }

  function Emit(op: Op): (r: bytes) {
    match op
    case Bool(b) => [if b then 1 else 0]
    case Int8(v) => PutInt(1, v)
    case Int16(v) => PutInt(2, v)
    case Int32(v) => PutInt(4, v)
    case Int64(v) => PutInt(8, v)
    case ArrayLength(n) => PutInt(4, n)
    case Raw(raw) => raw
    case Blob(o) => Bytes.Blob(o)
    case Str(s) => StrBytes(s)
    case NullableStr(None) => PutInt(2, -1)
    case NullableStr(Some(s)) => StrBytes(s)
    case StrArray(ss) => PutInt(4, |ss|) + Strs(ss)
    case Int32Array(vs) => PutInt(4, |vs|) + Ints(4, vs)
    case Int64Array(vs) => PutInt(4, |vs|) + Ints(8, vs)
  }

  /** The puts the measuring pass lets through. */
  predicate Accepts(op: Op) {
    match op
    case ArrayLength(n) => n <= MAX_INT32
    case Raw(raw) => |raw| <= MAX_INT32
    case Blob(Some(raw)) => |raw| <= MAX_INT32
    case Str(s) => |s| <= MAX_INT16
    case NullableStr(Some(s)) => |s| <= MAX_INT16
    case StrArray(ss) => |ss| <= MAX_INT32 && forall i :: 0 <= i < |ss| ==> |ss[i]| <= MAX_INT16
    case Int32Array(vs) => |vs| <= MAX_INT32
    case Int64Array(vs) => |vs| <= MAX_INT32
    case _ => true
  }

  predicate AcceptsAll(p: Prog) {
    match p
    case Done => true
    case Put(op, next) => Accepts(op) && AcceptsAll(next)
    case Framed(_, body, next) => AcceptsAll(body) && AcceptsAll(next)
  }

  /** What a reserved field holds once its frame is closed: the length or the checksum of
      the bytes in the frame. */
  function Field(crc: Checksum, kind: Kind, body: bytes): (r: bytes)
    ensures |r| == 4
  {
    match kind
    case SizeField => PutInt(4, |body|)
    case CRCField => PutInt(4, crc(body))
  }

  /** The bytes of a program, followed by `tail`. */
  function Lay(crc: Checksum, p: Prog, tail: bytes): (r: bytes)
    decreases p
  {
    match p
    case Done => tail
    case Put(op, next) => Emit(op) + Lay(crc, next, tail)
    case Framed(kind, body, next) =>
      Field(crc, kind, Lay(crc, body, [])) + Lay(crc, body, Lay(crc, next, tail))
  }

  function Size(p: Prog): (n: nat) {
    match p
    case Done => 0
    case Put(op, next) => |Emit(op)| + Size(next)
    case Framed(_, body, next) => 4 + Size(body) + Size(next)
  }

  lemma {:induction false} LayTail(crc: Checksum, p: Prog, tail: bytes)
    ensures Lay(crc, p, tail) == Lay(crc, p, []) + tail
    ensures |Lay(crc, p, [])| == Size(p)
    decreases p
  {
    hide Emit, Field;
    match p
    case Done =>
    case Put(op, next) =>
      LayTail(crc, next, tail);
    case Framed(kind, body, next) =>
      LayTail(crc, next, tail);
      LayTail(crc, body, Lay(crc, next, tail));
      LayTail(crc, body, Lay(crc, next, []));
  }

  // ---- reserved fields ------------------------------------------------------------------

  /** SizeField.Check and CRCField.Check at cursor `cur` for a field saved at `start`. */
  predicate Check(crc: Checksum, kind: Kind, start: nat, cur: nat, buf: bytes)
    requires start + 4 <= cur <= |buf|
  {
    match kind
    case SizeField => (cur - start - 4) % 0x1_0000_0000 == Un(buf[start..start + 4])
    case CRCField => crc(buf[start + 4..cur]) == Un(buf[start..start + 4])
  }

  /** Every frame of a program laid out at `at` passes its check in the buffer. */
  ghost predicate ChecksPass(crc: Checksum, p: Prog, at: nat, buf: bytes)
    decreases p
  {
    match p
    case Done => true
    case Put(op, next) => ChecksPass(crc, next, at + |Emit(op)|, buf)
    case Framed(kind, body, next) =>
      && at + 4 + Size(body) <= |buf|
      && Check(crc, kind, at, at + 4 + Size(body), buf)
      && ChecksPass(crc, body, at + 4, buf)
      && ChecksPass(crc, next, at + 4 + Size(body), buf)
  }

  lemma FieldChecks(crc: Checksum, kind: Kind, body: bytes)
    ensures Un(Field(crc, kind, body)) == match kind
                                          case SizeField => |body| % 0x1_0000_0000
                                          case CRCField => crc(body)
  {
    Pows();
    match kind
    case SizeField => UnBe(4, |body| % 0x1_0000_0000);
    case CRCField => UnBe(4, crc(body) % 0x1_0000_0000);
  }

  /** In every encoded program, wherever it lies in a buffer, every reserved field holds the
      value its frame defines over the final bytes: all checks pass, at every nesting. */
  lemma {:induction false} AllChecksPass(crc: Checksum, p: Prog, before: bytes, after: bytes)
    ensures ChecksPass(crc, p, |before|, before + Lay(crc, p, after))
    decreases p
  {
    hide Emit, Field, Un, Check;
    match p
    case Done =>
    case Put(op, next) =>
      AllChecksPass(crc, next, before + Emit(op), after);
      Regroup(before, Emit(op), Lay(crc, next, after));
    case Framed(kind, body, next) =>
      var inner, rest := Lay(crc, body, []), Lay(crc, next, after);
      var field := Field(crc, kind, inner);
      var buf := before + Lay(crc, p, after);
      LayTail(crc, body, rest);
      Regroup(before, field, inner + rest);
      AllChecksPass(crc, body, before + field, rest);
      Regroup(before + field, inner, rest);
      AllChecksPass(crc, next, before + field + inner, after);
      FrameChecks(crc, kind, before, inner, rest);
  }

  lemma Regroup(a: bytes, b: bytes, c: bytes)
    ensures a + (b + c) == a + b + c
  {}

  lemma FrameChecks(crc: Checksum, kind: Kind, before: bytes, body: bytes, rest: bytes)
    ensures Check(crc, kind, |before|, |before| + 4 + |body|, before + Field(crc, kind, body) + (body + rest))
  {
    hide Field;
    var buf, at := before + Field(crc, kind, body) + (body + rest), |before|;
    assert buf[at..at + 4] == Field(crc, kind, body);
    assert buf[at + 4..at + 4 + |body|] == body;
    FieldChecks(crc, kind, body);
  }
}
