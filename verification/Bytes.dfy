/** Bytes, big-endian integers and flattened byte sequences: what Go's encoding/binary
    and append provide to both the commit log and the wire protocol. */
module Bytes {

  datatype Option<+T> = None | Some(value: T)

  type byte = x: int | 0 <= x < 256
  type bytes = seq<byte>

  type int8 = x: int | -0x80 <= x < 0x80
  type int16 = x: int | -0x8000 <= x < 0x8000
  type int32 = x: int | -0x8000_0000 <= x < 0x8000_0000
  type int64 = x: int | -0x8000_0000_0000_0000 <= x < 0x8000_0000_0000_0000

  const MAX_INT16 := 0x7FFF
  const MAX_INT32 := 0x7FFF_FFFF

  function Pow256(w: nat): (p: nat)
    ensures p > 0
  {
    if w == 0 then 1 else 256 * Pow256(w - 1)
  }

  lemma Pows()
    ensures Pow256(1) == 0x100
    ensures Pow256(2) == 0x1_0000
    ensures Pow256(4) == 0x1_0000_0000
    ensures Pow256(8) == 0x1_0000_0000_0000_0000
  {
    assert Pow256(2) == 256 * Pow256(1);
    assert Pow256(3) == 256 * Pow256(2);
    assert Pow256(5) == 256 * Pow256(4);
    assert Pow256(6) == 256 * Pow256(5);
    assert Pow256(7) == 256 * Pow256(6);
  }

  /** The low `w` bytes of `v`, most significant first. */
  function Be(w: nat, v: nat): (s: bytes)
    ensures |s| == w
  {
    if w == 0 then [] else Be(w - 1, v / 256) + [v % 256]
  }

  function Un(s: bytes): (v: nat)
    ensures v < Pow256(|s|)
  {
    if s == [] then 0 else Un(s[..|s| - 1]) * 256 + s[|s| - 1]
  }

  lemma {:induction false} UnBe(w: nat, v: nat)
    requires v < Pow256(w)
    ensures Un(Be(w, v)) == v
  {
    if w > 0 {
      UnBe(w - 1, v / 256);
      assert Be(w, v)[..w - 1] == Be(w - 1, v / 256);
    }
  }

  /** Whether the two's-complement integers of `w` bytes include `v`. */
  predicate Fits(w: nat, v: int) {
    0 - Pow256(w) <= 2 * v < Pow256(w)
  }

  /** Writing a signed integer of `w` bytes: the conversion to unsigned keeps the low bytes. */
  function PutInt(w: nat, v: int): (s: bytes)
    ensures |s| == w
  {
    Be(w, v % Pow256(w))
  }

  /** Reinterpreting `u` as a two's-complement integer of `w` bytes. */
  function Signed(w: nat, u: int): (v: int)
    requires 0 <= u < Pow256(w)
    ensures Fits(w, v)
  {
    if 2 * u < Pow256(w) then u else u - Pow256(w)
  }

  function GetInt(s: bytes): (v: int)
    ensures Fits(|s|, v)
  {
    Signed(|s|, Un(s))
  }

  lemma ModFits(w: nat, v: int)
    ensures Fits(w, v) && v >= 0 ==> v % Pow256(w) == v
    ensures Fits(w, v) && v < 0 ==> v % Pow256(w) == v + Pow256(w)
  {
    if Fits(w, v) {
      ModOnce(v, Pow256(w));
    }
  }

  lemma ModOnce(v: int, p: int)
    requires 0 - p <= v < p
    ensures v % p == if v < 0 then v + p else v
  {
    var q := v / p;
    assert v == p * q + v % p;
    MulBounds(p, q);
  }

  lemma MulBounds(p: int, q: int)
    requires p > 0
    ensures q >= 1 ==> p * q >= p
    ensures q <= -2 ==> p * q <= -2 * p
  {}

  /** Reading back what was written gives the written integer. */
  lemma GetPut(w: nat, v: int)
    requires Fits(w, v)
    ensures GetInt(PutInt(w, v)) == v
  {
    ModFits(w, v);
    UnBe(w, v % Pow256(w));
  }

  lemma {:induction false} BeUn(s: bytes)
    ensures Be(|s|, Un(s)) == s
  {
    if s != [] {
      var n := |s| - 1;
      BeUn(s[..n]);
      assert Un(s) / 256 == Un(s[..n]) && Un(s) % 256 == s[n];
    }
  }

  /** Writing what was read gives the bytes back. */
  lemma PutGet(s: bytes)
    ensures PutInt(|s|, GetInt(s)) == s
  {
    BeUn(s);
    ModFits(|s|, GetInt(s));
  }

  lemma GetPutFixed()
    ensures forall v: int8 :: GetInt(PutInt(1, v)) == v
    ensures forall v: int16 :: GetInt(PutInt(2, v)) == v
    ensures forall v: int32 :: GetInt(PutInt(4, v)) == v
    ensures forall v: int64 :: GetInt(PutInt(8, v)) == v
  {
    Pows();
    forall v: int8 ensures GetInt(PutInt(1, v)) == v { GetPut(1, v); }
    forall v: int16 ensures GetInt(PutInt(2, v)) == v { GetPut(2, v); }
    forall v: int32 ensures GetInt(PutInt(4, v)) == v { GetPut(4, v); }
    forall v: int64 ensures GetInt(PutInt(8, v)) == v { GetPut(8, v); }
  }

  /** Go's conversion to int32: the low 32 bits, reread as a signed integer. */
  function Wrap32(v: int): (r: int32) {
    (v + 0x8000_0000) % 0x1_0000_0000 - 0x8000_0000
  }

  /** Go's conversion to int64, and what 64-bit arithmetic leaves of a number. */
  function Wrap64(v: int): (r: int64) {
    (v + 0x8000_0000_0000_0000) % 0x1_0000_0000_0000_0000 - 0x8000_0000_0000_0000
  }

  lemma GetPut64(v: int)
    ensures GetInt(PutInt(8, v)) == Wrap64(v)
  {
    hide Be, Un, Pow256;
    Pows();
    UnBe(8, v % 0x1_0000_0000_0000_0000);
  }

  lemma SameLowBytes(n: int)
    ensures PutInt(4, n) == PutInt(4, Wrap32(n))
  {
    hide Be, Wrap32, Pow256;
    Pows();
    SameResidue(n);
  }

  lemma SameResidue(n: int)
    ensures n % 0x1_0000_0000 == Wrap32(n) % 0x1_0000_0000
  {}

  /** All the given byte strings, one after the other. */
  function Concat(ss: seq<bytes>): (s: bytes) {
    if ss == [] then [] else Concat(ss[..|ss| - 1]) + ss[|ss| - 1]
  }

  lemma ConcatNext(ss: seq<bytes>, i: nat)
    requires i < |ss|
    ensures Concat(ss[..i + 1]) == Concat(ss[..i]) + ss[i]
  {
    assert ss[..i + 1][..i] == ss[..i];
  }

  lemma {:induction false} ConcatCat(a: seq<bytes>, b: seq<bytes>)
    ensures Concat(a + b) == Concat(a) + Concat(b)
  {
    if b == [] {
      assert a + b == a;
    } else {
      var n := |b| - 1;
      assert (a + b)[..|a| + n] == a + b[..n];
      ConcatCat(a, b[..n]);
    }
  }

  lemma ConcatOne(s: bytes)
    ensures Concat([s]) == s
  {
    assert Concat([s]) == Concat([]) + s;
  }

  /** The k-th string of a flattened list sits right after the strings before it. */
  lemma ConcatAt(ss: seq<bytes>, k: nat)
    requires k < |ss|
    ensures |Concat(ss[..k])| + |ss[k]| <= |Concat(ss)|
    ensures Concat(ss)[|Concat(ss[..k])|..|Concat(ss[..k])| + |ss[k]|] == ss[k]
    ensures Concat(ss)[|Concat(ss[..k])|..] == Concat(ss[k..])
  {
    assert ss == ss[..k] + ss[k..];
    ConcatCat(ss[..k], ss[k..]);
    assert ss[k..] == [ss[k]] + ss[k + 1..];
    ConcatCat([ss[k]], ss[k + 1..]);
    ConcatOne(ss[k]);
  }

  /** A nullable byte string: a four-byte length, -1 for null, and the bytes. */
  function Blob(o: Option<bytes>): (s: bytes)
    ensures |s| == 4 + if o.Some? then |o.value| else 0
  {
    match o
    case None => PutInt(4, -1)
    case Some(b) => PutInt(4, |b|) + b
  }

  lemma SliceSlice<T>(s: seq<T>, p: nat, n: nat, lo: nat, hi: nat)
    requires lo <= hi <= n && p + n <= |s|
    ensures s[p..p + n][lo..hi] == s[p + lo..p + hi]
  {
    var a, b := s[p..p + n][lo..hi], s[p + lo..p + hi];
    assert forall i :: 0 <= i < hi - lo ==> a[i] == s[p + lo + i] == b[i];
  }

  lemma TakeNext<T>(s: seq<T>, i: nat)
    requires i < |s|
    ensures s[..i + 1] == s[..i] + [s[i]]
  {}

  lemma DropNext<T>(s: seq<T>, i: nat)
    requires i < |s|
    ensures s[i..] == [s[i]] + s[i + 1..]
    ensures i == |s| - 1 ==> s[i..] == [s[i]]
  {}

  lemma SplitAt<T>(s: seq<T>, k: nat)
    requires k <= |s|
    ensures s == s[..k] + s[k..]
  {}
}
