/** Index keys for integer fields (jocko/fsm/index.go): zigzag varints, padded with zeros to a
    length fixed by the integer's type. */
module IntKeys {
  import opened Bytes

  /** reflect.Kind, as far as IsIntType tells kinds apart. */
  datatype Kind = Int | Int8 | Int16 | Int32 | Int64 | Other

  /** binary.MaxVarintLen16, 32 and 64 are 3, 5 and 10. */
  function IsIntType(k: Kind): (size: Option<nat>) {
    match k
    case Int => Some(10)
    case Int8 => Some(2)
    case Int16 => Some(3)
    case Int32 => Some(5)
    case Int64 => Some(10)
    case Other => None
  }

  predicate InRange(k: Kind, v: int) {
    match k
    case Int => -0x8000_0000_0000_0000 <= v < 0x8000_0000_0000_0000
    case Int8 => -0x80 <= v < 0x80
    case Int16 => -0x8000 <= v < 0x8000
    case Int32 => -0x8000_0000 <= v < 0x8000_0000
    case Int64 => -0x8000_0000_0000_0000 <= v < 0x8000_0000_0000_0000
    case Other => false
  }

  function ZigZag(v: int): (u: nat) {
    if v >= 0 then 2 * v else -2 * v - 1
  }

  /** That is binary.PutVarint's arithmetic in 64 bits: a shift to the left by one, and all bits
      flipped for a negative number. */
  lemma ZigZagShifts(v: int64)
    ensures var shifted := 2 * (v % 0x1_0000_0000_0000_0000) % 0x1_0000_0000_0000_0000;
            ZigZag(v) == if v < 0 then 0xFFFF_FFFF_FFFF_FFFF - shifted else shifted
  {
    ModOnce(v, 0x1_0000_0000_0000_0000);
    var u := v % 0x1_0000_0000_0000_0000;
    if v < 0 {
      assert 2 * u == (2 * v + 0x1_0000_0000_0000_0000) + 0x1_0000_0000_0000_0000;
    }
  }

  /** binary.PutUvarint: seven bits a byte, least significant first, the high bit set on all
      but the last. */
  function Uvarint(u: nat): (s: bytes)
    ensures s != []
  {
    if u < 128 then [u] else [u % 128 + 128] + Uvarint(u / 128)
  }

  function Zeros(n: nat): (s: bytes)
    ensures |s| == n
  {
    seq(n, _ => 0)
  }

  /** IntFieldIndex.FromObject and FromArgs: None (an error) if the field is no integer. */
  function Key(k: Kind, v: int): (r: Option<bytes>)
    requires k.Other? || InRange(k, v)
    ensures r.None? <==> k.Other?
    ensures r.Some? ==> |r.value| == IsIntType(k).value
  {
    if k.Other? then None
    else
      KeyFits(k, v);
      var s := Uvarint(ZigZag(v));
      Some(s + Zeros(IsIntType(k).value - |s|))
  }

  function Pow128(n: nat): (p: nat) {
    if n == 0 then 1 else 128 * Pow128(n - 1)
  }

  lemma {:induction false} UvarintLength(u: nat, n: nat)
    requires 0 < n && u < Pow128(n)
    ensures |Uvarint(u)| <= n
  {
    if u >= 128 {
      assert n > 1;
      UvarintLength(u / 128, n - 1);
    }
  }

  /** The varint of every value of every integer type fits the buffer made for its type. */
  lemma KeyFits(k: Kind, v: int)
    requires InRange(k, v)
    ensures IsIntType(k).Some? && |Uvarint(ZigZag(v))| <= IsIntType(k).value
  {
    Powers();
    UvarintLength(ZigZag(v), IsIntType(k).value);
  }

  lemma Powers()
    ensures Pow128(2) == 0x4000 && Pow128(3) == 0x20_0000 && Pow128(5) == 0x8_0000_0000
    ensures Pow128(10) == 0x40_0000_0000_0000_0000
  {
    assert Pow128(2) == 128 * Pow128(1);
    assert Pow128(4) == 128 * Pow128(3);
    assert Pow128(6) == 128 * Pow128(5);
    assert Pow128(7) == 128 * Pow128(6);
    assert Pow128(8) == 128 * Pow128(7);
    assert Pow128(9) == 128 * Pow128(8);
  }

  /** Reading a varint back, up to the first byte without the high bit. */
  function ReadUvarint(s: bytes): (u: nat) {
    if s == [] then 0 else if s[0] < 128 then s[0] else s[0] - 128 + 128 * ReadUvarint(s[1..])
  }

  lemma {:induction false} ReadBack(u: nat, rest: bytes)
    ensures ReadUvarint(Uvarint(u) + rest) == u
  {
    if u >= 128 {
      ReadBack(u / 128, rest);
      assert (Uvarint(u) + rest)[1..] == Uvarint(u / 128) + rest;
    }
  }

  /** Keys of one type are told apart by their first bytes: a key is a prefix of another key
      with anything after it only if they are keys of the same value. */
  lemma KeyPrefix(k: Kind, v: int, w: int, rest: bytes)
    requires InRange(k, v) && InRange(k, w)
    ensures Key(k, v).value <= Key(k, w).value + rest <==> v == w
  {
    hide Uvarint, ZigZag;
    var a, b := Key(k, v).value, Key(k, w).value;
    if a <= b + rest {
      assert a == (b + rest)[..|a|] == b;
      KeyFits(k, v);
      KeyFits(k, w);
      ReadBack(ZigZag(v), Zeros(|a| - |Uvarint(ZigZag(v))|));
      ReadBack(ZigZag(w), Zeros(|b| - |Uvarint(ZigZag(w))|));
      ZigZagInjective(v, w);
    }
  }

  lemma ZigZagInjective(v: int, w: int)
    requires ZigZag(v) == ZigZag(w)
    ensures v == w
  {}
}
