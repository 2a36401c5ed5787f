/** The decoder's array reads (protocol/decoder.go). */
module ArrayReaders {
  import opened Bytes
  import opened Wire
  import opened Encoders
  import opened Decoders

  lemma {:induction false} IntsNext(w: nat, vs: seq<int>, v: int)
    ensures Ints(w, vs + [v]) == Ints(w, vs) + PutInt(w, v)
  {
    hide PutInt;
    if vs == [] {
      assert [v][1..] == [];
    } else {
      IntsNext(w, vs[1..], v);
      assert (vs + [v])[1..] == vs[1..] + [v];
      Regroup(PutInt(w, vs[0]), Ints(w, vs[1..]), PutInt(w, v));
    }
  }

  lemma {:induction false} IntsInjective(w: nat, a: seq<int>, b: seq<int>)
    requires |a| == |b| && Ints(w, a) == Ints(w, b)
    requires forall i :: 0 <= i < |a| ==> Fits(w, a[i]) && Fits(w, b[i])
    ensures a == b
  {
    hide PutInt, GetInt, Fits;
    if a != [] {
      assert Ints(w, a)[..w] == PutInt(w, a[0]) && Ints(w, b)[..w] == PutInt(w, b[0]);
      assert Ints(w, a)[w..] == Ints(w, a[1..]) && Ints(w, b)[w..] == Ints(w, b[1..]);
      GetPut(w, a[0]);
      GetPut(w, b[0]);
      IntsInjective(w, a[1..], b[1..]);
      assert a == [a[0]] + a[1..] && b == [b[0]] + b[1..];
    }
  }

  lemma {:induction false} Room(w: nat, i: nat, n: nat)
    requires i < n
    ensures w * i + w <= w * n
  {
    if i + 1 < n {
      Room(w, i, n - 1);
    }
    assert w * n == w * (n - 1) + w;
  }

  /** What was written is the only array that could have been read. */
  lemma Reread(w: nat, s: bytes, vs: seq<int>, rest: bytes, want: seq<int>, tail: bytes)
    requires |s| >= 4 && |vs| == Un(s[..4]) && s == s[..4] + (Ints(w, vs) + rest)
    requires s == PutInt(4, |want|) + (Ints(w, want) + tail) && |want| <= MAX_INT32
    requires forall i :: 0 <= i < |vs| ==> Fits(w, vs[i])
    requires forall i :: 0 <= i < |want| ==> Fits(w, want[i])
    ensures vs == want && rest == tail
  {
    hide PutInt, Fits, Ints;
    PeelUn(|want|, Ints(w, want) + tail);
    TakeFront(s[..4], Ints(w, vs) + rest);
    TakeFront(Ints(w, vs), rest);
    TakeFront(Ints(w, want), tail);
    IntsInjective(w, vs, want);
  }

  ghost predicate Wrote(w: nat, s: bytes, want: seq<int>, tail: bytes) {
    && s == PutInt(4, |want|) + (Ints(w, want) + tail) && |want| <= MAX_INT32
    && forall i :: 0 <= i < |want| ==> Fits(w, want[i])
  }

  lemma WroteRoom(w: nat, s: bytes, want: seq<int>, tail: bytes)
    ensures Wrote(w, s, want, tail) ==> |s| >= 4 && Un(s[..4]) == |want| && w * |want| <= |s| - 4
  {
    hide PutInt, Ints, Fits;
    if Wrote(w, s, want, tail) {
      PeelUn(|want|, Ints(w, want) + tail);
    }
  }

  /** Int32Array and Int64Array, for integers of `w` bytes. On any input the result, written out
      again, is what was read; so reading undoes writing. */
  method IntArray(d: ByteDecoder, w: nat, ghost want: seq<int>, ghost tail: bytes) returns (r: Result<seq<int>>)
    requires d.Valid()
    modifies d`off
    ensures d.Valid()
    ensures r.Ok? <==> |old(d.Rest())| >= 4 && w * Un(old(d.Rest())[..4]) <= |old(d.Rest())| - 4
    ensures r.Ok? ==> |r.value| == Un(old(d.Rest())[..4]) && (forall i :: 0 <= i < |r.value| ==> Fits(w, r.value[i]))
    ensures r.Ok? ==> old(d.Rest()) == old(d.Rest())[..4] + (Ints(w, r.value) + d.Rest())
    ensures r.Err? ==> r.error == InsufficientData && d.Rest() == []
    ensures Wrote(w, old(d.Rest()), want, tail) ==> r == Ok(want) && d.Rest() == tail
  {
    hide PutInt, GetInt, Ints, Fits;
    ghost var s := d.Rest();
    WroteRoom(w, s, want, tail);
    if d.Remaining() < 4 {
      d.off := |d.b|;
      return Err(InsufficientData);
    }
    var head := d.Take(4);
    var n := Un(head);
    ghost var rest := d.Rest();
    SplitAt(s, 4);
    if d.Remaining() < w * n {
      d.off := |d.b|;
      return Err(InsufficientData);
    }
    var vs: seq<int> := [];
    IntsEnds(w, vs);
    assert rest == Ints(w, []) + rest;
    for i := 0 to n
      invariant d.Valid() && |vs| == i && rest == Ints(w, vs) + d.Rest()
      invariant forall k :: 0 <= k < |vs| ==> Fits(w, vs[k])
    {
      Room(w, i, n);
      ghost var before := d.Rest();
      var x := d.Take(w);
      PutGet(x);
      IntsNext(w, vs, GetInt(x));
      SplitAt(before, w);
      Regroup(Ints(w, vs), x, d.Rest());
      vs := vs + [GetInt(x)];
    }
    if Wrote(w, s, want, tail) {
      Reread(w, s, vs, d.Rest(), want, tail);
    }
    return Ok(vs);
  }

  /** What reading `n` strings one after the other gives: all of them, or the error of the first that
      cannot be read, with the cursor where that read left it. */
  ghost predicate StringsRead(s: bytes, n: nat, r: Result<seq<bytes>>, rest: bytes)
    decreases n
  {
    if n == 0 then r == Ok([]) && rest == s
    else
      exists before: Result<seq<bytes>>, mid: bytes ::
        StringsRead(s, n - 1, before, mid) && OneMore(before, mid, r, rest)
  }

  ghost predicate OneMore(before: Result<seq<bytes>>, mid: bytes, r: Result<seq<bytes>>, rest: bytes) {
    if before.Err? then r == before && rest == mid
    else exists str: Result<bytes> ::
           StringRead(mid, str, rest) && r == if str.Ok? then Ok(before.value + [str.value]) else Err(str.error)
  }

  lemma ReadsOne(s: bytes, i: nat, got: seq<bytes>, mid: bytes, str: Result<bytes>, rest: bytes)
    requires StringsRead(s, i, Ok(got), mid) && StringRead(mid, str, rest)
    ensures StringsRead(s, i + 1, if str.Ok? then Ok(got + [str.value]) else Err(str.error), rest)
  {
    hide StringRead;
    assert OneMore(Ok(got), mid, if str.Ok? then Ok(got + [str.value]) else Err(str.error), rest);
  }

  lemma {:induction false} ErrorStays(s: bytes, i: nat, n: nat, e: Error, rest: bytes)
    requires i <= n && StringsRead(s, i, Err(e), rest)
    ensures StringsRead(s, n, Err(e), rest)
    decreases n - i
  {
    if i < n {
      assert OneMore(Err(e), rest, Err(e), rest);
      ErrorStays(s, i + 1, n, e, rest);
    }
  }

  /** StringArray: the count is not held against the bytes that are left. */
  method StringArray(d: ByteDecoder, ghost want: seq<bytes>, ghost tail: bytes) returns (r: Result<seq<bytes>>)
    requires d.Valid()
    modifies d`off
    ensures d.Valid() && d.off >= old(d.off)
    ensures |old(d.Rest())| < 4 ==> r == Err(InsufficientData) && d.Rest() == []
    ensures |old(d.Rest())| >= 4 ==> StringsRead(old(d.Rest())[4..], Un(old(d.Rest())[..4]), r, d.Rest())
    ensures old(d.Rest()) == PutInt(4, |want|) + (Strs(want) + tail) && |want| <= MAX_INT32
            && (forall i :: 0 <= i < |want| ==> |want[i]| <= MAX_INT16) ==>
              r == Ok(want) && d.Rest() == tail
  {
    hide PutInt, Strs, StrBytes, Un, Pow256, StringRead, StringsRead;
    if d.Remaining() < 4 {
      d.off := |d.b|;
      return Err(InsufficientData);
    }
    ghost var good := d.Rest() == PutInt(4, |want|) + (Strs(want) + tail) && |want| <= MAX_INT32
                      && forall i :: 0 <= i < |want| ==> |want[i]| <= MAX_INT16;
    if good {
      PeelUn(|want|, Strs(want) + tail);
    }
    var head := d.Take(4);
    var n := Un(head);
    ghost var s := d.Rest();
    var got: seq<bytes> := [];
    StrsEnds(want);
    NoStrings(s);
    for i := 0 to n
      invariant d.Valid() && d.off >= old(d.off) && StringsRead(s, i, Ok(got), d.Rest())
      invariant good ==> n == |want| && d.Rest() == Strs(want[i..]) + tail && got == want[..i]
    {
      ghost var x, rest, mid := [], [], d.Rest();
      if good {
        StrsSize(want, i);
        TakeNext(want, i);
        x, rest := want[i], Strs(want[i + 1..]) + tail;
        Regroup(StrBytes(want[i]), Strs(want[i + 1..]), tail);
      }
      var str := d.String(x, rest);
      ReadsOne(s, i, got, mid, str, d.Rest());
      if str.Err? {
        ErrorStays(s, i + 1, n, str.error, d.Rest());
        return Err(str.error);
      }
      got := got + [str.value];
    }
    if good {
      assert want[..n] == want && [] + tail == tail;
    }
    return Ok(got);
  }

  lemma NoStrings(s: bytes)
    ensures StringsRead(s, 0, Ok([]), s)
  {}
}
