/** Request framing: protocol/request.go encodes it, protocol/request_header.go and the read
    loop of jocko/server.go take it apart. */
module Requests {
  import opened Bytes
  import opened Wire
  import opened Decoders

  /** A request; its body is whatever its message type puts between header and end. */
  datatype Request = Request(key: int16, version: int16, correlationID: int32, clientID: bytes, body: Prog)

  datatype RequestHeader = RequestHeader(size: int, apiKey: int, apiVersion: int, correlationID: int, clientID: bytes)

  function PayloadProg(r: Request): (p: Prog) {
    Put(Int16(r.key), Put(Int16(r.version), Put(Int32(r.correlationID), Put(Str(r.clientID), r.body))))
  }

  function RequestProg(r: Request): (p: Prog) {
    Framed(SizeField, PayloadProg(r), Done)
  }

  function HeaderOf(r: Request): (h: RequestHeader) {
    RequestHeader(Wrap32(Size(PayloadProg(r))), r.key, r.version, r.correlationID, r.clientID)
  }

  function HeaderBytes(h: RequestHeader, tail: bytes): (s: bytes) {
    PutInt(4, h.size) + (PutInt(2, h.apiKey) + (PutInt(2, h.apiVersion)
      + (PutInt(4, h.correlationID) + (StrBytes(h.clientID) + tail))))
  }

  /** An encoded request is a header, then its body. */
  lemma RequestLaid(crc: Checksum, r: Request, tail: bytes)
    ensures Lay(crc, RequestProg(r), tail) == HeaderBytes(HeaderOf(r), Lay(crc, r.body, tail))
    ensures Size(PayloadProg(r)) == 10 + |r.clientID| + Size(r.body)
    ensures Lay(crc, RequestProg(r), tail) == PutInt(4, Size(PayloadProg(r))) + Lay(crc, PayloadProg(r), tail)
    ensures |Lay(crc, PayloadProg(r), [])| == Size(PayloadProg(r))
  {
    hide PutInt, Wrap32, StrBytes;
    var p4 := Put(Str(r.clientID), r.body);
    var p3 := Put(Int32(r.correlationID), p4);
    var p2 := Put(Int16(r.version), p3);
    assert Lay(crc, p4, tail) == StrBytes(r.clientID) + Lay(crc, r.body, tail);
    assert Lay(crc, p3, tail) == PutInt(4, r.correlationID) + Lay(crc, p4, tail);
    assert Lay(crc, p2, tail) == PutInt(2, r.version) + Lay(crc, p3, tail);
    assert Size(p4) == 2 + |r.clientID| + Size(r.body) && Size(p3) == 4 + Size(p4) && Size(p2) == 2 + Size(p3);
    LayTail(crc, PayloadProg(r), []);
    SameLowBytes(Size(PayloadProg(r)));
  }

  /** Field by field: the size of what follows, key, version, correlation id, client id and body. */
  lemma RequestLayout(crc: Checksum, r: Request, tail: bytes)
    ensures Lay(crc, RequestProg(r), tail)
            == PutInt(4, 10 + |r.clientID| + Size(r.body)) + (PutInt(2, r.key) + (PutInt(2, r.version)
                 + (PutInt(4, r.correlationID) + (PutInt(2, |r.clientID|) + r.clientID + Lay(crc, r.body, tail)))))
  {
    hide PutInt, Wrap32, Lay, Size;
    RequestLaid(crc, r, tail);
    SameLowBytes(Size(PayloadProg(r)));
  }

  ghost predicate Fitting(h: RequestHeader) {
    && Fits(4, h.size) && Fits(2, h.apiKey) && Fits(2, h.apiVersion) && Fits(4, h.correlationID)
    && |h.clientID| <= MAX_INT16
  }

  /** RequestHeader.Decode gives back the header and leaves the cursor at the body. */
  method DecodeHeader(d: ByteDecoder, ghost h: RequestHeader, ghost tail: bytes) returns (r: Result<RequestHeader>)
    requires d.Valid()
    modifies d`off
    ensures d.Valid()
    ensures old(d.Rest()) == HeaderBytes(h, tail) && Fitting(h) ==> r == Ok(h) && d.Rest() == tail
  {
    hide PutInt, GetInt, Fits, StrBytes, Un, Pow256, BlobRead, StringRead, NullableRead;
    ghost var s4 := StrBytes(h.clientID) + tail;
    ghost var s3 := PutInt(4, h.correlationID) + s4;
    ghost var s2 := PutInt(2, h.apiVersion) + s3;
    ghost var s1 := PutInt(2, h.apiKey) + s2;
    var size :- d.Int(4, h.size, s1);
    var key :- d.Int16(h.apiKey, s2);
    var version :- d.Int16(h.apiVersion, s3);
    var correlation :- d.Int(4, h.correlationID, s4);
    var client :- d.String(h.clientID, tail);
    return Ok(RequestHeader(size, key, version, correlation, client));
  }

  // ---- the server's read loop -----------------------------------------------------------

  /** A request as the server sees it: the header, and the body from the cursor on. */
  datatype Frame = Frame(header: RequestHeader, body: bytes)

  /** Why the loop ended: the connection closed between frames, or in the middle of a size;
      a size of zero; or a panic, on a frame cut short or a header that does not decode. */
  datatype End = Closed | ReadError | ZeroSize | Panicked

  /** The encodings of the requests, one after the other, and then `tail`. */
  function Wired(crc: Checksum, rs: seq<Request>, tail: bytes): (s: bytes) {
    if rs == [] then tail else Lay(crc, RequestProg(rs[0]), Wired(crc, rs[1..], tail))
  }

  /** The loop ends on this without another frame: nothing, part of a size, a size of zero, or a size
      that is more than what is left. */
  predicate Ends(tail: bytes) {
    |tail| < 4 || Un(tail[..4]) == 0 || Un(tail[..4]) > |tail| - 4
  }

  function EndOf(tail: bytes): (end: End) {
    if tail == [] then Closed else if |tail| < 4 then ReadError else if Un(tail[..4]) == 0 then ZeroSize else Panicked
  }

  /** Every part of an encoded request that is not the whole of it ends the loop: nothing closes it,
      part of the size is a read error, and a cut frame is a panic. */
  lemma CutEnds(crc: Checksum, r: Request, tail: bytes)
    requires Sendable(r) && tail < Lay(crc, RequestProg(r), [])
    ensures Ends(tail) && EndOf(tail) == if tail == [] then Closed else if |tail| < 4 then ReadError else Panicked
  {
    hide PutInt, Lay, Un, Size, HeaderBytes, RequestProg, PayloadProg;
    RequestLaid(crc, r, []);
    var n, payload := Size(PayloadProg(r)), Lay(crc, PayloadProg(r), []);
    if |tail| >= 4 {
      PeelUn(n, payload);
      assert tail[..4] == (PutInt(4, n) + payload)[..4];
    }
  }

  function FrameOf(crc: Checksum, r: Request): (f: Frame) {
    Frame(HeaderOf(r), Lay(crc, r.body, []))
  }

  function Frames(crc: Checksum, rs: seq<Request>): (fs: seq<Frame>)
    ensures |fs| == |rs|
  {
    seq(|rs|, i requires 0 <= i < |rs| => FrameOf(crc, rs[i]))
  }

  lemma FrameFields(crc: Checksum, rs: seq<Request>)
    ensures forall i :: 0 <= i < |rs| ==>
              var r, f := rs[i], Frames(crc, rs)[i];
              && f.header.size == Wrap32(10 + |r.clientID| + Size(r.body))
              && f.header.apiKey == r.key && f.header.apiVersion == r.version
              && f.header.correlationID == r.correlationID && f.header.clientID == r.clientID
              && f.body == Lay(crc, r.body, [])
  {
    hide Lay, Size, Wrap32, PayloadProg;
    forall i | 0 <= i < |rs| ensures Size(PayloadProg(rs[i])) == 10 + |rs[i].clientID| + Size(rs[i].body) {
      RequestLaid(crc, rs[i], []);
    }
  }

  /** A request that can be sent: the client id is accepted, and the length fits what the
      server can allocate. */
  ghost predicate Sendable(r: Request) {
    |r.clientID| <= MAX_INT16 && Size(PayloadProg(r)) < 0xFFFF_FFFC
  }

  ghost predicate AllSendable(rs: seq<Request>) {
    forall i :: 0 <= i < |rs| ==> Sendable(rs[i])
  }

  /** One round of the loop: None when it ends, and why. */
  method ReadFrame(conn: bytes, crc: Checksum, ghost r: Request, ghost later: bytes)
    returns (frame: Option<Frame>, rest: bytes, end: End)
    ensures conn == [] ==> frame == None && end == Closed
    ensures conn == Lay(crc, RequestProg(r), later) && Sendable(r) ==> frame == Some(FrameOf(crc, r)) && rest == later
    ensures 0 < |conn| < 4 ==> frame == None && end == ReadError
    ensures |conn| >= 4 && frame == None ==> end == if Un(conn[..4]) == 0 then ZeroSize else Panicked
    ensures frame.Some? ==> |conn| >= 4 && 0 < Un(conn[..4]) <= |conn| - 4 && rest == conn[Un(conn[..4]) + 4..]
  {
    hide PutInt, GetInt, Lay, HeaderBytes, Size, Wrap32, Un, BlobRead, StringRead, NullableRead;
    frame, rest, end := None, conn, Closed;
    ghost var n, payload := Size(PayloadProg(r)), Lay(crc, PayloadProg(r), []);
    RequestLaid(crc, r, later);
    RequestLaid(crc, r, []);
    LayTail(crc, PayloadProg(r), later);
    HeaderFits(r);
    if |conn| == 0 {
      return;
    }
    if |conn| < 4 {
      end := ReadError;
      return;
    }
    if n < 0xFFFF_FFFC {
      PeelUn(n, payload + later);
      SplitFrame(PutInt(4, n), payload, later);
    }
    var p := conn[..4];
    var size := Un(p);
    if size == 0 {
      end := ZeroSize;
      return;
    }
    var total := (size + 4) % 0x1_0000_0000;
    if total < 4 || |conn| < total {
      end := Panicked;
      return;
    }
    var b := conn[..total];
    rest := conn[total..];
    var d := new ByteDecoder(b, crc);
    var header := DecodeHeader(d, HeaderOf(r), Lay(crc, r.body, []));
    if header.Err? {
      end := Panicked;
      return;
    }
    frame := Some(Frame(header.value, d.b[d.off..]));
  }

  lemma HeaderFits(r: Request)
    ensures |r.clientID| <= MAX_INT16 ==> Fitting(HeaderOf(r))
  {
    hide Size;
    Pows();
  }

  lemma SplitFrame(size: bytes, payload: bytes, later: bytes)
    ensures size + (payload + later) == size + payload + later
    ensures (size + payload + later)[..|size| + |payload|] == size + payload
    ensures (size + payload + later)[|size| + |payload|..] == later
  {}

  /** The server splits any stream of encoded requests at exactly the boundaries between them: each
      header decodes to what was sent, with the cursor at the body. What follows the last of them, if
      it is no frame, ends the loop as EndOf says. */
  method HandleRequests(conn: bytes, crc: Checksum, ghost rs: seq<Request>, ghost tail: bytes)
    returns (frames: seq<Frame>, end: End)
    ensures conn == Wired(crc, rs, tail) && AllSendable(rs) && Ends(tail) ==>
              frames == Frames(crc, rs) && end == EndOf(tail)
    ensures conn == Wired(crc, rs, tail) && AllSendable(rs) && Ends(tail) ==>
              && |frames| == |rs|
              && forall i :: 0 <= i < |rs| ==>
                   var r, f := rs[i], frames[i];
                   && f.header.size == Wrap32(10 + |r.clientID| + Size(r.body))
                   && f.header.apiKey == r.key && f.header.apiVersion == r.version
                   && f.header.correlationID == r.correlationID && f.header.clientID == r.clientID
                   && f.body == Lay(crc, r.body, [])
  {
    FrameFields(crc, rs);
    hide Lay, RequestProg, PayloadProg, FrameOf, Wired, Un, Size, Wrap32;
    frames := [];
    var rest := conn;
    ghost var i := 0;
    ghost var good := conn == Wired(crc, rs, tail) && AllSendable(rs) && Ends(tail);
    assert rs[0..] == rs;
    while true
      invariant good ==> i <= |rs| && rest == Wired(crc, rs[i..], tail) && frames == Frames(crc, rs[..i])
      decreases |rest|
    {
      ghost var r, later := Request(0, 0, 0, [], Done), [];
      if good {
        NextWired(crc, rs, i, tail);
        if i < |rs| {
          r, later := rs[i], Wired(crc, rs[i + 1..], tail);
        }
      }
      var frame;
      ghost var before := rest;
      frame, rest, end := ReadFrame(rest, crc, r, later);
      if frame == None {
        if good {
          assert i == |rs| && rs[..i] == rs;
        }
        return;
      }
      if good {
        assert rs[..i + 1] == rs[..i] + [rs[i]];
        i := i + 1;
      }
      frames := frames + [frame.value];
    }
  }

  lemma NextWired(crc: Checksum, rs: seq<Request>, i: nat, tail: bytes)
    requires i <= |rs|
    ensures i == |rs| ==> Wired(crc, rs[i..], tail) == tail
    ensures i < |rs| ==> Wired(crc, rs[i..], tail) == Lay(crc, RequestProg(rs[i]), Wired(crc, rs[i + 1..], tail))
  {
    if i < |rs| {
      assert rs[i..][1..] == rs[i + 1..];
    }
  }
}
