/** What compaction (commitlog/compact_cleaner.go) keeps of the keys that were sent. */
module StoredKeys {
  import opened Bytes
  import opened Wire
  import opened LogSpec
  import opened CommitLogs
  import opened ProtocolMessages
  import opened MessageBridge
  import opened Compaction
  import View = MessageView

  // ---- compaction by the keys sent, without hashes or bytes ---------------------------------------

  /** The messages of a set that someone sees. */
  type Seen = Sent -> seq<Message>

  function All(): (seen: Seen) {
    (s: Sent) => s.msgs
  }

  ghost predicate Mentions(seen: Seen, s: Sent, key: bytes) {
    exists i :: 0 <= i < |seen(s)| && KeyOf(seen(s)[i]) == key
  }

  ghost predicate MentionedIn(seen: Seen, sents: seq<Sent>, key: bytes) {
    exists i :: 0 <= i < |sents| && Mentions(seen, sents[i], key)
  }

  /** One of the keys seen in the set is not seen in a later one. */
  ghost predicate Needed(seen: Seen, s: Sent, later: seq<Sent>) {
    exists i :: 0 <= i < |seen(s)| && !MentionedIn(seen, later, KeyOf(seen(s)[i]))
  }

  ghost function Kept(seen: Seen, sents: seq<Sent>): (r: seq<Sent>) {
    if sents == [] then []
    else (if Needed(seen, sents[0], sents[1..]) then [sents[0]] else []) + Kept(seen, sents[1..])
  }

  /** The last set sent with a message of the key: where the key's last value is. */
  ghost function LastSent(sents: seq<Sent>, key: bytes): (r: Option<Sent>) {
    if sents == [] then None
    else
      match LastSent(sents[1..], key)
      case Some(s) => Some(s)
      case None => if Mentions(All(), sents[0], key) then Some(sents[0]) else None
  }

  /** Every set that holds some key's last value is also seen to. */
  ghost predicate SeenNeeded(seen: Seen, sents: seq<Sent>) {
    forall i :: 0 <= i < |sents| && Needed(All(), sents[i], sents[i + 1..]) ==> Needed(seen, sents[i], sents[i + 1..])
  }

  /** Sets carry increasing offsets, as in any commit log. */
  ghost predicate InOrder(sents: seq<Sent>) {
    forall i, j :: 0 <= i < j < |sents| ==> sents[i].offset < sents[j].offset
  }

  lemma MentionedFirst(seen: Seen, sents: seq<Sent>, key: bytes)
    requires sents != []
    ensures MentionedIn(seen, sents, key) <==> Mentions(seen, sents[0], key) || MentionedIn(seen, sents[1..], key)
  {
    hide Mentions;
    var rest := sents[1..];
    assert forall i :: 0 <= i < |rest| ==> rest[i] == sents[i + 1];
    assert forall i :: 1 <= i < |sents| ==> sents[i] == rest[i - 1];
  }

  lemma {:induction false} LastSentMentioned(sents: seq<Sent>, key: bytes)
    ensures LastSent(sents, key).Some? <==> MentionedIn(All(), sents, key)
  {
    hide Mentions;
    if sents != [] {
      LastSentMentioned(sents[1..], key);
      MentionedFirst(All(), sents, key);
    }
  }

  lemma MentionNeeded(s: Sent, later: seq<Sent>, key: bytes)
    requires Mentions(All(), s, key) && !MentionedIn(All(), later, key)
    ensures Needed(All(), s, later)
  {}

  lemma SeenNeededRest(seen: Seen, sents: seq<Sent>)
    requires sents != [] && SeenNeeded(seen, sents)
    ensures SeenNeeded(seen, sents[1..])
  {
    hide Needed;
    var rest := sents[1..];
    forall i | 0 <= i < |rest| && Needed(All(), rest[i], rest[i + 1..]) ensures Needed(seen, rest[i], rest[i + 1..]) {
      assert rest[i] == sents[i + 1] && rest[i + 1..] == sents[i + 2..];
    }
  }

  lemma {:induction false} SeenKeepsLast(seen: Seen, sents: seq<Sent>, key: bytes)
    requires SeenNeeded(seen, sents)
    ensures LastSent(Kept(seen, sents), key) == LastSent(sents, key)
  {
    if sents != [] {
      hide Mentions, Needed;
      var rest, kept := sents[1..], Kept(seen, sents[1..]);
      SeenNeededRest(seen, sents);
      SeenKeepsLast(seen, rest, key);
      LastSentMentioned(rest, key);
      if Mentions(All(), sents[0], key) && !MentionedIn(All(), rest, key) {
        MentionNeeded(sents[0], rest, key);
      }
      assert ([sents[0]] + kept)[1..] == kept;
      assert [] + kept == kept;
    }
  }

  lemma {:induction false} LastSentAt(sents: seq<Sent>, i: nat, key: bytes)
    requires i < |sents| && Mentions(All(), sents[i], key) && !MentionedIn(All(), sents[i + 1..], key)
    ensures LastSent(sents, key) == Some(sents[i])
  {
    hide Mentions, MentionedIn;
    LastSentMentioned(sents[1..], key);
    if i > 0 {
      assert sents[1..][i..] == sents[i + 1..];
      LastSentAt(sents[1..], i - 1, key);
    }
  }

  lemma {:induction false} LastSentIn(sents: seq<Sent>, key: bytes)
    ensures LastSent(sents, key).Some? ==> LastSent(sents, key).value in sents
  {
    if sents != [] {
      LastSentIn(sents[1..], key);
    }
  }

  lemma {:induction false} KeptFrom(seen: Seen, sents: seq<Sent>, s: Sent) returns (i: nat)
    requires s in Kept(seen, sents)
    ensures i < |sents| && sents[i] == s && Needed(seen, s, sents[i + 1..])
  {
    hide Needed;
    var kept := Kept(seen, sents[1..]);
    if s in kept {
      i := KeptFrom(seen, sents[1..], s);
      assert sents[1..][i + 1..] == sents[i + 2..];
      i := i + 1;
    } else {
      i := 0;
    }
  }

  /** Every key keeps its last value, where it was, if the sets seen to be needed are kept. */
  ghost predicate Survives(seen: Seen, sents: seq<Sent>) {
    forall key :: LastSent(Kept(seen, sents), key) == LastSent(sents, key)
  }

  /** That is so exactly if every set that holds some key's last value is seen to. */
  lemma SurvivalExact(seen: Seen, sents: seq<Sent>)
    requires InOrder(sents)
    ensures Survives(seen, sents) <==> SeenNeeded(seen, sents)
  {
    hide Needed, Kept, LastSent, InOrder;
    if SeenNeeded(seen, sents) {
      forall key ensures LastSent(Kept(seen, sents), key) == LastSent(sents, key) {
        SeenKeepsLast(seen, sents, key);
      }
    }
    if Survives(seen, sents) {
      forall i | 0 <= i < |sents| && Needed(All(), sents[i], sents[i + 1..])
        ensures Needed(seen, sents[i], sents[i + 1..])
      {
        SurvivorSeen(seen, sents, i);
      }
    }
  }

  lemma SurvivorSeen(seen: Seen, sents: seq<Sent>, i: nat)
    requires InOrder(sents) && Survives(seen, sents) && i < |sents| && Needed(All(), sents[i], sents[i + 1..])
    ensures Needed(seen, sents[i], sents[i + 1..])
  {
    hide Needed, Kept, LastSent, Mentions, MentionedIn;
    var key := NeededKey(sents[i], sents[i + 1..]);
    LastSentAt(sents, i, key);
    LastSentIn(Kept(seen, sents), key);
    assert LastSent(Kept(seen, sents), key) == Some(sents[i]);
    var j := KeptFrom(seen, sents, sents[i]);
    assert i == j;
  }

  lemma NeededKey(s: Sent, later: seq<Sent>) returns (key: bytes)
    requires Needed(All(), s, later)
    ensures Mentions(All(), s, key) && !MentionedIn(All(), later, key)
  {
    var i :| 0 <= i < |s.msgs| && !MentionedIn(All(), later, KeyOf(s.msgs[i]));
    key := KeyOf(s.msgs[i]);
    assert KeyOf(All()(s)[i]) == key;
  }

  // ---- what the cleaner writes --------------------------------------------------------------------

  function StoredAll(crc: Checksum, sents: seq<Sent>): (sets: seq<bytes>)
    ensures |sets| == |sents| && forall i :: 0 <= i < |sents| ==> sets[i] == Stored(crc, sents[i])
  {
    seq(|sents|, i requires 0 <= i < |sents| => Stored(crc, sents[i]))
  }

  /** The messages of a stored set that the commit log reads. */
  ghost function Read(crc: Checksum): (seen: Seen) {
    (s: Sent) => var n := StopOf(crc, s); if n.None? then [] else s.msgs[..n.value]
  }

  ghost predicate InViewAll(crc: Checksum, sents: seq<Sent>) {
    forall i :: 0 <= i < |sents| ==> AllInView(crc, sents[i])
  }

  /** Reading none of the sets panics. */
  ghost predicate AllStop(crc: Checksum, sents: seq<Sent>) {
    forall i :: 0 <= i < |sents| ==> StopOf(crc, sents[i]).Some?
  }

  lemma ParsedStops(crc: Checksum, sents: seq<Sent>)
    requires InViewAll(crc, sents)
    ensures Parsed(StoredAll(crc, sents)) <==> AllStop(crc, sents)
  {
    hide Stored, StopOf, Parses, AllInView;
    forall i | 0 <= i < |sents| ensures Parses(StoredAll(crc, sents)[i]) <==> StopOf(crc, sents[i]).Some? {
      StopHashes(crc, b => 0, sents[i]);
    }
  }

  lemma HashMentions(crc: Checksum, hash: bytes -> int, s: Sent, key: bytes)
    requires Injective(hash) && AllInView(crc, s) && StopOf(crc, s).Some?
    ensures hash(key) in Hashing(hash)(Stored(crc, s)) <==> Mentions(Read(crc), s, key)
  {
    hide Hashing, AllInView, Stored, StopOf;
    StopHashes(crc, hash, s);
    var hs, msgs := Hashing(hash)(Stored(crc, s)), Read(crc)(s);
    if Mentions(Read(crc), s, key) {
      var i :| 0 <= i < |msgs| && KeyOf(msgs[i]) == key;
      assert hs[i] == hash(key);
    }
    if hash(key) in hs {
      var i :| 0 <= i < |hs| && hs[i] == hash(key);
      assert KeyOf(msgs[i]) == key;
    }
  }

  lemma {:induction false} CarriesMentioned(crc: Checksum, hash: bytes -> int, sents: seq<Sent>, key: bytes)
    requires Injective(hash) && InViewAll(crc, sents) && AllStop(crc, sents)
    ensures Carries(Hashing(hash), StoredAll(crc, sents), hash(key)) <==> MentionedIn(Read(crc), sents, key)
  {
    hide Hashing, AllInView, StopOf, Stored, Mentions, Injective;
    forall i | 0 <= i < |sents|
      ensures hash(key) in Hashing(hash)(StoredAll(crc, sents)[i]) <==> Mentions(Read(crc), sents[i], key)
    {
      HashMentions(crc, hash, sents[i], key);
    }
  }

  lemma CurrentNeeded(crc: Checksum, hash: bytes -> int, s: Sent, later: seq<Sent>)
    requires Injective(hash) && AllInView(crc, s) && StopOf(crc, s).Some?
    requires InViewAll(crc, later) && AllStop(crc, later)
    ensures Current(Hashing(hash), Stored(crc, s), StoredAll(crc, later)) <==> Needed(Read(crc), s, later)
  {
    hide Hashing, AllInView, StopOf, Stored, MentionedIn, Carries, Injective, InViewAll, AllStop;
    StopHashes(crc, hash, s);
    var hs, msgs := Hashing(hash)(Stored(crc, s)), Read(crc)(s);
    forall i | 0 <= i < |msgs|
      ensures hs[i] in hs
      ensures Carries(Hashing(hash), StoredAll(crc, later), hs[i]) <==> MentionedIn(Read(crc), later, KeyOf(msgs[i]))
    {
      CarriesMentioned(crc, hash, later, KeyOf(msgs[i]));
    }
    if Current(Hashing(hash), Stored(crc, s), StoredAll(crc, later)) {
      var h :| h in hs && !Carries(Hashing(hash), StoredAll(crc, later), h);
      var i :| 0 <= i < |hs| && hs[i] == h;
      assert !MentionedIn(Read(crc), later, KeyOf(msgs[i]));
    }
  }

  /** With a collision-free hash, compacting any log of stored sets that can be read leaves exactly
      the sets needed for the last value of some key that is read. */
  lemma {:induction false} CompactIsKept(crc: Checksum, hash: bytes -> int, sents: seq<Sent>)
    requires Injective(hash) && InViewAll(crc, sents) && AllStop(crc, sents)
    ensures Compact(Hashing(hash), StoredAll(crc, sents), []) == StoredAll(crc, Kept(Read(crc), sents))
  {
    hide Hashing, AllInView, StopOf, Stored, Needed, Current, Injective, Read;
    if sents != [] {
      var rest, sets := sents[1..], StoredAll(crc, sents);
      CompactIsKept(crc, hash, rest);
      assert sets[1..] == StoredAll(crc, rest) && sets[1..] + [] == sets[1..];
      CurrentNeeded(crc, hash, sents[0], rest);
      var kept := Kept(Read(crc), rest);
      assert StoredAll(crc, [sents[0]] + kept) == [sets[0]] + StoredAll(crc, kept);
      assert [] + kept == kept && [] + StoredAll(crc, kept) == StoredAll(crc, kept);
    }
  }

  /** Compaction of a commit log, from the bytes it holds to the keys that were sent. The sets that
      are live were sent as `sents`, with messages that are in view. Cleaning panics exactly if
      reading some set does; otherwise the files together hold the sets kept, and every key keeps its
      last value, where it was, exactly if each set that holds one is seen to. */
  method CleanLog(cl: CommitLog, cleaner: CompactCleaner, ghost crc: Checksum, ghost sents: seq<Sent>)
    returns (cleaned: Option<seq<bytes>>)
    requires cl.Valid() && Formed(cl.flat) && cl.config.maxSegmentBytes <= 0x8000_0000
    requires Live(Models(cl.segments)) == StoredAll(crc, sents) && InViewAll(crc, sents) && Injective(cleaner.hash)
    modifies cleaner
    ensures cleaned.Some? <==> AllStop(crc, sents)
    ensures cleaned.Some? ==> Concat(cleaned.value) == Concat(StoredAll(crc, Kept(Read(crc), sents)))
    ensures Survives(Read(crc), sents) <==> SeenNeeded(Read(crc), sents)
  {
    hide Survives, Holds, Models, Live, Formed, Parsed, Concat, Compact, Hashing, Kept, Read, LastSent, SeenNeeded,
      Increasing, StoredAll, InViewAll, AllStop, Injective, Cleaned;
    ghost var log := Models(cl.segments);
    LogCleanable(cl);
    OffsetsInOrder(crc, sents);
    cleaned := cleaner.Clean(cl.segments);
    ParsedStops(crc, sents);
    if cleaned.Some? {
      CompactIsKept(crc, cleaner.hash, sents);
    }
    SurvivalExact(Read(crc), sents);
  }

  lemma LogCleanable(cl: CommitLog)
    requires cl.Valid() && Formed(cl.flat) && cl.config.maxSegmentBytes <= 0x8000_0000
    ensures forall s :: s in cl.segments ==> s.Valid() && s.Readable()
    ensures Increasing(Live(Models(cl.segments)))
  {
    hide Holds, Models, Live, Formed, Increasing, Inv, Flat;
    HoldsParts(cl.config, cl.segments, cl.flat);
    forall s | s in cl.segments ensures s.Readable() {
      var i :| 0 <= i < |cl.segments| && cl.segments[i] == s;
      SegmentIsReadable(cl.config, cl.segments, cl.flat, i);
    }
    LiveIncreasing(cl.config, Models(cl.segments), cl.flat);
  }

  lemma OffsetsInOrder(crc: Checksum, sents: seq<Sent>)
    requires Increasing(StoredAll(crc, sents))
    ensures InOrder(sents)
  {
    hide View.Offset, Stored;
    forall i | 0 <= i < |sents|
      ensures |StoredAll(crc, sents)[i]| >= View.HEADER_LEN && View.Offset(StoredAll(crc, sents)[i]) == sents[i].offset
    {
      StoredShape(crc, sents[i]);
    }
  }

  // ---- when nothing is lost -----------------------------------------------------------------------

  ghost predicate AllReadBack(crc: Checksum, sents: seq<Sent>) {
    forall i :: 0 <= i < |sents| ==> ReadBack(crc, sents[i])
  }

  /** In particular nothing is lost of a log in which the commit log reads every set as it was sent. */
  lemma LastValuesSurvive(crc: Checksum, hash: bytes -> int, sents: seq<Sent>, key: bytes)
    requires Injective(hash) && AllReadBack(crc, sents)
    ensures Compact(Hashing(hash), StoredAll(crc, sents), []) == StoredAll(crc, Kept(Read(crc), sents))
    ensures LastSent(Kept(Read(crc), sents), key) == LastSent(sents, key)
  {
    hide ReadBack, StopOf, AllInView, Hashing, Compact, Kept, LastSent, MentionedIn, Injective;
    forall i | 0 <= i < |sents|
      ensures AllInView(crc, sents[i]) && StopOf(crc, sents[i]) == Some(|sents[i].msgs|)
      ensures Read(crc)(sents[i]) == sents[i].msgs
    {
      ReadBackStops(crc, sents[i]);
      assert sents[i].msgs[..|sents[i].msgs|] == sents[i].msgs;
    }
    CompactIsKept(crc, hash, sents);
    ReadAllNeeded(Read(crc), sents);
    SeenKeepsLast(Read(crc), sents, key);
  }

  lemma ReadAllNeeded(seen: Seen, sents: seq<Sent>)
    requires forall i :: 0 <= i < |sents| ==> seen(sents[i]) == sents[i].msgs
    ensures SeenNeeded(seen, sents)
  {
    hide MentionedIn;
    forall i | 0 <= i < |sents| && Needed(All(), sents[i], sents[i + 1..])
      ensures Needed(seen, sents[i], sents[i + 1..])
    {
      var later := sents[i + 1..];
      var key := NeededKey(sents[i], later);
      var k :| 0 <= k < |sents[i].msgs| && KeyOf(sents[i].msgs[k]) == key;
      forall j | 0 <= j < |later| ensures seen(later[j]) == later[j].msgs {
        assert later[j] == sents[i + 1 + j];
      }
      SameMentions(seen, later, key);
      assert !MentionedIn(seen, later, KeyOf(seen(sents[i])[k]));
    }
  }

  lemma SameMentions(seen: Seen, later: seq<Sent>, key: bytes)
    requires forall j :: 0 <= j < |later| ==> seen(later[j]) == later[j].msgs
    ensures MentionedIn(seen, later, key) <==> MentionedIn(All(), later, key)
  {
    forall j | 0 <= j < |later| ensures Mentions(seen, later[j], key) <==> Mentions(All(), later[j], key) {
      assert seen(later[j]) == All()(later[j]);
    }
  }

  /** Sets of one message each are read as sent exactly if each message has a key or no value and is
      below a gigabyte. */
  lemma SinglesReadBack(crc: Checksum, sents: seq<Sent>)
    requires forall i :: 0 <= i < |sents| ==> |sents[i].msgs| == 1 && InView(crc, sents[i].msgs[0])
    ensures AllReadBack(crc, sents) <==>
            forall i :: 0 <= i < |sents| ==>
              && (sents[i].msgs[0].key.Some? || sents[i].msgs[0].value.None?)
              && |Encoded(crc, sents[i].msgs[0])| < 0x4000_0000
  {
    hide Encoded;
    forall i | 0 <= i < |sents|
      ensures ReadBack(crc, sents[i]) <==>
              && (sents[i].msgs[0].key.Some? || sents[i].msgs[0].value.None?)
              && |Encoded(crc, sents[i].msgs[0])| < 0x4000_0000
    {
      SingleReadBack(crc, sents[i].offset, sents[i].msgs[0]);
      assert sents[i] == Sent(sents[i].offset, [sents[i].msgs[0]]);
    }
  }

  lemma SingleReadBack(crc: Checksum, offset: int64, m: Message)
    requires InView(crc, m)
    ensures ReadBack(crc, Sent(offset, [m])) <==> (m.key.Some? || m.value.None?) && |Encoded(crc, m)| < 0x4000_0000
  {
    hide Encoded, Concat, Wrap32;
    var b := Encoded(crc, m);
    assert EncodedAll(crc, [m]) == [b];
    ConcatOne(b);
    View.Doubled(|b|);
    EncodedNotEmpty(crc, m);
  }

  // ---- when a key is lost -------------------------------------------------------------------------

  /** The first of two equally long messages hides the second, whose only value goes when the first
      key gets a new one. */
  lemma HiddenKeyLost(crc: Checksum, hash: bytes -> int, a: Message, b: Message, c: Message, o: int64, p: int64)
    requires Viewable(crc, a) && Viewable(crc, c) && |Encoded(crc, a)| == |Encoded(crc, b)| < 0x4000_0000
    requires |Encoded(crc, c)| < 0x4000_0000 && KeyOf(a) == KeyOf(c) != KeyOf(b)
    ensures var sents := [Sent(o, [a, b]), Sent(p, [c])];
            && LastSent(sents, KeyOf(b)) == Some(sents[0])
            && Compact(Hashing(hash), StoredAll(crc, sents), []) == [Stored(crc, sents[1])]
  {
    hide Encoded, Stored, Hashing, Viewable;
    var first, second := Sent(o, [a, b]), Sent(p, [c]);
    var sents := [first, second];
    assert Mentions(All(), first, KeyOf(b)) by { assert KeyOf(All()(first)[1]) == KeyOf(b); }
    assert sents[1..] == [second] && [second][1..] == [];
    assert LastSent([second], KeyOf(b)) == None;
    FirstOnly(crc, hash, a, b, o);
    OneKey(crc, hash, c, p);
    var x, y := Stored(crc, first), Stored(crc, second);
    assert StoredAll(crc, sents) == [x, y];
    TwoSets(Hashing(hash), x, y, hash(KeyOf(a)));
  }

  lemma TwoSets(hs: HashesOf, x: bytes, y: bytes, h: int)
    requires hs(x) == [h] && hs(y) == [h]
    ensures Compact(hs, [x, y], []) == [y]
  {
    assert [x, y][1..] == [y] && [y][1..] == [] && [y] + [] == [y];
    assert Carries(hs, [y], h) by { assert h in hs([y][0]); }
    assert !Current(hs, x, [y]);
    assert h in hs(y) && !Carries(hs, [], h);
    assert Compact(hs, [y], []) == [y] + Compact(hs, [], []);
  }

  lemma OneKey(crc: Checksum, hash: bytes -> int, m: Message, offset: int64)
    requires Viewable(crc, m) && |Encoded(crc, m)| < 0x4000_0000
    ensures Hashing(hash)(Stored(crc, Sent(offset, [m]))) == [hash(KeyOf(m))]
  {
    SingleReadBack(crc, offset, m);
    hide Hashing, Stored, ReadBack, StopOf;
    ReadBackStops(crc, Sent(offset, [m]));
    StopHashes(crc, hash, Sent(offset, [m]));
  }

  lemma FirstOnly(crc: Checksum, hash: bytes -> int, a: Message, b: Message, offset: int64)
    requires Viewable(crc, a) && |Encoded(crc, a)| == |Encoded(crc, b)| < 0x4000_0000
    ensures Hashing(hash)(Stored(crc, Sent(offset, [a, b]))) == [hash(KeyOf(a))]
  {
    hide Encoded, Stored, Hashing, Parses, View.KeyBytes, View.Sized, Viewable, Concat, View.MessagesFrom;
    var s := Sent(offset, [a, b]);
    var x, y, ms := Encoded(crc, a), Encoded(crc, b), Stored(crc, s);
    StoredShape(crc, s);
    assert EncodedAll(crc, s.msgs) == [x, y];
    ConcatTwo(x, y);
    ViewableMessage(crc, a);
    View.SecondUnread(x, y);
    ParsesWhen(ms);
    HashingAt(hash, ms, [x]);
  }

  lemma ConcatTwo(x: bytes, y: bytes)
    ensures Concat([x, y]) == x + y
  {
    assert [x, y] == [x] + [y];
    ConcatCat([x], [y]);
    ConcatOne(x);
    ConcatOne(y);
  }
}
