/** The frame format of the logic server: a two-byte big-endian id, a two-byte
    big-endian length and the payload.  `Deframe` is the one-pass reader of a
    whole byte stream; the lemmas say that it inverts the encoder, that it is the
    only reader that does, and that it may be restarted at any point. */
module Wire {
  const MAX_LENGTH: nat := 2048
  const HEAD_TOTAL_LEN: nat := 4
  const HEAD_ID_LEN: nat := 2
  const HEAD_DATA_LEN: nat := 2
  /** The longest payload whose node length, header included, still fits a short. */
  const MAX_PAYLOAD: nat := 0x7FFF - 4

  type byte = b: int | 0 <= b < 256
  type Short = v: int | -0x8000 <= v < 0x8000

  datatype Msg = Msg(id: Short, payload: seq<byte>)

  /** What became of a connection's reading side: `Open` while it still reads,
      `Cleared` once an id or a length above the limit made the server drop the
      session, `Faulted` once a negative length left the handler by an exception. */
  datatype Status = Open | Cleared | Faulted

  function ReadShort(hi: byte, lo: byte): Short {
    var u := hi * 256 + lo;
    if u >= 0x8000 then u - 0x1_0000 else u
  }

  function ShortBytes(v: Short): seq<byte> {
    var u := if v < 0 then v + 0x1_0000 else v;
    [u / 256, u % 256]
  }

  lemma ShortRoundTrip(v: Short)
    ensures |ShortBytes(v)| == 2
    ensures ReadShort(ShortBytes(v)[0], ShortBytes(v)[1]) == v
  {
  }

  lemma ShortBytesUnique(hi: byte, lo: byte)
    ensures ShortBytes(ReadShort(hi, lo)) == [hi, lo]
  {
    var u := hi * 256 + lo;
    assert u / 256 == hi && u % 256 == lo;
  }

  predicate Sendable(m: Msg) {
    |m.payload| <= MAX_PAYLOAD
  }

  /** A message that the reading side accepts. */
  predicate Acceptable(m: Msg) {
    m.id <= MAX_LENGTH && |m.payload| <= MAX_LENGTH
  }

  predicate AllSendable(ms: seq<Msg>) {
    forall i | 0 <= i < |ms| :: Sendable(ms[i])
  }

  predicate AllAcceptable(ms: seq<Msg>) {
    forall i | 0 <= i < |ms| :: Acceptable(ms[i])
  }

  function Encode(m: Msg): (bytes: seq<byte>)
    requires Sendable(m)
  {
    ShortBytes(m.id) + ShortBytes(|m.payload|) + m.payload
  }

  function EncodeAll(ms: seq<Msg>): seq<byte>
    requires AllSendable(ms)
  {
    if ms == [] then [] else Encode(ms[0]) + EncodeAll(ms[1..])
  }

  function HeadId(w: seq<byte>): Short
    requires |w| >= HEAD_TOTAL_LEN
  {
    ReadShort(w[0], w[1])
  }

  function HeadLen(w: seq<byte>): Short
    requires |w| >= HEAD_TOTAL_LEN
  {
    ReadShort(w[2], w[3])
  }

  /** The messages read, the bytes of the frame that is still incomplete (for a
      stopped reader: the header it stopped at), and the status. */
  datatype Deframed = Deframed(msgs: seq<Msg>, rest: seq<byte>, status: Status) {
    function After(earlier: seq<Msg>): Deframed {
      Deframed(earlier + msgs, rest, status)
    }
  }

  /** A header with a permitted id and length. */
  predicate GoodHeader(w: seq<byte>) {
    |w| >= HEAD_TOTAL_LEN && HeadId(w) <= MAX_LENGTH && 0 <= HeadLen(w) <= MAX_LENGTH
  }

  predicate WholeFrame(w: seq<byte>) {
    GoodHeader(w) && |w| >= HEAD_TOTAL_LEN + HeadLen(w)
  }

  /** The beginning of a frame that is not yet a whole one. */
  predicate Incomplete(w: seq<byte>) {
    |w| < HEAD_TOTAL_LEN || (GoodHeader(w) && |w| < HEAD_TOTAL_LEN + HeadLen(w))
  }

  function FirstMsg(w: seq<byte>): Msg
    requires WholeFrame(w)
  {
    Msg(HeadId(w), w[HEAD_TOTAL_LEN..HEAD_TOTAL_LEN + HeadLen(w)])
  }

  function Later(w: seq<byte>): seq<byte>
    requires WholeFrame(w)
  {
    w[HEAD_TOTAL_LEN + HeadLen(w)..]
  }

  /** The status of a reader whose unread bytes do not begin with a whole frame. */
  function Verdict(w: seq<byte>): Status
    requires !WholeFrame(w)
  {
    if |w| < HEAD_TOTAL_LEN then Open
    else if HeadId(w) > MAX_LENGTH || HeadLen(w) > MAX_LENGTH then Cleared
    else if HeadLen(w) < 0 then Faulted
    else Open
  }

  function Deframe(w: seq<byte>): Deframed
    decreases |w|
  {
    if WholeFrame(w) then
      Deframe(Later(w)).After([FirstMsg(w)])
    else
      Deframed([], if Verdict(w).Open? then w else w[..HEAD_TOTAL_LEN], Verdict(w))
  }

  /** What an encoded message looks like on the wire: id and length as two bytes each,
      the more significant one first, a negative id in two's complement. */
  lemma EncodedBytes(m: Msg)
    requires |m.payload| <= 32763
    ensures Sendable(m)
    ensures var w := Encode(m);
            && |w| == 4 + |m.payload| && w[4..] == m.payload
            && w[0] as int * 256 + w[1] as int == (if m.id < 0 then m.id + 0x1_0000 else m.id)
            && w[2] as int * 256 + w[3] as int == |m.payload|
  {
  }

  lemma HeaderBytes(w: seq<byte>)
    requires |w| >= 4
    ensures var id, len := w[0] as int * 256 + w[1] as int, w[2] as int * 256 + w[3] as int;
            && HeadId(w) == (if id < 0x8000 then id else id - 0x1_0000)
            && HeadLen(w) == (if len < 0x8000 then len else len - 0x1_0000)
  {
  }

  /** What the reader makes of the bytes at the front of a stream: every case, in
      numbers. */
  lemma ReadsBytes(w: seq<byte>)
    ensures |w| < 4 ==> Deframe(w) == Deframed([], w, Open)
    ensures |w| >= 4 ==>
              var id, len := w[0] as int * 256 + w[1] as int, w[2] as int * 256 + w[3] as int;
              Deframe(w) ==
              if 2048 < id < 0x8000 || 2048 < len < 0x8000 then Deframed([], w[..4], Cleared)
              else if len >= 0x8000 then Deframed([], w[..4], Faulted)
              else if |w| < 4 + len then Deframed([], w, Open)
              else Deframe(w[4 + len..])
                   .After([Msg(if id < 0x8000 then id else id - 0x1_0000, w[4..4 + len])])
  {
    if |w| >= 4 {
      HeaderBytes(w);
      if WholeFrame(w) {
        assert FirstMsg(w) == Msg(HeadId(w), w[4..4 + HeadLen(w)]) && Later(w) == w[4 + HeadLen(w)..];
      }
    }
  }

  /** Reading one frame off the front of the stream. */
  lemma OneFrame(w: seq<byte>, done: seq<Msg>)
    requires WholeFrame(w)
    ensures Deframe(w).After(done) == Deframe(Later(w)).After(done + [FirstMsg(w)])
  {
    AfterAfter(Deframe(Later(w)), [FirstMsg(w)], done);
  }

  lemma AfterAfter(d: Deframed, a: seq<Msg>, b: seq<Msg>)
    ensures d.After(a).After(b) == d.After(b + a)
  {
    assert b + (a + d.msgs) == b + a + d.msgs;
  }

  lemma EncodedFrame(m: Msg, tail: seq<byte>)
    requires Acceptable(m)
    ensures var w := Encode(m) + tail;
            WholeFrame(w) && FirstMsg(w) == m && Later(w) == tail
  {
    EncodedHeader(m, tail);
    var w := Encode(m) + tail;
    assert |Encode(m)| == HEAD_TOTAL_LEN + |m.payload|;
    assert w[HEAD_TOTAL_LEN..HEAD_TOTAL_LEN + |m.payload|] == m.payload;
    assert w[HEAD_TOTAL_LEN + |m.payload|..] == tail;
  }

  lemma EncodedHeader(m: Msg, tail: seq<byte>)
    requires Sendable(m)
    ensures var w := Encode(m) + tail;
            |w| >= HEAD_TOTAL_LEN && HeadId(w) == m.id && HeadLen(w) == |m.payload|
  {
    ShortRoundTrip(m.id);
    ShortRoundTrip(|m.payload|);
    var a, b := ShortBytes(m.id), ShortBytes(|m.payload|);
    var w := Encode(m) + tail;
    assert w[0] == a[0] && w[1] == a[1] && w[2] == b[0] && w[3] == b[1];
  }

  /** A frame cut out of a stream is the encoding of the message read from it. */
  lemma FrameIsEncoding(w: seq<byte>)
    requires WholeFrame(w)
    ensures Acceptable(FirstMsg(w)) && Encode(FirstMsg(w)) + Later(w) == w
  {
    ShortBytesUnique(w[0], w[1]);
    ShortBytesUnique(w[2], w[3]);
    var m := FirstMsg(w);
    assert Encode(m) == [w[0], w[1]] + [w[2], w[3]] + m.payload;
  }

  /** What `DeframeConserves` says of a stream and its reading. */
  ghost predicate Conserves(w: seq<byte>, d: Deframed) {
    && AllAcceptable(d.msgs)
    && EncodeAll(d.msgs) + d.rest <= w
    && (d.status.Open? ==> EncodeAll(d.msgs) + d.rest == w && Incomplete(d.rest))
    && (!d.status.Open? ==> |d.rest| == HEAD_TOTAL_LEN)
    && (d.status.Cleared? ==> HeadId(d.rest) > MAX_LENGTH || HeadLen(d.rest) > MAX_LENGTH)
    && (d.status.Faulted? ==> HeadId(d.rest) <= MAX_LENGTH && HeadLen(d.rest) < 0)
  }

  /** Nothing is lost, nothing invented: the stream is the encodings of the
      messages read followed by what is left over; a reader stops exactly at a
      header with a forbidden id or length. */
  lemma {:induction false} DeframeConserves(w: seq<byte>)
    ensures Conserves(w, Deframe(w))
    decreases |w|
  {
    if WholeFrame(w) {
      DeframeConserves(Later(w));
      ConservesCons(w, Deframe(Later(w)));
    } else {
      assert EncodeAll([]) + Deframe(w).rest == Deframe(w).rest;
    }
  }

  lemma ConservesCons(w: seq<byte>, t: Deframed)
    requires WholeFrame(w) && Conserves(Later(w), t)
    ensures Conserves(w, t.After([FirstMsg(w)]))
  {
    var m := FirstMsg(w);
    FrameIsEncoding(w);
    EncodeCons(m, t.msgs);
    assert EncodeAll([m] + t.msgs) + t.rest == Encode(m) + (EncodeAll(t.msgs) + t.rest);
  }

  lemma EncodeCons(m: Msg, ms: seq<Msg>)
    requires Sendable(m) && AllSendable(ms)
    ensures AllSendable([m] + ms) && EncodeAll([m] + ms) == Encode(m) + EncodeAll(ms)
  {
    assert ([m] + ms)[1..] == ms;
  }

  lemma {:induction false} EncodeConcat(a: seq<Msg>, b: seq<Msg>)
    requires AllSendable(a) && AllSendable(b)
    ensures AllSendable(a + b) && EncodeAll(a + b) == EncodeAll(a) + EncodeAll(b)
  {
    if a == [] {
      assert a + b == b;
    } else {
      EncodeConcat(a[1..], b);
      EncodeCons(a[0], a[1..] + b);
      assert a + b == [a[0]] + (a[1..] + b);
      Assoc(Encode(a[0]), EncodeAll(a[1..]), EncodeAll(b));
    }
  }

  lemma Assoc<T>(a: seq<T>, b: seq<T>, c: seq<T>)
    ensures a + b + c == a + (b + c)
  {
  }

  /** The converse: any decomposition of a stream into acceptable messages and an
      incomplete remainder is the one that `Deframe` finds. */
  lemma {:induction false} DeframeFinds(ms: seq<Msg>, rest: seq<byte>)
    requires AllAcceptable(ms) && Incomplete(rest)
    ensures Deframe(EncodeAll(ms) + rest) == Deframed(ms, rest, Open)
  {
    if ms == [] {
      assert EncodeAll(ms) + rest == rest;
    } else {
      var tail := EncodeAll(ms[1..]) + rest;
      assert EncodeAll(ms) + rest == Encode(ms[0]) + tail;
      EncodedFrame(ms[0], tail);
      DeframeFinds(ms[1..], rest);
      assert ms == [ms[0]] + ms[1..];
    }
  }

  /** The reader returns exactly the list that was encoded, with nothing left over,
      if and only if every id and every length is within the reader's limit. */
  lemma {:induction false} RoundTrip(ms: seq<Msg>)
    requires AllSendable(ms)
    ensures Deframe(EncodeAll(ms)) == Deframed(ms, [], Open) <==> AllAcceptable(ms)
  {
    if AllAcceptable(ms) {
      DeframeFinds(ms, []);
      assert EncodeAll(ms) + [] == EncodeAll(ms);
    } else {
      DeframeConserves(EncodeAll(ms));
    }
  }

  lemma PrefixHeader(a: seq<byte>, b: seq<byte>)
    requires |a| >= HEAD_TOTAL_LEN
    ensures HeadId(a + b) == HeadId(a) && HeadLen(a + b) == HeadLen(a)
    ensures (a + b)[..HEAD_TOTAL_LEN] == a[..HEAD_TOTAL_LEN]
    ensures WholeFrame(a) ==>
              WholeFrame(a + b) && FirstMsg(a + b) == FirstMsg(a) && Later(a + b) == Later(a) + b
  {
  }

  /** The reader may stop after any prefix and go on from its remainder. */
  lemma {:induction false} DeframeAppend(a: seq<byte>, b: seq<byte>)
    ensures var d := Deframe(a);
            Deframe(a + b) == if d.status.Open? then Deframe(d.rest + b).After(d.msgs) else d
    decreases |a|
  {
    if Incomplete(a) {
      assert [] + Deframe(a + b).msgs == Deframe(a + b).msgs;
    } else {
      PrefixHeader(a, b);
      if WholeFrame(a) {
        DeframeAppend(Later(a), b);
        var m, t := FirstMsg(a), Deframe(Later(a));
        if t.status.Open? {
          var u := Deframe(t.rest + b);
          assert [m] + (t.msgs + u.msgs) == [m] + t.msgs + u.msgs;
        }
      }
    }
  }
}
