/** The receiving side of a logic-server session as a value: what one completed
    read does to it.  The class `LogicServer.CSession` implements `Receive`; here
    are the laws of whole runs of reads. */
module Receiver {
  import opened Wire

  /** `pending` is the part of the current frame that the session still holds. */
  datatype Rx = Rx(pending: seq<byte>, status: Status)

  datatype Received = Received(rx: Rx, msgs: seq<Msg>) {
    /** One more read. */
    function Then(chunk: seq<byte>): Received {
      var r := Receive(rx, chunk);
      Received(r.rx, msgs + r.msgs)
    }
  }

  const START := Rx([], Open)

  /** One read.  A chunk that leaves a header unfinished is copied into the head
      node, but the node's cursor stays at 0, so the next read overwrites it: the
      one to three bytes are lost. */
  function Receive(rx: Rx, chunk: seq<byte>): Received {
    if !rx.status.Open? then
      Received(rx, [])
    else
      var d := Deframe(rx.pending + chunk);
      Received(Rx(if LeavesHeaderPart(d) then [] else d.rest, d.status), d.msgs)
  }

  predicate LeavesHeaderPart(d: Deframed) {
    d.status.Open? && 0 < |d.rest| < HEAD_TOTAL_LEN
  }

  /** A sequence of reads, the last one outermost. */
  function ReceiveAll(chunks: seq<seq<byte>>): Received {
    if chunks == [] then
      Received(START, [])
    else
      ReceiveAll(chunks[..|chunks| - 1]).Then(chunks[|chunks| - 1])
  }

  function Concat(chunks: seq<seq<byte>>): seq<byte> {
    if chunks == [] then [] else Concat(chunks[..|chunks| - 1]) + chunks[|chunks| - 1]
  }

  /** A stream cut at this point is cut strictly inside a header. */
  predicate CutsHeader(stream: seq<byte>) {
    LeavesHeaderPart(Deframe(stream))
  }

  /** No read boundary falls strictly inside a header of the stream. */
  predicate Admissible(chunks: seq<seq<byte>>) {
    forall i | 0 <= i <= |chunks| :: !CutsHeader(Concat(chunks[..i]))
  }

  lemma AdmissibleInit(chunks: seq<seq<byte>>, i: nat)
    requires Admissible(chunks) && i <= |chunks|
    ensures Admissible(chunks[..i])
  {
    forall j | 0 <= j <= i ensures !CutsHeader(Concat(chunks[..i][..j])) {
      assert chunks[..i][..j] == chunks[..j];
    }
  }

  /** The messages posted and the point of rejection are those of a one-pass reader
      of the whole stream. */
  ghost predicate AgreesWithOnePass(chunks: seq<seq<byte>>) {
    var r, d := ReceiveAll(chunks), Deframe(Concat(chunks));
    r.msgs == d.msgs && r.rx.status == d.status
  }

  lemma {:induction false} ChunkIndependence(chunks: seq<seq<byte>>)
    requires Admissible(chunks)
    ensures var d := Deframe(Concat(chunks));
            ReceiveAll(chunks) == Received(Rx(d.rest, d.status), d.msgs)
    decreases |chunks|
  {
    if chunks != [] {
      var n := |chunks| - 1;
      AdmissibleInit(chunks, n);
      ChunkIndependence(chunks[..n]);
      DeframeAppend(Concat(chunks[..n]), chunks[n]);
      assert chunks[..|chunks|] == chunks;
    }
  }

  /** Whatever the next read of at most 2048 bytes brings, the session will have
      posted what a one-pass reader of the stream would. */
  ghost predicate InStep(chunks: seq<seq<byte>>) {
    forall next: seq<byte> | 1 <= |next| <= MAX_LENGTH :: AgreesWithOnePass(chunks + [next])
  }

  /** Chunk independence holds at every point of a run exactly when no read
      boundary falls strictly inside a header: the short-header branch is the only
      way to lose step, and taking it always loses step. */
  lemma ChunkIndependentExactly(chunks: seq<seq<byte>>)
    ensures (forall i | 0 <= i <= |chunks| :: InStep(chunks[..i])) <==> Admissible(chunks)
  {
    if Admissible(chunks) {
      forall i | 0 <= i <= |chunks| ensures InStep(chunks[..i]) {
        AdmissibleInit(chunks, i);
        StaysInStep(chunks[..i]);
      }
    } else {
      var i :| 0 <= i <= |chunks| && CutsHeader(Concat(chunks[..i]));
      var k := FirstCut(chunks, i);
      assert chunks[..k + 1] == chunks[..k] + [chunks[k]];
      LosesStep(chunks[..k], chunks[k]);
      assert !InStep(chunks[..k + 1]);
    }
  }

  lemma {:induction false} FirstCut(chunks: seq<seq<byte>>, i: nat) returns (k: nat)
    requires i <= |chunks| && CutsHeader(Concat(chunks[..i]))
    ensures k < i && Admissible(chunks[..k]) && CutsHeader(Concat(chunks[..k + 1]))
  {
    if j: nat :| j < i && CutsHeader(Concat(chunks[..j])) {
      k := FirstCut(chunks, j);
    } else {
      k := i - 1;
      forall j | 0 <= j <= k ensures !CutsHeader(Concat(chunks[..k][..j])) {
        assert chunks[..k][..j] == chunks[..j];
      }
    }
  }

  lemma StaysInStep(chunks: seq<seq<byte>>)
    requires Admissible(chunks)
    ensures InStep(chunks)
  {
    ChunkIndependence(chunks);
    forall next: seq<byte> | 1 <= |next| <= MAX_LENGTH ensures AgreesWithOnePass(chunks + [next]) {
      Unfold(chunks, next);
      DeframeAppend(Concat(chunks), next);
    }
  }

  /** The first read that ends inside a header is followed by a read that tells the
      session from a one-pass reader. */
  lemma LosesStep(before: seq<seq<byte>>, chunk: seq<byte>)
    requires Admissible(before) && CutsHeader(Concat(before + [chunk]))
    ensures !InStep(before + [chunk])
  {
    var chunks := before + [chunk];
    LosesPart(before, chunk);
    var d := Deframe(Concat(chunks));
    var next := TellingRead(d.rest);
    Unfold(chunks, next);
    DeframeAppend(Concat(chunks), next);
    assert START.pending + next == next;
    assert !AgreesWithOnePass(chunks + [next]);
  }

  lemma Unfold(chunks: seq<seq<byte>>, next: seq<byte>)
    ensures Concat(chunks + [next]) == Concat(chunks) + next
    ensures ReceiveAll(chunks + [next]).rx == Receive(ReceiveAll(chunks).rx, next).rx
    ensures ReceiveAll(chunks + [next]).msgs
         == ReceiveAll(chunks).msgs + Receive(ReceiveAll(chunks).rx, next).msgs
  {
    assert (chunks + [next])[..|chunks|] == chunks;
  }

  /** The states of a run of reads, from before the first to after the last. */
  function Stages(chunks: seq<seq<byte>>): seq<Received> {
    seq(|chunks| + 1, i requires 0 <= i <= |chunks| => ReceiveAll(chunks[..i]))
  }

  predicate AreStages(stages: seq<Received>, chunks: seq<seq<byte>>) {
    && |stages| == |chunks| + 1
    && stages[0] == Received(START, []) && stages[|chunks|] == ReceiveAll(chunks)
    && forall i | 0 <= i < |chunks| :: stages[i + 1] == stages[i].Then(chunks[i])
  }

  lemma StageByStage(chunks: seq<seq<byte>>)
    ensures AreStages(Stages(chunks), chunks)
  {
    var stages := Stages(chunks);
    assert chunks[..0] == [] && chunks[..|chunks|] == chunks;
    forall i | 0 <= i < |chunks| ensures stages[i + 1] == stages[i].Then(chunks[i]) {
      OneMoreRead(chunks, i);
    }
  }

  lemma OneMoreRead(chunks: seq<seq<byte>>, i: nat)
    requires i < |chunks|
    ensures ReceiveAll(chunks[..i + 1]) == ReceiveAll(chunks[..i]).Then(chunks[i])
  {
    assert chunks[..i + 1][..i] == chunks[..i];
  }

  lemma LosesPart(before: seq<seq<byte>>, chunk: seq<byte>)
    requires Admissible(before) && CutsHeader(Concat(before + [chunk]))
    ensures ReceiveAll(before + [chunk]) == Received(START, Deframe(Concat(before + [chunk])).msgs)
  {
    Unfold(before, chunk);
    ChunkIndependence(before);
    DeframeAppend(Concat(before), chunk);
  }

  /** A read that completes the header `part` for a one-pass reader, and with it a
      frame or a rejection, while a session that has dropped `part` sees another
      header, or none.  The read itself has no negative length, and makes one of the
      cut header only where the allocation throws. */
  lemma TellingRead(part: seq<byte>) returns (next: seq<byte>)
    requires 0 < |part| < HEAD_TOTAL_LEN
    ensures 1 <= |next| <= MAX_LENGTH
    ensures var d, e := Deframe(part + next), Deframe(next);
            && (d.status != e.status || |d.msgs| != |e.msgs|)
            && !e.status.Faulted?
            && (d.status.Faulted? ==> HeadLen(part + next) < -1)
  {
    if |part| == 3 && 1 <= part[2] <= 7 && ReadShort(part[0], part[1]) <= MAX_LENGTH {
      var body: seq<byte> := seq(256 * part[2], _ => 127);
      next := [0] + body;
      var w := part + next;
      assert w[2] == part[2] && w[3] == 0;
      assert HeadLen(w) == |body|;
      assert |w| == HEAD_TOTAL_LEN + |body|;
      assert Deframe(w).msgs == [FirstMsg(w)] + Deframe(Later(w)).msgs;
      assert HeadLen(next) == 0x7F7F;
    } else {
      next := if |part| == 3 then (if part[2] == 8 then [1] else [0]) else [0, 0, 0][..HEAD_TOTAL_LEN - |part|];
      var w := part + next;
      assert |w| == HEAD_TOTAL_LEN;
      assert |part| == 3 ==> w[2] == part[2] && w[3] == next[0];
      assert |part| < 3 ==> w[2] == 0 && w[3] == 0;
      if WholeFrame(w) {
        assert Deframe(w).msgs == [FirstMsg(w)] + Deframe(Later(w)).msgs;
      }
    }
  }

  /** The loss, in the smallest instance: one acceptable frame, an empty payload
      with id 0, cut after its first byte. */
  lemma SplitHeaderLosesMessage()
    ensures var chunks: seq<seq<byte>> := [[0], [0, 0, 0]];
            && Deframe(Concat(chunks)) == Deframed([Msg(0, [])], [], Open)
            && ReceiveAll(chunks) == Received(START, [])
  {
    var chunks: seq<seq<byte>> := [[0], [0, 0, 0]];
    assert chunks[..1] == [[0]] && chunks[..1][..0] == [];
    assert Concat(chunks[..1]) == [0];
    assert Concat(chunks) == [0, 0, 0, 0];
    var w: seq<byte> := [0, 0, 0, 0];
    assert FirstMsg(w) == Msg(0, []) && Later(w) == [];
    assert ReceiveAll(chunks[..1]).rx == START;
    assert START.pending + [0, 0, 0] == [0, 0, 0];
  }

  /** The bytes of unfinished headers that the reads so far have lost. */
  function Dropped(chunks: seq<seq<byte>>): nat {
    if chunks == [] then
      0
    else
      var before, last := chunks[..|chunks| - 1], chunks[|chunks| - 1];
      var rx := ReceiveAll(before).rx;
      var d := Deframe(rx.pending + last);
      Dropped(before) + if rx.status.Open? && LeavesHeaderPart(d) then |d.rest| else 0
  }

  /** Every byte read is in a posted message, held for the current frame, or among
      the dropped header bytes. */
  lemma {:induction false} BytesConserved(chunks: seq<seq<byte>>)
    ensures var r := ReceiveAll(chunks);
            && AllAcceptable(r.msgs)
            && (r.rx.status.Open? ==>
                 |Concat(chunks)| == |EncodeAll(r.msgs)| + |r.rx.pending| + Dropped(chunks))
    decreases |chunks|
  {
    if chunks != [] {
      var before, last := chunks[..|chunks| - 1], chunks[|chunks| - 1];
      BytesConserved(before);
      var r := ReceiveAll(before);
      var d := Deframe(r.rx.pending + last);
      DeframeConserves(r.rx.pending + last);
      if r.rx.status.Open? {
        EncodeConcat(r.msgs, d.msgs);
      }
    }
  }

  /** Between reads a session holds nothing, or a whole header with a proper part
      of the body it announces; so no read ever begins with part of a header. */
  lemma {:induction false} HoldsNoPartialHeader(chunks: seq<seq<byte>>)
    ensures var rx := ReceiveAll(chunks).rx;
            rx.status.Open? && rx.pending != [] ==>
              GoodHeader(rx.pending) && |rx.pending| < HEAD_TOTAL_LEN + HeadLen(rx.pending)
    decreases |chunks|
  {
    if chunks != [] {
      HoldsNoPartialHeader(chunks[..|chunks| - 1]);
      DeframeConserves(ReceiveAll(chunks[..|chunks| - 1]).rx.pending + chunks[|chunks| - 1]);
    }
  }

  lemma {:induction false} NothingDroppedExactly(chunks: seq<seq<byte>>)
    ensures Dropped(chunks) == 0 <==> Admissible(chunks)
    decreases |chunks|
  {
    if chunks == [] {
      assert chunks[..0] == [];
    } else {
      var n := |chunks| - 1;
      NothingDroppedExactly(chunks[..n]);
      if Admissible(chunks[..n]) {
        ChunkIndependence(chunks[..n]);
        DeframeAppend(Concat(chunks[..n]), chunks[n]);
        AdmissibleLast(chunks);
      } else if Admissible(chunks) {
        AdmissibleInit(chunks, n);
      }
    }
  }

  lemma AdmissibleLast(chunks: seq<seq<byte>>)
    requires chunks != [] && Admissible(chunks[..|chunks| - 1])
    ensures Admissible(chunks) <==> !CutsHeader(Concat(chunks))
  {
    assert chunks[..|chunks|] == chunks;
    if !CutsHeader(Concat(chunks)) {
      forall i | 0 <= i <= |chunks| ensures !CutsHeader(Concat(chunks[..i])) {
        if i < |chunks| {
          assert chunks[..|chunks| - 1][..i] == chunks[..i];
        }
      }
    }
  }

  /** The round trip through a session: the encodings of any acceptable messages,
      read in any admissible chunks, are posted as exactly those messages, and the
      session then holds nothing. */
  lemma SessionRoundTrip(ms: seq<Msg>, chunks: seq<seq<byte>>)
    requires AllAcceptable(ms) && Concat(chunks) == EncodeAll(ms) && Admissible(chunks)
    ensures ReceiveAll(chunks) == Received(START, ms)
  {
    RoundTrip(ms);
    ChunkIndependence(chunks);
  }

  /** The intended behaviour, not the program's: a head node whose cursor advances
      past the part of a header that it holds. */
  function ReceiveAllAdvancing(chunks: seq<seq<byte>>): Deframed {
    if chunks == [] then
      Deframed([], [], Open)
    else
      var before := ReceiveAllAdvancing(chunks[..|chunks| - 1]);
      if before.status.Open?
      then Deframe(before.rest + chunks[|chunks| - 1]).After(before.msgs)
      else before
  }

  /** With that change every chunking whatever gives the one-pass reading. */
  lemma {:induction false} AdvancingIsChunkIndependent(chunks: seq<seq<byte>>)
    ensures ReceiveAllAdvancing(chunks) == Deframe(Concat(chunks))
    decreases |chunks|
  {
    if chunks != [] {
      AdvancingIsChunkIndependent(chunks[..|chunks| - 1]);
      DeframeAppend(Concat(chunks[..|chunks| - 1]), chunks[|chunks| - 1]);
    }
  }
}
