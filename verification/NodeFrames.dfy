/** The Node client's side of a connection: response frames are cut out of whatever chunks the socket
    delivers, and handed to the waiting requests in order. */
module NodeFrames {
  import opened ByteStrings
  import opened Wire

  const NODE_OK: byte := 0x00
  const NODE_ERROR: byte := 0x01
  const NODE_NOT_FOUND: byte := 0x02
  /** The Node client's own idea of the multi-value status; the server sends 0x04. */
  const NODE_MULTI_VALUE: byte := 0x03

  datatype RawFrame = RawFrame(status: byte, payload: Bytes)

  datatype NodeValue = Null | Data(bytes: Bytes)

  /** What happens to a request's promise. */
  datatype Outcome =
    | Resolved(value: NodeValue)
    | ResolvedAll(values: seq<NodeValue>)
    | RejectedMessage(message: Bytes)
    | RejectedStatus(status: byte)
    | RejectedRange

  // ---------- frames in a byte stream ----------

  predicate HasFrame(b: Bytes) {
    |b| >= 5 && |b| >= 5 + GetU32(b, 1)
  }

  function FirstFrame(b: Bytes): RawFrame
    requires HasFrame(b)
  {
    RawFrame(b[0], b[5..5 + GetU32(b, 1)])
  }

  /** Taking a frame off removes at least its five header bytes. */
  function AfterFrame(b: Bytes): (rest: Bytes)
    requires HasFrame(b)
    ensures |rest| + 5 <= |b|
  {
    b[5 + GetU32(b, 1)..]
  }

  function Frames(b: Bytes): seq<RawFrame>
    decreases |b|
  {
    if HasFrame(b) then [FirstFrame(b)] + Frames(AfterFrame(b)) else []
  }

  function Leftover(b: Bytes): (rest: Bytes)
    ensures !HasFrame(rest)
    decreases |b|
  {
    if HasFrame(b) then Leftover(AfterFrame(b)) else b
  }

  function FramesBytes(fs: seq<RawFrame>): Bytes {
    if fs == [] then [] else Frame(fs[0].status, fs[0].payload) + FramesBytes(fs[1..])
  }

  predicate FrameFits(f: RawFrame) {
    |f.payload| < TWO_32
  }

  predicate FramesFit(fs: seq<RawFrame>) {
    forall i :: 0 <= i < |fs| ==> FrameFits(fs[i])
  }

  /** A frame at the front of the stream is found, and found again from its bytes. */
  lemma FrameAtFront(f: RawFrame, x: Bytes)
    requires FrameFits(f)
    ensures var b := Frame(f.status, f.payload) + x;
            HasFrame(b) && FirstFrame(b) == f && AfterFrame(b) == x
  {
    hide U32, GetU32;
    var b := Frame(f.status, f.payload) + x;
    assert b[1..5] == U32(|f.payload|);
    ReadU32(b, 1, |f.payload|);
    assert b[5..5 + |f.payload|] == f.payload;
  }

  lemma FrontIsFrame(b: Bytes)
    requires HasFrame(b)
    ensures FrameFits(FirstFrame(b))
    ensures b == Frame(b[0], FirstFrame(b).payload) + AfterFrame(b)
  {
    hide U32, GetU32;
    var n := GetU32(b, 1);
    var p := b[5..5 + n];
    ReadU32(b, 1, n);
    assert b[1..5] == U32(n) == U32(|p|);
    assert b[..5 + n] == [b[0]] + (b[1..5] + p);
    assert b == b[..5 + n] + b[5 + n..];
  }

  /** Nothing is lost and nothing invented: the frames and the leftover are the stream. */
  lemma {:induction false} FramesAreTheStream(b: Bytes)
    ensures FramesBytes(Frames(b)) + Leftover(b) == b
    ensures FramesFit(Frames(b))
    decreases |b|
  {
    hide FirstFrame, AfterFrame, HasFrame, Frame, FrameFits;
    if HasFrame(b) {
      FrontIsFrame(b);
      var rest := AfterFrame(b);
      FramesAreTheStream(rest);
      assert Frames(b)[1..] == Frames(rest);
      FirstStatus(b);
    }
  }

  lemma FirstStatus(b: Bytes)
    requires HasFrame(b)
    ensures FirstFrame(b).status == b[0]
  {
  }

  /** There is no other way to read the stream as frames followed by an incomplete one. */
  lemma {:induction false} FramesUnique(fs: seq<RawFrame>, rest: Bytes)
    requires FramesFit(fs) && !HasFrame(rest)
    ensures Frames(FramesBytes(fs) + rest) == fs && Leftover(FramesBytes(fs) + rest) == rest
    decreases |fs|
  {
    hide FirstFrame, AfterFrame, HasFrame, Frame, FrameFits;
    if fs == [] {
      assert [] + rest == rest;
    } else {
      var x := FramesBytes(fs[1..]) + rest;
      assert FramesBytes(fs) + rest == Frame(fs[0].status, fs[0].payload) + x;
      FrameAtFront(fs[0], x);
      FramesUnique(fs[1..], rest);
    }
  }

  lemma {:induction false} FramesBytesConcat(fs: seq<RawFrame>, gs: seq<RawFrame>)
    ensures FramesBytes(fs + gs) == FramesBytes(fs) + FramesBytes(gs)
    decreases |fs|
  {
    hide Frame;
    if fs == [] {
      assert fs + gs == gs;
    } else {
      assert (fs + gs)[1..] == fs[1..] + gs;
      FramesBytesConcat(fs[1..], gs);
    }
  }

  /** How the stream is split into two chunks does not matter. */
  lemma ChunkIndependence(a: Bytes, c: Bytes)
    ensures Frames(a + c) == Frames(a) + Frames(Leftover(a) + c)
    ensures Leftover(a + c) == Leftover(Leftover(a) + c)
  {
    hide *;
    var next := Leftover(a) + c;
    var all := Frames(a) + Frames(next);
    FramesAreTheStream(a);
    FramesAreTheStream(next);
    FramesBytesConcat(Frames(a), Frames(next));
    FitConcat(Frames(a), Frames(next));
    assert FramesBytes(all) + Leftover(next) == FramesBytes(Frames(a)) + (FramesBytes(Frames(next)) + Leftover(next));
    assert FramesBytes(Frames(a)) + (Leftover(a) + c) == a + c;
    FramesUnique(all, Leftover(next));
  }

  lemma FitConcat(fs: seq<RawFrame>, gs: seq<RawFrame>)
    requires FramesFit(fs) && FramesFit(gs)
    ensures FramesFit(fs + gs)
  {
  }

  // ---------- responses in frames ----------

  /** The values of a multi-value payload, as the client reads them: an empty value is null, a last
      value that promises too much is silently cut short, and a missing length is a range error. */
  function NodeValues(d: Bytes, n: nat): Decoded<seq<NodeValue>> {
    if n == 0 then Decoded.Ok([])
    else if |d| < 4 then Decoded.Panic
    else
      var len := GetU32(d, 0);
      var end := if |d| < 4 + len then |d| else 4 + len;
      var more :- NodeValues(d[end..], n - 1);
      Decoded.Ok([if len == 0 then Null else Data(d[4..end])] + more)
  }

  function NodeMulti(payload: Bytes): Outcome {
    if |payload| < 2 then RejectedRange
    else
      var values := NodeValues(payload[2..], GetU16(payload, 0));
      if values.Ok? then ResolvedAll(values.value) else RejectedRange
  }

  function OrNull(value: Bytes): NodeValue {
    if value == [] then Null else Data(value)
  }

  function OrNulls(values: seq<Bytes>): (r: seq<NodeValue>)
    ensures |r| == |values|
    ensures forall i :: 0 <= i < |values| ==> r[i] == OrNull(values[i])
  {
    seq(|values|, i requires 0 <= i < |values| => OrNull(values[i]))
  }

  /** What a client makes of a frame when it takes `multi` for the multi-value status. */
  function InterpretAs(multi: byte, f: RawFrame): Outcome {
    if f.status == NODE_OK then Resolved(OrNull(f.payload))
    else if f.status == NODE_ERROR then RejectedMessage(f.payload)
    else if f.status == NODE_NOT_FOUND then Resolved(Null)
    else if f.status == multi then NodeMulti(f.payload)
    else RejectedStatus(f.status)
  }

  function Interpret(f: RawFrame): Outcome {
    InterpretAs(NODE_MULTI_VALUE, f)
  }

  /** The frame that carries a response of the server. */
  function FrameOf(r: Response): RawFrame {
    var payload := ResponsePayload(r);
    match r
    case OkResponse(_) => RawFrame(STATUS_OK, payload)
    case ErrorResponse(_) => RawFrame(STATUS_ERROR, payload)
    case NotFoundResponse => RawFrame(STATUS_NOT_FOUND, payload)
    case MultiResponse(_) => RawFrame(STATUS_MULTI_VALUE, payload)
  }

  /** What the client makes of a response of the server.  A multi-value response is never understood:
      the two sides number its status differently. */
  function NodeOutcome(r: Response): Outcome {
    match r
    case OkResponse(value) => Resolved(OrNull(value))
    case ErrorResponse(message) => RejectedMessage(message)
    case NotFoundResponse => Resolved(Null)
    case MultiResponse(_) => RejectedStatus(STATUS_MULTI_VALUE)
  }

  function EncodeAll(rs: seq<Response>): Bytes {
    if rs == [] then [] else EncodeResponse(rs[0]) + EncodeAll(rs[1..])
  }

  function FramesOf(rs: seq<Response>): (fs: seq<RawFrame>)
    ensures |fs| == |rs|
  {
    seq(|rs|, i requires 0 <= i < |rs| => FrameOf(rs[i]))
  }

  predicate AllSendable(rs: seq<Response>) {
    forall i :: 0 <= i < |rs| ==> FrameFits(FrameOf(rs[i]))
  }

  lemma {:induction false} EncodeAllIsFrames(rs: seq<Response>)
    ensures EncodeAll(rs) == FramesBytes(FramesOf(rs))
    decreases |rs|
  {
    hide MultiPayload, Frame;
    if rs != [] {
      EncodeAllIsFrames(rs[1..]);
      assert FramesOf(rs)[1..] == FramesOf(rs[1..]);
    }
  }

  /** The responses a server writes one after the other come out as they went in. */
  lemma ResponsesAreFramed(rs: seq<Response>)
    requires AllSendable(rs)
    ensures Frames(EncodeAll(rs)) == FramesOf(rs) && Leftover(EncodeAll(rs)) == []
    ensures forall i :: 0 <= i < |rs| ==> Interpret(FramesOf(rs)[i]) == NodeOutcome(rs[i])
  {
    hide FrameFits, ResponsePayload;
    EncodeAllIsFrames(rs);
    FramesUnique(FramesOf(rs), []);
    assert FramesBytes(FramesOf(rs)) + [] == FramesBytes(FramesOf(rs));
    forall i | 0 <= i < |rs|
      ensures Interpret(FramesOf(rs)[i]) == NodeOutcome(rs[i])
    {
      InterpretFrameOf(rs[i]);
    }
  }

  lemma InterpretFrameOf(r: Response)
    ensures Interpret(FrameOf(r)) == NodeOutcome(r)
  {
  }

  /** A client that expects the status the server sends understands a multi-value response, an empty value
      apart, which it cannot tell from a missing one; a client that expects another status rejects it. */
  lemma MultiOutcome(multi: byte, values: seq<Bytes>)
    ensures multi == STATUS_MULTI_VALUE && |values| < TWO_16 && AllShort32(values) ==>
              InterpretAs(multi, FrameOf(MultiResponse(values))) == ResolvedAll(OrNulls(values))
    ensures multi != STATUS_MULTI_VALUE ==>
              InterpretAs(multi, FrameOf(MultiResponse(values))) == RejectedStatus(STATUS_MULTI_VALUE)
  {
    hide MultiPayload, NodeMulti, OrNulls, AllShort32;
    if |values| < TWO_16 && AllShort32(values) {
      MultiPayloadIsRead(values);
    }
  }

  /** Had the statuses agreed, the payload of a multi-value response would have been understood, an empty
      value apart, which the client cannot tell from a missing one. */
  lemma MultiPayloadIsRead(values: seq<Bytes>)
    requires |values| < TWO_16 && AllShort32(values)
    ensures Interpret(RawFrame(NODE_MULTI_VALUE, MultiPayload(values)))
         == ResolvedAll(OrNulls(values))
  {
    hide U16, GetU16, U32, GetU32;
    var p := MultiPayload(values);
    assert p[0..2] == U16(|values|);
    ReadU16(p, 0, |values|);
    assert p[2..] == ValuesBytes(values);
    NodeReadsValues(values);
  }

  lemma {:induction false} NodeReadsValues(values: seq<Bytes>)
    requires AllShort32(values)
    ensures NodeValues(ValuesBytes(values), |values|) == Decoded.Ok(OrNulls(values))
    decreases |values|
  {
    hide OrNulls, OrNull, NodeValues, Field32;
    OrNullsNext(values);
    if values == [] {
      NoValues([]);
    } else {
      AllShortNext(values);
      ValueAtFront(values[0], ValuesBytes(values[1..]), |values|);
      NodeReadsValues(values[1..]);
    }
  }

  /** How the reading of values ends behind some complete ones: a last value that promises more than there is is
      cut short, and fewer than four bytes of length are a range error; so are fewer than two bytes of count. */
  lemma {:induction false} ValuesEnd(values: seq<Bytes>, n: nat, rest: Bytes)
    requires AllShort32(values)
    ensures 0 < n < TWO_32 && |rest| <= n ==>
              NodeValues(ValuesBytes(values) + (U32(n) + rest), |values| + 1) ==
              Decoded.Ok(OrNulls(values) + [Data(rest)])
    ensures |rest| < 4 ==> NodeValues(ValuesBytes(values) + rest, |values| + 1) == Decoded.Panic
    ensures |rest| < 2 ==> NodeMulti(rest) == RejectedRange
    decreases |values|
  {
    hide OrNulls, OrNull, NodeValues, Field32, U32;
    OrNullsNext(values);
    if values == [] {
      CutShort(n, rest);
      assert ValuesBytes(values) + rest == rest && ValuesBytes(values) + (U32(n) + rest) == U32(n) + rest;
      assert OrNulls(values) + [Data(rest)] == [Data(rest)];
    } else {
      AllShortNext(values);
      ValuesEnd(values[1..], n, rest);
      var more := ValuesBytes(values[1..]);
      FieldThen(values[0], more, rest);
      FieldThen(values[0], more, U32(n) + rest);
      ValueAtFront(values[0], more + rest, |values| + 1);
      ValueAtFront(values[0], more + (U32(n) + rest), |values| + 1);
      var others := OrNulls(values[1..]);
      assert [OrNull(values[0])] + (others + [Data(rest)]) == [OrNull(values[0])] + others + [Data(rest)];
    }
  }

  lemma FieldThen(v: Bytes, x: Bytes, y: Bytes)
    ensures Field32(v, x) + y == Field32(v, x + y)
  {
    hide U32;
  }

  lemma CutShort(n: nat, rest: Bytes)
    ensures 0 < n < TWO_32 && |rest| <= n ==> NodeValues(U32(n) + rest, 1) == Decoded.Ok([Data(rest)])
    ensures |rest| < 4 ==> NodeValues(rest, 1) == Decoded.Panic
  {
    if 0 < n < TWO_32 && |rest| <= n {
      CutShortValue(n, rest);
    }
    if |rest| < 4 {
      TooShortValue(rest);
    }
  }

  lemma CutShortValue(n: nat, rest: Bytes)
    requires 0 < n < TWO_32 && |rest| <= n
    ensures NodeValues(U32(n) + rest, 1) == Decoded.Ok([Data(rest)])
  {
    hide U32, GetU32, NodeValues;
    var d := U32(n) + rest;
    assert d[0..4] == U32(n);
    ReadU32(d, 0, n);
    OneValue(d);
    assert d[4..|d|] == rest;
  }

  lemma OneValue(d: Bytes)
    requires |d| >= 4 && 0 < GetU32(d, 0) && |d| <= 4 + GetU32(d, 0)
    ensures NodeValues(d, 1) == Decoded.Ok([Data(d[4..|d|])])
  {
    hide GetU32;
    var len := GetU32(d, 0);
    var end := if |d| < 4 + len then |d| else 4 + len;
    assert end == |d|;
    NoValues(d[end..]);
    assert [Data(d[4..end])] + [] == [Data(d[4..end])];
  }

  lemma TooShortValue(rest: Bytes)
    requires |rest| < 4
    ensures NodeValues(rest, 1) == Decoded.Panic
  {
  }

  lemma NoValues(d: Bytes)
    ensures NodeValues(d, 0) == Decoded.Ok([])
  {
  }

  lemma OrNullsNext(values: seq<Bytes>)
    ensures OrNulls(values) == if values == [] then [] else [OrNull(values[0])] + OrNulls(values[1..])
  {
    hide OrNull;
  }

  lemma ValueAtFront(v: Bytes, x: Bytes, n: nat)
    requires Short32(v) && n > 0
    ensures NodeValues(Field32(v, x), n) ==
            match NodeValues(x, n - 1)
            case Ok(more) => Decoded.Ok([OrNull(v)] + more)
            case Malformed(reason) => Malformed(reason)
            case Panic => Decoded.Panic
  {
    hide U32, GetU32;
    var d := Field32(v, x);
    assert d[0..4] == U32(|v|);
    ReadU32(d, 0, |v|);
    assert d[4..4 + |v|] == v && d[4 + |v|..] == x;
  }

  // ---------- the connection ----------

  datatype Settled = Settled(id: nat, outcome: Outcome)

  function Min(m: nat, n: nat): nat {
    if m < n then m else n
  }

  /** The frames answer the waiting requests in order; frames that nobody waits for are dropped. */
  function Answered(waiting: seq<nat>, fs: seq<RawFrame>): (s: seq<Settled>)
    ensures |s| == Min(|waiting|, |fs|)
  {
    seq(Min(|waiting|, |fs|), i requires 0 <= i < Min(|waiting|, |fs|) => Settled(waiting[i], Interpret(fs[i])))
  }

  function StillWaiting(waiting: seq<nat>, fs: seq<RawFrame>): seq<nat> {
    waiting[Min(|waiting|, |fs|)..]
  }

  datatype ConnectionState = ConnectionState(buffer: Bytes, waiting: seq<nat>, settled: seq<Settled>)

  datatype Event = Send(id: nat) | Receive(chunk: Bytes)

  function React(s: ConnectionState, e: Event): ConnectionState {
    match e
    case Send(id) => s.(waiting := s.waiting + [id])
    case Receive(chunk) =>
      var fs := Frames(s.buffer + chunk);
      ConnectionState(Leftover(s.buffer + chunk), StillWaiting(s.waiting, fs), s.settled + Answered(s.waiting, fs))
  }

  class Connection {
    var buffer: Bytes
    var responseQueue: seq<nat>
    /** The promises settled so far, in order. */
    var settled: seq<Settled>

    function State(): ConnectionState
      reads this
    {
      ConnectionState(buffer, responseQueue, settled)
    }

    constructor ()
      ensures State() == ConnectionState([], [], [])
    {
      buffer, responseQueue, settled := [], [], [];
    }

    method SendRequest(id: nat)
      modifies this
      ensures State() == React(old(State()), Send(id))
    {
      responseQueue := responseQueue + [id];
    }

    method HandleData(data: Bytes)
      modifies this
      ensures State() == React(old(State()), Receive(data))
    {
      buffer := buffer + data;
      ProcessResponses();
    }

    method ProcessResponses()
      modifies this
      ensures var fs := Frames(old(buffer));
              && buffer == Leftover(old(buffer))
              && responseQueue == StillWaiting(old(responseQueue), fs)
              && settled == old(settled) + Answered(old(responseQueue), fs)
    {
      hide HasFrame, Progress, Answered, StillWaiting, Frames, Leftover, Interpret, GetU32;
      ghost var done: seq<RawFrame> := [];
      Starting(State());
      while |buffer| >= 5
        invariant Progress(old(State()), done, State())
        decreases |buffer|
      {
        var status := buffer[0];
        var payloadLen := GetU32(buffer, 1);
        var totalLen := 5 + payloadLen;
        FrameTest(buffer);
        if |buffer| < totalLen {
          Finished(old(State()), done, State());
          return;
        }
        var payload := buffer[5..totalLen];
        NextFrame(old(State()), done, State());
        done := done + [RawFrame(status, payload)];
        buffer := buffer[totalLen..];
        if responseQueue == [] {
          continue;
        }
        var handler := responseQueue[0];
        responseQueue := responseQueue[1..];
        var outcome := Answer(status, payload);
        settled := settled + [Settled(handler, outcome)];
      }
      FrameTest(buffer);
      Finished(old(State()), done, State());
    }
  }

  lemma FrameTest(b: Bytes)
    ensures HasFrame(b) <==> |b| >= 5 && |b| >= 5 + GetU32(b, 1)
  {
  }

  /** The frames `done` have been taken off the state `was`, leaving `now`. */
  ghost predicate Progress(was: ConnectionState, done: seq<RawFrame>, now: ConnectionState) {
    && Frames(was.buffer) == done + Frames(now.buffer)
    && Leftover(was.buffer) == Leftover(now.buffer)
    && now.waiting == StillWaiting(was.waiting, done)
    && now.settled == was.settled + Answered(was.waiting, done)
  }

  lemma Starting(s: ConnectionState)
    ensures Progress(s, [], s)
  {
    hide Frames, Answered, StillWaiting;
    assert [] + Frames(s.buffer) == Frames(s.buffer);
    NothingAnswered(s.waiting);
    assert s.settled + [] == s.settled;
  }

  lemma NothingAnswered(waiting: seq<nat>)
    ensures Answered(waiting, []) == [] && StillWaiting(waiting, []) == waiting
  {
    hide Interpret;
  }

  /** One turn of the loop: the next frame answers the first waiting request, if there is one. */
  lemma NextFrame(was: ConnectionState, done: seq<RawFrame>, now: ConnectionState)
    requires Progress(was, done, now) && HasFrame(now.buffer)
    ensures var f := FirstFrame(now.buffer);
            Progress(was, done + [f],
                     if now.waiting == [] then now.(buffer := AfterFrame(now.buffer))
                     else ConnectionState(AfterFrame(now.buffer), now.waiting[1..],
                                          now.settled + [Settled(now.waiting[0], Interpret(f))]))
  {
    hide HasFrame, Interpret, FirstFrame, AfterFrame, Answered, StillWaiting;
    var f := FirstFrame(now.buffer);
    assert done + ([f] + Frames(AfterFrame(now.buffer))) == done + [f] + Frames(AfterFrame(now.buffer));
    OneMore(was.waiting, done, f);
  }

  lemma OneMore(waiting: seq<nat>, done: seq<RawFrame>, f: RawFrame)
    ensures var left := StillWaiting(waiting, done);
            && Answered(waiting, done + [f])
               == (if left == [] then Answered(waiting, done)
                   else Answered(waiting, done) + [Settled(left[0], Interpret(f))])
            && StillWaiting(waiting, done + [f]) == (if left == [] then [] else left[1..])
  {
    hide Interpret;
  }

  lemma Finished(was: ConnectionState, done: seq<RawFrame>, now: ConnectionState)
    requires Progress(was, done, now) && !HasFrame(now.buffer)
    ensures now.buffer == Leftover(was.buffer)
    ensures now.waiting == StillWaiting(was.waiting, Frames(was.buffer))
    ensures now.settled == was.settled + Answered(was.waiting, Frames(was.buffer))
  {
    hide HasFrame, Answered, StillWaiting;
    assert done + [] == done;
  }

  method Answer(status: byte, payload: Bytes) returns (outcome: Outcome)
    ensures outcome == Interpret(RawFrame(status, payload))
  {
    if status == NODE_OK {
      outcome := Resolved(if |payload| > 0 then Data(payload) else Null);
    } else if status == NODE_ERROR {
      outcome := RejectedMessage(payload);
    } else if status == NODE_NOT_FOUND {
      outcome := Resolved(Null);
    } else if status == NODE_MULTI_VALUE {
      var values := ParseMultiValue(payload);
      outcome := if values.Ok? then ResolvedAll(values.value) else RejectedRange;
    } else {
      outcome := RejectedStatus(status);
    }
  }

  /** Reading past the end throws; slicing past the end cuts short. */
  method ParseMultiValue(payload: Bytes) returns (r: Decoded<seq<NodeValue>>)
    ensures r == if |payload| < 2 then Decoded.Panic else NodeValues(payload[2..], GetU16(payload, 0))
  {
    hide GetU16, GetU32, NodeValues;
    if |payload| < 2 {
      return Panic;
    }
    var count := GetU16(payload, 0);
    var values := [];
    var pos := 2;
    ListStart(NodeValues(payload[2..], count));
    for i := 0 to count
      invariant 2 <= pos
      invariant NodeValues(payload[2..], count) == After(values, NodeValues(From(payload, pos), count - i))
    {
      NodeStep(values, payload, pos, count - i);
      if |payload| < pos + 4 {
        return Panic;
      }
      var valueLen := GetU32(payload, pos);
      pos := pos + 4;
      if valueLen == 0 {
        values := values + [Null];
      } else {
        values := values + [Data(payload[pos..if |payload| < pos + valueLen then |payload| else pos + valueLen])];
        pos := pos + valueLen;
      }
    }
    AllRead(values, From(payload, pos));
    r := Decoded.Ok(values);
  }

  /** What is left from a position, which may lie past the end. */
  function From(b: Bytes, pos: nat): Bytes {
    if pos <= |b| then b[pos..] else []
  }

  lemma AllRead(done: seq<NodeValue>, d: Bytes)
    ensures After(done, NodeValues(d, 0)) == Decoded.Ok(done)
  {
    assert done + [] == done;
  }

  lemma NodeStep(done: seq<NodeValue>, payload: Bytes, pos: nat, n: nat)
    requires n > 0
    ensures After(done, NodeValues(From(payload, pos), n)) ==
            if |payload| < pos + 4 then Decoded.Panic
            else
              var len := GetU32(payload, pos);
              var at := pos + 4;
              var end := if |payload| < at + len then |payload| else at + len;
              var v := if len == 0 then Null else Data(payload[at..end]);
              After(done + [v], NodeValues(From(payload, if len == 0 then at else at + len), n - 1))
  {
    hide GetU32;
    if |payload| >= pos + 4 {
      var d, len, at := From(payload, pos), GetU32(payload, pos), pos + 4;
      var end := if |payload| < at + len then |payload| else at + len;
      ValueSlices(payload, pos, len, end);
      var v := if len == 0 then Null else Data(payload[at..end]);
      var rest := NodeValues(d[end - pos..], n - 1);
      if rest.Ok? {
        assert done + ([v] + rest.value) == done + [v] + rest.value;
      }
    }
  }

  lemma ValueSlices(payload: Bytes, pos: nat, len: nat, end: nat)
    requires pos + 4 <= |payload|
    requires end == if |payload| < pos + 4 + len then |payload| else pos + 4 + len
    ensures var d := From(payload, pos);
            && |d| == |payload| - pos && GetU32(d, 0) == GetU32(payload, pos)
            && d[4..end - pos] == payload[pos + 4..end] && d[end - pos..] == From(payload, pos + 4 + len)
  {
  }

  // ---------- whole runs ----------

  function RunConnection(s: ConnectionState, events: seq<Event>): ConnectionState {
    if events == [] then s else React(RunConnection(s, events[..|events| - 1]), events[|events| - 1])
  }

  function Sent(events: seq<Event>): seq<nat> {
    if events == [] then []
    else
      var before := Sent(events[..|events| - 1]);
      match events[|events| - 1]
      case Send(id) => before + [id]
      case Receive(_) => before
  }

  function Received(events: seq<Event>): Bytes {
    if events == [] then []
    else
      var before := Received(events[..|events| - 1]);
      match events[|events| - 1]
      case Send(_) => before
      case Receive(chunk) => before + chunk
  }

  /** The server never answers a request that has not been sent yet. */
  predicate NeverAhead(events: seq<Event>) {
    forall k :: 0 <= k <= |events| ==> AnswersAt(events, k) <= |Sent(events[..k])|
  }

  function AnswersAt(events: seq<Event>, k: nat): nat
    requires k <= |events|
  {
    |Frames(Received(events[..k]))|
  }

  /** Over any interleaving of requests and chunks, the state is what the whole stream says: request i is
      settled by frame i, as soon as that frame is complete, and the others wait. */
  lemma {:induction false} RunIsPaired(events: seq<Event>)
    requires NeverAhead(events)
    ensures var fs := Frames(Received(events));
            && |fs| <= |Sent(events)|
            && RunConnection(ConnectionState([], [], []), events)
               == ConnectionState(Leftover(Received(events)), Sent(events)[|fs|..], Answered(Sent(events), fs))
    decreases |events|
  {
    hide Frames, Leftover, Interpret;
    var s0 := ConnectionState([], [], []);
    if events == [] {
      NothingReceived();
    } else {
      var n := |events| - 1;
      var before := events[..n];
      NeverAheadBefore(events);
      RunIsPaired(before);
      assert events[..|events|] == events && AnswersAt(events, |events|) <= |Sent(events[..|events|])|;
      match events[n] {
        case Send(id) =>
          PairedAfterSend(Sent(before), Frames(Received(before)), id);
        case Receive(chunk) =>
          ChunkIndependence(Received(before), chunk);
          PairedAfterFrames(Sent(before), Frames(Received(before)), Frames(Leftover(Received(before)) + chunk));
      }
    }
  }

  lemma NothingReceived()
    ensures Frames([]) == [] && Leftover([]) == []
  {
  }

  lemma NeverAheadBefore(events: seq<Event>)
    requires NeverAhead(events) && events != []
    ensures NeverAhead(events[..|events| - 1])
  {
    hide Frames, Received, Sent;
    var before := events[..|events| - 1];
    forall k | 0 <= k <= |before|
      ensures AnswersAt(before, k) <= |Sent(before[..k])|
    {
      assert before[..k] == events[..k];
      assert AnswersAt(events, k) <= |Sent(events[..k])|;
    }
  }

  lemma PairedAfterSend(sent: seq<nat>, fs: seq<RawFrame>, id: nat)
    requires |fs| <= |sent|
    ensures sent[|fs|..] + [id] == (sent + [id])[|fs|..]
    ensures Answered(sent + [id], fs) == Answered(sent, fs)
  {
    hide Interpret;
  }

  lemma PairedAfterFrames(sent: seq<nat>, fs: seq<RawFrame>, gs: seq<RawFrame>)
    requires |fs + gs| <= |sent|
    ensures StillWaiting(sent[|fs|..], gs) == sent[|fs + gs|..]
    ensures Answered(sent, fs) + Answered(sent[|fs|..], gs) == Answered(sent, fs + gs)
  {
    hide Interpret;
  }

  /** When the bytes that arrive are, so far, what a server writes that answers request i with response
      i, every request settled so far has the outcome of its own response. */
  lemma RequestsGetTheirOwnResponses(events: seq<Event>, rs: seq<Response>)
    requires NeverAhead(events) && AllSendable(rs)
    requires Received(events) <= EncodeAll(rs)
    ensures var done := RunConnection(ConnectionState([], [], []), events).settled;
            && |done| <= |rs| && |done| <= |Sent(events)|
            && (forall i :: 0 <= i < |done| ==> done[i] == Settled(Sent(events)[i], NodeOutcome(rs[i])))
            && (Received(events) == EncodeAll(rs) ==> |done| == |rs|)
            && (forall i :: 0 <= i < |done| ==> SettledBy(done[i].outcome, rs[i]))
  {
    hide Frames, Leftover, Interpret, FramesOf, AllSendable, EncodeAll, Received, Sent, RunConnection, NeverAhead,
         NodeOutcome;
    var got := Received(events);
    RunIsPaired(events);
    ResponsesAreFramed(rs);
    var more := EncodeAll(rs)[|got|..];
    assert EncodeAll(rs) == got + more;
    ChunkIndependence(got, more);
    forall i | 0 <= i < |rs|
      ensures SettledBy(NodeOutcome(rs[i]), rs[i])
    {
      OutcomeIs(rs[i]);
    }
  }

  /** What a response does to its request: a value resolves it, an empty one and a missing one with null; an error
      rejects it with its message; several values reject it for their status, which is 4. */
  predicate SettledBy(outcome: Outcome, r: Response) {
    match r
    case OkResponse(value) => outcome == Resolved(if value == [] then Null else Data(value))
    case ErrorResponse(message) => outcome == RejectedMessage(message)
    case NotFoundResponse => outcome == Resolved(Null)
    case MultiResponse(_) => outcome == RejectedStatus(4)
  }

  lemma OutcomeIs(r: Response)
    ensures SettledBy(NodeOutcome(r), r)
  {
  }
}
