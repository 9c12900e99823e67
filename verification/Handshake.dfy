/** The framed messages of the unencrypted handshake. */
module Handshake {
  import opened Common

  const MAGIC: Bytes := [110, 111, 99, 114, 121, 112, 116, 1]

  const HEADER := 10

  datatype Status = Open | BadMagic | Refused

  /** The encryption levels; only the first two carry messages. */
  datatype Level = Initial | Handshake | ZeroRtt | OneRtt

  datatype Message = Message(level: Level, payload: Bytes)

  /** What has been received: the messages handed on so far, and the bytes kept for later. */
  datatype Received = Received(handed: seq<Message>, rest: Bytes, status: Status)

  const START := Received([], [], Open)

  /** Whether a message is accepted, given those handed on up to and including it. */
  type Handler = seq<Message> -> bool

  function Length(buf: Bytes): nat
    requires |buf| >= HEADER
  {
    buf[8] as nat * 256 + buf[9] as nat
  }

  predicate Complete(buf: Bytes) {
    |buf| >= HEADER && buf[..8] == MAGIC && |buf| >= HEADER + Length(buf)
  }

  /** The front of the stream cannot be a message. */
  predicate Alien(buf: Bytes) {
    |buf| >= HEADER && buf[..8] != MAGIC
  }

  /** Reads messages off the front of a stream for as long as they are complete. */
  function Parse(l: Level, handed: seq<Message>, buf: Bytes, h: Handler): Received
    decreases |buf|
  {
    if Alien(buf) then Received(handed, buf, BadMagic)
    else if !Complete(buf) then Received(handed, buf, Open)
    else
      var end := HEADER + Length(buf);
      var handed' := handed + [Message(l, buf[HEADER..end])];
      if !h(handed') then Received(handed', buf, Refused) else Parse(l, handed', buf[end..], h)
  }

  /** One chunk; the connection gives up once the handshake has failed, and nothing more is read. */
  function Chunk(l: Level, r: Received, data: Bytes, h: Handler): Received {
    if r.status.Open? then Parse(l, r.handed, r.rest + data, h) else r
  }

  function Chunks(l: Level, r: Received, datas: seq<Bytes>, h: Handler): Received
    decreases |datas|
  {
    if datas == [] then r else Chunks(l, Chunk(l, r, datas[0], h), datas[1..], h)
  }

  /** The same messages were handed on, with the same outcome. */
  predicate Same(a: Received, b: Received) {
    a.handed == b.handed && a.status == b.status && (a.status.Open? ==> a.rest == b.rest)
  }

  lemma {:induction false} ParseStops(l: Level, handed: seq<Message>, buf: Bytes, h: Handler)
    requires !Complete(buf)
    ensures Parse(l, handed, buf, h) == Received(handed, buf, if Alien(buf) then BadMagic else Open)
  {
  }

  lemma {:induction false} ParseNext(l: Level, handed: seq<Message>, buf: Bytes, h: Handler)
    requires Complete(buf)
    ensures var end := HEADER + Length(buf);
            var handed' := handed + [Message(l, buf[HEADER..end])];
            Parse(l, handed, buf, h) == if h(handed') then Parse(l, handed', buf[end..], h)
                                        else Received(handed', buf, Refused)
  {
  }

  /** Reading a stream is reading a part of it and then what is left of that with the rest. */
  lemma {:induction false} ParseConcat(l: Level, handed: seq<Message>, a: Bytes, b: Bytes, h: Handler)
    ensures Same(Chunk(l, Parse(l, handed, a, h), b, h), Parse(l, handed, a + b, h))
    decreases |a|
  {
    hide Parse, Complete;
    if !Complete(a) {
      ParseStops(l, handed, a, h);
      if Alien(a) {
        AlienStays(a, b);
        ParseStops(l, handed, a + b, h);
      }
    } else {
      CompletePrefix(a, b);
      var end := HEADER + Length(a);
      var handed' := handed + [Message(l, a[HEADER..end])];
      ParseNext(l, handed, a, h);
      ParseNext(l, handed, a + b, h);
      if h(handed') {
        ParseConcat(l, handed', a[end..], b, h);
        assert (a + b)[end..] == a[end..] + b;
      }
    }
  }

  lemma {:induction false} AlienStays(a: Bytes, b: Bytes)
    requires Alien(a)
    ensures Alien(a + b) && !Complete(a + b)
  {
    assert (a + b)[..8] == a[..8];
  }

  lemma {:induction false} CompletePrefix(a: Bytes, b: Bytes)
    requires Complete(a)
    ensures |a| >= HEADER && |a| >= HEADER + Length(a) && Complete(a + b) && Length(a + b) == Length(a)
    ensures (a + b)[HEADER..HEADER + Length(a)] == a[HEADER..HEADER + Length(a)]
  {
    assert (a + b)[..8] == a[..8];
  }

  /** After any chunks, what was handed on is what the whole stream holds, wherever it was cut. */
  lemma {:induction false} CutsDoNotMatter(l: Level, handed: seq<Message>, rest: Bytes, datas: seq<Bytes>, h: Handler)
    requires Parse(l, handed, rest, h) == Received(handed, rest, Open)
    ensures Same(Chunks(l, Received(handed, rest, Open), datas, h), Parse(l, handed, rest + Flatten(datas), h))
    decreases |datas|
  {
    hide Parse;
    if datas == [] {
      assert rest + Flatten(datas) == rest;
    } else {
      var r := Parse(l, handed, rest + datas[0], h);
      var more := Flatten(datas[1..]);
      ParseConcat(l, handed, rest + datas[0], more, h);
      assert rest + Flatten(datas) == rest + datas[0] + more;
      if r.status.Open? {
        Settled(l, handed, rest + datas[0], h);
        CutsDoNotMatter(l, r.handed, r.rest, datas[1..], h);
      } else {
        Stopped(l, r, datas[1..], h);
      }
    }
  }

  /** What is left after reading holds no complete message. */
  lemma {:induction false} Settled(l: Level, handed: seq<Message>, buf: Bytes, h: Handler)
    ensures var r := Parse(l, handed, buf, h);
            r.status.Open? ==> Parse(l, r.handed, r.rest, h) == r
    decreases |buf|
  {
    if Complete(buf) {
      var end := HEADER + Length(buf);
      var handed' := handed + [Message(l, buf[HEADER..end])];
      if h(handed') {
        Settled(l, handed', buf[end..], h);
      }
    }
  }

  lemma {:induction false} Stopped(l: Level, r: Received, datas: seq<Bytes>, h: Handler)
    requires !r.status.Open?
    ensures Chunks(l, r, datas, h) == r
    decreases |datas|
  {
    if datas != [] {
      Stopped(l, r, datas[1..], h);
    }
  }

  // ---- sending

  function Frame(payload: Bytes): Bytes
    requires |payload| < 0x1_0000
  {
    MAGIC + [(|payload| / 256) as byte, (|payload| % 256) as byte] + payload
  }

  /** Builds one message: the header is reserved, the payload added, and the length filled in last. */
  method BuildMessage(payload: Bytes) returns (buf: Bytes)
    requires |payload| < 0x1_0000
    ensures buf == Frame(payload)
    ensures |buf| == HEADER + |payload| && buf[..8] == MAGIC && buf[HEADER..] == payload
    ensures buf[8] as nat == |payload| / 256 && buf[9] as nat == |payload| % 256
  {
    buf := MAGIC + [0, 0] + payload;
    var n := |buf| - HEADER;
    buf := buf[HEADER - 2 := (n / 256) as byte];
    buf := buf[HEADER - 1 := (n % 256) as byte];
  }

  function FrameAll(payloads: seq<Bytes>): Bytes
    requires forall p :: p in payloads ==> |p| < 0x1_0000
  {
    if payloads == [] then [] else Frame(payloads[0]) + FrameAll(payloads[1..])
  }

  lemma {:induction false} FrameIs(payload: Bytes, rest: Bytes)
    requires |payload| < 0x1_0000
    ensures var buf := Frame(payload) + rest;
            && Complete(buf) && Length(buf) == |payload|
            && buf[HEADER..HEADER + |payload|] == payload && buf[HEADER + |payload|..] == rest
  {
    var n := |payload|;
    var header: Bytes := MAGIC + [(n / 256) as byte, (n % 256) as byte];
    assert Frame(payload) == header + payload && |header| == HEADER;
    var buf := Frame(payload) + rest;
    assert buf == header + (payload + rest);
    assert buf[..8] == MAGIC && buf[8] as nat == n / 256 && buf[9] as nat == n % 256;
    assert Length(buf) == n;
  }

  lemma {:induction false} ParseFrame(l: Level, handed: seq<Message>, payload: Bytes, rest: Bytes, h: Handler)
    requires |payload| < 0x1_0000 && h(handed + [Message(l, payload)])
    ensures Parse(l, handed, Frame(payload) + rest, h) == Parse(l, handed + [Message(l, payload)], rest, h)
  {
    hide Frame;
    FrameIs(payload, rest);
  }

  function Messages(l: Level, payloads: seq<Bytes>): seq<Message> {
    seq(|payloads|, i requires 0 <= i < |payloads| => Message(l, payloads[i]))
  }

  /** Each of these messages is accepted in its turn. */
  predicate Welcome(handed: seq<Message>, ms: seq<Message>, h: Handler)
    decreases |ms|
  {
    ms == [] || (h(handed + [ms[0]]) && Welcome(handed + [ms[0]], ms[1..], h))
  }

  lemma {:induction false} ParseNothing(l: Level, handed: seq<Message>, h: Handler)
    ensures Parse(l, handed, [], h) == Received(handed, [], Open)
  {
  }

  lemma {:induction false} ParseFrames(l: Level, handed: seq<Message>, payloads: seq<Bytes>, h: Handler)
    requires forall p :: p in payloads ==> |p| < 0x1_0000
    requires Welcome(handed, Messages(l, payloads), h)
    ensures Parse(l, handed, FrameAll(payloads), h) == Received(handed + Messages(l, payloads), [], Open)
    decreases |payloads|
  {
    hide Parse, Frame;
    if payloads == [] {
      ParseNothing(l, handed, h);
      assert handed + Messages(l, payloads) == handed;
    } else {
      var p, rest := payloads[0], payloads[1..];
      assert Messages(l, payloads)[1..] == Messages(l, rest);
      ParseFrame(l, handed, p, FrameAll(rest), h);
      ParseFrames(l, handed + [Message(l, p)], rest, h);
      assert handed + [Message(l, p)] + Messages(l, rest) == handed + Messages(l, payloads);
    }
  }

  /** Messages sent one after another come out one by one, however the stream is cut. */
  lemma {:induction false} MessagesRecovered(l: Level, payloads: seq<Bytes>, datas: seq<Bytes>, h: Handler)
    requires forall p :: p in payloads ==> |p| < 0x1_0000
    requires Welcome([], Messages(l, payloads), h)
    requires Flatten(datas) == FrameAll(payloads)
    ensures Chunks(l, START, datas, h) == Received(Messages(l, payloads), [], Open)
  {
    CutsDoNotMatter(l, [], [], datas, h);
    assert [] + Flatten(datas) == Flatten(datas);
    ParseFrames(l, [], payloads, h);
    assert [] + Messages(l, payloads) == Messages(l, payloads);
  }

  // ---- the two levels

  /** The bytes kept at each level, and the messages of both in the order handed on. */
  datatype Reader = Reader(initial: Bytes, handshake: Bytes, handed: seq<Message>)

  const NOTHING_READ := Reader([], [], [])

  datatype Arrival = Arrival(level: Level, data: Bytes)

  function Rest(r: Reader, l: Level): Bytes {
    if l.Initial? then r.initial else if l.Handshake? then r.handshake else []
  }

  function WithRest(r: Reader, l: Level, rest: Bytes): Reader {
    if l.Initial? then r.(initial := rest) else if l.Handshake? then r.(handshake := rest) else r
  }

  /** What arrives encrypted is not for us, and early data is an error. */
  function Arrive(r: Reader, a: Arrival, h: Handler): (Reader, Status) {
    if a.level.OneRtt? then (r, Open)
    else if a.level.ZeroRtt? then (r, Refused)
    else
      var p := Parse(a.level, r.handed, Rest(r, a.level) + a.data, h);
      (WithRest(r, a.level, p.rest).(handed := p.handed), p.status)
  }

  /** What has been read after the arrivals, if none of them failed. */
  function ArriveAll(r: Reader, arrivals: seq<Arrival>, h: Handler): Option<Reader>
    decreases |arrivals|
  {
    if arrivals == [] then Some(r)
    else
      var (r1, status) := Arrive(r, arrivals[0], h);
      if status.Open? then ArriveAll(r1, arrivals[1..], h) else None
  }

  /** What arrived at one level. */
  function Stream(arrivals: seq<Arrival>, l: Level): Bytes {
    if arrivals == [] then []
    else (if arrivals[0].level == l then arrivals[0].data else []) + Stream(arrivals[1..], l)
  }

  function At(ms: seq<Message>, l: Level): seq<Message> {
    if ms == [] then [] else (if ms[0].level == l then [ms[0]] else []) + At(ms[1..], l)
  }

  lemma {:induction false} AtConcat(a: seq<Message>, b: seq<Message>, l: Level)
    ensures At(a + b, l) == At(a, l) + At(b, l)
  {
    if a == [] {
      assert a + b == b;
    } else {
      AtConcat(a[1..], b, l);
      var head := if a[0].level == l then [a[0]] else [];
      assert (a + b)[0] == a[0] && (a + b)[1..] == a[1..] + b;
      assert head + (At(a[1..], l) + At(b, l)) == head + At(a[1..], l) + At(b, l);
    }
  }

  predicate AcceptsAll(ms: seq<Message>) {
    true
  }

  /** Every message of a stream, when all are accepted. */
  function Split(l: Level, buf: Bytes): Received {
    Parse(l, [], buf, AcceptsAll)
  }

  lemma {:induction false} CompleteIsFrame(buf: Bytes)
    requires Complete(buf)
    ensures var end := HEADER + Length(buf);
            |buf[HEADER..end]| < 0x1_0000 && buf == Frame(buf[HEADER..end]) + buf[end..]
  {
    var n := Length(buf);
    assert n / 256 == buf[8] as nat && n % 256 == buf[9] as nat;
    assert buf[..HEADER] == MAGIC + [buf[8], buf[9]];
    assert buf == buf[..HEADER] + buf[HEADER..HEADER + n] + buf[HEADER + n..];
  }

  /**
   * Every stream is a row of whole messages, which are those handed on, followed by one that is not complete or
   * not a message at all.
   */
  lemma {:induction false} SplitIs(l: Level, handed: seq<Message>, buf: Bytes) returns (payloads: seq<Bytes>)
    ensures (forall p :: p in payloads ==> |p| < 0x1_0000)
    ensures var r := Parse(l, handed, buf, AcceptsAll);
            && r.handed == handed + Messages(l, payloads) && buf == FrameAll(payloads) + r.rest
            && !Complete(r.rest) && r.status == if Alien(r.rest) then BadMagic else Open
    decreases |buf|
  {
    hide Frame, Messages, Parse;
    if !Complete(buf) {
      payloads := [];
      ParseStops(l, handed, buf, AcceptsAll);
      NoMessages(l, handed, buf);
    } else {
      var end := HEADER + Length(buf);
      var p := buf[HEADER..end];
      CompleteIsFrame(buf);
      hide Complete, Alien, FrameAll;
      ParseNext(l, handed, buf, AcceptsAll);
      var rest := SplitIs(l, handed + [Message(l, p)], buf[end..]);
      payloads := [p] + rest;
      OneMessage(l, handed, p, rest, Parse(l, handed, buf, AcceptsAll).rest);
    }
  }

  lemma {:induction false} NoMessages(l: Level, handed: seq<Message>, rest: Bytes)
    ensures handed + Messages(l, []) == handed && FrameAll([]) + rest == rest
  {
    assert handed + Messages(l, []) == handed;
    assert FrameAll([]) + rest == rest;
  }

  lemma {:induction false} OneMessage(l: Level, handed: seq<Message>, p: Bytes, more: seq<Bytes>, rest: Bytes)
    requires |p| < 0x1_0000 && forall x :: x in more ==> |x| < 0x1_0000
    ensures forall x :: x in [p] + more ==> |x| < 0x1_0000
    ensures handed + [Message(l, p)] + Messages(l, more) == handed + Messages(l, [p] + more)
    ensures Frame(p) + (FrameAll(more) + rest) == FrameAll([p] + more) + rest
  {
    hide Frame;
    assert ([p] + more)[1..] == more;
    assert handed + [Message(l, p)] + Messages(l, more) == handed + Messages(l, [p] + more);
    assert Frame(p) + (FrameAll(more) + rest) == Frame(p) + FrameAll(more) + rest;
  }

  /** All the messages are of one level. */
  ghost predicate Only(ms: seq<Message>, l: Level) {
    At(ms, l) == ms && forall o: Level :: o != l ==> At(ms, o) == []
  }

  lemma {:induction false} OnlyPrepend(m: Message, ms: seq<Message>)
    requires Only(ms, m.level)
    ensures Only([m] + ms, m.level)
  {
    assert ([m] + ms)[1..] == ms;
  }

  /** What a handler accepts to the end is what the stream holds. */
  lemma {:induction false} Accepted(l: Level, handed: seq<Message>, more: seq<Message>, buf: Bytes, h: Handler)
    returns (ms: seq<Message>)
    requires Parse(l, handed, buf, h).status.Open?
    ensures var p, q := Parse(l, handed, buf, h), Parse(l, more, buf, AcceptsAll);
            && q == Received(more + ms, p.rest, Open)
            && p.handed == handed + ms && Only(ms, l)
    decreases |buf|
  {
    if !Complete(buf) {
      ms := [];
      assert more + ms == more && handed + ms == handed;
    } else {
      hide At, Only, Parse;
      var end := HEADER + Length(buf);
      var m := Message(l, buf[HEADER..end]);
      ParseNext(l, handed, buf, h);
      ParseNext(l, more, buf, AcceptsAll);
      var rest := Accepted(l, handed + [m], more + [m], buf[end..], h);
      ms := [m] + rest;
      OnlyPrepend(m, rest);
      assert handed + [m] + rest == handed + ms && more + [m] + rest == more + ms;
    }
  }

  /** What has been read of a level is what its stream up to now holds. */
  ghost predicate ReadTo(r: Reader, l: Level, stream: Bytes) {
    Split(l, stream) == Received(At(r.handed, l), Rest(r, l), Open)
  }

  lemma {:induction false} ArriveReads(r: Reader, a: Arrival, l: Level, stream: Bytes, h: Handler)
    requires (l.Initial? || l.Handshake?) && ReadTo(r, l, stream) && Arrive(r, a, h).1.Open?
    ensures ReadTo(Arrive(r, a, h).0, l, stream + if a.level == l then a.data else [])
  {
    hide Parse;
    if a.level.OneRtt? {
      assert stream + [] == stream;
    } else {
      var p := Parse(a.level, r.handed, Rest(r, a.level) + a.data, h);
      var ms := Accepted(a.level, r.handed, At(r.handed, a.level), Rest(r, a.level) + a.data, h);
      AtConcat(r.handed, ms, l);
      if a.level == l {
        ParseConcat(l, [], stream, a.data, AcceptsAll);
      } else {
        assert stream + [] == stream;
        assert At(r.handed, l) + [] == At(r.handed, l);
      }
    }
  }

  /** Arrivals at the two levels do not disturb each other, however they are cut and interleaved. */
  lemma {:induction false} LevelsApart(r: Reader, arrivals: seq<Arrival>, l: Level, stream: Bytes, h: Handler)
    requires (l.Initial? || l.Handshake?) && ReadTo(r, l, stream) && ArriveAll(r, arrivals, h).Some?
    ensures ReadTo(ArriveAll(r, arrivals, h).value, l, stream + Stream(arrivals, l))
    decreases |arrivals|
  {
    hide ReadTo, Arrive;
    if arrivals == [] {
      assert stream + Stream(arrivals, l) == stream;
    } else {
      var a := arrivals[0];
      var part := if a.level == l then a.data else [];
      ArriveReads(r, a, l, stream, h);
      LevelsApart(Arrive(r, a, h).0, arrivals[1..], l, stream + part, h);
      assert stream + Stream(arrivals, l) == stream + part + Stream(arrivals[1..], l);
    }
  }

  /** So, from the start, each level is handed on what its stream holds. */
  lemma {:induction false} EachLevelRead(arrivals: seq<Arrival>, l: Level, h: Handler)
    requires (l.Initial? || l.Handshake?) && ArriveAll(NOTHING_READ, arrivals, h).Some?
    ensures ReadTo(ArriveAll(NOTHING_READ, arrivals, h).value, l, Stream(arrivals, l))
  {
    ParseNothing(l, [], AcceptsAll);
    LevelsApart(NOTHING_READ, arrivals, l, [], h);
    assert [] + Stream(arrivals, l) == Stream(arrivals, l);
  }

  // ---- the levels that carry no messages

  function WithoutOneRtt(arrivals: seq<Arrival>): seq<Arrival> {
    if arrivals == [] then []
    else (if arrivals[0].level.OneRtt? then [] else [arrivals[0]]) + WithoutOneRtt(arrivals[1..])
  }

  /** Encrypted data makes no difference: a run has the outcome of the run without it. */
  lemma {:induction false} OneRttMakesNoDifference(r: Reader, arrivals: seq<Arrival>, h: Handler)
    ensures ArriveAll(r, arrivals, h) == ArriveAll(r, WithoutOneRtt(arrivals), h)
    decreases |arrivals|
  {
    hide Parse;
    if arrivals != [] {
      var (r1, status) := Arrive(r, arrivals[0], h);
      OneRttMakesNoDifference(r1, arrivals[1..], h);
      if !arrivals[0].level.OneRtt? {
        var all := [arrivals[0]] + WithoutOneRtt(arrivals[1..]);
        assert all[0] == arrivals[0] && all[1..] == WithoutOneRtt(arrivals[1..]);
        assert ArriveAll(r, all, h) == if status.Open? then ArriveAll(r1, all[1..], h) else None;
      } else {
        assert [] + WithoutOneRtt(arrivals[1..]) == WithoutOneRtt(arrivals[1..]);
      }
    }
  }

  /** Early data is never read: a run that contains any fails, and leaves the reader as it was. */
  lemma {:induction false} EarlyDataFails(r: Reader, arrivals: seq<Arrival>, i: nat, h: Handler)
    requires i < |arrivals| && arrivals[i].level.ZeroRtt?
    ensures ArriveAll(r, arrivals, h).None?
    ensures Arrive(r, arrivals[i], h).0 == r
    decreases |arrivals|
  {
    hide Parse;
    if i > 0 {
      EarlyDataFails(Arrive(r, arrivals[0], h).0, arrivals[1..], i - 1, h);
    }
  }

  // ---- runs that fail

  /** What has been read when the connection gives up at the first failure, or at the end if there is none. */
  function ReadUntilFailure(r: Reader, arrivals: seq<Arrival>, h: Handler): Reader
    decreases |arrivals|
  {
    if arrivals == [] then r
    else
      var (r1, status) := Arrive(r, arrivals[0], h);
      if status.Open? then ReadUntilFailure(r1, arrivals[1..], h) else r1
  }

  /** Reading only adds to what has been handed on. */
  lemma {:induction false} ParseAdds(l: Level, handed: seq<Message>, buf: Bytes, h: Handler)
    ensures handed <= Parse(l, handed, buf, h).handed
    decreases |buf|
  {
    if Complete(buf) {
      var end := HEADER + Length(buf);
      var handed' := handed + [Message(l, buf[HEADER..end])];
      if h(handed') {
        ParseAdds(l, handed', buf[end..], h);
      }
    }
  }

  /** A longer stream holds the messages of a shorter one, and perhaps more. */
  lemma {:induction false} SplitGrows(l: Level, a: Bytes, b: Bytes)
    ensures Split(l, a).handed <= Split(l, a + b).handed
  {
    hide Parse;
    var p := Split(l, a);
    ParseConcat(l, [], a, b, AcceptsAll);
    ParseAdds(l, p.handed, p.rest + b, AcceptsAll);
  }

  /** Whatever a handler makes of it, what it is handed are the first messages of the stream. */
  lemma {:induction false} HandedFirst(l: Level, handed: seq<Message>, more: seq<Message>, buf: Bytes, h: Handler)
    returns (ms: seq<Message>)
    ensures Parse(l, handed, buf, h).handed == handed + ms && Only(ms, l)
    ensures more + ms <= Parse(l, more, buf, AcceptsAll).handed
    decreases |buf|
  {
    hide Parse, At, Only;
    OnlyNone(l);
    ms := [];
    if !Complete(buf) {
      ParseStops(l, handed, buf, h);
      ParseStops(l, more, buf, AcceptsAll);
      assert handed + ms == handed && more + ms == more;
    } else {
      var end := HEADER + Length(buf);
      var m := Message(l, buf[HEADER..end]);
      ParseNext(l, handed, buf, h);
      ParseNext(l, more, buf, AcceptsAll);
      if h(handed + [m]) {
        ms := HandedFirst(l, handed + [m], more + [m], buf[end..], h);
      } else {
        ParseAdds(l, more + [m], buf[end..], AcceptsAll);
      }
      OnlyPrepend(m, ms);
      assert handed + [m] + ms == handed + ([m] + ms) && more + [m] + ms == more + ([m] + ms);
      ms := [m] + ms;
    }
  }

  lemma {:induction false} OnlyNone(l: Level)
    ensures Only([], l)
  {
  }

  lemma {:induction false} ArriveHandsFirst(r: Reader, a: Arrival, l: Level, stream: Bytes, h: Handler)
    requires (l.Initial? || l.Handshake?) && ReadTo(r, l, stream)
    ensures At(Arrive(r, a, h).0.handed, l) <= Split(l, stream + if a.level == l then a.data else []).handed
  {
    hide Parse, At;
    assert stream + [] == stream;
    if a.level.Initial? || a.level.Handshake? {
      var ms := HandedFirst(a.level, r.handed, At(r.handed, a.level), Rest(r, a.level) + a.data, h);
      AtConcat(r.handed, ms, l);
      if a.level == l {
        ParseConcat(l, [], stream, a.data, AcceptsAll);
      } else {
        assert At(r.handed, l) + [] == At(r.handed, l);
      }
    }
  }

  lemma {:induction false} LevelsHandFirst(r: Reader, arrivals: seq<Arrival>, l: Level, stream: Bytes, h: Handler)
    requires (l.Initial? || l.Handshake?) && ReadTo(r, l, stream)
    ensures At(ReadUntilFailure(r, arrivals, h).handed, l) <= Split(l, stream + Stream(arrivals, l)).handed
    decreases |arrivals|
  {
    hide Arrive, At, Split;
    if arrivals == [] {
      assert stream + Stream(arrivals, l) == stream;
      ReadSoFar(r, l, stream);
    } else {
      var a, rest := arrivals[0], Stream(arrivals[1..], l);
      var part := if a.level == l then a.data else [];
      assert stream + Stream(arrivals, l) == stream + part + rest;
      if Arrive(r, a, h).1.Open? {
        ArriveReads(r, a, l, stream, h);
        LevelsHandFirst(Arrive(r, a, h).0, arrivals[1..], l, stream + part, h);
      } else {
        ArriveHandsFirst(r, a, l, stream, h);
        SplitGrows(l, stream + part, rest);
      }
    }
  }

  lemma {:induction false} ReadSoFar(r: Reader, l: Level, stream: Bytes)
    requires ReadTo(r, l, stream)
    ensures At(r.handed, l) == Split(l, stream).handed
  {
  }

  /**
   * Whatever arrives and whatever is refused, up to the first failure each level has been handed the first messages
   * of its own stream, in order and nothing else.
   */
  lemma {:induction false} EachLevelHandedFirst(arrivals: seq<Arrival>, l: Level, h: Handler)
    requires l.Initial? || l.Handshake?
    ensures At(ReadUntilFailure(NOTHING_READ, arrivals, h).handed, l) <= Split(l, Stream(arrivals, l)).handed
  {
    ParseNothing(l, [], AcceptsAll);
    LevelsHandFirst(NOTHING_READ, arrivals, l, [], h);
    assert [] + Stream(arrivals, l) == Stream(arrivals, l);
  }

  /** A connection that went on after refusing a message would be handed it again. */
  lemma {:induction false} RefusedIsHandedAgain(r: Reader, l: Level, payload: Bytes, h: Handler)
    requires (l.Initial? || l.Handshake?) && |payload| < 0x1_0000 && Rest(r, l) == []
    requires !h(r.handed + [Message(l, payload)])
    ensures var (r1, status) := Arrive(r, Arrival(l, Frame(payload)), h);
            && status.Refused?
            && Arrive(r1, Arrival(l, []), h).0.handed == r.handed + [Message(l, payload), Message(l, payload)]
  {
    hide Parse, Frame;
    var m, buf := Message(l, payload), Frame(payload);
    FrameIs(payload, []);
    assert buf + [] == buf && [] + buf == buf;
    ParseNext(l, r.handed, buf, h);
    ParseNext(l, r.handed + [m], buf, h);
    ParseNothing(l, r.handed + [m] + [m], h);
    assert r.handed + [m] + [m] == r.handed + [m, m];
  }

  /** A level that has failed for its magic fails again, hands on nothing more, and only grows. */
  lemma {:induction false} BadMagicStays(r: Reader, a: Arrival, h: Handler)
    requires (a.level.Initial? || a.level.Handshake?) && Alien(Rest(r, a.level))
    ensures Arrive(r, a, h) == (WithRest(r, a.level, Rest(r, a.level) + a.data), BadMagic)
  {
    AlienStays(Rest(r, a.level), a.data);
  }

  // ---- the receive buffers

  class HandshakeReader {
    var initial: Bytes
    var handshake: Bytes
    var handed: seq<Message>

    ghost function State(): Reader
      reads this
    {
      Reader(initial, handshake, handed)
    }

    constructor ()
      ensures State() == NOTHING_READ
    {
      initial, handshake, handed := [], [], [];
    }

    method RecvCryptoData(l: Level, data: Bytes, h: Handler) returns (status: Status)
      modifies this
      ensures (State(), status) == Arrive(old(State()), Arrival(l, data), h)
    {
      if l.OneRtt? {
        return Open;
      }
      if l.ZeroRtt? {
        return Refused;
      }
      var buf := (if l.Initial? then initial else handshake) + data;
      status := Open;
      ghost var all, first := buf, handed;
      while |buf| >= HEADER
        invariant Parse(l, handed, buf, h) == Parse(l, first, all, h)
        invariant initial == old(initial) && handshake == old(handshake)
        decreases |buf|
      {
        if buf[..8] != MAGIC {
          status := BadMagic;
          break;
        }
        var n := buf[HEADER - 2] as nat * 256 + buf[HEADER - 1] as nat;
        if |buf| < HEADER + n {
          break;
        }
        handed := handed + [Message(l, buf[HEADER..HEADER + n])];
        if !h(handed) {
          status := Refused;
          break;
        }
        buf := buf[HEADER + n..];
      }
      if l.Initial? {
        initial := buf;
      } else {
        handshake := buf;
      }
    }
  }
}
