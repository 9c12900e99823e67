/**
 * The N:DATA framing of request streams.  The parser is described byte by byte; the stream itself
 * takes whole chunks, cut anywhere, and accumulates digits and data in bulk.
 */
module Framing {
  import opened Common

  const DIGIT0: byte := 48
  const DIGIT9: byte := 57
  const COLON: byte := 58
  const MAX_PREFIX := 10
  /** Any frame size limit has to be below this. */
  const LIMIT := 1000000000

  predicate IsDigit(b: byte) {
    DIGIT0 <= b <= DIGIT9
  }

  /** The number that a string of digits denotes; none denote zero. */
  function Value(digits: Bytes): nat
    requires forall i :: 0 <= i < |digits| ==> IsDigit(digits[i])
  {
    if digits == [] then 0
    else
      assert IsDigit(digits[|digits| - 1]);
      10 * Value(digits[..|digits| - 1]) + (digits[|digits| - 1] - DIGIT0) as nat
  }

  function Decimal(n: nat): Bytes {
    if n < 10 then [DIGIT0 + n as byte] else Decimal(n / 10) + [DIGIT0 + (n % 10) as byte]
  }

  /** What has been received of a frame: its length prefix while `len` is 0, then its data. */
  datatype Parser = Parser(digits: Bytes, len: nat, buf: Bytes) {
    predicate Valid(max: nat) {
      && (forall i :: 0 <= i < |digits| ==> IsDigit(digits[i]))
      && |digits| <= MAX_PREFIX
      && (if len == 0 then buf == [] else digits == [] && |buf| < len <= max)
    }
  }

  const FRESH := Parser([], 0, [])

  datatype Outcome = Quiet(p: Parser) | Got(frame: Bytes) | ZeroLength | Bad

  /** The effect of one byte. */
  function Byte(p: Parser, max: nat, b: byte): Outcome
    requires p.Valid(max)
  {
    if p.len > 0 then
      if |p.buf| + 1 == p.len then Got(p.buf + [b]) else Quiet(p.(buf := p.buf + [b]))
    else if IsDigit(b) then
      if |p.digits| + 1 > MAX_PREFIX then Bad else Quiet(p.(digits := p.digits + [b]))
    else if b == COLON then
      if |p.digits| > 1 && p.digits[0] == DIGIT0 then Bad
      else if Value(p.digits) == 0 then ZeroLength
      else if Value(p.digits) > max then Bad
      else Quiet(Parser([], Value(p.digits), []))
    else Bad
  }

  /** Frames handed on, and the parser left behind; None if the input was refused. */
  datatype Parsed = Parsed(frames: seq<Bytes>, end: Option<Parser>)

  function Prepend(frames: seq<Bytes>, r: Parsed): Parsed {
    Parsed(frames + r.frames, r.end)
  }

  /** The reference: every byte is taken in turn, and zero-length frames are skipped. */
  function Feed(p: Parser, max: nat, data: Bytes): Parsed
    requires p.Valid(max)
    decreases |data|
  {
    if data == [] then Parsed([], Some(p))
    else
      match Byte(p, max, data[0])
      case Quiet(p') => Feed(p', max, data[1..])
      case Got(frame) => Prepend([frame], Feed(FRESH, max, data[1..]))
      case ZeroLength => Feed(FRESH, max, data[1..])
      case Bad => Parsed([], None)
  }

  /** What the stream makes of a chunk: a zero-length frame ends it, and the rest is discarded. */
  function Chunk(p: Parser, max: nat, data: Bytes): Parsed
    requires p.Valid(max)
    decreases |data|
  {
    if data == [] then Parsed([], Some(p))
    else
      match Byte(p, max, data[0])
      case Quiet(p') => Chunk(p', max, data[1..])
      case Got(frame) => Prepend([frame], Chunk(FRESH, max, data[1..]))
      case ZeroLength => Parsed([], Some(FRESH))
      case Bad => Parsed([], None)
  }

  lemma {:induction false} FeedEndValid(p: Parser, max: nat, data: Bytes)
    requires p.Valid(max)
    ensures Feed(p, max, data).end.Some? ==> Feed(p, max, data).end.value.Valid(max)
    decreases |data|
  {
    if data != [] {
      var o := Byte(p, max, data[0]);
      if o.Quiet? {
        FeedEndValid(o.p, max, data[1..]);
      } else if !o.Bad? {
        FeedEndValid(FRESH, max, data[1..]);
      }
    }
  }

  /** Where the input is cut does not matter to the reference. */
  lemma {:induction false} FeedConcat(p: Parser, max: nat, a: Bytes, b: Bytes)
    requires p.Valid(max)
    ensures Feed(p, max, a).end.Some? ==> Feed(p, max, a).end.value.Valid(max)
    ensures var r := Feed(p, max, a);
            Feed(p, max, a + b) == if r.end.None? then r else Prepend(r.frames, Feed(r.end.value, max, b))
    decreases |a|
  {
    FeedEndValid(p, max, a);
    if a == [] {
      assert a + b == b;
    } else {
      assert (a + b)[0] == a[0] && (a + b)[1..] == a[1..] + b;
      var o := Byte(p, max, a[0]);
      if o.Quiet? {
        FeedConcat(o.p, max, a[1..], b);
      } else if !o.Bad? {
        FeedConcat(FRESH, max, a[1..], b);
      }
    }
  }

  // ---------------------------------------------------------------------------------------------
  // When the stream agrees with the reference
  // ---------------------------------------------------------------------------------------------

  /** What follows the first zero-length frame of a chunk; None if there is none. */
  function AfterZero(p: Parser, max: nat, data: Bytes): Option<Bytes>
    requires p.Valid(max)
    decreases |data|
  {
    if data == [] then None
    else
      match Byte(p, max, data[0])
      case Quiet(p') => AfterZero(p', max, data[1..])
      case Got(_) => AfterZero(FRESH, max, data[1..])
      case ZeroLength => Some(data[1..])
      case Bad => None
  }

  /** Nothing but zero-length frames. */
  predicate OnlyZeros(data: Bytes)
    decreases |data|
  {
    data == []
    || (data[0] == COLON && OnlyZeros(data[1..]))
    || (|data| > 1 && data[0] == DIGIT0 && data[1] == COLON && OnlyZeros(data[2..]))
  }

  const NOTHING := Parsed([], Some(FRESH))

  lemma {:induction false} BodyNotNothing(p: Parser, max: nat, data: Bytes)
    requires p.Valid(max) && p.len > 0
    ensures Feed(p, max, data) != NOTHING
    decreases |data|
  {
    if data != [] {
      var o := Byte(p, max, data[0]);
      if o.Quiet? {
        BodyNotNothing(o.p, max, data[1..]);
      }
    }
  }

  /** Once a prefix begins with a non-zero digit, or a zero and another digit, it is no zero-length frame. */
  lemma {:induction false} PrefixNotNothing(p: Parser, max: nat, data: Bytes)
    requires p.Valid(max) && p.len == 0 && p.digits != []
    requires p.digits[0] != DIGIT0 || |p.digits| > 1
    ensures Feed(p, max, data) != NOTHING
    decreases |data|
  {
    if data != [] {
      var o := Byte(p, max, data[0]);
      if p.digits[0] != DIGIT0 {
        ValuePositive(p.digits);
      }
      if o.Quiet? && IsDigit(data[0]) {
        PrefixNotNothing(o.p, max, data[1..]);
      } else if o.Quiet? {
        BodyNotNothing(o.p, max, data[1..]);
      }
    }
  }

  lemma {:induction false} ValuePositive(digits: Bytes)
    requires digits != [] && digits[0] != DIGIT0 && forall i :: 0 <= i < |digits| ==> IsDigit(digits[i])
    ensures Value(digits) > 0
    decreases |digits|
  {
    if |digits| > 1 {
      ValuePositive(digits[..|digits| - 1]);
    }
  }

  lemma {:induction false} FeedNothing(max: nat, data: Bytes)
    ensures Feed(FRESH, max, data) == NOTHING <==> OnlyZeros(data)
    decreases |data|
  {
    if data != [] {
      var o := Byte(FRESH, max, data[0]);
      if data[0] == COLON {
        FeedNothing(max, data[1..]);
      } else if IsDigit(data[0]) {
        var p := Parser([data[0]], 0, []);
        assert o == Quiet(p) by { assert [] + [data[0]] == [data[0]]; }
        if data[0] != DIGIT0 {
          PrefixNotNothing(p, max, data[1..]);
        } else if |data| > 1 {
          assert data[1..][0] == data[1] && data[1..][1..] == data[2..];
          if data[1] == COLON {
            assert Value(p.digits) == 0;
            FeedNothing(max, data[2..]);
          } else if IsDigit(data[1]) {
            var p2 := Parser([data[0]] + [data[1]], 0, []);
            assert Byte(p, max, data[1]) == Quiet(p2);
            PrefixNotNothing(p2, max, data[2..]);
          }
        }
      }
    }
  }

  /**
   * A chunk is parsed as the reference would parse it exactly when nothing but zero-length frames
   * follows the first zero-length frame in it.
   */
  lemma {:induction false} ChunkAgrees(p: Parser, max: nat, data: Bytes)
    requires p.Valid(max)
    ensures Chunk(p, max, data) == Feed(p, max, data) <==>
            AfterZero(p, max, data).None? || OnlyZeros(AfterZero(p, max, data).value)
    decreases |data|
  {
    if data != [] {
      var o := Byte(p, max, data[0]);
      if o.Quiet? {
        ChunkAgrees(o.p, max, data[1..]);
      } else if o.Got? {
        ChunkAgrees(FRESH, max, data[1..]);
        var c, f := Chunk(FRESH, max, data[1..]), Feed(FRESH, max, data[1..]);
        assert Prepend([o.frame], c) == Prepend([o.frame], f) <==> c == f by {
          assert (Prepend([o.frame], c).frames)[1..] == c.frames && (Prepend([o.frame], f).frames)[1..] == f.frames;
        }
      } else if o.ZeroLength? {
        FeedNothing(max, data[1..]);
      }
    }
  }

  /** A zero-length frame makes the stream lose a whole frame behind it in the same chunk. */
  lemma {:induction false} ZeroLengthLosesFrame(b: byte)
    ensures var data := [DIGIT0, COLON, DIGIT0 + 1, COLON, b];
            Feed(FRESH, 1, data) == Parsed([[b]], Some(FRESH)) && Chunk(FRESH, 1, data) == NOTHING
  {
    var data := [DIGIT0, COLON, DIGIT0 + 1, COLON, b];
    var one := [DIGIT0 + 1, COLON, b];
    assert data[1..] == [COLON] + one && data[1..][1..] == one;
    var z := Parser([DIGIT0], 0, []);
    assert Byte(FRESH, 1, DIGIT0) == Quiet(z) by { assert [] + [DIGIT0] == [DIGIT0]; }
    assert Value(z.digits) == 0;
    assert Byte(z, 1, COLON) == ZeroLength;
    OneByteFrame(b);
  }

  lemma {:induction false} OneByteFrame(b: byte)
    ensures Feed(FRESH, 1, [DIGIT0 + 1, COLON, b]) == Parsed([[b]], Some(FRESH))
  {
    var data := [DIGIT0 + 1, COLON, b];
    var d := Parser([DIGIT0 + 1], 0, []);
    assert Byte(FRESH, 1, data[0]) == Quiet(d) by { assert [] + [DIGIT0 + 1] == [DIGIT0 + 1]; }
    assert data[1..] == [COLON, b] && data[1..][1..] == [b] && data[1..][1..][1..] == [];
    assert Value(d.digits) == 1;
    assert Byte(d, 1, COLON) == Quiet(Parser([], 1, []));
    assert Byte(Parser([], 1, []), 1, b) == Got([b]) by { assert [] + [b] == [b]; }
    assert Feed(FRESH, 1, []) == NOTHING;
    assert Feed(Parser([], 1, []), 1, [b]) == Prepend([[b]], NOTHING);
    assert Feed(d, 1, [COLON, b]) == Feed(Parser([], 1, []), 1, [b]);
  }

  // ---------------------------------------------------------------------------------------------
  // Round trip
  // ---------------------------------------------------------------------------------------------

  function Encode(frame: Bytes): Bytes {
    Decimal(|frame|) + [COLON] + frame
  }

  function EncodeAll(frames: seq<Bytes>): Bytes {
    if frames == [] then [] else Encode(frames[0]) + EncodeAll(frames[1..])
  }

  /** The size check made before a frame is sent. */
  predicate SenderAccepts(frame: Bytes, max: nat) {
    |Encode(frame)| <= max
  }

  lemma {:induction false} DecimalIs(n: nat)
    ensures forall i :: 0 <= i < |Decimal(n)| ==> IsDigit(Decimal(n)[i])
    ensures Value(Decimal(n)) == n && |Decimal(n)| > 0
    ensures n > 0 ==> Decimal(n)[0] != DIGIT0
  {
    if n >= 10 {
      DecimalIs(n / 10);
      assert Decimal(n)[..|Decimal(n)| - 1] == Decimal(n / 10);
    } else {
      assert Decimal(n)[..0] == [];
    }
  }

  function Pow10(k: nat): nat {
    if k == 0 then 1 else 10 * Pow10(k - 1)
  }

  lemma {:induction false} DecimalLength(n: nat, k: nat)
    requires 0 < k && n < Pow10(k)
    ensures |Decimal(n)| <= k
  {
    if n >= 10 {
      DecimalLength(n / 10, k - 1);
    }
  }

  lemma {:induction false} LimitDigits(n: nat)
    requires n < LIMIT
    ensures |Decimal(n)| <= 9
  {
    assert Pow10(3) == 1000;
    assert Pow10(6) == 1000 * Pow10(3);
    assert Pow10(9) == 1000 * Pow10(6);
    DecimalLength(n, 9);
  }

  /** Digits are accumulated as they are. */
  lemma {:induction false} FeedDigits(digits: Bytes, max: nat, more: Bytes, rest: Bytes)
    requires Parser(digits, 0, []).Valid(max) && |digits| + |more| <= MAX_PREFIX
    requires forall i :: 0 <= i < |more| ==> IsDigit(more[i])
    ensures Parser(digits + more, 0, []).Valid(max)
    ensures Feed(Parser(digits, 0, []), max, more + rest) == Feed(Parser(digits + more, 0, []), max, rest)
    ensures AfterZero(Parser(digits, 0, []), max, more + rest) == AfterZero(Parser(digits + more, 0, []), max, rest)
    decreases |more|
  {
    if more == [] {
      assert more + rest == rest && digits + more == digits;
    } else {
      assert (more + rest)[0] == more[0] && (more + rest)[1..] == more[1..] + rest;
      assert digits + [more[0]] + more[1..] == digits + more;
      assert IsDigit(more[0]);
      FeedDigits(digits + [more[0]], max, more[1..], rest);
    }
  }

  lemma {:induction false} FeedBody(p: Parser, max: nat, body: Bytes, rest: Bytes)
    requires p.Valid(max) && p.len > 0 && |p.buf| + |body| == p.len
    ensures Feed(p, max, body + rest) == Prepend([p.buf + body], Feed(FRESH, max, rest))
    ensures AfterZero(p, max, body + rest) == AfterZero(FRESH, max, rest)
    decreases |body|
  {
    assert (body + rest)[0] == body[0] && (body + rest)[1..] == body[1..] + rest;
    if |body| == 1 {
      assert body == [body[0]] && body[1..] + rest == rest;
    } else {
      var p' := p.(buf := p.buf + [body[0]]);
      FeedBody(p', max, body[1..], rest);
      assert p'.buf + body[1..] == p.buf + body;
    }
  }

  /** One encoded frame comes out as itself, and leaves nothing behind. */
  lemma {:induction false} FeedFrame(max: nat, frame: Bytes, rest: Bytes)
    requires 0 < |frame| <= max < LIMIT
    ensures Feed(FRESH, max, Encode(frame) + rest) == Prepend([frame], Feed(FRESH, max, rest))
    ensures AfterZero(FRESH, max, Encode(frame) + rest) == AfterZero(FRESH, max, rest)
  {
    var digits := Decimal(|frame|);
    var tail := [COLON] + (frame + rest);
    DecimalIs(|frame|);
    LimitDigits(|frame|);
    assert Encode(frame) + rest == digits + tail;
    FeedDigits([], max, digits, tail);
    assert [] + digits == digits;
    var p := Parser(digits, 0, []);
    assert Byte(p, max, COLON) == Quiet(Parser([], |frame|, []));
    assert tail[0] == COLON && tail[1..] == frame + rest;
    FeedBody(Parser([], |frame|, []), max, frame, rest);
    assert [] + frame == frame;
  }

  predicate Sendable(frames: seq<Bytes>, max: nat) {
    forall i :: 0 <= i < |frames| ==> 0 < |frames[i]| <= max
  }

  lemma {:induction false} FeedAll(max: nat, frames: seq<Bytes>, rest: Bytes)
    requires Sendable(frames, max) && max < LIMIT
    ensures Feed(FRESH, max, EncodeAll(frames) + rest) == Prepend(frames, Feed(FRESH, max, rest))
    ensures AfterZero(FRESH, max, EncodeAll(frames) + rest) == AfterZero(FRESH, max, rest)
    decreases |frames|
  {
    hide Feed, AfterZero, Encode;
    if frames == [] {
      assert EncodeAll(frames) + rest == rest;
    } else {
      var tail := EncodeAll(frames[1..]) + rest;
      assert EncodeAll(frames) + rest == Encode(frames[0]) + tail;
      FeedFrame(max, frames[0], tail);
      FeedAll(max, frames[1..], rest);
      assert [frames[0]] + frames[1..] == frames;
    }
  }

  /** The chunks of a stream, taken one after another until one is refused. */
  function Chunks(p: Parser, max: nat, chunks: seq<Bytes>): Parsed
    requires p.Valid(max)
    decreases |chunks|
  {
    if chunks == [] then Parsed([], Some(p))
    else
      var r := Chunk(p, max, chunks[0]);
      ChunkEndValid(p, max, chunks[0]);
      if r.end.None? then r else Prepend(r.frames, Chunks(r.end.value, max, chunks[1..]))
  }

  lemma {:induction false} ChunkEndValid(p: Parser, max: nat, data: Bytes)
    requires p.Valid(max)
    ensures Chunk(p, max, data).end.Some? ==> Chunk(p, max, data).end.value.Valid(max)
    decreases |data|
  {
    if data != [] {
      var o := Byte(p, max, data[0]);
      if o.Quiet? {
        ChunkEndValid(o.p, max, data[1..]);
      } else if o.Got? {
        ChunkEndValid(FRESH, max, data[1..]);
      }
    }
  }

  lemma {:induction false} AfterZeroConcat(p: Parser, max: nat, a: Bytes, b: Bytes)
    requires p.Valid(max) && AfterZero(p, max, a + b).None?
    ensures AfterZero(p, max, a).None?
    ensures Feed(p, max, a).end.Some? ==>
              Feed(p, max, a).end.value.Valid(max) && AfterZero(Feed(p, max, a).end.value, max, b).None?
    decreases |a|
  {
    FeedEndValid(p, max, a);
    if a == [] {
      assert a + b == b;
    } else {
      assert (a + b)[0] == a[0] && (a + b)[1..] == a[1..] + b;
      var o := Byte(p, max, a[0]);
      if o.Quiet? {
        AfterZeroConcat(o.p, max, a[1..], b);
      } else if o.Got? {
        AfterZeroConcat(FRESH, max, a[1..], b);
      }
    }
  }

  /** Input without zero-length frames is parsed the same however it is cut. */
  lemma {:induction false} ChunksAgree(p: Parser, max: nat, chunks: seq<Bytes>)
    requires p.Valid(max) && AfterZero(p, max, Flatten(chunks)).None?
    ensures Chunks(p, max, chunks) == Feed(p, max, Flatten(chunks))
    decreases |chunks|
  {
    if chunks != [] {
      var a, b := chunks[0], Flatten(chunks[1..]);
      AfterZeroConcat(p, max, a, b);
      ChunkAgrees(p, max, a);
      FeedConcat(p, max, a, b);
      var r := Feed(p, max, a);
      if r.end.Some? {
        ChunksAgree(r.end.value, max, chunks[1..]);
      }
    }
  }

  /**
   * Any list of non-empty frames within the limit, encoded and cut into chunks anywhere, is delivered
   * as exactly that list, with nothing left over.
   */
  lemma {:induction false} RoundTrip(max: nat, frames: seq<Bytes>, chunks: seq<Bytes>)
    requires Sendable(frames, max) && max < LIMIT && Flatten(chunks) == EncodeAll(frames)
    ensures Chunks(FRESH, max, chunks) == Parsed(frames, Some(FRESH))
  {
    FeedAll(max, frames, []);
    assert EncodeAll(frames) + [] == EncodeAll(frames);
    assert frames + [] == frames;
    ChunksAgree(FRESH, max, chunks);
  }

  /** A frame that passes the sender's size check passes the receiver's, under the same limit. */
  lemma {:induction false} SenderFitsReceiver(max: nat, frame: Bytes)
    requires max < LIMIT && SenderAccepts(frame, max) && frame != []
    ensures Chunk(FRESH, max, Encode(frame)) == Parsed([frame], Some(FRESH))
  {
    FlattenOne(Encode(frame));
    assert EncodeAll([frame]) == Encode(frame) by {
      assert [frame][1..] == [];
      assert Encode(frame) + [] == Encode(frame);
    }
    RoundTrip(max, [frame], [Encode(frame)]);
    var r := Chunk(FRESH, max, Encode(frame));
    assert [Encode(frame)][1..] == [];
    assert r.end.Some? ==> Prepend(r.frames, Parsed([], r.end)) == r;
  }

  lemma {:induction false} DecimalExactly(n: nat, k: nat)
    requires 0 < k && n < Pow10(k) && (k == 1 || Pow10(k - 1) <= n)
    ensures |Decimal(n)| == k
  {
    if n >= 10 {
      DecimalExactly(n / 10, k - 1);
    }
  }

  /** The size check counts the frame, the colon and the digits of its length, k of them. */
  lemma {:induction false} SenderTakes(frame: Bytes, max: nat, k: nat)
    requires 0 < k && |frame| < Pow10(k) && (k == 1 || Pow10(k - 1) <= |frame|)
    ensures SenderAccepts(frame, max) <==> |frame| + 1 + k <= max
  {
    DecimalExactly(|frame|, k);
  }
}
