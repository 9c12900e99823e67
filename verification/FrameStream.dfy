/**
 * A request stream from end to end: frames handed to the send buffer whole, written and acknowledged
 * in arbitrary pieces, some of them withdrawn again, and the bytes parsed at the other side.
 */
module FrameStream {
  import opened Common
  import opened Framing
  import S = StreamSending

  /** How many frames lie whole within the first n bytes of their encoding. */
  function WholeFrames(frames: seq<Bytes>, n: nat): (k: nat)
    ensures k <= |frames|
    decreases |frames|
  {
    if frames == [] || n < |Encode(frames[0])| then 0
    else 1 + WholeFrames(frames[1..], n - |Encode(frames[0])|)
  }

  /** Part of an encoded frame is no frame, and is not refused. */
  lemma {:induction false} FeedPartFrame(max: nat, frame: Bytes, n: nat)
    requires 0 < |frame| <= max < LIMIT && n < |Encode(frame)|
    ensures var r := Feed(FRESH, max, Encode(frame)[..n]);
            r.frames == [] && r.end.Some? && r.end.value.Valid(max)
  {
    hide Decimal, AfterZero;
    var digits := Decimal(|frame|);
    var data := Encode(frame)[..n];
    DecimalIs(|frame|);
    LimitDigits(|frame|);
    FeedEndValid(FRESH, max, data);
    if n <= |digits| {
      var part := digits[..n];
      assert data == part + [] && [] + part == part;
      FeedDigits([], max, part, []);
      assert Feed(Parser(part, 0, []), max, []) == Parsed([], Some(Parser(part, 0, [])));
    } else {
      var body := frame[..n - |digits| - 1];
      var tail := [COLON] + body;
      assert data == digits + tail && [] + digits == digits;
      FeedDigits([], max, digits, tail);
      assert Byte(Parser(digits, 0, []), max, COLON) == Quiet(Parser([], |frame|, []));
      assert tail[0] == COLON && tail[1..] == body;
      FeedPartBody(Parser([], |frame|, []), max, body);
    }
  }

  lemma {:induction false} FeedPartBody(p: Parser, max: nat, body: Bytes)
    requires p.Valid(max) && p.len > 0 && |p.buf| + |body| < p.len
    ensures Feed(p, max, body) == Parsed([], Some(p.(buf := p.buf + body)))
    decreases |body|
  {
    if body == [] {
      assert p.buf + body == p.buf;
    } else {
      var p' := p.(buf := p.buf + [body[0]]);
      FeedPartBody(p', max, body[1..]);
      assert p'.buf + body[1..] == p.buf + body;
    }
  }

  /** From any prefix of encoded frames the parser delivers exactly those that are whole in it. */
  lemma {:induction false} FeedPrefix(max: nat, frames: seq<Bytes>, n: nat)
    requires Sendable(frames, max) && max < LIMIT && n <= |EncodeAll(frames)|
    ensures var r := Feed(FRESH, max, EncodeAll(frames)[..n]);
            && r.frames == frames[..WholeFrames(frames, n)]
            && r.end.Some? && r.end.value.Valid(max)
            && (n == |EncodeAll(frames)| ==> WholeFrames(frames, n) == |frames| && r.end == Some(FRESH))
    ensures AfterZero(FRESH, max, EncodeAll(frames)[..n]).None?
    decreases |frames|
  {
    hide Feed, AfterZero, Encode;
    NoZeroFrames(max, frames, n);
    FeedEndValid(FRESH, max, EncodeAll(frames)[..n]);
    if frames == [] {
      FeedEmpty(max);
      assert EncodeAll(frames)[..n] == [];
    } else {
      var f, all := Encode(frames[0]), EncodeAll(frames);
      if n < |f| {
        assert all[..n] == f[..n];
        FeedPartFrame(max, frames[0], n);
      } else {
        assert all[..n] == f + EncodeAll(frames[1..])[..n - |f|];
        FeedFrame(max, frames[0], EncodeAll(frames[1..])[..n - |f|]);
        FeedPrefix(max, frames[1..], n - |f|);
        var k := WholeFrames(frames[1..], n - |f|);
        assert [frames[0]] + frames[1..][..k] == frames[..k + 1];
      }
    }
  }

  lemma {:induction false} FeedEmpty(max: nat)
    ensures Feed(FRESH, max, []) == Parsed([], Some(FRESH))
  {
  }

  lemma {:induction false} NoZeroFrames(max: nat, frames: seq<Bytes>, n: nat)
    requires Sendable(frames, max) && max < LIMIT && n <= |EncodeAll(frames)|
    ensures AfterZero(FRESH, max, EncodeAll(frames)[..n]).None?
  {
    var all := EncodeAll(frames);
    FeedAll(max, frames, []);
    assert all + [] == all && all[..n] + all[n..] == all;
    AfterZeroConcat(FRESH, max, all[..n], all[n..]);
  }

  // ---------------------------------------------------------------------------------------------
  // The stream
  // ---------------------------------------------------------------------------------------------

  /** Every buffer kept is one encoded frame. */
  ghost predicate Carries(kept: seq<S.Buffer>, frames: seq<Bytes>) {
    |kept| == |frames| && forall i :: 0 <= i < |kept| ==> kept[i].data == Encode(frames[i])
  }

  lemma {:induction false} CarriesContent(kept: seq<S.Buffer>, frames: seq<Bytes>)
    requires Carries(kept, frames)
    ensures S.Content(kept) == EncodeAll(frames)
    decreases |kept|
  {
    S.ContentFirst(kept);
    if kept != [] {
      CarriesContent(kept[1..], frames[1..]);
    }
  }

  /** The frame a step adds or takes away; `frames` are those the buffers carry before it. */
  ghost function FramesAfter(s: S.Sending, a: S.Action, frames: seq<Bytes>, sent: seq<Bytes>): seq<Bytes>
    requires |frames| == |s.kept|
  {
    if a.DoAppend? && S.Accepts(s, a.b) then frames + sent
    else if a.DoWithdraw? && S.Withdrawable(s, a.keepAlive).Some? then
      var i := S.Withdrawable(s, a.keepAlive).value;
      frames[..i] + frames[i + 1..]
    else frames
  }

  /** A step that sends whole frames within the limit (f, if it sends one), and reverts nothing. */
  ghost predicate FrameStep(s: S.Sending, a: S.Action, frames: seq<Bytes>, f: Bytes, max: nat, frames': seq<Bytes>) {
    && !a.DoRevert?
    && (a.DoAppend? ==> a.b.data == Encode(f) && f != [] && SenderAccepts(f, max))
    && |frames| == |s.kept|
    && frames' == FramesAfter(s, a, frames, [f])
  }

  /** A run of such steps: action i sends sends[i], if it sends, and frames[i] are carried before it. */
  ghost predicate FrameRun(states: seq<S.Sending>, actions: seq<S.Action>, sends: seq<Bytes>, frames: seq<seq<Bytes>>,
                           max: nat)
  {
    && S.IsRun(states, actions) && |sends| == |actions|
    && |frames| == |states| && frames[0] == []
    && forall i :: 0 <= i < |actions| ==>
         FrameStep(states[i], actions[i], frames[i], sends[i], max, frames[i + 1])
  }

  lemma {:induction false} FrameRunCarries(states: seq<S.Sending>, actions: seq<S.Action>, sends: seq<Bytes>,
                                           frames: seq<seq<Bytes>>, max: nat, n: nat)
    requires FrameRun(states, actions, sends, frames, max) && n <= |actions|
    ensures n < |states| == |frames|
    ensures states[n].Valid() && Carries(states[n].kept, frames[n]) && Sendable(frames[n], max)
  {
    hide FrameStep, S.Step, S.Possible, Carries, Sendable;
    S.Conservation(states, actions, n);
    if n == 0 {
      NothingCarried(max);
    } else {
      var i := n - 1;
      FrameRunCarries(states, actions, sends, frames, max, i);
      assert FrameStep(states[i], actions[i], frames[i], sends[i], max, frames[i + 1]);
      assert states[i + 1] == S.Step(states[i], actions[i]);
      StepCarries(states[i], actions[i], frames[i], sends[i], max, frames[i + 1]);
    }
  }

  lemma {:induction false} NothingCarried(max: nat)
    ensures Carries([], []) && Sendable([], max)
  {
  }

  lemma {:induction false} StepCarries(s: S.Sending, a: S.Action, frames: seq<Bytes>, f: Bytes, max: nat,
                                       frames': seq<Bytes>)
    requires s.Valid() && Carries(s.kept, frames) && Sendable(frames, max) && FrameStep(s, a, frames, f, max, frames')
    ensures Carries(S.Step(s, a).kept, frames') && Sendable(frames', max)
  {
    hide Encode, SenderAccepts;
    if a.DoAppend? {
      AcceptedFits(f, max);
    }
  }

  lemma {:induction false} AcceptedFits(f: Bytes, max: nat)
    requires SenderAccepts(f, max)
    ensures |f| <= max
  {
  }

  /**
   * No torn frames: whatever is written, acknowledged and withdrawn in between, the bytes on the wire
   * are a prefix of the encodings of the frames not withdrawn; so a receiver with the same limit,
   * taking them in chunks cut anywhere, gets exactly those frames that are whole on the wire, in order,
   * and all of them with nothing left over once everything is written.
   */
  lemma {:induction false} NoTornFrames(states: seq<S.Sending>, actions: seq<S.Action>, sends: seq<Bytes>,
                                        frames: seq<seq<Bytes>>, max: nat, chunks: seq<Bytes>)
    requires FrameRun(states, actions, sends, frames, max) && max < LIMIT
    requires states[|actions|].Valid() && Flatten(chunks) == states[|actions|].Wire()
    ensures var s, kept := states[|actions|], frames[|actions|];
            var r := Chunks(FRESH, max, chunks);
            && s.Wire() <= EncodeAll(kept)
            && r.end.Some? && r.frames == kept[..WholeFrames(kept, s.written)]
            && (s.Unsent() == [] ==> r == Parsed(kept, Some(FRESH)))
  {
    hide EncodeAll, Feed, AfterZero, WholeFrames, FrameRun;
    FrameRunCarries(states, actions, sends, frames, max, |actions|);
    var s, kept := states[|actions|], frames[|actions|];
    CarriesContent(s.kept, kept);
    FeedPrefix(max, kept, s.written);
    ChunksAgree(FRESH, max, chunks);
    assert kept[..|kept|] == kept;
  }
}
