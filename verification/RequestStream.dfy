/**
 * Requests over a stream: a request taken up is queued on the stream as one frame, and one that times out is
 * withdrawn again if none of it has been written.
 */
module RequestStream {
  import opened Common
  import opened Framing
  import opened FrameStream
  import R = Requests
  import S = StreamSending

  /**
   * `carried` are the frames in the stream's buffers.  `refused` are the requests taken up once the stream was
   * closing or its end announced, whose frames were not queued; `withdrawn` are those whose frames were taken off.
   */
  datatype State = State(reqs: R.State, send: S.Sending, carried: seq<Bytes>, refused: set<nat>, withdrawn: set<nat>)

  const INITIAL := State(R.INITIAL, S.NOTHING_SENT, [], {}, {})

  /** What the frame of each request is. */
  type Frames = nat -> Bytes

  /** Which requests are to be withdrawn if they time out unsent. */
  type Wishes = nat -> bool

  ghost predicate Allowed(frameOf: Frames, max: nat) {
    forall id: nat :: frameOf(id) != [] && SenderAccepts(frameOf(id), max)
  }

  ghost predicate Fine(s: State) {
    s.send.Valid() && |s.carried| == |s.send.kept|
  }

  /** An action on the stream; f is the frame that it queues, if it does. */
  ghost function Apply(s: State, a: S.Action, f: Bytes): State
    requires Fine(s)
  {
    s.(send := S.Step(s.send, a), carried := FramesAfter(s.send, a, s.carried, [f]))
  }

  lemma {:induction false} WithdrawFine(s: State, keepAlive: nat)
    requires Fine(s)
    ensures Fine(Apply(s, S.DoWithdraw(keepAlive), []))
  {
    S.WithdrawIs(s.send, keepAlive);
  }

  /** The buffer of a request can be told by its ID. */
  function KeepAlive(id: nat): nat {
    id + 1
  }

  /** Takes the frame of a request off the stream, if none of it has been written. */
  ghost function WithdrawOne(s: State, id: nat): State
    requires Fine(s)
  {
    var t := Apply(s, S.DoWithdraw(KeepAlive(id)), []);
    if S.Withdrawable(s.send, KeepAlive(id)).Some? then t.(withdrawn := s.withdrawn + {id}) else t
  }

  ghost function WithdrawAll(s: State, es: seq<R.Expiry>, wishes: Wishes): State
    requires Fine(s)
    decreases |es|
  {
    if es == [] then s
    else if !wishes(es[0].id) then WithdrawAll(s, es[1..], wishes)
    else
      WithdrawFine(s, KeepAlive(es[0].id));
      WithdrawAll(WithdrawOne(s, es[0].id), es[1..], wishes)
  }

  datatype Event =
    | DoIssue(expiry: int)
    | DoTakeUp(k: nat)
    | DoReply(id: nat)
    | DoFire(now: int)
    | DoClose
    | DoClosed
    | DoStream(action: S.Action, frame: Bytes)

  /** The stream is also used for responses, written, acknowledged and ended, all without touching requests. */
  ghost predicate Possible(s: State, e: Event, max: nat)
    requires Fine(s)
  {
    match e
    case DoTakeUp(k) => k < |s.reqs.jobs|
    case DoFire(now) => R.Possible(s.reqs, R.DoFire(now))
    case DoStream(a, f) =>
      && !a.DoWithdraw? && !a.DoRevert? && S.Possible(s.send, a)
      && (a.DoAppend? ==> a.b == S.Buffer(Encode(f), 0) && f != [] && SenderAccepts(f, max))
    case _ => true
  }

  ghost function TakeUp(s: State, k: nat, frameOf: Frames): State
    requires Fine(s) && k < |s.reqs.jobs|
  {
    var id := s.reqs.jobs[k].id;
    var s1 := s.(reqs := R.TakeUp(s.reqs, k));
    var b := S.Buffer(Encode(frameOf(id)), KeepAlive(id));
    if s.reqs.closing || !S.Accepts(s.send, b) then s1.(refused := s.refused + {id})
    else Apply(s1, S.DoAppend(b), frameOf(id))
  }

  function Due(s: State, now: int): seq<R.Expiry> {
    s.reqs.expiries[..R.DueCount(s.reqs.expiries, Some(now))]
  }

  /** Each expired request is withdrawn, as far as it can and is to be, and answered. */
  ghost function Fire(s: State, now: int, wishes: Wishes): State
    requires Fine(s)
  {
    WithdrawAll(s, Due(s, now), wishes).(reqs := R.Fire(s.reqs, now))
  }

  ghost function Step(s: State, e: Event, frameOf: Frames, wishes: Wishes, max: nat): State
    requires Fine(s) && Possible(s, e, max)
  {
    match e
    case DoIssue(expiry) => s.(reqs := R.Issue(s.reqs, expiry))
    case DoTakeUp(k) => TakeUp(s, k, frameOf)
    case DoReply(id) => s.(reqs := R.Reply(s.reqs, id))
    case DoFire(now) => Fire(s, now, wishes)
    case DoClose => s.(reqs := s.reqs.(closing := true))
    case DoClosed => s.(reqs := R.Closed(s.reqs))
    case DoStream(a, f) => Apply(s, a, f)
  }

  // ---------------------------------------------------------------------------------------------
  // The invariant
  // ---------------------------------------------------------------------------------------------

  /** A buffer of the stream is that of the request. */
  ghost predicate Queued(kept: seq<S.Buffer>, id: nat) {
    exists i :: 0 <= i < |kept| && kept[i].keepAlive == KeepAlive(id)
  }

  ghost predicate TimedOut(log: seq<R.Answered>, id: nat) {
    R.Answered(id, R.TimedOut) in log
  }

  /** No two buffers are those of the same request, and each carries the frame of its request. */
  ghost predicate Labelled(kept: seq<S.Buffer>, carried: seq<Bytes>, frameOf: Frames) {
    && |carried| == |kept|
    && (forall i, j :: 0 <= i < j < |kept| && kept[i].keepAlive > 0 ==> kept[i].keepAlive != kept[j].keepAlive)
    && (forall i :: 0 <= i < |kept| && kept[i].keepAlive > 0 ==> carried[i] == frameOf(kept[i].keepAlive - 1))
  }

  /** A request issued is in one place: waiting to be taken up, refused, withdrawn, or on the stream. */
  ghost predicate Placed(s: State, id: nat) {
    && (Queued(s.send.kept, id) <==>
          id < s.reqs.next && id !in R.JobIds(s.reqs.jobs) && id !in s.refused && id !in s.withdrawn)
    && (id in s.refused ==> id < s.reqs.next && id !in R.JobIds(s.reqs.jobs) && id !in s.withdrawn)
    && (id in s.withdrawn ==> id < s.reqs.next && id !in R.JobIds(s.reqs.jobs))
  }

  /** What holds of the stream whatever has been answered. */
  ghost predicate Steady(s: State, frameOf: Frames, max: nat) {
    && Fine(s) && Carries(s.send.kept, s.carried) && Sendable(s.carried, max)
    && Labelled(s.send.kept, s.carried, frameOf)
    && forall id: nat :: Placed(s, id)
  }

  /** Only a request that is to be withdrawn is, and its caller has been told that it failed. */
  ghost predicate Told(s: State, wishes: Wishes) {
    forall id: nat :: id in s.withdrawn ==> wishes(id) && TimedOut(s.reqs.log, id)
  }

  ghost predicate Inv(s: State, frameOf: Frames, wishes: Wishes, max: nat) {
    R.Inv(s.reqs) && Steady(s, frameOf, max) && Told(s, wishes)
  }

  // ---------------------------------------------------------------------------------------------
  // Actions on the stream
  // ---------------------------------------------------------------------------------------------

  /** An action on the stream keeps what it carries to whole frames within the limit. */
  lemma {:induction false} ApplyFine(s: State, a: S.Action, f: Bytes, max: nat)
    requires Fine(s) && Carries(s.send.kept, s.carried) && Sendable(s.carried, max)
    requires S.Possible(s.send, a) && !a.DoRevert?
    requires a.DoAppend? ==> a.b.data == Encode(f) && f != [] && SenderAccepts(f, max)
    ensures var t := Apply(s, a, f);
            Fine(t) && Carries(t.send.kept, t.carried) && Sendable(t.carried, max)
  {
    hide S.Step, S.Possible, FramesAfter, Carries, Sendable;
    var t := Apply(s, a, f);
    S.StepValid(s.send, a);
    StepCarries(s.send, a, s.carried, f, max, t.carried);
    SameLength(t.send.kept, t.carried);
  }

  lemma {:induction false} SameLength(kept: seq<S.Buffer>, frames: seq<Bytes>)
    requires Carries(kept, frames)
    ensures |kept| == |frames|
  {
  }

  /** Writing, acknowledging and ending leave the buffers alone. */
  lemma {:induction false} BuffersStay(s: State, a: S.Action, f: Bytes)
    requires Fine(s) && S.Possible(s.send, a) && !a.DoAppend? && !a.DoWithdraw?
    ensures var t := Apply(s, a, f);
            t.send.kept == s.send.kept && t.carried == s.carried
  {
  }

  /** A buffer appended is that of a request the stream did not hold, or of none. */
  lemma {:induction false} AppendLabels(s: State, b: S.Buffer, f: Bytes, frameOf: Frames)
    requires Fine(s) && Labelled(s.send.kept, s.carried, frameOf)
    requires b.keepAlive > 0 ==> !Queued(s.send.kept, b.keepAlive - 1) && f == frameOf(b.keepAlive - 1)
    ensures var t := Apply(s, S.DoAppend(b), f);
            && Labelled(t.send.kept, t.carried, frameOf)
            && forall id: nat :: Queued(t.send.kept, id) <==>
                 Queued(s.send.kept, id) || (S.Accepts(s.send, b) && b.keepAlive == KeepAlive(id))
  {
    hide Labelled, Queued;
    if S.Accepts(s.send, b) {
      PutLast(s.send.kept, s.carried, b, f, frameOf);
    }
  }

  lemma {:induction false} PutLast(kept: seq<S.Buffer>, carried: seq<Bytes>, b: S.Buffer, f: Bytes, frameOf: Frames)
    requires Labelled(kept, carried, frameOf)
    requires b.keepAlive > 0 ==> !Queued(kept, b.keepAlive - 1) && f == frameOf(b.keepAlive - 1)
    ensures Labelled(kept + [b], carried + [f], frameOf)
    ensures forall id: nat :: Queued(kept + [b], id) <==> Queued(kept, id) || b.keepAlive == KeepAlive(id)
  {
    var kept' := kept + [b];
    forall id: nat | Queued(kept, id) || b.keepAlive == KeepAlive(id)
      ensures Queued(kept', id)
    {
      if Queued(kept, id) {
        var i :| 0 <= i < |kept| && kept[i].keepAlive == KeepAlive(id);
        assert kept'[i].keepAlive == KeepAlive(id);
      } else {
        assert kept'[|kept|].keepAlive == KeepAlive(id);
      }
    }
    forall i | 0 <= i < |kept| && kept[i].keepAlive > 0
      ensures kept[i].keepAlive != b.keepAlive
    {
      assert kept[i].keepAlive == KeepAlive(kept[i].keepAlive - 1);
    }
  }

  /** Withdrawing takes the one buffer of the request, if it takes any. */
  lemma {:induction false} WithdrawLabels(s: State, id: nat, frameOf: Frames)
    requires Fine(s) && Labelled(s.send.kept, s.carried, frameOf)
    ensures var t, w := Apply(s, S.DoWithdraw(KeepAlive(id)), []), S.Withdrawable(s.send, KeepAlive(id));
            && Labelled(t.send.kept, t.carried, frameOf)
            && (w.Some? ==> Queued(s.send.kept, id))
            && forall x: nat :: Queued(t.send.kept, x) <==> Queued(s.send.kept, x) && !(w.Some? && x == id)
  {
    hide S.FirstBeyond, S.Find, S.Content;
    var w := S.Withdrawable(s.send, KeepAlive(id));
    if w.Some? {
      S.FindInRange(s.send.kept, S.FirstBeyond(s.send.kept, s.send.written), KeepAlive(id));
      TakenOut(s.send.kept, s.carried, w.value, id, frameOf);
    }
  }

  lemma {:induction false} TakenOut(kept: seq<S.Buffer>, carried: seq<Bytes>, w: nat, id: nat, frameOf: Frames)
    requires Labelled(kept, carried, frameOf) && w < |kept| && kept[w].keepAlive == KeepAlive(id)
    ensures var kept', carried' := Without(kept, w), carried[..w] + carried[w + 1..];
            && Labelled(kept', carried', frameOf)
            && forall x: nat :: Queued(kept', x) <==> Queued(kept, x) && x != id
  {
    var kept', carried' := Without(kept, w), carried[..w] + carried[w + 1..];
    forall j | 0 <= j < |kept'|
      ensures var i := if j < w then j else j + 1;
              kept'[j] == kept[i] && carried'[j] == carried[i]
    {
    }
    forall x: nat | Queued(kept, x) && x != id
      ensures Queued(kept', x)
    {
      var i :| 0 <= i < |kept| && kept[i].keepAlive == KeepAlive(x);
      assert kept'[if i < w then i else i - 1] == kept[i];
    }
  }

  lemma {:induction false} FineLength(s: State)
    requires Fine(s)
    ensures |s.carried| == |s.send.kept| && s.send.Valid()
  {
  }

  lemma {:induction false} WithdrawPossible(s: State, keepAlive: nat)
    requires s.send.Valid()
    ensures S.Possible(s.send, S.DoWithdraw(keepAlive))
  {
  }

  lemma {:induction false} WithdrawOneIs(s: State, id: nat, frameOf: Frames, max: nat)
    requires Steady(s, frameOf, max)
    ensures var t := WithdrawOne(s, id);
            Steady(t, frameOf, max) && t.reqs == s.reqs && t.withdrawn <= s.withdrawn + {id}
  {
    hide S.Step, S.Possible, FramesAfter, Carries, Sendable, Queued, Labelled, Fine, S.Withdrawable, R.JobIds, Encode,
        SenderAccepts;
    FineLength(s);
    var a := S.DoWithdraw(KeepAlive(id));
    WithdrawPossible(s, a.keepAlive);
    ApplyFine(s, a, [], max);
    WithdrawLabels(s, id, frameOf);
    var t := WithdrawOne(s, id);
    FineSame(Apply(s, a, []), t);
    forall x: nat
      ensures Placed(t, x)
    {
      assert Placed(s, x);
    }
  }

  ghost predicate Among(es: seq<R.Expiry>, id: nat) {
    exists k :: 0 <= k < |es| && es[k].id == id
  }

  lemma {:induction false} WithdrawAllIs(s: State, es: seq<R.Expiry>, frameOf: Frames, wishes: Wishes, max: nat)
    requires Steady(s, frameOf, max)
    ensures var t := WithdrawAll(s, es, wishes);
            && Steady(t, frameOf, max) && t.reqs == s.reqs
            && forall id: nat :: id in t.withdrawn ==> id in s.withdrawn || (wishes(id) && Among(es, id))
    decreases |es|
  {
    hide Carries, Sendable, Labelled, Fine, Placed, WithdrawOne;
    if es != [] {
      var s1 := if wishes(es[0].id) then WithdrawOne(s, es[0].id) else s;
      WithdrawOneIs(s, es[0].id, frameOf, max);
      WithdrawAllIs(s1, es[1..], frameOf, wishes, max);
      var t := WithdrawAll(s, es, wishes);
      assert t == WithdrawAll(s1, es[1..], wishes);
      forall id: nat | id in t.withdrawn && id !in s.withdrawn
        ensures wishes(id) && Among(es, id)
      {
        if id in s1.withdrawn {
          assert es[0].id == id;
        } else {
          var k :| 0 <= k < |es[1..]| && es[1..][k].id == id;
          assert es[k + 1].id == id;
        }
      }
    }
  }

  // ---------------------------------------------------------------------------------------------
  // Every event keeps the invariant
  // ---------------------------------------------------------------------------------------------

  /** Requests stay where they are when the log grows and neither jobs, refusals nor the stream change. */
  lemma {:induction false} ReqsInv(s: State, reqs: R.State, frameOf: Frames, wishes: Wishes, max: nat)
    requires Inv(s, frameOf, wishes, max) && R.Inv(reqs) && reqs.next == s.reqs.next && reqs.jobs == s.reqs.jobs
    requires s.reqs.log <= reqs.log
    ensures Inv(s.(reqs := reqs), frameOf, wishes, max)
  {
    hide R.Inv, R.JobIds, Queued, Carries, Sendable, Labelled, Fine;
    FineSame(s, s.(reqs := reqs));
    forall id: nat
      ensures Placed(s.(reqs := reqs), id)
    {
      assert Placed(s, id);
    }
  }

  lemma {:induction false} IssueInv(s: State, expiry: int, frameOf: Frames, wishes: Wishes, max: nat)
    requires Inv(s, frameOf, wishes, max)
    ensures Inv(s.(reqs := R.Issue(s.reqs, expiry)), frameOf, wishes, max)
  {
    hide R.Inv, R.JobIds, Queued, Carries, Sendable, Labelled, Fine;
    R.IssueInv(s.reqs, expiry);
    R.JobsAppend(s.reqs.jobs, R.Request(s.reqs.next, expiry, true));
    var t := s.(reqs := R.Issue(s.reqs, expiry));
    FineSame(s, t);
    forall id: nat
      ensures Placed(t, id)
    {
      assert Placed(s, id);
    }
  }

  lemma {:induction false} TakeUpInv(s: State, k: nat, frameOf: Frames, wishes: Wishes, max: nat)
    requires Inv(s, frameOf, wishes, max) && k < |s.reqs.jobs| && Allowed(frameOf, max)
    ensures Inv(TakeUp(s, k, frameOf), frameOf, wishes, max)
  {
    hide R.Inv, R.JobIds, Queued, Carries, Sendable, Labelled, Encode, Fine, S.Step, FramesAfter, R.TakeUp,
        SenderAccepts, S.Possible;
    FineLength(s);
    R.TakeUpInv(s.reqs, k);
    JobTaken(s.reqs, k);
    var id := s.reqs.jobs[k].id;
    var s1 := s.(reqs := R.TakeUp(s.reqs, k));
    FineSame(s, s1);
    var b := S.Buffer(Encode(frameOf(id)), KeepAlive(id));
    var t := TakeUp(s, k, frameOf);
    assert Placed(s, id);
    if !s.reqs.closing && S.Accepts(s.send, b) {
      AppendPossible(s1, b);
      ApplyFine(s1, S.DoAppend(b), frameOf(id), max);
      AppendLabels(s1, b, frameOf(id), frameOf);
    } else {
      FineSame(s, t);
    }
    forall x: nat
      ensures Placed(t, x)
    {
      assert Placed(s, x);
    }
  }

  lemma {:induction false} FineSame(s: State, t: State)
    requires Fine(s) && t.send == s.send && t.carried == s.carried
    ensures Fine(t)
  {
  }

  lemma {:induction false} AppendPossible(s: State, b: S.Buffer)
    requires s.send.Valid()
    ensures S.Possible(s.send, S.DoAppend(b))
  {
  }

  /** A command taken up was issued and leaves the queue. */
  lemma {:induction false} JobTaken(r: R.State, k: nat)
    requires R.Inv(r) && k < |r.jobs|
    ensures var t, id := R.TakeUp(r, k), r.jobs[k].id;
            && t.next == r.next && r.log <= t.log && id < r.next
            && R.JobIds(r.jobs) == R.JobIds(t.jobs) + {id} && id !in R.JobIds(t.jobs)
  {
    hide R.JobIds, R.Insert, R.Agree, R.LogIds, R.Issued;
    R.JobRemoved(r.jobs, k);
    R.IssuedIs(r.next, r.jobs[k].id);
  }

  lemma {:induction false} FireInv(s: State, now: int, frameOf: Frames, wishes: Wishes, max: nat)
    requires Inv(s, frameOf, wishes, max) && R.Possible(s.reqs, R.DoFire(now))
    ensures Inv(Fire(s, now, wishes), frameOf, wishes, max)
  {
    hide R.Inv, R.JobIds, Queued, Carries, Sendable, Labelled, WithdrawAll, R.Fire, R.DueCount, Fine, R.Possible;
    var due := Due(s, now);
    var s1 := WithdrawAll(s, due, wishes);
    var t := Fire(s, now, wishes);
    WithdrawAllIs(s, due, frameOf, wishes, max);
    FineSame(s1, t);
    FireAnswers(s, now);
    forall id: nat
      ensures Placed(t, id)
    {
      assert Placed(s1, id);
    }
  }

  /** Firing the timer answers all that are due as timed out. */
  lemma {:induction false} FireAnswers(s: State, now: int)
    requires R.Inv(s.reqs) && R.Possible(s.reqs, R.DoFire(now))
    ensures var r, due := R.Fire(s.reqs, now), Due(s, now);
            && R.Inv(r) && r.next == s.reqs.next && r.jobs == s.reqs.jobs && s.reqs.log <= r.log
            && forall id: nat :: Among(due, id) ==> TimedOut(r.log, id)
  {
    hide R.Inv, R.Expire, R.DueCount;
    R.FireInv(s.reqs, now);
    var r, due := R.Fire(s.reqs, now), Due(s, now);
    forall id: nat | Among(due, id)
      ensures TimedOut(r.log, id)
    {
      var k :| 0 <= k < |due| && due[k].id == id;
      assert r.log[|s.reqs.log| + k] == R.Timeouts(due)[k] == R.Answered(R.ExpiryId(due[k]), R.TimedOut);
    }
  }

  lemma {:induction false} StreamInv(s: State, a: S.Action, f: Bytes, frameOf: Frames, wishes: Wishes, max: nat)
    requires Inv(s, frameOf, wishes, max) && Fine(s) && Possible(s, DoStream(a, f), max)
    ensures Inv(Apply(s, a, f), frameOf, wishes, max)
  {
    hide R.Inv, R.JobIds, Queued, Carries, Sendable, Labelled, Encode, S.Step, FramesAfter, Fine, S.Possible;
    ApplyFine(s, a, f, max);
    var t := Apply(s, a, f);
    if a.DoAppend? {
      AppendLabels(s, a.b, f, frameOf);
    } else {
      BuffersStay(s, a, f);
    }
    forall id: nat
      ensures Placed(t, id)
    {
      assert Placed(s, id);
    }
  }

  lemma {:induction false} StepInv(s: State, e: Event, frameOf: Frames, wishes: Wishes, max: nat)
    requires Inv(s, frameOf, wishes, max) && Fine(s) && Possible(s, e, max) && Allowed(frameOf, max)
    ensures Inv(Step(s, e, frameOf, wishes, max), frameOf, wishes, max)
  {
    hide TakeUp, Fire, Apply, Steady, Told, R.Inv, R.Issue, R.Reply, R.Closed, Fine, Allowed;
    match e
    case DoIssue(expiry) => IssueInv(s, expiry, frameOf, wishes, max);
    case DoTakeUp(k) => TakeUpInv(s, k, frameOf, wishes, max);
    case DoReply(id) => ReplyLog(s.reqs, id); ReqsInv(s, R.Reply(s.reqs, id), frameOf, wishes, max);
    case DoFire(now) => FireInv(s, now, frameOf, wishes, max);
    case DoClose => R.CloseInv(s.reqs); ReqsInv(s, s.reqs.(closing := true), frameOf, wishes, max);
    case DoClosed => ClosedLog(s.reqs); ReqsInv(s, R.Closed(s.reqs), frameOf, wishes, max);
    case DoStream(a, f) => StreamInv(s, a, f, frameOf, wishes, max);
  }

  lemma {:induction false} ReplyLog(r: R.State, id: nat)
    requires R.Inv(r)
    ensures var t := R.Reply(r, id);
            R.Inv(t) && t.next == r.next && t.jobs == r.jobs && r.log <= t.log
  {
    R.ReplyInv(r, id);
    R.StepAnswers(r, R.DoReply(id));
  }

  lemma {:induction false} ClosedLog(r: R.State)
    requires R.Inv(r)
    ensures var t := R.Closed(r);
            R.Inv(t) && t.next == r.next && t.jobs == r.jobs && r.log <= t.log
  {
    R.ClosedInv(r);
  }

  // ---------------------------------------------------------------------------------------------
  // What is refused, and what is withdrawn
  // ---------------------------------------------------------------------------------------------

  /** A request taken up is refused exactly if the stream is closing or has been ended; else its frame is the last. */
  lemma {:induction false} RefusedExactly(s: State, k: nat, frameOf: Frames)
    requires Fine(s) && k < |s.reqs.jobs|
    ensures var t, id := TakeUp(s, k, frameOf), s.reqs.jobs[k].id;
            if s.reqs.closing || s.send.sendFin || s.send.sentFin
            then t.refused == s.refused + {id} && t.send == s.send && t.carried == s.carried
            else
              && t.refused == s.refused && t.carried == s.carried + [frameOf(id)]
              && t.send.kept == s.send.kept + [S.Buffer(Encode(frameOf(id)), KeepAlive(id))]
  {
    hide Decimal;
  }

  /** A buffer of the request lies wholly beyond what has been written. */
  ghost predicate Beyond(send: S.Sending, id: nat) {
    exists j :: 0 <= j < |send.kept| && send.kept[j].keepAlive == KeepAlive(id)
                && |S.Content(send.kept[..j])| >= send.written
  }

  lemma {:induction false} WithdrawsBeyond(s: State, id: nat)
    requires Fine(s)
    ensures WithdrawOne(s, id).withdrawn == s.withdrawn + if Beyond(s.send, id) then {id} else {}
  {
    hide S.Content, S.Find, S.FirstBeyond;
    S.WithdrawIs(s.send, KeepAlive(id));
  }

  /** Withdrawing one request does not change whether another can be withdrawn. */
  lemma {:induction false} BeyondStays(s: State, x: nat, id: nat)
    requires Fine(s) && x != id
    ensures Beyond(WithdrawOne(s, x).send, id) <==> Beyond(s.send, id)
  {
    hide S.Content, S.Find, S.FirstBeyond;
    S.WithdrawIs(s.send, KeepAlive(x));
    var r := S.Withdrawable(s.send, KeepAlive(x));
    if r.Some? {
      TakenOutBeyond(s.send.kept, r.value, s.send.written, id);
    }
  }

  lemma {:induction false} TakenOutBeyond(kept: seq<S.Buffer>, w: nat, written: nat, id: nat)
    requires w < |kept| && kept[w].keepAlive != KeepAlive(id) && |S.Content(kept[..w])| >= written
    ensures var kept' := Without(kept, w);
            (exists j :: 0 <= j < |kept'| && kept'[j].keepAlive == KeepAlive(id) && |S.Content(kept'[..j])| >= written)
            <==>
            (exists j :: 0 <= j < |kept| && kept[j].keepAlive == KeepAlive(id) && |S.Content(kept[..j])| >= written)
  {
    hide S.Content;
    var kept' := Without(kept, w);
    assert kept'[..w] == kept[..w];
    if j :| 0 <= j < |kept'| && kept'[j].keepAlive == KeepAlive(id) && |S.Content(kept'[..j])| >= written {
      if j < w {
        assert kept[j] == kept'[j] && kept[..j] == kept'[..j];
      } else {
        assert kept[j + 1] == kept'[j];
        S.ContentPrefixMonotone(kept, w, j + 1);
      }
    }
    if j :| 0 <= j < |kept| && kept[j].keepAlive == KeepAlive(id) && |S.Content(kept[..j])| >= written {
      if j < w {
        assert kept[j] == kept'[j] && kept[..j] == kept'[..j];
      } else {
        assert kept'[j - 1] == kept[j];
        S.ContentPrefixMonotone(kept', w, j - 1);
      }
    }
  }

  lemma {:induction false} WithdrawsAll(s: State, es: seq<R.Expiry>, wishes: Wishes, id: nat)
    requires Fine(s) && id !in s.withdrawn
    ensures id in WithdrawAll(s, es, wishes).withdrawn <==> wishes(id) && Among(es, id) && Beyond(s.send, id)
    decreases |es|
  {
    hide Fine, Beyond, WithdrawOne;
    if es == [] {
    } else {
      AmongFirst(es, id);
      var x := es[0].id;
      if !wishes(x) {
        WithdrawsAll(s, es[1..], wishes, id);
      } else {
        WithdrawFine(s, KeepAlive(x));
        WithdrawOneFine(s, x);
        WithdrawsBeyond(s, x);
        if x != id {
          BeyondStays(s, x, id);
          WithdrawsAll(WithdrawOne(s, x), es[1..], wishes, id);
        } else if Beyond(s.send, id) {
          StaysWithdrawn(WithdrawOne(s, x), es[1..], wishes, id);
        } else {
          NotBeyondStays(s, x);
          WithdrawsAll(WithdrawOne(s, x), es[1..], wishes, id);
        }
      }
    }
  }

  lemma {:induction false} AmongFirst(es: seq<R.Expiry>, id: nat)
    requires es != []
    ensures Among(es, id) <==> es[0].id == id || Among(es[1..], id)
  {
    if k :| 0 < k < |es| && es[k].id == id {
      assert es[1..][k - 1].id == id;
    }
  }

  lemma {:induction false} WithdrawOneFine(s: State, id: nat)
    requires Fine(s)
    ensures Fine(WithdrawOne(s, id))
  {
    WithdrawFine(s, KeepAlive(id));
    FineSame(Apply(s, S.DoWithdraw(KeepAlive(id)), []), WithdrawOne(s, id));
  }

  /** A request that cannot be withdrawn is not touched. */
  lemma {:induction false} NotBeyondStays(s: State, id: nat)
    requires Fine(s) && !Beyond(s.send, id)
    ensures WithdrawOne(s, id).send == s.send
  {
    hide S.Content, S.Find, S.FirstBeyond;
    S.WithdrawIs(s.send, KeepAlive(id));
  }

  lemma {:induction false} StaysWithdrawn(s: State, es: seq<R.Expiry>, wishes: Wishes, id: nat)
    requires Fine(s) && id in s.withdrawn
    ensures id in WithdrawAll(s, es, wishes).withdrawn
    decreases |es|
  {
    hide Fine, Beyond, WithdrawOne;
    if es != [] {
      if wishes(es[0].id) {
        WithdrawOneFine(s, es[0].id);
        WithdrawsBeyond(s, es[0].id);
        StaysWithdrawn(WithdrawOne(s, es[0].id), es[1..], wishes, id);
      } else {
        StaysWithdrawn(s, es[1..], wishes, id);
      }
    }
  }

  /**
   * When the timer fires, the requests withdrawn are exactly those outstanding ones whose time has come, that are to be
   * withdrawn, and of which nothing has been written.
   */
  lemma {:induction false} WithdrawnExactly(s: State, now: int, wishes: Wishes, id: nat)
    requires R.Inv(s.reqs) && Fine(s) && id !in s.withdrawn
    ensures id in Fire(s, now, wishes).withdrawn <==>
            && id in s.reqs.sent && s.reqs.sent[id].expiry <= now
            && wishes(id) && Beyond(s.send, id)
  {
    hide Fine, Beyond, WithdrawAll, R.Fire;
    WithdrawsAll(s, Due(s, now), wishes, id);
    DueExactly(s, now, id);
  }

  lemma {:induction false} DueExactly(s: State, now: int, id: nat)
    requires R.Inv(s.reqs)
    ensures Among(Due(s, now), id) <==> id in s.reqs.sent && s.reqs.sent[id].expiry <= now
  {
    hide R.Accounted, R.TimerFollows, R.Ids;
    var es, n := s.reqs.expiries, R.DueCount(s.reqs.expiries, Some(now));
    if k :| 0 <= k < |Due(s, now)| && Due(s, now)[k].id == id {
      assert es[k].id == id;
      R.DueIs(es, Some(now), k);
    }
    if id in s.reqs.sent && s.reqs.sent[id].expiry <= now {
      R.EntryOf(s.reqs.sent, es, id);
      var i :| 0 <= i < |es| && es[i] == R.Expiry(s.reqs.sent[id].expiry, id);
      R.DueIs(es, Some(now), i);
      assert Due(s, now)[i].id == id;
    }
  }

  // ---------------------------------------------------------------------------------------------
  // Runs
  // ---------------------------------------------------------------------------------------------

  ghost predicate IsRun(states: seq<State>, events: seq<Event>, frameOf: Frames, wishes: Wishes, max: nat) {
    && |states| == |events| + 1 && states[0] == INITIAL
    && forall i :: 0 <= i < |events| ==>
         Fine(states[i]) && Possible(states[i], events[i], max)
         && states[i + 1] == Step(states[i], events[i], frameOf, wishes, max)
  }

  lemma {:induction false} InitialInv(frameOf: Frames, wishes: Wishes, max: nat)
    ensures Inv(INITIAL, frameOf, wishes, max)
  {
    R.InitialInv();
  }

  lemma {:induction false} RunInv(states: seq<State>, events: seq<Event>, frameOf: Frames, wishes: Wishes, max: nat,
                                  n: nat)
    requires IsRun(states, events, frameOf, wishes, max) && Allowed(frameOf, max) && n <= |events|
    ensures Inv(states[n], frameOf, wishes, max)
  {
    hide Inv, Step, Possible, Allowed;
    if n == 0 {
      InitialInv(frameOf, wishes, max);
    } else {
      RunInv(states, events, frameOf, wishes, max, n - 1);
      StepInv(states[n - 1], events[n - 1], frameOf, wishes, max);
    }
  }

  /** The peer has received the frame from the buffer of that very request. */
  ghost predicate Received(kept: seq<S.Buffer>, frames: seq<Bytes>, id: nat, frame: Bytes) {
    exists i :: 0 <= i < |kept| && i < |frames| && kept[i].keepAlive == KeepAlive(id) && frames[i] == frame
  }

  /**
   * A request is kept from the peer only if its caller knows.  At the end of every run, once all that is on the
   * stream has been written, a peer with the same limit has received, in chunks cut anywhere, one whole frame from
   * each buffer.  Of the requests that were taken up and not refused it has received exactly those that were not
   * withdrawn.  One that is to be sent even after its timeout has therefore been received, and one that has not
   * been received was to be withdrawn and has been answered as timed out.
   */
  lemma {:induction false} PeerGetsWhatIsNotWithdrawn(states: seq<State>, events: seq<Event>, frameOf: Frames,
                                                      wishes: Wishes, max: nat, chunks: seq<Bytes>, id: nat)
    requires IsRun(states, events, frameOf, wishes, max) && Allowed(frameOf, max) && max < LIMIT
    requires var s := states[|events|].send;
             s.Valid() && s.Unsent() == [] && Flatten(chunks) == s.Wire()
    requires var s := states[|events|];
             id < s.reqs.next && id !in R.JobIds(s.reqs.jobs) && id !in s.refused
    ensures var s, r := states[|events|], Chunks(FRESH, max, chunks);
            && r == Parsed(s.carried, Some(FRESH)) && |s.carried| == |s.send.kept|
            && (id !in s.withdrawn <==> Received(s.send.kept, r.frames, id, frameOf(id)))
            && (id in s.withdrawn <==> !Queued(s.send.kept, id))
            && (!wishes(id) ==> Received(s.send.kept, r.frames, id, frameOf(id)))
            && (id in s.withdrawn ==> wishes(id) && TimedOut(s.reqs.log, id))
  {
    hide IsRun, R.Inv, Fine, Carries, Sendable, R.JobIds, Chunks, S.Content, Allowed, EncodeAll, Feed, AfterZero;
    assert |states| == |events| + 1 by { RunLength(states, events, frameOf, wishes, max); }
    var s := states[|events|];
    RunInv(states, events, frameOf, wishes, max, |events|);
    CarriesContent(s.send.kept, s.carried);
    FeedPrefix(max, s.carried, s.send.written);
    ChunksAgree(FRESH, max, chunks);
    assert s.carried[..|s.carried|] == s.carried;
    assert Placed(s, id);
    if i :| 0 <= i < |s.send.kept| && s.send.kept[i].keepAlive == KeepAlive(id) {
      assert s.carried[i] == frameOf(id);
    }
  }

  lemma {:induction false} RunLength(states: seq<State>, events: seq<Event>, frameOf: Frames, wishes: Wishes, max: nat)
    requires IsRun(states, events, frameOf, wishes, max)
    ensures |states| == |events| + 1
  {
  }
}
