/** What the answers of a socket call for: what becomes of a batch that is handed to it call after call. */
module SocketAnswers {
  import opened Common
  import opened PacketFates

  datatype Io = Ok | Blocked | TooBigError | NoBuffers | Unreachable | Failure

  /** How the socket answers one call: with how many of the packets it took, and why it stopped. */
  datatype Answer = Answer(result: Io, sent: nat)

  ghost predicate SawTooBig(answers: nat -> Answer, from: nat, to: nat) {
    exists i: nat :: from <= i < to && answers(i).result.TooBigError?
  }

  /** How many packets the socket has said that it took. */
  ghost function Taken(answers: nat -> Answer, from: nat, end: nat): nat
    requires from <= end
    decreases end
  {
    if from == end then 0 else Taken(answers, from, end - 1) + answers(end - 1).sent
  }

  /**
   * What a send may come to, given the socket's answers to its calls, those from `from` on and before `to`.  There
   * is at least one and at most two per packet.  As many packets are sent as the socket took, no more than there
   * are.  Some are too big only if the socket said so, some are left only if it was full or twice stopped short,
   * and some are dropped only on a failure, which is reported unless it is a lack of buffers.
   */
  ghost predicate AsAnswered(answers: nat -> Answer, from: nat, to: nat, fates: seq<Fate>, r: Io) {
    var sent := multiset(fates)[Sent];
    && from < to <= from + 2 * |fates|
    && Taken(answers, from, to - 1) <= sent <= Taken(answers, from, to)
    && (r.Blocked? || Dropped in fates ==> sent == Taken(answers, from, to))
    && (TooBig in fates ==> SawTooBig(answers, from, to))
    && (r.Ok? || r.Blocked? || Dropped in fates)
    && var last := answers(to - 1).result;
       && (r.Blocked? ==>
             last.Blocked? || (to >= from + 2 && last.Ok? && answers(to - 2).result.Ok?))
       && (Dropped in fates ==>
             && (last.NoBuffers? || last.Unreachable? || last.Failure?)
             && r == if last.NoBuffers? then Ok else last)
  }

  // ---------------------------------------------------------------------------------------------
  // Call by call
  // ---------------------------------------------------------------------------------------------

  lemma {:induction false} SelectNumber<T>(xs: seq<T>, fates: seq<Fate>, f: Fate)
    requires |fates| == |xs|
    ensures |Select(xs, fates, f)| == multiset(fates)[f]
  {
    if xs == [] {
    } else {
      SelectNumber(xs[1..], fates[1..], f);
      assert fates == [fates[0]] + fates[1..];
    }
  }

  /** What a call does: `taken` are the fates once the socket has taken what it takes, `after` what they become. */
  datatype Call = Call(taken: seq<Fate>, after: seq<Fate>)

  /** The socket takes n packets from the front of those kept, or all there are. */
  ghost predicate Takes(before: seq<Fate>, taken: seq<Fate>, n: nat) {
    && FromFront(before, taken)
    && multiset(before)[Kept] == multiset(taken)[Kept] + Min(n, multiset(before)[Kept])
  }

  /** Some of those kept are sent, and none behind one still kept. */
  ghost predicate FromFront(before: seq<Fate>, taken: seq<Fate>) {
    && |taken| == |before|
    && (forall i :: 0 <= i < |before| ==> taken[i] == before[i] || (before[i] == Kept && taken[i] == Sent))
    && (forall i, j :: 0 <= i < j < |before| && taken[i] == Kept ==> taken[j] == before[j])
  }

  /** The packet is the first of those kept: the one at which the socket stopped. */
  ghost predicate FirstInLine(fates: seq<Fate>, f: int) {
    0 <= f < |fates| && fates[f] == Kept && forall i :: 0 <= i < f ==> fates[i] != Kept
  }

  /**
   * What becomes of those not taken.  If the socket stopped at a packet that was too big, that packet and all as big
   * are dropped and the smaller ones kept; if it failed, all are dropped; else all are kept.
   */
  ghost predicate Leaves(pkts: seq<Packet>, taken: seq<Fate>, after: seq<Fate>, result: Io) {
    && |after| == |taken| == |pkts|
    && (forall i :: 0 <= i < |pkts| && taken[i] != Kept ==> after[i] == taken[i])
    && match result
       case Ok => after == taken
       case Blocked => after == taken
       case TooBigError =>
         forall f, i :: FirstInLine(taken, f) && 0 <= i < |pkts| && taken[i] == Kept ==>
           after[i] == if |pkts[i].data| >= |pkts[f].data| then TooBig else Kept
       case _ => forall i :: 0 <= i < |pkts| && taken[i] == Kept ==> after[i] == Dropped
  }

  /** The fates after some calls. */
  ghost function Now(pkts: seq<Packet>, calls: seq<Call>): seq<Fate> {
    if calls == [] then AllKept(|pkts|) else Last(calls).after
  }

  /** No further call is made: nothing is left, or the socket is full, or it has stopped short twice for no reason. */
  ghost predicate Ends(answers: nat -> Answer, from: nat, calls: seq<Call>)
    requires calls != []
  {
    var k := from + |calls| - 1;
    || Kept !in Last(calls).after || answers(k).result.Blocked?
    || (|calls| > 1 && answers(k).result.Ok? && answers(k - 1).result.Ok?)
  }

  /** The calls made so far, each with the answer that it got, and none after the end. */
  ghost predicate Story(pkts: seq<Packet>, answers: nat -> Answer, from: nat, calls: seq<Call>) {
    calls == []
    || (&& Story(pkts, answers, from, Front(calls))
        && (Front(calls) != [] ==> !Ends(answers, from, Front(calls)))
        && var a := answers(from + |calls| - 1);
           && Takes(Now(pkts, Front(calls)), Last(calls).taken, a.sent)
           && Leaves(pkts, Last(calls).taken, Last(calls).after, a.result))
  }

  /**
   * The whole of a send: the fates are those that the answers lead to, one call after the other to the end.  It is
   * blocked if packets are left, and fails if the socket did, except for lack of buffers.
   */
  ghost predicate Explained(pkts: seq<Packet>, answers: nat -> Answer, from: nat, to: nat, fates: seq<Fate>, r: Io) {
    exists calls :: calls != [] && Tells(pkts, answers, from, to, fates, r, calls)
  }

  ghost predicate Tells(pkts: seq<Packet>, answers: nat -> Answer, from: nat, to: nat, fates: seq<Fate>, r: Io,
                        calls: seq<Call>)
    requires calls != []
  {
    && Story(pkts, answers, from, calls) && Ends(answers, from, calls)
    && to == from + |calls| && fates == Last(calls).after
    && var last := answers(to - 1).result;
       r == Result(fates, last)
  }

  /** What a send reports: that packets are left, or a failure that dropped some, unless that was a lack of buffers. */
  function Result(fates: seq<Fate>, last: Io): Io {
    if Kept in fates then Blocked else if Dropped in fates && !last.NoBuffers? then last else Ok
  }

  /** What holds between the calls of a send that goes on. */
  ghost predicate OnGoing(pkts: seq<Packet>, answers: nat -> Answer, from: nat, calls: seq<Call>, fates: seq<Fate>,
                          retried: bool)
  {
    && Story(pkts, answers, from, calls) && (calls != [] ==> !Ends(answers, from, calls))
    && fates == Now(pkts, calls) && (retried <==> calls != [] && answers(from + |calls| - 1).result.Ok?)
  }

  lemma {:induction false} NoCalls(pkts: seq<Packet>, answers: nat -> Answer, from: nat)
    ensures OnGoing(pkts, answers, from, [], AllKept(|pkts|), false)
  {
  }

  /** One call is made. */
  ghost predicate Adds(pkts: seq<Packet>, a: Answer, fates: seq<Fate>, call: Call) {
    Takes(fates, call.taken, a.sent) && Leaves(pkts, call.taken, call.after, a.result)
  }

  lemma {:induction false} StoryMore(pkts: seq<Packet>, answers: nat -> Answer, from: nat, calls: seq<Call>,
                                     fates: seq<Fate>, retried: bool, call: Call)
    requires OnGoing(pkts, answers, from, calls, fates, retried) && Adds(pkts, answers(from + |calls|), fates, call)
    ensures Story(pkts, answers, from, calls + [call])
    ensures var a := answers(from + |calls|).result;
            Ends(answers, from, calls + [call]) <==> Kept !in call.after || a.Blocked? || (a.Ok? && retried)
  {
    hide Takes, Leaves;
    assert Front(calls + [call]) == calls;
  }

  /** The send goes on. */
  lemma {:induction false} GoesOn(pkts: seq<Packet>, answers: nat -> Answer, from: nat, calls: seq<Call>,
                                  fates: seq<Fate>, retried: bool, call: Call)
    requires OnGoing(pkts, answers, from, calls, fates, retried) && Adds(pkts, answers(from + |calls|), fates, call)
    requires Kept in call.after
    requires var a := answers(from + |calls|).result; a.TooBigError? || (a.Ok? && !retried)
    ensures OnGoing(pkts, answers, from, calls + [call], call.after, answers(from + |calls|).result.Ok?)
  {
    hide Story, Ends, Takes, Leaves;
    StoryMore(pkts, answers, from, calls, fates, retried, call);
  }

  /** The send has ended. */
  lemma {:induction false} HasEnded(pkts: seq<Packet>, answers: nat -> Answer, from: nat, calls: seq<Call>,
                                    fates: seq<Fate>, retried: bool, call: Call, r: Io)
    requires OnGoing(pkts, answers, from, calls, fates, retried) && Adds(pkts, answers(from + |calls|), fates, call)
    requires var a := answers(from + |calls|).result;
             && (Kept !in call.after || a.Blocked? || (a.Ok? && retried))
             && r == Result(call.after, a)
    ensures Explained(pkts, answers, from, from + |calls| + 1, call.after, r)
    ensures pkts != [] ==> AsAnswered(answers, from, from + |calls| + 1, call.after, r)
  {
    hide Story, Ends, Takes, Leaves, AsAnswered;
    StoryMore(pkts, answers, from, calls, fates, retried, call);
    assert Tells(pkts, answers, from, from + |calls| + 1, call.after, r, calls + [call]);
    if pkts != [] {
      ExplainedIsAnswered(pkts, answers, from, from + |calls| + 1, call.after, r);
    }
  }

  lemma {:induction false} KeptNumber(fates: seq<Fate>)
    ensures Kept in fates <==> multiset(fates)[Kept] > 0
  {
  }

  // ---- the four ways a call ends

  lemma {:induction false} MarkSentTakes(fates: seq<Fate>, k: nat, n: nat)
    requires k == Min(n, multiset(fates)[Kept])
    ensures Takes(fates, MarkSent(fates, k), n)
  {
    MarkSentCounts(fates, k);
    MarkSentFirst(fates, k);
  }

  lemma {:induction false} MarkSentCounts(fates: seq<Fate>, k: nat)
    requires k <= multiset(fates)[Kept]
    ensures multiset(MarkSent(fates, k))[Kept] == multiset(fates)[Kept] - k
    decreases |fates|
  {
    if fates != [] && k > 0 {
      var rest := fates[1..];
      assert fates == [fates[0]] + rest;
      MarkSentCounts(rest, if fates[0] == Kept then k - 1 else k);
    }
  }

  lemma {:induction false} MarkSentFirst(fates: seq<Fate>, k: nat)
    ensures var r := MarkSent(fates, k);
            && (forall i :: 0 <= i < |fates| ==> r[i] == fates[i] || (fates[i] == Kept && r[i] == Sent))
            && (forall i, j :: 0 <= i < j < |fates| && r[i] == Kept ==> r[j] == fates[j])
    decreases |fates|
  {
    if fates != [] && k > 0 {
      var rest := fates[1..];
      var j: nat := if fates[0] == Kept then k - 1 else k;
      MarkSentFirst(rest, j);
      var r, tail := MarkSent(fates, k), MarkSent(rest, j);
      assert r == [r[0]] + tail && r[0] != Kept;
      assert forall i :: 0 < i < |fates| ==> r[i] == tail[i - 1] && fates[i] == rest[i - 1];
    }
  }

  lemma {:induction false} FirstInLineIs(pkts: seq<Packet>, fates: seq<Fate>, f: int)
    requires |fates| == |pkts| && FirstInLine(fates, f)
    ensures f < |pkts| && Select(pkts, fates, Kept) != [] && pkts[f] == Select(pkts, fates, Kept)[0]
  {
    if f > 0 {
      assert fates[0] != Kept;
      FirstInLineIs(pkts[1..], fates[1..], f - 1);
    }
  }

  /** The socket takes what it takes; nothing is left, or it is kept. */
  lemma {:induction false} CallKeeps(pkts: seq<Packet>, a: Answer, fates: seq<Fate>, sent: nat)
    requires |fates| == |pkts| && sent == Min(a.sent, multiset(fates)[Kept])
    requires Kept !in MarkSent(fates, sent) || a.result.Ok? || a.result.Blocked?
    ensures Adds(pkts, a, fates, Call(MarkSent(fates, sent), MarkSent(fates, sent)))
  {
    hide Takes, MarkSent;
    MarkSentTakes(fates, sent, a.sent);
  }

  /** What is left goes if it is as big as the first of it. */
  lemma {:induction false} CallShrinks(pkts: seq<Packet>, a: Answer, fates: seq<Fate>, sent: nat)
    requires |fates| == |pkts| && sent == Min(a.sent, multiset(fates)[Kept]) && a.result.TooBigError?
    requires Select(pkts, MarkSent(fates, sent), Kept) != []
    ensures var taken := MarkSent(fates, sent);
            Adds(pkts, a, fates, Call(taken, MarkTooBig(pkts, taken, |Select(pkts, taken, Kept)[0].data|)))
  {
    hide Takes, MarkSent, Select;
    MarkSentTakes(fates, sent, a.sent);
    var taken := MarkSent(fates, sent);
    forall f | FirstInLine(taken, f)
      ensures 0 <= f < |pkts| && pkts[f] == Select(pkts, taken, Kept)[0]
    {
      FirstInLineIs(pkts, taken, f);
    }
  }

  /** What is left goes. */
  lemma {:induction false} CallDrops(pkts: seq<Packet>, a: Answer, fates: seq<Fate>, sent: nat)
    requires |fates| == |pkts| && sent == Min(a.sent, multiset(fates)[Kept])
    requires a.result.NoBuffers? || a.result.Unreachable? || a.result.Failure?
    ensures var taken := MarkSent(fates, sent);
            Adds(pkts, a, fates, Call(taken, MarkDropped(taken))) && Kept !in MarkDropped(taken)
  {
    hide Takes, MarkSent;
    MarkSentTakes(fates, sent, a.sent);
  }

  // ---------------------------------------------------------------------------------------------
  // What follows from the story
  // ---------------------------------------------------------------------------------------------

  /** What holds between the calls of a send that goes on, with `count` packets left. */
  ghost predicate Going(answers: nat -> Answer, from: nat, to: nat, fates: seq<Fate>, count: nat, retried: bool)
  {
    && from <= to && count <= |fates| && to <= from + 2 * (|fates| - count) + (if retried then 1 else 0)
    && multiset(fates)[Sent] == Taken(answers, from, to) && Dropped !in fates
    && (TooBig in fates ==> SawTooBig(answers, from, to))
    && (retried ==> to > from && answers(to - 1).result.Ok?)
  }

  /** What holds after a call that did not take all of the `had` packets there were. */
  ghost predicate Short(answers: nat -> Answer, from: nat, to: nat, fates: seq<Fate>, had: nat) {
    && from < to && 1 <= had <= |fates| && to <= from + 2 * (|fates| - had) + 2
    && multiset(fates)[Sent] == Taken(answers, from, to) && Dropped !in fates
    && (TooBig in fates ==> SawTooBig(answers, from, to))
  }

  lemma {:induction false} Start(answers: nat -> Answer, from: nat, fates: seq<Fate>)
    requires fates == AllKept(|fates|)
    ensures Going(answers, from, from, fates, |fates|, false)
  {
  }

  lemma {:induction false} GoingOn(answers: nat -> Answer, from: nat, to: nat, fates: seq<Fate>, count: nat,
                                   retried: bool)
    requires Going(answers, from, to, fates, count, retried)
    ensures Dropped !in fates
  {
  }

  /** One call that took `more` packets: how the send ends, or goes on, if all is sent, or blocked, or Ok. */
  lemma {:induction false} Called(answers: nat -> Answer, from: nat, to: nat, fates: seq<Fate>, fates': seq<Fate>,
                                  count: nat, retried: bool, more: nat)
    requires Going(answers, from, to, fates, count, retried) && |fates'| == |fates|
    requires Dropped !in fates' && (TooBig in fates' ==> TooBig in fates)
    requires multiset(fates')[Sent] == multiset(fates)[Sent] + more
    requires more == Min(answers(to).sent, count) && count >= 1
    ensures var last := answers(to).result;
            && (more == count ==> AsAnswered(answers, from, to + 1, fates', Ok))
            && (more < count && last.Blocked? ==> AsAnswered(answers, from, to + 1, fates', Blocked))
            && (more < count && last.Ok? ==>
                  if retried then AsAnswered(answers, from, to + 1, fates', Blocked)
                  else Going(answers, from, to + 1, fates', count - more, true))
            && (more < count ==> Short(answers, from, to + 1, fates', count))
  {
  }

  lemma {:induction false} AfterTooBig(answers: nat -> Answer, from: nat, to: nat, fates: seq<Fate>,
                                       fates': seq<Fate>, had: nat, left: nat)
    requires Short(answers, from, to, fates, had) && answers(to - 1).result.TooBigError?
    requires left < had && |fates'| == |fates| && multiset(fates')[Sent] == multiset(fates)[Sent] && Dropped !in fates'
    ensures if left == 0 then AsAnswered(answers, from, to, fates', Ok)
            else Going(answers, from, to, fates', left, false)
  {
  }

  lemma {:induction false} AfterFailure(answers: nat -> Answer, from: nat, to: nat, fates: seq<Fate>,
                                        fates': seq<Fate>, had: nat)
    requires Short(answers, from, to, fates, had) && |fates'| == |fates|
    requires multiset(fates')[Sent] == multiset(fates)[Sent]
    requires Dropped in fates' && (TooBig in fates' ==> TooBig in fates)
    requires var last := answers(to - 1).result; last.NoBuffers? || last.Unreachable? || last.Failure?
    ensures var last := answers(to - 1).result;
            AsAnswered(answers, from, to, fates', if last.NoBuffers? then Ok else last)
  {
  }

  lemma {:induction false} SameNumber(a: seq<Fate>, b: seq<Fate>, f: Fate)
    requires |a| == |b| && forall i :: 0 <= i < |a| ==> (a[i] == f <==> b[i] == f)
    ensures multiset(a)[f] == multiset(b)[f]
  {
    if a != [] {
      assert a == [a[0]] + a[1..] && b == [b[0]] + b[1..];
      SameNumber(a[1..], b[1..], f);
    }
  }

  lemma {:induction false} FewerKept(a: seq<Fate>, b: seq<Fate>)
    requires |a| == |b| && forall i :: 0 <= i < |a| && b[i] == Kept ==> a[i] == Kept
    ensures multiset(b)[Kept] <= multiset(a)[Kept]
    ensures (exists i :: 0 <= i < |a| && a[i] == Kept && b[i] != Kept) ==> multiset(b)[Kept] < multiset(a)[Kept]
  {
    if a != [] {
      assert a == [a[0]] + a[1..] && b == [b[0]] + b[1..];
      FewerKept(a[1..], b[1..]);
      if i :| 0 < i < |a| && a[i] == Kept && b[i] != Kept {
        assert a[1..][i - 1] == a[i] && b[1..][i - 1] == b[i];
      }
    }
  }

  /** What is no longer kept has been sent. */
  lemma {:induction false} KeptOrSent(a: seq<Fate>, b: seq<Fate>)
    requires |a| == |b| && forall i :: 0 <= i < |a| ==> b[i] == a[i] || (a[i] == Kept && b[i] == Sent)
    ensures multiset(b)[Sent] + multiset(b)[Kept] == multiset(a)[Sent] + multiset(a)[Kept]
  {
    if a != [] {
      assert a == [a[0]] + a[1..] && b == [b[0]] + b[1..];
      KeptOrSent(a[1..], b[1..]);
    }
  }

  lemma {:induction false} SomeFirst(fates: seq<Fate>) returns (f: nat)
    requires Kept in fates
    ensures FirstInLine(fates, f)
  {
    if fates[0] == Kept {
      f := 0;
    } else {
      assert fates == [fates[0]] + fates[1..];
      f := SomeFirst(fates[1..]);
      f := f + 1;
    }
  }

  lemma {:induction false} TakesNumbers(before: seq<Fate>, taken: seq<Fate>, n: nat)
    requires Takes(before, taken, n)
    ensures var more := Min(n, multiset(before)[Kept]);
            && multiset(taken)[Sent] == multiset(before)[Sent] + more
            && multiset(taken)[Kept] == multiset(before)[Kept] - more
    ensures (Dropped in taken ==> Dropped in before) && (TooBig in taken ==> TooBig in before)
  {
    KeptOrSent(before, taken);
  }

  lemma {:induction false} LeavesNumbers(pkts: seq<Packet>, taken: seq<Fate>, after: seq<Fate>, result: Io)
    requires Leaves(pkts, taken, after, result) && Kept in taken
    ensures multiset(after)[Sent] == multiset(taken)[Sent]
    ensures result.TooBigError? ==>
              multiset(after)[Kept] < multiset(taken)[Kept] && (Dropped in after ==> Dropped in taken)
    ensures result.NoBuffers? || result.Unreachable? || result.Failure? ==>
              Dropped in after && Kept !in after && (TooBig in after ==> TooBig in taken)
  {
    var f := SomeFirst(taken);
    SameNumber(taken, after, Sent);
    if result.TooBigError? {
      FewerKept(taken, after);
    } else if !result.Ok? && !result.Blocked? {
      assert after[f] == Dropped;
    }
  }

  /** One call more, from what held before it. */
  lemma {:induction false} GoingMore(pkts: seq<Packet>, answers: nat -> Answer, from: nat, to: nat, fates: seq<Fate>,
                                     retried: bool, call: Call)
    requires Going(answers, from, to, fates, multiset(fates)[Kept], retried) && Adds(pkts, answers(to), fates, call)
    requires Kept in fates
    ensures var a, left := answers(to).result, multiset(call.after)[Kept];
            && (Kept in call.after && (a.TooBigError? || (a.Ok? && !retried)) ==>
                  Going(answers, from, to + 1, call.after, left, a.Ok?))
            && (Kept !in call.after || a.Blocked? || (a.Ok? && retried) ==>
                  AsAnswered(answers, from, to + 1, call.after, Result(call.after, a)))
  {
    hide Going, Takes, Leaves, AsAnswered, Short;
    KeptNumber(fates);
    KeptNumber(call.taken);
    KeptNumber(call.after);
    var a := answers(to);
    var had, more := multiset(fates)[Kept], Min(a.sent, multiset(fates)[Kept]);
    TakesSize(fates, call.taken, a.sent);
    TakesNumbers(fates, call.taken, a.sent);
    GoingOn(answers, from, to, fates, had, retried);
    Called(answers, from, to, fates, call.taken, had, retried, more);
    if more == had {
      LeavesSame(pkts, call.taken, call.after, a.result);
    } else {
      LeavesNumbers(pkts, call.taken, call.after, a.result);
      LeavesSize(pkts, call.taken, call.after, a.result);
      match a.result
      case Ok =>
      case Blocked =>
      case TooBigError => AfterTooBig(answers, from, to + 1, call.taken, call.after, had, multiset(call.after)[Kept]);
      case _ => AfterFailure(answers, from, to + 1, call.taken, call.after, had);
    }
  }

  lemma {:induction false} TakesSize(before: seq<Fate>, taken: seq<Fate>, n: nat)
    requires Takes(before, taken, n)
    ensures |taken| == |before|
  {
  }

  lemma {:induction false} LeavesSize(pkts: seq<Packet>, taken: seq<Fate>, after: seq<Fate>, result: Io)
    requires Leaves(pkts, taken, after, result)
    ensures |after| == |taken| && (result.Ok? || result.Blocked? ==> after == taken)
  {
  }

  lemma {:induction false} LeavesSame(pkts: seq<Packet>, taken: seq<Fate>, after: seq<Fate>, result: Io)
    requires Leaves(pkts, taken, after, result) && Kept !in taken
    ensures after == taken
  {
  }

  lemma {:induction false} StoryGoing(pkts: seq<Packet>, answers: nat -> Answer, from: nat, calls: seq<Call>)
    requires pkts != [] && Story(pkts, answers, from, calls) && (calls != [] ==> !Ends(answers, from, calls))
    ensures var fates, retried := Now(pkts, calls), calls != [] && answers(from + |calls| - 1).result.Ok?;
            Kept in fates && Going(answers, from, from + |calls|, fates, multiset(fates)[Kept], retried)
    decreases |calls|
  {
    hide Going, Takes, Leaves, AsAnswered;
    if calls == [] {
      var fates := AllKept(|pkts|);
      Start(answers, from, fates);
      AllKeptNumber(|pkts|);
      assert fates[0] == Kept;
    } else {
      var front, call := Front(calls), Last(calls);
      StoryGoing(pkts, answers, from, front);
      var to := from + |front|;
      var retried := front != [] && answers(to - 1).result.Ok?;
      GoingMore(pkts, answers, from, to, Now(pkts, front), retried, call);
      NotOver(pkts, answers(to), Now(pkts, front), call);
    }
  }

  /** A call after which something is kept did not fail. */
  lemma {:induction false} NotOver(pkts: seq<Packet>, a: Answer, fates: seq<Fate>, call: Call)
    requires Adds(pkts, a, fates, call) && Kept in call.after
    ensures a.result.Ok? || a.result.Blocked? || a.result.TooBigError?
  {
  }

  lemma {:induction false} AllKeptNumber(n: nat)
    ensures multiset(AllKept(n))[Kept] == n
  {
    if n > 0 {
      AllKeptNumber(n - 1);
      assert AllKept(n) == [Kept] + AllKept(n - 1);
    }
  }

  /** So the fates of a send are such as the answers call for. */
  lemma {:induction false} ExplainedIsAnswered(pkts: seq<Packet>, answers: nat -> Answer, from: nat, to: nat,
                                               fates: seq<Fate>, r: Io)
    requires pkts != [] && Explained(pkts, answers, from, to, fates, r)
    ensures AsAnswered(answers, from, to, fates, r)
  {
    hide Going, Takes, Leaves, AsAnswered;
    var calls :| calls != [] && Tells(pkts, answers, from, to, fates, r, calls);
    var front, call := Front(calls), Last(calls);
    StoryGoing(pkts, answers, from, front);
    var retried := front != [] && answers(from + |front| - 1).result.Ok?;
    GoingMore(pkts, answers, from, from + |front|, Now(pkts, front), retried, call);
  }

  // ---- there is only one story

  lemma {:induction false} SentFurther(before: seq<Fate>, a: seq<Fate>, b: seq<Fate>, i: nat)
    requires FromFront(before, a) && FromFront(before, b) && i < |before| && a[i] == Kept && b[i] == Sent
    ensures multiset(b)[Kept] < multiset(a)[Kept]
  {
    FewerKept(a, b);
  }

  lemma {:induction false} TakesOneWay(before: seq<Fate>, a: seq<Fate>, b: seq<Fate>, n: nat)
    requires Takes(before, a, n) && Takes(before, b, n)
    ensures a == b
  {
    forall i | 0 <= i < |before|
      ensures a[i] == b[i]
    {
      if a[i] != b[i] {
        if a[i] == Kept {
          SentFurther(before, a, b, i);
        } else {
          SentFurther(before, b, a, i);
        }
      }
    }
  }

  lemma {:induction false} LeavesOneWay(pkts: seq<Packet>, taken: seq<Fate>, a: seq<Fate>, b: seq<Fate>, result: Io)
    requires Leaves(pkts, taken, a, result) && Leaves(pkts, taken, b, result)
    ensures a == b
  {
    if Kept in taken {
      var f := SomeFirst(taken);
    }
  }

  /** Two accounts of a send tell the same as far as they go. */
  lemma {:induction false} OneStory(pkts: seq<Packet>, answers: nat -> Answer, from: nat, a: seq<Call>, b: seq<Call>)
    requires Story(pkts, answers, from, a) && Story(pkts, answers, from, b) && |a| == |b|
    ensures a == b
    decreases |a|
  {
    hide Takes, Leaves, Ends;
    if a != [] {
      OneStory(pkts, answers, from, Front(a), Front(b));
      TakesOneWay(Now(pkts, Front(a)), Last(a).taken, Last(b).taken, answers(from + |a| - 1).sent);
      LeavesOneWay(pkts, Last(a).taken, Last(a).after, Last(b).after, answers(from + |a| - 1).result);
      assert a == Front(a) + [Last(a)] && b == Front(b) + [Last(b)];
    }
  }

  lemma {:induction false} NoLater(pkts: seq<Packet>, answers: nat -> Answer, from: nat, a: seq<Call>, n: nat)
    requires Story(pkts, answers, from, a) && 0 < n < |a|
    ensures Story(pkts, answers, from, a[..n]) && !Ends(answers, from, a[..n])
    decreases |a|
  {
    hide Takes, Leaves, Ends;
    if n == |a| - 1 {
      assert a[..n] == Front(a);
    } else {
      NoLater(pkts, answers, from, Front(a), n);
      assert Front(a)[..n] == a[..n];
    }
  }

  /** The answers of the socket leave no choice: they decide every fate, the number of calls, and the result. */
  lemma {:induction false} AnswersDecide(pkts: seq<Packet>, answers: nat -> Answer, from: nat, to: nat,
                                         fates: seq<Fate>, r: Io, to': nat, fates': seq<Fate>, r': Io)
    requires Explained(pkts, answers, from, to, fates, r) && Explained(pkts, answers, from, to', fates', r')
    ensures to' == to && fates' == fates && r' == r
  {
    hide Story, Ends;
    var a :| a != [] && Tells(pkts, answers, from, to, fates, r, a);
    var b :| b != [] && Tells(pkts, answers, from, to', fates', r', b);
    if |a| < |b| {
      NoLater(pkts, answers, from, b, |a|);
      OneStory(pkts, answers, from, a, b[..|a|]);
    } else if |b| < |a| {
      NoLater(pkts, answers, from, a, |b|);
      OneStory(pkts, answers, from, a[..|b|], b);
    } else {
      OneStory(pkts, answers, from, a, b);
    }
  }
}
