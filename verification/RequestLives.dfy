/**
 * The life of one request, by itself: what each event means for it.  The table of all requests, with its expiries and
 * its timer, gives every request this life and no other.
 */
module RequestLives {
  import opened Common
  import opened Requests

  datatype Life = Unissued | Waiting(expiry: int) | Outstanding(expiry: int) | Done(answer: Answer)

  /** Where a request is in the table. */
  ghost predicate Lives(s: State, id: nat, l: Life) {
    match l
    case Unissued => id >= s.next
    case Waiting(expiry) => exists i :: 0 <= i < |s.jobs| && s.jobs[i].id == id && s.jobs[i].expiry == expiry
    case Outstanding(expiry) => id in s.sent && s.sent[id].expiry == expiry
    case Done(answer) => Answered(id, answer) in s.log
  }

  /** Which request an event is about, if it is about one. */
  function About(s: State, e: Event): Option<nat>
    requires Possible(s, e)
  {
    match e
    case DoIssue(_) => Some(s.next)
    case DoTakeUp(k) => Some(s.jobs[k].id)
    case DoReply(id) => Some(id)
    case _ => None
  }

  /**
   * What an event does to a request: it is issued with an expiry, taken up, and then answered by the first of a
   * reply, a timer that fires at its expiry or later, and the end of the stream.  A stream that is closing fails
   * what it takes up and hears no replies.
   */
  function Next(l: Life, e: Event, about: bool, closing: bool): Life {
    match e
    case DoIssue(expiry) => if about then Waiting(expiry) else l
    case DoTakeUp(_) =>
      if !about || !l.Waiting? then l else if closing then Done(TimedOut) else Outstanding(l.expiry)
    case DoReply(_) => if about && l.Outstanding? && !closing then Done(Replied) else l
    case DoFire(now) => if l.Outstanding? && l.expiry <= now then Done(TimedOut) else l
    case DoClose => l
    case DoClosed => if l.Outstanding? then Done(TimedOut) else l
  }

  // ---------------------------------------------------------------------------------------------
  // Every event
  // ---------------------------------------------------------------------------------------------

  lemma {:induction false} JobKnown(s: State, i: nat)
    requires Inv(s) && i < |s.jobs|
    ensures s.jobs[i].id in JobIds(s.jobs) && s.jobs[i].cb && s.jobs[i].id < s.next && s.jobs[i].id !in s.sent
  {
    assert RequestId(s.jobs[i]) in JobIds(s.jobs);
    IssuedIs(s.next, s.jobs[i].id);
  }

  lemma {:induction false} SentKnown(s: State, id: nat)
    requires Inv(s) && id in s.sent
    ensures s.sent[id].id == id && s.sent[id].cb && id < s.next && id !in JobIds(s.jobs)
  {
    IssuedIs(s.next, id);
  }

  lemma {:induction false} LogKnown(s: State, a: Answered)
    requires Inv(s) && a in s.log
    ensures a.id < s.next && a.id !in JobIds(s.jobs) && a.id !in s.sent
  {
    var i :| 0 <= i < |s.log| && s.log[i] == a;
    assert AnsweredId(s.log[i]) in LogIds(s.log);
    IssuedIs(s.next, a.id);
  }

  lemma {:induction false} IssueLives(s: State, expiry: int, id: nat, l: Life)
    requires Inv(s) && Lives(s, id, l)
    ensures Lives(Issue(s, expiry), id, if id == s.next then Waiting(expiry) else l)
  {
    var t := Issue(s, expiry);
    if id == s.next {
      assert t.jobs[|s.jobs|].id == id;
    } else if l.Waiting? {
      var i :| 0 <= i < |s.jobs| && s.jobs[i].id == id && s.jobs[i].expiry == l.expiry;
      assert t.jobs[i] == s.jobs[i];
    }
  }

  /** A command taken up keeps the expiry it was issued with; while closing it has failed. */
  lemma {:induction false} TakeUpLives(s: State, k: nat, id: nat, l: Life)
    requires Inv(s) && k < |s.jobs| && Lives(s, id, l)
    ensures Lives(TakeUp(s, k), id, Next(l, DoTakeUp(k), s.jobs[k].id == id, s.closing))
    ensures !s.closing ==> TakeUp(s, k).log == s.log
  {
    hide Inv, Insert;
    var r, t := s.jobs[k], TakeUp(s, k);
    JobKnown(s, k);
    match l
    case Unissued =>
    case Waiting(expiry) =>
      var i :| 0 <= i < |s.jobs| && s.jobs[i].id == id && s.jobs[i].expiry == expiry;
      if r.id == id {
        SameJob(s, i, k);
      } else {
        assert t.jobs[if i < k then i else i - 1] == s.jobs[i];
      }
    case Outstanding(_) =>
    case Done(answer) => LogKnown(s, Answered(id, answer));
  }

  lemma {:induction false} SameJob(s: State, i: nat, k: nat)
    requires Inv(s) && i < |s.jobs| && k < |s.jobs| && s.jobs[i].id == s.jobs[k].id
    ensures i == k
  {
  }

  lemma {:induction false} ReplyLives(s: State, r: nat, id: nat, l: Life)
    requires Inv(s) && Lives(s, id, l)
    ensures Lives(Reply(s, r), id, Next(l, DoReply(r), r == id, s.closing))
  {
    hide Inv, IndexOf;
    match l
    case Unissued =>
    case Waiting(expiry) =>
    case Outstanding(_) => SentKnown(s, id);
    case Done(answer) =>
      LogKnown(s, Answered(id, answer));
      if r in s.sent {
        SentKnown(s, r);
      }
  }

  /** What is left in the table is as it was. */
  lemma {:induction false} ExpireKeeps(sent: map<nat, Request>, log: seq<Answered>, es: seq<Expiry>, id: nat)
    ensures var left := Expire(sent, log, es).0;
            id in left ==> id in sent && left[id] == sent[id]
    decreases |es|
  {
    if es != [] {
      var x := es[0].id;
      if x in sent {
        ExpireKeeps(sent - {x}, Finish(log, sent[x], TimedOut), es[1..], id);
      } else {
        ExpireKeeps(sent, log, es[1..], id);
      }
    }
  }

  /** Of an outstanding request that is not left, the log says that it has timed out. */
  lemma {:induction false} GoneIsTimedOut(es: seq<Expiry>, n: nat, id: nat, log: seq<Answered>)
    requires n <= |es| && exists i :: 0 <= i < n && es[i].id == id
    ensures Answered(id, TimedOut) in log + Timeouts(es[..n])
  {
    var i :| 0 <= i < n && es[i].id == id;
    var all := log + Timeouts(es[..n]);
    assert all[|log| + i] == Answered(ExpiryId(es[i]), TimedOut);
  }

  lemma {:induction false} FireLives(s: State, now: int, id: nat, l: Life)
    requires Inv(s) && s.timer && Lives(s, id, l)
    ensures Lives(Fire(s, now), id, Next(l, DoFire(now), false, s.closing))
  {
    hide Inv, Expire, DueCount, Timeouts, Earliest;
    FireInv(s, now);
    var n := DueCount(s.expiries, Some(now));
    if l.Outstanding? {
      ExpireKeeps(s.sent, s.log, s.expiries[..n], id);
      if l.expiry <= now {
        DueEntry(s, Some(now), id);
        GoneIsTimedOut(s.expiries, n, id, s.log);
      }
    } else if l.Done? {
      KeptInLog(s.log, Timeouts(s.expiries[..n]), Answered(id, l.answer));
    }
  }

  lemma {:induction false} KeptInLog(log: seq<Answered>, more: seq<Answered>, a: Answered)
    requires a in log
    ensures a in log + more
  {
  }

  lemma {:induction false} DueEntry(s: State, now: Option<int>, id: nat)
    requires Inv(s) && id in s.sent && (now.Some? ==> s.sent[id].expiry <= now.value)
    ensures exists i :: 0 <= i < DueCount(s.expiries, now) && s.expiries[i].id == id
  {
    hide Accounted;
    EntryOf(s.sent, s.expiries, id);
    var i :| 0 <= i < |s.expiries| && s.expiries[i] == Expiry(s.sent[id].expiry, id);
    DueIs(s.expiries, now, i);
  }

  lemma {:induction false} ClosedLives(s: State, id: nat, l: Life)
    requires Inv(s) && Lives(s, id, l)
    ensures Lives(Closed(s), id, Next(l, DoClosed, false, s.closing))
  {
    hide Inv, Expire, DueCount, Timeouts;
    ClosedInv(s);
    if l.Outstanding? {
      DueEntry(s, None, id);
      AllDue(s.expiries);
      GoneIsTimedOut(s.expiries, |s.expiries|, id, s.log);
      assert s.expiries[..|s.expiries|] == s.expiries;
    } else if l.Done? {
      KeptInLog(s.log, Timeouts(s.expiries), Answered(id, l.answer));
    }
  }

  /** Every event does to every request what it does to that request alone. */
  lemma {:induction false} StepLives(s: State, e: Event, id: nat, l: Life)
    requires Inv(s) && Possible(s, e) && Lives(s, id, l)
    ensures Lives(Step(s, e), id, Next(l, e, About(s, e) == Some(id), s.closing))
    ensures Step(s, e).next == s.next + if e.DoIssue? then 1 else 0
    ensures Step(s, e).closing == (s.closing || e.DoClose? || e.DoClosed?)
  {
    hide Inv, Lives, Expire, Insert, IndexOf, DueCount;
    match e
    case DoIssue(expiry) => IssueLives(s, expiry, id, l);
    case DoTakeUp(k) => TakeUpLives(s, k, id, l);
    case DoReply(r) => ReplyLives(s, r, id, l);
    case DoFire(now) => FireLives(s, now, id, l);
    case DoClose => CloseLives(s, id, l);
    case DoClosed => ClosedLives(s, id, l);
  }

  lemma {:induction false} CloseLives(s: State, id: nat, l: Life)
    requires Lives(s, id, l)
    ensures Lives(s.(closing := true), id, l)
  {
  }

  // ---------------------------------------------------------------------------------------------
  // Runs
  // ---------------------------------------------------------------------------------------------

  /** The life of a request over the first n events of a run. */
  ghost function LifeAfter(states: seq<State>, events: seq<Event>, n: nat, id: nat): Life
    requires IsRun(states, events) && n <= |events|
  {
    if n == 0 then Unissued
    else
      var s, e := states[n - 1], events[n - 1];
      Next(LifeAfter(states, events, n - 1, id), e, About(s, e) == Some(id), s.closing)
  }

  /** At every point of every run every request is where its life says, and nowhere else. */
  lemma {:induction false} RunLives(states: seq<State>, events: seq<Event>, n: nat, id: nat)
    requires IsRun(states, events) && n <= |events|
    ensures forall l :: Lives(states[n], id, l) <==> l == LifeAfter(states, events, n, id)
  {
    hide Inv, Lives, Step, Possible, About, Next;
    RunInv(states, events, n);
    LivesAfter(states, events, n, id);
    forall l | Lives(states[n], id, l)
      ensures l == LifeAfter(states, events, n, id)
    {
      OneLife(states[n], id, l, LifeAfter(states, events, n, id));
    }
  }

  lemma {:induction false} LivesAfter(states: seq<State>, events: seq<Event>, n: nat, id: nat)
    requires IsRun(states, events) && n <= |events|
    ensures Lives(states[n], id, LifeAfter(states, events, n, id))
  {
    hide Inv, Step, Possible, About, Next;
    if n > 0 {
      LivesAfter(states, events, n - 1, id);
      RunInv(states, events, n - 1);
      StepLives(states[n - 1], events[n - 1], id, LifeAfter(states, events, n - 1, id));
    }
  }

  lemma {:induction false} OneLife(s: State, id: nat, l: Life, m: Life)
    requires Inv(s) && Lives(s, id, l) && Lives(s, id, m)
    ensures l == m
  {
    hide Inv;
    Placed(s, id, l);
    Placed(s, id, m);
    if l.Waiting? && m.Waiting? {
      var i :| 0 <= i < |s.jobs| && s.jobs[i].id == id && s.jobs[i].expiry == l.expiry;
      var j :| 0 <= j < |s.jobs| && s.jobs[j].id == id && s.jobs[j].expiry == m.expiry;
      SameJob(s, i, j);
    } else if l.Done? && m.Done? {
      SameAnswer(s, Answered(id, l.answer), Answered(id, m.answer));
    }
  }

  lemma {:induction false} Placed(s: State, id: nat, l: Life)
    requires Inv(s) && Lives(s, id, l)
    ensures l.Unissued? <==> id >= s.next
    ensures l.Waiting? <==> id in JobIds(s.jobs)
    ensures l.Outstanding? <==> id in s.sent
  {
    hide Inv;
    match l
    case Unissued =>
      if id in JobIds(s.jobs) {
        var i :| 0 <= i < |s.jobs| && RequestId(s.jobs[i]) == id;
        JobKnown(s, i);
      }
      if id in s.sent {
        SentKnown(s, id);
      }
    case Waiting(expiry) =>
      var i :| 0 <= i < |s.jobs| && s.jobs[i].id == id && s.jobs[i].expiry == expiry;
      JobKnown(s, i);
    case Outstanding(_) => SentKnown(s, id);
    case Done(answer) => LogKnown(s, Answered(id, answer));
  }

  lemma {:induction false} SameAnswer(s: State, a: Answered, b: Answered)
    requires Inv(s) && a in s.log && b in s.log && a.id == b.id
    ensures a == b
  {
  }

  // ---- why a request fails

  /** The command was issued with this expiry, before event n. */
  ghost predicate IssuedWith(states: seq<State>, events: seq<Event>, n: nat, id: nat, expiry: int)
    requires IsRun(states, events) && n <= |events|
  {
    exists j :: 0 <= j < n && events[j] == DoIssue(expiry) && states[j].next == id
  }

  lemma {:induction false} KeepsExpiry(states: seq<State>, events: seq<Event>, n: nat, id: nat)
    requires IsRun(states, events) && n <= |events|
    ensures var l := LifeAfter(states, events, n, id);
            l.Waiting? || l.Outstanding? ==> IssuedWith(states, events, n, id, l.expiry)
  {
    if n > 0 {
      KeepsExpiry(states, events, n - 1, id);
    }
  }

  /** The event ended the request's wait: its time had come, or the stream was closing or closed. */
  ghost predicate Ends(states: seq<State>, events: seq<Event>, i: nat, id: nat)
    requires IsRun(states, events) && i < |events|
  {
    match events[i]
    case DoFire(now) => exists expiry :: expiry <= now && IssuedWith(states, events, i, id, expiry)
    case DoTakeUp(k) => k < |states[i].jobs| && states[i].jobs[k].id == id && states[i].closing
    case DoClosed => true
    case _ => false
  }

  /** A request is answered as timed out only if its own time had come, or the stream was closing or closed. */
  lemma {:induction false} TimeoutsAreReal(states: seq<State>, events: seq<Event>, n: nat, id: nat)
    requires IsRun(states, events) && n <= |events| && Answered(id, TimedOut) in states[n].log
    ensures exists i :: 0 <= i < n && Ends(states, events, i, id)
  {
    hide Inv, Step, IssuedWith, Ends;
    RunLives(states, events, n, id);
    assert Lives(states[n], id, Done(TimedOut));
    FailedLife(states, events, n, id);
  }

  lemma {:induction false} FailedLife(states: seq<State>, events: seq<Event>, n: nat, id: nat)
    requires IsRun(states, events) && n <= |events| && LifeAfter(states, events, n, id) == Done(TimedOut)
    ensures exists i :: 0 <= i < n && Ends(states, events, i, id)
  {
    hide Step, IssuedWith;
    if LifeAfter(states, events, n - 1, id) == Done(TimedOut) {
      FailedLife(states, events, n - 1, id);
    } else {
      KeepsExpiry(states, events, n - 1, id);
      assert Ends(states, events, n - 1, id);
    }
  }

  lemma {:induction false} ClosingSince(states: seq<State>, events: seq<Event>, n: nat)
    requires IsRun(states, events) && n <= |events|
    ensures states[n].closing <==> exists i :: 0 <= i < n && (events[i].DoClose? || events[i].DoClosed?)
  {
    hide Inv, Lives;
    if n > 0 {
      ClosingSince(states, events, n - 1);
      RunInv(states, events, n - 1);
      LivesAfter(states, events, n - 1, 0);
      StepLives(states[n - 1], events[n - 1], 0, LifeAfter(states, events, n - 1, 0));
    }
  }
}
