/** The request table as the stream keeps it, with its loops over expiries. */
module RequestTables {
  import opened Common
  import opened Requests

  class RequestTable {
    var nextRid: nat
    var jobs: seq<Request>
    var sentReqs: map<nat, Request>
    var reqExpiries: seq<Expiry>
    var armed: Option<int>
    var isClosing: bool
    var hasTimer: bool
    /** The answers given to callbacks so far. */
    var answers: seq<Answered>

    ghost function State(): State
      reads this
    {
      Requests.State(nextRid, jobs, sentReqs, reqExpiries, armed, isClosing, hasTimer, answers)
    }

    ghost predicate Valid()
      reads this
    {
      Inv(State())
    }

    constructor ()
      ensures Valid() && State() == INITIAL
    {
      nextRid, jobs, sentReqs, reqExpiries := 0, [], map[], [];
      armed, isClosing, hasTimer, answers := None, false, true, [];
      new;
      InitialInv();
    }

    /** Issues a command with a callback; the event loop takes it up later. */
    method Command(expiry: int)
      requires Valid()
      modifies this`nextRid, this`jobs
      ensures Valid() && State() == Issue(old(State()), expiry)
    {
      IssueInv(State(), expiry);
      jobs := jobs + [Request(nextRid, expiry, true)];
      nextRid := nextRid + 1;
    }

    method UpdateTimeout()
      modifies this`armed
      ensures armed == Earliest(reqExpiries)
    {
      armed := if reqExpiries == [] then None else Some(reqExpiries[0].time);
    }

    method InsertExpiry(e: Expiry)
      modifies this`reqExpiries
      ensures reqExpiries == Insert(old(reqExpiries), e)
    {
      ghost var es := reqExpiries;
      var p := |reqExpiries|;
      assert es[..p] == es && es[p..] == [];
      while p > 0 && reqExpiries[p - 1].time > e.time
        invariant 0 <= p <= |es| && reqExpiries == es
        invariant Insert(es, e) == Insert(es[..p], e) + es[p..]
      {
        InsertBefore(es, p, e);
        p := p - 1;
      }
      assert Insert(es[..p], e) == es[..p] + [e];
      reqExpiries := reqExpiries[..p] + [e] + reqExpiries[p..];
    }

    /** The event loop takes up a command: it is added to the table, unless the stream is closing. */
    method AddSentRequest(k: nat)
      requires Valid() && k < |jobs|
      modifies this
      ensures Valid() && State() == TakeUp(old(State()), k)
      ensures var req := old(jobs[k]);
              if isClosing then answers == old(answers) + [Answered(req.id, TimedOut)] && sentReqs == old(sentReqs)
              else req.id in sentReqs && sentReqs[req.id] == req && answers == old(answers)
    {
      hide Inv, Insert;
      WaitingForAnswer(State(), k);
      TakeUpInv(State(), k);
      var req := jobs[k];
      jobs := Without(jobs, k);
      if isClosing {
        answers := Discard(answers, req);
        return;
      }
      sentReqs := sentReqs[req.id := req];
      InsertExpiry(Expiry(req.expiry, req.id));
      InsertNotEmpty(old(reqExpiries), Expiry(req.expiry, req.id));
      if reqExpiries[0].id == req.id {
        UpdateTimeout();
      }
    }

    /** A reply answers its request, if that is still outstanding. */
    method HandleReply(id: nat)
      requires Valid()
      modifies this
      ensures Valid() && State() == Reply(old(State()), id)
    {
      hide Inv, Agree, Sorted, Accounted, IndexOf;
      ReplyInv(State(), id);
      if isClosing || id !in sentReqs {
        return;
      }
      EntryFacts(State(), id);
      var req := sentReqs[id];
      sentReqs := sentReqs - {id};
      var i := FindEntry(req.expiry, req.id);
      OnlyIndex(reqExpiries, Expiry(req.expiry, req.id), i);
      reqExpiries := reqExpiries[..i] + reqExpiries[i + 1..];
      if i == 0 {
        UpdateTimeout();
      }
      answers := Finish(answers, req, Replied);
    }

    /** Finds a request's entry among those with its expiry time. */
    method FindEntry(expiry: int, id: nat) returns (i: nat)
      requires Sorted(reqExpiries) && Expiry(expiry, id) in reqExpiries
      ensures i < |reqExpiries| && reqExpiries[i] == Expiry(expiry, id)
    {
      ghost var k :| 0 <= k < |reqExpiries| && reqExpiries[k] == Expiry(expiry, id);
      i := 0;
      while reqExpiries[i].time < expiry
        invariant i <= k
        decreases |reqExpiries| - i
      {
        i := i + 1;
      }
      while reqExpiries[i].id != id
        invariant i <= k
        decreases |reqExpiries| - i
      {
        i := i + 1;
      }
    }

    /** Takes what is due out of the table, in order of expiry; everything when there is no time. */
    method TakeDue(now: Option<int>) returns (expired: seq<Request>)
      modifies this`sentReqs, this`reqExpiries
      ensures var n := DueCount(old(reqExpiries), now);
              && reqExpiries == old(reqExpiries)[n..]
              && Expire(old(sentReqs), answers, old(reqExpiries)[..n]) == (sentReqs, FinishAll(answers, expired))
    {
      expired := [];
      ghost var sent0, es := sentReqs, reqExpiries;
      var it := 0;
      assert es[0..] == es;
      while it < |reqExpiries| && (now.None? || reqExpiries[it].time <= now.value)
        invariant it <= |reqExpiries| && reqExpiries == es
        invariant DueCount(es, now) == it + DueCount(es[it..], now)
        invariant Expire(sent0, answers, es[..it]) == (sentReqs, FinishAll(answers, expired))
      {
        DueStep(es, it, now);
        ExpireStep(sent0, answers, es, it);
        var id := reqExpiries[it].id;
        if id in sentReqs {
          FinishAllStep(answers, expired, sentReqs[id]);
          expired := expired + [sentReqs[id]];
          sentReqs := sentReqs - {id};
        }
        it := it + 1;
      }
      assert DueCount(es[it..], now) == 0;
      reqExpiries := reqExpiries[it..];
    }

    method CheckTimeouts(now: Option<int>)
      modifies this`sentReqs, this`reqExpiries, this`answers
      ensures State() == Requests.CheckTimeouts(old(State()), now)
    {
      var expired := TakeDue(now);
      hide Expire, DueCount;
      ghost var log := answers;
      var i := 0;
      assert expired[0..] == expired;
      while i < |expired|
        modifies this`answers
        invariant 0 <= i <= |expired|
        invariant FinishAll(log, expired) == FinishAll(answers, expired[i..])
      {
        assert expired[i..][1..] == expired[i + 1..];
        answers := Finish(answers, expired[i], TimedOut);
        i := i + 1;
      }
      assert expired[|expired|..] == [];
    }

    method OnTimer(now: int)
      requires Valid() && hasTimer
      modifies this
      ensures Valid() && State() == Fire(old(State()), now)
    {
      hide Inv, Expire, DueCount;
      FireInv(State(), now);
      CheckTimeouts(Some(now));
      UpdateTimeout();
    }

    method OnClosed()
      requires Valid()
      modifies this
      ensures Valid() && State() == Requests.Closed(old(State()))
      ensures sentReqs == map[] && reqExpiries == []
    {
      hide Inv, Expire, DueCount, Requests.CheckTimeouts, Timeouts;
      ClosedInv(State());
      hasTimer, armed := false, None;
      CheckTimeouts(None);
      isClosing := true;
    }

    /** Commands not taken up fail as their jobs are discarded. */
    method DiscardJobs()
      modifies this`jobs, this`answers
      ensures jobs == [] && answers == DiscardAll(old(answers), old(jobs))
    {
      while jobs != []
        invariant DiscardAll(answers, jobs) == DiscardAll(old(answers), old(jobs))
        decreases |jobs|
      {
        answers := Discard(answers, jobs[0]);
        jobs := jobs[1..];
      }
    }

    /** Outstanding requests fail as they are destroyed, in whatever order. */
    method DiscardSent() returns (ghost order: seq<Request>)
      requires forall id :: id in sentReqs ==> sentReqs[id].id == id
      modifies this`sentReqs, this`answers
      ensures sentReqs == map[] && IsOrder(old(sentReqs), order) && answers == DiscardAll(old(answers), order)
    {
      hide JobIds, DiscardAll, PartOrder;
      ghost var sent, log := sentReqs, answers;
      order := [];
      NoneDiscarded(sent, log);
      while sentReqs != map[]
        invariant PartOrder(sent, sentReqs, order) && answers == DiscardAll(log, order)
        decreases |sentReqs|
      {
        var id :| id in sentReqs;
        var r := sentReqs[id];
        DiscardAllSnoc(log, order, r);
        OneDiscarded(sent, sentReqs, order, id);
        answers := Discard(answers, r);
        order := order + [r];
        sentReqs := sentReqs - {id};
      }
      AllDiscarded(sent, order);
    }

    /** Destruction fails commands not taken up and whatever is still outstanding. */
    method Destroy() returns (ghost order: seq<Request>)
      requires Valid()
      modifies this
      ensures IsOrder(old(sentReqs), order) && answers == Destroyed(old(State()), order)
      ensures jobs == [] && sentReqs == map[] && reqExpiries == []
    {
      SentIds(State());
      hide Inv, JobIds, DiscardAll, IsOrder;
      DiscardJobs();
      reqExpiries := [];
      order := DiscardSent();
    }
  }

  /** `order` lists requests that were in the table, and `left` holds the others. */
  ghost predicate PartOrder(sent: map<nat, Request>, left: map<nat, Request>, order: seq<Request>) {
    && (forall id :: id in sent ==> sent[id].id == id)
    && (forall i :: 0 <= i < |order| ==> order[i].id in sent && order[i] == sent[order[i].id])
    && (forall i, j :: 0 <= i < j < |order| ==> order[i].id != order[j].id)
    && left == sent - JobIds(order)
  }

  lemma {:induction false} NoneDiscarded(sent: map<nat, Request>, log: seq<Answered>)
    requires forall id :: id in sent ==> sent[id].id == id
    ensures PartOrder(sent, sent, []) && DiscardAll(log, []) == log
  {
    assert JobIds([]) == {} && sent - {} == sent;
  }

  lemma {:induction false} OneDiscarded(sent: map<nat, Request>, left: map<nat, Request>, order: seq<Request>, id: nat)
    requires PartOrder(sent, left, order) && id in left
    ensures PartOrder(sent, left - {id}, order + [left[id]]) && |left - {id}| < |left|
  {
    hide JobIds;
    JobsAppend(order, left[id]);
    assert left - {id} == sent - (JobIds(order) + {id});
    assert (left - {id}).Keys == left.Keys - {id};
  }

  lemma {:induction false} AllDiscarded(sent: map<nat, Request>, order: seq<Request>)
    requires PartOrder(sent, map[], order)
    ensures IsOrder(sent, order)
  {
    hide JobIds;
    OrderKeys(sent, order);
  }

  lemma {:induction false} SentIds(s: State)
    requires Inv(s)
    ensures forall id :: id in s.sent ==> s.sent[id].id == id
  {
  }

  lemma {:induction false} EntryFacts(s: State, id: nat)
    requires Inv(s) && id in s.sent
    ensures Sorted(s.expiries) && s.sent[id].id == id && Expiry(s.sent[id].expiry, id) in s.expiries
  {
    EntryOf(s.sent, s.expiries, id);
  }

  lemma {:induction false} WaitingForAnswer(s: State, k: nat)
    requires Inv(s) && k < |s.jobs|
    ensures s.jobs[k].cb
  {
  }

  lemma {:induction false} InsertBefore(es: seq<Expiry>, p: nat, e: Expiry)
    requires 0 < p <= |es| && es[p - 1].time > e.time
    ensures Insert(es[..p], e) + es[p..] == Insert(es[..p - 1], e) + es[p - 1..]
  {
    assert es[..p][..p - 1] == es[..p - 1] && es[p - 1..] == [es[p - 1]] + es[p..];
  }

  lemma {:induction false} DueStep(es: seq<Expiry>, i: nat, now: Option<int>)
    requires i < |es| && (now.None? || es[i].time <= now.value)
    ensures DueCount(es[i..], now) == 1 + DueCount(es[i + 1..], now)
  {
    assert es[i..][1..] == es[i + 1..];
  }

  lemma {:induction false} OrderKeys(sent: map<nat, Request>, order: seq<Request>)
    requires sent - JobIds(order) == map[]
    requires forall i :: 0 <= i < |order| ==> order[i].id in sent
    ensures sent.Keys == JobIds(order)
  {
    forall id | id in sent.Keys
      ensures id in JobIds(order)
    {
      assert id !in (sent - JobIds(order)).Keys;
    }
  }

  lemma {:induction false} DiscardAllSnoc(log: seq<Answered>, rs: seq<Request>, r: Request)
    ensures DiscardAll(log, rs + [r]) == Discard(DiscardAll(log, rs), r)
    decreases rs
  {
    if rs == [] {
      assert [] + [r] == [r] && [r][1..] == [];
    } else {
      assert (rs + [r])[1..] == rs[1..] + [r];
      DiscardAllSnoc(Discard(log, rs[0]), rs[1..], r);
    }
  }

  lemma {:induction false} InsertNotEmpty(es: seq<Expiry>, e: Expiry)
    ensures Insert(es, e) != []
  {
  }

  lemma {:induction false} OnlyIndex(es: seq<Expiry>, e: Expiry, i: nat)
    requires Sorted(es) && i < |es| && es[i] == e
    ensures IndexOf(es, e) == Some(i)
  {
  }

  function FinishAll(log: seq<Answered>, rs: seq<Request>): seq<Answered>
    decreases rs
  {
    if rs == [] then log else FinishAll(Finish(log, rs[0], TimedOut), rs[1..])
  }

  lemma {:induction false} FinishAllStep(log: seq<Answered>, rs: seq<Request>, r: Request)
    ensures FinishAll(log, rs + [r]) == Finish(FinishAll(log, rs), r, TimedOut)
    decreases rs
  {
    if rs == [] {
      assert [] + [r] == [r] && [r][1..] == [];
    } else {
      assert (rs + [r])[1..] == rs[1..] + [r];
      FinishAllStep(Finish(log, rs[0], TimedOut), rs[1..], r);
    }
  }

  lemma {:induction false} ExpireStep(sent: map<nat, Request>, log: seq<Answered>, es: seq<Expiry>, n: nat)
    requires n < |es|
    ensures var (s, l) := Expire(sent, log, es[..n]);
            Expire(sent, log, es[..n + 1]) ==
            if es[n].id in s then (s - {es[n].id}, Finish(l, s[es[n].id], TimedOut)) else (s, l)
    decreases n
  {
    assert es[..n + 1][1..] == es[1..][..n] && (n > 0 ==> es[..n][1..] == es[1..][..n - 1]);
    if n == 0 {
      assert es[..1] == [es[0]] && es[..0] == [];
    } else {
      var id := es[0].id;
      if id in sent {
        ExpireStep(sent - {id}, Finish(log, sent[id], TimedOut), es[1..], n - 1);
      } else {
        ExpireStep(sent, log, es[1..], n - 1);
      }
    }
  }
}
