/**
 * The outgoing requests of a request stream: a table of requests by ID, a list of expiries ordered by
 * time, the timer that follows it, and the callbacks that have been answered.
 */
module Requests {
  import opened Common

  datatype Answer = Replied | TimedOut

  /** `cb` is set while the caller is still owed an answer. */
  datatype Request = Request(id: nat, expiry: int, cb: bool)

  datatype Expiry = Expiry(time: int, id: nat)

  datatype Answered = Answered(id: nat, answer: Answer)

  /** Hands an answer to the request's callback, unless it has had one. */
  function Deliver(log: seq<Answered>, r: Request, a: Answer): (seq<Answered>, Request) {
    if r.cb then (log + [Answered(r.id, a)], r.(cb := false)) else (log, r)
  }

  /** A request that goes away unanswered has failed. */
  function Discard(log: seq<Answered>, r: Request): seq<Answered> {
    Deliver(log, r, TimedOut).0
  }

  /** Answers a request that has been taken out of the table, after which it goes away. */
  function Finish(log: seq<Answered>, r: Request, a: Answer): seq<Answered> {
    var (log', r') := Deliver(log, r, a);
    Discard(log', r')
  }

  /**
   * `jobs` are commands issued but not yet taken up by the event loop; `armed` is when the timer will
   * fire; `timer` is false once the stream was closed under it.
   */
  datatype State = State(next: nat, jobs: seq<Request>, sent: map<nat, Request>, expiries: seq<Expiry>,
                         armed: Option<int>, closing: bool, timer: bool, log: seq<Answered>)

  const INITIAL := State(0, [], map[], [], None, false, true, [])

  /** Inserts after all entries that are not later. */
  function Insert(es: seq<Expiry>, e: Expiry): seq<Expiry> {
    if es == [] || es[|es| - 1].time <= e.time then es + [e]
    else Insert(es[..|es| - 1], e) + [es[|es| - 1]]
  }

  /** The entry of a request, found among those of its expiry time. */
  function IndexOf(es: seq<Expiry>, e: Expiry): (r: Option<nat>)
    ensures r.Some? ==> r.value < |es| && es[r.value] == e
    ensures r.None? ==> e !in es
  {
    if es == [] then None
    else if es[|es| - 1] == e then Some(|es| - 1)
    else IndexOf(es[..|es| - 1], e)
  }

  /** How many leading entries are due at `now`; all are when there is no time. */
  function DueCount(es: seq<Expiry>, now: Option<int>): (n: nat)
    ensures n <= |es|
  {
    if es == [] || (now.Some? && es[0].time > now.value) then 0 else 1 + DueCount(es[1..], now)
  }

  function Earliest(es: seq<Expiry>): Option<int> {
    if es == [] then None else Some(es[0].time)
  }

  // ---------------------------------------------------------------------------------------------
  // The operations
  // ---------------------------------------------------------------------------------------------

  function Issue(s: State, expiry: int): State {
    s.(next := s.next + 1, jobs := s.jobs + [Request(s.next, expiry, true)])
  }

  /**
   * The event loop takes up a command.  Commands issued elsewhere wait their turn, but one issued on the loop
   * itself is taken up at once, ahead of those.
   */
  function TakeUp(s: State, k: nat): State
    requires k < |s.jobs|
  {
    var r, s1 := s.jobs[k], s.(jobs := Without(s.jobs, k));
    if s.closing then s1.(log := Discard(s.log, r))
    else
      var es := Insert(s.expiries, Expiry(r.expiry, r.id));
      s1.(sent := s.sent[r.id := r], expiries := es,
          armed := if es[0].id == r.id then Earliest(es) else s.armed)
  }

  function Reply(s: State, id: nat): State {
    if s.closing || id !in s.sent then s
    else
      var r := s.sent[id];
      var i := IndexOf(s.expiries, Expiry(r.expiry, r.id));
      var es := if i.Some? then Without(s.expiries, i.value) else s.expiries;
      s.(sent := s.sent - {id}, expiries := es,
         armed := if i == Some(0) then Earliest(es) else s.armed,
         log := Finish(s.log, r, Replied))
  }

  /** Times out the requests of the given entries, in order. */
  function Expire(sent: map<nat, Request>, log: seq<Answered>, es: seq<Expiry>): (map<nat, Request>, seq<Answered>) {
    if es == [] then (sent, log)
    else
      var id := es[0].id;
      if id in sent then Expire(sent - {id}, Finish(log, sent[id], TimedOut), es[1..])
      else Expire(sent, log, es[1..])
  }

  function CheckTimeouts(s: State, now: Option<int>): State {
    var n := DueCount(s.expiries, now);
    var (sent, log) := Expire(s.sent, s.log, s.expiries[..n]);
    s.(sent := sent, log := log, expiries := s.expiries[n..])
  }

  /** The timer fires and is set again. */
  function Fire(s: State, now: int): State {
    var s1 := CheckTimeouts(s, Some(now));
    s1.(armed := Earliest(s1.expiries))
  }

  /** The stream is closed under us: everything outstanding fails. */
  function Closed(s: State): State {
    CheckTimeouts(s.(timer := false, armed := None), None).(closing := true)
  }

  /** Fails the given requests, in order. */
  function DiscardAll(log: seq<Answered>, rs: seq<Request>): seq<Answered>
    decreases rs
  {
    if rs == [] then log else DiscardAll(Discard(log, rs[0]), rs[1..])
  }

  // ---------------------------------------------------------------------------------------------
  // The invariant
  // ---------------------------------------------------------------------------------------------

  function ExpiryId(e: Expiry): nat { e.id }

  function RequestId(r: Request): nat { r.id }

  function AnsweredId(a: Answered): nat { a.id }

  /** The IDs of a list of anything that has one. */
  function IdsOf<T>(xs: seq<T>, id: T -> nat): set<nat> {
    set i | 0 <= i < |xs| :: id(xs[i])
  }

  /** The answers that a list of anything that has an ID gets by failing. */
  function FailedOf<T>(xs: seq<T>, id: T -> nat): seq<Answered> {
    seq(|xs|, i requires 0 <= i < |xs| => Answered(id(xs[i]), TimedOut))
  }

  lemma {:induction false} FailedFirst<T>(xs: seq<T>, id: T -> nat)
    requires xs != []
    ensures FailedOf(xs, id) == [Answered(id(xs[0]), TimedOut)] + FailedOf(xs[1..], id)
  {
  }

  lemma {:induction false} IdsOfAppend<T>(xs: seq<T>, x: T, id: T -> nat)
    ensures IdsOf(xs + [x], id) == IdsOf(xs, id) + {id(x)}
    ensures forall i :: 0 <= i < |xs| ==> id(xs[i]) in IdsOf(xs, id)
  {
    var all := xs + [x];
    forall n | n in IdsOf(xs, id) + {id(x)}
      ensures n in IdsOf(all, id)
    {
      if n == id(x) {
        assert id(all[|xs|]) == n;
      } else {
        var i :| 0 <= i < |xs| && id(xs[i]) == n;
        assert id(all[i]) == n;
      }
    }
  }

  function Ids(es: seq<Expiry>): set<nat> {
    IdsOf(es, ExpiryId)
  }

  ghost predicate Sorted(es: seq<Expiry>) {
    forall i, j :: 0 <= i < j < |es| ==> es[i].time <= es[j].time && es[i].id != es[j].id
  }

  /** The table and the expiries list the same requests, each once and under its own time. */
  ghost predicate Agree(sent: map<nat, Request>, es: seq<Expiry>) {
    && Sorted(es)
    && Ids(es) == sent.Keys
    && (forall i :: 0 <= i < |es| ==> es[i].id in sent && sent[es[i].id].expiry == es[i].time)
    && (forall id :: id in sent ==> sent[id].id == id && sent[id].cb)
  }

  function JobIds(jobs: seq<Request>): set<nat> {
    IdsOf(jobs, RequestId)
  }

  function LogIds(log: seq<Answered>): set<nat> {
    IdsOf(log, AnsweredId)
  }

  function Issued(n: nat): set<nat> {
    if n == 0 then {} else Issued(n - 1) + {n - 1}
  }

  lemma {:induction false} IssuedIs(n: nat, id: nat)
    ensures id in Issued(n) <==> id < n
  {
    if n > 0 {
      IssuedIs(n - 1, id);
    }
  }

  /** Every command issued is in exactly one place: waiting, outstanding, or answered, and once only. */
  ghost predicate Accounted(s: State) {
    && JobIds(s.jobs) + s.sent.Keys + LogIds(s.log) == Issued(s.next)
    && JobIds(s.jobs) !! s.sent.Keys !! LogIds(s.log)
    && (forall i, j :: 0 <= i < j < |s.jobs| ==> s.jobs[i].id != s.jobs[j].id)
    && (forall i :: 0 <= i < |s.jobs| ==> s.jobs[i].cb)
    && (forall i, j :: 0 <= i < j < |s.log| ==> s.log[i].id != s.log[j].id)
  }

  /** While the stream has its timer, the timer is set for the earliest expiry, if there is any. */
  ghost predicate TimerFollows(s: State) {
    && (s.timer ==> s.armed == Earliest(s.expiries))
    && (!s.timer ==> s.closing && s.armed == None)
  }

  ghost predicate Inv(s: State) {
    Agree(s.sent, s.expiries) && Accounted(s) && TimerFollows(s)
  }

  lemma {:induction false} InsertIs(es: seq<Expiry>, e: Expiry)
    requires Sorted(es) && e.id !in Ids(es)
    decreases |es|
    ensures var r := Insert(es, e);
            && Sorted(r) && |r| == |es| + 1
            && Ids(r) == Ids(es) + {e.id}
            && (r[0] == e || (es != [] && r[0] == es[0]))
            && (forall i :: 0 <= i < |r| ==> r[i] == e || r[i] in es)
  {
    hide Ids;
    if es == [] || es[|es| - 1].time <= e.time {
      SortedAppend(es, e);
    } else {
      var front, last := es[..|es| - 1], es[|es| - 1];
      assert es == front + [last];
      SortedFront(es);
      IdsAppend(front, last);
      InsertIs(front, e);
      SortedAppend(Insert(front, e), last);
    }
  }

  /** The new entry goes behind those that are not later and before those that are; they all stay as they were. */
  lemma {:induction false} InsertPlace(es: seq<Expiry>, e: Expiry) returns (p: nat)
    requires Sorted(es)
    ensures p <= |es| && Insert(es, e) == es[..p] + [e] + es[p..]
    ensures (forall x :: x in es[..p] ==> x.time <= e.time) && forall x :: x in es[p..] ==> x.time > e.time
    decreases |es|
  {
    if es == [] || es[|es| - 1].time <= e.time {
      p := |es|;
    } else {
      var front, last := es[..|es| - 1], es[|es| - 1];
      SortedFront(es);
      p := InsertPlace(front, e);
      assert es[p..] == front[p..] + [last] && front[..p] == es[..p];
    }
  }

  lemma {:induction false} SortedAppend(es: seq<Expiry>, e: Expiry)
    requires Sorted(es) && e.id !in Ids(es) && forall x :: x in es ==> x.time <= e.time
    ensures Sorted(es + [e]) && Ids(es + [e]) == Ids(es) + {e.id}
  {
    IdsAppend(es, e);
    forall i | 0 <= i < |es|
      ensures es[i].id != e.id && es[i].time <= e.time
    {
      assert es[i] in es && es[i].id in Ids(es);
    }
  }

  lemma {:induction false} SortedFront(es: seq<Expiry>)
    requires Sorted(es) && es != []
    ensures var front, last := es[..|es| - 1], es[|es| - 1];
            Sorted(front) && last.id !in Ids(front) && forall x :: x in front ==> x.time <= last.time
  {
  }

  lemma {:induction false} IdsAppend(es: seq<Expiry>, e: Expiry)
    ensures Ids(es + [e]) == Ids(es) + {e.id}
  {
    IdsOfAppend(es, e, ExpiryId);
  }

  // ---------------------------------------------------------------------------------------------
  // Every operation keeps it
  // ---------------------------------------------------------------------------------------------

  lemma {:induction false} IssueInv(s: State, expiry: int)
    requires Inv(s)
    ensures Inv(Issue(s, expiry))
  {
    IssuedIs(s.next, s.next);
    JobsAppend(s.jobs, Request(s.next, expiry, true));
  }

  lemma {:induction false} JobsAppend(jobs: seq<Request>, r: Request)
    ensures JobIds(jobs + [r]) == JobIds(jobs) + {r.id}
    ensures forall i :: 0 <= i < |jobs| ==> jobs[i].id in JobIds(jobs)
  {
    IdsOfAppend(jobs, r, RequestId);
  }

  lemma {:induction false} JobRemoved(jobs: seq<Request>, k: nat)
    requires k < |jobs| && forall i, j :: 0 <= i < j < |jobs| ==> jobs[i].id != jobs[j].id
    ensures JobIds(jobs) == JobIds(Without(jobs, k)) + {jobs[k].id} && jobs[k].id !in JobIds(Without(jobs, k))
    ensures forall i, j :: 0 <= i < j < |jobs| - 1 ==> Without(jobs, k)[i].id != Without(jobs, k)[j].id
    ensures (forall i :: 0 <= i < |jobs| ==> jobs[i].cb) ==> forall i :: 0 <= i < |jobs| - 1 ==> Without(jobs, k)[i].cb
  {
    var rest := Without(jobs, k);
    assert forall i :: 0 <= i < |rest| ==> rest[i] == jobs[if i < k then i else i + 1];
    forall id | id in JobIds(jobs)
      ensures id in JobIds(rest) + {jobs[k].id}
    {
      var i :| 0 <= i < |jobs| && jobs[i].id == id;
      if i != k {
        assert rest[if i < k then i else i - 1].id == id;
      }
    }
    forall id | id in JobIds(rest) + {jobs[k].id}
      ensures id in JobIds(jobs)
    {
      if id in JobIds(rest) {
        var i :| 0 <= i < |rest| && rest[i].id == id;
        assert jobs[if i < k then i else i + 1].id == id;
      } else {
        assert jobs[k].id == id;
      }
    }
  }

  lemma {:induction false} LogAppend(log: seq<Answered>, a: Answered)
    ensures LogIds(log + [a]) == LogIds(log) + {a.id}
    ensures forall i :: 0 <= i < |log| ==> log[i].id in LogIds(log)
  {
    IdsOfAppend(log, a, AnsweredId);
  }

  /** Answering moves a request from where it was into the log. */
  lemma {:induction false} AnsweredAccounted(s: State, s': State, a: Answered)
    requires Accounted(s) && s'.next == s.next && s'.log == s.log + [a]
    requires a.id in JobIds(s.jobs) + s.sent.Keys
    requires JobIds(s'.jobs) + s'.sent.Keys == JobIds(s.jobs) + s.sent.Keys - {a.id}
    requires JobIds(s'.jobs) <= JobIds(s.jobs) && s'.sent.Keys <= s.sent.Keys
    requires forall i, j :: 0 <= i < j < |s'.jobs| ==> s'.jobs[i].id != s'.jobs[j].id
    requires forall i :: 0 <= i < |s'.jobs| ==> s'.jobs[i].cb
    ensures Accounted(s')
  {
    LogAppend(s.log, a);
  }

  lemma {:induction false} TakeUpInv(s: State, k: nat)
    requires Inv(s) && k < |s.jobs|
    ensures Inv(TakeUp(s, k))
  {
    hide JobIds, LogIds, Ids, Insert, Issued, Without;
    var r := s.jobs[k];
    JobRemoved(s.jobs, k);
    WithoutLength(s.jobs, k);
    if s.closing {
      AnsweredAccounted(s, TakeUp(s, k), Answered(r.id, TimedOut));
    } else {
      var e := Expiry(r.expiry, r.id);
      assert e.id !in Ids(s.expiries);
      InsertIs(s.expiries, e);
      AgreeInsert(s.sent, s.expiries, r);
      assert s.sent[r.id := r].Keys == s.sent.Keys + {r.id};
    }
  }

  lemma {:induction false} WithoutLength<T>(xs: seq<T>, k: nat)
    requires k < |xs|
    ensures |Without(xs, k)| == |xs| - 1
  {
  }

  lemma {:induction false} AgreeInsert(sent: map<nat, Request>, es: seq<Expiry>, r: Request)
    requires Agree(sent, es) && r.id !in sent && r.cb
    ensures Agree(sent[r.id := r], Insert(es, Expiry(r.expiry, r.id)))
    ensures var es' := Insert(es, Expiry(r.expiry, r.id));
            es' != [] && (if es'[0].id == r.id then true else es != [] && es'[0] == es[0])
  {
    hide Ids, Insert;
    var e := Expiry(r.expiry, r.id);
    InsertIs(es, e);
    var es' := Insert(es, e);
    forall i | 0 <= i < |es'|
      ensures es'[i].id in sent[r.id := r] && sent[r.id := r][es'[i].id].expiry == es'[i].time
    {
      if es'[i] != e {
        var k :| 0 <= k < |es| && es[k] == es'[i];
      }
    }
  }

  lemma {:induction false} RemovedIs(es: seq<Expiry>, i: nat)
    requires Sorted(es) && i < |es|
    ensures |Without(es, i)| == |es| - 1
    ensures Sorted(Without(es, i)) && Ids(Without(es, i)) == Ids(es) - {es[i].id}
    ensures forall k :: 0 <= k < |es| - 1 ==> Without(es, i)[k] == es[if k < i then k else k + 1]
  {
    var r := Without(es, i);
    forall id | id in Ids(es) - {es[i].id}
      ensures id in Ids(r)
    {
      var k :| 0 <= k < |es| && es[k].id == id;
      assert r[if k < i then k else k - 1].id == id;
    }
  }

  lemma {:induction false} ReplyInv(s: State, id: nat)
    requires Inv(s)
    ensures Inv(Reply(s, id))
  {
    hide JobIds, LogIds, Ids, Issued, IndexOf, Without;
    if !s.closing && id in s.sent {
      var r := s.sent[id];
      var e := Expiry(r.expiry, r.id);
      assert e in s.expiries by { EntryOf(s.sent, s.expiries, id); }
      var i := IndexOf(s.expiries, e).value;
      RemovedIs(s.expiries, i);
      assert (s.sent - {id}).Keys == s.sent.Keys - {id};
      AnsweredAccounted(s, Reply(s, id), Answered(id, Replied));
      FrontKept(s.expiries, i);
    }
  }

  lemma {:induction false} FrontKept(es: seq<Expiry>, i: nat)
    requires i < |es|
    ensures i > 0 ==> Earliest(Without(es, i)) == Earliest(es)
  {
  }

  lemma {:induction false} EntryOf(sent: map<nat, Request>, es: seq<Expiry>, id: nat)
    requires Agree(sent, es) && id in sent
    ensures Expiry(sent[id].expiry, id) in es && sent[id].id == id
  {
    assert id in Ids(es);
    var i :| 0 <= i < |es| && es[i].id == id;
    assert es[i] == Expiry(sent[id].expiry, id);
  }

  /** Exactly the entries up to `now` are due, as they are in order of time. */
  lemma {:induction false} DueIs(es: seq<Expiry>, now: Option<int>, i: nat)
    requires Sorted(es) && i < |es|
    ensures i < DueCount(es, now) <==> now.None? || es[i].time <= now.value
  {
    if i > 0 && (now.None? || es[0].time <= now.value) {
      DueIs(es[1..], now, i - 1);
    }
  }

  lemma {:induction false} AllDue(es: seq<Expiry>)
    ensures DueCount(es, None) == |es|
  {
    if es != [] {
      AllDue(es[1..]);
    }
  }

  function Timeouts(es: seq<Expiry>): seq<Answered> {
    FailedOf(es, ExpiryId)
  }

  /** Timing out the first n entries answers them in order, and keeps the rest in agreement. */
  lemma {:induction false} ExpireIs(s: State, n: nat)
    requires Agree(s.sent, s.expiries) && Accounted(s) && n <= |s.expiries|
    ensures var (sent, log) := Expire(s.sent, s.log, s.expiries[..n]);
            && log == s.log + Timeouts(s.expiries[..n])
            && Agree(sent, s.expiries[n..])
            && Accounted(s.(sent := sent, log := log, expiries := s.expiries[n..]))
    decreases n
  {
    hide JobIds, LogIds, Ids, Issued, Accounted, Agree;
    if n == 0 {
      assert s.expiries[0..] == s.expiries;
      assert s.log + Timeouts(s.expiries[..0]) == s.log;
      assert s.(sent := s.sent, log := s.log, expiries := s.expiries) == s;
    } else {
      var e, s1 := s.expiries[0], ExpireOne(s);
      ExpireFirst(s);
      ExpireIs(s1, n - 1);
      assert s.expiries[..n][0] == e && s.expiries[..n][1..] == s1.expiries[..n - 1];
      assert s.expiries[n..] == s1.expiries[n - 1..];
      FailedFirst(s.expiries[..n], ExpiryId);
    }
  }

  /** The request of the first entry has timed out. */
  function ExpireOne(s: State): State
    requires s.expiries != []
  {
    var id := s.expiries[0].id;
    s.(sent := s.sent - {id}, log := s.log + [Answered(id, TimedOut)], expiries := s.expiries[1..])
  }

  lemma {:induction false} ExpireFirst(s: State)
    requires Agree(s.sent, s.expiries) && Accounted(s) && s.expiries != []
    ensures var e, s1 := s.expiries[0], ExpireOne(s);
            && Agree(s1.sent, s1.expiries) && Accounted(s1)
            && e.id in s.sent && Finish(s.log, s.sent[e.id], TimedOut) == s1.log
  {
    hide JobIds, LogIds, Ids, Issued;
    AgreeFirst(s.sent, s.expiries);
    AnsweredAccounted(s, ExpireOne(s), Answered(s.expiries[0].id, TimedOut));
  }

  lemma {:induction false} AgreeFirst(sent: map<nat, Request>, es: seq<Expiry>)
    requires Agree(sent, es) && es != []
    ensures Agree(sent - {es[0].id}, es[1..]) && (sent - {es[0].id}).Keys == sent.Keys - {es[0].id}
  {
    hide Ids, Sorted;
    var rest := es[1..];
    FirstRemoved(es);
    forall i | 0 <= i < |rest|
      ensures rest[i].id in sent - {es[0].id} && sent[rest[i].id].expiry == rest[i].time
    {
      assert rest[i] == es[i + 1];
    }
  }

  lemma {:induction false} FirstRemoved(es: seq<Expiry>)
    requires Sorted(es) && es != []
    ensures Sorted(es[1..]) && Ids(es[1..]) == Ids(es) - {es[0].id}
    ensures forall i :: 0 < i < |es| ==> es[i].id != es[0].id
  {
    RemovedIs(es, 0);
    assert es[..0] + es[1..] == es[1..];
  }

  /** After the timer fires, exactly the requests that had not expired are outstanding. */
  lemma {:induction false} FireInv(s: State, now: int)
    requires Inv(s) && s.timer
    ensures Inv(Fire(s, now))
    ensures forall id :: id in s.sent ==> (id in Fire(s, now).sent <==> s.sent[id].expiry > now)
    ensures Fire(s, now).log == s.log + Timeouts(s.expiries[..DueCount(s.expiries, Some(now))])
  {
    hide JobIds, LogIds, Ids, Issued, Expire, DueCount, Timeouts;
    ExpireIs(s, DueCount(s.expiries, Some(now)));
    forall id | id in s.sent
      ensures id in Fire(s, now).sent <==> s.sent[id].expiry > now
    {
      FireTakes(s, now, id);
    }
  }

  lemma {:induction false} FireTakes(s: State, now: int, id: nat)
    requires Inv(s) && s.timer && id in s.sent
    ensures id in Fire(s, now).sent <==> s.sent[id].expiry > now
  {
    hide JobIds, LogIds, Issued, Expire, Accounted, TimerFollows, Timeouts;
    var n := DueCount(s.expiries, Some(now));
    ExpireIs(s, n);
    EntryOf(s.sent, s.expiries, id);
    var i :| 0 <= i < |s.expiries| && s.expiries[i] == Expiry(s.sent[id].expiry, id);
    DueIs(s.expiries, Some(now), i);
    RestIds(s.expiries, n, i);
  }

  lemma {:induction false} RestIds(es: seq<Expiry>, n: nat, i: nat)
    requires Sorted(es) && n <= |es| && i < |es|
    ensures es[i].id in Ids(es[n..]) <==> i >= n
  {
    if i >= n {
      assert es[n..][i - n].id == es[i].id;
    } else {
      assert forall k :: 0 <= k < |es[n..]| ==> es[n..][k] == es[n + k] && es[n + k].id != es[i].id;
    }
  }

  lemma {:induction false} ClosedInv(s: State)
    requires Inv(s)
    ensures Inv(Closed(s)) && Closed(s).sent == map[] && Closed(s).expiries == []
    ensures Closed(s).log == s.log + Timeouts(s.expiries)
  {
    hide JobIds, LogIds, Issued, Expire, Agree;
    var n := DueCount(s.expiries, None);
    AllDue(s.expiries);
    assert s.expiries[..n] == s.expiries && s.expiries[n..] == [];
    ExpireIs(s, n);
    AgreeEmpty(Closed(s).sent);
  }

  lemma {:induction false} AgreeEmpty(sent: map<nat, Request>)
    requires Agree(sent, [])
    ensures sent == map[]
  {
    assert Ids([]) == {};
  }

  // ---------------------------------------------------------------------------------------------
  // Runs
  // ---------------------------------------------------------------------------------------------

  datatype Event = DoIssue(expiry: int) | DoTakeUp(k: nat) | DoReply(id: nat) | DoFire(now: int) | DoClose | DoClosed

  predicate Possible(s: State, e: Event) {
    match e
    case DoTakeUp(k) => k < |s.jobs|
    case DoFire(now) => s.timer && s.armed.Some? && s.armed.value <= now
    case _ => true
  }

  function Step(s: State, e: Event): State
    requires Possible(s, e)
  {
    match e
    case DoIssue(expiry) => Issue(s, expiry)
    case DoTakeUp(k) => TakeUp(s, k)
    case DoReply(id) => Reply(s, id)
    case DoFire(now) => Fire(s, now)
    case DoClose => s.(closing := true)
    case DoClosed => Closed(s)
  }

  ghost predicate IsRun(states: seq<State>, events: seq<Event>) {
    && |states| == |events| + 1 && states[0] == INITIAL
    && forall i :: 0 <= i < |events| ==> Possible(states[i], events[i]) && states[i + 1] == Step(states[i], events[i])
  }

  lemma {:induction false} StepInv(s: State, e: Event)
    requires Inv(s) && Possible(s, e)
    ensures Inv(Step(s, e))
  {
    hide Agree, Accounted, JobIds, LogIds, Issued, Issue, TakeUp, Reply, Fire, Closed;
    match e
    case DoIssue(expiry) => IssueInv(s, expiry);
    case DoTakeUp(k) => TakeUpInv(s, k);
    case DoReply(id) => ReplyInv(s, id);
    case DoFire(now) => FireInv(s, now);
    case DoClose => CloseInv(s);
    case DoClosed => ClosedInv(s);
  }

  lemma {:induction false} CloseInv(s: State)
    requires Inv(s)
    ensures Inv(s.(closing := true))
  {
  }

  lemma {:induction false} InitialInv()
    ensures Inv(INITIAL)
  {
  }

  /** In every reachable state the two tables agree and the timer follows the earliest expiry. */
  lemma {:induction false} RunInv(states: seq<State>, events: seq<Event>, n: nat)
    requires IsRun(states, events) && n <= |events|
    ensures Inv(states[n])
  {
    hide Inv, Step;
    if n == 0 {
      InitialInv();
    } else {
      RunInv(states, events, n - 1);
      StepInv(states[n - 1], events[n - 1]);
    }
  }

  /**
   * The timer is neither late nor early: while the stream is open it is armed exactly if a request is outstanding, for
   * no later than the expiry of any, and for that of one.
   */
  lemma {:induction false} TimerInTime(states: seq<State>, events: seq<Event>, n: nat)
    requires IsRun(states, events) && n <= |events| && !states[n].closing
    ensures var s := states[n];
            && (s.armed.None? <==> s.sent == map[])
            && forall at :: s.armed == Some(at) ==>
                 && (forall id :: id in s.sent ==> at <= s.sent[id].expiry)
                 && exists id :: id in s.sent && s.sent[id].expiry == at
  {
    RunInv(states, events, n);
    ArmedFor(states[n]);
  }

  lemma {:induction false} ArmedFor(s: State)
    requires Inv(s) && s.timer
    ensures s.armed.None? <==> s.sent == map[]
    ensures s.armed.Some? ==> forall id :: id in s.sent ==> s.armed.value <= s.sent[id].expiry
    ensures s.armed.Some? ==> exists id :: id in s.sent && s.sent[id].expiry == s.armed.value
  {
    hide JobIds, LogIds, Issued, Accounted;
    if s.expiries == [] {
      AgreeEmpty(s.sent);
    } else {
      assert s.expiries[0].id in s.sent;
      forall id | id in s.sent
        ensures s.expiries[0].time <= s.sent[id].expiry
      {
        EntryOf(s.sent, s.expiries, id);
      }
    }
  }

  /** A reply answers an outstanding request; any other, such as a second one, changes nothing. */
  lemma {:induction false} ReplyIs(s: State, id: nat)
    requires Inv(s) && !s.closing
    ensures if id in s.sent then
              && Reply(s, id).log == s.log + [Answered(id, Replied)] && Reply(s, id).sent == s.sent - {id}
              && Reply(Reply(s, id), id) == Reply(s, id)
            else Reply(s, id) == s
  {
  }

  /** The answers a step adds to the log: a reply only for a request that was outstanding when it came. */
  lemma {:induction false} StepAnswers(s: State, e: Event)
    requires Inv(s) && Possible(s, e)
    ensures s.log <= Step(s, e).log
    ensures forall i :: |s.log| <= i < |Step(s, e).log| && Step(s, e).log[i].answer == Replied ==>
              e == DoReply(Step(s, e).log[i].id) && Step(s, e).log[i].id in s.sent && !s.closing
  {
    hide Agree, Accounted, JobIds, LogIds, Issued, Expire, Ids;
    match e
    case DoIssue(_) =>
    case DoTakeUp(_) =>
    case DoReply(id) => EntryKnown(s, id);
    case DoFire(now) => FireInv(s, now);
    case DoClose =>
    case DoClosed => ClosedInv(s);
  }

  lemma {:induction false} EntryKnown(s: State, id: nat)
    requires Inv(s)
    ensures id in s.sent ==> s.sent[id].id == id && s.sent[id].cb
  {
  }

  /** An answer in the log is final, and is a reply only if that reply came for it while it was outstanding. */
  lemma {:induction false} RepliesAreReal(states: seq<State>, events: seq<Event>, n: nat, k: nat)
    requires IsRun(states, events) && n <= |events| && k < |states[n].log| && states[n].log[k].answer == Replied
    ensures exists i :: 0 <= i < n && events[i] == DoReply(states[n].log[k].id) && states[n].log[k].id in states[i].sent
  {
    hide Inv, Step, Possible;
    if n > 0 {
      RunInv(states, events, n - 1);
      StepAnswers(states[n - 1], events[n - 1]);
      if k < |states[n - 1].log| {
        RepliesAreReal(states, events, n - 1, k);
      }
    }
  }

  /** The outstanding requests, each once, in the order the table happens to destroy them. */
  ghost predicate IsOrder(sent: map<nat, Request>, order: seq<Request>) {
    && JobIds(order) == sent.Keys
    && (forall i :: 0 <= i < |order| ==> order[i].id in sent && order[i] == sent[order[i].id])
    && (forall i, j :: 0 <= i < j < |order| ==> order[i].id != order[j].id)
  }

  /** The stream is destroyed: commands not taken up and requests outstanding all fail. */
  function Destroyed(s: State, order: seq<Request>): seq<Answered> {
    DiscardAll(DiscardAll(s.log, s.jobs), order)
  }

  function Failed(rs: seq<Request>): seq<Answered> {
    FailedOf(rs, RequestId)
  }

  lemma {:induction false} DiscardAllIs(log: seq<Answered>, rs: seq<Request>)
    requires forall i :: 0 <= i < |rs| ==> rs[i].cb
    ensures DiscardAll(log, rs) == log + Failed(rs)
    decreases rs
  {
    if rs != [] {
      DiscardAllIs(Discard(log, rs[0]), rs[1..]);
      FailedFirst(rs, RequestId);
    }
  }

  ghost predicate Distinct(log: seq<Answered>) {
    forall i, j :: 0 <= i < j < |log| ==> log[i].id != log[j].id
  }

  ghost predicate IsAnswered(log: seq<Answered>, id: nat) {
    exists i :: 0 <= i < |log| && log[i].id == id
  }

  lemma {:induction false} FailedIs(rs: seq<Request>)
    requires forall i, j :: 0 <= i < j < |rs| ==> rs[i].id != rs[j].id
    ensures LogIds(Failed(rs)) == JobIds(rs) && Distinct(Failed(rs))
  {
    forall id | id in JobIds(rs)
      ensures id in LogIds(Failed(rs))
    {
      var i :| 0 <= i < |rs| && rs[i].id == id;
      assert Failed(rs)[i].id == id;
    }
  }

  lemma {:induction false} LogConcat(a: seq<Answered>, b: seq<Answered>)
    requires Distinct(a) && Distinct(b) && LogIds(a) !! LogIds(b)
    ensures Distinct(a + b) && LogIds(a + b) == LogIds(a) + LogIds(b)
  {
    var log := a + b;
    forall id | id in LogIds(a) + LogIds(b)
      ensures id in LogIds(log)
    {
      if id in LogIds(a) {
        var i :| 0 <= i < |a| && a[i].id == id;
        assert log[i].id == id;
      } else {
        var i :| 0 <= i < |b| && b[i].id == id;
        assert log[|a| + i].id == id;
      }
    }
    forall i, j | 0 <= i < |a| && 0 <= j < |b|
      ensures a[i].id != b[j].id
    {
      assert a[i].id in LogIds(a) && b[j].id in LogIds(b);
    }
  }

  /**
   * Exactly once: after any run, however the stream ends, every command issued has been answered by
   * one entry of the log, and the log has no others.
   */
  lemma {:induction false} ExactlyOnce(states: seq<State>, events: seq<Event>, order: seq<Request>)
    requires IsRun(states, events) && IsOrder(states[|events|].sent, order)
    ensures var s := states[|events|];
            var log := Destroyed(s, order);
            && (forall i :: 0 <= i < |log| ==> log[i].id < s.next)
            && (forall i, j :: 0 <= i < j < |log| ==> log[i].id != log[j].id)
            && (forall id: nat :: id < s.next ==> IsAnswered(log, id))
            && s.log <= log
  {
    hide JobIds, Issued, DiscardAll;
    var s := states[|events|];
    RunInv(states, events, |events|);
    DiscardAllIs(s.log, s.jobs);
    DiscardAllIs(DiscardAll(s.log, s.jobs), order);
    AllAnswered(s, order);
    Spelled(Destroyed(s, order), s.next);
  }

  lemma {:induction false} AllAnswered(s: State, order: seq<Request>)
    requires Inv(s) && IsOrder(s.sent, order)
    ensures var log := s.log + Failed(s.jobs) + Failed(order);
            Distinct(log) && LogIds(log) == Issued(s.next)
  {
    hide JobIds, LogIds, Issued, Failed;
    FailedIs(s.jobs);
    FailedIs(order);
    LogConcat(s.log, Failed(s.jobs));
    LogConcat(s.log + Failed(s.jobs), Failed(order));
  }

  lemma {:induction false} Spelled(log: seq<Answered>, n: nat)
    requires LogIds(log) == Issued(n)
    ensures forall i :: 0 <= i < |log| ==> log[i].id < n
    ensures forall id: nat :: id < n ==> IsAnswered(log, id)
  {
    forall i | 0 <= i < |log|
      ensures log[i].id < n
    {
      assert log[i].id in LogIds(log);
      IssuedIs(n, log[i].id);
    }
    forall id: nat | id < n
      ensures IsAnswered(log, id)
    {
      IssuedIs(n, id);
      assert id in LogIds(log);
    }
  }
}
