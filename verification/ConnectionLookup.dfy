/** Finding the connection of a packet: two maps, what each connection knows of its own IDs, and a one-entry cache. */
module ConnectionLookup {
  import opened Common

  type Cid = Bytes

  type Rid = nat

  /** A connection object. */
  type Ptr = nat

  datatype Hit = Hit(cid: Cid, conn: Ptr)

  datatype State = State(
    lookup: map<Cid, Rid>,
    conns: map<Rid, Ptr>,
    cids: map<Rid, set<Cid>>,    // the IDs that each connection has recorded as its own
    last: Option<Hit>
  )

  const START := State(map[], map[], map[], None)

  /** The lookup as it would be without the cache. */
  function Uncached(s: State, c: Cid): Option<Ptr> {
    if c in s.lookup && s.lookup[c] in s.conns then Some(s.conns[s.lookup[c]]) else None
  }

  function Fetch(s: State, c: Cid): (State, Option<Ptr>) {
    if s.last.Some? && s.last.value.cid == c then (s, Some(s.last.value.conn))
    else if Uncached(s, c).Some? then (s.(last := Some(Hit(c, Uncached(s, c).value))), Uncached(s, c))
    else (s, None)
  }

  function Open(s: State, r: Rid, conn: Ptr, c: Cid): State {
    s.(lookup := s.lookup[c := r], conns := s.conns[r := conn], cids := s.cids[r := {c}])
  }

  /** The connection could not be made: what was added for it is taken back. */
  function Fail(s: State): State {
    s.(last := None)
  }

  function Associate(s: State, c: Cid, r: Rid, weakly: bool): State
    requires r in s.cids
  {
    var s1 := if c in s.lookup then s else s.(lookup := s.lookup[c := r]);
    if c !in s.lookup || !weakly then s1.(cids := s1.cids[r := s1.cids[r] + {c}]) else s1
  }

  function Dissociate(s: State, c: Cid, r: Rid): State
    requires r in s.cids
  {
    s.(lookup := s.lookup - {c}, last := None, cids := s.cids[r := s.cids[r] - {c}])
  }

  function Delete(s: State, r: Rid): State
    requires r in s.cids && r in s.conns
  {
    s.(lookup := s.lookup - s.cids[r], conns := s.conns - {r}, cids := s.cids - {r}, last := None)
  }

  datatype Event =
    | DoOpen(rid: Rid, conn: Ptr, cid: Cid)
    | DoFail
    | DoAssociate(cid: Cid, rid: Rid, weakly: bool)
    | DoDissociate(cid: Cid, rid: Rid)
    | DoFetch(cid: Cid)
    | DoDelete(rid: Rid)

  predicate Enabled(s: State, e: Event) {
    match e
    case DoOpen(r, _, c) => r !in s.conns && r !in s.cids && c !in s.lookup
    case DoFail => true
    case DoAssociate(_, r, _) => r in s.conns && r in s.cids
    case DoDissociate(_, r) => r in s.conns && r in s.cids
    case DoFetch(_) => true
    case DoDelete(r) => r in s.conns && r in s.cids
  }

  function Step(s: State, e: Event): State
    requires Enabled(s, e)
  {
    match e
    case DoOpen(r, conn, c) => Open(s, r, conn, c)
    case DoFail => Fail(s)
    case DoAssociate(c, r, weakly) => Associate(s, c, r, weakly)
    case DoDissociate(c, r) => Dissociate(s, c, r)
    case DoFetch(c) => Fetch(s, c).0
    case DoDelete(r) => Delete(s, r)
  }

  // ---- invariants

  /** Every ID that leads to a connection leads to a live one that has recorded it. */
  ghost predicate Recorded(s: State) {
    && s.conns.Keys == s.cids.Keys
    && forall c :: c in s.lookup ==> s.lookup[c] in s.cids && c in s.cids[s.lookup[c]]
  }

  ghost predicate CacheAgrees(s: State) {
    s.last.Some? ==> Uncached(s, s.last.value.cid) == Some(s.last.value.conn)
  }

  /** Nothing is recorded that leads elsewhere. */
  ghost predicate Exclusive(s: State) {
    forall r, c :: r in s.cids && c in s.cids[r] ==> c in s.lookup && s.lookup[c] == r
  }

  ghost predicate Inv(s: State) {
    Recorded(s) && CacheAgrees(s)
  }

  /** An ID that the connection chose itself is new or already its own. */
  predicate Fresh(s: State, e: Event) {
    match e
    case DoAssociate(c, r, weakly) => weakly || c !in s.lookup || s.lookup[c] == r
    case DoDissociate(c, r) => c !in s.lookup || s.lookup[c] == r
    case _ => true
  }

  lemma {:induction false} StepInv(s: State, e: Event)
    requires Inv(s) && Enabled(s, e)
    ensures Inv(Step(s, e))
    ensures Exclusive(s) && Fresh(s, e) ==> Exclusive(Step(s, e))
  {
    match e
    case DoOpen(r, conn, c) => OpenInv(s, r, conn, c);
    case DoAssociate(c, r, weakly) => AssociateInv(s, c, r, weakly);
    case DoDissociate(c, r) => DissociateInv(s, c, r);
    case DoFail | DoFetch(_) =>
    case DoDelete(r) => DeleteInv(s, r);
  }

  lemma {:induction false} OpenInv(s: State, r: Rid, conn: Ptr, c: Cid)
    requires Inv(s) && Enabled(s, DoOpen(r, conn, c))
    ensures Inv(Open(s, r, conn, c)) && (Exclusive(s) ==> Exclusive(Open(s, r, conn, c)))
  {
  }

  lemma {:induction false} AssociateInv(s: State, c: Cid, r: Rid, weakly: bool)
    requires Inv(s) && Enabled(s, DoAssociate(c, r, weakly))
    ensures Inv(Associate(s, c, r, weakly))
    ensures Exclusive(s) && Fresh(s, DoAssociate(c, r, weakly)) ==> Exclusive(Associate(s, c, r, weakly))
  {
  }

  /** A connection that could not be made leaves both maps and all records as they were; only the cache is forgotten. */
  lemma {:induction false} FailUndone(s: State, c: Cid)
    requires Inv(s)
    ensures var t := Step(s, DoFail);
            && t.lookup == s.lookup && t.conns == s.conns && t.cids == s.cids
            && Fetch(t, c).1 == Fetch(s, c).1 == Uncached(s, c)
  {
  }

  /** A new connection is found by its ID, and all others as before. */
  lemma {:induction false} OpenedIsFound(s: State, r: Rid, conn: Ptr, c: Cid, x: Cid)
    requires Inv(s) && Enabled(s, DoOpen(r, conn, c))
    ensures var t := Step(s, DoOpen(r, conn, c));
            && Fetch(t, x).1 == Uncached(t, x) == (if x == c then Some(conn) else Uncached(s, x))
            && t.cids == s.cids[r := {c}]
  {
    OpenInv(s, r, conn, c);
  }

  /** Taking an ID on and giving it up again leaves nothing behind, if it was new. */
  lemma {:induction false} AssociateUndone(s: State, c: Cid, r: Rid, weakly: bool)
    requires Enabled(s, DoAssociate(c, r, weakly)) && c !in s.lookup && c !in s.cids[r]
    ensures Dissociate(Associate(s, c, r, weakly), c, r) == s.(last := None)
  {
    var t := Dissociate(Associate(s, c, r, weakly), c, r);
    assert t.lookup == s.lookup;
    assert s.cids[r] + {c} - {c} == s.cids[r];
    assert t.cids == s.cids;
  }

  lemma {:induction false} DissociateInv(s: State, c: Cid, r: Rid)
    requires Inv(s) && Enabled(s, DoDissociate(c, r))
    ensures Inv(Dissociate(s, c, r))
    ensures Exclusive(s) && Fresh(s, DoDissociate(c, r)) ==> Exclusive(Dissociate(s, c, r))
  {
  }

  lemma {:induction false} DeleteInv(s: State, r: Rid)
    requires Inv(s) && Enabled(s, DoDelete(r))
    ensures Inv(Delete(s, r)) && (Exclusive(s) ==> Exclusive(Delete(s, r)))
    ensures forall c :: c in Delete(s, r).lookup ==> Delete(s, r).lookup[c] != r
  {
  }

  // ---- runs

  predicate CanRun(s: State, events: seq<Event>)
    decreases |events|
  {
    events == [] || (Enabled(s, events[0]) && CanRun(Step(s, events[0]), events[1..]))
  }

  function Run(s: State, events: seq<Event>): State
    requires CanRun(s, events)
    decreases |events|
  {
    if events == [] then s else Run(Step(s, events[0]), events[1..])
  }

  /** At the end of every run, the cached lookup gives what the two maps give, for every ID. */
  lemma {:induction false} LookupAgrees(s: State, events: seq<Event>, c: Cid)
    requires Inv(s) && CanRun(s, events)
    ensures Inv(Run(s, events))
    ensures Fetch(Run(s, events), c).1 == Uncached(Run(s, events), c)
    decreases |events|
  {
    hide Recorded, Enabled, Step;
    if events == [] {
    } else {
      StepInv(s, events[0]);
      LookupAgrees(Step(s, events[0]), events[1..], c);
    }
  }

  ghost predicate FreshRun(s: State, events: seq<Event>)
    requires CanRun(s, events)
    decreases |events|
  {
    events == [] || (Fresh(s, events[0]) && FreshRun(Step(s, events[0]), events[1..]))
  }

  lemma {:induction false} StaysExclusive(s: State, events: seq<Event>)
    requires Inv(s) && Exclusive(s) && CanRun(s, events) && FreshRun(s, events)
    ensures Inv(Run(s, events)) && Exclusive(Run(s, events))
    decreases |events|
  {
    hide Inv, Exclusive, Enabled, Step, Fresh;
    if events == [] {
    } else {
      StepInv(s, events[0]);
      StaysExclusive(Step(s, events[0]), events[1..]);
    }
  }

  // ---- deleting a connection

  /** No ID leads to a deleted connection. */
  lemma {:induction false} DeletedIsForgotten(s: State, r: Rid)
    requires Inv(s) && Enabled(s, DoDelete(r))
    ensures var t := Delete(s, r);
            && r !in t.conns
            && (forall c :: c in t.lookup ==> t.lookup[c] != r)
            && (forall c :: c in s.lookup && s.lookup[c] == r ==> Fetch(t, c).1 == None)
  {
    DeleteInv(s, r);
  }

  /** The other connections keep all their IDs. */
  ghost predicate OthersKept(s: State, t: State, r: Rid) {
    forall c :: c in s.lookup && s.lookup[c] != r ==> c in t.lookup && t.lookup[c] == s.lookup[c]
  }

  /** Deleting a connection leaves the others alone exactly if it has recorded no ID that leads to another. */
  lemma {:induction false} DeleteKeepsOthers(s: State, r: Rid)
    requires Inv(s) && Enabled(s, DoDelete(r))
    ensures OthersKept(s, Delete(s, r), r) <==> forall c :: c in s.cids[r] && c in s.lookup ==> s.lookup[c] == r
  {
    var t := Delete(s, r);
    if OthersKept(s, t, r) {
      forall c | c in s.cids[r] && c in s.lookup
        ensures s.lookup[c] == r
      {
        assert c !in t.lookup;
      }
    }
  }

  /** So it does at the end of every run in which connections only take new IDs. */
  lemma {:induction false} FreshRunKeepsOthers(events: seq<Event>, r: Rid)
    requires CanRun(START, events) && FreshRun(START, events) && Enabled(Run(START, events), DoDelete(r))
    ensures var s := Run(START, events);
            OthersKept(s, Delete(s, r), r)
  {
    var s := Run(START, events);
    StaysExclusive(START, events);
    DeleteKeepsOthers(s, r);
  }

  /** But an ID that a connection takes over from another is lost to both when the one that took it is deleted. */
  lemma {:induction false} CollisionLosesId(a: Cid, b: Cid)
    requires a != b
    ensures var events := [DoOpen(1, 10, a), DoOpen(2, 20, b), DoAssociate(a, 2, false), DoDelete(2)];
            && CanRun(START, events)
            && Run(START, events).conns == map[1 := 10] && Fetch(Run(START, events), a).1 == None
  {
    var e0, e1, e2, e3 := DoOpen(1, 10, a), DoOpen(2, 20, b), DoAssociate(a, 2, false), DoDelete(2);
    var s1 := Step(START, e0);
    var s2 := Step(s1, e1);
    var s3 := Step(s2, e2);
    var s4 := Step(s3, e3);
    assert s4.conns == map[1 := 10] && a !in s4.lookup && s4.last == None;
    FirstStep(s3, e3, []);
    FirstStep(s2, e2, [e3] + []);
    FirstStep(s1, e1, [e2] + ([e3] + []));
    FirstStep(START, e0, [e1] + ([e2] + ([e3] + [])));
    assert [e0, e1, e2, e3] == [e0] + ([e1] + ([e2] + ([e3] + [])));
  }

  lemma {:induction false} FirstStep(s: State, e: Event, events: seq<Event>)
    requires Enabled(s, e) && CanRun(Step(s, e), events)
    ensures CanRun(s, [e] + events) && Run(s, [e] + events) == Run(Step(s, e), events)
  {
    hide Enabled, Step;
    assert ([e] + events)[1..] == events;
  }
}
