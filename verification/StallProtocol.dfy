/**
 * What the connections of an endpoint do when the socket they share is full: the unsent packets stay in the
 * batch, the others queue up, and all are woken once the socket has taken the batch.
 */
module StallProtocol {
  import opened Common
  import opened PacketFates
  import opened SendBatches
  import opened SocketAnswers

  type Id = nat

  /** A packet and the connection that built it. */
  datatype Tagged = Tagged(source: Id, packet: Packet)

  /** A packet that the socket took, and the connection whose path it was sent on. */
  datatype Away = Away(path: Id, packet: Tagged)

  datatype Reason = BySocket | Abandoned | OwnerGone

  datatype Loss = Loss(packet: Tagged, reason: Reason)

  datatype State = State(
    known: set<Id>,
    live: set<Id>,           // those whose events have not been halted
    dead: set<Id>,           // those that failed and wait to be closed
    batch: seq<Tagged>,
    stalled: bool,
    owner: Option<Id>,
    waiters: seq<Id>,
    waiting: set<Id>,        // those whose own flag says that they are among the waiters
    armed: nat,              // callbacks registered for when the socket is writable
    triggered: seq<Id>,      // connections scheduled to flush, as they are scheduled
    built: seq<Tagged>,
    wire: seq<Away>,
    lost: seq<Loss>
  )

  const START := State({}, {}, {}, [], false, None, [], {}, 0, [], [], [], [])

  // ---- sending the batch

  function Aways(path: Id, packets: seq<Tagged>): (r: seq<Away>)
    ensures |r| == |packets|
  {
    seq(|packets|, i requires 0 <= i < |packets| => Away(path, packets[i]))
  }

  function Losses(packets: seq<Tagged>, reason: Reason): (r: seq<Loss>)
    ensures |r| == |packets|
  {
    seq(|packets|, i requires 0 <= i < |packets| => Loss(packets[i], reason))
  }

  /**
   * What sending a batch can come to: packets are kept exactly if it ended blocked, and none sent is behind one
   * kept.
   */
  predicate Possible(n: nat, fates: seq<Fate>, result: Io) {
    |fates| == n && InOrder(fates) && (result.Blocked? <==> Kept in fates)
  }

  /** Which is what the sending of a batch of packets comes to. */
  lemma {:induction false} SendIsPossible(pkts: seq<Packet>, fates: seq<Fate>, left: seq<Packet>, result: Io, path: nat,
                                          before: seq<Out>, wire: seq<Out>)
    requires Account(pkts, fates, left, path, before, wire) && (result.Blocked? <==> left != [])
    ensures Possible(|pkts|, fates, result)
  {
    SelectsNone(pkts, fates, Kept);
  }

  function SendOut(s: State, path: Id, fates: seq<Fate>): State
    requires |fates| == |s.batch|
  {
    s.(batch := Select(s.batch, fates, Kept),
       wire := s.wire + Aways(path, Select(s.batch, fates, Sent)),
       lost := s.lost + Losses(Select(s.batch, fates, TooBig), BySocket)
               + Losses(Select(s.batch, fates, Dropped), BySocket))
  }

  // ---- the four operations on the stall

  function StallSend(s: State, c: Id): State {
    s.(stalled := true, owner := Some(c), armed := s.armed + 1)
  }

  function WaitForStall(s: State, c: Id): State {
    if s.owner == Some(c) || c in s.waiting then s
    else s.(waiting := s.waiting + {c}, waiters := s.waiters + [c])
  }

  function Erase(xs: seq<Id>, c: Id): seq<Id> {
    if xs == [] then [] else (if xs[0] == c then [] else [xs[0]]) + Erase(xs[1..], c)
  }

  function ForgetStall(s: State, c: Id): State {
    var s1 := if s.owner == Some(c) then s.(owner := None) else s;
    if c in s.waiting then s1.(waiters := Erase(s1.waiters, c), waiting := s1.waiting - {c}) else s1
  }

  /** Schedules a flush, unless the connection's events have been halted. */
  function Ready(s: State, c: Id): State {
    if c in s.live then s.(triggered := s.triggered + [c]) else s
  }

  function WakeAll(s: State, cs: seq<Id>): State
    decreases |cs|
  {
    if cs == [] then s else WakeAll(Ready(s.(waiting := s.waiting - {cs[0]}), cs[0]), cs[1..])
  }

  /** The stall is over: the waiters are woken in order, and then the owner. */
  function ClearStall(s: State, owner: Option<Id>): State {
    var s1 := WakeAll(s.(batch := [], stalled := false, owner := None), s.waiters);
    var s2 := s1.(waiters := []);
    if owner.Some? then Ready(s2, owner.value) else s2
  }

  predicate OwnerSends(s: State) {
    s.owner.Some? && s.owner.value !in s.dead
  }

  /** The socket is writable again. */
  function Resume(s: State, fates: seq<Fate>, result: Io): State
    requires OwnerSends(s) ==> |fates| == |s.batch|
    requires s.armed > 0
  {
    var s1 := s.(armed := s.armed - 1);
    if OwnerSends(s) then
      var s2 := SendOut(s1, s.owner.value, fates);
      if result.Blocked? then s2.(armed := s2.armed + 1) else ClearStall(s2, s.owner)
    else
      ClearStall(s1.(lost := s1.lost + Losses(s1.batch, OwnerGone)), s.owner)
  }

  // ---- the connections' side

  /**
   * One batch that a flush builds: it is sent, or abandoned because the connection turns out to be ending or,
   * if `fatal`, to have failed.
   */
  datatype Round =
    | Sends(packets: seq<Packet>, fates: seq<Fate>, result: Io)
    | Abandons(packets: seq<Packet>, fatal: bool)

  function Tag(c: Id, packets: seq<Packet>): (r: seq<Tagged>)
    ensures |r| == |packets|
  {
    seq(|packets|, i requires 0 <= i < |packets| => Tagged(c, packets[i]))
  }

  predicate PossibleRound(r: Round) {
    r.Sends? ==> Possible(|r.packets|, r.fates, r.result)
  }

  ghost predicate PossibleRounds(rounds: seq<Round>) {
    forall i :: 0 <= i < |rounds| ==> PossibleRound(rounds[i])
  }

  function BuildBatch(s: State, c: Id, packets: seq<Packet>): State {
    var tagged := Tag(c, packets);
    s.(batch := s.batch + tagged, built := s.built + tagged)
  }

  function AbandonBatch(s: State, c: Id, fatal: bool): State {
    s.(batch := [], lost := s.lost + Losses(s.batch, Abandoned), dead := if fatal then s.dead + {c} else s.dead)
  }

  /** Builds and sends batch after batch, until one of them does not go through. */
  function FlushRounds(s: State, c: Id, rounds: seq<Round>): State
    requires s.batch == [] && PossibleRounds(rounds)
    decreases |rounds|
  {
    if rounds == [] then s
    else
      var r := rounds[0];
      var s1 := BuildBatch(s, c, r.packets);
      assert PossibleRound(rounds[0]);
      if r.Abandons? then AbandonBatch(s1, c, r.fatal)
      else
        var s2 := SendOut(s1, c, r.fates);
        if r.result.Blocked? then StallSend(s2, c)
        else if r.result.Ok? then
          SelectsNone(s1.batch, r.fates, Kept);
          FlushRounds(s2, c, rounds[1..])
        else s2
  }

  function Flush(s: State, c: Id, rounds: seq<Round>): State
    requires !s.stalled ==> s.batch == []
    requires PossibleRounds(rounds)
  {
    if c in s.dead then s
    else if s.stalled then WaitForStall(s, c)
    else FlushRounds(s, c, rounds)
  }

  datatype Event =
    | DoOpen(id: Id)
    | DoFlush(id: Id, rounds: seq<Round>)
    | DoHalt(id: Id)
    | DoFail(id: Id)
    | DoWritable(fates: seq<Fate>, result: Io)

  /** The events that can happen: only a connection whose events are not halted flushes. */
  ghost predicate Enabled(s: State, e: Event) {
    match e
    case DoOpen(c) => c !in s.known
    case DoFlush(c, rounds) => c in s.live && PossibleRounds(rounds)
    case DoHalt(c) => c in s.known
    case DoFail(c) => c in s.known
    case DoWritable(fates, result) => s.armed > 0 && (OwnerSends(s) ==> Possible(|s.batch|, fates, result))
  }

  function Step(s: State, e: Event): State
    requires !s.stalled ==> s.batch == []
    requires Enabled(s, e)
  {
    match e
    case DoOpen(c) => s.(known := s.known + {c}, live := s.live + {c})
    case DoFlush(c, rounds) => Flush(s, c, rounds)
    case DoHalt(c) => ForgetStall(s.(live := s.live - {c}), c)
    case DoFail(c) => s.(dead := s.dead + {c})
    case DoWritable(fates, result) => Resume(s, fates, result)
  }

  // ---- facts about what becomes of a batch

  lemma {:induction false} SelectedFrom(batch: seq<Tagged>, fates: seq<Fate>, f: Fate)
    requires |fates| == |batch|
    ensures forall p :: p in Select(batch, fates, f) ==> p in batch
  {
    if batch == [] {
    } else {
      SelectedFrom(batch[1..], fates[1..], f);
    }
  }

  function Copies(p: Tagged, xs: seq<Tagged>): nat {
    multiset(xs)[p]
  }

  lemma {:induction false} CopiesConcat(p: Tagged, first: seq<Tagged>, rest: seq<Tagged>)
    ensures Copies(p, first + rest) == Copies(p, first) + Copies(p, rest)
    ensures Copies(p, []) == 0
  {
  }

  lemma {:induction false} SelectCopies(p: Tagged, batch: seq<Tagged>, fates: seq<Fate>)
    requires |fates| == |batch|
    ensures Copies(p, batch) == Copies(p, Select(batch, fates, Sent)) + Copies(p, Select(batch, fates, TooBig))
                                + Copies(p, Select(batch, fates, Dropped)) + Copies(p, Select(batch, fates, Kept))
  {
    hide Copies;
    if batch == [] {
      CopiesConcat(p, [], []);
    } else {
      var rest, frest := batch[1..], fates[1..];
      SelectCopies(p, rest, frest);
      assert batch == [batch[0]] + rest;
      CopiesConcat(p, [batch[0]], rest);
      forall f: Fate
        ensures Copies(p, Select(batch, fates, f)) ==
                Copies(p, Select(rest, frest, f)) + if f == fates[0] then Copies(p, [batch[0]]) else 0
      {
        CopiesConcat(p, if f == fates[0] then [batch[0]] else [], Select(rest, frest, f));
      }
    }
  }

  /** Every packet of a batch has exactly one fate. */
  lemma {:induction false} FatesPartition(batch: seq<Tagged>, fates: seq<Fate>)
    requires |fates| == |batch|
    ensures multiset(batch) == multiset(Select(batch, fates, Sent)) + multiset(Select(batch, fates, TooBig))
                               + multiset(Select(batch, fates, Dropped)) + multiset(Select(batch, fates, Kept))
  {
    hide Select;
    forall p: Tagged
      ensures multiset(batch)[p] ==
              multiset(Select(batch, fates, Sent))[p] + multiset(Select(batch, fates, TooBig))[p]
              + multiset(Select(batch, fates, Dropped))[p] + multiset(Select(batch, fates, Kept))[p]
    {
      SelectCopies(p, batch, fates);
    }
  }

  // ---- what every reachable state satisfies

  ghost predicate Distinct(xs: seq<Id>) {
    xs == [] || (xs[0] !in xs[1..] && Distinct(xs[1..]))
  }

  /** The stall is registered with the socket, and those waiting for it are known, once each, and can be woken. */
  ghost predicate Registered(s: State) {
    && s.live <= s.known
    && (s.stalled <==> s.batch != [])
    && s.armed == (if s.stalled then 1 else 0)
    && (!s.stalled ==> s.owner.None? && s.waiters == [])
    && Distinct(s.waiters)
    && (forall c :: c in s.waiters <==> c in s.waiting)
    && s.waiting <= s.live
    && (s.owner.Some? ==> s.owner.value in s.live && s.owner.value !in s.waiting)
  }

  /** The packets in the batch are those of its owner, which lost them only by being halted. */
  ghost predicate Owned(s: State) {
    forall p :: p in s.batch ==>
      && p.source in s.known
      && (s.owner == Some(p.source) || (s.owner.None? && p.source !in s.live))
  }

  ghost predicate Gone(s: State, c: Id) {
    c in s.known && (c !in s.live || c in s.dead)
  }

  /** Packets go out on the path of the connection that built them, and are discarded only if it has gone. */
  ghost predicate Delivered(s: State) {
    && (forall a :: a in s.wire ==> a.path == a.packet.source)
    && (forall l :: l in s.lost && l.reason == OwnerGone ==> Gone(s, l.packet.source))
  }

  function AwayPackets(wire: seq<Away>): seq<Tagged> {
    Map(wire, (a: Away) => a.packet)
  }

  function LostPackets(lost: seq<Loss>): seq<Tagged> {
    Map(lost, (l: Loss) => l.packet)
  }

  /** Every packet built is on the wire, lost, or still in the batch, and no packet is in two of these. */
  ghost predicate Accounted(s: State) {
    multiset(s.built) == multiset(AwayPackets(s.wire)) + multiset(LostPackets(s.lost)) + multiset(s.batch)
  }

  /** What is on the wire, followed by what is in the batch, is in the order in which it was built. */
  ghost predicate InBuildOrder(s: State) {
    Subsequence(AwayPackets(s.wire) + s.batch, s.built)
  }

  ghost predicate Inv(s: State) {
    Registered(s) && Owned(s) && Delivered(s) && Accounted(s) && InBuildOrder(s)
  }

  // ---- sending

  lemma {:induction false} AwayAppend(wire: seq<Away>, path: Id, packets: seq<Tagged>)
    ensures AwayPackets(wire + Aways(path, packets)) == AwayPackets(wire) + packets
  {
  }

  lemma {:induction false} LostAppend(lost: seq<Loss>, packets: seq<Tagged>, reason: Reason)
    ensures LostPackets(lost + Losses(packets, reason)) == LostPackets(lost) + packets
  {
  }

  lemma {:induction false} SendOutAccounted(s: State, path: Id, fates: seq<Fate>)
    requires |fates| == |s.batch| && Accounted(s)
    ensures Accounted(SendOut(s, path, fates))
  {
    hide Select, AwayPackets, LostPackets, Aways, Losses;
    var sent, big, drop :=
      Select(s.batch, fates, Sent), Select(s.batch, fates, TooBig), Select(s.batch, fates, Dropped);
    FatesPartition(s.batch, fates);
    AwayAppend(s.wire, path, sent);
    LostAppend(s.lost, big, BySocket);
    LostAppend(s.lost + Losses(big, BySocket), drop, BySocket);
  }

  lemma {:induction false} SendOutInOrder(s: State, path: Id, fates: seq<Fate>)
    requires |fates| == |s.batch| && InOrder(fates) && InBuildOrder(s)
    ensures InBuildOrder(SendOut(s, path, fates))
  {
    hide Select, AwayPackets, Aways, Losses, Subsequence, InOrder;
    var sent, kept, away := Select(s.batch, fates, Sent), Select(s.batch, fates, Kept), AwayPackets(s.wire);
    SelectInOrder(s.batch, fates);
    SubsequencePrepend(away, sent + kept, s.batch);
    SubsequenceTransitive(away + (sent + kept), away + s.batch, s.built);
    AwayAppend(s.wire, path, sent);
    assert away + sent + kept == away + (sent + kept);
  }

  lemma {:induction false} SendOutDelivered(s: State, path: Id, fates: seq<Fate>)
    requires |fates| == |s.batch| && Delivered(s) && forall p :: p in s.batch ==> p.source == path
    ensures Delivered(SendOut(s, path, fates))
    ensures forall p :: p in SendOut(s, path, fates).batch ==> p in s.batch
  {
    SelectedFrom(s.batch, fates, Sent);
    SelectedFrom(s.batch, fates, Kept);
  }

  /** Emptying the batch, whatever for, keeps the order. */
  lemma {:induction false} EmptiedInOrder(s: State, t: State)
    requires InBuildOrder(s) && t.batch == [] && t.wire == s.wire && t.built == s.built
    ensures InBuildOrder(t)
  {
    hide Subsequence, AwayPackets;
    var away := AwayPackets(s.wire);
    SubsequencePrefix(away, s.batch);
    SubsequenceTransitive(away, away + s.batch, s.built);
    assert away + [] == away;
  }

  // ---- waking

  /** The others stay, in their order. */
  lemma {:induction false} EraseIs(xs: seq<Id>, c: Id)
    requires Distinct(xs)
    ensures Distinct(Erase(xs, c)) && Subsequence(Erase(xs, c), xs)
    ensures forall x :: x in Erase(xs, c) <==> x in xs && x != c
  {
    hide Subsequence;
    if xs == [] {
      SubsequenceSelf(xs);
    } else {
      var rest := Erase(xs[1..], c);
      EraseIs(xs[1..], c);
      assert xs == [xs[0]] + xs[1..];
      assert ([xs[0]] + rest)[1..] == rest && [] + rest == rest;
      SubsequencePrepend([xs[0]], rest, xs[1..]);
      SubsequenceSkip(rest, xs[0], xs[1..]);
    }
  }

  lemma {:induction false} DistinctAppend(xs: seq<Id>, c: Id)
    requires Distinct(xs) && c !in xs
    ensures Distinct(xs + [c])
  {
    if xs == [] {
    } else {
      DistinctAppend(xs[1..], c);
      assert (xs + [c])[1..] == xs[1..] + [c];
    }
  }

  /** Waking the waiters triggers each of them in turn and clears its flag; nothing else changes. */
  lemma {:induction false} WakeAllIs(s: State, cs: seq<Id>)
    requires forall c :: c in cs ==> c in s.live
    ensures var t := WakeAll(s, cs);
            && t == s.(triggered := t.triggered, waiting := t.waiting)
            && t.triggered == s.triggered + cs
            && (forall c :: c in t.waiting <==> c in s.waiting && c !in cs)
    decreases |cs|
  {
    if cs == [] {
    } else {
      var s1 := Ready(s.(waiting := s.waiting - {cs[0]}), cs[0]);
      WakeAllIs(s1, cs[1..]);
      assert cs == [cs[0]] + cs[1..];
    }
  }

  // ---- each event keeps the invariant

  lemma {:induction false} WaitInv(s: State, c: Id)
    requires Inv(s) && s.stalled && c in s.live
    ensures Inv(WaitForStall(s, c)) && Due(WaitForStall(s, c), c)
    ensures s.waiters <= WaitForStall(s, c).waiters && forall d :: Due(s, d) ==> Due(WaitForStall(s, c), d)
  {
    hide Distinct, Accounted, InBuildOrder;
    if s.owner != Some(c) && c !in s.waiting {
      DistinctAppend(s.waiters, c);
      SameAccount(s, WaitForStall(s, c));
    }
  }

  lemma {:induction false} SameAccount(s: State, t: State)
    requires Accounted(s) && t.built == s.built && t.wire == s.wire && t.lost == s.lost && t.batch == s.batch
    ensures Accounted(t) && (InBuildOrder(s) ==> InBuildOrder(t))
  {
  }

  lemma {:induction false} HaltInv(s: State, c: Id)
    requires Inv(s) && c in s.known
    ensures var t := ForgetStall(s.(live := s.live - {c}), c);
            && Inv(t) && !Due(t, c) && t.stalled == s.stalled && Subsequence(t.waiters, s.waiters)
            && forall d :: d != c ==> (Due(t, d) <==> Due(s, d))
  {
    hide Distinct, Accounted, Erase, InBuildOrder, Subsequence;
    SubsequenceSelf(s.waiters);
    EraseIs(s.waiters, c);
    SameAccount(s, ForgetStall(s.(live := s.live - {c}), c));
  }

  // ---- a flush in progress

  /** Connection c is building and sending packets: nobody waits, and all packets in the batch are its own. */
  ghost predicate Flushing(s: State, c: Id) {
    && s.live <= s.known && c in s.live
    && !s.stalled && s.armed == 0 && s.owner.None? && s.waiters == [] && s.waiting == {}
    && (forall p :: p in s.batch ==> p.source == c)
    && Delivered(s) && Accounted(s) && InBuildOrder(s)
  }

  lemma {:induction false} FlushStarts(s: State, c: Id)
    requires Inv(s) && !s.stalled && c in s.live
    ensures Flushing(s, c) && s.batch == []
  {
    hide Accounted, InBuildOrder, Delivered, Distinct;
  }

  lemma {:induction false} FlushEnds(s: State, c: Id)
    requires Flushing(s, c) && s.batch == []
    ensures Inv(s)
  {
    hide Accounted, InBuildOrder, Delivered;
  }

  /** The socket is full: the connection whose packets are left owns the stall and is due when it clears. */
  lemma {:induction false} StallInv(s: State, c: Id)
    requires Flushing(s, c) && s.batch != []
    ensures Inv(StallSend(s, c)) && Due(StallSend(s, c), c)
  {
    hide Accounted, InBuildOrder;
    SameAccount(s, StallSend(s, c));
  }

  lemma {:induction false} BuildInv(s: State, c: Id, packets: seq<Packet>)
    requires Flushing(s, c) && s.batch == []
    ensures Flushing(BuildBatch(s, c, packets), c) && |BuildBatch(s, c, packets).batch| == |packets|
  {
    hide Subsequence, AwayPackets, LostPackets;
    var tagged, away := Tag(c, packets), AwayPackets(s.wire);
    SubsequenceConcat(away + s.batch, s.built, tagged);
    assert away + s.batch + tagged == away + (s.batch + tagged);
  }

  lemma {:induction false} SendInv(s: State, c: Id, fates: seq<Fate>)
    requires Flushing(s, c) && |fates| == |s.batch| && InOrder(fates)
    ensures Flushing(SendOut(s, c, fates), c)
  {
    hide Accounted, InBuildOrder, Delivered, Select, InOrder, Aways, Losses;
    SendOutAccounted(s, c, fates);
    SendOutInOrder(s, c, fates);
    SendOutDelivered(s, c, fates);
  }

  lemma {:induction false} AbandonInv(s: State, c: Id, fatal: bool)
    requires Flushing(s, c)
    ensures Inv(AbandonBatch(s, c, fatal))
  {
    hide InBuildOrder;
    LostAppend(s.lost, s.batch, Abandoned);
    EmptiedInOrder(s, AbandonBatch(s, c, fatal));
  }

  /** A flush of a single batch. */
  lemma {:induction false} OneRound(s: State, c: Id, r: Round)
    requires s.batch == [] && PossibleRound(r)
    ensures PossibleRounds([r])
    ensures var s1 := BuildBatch(s, c, r.packets);
            FlushRounds(s, c, [r]) ==
            if r.Abandons? then AbandonBatch(s1, c, r.fatal)
            else if r.result.Blocked? then StallSend(SendOut(s1, c, r.fates), c)
            else SendOut(s1, c, r.fates)
  {
    hide SendOut, PossibleRound;
    assert [r][1..] == [];
    if r.Sends? && r.result.Ok? {
      NoneKept(r);
      SendLeaves(BuildBatch(s, c, r.packets), c, r.fates);
      NoRounds(SendOut(BuildBatch(s, c, r.packets), c, r.fates), c);
    }
  }

  lemma {:induction false} NoneKept(r: Round)
    requires r.Sends? && PossibleRound(r)
    ensures |r.fates| == |r.packets| && (r.result.Blocked? <==> Kept in r.fates)
  {
  }

  /** After sending, packets are left exactly if some were kept. */
  lemma {:induction false} SendLeaves(s: State, c: Id, fates: seq<Fate>)
    requires |fates| == |s.batch|
    ensures SendOut(s, c, fates).batch != [] <==> Kept in fates
  {
    SelectsNone(s.batch, fates, Kept);
  }

  lemma {:induction false} NoRounds(s: State, c: Id)
    requires s.batch == []
    ensures PossibleRounds([]) && AllThrough([]) && FlushRounds(s, c, []) == s
  {
  }

  /** The batch went through: it was sent, and the socket may be given another. */
  predicate Through(r: Round) {
    r.Sends? && r.result.Ok?
  }

  predicate AllThrough(rounds: seq<Round>) {
    rounds == [] || (Through(rounds[0]) && AllThrough(rounds[1..]))
  }

  /** A flush that goes on after batches that all went through. */
  lemma {:induction false} OneMoreRound(s: State, c: Id, rounds: seq<Round>, r: Round)
    requires s.batch == [] && PossibleRounds(rounds) && AllThrough(rounds) && PossibleRound(r)
    ensures PossibleRounds(rounds + [r]) && FlushRounds(s, c, rounds).batch == []
    ensures FlushRounds(s, c, rounds + [r]) == FlushRounds(FlushRounds(s, c, rounds), c, [r])
    ensures Through(r) ==> AllThrough(rounds + [r])
    decreases |rounds|
  {
    hide SendOut, PossibleRound, BuildBatch;
    if rounds == [] {
      NoRounds(s, c);
      assert rounds + [r] == [r] && [r][1..] == [];
    } else {
      var first, rest := rounds[0], rounds[1..];
      assert PossibleRound(rounds[0]);
      assert (rounds + [r])[0] == first && (rounds + [r])[1..] == rest + [r];
      var s1 := BuildBatch(s, c, first.packets);
      NoneKept(first);
      BuildLength(s, c, first.packets);
      SendLeaves(s1, c, first.fates);
      OneMoreRound(SendOut(s1, c, first.fates), c, rest, r);
    }
  }

  lemma {:induction false} BuildLength(s: State, c: Id, packets: seq<Packet>)
    requires s.batch == []
    ensures |BuildBatch(s, c, packets).batch| == |packets|
  {
  }

  /** A flush leaves the batch empty, or stalled in the flushing connection's name, and wakes nobody. */
  lemma {:induction false} FlushInv(s: State, c: Id, rounds: seq<Round>)
    requires Inv(s) && !s.stalled && c in s.live && PossibleRounds(rounds)
    ensures var t := FlushRounds(s, c, rounds);
            && Inv(t) && t.triggered == s.triggered && t.live == s.live
            && (if t.stalled then t.owner == Some(c) else t.batch == [])
    decreases |rounds|
  {
    hide Inv, Flushing, Select, Aways, Losses, InOrder, Tag;
    EmptyBatch(s);
    if rounds != [] {
      var r := rounds[0];
      assert PossibleRound(rounds[0]);
      FlushStarts(s, c);
      BuildInv(s, c, r.packets);
      var s1 := BuildBatch(s, c, r.packets);
      if r.Abandons? {
        AbandonInv(s1, c, r.fatal);
      } else {
        SendInv(s1, c, r.fates);
        SelectsNone(s1.batch, r.fates, Kept);
        var s2 := SendOut(s1, c, r.fates);
        if r.result.Blocked? {
          StallInv(s2, c);
        } else {
          FlushEnds(s2, c);
          if r.result.Ok? {
            FlushInv(s2, c, rounds[1..]);
          }
        }
      }
    }
  }

  /** The owner of a stall, if it can still flush. */
  function OwnerLast(s: State, owner: Option<Id>): seq<Id> {
    if owner.Some? && owner.value in s.live then [owner.value] else []
  }

  /** Clearing the stall wakes the waiters, in the order they came, and then the owner if it can still flush. */
  lemma {:induction false} ClearIs(s: State, owner: Option<Id>)
    requires forall c :: c in s.waiters <==> c in s.waiting
    requires s.waiting <= s.live
    ensures var t := ClearStall(s, owner);
            && t == s.(batch := [], stalled := false, owner := None, waiters := [], waiting := {},
                       triggered := t.triggered)
            && t.triggered == s.triggered + s.waiters + OwnerLast(s, owner)
  {
    hide WakeAll;
    WakeAllIs(s.(batch := [], stalled := false, owner := None), s.waiters);
    assert s.waiting - (set c | c in s.waiters) == {};
    assert ClearStall(s, owner).waiting == {};
  }

  lemma {:induction false} ResumeInv(s: State, fates: seq<Fate>, result: Io)
    requires Inv(s) && s.armed > 0 && (OwnerSends(s) ==> Possible(|s.batch|, fates, result))
    ensures Inv(Resume(s, fates, result))
    ensures var t := Resume(s, fates, result);
            if t.stalled then
              t == s.(batch := t.batch, wire := t.wire, lost := t.lost)
            else
              && t.live == s.live
              && t.triggered == s.triggered + s.waiters + OwnerLast(s, s.owner)
  {
    hide Accounted, Select, Aways, Losses, Distinct, ClearStall, InBuildOrder, InOrder;
    var s1 := s.(armed := s.armed - 1);
    if OwnerSends(s) {
      var c := s.owner.value;
      var s2 := SendOut(s1, c, fates);
      SameAccount(s, s1);
      SendOutAccounted(s1, c, fates);
      SendOutInOrder(s1, c, fates);
      SendOutDelivered(s1, c, fates);
      SelectsNone(s1.batch, fates, Kept);
      if result.Blocked? {
        SameAccount(s2, s2.(armed := s2.armed + 1));
      } else {
        ClearIs(s2, s.owner);
        SameAccount(s2, ClearStall(s2, s.owner));
        DistinctNothing();
      }
    } else {
      var s2 := s1.(lost := s1.lost + Losses(s1.batch, OwnerGone));
      ClearIs(s2, s.owner);
      DiscardInv(s, s2, ClearStall(s2, s.owner));
      EmptiedInOrder(s, ClearStall(s2, s.owner));
      DistinctNothing();
    }
  }

  lemma {:induction false} DistinctNothing()
    ensures Distinct([])
  {
  }

  /** The packets of a connection that has gone are discarded. */
  lemma {:induction false} DiscardInv(s: State, s2: State, t: State)
    requires Inv(s) && !OwnerSends(s)
    requires s2 == s.(armed := s2.armed, lost := s.lost + Losses(s.batch, OwnerGone))
    requires t.built == s2.built && t.wire == s2.wire && t.lost == s2.lost && t.batch == []
    requires t.live == s.live && t.known == s.known && t.dead == s.dead
    ensures Accounted(t) && Delivered(t)
  {
    hide Registered;
    LostAppend(s.lost, s.batch, OwnerGone);
  }

  lemma {:induction false} StepInv(s: State, e: Event)
    requires Inv(s) && Enabled(s, e)
    ensures Inv(Step(s, e))
  {
    hide Resume, FlushRounds, WaitForStall, ForgetStall, Distinct, Accounted, InBuildOrder;
    match e
    case DoOpen(c) =>
      SameAccount(s, Step(s, e));
    case DoFlush(c, rounds) =>
      if c !in s.dead {
        if s.stalled { WaitInv(s, c); } else { FlushInv(s, c, rounds); }
      }
    case DoHalt(c) =>
      HaltInv(s, c);
    case DoFail(c) =>
      SameAccount(s, Step(s, e));
    case DoWritable(fates, result) =>
      ResumeInv(s, fates, result);
  }

  // ---- who fails

  /** The rounds reach one that is given up because the connection failed. */
  predicate EndsFatally(rounds: seq<Round>) {
    rounds != [] && if rounds[0].Abandons? then rounds[0].fatal else Through(rounds[0]) && EndsFatally(rounds[1..])
  }

  /** A flush marks its own connection as failed exactly if writing failed for good, and nobody else. */
  lemma {:induction false} FlushMarks(s: State, c: Id, rounds: seq<Round>)
    requires s.batch == [] && PossibleRounds(rounds)
    ensures FlushRounds(s, c, rounds).dead == if EndsFatally(rounds) then s.dead + {c} else s.dead
    decreases |rounds|
  {
    hide Select, Aways, Losses, Tag, InOrder;
    if rounds != [] {
      assert PossibleRound(rounds[0]);
      var s1 := BuildBatch(s, c, rounds[0].packets);
      if Through(rounds[0]) {
        SelectsNone(s1.batch, rounds[0].fates, Kept);
        FlushMarks(SendOut(s1, c, rounds[0].fates), c, rounds[1..]);
      }
    }
  }

  /** Giving up a batch loses all of it for that reason, marks its connection if the failure was fatal, and no more. */
  lemma {:induction false} AbandonIs(s: State, c: Id, fatal: bool)
    ensures var t := AbandonBatch(s, c, fatal);
            && t.batch == [] && LostPackets(t.lost) == LostPackets(s.lost) + s.batch
            && (forall i :: |s.lost| <= i < |t.lost| ==> t.lost[i].reason == Abandoned)
            && t.dead == (if fatal then s.dead + {c} else s.dead)
            && t == s.(batch := t.batch, lost := t.lost, dead := t.dead)
  {
  }

  /** Over every event: a connection has failed exactly if it was failed, or its own flush ended so. */
  lemma {:induction false} StepDead(s: State, e: Event)
    requires Inv(s) && Enabled(s, e)
    ensures Step(s, e).dead ==
            match e
            case DoFail(c) => s.dead + {c}
            case DoFlush(c, rounds) =>
              if c !in s.dead && !s.stalled && EndsFatally(rounds) then s.dead + {c} else s.dead
            case _ => s.dead
  {
    hide Select, Aways, Losses, InOrder, Distinct, FlushRounds;
    EmptyBatch(s);
    match e
    case DoFlush(c, rounds) =>
      if !s.stalled {
        FlushMarks(s, c, rounds);
      }
    case DoWritable(fates, result) => ResumeSends(s, fates, result);
    case _ =>
  }

  /** Waking changes only who is scheduled and who waits. */
  lemma {:induction false} WakesOnly(s: State, cs: seq<Id>)
    ensures var t := WakeAll(s, cs);
            t == s.(triggered := t.triggered, waiting := t.waiting)
    decreases |cs|
  {
    if cs != [] {
      WakesOnly(Ready(s.(waiting := s.waiting - {cs[0]}), cs[0]), cs[1..]);
    }
  }

  // ---- who is sent what

  /** The packets of the batches that a flush comes to. */
  function BuiltBy(rounds: seq<Round>): seq<Packet> {
    if rounds == [] then []
    else rounds[0].packets + if Through(rounds[0]) then BuiltBy(rounds[1..]) else []
  }

  /** Those that the socket took. */
  ghost function SentBy(rounds: seq<Round>): seq<Packet>
    requires PossibleRounds(rounds)
  {
    if rounds == [] || rounds[0].Abandons? then []
    else
      assert PossibleRound(rounds[0]);
      Select(rounds[0].packets, rounds[0].fates, Sent) + if Through(rounds[0]) then SentBy(rounds[1..]) else []
  }

  /** Those that are left because the socket was full. */
  ghost function LeftBy(rounds: seq<Round>): seq<Packet>
    requires PossibleRounds(rounds)
  {
    if rounds == [] || rounds[0].Abandons? then []
    else if Through(rounds[0]) then LeftBy(rounds[1..])
    else
      assert PossibleRound(rounds[0]);
      Select(rounds[0].packets, rounds[0].fates, Kept)
  }

  lemma {:induction false} SelectTag(c: Id, packets: seq<Packet>, fates: seq<Fate>, f: Fate)
    requires |fates| == |packets|
    ensures Select(Tag(c, packets), fates, f) == Tag(c, Select(packets, fates, f))
  {
    if packets == [] {
    } else {
      SelectTag(c, packets[1..], fates[1..], f);
      assert Tag(c, packets)[1..] == Tag(c, packets[1..]);
    }
  }

  lemma {:induction false} TagConcat(c: Id, first: seq<Packet>, rest: seq<Packet>)
    ensures Tag(c, first + rest) == Tag(c, first) + Tag(c, rest)
    ensures Aways(c, Tag(c, first + rest)) == Aways(c, Tag(c, first)) + Aways(c, Tag(c, rest))
  {
  }

  /** A batch of a flush. */
  lemma {:induction false} RoundSends(s: State, c: Id, r: Round)
    requires s.batch == [] && r.Sends? && PossibleRound(r)
    ensures var s1 := BuildBatch(s, c, r.packets);
            && s1.built == s.built + Tag(c, r.packets) && |s1.batch| == |r.fates| == |r.packets|
            && SendOut(s1, c, r.fates).wire == s.wire + Aways(c, Tag(c, Select(r.packets, r.fates, Sent)))
            && SendOut(s1, c, r.fates).batch == Tag(c, Select(r.packets, r.fates, Kept))
  {
    hide Select, Tag, Aways, Losses, InOrder;
    var s1 := BuildBatch(s, c, r.packets);
    assert s1.batch == Tag(c, r.packets);
    SelectTag(c, r.packets, r.fates, Sent);
    SelectTag(c, r.packets, r.fates, Kept);
  }

  /** A flush builds its batches, in order, puts what the socket took on the wire, and leaves what it did not. */
  lemma {:induction false} FlushSends(s: State, c: Id, rounds: seq<Round>)
    requires s.batch == [] && PossibleRounds(rounds)
    ensures var t := FlushRounds(s, c, rounds);
            && t.built == s.built + Tag(c, BuiltBy(rounds))
            && t.wire == s.wire + Aways(c, Tag(c, SentBy(rounds)))
            && t.batch == Tag(c, LeftBy(rounds))
            && t.known == s.known && t.live == s.live
    decreases |rounds|
  {
    hide Select, Tag, Aways, Losses, InOrder, SendOut;
    if rounds != [] {
      var r, rest := rounds[0], rounds[1..];
      assert PossibleRound(rounds[0]);
      TagConcat(c, r.packets, if Through(r) then BuiltBy(rest) else []);
      if r.Sends? {
        RoundSends(s, c, r);
        var s1 := BuildBatch(s, c, r.packets);
        SendKeeps(s1, c, r.fates);
        var sent := Select(r.packets, r.fates, Sent);
        TagConcat(c, sent, if Through(r) then SentBy(rest) else []);
        if Through(r) {
          SelectsNone(r.packets, r.fates, Kept);
          FlushSends(SendOut(s1, c, r.fates), c, rest);
        }
      }
    }
  }

  lemma {:induction false} SendKeeps(s: State, c: Id, fates: seq<Fate>)
    requires |fates| == |s.batch|
    ensures var t := SendOut(s, c, fates);
            t == s.(batch := t.batch, wire := t.wire, lost := t.lost)
  {
  }

  /** What a connection whose turn has come sends, and what is left when the socket is full again. */
  ghost predicate ResumesSending(s: State, fates: seq<Fate>, result: Io, t: State)
    requires |fates| == |s.batch| && s.owner.Some?
  {
    && t.wire == s.wire + Aways(s.owner.value, Select(s.batch, fates, Sent))
    && t.batch == (if result.Blocked? then Select(s.batch, fates, Kept) else [])
  }

  lemma {:induction false} ResumeSends(s: State, fates: seq<Fate>, result: Io)
    requires s.armed > 0 && (OwnerSends(s) ==> |fates| == |s.batch|)
    ensures var t := Resume(s, fates, result);
            && t.known == s.known && t.live == s.live && t.dead == s.dead && t.built == s.built
            && (if OwnerSends(s) then ResumesSending(s, fates, result, t)
                else t.wire == s.wire && t.batch == [] && LostPackets(t.lost) == LostPackets(s.lost) + s.batch)
  {
    hide Select, Aways, WakeAll;
    var s1 := s.(armed := s.armed - 1);
    if OwnerSends(s) {
      WakesOnly(SendOut(s1, s.owner.value, fates).(batch := [], stalled := false, owner := None), s.waiters);
    } else {
      var s2 := s1.(lost := s1.lost + Losses(s1.batch, OwnerGone));
      WakesOnly(s2.(batch := [], stalled := false, owner := None), s.waiters);
      LostAppend(s.lost, s.batch, OwnerGone);
    }
  }

  /** The connection can build packets now. */
  predicate Flushes(s: State, c: Id) {
    c !in s.dead && !s.stalled
  }

  /**
   * Over every event, what is built, what goes on the wire and what waits: only a flush with no stall builds
   * anything, and only it and the owner of a stall send.
   */
  lemma {:induction false} StepSends(s: State, e: Event)
    requires Inv(s) && Enabled(s, e)
    ensures var t := Step(s, e);
            match e
            case DoFlush(c, rounds) =>
              if Flushes(s, c) then
                && t.built == s.built + Tag(c, BuiltBy(rounds))
                && t.wire == s.wire + Aways(c, Tag(c, SentBy(rounds)))
                && t.batch == Tag(c, LeftBy(rounds))
              else
                t.built == s.built && t.wire == s.wire && t.batch == s.batch
            case DoWritable(fates, result) =>
              && t.built == s.built
              && (if OwnerSends(s) then ResumesSending(s, fates, result, t)
                  else t.wire == s.wire && t.batch == [] && LostPackets(t.lost) == LostPackets(s.lost) + s.batch)
            case _ => t.built == s.built && t.wire == s.wire && t.batch == s.batch && t.lost == s.lost
  {
    hide Select, Aways, Losses, LostPackets, InOrder, Distinct, FlushRounds, Resume, Tag, ResumesSending;
    EmptyBatch(s);
    match e
    case DoFlush(c, rounds) =>
      if Flushes(s, c) {
        FlushSends(s, c, rounds);
      }
    case DoWritable(fates, result) => ResumeSends(s, fates, result);
    case _ =>
  }

  /** Over every event, who is known and who can flush. */
  lemma {:induction false} StepKnown(s: State, e: Event)
    requires Inv(s) && Enabled(s, e)
    ensures var t := Step(s, e);
            && t.known == (if e.DoOpen? then s.known + {e.id} else s.known)
            && t.live == (if e.DoOpen? then s.live + {e.id} else if e.DoHalt? then s.live - {e.id} else s.live)
  {
    hide Select, Aways, Losses, LostPackets, InOrder, Distinct, FlushRounds, Resume, Tag, ResumesSending;
    EmptyBatch(s);
    match e
    case DoFlush(c, rounds) =>
      if Flushes(s, c) {
        FlushSends(s, c, rounds);
      }
    case DoWritable(fates, result) => ResumeSends(s, fates, result);
    case _ =>
  }

  // ---- runs

  ghost predicate CanRun(s: State, events: seq<Event>)
    requires Inv(s)
    decreases |events|
  {
    events == [] || (
      && Enabled(s, events[0])
      && (StepInv(s, events[0]); CanRun(Step(s, events[0]), events[1..])))
  }

  ghost function Run(s: State, events: seq<Event>): State
    requires Inv(s) && CanRun(s, events)
    decreases |events|
  {
    if events == [] then s else StepInv(s, events[0]); Run(Step(s, events[0]), events[1..])
  }

  lemma {:induction false} EmptyBatch(s: State)
    requires Inv(s)
    ensures !s.stalled ==> s.batch == []
  {
  }

  lemma {:induction false} StalledBatch(s: State)
    requires Inv(s) && s.armed > 0
    ensures s.stalled && s.batch != []
  {
  }

  lemma {:induction false} StartInv()
    ensures Inv(START)
  {
  }

  /** The invariant holds at the end of every run. */
  lemma {:induction false} RunInv(s: State, events: seq<Event>)
    requires Inv(s) && CanRun(s, events)
    ensures Inv(Run(s, events))
    decreases |events|
  {
    hide Inv, Step, Enabled;
    if events == [] {
    } else {
      EmptyBatch(s);
      StepInv(s, events[0]);
      RunInv(Step(s, events[0]), events[1..]);
    }
  }

  /** The connection is due to be woken when the stall clears. */
  predicate Due(s: State, c: Id) {
    s.stalled && (c in s.waiting || s.owner == Some(c))
  }

  lemma {:induction false} StepTriggers(s: State, e: Event, c: Id)
    requires Inv(s) && Enabled(s, e)
    ensures var t := Step(s, e);
            && s.triggered <= t.triggered
            && (Due(s, c) && e != DoHalt(c) ==> Due(t, c) || c in t.triggered[|s.triggered|..])
  {
    hide Resume, FlushRounds, Accounted, Owned, Delivered, Distinct, InBuildOrder;
    match e
    case DoOpen(_) =>
    case DoFlush(d, rounds) =>
      if d !in s.dead && !s.stalled { FlushInv(s, d, rounds); }
    case DoHalt(_) =>
    case DoFail(_) =>
    case DoWritable(fates, result) =>
      ResumeInv(s, fates, result);
      var t := Step(s, e);
      if !t.stalled {
        var woken := s.waiters + if s.owner.Some? && s.owner.value in s.live then [s.owner.value] else [];
        assert t.triggered == s.triggered + woken && t.triggered[|s.triggered|..] == woken;
      }
  }

  lemma {:induction false} RunTriggers(s: State, events: seq<Event>)
    requires Inv(s) && CanRun(s, events)
    ensures s.triggered <= Run(s, events).triggered
    decreases |events|
  {
    hide Inv, Step, Enabled;
    if events == [] {
    } else {
      EmptyBatch(s);
      StepInv(s, events[0]);
      StepTriggers(s, events[0], 0);
      RunTriggers(Step(s, events[0]), events[1..]);
    }
  }

  /** A connection that is due stays so until it is woken, unless it is halted: no run loses a wake-up. */
  lemma {:induction false} DueIsWoken(s: State, c: Id, events: seq<Event>)
    requires Inv(s) && CanRun(s, events) && Due(s, c) && DoHalt(c) !in events
    ensures var t := Run(s, events);
            s.triggered <= t.triggered && (Due(t, c) || c in t.triggered[|s.triggered|..])
    decreases |events|
  {
    hide Inv, Step, Enabled, Due;
    RunTriggers(s, events);
    if events == [] {
    } else {
      EmptyBatch(s);
      var e := events[0];
      var s1 := Step(s, e);
      StepInv(s, e);
      StepTriggers(s, e, c);
      RunTriggers(s1, events[1..]);
      if Due(s1, c) {
        DueIsWoken(s1, c, events[1..]);
      }
    }
  }

  /**
   * A flush during a stall sends and builds nothing, and from then on the connection, unless it is halted, has
   * either been scheduled again or is still due to be, by a callback that is registered with the socket.
   */
  lemma {:induction false} RefusedIsWoken(s: State, c: Id, rounds: seq<Round>, events: seq<Event>)
    requires Inv(s) && s.stalled && Enabled(s, DoFlush(c, rounds)) && c !in s.dead
    requires CanRun(s, [DoFlush(c, rounds)] + events) && DoHalt(c) !in events
    ensures var waits := WaitForStall(s, c);
            Step(s, DoFlush(c, rounds)) == s.(waiters := waits.waiters, waiting := waits.waiting)
    ensures var t := Run(s, [DoFlush(c, rounds)] + events);
            s.triggered <= t.triggered && (c in t.triggered[|s.triggered|..] || (Due(t, c) && t.armed == 1))
  {
    hide Inv, CanRun, Run;
    var e := DoFlush(c, rounds);
    var all := [e] + events;
    var s1 := Step(s, e);
    StepInv(s, e);
    assert all[1..] == events;
    RunFirst(s, all);
    assert Due(s1, c);
    DueIsWoken(s1, c, events);
    RunInv(s1, events);
    Armed(Run(s1, events));
  }

  lemma {:induction false} RunFirst(s: State, events: seq<Event>)
    requires Inv(s) && CanRun(s, events) && events != []
    ensures Enabled(s, events[0]) && Inv(Step(s, events[0])) && CanRun(Step(s, events[0]), events[1..])
    ensures Run(s, events) == Run(Step(s, events[0]), events[1..])
  {
    hide Inv, Step, Enabled;
    EmptyBatch(s);
    StepInv(s, events[0]);
  }

  lemma {:induction false} Armed(s: State)
    requires Inv(s)
    ensures s.armed == if s.stalled then 1 else 0
  {
  }
}
