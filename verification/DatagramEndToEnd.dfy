/**
 * Both ends together: the pieces the send queue hands out, taken in order by the receive buffer
 * unless they are lost on the way.  Datagrams carry only 14-bit counters, and second pieces may
 * overtake earlier datagrams, yet the receiver delivers whole datagrams in the order they were queued.
 */
module DatagramEndToEnd {
  import opened Common
  import opened Arithmetic
  import opened Reassembly
  import opened ReassemblyRuns
  import Q = DatagramQueues

  /**
   * `queued` counts the datagrams queued so far, so that the entries of the queue are the last ones
   * of them; `top` is the largest number of which any piece arrived; `completed` are the payloads
   * fully sent, in that order; `losses` counts the pieces sent that did not arrive.
   */
  datatype Link = Link(q: Q.Queue, queued: nat, top: Option<nat>, recv: Modular,
                       delivered: seq<Bytes>, completed: seq<Bytes>, losses: nat)
  {
    /** The number of the first datagram in the queue. */
    function First(): int {
      queued - |q.buf|
    }
  }

  datatype Act =
    | Put(payload: Bytes)
    | Transmit(maxPiece: nat, preferSmall: bool, accepted: bool, lost: bool)
    | SetLookahead(n: nat)

  /** What a received datagram does to the receive buffer, and what it delivers. */
  function Receive(c: Config, m: Modular, id: nat, data: Bytes): (Modular, Option<Bytes>)
    requires c.Valid()
  {
    if id % 4 == 0 then (ModularStep(c, m, id / 4, None).0, Some(data))
    else ModularStep(c, m, id / 4, Some(Half(id % 4 == 2, data)))
  }

  function Appended(delivered: seq<Bytes>, r: Option<Bytes>): seq<Bytes> {
    if r.Some? then delivered + [r.value] else delivered
  }

  /** The connection accepts a fetched piece: it is marked sent, and reaches the receiver. */
  function Carry(c: Config, s: Link, p: Q.Prepared): Link
    requires c.Valid() && p.index < |s.q.buf|
  {
    var (m, r) := Receive(c, s.recv, p.id, p.data);
    var n := s.First() + p.index;
    MarkSent(s, p).(
      top := if n >= 0 && (s.top.None? || s.top.value < n) then Some(n) else s.top,
      recv := m, delivered := Appended(s.delivered, r))
  }

  function MarkSent(s: Link, p: Q.Prepared): Link
    requires p.index < |s.q.buf|
  {
    var e := s.q.buf[p.index];
    s.(q := Q.Confirm(s.q, p.index, p.part, |p.data|),
       completed := if Q.Or(e.status, p.part) == Q.SENT then s.completed + [e.payload] else s.completed)
  }

  /** The piece is marked sent all the same, but does not reach the receiver. */
  function Lose(s: Link, p: Q.Prepared): Link
    requires p.index < |s.q.buf|
  {
    MarkSent(s, p).(losses := s.losses + 1)
  }

  function Step(c: Config, s: Link, a: Act): Link
    requires c.Valid()
  {
    match a
    case Put(payload) =>
      s.(q := Q.Emplace(s.q, payload, BaseId(s.queued)), queued := s.queued + 1)
    case Transmit(maxPiece, preferSmall, accepted, lost) =>
      var (q, p) := Q.Fetch(s.q, maxPiece, preferSmall);
      if !accepted || p.None? then s.(q := q)
      else if lost then Lose(s.(q := q), p.value)
      else Carry(c, s.(q := q), p.value)
    case SetLookahead(n) => s.(q := s.q.(lookahead := n))
  }

  function Start(lookahead: nat): Link {
    Link(Q.EmptyQueue(true, lookahead, false), 0, None, EMPTY_MODULAR, [], [], 0)
  }

  function Run(c: Config, lookahead: nat, acts: seq<Act>): Link
    requires c.Valid()
  {
    if acts == [] then Start(lookahead) else Step(c, Run(c, lookahead, Front(acts)), Last(acts))
  }

  // ---------------------------------------------------------------------------------------------
  // The invariant
  // ---------------------------------------------------------------------------------------------

  /** The part of an entry that has been sent. */
  function SentHalf(e: Q.Entry): Half
    requires e.HalfSent() && e.splitPos <= |e.payload|
  {
    if e.status.first then Half(true, e.payload[..e.splitPos]) else Half(false, e.payload[e.splitPos..])
  }

  /**
   * Of the datagrams still queued the receiver holds only halves that were sent, and all of those if `all`;
   * it may hold older ones too.
   */
  ghost predicate HoldsSent(buf: seq<Q.Entry>, first: int, stored: map<int, Half>, all: bool) {
    && (forall n :: n in stored && n >= first ==>
          && n - first < |buf| && buf[n - first].HalfSent() && buf[n - first].splitPos <= |buf[n - first].payload|
          && stored[n] == SentHalf(buf[n - first]))
    && (all ==> forall i :: 0 <= i < |buf| && buf[i].HalfSent() ==> first + i in stored)
  }

  /** The ID of an unsplit datagram: its counter, above two zero bits. */
  function BaseId(n: int): nat {
    4 * (n % COUNTERS)
  }

  ghost predicate Numbered(buf: seq<Q.Entry>, first: int) {
    forall i :: 0 <= i < |buf| ==> buf[i].dgid == BaseId(first + i)
  }

  ghost predicate Inv(c: Config, s: Link, t: Reference)
    requires c.Valid()
  {
    && Q.Inv(s.q) && s.q.early == None && s.q.splitting && s.q.lookahead <= c.blockSize
    && s.First() >= 0
    && Numbered(s.q.buf, s.First())
    && Refines(c, s.recv, t)
    && t.newest.Some? == s.top.Some?
    && (s.top.Some? ==> t.newest.value == Block(c, s.top.value) && s.top.value <= s.First() + c.blockSize)
    && HoldsSent(s.q.buf, s.First(), t.stored, s.losses == 0)
    && Subsequence(s.delivered, s.completed) && (s.losses == 0 ==> s.delivered == s.completed)
  }

  /** The arrival of one of the next blockSize datagrams keeps everything stored from `first` on. */
  lemma {:induction false} ReferenceStep(c: Config, t: Reference, first: nat, a: Arrival)
    requires c.Valid() && first <= a.number <= first + c.blockSize
    requires t.newest.Some? ==> t.newest.value <= Block(c, first) + 1
    ensures var (t', r) := ReferenceArrive(c, t, a);
            var n := a.number;
            && t'.newest ==
               Some(if t.newest.Some? && t.newest.value >= Block(c, n) then t.newest.value else Block(c, n))
            && (forall k :: k >= first && k != n ==> (k in t'.stored <==> k in t.stored))
            && (forall k :: k >= first && k != n && k in t.stored ==> t'.stored[k] == t.stored[k])
            && (a.Whole? ==> r == None && (n in t'.stored <==> n in t.stored))
            && (a.Piece? && n !in t.stored ==> r == None && n in t'.stored && t'.stored[n] == a.half)
            && (a.Piece? && n in t.stored && t.stored[n].first != a.half.first ==>
                  n !in t'.stored && r == Some(Join(t.stored[n], a.half)))
  {
    hide Block;
    var n := a.number;
    BlockMonotone(c, first, n);
    BlockMonotone(c, n, first + c.blockSize);
    BlockStep(c, first);
    forall k | k >= first
      ensures Block(c, k) >= Block(c, n) - 1
    {
      BlockMonotone(c, first, k);
    }
  }

  /** What the receiver makes of a piece of entry i, in terms of its number. */
  function ArrivalOf(p: Q.Prepared, n: nat): Arrival {
    if p.part == Q.SENT then Whole(n) else Piece(n, Half(p.part == Q.SENT_FIRST, p.data))
  }

  lemma {:induction false} ReceiveIsArrival(c: Config, m: Modular, p: Q.Prepared, e: Q.Entry, n: nat)
    requires c.Valid() && e.dgid == BaseId(n) && p.id == Q.PartId(e, p.part)
    requires p.part == Q.SENT || p.part == Q.SENT_FIRST || p.part == Q.SENT_SECOND
    ensures var (m', r) := ModularArrive(c, m, ArrivalOf(p, n));
            Receive(c, m, p.id, p.data) == (m', if p.part == Q.SENT then Some(p.data) else r)
  {
    hide ModularStep;
    assert p.id / 4 == Counter(n);
    assert p.id % 4 == p.id - e.dgid;
  }

  /** A first piece sent of entry i is one more half the receiver holds. */
  lemma {:induction false} HoldsOneMore(buf: seq<Q.Entry>, first: int, i: nat, e: Q.Entry, stored: map<int, Half>,
                                        stored': map<int, Half>, all: bool)
    requires HoldsSent(buf, first, stored, all) && i < |buf| && !buf[i].HalfSent()
    requires e.HalfSent() && e.splitPos <= |e.payload|
    requires first + i in stored' && stored'[first + i] == SentHalf(e)
    requires forall k :: k >= first && k != first + i ==> (k in stored' <==> k in stored)
    requires forall k :: k >= first && k != first + i && k in stored ==> stored'[k] == stored[k]
    ensures HoldsSent(buf[i := e], first, stored', all)
  {
    hide SentHalf;
  }

  /** One whose first piece is lost is not. */
  lemma {:induction false} HoldsNoMore(buf: seq<Q.Entry>, first: int, i: nat, e: Q.Entry, stored: map<int, Half>,
                                       all: bool)
    requires HoldsSent(buf, first, stored, all) && i < |buf| && !buf[i].HalfSent()
    ensures HoldsSent(buf[i := e], first, stored, false)
  {
    hide SentHalf;
  }

  /** Once the head is done the receiver holds the halves of the rest. */
  lemma {:induction false} HoldsRest(buf: seq<Q.Entry>, first: int, stored: map<int, Half>, stored': map<int, Half>,
                                     all: bool)
    requires HoldsSent(buf, first, stored, all) && buf != []
    requires forall k :: k >= first && k != first ==> (k in stored' <==> k in stored)
    requires forall k :: k >= first && k != first && k in stored ==> stored'[k] == stored[k]
    ensures HoldsSent(buf[1..], first + 1, stored', all)
  {
    hide SentHalf;
    forall n | n in stored' && n >= first + 1
      ensures var e := buf[1..][n - (first + 1)];
              && n - (first + 1) < |buf[1..]| && e.HalfSent() && e.splitPos <= |e.payload|
              && stored'[n] == SentHalf(e)
    {
      assert buf[n - first].HalfSent();
      assert buf[1..][n - (first + 1)] == buf[n - first];
    }
    if all {
      forall i | 0 <= i < |buf[1..]| && buf[1..][i].HalfSent()
        ensures first + 1 + i in stored'
      {
        assert buf[1..][i] == buf[i + 1];
        assert first + (i + 1) in stored;
      }
    }
  }

  /** The two halves of an entry make up its payload. */
  lemma {:induction false} HalvesMakePayload(e: Q.Entry, part: Q.Status)
    requires e.HalfSent() && e.splitPos <= |e.payload| && Q.Or(e.status, part) == Q.SENT
    requires part == Q.SENT_FIRST || part == Q.SENT_SECOND
    ensures SentHalf(e).first != (part == Q.SENT_FIRST)
    ensures Join(SentHalf(e), Half(part == Q.SENT_FIRST, Q.PartData(e, part))) == e.payload
  {
    assert e.payload[..e.splitPos] + e.payload[e.splitPos..] == e.payload;
  }

  /** A piece in hand: what Fetch guarantees of it. */
  ghost predicate InHand(q: Q.Queue, p: Q.Prepared) {
    && Q.CanConfirm(q, p.index, p.part, |p.data|)
    && p.index <= q.Head() + q.lookahead
    && p.data == Q.PartData(q.buf[p.index], p.part)
    && p.id == Q.PartId(q.buf[p.index], p.part)
  }

  /**
   * Carrying the last missing piece of the head delivers its payload, if the other half is held; nothing else
   * is delivered.
   */
  lemma {:induction false} CarryDone(c: Config, buf: seq<Q.Entry>, first: nat, t: Reference, p: Q.Prepared, all: bool)
    requires c.Valid() && HoldsSent(buf, first, t.stored, all) && buf != []
    requires t.newest.Some? ==> t.newest.value <= Block(c, first) + 1
    requires p.data == Q.PartData(buf[0], p.part) && Q.Or(buf[0].status, p.part) == Q.SENT
    requires if p.part == Q.SENT then buf[0].status == Q.UNSENT else buf[0].HalfSent()
    requires p.part == Q.SENT || p.part == Q.SENT_FIRST || p.part == Q.SENT_SECOND
    ensures var (t', r) := ReferenceArrive(c, t, ArrivalOf(p, first));
            && HoldsSent(buf[1..], first + 1, t'.stored, all)
            && (if p.part == Q.SENT then p.data == buf[0].payload
                else r == Some(buf[0].payload) || (!all && r == None))
  {
    hide Block, SentHalf, Join, ReferenceArrive, HoldsSent;
    ReferenceStep(c, t, first, ArrivalOf(p, first));
    HoldsRest(buf, first, t.stored, ReferenceArrive(c, t, ArrivalOf(p, first)).0.stored, all);
    if p.part != Q.SENT {
      HeadHeld(buf, first, t.stored, all);
      if first in t.stored {
        HalvesMakePayload(buf[0], p.part);
      }
    }
  }

  lemma {:induction false} HeadHeld(buf: seq<Q.Entry>, first: nat, stored: map<int, Half>, all: bool)
    requires HoldsSent(buf, first, stored, all) && buf != [] && buf[0].HalfSent()
    ensures all ==> first in stored
    ensures first in stored ==> buf[0].splitPos <= |buf[0].payload| && stored[first] == SentHalf(buf[0])
  {
    assert first + 0 == first && first - first == 0;
  }

  /** Carrying a piece of an unsent entry stores it. */
  lemma {:induction false} CarryPart(c: Config, buf: seq<Q.Entry>, first: nat, t: Reference, p: Q.Prepared, all: bool)
    requires c.Valid() && HoldsSent(buf, first, t.stored, all) && p.index < |buf| && p.index <= c.blockSize
    requires t.newest.Some? ==> t.newest.value <= Block(c, first) + 1
    requires p.data == Q.PartData(buf[p.index], p.part) && buf[p.index].status == Q.UNSENT
    requires p.part == Q.SENT_FIRST || p.part == Q.SENT_SECOND
    requires buf[p.index].splitPos <= |buf[p.index].payload|
    ensures var (t', r) := ReferenceArrive(c, t, ArrivalOf(p, first + p.index));
            var e := buf[p.index].(status := Q.Or(buf[p.index].status, p.part));
            HoldsSent(buf[p.index := e], first, t'.stored, all) && r == None
  {
    hide Block, SentHalf, Join, ReferenceArrive, HoldsSent, Q.PartData;
    var n, e := first + p.index, buf[p.index];
    UnsentNotHeld(buf, first, t.stored, p.index, all);
    ReferenceStep(c, t, first, ArrivalOf(p, n));
    PartIsHalf(e, p.part);
    HoldsOneMore(buf, first, p.index, e.(status := Q.Or(e.status, p.part)), t.stored,
                 ReferenceArrive(c, t, ArrivalOf(p, n)).0.stored, all);
  }

  lemma {:induction false} UnsentNotHeld(buf: seq<Q.Entry>, first: nat, stored: map<int, Half>, i: nat, all: bool)
    requires HoldsSent(buf, first, stored, all) && i < |buf| && !buf[i].HalfSent()
    ensures first + i !in stored
  {
    assert first + i - first == i;
  }

  lemma {:induction false} PartIsHalf(e: Q.Entry, part: Q.Status)
    requires e.status == Q.UNSENT && e.splitPos <= |e.payload|
    requires part == Q.SENT_FIRST || part == Q.SENT_SECOND
    ensures var e' := e.(status := Q.Or(e.status, part));
            e'.HalfSent() && SentHalf(e') == Half(part == Q.SENT_FIRST, Q.PartData(e, part))
  {
  }

  lemma {:induction false} TopBound(c: Config, s: Link, t: Reference)
    requires c.Valid() && Inv(c, s, t)
    ensures t.newest.Some? ==> t.newest.value <= Block(c, s.First()) + 1
  {
    if s.top.Some? {
      BlockMonotone(c, s.top.value, s.First() + c.blockSize);
      BlockStep(c, s.First());
    }
  }

  /** What carrying a piece does to what the receiver holds, and that nothing is delivered but what it completes. */
  lemma {:induction false} CarryHolds(c: Config, s: Link, t: Reference, p: Q.Prepared)
    requires c.Valid() && Inv(c, s, t) && InHand(s.q, p)
    ensures var s', (t', r) := MarkSent(s, p), ReferenceArrive(c, t, ArrivalOf(p, s.First() + p.index));
            var got, payload := if p.part == Q.SENT then Some(p.data) else r, s.q.buf[p.index].payload;
            && HoldsSent(s'.q.buf, s'.First(), t'.stored, s.losses == 0)
            && (|| (s'.completed == s.completed && got == None)
                || (s'.completed == s.completed + [payload] && (got == Some(payload) || (s.losses > 0 && got == None))))
  {
    hide Block, Refines, ReferenceArrive, HoldsSent, Q.PartData, Q.PartId, Subsequence;
    TopBound(c, s, t);
    var e := s.q.buf[p.index];
    if Q.Or(e.status, p.part) == Q.SENT {
      CarryDone(c, s.q.buf, s.First(), t, p, s.losses == 0);
      assert Q.Confirm(s.q, p.index, p.part, |p.data|).buf == s.q.buf[1..];
      assert MarkSent(s, p).completed == s.completed + [e.payload];
    } else {
      CarryPart(c, s.q.buf, s.First(), t, p, s.losses == 0);
    }
  }

  /** Carrying a piece keeps the invariant. */
  lemma {:induction false} CarryInv(c: Config, s: Link, t: Reference, p: Q.Prepared)
    requires c.Valid() && Inv(c, s, t) && InHand(s.q, p)
    requires InWindow(c, t.newest, s.First() + p.index)
    ensures Inv(c, Carry(c, s, p), ReferenceArrive(c, t, ArrivalOf(p, s.First() + p.index)).0)
  {
    hide Block, Refines, ReferenceArrive, HoldsSent, Q.PartData, Q.PartId, Q.Inv, ModularStep, InWindow, Subsequence,
        Numbered, Q.Confirm;
    var n, e := s.First() + p.index, s.q.buf[p.index];
    var a := ArrivalOf(p, n);
    NumberIs(s.q.buf, s.First(), p.index);
    ReceiveIsArrival(c, s.recv, p, e, n);
    ArriveRefines(c, s.recv, t, a);
    SentQueue(s, p);
    CarryTop(c, s, t, p);
    CarryHolds(c, s, t, p);
    SubsequenceAppend(s.delivered, s.completed, e.payload);
  }

  lemma {:induction false} NumberIs(buf: seq<Q.Entry>, first: int, i: nat)
    requires Numbered(buf, first) && i < |buf|
    ensures buf[i].dgid == BaseId(first + i)
  {
  }

  /** What marking a piece sent does to the queue and its numbers. */
  lemma {:induction false} SentQueue(s: Link, p: Q.Prepared)
    requires Q.Inv(s.q) && s.q.early == None && Numbered(s.q.buf, s.First()) && InHand(s.q, p)
    ensures var s' := MarkSent(s, p);
            && Q.Inv(s'.q) && s'.q == s.q.(buf := s'.q.buf, unsentBytes := s'.q.unsentBytes)
            && Numbered(s'.q.buf, s'.First()) && s.First() <= s'.First() <= s.First() + 1
  {
    hide Q.PartData, Q.PartId, Q.Inv, BaseId;
    Q.ConfirmInv(s.q, p.index, p.part, |p.data|);
    var e := s.q.buf[p.index].(status := Q.Or(s.q.buf[p.index].status, p.part));
    assert Numbered(s.q.buf[p.index := e], s.First());
  }

  /** The newest block follows the largest number that arrived. */
  lemma {:induction false} CarryTop(c: Config, s: Link, t: Reference, p: Q.Prepared)
    requires c.Valid() && Inv(c, s, t) && InHand(s.q, p)
    ensures var t', top := ReferenceArrive(c, t, ArrivalOf(p, s.First() + p.index)).0, Carry(c, s, p).top;
            && t'.newest.Some? && top.Some? && t'.newest.value == Block(c, top.value)
            && top.value <= s.First() + c.blockSize
  {
    hide Block, Refines, ReferenceArrive, HoldsSent, Q.PartData, Q.PartId, Q.Inv, Receive, Subsequence, MarkSent,
        Numbered;
    var n := s.First() + p.index;
    TopBound(c, s, t);
    ReferenceStep(c, t, s.First(), ArrivalOf(p, n));
    TopStep(c, s.top, n);
  }

  /** So does losing one. */
  lemma {:induction false} LoseInv(c: Config, s: Link, t: Reference, p: Q.Prepared)
    requires c.Valid() && Inv(c, s, t) && InHand(s.q, p)
    ensures Inv(c, Lose(s, p), t)
  {
    hide Block, Refines, HoldsSent, Q.PartData, Q.PartId, Q.Inv, Subsequence, Numbered, Q.Confirm;
    SentQueue(s, p);
    LoseHolds(s, p, t.stored);
    SubsequenceAppend(s.delivered, s.completed, s.q.buf[p.index].payload);
  }

  lemma {:induction false} LoseHolds(s: Link, p: Q.Prepared, stored: map<int, Half>)
    requires Q.Inv(s.q) && s.q.early == None && InHand(s.q, p) && HoldsSent(s.q.buf, s.First(), stored, s.losses == 0)
    ensures var s' := MarkSent(s, p);
            HoldsSent(s'.q.buf, s'.First(), stored, false)
  {
    hide HoldsSent, Q.PartData, Q.PartId, Q.Inv;
    var e := s.q.buf[p.index];
    Q.ConfirmInv(s.q, p.index, p.part, |p.data|);
    if Q.Or(e.status, p.part) == Q.SENT {
      HoldsWeaker(s.q.buf, s.First(), stored, s.losses == 0);
      HoldsRest(s.q.buf, s.First(), stored, stored, false);
      assert Q.Confirm(s.q, p.index, p.part, |p.data|).buf == s.q.buf[1..];
    } else {
      HoldsNoMore(s.q.buf, s.First(), p.index, e.(status := Q.Or(e.status, p.part)), stored, s.losses == 0);
    }
  }

  lemma {:induction false} HoldsWeaker(buf: seq<Q.Entry>, first: int, stored: map<int, Half>, all: bool)
    requires HoldsSent(buf, first, stored, all)
    ensures HoldsSent(buf, first, stored, false)
  {
    hide SentHalf;
  }

  lemma {:induction false} TopStep(c: Config, top: Option<nat>, n: nat)
    requires c.Valid()
    ensures top.Some? && top.value < n ==> Block(c, top.value) <= Block(c, n)
    ensures top.Some? && top.value >= n ==> Block(c, top.value) >= Block(c, n)
  {
    if top.Some? {
      if top.value < n {
        BlockMonotone(c, top.value, n);
      } else {
        BlockMonotone(c, n, top.value);
      }
    }
  }

  /** Dropping leading datagrams does not concern the receiver. */
  lemma {:induction false} DropLink(c: Config, s: Link, t: Reference, maxPiece: nat)
    requires c.Valid() && Inv(c, s, t)
    ensures Inv(c, s.(q := Q.DropUnsendable(s.q, maxPiece)), t)
    ensures |Q.DropUnsendable(s.q, maxPiece).buf| <= |s.q.buf|
  {
    hide Refines, HoldsSent, Block, Q.Inv, Q.WithinLookahead, Numbered, Q.DropUnsendable, Q.OnlyUnsendable, Subsequence;
    Q.DropInv(s.q, maxPiece);
    var d := |s.q.buf| - |Q.DropUnsendable(s.q, maxPiece).buf|;
    HoldsDropped(s.q.buf, s.First(), t.stored, d, s.losses == 0);
    NumberedDropped(s.q.buf, s.First(), d);
  }

  /** Neither does splitting a datagram not yet sent. */
  lemma {:induction false} FetchLink(c: Config, s: Link, t: Reference, maxPiece: nat, preferSmall: bool)
    requires c.Valid() && Inv(c, s, t)
    ensures var (q, p) := Q.Fetch(s.q, maxPiece, preferSmall);
            && Inv(c, s.(q := q), t)
            && (p.Some? ==> InHand(q, p.value))
            && |q.buf| == |Q.DropUnsendable(s.q, maxPiece).buf| <= |s.q.buf|
  {
    hide Refines, HoldsSent, Block, Q.Inv, Q.PartData, Q.PartId, Q.WithinLookahead, Q.Chosen, Q.DropUnsendable;
    Q.FetchInv(s.q, maxPiece, preferSmall);
    DropLink(c, s, t, maxPiece);
    var q1 := Q.DropUnsendable(s.q, maxPiece);
    var (q, p) := Q.Fetch(s.q, maxPiece, preferSmall);
    if p.Some? {
      var i := p.value.index;
      Q.ChosenInRange(q1, maxPiece, preferSmall);
      assert q.buf == q1.buf[i := Q.WithSplit(q1.buf[i], p.value.part, maxPiece)];
      HoldsResplit(q1.buf, s.(q := q1).First(), t.stored, i, q.buf[i], s.losses == 0);
    }
  }

  lemma {:induction false} HoldsDropped(buf: seq<Q.Entry>, first: int, stored: map<int, Half>, d: nat, all: bool)
    requires HoldsSent(buf, first, stored, all) && d <= |buf|
    ensures HoldsSent(buf[d..], first + d, stored, all)
  {
    hide SentHalf;
    forall n | n in stored && n >= first + d
      ensures var e := buf[d..][n - (first + d)];
              && n - (first + d) < |buf[d..]| && e.HalfSent() && e.splitPos <= |e.payload|
              && stored[n] == SentHalf(e)
    {
      assert buf[n - first].HalfSent();
      assert buf[d..][n - (first + d)] == buf[n - first];
    }
    if all {
      forall i | 0 <= i < |buf[d..]| && buf[d..][i].HalfSent()
        ensures first + d + i in stored
      {
        assert buf[d..][i] == buf[d + i];
        assert first + (d + i) in stored;
      }
    }
  }

  lemma {:induction false} NumberedDropped(buf: seq<Q.Entry>, first: int, d: nat)
    requires Numbered(buf, first) && d <= |buf|
    ensures Numbered(buf[d..], first + d)
  {
    hide BaseId;
    forall i | 0 <= i < |buf| - d
      ensures buf[d..][i].dgid == BaseId(first + d + i)
    {
      assert buf[d..][i] == buf[d + i];
      assert first + (d + i) == first + d + i;
    }
  }

  lemma {:induction false} HoldsResplit(buf: seq<Q.Entry>, first: int, stored: map<int, Half>, i: nat, e: Q.Entry,
                                        all: bool)
    requires HoldsSent(buf, first, stored, all) && i < |buf|
    requires e == buf[i] || (!e.HalfSent() && !buf[i].HalfSent())
    ensures HoldsSent(buf[i := e], first, stored, all)
  {
    hide SentHalf;
  }

  lemma {:induction false} PutLink(c: Config, s: Link, t: Reference, payload: Bytes)
    requires c.Valid() && Inv(c, s, t)
    ensures Inv(c, Step(c, s, Put(payload)), t)
  {
    hide Refines, Block, Q.Inv, SentHalf;
    Q.EmplaceInv(s.q, payload, BaseId(s.queued));
    var s' := Step(c, s, Put(payload));
    assert s'.First() == s.First();
  }

  // ---------------------------------------------------------------------------------------------
  // Runs
  // ---------------------------------------------------------------------------------------------

  function TopBlock(c: Config, top: Option<nat>): Option<int>
    requires c.Valid()
  {
    if top.Some? then Some(Block(c, top.value)) else None
  }

  /**
   * What a run may do: the lookahead is at most half the receiver's buffer, and drops and losses do not make the
   * numbers that arrive jump too many blocks ahead.
   */
  ghost predicate Permitted(c: Config, s: Link, a: Act)
    requires c.Valid()
  {
    match a
    case Put(_) => true
    case SetLookahead(n) => n <= c.blockSize
    case Transmit(maxPiece, preferSmall, accepted, lost) =>
      var (q, p) := Q.Fetch(s.q, maxPiece, preferSmall);
      accepted && p.Some? && !lost && s.top.Some? ==>
        Block(c, s.(q := q).First() + p.value.index) <= Block(c, s.top.value) + c.nblocks - c.reorderBlocks
  }

  ghost predicate PermittedRun(c: Config, lookahead: nat, acts: seq<Act>)
    requires c.Valid()
  {
    acts == [] ||
    (PermittedRun(c, lookahead, Front(acts)) && Permitted(c, Run(c, lookahead, Front(acts)), Last(acts)))
  }

  lemma {:induction false} StepInv(c: Config, s: Link, t: Reference, a: Act) returns (t': Reference)
    requires c.Valid() && Inv(c, s, t) && Permitted(c, s, a)
    ensures Inv(c, Step(c, s, a), t')
  {
    hide Refines, HoldsSent, Block, Q.Inv, Q.Fetch, Carry, Lose, InWindow, Numbered, Subsequence;
    t' := t;
    match a
    case Put(payload) => PutLink(c, s, t, payload);
    case SetLookahead(n) => Q.LookaheadInv(s.q, n);
    case Transmit(maxPiece, preferSmall, accepted, lost) =>
      FetchLink(c, s, t, maxPiece, preferSmall);
      var (q, p) := Q.Fetch(s.q, maxPiece, preferSmall);
      if accepted && p.Some? && lost {
        LoseInv(c, s.(q := q), t, p.value);
      } else if accepted && p.Some? {
        NotTooFar(c, s.(q := q), t, p.value.index);
        CarryInv(c, s.(q := q), t, p.value);
        t' := ReferenceArrive(c, t, ArrivalOf(p.value, s.(q := q).First() + p.value.index)).0;
      }
  }

  /** What is sent is never so old as to be taken for newer, so only the jump ahead is to be bounded. */
  lemma {:induction false} NotTooFar(c: Config, s: Link, t: Reference, i: nat)
    requires c.Valid() && Inv(c, s, t)
    requires s.top.Some? ==> Block(c, s.First() + i) <= Block(c, s.top.value) + c.nblocks - c.reorderBlocks
    ensures InWindow(c, TopBlock(c, s.top), s.First() + i)
  {
    hide Block, Refines, HoldsSent, Numbered, Q.Inv, Subsequence;
    if s.top.Some? {
      BlockMonotone(c, s.top.value, s.First() + c.blockSize);
      BlockStep(c, s.First());
      BlockMonotone(c, s.First(), s.First() + i);
    }
  }

  lemma {:induction false} StartInv(c: Config, lookahead: nat)
    requires c.Valid() && lookahead <= c.blockSize
    ensures Inv(c, Start(lookahead), EMPTY_REFERENCE)
  {
  }

  lemma {:induction false} RunInv(c: Config, lookahead: nat, acts: seq<Act>) returns (t: Reference)
    requires c.Valid() && lookahead <= c.blockSize && PermittedRun(c, lookahead, acts)
    ensures Inv(c, Run(c, lookahead, acts), t)
  {
    if acts == [] {
      StartInv(c, lookahead);
      t := EMPTY_REFERENCE;
    } else {
      t := RunInv(c, lookahead, Front(acts));
      t := StepInv(c, Run(c, lookahead, Front(acts)), t, Last(acts));
    }
  }

  /**
   * Over every permitted run, drops included, the receiver delivers only datagrams that the sender completed,
   * whole and in the order they were completed, and if nothing was lost on the way all of them.
   */
  lemma {:induction false} DeliversWhatIsCompleted(c: Config, lookahead: nat, acts: seq<Act>)
    requires c.Valid() && lookahead <= c.blockSize && PermittedRun(c, lookahead, acts)
    ensures var s := Run(c, lookahead, acts);
            Subsequence(s.delivered, s.completed) && (s.losses == 0 ==> s.delivered == s.completed)
  {
    var _ := RunInv(c, lookahead, acts);
  }

  /** The payloads queued by a run, in order. */
  function Queued(acts: seq<Act>): seq<Bytes> {
    if acts == [] then [] else Queued(Front(acts)) + if Last(acts).Put? then [Last(acts).payload] else []
  }

  /** What is completed and what is still queued is, in order, among what was queued. */
  lemma {:induction false} SentInOrder(c: Config, s: Link, t: Reference, a: Act, queued: seq<Bytes>)
    requires c.Valid() && Inv(c, s, t) && Permitted(c, s, a)
    requires Subsequence(s.completed + Q.Payloads(s.q.buf), queued)
    ensures var s' := Step(c, s, a);
            Subsequence(s'.completed + Q.Payloads(s'.q.buf), queued + if a.Put? then [a.payload] else [])
  {
    hide Block, Refines, HoldsSent, Numbered, Q.Inv, InWindow, Receive, Subsequence, Q.Fetch, Q.DropUnsendable,
        Q.OnlyUnsendable;
    var before, s' := s.completed + Q.Payloads(s.q.buf), Step(c, s, a);
    if a.Transmit? {
      var (q, p) := Q.Fetch(s.q, a.maxPiece, a.preferSmall);
      FetchLink(c, s, t, a.maxPiece, a.preferSmall);
      DropPayloads(s.q, a.maxPiece, a.preferSmall, s.completed);
      if p.Some? && a.accepted {
        CompletedOrQueued(s.(q := q), p.value);
      }
      SubsequenceTransitive(s.completed + Q.Payloads(q.buf), before, queued);
      assert s'.completed + Q.Payloads(s'.q.buf) == s.completed + Q.Payloads(q.buf);
      assert queued + [] == queued;
    } else if a.Put? {
      SubsequenceAppend(before, queued, a.payload);
      assert Q.Payloads(s'.q.buf) == Q.Payloads(s.q.buf) + [a.payload];
      assert s'.completed + Q.Payloads(s'.q.buf) == before + [a.payload];
    } else {
      assert queued + [] == queued;
    }
  }

  /** Dropping datagrams from the front leaves the rest in order. */
  lemma {:induction false} DropPayloads(q: Q.Queue, maxPiece: nat, preferSmall: bool, completed: seq<Bytes>)
    requires Q.Inv(q)
    ensures Subsequence(completed + Q.Payloads(Q.Fetch(q, maxPiece, preferSmall).0.buf), completed + Q.Payloads(q.buf))
  {
    hide Q.Inv, Q.Fetch, Q.DropUnsendable, Q.OnlyUnsendable, Subsequence, Q.Payloads, Q.WithinLookahead;
    Q.DropInv(q, maxPiece);
    Q.FetchPayloads(q, maxPiece, preferSmall);
    var d := |q.buf| - |Q.DropUnsendable(q, maxPiece).buf|;
    Q.PayloadsSplit(q.buf, d);
    var gone, rest := Q.Payloads(q.buf[..d]), Q.Payloads(q.buf[d..]);
    SubsequenceMiddle(completed, gone, rest);
    assert completed + gone + rest == completed + (gone + rest);
  }

  /** A piece sent moves its datagram from the queue to the completed ones, or leaves both as they are. */
  lemma {:induction false} CompletedOrQueued(s: Link, p: Q.Prepared)
    requires Q.Inv(s.q) && s.q.early == None && InHand(s.q, p)
    ensures var s' := MarkSent(s, p);
            s'.completed + Q.Payloads(s'.q.buf) == s.completed + Q.Payloads(s.q.buf)
  {
    hide Q.Inv, Q.PartData, Q.PartId;
    Q.ConfirmInv(s.q, p.index, p.part, |p.data|);
    var e, s' := s.q.buf[p.index], MarkSent(s, p);
    if Q.Or(e.status, p.part) == Q.SENT {
      assert Q.Payloads(s.q.buf) == [e.payload] + Q.Payloads(s'.q.buf);
    } else {
      assert Q.Payloads(s.q.buf) == Q.Payloads(s'.q.buf);
    }
  }

  lemma {:induction false} RunInOrder(c: Config, lookahead: nat, acts: seq<Act>)
    requires c.Valid() && lookahead <= c.blockSize && PermittedRun(c, lookahead, acts)
    ensures var s := Run(c, lookahead, acts);
            Subsequence(s.completed + Q.Payloads(s.q.buf), Queued(acts))
  {
    hide Step, Inv, Permitted;
    if acts == [] {
      assert Start(lookahead).completed + Q.Payloads(Start(lookahead).q.buf) == [];
    } else {
      RunInOrder(c, lookahead, Front(acts));
      var t := RunInv(c, lookahead, Front(acts));
      SentInOrder(c, Run(c, lookahead, Front(acts)), t, Last(acts), Queued(Front(acts)));
    }
  }

  /**
   * Under loss: over every permitted run, whatever is dropped by the sender or lost on the way, what the receiver
   * delivers is whole datagrams in the order they were queued.
   */
  lemma {:induction false} InOrderUnderLoss(c: Config, lookahead: nat, acts: seq<Act>)
    requires c.Valid() && lookahead <= c.blockSize && PermittedRun(c, lookahead, acts)
    ensures Subsequence(Run(c, lookahead, acts).delivered, Queued(acts))
  {
    hide Run, PermittedRun, Queued, Subsequence, Q.Payloads;
    var s := Run(c, lookahead, acts);
    DeliversWhatIsCompleted(c, lookahead, acts);
    RunInOrder(c, lookahead, acts);
    SubsequencePrefix(s.completed, Q.Payloads(s.q.buf));
    SubsequenceTransitive(s.delivered, s.completed, s.completed + Q.Payloads(s.q.buf));
    SubsequenceTransitive(s.delivered, s.completed + Q.Payloads(s.q.buf), Queued(acts));
  }

  /** How many datagrams may be lost or dropped in a row: the counter space less the reorder limit. */
  function BurstLimit(c: Config): int
    requires c.Valid()
  {
    c.blockSize * (c.nblocks - c.reorderBlocks)
  }

  /**
   * A piece arrives after fewer datagrams in a row than the limit of which no piece has, be it that they were
   * dropped, lost, or are still to be sent.
   */
  ghost predicate ShortBurst(c: Config, s: Link, a: Act)
    requires c.Valid()
  {
    match a
    case Put(_) => true
    case SetLookahead(n) => n <= c.blockSize
    case Transmit(maxPiece, preferSmall, accepted, lost) =>
      var (q, p) := Q.Fetch(s.q, maxPiece, preferSmall);
      accepted && p.Some? && !lost && s.top.Some? ==>
        s.(q := q).First() + p.value.index - s.top.value - 1 < BurstLimit(c)
  }

  ghost predicate ShortBursts(c: Config, lookahead: nat, acts: seq<Act>)
    requires c.Valid()
  {
    acts == [] ||
    (ShortBursts(c, lookahead, Front(acts)) && ShortBurst(c, Run(c, lookahead, Front(acts)), Last(acts)))
  }

  lemma {:induction false} BlocksInBurst(c: Config, top: nat, n: int)
    requires c.Valid() && n <= top + BurstLimit(c)
    ensures Block(c, n) <= Block(c, top) + c.nblocks - c.reorderBlocks
  {
    var bs, k := c.blockSize, c.nblocks - c.reorderBlocks;
    assert top + bs * k == (top / bs + k) * bs + top % bs by {
      assert top == bs * (top / bs) + top % bs;
      assert (top / bs + k) * bs == bs * (top / bs) + bs * k;
    }
    DivModUnique(bs, top / bs + k, top % bs);
    DivMonotone(n, top + bs * k, bs);
  }

  lemma {:induction false} ShortBurstsPermitted(c: Config, lookahead: nat, acts: seq<Act>)
    requires c.Valid() && ShortBursts(c, lookahead, acts)
    ensures PermittedRun(c, lookahead, acts)
  {
    hide Step, Q.Fetch, BurstLimit, Block;
    if acts != [] {
      ShortBurstsPermitted(c, lookahead, Front(acts));
      var s, a := Run(c, lookahead, Front(acts)), Last(acts);
      if a.Transmit? && s.top.Some? {
        var (q, p) := Q.Fetch(s.q, a.maxPiece, a.preferSmall);
        if p.Some? && a.accepted && !a.lost {
          BlocksInBurst(c, s.top.value, s.(q := q).First() + p.value.index);
        }
      }
    }
  }

  /**
   * With bursts of drops and losses shorter than the limit, anything else may be lost in any way: the datagrams
   * delivered are still whole, and in the order they were queued.
   */
  lemma {:induction false} InOrderBetweenBursts(c: Config, lookahead: nat, acts: seq<Act>)
    requires c.Valid() && lookahead <= c.blockSize && ShortBursts(c, lookahead, acts)
    ensures Subsequence(Run(c, lookahead, acts).delivered, Queued(acts))
  {
    hide Run, Queued, Subsequence;
    ShortBurstsPermitted(c, lookahead, acts);
    InOrderUnderLoss(c, lookahead, acts);
  }

  /**
   * An action that meets the limits and, when it sends, finds the datagram at the head still sendable and loses
   * nothing on the way.
   */
  ghost predicate DropFree(c: Config, s: Link, a: Act)
    requires c.Valid()
  {
    match a
    case Put(_) => true
    case SetLookahead(n) => n <= c.blockSize
    case Transmit(maxPiece, _, _, lost) => !lost && (s.q.buf == [] || !s.q.buf[0].Unsendable(maxPiece, true))
  }

  ghost predicate DropFreeRun(c: Config, lookahead: nat, acts: seq<Act>)
    requires c.Valid()
  {
    acts == [] ||
    (DropFreeRun(c, lookahead, Front(acts)) && DropFree(c, Run(c, lookahead, Front(acts)), Last(acts)))
  }

  /** Without drops, the datagram before the queue was sent, and nothing queued is lost. */
  ghost predicate Complete(s: Link, queued: seq<Bytes>) {
    && (s.First() > 0 ==> s.top.Some? && s.top.value >= s.First() - 1)
    && queued == s.completed + Q.Payloads(s.q.buf) && s.losses == 0
  }

  /** Without drops the numbers sent stay in the receiver's window by themselves. */
  lemma {:induction false} WindowFollows(c: Config, s: Link, t: Reference, i: nat)
    requires c.Valid() && Inv(c, s, t) && i <= s.q.lookahead
    requires s.First() > 0 ==> s.top.Some? && s.top.value >= s.First() - 1
    ensures InWindow(c, TopBlock(c, s.top), s.First() + i)
  {
    hide Block, Refines, HoldsSent, Numbered, Q.Inv;
    var n := s.First() + i;
    if s.top.Some? {
      TopBound(c, s, t);
      BlockMonotone(c, s.First(), n);
      BlockMonotone(c, n, s.First() + c.blockSize);
      BlockStep(c, s.First());
      if s.First() > 0 {
        BlockMonotone(c, s.First() - 1, s.top.value);
        BlockStep(c, s.First() - 1);
        BlockMonotone(c, s.First(), s.First() - 1 + c.blockSize);
      } else {
        BlockMonotone(c, s.First(), s.top.value);
      }
    }
  }

  lemma {:induction false} DropFreeStep(c: Config, s: Link, t: Reference, a: Act, queued: seq<Bytes>)
    requires c.Valid() && Inv(c, s, t) && DropFree(c, s, a) && Complete(s, queued)
    ensures Permitted(c, s, a)
    ensures Complete(Step(c, s, a), queued + if a.Put? then [a.payload] else [])
  {
    hide Block, Refines, HoldsSent, Numbered, Q.Inv, Receive, Q.Fetch, Subsequence;
    if a.Transmit? {
      var (q, p) := Q.Fetch(s.q, a.maxPiece, a.preferSmall);
      FetchLink(c, s, t, a.maxPiece, a.preferSmall);
      SplitKeepsPayloads(s.q, a.maxPiece, a.preferSmall);
      if p.Some? {
        WindowFollows(c, s.(q := q), t, p.value.index);
        if a.accepted {
          CarryComplete(c, s.(q := q), p.value, queued);
        }
      }
    } else if a.Put? {
      var s' := Step(c, s, a);
      assert Q.Payloads(s'.q.buf) == Q.Payloads(s.q.buf) + [a.payload];
    }
  }

  lemma {:induction false} SplitKeepsPayloads(q: Q.Queue, maxPiece: nat, preferSmall: bool)
    requires q.buf == [] || !q.buf[0].Unsendable(maxPiece, q.splitting)
    ensures Q.Payloads(Q.Fetch(q, maxPiece, preferSmall).0.buf) == Q.Payloads(q.buf)
  {
    hide Q.Fetch;
    Q.FetchPayloads(q, maxPiece, preferSmall);
  }

  lemma {:induction false} CarryComplete(c: Config, s: Link, p: Q.Prepared, queued: seq<Bytes>)
    requires c.Valid() && Q.Inv(s.q) && s.q.early == None && InHand(s.q, p) && Complete(s, queued) && s.First() >= 0
    ensures Complete(Carry(c, s, p), queued)
  {
    hide Receive, Q.Inv, Q.PartData, Q.PartId;
    Q.ConfirmInv(s.q, p.index, p.part, |p.data|);
    CompletedOrQueued(s, p);
  }

  lemma {:induction false} DropFreeRunInv(c: Config, lookahead: nat, acts: seq<Act>)
    requires c.Valid() && lookahead <= c.blockSize && DropFreeRun(c, lookahead, acts)
    ensures PermittedRun(c, lookahead, acts)
    ensures Complete(Run(c, lookahead, acts), Queued(acts))
  {
    hide Step, Inv, Permitted;
    if acts != [] {
      DropFreeRunInv(c, lookahead, Front(acts));
      var t := RunInv(c, lookahead, Front(acts));
      DropFreeStep(c, Run(c, lookahead, Front(acts)), t, Last(acts), Queued(Front(acts)));
    }
  }

  /**
   * End to end: whatever mixture of whole, first and second pieces is sent, with any choice of small
   * pieces first and any changes of piece size and lookahead that leave the head sendable, the
   * receiver has delivered the queued datagrams in the order they were queued, all but those still in
   * the queue, however often the 14-bit counter has wrapped.
   */
  lemma {:induction false} DeliversInOrder(c: Config, lookahead: nat, acts: seq<Act>)
    requires c.Valid() && lookahead <= c.blockSize && DropFreeRun(c, lookahead, acts)
    ensures var s := Run(c, lookahead, acts);
            Queued(acts) == s.delivered + Q.Payloads(s.q.buf)
  {
    DropFreeRunInv(c, lookahead, acts);
    DeliversWhatIsCompleted(c, lookahead, acts);
  }

  // ---------------------------------------------------------------------------------------------
  // Everything arrives
  // ---------------------------------------------------------------------------------------------

  lemma {:induction false} TransmitIsSend(c: Config, s: Link, a: Act)
    requires c.Valid() && a.Transmit? && a.accepted
    ensures Step(c, s, a).q == Q.SendStep(s.q, a.maxPiece, a.preferSmall, true)
  {
    hide Q.Fetch, Q.Confirm, Receive;
  }

  function Sends(acts: seq<Act>): seq<Q.Action>
    requires forall i :: 0 <= i < |acts| ==> acts[i].Transmit?
  {
    seq(|acts|, i requires 0 <= i < |acts| => Q.Send(acts[i].maxPiece, acts[i].preferSmall, acts[i].accepted))
  }

  /** A run that goes on with accepted sends does to the queue what those do. */
  lemma {:induction false} SendsDrain(c: Config, lookahead: nat, acts: seq<Act>, sends: seq<Act>)
    requires c.Valid() && forall i :: 0 <= i < |sends| ==> sends[i].Transmit? && sends[i].accepted
    ensures Run(c, lookahead, acts + sends).q == Q.Run(Run(c, lookahead, acts).q, Sends(sends))
    ensures Queued(acts + sends) == Queued(acts)
    decreases |sends|
  {
    hide Step, Q.SendStep, Q.Emplace, Q.EarlyRetry, Q.EarlyEnd;
    if sends == [] {
      assert acts + sends == acts;
    } else {
      var front, last := Front(sends), Last(sends);
      assert Front(acts + sends) == acts + front && Last(acts + sends) == last;
      SendsDrain(c, lookahead, acts, front);
      TransmitIsSend(c, Run(c, lookahead, acts + front), last);
      assert Front(Sends(sends)) == Sends(front);
    }
  }

  lemma {:induction false} DropFreePrefix(c: Config, lookahead: nat, acts: seq<Act>, more: seq<Act>)
    requires c.Valid() && DropFreeRun(c, lookahead, acts + more)
    ensures DropFreeRun(c, lookahead, acts)
    decreases |more|
  {
    hide DropFree;
    if more == [] {
      assert acts + more == acts;
    } else {
      assert Front(acts + more) == acts + Front(more);
      DropFreePrefix(c, lookahead, acts, Front(more));
    }
  }

  /**
   * Nothing stays behind: if a run without drops and losses goes on with accepted sends, two for each datagram still
   * queued at most, then everything ever queued has been delivered, in order.
   */
  lemma {:induction false} DeliversEverything(c: Config, lookahead: nat, acts: seq<Act>, sends: seq<Act>)
    requires c.Valid() && lookahead <= c.blockSize && DropFreeRun(c, lookahead, acts + sends)
    requires |sends| >= 2 * |Run(c, lookahead, acts).q.buf|
    requires forall i :: 0 <= i < |sends| ==> sends[i].Transmit? && sends[i].accepted
    ensures var s := Run(c, lookahead, acts + sends);
            s.q.buf == [] && s.delivered == Queued(acts)
  {
    hide Run, DropFreeRun, Queued, Q.Run;
    var s := Run(c, lookahead, acts);
    DropFreePrefix(c, lookahead, acts, sends);
    DropFreeRunInv(c, lookahead, acts);
    var t := RunInv(c, lookahead, acts);
    SendsDrain(c, lookahead, acts, sends);
    Q.Drained(s.q, Sends(sends));
    DeliversInOrder(c, lookahead, acts + sends);
  }
}
