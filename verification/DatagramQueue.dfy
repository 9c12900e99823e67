/**
 * The queue of datagrams waiting to be sent.  A datagram too large for one piece is sent in two;
 * the small second piece of a datagram further back may be sent ahead of its turn.  During early
 * data, sent datagrams stay in the queue so that they can be sent again.
 */
module DatagramQueues {
  import opened Common

  /** Which parts of a datagram have been sent: the two bits of the status flags. */
  datatype Status = Status(first: bool, second: bool)

  const UNSENT := Status(false, false)
  const SENT_FIRST := Status(true, false)
  const SENT_SECOND := Status(false, true)
  const SENT := Status(true, true)

  function Or(a: Status, b: Status): Status {
    Status(a.first || b.first, a.second || b.second)
  }

  datatype Entry = Entry(dgid: nat, status: Status, splitPos: nat, payload: Bytes) {
    /** The bytes not sent yet. */
    function TrueUnsent(): int {
      if status == SENT then 0
      else if status == SENT_FIRST then |payload| - splitPos
      else if status == SENT_SECOND then splitPos
      else |payload|
    }

    /** The same as the queue computes it, truncated to 16 bits. */
    function UnsentSize(): nat {
      TrueUnsent() % 65536
    }

    predicate Unsendable(maxPiece: nat, splitting: bool) {
      if status == SENT then false
      else if status == SENT_FIRST then |payload| - splitPos > maxPiece
      else if status == SENT_SECOND then splitPos > maxPiece
      else |payload| > maxPiece * (if splitting then 2 else 1)
    }

    /** True if the entry's second part can be sent next: it is not sent yet, and there is one. */
    predicate HasSmallPart(maxPiece: nat) {
      !status.second && (status.first || |payload| > maxPiece)
    }

    predicate HalfSent() {
      status == SENT_FIRST || status == SENT_SECOND
    }

    predicate WellFormed() {
      HalfSent() ==> splitPos <= |payload|
    }
  }

  /** A piece handed to the connection: the parts it covers, its ID on the wire and its bytes. */
  datatype Prepared = Prepared(index: nat, part: Status, id: nat, data: Bytes)

  datatype Queue = Queue(splitting: bool, lookahead: nat, early: Option<nat>, unsentBytes: int, buf: seq<Entry>) {
    /** The index of the first datagram not fully sent. */
    function Head(): nat {
      if early.Some? then early.value else 0
    }
  }

  function TotalUnsent(buf: seq<Entry>): nat {
    if buf == [] then 0 else buf[0].UnsentSize() + TotalUnsent(buf[1..])
  }

  function TotalTrue(buf: seq<Entry>): int {
    if buf == [] then 0 else buf[0].TrueUnsent() + TotalTrue(buf[1..])
  }

  function TotalSize(buf: seq<Entry>): nat {
    if buf == [] then 0 else |buf[0].payload| + TotalSize(buf[1..])
  }

  // ---------------------------------------------------------------------------------------------
  // The operations
  // ---------------------------------------------------------------------------------------------

  function Emplace(q: Queue, payload: Bytes, dgid: nat): Queue {
    q.(unsentBytes := q.unsentBytes + |payload|, buf := q.buf + [Entry(dgid, UNSENT, 65535, payload)])
  }

  /** Drops leading datagrams that can no longer be sent. */
  function DropUnsendable(q: Queue, maxPiece: nat): (r: Queue)
    ensures |r.buf| <= |q.buf|
    decreases |q.buf|
  {
    if q.buf == [] || !q.buf[0].Unsendable(maxPiece, q.splitting) then q
    else DropUnsendable(q.(unsentBytes := q.unsentBytes - q.buf[0].UnsentSize(), buf := q.buf[1..]), maxPiece)
  }

  /** The first entry in [i, limit] with a small part to send. */
  function FirstSmall(buf: seq<Entry>, maxPiece: nat, i: nat, limit: nat): Option<nat>
    decreases |buf| - i
  {
    if i >= |buf| || i > limit then None
    else if buf[i].HasSmallPart(maxPiece) then Some(i)
    else FirstSmall(buf, maxPiece, i + 1, limit)
  }

  /** The part of the head to send when no small piece is wanted. */
  function HeadPart(e: Entry, maxPiece: nat, splitting: bool): Status {
    if splitting && e.status == SENT_FIRST then SENT_SECOND
    else if splitting && e.status == SENT_SECOND then SENT_FIRST
    else if splitting && |e.payload| > maxPiece then SENT_FIRST
    else SENT
  }

  /** An unsent datagram about to be split is split at the piece size, kept in 16 bits. */
  function WithSplit(e: Entry, part: Status, maxPiece: nat): Entry {
    if part == SENT || e.status != UNSENT then e else e.(splitPos := maxPiece % 65536)
  }

  function PartData(e: Entry, part: Status): Bytes {
    if part == SENT || e.splitPos > |e.payload| then e.payload
    else if part == SENT_FIRST then e.payload[..e.splitPos]
    else e.payload[e.splitPos..]
  }

  /** The two low bits of the ID say whether the datagram is split, and which part this is. */
  function PartId(e: Entry, part: Status): nat {
    e.dgid + if part == SENT then 0 else if part == SENT_FIRST then 2 else 3
  }

  function Chosen(q: Queue, maxPiece: nat, preferSmall: bool): (nat, Status)
    requires q.Head() < |q.buf|
  {
    var h := q.Head();
    var small := if preferSmall && q.splitting then FirstSmall(q.buf, maxPiece, h, h + q.lookahead) else None;
    if small.Some? then (small.value, SENT_SECOND) else (h, HeadPart(q.buf[h], maxPiece, q.splitting))
  }

  lemma {:induction false} FirstSmallIs(buf: seq<Entry>, maxPiece: nat, i: nat, limit: nat)
    ensures var r := FirstSmall(buf, maxPiece, i, limit);
            && (r.Some? ==>
                  && i <= r.value < |buf| && r.value <= limit && buf[r.value].HasSmallPart(maxPiece)
                  && forall j :: i <= j < r.value ==> !buf[j].HasSmallPart(maxPiece))
            && (r.None? ==> forall j :: i <= j < |buf| && j <= limit ==> !buf[j].HasSmallPart(maxPiece))
    decreases |buf| - i
  {
    if i < |buf| && i <= limit && !buf[i].HasSmallPart(maxPiece) {
      FirstSmallIs(buf, maxPiece, i + 1, limit);
    }
  }

  lemma {:induction false} ChosenInRange(q: Queue, maxPiece: nat, preferSmall: bool)
    requires q.Head() < |q.buf|
    ensures q.Head() <= Chosen(q, maxPiece, preferSmall).0 < |q.buf|
  {
    FirstSmallIs(q.buf, maxPiece, q.Head(), q.Head() + q.lookahead);
  }

  function Fetch(q: Queue, maxPiece: nat, preferSmall: bool): (r: (Queue, Option<Prepared>))
    ensures r.1.Some? ==> r.1.value.index < |r.0.buf|
  {
    var q1 := DropUnsendable(q, maxPiece);
    if q1.Head() >= |q1.buf| then (q1, None)
    else
      ChosenInRange(q1, maxPiece, preferSmall);
      var (i, part) := Chosen(q1, maxPiece, preferSmall);
      var e := WithSplit(q1.buf[i], part, maxPiece);
      (q1.(buf := q1.buf[i := e]), Some(Prepared(i, part, PartId(e, part), PartData(e, part))))
  }

  function Confirm(q: Queue, i: nat, part: Status, size: nat): Queue
    requires i < |q.buf|
  {
    var e := q.buf[i].(status := Or(q.buf[i].status, part));
    var q1 := q.(buf := q.buf[i := e], unsentBytes := q.unsentBytes - size);
    if e.status != SENT then q1
    else if q.early.Some? then q1.(early := Some(q.early.value + 1))
    else q1.(buf := q1.buf[1..])
  }

  function EarlyBegin(q: Queue): Queue {
    q.(early := Some(0))
  }

  /** Marks the first n entries unsent. */
  function Unsend(buf: seq<Entry>, n: nat): seq<Entry> {
    seq(|buf|, i requires 0 <= i < |buf| => if i < n then buf[i].(status := UNSENT) else buf[i])
  }

  /** The number of entries Retry looks at. */
  function RetryReach(q: Queue): nat {
    q.Head() + (if q.splitting then q.lookahead else 0) + 1
  }

  function EarlyRetry(q: Queue): Queue {
    if q.early.None? then q
    else
      var n := Min(|q.buf|, RetryReach(q));
      q.(buf := Unsend(q.buf, n),
         unsentBytes := q.unsentBytes + TotalSize(q.buf[..n]) - TotalUnsent(q.buf[..n]),
         early := Some(0))
  }

  function EarlyEnd(q: Queue, accepted: bool): Queue
    requires q.Head() <= |q.buf|
  {
    if q.early.None? then q
    else if !accepted then EarlyRetry(q).(early := None)
    else q.(buf := q.buf[q.Head()..], early := None)
  }

  // ---------------------------------------------------------------------------------------------
  // The invariant
  // ---------------------------------------------------------------------------------------------

  /** How much too high the byte count is. */
  function Excess(q: Queue): int {
    q.unsentBytes - TotalTrue(q.buf)
  }

  /**
   * Entries before the head are fully sent, the head is not, later ones are unsent or have had only
   * their second part sent; and the byte count is at least what the entries have left to send.
   */
  ghost predicate Inv(q: Queue) {
    && q.Head() <= |q.buf|
    && (forall i :: 0 <= i < q.Head() ==> q.buf[i].status == SENT)
    && (q.Head() < |q.buf| ==> q.buf[q.Head()].status != SENT)
    && (forall i :: q.Head() < i < |q.buf| ==> !q.buf[i].status.first)
    && (!q.splitting ==> forall i :: q.Head() <= i < |q.buf| ==> q.buf[i].status == UNSENT)
    && (forall i :: 0 <= i < |q.buf| ==> q.buf[i].WellFormed())
    && Excess(q) >= 0
  }

  /** Nothing beyond the lookahead has been sent in part. */
  ghost predicate WithinLookahead(q: Queue) {
    forall i :: q.Head() + q.lookahead < i < |q.buf| ==> q.buf[i].status == UNSENT
  }

  /** The result of a fetch that may be confirmed: only the head can be completed by it. */
  ghost predicate CanConfirm(q: Queue, i: nat, part: Status, size: nat) {
    && q.Head() <= i < |q.buf|
    && size == |PartData(q.buf[i], part)|
    && (part == SENT ==> i == q.Head() && q.buf[i].status == UNSENT)
    && (part == SENT_FIRST ==> i == q.Head() && !q.buf[i].status.first)
    && (part == SENT_SECOND ==> !q.buf[i].status.second)
    && (part == SENT || part == SENT_FIRST || part == SENT_SECOND)
    && (part != SENT ==> q.splitting && q.buf[i].splitPos <= |q.buf[i].payload|)
  }

  lemma {:induction false} TotalTrueUpdate(buf: seq<Entry>, i: nat, e: Entry)
    requires i < |buf|
    ensures TotalTrue(buf[i := e]) == TotalTrue(buf) - buf[i].TrueUnsent() + e.TrueUnsent()
  {
    if i == 0 {
      assert buf[i := e][1..] == buf[1..];
    } else {
      assert buf[i := e][1..] == buf[1..][i - 1 := e];
      TotalTrueUpdate(buf[1..], i - 1, e);
    }
  }

  lemma {:induction false} TotalsConcat(a: seq<Entry>, b: seq<Entry>)
    ensures TotalUnsent(a + b) == TotalUnsent(a) + TotalUnsent(b)
    ensures TotalTrue(a + b) == TotalTrue(a) + TotalTrue(b)
    ensures TotalSize(a + b) == TotalSize(a) + TotalSize(b)
  {
    if a == [] {
      assert a + b == b;
    } else {
      assert (a + b)[1..] == a[1..] + b;
      TotalsConcat(a[1..], b);
    }
  }

  lemma {:induction false} EmplaceInv(q: Queue, payload: Bytes, dgid: nat)
    requires Inv(q)
    ensures Inv(Emplace(q, payload, dgid)) && Excess(Emplace(q, payload, dgid)) == Excess(q)
    ensures WithinLookahead(q) ==> WithinLookahead(Emplace(q, payload, dgid))
  {
    var e := Entry(dgid, UNSENT, 65535, payload);
    TotalsConcat(q.buf, [e]);
    assert TotalTrue([e]) == |payload|;
  }

  predicate OnlyUnsendable(buf: seq<Entry>, maxPiece: nat, splitting: bool) {
    buf == [] || (buf[0].Unsendable(maxPiece, splitting) && OnlyUnsendable(buf[1..], maxPiece, splitting))
  }

  /** Dropping removes a prefix of datagrams all of which cannot be sent any more; none of it is sent early data. */
  lemma {:induction false} DropInv(q: Queue, maxPiece: nat)
    requires Inv(q)
    ensures var q' := DropUnsendable(q, maxPiece);
            && Inv(q') && (WithinLookahead(q) ==> WithinLookahead(q'))
            && |q'.buf| <= |q.buf| && q'.buf == q.buf[|q.buf| - |q'.buf|..]
            && q' == q.(buf := q'.buf, unsentBytes := q'.unsentBytes)
            && (q.Head() > 0 ==> q' == q)
            && (q'.buf != [] ==> !q'.buf[0].Unsendable(maxPiece, q.splitting))
            && OnlyUnsendable(q.buf[..|q.buf| - |q'.buf|], maxPiece, q.splitting)
    decreases |q.buf|
  {
    hide Entry.UnsentSize, Entry.Unsendable, Inv, WithinLookahead, TotalTrue;
    if q.buf != [] && q.buf[0].Unsendable(maxPiece, q.splitting) {
      DropFrontInv(q, maxPiece);
      DropInv(q.(unsentBytes := q.unsentBytes - q.buf[0].UnsentSize(), buf := q.buf[1..]), maxPiece);
      var n := |q.buf| - |DropUnsendable(q, maxPiece).buf|;
      assert q.buf[..n][1..] == q.buf[1..][..n - 1];
    }
  }

  /** The pieces in which a datagram would still be sent. */
  function PiecesLeft(e: Entry, maxPiece: nat, splitting: bool): seq<Bytes>
    requires e.WellFormed()
  {
    if e.status == SENT then []
    else if e.status == SENT_FIRST then [e.payload[e.splitPos..]]
    else if e.status == SENT_SECOND then [e.payload[..e.splitPos]]
    else if splitting && |e.payload| > maxPiece then [e.payload[..maxPiece], e.payload[maxPiece..]]
    else [e.payload]
  }

  predicate AllFit(pieces: seq<Bytes>, maxPiece: nat) {
    forall i :: 0 <= i < |pieces| ==> |pieces[i]| <= maxPiece
  }

  /** A datagram cannot be sent exactly if one of those pieces has no room. */
  lemma {:induction false} UnsendableExactly(e: Entry, maxPiece: nat, splitting: bool)
    requires e.WellFormed()
    ensures e.Unsendable(maxPiece, splitting) <==> !AllFit(PiecesLeft(e, maxPiece, splitting), maxPiece)
  {
    var pieces := PiecesLeft(e, maxPiece, splitting);
    assert pieces != [] ==> (AllFit(pieces, maxPiece) ==> |pieces[0]| <= maxPiece);
    assert |pieces| == 2 ==> (AllFit(pieces, maxPiece) ==> |pieces[1]| <= maxPiece);
  }

  /** Dropping stops at the first datagram all of whose pieces have room, and drops those before it. */
  lemma {:induction false} DropsExactly(q: Queue, maxPiece: nat)
    requires Inv(q)
    ensures var k := |q.buf| - |DropUnsendable(q, maxPiece).buf|;
            && DropUnsendable(q, maxPiece).buf == q.buf[k..]
            && (forall i :: 0 <= i < k ==>
                  q.buf[i].WellFormed() && !AllFit(PiecesLeft(q.buf[i], maxPiece, q.splitting), maxPiece))
            && (k < |q.buf| ==>
                  q.buf[k].WellFormed() && AllFit(PiecesLeft(q.buf[k], maxPiece, q.splitting), maxPiece))
  {
    hide DropUnsendable, PiecesLeft, AllFit, Entry.Unsendable, Entry.WellFormed, OnlyUnsendable, Excess;
    DropInv(q, maxPiece);
    var k := |q.buf| - |DropUnsendable(q, maxPiece).buf|;
    forall i | 0 <= i < k
      ensures q.buf[i].WellFormed() && !AllFit(PiecesLeft(q.buf[i], maxPiece, q.splitting), maxPiece)
    {
      AmongUnsendable(q.buf[..k], maxPiece, q.splitting, i);
      UnsendableExactly(q.buf[i], maxPiece, q.splitting);
    }
    if k < |q.buf| {
      UnsendableExactly(q.buf[k], maxPiece, q.splitting);
    }
  }

  lemma {:induction false} AmongUnsendable(buf: seq<Entry>, maxPiece: nat, splitting: bool, i: nat)
    requires OnlyUnsendable(buf, maxPiece, splitting) && i < |buf|
    ensures buf[i].Unsendable(maxPiece, splitting)
  {
    hide Entry.Unsendable;
    if i > 0 {
      AmongUnsendable(buf[1..], maxPiece, splitting, i - 1);
    }
  }

  lemma {:induction false} DropFrontInv(q: Queue, maxPiece: nat)
    requires Inv(q) && q.buf != [] && q.buf[0].Unsendable(maxPiece, q.splitting)
    ensures q.Head() == 0 && q.unsentBytes >= q.buf[0].UnsentSize()
    ensures var q' := q.(unsentBytes := q.unsentBytes - q.buf[0].UnsentSize(), buf := q.buf[1..]);
            Inv(q') && (WithinLookahead(q) ==> WithinLookahead(q'))
  {
    hide Entry.WellFormed, Entry.TrueUnsent;
    assert q.Head() == 0;
    NonNegative(q.buf[1..]);
    SizeBound(q.buf[0]);
  }

  /** Truncation makes a size smaller, and not below nothing. */
  lemma {:induction false} SizeBound(e: Entry)
    requires e.WellFormed()
    ensures e.UnsentSize() <= e.TrueUnsent() <= |e.payload|
    ensures e.UnsentSize() == e.TrueUnsent() <==> e.TrueUnsent() < 65536
  {
  }

  lemma {:induction false} NonNegative(buf: seq<Entry>)
    requires forall i :: 0 <= i < |buf| ==> buf[i].WellFormed()
    ensures TotalTrue(buf) >= 0
  {
    if buf != [] {
      SizeBound(buf[0]);
      NonNegative(buf[1..]);
    }
  }

  /** What splitting an entry does to it. */
  lemma {:induction false} SplitEntry(e: Entry, part: Status, maxPiece: nat)
    requires e.WellFormed() && part != UNSENT && e.status != SENT
    requires part != SENT ==> e.HalfSent() || |e.payload| > maxPiece
    ensures var e' := WithSplit(e, part, maxPiece);
            && e'.WellFormed() && e'.status == e.status && e'.TrueUnsent() == e.TrueUnsent()
            && e'.payload == e.payload && e'.dgid == e.dgid
            && (part != SENT ==> e'.splitPos <= |e'.payload|)
  {
  }

  lemma {:induction false} ReplaceInv(q: Queue, i: nat, e: Entry)
    requires Inv(q) && i < |q.buf|
    requires e.WellFormed() && e.status == q.buf[i].status && e.TrueUnsent() == q.buf[i].TrueUnsent()
    ensures Inv(q.(buf := q.buf[i := e])) && Excess(q.(buf := q.buf[i := e])) == Excess(q)
    ensures WithinLookahead(q) ==> WithinLookahead(q.(buf := q.buf[i := e]))
  {
    TotalTrueUpdate(q.buf, i, e);
  }

  /** The piece chosen is of an entry in reach, and is one that has not been sent. */
  lemma {:induction false} ChosenIs(q: Queue, maxPiece: nat, preferSmall: bool)
    requires Inv(q) && q.Head() < |q.buf|
    ensures var (i, part) := Chosen(q, maxPiece, preferSmall);
            && q.Head() <= i < |q.buf| && i <= q.Head() + q.lookahead
            && (part == SENT || part == SENT_FIRST || part == SENT_SECOND)
            && (part != SENT ==> q.splitting && (q.buf[i].HalfSent() || |q.buf[i].payload| > maxPiece))
            && (part == SENT ==> i == q.Head() && q.buf[i].status == UNSENT)
            && (part == SENT_FIRST ==> i == q.Head() && !q.buf[i].status.first)
            && (part == SENT_SECOND ==> !q.buf[i].status.second)
  {
    FirstSmallIs(q.buf, maxPiece, q.Head(), q.Head() + q.lookahead);
  }

  lemma {:induction false} FetchInv(q: Queue, maxPiece: nat, preferSmall: bool)
    requires Inv(q)
    ensures var (q', r) := Fetch(q, maxPiece, preferSmall);
            && Inv(q') && (WithinLookahead(q) ==> WithinLookahead(q'))
            && Excess(q') == Excess(DropUnsendable(q, maxPiece))
            && (r.Some? ==>
                  && CanConfirm(q', r.value.index, r.value.part, |r.value.data|)
                  && r.value.index <= q'.Head() + q'.lookahead
                  && r.value.data == PartData(q'.buf[r.value.index], r.value.part)
                  && r.value.id == PartId(q'.buf[r.value.index], r.value.part))
  {
    hide Inv, WithinLookahead, Chosen, Entry.WellFormed, Entry.TrueUnsent, Entry.Unsendable, PartData, PartId, Excess,
        OnlyUnsendable, DropUnsendable, WithSplit;
    DropInv(q, maxPiece);
    var q1 := DropUnsendable(q, maxPiece);
    if q1.Head() < |q1.buf| {
      ChosenIs(q1, maxPiece, preferSmall);
      var (i, part) := Chosen(q1, maxPiece, preferSmall);
      EntryWellFormed(q1, i);
      SplitEntry(q1.buf[i], part, maxPiece);
      ReplaceInv(q1, i, WithSplit(q1.buf[i], part, maxPiece));
    }
  }

  lemma {:induction false} EntryWellFormed(q: Queue, i: nat)
    requires Inv(q) && i < |q.buf|
    ensures q.buf[i].WellFormed() && (i >= q.Head() ==> q.buf[i].status != SENT)
  {
  }

  lemma {:induction false} ConfirmedSize(e: Entry, part: Status)
    requires e.WellFormed() && part != UNSENT
    requires part == SENT ==> e.status == UNSENT
    requires part == SENT_FIRST ==> !e.status.first
    requires part == SENT_SECOND ==> !e.status.second
    requires part != SENT ==> e.splitPos <= |e.payload|
    ensures var e' := e.(status := Or(e.status, part));
            e'.WellFormed() && e'.TrueUnsent() == e.TrueUnsent() - |PartData(e, part)|
  {
  }

  lemma {:induction false} PartSentInv(q: Queue, i: nat, e: Entry)
    requires Inv(q) && q.Head() <= i < |q.buf| && q.splitting
    requires e.WellFormed() && e.status != SENT && (i > q.Head() ==> !e.status.first)
    ensures var q' := q.(buf := q.buf[i := e], unsentBytes := q.unsentBytes - q.buf[i].TrueUnsent() + e.TrueUnsent());
            && Inv(q') && Excess(q') == Excess(q)
            && (WithinLookahead(q) && i <= q.Head() + q.lookahead ==> WithinLookahead(q'))
  {
    TotalTrueUpdate(q.buf, i, e);
  }

  /** Completing the head moves on to the next datagram, whether or not the sent one is kept. */
  lemma {:induction false} CompletedInv(q: Queue, e: Entry)
    requires Inv(q) && q.Head() < |q.buf| && e.WellFormed() && e.status == SENT
    ensures var h := q.Head();
            var q1 := q.(buf := q.buf[h := e], unsentBytes := q.unsentBytes - q.buf[h].TrueUnsent());
            var q' := if q.early.Some? then q1.(early := Some(h + 1)) else q1.(buf := q1.buf[1..]);
            Inv(q') && Excess(q') == Excess(q) && (WithinLookahead(q) ==> WithinLookahead(q'))
  {
    hide Entry.TrueUnsent, Entry.WellFormed;
    var buf := q.buf[q.Head() := e];
    TotalTrueUpdate(q.buf, q.Head(), e);
    SentSize(e);
    assert q.early.None? ==> TotalTrue(buf) == buf[0].TrueUnsent() + TotalTrue(buf[1..]);
  }

  lemma {:induction false} ConfirmInv(q: Queue, i: nat, part: Status, size: nat)
    requires Inv(q) && CanConfirm(q, i, part, size)
    ensures Inv(Confirm(q, i, part, size)) && Excess(Confirm(q, i, part, size)) == Excess(q)
    ensures Or(q.buf[i].status, part) == SENT ==> i == q.Head()
    ensures WithinLookahead(q) && i <= q.Head() + q.lookahead ==> WithinLookahead(Confirm(q, i, part, size))
  {
    hide Entry.TrueUnsent, Entry.WellFormed, PartData, WithinLookahead, Excess;
    EntryWellFormed(q, i);
    ConfirmedSize(q.buf[i], part);
    var e := q.buf[i].(status := Or(q.buf[i].status, part));
    if e.status == SENT {
      SentSize(e);
      CompletedInv(q, e);
    } else {
      PartSentInv(q, i, e);
    }
  }

  lemma {:induction false} SentSize(e: Entry)
    requires e.status == SENT
    ensures e.TrueUnsent() == 0
  {
  }

  // ---------------------------------------------------------------------------------------------
  // Early data
  // ---------------------------------------------------------------------------------------------

  ghost predicate WhollyUnsent(q: Queue) {
    forall i :: 0 <= i < |q.buf| ==> q.buf[i].status == UNSENT
  }

  /** The same datagrams in the same order, whatever has been sent of them. */
  ghost predicate SameDatagrams(a: seq<Entry>, b: seq<Entry>) {
    |a| == |b| && forall i :: 0 <= i < |a| ==> a[i].payload == b[i].payload && a[i].dgid == b[i].dgid
  }

  lemma {:induction false} TotalOfUnsent(buf: seq<Entry>)
    requires forall i :: 0 <= i < |buf| ==> buf[i].status == UNSENT
    ensures TotalTrue(buf) == TotalSize(buf)
  {
    if buf != [] {
      TotalOfUnsent(buf[1..]);
    }
  }

  lemma {:induction false} TotalSizeOfSame(a: seq<Entry>, b: seq<Entry>)
    requires SameDatagrams(a, b)
    ensures TotalSize(a) == TotalSize(b)
  {
    if a != [] {
      TotalSizeOfSame(a[1..], b[1..]);
    }
  }

  /** What is lost by computing the sizes of these entries in 16 bits. */
  function Cut(buf: seq<Entry>): int {
    TotalTrue(buf) - TotalUnsent(buf)
  }

  /** What has to be true of entries for their sizes to fit the 16 bits. */
  predicate Below64K(buf: seq<Entry>) {
    buf == [] || (buf[0].TrueUnsent() < 65536 && Below64K(buf[1..]))
  }

  lemma {:induction false} CutIs(buf: seq<Entry>)
    requires forall i :: 0 <= i < |buf| ==> buf[i].WellFormed()
    ensures Cut(buf) >= 0 && (Cut(buf) == 0 <==> Below64K(buf))
  {
    hide Entry.TrueUnsent, Entry.UnsentSize, Entry.WellFormed;
    if buf != [] {
      SizeBound(buf[0]);
      CutIs(buf[1..]);
    }
  }

  /** The entries whose sizes a Retry computes. */
  function Retried(q: Queue): seq<Entry> {
    if q.early.None? then [] else q.buf[..Min(|q.buf|, RetryReach(q))]
  }

  /** A Retry adds to the byte count what is lost of the sizes. */
  lemma {:induction false} RetryExcess(q: Queue)
    ensures Excess(EarlyRetry(q)) == Excess(q) + Cut(Retried(q))
  {
    hide Entry.UnsentSize, Entry.TrueUnsent;
    if q.early.Some? {
      var n := Min(|q.buf|, RetryReach(q));
      var buf' := Unsend(q.buf, n);
      assert q.buf == q.buf[..n] + q.buf[n..] && buf' == buf'[..n] + q.buf[n..];
      TotalsConcat(q.buf[..n], q.buf[n..]);
      TotalsConcat(buf'[..n], q.buf[n..]);
      TotalOfUnsent(buf'[..n]);
      TotalSizeOfSame(buf'[..n], q.buf[..n]);
    }
  }

  /** Retry keeps the datagrams, their order and the invariant, and starts again from the front. */
  lemma {:induction false} RetryInv(q: Queue)
    requires Inv(q) && q.early.Some?
    ensures Inv(EarlyRetry(q)) && SameDatagrams(EarlyRetry(q).buf, q.buf) && EarlyRetry(q).early == Some(0)
    ensures WithinLookahead(q) ==> WithinLookahead(EarlyRetry(q))
  {
    hide Entry.UnsentSize, TotalUnsent, TotalSize, TotalTrue, Excess, Cut;
    var n := Min(|q.buf|, RetryReach(q));
    RetryExcess(q);
    CutIs(Retried(q));
    assert forall i :: 0 <= i < |q.buf| ==> q.buf[i].WellFormed() && Unsend(q.buf, n)[i].WellFormed();
  }

  /**
   * Every datagram is wholly unsent after a Retry exactly when, before it, no second part had been
   * sent of a datagram more than the lookahead past the head.
   */
  lemma {:induction false} RetryUnsendsAll(q: Queue)
    requires Inv(q) && q.early.Some?
    ensures WhollyUnsent(EarlyRetry(q)) <==> WithinLookahead(q)
  {
    var q', n := EarlyRetry(q), Min(|q.buf|, RetryReach(q));
    if !WithinLookahead(q) {
      var i :| q.Head() + q.lookahead < i < |q.buf| && q.buf[i].status != UNSENT;
      assert q'.buf[i].status != UNSENT;
    } else {
      forall i | 0 <= i < |q'.buf|
        ensures q'.buf[i].status == UNSENT
      {
        assert i >= n ==> q.buf[i].status == UNSENT;
      }
    }
  }

  /** Acceptance removes exactly the fully sent datagrams and leaves the others as they are. */
  lemma {:induction false} AcceptInv(q: Queue)
    requires Inv(q) && q.early.Some?
    ensures var q' := EarlyEnd(q, true);
            && Inv(q') && q'.early == None && Excess(q') == Excess(q)
            && q.buf == q.buf[..q.Head()] + q'.buf
            && (forall i :: 0 <= i < q.Head() ==> q.buf[i].status == SENT)
            && (forall i :: 0 <= i < |q'.buf| ==> q'.buf[i].status != SENT)
            && (WithinLookahead(q) ==> WithinLookahead(q'))
  {
    hide Entry.TrueUnsent, Entry.WellFormed;
    var h := q.Head();
    assert q.buf == q.buf[..h] + q.buf[h..];
    TotalsConcat(q.buf[..h], q.buf[h..]);
    NothingLeft(q.buf[..h]);
  }

  lemma {:induction false} NothingLeft(buf: seq<Entry>)
    requires forall i :: 0 <= i < |buf| ==> buf[i].status == SENT
    ensures TotalTrue(buf) == 0
  {
    if buf != [] {
      SentSize(buf[0]);
      NothingLeft(buf[1..]);
    }
  }

  /** Rejection restores the queue to wholly unsent datagrams, if the lookahead was not lowered. */
  lemma {:induction false} RejectInv(q: Queue)
    requires Inv(q) && q.early.Some?
    ensures var q' := EarlyEnd(q, false);
            && Inv(q') && q'.early == None && SameDatagrams(q'.buf, q.buf)
            && (WhollyUnsent(q') <==> WithinLookahead(q))
            && (WithinLookahead(q) ==> WithinLookahead(q'))
  {
    hide Entry.UnsentSize, Entry.WellFormed, TotalUnsent, TotalSize, TotalTrue;
    RetryInv(q);
    RetryUnsendsAll(q);
  }

  // ---------------------------------------------------------------------------------------------
  // Runs
  // ---------------------------------------------------------------------------------------------

  datatype Action =
    | Put(payload: Bytes, dgid: nat)
    | Send(maxPiece: nat, preferSmall: bool, accepted: bool)
    | SetLookahead(n: nat)
    | Retry
    | End(accepted0Rtt: bool)

  function SendStep(q: Queue, maxPiece: nat, preferSmall: bool, accepted: bool): Queue {
    var (q', r) := Fetch(q, maxPiece, preferSmall);
    if accepted && r.Some? then Confirm(q', r.value.index, r.value.part, |r.value.data|)
    else q'
  }

  function Step(q: Queue, a: Action): Queue {
    match a
    case Put(payload, dgid) => Emplace(q, payload, dgid)
    case Send(maxPiece, preferSmall, accepted) => SendStep(q, maxPiece, preferSmall, accepted)
    case SetLookahead(n) => q.(lookahead := n)
    case Retry => EarlyRetry(q)
    case End(accepted) => if q.Head() <= |q.buf| then EarlyEnd(q, accepted) else q
  }

  function Run(q: Queue, actions: seq<Action>): Queue
    decreases |actions|
  {
    if actions == [] then q else Step(Run(q, Front(actions)), Last(actions))
  }

  function EmptyQueue(splitting: bool, lookahead: nat, earlyData: bool): Queue {
    Queue(splitting, lookahead, if earlyData then Some(0) else None, 0, [])
  }

  lemma {:induction false} StepInv(q: Queue, a: Action)
    requires Inv(q)
    ensures Inv(Step(q, a))
    ensures WithinLookahead(q) && (a.SetLookahead? ==> a.n >= q.lookahead) ==> WithinLookahead(Step(q, a))
  {
    hide Inv;
    match a
    case Put(payload, dgid) => EmplaceInv(q, payload, dgid);
    case Send(maxPiece, preferSmall, accepted) =>
      FetchInv(q, maxPiece, preferSmall);
      var (q', r) := Fetch(q, maxPiece, preferSmall);
      if accepted && r.Some? {
        ConfirmInv(q', r.value.index, r.value.part, |r.value.data|);
      }
    case SetLookahead(n) => LookaheadInv(q, n);
    case Retry =>
      if q.early.Some? {
        RetryInv(q);
      }
    case End(accepted) =>
      if q.early.Some? {
        AcceptInv(q);
        RejectInv(q);
      }
  }

  lemma {:induction false} LookaheadInv(q: Queue, n: nat)
    requires Inv(q)
    ensures Inv(q.(lookahead := n)) && Excess(q.(lookahead := n)) == Excess(q)
  {
  }

  /** In every reachable state the queue's invariant holds. */
  lemma {:induction false} RunInv(splitting: bool, lookahead: nat, earlyData: bool, actions: seq<Action>)
    ensures Inv(Run(EmptyQueue(splitting, lookahead, earlyData), actions))
    decreases |actions|
  {
    if actions != [] {
      RunInv(splitting, lookahead, earlyData, Front(actions));
      StepInv(Run(EmptyQueue(splitting, lookahead, earlyData), Front(actions)), Last(actions));
    }
  }

  // ---------------------------------------------------------------------------------------------
  // Progress
  // ---------------------------------------------------------------------------------------------

  /** There is a datagram that has not been fully sent. */
  ghost predicate Unfinished(buf: seq<Entry>) {
    exists i :: 0 <= i < |buf| && buf[i].status != SENT
  }

  /** A fetch returns a piece exactly if a datagram not fully sent is left after dropping, and marks none as sent. */
  lemma {:induction false} FetchReturns(q: Queue, maxPiece: nat, preferSmall: bool)
    requires Inv(q)
    ensures var (q', r) := Fetch(q, maxPiece, preferSmall);
            (r.Some? <==> Unfinished(DropUnsendable(q, maxPiece).buf)) && (r.Some? <==> Unfinished(q'.buf))
  {
    hide DropUnsendable, Chosen, Excess, WithinLookahead, OnlyUnsendable, PartData, PartId, Entry.WellFormed;
    DropInv(q, maxPiece);
    var q1, q' := DropUnsendable(q, maxPiece), Fetch(q, maxPiece, preferSmall).0;
    if q1.Head() < |q1.buf| {
      assert q1.buf[q1.Head()].status != SENT && q'.buf[q1.Head()].status == q1.buf[q1.Head()].status;
    }
  }

  /** The second part of a datagram is left to send: of one half sent, or one too large for a single piece. */
  predicate SecondLeft(e: Entry, maxPiece: nat) {
    e.status == SENT_FIRST || (e.status == UNSENT && |e.payload| > maxPiece)
  }

  /**
   * Which piece is fetched.  With small pieces preferred it is the second part of the first datagram in reach that has
   * one to send.  Otherwise it is of the head: all of it if it need not be split, else the part that is missing, the
   * first part first.
   */
  lemma {:induction false} ChosenFirst(q: Queue, maxPiece: nat, preferSmall: bool)
    requires Inv(q) && q.Head() < |q.buf|
    ensures var ((i, part), h) := (Chosen(q, maxPiece, preferSmall), q.Head());
            if preferSmall && q.splitting && SmallInReach(q, maxPiece)
            then
              && part == SENT_SECOND && i < |q.buf| && SecondLeft(q.buf[i], maxPiece)
              && forall j :: h <= j < i ==> !SecondLeft(q.buf[j], maxPiece)
            else
              && i == h
              && part == if q.buf[h].status == SENT_FIRST then SENT_SECOND
                         else if q.buf[h].status == SENT_SECOND then SENT_FIRST
                         else if q.splitting && |q.buf[h].payload| > maxPiece then SENT_FIRST
                         else SENT
  {
    FirstSmallIs(q.buf, maxPiece, q.Head(), q.Head() + q.lookahead);
  }

  /**
   * What a piece of a datagram holds: all of it, or one side of the place where it is split.  That is after as much as
   * there is room for, unless the other side has been sent already.
   */
  ghost predicate PieceOf(e: Entry, maxPiece: nat, part: Status, id: nat, data: Bytes) {
    if part == SENT then data == e.payload && id == e.dgid
    else
      var at := if e.status == UNSENT then maxPiece else e.splitPos;
      && at <= |e.payload| && (e.status == UNSENT ==> at < |e.payload|)
      && if part == SENT_FIRST then data == e.payload[..at] && id == e.dgid + 2 && !e.status.first
         else data == e.payload[at..] && id == e.dgid + 3 && !e.status.second
  }

  lemma {:induction false} SplitPiece(e: Entry, maxPiece: nat, part: Status)
    requires e.WellFormed() && maxPiece < 65536
    requires part == SENT || (e.status == UNSENT ==> |e.payload| > maxPiece)
    requires part == SENT || if part == SENT_FIRST then !e.status.first else !e.status.second
    ensures var e' := WithSplit(e, part, maxPiece);
            PieceOf(e, maxPiece, part, PartId(e', part), PartData(e', part))
  {
  }

  /** The part chosen is one that is left, and a datagram split for it is too large for the room. */
  lemma {:induction false} ChosenPart(q: Queue, maxPiece: nat, preferSmall: bool)
    requires Inv(q) && q.Head() < |q.buf|
    ensures var (i, part) := Chosen(q, maxPiece, preferSmall);
            && i < |q.buf| && q.buf[i].WellFormed()
            && (part == SENT
                || ((q.buf[i].status == UNSENT ==> |q.buf[i].payload| > maxPiece)
                    && if part == SENT_FIRST then !q.buf[i].status.first else !q.buf[i].status.second))
  {
    hide Inv, Chosen, SmallInReach, Entry.WellFormed;
    ChosenInRange(q, maxPiece, preferSmall);
    ChosenFirst(q, maxPiece, preferSmall);
    EntryWellFormed(q, Chosen(q, maxPiece, preferSmall).0);
    EntryWellFormed(q, q.Head());
  }

  lemma {:induction false} FetchedPiece(q: Queue, maxPiece: nat, preferSmall: bool)
    requires Inv(q) && maxPiece < 65536 && Fetch(q, maxPiece, preferSmall).1.Some?
    ensures var p, left := Fetch(q, maxPiece, preferSmall).1.value, DropUnsendable(q, maxPiece).buf;
            p.index < |left| && PieceOf(left[p.index], maxPiece, p.part, p.id, p.data)
  {
    hide DropUnsendable, Inv, Chosen, PieceOf, WithSplit, PartId, PartData, Entry.WellFormed, OnlyUnsendable, Excess;
    DropInv(q, maxPiece);
    var q1 := DropUnsendable(q, maxPiece);
    ChosenPart(q1, maxPiece, preferSmall);
    var (i, part) := Chosen(q1, maxPiece, preferSmall);
    SplitPiece(q1.buf[i], maxPiece, part);
  }

  /** A datagram no further back than the lookahead has a second part to send. */
  ghost predicate SmallInReach(q: Queue, maxPiece: nat) {
    exists i :: q.Head() <= i < |q.buf| && i <= q.Head() + q.lookahead && SecondLeft(q.buf[i], maxPiece)
  }

  /** How many pieces of a datagram are left to send, if it is split. */
  function Left(e: Entry): nat {
    (if e.status.first then 0 else 1) + (if e.status.second then 0 else 1)
  }

  function Work(buf: seq<Entry>): nat {
    if buf == [] then 0 else Left(buf[0]) + Work(buf[1..])
  }

  lemma {:induction false} WorkUpdate(buf: seq<Entry>, i: nat, e: Entry)
    requires i < |buf|
    ensures Work(buf[i := e]) == Work(buf) - Left(buf[i]) + Left(e)
  {
    if i == 0 {
      assert buf[i := e][1..] == buf[1..];
    } else {
      assert buf[i := e][1..] == buf[1..][i - 1 := e];
      WorkUpdate(buf[1..], i - 1, e);
    }
  }

  lemma {:induction false} WorkSuffix(buf: seq<Entry>, n: nat)
    requires n <= |buf|
    ensures Work(buf[n..]) <= Work(buf)
  {
    if n > 0 {
      WorkSuffix(buf[1..], n - 1);
      assert buf[1..][n - 1..] == buf[n..];
    }
  }

  lemma {:induction false} WorkBound(buf: seq<Entry>)
    ensures Work(buf) <= 2 * |buf|
  {
    if buf != [] {
      WorkBound(buf[1..]);
    }
  }

  lemma {:induction false} NoWorkLeft(buf: seq<Entry>, i: nat)
    requires Work(buf) == 0 && i < |buf|
    ensures buf[i].status == SENT
  {
    if i > 0 {
      NoWorkLeft(buf[1..], i - 1);
    }
  }

  /** Fetching changes nothing that has been sent, except for what it drops. */
  lemma {:induction false} FetchWork(q: Queue, maxPiece: nat, preferSmall: bool)
    requires Inv(q)
    ensures Work(Fetch(q, maxPiece, preferSmall).0.buf) <= Work(q.buf)
  {
    hide DropUnsendable, Chosen, Excess, WithinLookahead, OnlyUnsendable, PartData, PartId, Inv, Work, Left, WithSplit,
        Entry.Unsendable;
    DropInv(q, maxPiece);
    var q1 := DropUnsendable(q, maxPiece);
    WorkSuffix(q.buf, |q.buf| - |q1.buf|);
    if q1.Head() < |q1.buf| {
      ChosenInRange(q1, maxPiece, preferSmall);
      var (i, part) := Chosen(q1, maxPiece, preferSmall);
      WorkUpdate(q1.buf, i, WithSplit(q1.buf[i], part, maxPiece));
      SplitLeft(q1.buf[i], part, maxPiece);
    }
  }

  lemma {:induction false} SplitLeft(e: Entry, part: Status, maxPiece: nat)
    ensures Left(WithSplit(e, part, maxPiece)) == Left(e)
  {
  }

  /** A piece confirmed is one less to send. */
  lemma {:induction false} ConfirmWork(q: Queue, i: nat, part: Status, size: nat)
    requires CanConfirm(q, i, part, size)
    ensures Work(Confirm(q, i, part, size).buf) < Work(q.buf)
  {
    hide PartData;
    var e := q.buf[i].(status := Or(q.buf[i].status, part));
    WorkUpdate(q.buf, i, e);
    WorkSuffix(q.buf[i := e], 1);
  }

  /** Every accepted send leaves less to send, until nothing is. */
  lemma {:induction false} SendWork(q: Queue, maxPiece: nat, preferSmall: bool)
    requires Inv(q)
    ensures var q' := SendStep(q, maxPiece, preferSmall, true);
            Work(q'.buf) < Work(q.buf) || Work(q'.buf) == 0
  {
    hide Inv, Fetch, Confirm, DropUnsendable, WithinLookahead, CanConfirm, Excess;
    FetchInv(q, maxPiece, preferSmall);
    FetchWork(q, maxPiece, preferSmall);
    var (q', r) := Fetch(q, maxPiece, preferSmall);
    if r.Some? {
      ConfirmWork(q', r.value.index, r.value.part, |r.value.data|);
    } else {
      NothingToSend(q, maxPiece, preferSmall);
    }
  }

  lemma {:induction false} NothingToSend(q: Queue, maxPiece: nat, preferSmall: bool)
    requires Inv(q) && Fetch(q, maxPiece, preferSmall).1.None?
    ensures Work(Fetch(q, maxPiece, preferSmall).0.buf) == 0
  {
    hide DropUnsendable, Chosen, Excess, WithinLookahead, OnlyUnsendable, PartData, PartId, Inv, Work;
    FetchReturns(q, maxPiece, preferSmall);
    AllSentNoWork(DropUnsendable(q, maxPiece).buf);
  }

  lemma {:induction false} AllSentNoWork(buf: seq<Entry>)
    requires !Unfinished(buf)
    ensures Work(buf) == 0
  {
    if buf != [] {
      assert buf[0].status == SENT;
      assert forall i :: 0 <= i < |buf| - 1 ==> buf[1..][i] == buf[i + 1];
      AllSentNoWork(buf[1..]);
    }
  }

  lemma {:induction false} Drains(q: Queue, sends: seq<Action>)
    requires Inv(q) && forall i :: 0 <= i < |sends| ==> sends[i].Send? && sends[i].accepted
    ensures var q' := Run(q, sends);
            && Inv(q') && q'.early.Some? == q.early.Some?
            && Work(q'.buf) <= if |sends| < Work(q.buf) then Work(q.buf) - |sends| else 0
    decreases |sends|
  {
    hide Inv, SendStep;
    if sends != [] {
      Drains(q, Front(sends));
      var before, last := Run(q, Front(sends)), Last(sends);
      StepInv(before, last);
      SendWork(before, last.maxPiece, last.preferSmall);
      SendKeepsEarly(before, last.maxPiece, last.preferSmall);
    }
  }

  lemma {:induction false} SendKeepsEarly(q: Queue, maxPiece: nat, preferSmall: bool)
    requires Inv(q)
    ensures SendStep(q, maxPiece, preferSmall, true).early.Some? == q.early.Some?
  {
    hide Inv, Fetch, DropUnsendable, Payloads;
    FetchPayloads(q, maxPiece, preferSmall);
  }

  /**
   * Accepted sends, of whatever sizes and choices, two for each datagram queued at most, leave nothing unsent.
   * Outside early data the queue is then empty.
   */
  lemma {:induction false} Drained(q: Queue, sends: seq<Action>)
    requires Inv(q) && |sends| >= 2 * |q.buf|
    requires forall i :: 0 <= i < |sends| ==> sends[i].Send? && sends[i].accepted
    ensures var q' := Run(q, sends);
            if q.early.Some? then q'.Head() == |q'.buf| else q'.buf == []
  {
    hide Run;
    WorkBound(q.buf);
    Drains(q, sends);
    var q' := Run(q, sends);
    if q'.Head() < |q'.buf| {
      NoWorkLeft(q'.buf, q'.Head());
    }
  }

  /** A datagram that can be sent takes two sends at most, if no small pieces are sent ahead of it. */
  lemma {:induction false} HeadFirst(q: Queue, maxPiece: nat)
    requires Inv(q) && q.Head() < |q.buf| && !q.buf[0].Unsendable(maxPiece, q.splitting)
    ensures var q', h := SendStep(q, maxPiece, false, true), q.Head();
            || |q'.buf| - q'.Head() == |q.buf| - h - 1
            || (q'.Head() == h && |q'.buf| == |q.buf| && Left(q'.buf[h]) == 1 && Left(q.buf[h]) == 2)
  {
    hide PartData, PartId, Excess, WithinLookahead, Entry.Unsendable;
  }

  // ---------------------------------------------------------------------------------------------
  // The byte count
  // ---------------------------------------------------------------------------------------------

  /** Dropping leaves in the byte count what is lost of the sizes. */
  lemma {:induction false} DropExcess(q: Queue, maxPiece: nat)
    ensures var q' := DropUnsendable(q, maxPiece);
            Excess(q') == Excess(q) + Cut(q.buf[..|q.buf| - |q'.buf|])
    decreases |q.buf|
  {
    hide Entry.Unsendable, Entry.TrueUnsent, Entry.UnsentSize;
    if q.buf != [] && q.buf[0].Unsendable(maxPiece, q.splitting) {
      var q1 := q.(unsentBytes := q.unsentBytes - q.buf[0].UnsentSize(), buf := q.buf[1..]);
      DropExcess(q1, maxPiece);
      var n := |q.buf| - |DropUnsendable(q, maxPiece).buf|;
      assert q.buf[..n][0] == q.buf[0] && q.buf[..n][1..] == q.buf[1..][..n - 1];
    }
  }

  /** How many datagrams an action drops from the front as unsendable. */
  function DropCount(q: Queue, a: Action): (n: nat)
    ensures n <= |q.buf|
  {
    if a.Send? then |q.buf| - |DropUnsendable(q, a.maxPiece).buf| else 0
  }

  /** The entries whose sizes an action computes: those it drops, or those it takes back as unsent. */
  function Recounted(q: Queue, a: Action): seq<Entry> {
    if a.Send? then q.buf[..DropCount(q, a)]
    else if a.Retry? || (a.End? && !a.accepted0Rtt) then Retried(q)
    else []
  }

  /** Every action makes the byte count exactly as much too high as is lost of the sizes it computes. */
  lemma {:induction false} StepExcess(q: Queue, a: Action)
    requires Inv(q)
    ensures Excess(Step(q, a)) == Excess(q) + Cut(Recounted(q, a))
  {
    hide Inv, Fetch, Confirm, Excess, Cut, DropUnsendable, WithinLookahead, EarlyRetry, CanConfirm;
    NothingCut();
    match a
    case Put(payload, dgid) => EmplaceInv(q, payload, dgid);
    case Send(maxPiece, preferSmall, accepted) =>
      FetchInv(q, maxPiece, preferSmall);
      DropExcess(q, maxPiece);
      var (q', r) := Fetch(q, maxPiece, preferSmall);
      if accepted && r.Some? {
        ConfirmInv(q', r.value.index, r.value.part, |r.value.data|);
      }
    case SetLookahead(n) => LookaheadInv(q, n);
    case Retry => RetryExcess(q);
    case End(accepted) =>
      RetryExcess(q);
      HeadInRange(q);
      if q.early.Some? {
        AcceptInv(q);
        EndExcess(EarlyRetry(q));
      }
  }

  lemma {:induction false} NothingCut()
    ensures Cut([]) == 0
  {
  }

  lemma {:induction false} EndExcess(q: Queue)
    ensures Excess(q.(early := None)) == Excess(q)
  {
  }

  lemma {:induction false} HeadInRange(q: Queue)
    requires Inv(q)
    ensures q.Head() <= |q.buf|
  {
  }

  /** Whatever sizes the actions of a run computed fitted 16 bits. */
  predicate CountedWhole(q: Queue, actions: seq<Action>)
    decreases |actions|
  {
    actions == []
    || (CountedWhole(q, Front(actions)) && Below64K(Recounted(Run(q, Front(actions)), Last(actions))))
  }

  lemma {:induction false} RecountedWellFormed(q: Queue, a: Action)
    requires Inv(q)
    ensures forall i :: 0 <= i < |Recounted(q, a)| ==> Recounted(q, a)[i].WellFormed()
  {
  }

  /**
   * After any run, with datagrams of any size, the byte count is at least what is left to send, and is exactly that
   * if and only if every size computed on the way fitted the 16 bits it is computed in.  A count once too high
   * stays so.
   */
  lemma {:induction false} CountsExactly(splitting: bool, lookahead: nat, earlyData: bool, actions: seq<Action>)
    ensures var start := EmptyQueue(splitting, lookahead, earlyData);
            var q := Run(start, actions);
            && q.unsentBytes >= TotalTrue(q.buf)
            && (q.unsentBytes == TotalTrue(q.buf) <==> CountedWhole(start, actions))
    decreases |actions|
  {
    hide Inv, Step, Recounted, Below64K, Cut;
    if actions != [] {
      var start := EmptyQueue(splitting, lookahead, earlyData);
      CountsExactly(splitting, lookahead, earlyData, Front(actions));
      RunInv(splitting, lookahead, earlyData, Front(actions));
      var before := Run(start, Front(actions));
      StepExcess(before, Last(actions));
      RecountedWellFormed(before, Last(actions));
      CutIs(Recounted(before, Last(actions)));
    }
  }

  /** Dropping leaves a right count right exactly if every datagram dropped has less than 64 KiB left to send. */
  lemma {:induction false} DropCountsWhole(q: Queue, maxPiece: nat)
    requires Inv(q)
    ensures var q' := DropUnsendable(q, maxPiece);
            && Excess(q') >= Excess(q)
            && (Excess(q') == Excess(q) <==> Below64K(q.buf[..|q.buf| - |q'.buf|]))
  {
    hide Cut, Below64K, Excess;
    DropExcess(q, maxPiece);
    CutIs(q.buf[..|q.buf| - |DropUnsendable(q, maxPiece).buf|]);
  }

  /** So does a Retry, or a rejection, for the datagrams that it takes back. */
  lemma {:induction false} RetryCountsWhole(q: Queue)
    requires Inv(q)
    ensures Excess(EarlyRetry(q)) >= Excess(q) && (Excess(EarlyRetry(q)) == Excess(q) <==> Below64K(Retried(q)))
    ensures Excess(Step(q, End(false))) == Excess(EarlyRetry(q))
  {
    hide Cut, Below64K, Excess, EarlyRetry;
    RetryExcess(q);
    CutIs(Retried(q));
    StepExcess(q, End(false));
  }

  /** No payload put into the queue is as large as 64 KiB. */
  ghost predicate SmallRun(actions: seq<Action>) {
    forall i :: 0 <= i < |actions| && actions[i].Put? ==> |actions[i].payload| < 65536
  }

  /** Then every size fits. */
  lemma {:induction false} SmallRunCountsWhole(splitting: bool, lookahead: nat, earlyData: bool, actions: seq<Action>)
    requires SmallRun(actions)
    ensures CountedWhole(EmptyQueue(splitting, lookahead, earlyData), actions)
    ensures AllSmall(Run(EmptyQueue(splitting, lookahead, earlyData), actions).buf)
    decreases |actions|
  {
    hide Inv, Step, AllSmall, Recounted;
    if actions == [] {
      NoneSmall();
    } else {
      SmallRunCountsWhole(splitting, lookahead, earlyData, Front(actions));
      RunInv(splitting, lookahead, earlyData, Front(actions));
      var before := Run(EmptyQueue(splitting, lookahead, earlyData), Front(actions));
      RecountedWellFormed(before, Last(actions));
      RecountedSmall(before, Last(actions));
      SmallBelow(Recounted(before, Last(actions)));
      StepSmall(before, Last(actions));
    }
  }

  ghost predicate AllSmall(buf: seq<Entry>) {
    forall i :: 0 <= i < |buf| ==> |buf[i].payload| < 65536
  }

  lemma {:induction false} NoneSmall()
    ensures AllSmall([])
  {
  }

  lemma {:induction false} RecountedSmall(q: Queue, a: Action)
    requires AllSmall(q.buf)
    ensures AllSmall(Recounted(q, a))
  {
  }

  lemma {:induction false} SmallBelow(buf: seq<Entry>)
    requires AllSmall(buf) && forall i :: 0 <= i < |buf| ==> buf[i].WellFormed()
    ensures Below64K(buf)
  {
    if buf != [] {
      SizeBound(buf[0]);
      SmallBelow(buf[1..]);
    }
  }

  lemma {:induction false} StepSmall(q: Queue, a: Action)
    requires Inv(q) && AllSmall(q.buf) && (a.Put? ==> |a.payload| < 65536)
    ensures AllSmall(Step(q, a).buf)
  {
    hide Inv, AllSmall;
    match a
    case Put(payload, dgid) => SmallAppend(q.buf, Entry(dgid, UNSENT, 65535, payload));
    case Send(maxPiece, preferSmall, accepted) => SendSmall(q, maxPiece, preferSmall, accepted);
    case SetLookahead(_) =>
    case Retry => UnsendSmall(q);
    case End(accepted) =>
      UnsendSmall(q);
      if q.Head() <= |q.buf| {
        SmallSuffix(q.buf, q.Head());
      }
  }

  lemma {:induction false} SmallAppend(buf: seq<Entry>, e: Entry)
    requires AllSmall(buf) && |e.payload| < 65536
    ensures AllSmall(buf + [e])
  {
  }

  lemma {:induction false} SmallSuffix(buf: seq<Entry>, n: nat)
    requires AllSmall(buf) && n <= |buf|
    ensures AllSmall(buf[n..])
  {
  }

  lemma {:induction false} UnsendSmall(q: Queue)
    requires AllSmall(q.buf)
    ensures AllSmall(EarlyRetry(q).buf)
  {
  }

  lemma {:induction false} SendSmall(q: Queue, maxPiece: nat, preferSmall: bool, accepted: bool)
    requires Inv(q) && AllSmall(q.buf)
    ensures AllSmall(SendStep(q, maxPiece, preferSmall, accepted).buf)
  {
    hide Inv, Fetch, Confirm, DropUnsendable, OnlyUnsendable, WithinLookahead, AllSmall, Payloads;
    DropInv(q, maxPiece);
    SmallSuffix(q.buf, |q.buf| - |DropUnsendable(q, maxPiece).buf|);
    FetchPayloads(q, maxPiece, preferSmall);
    var (q', r) := Fetch(q, maxPiece, preferSmall);
    SmallPayloads(DropUnsendable(q, maxPiece).buf, q'.buf);
    if r.Some? {
      ConfirmSmall(q', r.value.index, r.value.part, |r.value.data|);
    }
  }

  lemma {:induction false} SmallPayloads(a: seq<Entry>, b: seq<Entry>)
    requires AllSmall(a) && Payloads(a) == Payloads(b)
    ensures AllSmall(b)
  {
    forall i | 0 <= i < |b|
      ensures |b[i].payload| < 65536
    {
      assert Payloads(b)[i] == Payloads(a)[i];
    }
  }

  lemma {:induction false} ConfirmSmall(q: Queue, i: nat, part: Status, size: nat)
    requires i < |q.buf| && AllSmall(q.buf)
    ensures AllSmall(Confirm(q, i, part, size).buf)
  {
  }

  lemma {:induction false} RunSplit(q: Queue, actions: seq<Action>, a: Action)
    ensures Run(q, actions + [a]) == Step(Run(q, actions), a)
  {
    assert Front(actions + [a]) == actions;
  }

  /** No action lowers the lookahead. */
  ghost predicate NeverLowered(q: Queue, actions: seq<Action>)
    decreases |actions|
  {
    actions == [] ||
    (&& NeverLowered(q, Front(actions))
     && (Last(actions).SetLookahead? ==> Last(actions).n >= Run(q, Front(actions)).lookahead))
  }

  function Payloads(buf: seq<Entry>): seq<Bytes> {
    seq(|buf|, i requires 0 <= i < |buf| => buf[i].payload)
  }

  /** The payloads put into the queue, in order. */
  function Queued(actions: seq<Action>): seq<Bytes>
    decreases |actions|
  {
    if actions == [] then []
    else Queued(Front(actions)) + if Last(actions).Put? then [Last(actions).payload] else []
  }

  lemma {:induction false} PayloadsSplit(buf: seq<Entry>, n: nat)
    requires n <= |buf|
    ensures Payloads(buf) == Payloads(buf[..n]) + Payloads(buf[n..])
  {
  }

  /** The payloads that a run drops as unsendable, in order. */
  function Lost(q: Queue, actions: seq<Action>): seq<Bytes>
    decreases |actions|
  {
    if actions == [] then []
    else
      var before := Run(q, Front(actions));
      Lost(q, Front(actions)) + Payloads(before.buf[..DropCount(before, Last(actions))])
  }

  /** Whatever a run drops could not be sent any more when it was dropped. */
  ghost predicate DropsOnlyUnsendable(q: Queue, actions: seq<Action>)
    decreases |actions|
  {
    actions == [] ||
    (&& DropsOnlyUnsendable(q, Front(actions))
     && var before, last := Run(q, Front(actions)), Last(actions);
        last.Send? ==> OnlyUnsendable(before.buf[..DropCount(before, last)], last.maxPiece, before.splitting))
  }

  /** Whenever a run sends, the datagram at the front of the queue can still be sent. */
  ghost predicate FrontStaysSendable(q: Queue, actions: seq<Action>)
    decreases |actions|
  {
    actions == [] ||
    (&& FrontStaysSendable(q, Front(actions))
     && var before, last := Run(q, Front(actions)), Last(actions);
        last.Send? && before.buf != [] ==> !before.buf[0].Unsendable(last.maxPiece, before.splitting))
  }

  lemma {:induction false} NothingLost(q: Queue, actions: seq<Action>)
    requires FrontStaysSendable(q, actions)
    ensures Lost(q, actions) == []
    decreases |actions|
  {
    hide Entry.Unsendable, Step;
    if actions != [] {
      NothingLost(q, Front(actions));
    }
  }

  /** Within early data a step only drops from the front of the queue or adds to its end. */
  lemma {:induction false} EarlyStep(q: Queue, a: Action)
    requires Inv(q) && q.early.Some? && !a.End?
    ensures Step(q, a).early.Some?
    ensures Payloads(q.buf) + (if a.Put? then [a.payload] else []) ==
            Payloads(q.buf[..DropCount(q, a)]) + Payloads(Step(q, a).buf)
    ensures a.Send? ==> OnlyUnsendable(q.buf[..DropCount(q, a)], a.maxPiece, q.splitting)
  {
    hide Inv, DropUnsendable, Fetch, Confirm, OnlyUnsendable;
    if a.Send? {
      EarlySend(q, a.maxPiece, a.preferSmall, a.accepted);
      DropInv(q, a.maxPiece);
      var n := DropCount(q, a);
      assert q.buf[n..] == DropUnsendable(q, a.maxPiece).buf;
      PayloadsSplit(q.buf, n);
    } else if a.Retry? {
      RetryInv(q);
      assert Payloads(Step(q, a).buf) == Payloads(q.buf);
    } else if a.Put? {
      assert Payloads(Step(q, a).buf) == Payloads(q.buf) + [a.payload];
    }
  }

  lemma {:induction false} EarlySend(q: Queue, maxPiece: nat, preferSmall: bool, accepted: bool)
    requires Inv(q) && q.early.Some?
    ensures var q' := SendStep(q, maxPiece, preferSmall, accepted);
            q'.early.Some? && Payloads(q'.buf) == Payloads(DropUnsendable(q, maxPiece).buf)
  {
    hide Inv, Fetch, Confirm, DropUnsendable, Payloads;
    FetchPayloads(q, maxPiece, preferSmall);
    var (q2, r) := Fetch(q, maxPiece, preferSmall);
    if r.Some? {
      ConfirmPayloads(q2, r.value.index, r.value.part, |r.value.data|);
    }
  }

  /** Fetching changes no payload that it does not drop. */
  lemma {:induction false} FetchPayloads(q: Queue, maxPiece: nat, preferSmall: bool)
    ensures var q' := Fetch(q, maxPiece, preferSmall).0;
            Payloads(q'.buf) == Payloads(DropUnsendable(q, maxPiece).buf) && q'.early == q.early
  {
    hide Chosen, PartData, PartId, Entry.Unsendable, Entry.UnsentSize;
    DropKeepsEarly(q, maxPiece);
    var q1 := DropUnsendable(q, maxPiece);
    if q1.Head() < |q1.buf| {
      ChosenInRange(q1, maxPiece, preferSmall);
    }
  }

  lemma {:induction false} DropKeepsEarly(q: Queue, maxPiece: nat)
    ensures DropUnsendable(q, maxPiece).early == q.early
    decreases |q.buf|
  {
    hide Entry.Unsendable, Entry.UnsentSize;
    if q.buf != [] && q.buf[0].Unsendable(maxPiece, q.splitting) {
      DropKeepsEarly(q.(unsentBytes := q.unsentBytes - q.buf[0].UnsentSize(), buf := q.buf[1..]), maxPiece);
    }
  }

  lemma {:induction false} ConfirmPayloads(q: Queue, i: nat, part: Status, size: nat)
    requires i < |q.buf| && q.early.Some?
    ensures Payloads(Confirm(q, i, part, size).buf) == Payloads(q.buf) && Confirm(q, i, part, size).early.Some?
  {
  }

  lemma {:induction false} EarlyRun(q: Queue, actions: seq<Action>)
    requires q.early == Some(0) && q.buf == [] && q.unsentBytes == 0
    requires forall i :: 0 <= i < |actions| ==> !actions[i].End?
    ensures Inv(Run(q, actions)) && Run(q, actions).early.Some?
    ensures Queued(actions) == Lost(q, actions) + Payloads(Run(q, actions).buf)
    ensures DropsOnlyUnsendable(q, actions)
    ensures NeverLowered(q, actions) ==> WithinLookahead(Run(q, actions))
    decreases |actions|
  {
    hide Step, Inv, WithinLookahead, Payloads, OnlyUnsendable, DropCount;
    if actions == [] {
      EmptyStart(q);
    } else {
      var front, last := Front(actions), Last(actions);
      EarlyRun(q, front);
      var before := Run(q, front);
      StepInv(before, last);
      EarlyStep(before, last);
      var put := if last.Put? then [last.payload] else [];
      var gone, left := Payloads(before.buf[..DropCount(before, last)]), Payloads(Step(before, last).buf);
      assert Lost(q, front) + Payloads(before.buf) + put == Lost(q, front) + (Payloads(before.buf) + put);
      assert Lost(q, front) + (gone + left) == (Lost(q, front) + gone) + left;
    }
  }

  lemma {:induction false} EmptyStart(q: Queue)
    requires q.early == Some(0) && q.buf == [] && q.unsentBytes == 0
    ensures Inv(q) && WithinLookahead(q) && Payloads(q.buf) == []
  {
  }

  /**
   * When early data is rejected after any run in which the lookahead was not lowered, the queue holds the queued
   * datagrams in their original order, all of them to be sent from scratch, except for a prefix of datagrams
   * each of which could not be sent any more when it was dropped; and all of them if there were none such.
   */
  lemma {:induction false} RejectionReplays(splitting: bool, lookahead: nat, actions: seq<Action>)
    requires forall i :: 0 <= i < |actions| ==> !actions[i].End?
    requires NeverLowered(EmptyQueue(splitting, lookahead, true), actions)
    ensures var start := EmptyQueue(splitting, lookahead, true);
            var q := Step(Run(start, actions), End(false));
            && q.early == None && WhollyUnsent(q) && q.unsentBytes >= TotalSize(q.buf)
            && (q.unsentBytes == TotalSize(q.buf) <==> CountedWhole(start, actions + [End(false)]))
            && Queued(actions) == Lost(start, actions) + Payloads(q.buf) && DropsOnlyUnsendable(start, actions)
            && (FrontStaysSendable(start, actions) ==> Payloads(q.buf) == Queued(actions))
  {
    hide Inv, WithinLookahead, Step, Run, Payloads, WhollyUnsent, TotalSize, Lost, DropsOnlyUnsendable,
        FrontStaysSendable, NeverLowered, Queued, CountedWhole;
    var start := EmptyQueue(splitting, lookahead, true);
    EarlyRun(start, actions);
    RejectedState(Run(start, actions));
    RunSplit(start, actions, End(false));
    CountsExactly(splitting, lookahead, true, actions + [End(false)]);
    if FrontStaysSendable(start, actions) {
      NothingLost(start, actions);
    }
  }

  lemma {:induction false} RejectedState(q: Queue)
    requires Inv(q) && q.early.Some? && WithinLookahead(q)
    ensures var q' := Step(q, End(false));
            && q'.early == None && WhollyUnsent(q') && q'.unsentBytes == TotalSize(q'.buf) + Excess(q')
            && Excess(q') >= 0 && Payloads(q'.buf) == Payloads(q.buf)
  {
    hide EarlyEnd, WithinLookahead;
    RejectInv(q);
    TotalOfUnsent(EarlyEnd(q, false).buf);
  }

  /** Lowering the lookahead in early data leaves a half-sent datagram behind a Retry. */
  lemma {:induction false} LoweredLookaheadLosesPart(a: Bytes, b: Bytes)
    requires |a| == 3 && |b| == 3
    ensures var q2 := Step(Step(EmptyQueue(true, 1, true), Put(a, 0)), Put(b, 4));
            var q4 := Step(Step(q2, Send(2, true, true)), Send(2, true, true));
            !WhollyUnsent(Step(Step(q4, SetLookahead(0)), Retry))
  {
    hide SendStep, TotalUnsent, TotalSize, Entry.UnsentSize, Entry.WellFormed;
    var q2 := Step(Step(EmptyQueue(true, 1, true), Put(a, 0)), Put(b, 4));
    var q3 := Step(q2, Send(2, true, true));
    var q4 := Step(q3, Send(2, true, true));
    SmallFirst(q2, 0);
    assert q3.buf == [Entry(0, SENT_SECOND, 2, a), Entry(4, UNSENT, 65535, b)];
    SmallFirst(q3, 1);
    assert q4.buf == [Entry(0, SENT_SECOND, 2, a), Entry(4, SENT_SECOND, 2, b)];
    assert Step(Step(q4, SetLookahead(0)), Retry).buf[1].status == SENT_SECOND;
  }

  lemma {:induction false} SmallFirst(q: Queue, i: nat)
    requires q.splitting && q.early == Some(0) && q.lookahead == 1 && |q.buf| == 2 && i < 2
    requires !q.buf[0].Unsendable(2, true) && q.buf[i].status == UNSENT && |q.buf[i].payload| == 3
    requires i == 1 ==> q.buf[0].status.second
    ensures Step(q, Send(2, true, true)) ==
            q.(buf := q.buf[i := q.buf[i].(status := SENT_SECOND, splitPos := 2)], unsentBytes := q.unsentBytes - 1)
  {
    assert FirstSmall(q.buf, 2, 0, 1) == Some(i) by {
      assert i == 1 ==> FirstSmall(q.buf, 2, 0, 1) == FirstSmall(q.buf, 2, 1, 1);
    }
    assert Chosen(q, 2, true) == (i, SENT_SECOND);
  }

  /** A single datagram of 64 KiB or more, dropped from an empty queue, leaves bytes behind in the count. */
  lemma {:induction false} LargeDropLeavesBytes(q: Queue, payload: Bytes, dgid: nat, maxPiece: nat)
    requires q.buf == [] && q.unsentBytes == 0
    requires |payload| >= 65536 && |payload| > maxPiece * (if q.splitting then 2 else 1)
    ensures DropUnsendable(Emplace(q, payload, dgid), maxPiece).buf == []
    ensures DropUnsendable(Emplace(q, payload, dgid), maxPiece).unsentBytes > 0
  {
    var q1 := Emplace(q, payload, dgid);
    assert q1.buf[0].Unsendable(maxPiece, q.splitting);
    var q2 := q1.(unsentBytes := q1.unsentBytes - q1.buf[0].UnsentSize(), buf := q1.buf[1..]);
    assert DropUnsendable(q1, maxPiece) == DropUnsendable(q2, maxPiece) == q2;
  }

  /** A Retry of a single datagram of 64 KiB or more counts bytes twice. */
  lemma {:induction false} LargeRetryAddsBytes(splitting: bool, lookahead: nat, payload: Bytes)
    requires |payload| >= 65536
    ensures var q := Step(EmptyQueue(splitting, lookahead, true), Put(payload, 0));
            && q.unsentBytes == TotalTrue(q.buf)
            && Step(q, Retry).unsentBytes > TotalTrue(Step(q, Retry).buf)
  {
    var q := Step(EmptyQueue(splitting, lookahead, true), Put(payload, 0));
    assert q.buf == [Entry(0, UNSENT, 65535, payload)];
    RetryExcess(q);
    assert Retried(q) == q.buf && q.buf[1..] == [];
    assert TotalUnsent(q.buf) == |payload| % 65536 < |payload|;
  }

  /**
   * When a fetched piece fits: exactly if its datagram can still be sent, or the piece is the first part of a
   * datagram split just now.  Only the datagram at the front has been checked for that; one at the head behind
   * sent early data, or further back, may have become unsendable.
   */
  lemma {:induction false} FetchFits(q: Queue, maxPiece: nat, preferSmall: bool)
    requires Inv(q) && (maxPiece < 65536 || AllSmall(q.buf))
    ensures var q1, (q', r) := DropUnsendable(q, maxPiece), Fetch(q, maxPiece, preferSmall);
            r.Some? ==>
              && |q'.buf| == |q1.buf| && r.value.index < |q1.buf|
              && var e := q1.buf[r.value.index];
                 && (|r.value.data| <= maxPiece <==>
                       !e.Unsendable(maxPiece, q.splitting) || (e.status == UNSENT && r.value.part == SENT_FIRST))
                 && (r.value.index == 0 ==> |r.value.data| <= maxPiece)
  {
    hide Inv, WithinLookahead, Chosen, OnlyUnsendable, PartId, DropUnsendable, Entry.UnsentSize, Excess;
    DropInv(q, maxPiece);
    var q1 := DropUnsendable(q, maxPiece);
    if q1.Head() < |q1.buf| {
      ChosenIs(q1, maxPiece, preferSmall);
      ChosenHead(q1, maxPiece, preferSmall);
      var (i, part) := Chosen(q1, maxPiece, preferSmall);
      EntryWellFormed(q1, i);
      PieceFits(q1.buf[i], part, maxPiece, q.splitting);
    }
  }

  /** A piece larger than the room: of a datagram behind sent early data, once the room has shrunk. */
  lemma {:induction false} ShrunkRoomDoesNotFit(a: Bytes, b: Bytes, room: nat)
    requires |a| <= room < |b|
    ensures var q2 := Step(Step(EmptyQueue(false, 0, true), Put(a, 0)), Put(b, 4));
            var r := Fetch(Step(q2, Send(|b|, false, true)), room, false).1;
            r.Some? && r.value.data == b && |r.value.data| > room
  {
    var q2 := Step(Step(EmptyQueue(false, 0, true), Put(a, 0)), Put(b, 4));
    assert q2.buf == [Entry(0, UNSENT, 65535, a), Entry(4, UNSENT, 65535, b)];
    var q3 := Step(q2, Send(|b|, false, true));
    assert q3.buf == [Entry(0, SENT, 65535, a), Entry(4, UNSENT, 65535, b)] && q3.early == Some(1);
  }

  /** A datagram sent whole needs no splitting, or splitting is off. */
  lemma {:induction false} ChosenHead(q: Queue, maxPiece: nat, preferSmall: bool)
    requires q.Head() < |q.buf|
    ensures var (i, part) := Chosen(q, maxPiece, preferSmall);
            part == SENT ==> !q.splitting || |q.buf[q.Head()].payload| <= maxPiece
  {
  }

  lemma {:induction false} PieceFits(e: Entry, part: Status, maxPiece: nat, splitting: bool)
    requires e.WellFormed() && (maxPiece < 65536 || |e.payload| < 65536)
    requires e.status != SENT && (part == SENT || part == SENT_FIRST || part == SENT_SECOND)
    requires part != SENT ==> splitting && (e.HalfSent() || |e.payload| > maxPiece)
    requires part == SENT ==> e.status == UNSENT && (!splitting || |e.payload| <= maxPiece)
    requires (part == SENT_FIRST ==> !e.status.first) && (part == SENT_SECOND ==> !e.status.second)
    ensures |PartData(WithSplit(e, part, maxPiece), part)| <= maxPiece <==>
            !e.Unsendable(maxPiece, splitting) || (e.status == UNSENT && part == SENT_FIRST)
  {
  }
}
