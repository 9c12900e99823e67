/** The datagram channel's send side, updated in place as the connection drives it. */
module DatagramSenders {
  import opened Common
  import opened DatagramQueues

  class DatagramSender {
    const splitting: bool
    const queueLimit: nat
    var lookahead: nat
    var early: Option<nat>
    var lastIndex: Option<nat>
    var lastSent: Status
    var lastSize: nat
    var unsentBytes: nat
    var buf: seq<Entry>
    var nextCounter: nat
    var dropCount: nat

    ghost function State(): Queue
      reads this
    {
      Queue(splitting, lookahead, early, unsentBytes, buf)
    }

    ghost predicate Valid()
      reads this
    {
      Inv(State()) && nextCounter < 16384
    }

    /** A fetched piece is waiting to be confirmed. */
    ghost predicate Fetched()
      reads this
    {
      lastIndex.Some? && CanConfirm(State(), lastIndex.value, lastSent, lastSize)
    }

    constructor (splitting: bool, queueLimit: nat)
      ensures Valid() && State() == EmptyQueue(splitting, 8, false)
      ensures nextCounter == 0 && this.queueLimit == queueLimit
    {
      this.splitting := splitting;
      this.queueLimit := queueLimit;
      lookahead, early, lastIndex, lastSent, lastSize := 8, None, None, UNSENT, 0;
      unsentBytes, buf, nextCounter, dropCount := 0, [], 0, 0;
    }

    /** Queues a datagram of any size under the next ID, or drops it if too much is queued already. */
    method SendDatagram(data: Bytes)
      requires Valid()
      modifies this
      ensures Valid() && Excess(State()) == old(Excess(State()))
      ensures if old(unsentBytes) > queueLimit then
                State() == old(State()) && nextCounter == old(nextCounter) && dropCount == old(dropCount) + 1
              else
                && State() == Emplace(old(State()), data, 4 * old(nextCounter))
                && nextCounter == (old(nextCounter) + 1) % 16384 && dropCount == old(dropCount)
    {
      hide Inv, Excess;
      if unsentBytes > queueLimit {
        dropCount := dropCount + 1;
        return;
      }
      var baseId := nextCounter * 4;
      nextCounter := (nextCounter + 1) % 16384;
      EmplaceInv(State(), data, baseId);
      unsentBytes := unsentBytes + |data|;
      buf := buf + [Entry(baseId, UNSENT, 65535, data)];
    }

    method SetSplitLookahead(n: int)
      requires Valid()
      modifies this`lookahead
      ensures Valid() && State() == old(State()).(lookahead := if n >= 0 then n else 8)
    {
      LookaheadInv(State(), if n >= 0 then n else 8);
      lookahead := if n >= 0 then n else 8;
    }

    method DropLeading(maxPiece: nat)
      requires Valid()
      modifies this`unsentBytes, this`buf
      ensures Valid() && State() == DropUnsendable(old(State()), maxPiece)
    {
      hide Inv, Entry.UnsentSize, Entry.Unsendable;
      while buf != [] && buf[0].Unsendable(maxPiece, splitting)
        invariant Valid()
        invariant DropUnsendable(State(), maxPiece) == DropUnsendable(old(State()), maxPiece)
        decreases |buf|
      {
        DropFrontInv(State(), maxPiece);
        unsentBytes := unsentBytes - buf[0].UnsentSize();
        buf := buf[1..];
      }
    }

    /** Looks for the first small piece within the lookahead. */
    method FindSmall(maxPiece: nat) returns (r: Option<nat>)
      requires Valid() && State().Head() < |buf|
      ensures r == FirstSmall(buf, maxPiece, State().Head(), State().Head() + lookahead)
    {
      var i := if early.Some? then early.value else 0;
      var off := 0;
      while off <= lookahead && i + off < |buf|
        invariant FirstSmall(buf, maxPiece, i, i + lookahead) == FirstSmall(buf, maxPiece, i + off, i + lookahead)
        decreases |buf| - off
      {
        var e := buf[i + off];
        assert e.status.second || off == 0 || e.status == UNSENT;
        if !e.status.second && (e.status == SENT_FIRST || |e.payload| > maxPiece) {
          return Some(i + off);
        }
        off := off + 1;
      }
      return None;
    }

    method Fetch(maxPiece: nat, preferSmall: bool) returns (r: Option<Prepared>)
      requires Valid()
      modifies this
      ensures Valid() && nextCounter == old(nextCounter) && dropCount == old(dropCount)
      ensures (State(), r) == DatagramQueues.Fetch(old(State()), maxPiece, preferSmall)
      ensures r.Some? <==> Unfinished(buf)
      ensures r.Some? ==>
                && Fetched() && lastIndex == Some(r.value.index)
                && lastSent == r.value.part && lastSize == |r.value.data|
    {
      hide Inv, WithinLookahead, DropUnsendable, FirstSmall, Entry.Unsendable, Entry.UnsentSize, PartData, PartId,
        Unfinished;
      FetchInv(State(), maxPiece, preferSmall);
      FetchReturns(State(), maxPiece, preferSmall);
      DropLeading(maxPiece);
      var i := if early.Some? then early.value else 0;
      if i >= |buf| {
        return None;
      }
      var small: Option<nat> := None;
      if preferSmall && splitting {
        small := FindSmall(maxPiece);
      }
      ChosenIs(State(), maxPiece, preferSmall);
      var index, part := i, SENT_SECOND;
      if small.Some? {
        index := small.value;
      } else {
        assert buf[i].status != SENT by {
          EntryWellFormed(State(), i);
        }
        part := HeadPart(buf[i], maxPiece, splitting);
      }
      var e := WithSplit(buf[index], part, maxPiece);
      buf := buf[index := e];
      lastIndex, lastSent := Some(index), part;
      var data := PartData(e, part);
      lastSize := |data|;
      return Some(Prepared(index, part, PartId(e, part), data));
    }

    /** Marks the fetched piece sent; a datagram completed by it is always the one at the head. */
    method ConfirmSent()
      requires Valid() && Fetched()
      modifies this
      ensures Valid() && lastIndex == None && nextCounter == old(nextCounter) && dropCount == old(dropCount)
      ensures State() == Confirm(old(State()), old(lastIndex.value), old(lastSent), old(lastSize))
    {
      hide Inv, PartData;
      var i := lastIndex.value;
      ConfirmInv(State(), i, lastSent, lastSize);
      ConfirmBound(State(), i, lastSent, lastSize);
      buf := buf[i := buf[i].(status := Or(buf[i].status, lastSent))];
      unsentBytes := unsentBytes - lastSize;
      if buf[i].status == SENT {
        assert i == if early.Some? then early.value else 0;
        if early.Some? {
          early := Some(early.value + 1);
        } else {
          buf := buf[1..];
        }
      }
      lastIndex := None;
    }

    method EarlyDataBegin()
      requires Valid() && buf == []
      modifies this`early
      ensures Valid() && early == Some(0) && State() == EarlyBegin(old(State()))
    {
      early := Some(0);
    }

    method EarlyDataRetry()
      requires Valid()
      modifies this`early, this`unsentBytes, this`buf
      ensures Valid() && State() == EarlyRetry(old(State()))
    {
      if early.None? {
        return;
      }
      hide Inv, Unsend, RetryBytes, WithinLookahead, SameDatagrams;
      ghost var q := State();
      RetryInv(q);
      RetryIs(q);
      UnsendUpTo(early.value + if splitting then lookahead else 0);
      early := Some(0);
    }

    /** Marks the entries up to and including index `last` unsent. */
    method UnsendUpTo(last: nat)
      requires Valid()
      modifies this`unsentBytes, this`buf
      ensures var n := Min(|old(buf)|, last + 1);
              buf == Unsend(old(buf), n) && unsentBytes == RetryBytes(old(State()), n)
    {
      hide Inv, Entry.UnsentSize, Unsend, RetryBytes;
      ghost var q := State();
      RetryBytesStart(q);
      var i: nat := 0;
      while i < |buf| && i <= last
        invariant i <= |buf| == |q.buf| && i <= last + 1
        invariant buf == Unsend(q.buf, i) && unsentBytes == RetryBytes(q, i)
      {
        RetryBytesStep(q, i);
        unsentBytes := unsentBytes + (|buf[i].payload| - buf[i].UnsentSize());
        buf := buf[i := buf[i].(status := UNSENT)];
        i := i + 1;
      }
    }

    method EarlyDataEnd(accepted: bool)
      requires Valid()
      modifies this`early, this`unsentBytes, this`buf
      ensures Valid() && State() == EarlyEnd(old(State()), accepted)
    {
      if early.None? {
        return;
      }
      hide Inv, WhollyUnsent, WithinLookahead, SameDatagrams, EarlyRetry;
      HeadInRange(State());
      AcceptInv(State());
      RejectInv(State());
      if !accepted {
        EarlyDataRetry();
      } else {
        buf := buf[early.value..];
      }
      early := None;
    }
  }

  lemma {:induction false} ConfirmBound(q: Queue, i: nat, part: Status, size: nat)
    requires Inv(q) && CanConfirm(q, i, part, size)
    ensures q.unsentBytes >= size
  {
    hide Entry.TrueUnsent, PartData, Entry.WellFormed;
    ConfirmedSize(q.buf[i], part);
    var e := q.buf[i].(status := Or(q.buf[i].status, part));
    TotalTrueUpdate(q.buf, i, e);
    NonNegative(q.buf[i := e]);
  }

  lemma {:induction false} RetryIs(q: Queue)
    requires q.early.Some?
    ensures var n := Min(|q.buf|, RetryReach(q));
            EarlyRetry(q) == q.(buf := Unsend(q.buf, n), unsentBytes := RetryBytes(q, n), early := Some(0))
  {
  }

  /** The byte count after the first i entries have been marked unsent. */
  ghost function RetryBytes(q: Queue, i: nat): int
    requires i <= |q.buf|
  {
    q.unsentBytes + TotalSize(q.buf[..i]) - TotalUnsent(q.buf[..i])
  }

  lemma {:induction false} RetryBytesStart(q: Queue)
    ensures RetryBytes(q, 0) == q.unsentBytes && Unsend(q.buf, 0) == q.buf
  {
  }

  lemma {:induction false} RetryBytesStep(q: Queue, i: nat)
    requires Inv(q) && i < |q.buf|
    ensures |Unsend(q.buf, i)| == |q.buf| && Unsend(q.buf, i)[i] == q.buf[i]
    ensures Unsend(q.buf, i)[i := q.buf[i].(status := UNSENT)] == Unsend(q.buf, i + 1)
    ensures RetryBytes(q, i + 1) == RetryBytes(q, i) + (|q.buf[i].payload| - q.buf[i].UnsentSize())
    ensures q.buf[i].UnsentSize() <= |q.buf[i].payload|
  {
    hide Inv;
    EntryWellFormed(q, i);
    SizeBound(q.buf[i]);
    assert q.buf[..i + 1] == q.buf[..i] + [q.buf[i]];
    TotalsConcat(q.buf[..i], [q.buf[i]]);
    assert [q.buf[i]][1..] == [];
  }
}
