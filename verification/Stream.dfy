/** The stream's send buffer as it is kept: a deque of buffers and a point in it to send from. */
module Streams {
  import opened Common
  import opened StreamSending

  /** The position in the content of the point `offset` bytes into held buffer `index`. */
  ghost function Position(kept: seq<Buffer>, released: nat, index: nat, offset: nat, trimmed: nat): nat
    requires released + index <= |kept|
  {
    |Content(kept[..released + index])| + offset + if index == 0 then trimmed else 0
  }

  /**
   * The held buffers are the kept ones from `released` on, the first of them without the `trimmed`
   * bytes already acknowledged.
   */
  ghost predicate Holds(held: seq<Buffer>, kept: seq<Buffer>, released: nat, trimmed: nat)
    requires released + |held| == |kept|
  {
    && (held == [] ==> trimmed == 0)
    && (held != [] ==>
          && trimmed < |kept[released].data|
          && held[0] == Buffer(kept[released].data[trimmed..], kept[released].keepAlive))
    && (forall i :: 0 < i < |held| ==> held[i] == kept[released + i])
    && (forall i :: 0 <= i < |kept| ==> kept[i].data != [])
  }

  ghost predicate SendPoint(held: seq<Buffer>, index: nat, offset: nat) {
    && index <= |held|
    && (if index < |held| then offset < |held[index].data| else offset == 0)
  }

  /** Going past the end of a held buffer is going to the start of the next. */
  lemma {:induction false} PositionNext(held: seq<Buffer>, kept: seq<Buffer>, released: nat, trimmed: nat, index: nat)
    requires released + |held| == |kept| && Holds(held, kept, released, trimmed) && index < |held|
    ensures Position(kept, released, index + 1, 0, trimmed) ==
            Position(kept, released, index, |held[index].data|, trimmed)
    ensures Position(kept, released, index + 1, 0, trimmed) <= |Content(kept)|
    ensures held[index].data != []
  {
    ContentNext(kept, released + index);
    assert kept[released + index].data != [];
  }

  lemma {:induction false} PositionEnd(held: seq<Buffer>, kept: seq<Buffer>, released: nat, trimmed: nat)
    requires released + |held| == |kept| && Holds(held, kept, released, trimmed)
    ensures Position(kept, released, |held|, 0, trimmed) == |Content(kept)|
  {
    assert kept[..released + |held|] == kept;
  }

  /** The bytes from a point in a held buffer to its end. */
  lemma {:induction false} PositionData(held: seq<Buffer>, kept: seq<Buffer>, released: nat, trimmed: nat, index: nat,
                                        offset: nat)
    requires released + |held| == |kept| && Holds(held, kept, released, trimmed) && index < |held|
             && offset <= |held[index].data|
    ensures var p := Position(kept, released, index, offset, trimmed);
            var e := Position(kept, released, index + 1, 0, trimmed);
            p <= e <= |Content(kept)| && Content(kept)[p..e] == held[index].data[offset..]
  {
    PositionNext(held, kept, released, trimmed, index);
    var i := released + index;
    ContentNext(kept, i);
    ContentSplit(kept, i + 1);
    var skip := offset + if index == 0 then trimmed else 0;
    assert held[index].data[offset..] == kept[i].data[skip..];
    assert Content(kept)[|Content(kept[..i])| + skip..|Content(kept[..i + 1])|] == kept[i].data[skip..];
  }

  /** The buffered data is exactly what is not acknowledged. */
  lemma {:induction false} HeldContent(held: seq<Buffer>, kept: seq<Buffer>, released: nat, trimmed: nat, index: nat)
    requires released + |held| == |kept| && Holds(held, kept, released, trimmed) && index <= |held|
    ensures Position(kept, released, index, 0, trimmed) <= |Content(kept)|
    ensures Content(held[index..]) == Content(kept)[Position(kept, released, index, 0, trimmed)..]
    decreases |held| - index
  {
    PositionEnd(held, kept, released, trimmed);
    ContentFirst(held[index..]);
    if index < |held| {
      HeldContent(held, kept, released, trimmed, index + 1);
      PositionData(held, kept, released, trimmed, index, 0);
      assert held[index..][1..] == held[index + 1..];
    }
  }

  lemma {:induction false} FirstBeyondUnique(bufs: seq<Buffer>, n: nat, i: nat)
    requires n <= |Content(bufs)| && i <= |bufs| && |Content(bufs[..i])| >= n
    requires i > 0 ==> |Content(bufs[..i - 1])| < n
    ensures FirstBeyond(bufs, n) == i
  {
    FirstBeyondIs(bufs, n);
    var j := FirstBeyond(bufs, n);
    if j < i {
      ContentPrefixMonotone(bufs, j, i - 1);
    }
  }

  lemma {:induction false} HoldsAppend(held: seq<Buffer>, kept: seq<Buffer>, released: nat, trimmed: nat, b: Buffer)
    requires released + |held| == |kept| && Holds(held, kept, released, trimmed) && b.data != []
    ensures Holds(held + [b], kept + [b], released, trimmed)
    ensures |Content(kept + [b])| == |Content(kept)| + |b.data|
  {
    hide Content;
    ContentConcat(kept, [b]);
    ContentOne(b);
  }

  lemma {:induction false} PositionAppend(kept: seq<Buffer>, released: nat, index: nat, offset: nat, trimmed: nat,
                                          b: Buffer)
    requires released + index <= |kept|
    ensures Position(kept + [b], released, index, offset, trimmed) == Position(kept, released, index, offset, trimmed)
  {
    assert (kept + [b])[..released + index] == kept[..released + index];
  }

  /** Releasing the front buffer, once all of it is acknowledged: the send point is past it. */
  lemma {:induction false} PopFront(held: seq<Buffer>, kept: seq<Buffer>, released: nat, trimmed: nat, index: nat,
                                    offset: nat)
    requires released + |held| == |kept| && Holds(held, kept, released, trimmed)
    requires held != [] && SendPoint(held, index, offset)
    requires Position(kept, released, 0, |held[0].data|, trimmed) <= Position(kept, released, index, offset, trimmed)
    ensures index > 0 && SendPoint(held[1..], index - 1, offset)
    ensures Holds(held[1..], kept, released + 1, 0)
    ensures Position(kept, released + 1, index - 1, offset, 0) == Position(kept, released, index, offset, trimmed)
    ensures Position(kept, released + 1, 0, 0, 0) == Position(kept, released, 0, 0, trimmed) + |held[0].data|
  {
    PositionNext(held, kept, released, trimmed, 0);
    assert released + 1 + (index - 1) == released + index;
  }

  /** Trimming n acknowledged bytes off the front buffer, and off the offset if that is the one being sent. */
  lemma {:induction false} TrimFront(held: seq<Buffer>, kept: seq<Buffer>, released: nat, trimmed: nat, index: nat,
                                     offset: nat, n: nat)
    requires released + |held| == |kept| && Holds(held, kept, released, trimmed)
    requires held != [] && n < |held[0].data| && SendPoint(held, index, offset)
    requires Position(kept, released, 0, n, trimmed) <= Position(kept, released, index, offset, trimmed)
    ensures index == 0 ==> offset >= n
    ensures var held' := held[0 := Buffer(held[0].data[n..], held[0].keepAlive)];
            var offset' := if index == 0 then offset - n else offset;
            && Holds(held', kept, released, trimmed + n) && SendPoint(held', index, offset')
            && Position(kept, released, index, offset', trimmed + n) == Position(kept, released, index, offset, trimmed)
            && Position(kept, released, 0, 0, trimmed + n) == Position(kept, released, 0, 0, trimmed) + n
  {
    hide Content;
  }

  class Stream {
    var userBuffers: seq<Buffer>
    var unsentSize: nat
    var unackedSize: nat
    var ackedBytes: nat
    var currentIndex: nat
    var currentOffset: nat
    var frontTrimmed: nat
    var sendFin: bool
    var sentFin: bool
    var notify: bool
    var hadNotify: bool
    /** Everything ever given to the stream and not withdrawn, and how many of those are released. */
    ghost var kept: seq<Buffer>
    ghost var released: nat

    ghost function State(): Sending
      reads this
    {
      Sending(kept, ackedBytes, ackedBytes + unackedSize, sendFin, sentFin)
    }

    /** The deque holds what is not acknowledged, and the send point is after what is written. */
    ghost predicate At(acked: nat, written: nat)
      reads this
    {
      && released + |userBuffers| == |kept|
      && Holds(userBuffers, kept, released, frontTrimmed)
      && SendPoint(userBuffers, currentIndex, currentOffset)
      && acked == Position(kept, released, 0, 0, frontTrimmed)
      && written == Position(kept, released, currentIndex, currentOffset, frontTrimmed)
    }

    ghost predicate Valid()
      reads this
    {
      At(ackedBytes, ackedBytes + unackedSize) && ackedBytes + unackedSize + unsentSize == |Content(kept)|
    }

    constructor (notify: bool)
      ensures Valid() && State() == NOTHING_SENT && this.notify == this.hadNotify == notify
    {
      userBuffers, unsentSize, unackedSize, ackedBytes := [], 0, 0, 0;
      currentIndex, currentOffset, frontTrimmed := 0, 0, 0;
      sendFin, sentFin := false, false;
      this.notify, hadNotify := notify, notify;
      kept, released := [], 0;
    }

    /** What the counters say of the buffers held. */
    lemma {:induction false} Buffered()
      requires Valid()
      ensures State().Valid()
      ensures Content(userBuffers) == State().Unacked() + State().Unsent()
      ensures |Content(userBuffers[..currentIndex])| + currentOffset == unackedSize
    {
      hide Content, Holds;
      HeldContent(userBuffers, kept, released, frontTrimmed, 0);
      HeldContent(userBuffers, kept, released, frontTrimmed, currentIndex);
      NoEmptyBuffers(userBuffers, kept, released, frontTrimmed);
      assert userBuffers[0..] == userBuffers;
      ContentSplit(userBuffers, currentIndex);
    }

    /** Queues data; `open` is false once the stream is closing, or its connection is closing, draining or gone. */
    method Send(data: Bytes, keepAlive: nat, open: bool)
      requires Valid()
      modifies this`unsentSize, this`userBuffers, this`kept
      ensures Valid()
      ensures State() == if open then Append(old(State()), Buffer(data, keepAlive)) else old(State())
      ensures open && !sendFin && !sentFin ==> Content(userBuffers) == old(Content(userBuffers)) + data
    {
      if data == [] || !open || sendFin || sentFin {
        return;
      }
      hide Content, Holds, Position;
      var b := Buffer(data, keepAlive);
      ContentConcat(userBuffers, [b]);
      ContentOne(b);
      HoldsAppend(userBuffers, kept, released, frontTrimmed, b);
      PositionAppend(kept, released, 0, 0, frontTrimmed, b);
      PositionAppend(kept, released, currentIndex, currentOffset, frontTrimmed, b);
      unsentSize := unsentSize + |data|;
      userBuffers := userBuffers + [b];
      kept := kept + [b];
    }

    method Wrote(n: nat)
      requires Valid() && n <= unsentSize
      modifies this`unackedSize, this`unsentSize, this`notify, this`currentIndex, this`currentOffset
      ensures Valid() && State() == Write(old(State()), n)
      ensures var was := old(State());
              was.Valid() && Parts(State(), was.Acked(), was.Unacked() + was.Unsent()[..n], was.Unsent()[n..])
      ensures !notify
    {
      hide Content, Holds, Position, SendPoint;
      Buffered();
      MovePoint(n, ackedBytes + unackedSize);
      unackedSize := unackedSize + n;
      unsentSize := unsentSize - n;
      notify := false;
    }

    /** Moves the send point over the next n bytes. */
    method MovePoint(n: nat, ghost written: nat)
      requires At(ackedBytes, written) && written + n <= |Content(kept)|
      modifies this`currentIndex, this`currentOffset
      ensures At(ackedBytes, written + n)
    {
      hide Content, Holds;
      var bytes: nat := n;
      while currentIndex < |userBuffers| && bytes > 0
        modifies this`currentIndex, this`currentOffset
        invariant bytes <= n && At(ackedBytes, written + n - bytes)
        decreases |userBuffers| - currentIndex, bytes
      {
        var remaining := |userBuffers[currentIndex].data| - currentOffset;
        if bytes < remaining {
          currentOffset := currentOffset + bytes;
          bytes := 0;
          break;
        }
        PositionNext(userBuffers, kept, released, frontTrimmed, currentIndex);
        bytes := bytes - remaining;
        currentIndex := currentIndex + 1;
        currentOffset := 0;
        if currentIndex < |userBuffers| {
          PositionNext(userBuffers, kept, released, frontTrimmed, currentIndex);
        }
      }
      PositionEnd(userBuffers, kept, released, frontTrimmed);
    }

    method Acknowledge(n: nat)
      requires Valid() && n <= unackedSize
      modifies this`unackedSize, this`ackedBytes, this`userBuffers, this`frontTrimmed,
               this`currentIndex, this`currentOffset, this`released
      ensures Valid() && State() == Ack(old(State()), n)
      ensures var was := old(State());
              was.Valid() && Parts(State(), was.Acked() + was.Unacked()[..n], was.Unacked()[n..], was.Unsent())
    {
      hide Content, Holds, Position, SendPoint;
      Buffered();
      AckBytes(State(), n);
      unackedSize := unackedSize - n;
      ackedBytes := ackedBytes + n;
      var bytes := ReleaseAcked(n, ackedBytes - n, ackedBytes + unackedSize);
      if bytes > 0 {
        TrimAcked(bytes, ackedBytes - bytes, ackedBytes + unackedSize);
      }
    }

    /** Drops all fully acknowledged buffers; returns the bytes that remain to be taken off the front. */
    method ReleaseAcked(n: nat, ghost acked: nat, ghost written: nat) returns (bytes: nat)
      requires At(acked, written) && acked + n <= written
      modifies this`userBuffers, this`frontTrimmed, this`currentIndex, this`released
      ensures bytes <= n && At(acked + n - bytes, written)
      ensures bytes > 0 ==> userBuffers != [] && bytes < |userBuffers[0].data|
    {
      hide Content, Holds, Position;
      bytes := n;
      while bytes > 0 && userBuffers != [] && bytes >= |userBuffers[0].data|
        invariant bytes <= n && At(acked + n - bytes, written)
        decreases |userBuffers|
      {
        FromStart(kept, released, frontTrimmed, |userBuffers[0].data|);
        PopFront(userBuffers, kept, released, frontTrimmed, currentIndex, currentOffset);
        bytes := bytes - |userBuffers[0].data|;
        userBuffers := userBuffers[1..];
        frontTrimmed := 0;
        assert currentIndex > 0;
        currentIndex := currentIndex - 1;
        released := released + 1;
      }
      if userBuffers == [] {
        PositionEnd(userBuffers, kept, released, frontTrimmed);
        assert bytes == 0;
      }
    }

    /** Chops acknowledged bytes off the front buffer, and off the offset if that one is being sent. */
    method TrimAcked(bytes: nat, ghost acked: nat, ghost written: nat)
      requires At(acked, written) && acked + bytes <= written && userBuffers != [] && bytes < |userBuffers[0].data|
      modifies this`userBuffers, this`frontTrimmed, this`currentOffset
      ensures At(acked + bytes, written)
    {
      hide Content, Holds, Position;
      FromStart(kept, released, frontTrimmed, bytes);
      TrimFront(userBuffers, kept, released, frontTrimmed, currentIndex, currentOffset, bytes);
      var front := userBuffers[0];
      userBuffers := userBuffers[0 := Buffer(front.data[bytes..], front.keepAlive)];
      frontTrimmed := frontTrimmed + bytes;
      if currentIndex == 0 {
        assert currentOffset >= bytes;
        currentOffset := currentOffset - bytes;
      }
    }

    /** Removes a buffer by its keep-alive, provided none of it has been written. */
    method Withdraw(keepAlive: nat) returns (ok: bool)
      requires Valid()
      modifies this`unsentSize, this`userBuffers, this`kept
      ensures Valid() && State() == StreamSending.Withdraw(old(State()), keepAlive)
      ensures ok == Withdrawable(old(State()), keepAlive).Some?
    {
      hide Content, Holds, Position, FirstBeyond, SendPoint;
      FirstUnwritten(userBuffers, kept, released, frontTrimmed, currentIndex, currentOffset);
      var started := currentOffset > 0 || (currentIndex == 0 && frontTrimmed > 0);
      var r := FindFrom(currentIndex + if started then 1 else 0, keepAlive);
      if r.None? {
        return false;
      }
      TakeOutAt(r.value);
      return true;
    }

    /** The first buffer with a keep-alive, from an index on. */
    method FindFrom(first: nat, keepAlive: nat) returns (r: Option<nat>)
      requires released + |userBuffers| == |kept| && first <= |userBuffers|
      requires forall i :: first <= i < |userBuffers| ==> userBuffers[i] == kept[released + i]
      ensures r.Some? ==> first <= r.value < |userBuffers|
      ensures Find(kept, released + first, keepAlive) == if r.Some? then Some(released + r.value) else None
    {
      var i := first;
      while i < |userBuffers|
        invariant first <= i <= |userBuffers|
        invariant Find(kept, released + first, keepAlive) == Find(kept, released + i, keepAlive)
      {
        if userBuffers[i].keepAlive == keepAlive {
          return Some(i);
        }
        i := i + 1;
      }
      return None;
    }

    /** Takes out a buffer none of which has been written. */
    method TakeOutAt(i: nat)
      requires Valid() && currentIndex <= i < |userBuffers|
      requires (i == currentIndex ==> currentOffset == 0) && (i == 0 ==> frontTrimmed == 0)
      modifies this`unsentSize, this`userBuffers, this`kept
      ensures Valid() && kept == Without(old(kept), released + i)
      ensures ackedBytes == old(ackedBytes)
    {
      hide Content, Holds, Position, SendPoint;
      HoldsWithout(userBuffers, kept, released, frontTrimmed, currentIndex, currentOffset, i);
      BoundedBy(userBuffers, kept, released, frontTrimmed, currentIndex, currentOffset, i);
      unsentSize := unsentSize - |userBuffers[i].data|;
      userBuffers := Without(userBuffers, i);
      kept := Without(kept, released + i);
    }

    /** Called when early data was rejected: everything not acknowledged is unsent again. */
    method RevertStream()
      requires Valid()
      modifies this`unsentSize, this`unackedSize, this`currentIndex, this`currentOffset, this`notify
      ensures Valid() && State() == Revert(old(State()))
      ensures var was := old(State());
              was.Valid() && Parts(State(), was.Acked(), [], was.Unacked() + was.Unsent())
      ensures notify == (old(notify) || hadNotify)
    {
      hide Content, Holds, Position, Parts;
      Buffered();
      RevertBytes(State());
      if userBuffers != [] {
        PositionNext(userBuffers, kept, released, frontTrimmed, 0);
      }
      unsentSize := unsentSize + unackedSize;
      unackedSize := 0;
      currentIndex := 0;
      currentOffset := 0;
      if hadNotify {
        notify := true;
      }
    }

    /**
     * The unsent data to offer next: at least `bytes` of it if there is that much, a whole number of
     * buffers to their ends, and whether any is left beyond it.
     */
    method Pending(bytes: nat) returns (bufs: seq<Bytes>, more: bool)
      requires Valid()
      ensures State().Valid()
      ensures Min(bytes, |State().Unsent()|) <= |Flatten(bufs)| <= |State().Unsent()|
      ensures Flatten(bufs) == State().Unsent()[..|Flatten(bufs)|]
      ensures more <==> |Flatten(bufs)| < |State().Unsent()|
      ensures |State().Unsent()| == 0 ==> bufs == if notify then [[]] else []
    {
      hide Content, Holds, Position, Flatten, Sending.Unsent, Sending.Unacked, Sending.Valid;
      Buffered();
      ghost var unsent := State().Unsent();
      assert |unsent| == unsentSize by { UnsentSize(); }
      bufs, more := [], false;
      FlattenEmpty();
      if userBuffers == [] || unsentSize == 0 {
        if notify {
          bufs := [[]];
          FlattenOne<byte>([]);
        }
        return;
      }
      var total: nat := 0;
      var i := currentIndex;
      ghost var written := ackedBytes + unackedSize;
      while i < |userBuffers| && total < bytes
        invariant currentIndex <= i <= |userBuffers| && total <= |unsent|
        invariant written + total ==
                  Position(kept, released, i, if i == currentIndex then currentOffset else 0, frontTrimmed)
        invariant Flatten(bufs) == unsent[..total]
      {
        var offset := if i == currentIndex then currentOffset else 0;
        var part := userBuffers[i].data[offset..];
        PositionNext(userBuffers, kept, released, frontTrimmed, i);
        UnsentPart(i, offset, total);
        FlattenAppend(bufs, part);
        JoinSlices(unsent, 0, total, total + |part|);
        bufs := bufs + [part];
        total := total + |part|;
        i := i + 1;
      }
      PositionEnd(userBuffers, kept, released, frontTrimmed);
      more := i != |userBuffers|;
      if i < |userBuffers| {
        PositionNext(userBuffers, kept, released, frontTrimmed, i);
        UnsentPart(i, if i == currentIndex then currentOffset else 0, total);
      }
    }

    lemma {:induction false} UnsentSize()
      requires Valid() && State().Valid()
      ensures |State().Unsent()| == unsentSize
    {
    }

    /** The rest of a held buffer, from a point at or after the send point, as a slice of the unsent data. */
    lemma {:induction false} UnsentPart(i: nat, offset: nat, total: nat)
      requires Valid() && State().Valid() && i < |userBuffers| && offset < |userBuffers[i].data|
      requires ackedBytes + unackedSize + total == Position(kept, released, i, offset, frontTrimmed)
      ensures var part := userBuffers[i].data[offset..];
              && total + |part| <= |State().Unsent()|
              && State().Unsent()[total..total + |part|] == part && part != []
              && ackedBytes + unackedSize + total + |part| == Position(kept, released, i + 1, 0, frontTrimmed)
    {
      hide Content, Holds;
      PositionData(userBuffers, kept, released, frontTrimmed, i, offset);
      PositionNext(userBuffers, kept, released, frontTrimmed, i);
    }

    method SendFin()
      requires Valid()
      modifies this`sendFin
      ensures Valid() && State() == old(State()).(sendFin := true)
    {
      sendFin := true;
    }

    /**
     * One turn of the connection's flush: offers pending data, the end of the stream with it if there
     * is nothing beyond.  The packet takes up to `room` bytes of it, or refuses the write, in which
     * case neither data nor end has been written.
     */
    method FlushInto(limit: nat, room: Option<nat>) returns (offered: nat)
      requires Valid() && !sentFin && limit > 0
      modifies this
      ensures old(State()).Valid() && offered <= |old(State()).Unsent()|
      ensures Min(limit, |old(State()).Unsent()|) <= offered
      ensures Valid()
      ensures State() == if room.None? then old(State()) else Flush(old(State()), offered, Min(room.value, offered))
    {
      hide Content, Holds, Position, SendPoint;
      var bufs, more := Pending(limit);
      UnsentSize();
      offered := |Flatten(bufs)|;
      var sendingFin := sendFin && !more;
      if !sendingFin && bufs == [] {
        FlattenEmpty();
        return;
      }
      if room.None? {
        return;
      }
      var n := Min(room.value, offered);
      if sendingFin && n == offered {
        sentFin := true;
      }
      Wrote(n);
    }

    /** The bytes of all buffers held, as they were given, acknowledged parts included. */
    method RetainedBytes() returns (n: nat)
      requires Valid()
      ensures n == |Content(kept[released..])|
    {
      n := unackedSize + unsentSize + frontTrimmed;
      ContentSplit(kept, released);
    }
  }

  /** The first buffer none of which has been written, in terms of the send point. */
  lemma {:induction false} FirstUnwritten(held: seq<Buffer>, kept: seq<Buffer>, released: nat, trimmed: nat, index: nat,
                                          offset: nat)
    requires released + |held| == |kept| && Holds(held, kept, released, trimmed) && SendPoint(held, index, offset)
    ensures var started := offset > 0 || (index == 0 && trimmed > 0);
            var first := index + if started then 1 else 0;
            && first <= |held|
            && FirstBeyond(kept, Position(kept, released, index, offset, trimmed)) == released + first
            && (forall i :: first <= i < |held| ==> held[i] == kept[released + i])
  {
    hide Content, FirstBeyond, Holds;
    var n, i := Position(kept, released, index, offset, trimmed), released + index;
    HeldAsKept(held, kept, released, trimmed);
    if index < |held| {
      PositionNext(held, kept, released, trimmed, index);
      ContentNext(kept, i);
    } else {
      PositionEnd(held, kept, released, trimmed);
    }
    if offset > 0 || (index == 0 && trimmed > 0) {
      FirstBeyondUnique(kept, n, i + 1);
    } else {
      if i > 0 {
        ContentNext(kept, i - 1);
      }
      FirstBeyondUnique(kept, n, i);
    }
  }

  lemma {:induction false} NoEmptyBuffers(held: seq<Buffer>, kept: seq<Buffer>, released: nat, trimmed: nat)
    requires released + |held| == |kept| && Holds(held, kept, released, trimmed)
    ensures forall i :: 0 <= i < |kept| ==> kept[i].data != []
  {
  }

  lemma {:induction false} HeldAsKept(held: seq<Buffer>, kept: seq<Buffer>, released: nat, trimmed: nat)
    requires released + |held| == |kept| && Holds(held, kept, released, trimmed)
    ensures forall i :: 0 <= i < |kept| ==> kept[i].data != []
    ensures forall i :: 0 < i < |held| ==> held[i] == kept[released + i]
    ensures held != [] && trimmed == 0 ==> held[0] == kept[released]
    ensures held == [] ==> trimmed == 0
  {
  }

  /** Taking out a buffer at or after the send point that has not been started. */
  lemma {:induction false} HoldsWithout(held: seq<Buffer>, kept: seq<Buffer>, released: nat, trimmed: nat, index: nat,
                                        offset: nat, i: nat)
    requires released + |held| == |kept| && Holds(held, kept, released, trimmed) && SendPoint(held, index, offset)
    requires index <= i < |held| && (i == index ==> offset == 0) && (i == 0 ==> trimmed == 0)
    ensures var held', kept' := Without(held, i), Without(kept, released + i);
            && Holds(held', kept', released, trimmed) && SendPoint(held', index, offset)
            && Position(kept', released, index, offset, trimmed) == Position(kept, released, index, offset, trimmed)
            && Position(kept', released, 0, 0, trimmed) == Position(kept, released, 0, 0, trimmed)
            && |Content(kept')| == |Content(kept)| - |held[i].data|
            && held[i] == kept[released + i]
  {
    hide Content;
    var kept' := Without(kept, released + i);
    assert kept'[..released + index] == kept[..released + index] && kept'[..released] == kept[..released];
    ContentWithout(kept, released + i);
    var held' := Without(held, i);
    assert index < |held'| ==> held'[index].data != [] by {
      assert index < |held'| ==> kept'[released + index].data != [];
    }
  }

  lemma {:induction false} BoundedBy(held: seq<Buffer>, kept: seq<Buffer>, released: nat, trimmed: nat, index: nat,
                                     offset: nat, i: nat)
    requires released + |held| == |kept| && Holds(held, kept, released, trimmed) && SendPoint(held, index, offset)
    requires index <= i < |held| && (i == index ==> offset == 0)
    ensures Position(kept, released, index, offset, trimmed) + |held[i].data| <= |Content(kept)|
  {
    PositionNext(held, kept, released, trimmed, i);
    if index < i {
      PositionNext(held, kept, released, trimmed, index);
      ContentPrefixMonotone(kept, released + index + 1, released + i);
    }
  }

  lemma {:induction false} ContentWithout(bufs: seq<Buffer>, i: nat)
    requires i < |bufs|
    ensures |Content(Without(bufs, i))| == |Content(bufs)| - |bufs[i].data|
  {
    TakeOut(bufs, i);
  }

  lemma {:induction false} FlattenEmpty()
    ensures Flatten<byte>([]) == []
  {
  }

  lemma {:induction false} JoinSlices<T>(s: seq<T>, a: nat, b: nat, c: nat)
    requires a <= b <= c <= |s|
    ensures s[a..b] + s[b..c] == s[a..c]
  {
  }

  lemma {:induction false} FromStart(kept: seq<Buffer>, released: nat, trimmed: nat, n: nat)
    requires released <= |kept|
    ensures Position(kept, released, 0, n, trimmed) == Position(kept, released, 0, 0, trimmed) + n
  {
  }
}
