/** The batch of outgoing packets of an endpoint and the loop that hands it to the socket. */
module SendBatches {
  import opened Common
  import opened PacketFates
  import opened SocketAnswers

  /** A packet sent, and whose path it was sent on. */
  datatype Out = Out(path: nat, packet: Packet)

  function Outs(path: nat, pkts: seq<Packet>): (r: seq<Out>)
    ensures |r| == |pkts|
  {
    seq(|pkts|, i requires 0 <= i < |pkts| => Out(path, pkts[i]))
  }

  lemma {:induction false} OutsLength(path: nat, pkts: seq<Packet>)
    ensures |Outs(path, pkts)| == |pkts|
  {
  }

  lemma {:induction false} OutsConcat(path: nat, a: seq<Packet>, b: seq<Packet>)
    ensures Outs(path, a + b) == Outs(path, a) + Outs(path, b)
  {
  }

  ghost predicate NoneEmpty(pkts: seq<Packet>) {
    forall p :: p in pkts ==> p.data != []
  }

  /** Copies `len` elements down to a lower position of the same array. */
  method Move<T>(a: array<T>, to: nat, from: nat, len: nat)
    requires to <= from && from + len <= a.Length
    modifies a
    ensures a[to..to + len] == old(a[from..from + len])
    ensures a[..to] == old(a[..to]) && a[from + len..] == old(a[from + len..])
  {
    ghost var was := a[..];
    var i: nat := 0;
    while i < len
      invariant i <= len && a[..] == Moved(was, to, from, i)
    {
      MovedNext(was, to, from, i);
      assert a[from + i] == a[..][from + i];
      a[to + i] := a[from + i];
      i := i + 1;
      assert a[..] == Moved(was, to, from, i);
    }
    MovedParts(was, to, from, len);
    assert a[to..to + len] == a[..][to..to + len] && a[from + len..] == a[..][from + len..];
  }

  /** The first `len` elements have been copied down. */
  ghost function Moved<T>(was: seq<T>, to: nat, from: nat, len: nat): seq<T>
    requires to <= from && from + len <= |was|
  {
    was[..to] + was[from..from + len] + was[to + len..]
  }

  lemma {:induction false} MovedNext<T>(was: seq<T>, to: nat, from: nat, i: nat)
    requires to <= from && from + i < |was|
    ensures |Moved(was, to, from, i)| == |was| && Moved(was, to, from, i)[from + i] == was[from + i]
    ensures Moved(was, to, from, i)[to + i := was[from + i]] == Moved(was, to, from, i + 1)
  {
  }

  lemma {:induction false} MovedParts<T>(was: seq<T>, to: nat, from: nat, len: nat)
    requires to <= from && from + len <= |was|
    ensures var now := Moved(was, to, from, len);
            && |now| == |was| && now[..to] == was[..to] && now[to..to + len] == was[from..from + len]
            && now[from + len..] == was[from + len..]
  {
  }

  class SendBatch {
    const buf: array<byte>
    const size: array<nat>
    const ecn: array<byte>
    var count: nat

    /** The packets held, which the arrays describe. */
    ghost var packets: seq<Packet>

    ghost predicate Valid()
      reads this, buf, size, ecn
    {
      && buf != ecn
      && count == |packets| <= size.Length == ecn.Length
      && |Flat(packets)| <= buf.Length
      && buf[..|Flat(packets)|] == Flat(packets)
      && size[..count] == Sizes(packets)
      && ecn[..count] == Ecns(packets)
    }

    constructor (capacity: nat, bytes: nat)
      ensures Valid() && packets == [] && size.Length == capacity && buf.Length == bytes
      ensures fresh(buf) && fresh(size) && fresh(ecn)
    {
      buf := new byte[bytes];
      size := new nat[capacity];
      ecn := new byte[capacity];
      count, packets := 0, [];
    }

    /** Writes one more packet behind those in the batch, of which `at` bytes are in use. */
    method AddPacket(data: Bytes, mark: byte, at: nat)
      requires Valid() && at == |Flat(packets)| && at + |data| <= buf.Length && count < size.Length
      modifies this`count, this`packets, buf, size, ecn
      ensures Valid() && packets == old(packets) + [Packet(data, mark)]
    {
      hide Flat, Sizes, Ecns;
      ghost var p := Packet(data, mark);
      FlatAppend(packets, p);
      SizesAppend(packets, p);
      CopyIn(at, data);
      size[count] := |data|;
      ecn[count] := mark;
      count := count + 1;
      packets := packets + [p];
      assert size[..count] == Sizes(packets) && ecn[..count] == Ecns(packets);
    }

    method CopyIn(at: nat, data: Bytes)
      requires at + |data| <= buf.Length
      modifies buf
      ensures buf[..at + |data|] == old(buf[..at]) + data
    {
      for i := 0 to |data|
        invariant buf[..at] == old(buf[..at]) && buf[at..at + i] == data[..i]
      {
        buf[at + i] := data[i];
      }
      assert buf[..at + |data|] == buf[..at] + buf[at..at + |data|];
    }

    method SumSizes(from: nat, to: nat) returns (sum: nat)
      requires Valid() && from <= to <= count
      ensures sum == |Flat(packets[from..to])|
    {
      sum := 0;
      var i := from;
      while i < to
        invariant from <= i <= to
        invariant sum == |Flat(packets[from..i])|
      {
        FlatAppend(packets[from..i], packets[i]);
        assert packets[from..i + 1] == packets[from..i] + [packets[i]];
        assert size[i] == size[..count][i];
        sum := sum + size[i];
        i := i + 1;
      }
    }

    /** Moves the packets from `sent` on to the front of the arrays. */
    method Shift(sent: nat)
      requires Valid() && sent <= count
      modifies buf, size, ecn
      ensures var rest := packets[sent..];
              && |Flat(rest)| <= buf.Length && buf[..|Flat(rest)|] == Flat(rest)
              && size[..|rest|] == Sizes(rest) && ecn[..|rest|] == Ecns(rest)
    {
      hide Flat;
      FlatSplit(packets, sent);
      ghost var rest := packets[sent..];
      assert packets[0..sent] == packets[..sent] && packets[sent..count] == rest;
      var offset := SumSizes(0, sent);
      var len := SumSizes(sent, count);
      Move(buf, 0, offset, len);
      assert buf[..len] == buf[0..0 + len] == Flat(rest);
      ShiftSizes(sent);
    }

    method ShiftSizes(sent: nat)
      requires count == |packets| <= size.Length == ecn.Length && sent <= count && buf != ecn
      requires size[..count] == Sizes(packets) && ecn[..count] == Ecns(packets)
      modifies size, ecn
      ensures size[..count - sent] == Sizes(packets[sent..]) && ecn[..count - sent] == Ecns(packets[sent..])
    {
      hide Sizes, Ecns;
      SizesDrop(packets, sent);
      Move(size, 0, sent, count - sent);
      assert size[..count - sent] == size[0..0 + (count - sent)] == Sizes(packets)[sent..];
      Move(ecn, 0, sent, count - sent);
      assert ecn[..count - sent] == ecn[0..0 + (count - sent)] == Ecns(packets)[sent..];
    }

    /** Takes the first packets off the batch. */
    method Consume(sent: nat)
      requires Valid() && sent <= count
      modifies this`count, this`packets, buf, size, ecn
      ensures Valid() && packets == old(packets)[sent..]
    {
      if 0 < sent < count {
        Shift(sent);
      }
      packets := packets[sent..];
      count := count - sent;
    }

    /** Moves one packet's bytes down to `out`, leaving those after it alone. */
    method MoveBytes(out: nat, from: nat, sz: nat, ghost bytes: Bytes)
      requires out <= from && from + sz <= |bytes| <= buf.Length
      requires forall k :: from <= k < |bytes| ==> buf[k] == bytes[k]
      modifies buf
      ensures buf[..out + sz] == old(buf[..out]) + bytes[from..from + sz]
      ensures forall k :: from + sz <= k < |bytes| ==> buf[k] == bytes[k]
    {
      assert buf[from..from + sz] == bytes[from..from + sz];
      if out != from {
        ghost var after := buf[from + sz..];
        Move(buf, out, from, sz);
        forall k | from + sz <= k < |bytes|
          ensures buf[k] == bytes[k]
        {
          assert buf[k] == after[k - (from + sz)];
        }
      }
      assert buf[..out + sz] == buf[..out] + buf[out..out + sz];
    }

    /** Moves one packet's size and mark down to `n`, leaving those after it alone. */
    method MoveMarks(n: nat, i: nat)
      requires n <= i < count <= size.Length == ecn.Length
      modifies size, ecn
      ensures size[..n + 1] == old(size[..n] + [size[i]]) && ecn[..n + 1] == old(ecn[..n] + [ecn[i]])
      ensures forall k :: i < k < count ==> size[k] == old(size[k]) && ecn[k] == old(ecn[k])
    {
      size[n] := size[i];
      ecn[n] := ecn[i];
    }

    /** Removes every packet of at least `min` bytes, closing up the rest in order. */
    method DropFrom(min: nat) returns (dropped: nat)
      requires Valid()
      modifies this`count, this`packets, buf, size, ecn
      ensures Valid() && packets == Below(old(packets), min) && dropped == |old(packets)| - |packets|
    {
      hide Flat, Sizes, Ecns, Below;
      ghost var all, bytes := packets, Flat(packets);
      ghost var sizes, ecns := size[..count], ecn[..count];
      ghost var kept: seq<Packet> := [];
      var out: nat, from: nat, n: nat := 0, 0, 0;
      Nothing(min);
      for i := 0 to count
        modifies buf, size, ecn
        invariant n == |kept| <= i && out <= from <= |bytes|
        invariant kept == Below(all[..i], min)
        invariant out == |Flat(kept)| && from == |Flat(all[..i])|
        invariant buf[..out] == Flat(kept) && forall k :: from <= k < |bytes| ==> buf[k] == bytes[k]
        invariant size[..n] == Sizes(kept) && ecn[..n] == Ecns(kept)
        invariant forall k :: i <= k < count ==> size[k] == sizes[k] && ecn[k] == ecns[k]
      {
        ghost var p := all[i];
        assert all[..i + 1] == all[..i] + [p];
        BelowAppend(all[..i], p, min);
        NextPacket(all, i);
        var sz := size[i];
        if sz < min {
          MoveBytes(out, from, sz, bytes);
          MoveMarks(n, i);
          FlatAppend(kept, p);
          SizesAppend(kept, p);
          kept := kept + [p];
          n := n + 1;
          out := out + sz;
        }
        from := from + sz;
      }
      assert all[..count] == all;
      dropped := count - n;
      count, packets := n, kept;
    }

    /** One call of the socket, which takes packets off the front. */
    method Offer(path: nat, socket: Socket) returns (result: Io, ghost sent: nat)
      requires Valid()
      modifies this`count, this`packets, buf, size, ecn, socket
      ensures Valid() && sent <= |old(packets)| && packets == old(packets)[sent..] && count == |packets|
      ensures result == socket.answers(old(socket.calls)).result
      ensures sent == Min(socket.answers(old(socket.calls)).sent, |old(packets)|)
      ensures socket.calls == old(socket.calls) + 1 && |socket.wire| == |old(socket.wire)| + sent
      ensures socket.wire == old(socket.wire) + Outs(path, old(packets)[..sent])
    {
      hide Valid, Outs;
      var n;
      CountIs();
      result, n := socket.Send(this, path);
      OutsLength(path, packets[..n]);
      sent := n;
      Consume(n);
      CountIs();
    }

    /**
     * Hands the batch to the socket until it is all sent or dropped, or the socket is full.  `fates` says what
     * became of each packet: those sent went out in order, those kept are still here in order, byte for byte, and
     * each fate is one that the socket's answers call for.
     */
    method SendPackets(path: nat, socket: Socket, before: nat) returns (r: Io, tooBig: nat, ghost fates: seq<Fate>)
      requires Valid() && count >= 1 && NoneEmpty(packets)
      modifies this`count, this`packets, buf, size, ecn, socket
      ensures Valid()
      ensures |fates| == |old(packets)|
      ensures Account(old(packets), fates, packets, path, old(socket.wire), socket.wire)
      ensures Smallest(old(packets), fates, before, tooBig)
      ensures r.Blocked? <==> packets != []
      ensures AsAnswered(socket.answers, old(socket.calls), socket.calls, fates, r)
      ensures Explained(old(packets), socket.answers, old(socket.calls), socket.calls, fates, r)
    {
      hide Flat, Sizes, Ecns, Below, Select, Account, Smallest, MarkSent, MarkTooBig, MarkDropped, Valid, Outs,
          NoneEmpty, InOrder, AsAnswered, Explained, OnGoing, Adds;
      ghost var all, sentBefore, first := packets, socket.wire, socket.calls;
      fates, tooBig := AllKept(|all|), before;
      StartAccount(all, path, sentBefore, before);
      CountIs();
      var retried := false;
      ghost var calls: seq<Call> := [];
      NoCalls(all, socket.answers, first);
      while true
        invariant Valid() && count == |packets| >= 1
        invariant |fates| == |all| && Dropped !in fates && Account(all, fates, packets, path, sentBefore, socket.wire)
        invariant Smallest(all, fates, before, tooBig)
        invariant OnGoing(all, socket.answers, first, calls, fates, retried) && socket.calls == first + |calls|
        decreases count, !retried
      {
        ghost var now, was, prior := socket.wire, packets, fates;
        SentNumber(all, fates, was, path, sentBefore, now);
        var result;
        ghost var sent;
        result, sent := Offer(path, socket);
        ghost var a, taken := socket.answers(socket.calls - 1), MarkSent(fates, sent);
        SentAccount(all, fates, was, path, sentBefore, now, socket.wire, before, tooBig, sent);
        SentNumber(all, taken, packets, path, sentBefore, socket.wire);
        fates := taken;
        if count == 0 {
          CallKeeps(all, a, prior, sent);
          HasEnded(all, socket.answers, first, calls, prior, retried, Call(taken, taken), Ok);
          return Ok, tooBig, fates;
        }
        match result
        case Blocked =>
          CallKeeps(all, a, prior, sent);
          HasEnded(all, socket.answers, first, calls, prior, retried, Call(taken, taken), Blocked);
          return Blocked, tooBig, fates;
        case TooBigError =>
          TooBigAccount(all, fates, packets, path, sentBefore, socket.wire, before, tooBig);
          CallShrinks(all, a, prior, sent);
          var min := DropAsBig();
          tooBig := if tooBig != 0 then Min(tooBig, min) else min;
          ghost var marked := MarkTooBig(all, fates, min);
          SentNumber(all, marked, packets, path, sentBefore, socket.wire);
          fates := marked;
          if count == 0 {
            HasEnded(all, socket.answers, first, calls, prior, retried, Call(taken, marked), Ok);
            return Ok, tooBig, fates;
          }
          GoesOn(all, socket.answers, first, calls, prior, retried, Call(taken, marked));
          calls := calls + [Call(taken, marked)];
          retried := false;
        case Ok =>
          CallKeeps(all, a, prior, sent);
          if retried {
            HasEnded(all, socket.answers, first, calls, prior, retried, Call(taken, taken), Blocked);
            return Blocked, tooBig, fates;
          }
          GoesOn(all, socket.answers, first, calls, prior, retried, Call(taken, taken));
          calls := calls + [Call(taken, taken)];
          retried := true;
        case _ =>
          // No buffer space counts as a loss; no route and other failures are reported as well.
          DropAccount(all, fates, packets, path, sentBefore, socket.wire, before, tooBig);
          CallDrops(all, a, prior, sent);
          fates := MarkDropped(fates);
          HasEnded(all, socket.answers, first, calls, prior, retried, Call(taken, fates),
                   if result.NoBuffers? then Ok else result);
          Clear();
          return if result.NoBuffers? then Ok else result, tooBig, fates;
      }
    }

    /** Drops the first packet, and with it all that are as big. */
    method DropAsBig() returns (min: nat)
      requires Valid() && count >= 1 && packets != []
      modifies this`count, this`packets, buf, size, ecn
      ensures Valid() && min == |old(packets)[0].data| && packets == Below(old(packets), min) && count == |packets|
    {
      min := FirstSize();
      var dropped := DropFrom(min);
      CountIs();
    }

    method FirstSize() returns (n: nat)
      requires Valid() && count >= 1
      ensures packets != [] && n == |packets[0].data|
    {
      assert size[0] == size[..count][0];
      n := size[0];
    }

    method Clear()
      requires Valid()
      modifies this`count, this`packets
      ensures Valid() && packets == [] && count == 0
    {
      count, packets := 0, [];
    }

    lemma {:induction false} CountIs()
      requires Valid()
      ensures count == |packets|
    {
    }
  }

  /**
   * The state of the account: every packet of the batch is still held, on the wire, or dropped; those held and
   * those that went out on the path are in the order they had in the batch, and none went out behind one held.
   */
  ghost predicate Account(all: seq<Packet>, fates: seq<Fate>, packets: seq<Packet>, path: nat, before: seq<Out>,
                          wire: seq<Out>)
  {
    && |fates| == |all| && InOrder(fates)
    && packets == Select(all, fates, Kept)
    && wire == before + Outs(path, Select(all, fates, Sent))
  }

  /** As many packets have the fate of being sent as went out, and of being kept as are left. */
  lemma {:induction false} SentNumber(all: seq<Packet>, fates: seq<Fate>, packets: seq<Packet>, path: nat,
                                      before: seq<Out>, wire: seq<Out>)
    requires Account(all, fates, packets, path, before, wire)
    ensures |wire| == |before| + multiset(fates)[Sent]
    ensures packets == Select(all, fates, Kept) && |packets| == multiset(fates)[Kept]
    ensures Kept in fates <==> packets != []
  {
    hide Select, InOrder;
    KeptNumber(fates);
    SelectNumber(all, fates, Sent);
    SelectNumber(all, fates, Kept);
  }

  lemma {:induction false} StartAccount(all: seq<Packet>, path: nat, wire: seq<Out>, before: nat)
    ensures var fates := AllKept(|all|);
            Account(all, fates, all, path, wire, wire) && Smallest(all, fates, before, before) && Dropped !in fates
  {
    SelectAllKept(all);
  }

  lemma {:induction false} SentAccount(all: seq<Packet>, fates: seq<Fate>, packets: seq<Packet>, path: nat,
                                       wire: seq<Out>, now: seq<Out>, now': seq<Out>, before: nat, tooBig: nat,
                                       sent: nat)
    requires Account(all, fates, packets, path, wire, now)
    requires Smallest(all, fates, before, tooBig) && Dropped !in fates
    requires sent <= |packets| && now' == now + Outs(path, packets[..sent])
    ensures var fates' := MarkSent(fates, sent);
            && Account(all, fates', packets[sent..], path, wire, now') && Smallest(all, fates', before, tooBig)
            && Dropped !in fates' && (TooBig in fates' ==> TooBig in fates)
  {
    hide InOrder, Select, MarkSent, Smallest, Outs;
    MarkSentKeeps(all, fates, sent);
    MarkSentSends(all, fates, sent);
    MarkSentOrder(fates, sent);
    OutsConcat(path, Select(all, fates, Sent), packets[..sent]);
    FewerKeptSmallest(all, fates, MarkSent(fates, sent), before, tooBig);
  }

  lemma {:induction false} TooBigAccount(all: seq<Packet>, fates: seq<Fate>, packets: seq<Packet>, path: nat,
                                         wire: seq<Out>, now: seq<Out>, before: nat, tooBig: nat)
    requires Account(all, fates, packets, path, wire, now)
    requires Smallest(all, fates, before, tooBig) && Dropped !in fates
    requires packets != [] && NoneEmpty(all)
    ensures var min := |packets[0].data|;
            var fates' := MarkTooBig(all, fates, min);
            && Account(all, fates', Below(packets, min), path, wire, now)
            && Smallest(all, fates', before, if tooBig != 0 then Min(tooBig, min) else min)
            && Dropped !in fates' && |Below(packets, min)| < |packets|
  {
    hide InOrder, Select, Smallest, Outs;
    var min := |packets[0].data|;
    MarkTooBigIs(all, fates, min);
    MarkTooBigOrder(all, fates, min);
    var i := FirstKept(all, fates);
    assert all[i] in all;
    MarkTooBigSmallest(all, fates, before, tooBig, i);
    BelowShorter(packets[1..], min);
  }

  lemma {:induction false} DropAccount(all: seq<Packet>, fates: seq<Fate>, packets: seq<Packet>, path: nat,
                                       wire: seq<Out>, now: seq<Out>, before: nat, tooBig: nat)
    requires Account(all, fates, packets, path, wire, now)
    requires Smallest(all, fates, before, tooBig) && packets != []
    ensures var fates' := MarkDropped(fates);
            && Account(all, fates', [], path, wire, now) && Smallest(all, fates', before, tooBig) && Dropped in fates'
            && (TooBig in fates' ==> TooBig in fates)
  {
    hide InOrder, Select, Smallest, Outs;
    MarkDroppedIs(all, fates);
    MarkDroppedOrder(fates);
    MarkedDropped(fates);
    FewerKeptSmallest(all, fates, MarkDropped(fates), before, tooBig);
    var i := FirstKept(all, fates);
    assert MarkDropped(fates)[i] == Dropped;
  }

  /** The socket, which takes packets from the front of a batch as `answers` says. */
  class Socket {
    const answers: nat -> Answer
    var calls: nat
    var wire: seq<Out>

    constructor (answers: nat -> Answer)
      ensures this.answers == answers && calls == 0 && wire == []
    {
      this.answers := answers;
      calls, wire := 0, [];
    }

    method Send(batch: SendBatch, path: nat) returns (result: Io, sent: nat)
      requires batch.Valid()
      modifies this
      ensures var answer := answers(old(calls));
              result == answer.result && sent == Min(answer.sent, |batch.packets|)
      ensures calls == old(calls) + 1 && wire == old(wire) + Outs(path, batch.packets[..sent])
    {
      hide Flat, Sizes, Ecns;
      result, sent := answers(calls).result, Min(answers(calls).sent, batch.count);
      calls := calls + 1;
      var at: nat := 0;
      Nothing(0);
      for i := 0 to sent
        modifies this`wire
        invariant at == |Flat(batch.packets[..i])| <= |Flat(batch.packets)|
        invariant wire == old(wire) + Outs(path, batch.packets[..i])
      {
        NextPacket(batch.packets, i);
        assert batch.size[i] == batch.size[..batch.count][i] && batch.ecn[i] == batch.ecn[..batch.count][i];
        var n := batch.size[i];
        assert batch.buf[at..at + n] == batch.buf[..|Flat(batch.packets)|][at..at + n];
        wire := wire + [Out(path, Packet(batch.buf[at..at + n], batch.ecn[i]))];
        at := at + n;
      }
    }
  }
}
