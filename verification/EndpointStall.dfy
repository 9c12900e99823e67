/**
 * The endpoint's side of a send stall, with the batch as it lies in its arrays and the socket that takes it.
 * Who built each packet is not recorded by the endpoint; the ghost fields follow it.
 */
module EndpointStalls {
  import opened Common
  import opened PacketFates
  import opened SendBatches
  import opened SocketAnswers
  import opened StallProtocol

  function Zip(ids: seq<Id>, pkts: seq<Packet>): (r: seq<Tagged>)
    requires |ids| == |pkts|
    ensures |r| == |pkts|
  {
    seq(|pkts|, i requires 0 <= i < |pkts| => Tagged(ids[i], pkts[i]))
  }

  function ZipOut(ids: seq<Id>, outs: seq<Out>): (r: seq<Away>)
    requires |ids| == |outs|
    ensures |r| == |outs|
  {
    seq(|outs|, i requires 0 <= i < |outs| => Away(outs[i].path, Tagged(ids[i], outs[i].packet)))
  }

  /** Choosing packets by fate and choosing their builders go together. */
  lemma {:induction false} SelectZip(ids: seq<Id>, pkts: seq<Packet>, fates: seq<Fate>, f: Fate)
    requires |ids| == |pkts| == |fates|
    ensures |Select(ids, fates, f)| == |Select(pkts, fates, f)|
    ensures Zip(Select(ids, fates, f), Select(pkts, fates, f)) == Select(Zip(ids, pkts), fates, f)
  {
    if pkts == [] {
    } else {
      SelectZip(ids[1..], pkts[1..], fates[1..], f);
      assert Zip(ids, pkts)[1..] == Zip(ids[1..], pkts[1..]);
      SelectFirst(ids, fates, f);
      SelectFirst(pkts, fates, f);
      SelectFirst(Zip(ids, pkts), fates, f);
    }
  }

  lemma {:induction false} ZipOutAppend(ids: seq<Id>, outs: seq<Out>, more: seq<Id>, path: Id, pkts: seq<Packet>)
    requires |ids| == |outs| && |more| == |pkts|
    ensures ZipOut(ids + more, outs + Outs(path, pkts)) == ZipOut(ids, outs) + Aways(path, Zip(more, pkts))
  {
  }

  lemma {:induction false} ZipAppend(ids: seq<Id>, pkts: seq<Packet>, c: Id, p: Packet)
    requires |ids| == |pkts|
    ensures Zip(ids + [c], pkts + [p]) == Zip(ids, pkts) + [Tagged(c, p)]
  {
  }

  /** What a flush is given to send: the packets of one batch, and whether writing the next one failed. */
  datatype Plan = Plan(packets: seq<Packet>, failed: Option<bool>)

  ghost predicate Follows(r: Round, plan: Plan) {
    && r.packets == plan.packets
    && (if r.Abandons? then plan.failed == Some(r.fatal) else plan.failed == None)
  }

  /** The round has the outcome that the socket's answers from one call to another give it, if it makes any. */
  ghost predicate RoundAnswered(answers: nat -> Answer, from: nat, to: nat, r: Round) {
    if r.Abandons? then from == to
    else AsAnswered(answers, from, to, r.fates, r.result) && Explained(r.packets, answers, from, to, r.fates, r.result)
  }

  /** Round i makes the calls from calls[i] on and before calls[i + 1]. */
  ghost predicate RoundsAnswered(answers: nat -> Answer, calls: seq<nat>, rounds: seq<Round>) {
    && |calls| == |rounds| + 1
    && forall i :: 0 <= i < |rounds| ==> RoundAnswered(answers, calls[i], calls[i + 1], rounds[i])
  }

  lemma {:induction false} NoneAnswered(answers: nat -> Answer, at: nat)
    ensures RoundsAnswered(answers, [at], [])
  {
  }

  lemma {:induction false} OneMoreAnswered(answers: nat -> Answer, calls: seq<nat>, rounds: seq<Round>, now: nat,
                                           r: Round)
    requires RoundsAnswered(answers, calls, rounds) && calls != [] && RoundAnswered(answers, Last(calls), now, r)
    ensures RoundsAnswered(answers, calls + [now], rounds + [r])
  {
    hide RoundAnswered;
    var calls', rounds' := calls + [now], rounds + [r];
    forall i | 0 <= i < |rounds'|
      ensures RoundAnswered(answers, calls'[i], calls'[i + 1], rounds'[i])
    {
      assert i < |rounds| ==> RoundAnswered(answers, calls[i], calls[i + 1], rounds[i]);
    }
  }

  /** A flush stops only when all its batches went through, or at the first that did not. */
  ghost predicate StopsRightly(rounds: seq<Round>, planned: nat) {
    || (|rounds| == planned && AllThrough(rounds))
    || (rounds != [] && AllThrough(Front(rounds)) && !Through(Last(rounds)))
  }

  class Endpoint {
    const batch: SendBatch
    const socket: Socket
    var known: set<Id>
    var live: set<Id>
    var dead: set<Id>
    var stalled: bool
    var owner: Option<Id>
    var waiters: seq<Id>
    var waiting: set<Id>
    var armed: nat
    var triggered: seq<Id>
    ghost var sources: seq<Id>
    ghost var senders: seq<Id>
    ghost var built: seq<Tagged>
    ghost var lost: seq<Loss>

    ghost predicate Shape()
      reads this, batch, batch.buf, batch.size, batch.ecn, socket
    {
      && batch.Valid() && NoneEmpty(batch.packets)
      && |sources| == |batch.packets| && |senders| == |socket.wire|
    }

    ghost function State(): State
      requires |sources| == |batch.packets| && |senders| == |socket.wire|
      reads this, batch, socket
    {
      StallProtocol.State(known, live, dead, Zip(sources, batch.packets), stalled, owner, waiters, waiting, armed,
                          triggered, built, ZipOut(senders, socket.wire), lost)
    }

    ghost predicate Valid()
      reads this, batch, batch.buf, batch.size, batch.ecn, socket
    {
      Shape() && Inv(State())
    }

    constructor (capacity: nat, bytes: nat, answers: nat -> Answer)
      ensures Valid() && State() == START && socket.answers == answers
      ensures batch.size.Length == capacity && batch.buf.Length == bytes
    {
      batch := new SendBatch(capacity, bytes);
      socket := new Socket(answers);
      known, live, dead, stalled, owner, waiters := {}, {}, {}, false, None, [];
      waiting, armed, triggered, sources, senders, built, lost := {}, 0, [], [], [], [], [];
      new;
      StartInv();
    }

    /** The socket is full: what is left in the batch stays there, and c is due to go on once it has gone out. */
    method StallSend(c: Id)
      requires Shape() && Flushing(State(), c) && batch.count > 0
      modifies this`stalled, this`owner, this`armed
      ensures Valid() && Due(State(), c) && armed == 1
      ensures State() == StallProtocol.StallSend(old(State()), c)
    {
      hide Flushing, Inv;
      StallInv(State(), c);
      stalled := true;
      owner := Some(c);
      armed := armed + 1;
      Armed(State());
    }

    /** A connection that may not send now is due to be woken, and whoever was due before it still is. */
    method WaitForSendStall(c: Id)
      requires Valid() && stalled && c in live
      modifies this`waiting, this`waiters
      ensures Valid() && Due(State(), c) && forall d :: old(Due(State(), d)) ==> Due(State(), d)
      ensures old(waiters) <= waiters && State() == WaitForStall(old(State()), c)
    {
      hide Inv;
      WaitInv(State(), c);
      if owner == Some(c) || c in waiting {
        return;
      }
      waiting := waiting + {c};
      waiters := waiters + [c];
    }

    static method EraseFrom(xs: seq<Id>, c: Id) returns (kept: seq<Id>)
      ensures kept == Erase(xs, c)
    {
      hide Erase;
      kept := [];
      assert xs[0..] == xs;
      for i := 0 to |xs|
        invariant kept + Erase(xs[i..], c) == Erase(xs, c)
      {
        EraseFirst(xs, i, c);
        if xs[i] != c {
          kept := kept + [xs[i]];
        }
      }
      EraseNothing(xs, c);
    }

    static lemma {:induction false} EraseFirst(xs: seq<Id>, i: nat, c: Id)
      requires i < |xs|
      ensures Erase(xs[i..], c) == (if xs[i] == c then [] else [xs[i]]) + Erase(xs[i + 1..], c)
    {
      assert xs[i..][1..] == xs[i + 1..];
    }

    static lemma {:induction false} EraseNothing(xs: seq<Id>, c: Id)
      ensures Erase(xs[|xs|..], c) == []
    {
    }

    method ForgetSendStall(c: Id)
      requires Shape()
      modifies this`owner, this`waiting, this`waiters
      ensures Shape() && State() == ForgetStall(old(State()), c)
      ensures owner != Some(c) && c !in waiting
    {
      if owner == Some(c) {
        owner := None;
      }
      if c in waiting {
        waiters := EraseFrom(waiters, c);
        waiting := waiting - {c};
      }
    }

    method HaltEvents(c: Id)
      requires Valid() && c in known
      modifies this`live, this`owner, this`waiting, this`waiters
      ensures Valid() && !Due(State(), c) && State() == Step(old(State()), DoHalt(c))
    {
      hide Inv;
      ghost var s := State();
      EmptyBatch(s);
      StepInv(s, DoHalt(c));
      live := live - {c};
      ForgetSendStall(c);
    }

    method PacketIoReady(c: Id)
      modifies this`triggered
      ensures triggered == old(triggered) + if c in live then [c] else []
    {
      if c in live {
        triggered := triggered + [c];
      }
    }

    /** Hands the batch to the socket; what became of each packet is what the socket did. */
    method SendOn(path: Id) returns (result: Io, tooBig: nat, ghost fates: seq<Fate>)
      requires Shape() && batch.count >= 1
      modifies this`sources, this`senders, this`lost
      modifies batch`count, batch`packets, batch.buf, batch.size, batch.ecn, socket
      ensures Shape() && Possible(|old(batch.packets)|, fates, result)
      ensures State() == SendOut(old(State()), path, fates)
      ensures AsAnswered(socket.answers, old(socket.calls), socket.calls, fates, result)
      ensures Explained(old(batch.packets), socket.answers, old(socket.calls), socket.calls, fates, result)
      ensures Smallest(old(batch.packets), fates, 0, tooBig)
    {
      hide AsAnswered, Explained, Select, Smallest, SendBatch.Valid, InOrder, Zip, ZipOut, Outs, Aways, Losses;
      ghost var pkts, outs, ids := batch.packets, socket.wire, sources;
      result, tooBig, fates := batch.SendPackets(path, socket, 0);
      SendIsPossible(pkts, fates, batch.packets, result, path, outs, socket.wire);
      SelectZip(ids, pkts, fates, Kept);
      SelectZip(ids, pkts, fates, Sent);
      StillNoneEmpty(pkts, fates);
      ZipOutAppend(senders, outs, Select(ids, fates, Sent), path, Select(pkts, fates, Sent));
      OutsLength(path, Select(pkts, fates, Sent));
      ghost var tagged := Zip(ids, pkts);
      ZipLength(ids, pkts);
      sources := Select(ids, fates, Kept);
      senders := senders + Select(ids, fates, Sent);
      lost := lost + Losses(Select(tagged, fates, TooBig), BySocket) + Losses(Select(tagged, fates, Dropped), BySocket);
    }

    static lemma {:induction false} ZipLength(ids: seq<Id>, pkts: seq<Packet>)
      requires |ids| == |pkts|
      ensures |Zip(ids, pkts)| == |pkts|
    {
    }

    static lemma {:induction false} StillNoneEmpty(pkts: seq<Packet>, fates: seq<Fate>)
      requires |fates| == |pkts| && NoneEmpty(pkts)
      ensures NoneEmpty(Select(pkts, fates, Kept))
    {
      if pkts == [] {
      } else {
        StillNoneEmpty(pkts[1..], fates[1..]);
      }
    }

    /** The socket is writable again: the batch is sent or discarded, and the stall ends unless it is full again. */
    method ResumeStalledSend() returns (ghost fates: seq<Fate>, ghost result: Io)
      requires Valid() && armed > 0
      modifies this, batch, batch.buf, batch.size, batch.ecn, socket
      ensures old(Enabled(State(), DoWritable(fates, result)))
      ensures Valid() && State() == old(Step(State(), DoWritable(fates, result)))
      ensures if old(OwnerSends(State()))
              then
                && AsAnswered(socket.answers, old(socket.calls), socket.calls, fates, result)
                && Explained(old(batch.packets), socket.answers, old(socket.calls), socket.calls, fates, result)
              else socket.calls == old(socket.calls)
    {
      hide AsAnswered, Explained, Inv, SendOut, ClearStall, SendBatch.Valid, NoneEmpty, Losses, Zip, ZipOut, InOrder;
      ghost var s := State();
      EmptyBatch(s);
      StalledBatch(s);
      ZipLength(sources, batch.packets);
      batch.CountIs();
      armed := armed - 1;
      var was := owner;
      fates, result := [], Ok;
      if was.Some? && was.value !in dead {
        var r, tooBig;
        r, tooBig, fates := SendOn(was.value);
        result := r;
        StepInv(s, DoWritable(fates, result));
        if r.Blocked? {
          armed := armed + 1;
          return;
        }
      } else {
        StepInv(s, DoWritable(fates, result));
        lost := lost + Losses(Zip(sources, batch.packets), OwnerGone);
      }
      EndStall(was);
    }

    method EndStall(was: Option<Id>)
      requires Shape()
      modifies this`stalled, this`owner, this`waiting, this`triggered, this`waiters, this`sources
      modifies batch`count, batch`packets
      ensures Shape() && State() == ClearStall(old(State()), was)
    {
      hide WakeAll;
      batch.Clear();
      sources := [];
      stalled, owner := false, None;
      WakeWaiters();
      if was.Some? {
        PacketIoReady(was.value);
      }
    }

    method WakeWaiters()
      requires Shape()
      modifies this`waiting, this`triggered, this`waiters
      ensures Shape() && State() == WakeAll(old(State()), old(waiters)).(waiters := [])
    {
      hide SendBatch.Valid, NoneEmpty, Zip, ZipOut;
      for i := 0 to |waiters|
        modifies this`waiting, this`triggered
        invariant Shape() && WakeAll(State(), waiters[i..]) == WakeAll(old(State()), waiters)
      {
        ghost var s, c := State(), waiters[i];
        assert waiters[i..][0] == c && waiters[i..][1..] == waiters[i + 1..];
        waiting := waiting - {waiters[i]};
        assert State() == s.(waiting := s.waiting - {c});
        PacketIoReady(waiters[i]);
        assert State() == Ready(s.(waiting := s.waiting - {c}), c);
      }
      assert waiters[|waiters|..] == [];
      waiters := [];
    }

    ghost predicate Fits(packets: seq<Packet>) {
      |packets| <= batch.size.Length && |Flat(packets)| <= batch.buf.Length && NoneEmpty(packets)
    }

    /** Writes the packets of a flush into the empty batch, one behind the other. */
    method Build(c: Id, packets: seq<Packet>)
      requires Shape() && batch.packets == [] && Fits(packets)
      modifies this`sources, this`built, batch`count, batch`packets, batch.buf, batch.size, batch.ecn
      ensures Shape() && batch.packets == packets && State() == BuildBatch(old(State()), c, packets)
    {
      hide Flat, NoneEmpty, SendBatch.Valid, Zip, ZipOut, Tag;
      ghost var was := Zip(sources, batch.packets);
      var at: nat := 0;
      Nothing(0);
      TagNothing(c);
      batch.CountIs();
      for i := 0 to |packets|
        modifies this`sources, batch`count, batch`packets, batch.buf, batch.size, batch.ecn
        invariant batch.Valid() && batch.packets == packets[..i] && batch.count == i && |sources| == i
        invariant at == |Flat(packets[..i])| && Zip(sources, batch.packets) == Tag(c, packets[..i])
      {
        NextPacket(packets, i);
        ZipAppend(sources, batch.packets, c, packets[i]);
        TagAppend(c, packets[..i], packets[i]);
        assert packets[..i + 1] == packets[..i] + [packets[i]];
        batch.AddPacket(packets[i].data, packets[i].ecn, at);
        sources := sources + [c];
        at := at + |packets[i].data|;
        batch.CountIs();
      }
      assert packets[..|packets|] == packets;
      built := built + Tag(c, packets);
    }

    static lemma {:induction false} TagNothing(c: Id)
      ensures Tag(c, []) == [] && Zip([], []) == []
    {
    }

    static lemma {:induction false} TagAppend(c: Id, pkts: seq<Packet>, p: Packet)
      ensures Tag(c, pkts + [p]) == Tag(c, pkts) + [Tagged(c, p)]
    {
    }

    /** Builds one batch and sends it, or gives it up because writing its next packet failed. */
    method SendRound(c: Id, plan: Plan) returns (through: bool, ghost r: Round)
      requires Valid() && !stalled && c in live && Fits(plan.packets)
      requires plan.failed.None? ==> plan.packets != []
      modifies this, batch, batch.buf, batch.size, batch.ecn, socket
      ensures Follows(r, plan) && PossibleRound(r) && old(State()).batch == []
      ensures Valid() && State() == FlushRounds(old(State()), c, [r])
      ensures RoundAnswered(socket.answers, old(socket.calls), socket.calls, r)
      ensures through == Through(r) && (through ==> !stalled && live == old(live))
    {
      hide AsAnswered, Explained, Inv, Flushing, SendOut, SendBatch.Valid, NoneEmpty, Losses, Zip, ZipOut, InOrder,
          BuildBatch, Fits;
      ghost var s := State();
      FlushStarts(s, c);
      BuildInv(s, c, plan.packets);
      ZipLength(sources, batch.packets);
      Build(c, plan.packets);
      ghost var s1 := State();
      ZipLength(sources, batch.packets);
      batch.CountIs();
      if plan.failed.Some? {
        r, through := Abandons(plan.packets, plan.failed.value), false;
        OneRound(s, c, r);
        AbandonInv(s1, c, plan.failed.value);
        DropBatch(c, plan.failed.value);
        return;
      }
      var result, tooBig;
      ghost var fates;
      result, tooBig, fates := SendOn(c);
      r, through := Sends(plan.packets, fates, result), result.Ok?;
      OneRound(s, c, r);
      SendInv(s1, c, fates);
      SendLeaves(s1, c, fates);
      ZipLength(sources, batch.packets);
      batch.CountIs();
      if result.Blocked? {
        StallSend(c);
      } else {
        FlushEnds(State(), c);
      }
    }

    /** Gives up what has been written into the batch. */
    method DropBatch(c: Id, fatal: bool)
      requires Shape()
      modifies this`sources, this`lost, this`dead, batch`count, batch`packets
      ensures Shape() && State() == AbandonBatch(old(State()), c, fatal)
    {
      lost := lost + Losses(Zip(sources, batch.packets), Abandoned);
      batch.Clear();
      sources := [];
      if fatal {
        dead := dead + {c};
      }
    }

    method SendRounds(c: Id, plans: seq<Plan>) returns (ghost rounds: seq<Round>, ghost calls: seq<nat>)
      requires Valid() && !stalled && c in live
      requires forall i :: 0 <= i < |plans| ==>
                 Fits(plans[i].packets) && (plans[i].failed.None? ==> plans[i].packets != [])
      modifies this, batch, batch.buf, batch.size, batch.ecn, socket
      ensures |rounds| <= |plans| && forall i :: 0 <= i < |rounds| ==> Follows(rounds[i], plans[i])
      ensures PossibleRounds(rounds) && old(State()).batch == []
      ensures Valid() && State() == FlushRounds(old(State()), c, rounds)
      ensures RoundsAnswered(socket.answers, calls, rounds)
      ensures calls[0] == old(socket.calls) && Last(calls) == socket.calls
      ensures StopsRightly(rounds, |plans|)
    {
      hide Inv, SendBatch.Valid, NoneEmpty, Zip, ZipOut, Follows, PossibleRound, FlushRounds, Fits, RoundsAnswered,
          AllThrough, Through;
      ghost var s := State();
      EmptyBatch(s);
      rounds, calls := [], [socket.calls];
      NoRounds(s, c);
      NoneAnswered(socket.answers, socket.calls);
      var i: nat := 0;
      while i < |plans|
        invariant i == |rounds| <= |plans|
        invariant Valid() && !stalled && c in live
        invariant forall k :: 0 <= k < i ==> Follows(rounds[k], plans[k])
        invariant PossibleRounds(rounds) && AllThrough(rounds) && State() == FlushRounds(s, c, rounds)
        invariant RoundsAnswered(socket.answers, calls, rounds)
        invariant calls != [] && calls[0] == old(socket.calls) && Last(calls) == socket.calls
      {
        ghost var r;
        var through;
        through, r := SendRound(c, plans[i]);
        OneMoreRound(s, c, rounds, r);
        OneMoreAnswered(socket.answers, calls, rounds, socket.calls, r);
        assert Front(rounds + [r]) == rounds;
        rounds, calls := rounds + [r], calls + [socket.calls];
        if !through {
          return;
        }
        i := i + 1;
      }
    }

    /** Builds and sends batch after batch as planned, until one does not go through. */
    method FlushPackets(c: Id, plans: seq<Plan>) returns (ghost rounds: seq<Round>, ghost calls: seq<nat>)
      requires Valid() && c in live
      requires forall i :: 0 <= i < |plans| ==>
                 Fits(plans[i].packets) && (plans[i].failed.None? ==> plans[i].packets != [])
      modifies this, batch, batch.buf, batch.size, batch.ecn, socket
      ensures |rounds| <= |plans| && forall i :: 0 <= i < |rounds| ==> Follows(rounds[i], plans[i])
      ensures old(Enabled(State(), DoFlush(c, rounds)))
      ensures Valid() && State() == old(Step(State(), DoFlush(c, rounds)))
      ensures RoundsAnswered(socket.answers, calls, rounds)
      ensures calls[0] == old(socket.calls) && Last(calls) == socket.calls
      ensures if old(stalled) || c in old(dead) then rounds == [] else StopsRightly(rounds, |plans|)
    {
      hide Inv, FlushRounds, PossibleRound, StopsRightly, RoundAnswered;
      ghost var s := State();
      rounds, calls := [], [socket.calls];
      EmptyBatch(s);
      if c in dead {
        return;
      }
      if stalled {
        WaitForSendStall(c);
        return;
      }
      rounds, calls := SendRounds(c, plans);
      StepInv(s, DoFlush(c, rounds));
    }
  }
}
