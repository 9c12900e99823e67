/**
 * What a stream's send buffer stands for: the buffers given to it, less those withdrawn, as one
 * sequence of bytes of which a prefix has been written into packets and a shorter one acknowledged.
 */
module StreamSending {
  import opened Common

  datatype Buffer = Buffer(data: Bytes, keepAlive: nat)

  function Datas(bufs: seq<Buffer>): seq<Bytes> {
    seq(|bufs|, i requires 0 <= i < |bufs| => bufs[i].data)
  }

  /** The bytes of the buffers, one after the other. */
  function Content(bufs: seq<Buffer>): Bytes {
    Flatten(Datas(bufs))
  }

  lemma {:induction false} ContentConcat(a: seq<Buffer>, b: seq<Buffer>)
    ensures Content(a + b) == Content(a) + Content(b)
  {
    assert Datas(a + b) == Datas(a) + Datas(b);
    FlattenConcat(Datas(a), Datas(b));
  }

  lemma {:induction false} ContentFirst(bufs: seq<Buffer>)
    ensures Content(bufs) == if bufs == [] then [] else bufs[0].data + Content(bufs[1..])
  {
    if bufs != [] {
      assert Datas(bufs)[1..] == Datas(bufs[1..]);
    }
  }

  lemma {:induction false} ContentSplit(bufs: seq<Buffer>, i: nat)
    requires i <= |bufs|
    ensures Content(bufs) == Content(bufs[..i]) + Content(bufs[i..])
  {
    assert bufs == bufs[..i] + bufs[i..];
    ContentConcat(bufs[..i], bufs[i..]);
  }

  lemma {:induction false} ContentOne(b: Buffer)
    ensures Content([b]) == b.data
  {
    assert Datas([b]) == [b.data];
    FlattenOne(b.data);
  }

  lemma {:induction false} ContentNext(bufs: seq<Buffer>, i: nat)
    requires i < |bufs|
    ensures Content(bufs[..i + 1]) == Content(bufs[..i]) + bufs[i].data
    ensures |Content(bufs[..i + 1])| <= |Content(bufs)|
  {
    assert bufs[..i + 1] == bufs[..i] + [bufs[i]];
    ContentConcat(bufs[..i], [bufs[i]]);
    ContentOne(bufs[i]);
    ContentSplit(bufs, i + 1);
  }

  /** `sendFin`: the application has ended the stream; `sentFin`: the end has been written too. */
  datatype Sending = Sending(kept: seq<Buffer>, acked: nat, written: nat, sendFin: bool, sentFin: bool) {
    predicate Valid() {
      && acked <= written <= |Content(kept)|
      && (forall i :: 0 <= i < |kept| ==> kept[i].data != [])
    }
    function Unacked(): Bytes
      requires Valid()
    {
      Content(kept)[acked..written]
    }
    function Unsent(): Bytes
      requires Valid()
    {
      Content(kept)[written..]
    }
    function Acked(): Bytes
      requires Valid()
    {
      Content(kept)[..acked]
    }
    /** Everything written so far, which is all the other side can have seen. */
    function Wire(): Bytes
      requires Valid()
    {
      Content(kept)[..written]
    }
  }

  const NOTHING_SENT := Sending([], 0, 0, false, false)

  /** Empty data, and data given after the end, is ignored. */
  predicate Accepts(s: Sending, b: Buffer) {
    b.data != [] && !s.sendFin && !s.sentFin
  }

  function Append(s: Sending, b: Buffer): Sending {
    if Accepts(s, b) then s.(kept := s.kept + [b]) else s
  }

  function Write(s: Sending, n: nat): Sending {
    s.(written := s.written + n)
  }

  function Ack(s: Sending, n: nat): Sending {
    s.(acked := s.acked + n)
  }

  /** All data not acknowledged is to be sent again; what has been said of the end is not touched. */
  function Revert(s: Sending): Sending {
    s.(written := s.acked)
  }

  /** The index of the first buffer none of whose bytes is among the first n. */
  function FirstBeyond(bufs: seq<Buffer>, n: nat): nat
    decreases |bufs|
  {
    if n == 0 || bufs == [] then 0
    else 1 + FirstBeyond(bufs[1..], if n >= |bufs[0].data| then n - |bufs[0].data| else 0)
  }

  function Find(bufs: seq<Buffer>, i: nat, keepAlive: nat): Option<nat>
    decreases |bufs| - i
  {
    if i >= |bufs| then None else if bufs[i].keepAlive == keepAlive then Some(i) else Find(bufs, i + 1, keepAlive)
  }

  lemma {:induction false} FindInRange(bufs: seq<Buffer>, i: nat, keepAlive: nat)
    ensures var r := Find(bufs, i, keepAlive);
            && (r.Some? ==> i <= r.value < |bufs| && bufs[r.value].keepAlive == keepAlive)
            && (r.Some? ==> forall j :: i <= j < r.value ==> bufs[j].keepAlive != keepAlive)
            && (r.None? ==> forall j :: i <= j < |bufs| ==> bufs[j].keepAlive != keepAlive)
    decreases |bufs| - i
  {
    if i < |bufs| && bufs[i].keepAlive != keepAlive {
      FindInRange(bufs, i + 1, keepAlive);
    }
  }

  /** Where the buffer to withdraw is, if it is there and none of it has been written. */
  function Withdrawable(s: Sending, keepAlive: nat): (r: Option<nat>)
    ensures r.Some? ==> r.value < |s.kept|
  {
    FindInRange(s.kept, FirstBeyond(s.kept, s.written), keepAlive);
    Find(s.kept, FirstBeyond(s.kept, s.written), keepAlive)
  }

  function Withdraw(s: Sending, keepAlive: nat): Sending {
    var r := Withdrawable(s, keepAlive);
    if r.None? then s else s.(kept := Without(s.kept, r.value))
  }

  /** FirstBeyond splits the buffers: those before it start within the first n bytes, it does not. */
  lemma {:induction false} FirstBeyondIs(bufs: seq<Buffer>, n: nat)
    requires n <= |Content(bufs)|
    ensures var i := FirstBeyond(bufs, n);
            && i <= |bufs| && |Content(bufs[..i])| >= n
            && forall j :: 0 <= j < i ==> |Content(bufs[..j])| < n
    decreases |bufs|
  {
    hide Content;
    ContentFirst(bufs[..0]);
    ContentFirst(bufs);
    if n > 0 {
      var rest := if n >= |bufs[0].data| then n - |bufs[0].data| else 0;
      FirstBeyondIs(bufs[1..], rest);
      var i := FirstBeyond(bufs, n);
      forall j | 0 < j <= |bufs|
        ensures Content(bufs[..j]) == bufs[0].data + Content(bufs[1..][..j - 1])
      {
        ContentFirst(bufs[..j]);
        assert bufs[..j][1..] == bufs[1..][..j - 1];
      }
    }
  }

  /**
   * Withdrawing succeeds exactly when a buffer with the keep-alive lies wholly beyond what has been
   * written; it removes that buffer's bytes from what is unsent and leaves what was written alone.
   */
  lemma {:induction false} WithdrawIs(s: Sending, keepAlive: nat)
    requires s.Valid()
    ensures var r, s' := Withdrawable(s, keepAlive), Withdraw(s, keepAlive);
            && s'.Valid() && s'.Wire() == s.Wire() && s'.Unacked() == s.Unacked()
            && (r.Some? <==>
                  exists j :: 0 <= j < |s.kept| && s.kept[j].keepAlive == keepAlive
                              && |Content(s.kept[..j])| >= s.written)
            && (r.Some? ==>
                  && s.kept[r.value].keepAlive == keepAlive
                  && |Content(s.kept[..r.value])| >= s.written
                  && Content(s.kept)
                     == Content(s.kept[..r.value]) + s.kept[r.value].data + Content(s.kept[r.value + 1..])
                  && Content(s'.kept) == Content(s.kept[..r.value]) + Content(s.kept[r.value + 1..]))
  {
    hide Content, FirstBeyond, Find;
    var r, first := Withdrawable(s, keepAlive), FirstBeyond(s.kept, s.written);
    FirstBeyondIs(s.kept, s.written);
    FindInRange(s.kept, first, keepAlive);
    if r.Some? {
      ContentPrefixMonotone(s.kept, first, r.value);
      TakeOut(s.kept, r.value);
    }
    if j :| 0 <= j < |s.kept| && s.kept[j].keepAlive == keepAlive && |Content(s.kept[..j])| >= s.written {
      assert j >= first;
      assert r.Some?;
    }
  }

  lemma {:induction false} TakeOut(bufs: seq<Buffer>, i: nat)
    requires i < |bufs|
    ensures Content(bufs) == Content(bufs[..i]) + bufs[i].data + Content(bufs[i + 1..])
    ensures Content(Without(bufs, i)) == Content(bufs[..i]) + Content(bufs[i + 1..])
  {
    ContentSplit(bufs, i);
    ContentFirst(bufs[i..]);
    assert bufs[i..][1..] == bufs[i + 1..];
    ContentConcat(bufs[..i], bufs[i + 1..]);
  }

  lemma {:induction false} ContentPrefixMonotone(bufs: seq<Buffer>, i: nat, j: nat)
    requires i <= j <= |bufs|
    ensures |Content(bufs[..i])| <= |Content(bufs[..j])|
  {
    assert bufs[..j][..i] == bufs[..i];
    ContentSplit(bufs[..j], i);
  }

  // ---------------------------------------------------------------------------------------------
  // Runs
  // ---------------------------------------------------------------------------------------------

  /** The connection was offered `offered` bytes of unsent data and took n of them. */
  function Flush(s: Sending, offered: nat, n: nat): Sending
    requires s.Valid()
  {
    var ending := s.sendFin && offered == |s.Unsent()|;
    Write(s, n).(sentFin := s.sentFin || (ending && n == offered))
  }

  datatype Action =
    | DoAppend(b: Buffer)
    | DoEnd
    | DoFlush(offered: nat, n: nat)
    | DoAck(acked: nat)
    | DoWithdraw(keepAlive: nat)
    | DoRevert

  /** What the caller guarantees: no more is written than offered, or acknowledged than written. */
  predicate Possible(s: Sending, a: Action)
    requires s.Valid()
  {
    match a
    case DoFlush(offered, n) => n <= offered <= |s.Unsent()| && !s.sentFin
    case DoAck(n) => n <= |s.Unacked()|
    case _ => true
  }

  function Step(s: Sending, a: Action): Sending
    requires s.Valid()
  {
    match a
    case DoAppend(b) => Append(s, b)
    case DoEnd => s.(sendFin := true)
    case DoFlush(offered, n) => Flush(s, offered, n)
    case DoAck(n) => Ack(s, n)
    case DoWithdraw(keepAlive) => Withdraw(s, keepAlive)
    case DoRevert => Revert(s)
  }

  lemma {:induction false} StepValid(s: Sending, a: Action)
    requires s.Valid() && Possible(s, a)
    ensures Step(s, a).Valid()
    ensures |Content(Step(s, a).kept)| == |Content(s.kept)| + BytesIn(s, a) - BytesOut(s, a)
  {
    match a
    case DoAppend(b) =>
      ContentConcat(s.kept, [b]);
      ContentOne(b);
    case DoWithdraw(keepAlive) => WithdrawIs(s, keepAlive);
    case _ =>
  }

  function BytesIn(s: Sending, a: Action): nat {
    if a.DoAppend? && Accepts(s, a.b) then |a.b.data| else 0
  }

  function BytesOut(s: Sending, a: Action): nat {
    if a.DoWithdraw? && Withdrawable(s, a.keepAlive).Some? then |s.kept[Withdrawable(s, a.keepAlive).value].data| else 0
  }

  /** The states of a run: each follows from the one before by a possible action. */
  ghost predicate IsRun(states: seq<Sending>, actions: seq<Action>) {
    && |states| == |actions| + 1 && states[0] == NOTHING_SENT
    && forall i :: 0 <= i < |actions| ==>
         states[i].Valid() && Possible(states[i], actions[i]) && states[i + 1] == Step(states[i], actions[i])
  }

  /** Bytes taken in, less bytes withdrawn, over the first n actions of a run. */
  function Balance(states: seq<Sending>, actions: seq<Action>, n: nat): int
    requires n <= |actions| < |states|
  {
    if n == 0 then 0
    else
      var s, a := states[n - 1], actions[n - 1];
      Balance(states, actions, n - 1) + BytesIn(s, a) - BytesOut(s, a)
  }

  /**
   * In every state of every run, what is acknowledged, unacknowledged and unsent adds up to what was
   * taken in less what was withdrawn.
   */
  lemma {:induction false} Conservation(states: seq<Sending>, actions: seq<Action>, n: nat)
    requires IsRun(states, actions) && n <= |actions|
    ensures states[n].Valid()
    ensures states[n].acked + |states[n].Unacked()| + |states[n].Unsent()| == Balance(states, actions, n)
  {
    if n > 0 {
      Conservation(states, actions, n - 1);
      StepValid(states[n - 1], actions[n - 1]);
    }
  }

  /** What is acknowledged, what is on its way, and what is still to be written. */
  ghost predicate Parts(s: Sending, acked: Bytes, unacked: Bytes, unsent: Bytes) {
    s.Valid() && s.Acked() == acked && s.Unacked() == unacked && s.Unsent() == unsent
  }

  /** Data given to a stream that has not ended is the last to be sent; anything else is ignored. */
  lemma {:induction false} AppendBytes(s: Sending, b: Buffer)
    requires s.Valid()
    ensures var s', ignored := Step(s, DoAppend(b)), b.data == [] || s.sendFin || s.sentFin;
            && Parts(s', s.Acked(), s.Unacked(), if ignored then s.Unsent() else s.Unsent() + b.data)
            && s'.kept == (if ignored then s.kept else s.kept + [b])
            && s'.sendFin == s.sendFin && s'.sentFin == s.sentFin
  {
    hide Content;
    ContentConcat(s.kept, [b]);
    ContentOne(b);
  }

  /**
   * Of the bytes offered the first n are then on their way.  The end goes with them exactly if it has been announced,
   * nothing is left to be offered, and all of it was taken.
   */
  lemma {:induction false} FlushBytes(s: Sending, offered: nat, n: nat)
    requires s.Valid() && Possible(s, DoFlush(offered, n))
    ensures var s' := Step(s, DoFlush(offered, n));
            && Parts(s', s.Acked(), s.Unacked() + s.Unsent()[..n], s.Unsent()[n..])
            && s'.Wire() == s.Wire() + s.Unsent()[..n]
            && (s'.sentFin <==> s.sendFin && n == offered == |s.Unsent()|)
            && s'.sendFin == s.sendFin && s'.kept == s.kept
  {
  }

  /** What is acknowledged was the first on its way. */
  lemma {:induction false} AckBytes(s: Sending, n: nat)
    requires s.Valid() && Possible(s, DoAck(n))
    ensures var s' := Step(s, DoAck(n));
            && Parts(s', s.Acked() + s.Unacked()[..n], s.Unacked()[n..], s.Unsent())
            && s'.sendFin == s.sendFin && s'.sentFin == s.sentFin && s'.kept == s.kept
  {
  }

  /** A revert makes everything on its way unsent, ahead of what was unsent before. */
  lemma {:induction false} RevertBytes(s: Sending)
    requires s.Valid()
    ensures var s' := Step(s, DoRevert);
            && Parts(s', s.Acked(), [], s.Unacked() + s.Unsent())
            && s'.sendFin == s.sendFin && s'.sentFin == s.sentFin && s'.kept == s.kept
  {
  }

  /** Withdrawing takes one buffer's bytes out of the unsent ones, or nothing. */
  lemma {:induction false} WithdrawBytes(s: Sending, keepAlive: nat)
    requires s.Valid()
    ensures var s', r := Step(s, DoWithdraw(keepAlive)), Withdrawable(s, keepAlive);
            && s'.sendFin == s.sendFin && s'.sentFin == s.sentFin
            && (r.None? ==> s' == s)
            && (r.Some? ==>
                  exists x, y :: s.Unsent() == x + s.kept[r.value].data + y && Parts(s', s.Acked(), s.Unacked(), x + y))
  {
    hide Content, Find, FirstBeyond;
    WithdrawIs(s, keepAlive);
    var s', r := Withdraw(s, keepAlive), Withdrawable(s, keepAlive);
    if r.Some? {
      var i, w := r.value, s.written;
      var x, y := Content(s.kept[..i])[w..], Content(s.kept[i + 1..]);
      assert s.Unsent() == x + s.kept[i].data + y;
      assert s'.Acked() == s'.Wire()[..s.acked] && s.Acked() == s.Wire()[..s.acked];
      assert s'.Unsent() == x + y;
    }
  }

  /** Until data is reverted, what has been written only ever grows at its end. */
  lemma {:induction false} WireGrows(states: seq<Sending>, actions: seq<Action>, m: nat, n: nat)
    requires IsRun(states, actions) && m <= n <= |actions|
    requires forall i :: m <= i < n ==> !actions[i].DoRevert?
    ensures states[m].Valid() && states[n].Valid() && states[m].Wire() <= states[n].Wire()
    decreases n
  {
    Conservation(states, actions, m);
    Conservation(states, actions, n);
    if m < n {
      WireGrows(states, actions, m, n - 1);
      StepWire(states[n - 1], actions[n - 1]);
    }
  }

  lemma {:induction false} StepWire(s: Sending, a: Action)
    requires s.Valid() && Possible(s, a) && !a.DoRevert?
    ensures Step(s, a).Valid() && s.Wire() <= Step(s, a).Wire()
  {
    StepValid(s, a);
    match a
    case DoAppend(b) => ContentConcat(s.kept, [b]);
    case DoWithdraw(keepAlive) => WithdrawIs(s, keepAlive);
    case _ =>
  }

  // ---------------------------------------------------------------------------------------------
  // The end of the stream
  // ---------------------------------------------------------------------------------------------

  /** The end has only been written once everything before it has. */
  ghost predicate FinLast(s: Sending)
    requires s.Valid()
  {
    s.sentFin ==> s.sendFin && s.Unsent() == []
  }

  /** Apart from a revert, every action keeps the end last. */
  lemma {:induction false} FinStaysLast(s: Sending, a: Action)
    requires s.Valid() && Possible(s, a) && FinLast(s) && !a.DoRevert?
    ensures Step(s, a).Valid() && FinLast(Step(s, a))
  {
    StepValid(s, a);
    if a.DoWithdraw? && s.sentFin {
      WithdrawIs(s, a.keepAlive);
      WithdrawShrinks(s, a.keepAlive);
    }
  }

  lemma {:induction false} WithdrawShrinks(s: Sending, keepAlive: nat)
    requires s.Valid()
    ensures |Content(Withdraw(s, keepAlive).kept)| <= |Content(s.kept)|
  {
    WithdrawIs(s, keepAlive);
  }

  /**
   * After a revert the connection will offer the data again exactly when the end had not been written,
   * or everything before it is already acknowledged: a revert does not take back the end, and a stream
   * whose end is written is not flushed again.
   */
  lemma {:induction false} RevertIsOfferedAgain(s: Sending)
    requires s.Valid() && FinLast(s)
    ensures var s' := Revert(s);
            && s'.Valid() && s'.Unsent() == s.Unacked() + s.Unsent()
            && (s'.Unsent() == [] || (exists n :: Possible(s', DoFlush(|s'.Unsent()|, n)))
                <==> !s.sentFin || s.acked == |Content(s.kept)|)
  {
    var s' := Revert(s);
    if !s'.sentFin {
      assert Possible(s', DoFlush(|s'.Unsent()|, 0));
    }
  }

  /** A stream sent to its end in early data is stranded by the rejection of that data. */
  lemma {:induction false} RevertStrands(b: Buffer)
    requires b.data != []
    ensures var s := Step(Step(NOTHING_SENT, DoAppend(b)), DoEnd);
            && s.Valid() && Possible(s, DoFlush(|b.data|, |b.data|))
            && var s' := Revert(Step(s, DoFlush(|b.data|, |b.data|)));
               s'.Valid() && s'.Unsent() == b.data && forall n :: !Possible(s', DoFlush(|b.data|, n))
  {
    ContentOne(b);
    assert [] + [b] == [b];
  }
}
