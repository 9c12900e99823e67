/** Whole runs of the receiver: what any sequence of arrivals inside the window delivers. */
module ReassemblyRuns {
  import opened Common
  import opened Arithmetic
  import opened Reassembly

  function ModularAfter(c: Config, arrivals: seq<Arrival>): Modular
    requires c.Valid()
  {
    if arrivals == [] then EMPTY_MODULAR
    else ModularArrive(c, ModularAfter(c, Front(arrivals)), Last(arrivals)).0
  }

  /** What the last arrival delivers. */
  function ModularDelivers(c: Config, arrivals: seq<Arrival>): Option<Bytes>
    requires c.Valid() && arrivals != []
  {
    ModularArrive(c, ModularAfter(c, Front(arrivals)), Last(arrivals)).1
  }

  function ReferenceAfter(c: Config, arrivals: seq<Arrival>): Reference
    requires c.Valid()
  {
    if arrivals == [] then EMPTY_REFERENCE
    else ReferenceArrive(c, ReferenceAfter(c, Front(arrivals)), Last(arrivals)).0
  }

  function ReferenceDelivers(c: Config, arrivals: seq<Arrival>): Option<Bytes>
    requires c.Valid() && arrivals != []
  {
    ReferenceArrive(c, ReferenceAfter(c, Front(arrivals)), Last(arrivals)).1
  }

  /** Every arrival was in the window when it came; see NewestIsLargest for what the window follows. */
  predicate Windowed(c: Config, arrivals: seq<Arrival>)
    requires c.Valid()
  {
    arrivals == [] ||
    (&& Windowed(c, Front(arrivals))
     && InWindow(c, ReferenceAfter(c, Front(arrivals)).newest, Last(arrivals).number))
  }

  /** The 14-bit machine follows the unbounded one through every windowed run, over any number of wraps. */
  lemma {:induction false} RunRefines(c: Config, arrivals: seq<Arrival>)
    requires c.Valid() && Windowed(c, arrivals)
    ensures Refines(c, ModularAfter(c, arrivals), ReferenceAfter(c, arrivals))
    ensures arrivals != [] ==> ModularDelivers(c, arrivals) == ReferenceDelivers(c, arrivals)
  {
    if arrivals != [] {
      RunRefines(c, Front(arrivals));
      ArriveRefines(c, ModularAfter(c, Front(arrivals)), ReferenceAfter(c, Front(arrivals)), Last(arrivals));
    }
  }

  /** The newest block is the largest block of any arrival so far. */
  lemma {:induction false} NewestIsLargest(c: Config, arrivals: seq<Arrival>)
    requires c.Valid()
    ensures arrivals != [] <==> ReferenceAfter(c, arrivals).newest.Some?
    ensures forall i :: 0 <= i < |arrivals| ==>
              Block(c, arrivals[i].number) <= ReferenceAfter(c, arrivals).newest.value
    ensures arrivals != [] ==>
              exists i :: 0 <= i < |arrivals| &&
                Block(c, arrivals[i].number) == ReferenceAfter(c, arrivals).newest.value
  {
    if arrivals != [] {
      var front := Front(arrivals);
      NewestIsLargest(c, front);
      var before, after := ReferenceAfter(c, front), ReferenceAfter(c, arrivals);
      if before.newest.Some? && after.newest == before.newest {
        var i :| 0 <= i < |front| && Block(c, front[i].number) == before.newest.value;
        assert arrivals[i] == front[i];
      } else {
        assert Block(c, arrivals[|front|].number) == after.newest.value;
      }
    }
  }

  /** A stored piece is one that arrived, in the newest block or the one before it. */
  lemma {:induction false} StoredArrived(c: Config, arrivals: seq<Arrival>, n: int)
    requires c.Valid() && n in ReferenceAfter(c, arrivals).stored
    ensures n >= 0 && Piece(n, ReferenceAfter(c, arrivals).stored[n]) in arrivals
    ensures ReferenceAfter(c, arrivals).newest.Some?
    ensures Block(c, n) >= ReferenceAfter(c, arrivals).newest.value - 1
  {
    var front := Front(arrivals);
    if n in ReferenceAfter(c, front).stored {
      StoredArrived(c, front, n);
      assert forall a :: a in front ==> a in arrivals;
    }
  }

  /**
   * Inside the window every delivery joins the two halves of one datagram, its first half first:
   * the counter's wraps never pair halves of different datagrams.
   */
  lemma {:induction false} DeliversWholeDatagram(c: Config, arrivals: seq<Arrival>)
    requires c.Valid() && arrivals != [] && Windowed(c, arrivals)
    ensures var last, r := Last(arrivals), ModularDelivers(c, arrivals);
            r.Some? ==>
              && last.Piece?
              && exists h: Half ::
                   && Piece(last.number, h) in Front(arrivals)
                   && h.first != last.half.first
                   && r == Some(if h.first then h.data + last.half.data else last.half.data + h.data)
  {
    RunRefines(c, arrivals);
    var t, a := ReferenceAfter(c, Front(arrivals)), Last(arrivals);
    if ModularDelivers(c, arrivals).Some? {
      assert a.Piece? && a.number in t.stored;
      StoredArrived(c, Front(arrivals), a.number);
      var h := t.stored[a.number];
      assert Piece(a.number, h) in Front(arrivals);
    }
  }

  /** A late arrival delivers nothing and changes nothing. */
  lemma {:induction false} LateChangesNothing(c: Config, arrivals: seq<Arrival>)
    requires c.Valid() && arrivals != [] && Windowed(c, arrivals) && |arrivals| > 1
    requires Block(c, Last(arrivals).number) < ReferenceAfter(c, Front(arrivals)).newest.value - 1
    ensures ModularAfter(c, arrivals) == ModularAfter(c, Front(arrivals))
    ensures ModularDelivers(c, arrivals) == None
  {
    RunRefines(c, Front(arrivals));
    NewestIsLargest(c, Front(arrivals));
    AdvanceCases(c, ModularAfter(c, Front(arrivals)),
                 ReferenceAfter(c, Front(arrivals)).newest.value, Last(arrivals).number);
  }

  // ---------------------------------------------------------------------------------------------
  // How long a piece is kept
  // ---------------------------------------------------------------------------------------------

  lemma {:induction false} BlockMonotone(c: Config, a: nat, b: nat)
    requires c.Valid() && a <= b
    ensures Block(c, a) <= Block(c, b)
  {
    DivMonotone(a, b, c.blockSize);
  }

  lemma {:induction false} BlockStep(c: Config, n: nat)
    requires c.Valid()
    ensures Block(c, n + c.blockSize) == Block(c, n) + 1
    ensures Block(c, n + c.bufsize) == Block(c, n) + 2
  {
    var bs := c.blockSize;
    assert n == bs * (n / bs) + n % bs;
    assert n + bs == (n / bs + 1) * bs + n % bs;
    assert n + 2 * bs == (n / bs + 2) * bs + n % bs;
    DivModUnique(bs, n / bs + 1, n % bs);
    DivModUnique(bs, n / bs + 2, n % bs);
  }

  predicate NoneAbove(arrivals: seq<Arrival>, limit: nat) {
    forall k :: 0 <= k < |arrivals| ==> arrivals[k].number <= limit
  }

  lemma {:induction false} NewestBound(c: Config, arrivals: seq<Arrival>, n: nat)
    requires c.Valid() && arrivals != [] && NoneAbove(arrivals, n + c.blockSize)
    ensures ReferenceAfter(c, arrivals).newest.Some?
    ensures ReferenceAfter(c, arrivals).newest.value <= Block(c, n) + 1
  {
    NewestIsLargest(c, arrivals);
    var i :| 0 <= i < |arrivals| && Block(c, arrivals[i].number) == ReferenceAfter(c, arrivals).newest.value;
    BlockMonotone(c, arrivals[i].number, n + c.blockSize);
    BlockStep(c, n);
  }

  /**
   * `i` is the first arrival of a piece of datagram n, and every later piece of n in the run is a
   * repeat of the same half.
   */
  predicate FirstPieceAt(arrivals: seq<Arrival>, n: nat, i: nat) {
    && i < |arrivals| && arrivals[i].Piece? && arrivals[i].number == n
    && (forall k :: 0 <= k < i && arrivals[k].Piece? ==> arrivals[k].number != n)
    && (forall k :: i < k < |arrivals| && arrivals[k].Piece? && arrivals[k].number == n ==>
          arrivals[k].half.first == arrivals[i].half.first)
  }

  lemma {:induction false} NotStoredUnseen(c: Config, arrivals: seq<Arrival>, n: nat)
    requires c.Valid()
    requires forall k :: 0 <= k < |arrivals| && arrivals[k].Piece? ==> arrivals[k].number != n
    ensures n !in ReferenceAfter(c, arrivals).stored
  {
    if n in ReferenceAfter(c, arrivals).stored {
      StoredArrived(c, arrivals, n);
      assert false;
    }
  }

  lemma {:induction false} HeldSince(c: Config, arrivals: seq<Arrival>, n: nat, i: nat)
    requires c.Valid() && NoneAbove(arrivals, n + c.blockSize) && FirstPieceAt(arrivals, n, i)
    ensures n in ReferenceAfter(c, arrivals).stored
    ensures ReferenceAfter(c, arrivals).stored[n] == arrivals[i].half
  {
    var front := Front(arrivals);
    var t := ReferenceAfter(c, front);
    NewestBound(c, arrivals, n);
    if i == |arrivals| - 1 {
      NotStoredUnseen(c, front, n);
    } else {
      HeldSince(c, front, n, i);
      assert arrivals[|arrivals| - 1] == Last(arrivals);
      BlockMonotone(c, Last(arrivals).number, n + c.blockSize);
      BlockStep(c, n);
    }
  }

  /**
   * The two halves of datagram n are reassembled whenever both come before any datagram numbered
   * above n + bufsize/2, whatever else arrives in between (repeats of the held half included).
   */
  lemma {:induction false} RetainedForHalfBuffer(c: Config, arrivals: seq<Arrival>, n: nat, i: nat)
    requires c.Valid() && |arrivals| > 1 && Windowed(c, arrivals)
    requires NoneAbove(arrivals, n + c.blockSize)
    requires FirstPieceAt(Front(arrivals), n, i)
    requires Last(arrivals).Piece? && Last(arrivals).number == n
    requires Last(arrivals).half.first != arrivals[i].half.first
    ensures var held, last := arrivals[i].half, Last(arrivals).half;
            ModularDelivers(c, arrivals) == Some(if held.first then held.data + last.data else last.data + held.data)
  {
    RunRefines(c, arrivals);
    HeldSince(c, Front(arrivals), n, i);
    NewestBound(c, Front(arrivals), n);
    NewestIsLargest(c, Front(arrivals));
  }

  /** What is held of datagram n after a run of which only its own pieces count. */
  function Alone(arrivals: seq<Arrival>, n: nat): Option<Half> {
    if arrivals == [] then None
    else
      var held, a := Alone(Front(arrivals), n), Last(arrivals);
      if !a.Piece? || a.number != n then held
      else if held.None? then Some(a.half)
      else if held.value.first == a.half.first then held
      else None
  }

  lemma {:induction false} HeldAlone(c: Config, arrivals: seq<Arrival>, n: nat)
    requires c.Valid() && NoneAbove(arrivals, n + c.blockSize)
    ensures var stored := ReferenceAfter(c, arrivals).stored;
            Alone(arrivals, n) == if n in stored then Some(stored[n]) else None
  {
    if arrivals != [] {
      var front, a := Front(arrivals), Last(arrivals);
      assert arrivals[|arrivals| - 1] == a;
      HeldAlone(c, front, n);
      NewestBound(c, arrivals, n);
      BlockMonotone(c, a.number, n + c.blockSize);
      BlockStep(c, n);
    }
  }

  /**
   * Until a datagram numbered above n + bufsize/2 comes, datagram n is reassembled as if it were alone: whatever
   * arrives in between, its pieces are joined in pairs, each with the next of the other half.
   */
  lemma {:induction false} AsIfAlone(c: Config, arrivals: seq<Arrival>, n: nat)
    requires c.Valid() && arrivals != [] && Windowed(c, arrivals) && NoneAbove(arrivals, n + c.blockSize)
    requires Last(arrivals).Piece? && Last(arrivals).number == n
    ensures var held, half := Alone(Front(arrivals), n), Last(arrivals).half;
            ModularDelivers(c, arrivals) ==
            if held.Some? && held.value.first != half.first then Some(Join(held.value, half)) else None
  {
    RunRefines(c, arrivals);
    HeldAlone(c, Front(arrivals), n);
    NewestBound(c, arrivals, n);
  }

  /** Once any datagram numbered n + bufsize or more has come, nothing of datagram n is held or delivered. */
  lemma {:induction false} ForgottenAfterBuffer(c: Config, arrivals: seq<Arrival>, n: nat, i: nat)
    requires c.Valid() && |arrivals| > 1 && Windowed(c, arrivals)
    requires i < |arrivals| - 1 && arrivals[i].number >= n + c.bufsize
    requires Last(arrivals).Piece? && Last(arrivals).number == n
    ensures n !in ReferenceAfter(c, Front(arrivals)).stored
    ensures ModularDelivers(c, arrivals) == None
    ensures ModularAfter(c, arrivals) == ModularAfter(c, Front(arrivals))
  {
    var front := Front(arrivals);
    NewestIsLargest(c, front);
    assert front[i] == arrivals[i];
    BlockMonotone(c, n + c.bufsize, arrivals[i].number);
    BlockStep(c, n);
    if n in ReferenceAfter(c, front).stored {
      StoredArrived(c, front, n);
    }
    LateChangesNothing(c, arrivals);
  }

  // ---------------------------------------------------------------------------------------------
  // Outside the window
  // ---------------------------------------------------------------------------------------------

  lemma {:induction false} AfterOne(c: Config, n: nat, h: Half)
    requires c.Valid()
    ensures ModularAfter(c, [Piece(n, h)]) == Modular(Some(Block(c, Counter(n))), map[Slot(c, Counter(n)) := h])
    ensures ReferenceAfter(c, [Piece(n, h)]) == Reference(Some(Block(c, n)), map[n := h])
  {
    assert Front([Piece(n, h)]) == [];
    assert ModularArrive(c, EMPTY_MODULAR, Piece(n, h)).0 ==
           Modular(Some(Block(c, Counter(n))), map[Slot(c, Counter(n)) := h]);
    assert ReferenceArrive(c, EMPTY_REFERENCE, Piece(n, h)).0 == Reference(Some(Block(c, n)), map[n := h]);
  }

  lemma {:induction false} BlocksPerWrap(c: Config, n: nat)
    requires c.Valid()
    ensures Block(c, n + COUNTERS) == Block(c, n) + c.nblocks && Counter(n + COUNTERS) == Counter(n)
    ensures Wrap(c, 0) == 0
  {
    var bs := c.blockSize;
    TimesIsProduct(bs, c.nblocks);
    assert n + COUNTERS == (n / bs + c.nblocks) * bs + n % bs by {
      assert n == bs * (n / bs) + n % bs;
      assert (n / bs + c.nblocks) * bs == bs * (n / bs) + bs * c.nblocks;
    }
    DivModUnique(bs, n / bs + c.nblocks, n % bs);
    DivModUnique(c.nblocks, 0, 0);
  }

  /** The true number of the datagram in each slot after a run, in the window or not. */
  ghost function HeldAfter(c: Config, arrivals: seq<Arrival>): Numbers
    requires c.Valid()
  {
    if arrivals == [] then map[]
    else HeldNext(c, ModularAfter(c, Front(arrivals)), HeldAfter(c, Front(arrivals)), Last(arrivals))
  }

  /** Every piece held did arrive, as a piece of the datagram it is held for. */
  ghost predicate Arrived(m: Modular, held: Numbers, arrivals: seq<Arrival>) {
    held.Keys == m.stored.Keys && forall k :: k in held ==> Piece(held[k], m.stored[k]) in arrivals
  }

  lemma {:induction false} HeldArrived(c: Config, m: Modular, held: Numbers, front: seq<Arrival>, a: Arrival)
    requires c.Valid() && Labelled(c, m, held) && Arrived(m, held, front)
    ensures Arrived(ModularArrive(c, m, a).0, HeldNext(c, m, held, a), front + [a])
  {
    hide Block, SlotHalf, Counter, Behind, Slot, Wrap;
    ArriveLabelled(c, m, held, a);
  }

  /** Through every run whatever, the pieces held did arrive and seem to be of the newest blocks. */
  lemma {:induction false} RunLabelled(c: Config, arrivals: seq<Arrival>)
    requires c.Valid()
    ensures Labelled(c, ModularAfter(c, arrivals), HeldAfter(c, arrivals))
    ensures Arrived(ModularAfter(c, arrivals), HeldAfter(c, arrivals), arrivals)
  {
    hide Labelled, HeldNext, ModularArrive;
    if arrivals == [] {
      NothingHeld(c);
    } else {
      var front, a := Front(arrivals), Last(arrivals);
      RunLabelled(c, front);
      ArriveLabelled(c, ModularAfter(c, front), HeldAfter(c, front), a);
      HeldArrived(c, ModularAfter(c, front), HeldAfter(c, front), front, a);
      assert arrivals == front + [a];
    }
  }

  lemma {:induction false} NothingHeld(c: Config)
    requires c.Valid()
    ensures Labelled(c, EMPTY_MODULAR, map[])
  {
  }

  lemma {:induction false} LapsApart(n: nat, x: nat)
    requires Counter(n) == Counter(x)
    ensures n == x || n - x >= COUNTERS || x - n >= COUNTERS
  {
  }

  /**
   * After any run whatever, and whatever arrives next: exactly which halves are joined.  Every half joined did
   * arrive, and if it is of another datagram then a lap of the counters or more lies between the two.
   */
  lemma {:induction false} DeliversExactly(c: Config, arrivals: seq<Arrival>)
    requires c.Valid() && arrivals != [] && Last(arrivals).Piece?
    ensures var front, a, r := Front(arrivals), Last(arrivals), ModularDelivers(c, arrivals);
            var m, held := ModularAfter(c, front), HeldAfter(c, front);
            && Arrived(m, held, front)
            && (r.Some? <==> exists k :: SeemsOther(m, held, a, k))
            && forall k :: SeemsOther(m, held, a, k) ==>
                 && r == Some(Join(m.stored[k], a.half))
                 && (held[k] == a.number || held[k] - a.number >= COUNTERS || a.number - held[k] >= COUNTERS)
  {
    hide ModularArrive, HeldAfter, ModularAfter, Labelled, Arrived, Counter;
    var front, a := Front(arrivals), Last(arrivals);
    var m, held := ModularAfter(c, front), HeldAfter(c, front);
    RunLabelled(c, front);
    JoinsExactly(c, m, held, a);
    forall k | SeemsOther(m, held, a, k)
      ensures held[k] == a.number || held[k] - a.number >= COUNTERS || a.number - held[k] >= COUNTERS
    {
      LapsApart(held[k], a.number);
    }
  }

  /** What one arrival does to a slot: nothing, or it clears it, or puts its own piece there. */
  lemma {:induction false} SlotNext(c: Config, m: Modular, held: Numbers, a: Arrival, k: int)
    requires c.Valid() && Labelled(c, m, held)
    ensures var (m', r), held' := ModularArrive(c, m, a), HeldNext(c, m, held, a);
            && (k in m'.stored ==>
                  && k in held'
                  && ((k in m.stored && m'.stored[k] == m.stored[k] && held'[k] == held[k])
                      || a == Piece(held'[k], m'.stored[k])))
            && (r.Some? ==> Slot(c, a.number) !in m'.stored)
  {
    hide Block, SlotHalf, Counter, Behind, Slot, Wrap;
    ArriveLabelled(c, m, held, a);
    LayoutSlots(c, a.number);
  }

  /** A piece in a slot that was empty earlier has come since. */
  lemma {:induction false} FilledSince(c: Config, arrivals: seq<Arrival>, i: nat, k: int)
    requires c.Valid() && i <= |arrivals| && k !in ModularAfter(c, arrivals[..i]).stored
    requires k in ModularAfter(c, arrivals).stored
    ensures k in HeldAfter(c, arrivals)
    ensures Piece(HeldAfter(c, arrivals)[k], ModularAfter(c, arrivals).stored[k]) in arrivals[i..]
  {
    hide ModularArrive, HeldNext, Labelled;
    assert arrivals[..|arrivals|] == arrivals;
    if i < |arrivals| {
      var front, a := Front(arrivals), Last(arrivals);
      assert front[..i] == arrivals[..i] && arrivals[i..] == front[i..] + [a];
      RunLabelled(c, front);
      SlotNext(c, ModularAfter(c, front), HeldAfter(c, front), a, k);
      if k in ModularAfter(c, front).stored {
        FilledSince(c, front, i, k);
      }
    }
  }

  /**
   * Over any run whatever no piece is used twice: what a delivery is joined from has come since the last one with
   * its counter.
   */
  lemma {:induction false} UsedOnce(c: Config, arrivals: seq<Arrival>, i: nat)
    requires c.Valid() && 0 < i < |arrivals| && Last(arrivals).Piece?
    requires ModularDelivers(c, arrivals[..i]).Some? && ModularDelivers(c, arrivals).Some?
    requires Counter(arrivals[i - 1].number) == Counter(Last(arrivals).number)
    ensures exists other: Arrival ::
              && other in arrivals[i..|arrivals| - 1] && other.Piece?
              && Counter(other.number) == Counter(Last(arrivals).number)
              && other.half.first != Last(arrivals).half.first
              && ModularDelivers(c, arrivals) == Some(Join(other.half, Last(arrivals).half))
  {
    hide ModularArrive, HeldNext, HeldAfter, Labelled, Counter, Slot;
    var front, early, a := Front(arrivals), arrivals[..i], Last(arrivals);
    var m, held := ModularAfter(c, front), HeldAfter(c, front);
    assert Last(early) == arrivals[i - 1] && front[..i] == early && front[i..] == arrivals[i..|arrivals| - 1];
    DeliversExactly(c, arrivals);
    var k :| SeemsOther(m, held, a, k);
    RunLabelled(c, front);
    LabelledSlot(c, m, held, k);
    SameSlot(c, held[k], arrivals[i - 1].number);
    RunLabelled(c, Front(early));
    SlotNext(c, ModularAfter(c, Front(early)), HeldAfter(c, Front(early)), Last(early), k);
    FilledSince(c, front, i, k);
    assert Piece(held[k], m.stored[k]) in arrivals[i..|arrivals| - 1];
  }

  lemma {:induction false} LabelledSlot(c: Config, m: Modular, held: Numbers, k: int)
    requires c.Valid() && Labelled(c, m, held) && k in held
    ensures Slot(c, held[k]) == k
  {
  }

  /**
   * The window cannot be dropped: when exactly one whole counter space of datagrams is lost, the
   * halves of two different datagrams are joined.
   */
  lemma {:induction false} WrapJoinsStrangers(c: Config, n: nat, x: Bytes, y: Bytes)
    requires c.Valid()
    ensures var arrivals := [Piece(n, Half(true, x)), Piece(n + COUNTERS, Half(false, y))];
            && !Windowed(c, arrivals)
            && ModularDelivers(c, arrivals) == Some(x + y)
            && ReferenceDelivers(c, arrivals) == None
  {
    var one := [Piece(n, Half(true, x))];
    var b := Piece(n + COUNTERS, Half(false, y));
    assert [one[0], b][..1] == one;
    AfterOne(c, n, Half(true, x));
    BlocksPerWrap(c, n);
    assert ModularArrive(c, ModularAfter(c, one), b).1 == Some(x + y);
    assert ReferenceArrive(c, ReferenceAfter(c, one), b).1 == None;
  }

  /**
   * Nor is a shorter burst harmless: the first datagram after it is taken for a late one, which moves nothing on,
   * and then the next half with the right counter is joined.
   */
  lemma {:induction false} LateThenJoinsStrangers(c: Config, n: nat, x: Bytes, y: Bytes)
    requires c.Valid() && c.reorderBlocks > 2
    ensures var arrivals := [Piece(n, Half(true, x)), Whole(n + COUNTERS - c.bufsize),
                             Piece(n + COUNTERS, Half(false, y))];
            && ModularDelivers(c, arrivals) == Some(x + y)
            && ReferenceAfter(c, Front(arrivals)).stored == map[]
  {
    var one, late, b := [Piece(n, Half(true, x))], Whole(n + COUNTERS - c.bufsize), Piece(n + COUNTERS, Half(false, y));
    assert Front([one[0], late, b]) == one + [late] && Front(one + [late]) == one;
    AfterOne(c, n, Half(true, x));
    BlocksPerWrap(c, n);
    LayoutBlocks(c, n + COUNTERS);
    BlockStep(c, late.number);
    AdvanceCases(c, ModularAfter(c, one), Block(c, n + COUNTERS), late.number);
    assert ModularAfter(c, one + [late]) == ModularAfter(c, one);
    assert ModularArrive(c, ModularAfter(c, one), b).1 == Some(x + y);
    assert ReferenceAfter(c, one + [late]).stored == map[];
  }
}
