/**
 * What the receiver of split datagrams computes.  Two machines are defined over the same arrivals:
 * the modular one sees only the 14-bit counter of each datagram and keeps pieces in a table with one
 * entry per counter modulo the buffer size; the reference one sees unbounded datagram numbers and
 * keeps pieces under those.  The first refines the second as long as arrivals stay in a window.
 */
module Reassembly {
  import opened Common
  import opened Arithmetic

  const COUNTERS := 16384

  /** The sizes a receive buffer is built with: blocks of half the buffer size, and how many there are. */
  datatype Config = Config(bufsize: nat, blockSize: nat, nblocks: nat, reorderBlocks: nat) {
    predicate Valid() {
      && blockSize > 0
      && bufsize == 2 * blockSize && bufsize <= 8192
      && Times(blockSize, nblocks) == COUNTERS
      && 4 <= nblocks && nblocks % 2 == 0
      && 2 <= reorderBlocks && 2 * reorderBlocks <= nblocks
    }
  }

  /** The buffer sizes and reorder limits an application may ask for. */
  predicate Permitted(bufsize: nat, reorderLimit: nat) {
    && (bufsize == 64 || bufsize == 128 || bufsize == 256 || bufsize == 512 || bufsize == 1024
        || bufsize == 2048 || bufsize == 4096 || bufsize == 8192)
    && bufsize <= reorderLimit <= 8192
  }

  /** The reorder limit is rounded up to whole blocks. */
  function MakeConfig(bufsize: nat, reorderLimit: nat): (c: Config)
    requires Permitted(bufsize, reorderLimit)
    ensures c.Valid() && c.bufsize == bufsize
    ensures (c.reorderBlocks - 1) * c.blockSize < reorderLimit <= c.reorderBlocks * c.blockSize
  {
    var bs := bufsize / 2;
    ConfigSizes(bufsize, reorderLimit);
    TimesIsProduct(bs, COUNTERS / bs);
    Config(bufsize, bs, COUNTERS / bs, (reorderLimit + bs - 1) / bs)
  }

  lemma {:induction false} ConfigSizes(bufsize: nat, reorderLimit: nat)
    requires Permitted(bufsize, reorderLimit)
    ensures var bs := bufsize / 2;
            var nb := COUNTERS / bs;
            var rb := (reorderLimit + bs - 1) / bs;
            && bufsize == 2 * bs && bufsize <= 8192 && bs * nb == COUNTERS && 4 <= nb && nb % 2 == 0
            && 2 <= rb && 2 * rb <= nb && (rb - 1) * bs < reorderLimit <= rb * bs
  {
    if bufsize == 64 {
      assert bufsize / 2 == 32 && COUNTERS / 32 == 512;
      RoundedUp(32, 512, reorderLimit);
    } else if bufsize == 128 {
      assert bufsize / 2 == 64 && COUNTERS / 64 == 256;
      RoundedUp(64, 256, reorderLimit);
    } else if bufsize == 256 {
      assert bufsize / 2 == 128 && COUNTERS / 128 == 128;
      RoundedUp(128, 128, reorderLimit);
    } else if bufsize == 512 {
      assert bufsize / 2 == 256 && COUNTERS / 256 == 64;
      RoundedUp(256, 64, reorderLimit);
    } else if bufsize == 1024 {
      assert bufsize / 2 == 512 && COUNTERS / 512 == 32;
      RoundedUp(512, 32, reorderLimit);
    } else if bufsize == 2048 {
      assert bufsize / 2 == 1024 && COUNTERS / 1024 == 16;
      RoundedUp(1024, 16, reorderLimit);
    } else if bufsize == 4096 {
      assert bufsize / 2 == 2048 && COUNTERS / 2048 == 8;
      RoundedUp(2048, 8, reorderLimit);
    } else {
      assert bufsize / 2 == 4096 && COUNTERS / 4096 == 4;
      RoundedUp(4096, 4, reorderLimit);
    }
  }

  lemma {:induction false} RoundedUp(bs: nat, nb: nat, limit: nat)
    requires bs > 0 && bs * nb == COUNTERS && nb % 2 == 0 && 2 * bs <= limit <= 8192
    ensures var rb := (limit + bs - 1) / bs;
            2 <= rb && 2 * rb <= nb && (rb - 1) * bs < limit <= rb * bs
  {
    var x := limit + bs - 1;
    var rb := x / bs;
    assert x == rb * bs + x % bs;
    assert (rb - 1) * bs == rb * bs - bs;
    if rb < 2 {
      MulMonotone(rb, 1, bs);
    }
    var h := nb / 2;
    assert bs * (2 * h) == 2 * (h * bs);
    if rb > h {
      MulMonotone(h, rb - 1, bs);
    }
  }

  /** The block of a datagram number or counter. */
  function Block(c: Config, n: int): int
    requires c.Valid()
  {
    n / c.blockSize
  }

  function Slot(c: Config, n: int): int
    requires c.Valid()
  {
    n % c.bufsize
  }

  /** Which half of the slots a slot is in. */
  function SlotHalf(c: Config, slot: int): int
    requires c.Valid()
  {
    slot / c.blockSize
  }

  /** A block number modulo the number of blocks in the counter space. */
  function Wrap(c: Config, block: int): (w: nat)
    requires c.Valid()
    ensures w < c.nblocks
  {
    block % c.nblocks
  }

  function Counter(n: nat): nat {
    n % COUNTERS
  }

  /** One half of a split datagram. */
  datatype Half = Half(first: bool, data: Bytes)

  /** The two halves in the order they had in the datagram. */
  function Join(held: Half, other: Half): Bytes {
    if held.first then held.data + other.data else other.data + held.data
  }

  /** A received datagram: a piece of a split one, or a whole one, which only moves the blocks on. */
  datatype Arrival = Piece(number: nat, half: Half) | Whole(number: nat)

  // ---------------------------------------------------------------------------------------------
  // The modular machine
  // ---------------------------------------------------------------------------------------------

  datatype Modular = Modular(newest: Option<int>, stored: map<int, Half>)

  const EMPTY_MODULAR := Modular(None, map[])

  function WithoutHalf(c: Config, stored: map<int, Half>, half: int): map<int, Half>
    requires c.Valid()
  {
    map k | k in stored && SlotHalf(c, k) != half :: stored[k]
  }

  /** Moves the blocks on to where `counter` is; None if it is late. */
  function Advance(c: Config, m: Modular, counter: nat): Option<Modular>
    requires c.Valid()
  {
    var block := Block(c, counter);
    if m.newest.None? then
      Some(m.(newest := Some(block)))
    else if Wrap(c, m.newest.value - block) <= 1 then
      Some(m)
    else if Wrap(c, m.newest.value - block) < c.reorderBlocks then
      None
    else
      var s1 := WithoutHalf(c, m.stored, block % 2);
      var s2 := if Wrap(c, block - m.newest.value) > 1 then WithoutHalf(c, s1, (block - 1) % 2) else s1;
      Some(Modular(Some(block), s2))
  }

  function ModularStep(c: Config, m: Modular, counter: nat, half: Option<Half>): (Modular, Option<Bytes>)
    requires c.Valid()
  {
    match Advance(c, m, counter)
    case None => (m, None)
    case Some(m') =>
      if half.None? then (m', None) else StoreOrPair(m', Slot(c, counter), half.value)
  }

  function StoreOrPair(m: Modular, slot: int, half: Half): (Modular, Option<Bytes>) {
    if slot !in m.stored then
      (m.(stored := m.stored[slot := half]), None)
    else if m.stored[slot].first == half.first then
      (m, None)
    else
      (m.(stored := m.stored - {slot}), Some(Join(m.stored[slot], half)))
  }

  function HalfOf(a: Arrival): Option<Half> {
    match a
    case Piece(_, half) => Some(half)
    case Whole(_) => None
  }

  function ModularArrive(c: Config, m: Modular, a: Arrival): (Modular, Option<Bytes>)
    requires c.Valid()
  {
    ModularStep(c, m, Counter(a.number), HalfOf(a))
  }

  // ---------------------------------------------------------------------------------------------
  // The reference machine
  // ---------------------------------------------------------------------------------------------

  datatype Reference = Reference(newest: Option<int>, stored: map<int, Half>)

  const EMPTY_REFERENCE := Reference(None, map[])

  /** Moves to `block` if it is newer, forgetting everything older than the block before it. */
  function MoveTo(c: Config, t: Reference, block: int): Reference
    requires c.Valid()
  {
    if t.newest.Some? && block <= t.newest.value then t
    else Reference(Some(block), map n | n in t.stored && Block(c, n) >= block - 1 :: t.stored[n])
  }

  function ReferenceArrive(c: Config, t: Reference, a: Arrival): (Reference, Option<Bytes>)
    requires c.Valid()
  {
    var block := Block(c, a.number);
    var t' := MoveTo(c, t, block);
    if a.Whole? || block < t'.newest.value - 1 then
      (t', None)
    else if a.number !in t'.stored then
      (t'.(stored := t'.stored[a.number := a.half]), None)
    else if t'.stored[a.number].first == a.half.first then
      (t', None)
    else
      (t'.(stored := t'.stored - {a.number}), Some(Join(t'.stored[a.number], a.half)))
  }

  // ---------------------------------------------------------------------------------------------
  // Refinement of one arrival
  // ---------------------------------------------------------------------------------------------

  /**
   * The arrival window: a datagram's block is fewer than reorderBlocks behind the newest one, and
   * at most nblocks - reorderBlocks ahead of it.
   */
  predicate InWindow(c: Config, newest: Option<int>, number: nat)
    requires c.Valid()
  {
    newest.Some? ==>
      && newest.value - Block(c, number) < c.reorderBlocks
      && Block(c, number) - newest.value <= c.nblocks - c.reorderBlocks
  }

  /** The datagram number that `slot` stands for in `block`. */
  function NumberAt(c: Config, block: int, slot: int): int
    requires c.Valid()
  {
    block * c.blockSize + slot % c.blockSize
  }

  /** Of the newest block and the one before it, the one that uses the half `slot` is in. */
  function BlockAt(c: Config, newest: int, slot: int): int
    requires c.Valid()
  {
    if SlotHalf(c, slot) == newest % 2 then newest else newest - 1
  }

  /** The slots hold exactly the stored pieces, all of which are in the newest block or the one before. */
  ghost predicate SameStored(c: Config, newest: int, slots: map<int, Half>, numbers: map<int, Half>)
    requires c.Valid()
  {
    && (forall n :: n in numbers ==>
          && 0 <= n && newest - 1 <= Block(c, n) <= newest
          && Slot(c, n) in slots && slots[Slot(c, n)] == numbers[n])
    && (forall k :: k in slots ==>
          && 0 <= k < c.bufsize
          && NumberAt(c, BlockAt(c, newest, k), k) in numbers
          && Slot(c, NumberAt(c, BlockAt(c, newest, k), k)) == k)
  }

  ghost predicate Refines(c: Config, m: Modular, t: Reference)
    requires c.Valid()
  {
    if t.newest.None? then
      m == EMPTY_MODULAR && t == EMPTY_REFERENCE
    else
      && t.newest.value >= 0
      && m.newest == Some(Wrap(c, t.newest.value))
      && SameStored(c, t.newest.value, m.stored, t.stored)
  }

  /** How numbers, counters, blocks and slots relate. */
  lemma {:induction false} Layout(c: Config, n: nat)
    requires c.Valid()
    ensures Block(c, n) >= 0
    ensures Block(c, Counter(n)) == Wrap(c, Block(c, n))
    ensures Slot(c, Counter(n)) == Slot(c, n)
    ensures 0 <= Slot(c, n) < c.bufsize
    ensures SlotHalf(c, Slot(c, n)) == Block(c, n) % 2
    ensures Wrap(c, Block(c, n)) % 2 == Block(c, n) % 2
  {
    LayoutBlocks(c, n);
    LayoutSlots(c, n);
  }

  lemma {:induction false} LayoutBlocks(c: Config, n: nat)
    requires c.Valid()
    ensures Block(c, n) >= 0
    ensures Block(c, Counter(n)) == Wrap(c, Block(c, n))
    ensures Wrap(c, Block(c, n)) % 2 == Block(c, n) % 2
  {
    TimesIsProduct(c.blockSize, c.nblocks);
    DivOfRemainder(n, c.blockSize, c.nblocks);
    ModOfMultiple(n / c.blockSize, 2, c.nblocks / 2);
  }

  lemma {:induction false} LayoutSlots(c: Config, n: nat)
    requires c.Valid()
    ensures Slot(c, Counter(n)) == Slot(c, n)
    ensures 0 <= Slot(c, n) < c.bufsize
    ensures SlotHalf(c, Slot(c, n)) == Block(c, n) % 2
  {
    var k := c.nblocks / 2;
    TimesIsProduct(c.blockSize, c.nblocks);
    assert c.bufsize * k == COUNTERS by {
      assert c.bufsize * k == c.blockSize * (2 * k);
    }
    ModOfMultiple(n, c.bufsize, k);
    DivOfRemainder(n, c.blockSize, 2);
  }

  /** A number in a held block is the one its slot stands for. */
  lemma {:induction false} SlotOfNumber(c: Config, newest: int, n: nat)
    requires c.Valid() && newest - 1 <= Block(c, n) <= newest
    ensures NumberAt(c, BlockAt(c, newest, Slot(c, n)), Slot(c, n)) == n
  {
    LayoutSlots(c, n);
    ModOfMultiple(n, c.blockSize, 2);
  }

  /** A slot's number, from the slot's side. */
  lemma {:induction false} NumberOfSlot(c: Config, block: int, slot: nat)
    requires c.Valid() && slot < c.bufsize && SlotHalf(c, slot) == block % 2
    ensures Slot(c, NumberAt(c, block, slot)) == slot
    ensures Block(c, NumberAt(c, block, slot)) == block
  {
    var bs := c.blockSize;
    var q := block / 2;
    DivModUnique(bs, block, slot % bs);
    assert block * bs + slot % bs == q * (2 * bs) + slot by {
      assert block == 2 * q + block % 2;
      assert block * bs == q * (2 * bs) + (block % 2) * bs;
      assert slot == bs * (slot / bs) + slot % bs;
    }
    DivModUnique(2 * bs, q, slot);
  }

  lemma {:induction false} HalfIndex(c: Config, slot: nat)
    requires c.Valid() && slot < c.bufsize
    ensures 0 <= SlotHalf(c, slot) <= 1
  {
    if slot < c.blockSize {
      DivModUnique(c.blockSize, 0, slot);
    } else {
      DivModUnique(c.blockSize, 1, slot - c.blockSize);
    }
  }

  /** Inside the window, modular distance tells held, late and newer blocks apart. */
  lemma {:induction false} Classify(c: Config, newest: int, block: int)
    requires c.Valid()
    requires newest - block < c.reorderBlocks && block - newest <= c.nblocks - c.reorderBlocks
    ensures var behind := Wrap(c, Wrap(c, newest) - Wrap(c, block));
            && (newest - 1 <= block <= newest ==> behind <= 1)
            && (block < newest - 1 ==> 1 < behind < c.reorderBlocks)
            && (block > newest ==> behind >= c.reorderBlocks)
    ensures block > newest ==> Wrap(c, Wrap(c, block) - Wrap(c, newest)) == block - newest
  {
    var nb := c.nblocks;
    ModOfDifference(newest, block, nb);
    ModOfDifference(block, newest, nb);
    if block <= newest {
      DivModUnique(nb, 0, newest - block);
    } else {
      DivModUnique(nb, -1, nb - (block - newest));
      DivModUnique(nb, 0, block - newest);
    }
  }

  /** What Advance does, in terms of true blocks. */
  lemma {:induction false} AdvanceCases(c: Config, m: Modular, newest: int, number: nat)
    requires c.Valid() && InWindow(c, Some(newest), number) && m.newest == Some(Wrap(c, newest))
    ensures var adv := Advance(c, m, Counter(number));
            var block := Block(c, number);
            var b := Wrap(c, block);
            if block < newest - 1 then adv == None
            else if block <= newest then adv == Some(m)
            else if block == newest + 1 then
              adv == Some(Modular(Some(b), WithoutHalf(c, m.stored, block % 2)))
            else
              adv == Some(Modular(Some(b), WithoutHalf(c, WithoutHalf(c, m.stored, b % 2), (b - 1) % 2)))
  {
    LayoutBlocks(c, number);
    Classify(c, newest, Block(c, number));
  }

  /**
   * The window is as wide as it can be: over less than a lap of the counters ahead, or a lap behind,
   * the machine that sees only counters judges an arrival as late, held or newer correctly exactly
   * when the arrival is in the window.
   */
  lemma {:induction false} WindowIsExact(c: Config, m: Modular, t: Reference, number: nat)
    requires c.Valid() && t.newest.Some? && m.newest == Some(Wrap(c, t.newest.value))
    requires 0 - c.nblocks <= Block(c, number) - t.newest.value < c.nblocks
    ensures var adv := Advance(c, m, Counter(number));
            var t' := MoveTo(c, t, Block(c, number));
            InWindow(c, t.newest, number) <==>
            && (adv.None? <==> Block(c, number) < t'.newest.value - 1)
            && (adv.Some? ==> adv.value.newest == Some(Wrap(c, t'.newest.value)))
  {
    if InWindow(c, t.newest, number) {
      AdvanceCases(c, m, t.newest.value, number);
    } else {
      LayoutBlocks(c, number);
      OutsideWindow(c, t.newest.value, Block(c, number));
      var adv, t' := Advance(c, m, Counter(number)), MoveTo(c, t, Block(c, number));
      if Block(c, number) > t.newest.value {
        assert t'.newest.value == Block(c, number);
        assert adv == None || adv == Some(m);
      } else {
        assert t' == t && adv.Some?;
      }
    }
  }

  /** Just outside the window, a newer block passes for late or held, and a late one for newer or held. */
  lemma {:induction false} OutsideWindow(c: Config, newest: int, block: int)
    requires c.Valid() && 0 - c.nblocks <= block - newest < c.nblocks
    requires !(newest - block < c.reorderBlocks && block - newest <= c.nblocks - c.reorderBlocks)
    ensures var behind := Wrap(c, Wrap(c, newest) - Wrap(c, block));
            if block > newest then behind < c.reorderBlocks && Wrap(c, newest) != Wrap(c, block)
            else behind <= 1 || behind >= c.reorderBlocks
  {
    var nb := c.nblocks;
    ModOfDifference(newest, block, nb);
    if block > newest {
      DivModUnique(nb, -1, nb - (block - newest));
      assert (0 - 0) % nb == 0;
    } else if newest - block < nb {
      DivModUnique(nb, 0, newest - block);
    } else {
      DivModUnique(nb, 1, 0);
    }
  }

  /** Moving the blocks on keeps the refinement, and a late arrival is late in both. */
  lemma {:induction false} AdvanceRefines(c: Config, m: Modular, t: Reference, number: nat)
    requires c.Valid() && Refines(c, m, t) && InWindow(c, t.newest, number)
    ensures var adv := Advance(c, m, Counter(number));
            var t' := MoveTo(c, t, Block(c, number));
            && (adv.None? <==> Block(c, number) < t'.newest.value - 1)
            && (adv.None? ==> t' == t)
            && (adv.Some? ==> Refines(c, adv.value, t'))
  {
    hide Block, Slot, SlotHalf, NumberAt, Wrap, SameStored;
    var adv, t' := Advance(c, m, Counter(number)), MoveTo(c, t, Block(c, number));
    if t.newest.None? {
      LayoutBlocks(c, number);
      assert adv.value.stored == map[] && t'.stored == map[];
      NothingStored(c, Block(c, number));
      return;
    }
    AdvanceCases(c, m, t.newest.value, number);
    if Block(c, number) > t.newest.value + 1 {
      JumpRefines(c, m, t, Block(c, number));
      assert Refines(c, adv.value, t');
    } else if Block(c, number) == t.newest.value + 1 {
      NextBlockRefines(c, m, t);
      assert Refines(c, adv.value, t');
    } else if adv.Some? {
      assert adv.value == m && t' == t;
    }
  }

  lemma {:induction false} NothingStored(c: Config, newest: int)
    requires c.Valid()
    ensures SameStored(c, newest, map[], map[])
  {
  }

  lemma {:induction false} JumpRefines(c: Config, m: Modular, t: Reference, block: int)
    requires c.Valid() && Refines(c, m, t) && t.newest.Some? && block > t.newest.value + 1
    ensures var b := Wrap(c, block);
            Refines(c, Modular(Some(b), WithoutHalf(c, WithoutHalf(c, m.stored, b % 2), (b - 1) % 2)),
                    MoveTo(c, t, block))
  {
    hide Block, Slot, SlotHalf, NumberAt, Wrap;
    BothHalves(c, m.stored, Wrap(c, block));
    var t' := MoveTo(c, t, block);
    assert t'.stored == map[];
  }

  lemma {:induction false} WithoutHalfKeys(c: Config, stored: map<int, Half>, half: int, k: int)
    requires c.Valid()
    ensures k in WithoutHalf(c, stored, half) <==> k in stored && SlotHalf(c, k) != half
  {
  }

  lemma {:induction false} OneHalf(c: Config, k: nat, block: int)
    requires c.Valid() && k < c.bufsize
    ensures SlotHalf(c, k) == block % 2 || SlotHalf(c, k) == (block - 1) % 2
  {
    HalfIndex(c, k);
  }

  /** Clearing both halves leaves nothing. */
  lemma {:induction false} BothHalves(c: Config, stored: map<int, Half>, block: int)
    requires c.Valid() && forall k :: k in stored ==> 0 <= k < c.bufsize
    ensures WithoutHalf(c, WithoutHalf(c, stored, block % 2), (block - 1) % 2) == map[]
  {
    var s1 := WithoutHalf(c, stored, block % 2);
    var s2 := WithoutHalf(c, s1, (block - 1) % 2);
    forall k
      ensures k !in s2
    {
      WithoutHalfKeys(c, s1, (block - 1) % 2, k);
      WithoutHalfKeys(c, stored, block % 2, k);
      if k in stored {
        OneHalf(c, k, block);
      }
    }
  }

  lemma {:induction false} NextBlockRefines(c: Config, m: Modular, t: Reference)
    requires c.Valid() && Refines(c, m, t) && t.newest.Some?
    ensures var T := t.newest.value + 1;
            Refines(c, Modular(Some(Wrap(c, T)), WithoutHalf(c, m.stored, T % 2)), MoveTo(c, t, T))
  {
    hide Block, Slot, SlotHalf, NumberAt, Wrap;
    var N, T := t.newest.value, t.newest.value + 1;
    var m' := Modular(Some(Wrap(c, T)), WithoutHalf(c, m.stored, T % 2));
    var t' := MoveTo(c, t, T);
    forall n | n in t'.stored
      ensures Slot(c, n) in m'.stored && m'.stored[Slot(c, n)] == t'.stored[n]
    {
      Layout(c, n);
    }
    forall k | k in m'.stored
      ensures NumberAt(c, BlockAt(c, T, k), k) in t'.stored && Slot(c, NumberAt(c, BlockAt(c, T, k), k)) == k
    {
      HalfIndex(c, k);
      NumberOfSlot(c, N, k);
    }
  }

  /**
   * Inside the window, an arrival has the same effect and delivers the same datagram in both
   * machines.
   */
  lemma {:induction false} ArriveRefines(c: Config, m: Modular, t: Reference, a: Arrival)
    requires c.Valid() && Refines(c, m, t) && InWindow(c, t.newest, a.number)
    ensures Refines(c, ModularArrive(c, m, a).0, ReferenceArrive(c, t, a).0)
    ensures ModularArrive(c, m, a).1 == ReferenceArrive(c, t, a).1
  {
    hide Block, Slot, SlotHalf, NumberAt, Wrap, Refines;
    AdvanceRefines(c, m, t, a.number);
    Layout(c, a.number);
    var adv := Advance(c, m, Counter(a.number));
    if adv.Some? && a.Piece? {
      var t' := MoveTo(c, t, Block(c, a.number));
      StoreRefines(c, adv.value, t', a);
    }
  }

  lemma {:induction false} StoreRefines(c: Config, m: Modular, t: Reference, a: Arrival)
    requires c.Valid() && Refines(c, m, t) && a.Piece?
    requires t.newest.Some? && t.newest.value - 1 <= Block(c, a.number) <= t.newest.value
    ensures var slot := Slot(c, a.number);
            && (slot in m.stored <==> a.number in t.stored)
            && (slot in m.stored ==> m.stored[slot] == t.stored[a.number])
            && Refines(c, m.(stored := m.stored[slot := a.half]), t.(stored := t.stored[a.number := a.half]))
            && Refines(c, m.(stored := m.stored - {slot}), t.(stored := t.stored - {a.number}))
  {
    hide Block, Slot, SlotHalf, NumberAt, Wrap;
    var slot := Slot(c, a.number);
    SlotOfNumber(c, t.newest.value, a.number);
    Layout(c, a.number);
    forall n | n in t.stored && Slot(c, n) == slot
      ensures n == a.number
    {
      SlotOfNumber(c, t.newest.value, n);
    }
    forall k | k in m.stored && NumberAt(c, BlockAt(c, t.newest.value, k), k) == a.number
      ensures k == slot
    {
      SlotAt(c, t.newest.value, k);
    }
  }

  lemma {:induction false} SlotAt(c: Config, newest: int, slot: nat)
    requires c.Valid() && slot < c.bufsize
    ensures Slot(c, NumberAt(c, BlockAt(c, newest, slot), slot)) == slot
  {
    HalfIndex(c, slot);
    NumberOfSlot(c, BlockAt(c, newest, slot), slot);
  }

  // ---------------------------------------------------------------------------------------------
  // What is joined, in or out of the window
  // ---------------------------------------------------------------------------------------------

  /** A counter is given by its block and slot. */
  lemma {:induction false} SameCounter(c: Config, n: nat, x: nat)
    requires c.Valid() && Slot(c, n) == Slot(c, x)
    ensures Counter(n) == Counter(x) <==> Wrap(c, Block(c, n)) == Wrap(c, Block(c, x))
  {
    LayoutBlocks(c, n);
    LayoutBlocks(c, x);
    CounterDigits(c, n);
    CounterDigits(c, x);
  }

  lemma {:induction false} CounterDigits(c: Config, n: nat)
    requires c.Valid()
    ensures Counter(n) == c.blockSize * Block(c, Counter(n)) + Slot(c, n) % c.blockSize
  {
    TimesIsProduct(c.blockSize, c.nblocks);
    ModOfMultiple(n, c.blockSize, c.nblocks);
    ModOfMultiple(n, c.blockSize, 2);
  }

  lemma {:induction false} SameSlot(c: Config, n: nat, x: nat)
    requires c.Valid() && Counter(n) == Counter(x)
    ensures Slot(c, n) == Slot(c, x)
  {
    LayoutSlots(c, n);
    LayoutSlots(c, x);
  }

  /** How many blocks a datagram seems to be behind the newest one. */
  function Behind(c: Config, newest: int, n: nat): nat
    requires c.Valid()
  {
    Wrap(c, newest - Block(c, Counter(n)))
  }

  /** Of the numbers with the same slot, those with the same counter are equally far behind, and no others if near. */
  lemma {:induction false} NearIsSame(c: Config, newest: int, n: nat, x: nat)
    requires c.Valid() && Slot(c, n) == Slot(c, x) && Behind(c, newest, n) <= 1
    ensures Behind(c, newest, x) <= 1 <==> Counter(n) == Counter(x)
  {
    hide Slot, Counter, Block;
    Layout(c, n);
    Layout(c, x);
    SameCounter(c, n, x);
    if Behind(c, newest, x) <= 1 {
      SameDistance(c, newest, Block(c, Counter(n)), Block(c, Counter(x)));
    }
  }

  lemma {:induction false} SameDistance(c: Config, newest: int, b: nat, d: nat)
    requires c.Valid() && b < c.nblocks && d < c.nblocks && b % 2 == d % 2
    requires Wrap(c, newest - b) <= 1 && Wrap(c, newest - d) <= 1
    ensures b == d
  {
    hide Wrap;
    WrapParity(c, newest - b);
    WrapParity(c, newest - d);
    SameParity(newest, b, d);
    SameWrap(c, newest, b, d);
  }

  lemma {:induction false} SameParity(x: int, b: int, d: int)
    requires b % 2 == d % 2
    ensures (x - b) % 2 == (x - d) % 2
  {
  }

  lemma {:induction false} WrapParity(c: Config, block: int)
    requires c.Valid()
    ensures Wrap(c, block) % 2 == block % 2
  {
    ModOfMultiple(block, 2, c.nblocks / 2);
  }

  lemma {:induction false} SameWrap(c: Config, newest: int, b: nat, d: nat)
    requires c.Valid() && b < c.nblocks && d < c.nblocks && Wrap(c, newest - b) == Wrap(c, newest - d)
    ensures b == d
  {
    var n := c.nblocks;
    ModOfDifference(newest - b, newest - d, n);
    DivModUnique(n, 0, 0);
    assert (d - b) % n == 0;
    if d > b {
      DivModUnique(n, 0, d - b);
    } else if d < b {
      DivModUnique(n, -1, n + d - b);
    }
  }

  // ---- which datagrams the pieces held are of

  /** The true number of the datagram in each slot, known to nobody. */
  type Numbers = map<int, nat>

  /** The numbers are those of the slots used, and all seem to be in the newest block or the one before it. */
  ghost predicate Labelled(c: Config, m: Modular, held: Numbers)
    requires c.Valid()
  {
    && held.Keys == m.stored.Keys
    && (m.newest.None? ==> m.stored == map[])
    && (m.newest.Some? ==> 0 <= m.newest.value < c.nblocks)
    && forall k :: k in held ==> Slot(c, held[k]) == k && Behind(c, m.newest.value, held[k]) <= 1
  }

  /** What is held after an arrival. */
  ghost function HeldNext(c: Config, m: Modular, held: Numbers, a: Arrival): Numbers
    requires c.Valid()
  {
    match Advance(c, m, Counter(a.number))
    case None => held
    case Some(m') =>
      var kept := map k | k in held && k in m'.stored :: held[k];
      var slot := Slot(c, Counter(a.number));
      if a.Whole? then kept
      else if slot !in m'.stored then kept[slot := a.number]
      else if m'.stored[slot].first == a.half.first then kept
      else kept - {slot}
  }

  /** Moving the blocks on leaves only what then seems near, wherever the arrival truly is. */
  lemma {:induction false} AdvanceLabelled(c: Config, m: Modular, held: Numbers, number: nat)
    requires c.Valid() && Labelled(c, m, held)
    ensures var adv := Advance(c, m, Counter(number));
            adv.Some? ==>
              && Labelled(c, adv.value, map k | k in held && k in adv.value.stored :: held[k])
              && adv.value.newest.Some? && Behind(c, adv.value.newest.value, number) <= 1
  {
    hide Block, Slot, SlotHalf, Counter, Behind;
    Layout(c, number);
    var block := Block(c, Counter(number));
    BehindSelf(c, number);
    if m.newest.None? {
    } else if Behind(c, m.newest.value, number) <= 1 {
      assert (map k | k in held && k in m.stored :: held[k]) == held;
      BehindIs(c, m.newest.value, number);
    } else {
      BehindIs(c, m.newest.value, number);
      var s1 := WithoutHalf(c, m.stored, block % 2);
      if Wrap(c, block - m.newest.value) > 1 {
        forall k | k in m.stored
          ensures 0 <= k < c.bufsize
        {
          LayoutSlots(c, held[k]);
        }
        BothHalves(c, m.stored, block);
      } else {
        forall k | k in held && k in s1
          ensures Behind(c, block, held[k]) <= 1
        {
          WithoutHalfKeys(c, m.stored, block % 2, k);
          NextBehind(c, m.newest.value, block, held[k]);
        }
      }
    }
  }

  lemma {:induction false} BehindIs(c: Config, newest: int, n: nat)
    requires c.Valid()
    ensures Behind(c, newest, n) == Wrap(c, newest - Block(c, Counter(n)))
  {
  }

  lemma {:induction false} BehindSelf(c: Config, n: nat)
    requires c.Valid()
    ensures Behind(c, Block(c, Counter(n)), n) == 0
  {
    DivModUnique(c.nblocks, 0, 0);
  }

  /** Of what was near, the half that the next block does not use is near that too. */
  lemma {:induction false} NextBehind(c: Config, newest: int, block: int, n: nat)
    requires c.Valid() && 0 <= newest < c.nblocks && 0 <= block < c.nblocks
    requires Wrap(c, block - newest) <= 1 && Wrap(c, newest - block) > 1
    requires Behind(c, newest, n) <= 1 && SlotHalf(c, Slot(c, n)) != block % 2
    ensures Behind(c, block, n) <= 1
  {
    hide Slot, SlotHalf, Block, Counter, Wrap;
    Layout(c, n);
    var w := Block(c, Counter(n));
    NextDistance(c, newest, block, w);
    WrapParity(c, block - w);
    OddDistance(block, w);
  }

  lemma {:induction false} NextDistance(c: Config, newest: int, block: int, w: int)
    requires c.Valid() && Wrap(c, block - newest) <= 1 && Wrap(c, newest - block) > 1 && Wrap(c, newest - w) <= 1
    ensures Wrap(c, block - w) == 1 + Wrap(c, newest - w)
  {
    NextIsOne(newest, block, c.nblocks);
    StepAndDistance(block - newest, newest - w, c.nblocks);
  }

  lemma {:induction false} OddDistance(x: int, y: int)
    requires x % 2 != y % 2
    ensures (x - y) % 2 == 1
  {
  }

  lemma {:induction false} NextIsOne(newest: int, block: int, d: nat)
    requires d > 2 && (block - newest) % d <= 1 && (newest - block) % d > 1
    ensures (block - newest) % d == 1
  {
    if (block - newest) % d == 0 {
      var q := (block - newest) / d;
      assert newest - block == (-q) * d + 0 by { assert block - newest == d * q; }
      DivModUnique(d, -q, 0);
    }
  }

  lemma {:induction false} StepAndDistance(x: int, y: int, d: nat)
    requires d > 2 && x % d == 1 && y % d <= 1
    ensures (x + y) % d == 1 + y % d
  {
    var q, p := x / d, y / d;
    assert x + y == (q + p) * d + (1 + y % d) by {
      assert x == d * q + 1 && y == d * p + y % d;
    }
    DivModUnique(d, q + p, 1 + y % d);
  }

  lemma {:induction false} ArriveLabelled(c: Config, m: Modular, held: Numbers, a: Arrival)
    requires c.Valid() && Labelled(c, m, held)
    ensures Labelled(c, ModularArrive(c, m, a).0, HeldNext(c, m, held, a))
    ensures ModularArrive(c, m, a).0.newest.Some?
  {
    hide Block, SlotHalf, Counter, Behind, Slot, Wrap;
    AdvanceLabelled(c, m, held, a.number);
    LayoutSlots(c, a.number);
  }

  /** A piece held that has the counter of the arriving one and is the other half of its datagram, or seems so. */
  ghost predicate SeemsOther(m: Modular, held: Numbers, a: Arrival, k: int) {
    && k in held && k in m.stored && Counter(held[k]) == Counter(a.number)
    && a.Piece? && m.stored[k].first != a.half.first
  }

  /**
   * Whatever arrives, from however far off, a datagram is delivered exactly if a piece held has the arrival's
   * counter and is the opposite half; what is delivered is the join of the two.  So halves of different datagrams
   * are joined exactly if that piece is of another datagram, whole laps of the counters away.
   */
  lemma {:induction false} JoinsExactly(c: Config, m: Modular, held: Numbers, a: Arrival)
    requires c.Valid() && Labelled(c, m, held) && a.Piece?
    ensures var r := ModularArrive(c, m, a).1;
            && (r.Some? <==> exists k :: SeemsOther(m, held, a, k))
            && (forall k :: SeemsOther(m, held, a, k) ==> r == Some(Join(m.stored[k], a.half)))
  {
    hide Block, Slot, SlotHalf, Wrap, Counter, Behind;
    var r, slot := ModularArrive(c, m, a).1, Slot(c, a.number);
    LayoutSlots(c, a.number);
    forall k | SeemsOther(m, held, a, k)
      ensures r == Some(Join(m.stored[k], a.half))
    {
      SameSlot(c, held[k], a.number);
      NearIsSame(c, m.newest.value, held[k], a.number);
      BehindIs(c, m.newest.value, a.number);
    }
    if r.Some? {
      DeliveredSlot(c, m, held, a);
      NearIsSame(c, m.newest.value, held[slot], a.number);
      assert SeemsOther(m, held, a, slot);
    }
  }

  /** A delivery means that the arrival passed for held and that its slot held the opposite half. */
  lemma {:induction false} DeliveredSlot(c: Config, m: Modular, held: Numbers, a: Arrival)
    requires c.Valid() && Labelled(c, m, held) && a.Piece? && ModularArrive(c, m, a).1.Some?
    ensures var slot := Slot(c, a.number);
            && slot in m.stored && m.stored[slot].first != a.half.first
            && m.newest.Some? && Behind(c, m.newest.value, a.number) <= 1
  {
    hide Block, SlotHalf, Wrap, Counter, Slot, WithoutHalf;
    Layout(c, a.number);
    var block, slot := Block(c, Counter(a.number)), Slot(c, a.number);
    WithoutHalfKeys(c, m.stored, block % 2, slot);
    WithoutHalfKeys(c, WithoutHalf(c, m.stored, block % 2), (block - 1) % 2, slot);
  }
}
