/**
 * The receive buffer itself: a slot table over a pool of pieces whose unused entries are chained
 * through their own indices.  Every method is tied to the modular machine of Reassembly.
 */
module RotatingBuffers {
  import opened Common
  import opened Arithmetic
  import opened Reassembly

  const NO_PIECE: nat := 0xffff

  datatype PoolEntry = PoolEntry(data: Bytes, nextFree: nat, first: bool)

  /** Where a pool entry is in use: by a slot, or at a position of the free list. */
  datatype Use = InSlot(slot: nat) | OnFreeList(index: nat)

  /** The number of non-empty slots in [lo, hi). */
  function Occupied(slots: seq<nat>, lo: nat, hi: nat): nat
    requires lo <= hi <= |slots|
  {
    if lo == hi then 0 else Occupied(slots, lo, hi - 1) + if slots[hi - 1] != 0 then 1 else 0
  }

  lemma {:induction false} OccupiedUpdate(slots: seq<nat>, lo: nat, hi: nat, s: nat, v: nat)
    requires lo <= hi <= |slots| && s < |slots|
    ensures Occupied(slots[s := v], lo, hi) ==
            Occupied(slots, lo, hi) +
            if lo <= s < hi then (if v != 0 then 1 else 0) - (if slots[s] != 0 then 1 else 0) else 0
  {
    if lo < hi {
      OccupiedUpdate(slots, lo, hi - 1, s, v);
    }
  }

  lemma {:induction false} OccupiedBound(slots: seq<nat>, lo: nat, hi: nat)
    requires lo <= hi <= |slots|
    ensures Occupied(slots, lo, hi) <= hi - lo
    ensures forall s :: lo <= s < hi && slots[s] == 0 ==> Occupied(slots, lo, hi) < hi - lo
    ensures forall s :: lo <= s < hi && slots[s] != 0 ==> Occupied(slots, lo, hi) > 0
  {
    if lo < hi {
      OccupiedBound(slots, lo, hi - 1);
    }
  }

  lemma {:induction false} OccupiedSplit(slots: seq<nat>, lo: nat, mid: nat, hi: nat)
    requires lo <= mid <= hi <= |slots|
    ensures Occupied(slots, lo, hi) == Occupied(slots, lo, mid) + Occupied(slots, mid, hi)
  {
    if mid < hi {
      OccupiedSplit(slots, lo, mid, hi - 1);
    }
  }

  /**
   * Following the links from `head` visits the entries of `free`, last to first, and ends.  Entries
   * are named by their handle, which is their index plus one, as in the slots.
   */
  ghost predicate Chain(pool: seq<PoolEntry>, head: nat, free: seq<nat>)
    decreases free
  {
    if free == [] then head == NO_PIECE
    else
      && head + 1 == free[|free| - 1] && head < |pool|
      && Chain(pool, pool[head].nextFree, free[..|free| - 1])
  }

  lemma {:induction false} ChainKept(pool: seq<PoolEntry>, pool': seq<PoolEntry>, head: nat, free: seq<nat>)
    requires Chain(pool, head, free) && |pool| <= |pool'|
    requires forall i :: 0 <= i < |free| && 0 < free[i] <= |pool| ==> pool'[free[i] - 1] == pool[free[i] - 1]
    ensures Chain(pool', head, free)
    decreases free
  {
    if free != [] {
      ChainKept(pool, pool', pool[head].nextFree, free[..|free| - 1]);
    }
  }

  /** Each of n pool entries is used exactly once: by one slot, or at one position of the free list. */
  ghost predicate Used(slots: seq<nat>, n: nat, free: seq<nat>, uses: seq<Use>) {
    && |uses| == n + 1
    && (forall i :: 0 <= i < |free| ==> 0 < free[i] <= n && uses[free[i]] == OnFreeList(i))
    && (forall s :: 0 <= s < |slots| && slots[s] != 0 ==> slots[s] <= n && uses[slots[s]] == InSlot(s))
    && (forall p :: 0 < p <= n && uses[p].InSlot? ==> uses[p].slot < |slots| && slots[uses[p].slot] == p)
    && (forall p :: 0 < p <= n && uses[p].OnFreeList? ==> uses[p].index < |free| && free[uses[p].index] == p)
  }

  /**
   * The slots and the free list partition the pool.  `free` lists the free entries, the most
   * recently released last; each links to the one released before it and holds no data.  There is
   * never more than one entry per slot.
   */
  ghost predicate Linked(slots: seq<nat>, pool: seq<PoolEntry>, freeHead: nat, free: seq<nat>, uses: seq<Use>) {
    && |pool| <= |slots| <= 8192
    && Used(slots, |pool|, free, uses)
    && Chain(pool, freeHead, free)
    && (forall i :: 0 <= i < |free| ==> pool[free[i] - 1].data == [])
    && |pool| == |free| + Occupied(slots, 0, |slots|)
  }

  function HalfIn(e: PoolEntry): Half {
    Half(e.first, e.data)
  }

  /** The pieces held, by slot. */
  ghost function Contents(slots: seq<nat>, pool: seq<PoolEntry>): map<int, Half>
    requires forall s :: 0 <= s < |slots| ==> slots[s] <= |pool|
  {
    map s | 0 <= s < |slots| && slots[s] != 0 :: HalfIn(pool[slots[s] - 1])
  }

  lemma {:induction false} UsedStoreNew(slots: seq<nat>, n: nat, uses: seq<Use>, s: nat)
    requires Used(slots, n, [], uses) && s < |slots| && slots[s] == 0
    ensures Used(slots[s := n + 1], n + 1, [], uses + [InSlot(s)])
  {
  }

  lemma {:induction false} UsedStoreReused(slots: seq<nat>, n: nat, free: seq<nat>, uses: seq<Use>, s: nat)
    requires Used(slots, n, free, uses) && free != [] && s < |slots| && slots[s] == 0
    ensures var p := free[|free| - 1];
            Used(slots[s := p], n, free[..|free| - 1], uses[p := InSlot(s)])
  {
  }

  lemma {:induction false} UsedRelease(slots: seq<nat>, n: nat, free: seq<nat>, uses: seq<Use>, s: nat)
    requires Used(slots, n, free, uses) && s < |slots| && slots[s] != 0
    ensures Used(slots[s := 0], n, free + [slots[s]], uses[slots[s] := OnFreeList(|free|)])
  {
  }

  lemma {:induction false} ContentsStore(slots: seq<nat>, pool: seq<PoolEntry>, free: seq<nat>, uses: seq<Use>, s: nat,
                                         pool': seq<PoolEntry>, p: nat)
    requires Used(slots, |pool|, free, uses) && s < |slots| && 0 < p <= |pool'| && |pool| <= |pool'|
    requires forall i :: 0 <= i < |pool| && i + 1 != p ==> pool'[i] == pool[i]
    requires p <= |pool| ==> uses[p].OnFreeList?
    ensures Contents(slots[s := p], pool') == Contents(slots, pool)[s := HalfIn(pool'[p - 1])]
  {
  }

  lemma {:induction false} ContentsRelease(slots: seq<nat>, pool: seq<PoolEntry>, free: seq<nat>, uses: seq<Use>,
                                           s: nat, e: PoolEntry)
    requires Used(slots, |pool|, free, uses) && s < |slots| && slots[s] != 0
    ensures Contents(slots[s := 0], pool[slots[s] - 1 := e]) == Contents(slots, pool) - {s}
  {
  }

  lemma {:induction false} UsedFacts(slots: seq<nat>, n: nat, free: seq<nat>, uses: seq<Use>)
    requires Used(slots, n, free, uses)
    ensures |uses| == n + 1
    ensures forall i :: 0 <= i < |free| ==> 0 < free[i] <= n
    ensures forall i, j :: 0 <= i < j < |free| ==> free[i] != free[j]
    ensures forall s :: 0 <= s < |slots| ==> slots[s] <= n
    ensures forall s, i :: 0 <= s < |slots| && 0 <= i < |free| ==> slots[s] != free[i]
    ensures forall i :: 0 <= i < |free| ==> uses[free[i]].OnFreeList?
  {
  }

  /** Storing a piece in an empty slot with a new pool entry. */
  lemma {:induction false} StoreNew(slots: seq<nat>, pool: seq<PoolEntry>, freeHead: nat, uses: seq<Use>, s: nat,
                                    e: PoolEntry)
    requires Linked(slots, pool, freeHead, [], uses) && s < |slots| <= 8192 && slots[s] == 0
    ensures var slots', pool' := slots[s := |pool| + 1], pool + [e];
            && Linked(slots', pool', freeHead, [], uses + [InSlot(s)])
            && Contents(slots', pool') == Contents(slots, pool)[s := HalfIn(e)]
  {
    hide Used, Contents;
    UsedFacts(slots, |pool|, [], uses);
    UsedStoreNew(slots, |pool|, uses, s);
    ContentsStore(slots, pool, [], uses, s, pool + [e], |pool| + 1);
    OccupiedUpdate(slots, 0, |slots|, s, |pool| + 1);
    OccupiedBound(slots, 0, |slots|);
  }

  /** Storing a piece in an empty slot with the entry at the head of the free list. */
  lemma {:induction false} StoreReused(slots: seq<nat>, pool: seq<PoolEntry>, freeHead: nat, free: seq<nat>,
                                       uses: seq<Use>, s: nat, e: PoolEntry)
    requires free != [] && Linked(slots, pool, freeHead, free, uses) && s < |slots| && slots[s] == 0
    ensures var slots', pool' := slots[s := freeHead + 1], pool[freeHead := e];
            && Linked(slots', pool', pool[freeHead].nextFree, free[..|free| - 1], uses[freeHead + 1 := InSlot(s)])
            && Contents(slots', pool') == Contents(slots, pool)[s := HalfIn(e)]
  {
    hide Used, Contents;
    UsedFacts(slots, |pool|, free, uses);
    UsedStoreReused(slots, |pool|, free, uses, s);
    ContentsStore(slots, pool, free, uses, s, pool[freeHead := e], freeHead + 1);
    ChainKept(pool, pool[freeHead := e], pool[freeHead].nextFree, free[..|free| - 1]);
    OccupiedUpdate(slots, 0, |slots|, s, freeHead + 1);
  }

  datatype Taken = Taken(pool: seq<PoolEntry>, freeHead: nat, free: seq<nat>, index: nat)

  /** The entry to use next: the head of the free list, or a new one if that is empty. */
  function TakeEntry(pool: seq<PoolEntry>, freeHead: nat, free: seq<nat>): Taken {
    if free == [] || freeHead >= |pool| then Taken(pool + [PoolEntry([], NO_PIECE, false)], freeHead, free, |pool|)
    else Taken(pool, pool[freeHead].nextFree, free[..|free| - 1], freeHead)
  }

  function UsesTaken(free: seq<nat>, uses: seq<Use>, s: nat): seq<Use> {
    if free == [] || free[|free| - 1] >= |uses| then uses + [InSlot(s)] else uses[free[|free| - 1] := InSlot(s)]
  }

  /** Storing a piece in an empty slot, in whichever entry is used next. */
  lemma {:induction false} StoreTaken(slots: seq<nat>, pool: seq<PoolEntry>, freeHead: nat, free: seq<nat>,
                                      uses: seq<Use>, s: nat, half: Half)
    requires Linked(slots, pool, freeHead, free, uses) && s < |slots| && slots[s] == 0
    ensures var t := TakeEntry(pool, freeHead, free);
            && t.index < |t.pool|
            && var pool' := t.pool[t.index := t.pool[t.index].(data := half.data, first := half.first)];
               var slots' := slots[s := t.index + 1];
               && Linked(slots', pool', t.freeHead, t.free, UsesTaken(free, uses, s))
               && Contents(slots', pool') == Contents(slots, pool)[s := half]
  {
    hide Contents, Used, Occupied;
    UsedFacts(slots, |pool|, free, uses);
    if free == [] {
      var e := PoolEntry(half.data, NO_PIECE, half.first);
      StoreNew(slots, pool, freeHead, uses, s, e);
      assert (pool + [PoolEntry([], NO_PIECE, false)])[|pool| := e] == pool + [e];
    } else {
      StoreReused(slots, pool, freeHead, free, uses, s, PoolEntry(half.data, pool[freeHead].nextFree, half.first));
    }
  }

  /** Emptying a slot puts its pool entry at the head of the free list. */
  lemma {:induction false} Release(slots: seq<nat>, pool: seq<PoolEntry>, freeHead: nat, free: seq<nat>, uses: seq<Use>,
                                   s: nat)
    requires Linked(slots, pool, freeHead, free, uses) && s < |slots| && slots[s] != 0
    ensures var index := slots[s] - 1;
            var slots', pool' := slots[s := 0], pool[index := PoolEntry([], freeHead, pool[index].first)];
            && Linked(slots', pool', index, free + [index + 1], uses[index + 1 := OnFreeList(|free|)])
            && Contents(slots', pool') == Contents(slots, pool) - {s}
  {
    hide Used, Contents;
    UsedFacts(slots, |pool|, free, uses);
    var index := slots[s] - 1;
    var pool' := pool[index := PoolEntry([], freeHead, pool[index].first)];
    UsedRelease(slots, |pool|, free, uses, s);
    ContentsRelease(slots, pool, free, uses, s, pool'[index]);
    ChainKept(pool, pool', freeHead, free);
    assert (free + [index + 1])[..|free|] == free;
    OccupiedUpdate(slots, 0, |slots|, s, 0);
  }

  lemma {:induction false} EmptySlots(slots: seq<nat>, pool: seq<PoolEntry>, n: nat)
    requires slots == []
    ensures Occupied(seq(n, _ => 0), 0, n) == 0
    ensures Contents(seq(n, _ => 0), pool) == Contents(slots, pool) == map[]
  {
    OccupiedNone(seq(n, _ => 0), 0, n);
  }

  lemma {:induction false} OccupiedNone(slots: seq<nat>, lo: nat, hi: nat)
    requires lo <= hi <= |slots| && forall s :: lo <= s < hi ==> slots[s] == 0
    ensures Occupied(slots, lo, hi) == 0
  {
    if lo < hi {
      OccupiedNone(slots, lo, hi - 1);
    }
  }

  class RotatingBuffer {
    const cfg: Config
    var newest: Option<int>
    var held: seq<nat>
    var slots: seq<nat>
    var pool: seq<PoolEntry>
    var freeHead: nat
    ghost var free: seq<nat>
    ghost var uses: seq<Use>

    /** Everything but the per-half counts, which are out of step while a half is being cleared. */
    ghost predicate TableValid()
      reads this
    {
      && cfg.Valid()
      && (slots == [] || |slots| == cfg.bufsize)
      && (slots != [] ==> newest.Some?)
      && Linked(slots, pool, freeHead, free, uses)
    }

    ghost predicate Counted(half: nat)
      requires cfg.Valid() && half < 2 && |held| == 2
      reads this
    {
      held[half] ==
      if |slots| == cfg.bufsize then Occupied(slots, HalfStart(cfg, half), HalfStart(cfg, half) + cfg.blockSize)
      else 0
    }

    ghost predicate Valid()
      reads this
    {
      TableValid() && |held| == 2 && Counted(0) && Counted(1)
    }

    /** The state of the modular machine that the buffer represents. */
    ghost function State(): Modular
      requires TableValid()
      reads this
    {
      Modular(newest, Contents(slots, pool))
    }

    constructor (bufsize: nat, reorderLimit: nat)
      requires Permitted(bufsize, reorderLimit)
      ensures Valid() && State() == EMPTY_MODULAR && cfg == MakeConfig(bufsize, reorderLimit)
    {
      cfg := MakeConfig(bufsize, reorderLimit);
      newest := None;
      held := [0, 0];
      slots := [];
      pool := [];
      freeHead := NO_PIECE;
      free := [];
      uses := [OnFreeList(0)];
      new;
      assert Contents(slots, pool) == map[];
    }

    method TakePiece() returns (index: nat)
      requires TableValid()
      modifies this`pool, this`freeHead, this`free
      ensures Taken(pool, freeHead, free, index) == TakeEntry(old(pool), old(freeHead), old(free))
    {
      hide Used, Occupied;
      if freeHead == NO_PIECE {
        pool := pool + [PoolEntry([], NO_PIECE, false)];
        return |pool| - 1;
      }
      index := freeHead;
      freeHead := pool[index].nextFree;
      free := free[..|free| - 1];
    }

    method ReleasePiece(index: nat)
      requires index < |pool|
      modifies this`pool, this`freeHead, this`free
      ensures pool == old(pool[index := PoolEntry([], freeHead, pool[index].first)])
      ensures freeHead == index && free == old(free) + [index + 1]
    {
      pool := pool[index := pool[index].(data := [])];
      pool := pool[index := pool[index].(nextFree := freeHead)];
      freeHead := index;
      free := free + [index + 1];
    }

    /** Releases the piece a slot refers to. */
    method EmptySlot(s: nat)
      requires TableValid() && s < |slots| && slots[s] != 0
      modifies this`slots, this`pool, this`freeHead, this`free, this`uses
      ensures TableValid() && slots == old(slots)[s := 0]
      ensures State() == old(State()).(stored := old(State()).stored - {s})
    {
      hide Used, Contents, Chain, Occupied;
      Release(slots, pool, freeHead, free, uses, s);
      UsedFacts(slots, |pool|, free, uses);
      var index := slots[s] - 1;
      ReleasePiece(index);
      slots := slots[s := 0];
      uses := uses[index + 1 := OnFreeList(|free| - 1)];
    }

    method ClearHalf(half: nat)
      requires Valid() && half < 2
      modifies this`held, this`slots, this`pool, this`freeHead, this`free, this`uses
      ensures Valid() && |slots| == old(|slots|)
      ensures State() == old(State()).(stored := WithoutHalf(cfg, old(State()).stored, half))
    {
      hide Linked, Contents;
      if held[half] == 0 {
        NothingHeld(half);
        return;
      }
      var lo := HalfStart(cfg, half);
      ghost var before, slots0 := State().stored, slots;
      KeysAreSlots();
      HalfIsRange(cfg, before, half);
      var s := lo;
      while s < lo + cfg.blockSize
        invariant lo <= s <= lo + cfg.blockSize
        invariant TableValid() && |slots| == cfg.bufsize && newest == old(newest) && held == old(held)
        invariant forall k :: lo <= k < s ==> slots[k] == 0
        invariant forall k :: 0 <= k < |slots| && !(lo <= k < s) ==> slots[k] == slots0[k]
        invariant State().stored == WithoutRange(before, lo, s)
      {
        WithoutRangeStep(before, lo, s);
        SlotStored(s);
        if slots[s] != 0 {
          EmptySlot(s);
        }
        s := s + 1;
      }
      OccupiedNone(slots, lo, s);
      var other := HalfStart(cfg, 1 - half);
      OccupiedSame(slots0, slots, other, other + cfg.blockSize);
      held := held[half := 0];
    }

    lemma {:induction false} StoredAt(s: nat)
      requires TableValid() && s < |slots| && slots[s] != 0
      ensures slots[s] <= |pool| && s in State().stored && State().stored[s] == HalfIn(pool[slots[s] - 1])
    {
    }

    lemma {:induction false} KeysAreSlots()
      requires TableValid()
      ensures forall k :: k in State().stored ==> 0 <= k < |slots|
    {
    }

    /** Whether a piece with this ID would complete a datagram, whatever the piece contains. */
    method Completes(dgid: nat) returns (r: bool)
      requires Valid() && dgid < 65536
      ensures forall half: Half :: half.first == (dgid % 4 == 2) ==>
                r == ModularStep(cfg, State(), dgid / 4, Some(half)).1.Some?
    {
      hide Linked, Occupied, WithoutHalf;
      var counter := dgid / 4;
      if slots == [] {
        assert State().stored == map[];
        NothingDelivered(cfg, State(), counter);
        return false;
      }
      if Wrap(cfg, newest.value - Block(cfg, counter)) > 1 {
        NothingDelivered(cfg, State(), counter);
        return false;
      }
      var s := Slot(cfg, counter);
      Layout(cfg, counter);
      SlotStored(s);
      if slots[s] == 0 {
        return false;
      }
      StoredAt(s);
      return pool[slots[s] - 1].first != (dgid % 4 == 2);
    }

    /** The number of datagrams half of which is held. */
    method DatagramsStored() returns (n: nat)
      requires Valid()
      ensures n == |State().stored|
    {
      hide Linked, Contents;
      n := held[0] + held[1];
      if slots != [] {
        OccupiedSplit(slots, 0, cfg.blockSize, cfg.bufsize);
      }
      OccupiedSlots(slots, |slots|);
      StoredKeys();
    }

    lemma {:induction false} StoredKeys()
      requires TableValid()
      ensures State().stored.Keys == set s | 0 <= s < |slots| && slots[s] != 0
    {
    }

    lemma {:induction false} SlotStored(s: nat)
      requires TableValid() && s < |slots|
      ensures s in State().stored <==> slots[s] != 0
    {
    }

    lemma {:induction false} NothingHeld(half: nat)
      requires Valid() && half < 2 && held[half] == 0
      ensures State().stored == WithoutHalf(cfg, State().stored, half)
    {
      hide Linked, Contents, Occupied;
      KeysAreSlots();
      if slots != [] {
        var lo := HalfStart(cfg, half);
        OccupiedBound(slots, lo, lo + cfg.blockSize);
        HalfIsRange(cfg, State().stored, half);
        forall k | lo <= k < lo + cfg.blockSize
          ensures k !in State().stored
        {
          SlotStored(k);
        }
      }
    }

    /** Moves the newest block on if `counter` is in a newer one; false if the counter is late. */
    method AdvanceTo(counter: nat) returns (ok: bool)
      requires Valid()
      modifies this`newest, this`held, this`slots, this`pool, this`freeHead, this`free, this`uses
      ensures Valid() && newest.Some? && |slots| == old(|slots|)
      ensures ok == Advance(cfg, old(State()), counter).Some?
      ensures State() == if ok then Advance(cfg, old(State()), counter).value else old(State())
    {
      hide Linked, Contents, Occupied, WithoutHalf;
      var block := Block(cfg, counter);
      if newest.None? {
        newest := Some(block);
        return true;
      }
      if Wrap(cfg, newest.value - block) <= 1 {
        return true;
      }
      if Wrap(cfg, newest.value - block) < cfg.reorderBlocks {
        return false;
      }
      ClearHalf(block % 2);
      if Wrap(cfg, block - newest.value) > 1 {
        ClearHalf((block - 1) % 2);
      }
      newest := Some(block);
      return true;
    }

    /** Takes the ID of a datagram received whole. */
    method Observe(dgid: nat)
      requires Valid() && dgid < 65536
      modifies this
      ensures Valid()
      ensures State() == ModularStep(cfg, old(State()), dgid / 4, None).0
    {
      var _ := AdvanceTo(dgid / 4);
    }

    /** The slot table is allocated when the first piece is stored. */
    method AllocateSlots()
      requires Valid() && newest.Some?
      modifies this`slots
      ensures Valid() && State() == old(State()) && |slots| == cfg.bufsize
    {
      if slots == [] {
        EmptySlots(slots, pool, cfg.bufsize);
        slots := seq(cfg.bufsize, _ => 0);
        OccupiedNone(slots, 0, cfg.blockSize);
        OccupiedNone(slots, cfg.blockSize, cfg.bufsize);
      }
    }

    /** Stores a piece in an empty slot. */
    method FillSlot(s: nat, data: Bytes, first: bool)
      requires TableValid() && s < |slots| && slots[s] == 0
      modifies this`slots, this`pool, this`freeHead, this`free, this`uses
      ensures TableValid() && |slots| == old(|slots|)
      ensures slots[s] != 0 && forall k :: 0 <= k < |slots| && k != s ==> slots[k] == old(slots)[k]
      ensures State() == old(State()).(stored := old(State()).stored[s := Half(first, data)])
    {
      hide Contents, Linked;
      StoreTaken(slots, pool, freeHead, free, uses, s, Half(first, data));
      ghost var uses' := UsesTaken(free, uses, s);
      var index := TakePiece();
      pool := pool[index := pool[index].(data := data, first := first)];
      slots := slots[s := index + 1];
      uses := uses';
    }

    /** Takes a piece of a split datagram, and returns the datagram if the piece completes it. */
    method Receive(data: Bytes, dgid: nat) returns (r: Option<Bytes>)
      requires Valid() && dgid < 65536
      modifies this
      ensures Valid()
      ensures (State(), r) == ModularStep(cfg, old(State()), dgid / 4, Some(Half(dgid % 4 == 2, data)))
    {
      hide Linked, Contents, Occupied, WithoutHalf, Advance;
      var counter := dgid / 4;
      var ok := AdvanceTo(counter);
      if !ok {
        return None;
      }
      AllocateSlots();
      var s, half := Slot(cfg, counter), Block(cfg, counter) % 2;
      var first := dgid % 4 == 2;
      Layout(cfg, counter);
      SlotStored(s);
      if slots[s] == 0 {
        ghost var before := slots;
        FillSlot(s, data, first);
        CountChanges(cfg, before, slots, s);
        held := held[half := held[half] + 1];
        return None;
      }
      StoredAt(s);
      var p := pool[slots[s] - 1];
      if p.first == first {
        return None;
      }
      var head, tail := if p.first then p.data else data, if p.first then data else p.data;
      ghost var before := slots;
      EmptySlot(s);
      CountChanges(cfg, before, slots, s);
      held := held[half := held[half] - 1];
      return Some(head + tail);
    }
  }

  /** The first slot of a half. */
  function HalfStart(c: Config, half: nat): nat {
    if half == 0 then 0 else c.blockSize
  }

  ghost function WithoutRange(stored: map<int, Half>, lo: nat, hi: nat): map<int, Half> {
    map k | k in stored && !(lo <= k < hi) :: stored[k]
  }

  lemma {:induction false} WithoutRangeStep(stored: map<int, Half>, lo: nat, s: nat)
    requires lo <= s
    ensures WithoutRange(stored, lo, s + 1) == WithoutRange(stored, lo, s) - {s}
    ensures WithoutRange(stored, lo, lo) == stored
  {
  }

  lemma {:induction false} OccupiedSame(slots: seq<nat>, slots': seq<nat>, lo: nat, hi: nat)
    requires lo <= hi <= |slots| == |slots'| && forall s :: lo <= s < hi ==> slots[s] == slots'[s]
    ensures Occupied(slots, lo, hi) == Occupied(slots', lo, hi)
  {
    if lo < hi {
      OccupiedSame(slots, slots', lo, hi - 1);
    }
  }

  /** The slots of a half are a contiguous range. */
  lemma {:induction false} HalfIsRange(c: Config, stored: map<int, Half>, half: nat)
    requires c.Valid() && half < 2 && forall k :: k in stored ==> 0 <= k < c.bufsize
    ensures WithoutHalf(c, stored, half) == WithoutRange(stored, HalfStart(c, half), HalfStart(c, half) + c.blockSize)
  {
    hide SlotHalf;
    forall k | k in stored
      ensures SlotHalf(c, k) == half <==> HalfStart(c, half) <= k < HalfStart(c, half) + c.blockSize
    {
      SlotHalfRange(c, k);
    }
  }

  lemma {:induction false} SlotHalfRange(c: Config, k: nat)
    requires c.Valid() && k < c.bufsize
    ensures SlotHalf(c, k) == if k < c.blockSize then 0 else 1
  {
    if k < c.blockSize {
      DivModUnique(c.blockSize, 0, k);
    } else {
      DivModUnique(c.blockSize, 1, k - c.blockSize);
    }
  }

  /** Changing one slot changes the count of its half only. */
  lemma {:induction false} CountChanges(c: Config, slots: seq<nat>, slots': seq<nat>, s: nat)
    requires c.Valid() && s < |slots| == |slots'| == c.bufsize
    requires forall k :: 0 <= k < |slots| && k != s ==> slots'[k] == slots[k]
    ensures forall half :: 0 <= half < 2 ==>
              var lo := HalfStart(c, half);
              Occupied(slots', lo, lo + c.blockSize) ==
              Occupied(slots, lo, lo + c.blockSize) +
              if SlotHalf(c, s) == half then (if slots'[s] != 0 then 1 else 0) - (if slots[s] != 0 then 1 else 0) else 0
  {
    SlotHalfRange(c, s);
    assert slots' == slots[s := slots'[s]];
    OccupiedUpdate(slots, 0, c.blockSize, s, slots'[s]);
    OccupiedUpdate(slots, c.blockSize, c.bufsize, s, slots'[s]);
  }

  lemma {:induction false} OccupiedSlots(slots: seq<nat>, hi: nat)
    requires hi <= |slots|
    ensures |set s | 0 <= s < hi && slots[s] != 0| == Occupied(slots, 0, hi)
  {
    var keys := set s | 0 <= s < hi && slots[s] != 0;
    if hi > 0 {
      OccupiedSlots(slots, hi - 1);
      var keys' := set s | 0 <= s < hi - 1 && slots[s] != 0;
      assert keys == if slots[hi - 1] != 0 then keys' + {hi - 1} else keys';
    }
  }

  /** Outside the held blocks, or with nothing stored, no piece completes a datagram. */
  lemma {:induction false} NothingDelivered(c: Config, m: Modular, counter: nat)
    requires c.Valid()
    requires m.stored == map[] || (m.newest.Some? && Wrap(c, m.newest.value - Block(c, counter)) > 1)
    ensures forall half: Half :: ModularStep(c, m, counter, Some(half)).1 == None
  {
    var adv := Advance(c, m, counter);
    if adv.Some? {
      assert Slot(c, counter) !in adv.value.stored by {
        var block := Block(c, counter);
        LayoutSlots(c, counter);
        WithoutHalfKeys(c, m.stored, block % 2, Slot(c, counter));
        WithoutHalfKeys(c, WithoutHalf(c, m.stored, block % 2), (block - 1) % 2, Slot(c, counter));
      }
    }
  }
}
