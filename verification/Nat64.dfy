/** IPv4 addresses embedded in IPv6 addresses for NAT64 (section 2.2 of RFC 6052). */
module Nat64 {
  import opened Common

  datatype Ipv6 = Ipv6(hi: bv64, lo: bv64)

  /** A prefix: the first `mask` bits of `ip`. */
  datatype Range = Range(ip: Ipv6, mask: nat)

  // ---- words and their bytes, the shifts written out as literals

  /** Byte k of a word, the most significant first: (w >> (56 - 8k)) & 0xff. */
  function ByteOf(w: bv64, k: nat): bv64
    requires k < 8
  {
    if k == 0 then (w >> 56) & 0xff
    else if k == 1 then (w >> 48) & 0xff
    else if k == 2 then (w >> 40) & 0xff
    else if k == 3 then (w >> 32) & 0xff
    else if k == 4 then (w >> 24) & 0xff
    else if k == 5 then (w >> 16) & 0xff
    else if k == 6 then (w >> 8) & 0xff
    else w & 0xff
  }

  /** v << (56 - 8k). */
  function Shifted(v: bv64, k: nat): bv64
    requires k < 8
  {
    if k == 0 then v << 56
    else if k == 1 then v << 48
    else if k == 2 then v << 40
    else if k == 3 then v << 32
    else if k == 4 then v << 24
    else if k == 5 then v << 16
    else if k == 6 then v << 8
    else v
  }

  function Down(w: bv64): bv64 { w >> 8 }

  function Up(w: bv64): bv64 { w << 8 }

  function Low(w: bv64): bv64 { w & 0xff }

  /** w >> 8a. */
  function BytesDown(w: bv64, a: nat): bv64 {
    if a == 0 then w else Down(BytesDown(w, a - 1))
  }

  /** w << 8a. */
  function BytesUp(w: bv64, a: nat): bv64 {
    if a == 0 then w else Up(BytesUp(w, a - 1))
  }

  function Clear1(w: bv64): bv64 { (w >> 1) << 1 }

  function Clear2(w: bv64): bv64 { (w >> 2) << 2 }

  function Clear3(w: bv64): bv64 { (w >> 3) << 3 }

  function Clear4(w: bv64): bv64 { (w >> 4) << 4 }

  function Clear5(w: bv64): bv64 { (w >> 5) << 5 }

  function Clear6(w: bv64): bv64 { (w >> 6) << 6 }

  function Clear7(w: bv64): bv64 { (w >> 7) << 7 }

  /** (w >> b) << b. */
  function ClearBits(w: bv64, b: nat): bv64
    requires b < 8
  {
    if b == 0 then w
    else if b == 1 then Clear1(w)
    else if b == 2 then Clear2(w)
    else if b == 3 then Clear3(w)
    else if b == 4 then Clear4(w)
    else if b == 5 then Clear5(w)
    else if b == 6 then Clear6(w)
    else Clear7(w)
  }

  /** (w >> k) << k, with the whole bytes shifted apart from the bits. */
  function Clear(w: bv64, k: nat): bv64
    requires k < 64
  {
    BytesUp(ClearBits(BytesDown(w, k / 8), k % 8), k / 8)
  }

  function Or(w: bv64, u: bv64): bv64 { w | u }

  lemma {:induction false} OrBits(w: bv64, u: bv64)
    ensures ((w | u) >> 56) & 0xff == ((w >> 56) & 0xff) | ((u >> 56) & 0xff)
    ensures ((w | u) >> 48) & 0xff == ((w >> 48) & 0xff) | ((u >> 48) & 0xff)
    ensures ((w | u) >> 40) & 0xff == ((w >> 40) & 0xff) | ((u >> 40) & 0xff)
    ensures ((w | u) >> 32) & 0xff == ((w >> 32) & 0xff) | ((u >> 32) & 0xff)
    ensures ((w | u) >> 24) & 0xff == ((w >> 24) & 0xff) | ((u >> 24) & 0xff)
    ensures ((w | u) >> 16) & 0xff == ((w >> 16) & 0xff) | ((u >> 16) & 0xff)
    ensures ((w | u) >> 8) & 0xff == ((w >> 8) & 0xff) | ((u >> 8) & 0xff)
    ensures (w | u) & 0xff == (w & 0xff) | (u & 0xff)
  {
  }

  lemma {:induction false} OrBytes(w: bv64, u: bv64, j: nat)
    requires j < 8
    ensures ByteOf(Or(w, u), j) == Or(ByteOf(w, j), ByteOf(u, j))
  {
    OrBits(w, u);
    if j == 0 {} else if j == 1 {} else if j == 2 {} else if j == 3 {}
    else if j == 4 {} else if j == 5 {} else if j == 6 {} else {}
  }

  lemma {:induction false} OrZero(w: bv64)
    ensures Or(w, 0) == w && Or(0, w) == w
  {
  }

  lemma {:induction false} SameWord(w: bv64, u: bv64)
    requires forall k :: 0 <= k < 8 ==> ByteOf(w, k) == ByteOf(u, k)
    ensures w == u
  {
    assert ByteOf(w, 0) == ByteOf(u, 0);
    assert ByteOf(w, 1) == ByteOf(u, 1);
    assert ByteOf(w, 2) == ByteOf(u, 2);
    assert ByteOf(w, 3) == ByteOf(u, 3);
    assert ByteOf(w, 4) == ByteOf(u, 4);
    assert ByteOf(w, 5) == ByteOf(u, 5);
    assert ByteOf(w, 6) == ByteOf(u, 6);
    assert ByteOf(w, 7) == ByteOf(u, 7);
  }

  lemma {:induction false} ShiftedBytes(v: bv64, k: nat, j: nat)
    requires k < 8 && j < 8 && v <= 0xff
    ensures ByteOf(Shifted(v, k), j) == if j == k then v else 0
  {
    if k < 4 { ShiftedHigh(v, k, j); } else { ShiftedLow(v, k, j); }
  }

  lemma {:induction false} ShiftedHigh(v: bv64, k: nat, j: nat)
    requires k < 4 && j < 8 && v <= 0xff
    ensures ByteOf(Shifted(v, k), j) == if j == k then v else 0
  {
  }

  lemma {:induction false} ShiftedLow(v: bv64, k: nat, j: nat)
    requires 4 <= k < 8 && j < 8 && v <= 0xff
    ensures ByteOf(Shifted(v, k), j) == if j == k then v else 0
  {
  }

  lemma {:induction false} DownBits(w: bv64)
    ensures ((w >> 8) >> 56) & 0xff == 0
    ensures ((w >> 8) >> 48) & 0xff == (w >> 56) & 0xff
    ensures ((w >> 8) >> 40) & 0xff == (w >> 48) & 0xff
    ensures ((w >> 8) >> 32) & 0xff == (w >> 40) & 0xff
    ensures ((w >> 8) >> 24) & 0xff == (w >> 32) & 0xff
    ensures ((w >> 8) >> 16) & 0xff == (w >> 24) & 0xff
    ensures ((w >> 8) >> 8) & 0xff == (w >> 16) & 0xff
    ensures (w >> 8) & 0xff == (w >> 8) & 0xff
  {
  }

  lemma {:induction false} UpBits(w: bv64)
    ensures ((w << 8) >> 56) & 0xff == (w >> 48) & 0xff
    ensures ((w << 8) >> 48) & 0xff == (w >> 40) & 0xff
    ensures ((w << 8) >> 40) & 0xff == (w >> 32) & 0xff
    ensures ((w << 8) >> 32) & 0xff == (w >> 24) & 0xff
    ensures ((w << 8) >> 24) & 0xff == (w >> 16) & 0xff
    ensures ((w << 8) >> 16) & 0xff == (w >> 8) & 0xff
    ensures ((w << 8) >> 8) & 0xff == w & 0xff
    ensures (w << 8) & 0xff == 0
  {
  }

  lemma {:induction false} DownByte(w: bv64, j: nat)
    requires j < 8
    ensures ByteOf(Down(w), j) == if j == 0 then 0 else ByteOf(w, j - 1)
  {
    DownBits(w);
    if j == 0 {} else if j == 1 {} else if j == 2 {} else if j == 3 {}
    else if j == 4 {} else if j == 5 {} else if j == 6 {} else {}
  }

  lemma {:induction false} UpByte(w: bv64, j: nat)
    requires j < 8
    ensures ByteOf(Up(w), j) == if j == 7 then 0 else ByteOf(w, j + 1)
  {
    UpBits(w);
    if j == 0 {} else if j == 1 {} else if j == 2 {} else if j == 3 {}
    else if j == 4 {} else if j == 5 {} else if j == 6 {} else {}
  }

  lemma {:induction false} DownBytes(w: bv64, a: nat, j: nat)
    requires a < 8 && j < 8
    ensures ByteOf(BytesDown(w, a), j) == if j < a then 0 else ByteOf(w, j - a)
  {
    hide ByteOf, Down;
    if a > 0 {
      DownByte(BytesDown(w, a - 1), j);
      if j > 0 {
        DownBytes(w, a - 1, j - 1);
      }
    }
  }

  lemma {:induction false} UpBytes(w: bv64, a: nat, j: nat)
    requires a <= 8 && j < 8
    ensures ByteOf(BytesUp(w, a), j) == if j + a < 8 then ByteOf(w, j + a) else 0
  {
    hide ByteOf, Up;
    if a > 0 {
      UpByte(BytesUp(w, a - 1), j);
      if j < 7 {
        UpBytes(w, a - 1, j + 1);
      }
    }
  }

  lemma {:induction false} Cleared1(w: bv64)
    ensures Down(Clear1(w)) == Down(w) && Low(Clear1(w)) == Clear1(Low(w))
  {
  }

  lemma {:induction false} Cleared2(w: bv64)
    ensures Down(Clear2(w)) == Down(w) && Low(Clear2(w)) == Clear2(Low(w))
  {
  }

  lemma {:induction false} Cleared3(w: bv64)
    ensures Down(Clear3(w)) == Down(w) && Low(Clear3(w)) == Clear3(Low(w))
  {
  }

  lemma {:induction false} Cleared4(w: bv64)
    ensures Down(Clear4(w)) == Down(w) && Low(Clear4(w)) == Clear4(Low(w))
  {
  }

  lemma {:induction false} Cleared5(w: bv64)
    ensures Down(Clear5(w)) == Down(w) && Low(Clear5(w)) == Clear5(Low(w))
  {
  }

  lemma {:induction false} Cleared6(w: bv64)
    ensures Down(Clear6(w)) == Down(w) && Low(Clear6(w)) == Clear6(Low(w))
  {
  }

  lemma {:induction false} Cleared7(w: bv64)
    ensures Down(Clear7(w)) == Down(w) && Low(Clear7(w)) == Clear7(Low(w))
  {
  }

  lemma {:induction false} LastByte(w: bv64)
    ensures ByteOf(w, 7) == Low(w)
  {
  }

  /** Only bits of the last byte are cleared. */
  lemma {:induction false} ClearedLast(w: bv64, b: nat)
    requires b < 8
    ensures Down(ClearBits(w, b)) == Down(w) && ByteOf(ClearBits(w, b), 7) == ClearBits(ByteOf(w, 7), b)
  {
    hide ByteOf, Down, Low, Clear1, Clear2, Clear3, Clear4, Clear5, Clear6, Clear7;
    LastByte(w);
    LastByte(ClearBits(w, b));
    if b == 1 { Cleared1(w); } else if b == 2 { Cleared2(w); } else if b == 3 { Cleared3(w); }
    else if b == 4 { Cleared4(w); } else if b == 5 { Cleared5(w); } else if b == 6 { Cleared6(w); }
    else if b == 7 { Cleared7(w); }
  }

  lemma {:induction false} ClearBitsBytes(w: bv64, b: nat, j: nat)
    requires b < 8 && j < 8
    ensures ByteOf(ClearBits(w, b), j) == if j < 7 then ByteOf(w, j) else ClearBits(ByteOf(w, 7), b)
  {
    hide ByteOf, ClearBits, Down;
    ClearedLast(w, b);
    if j < 7 {
      DownByte(w, j + 1);
      DownByte(ClearBits(w, b), j + 1);
    }
  }

  /** Clearing k bits clears the last k / 8 bytes, and bits of the byte before them. */
  lemma {:induction false} ClearBytes(w: bv64, k: nat, j: nat)
    requires k < 64 && j < 8
    ensures ByteOf(Clear(w, k), j) ==
            if j + k / 8 < 7 then ByteOf(w, j) else if j + k / 8 == 7 then ClearBits(ByteOf(w, j), k % 8) else 0
  {
    hide ByteOf, BytesDown, ClearBits, Shifted;
    var a, b := k / 8, k % 8;
    var down := BytesDown(w, a);
    UpBytes(ClearBits(down, b), a, j);
    if j + a < 8 {
      ClearBitsBytes(down, b, j + a);
      DownBytes(w, a, j + a);
    }
  }

  // ---- addresses as bytes

  function ByteAt(a: Ipv6, k: nat): bv64
    requires k < 16
  {
    if k < 8 then ByteOf(a.hi, k) else ByteOf(a.lo, k - 8)
  }

  lemma {:induction false} SameAddress(a: Ipv6, b: Ipv6)
    requires forall k :: 0 <= k < 16 ==> ByteAt(a, k) == ByteAt(b, k)
    ensures a == b
  {
    hide ByteOf;
    forall k | 0 <= k < 8
      ensures ByteOf(a.hi, k) == ByteOf(b.hi, k) && ByteOf(a.lo, k) == ByteOf(b.lo, k)
    {
      assert ByteAt(a, k) == ByteAt(b, k) && ByteAt(a, k + 8) == ByteAt(b, k + 8);
    }
    SameWord(a.hi, b.hi);
    SameWord(a.lo, b.lo);
  }

  /** Byte i of an IPv4 address, the most significant first. */
  function AddrByte(addr: bv32, i: nat): bv64
    requires i < 4
  {
    (if i == 0 then (addr >> 24) & 0xff
     else if i == 1 then (addr >> 16) & 0xff
     else if i == 2 then (addr >> 8) & 0xff
     else addr & 0xff) as bv64
  }

  lemma {:induction false} AddrByteBound(addr: bv32, i: nat)
    requires i < 4
    ensures AddrByte(addr, i) <= 0xff
  {
    if i == 0 {} else if i == 1 {} else if i == 2 {} else {}
  }

  lemma {:induction false} SameAddr(a: bv32, b: bv32)
    requires forall i :: 0 <= i < 4 ==> AddrByte(a, i) == AddrByte(b, i)
    ensures a == b
  {
    assert AddrByte(a, 0) == AddrByte(b, 0);
    assert AddrByte(a, 1) == AddrByte(b, 1);
    assert AddrByte(a, 2) == AddrByte(b, 2);
    assert AddrByte(a, 3) == AddrByte(b, 3);
  }

  lemma {:induction false} ZeroAddr(addr: bv32)
    requires forall i :: 0 <= i < 4 ==> AddrByte(addr, i) == 0
    ensures addr == 0
  {
    assert AddrByte(addr, 0) == 0;
    assert AddrByte(addr, 1) == 0;
    assert AddrByte(addr, 2) == 0;
    assert AddrByte(addr, 3) == 0;
  }

  // ---- prefixes

  predicate IsLength(bits: nat) {
    bits == 32 || bits == 40 || bits == 48 || bits == 56 || bits == 64 || bits == 96
  }

  /** The address with the bits after the prefix cleared, whatever the mask. */
  function ToBase(a: Ipv6, mask: nat): Ipv6 {
    if mask > 64 then Ipv6(a.hi, if mask < 128 then Clear(a.lo, 128 - mask) else a.lo)
    else Ipv6(if mask == 0 then 0 else Clear(a.hi, 64 - mask), 0)
  }

  function MakeRange(a: Ipv6, bits: nat): Range
    requires IsLength(bits)
  {
    Range(ToBase(a, bits), bits)
  }

  /** A prefix as it is made from any address, with a length that RFC 6052 allows. */
  predicate IsPrefix(p: Range) {
    IsLength(p.mask) && p == MakeRange(p.ip, p.mask)
  }

  /** For any mask, the bytes before it are kept, those behind it cleared, and of one it cuts the first bits kept. */
  lemma {:induction false} BaseBytes(a: Ipv6, mask: nat, k: nat)
    requires k < 16
    ensures ByteAt(ToBase(a, mask), k) ==
            if 8 * (k + 1) <= mask then ByteAt(a, k)
            else if mask <= 8 * k then 0
            else ClearBits(ByteAt(a, k), 8 * (k + 1) - mask)
  {
    hide ByteOf, Clear, ClearBits;
    ZeroByte(k % 8);
    if 64 < mask < 128 && k >= 8 {
      ClearBytes(a.lo, 128 - mask, k - 8);
      NoBits(ByteAt(a, k));
    } else if 0 < mask <= 64 && k < 8 {
      ClearBytes(a.hi, 64 - mask, k);
      NoBits(ByteAt(a, k));
    }
  }

  lemma {:induction false} NoBits(v: bv64)
    ensures ClearBits(v, 0) == v
  {
  }

  /** For the lengths of NAT64, only whole bytes. */
  lemma {:induction false} PrefixBytes(a: Ipv6, bits: nat, k: nat)
    requires IsLength(bits) && k < 16
    ensures ByteAt(ToBase(a, bits), k) == if k < bits / 8 then ByteAt(a, k) else 0
  {
    hide ByteAt, ToBase, ClearBits;
    BaseBytes(a, bits, k);
  }

  lemma {:induction false} ZeroByte(k: nat)
    requires k < 8
    ensures ByteOf(0, k) == 0
  {
  }

  lemma {:induction false} BaseIsPrefix(a: Ipv6, bits: nat)
    requires IsLength(bits)
    ensures IsPrefix(MakeRange(a, bits))
  {
    hide ByteAt, ToBase;
    var b := ToBase(a, bits);
    forall k | 0 <= k < 16
      ensures ByteAt(ToBase(b, bits), k) == ByteAt(b, k)
    {
      PrefixBytes(a, bits, k);
      PrefixBytes(b, bits, k);
    }
    SameAddress(ToBase(b, bits), b);
  }

  // ---- where the address goes

  /** The byte that holds byte i of the embedded address: those after the prefix, passing over byte 8. */
  function Position(bits: nat, i: nat): (p: nat)
    requires IsLength(bits) && i < 4
    ensures bits / 8 <= p < 16 && p != 8
  {
    var p := bits / 8 + i;
    if bits <= 64 && p >= 8 then p + 1 else p
  }

  /** Which byte of the embedded address byte j holds, if any. */
  function Holds(bits: nat, j: nat): (r: Option<nat>)
    requires IsLength(bits) && j < 16
    ensures r.Some? ==> r.value < 4 && Position(bits, r.value) == j
    ensures r.None? ==> forall i :: 0 <= i < 4 ==> Position(bits, i) != j
  {
    if Position(bits, 0) == j then Some(0)
    else if Position(bits, 1) == j then Some(1)
    else if Position(bits, 2) == j then Some(2)
    else if Position(bits, 3) == j then Some(3)
    else None
  }

  method BytePositions(bits: nat) returns (r: Option<seq<nat>>)
    ensures r.Some? <==> IsLength(bits)
    ensures r.Some? ==> |r.value| == 4 && forall i :: 0 <= i < 4 ==> r.value[i] == Position(bits, i)
  {
    if !IsLength(bits) {
      return None;
    }
    var pos: seq<nat> := [];
    var p := bits / 8;
    for n := 0 to 4
      invariant |pos| == n && forall i :: 0 <= i < n ==> pos[i] == Position(bits, i)
      invariant p == bits / 8 + n + if bits <= 64 && bits / 8 + n > 8 then 1 else 0
    {
      if p == 8 {
        p := p + 1;
      }
      pos := pos + [p];
      p := p + 1;
    }
    return Some(pos);
  }

  // ---- embedding

  function Put(a: Ipv6, k: nat, v: bv64): Ipv6
    requires k < 16
  {
    if k < 8 then Ipv6(Or(a.hi, Shifted(v, k)), a.lo) else Ipv6(a.hi, Or(a.lo, Shifted(v, k - 8)))
  }

  lemma {:induction false} PutBytes(a: Ipv6, k: nat, v: bv64, j: nat)
    requires k < 16 && j < 16 && v <= 0xff
    ensures ByteAt(Put(a, k, v), j) == if j == k then Or(ByteAt(a, j), v) else ByteAt(a, j)
  {
    hide ByteOf, Shifted, Or;
    OrZero(ByteAt(a, j));
    if k < 8 && j < 8 {
      OrBytes(a.hi, Shifted(v, k), j);
      ShiftedBytes(v, k, j);
    } else if k >= 8 && j >= 8 {
      OrBytes(a.lo, Shifted(v, k - 8), j - 8);
      ShiftedBytes(v, k - 8, j - 8);
    }
  }

  /** The address with the first n bytes of the embedded one put in. */
  function EmbedFirst(a: Ipv6, bits: nat, addr: bv32, n: nat): Ipv6
    requires IsLength(bits) && n <= 4
  {
    if n == 0 then a else Put(EmbedFirst(a, bits, addr, n - 1), Position(bits, n - 1), AddrByte(addr, n - 1))
  }

  function Embed(p: Range, addr: bv32): Ipv6
    requires IsLength(p.mask)
  {
    EmbedFirst(p.ip, p.mask, addr, 4)
  }

  method NatEmbed(p: Range, addr: bv32) returns (r: Option<Ipv6>)
    ensures r == if IsLength(p.mask) then Some(Embed(p, addr)) else None
    ensures IsLength(p.mask) ==>
              r == Some(Ipv6(Or(p.ip.hi, InFirst(addr, p.mask)), Or(p.ip.lo, InSecond(addr, p.mask))))
  {
    hide Put, AddrByte, Or, InFirst, InSecond;
    var pos := BytePositions(p.mask);
    if pos.None? {
      return None;
    }
    var a := p.ip;
    for i := 0 to 4
      invariant a == EmbedFirst(p.ip, p.mask, addr, i)
    {
      a := Put(a, pos.value[i], AddrByte(addr, i));
    }
    EmbedWords(p, addr);
    return Some(a);
  }

  /** Each byte put in is added to what is there, and every other byte stays. */
  lemma {:induction false} EmbedFirstBytes(a: Ipv6, bits: nat, addr: bv32, n: nat, j: nat)
    requires IsLength(bits) && n <= 4 && j < 16
    ensures var h := Holds(bits, j);
            ByteAt(EmbedFirst(a, bits, addr, n), j) ==
            if h.Some? && h.value < n then Or(ByteAt(a, j), AddrByte(addr, h.value)) else ByteAt(a, j)
  {
    hide ByteAt, Put, AddrByte, Or;
    if n > 0 {
      EmbedFirstBytes(a, bits, addr, n - 1, j);
      AddrByteBound(addr, n - 1);
      PutBytes(EmbedFirst(a, bits, addr, n - 1), Position(bits, n - 1), AddrByte(addr, n - 1), j);
    }
  }

  // ---- the result as two words

  /** An address as the low half of a word. */
  lemma {:induction false} WideByte(addr: bv32, j: nat)
    requires j < 8
    ensures ByteOf(addr as bv64, j) == if j < 4 then 0 else AddrByte(addr, j - 4)
  {
    if j == 0 {} else if j == 1 {} else if j == 2 {} else if j == 3 {}
    else if j == 4 {} else if j == 5 {} else if j == 6 {} else {}
  }

  /** The bits of the address that go into the first word: those of it that still fit behind the prefix. */
  function InFirst(addr: bv32, bits: nat): bv64
    requires IsLength(bits)
  {
    if bits == 96 then 0 else BytesDown(addr as bv64, bits / 8 - 4)
  }

  /** Those in the second word: the rest, with one byte left free at its start. */
  function InSecond(addr: bv32, bits: nat): bv64
    requires IsLength(bits)
  {
    if bits == 96 then addr as bv64 else Down(BytesUp(addr as bv64, 12 - bits / 8))
  }

  lemma {:induction false} InFirstBytes(addr: bv32, bits: nat, j: nat)
    requires IsLength(bits) && j < 8
    ensures var h := Holds(bits, j);
            ByteOf(InFirst(addr, bits), j) == if h.Some? then AddrByte(addr, h.value) else 0
  {
    hide ByteOf, AddrByte, BytesDown;
    if bits == 96 {
      ZeroByte(j);
    } else {
      var a := bits / 8 - 4;
      DownBytes(addr as bv64, a, j);
      if j >= a {
        WideByte(addr, j - a);
      }
    }
  }

  lemma {:induction false} InSecondBytes(addr: bv32, bits: nat, j: nat)
    requires IsLength(bits) && j < 8
    ensures var h := Holds(bits, j + 8);
            ByteOf(InSecond(addr, bits), j) == if h.Some? then AddrByte(addr, h.value) else 0
  {
    hide ByteOf, AddrByte, BytesUp, Down;
    if bits == 96 {
      WideByte(addr, j);
    } else {
      var a := 12 - bits / 8;
      DownByte(BytesUp(addr as bv64, a), j);
      if j > 0 {
        UpBytes(addr as bv64, a, j - 1);
        if j - 1 + a < 8 {
          WideByte(addr, j - 1 + a);
        }
      }
    }
  }

  /**
   * The two words of the result, for any prefix: the address follows the prefix bit for bit, and what of it comes
   * behind bit 64 does so eight bits later.
   */
  lemma {:induction false} EmbedWords(p: Range, addr: bv32)
    requires IsLength(p.mask)
    ensures Embed(p, addr) == Ipv6(Or(p.ip.hi, InFirst(addr, p.mask)), Or(p.ip.lo, InSecond(addr, p.mask)))
  {
    hide ByteOf, AddrByte, EmbedFirst, Or, InFirst, InSecond, Holds;
    var a, b := Embed(p, addr), Ipv6(Or(p.ip.hi, InFirst(addr, p.mask)), Or(p.ip.lo, InSecond(addr, p.mask)));
    forall k | 0 <= k < 16
      ensures ByteAt(a, k) == ByteAt(b, k)
    {
      EmbedFirstBytes(p.ip, p.mask, addr, 4, k);
      OrZero(ByteAt(p.ip, k));
      if k < 8 {
        OrBytes(p.ip.hi, InFirst(addr, p.mask), k);
        InFirstBytes(addr, p.mask, k);
      } else {
        OrBytes(p.ip.lo, InSecond(addr, p.mask), k - 8);
        InSecondBytes(addr, p.mask, k - 8);
      }
    }
    SameAddress(a, b);
  }

  /** Every byte of the embedded address, as section 2.2 of RFC 6052 lays it out. */
  lemma {:induction false} EmbedBytes(p: Range, addr: bv32, j: nat)
    requires IsPrefix(p) && j < 16
    ensures var h := Holds(p.mask, j);
            ByteAt(Embed(p, addr), j) ==
            if h.Some? then AddrByte(addr, h.value) else if j < p.mask / 8 then ByteAt(p.ip, j) else 0
  {
    hide ByteAt, EmbedFirst, Or, AddrByte;
    EmbedFirstBytes(p.ip, p.mask, addr, 4, j);
    PrefixBytes(p.ip, p.mask, j);
    if Holds(p.mask, j).Some? {
      OrZero(AddrByte(addr, Holds(p.mask, j).value));
    }
  }

  /** Different addresses are embedded differently. */
  lemma {:induction false} EmbedInjective(p: Range, a: bv32, b: bv32)
    requires IsPrefix(p) && Embed(p, a) == Embed(p, b)
    ensures a == b
  {
    hide ByteAt, Embed, AddrByte, IsPrefix;
    assert IsLength(p.mask) by { PrefixLength(p); }
    forall i | 0 <= i < 4
      ensures AddrByte(a, i) == AddrByte(b, i)
    {
      EmbedBytes(p, a, Position(p.mask, i));
      EmbedBytes(p, b, Position(p.mask, i));
    }
    SameAddr(a, b);
  }

  lemma {:induction false} PrefixLength(p: Range)
    requires IsPrefix(p)
    ensures IsLength(p.mask)
  {
  }

  // ---- finding the prefix

  const LENGTHS: seq<nat> := [96, 64, 56, 48, 40, 32]

  predicate Fits(e: Ipv6, addr: bv32, bits: nat) {
    IsLength(bits) && Embed(MakeRange(e, bits), addr) == e
  }

  /** The prefix of the longest length that fits. */
  function Find(e: Ipv6, addr: bv32): Option<Range> {
    if Fits(e, addr, 96) then Some(MakeRange(e, 96))
    else if Fits(e, addr, 64) then Some(MakeRange(e, 64))
    else if Fits(e, addr, 56) then Some(MakeRange(e, 56))
    else if Fits(e, addr, 48) then Some(MakeRange(e, 48))
    else if Fits(e, addr, 40) then Some(MakeRange(e, 40))
    else if Fits(e, addr, 32) then Some(MakeRange(e, 32))
    else None
  }

  method FindPrefix(e: Ipv6, addr: bv32) returns (r: Option<Range>)
    ensures r == Find(e, addr)
  {
    hide Embed, ToBase;
    for i := 0 to |LENGTHS|
      invariant forall k :: 0 <= k < i ==> !Fits(e, addr, LENGTHS[k])
    {
      var p := MakeRange(e, LENGTHS[i]);
      var again := NatEmbed(p, addr);
      if again == Some(e) {
        FirstFit(e, addr, i);
        return Some(p);
      }
    }
    FirstFit(e, addr, |LENGTHS|);
    return None;
  }

  lemma {:induction false} FirstFit(e: Ipv6, addr: bv32, i: nat)
    requires i <= 6 && forall k :: 0 <= k < i ==> !Fits(e, addr, LENGTHS[k])
    requires i < 6 ==> Fits(e, addr, LENGTHS[i])
    ensures Find(e, addr) == if i < 6 then Some(MakeRange(e, LENGTHS[i])) else None
  {
    hide Fits, MakeRange;
    assert i > 0 ==> !Fits(e, addr, LENGTHS[0]);
    assert i > 1 ==> !Fits(e, addr, LENGTHS[1]);
    assert i > 2 ==> !Fits(e, addr, LENGTHS[2]);
    assert i > 3 ==> !Fits(e, addr, LENGTHS[3]);
    assert i > 4 ==> !Fits(e, addr, LENGTHS[4]);
    assert i > 5 ==> !Fits(e, addr, LENGTHS[5]);
  }

  /** Whatever prefix is found embeds the address back, and none is found only if none does. */
  lemma {:induction false} FoundEmbeds(e: Ipv6, addr: bv32)
    ensures Find(e, addr).Some? ==> IsPrefix(Find(e, addr).value) && Embed(Find(e, addr).value, addr) == e
    ensures Find(e, addr).None? ==> forall p :: IsPrefix(p) ==> Embed(p, addr) != e
  {
    hide Embed, ToBase;
    if Find(e, addr).Some? {
      BaseIsPrefix(e, Find(e, addr).value.mask);
    } else {
      forall p | IsPrefix(p)
        ensures Embed(p, addr) != e
      {
        PrefixLength(p);
        if Embed(p, addr) == e {
          OwnLengthFits(p, addr);
        }
      }
    }
  }

  /** The prefix that an address was embedded after fits. */
  lemma {:induction false} OwnLengthFits(p: Range, addr: bv32)
    requires IsPrefix(p)
    ensures IsLength(p.mask) && MakeRange(Embed(p, addr), p.mask) == p && Fits(Embed(p, addr), addr, p.mask)
  {
    hide ByteAt, Embed, ToBase;
    var e := Embed(p, addr);
    forall k | 0 <= k < 16
      ensures ByteAt(ToBase(e, p.mask), k) == ByteAt(p.ip, k)
    {
      PrefixBytes(e, p.mask, k);
      PrefixBytes(p.ip, p.mask, k);
      EmbedBytes(p, addr, k);
    }
    SameAddress(ToBase(e, p.mask), p.ip);
  }

  /** A longer length fits only if the address is zero: each byte would have to be one that comes later, or zero. */
  lemma {:induction false} LongerFits(p: Range, addr: bv32, bits: nat)
    requires IsPrefix(p) && IsLength(bits) && bits > p.mask
    ensures Fits(Embed(p, addr), addr, bits) <==> addr == 0
  {
    hide ByteAt, Embed, ToBase, IsPrefix, AddrByte;
    PrefixLength(p);
    var e := Embed(p, addr);
    var q := MakeRange(e, bits);
    BaseIsPrefix(e, bits);
    if Embed(q, addr) == e {
      LaterByte(p, addr, bits, 3);
      LaterByte(p, addr, bits, 2);
      LaterByte(p, addr, bits, 1);
      LaterByte(p, addr, bits, 0);
      ZeroAddr(addr);
    }
    if addr == 0 {
      forall k | 0 <= k < 16
        ensures ByteAt(Embed(q, addr), k) == ByteAt(e, k)
      {
        EmbedBytes(q, addr, k);
        EmbedBytes(p, addr, k);
        PrefixBytes(e, bits, k);
        ZeroAddrByte();
      }
      SameAddress(Embed(q, addr), e);
    }
  }

  lemma {:induction false} ZeroAddrByte()
    ensures forall i :: 0 <= i < 4 ==> AddrByte(0, i) == 0
  {
  }

  lemma {:induction false} LaterByte(p: Range, addr: bv32, bits: nat, i: nat)
    requires IsPrefix(p) && IsLength(bits) && IsLength(p.mask) && bits > p.mask && i < 4
    requires Embed(MakeRange(Embed(p, addr), bits), addr) == Embed(p, addr)
    requires forall k :: i < k < 4 ==> AddrByte(addr, k) == 0
    ensures AddrByte(addr, i) == 0
  {
    hide ByteAt, Embed, ToBase, IsPrefix, AddrByte;
    var e := Embed(p, addr);
    var j := Position(bits, i);
    BaseIsPrefix(e, bits);
    EmbedBytes(MakeRange(e, bits), addr, j);
    EmbedBytes(p, addr, j);
  }

  /** The prefix is found again, although longer lengths are tried first, unless the address is zero. */
  lemma {:induction false} RoundTrip(p: Range, addr: bv32)
    requires IsPrefix(p)
    ensures Find(Embed(p, addr), addr) == Some(p) <==> addr != 0 || p.mask == 96
  {
    hide Embed, MakeRange, IsPrefix, Fits;
    PrefixLength(p);
    OwnLengthFits(p, addr);
    forall bits: nat | IsLength(bits) && bits > p.mask
      ensures Fits(Embed(p, addr), addr, bits) <==> addr == 0
    {
      LongerFits(p, addr, bits);
    }
    RangeMask(Embed(p, addr));
  }

  lemma {:induction false} RangeMask(e: Ipv6)
    ensures MakeRange(e, 96).mask == 96
  {
  }
}
