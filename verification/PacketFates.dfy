/** What becomes of the packets of a batch: each is sent, dropped, or kept for later. */
module PacketFates {
  import opened Common

  datatype Packet = Packet(data: Bytes, ecn: byte)

  datatype Fate = Sent | TooBig | Dropped | Kept

  /** Those with a given fate, in order. */
  function Select<T>(pkts: seq<T>, fates: seq<Fate>, f: Fate): seq<T>
    requires |fates| == |pkts|
  {
    if pkts == [] then []
    else (if fates[0] == f then [pkts[0]] else []) + Select(pkts[1..], fates[1..], f)
  }

  /** No packet was sent that comes after a kept one. */
  predicate InOrder(fates: seq<Fate>) {
    fates == [] || ((fates[0] == Kept ==> Sent !in fates[1..]) && InOrder(fates[1..]))
  }

  function AllKept(n: nat): seq<Fate> {
    seq(n, _ => Kept)
  }

  lemma {:induction false} SelectAllKept(pkts: seq<Packet>)
    ensures Select(pkts, AllKept(|pkts|), Kept) == pkts
    ensures Select(pkts, AllKept(|pkts|), Sent) == []
    ensures InOrder(AllKept(|pkts|))
  {
    if pkts != [] {
      SelectAllKept(pkts[1..]);
      assert AllKept(|pkts|)[1..] == AllKept(|pkts[1..]|);
    }
  }

  /** The first k kept packets are sent. */
  function MarkSent(fates: seq<Fate>, k: nat): (r: seq<Fate>)
    ensures |r| == |fates|
  {
    if fates == [] || k == 0 then fates
    else if fates[0] == Kept then [Sent] + MarkSent(fates[1..], k - 1)
    else [fates[0]] + MarkSent(fates[1..], k)
  }

  lemma {:induction false} SelectsNone<T>(pkts: seq<T>, fates: seq<Fate>, f: Fate)
    requires |fates| == |pkts|
    ensures Select(pkts, fates, f) == [] <==> f !in fates
  {
    if pkts == [] {
    } else {
      SelectsNone(pkts[1..], fates[1..], f);
      assert fates == [fates[0]] + fates[1..];
    }
  }

  lemma {:induction false} MarkSentKeeps(pkts: seq<Packet>, fates: seq<Fate>, k: nat)
    requires |fates| == |pkts| && k <= |Select(pkts, fates, Kept)|
    ensures Select(pkts, MarkSent(fates, k), Kept) == Select(pkts, fates, Kept)[k..]
    decreases |fates|
  {
    if pkts == [] || k == 0 {
    } else {
      var rest, frest := pkts[1..], fates[1..];
      var j: nat := if fates[0] == Kept then k - 1 else k;
      MarkSentKeeps(rest, frest, j);
      var fates' := MarkSent(fates, k);
      assert fates'[1..] == MarkSent(frest, j) && fates'[0] != Kept;
      assert Select(pkts, fates', Kept) == Select(rest, fates'[1..], Kept);
    }
  }

  lemma {:induction false} MarkSentSends(pkts: seq<Packet>, fates: seq<Fate>, k: nat)
    requires |fates| == |pkts| && InOrder(fates) && k <= |Select(pkts, fates, Kept)|
    ensures Select(pkts, MarkSent(fates, k), Sent) == Select(pkts, fates, Sent) + Select(pkts, fates, Kept)[..k]
    decreases |fates|
  {
    hide InOrder, Select;
    if k == 0 {
    } else if pkts == [] {
      SelectNothing(fates, Kept);
    } else {
      var rest, frest := pkts[1..], fates[1..];
      var j: nat := if fates[0] == Kept then k - 1 else k;
      var fates', kept, sent := MarkSent(fates, k), Select(rest, frest, Kept), Select(rest, frest, Sent);
      assert fates'[1..] == MarkSent(frest, j);
      InOrderTail(fates);
      SelectFirst(pkts, fates, Kept);
      SelectFirst(pkts, fates, Sent);
      SelectFirst(pkts, fates', Sent);
      MarkSentSends(rest, frest, j);
      if fates[0] == Kept {
        SelectsNone(rest, frest, Sent);
        assert ([pkts[0]] + kept)[..k] == [pkts[0]] + kept[..j];
      } else {
        var first := if fates[0] == Sent then [pkts[0]] else [];
        assert first + (sent + kept[..k]) == (first + sent) + kept[..k];
      }
    }
  }

  lemma {:induction false} SelectNothing(fates: seq<Fate>, f: Fate)
    requires fates == []
    ensures Select<Packet>([], fates, f) == []
  {
  }

  lemma {:induction false} SelectFirst<T>(pkts: seq<T>, fates: seq<Fate>, f: Fate)
    requires |fates| == |pkts| > 0
    ensures Select(pkts, fates, f) == (if fates[0] == f then [pkts[0]] else []) + Select(pkts[1..], fates[1..], f)
  {
  }

  lemma {:induction false} InOrderTail(fates: seq<Fate>)
    requires fates != [] && InOrder(fates)
    ensures InOrder(fates[1..]) && (fates[0] == Kept ==> Sent !in fates[1..])
  {
  }

  lemma {:induction false} MarkSentOrder(fates: seq<Fate>, k: nat)
    requires InOrder(fates)
    ensures InOrder(MarkSent(fates, k))
    ensures forall i :: 0 <= i < |fates| ==>
              MarkSent(fates, k)[i] == fates[i] || (fates[i] == Kept && MarkSent(fates, k)[i] == Sent)
    decreases |fates|
  {
    if fates != [] && k > 0 {
      if fates[0] == Kept {
        MarkSentOrder(fates[1..], k - 1);
        assert ([Sent] + MarkSent(fates[1..], k - 1))[1..] == MarkSent(fates[1..], k - 1);
      } else {
        MarkSentOrder(fates[1..], k);
        assert ([fates[0]] + MarkSent(fates[1..], k))[1..] == MarkSent(fates[1..], k);
      }
    }
  }

  /** The kept packets of at least `min` bytes are dropped as too big. */
  function MarkTooBig(pkts: seq<Packet>, fates: seq<Fate>, min: nat): (r: seq<Fate>)
    requires |fates| == |pkts|
    ensures |r| == |fates|
  {
    seq(|fates|, i requires 0 <= i < |fates| => if fates[i] == Kept && |pkts[i].data| >= min then TooBig else fates[i])
  }

  function Below(pkts: seq<Packet>, min: nat): seq<Packet> {
    if pkts == [] then [] else (if |pkts[0].data| < min then [pkts[0]] else []) + Below(pkts[1..], min)
  }

  lemma {:induction false} MarkTooBigIs(pkts: seq<Packet>, fates: seq<Fate>, min: nat)
    requires |fates| == |pkts|
    ensures var fates' := MarkTooBig(pkts, fates, min);
            && Select(pkts, fates', Kept) == Below(Select(pkts, fates, Kept), min)
            && Select(pkts, fates', Sent) == Select(pkts, fates, Sent)
  {
    if pkts == [] {
    } else {
      var rest, frest := pkts[1..], fates[1..];
      MarkTooBigIs(rest, frest, min);
      assert MarkTooBig(pkts, fates, min)[1..] == MarkTooBig(rest, frest, min);
      var kept := Select(rest, frest, Kept);
      if fates[0] == Kept {
        assert Select(pkts, fates, Kept) == [pkts[0]] + kept;
        assert ([pkts[0]] + kept)[1..] == kept;
      } else {
        assert Select(pkts, fates, Kept) == kept;
        assert Select(pkts, MarkTooBig(pkts, fates, min), Kept) == Select(rest, MarkTooBig(rest, frest, min), Kept);
      }
    }
  }

  lemma {:induction false} MarkTooBigOrder(pkts: seq<Packet>, fates: seq<Fate>, min: nat)
    requires |fates| == |pkts| && InOrder(fates)
    ensures InOrder(MarkTooBig(pkts, fates, min))
  {
    if pkts == [] {
    } else {
      MarkTooBigOrder(pkts[1..], fates[1..], min);
      assert MarkTooBig(pkts, fates, min)[1..] == MarkTooBig(pkts[1..], fates[1..], min);
    }
  }

  /** All kept packets are dropped. */
  function MarkDropped(fates: seq<Fate>): (r: seq<Fate>)
    ensures |r| == |fates|
  {
    seq(|fates|, i requires 0 <= i < |fates| => if fates[i] == Kept then Dropped else fates[i])
  }

  lemma {:induction false} MarkDroppedIs(pkts: seq<Packet>, fates: seq<Fate>)
    requires |fates| == |pkts|
    ensures Select(pkts, MarkDropped(fates), Kept) == []
    ensures Select(pkts, MarkDropped(fates), Sent) == Select(pkts, fates, Sent)
  {
    if pkts != [] {
      MarkDroppedIs(pkts[1..], fates[1..]);
      assert MarkDropped(fates)[1..] == MarkDropped(fates[1..]);
    }
  }

  lemma {:induction false} MarkDroppedOrder(fates: seq<Fate>)
    requires InOrder(fates)
    ensures InOrder(MarkDropped(fates))
  {
    if fates == [] {
    } else {
      MarkDroppedOrder(fates[1..]);
      assert MarkDropped(fates)[1..] == MarkDropped(fates[1..]);
    }
  }

  lemma {:induction false} MarkedDropped(fates: seq<Fate>)
    ensures forall i :: 0 <= i < |fates| ==> (MarkDropped(fates)[i] == TooBig <==> fates[i] == TooBig)
  {
  }

  /**
   * What is known of the sizes found too big: `tooBig` is the smallest of them, or what it was before if that
   * is smaller or nothing was dropped for its size; every packet still kept is smaller than all of them, and
   * every packet sent from behind one of them is smaller than that one.
   */
  ghost predicate Smallest(pkts: seq<Packet>, fates: seq<Fate>, before: nat, tooBig: nat)
    requires |fates| == |pkts|
  {
    && (forall i :: 0 <= i < |pkts| && fates[i] == TooBig ==> 0 < tooBig <= |pkts[i].data|)
    && (before > 0 ==> 0 < tooBig <= before)
    && (tooBig == before || exists i :: 0 <= i < |pkts| && fates[i] == TooBig && |pkts[i].data| == tooBig)
    && (forall i, j :: 0 <= i < |pkts| && 0 <= j < |pkts| && fates[i] == Kept && fates[j] == TooBig ==>
          |pkts[i].data| < |pkts[j].data|)
    && (forall i, j :: 0 <= i < j < |pkts| && fates[i] == TooBig && fates[j] == Sent ==>
          |pkts[j].data| < |pkts[i].data|)
  }

  lemma {:induction false} FirstKept(pkts: seq<Packet>, fates: seq<Fate>) returns (i: nat)
    requires |fates| == |pkts| && Select(pkts, fates, Kept) != []
    ensures i < |pkts| && fates[i] == Kept && pkts[i] == Select(pkts, fates, Kept)[0]
  {
    if fates[0] == Kept {
      i := 0;
    } else {
      i := FirstKept(pkts[1..], fates[1..]);
      i := i + 1;
    }
  }

  lemma {:induction false} NoneSentAfter(fates: seq<Fate>, i: nat, j: nat)
    requires InOrder(fates) && i < j < |fates| && fates[i] == Kept
    ensures fates[j] != Sent
    decreases |fates|
  {
    if i == 0 {
      assert fates[j] == fates[1..][j - 1];
    } else {
      NoneSentAfter(fates[1..], i - 1, j - 1);
    }
  }

  lemma {:induction false} MarkTooBigSmallest(pkts: seq<Packet>, fates: seq<Fate>, before: nat, tooBig: nat, i: nat)
    requires |fates| == |pkts| && i < |pkts| && fates[i] == Kept && |pkts[i].data| > 0
    requires Smallest(pkts, fates, before, tooBig) && InOrder(fates)
    ensures var min := |pkts[i].data|;
            Smallest(pkts, MarkTooBig(pkts, fates, min), before, if tooBig == 0 then min else Min(tooBig, min))
  {
    hide InOrder;
    var min := |pkts[i].data|;
    var fates' := MarkTooBig(pkts, fates, min);
    assert fates'[i] == TooBig;
    forall k, j | 0 <= k < j < |pkts| && fates[k] == Kept
      ensures fates[j] != Sent
    {
      NoneSentAfter(fates, k, j);
    }
  }

  lemma {:induction false} FewerKeptSmallest(pkts: seq<Packet>, fates: seq<Fate>, fates': seq<Fate>, before: nat,
                                             tooBig: nat)
    requires |fates| == |pkts| == |fates'|
    requires forall i :: 0 <= i < |pkts| ==> (fates'[i] == TooBig <==> fates[i] == TooBig)
    requires forall i :: 0 <= i < |pkts| && fates'[i] == Kept ==> fates[i] == Kept
    requires forall i :: 0 <= i < |pkts| && fates'[i] == Sent ==> fates[i] == Sent || fates[i] == Kept
    requires Smallest(pkts, fates, before, tooBig)
    ensures Smallest(pkts, fates', before, tooBig)
  {
    if tooBig != before {
      var k :| 0 <= k < |pkts| && fates[k] == TooBig && |pkts[k].data| == tooBig;
      assert fates'[k] == TooBig;
    }
  }

  function Datas(pkts: seq<Packet>): (r: seq<Bytes>)
    ensures |r| == |pkts|
  {
    seq(|pkts|, i requires 0 <= i < |pkts| => pkts[i].data)
  }

  /** The bytes of a batch, packet after packet. */
  function Flat(pkts: seq<Packet>): Bytes {
    Flatten(Datas(pkts))
  }

  lemma {:induction false} FlatSplit(pkts: seq<Packet>, k: nat)
    requires k <= |pkts|
    ensures Flat(pkts) == Flat(pkts[..k]) + Flat(pkts[k..])
  {
    FlattenSplit(Datas(pkts), k);
    assert Datas(pkts)[..k] == Datas(pkts[..k]) && Datas(pkts)[k..] == Datas(pkts[k..]);
  }

  lemma {:induction false} FlatAppend(pkts: seq<Packet>, p: Packet)
    ensures Flat(pkts + [p]) == Flat(pkts) + p.data
  {
    FlattenAppend(Datas(pkts), p.data);
    assert Datas(pkts + [p]) == Datas(pkts) + [p.data];
  }

  lemma {:induction false} BelowShorter(pkts: seq<Packet>, min: nat)
    ensures |Below(pkts, min)| <= |pkts|
  {
    if pkts == [] {
    } else {
      BelowShorter(pkts[1..], min);
    }
  }

  lemma {:induction false} BelowAppend(pkts: seq<Packet>, p: Packet, min: nat)
    ensures Below(pkts + [p], min) == Below(pkts, min) + if |p.data| < min then [p] else []
  {
    if pkts == [] {
      assert pkts + [p] == [p];
    } else {
      BelowAppend(pkts[1..], p, min);
      assert (pkts + [p])[1..] == pkts[1..] + [p];
      var first := if |pkts[0].data| < min then [pkts[0]] else [];
      var last := if |p.data| < min then [p] else [];
      assert first + (Below(pkts[1..], min) + last) == (first + Below(pkts[1..], min)) + last;
    }
  }

  function Sizes(pkts: seq<Packet>): (r: seq<nat>)
    ensures |r| == |pkts|
  {
    seq(|pkts|, i requires 0 <= i < |pkts| => |pkts[i].data|)
  }

  function Ecns(pkts: seq<Packet>): (r: seq<byte>)
    ensures |r| == |pkts|
  {
    seq(|pkts|, i requires 0 <= i < |pkts| => pkts[i].ecn)
  }

  lemma {:induction false} SizesDrop(pkts: seq<Packet>, k: nat)
    requires k <= |pkts|
    ensures Sizes(pkts)[k..] == Sizes(pkts[k..]) && Ecns(pkts)[k..] == Ecns(pkts[k..])
  {
  }

  lemma {:induction false} SizesAppend(pkts: seq<Packet>, p: Packet)
    ensures Sizes(pkts + [p]) == Sizes(pkts) + [|p.data|] && Ecns(pkts + [p]) == Ecns(pkts) + [p.ecn]
  {
  }

  lemma {:induction false} Nothing(min: nat)
    ensures Flat([]) == [] && Sizes([]) == [] && Ecns([]) == [] && Below([], min) == []
  {
  }

  /** The next packet's bytes, size and mark. */
  lemma {:induction false} NextPacket(all: seq<Packet>, i: nat)
    requires i < |all|
    ensures var from, p := |Flat(all[..i])|, all[i];
            && Flat(all[..i + 1]) == Flat(all[..i]) + p.data
            && from + |p.data| <= |Flat(all)| && Flat(all)[from..from + |p.data|] == p.data
            && Sizes(all)[i] == |p.data| && Ecns(all)[i] == p.ecn
  {
    FlatAppend(all[..i], all[i]);
    assert all[..i + 1] == all[..i] + [all[i]];
    FlatSplit(all, i + 1);
  }

  /** What was sent, followed by what is kept, is in the order it was in. */
  lemma {:induction false} SelectInOrder<T>(xs: seq<T>, fates: seq<Fate>)
    requires |fates| == |xs| && InOrder(fates)
    ensures Subsequence(Select(xs, fates, Sent) + Select(xs, fates, Kept), xs)
  {
    hide Subsequence;
    if xs == [] {
      assert Select(xs, fates, Sent) + Select(xs, fates, Kept) == xs;
      SubsequenceSelf(xs);
    } else {
      var rest, frest := xs[1..], fates[1..];
      var sent, kept := Select(rest, frest, Sent), Select(rest, frest, Kept);
      SelectInOrder(rest, frest);
      SubsequencePrepend([xs[0]], sent + kept, rest);
      assert xs == [xs[0]] + rest;
      if fates[0] == Sent {
        assert Select(xs, fates, Kept) == kept;
        assert ([xs[0]] + sent) + kept == [xs[0]] + (sent + kept);
      } else if fates[0] == Kept {
        SelectsNone(rest, frest, Sent);
        assert [] + ([xs[0]] + kept) == [xs[0]] + (sent + kept);
      } else {
        assert Select(xs, fates, Sent) == sent && Select(xs, fates, Kept) == kept;
        SubsequenceSkip(sent + kept, xs[0], rest);
      }
    }
  }
}
