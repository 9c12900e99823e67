/** Segmentation offload: packets sent as larger messages that the kernel cuts up, and merged ones cut up on receipt. */
module Segmentation {
  import opened Common
  import opened PacketFates
  import opened Arithmetic

  /** One message handed to the kernel, which cuts it into packets of `size` bytes if `count` is above one. */
  datatype Message = Message(bytes: Bytes, size: nat, count: nat, ecn: byte)

  /** Cuts data at every `size` bytes. */
  function Cut(data: Bytes, size: nat): seq<Bytes>
    decreases |data|
  {
    if size == 0 || |data| <= size then [data] else [data[..size]] + Cut(data[size..], size)
  }

  function Marked(datas: seq<Bytes>, ecn: byte): (r: seq<Packet>)
    ensures |r| == |datas|
  {
    seq(|datas|, i requires 0 <= i < |datas| => Packet(datas[i], ecn))
  }

  /** The packets that the kernel sends for a message. */
  function Segments(m: Message): seq<Packet> {
    Marked(if m.count > 1 then Cut(m.bytes, m.size) else [m.bytes], m.ecn)
  }

  /** Packets of one size, except that the last may be shorter but not empty. */
  ghost predicate Uniform(datas: seq<Bytes>, size: nat) {
    && datas != []
    && (forall i :: 0 <= i < |datas| - 1 ==> |datas[i]| == size)
    && 0 < |datas[|datas| - 1]| <= size
  }

  /** Cutting undoes the joining of packets of one size. */
  lemma {:induction false} CutIs(datas: seq<Bytes>, size: nat)
    requires Uniform(datas, size)
    ensures Cut(Flatten(datas), size) == datas
  {
    if |datas| == 1 {
      FlattenOne(datas[0]);
      assert datas == [datas[0]];
    } else {
      var rest := datas[1..];
      assert Uniform(rest, size) by {
        assert rest[|rest| - 1] == datas[|datas| - 1];
      }
      CutIs(rest, size);
      NotEmpty(rest);
      assert Flatten(datas) == datas[0] + Flatten(rest);
      assert Flatten(datas)[..size] == datas[0] && Flatten(datas)[size..] == Flatten(rest);
      assert datas == [datas[0]] + rest;
    }
  }

  lemma {:induction false} NotEmpty(datas: seq<Bytes>)
    requires datas != [] && datas[|datas| - 1] != []
    ensures Flatten(datas) != []
  {
    if |datas| == 1 {
      FlattenOne(datas[0]);
      assert datas == [datas[0]];
    } else {
      NotEmpty(datas[1..]);
    }
  }

  // ---- sending

  /** A message made of these packets: one mark, one size, and a shorter one only last and not second. */
  ghost predicate Formed(m: Message, pkts: seq<Packet>) {
    && Uniform(Datas(pkts), m.size)
    && m.bytes == Flat(pkts) && m.count == |pkts| && m.size == |pkts[0].data|
    && (forall i :: 0 <= i < |pkts| ==> pkts[i].ecn == m.ecn)
    && (|pkts| == 2 ==> |pkts[1].data| == m.size)
  }

  /** Whether one more packet can go in the same message. */
  predicate Joins(pkts: seq<Packet>, p: Packet) {
    && pkts != []
    && var size := |pkts[0].data|;
       var last := pkts[|pkts| - 1];
       && |last.data| == size && p.ecn == last.ecn
       && (|p.data| == size || (|p.data| < size && |pkts| >= 2))
  }

  /** The groups cover the packets in order, each message is one of them, and no group could have been longer. */
  ghost predicate Grouped(msgs: seq<Message>, groups: seq<seq<Packet>>, pkts: seq<Packet>) {
    && |msgs| == |groups| && Flatten(groups) == pkts
    && (forall i :: 0 <= i < |msgs| ==> Formed(msgs[i], groups[i]))
    && (forall i :: 0 < i < |groups| ==> groups[i] != [] && !Joins(groups[i - 1], groups[i][0]))
  }

  lemma {:induction false} FormedSegments(m: Message, pkts: seq<Packet>)
    requires Formed(m, pkts)
    ensures Segments(m) == pkts
  {
    CutIs(Datas(pkts), m.size);
    if |pkts| == 1 {
      assert Datas(pkts) == [pkts[0].data];
      FlattenOne(pkts[0].data);
    }
  }

  function AllSegments(msgs: seq<Message>): seq<Packet> {
    if msgs == [] then [] else Segments(msgs[0]) + AllSegments(msgs[1..])
  }

  /** What the kernel sends for the messages is the packets, each with its own bytes and mark, in order. */
  lemma {:induction false} GroupedSegments(msgs: seq<Message>, groups: seq<seq<Packet>>, pkts: seq<Packet>)
    requires |msgs| == |groups| && Flatten(groups) == pkts
    requires forall i :: 0 <= i < |msgs| ==> Formed(msgs[i], groups[i])
    ensures AllSegments(msgs) == pkts
  {
    if msgs == [] {
    } else {
      hide Formed;
      FormedSegments(msgs[0], groups[0]);
      GroupedSegments(msgs[1..], groups[1..], Flatten(groups[1..]));
    }
  }

  ghost predicate OneMessage(pkts: seq<Packet>) {
    exists m :: Formed(m, pkts)
  }

  /** A packet can go in the same message exactly if it makes one with those in it. */
  lemma {:induction false} JoinsExactly(m: Message, group: seq<Packet>, p: Packet)
    requires Formed(m, group) && p.data != []
    ensures Joins(group, p) <==> OneMessage(group + [p])
  {
    var all := group + [p];
    assert all[|group|] == p && forall i :: 0 <= i < |group| ==> all[i] == group[i];
    if Joins(group, p) {
      forall i | 0 <= i < |group|
        ensures |Datas(all)[i]| == m.size
      {
        assert |Datas(group)[i]| == m.size;
      }
      assert Formed(Message(Flat(all), m.size, |all|, m.ecn), all);
    }
    forall m' | Formed(m', all)
      ensures Joins(group, p)
    {
      assert all[|group| - 1].ecn == all[|group|].ecn == m'.ecn && |Datas(all)[|group| - 1]| == m'.size;
    }
  }

  /** So no message could have taken the next packet as well. */
  lemma {:induction false} GroupsAreLongest(msgs: seq<Message>, groups: seq<seq<Packet>>, pkts: seq<Packet>, i: nat)
    requires Grouped(msgs, groups, pkts) && 0 < i < |groups| && groups[i] != [] && groups[i][0].data != []
    ensures !OneMessage(groups[i - 1] + [groups[i][0]])
  {
    hide Formed, Joins, OneMessage;
    JoinsExactly(msgs[i - 1], groups[i - 1], groups[i][0]);
  }

  /** The packets gathered so far for the message being built. */
  ghost predicate Growing(size: nat, count: nat, pkts: seq<Packet>) {
    && count == |pkts|
    && (pkts == [] ==> size == 0)
    && (pkts != [] ==> size == |pkts[0].data| > 0)
    && (forall i :: 0 <= i < |pkts| ==> |pkts[i].data| == size && pkts[i].ecn == pkts[0].ecn)
  }

  lemma {:induction false} GrowingFormed(size: nat, pkts: seq<Packet>, p: Packet)
    requires Growing(size, |pkts|, pkts) && p.data != []
    requires pkts != [] ==> Joins(pkts, p)
    ensures var size' := if size == 0 then |p.data| else size;
            && Formed(Message(Flat(pkts + [p]), size', |pkts| + 1, p.ecn), pkts + [p])
            && (|p.data| == size' ==> Growing(size', |pkts| + 1, pkts + [p]))
  {
    var all := pkts + [p];
    assert all[|pkts|] == p && forall i :: 0 <= i < |pkts| ==> all[i] == pkts[i];
    if |pkts| == 1 {
      assert all[1] == p;
    }
  }

  /** The sender's test for the next packet. */
  lemma {:induction false} JoinsIs(size: nat, pkts: seq<Packet>, p: Packet, q: Packet)
    requires Growing(size, |pkts|, pkts) && p.data != []
    ensures var size' := if size == 0 then |p.data| else size;
            Joins(pkts + [p], q) <==>
              && |p.data| == size' && q.ecn == p.ecn
              && (|q.data| == size' || (|q.data| < size' && |pkts| + 1 >= 2))
  {
    var all := pkts + [p];
    assert all[|all| - 1] == p;
    if pkts != [] {
      assert all[0] == pkts[0];
    }
  }

  /** The state of the grouping after the first i packets, `open` being those of the message not yet closed. */
  ghost predicate Grouping(msgs: seq<Message>, groups: seq<seq<Packet>>, open: seq<Packet>, size: nat,
                           pkts: seq<Packet>, i: nat)
    requires i <= |pkts|
  {
    && Grouped(msgs, groups, Flatten(groups)) && Flatten(groups) + open == pkts[..i]
    && Growing(size, |open|, open)
    && (open != [] ==> i < |pkts| && Joins(open, pkts[i]))
    && (groups != [] && open != [] ==> !Joins(groups[|groups| - 1], open[0]))
    && (groups != [] && open == [] && i < |pkts| ==> !Joins(groups[|groups| - 1], pkts[i]))
  }

  lemma {:induction false} Grow(msgs: seq<Message>, groups: seq<seq<Packet>>, open: seq<Packet>, size: nat,
                                pkts: seq<Packet>, i: nat)
    requires i + 1 < |pkts| && Grouping(msgs, groups, open, size, pkts, i) && pkts[i].data != []
    requires Joins(open + [pkts[i]], pkts[i + 1])
    ensures Grouping(msgs, groups, open + [pkts[i]], if size == 0 then |pkts[i].data| else size, pkts, i + 1)
  {
    hide Grouped, Growing, Joins, Flatten;
    GrowingFormed(size, open, pkts[i]);
    JoinsIs(size, open, pkts[i], pkts[i + 1]);
    assert pkts[..i + 1] == pkts[..i] + [pkts[i]];
  }

  lemma {:induction false} Close(msgs: seq<Message>, groups: seq<seq<Packet>>, open: seq<Packet>, size: nat,
                                 pkts: seq<Packet>, i: nat)
    requires i < |pkts| && Grouping(msgs, groups, open, size, pkts, i) && pkts[i].data != []
    requires i + 1 < |pkts| ==> !Joins(open + [pkts[i]], pkts[i + 1])
    ensures var all := open + [pkts[i]];
            var m := Message(Flat(all), if size == 0 then |pkts[i].data| else size, |all|, pkts[i].ecn);
            Grouping(msgs + [m], groups + [all], [], 0, pkts, i + 1)
  {
    hide Growing, Joins, Flatten, Formed, Flat, Grouped;
    var all := open + [pkts[i]];
    var m := Message(Flat(all), if size == 0 then |pkts[i].data| else size, |all|, pkts[i].ecn);
    GrowingFormed(size, open, pkts[i]);
    Start();
    assert all[0] == if open == [] then pkts[i] else open[0];
    GroupedAppend(msgs, groups, m, all);
    FlattenAppend(groups, all);
    assert pkts[..i + 1] == pkts[..i] + [pkts[i]] == Flatten(groups) + all;
    assert (groups + [all])[|groups|] == all;
  }

  lemma {:induction false} GroupedAppend(msgs: seq<Message>, groups: seq<seq<Packet>>, m: Message, group: seq<Packet>)
    requires Grouped(msgs, groups, Flatten(groups)) && group != [] && Formed(m, group)
    requires groups != [] ==> !Joins(groups[|groups| - 1], group[0])
    ensures Grouped(msgs + [m], groups + [group], Flatten(groups + [group]))
  {
    hide Joins, Flatten, Formed;
    var msgs', groups' := msgs + [m], groups + [group];
    forall k | 0 <= k < |msgs'|
      ensures Formed(msgs'[k], groups'[k])
    {
      if k < |msgs| {
        assert Formed(msgs[k], groups[k]);
      }
    }
    forall k | 0 < k < |groups'|
      ensures groups'[k] != [] && !Joins(groups'[k - 1], groups'[k][0])
    {
      if k < |groups| {
        assert groups'[k] == groups[k] && groups'[k - 1] == groups[k - 1];
      }
    }
  }

  /** Groups the packets of a batch into messages. */
  method Group(bytes: Bytes, sizes: seq<nat>, ecns: seq<byte>, ghost pkts: seq<Packet>)
    returns (msgs: seq<Message>, ghost groups: seq<seq<Packet>>)
    requires bytes == Flat(pkts) && sizes == Sizes(pkts) && ecns == Ecns(pkts)
    requires forall i :: 0 <= i < |pkts| ==> 0 < |pkts[i].data| < 0x1_0000
    ensures Grouped(msgs, groups, pkts)
    ensures AllSegments(msgs) == pkts
  {
    hide Flat, Grouping, Grouped, Joins, Flatten, AllSegments, Growing;
    msgs, groups := [], [];
    var size: nat, count: nat, held: nat, next: nat := 0, 0, 0, 0;
    ghost var open: seq<Packet> := [];
    Start();
    StartGrouping(pkts);
    for i := 0 to |sizes|
      invariant Grouping(msgs, groups, open, size, pkts, i) && count == |open|
      invariant next == |Flat(Flatten(groups))| && held == |Flat(open)|
    {
      ghost var p, closed := pkts[i], Flatten(groups);
      ghost var all := open + [p];
      GroupingIs(msgs, groups, open, size, pkts, i);
      Slice(pkts, closed, all);
      if i + 1 < |sizes| {
        JoinsIs(size, open, p, pkts[i + 1]);
      }
      FlatAppend(open, p);
      ghost var was := size;
      count := count + 1;
      held := held + sizes[i];
      if size == 0 {
        size := sizes[i];
      }
      if i + 1 < |sizes| && sizes[i] == size && ecns[i + 1] == ecns[i]
         && (sizes[i + 1] == size || (sizes[i + 1] < size && count >= 2)) {
        Grow(msgs, groups, open, was, pkts, i);
        open := all;
      } else {
        Close(msgs, groups, open, was, pkts, i);
        msgs := msgs + [Message(bytes[next..next + held], size, count, ecns[i])];
        FlattenAppend(groups, all);
        groups := groups + [all];
        next := next + held;
        size, count, held := 0, 0, 0;
        open := [];
      }
    }
    GroupingEnd(msgs, groups, open, size, pkts);
  }

  lemma {:induction false} StartGrouping(pkts: seq<Packet>)
    ensures Grouping([], [], [], 0, pkts, 0)
  {
  }

  lemma {:induction false} GroupingIs(msgs: seq<Message>, groups: seq<seq<Packet>>, open: seq<Packet>, size: nat,
                                      pkts: seq<Packet>, i: nat)
    requires i < |pkts| && Grouping(msgs, groups, open, size, pkts, i)
    ensures Flatten(groups) + (open + [pkts[i]]) <= pkts && Growing(size, |open|, open)
  {
    hide Grouped, Growing, Joins, Flatten;
    assert pkts[..i + 1] == pkts[..i] + [pkts[i]];
    assert Flatten(groups) + (open + [pkts[i]]) == pkts[..i + 1];
  }

  lemma {:induction false} GroupingEnd(msgs: seq<Message>, groups: seq<seq<Packet>>, open: seq<Packet>, size: nat,
                                       pkts: seq<Packet>)
    requires Grouping(msgs, groups, open, size, pkts, |pkts|)
    ensures Grouped(msgs, groups, pkts) && AllSegments(msgs) == pkts
  {
    hide Joins, Flatten, Formed, AllSegments, Growing;
    assert open == [] && Flatten(groups) == pkts;
    GroupedSegments(msgs, groups, pkts);
  }

  lemma {:induction false} Start()
    ensures Growing(0, 0, []) && Flatten<Packet>([]) == [] && Flat([]) == []
  {
  }

  /** The bytes of a stretch of the packets. */
  lemma {:induction false} Slice(pkts: seq<Packet>, before: seq<Packet>, stretch: seq<Packet>)
    requires before + stretch <= pkts
    ensures var at := |Flat(before)|;
            && at + |Flat(stretch)| <= |Flat(pkts)| && Flat(pkts)[at..at + |Flat(stretch)|] == Flat(stretch)
            && Flat(before + stretch) == Flat(before) + Flat(stretch)
  {
    hide Flat;
    var both := before + stretch;
    FlatSplit(pkts, |both|);
    FlatSplit(both, |before|);
    assert pkts[..|both|] == both && both[..|before|] == before && both[|before|..] == stretch;
  }

  // ---- how many packets the kernel took

  /** The packets of one message that went out, from the bytes the kernel says it took. */
  function TakenOf(m: Message, len: nat): nat
    requires m.size > 0
  {
    if len < |m.bytes| then len / m.size else m.count
  }

  ghost predicate Sized(msgs: seq<Message>) {
    forall i :: 0 <= i < |msgs| ==> msgs[i].size > 0
  }

  function Taken(msgs: seq<Message>, lens: seq<nat>): nat
    requires |lens| == |msgs| && Sized(msgs)
  {
    if msgs == [] then 0 else TakenOf(msgs[0], lens[0]) + Taken(msgs[1..], lens[1..])
  }

  /** The kernel takes whole messages from the front, then whole packets of one message, then nothing. */
  ghost predicate Accepted(msgs: seq<Message>, lens: seq<nat>)
    requires |lens| == |msgs| && Sized(msgs)
  {
    msgs == [] || (
      || (lens[0] == |msgs[0].bytes| && Accepted(msgs[1..], lens[1..]))
      || (lens[0] < |msgs[0].bytes| && lens[0] % msgs[0].size == 0 && forall i :: 0 < i < |lens| ==> lens[i] == 0))
  }

  function AcceptedBytes(msgs: seq<Message>, lens: seq<nat>): Bytes
    requires |lens| == |msgs|
  {
    if msgs == [] then []
    else msgs[0].bytes[..Min(lens[0], |msgs[0].bytes|)] + AcceptedBytes(msgs[1..], lens[1..])
  }

  method CountSent(msgs: seq<Message>, lens: seq<nat>) returns (sent: nat)
    requires |lens| == |msgs| && Sized(msgs)
    ensures sent == Taken(msgs, lens)
  {
    sent := 0;
    assert msgs[0..] == msgs && lens[0..] == lens;
    for i := 0 to |msgs|
      invariant sent + Taken(msgs[i..], lens[i..]) == Taken(msgs, lens)
    {
      assert msgs[i..][1..] == msgs[i + 1..] && lens[i..][1..] == lens[i + 1..];
      if lens[i] < |msgs[i].bytes| {
        sent := sent + lens[i] / msgs[i].size;
      } else {
        sent := sent + msgs[i].count;
      }
    }
  }

  /** The first k of packets of one size. */
  lemma {:induction false} FirstFull(m: Message, pkts: seq<Packet>, k: nat)
    requires Formed(m, pkts) && k < |pkts|
    ensures |Flat(pkts[..k])| == k * m.size
  {
    if k == 0 {
      Start();
      assert pkts[..0] == [];
    } else {
      FirstFull(m, pkts, k - 1);
      FlatAppend(pkts[..k - 1], pkts[k - 1]);
      assert pkts[..k] == pkts[..k - 1] + [pkts[k - 1]];
      assert Datas(pkts)[k - 1] == pkts[k - 1].data;
    }
  }

  /** The bytes of a message that the kernel took are those of its first packets. */
  lemma {:induction false} TakenIs(m: Message, pkts: seq<Packet>, len: nat)
    requires Formed(m, pkts) && len < |m.bytes| && len % m.size == 0
    ensures m.size > 0 && TakenOf(m, len) < |pkts| && m.bytes[..len] == Flat(pkts[..TakenOf(m, len)])
  {
    hide Flat, Uniform;
    var n := |pkts| - 1;
    assert m.size > 0 && |pkts[n].data| <= m.size && pkts != [] by { LastFits(m, pkts); }
    FirstFull(m, pkts, n);
    FlatAppend(pkts[..n], pkts[n]);
    assert pkts[..n] + [pkts[n]] == pkts;
    var k := len / m.size;
    assert len == k * m.size;
    QuotientBound(len, n, m.size);
    FirstFull(m, pkts, k);
    FlatSplit(pkts, k);
  }

  lemma {:induction false} LastFits(m: Message, pkts: seq<Packet>)
    requires Formed(m, pkts)
    ensures m.size > 0 && pkts != [] && |pkts[|pkts| - 1].data| <= m.size
  {
    assert Datas(pkts)[|pkts| - 1] == pkts[|pkts| - 1].data;
  }

  lemma {:induction false} NothingTaken(msgs: seq<Message>, lens: seq<nat>)
    requires |lens| == |msgs| && Sized(msgs)
    requires forall i :: 0 <= i < |lens| ==> lens[i] == 0 && msgs[i].bytes != []
    ensures Taken(msgs, lens) == 0 && AcceptedBytes(msgs, lens) == []
  {
    if msgs == [] {
    } else {
      NothingTaken(msgs[1..], lens[1..]);
    }
  }

  /**
   * If the kernel took what it says it took from the front, the count is exact: the bytes taken are those of
   * that many of the first packets, no more and no less.
   */
  lemma {:induction false} SentIsExact(msgs: seq<Message>, groups: seq<seq<Packet>>, pkts: seq<Packet>, lens: seq<nat>)
    requires |msgs| == |groups| == |lens| && Flatten(groups) == pkts
    requires forall i :: 0 <= i < |msgs| ==> Formed(msgs[i], groups[i]) && msgs[i].size > 0 && msgs[i].bytes != []
    requires Accepted(msgs, lens)
    ensures var sent := Taken(msgs, lens);
            sent <= |pkts| && AcceptedBytes(msgs, lens) == Flat(pkts[..sent])
  {
    hide Formed, Flat;
    if msgs == [] {
      Start();
    } else {
      var m, g, rest := msgs[0], groups[0], Flatten(groups[1..]);
      assert Formed(msgs[0], g);
      FormedIs(m, g);
      assert pkts == g + rest;
      if lens[0] == |m.bytes| {
        SentIsExact(msgs[1..], groups[1..], rest, lens[1..]);
        var n := Taken(msgs[1..], lens[1..]);
        assert pkts[..|g| + n] == g + rest[..n];
        FlatSplit(g + rest[..n], |g|);
        assert (g + rest[..n])[..|g|] == g && (g + rest[..n])[|g|..] == rest[..n];
      } else {
        TakenIs(m, g, lens[0]);
        NothingTaken(msgs[1..], lens[1..]);
        var k := TakenOf(m, lens[0]);
        assert pkts[..k] == g[..k];
      }
    }
  }

  lemma {:induction false} FormedIs(m: Message, pkts: seq<Packet>)
    requires Formed(m, pkts)
    ensures m.bytes == Flat(pkts) && m.count == |pkts|
  {
  }

  // ---- receiving

  /** The pieces make up the data, and are all of the one size but for the last. */
  lemma {:induction false} CutSplits(data: Bytes, size: nat)
    ensures Flatten(Cut(data, size)) == data
    ensures if size == 0 || data == [] then Cut(data, size) == [data] else Uniform(Cut(data, size), size)
    decreases |data|
  {
    if size == 0 || |data| <= size {
      FlattenOne(data);
    } else {
      var rest := Cut(data[size..], size);
      CutSplits(data[size..], size);
      assert ([data[..size]] + rest)[1..] == rest;
      assert data[..size] + data[size..] == data;
    }
  }

  /** Splits what was received as one into the packets it was merged from. */
  method SplitMerged(data: Bytes, segment: nat) returns (pieces: seq<Bytes>)
    ensures pieces == Cut(data, segment)
    ensures Flatten(pieces) == data
    ensures if segment == 0 || data == [] then pieces == [data] else Uniform(pieces, segment)
    ensures forall datas: seq<Bytes> :: Uniform(datas, segment) && Flatten(datas) == data ==> pieces == datas
  {
    CutSplits(data, segment);
    forall datas: seq<Bytes> | Uniform(datas, segment) && Flatten(datas) == data
      ensures Cut(data, segment) == datas
    {
      CutIs(datas, segment);
    }
    if segment == 0 || |data| <= segment {
      return [data];
    }
    pieces := [];
    var rest := data;
    while rest != []
      invariant rest != [] ==> pieces + Cut(rest, segment) == Cut(data, segment)
      invariant rest == [] ==> pieces == Cut(data, segment)
      decreases |rest|
    {
      var len := Min(segment, |rest|);
      assert len == |rest| ==> rest[..len] == rest;
      pieces := pieces + [rest[..len]];
      rest := rest[len..];
    }
  }
}
