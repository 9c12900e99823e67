/**
 * What input the parser of frames takes: a grammar of records and of what may stand at the end, said without the
 * parser.  It refuses exactly the rest.
 */
module FrameGrammar {
  import opened Common
  import opened Framing

  /** A length in digits, a colon, and that much data. */
  datatype Record = Record(digits: Bytes, body: Bytes)

  /** What may follow the last whole record: some digits, or a length with its colon and some of the data. */
  datatype Tail = Digits(digits: Bytes) | Body(digits: Bytes, part: Bytes)

  predicate AllDigits(d: Bytes) {
    |d| <= MAX_PREFIX && forall i :: 0 <= i < |d| ==> IsDigit(d[i])
  }

  /** At most ten digits, the first of several not zero, and a value within the limit; none at all stand for zero. */
  predicate IsLength(d: Bytes, max: nat) {
    AllDigits(d) && (|d| > 1 ==> d[0] != DIGIT0) && Value(d) <= max
  }

  predicate GoodRecord(r: Record, max: nat) {
    IsLength(r.digits, max) && |r.body| == Value(r.digits)
  }

  predicate GoodTail(t: Tail, max: nat) {
    match t
    case Digits(d) => AllDigits(d)
    case Body(d, part) => IsLength(d, max) && |part| < Value(d)
  }

  ghost predicate Good(rs: seq<Record>, t: Tail, max: nat) {
    GoodTail(t, max) && forall i :: 0 <= i < |rs| ==> GoodRecord(rs[i], max)
  }

  function Spell(rs: seq<Record>): Bytes {
    if rs == [] then [] else Spell(Front(rs)) + Last(rs).digits + [COLON] + Last(rs).body
  }

  function SpellTail(t: Tail): Bytes {
    match t
    case Digits(d) => d
    case Body(d, part) => d + [COLON] + part
  }

  /** The frames handed on: the data of the records, in order, empty ones left out. */
  function Frames(rs: seq<Record>): seq<Bytes> {
    if rs == [] then []
    else Frames(Front(rs)) + if Last(rs).body == [] then [] else [Last(rs).body]
  }

  function ParserOf(t: Tail, max: nat): Parser
    requires GoodTail(t, max)
  {
    match t
    case Digits(d) => Parser(d, 0, [])
    case Body(d, part) => Parser([], Value(d), part)
  }

  /** The parser has read just that. */
  ghost predicate HasRead(max: nat, data: Bytes, rs: seq<Record>, t: Tail) {
    && Good(rs, t, max) && data == Spell(rs) + SpellTail(t)
    && Feed(FRESH, max, data) == Parsed(Frames(rs), Some(ParserOf(t, max)))
  }

  /** What one more byte makes of it; None if it cannot stand there. */
  function NextTail(rs: seq<Record>, t: Tail, max: nat, b: byte): Option<(seq<Record>, Tail)>
    requires GoodTail(t, max)
  {
    match t
    case Digits(d) =>
      if IsDigit(b) && |d| < MAX_PREFIX then Some((rs, Digits(d + [b])))
      else if b == COLON && IsLength(d, max) then
        if Value(d) == 0 then Some((rs + [Record(d, [])], Digits([]))) else Some((rs, Body(d, [])))
      else None
    case Body(d, part) =>
      if |part| + 1 == Value(d) then Some((rs + [Record(d, part + [b])], Digits([])))
      else Some((rs, Body(d, part + [b])))
  }

  lemma {:induction false} SpellAppend(rs: seq<Record>, r: Record)
    ensures Spell(rs + [r]) == Spell(rs) + (r.digits + [COLON] + r.body)
    ensures Frames(rs + [r]) == Frames(rs) + if r.body == [] then [] else [r.body]
  {
    assert Front(rs + [r]) == rs;
    assert Spell(rs) + r.digits + [COLON] + r.body == Spell(rs) + (r.digits + [COLON] + r.body);
  }

  /** One more byte is spelt as it came. */
  lemma {:induction false} NextIsSpelt(rs: seq<Record>, t: Tail, max: nat, b: byte)
    requires Good(rs, t, max) && NextTail(rs, t, max, b).Some?
    ensures var (rs', t') := NextTail(rs, t, max, b).value;
            Good(rs', t', max) && Spell(rs') + SpellTail(t') == Spell(rs) + SpellTail(t) + [b]
  {
    hide Spell, Value;
    var (rs', t') := NextTail(rs, t, max, b).value;
    match t
    case Digits(d) =>
      if IsDigit(b) && |d| < MAX_PREFIX {
      } else if Value(d) == 0 {
        SpellAppend(rs, Record(d, []));
        assert d + [COLON] + [] == d + [COLON];
      } else {
        assert d + [COLON] + [] == d + [COLON];
      }
    case Body(d, part) =>
      assert d + [COLON] + (part + [b]) == d + [COLON] + part + [b];
      if |part| + 1 == Value(d) {
        SpellAppend(rs, Record(d, part + [b]));
      }
  }

  /** The parser takes a byte exactly if it can stand there, and is then where the grammar is. */
  lemma {:induction false} OneByte(rs: seq<Record>, t: Tail, max: nat, b: byte)
    requires GoodTail(t, max)
    ensures ParserOf(t, max).Valid(max)
    ensures var r, next := Feed(ParserOf(t, max), max, [b]), NextTail(rs, t, max, b);
            && (next.None? ==> r.end.None?)
            && (next.Some? ==>
                  var (rs', t') := next.value;
                  && GoodTail(t', max)
                  && r.end == Some(ParserOf(t', max)) && Frames(rs') == Frames(rs) + r.frames)
  {
    hide Frames;
    var p := ParserOf(t, max);
    assert [b][1..] == [];
    assert Feed(FRESH, max, []) == NOTHING;
    match t
    case Digits(d) =>
      SpellAppend(rs, Record(d, []));
    case Body(d, part) =>
      SpellAppend(rs, Record(d, part + [b]));
  }

  lemma {:induction false} OneMore(max: nat, data: Bytes, b: byte, rs: seq<Record>, t: Tail)
    requires HasRead(max, data, rs, t)
    ensures var next := NextTail(rs, t, max, b);
            if next.None? then Feed(FRESH, max, data + [b]).end.None?
            else HasRead(max, data + [b], next.value.0, next.value.1)
  {
    hide Feed, NextTail, Spell, Frames, Good, ParserOf;
    GoodIsGood(rs, t, max);
    FeedConcat(FRESH, max, data, [b]);
    OneByte(rs, t, max, b);
    if NextTail(rs, t, max, b).Some? {
      NextIsSpelt(rs, t, max, b);
    }
  }

  lemma {:induction false} GoodIsGood(rs: seq<Record>, t: Tail, max: nat)
    requires Good(rs, t, max)
    ensures GoodTail(t, max)
  {
  }

  lemma {:induction false} NothingRead(max: nat)
    ensures HasRead(max, [], [], Digits([]))
  {
  }

  /** Whatever the parser has not refused is records and a tail, and its frames are theirs. */
  lemma {:induction false} ReadIsSpelt(max: nat, data: Bytes) returns (rs: seq<Record>, t: Tail)
    requires Feed(FRESH, max, data).end.Some?
    ensures HasRead(max, data, rs, t)
    decreases |data|
  {
    hide Feed, NextTail, Spell, Frames;
    if data == [] {
      rs, t := [], Digits([]);
      NothingRead(max);
    } else {
      var front, b := Front(data), Last(data);
      assert data == front + [b];
      FeedConcat(FRESH, max, front, [b]);
      rs, t := ReadIsSpelt(max, front);
      OneMore(max, front, b, rs, t);
      var next := NextTail(rs, t, max, b);
      rs, t := next.value.0, next.value.1;
    }
  }

  /** The last byte, and what stood before it. */
  lemma {:induction false} Unspell(max: nat, rs: seq<Record>, t: Tail) returns (rs': seq<Record>, t': Tail, b: byte)
    requires Good(rs, t, max) && (rs != [] || t != Digits([]))
    ensures Good(rs', t', max) && NextTail(rs', t', max, b) == Some((rs, t))
  {
    hide Value;
    match t
    case Digits(d) =>
      if d != [] {
        rs', t', b := rs, Digits(Front(d)), Last(d);
        assert Front(d) + [b] == d;
      } else {
        var r := Last(rs);
        assert GoodRecord(rs[|rs| - 1], max) && rs == Front(rs) + [r];
        if r.body == [] {
          rs', t', b := Front(rs), Digits(r.digits), COLON;
        } else {
          rs', t', b := Front(rs), Body(r.digits, Front(r.body)), Last(r.body);
          assert Front(r.body) + [b] == r.body;
        }
      }
    case Body(d, part) =>
      if part == [] {
        rs', t', b := rs, Digits(d), COLON;
      } else {
        rs', t', b := rs, Body(d, Front(part)), Last(part);
        assert Front(part) + [b] == part;
      }
  }

  /** Whatever is records and a tail is read as such. */
  lemma {:induction false} SpeltIsRead(max: nat, rs: seq<Record>, t: Tail)
    requires Good(rs, t, max)
    ensures HasRead(max, Spell(rs) + SpellTail(t), rs, t)
    decreases |Spell(rs) + SpellTail(t)|
  {
    hide Feed, HasRead, NextTail, Spell, SpellTail, Good, GoodTail;
    if rs == [] && t == Digits([]) {
      NothingRead(max);
      assert Spell(rs) + SpellTail(t) == [] by { SpellNothing(); }
    } else {
      var rs', t', b := Unspell(max, rs, t);
      GoodIsGood(rs', t', max);
      NextIsSpelt(rs', t', max, b);
      SpeltIsRead(max, rs', t');
      OneMore(max, Spell(rs') + SpellTail(t'), b, rs', t');
    }
  }

  lemma {:induction false} SpellNothing()
    ensures Spell([]) == [] && SpellTail(Digits([])) == []
  {
  }

  /** The input can be spelt in the grammar. */
  ghost predicate InGrammar(max: nat, data: Bytes) {
    exists rs, t :: Good(rs, t, max) && data == Spell(rs) + SpellTail(t)
  }

  /** The parser refuses exactly what the grammar does not spell. */
  lemma {:induction false} RefusesExactly(max: nat, data: Bytes)
    ensures Feed(FRESH, max, data).end.None? <==> !InGrammar(max, data)
  {
    hide Feed, Spell, Good;
    if Feed(FRESH, max, data).end.Some? {
      var rs, t := ReadIsSpelt(max, data);
    }
    if InGrammar(max, data) {
      var rs, t :| Good(rs, t, max) && data == Spell(rs) + SpellTail(t);
      SpeltIsRead(max, rs, t);
    }
  }
}
