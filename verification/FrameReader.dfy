/** The receiving half of a request stream: accumulates the length prefix, then the data, in bulk. */
module FrameReaders {
  import opened Common
  import opened Framing

  datatype Prefix = Incomplete | Length(n: nat) | Refused

  class FrameReader {
    const max: nat
    var sizeBuf: Bytes
    var buf: Bytes
    var currentLen: nat

    ghost function State(): Parser
      reads this
    {
      Parser(sizeBuf, currentLen, buf)
    }

    ghost predicate Valid()
      reads this
    {
      State().Valid(max)
    }

    constructor (max: nat)
      requires 0 < max < LIMIT
      ensures Valid() && State() == FRESH && this.max == max
    {
      this.max := max;
      sizeBuf, buf, currentLen := [], [], 0;
    }

    /** Accumulates digits up to and including the colon, and returns what is left of `req`. */
    method PrefixAccumulator(req: Bytes) returns (r: Prefix, rest: Bytes)
      requires Valid() && currentLen == 0
      modifies this`sizeBuf
      ensures Valid()
      ensures match r
              case Incomplete => rest == [] && Chunk(old(State()), max, req) == Parsed([], Some(State()))
              case Length(n) =>
                && sizeBuf == [] && |rest| < |req|
                && Chunk(old(State()), max, req) ==
                   (if n == 0 then NOTHING
                    else if n > max then Parsed([], None)
                    else Chunk(Parser([], n, []), max, rest))
              case Refused => Chunk(old(State()), max, req) == Parsed([], None)
    {
      var i := 0;
      while i < |req|
        invariant 0 <= i <= |req| && Valid()
        invariant Chunk(old(State()), max, req) == Chunk(State(), max, req[i..])
      {
        assert req[i..][0] == req[i] && req[i..][1..] == req[i + 1..];
        if IsDigit(req[i]) {
          if |sizeBuf| + 1 > MAX_PREFIX {
            return Refused, req;
          }
          sizeBuf := sizeBuf + [req[i]];
        } else if req[i] == COLON {
          if |sizeBuf| > 1 && sizeBuf[0] == DIGIT0 {
            return Refused, req;
          }
          var n := Value(sizeBuf);
          sizeBuf := [];
          return Length(n), req[i + 1..];
        } else {
          return Refused, req;
        }
        i := i + 1;
      }
      return Incomplete, [];
    }

    /** Moves data into the frame's buffer, up to its length. */
    method DataAccumulator(req: Bytes) returns (complete: bool, rest: Bytes)
      requires |buf| < currentLen
      modifies this`buf
      ensures complete == (|old(buf)| + |req| >= currentLen)
      ensures var n := currentLen - |old(buf)|;
              if complete then buf == old(buf) + req[..n] && rest == req[n..]
              else buf == old(buf) + req && rest == []
    {
      var n := Min(|buf| + |req|, currentLen) - |buf|;
      buf := buf + req[..n];
      rest := req[n..];
      complete := |buf| == currentLen;
    }

    /** Takes a chunk of the stream; returns the frames completed, and whether the input was valid. */
    method ProcessIncoming(chunk: Bytes) returns (frames: seq<Bytes>, ok: bool)
      requires Valid()
      modifies this
      ensures var r := Chunk(old(State()), max, chunk);
              frames == r.frames && ok == r.end.Some? && (ok ==> Valid() && State() == r.end.value)
    {
      hide Chunk, Byte;
      frames, ok := [], true;
      var req := chunk;
      while req != []
        invariant Valid() && ok
        invariant Chunk(old(State()), max, chunk) == Prepend(frames, Chunk(State(), max, req))
        decreases |req|
      {
        if currentLen == 0 {
          ghost var before := State();
          var r, rest := PrefixAccumulator(req);
          if r.Refused? {
            return frames, false;
          }
          if r.Incomplete? {
            return;
          }
          if r.n == 0 {
            return;
          }
          if r.n > max {
            return frames, false;
          }
          currentLen := r.n;
          req := rest;
        }
        ghost var p, all := State(), req;
        var complete, rest := DataAccumulator(req);
        BulkData(p, max, all);
        if complete {
          PrependTwice(frames, [buf], Chunk(FRESH, max, rest));
          frames := frames + [buf];
          buf := [];
          currentLen := 0;
        } else {
          NoMore(State(), max);
        }
        req := rest;
      }
      NoMore(State(), max);
    }
  }

  lemma {:induction false} PrependTwice(a: seq<Bytes>, b: seq<Bytes>, r: Parsed)
    ensures Prepend(a, Prepend(b, r)) == Prepend(a + b, r)
  {
    assert a + (b + r.frames) == (a + b) + r.frames;
  }

  lemma {:induction false} NoMore(p: Parser, max: nat)
    requires p.Valid(max)
    ensures Chunk(p, max, []) == Parsed([], Some(p))
  {
  }

  /** Data taken in bulk is data taken byte by byte. */
  lemma {:induction false} BulkData(p: Parser, max: nat, data: Bytes)
    requires p.Valid(max) && p.len > 0
    ensures var n := p.len - |p.buf|;
            if |data| >= n then
              Chunk(p, max, data) == Prepend([p.buf + data[..n]], Chunk(FRESH, max, data[n..]))
            else
              Chunk(p, max, data) == Parsed([], Some(p.(buf := p.buf + data)))
    decreases |data|
  {
    if data == [] {
      assert p.buf + data == p.buf;
    } else {
      var n := p.len - |p.buf|;
      if n == 1 {
        assert p.buf + data[..1] == p.buf + [data[0]];
      } else {
        var p' := p.(buf := p.buf + [data[0]]);
        BulkData(p', max, data[1..]);
        assert p'.buf + data[1..] == p.buf + data;
        if |data| >= n {
          assert data[1..][..n - 1] == data[1..n] && data[1..][n - 1..] == data[n..];
          assert p'.buf + data[1..n] == p.buf + data[..n];
        }
      }
    }
  }
}
