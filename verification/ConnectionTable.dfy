/** The endpoint's connection maps. */
module ConnectionTables {
  import opened Common
  import opened ConnectionLookup

  class ConnectionTable {
    var lookup: map<Cid, Rid>
    var conns: map<Rid, Ptr>
    var cids: map<Rid, set<Cid>>
    var last: Option<Hit>

    ghost function State(): State
      reads this
    {
      ConnectionLookup.State(lookup, conns, cids, last)
    }

    constructor ()
      ensures State() == START && Inv(State())
    {
      lookup, conns, cids, last := map[], map[], map[], None;
    }

    /** The first of the random IDs that is not taken. */
    static ghost predicate FirstFree(random: nat -> Cid, taken: map<Cid, Rid>, c: Cid) {
      c !in taken && exists i: nat :: random(i) == c && forall j: nat :: j < i ==> random(j) in taken
    }

    /** Tries random IDs in turn; there is a free one, at `free`. */
    method PickCid(random: nat -> Cid, ghost free: nat) returns (c: Cid)
      requires random(free) !in lookup
      ensures FirstFree(random, lookup, c)
    {
      var i: nat := 0;
      while random(i) in lookup
        invariant i <= free && forall j: nat :: j < i ==> random(j) in lookup
        decreases free - i
      {
        i := i + 1;
      }
      c := random(i);
    }

    /** Adds a connection; `conn` is what its constructor gives, or None if that fails. */
    method AddConnection(r: Rid, conn: Option<Ptr>, random: nat -> Cid, ghost free: nat) returns (c: Cid)
      requires Inv(State()) && r !in conns && random(free) !in lookup
      modifies this
      ensures FirstFree(random, old(lookup), c) && Inv(State())
      ensures conn.Some? ==> State() == Step(old(State()), DoOpen(r, conn.value, c))
      ensures conn.None? ==> State() == Step(old(State()), DoFail)
      ensures conn.None? ==> lookup == old(lookup) && conns == old(conns) && cids == old(cids)
      ensures forall x :: Uncached(State(), x) == if x == c then conn else Uncached(old(State()), x)
    {
      hide Inv;
      c := PickCid(random, free);
      assert r !in cids by { SameKeys(State()); }
      StepInv(State(), if conn.Some? then DoOpen(r, conn.value, c) else DoFail);
      lookup := lookup[c := r];
      if conn.None? {
        lookup := lookup - {c};
        last := None;
        assert lookup == old(lookup);
        return;
      }
      conns := conns[r := conn.value];
      cids := cids[r := {}];
      AssociateCid(c, r, false);
      assert {} + {c} == {c};
      assert cids == old(cids)[r := {}][r := {c}] == old(cids)[r := {c}];
      forall x
        ensures Uncached(State(), x) == if x == c then conn else Uncached(old(State()), x)
      {
        OpenedIsFound(old(State()), r, conn.value, c, x);
      }
    }

    static lemma {:induction false} SameKeys(s: State)
      requires Inv(s)
      ensures s.conns.Keys == s.cids.Keys
    {
    }

    /**
     * Every ID that led somewhere still leads there; a new one leads to this connection, which records it.  One
     * that is taken is recorded only if it is not claimed weakly.
     */
    method AssociateCid(c: Cid, r: Rid, weakly: bool)
      requires r in cids
      modifies this`lookup, this`cids
      ensures State() == Associate(old(State()), c, r, weakly)
      ensures forall x :: x in old(lookup) ==> x in lookup && Uncached(State(), x) == Uncached(old(State()), x)
      ensures c in lookup && (c !in old(lookup) && r in conns ==> Uncached(State(), c) == Some(conns[r]))
      ensures c in cids[r] <==> c in old(cids[r]) || c !in old(lookup) || !weakly
      ensures old(Inv(State())) && r in conns ==> Inv(State())
    {
      hide Inv;
      if Inv(State()) && r in conns {
        AssociateInv(State(), c, r, weakly);
      }
      var inserted := c !in lookup;
      if inserted {
        lookup := lookup[c := r];
      }
      if inserted || !weakly {
        cids := cids[r := cids[r] + {c}];
      }
    }

    /** The ID leads nowhere, cached or not, and every other ID where it did. */
    method DissociateCid(c: Cid, r: Rid)
      requires r in cids
      modifies this`lookup, this`cids, this`last
      ensures State() == Dissociate(old(State()), c, r)
      ensures Fetch(State(), c).1 == None && c !in cids[r]
      ensures forall x :: x != c ==> Fetch(State(), x).1 == Uncached(old(State()), x)
      ensures old(Inv(State())) && r in conns ==> Inv(State())
    {
      hide Inv;
      if Inv(State()) && r in conns {
        DissociateInv(State(), c, r);
      }
      lookup := lookup - {c};
      last := None;
      cids := cids[r := cids[r] - {c}];
    }

    method FetchAssociatedConn(c: Cid) returns (conn: Option<Ptr>)
      requires Inv(State())
      modifies this`last
      ensures conn == Uncached(old(State()), c)
      ensures last == if conn.Some? then Some(Hit(c, conn.value)) else old(last)
      ensures State() == Step(old(State()), DoFetch(c)) && Inv(State())
    {
      StepInv(State(), DoFetch(c));
      if last.Some? && last.value.cid == c {
        return Some(last.value.conn);
      }
      if c in lookup && lookup[c] in conns {
        last := Some(Hit(c, conns[lookup[c]]));
        return Some(last.value.conn);
      }
      return None;
    }

    method DeleteConnection(r: Rid)
      requires Inv(State()) && r in conns && r in cids
      modifies this
      ensures State() == Step(old(State()), DoDelete(r)) && Inv(State())
      ensures conns == old(conns) - {r} && last == None
    {
      hide Inv;
      StepInv(State(), DoDelete(r));
      while cids[r] != {}
        invariant r in cids && cids[r] <= old(cids[r]) && cids == old(cids)[r := cids[r]]
        invariant lookup == old(lookup) - (old(cids[r]) - cids[r]) && conns == old(conns)
        decreases cids[r]
      {
        var c :| c in cids[r];
        DissociateCid(c, r);
      }
      assert cids - {r} == old(cids) - {r};
      conns := conns - {r};
      cids := cids - {r};
      last := None;
    }
  }
}
