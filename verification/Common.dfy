/** Types and sequence facts shared by the other modules. */
module Common {

  newtype byte = x: int | 0 <= x < 256

  type Bytes = seq<byte>

  datatype Option<+T> = None | Some(value: T)

  function Min(a: nat, b: nat): nat {
    if a <= b then a else b
  }

  function Last<T>(s: seq<T>): T
    requires s != []
  {
    s[|s| - 1]
  }

  function Front<T>(s: seq<T>): seq<T>
    requires s != []
  {
    s[..|s| - 1]
  }

  function Map<T, U>(xs: seq<T>, f: T -> U): (r: seq<U>)
    ensures |r| == |xs|
  {
    seq(|xs|, i requires 0 <= i < |xs| => f(xs[i]))
  }

  function Without<T>(xs: seq<T>, i: nat): seq<T>
    requires i < |xs|
  {
    xs[..i] + xs[i + 1..]
  }

  /** The concatenation of a list of sequences. */
  function Flatten<T>(xs: seq<seq<T>>): seq<T> {
    if xs == [] then [] else xs[0] + Flatten(xs[1..])
  }

  lemma {:induction false} FlattenConcat<T>(a: seq<seq<T>>, b: seq<seq<T>>)
    ensures Flatten(a + b) == Flatten(a) + Flatten(b)
  {
    if a == [] {
      assert a + b == b;
    } else {
      assert (a + b)[0] == a[0] && (a + b)[1..] == a[1..] + b;
      FlattenConcat(a[1..], b);
    }
  }

  lemma {:induction false} FlattenSplit<T>(xs: seq<seq<T>>, i: nat)
    requires i <= |xs|
    ensures Flatten(xs) == Flatten(xs[..i]) + Flatten(xs[i..])
  {
    assert xs == xs[..i] + xs[i..];
    FlattenConcat(xs[..i], xs[i..]);
  }

  lemma {:induction false} FlattenOne<T>(x: seq<T>)
    ensures Flatten([x]) == x
  {
    assert Flatten([x]) == x + Flatten<T>([x][1..]);
  }

  lemma {:induction false} FlattenAppend<T>(xs: seq<seq<T>>, x: seq<T>)
    ensures Flatten(xs + [x]) == Flatten(xs) + x
  {
    FlattenConcat(xs, [x]);
    FlattenOne(x);
  }

  /** The elements of a, in order, are among those of b. */
  predicate Subsequence<T(==)>(a: seq<T>, b: seq<T>) {
    || a == []
    || (b != [] && ((Last(a) == Last(b) && Subsequence(Front(a), Front(b))) || Subsequence(a, Front(b))))
  }

  lemma {:induction false} SubsequenceAppend<T>(a: seq<T>, b: seq<T>, x: T)
    requires Subsequence(a, b)
    ensures Subsequence(a, b + [x]) && Subsequence(a + [x], b + [x])
  {
    assert Front(b + [x]) == b && Front(a + [x]) == a;
  }

  lemma {:induction false} SubsequenceConcat<T>(a: seq<T>, b: seq<T>, c: seq<T>)
    requires Subsequence(a, b)
    ensures Subsequence(a + c, b + c)
    decreases |c|
  {
    if c == [] {
      assert a + c == a && b + c == b;
    } else {
      SubsequenceConcat(a, b, Front(c));
      SubsequenceAppend(a + Front(c), b + Front(c), Last(c));
      assert a + Front(c) + [Last(c)] == a + c && b + Front(c) + [Last(c)] == b + c;
    }
  }

  lemma {:induction false} SubsequencePrefix<T>(a: seq<T>, c: seq<T>)
    ensures Subsequence(a, a + c)
    decreases |a| + |c|
  {
    if c != [] {
      SubsequencePrefix(a, Front(c));
      SubsequenceAppend(a, a + Front(c), Last(c));
      assert a + Front(c) + [Last(c)] == a + c;
    } else {
      assert a + c == a;
      SubsequenceSelf(a);
    }
  }

  lemma {:induction false} SubsequenceMiddle<T>(a: seq<T>, b: seq<T>, c: seq<T>)
    ensures Subsequence(a + c, a + b + c)
  {
    hide Subsequence;
    SubsequencePrefix(a, b);
    SubsequenceConcat(a, a + b, c);
  }

  lemma {:induction false} SubsequencePrepend<T>(p: seq<T>, a: seq<T>, b: seq<T>)
    requires Subsequence(a, b)
    ensures Subsequence(p + a, p + b)
    decreases |b|
  {
    if a == [] {
      assert p + a == p;
      SubsequencePrefix(p, b);
    } else {
      assert Front(p + b) == p + Front(b) && Front(p + a) == p + Front(a);
      if Last(a) == Last(b) && Subsequence(Front(a), Front(b)) {
        SubsequencePrepend(p, Front(a), Front(b));
      } else {
        SubsequencePrepend(p, a, Front(b));
      }
    }
  }

  lemma {:induction false} SubsequenceSkip<T>(a: seq<T>, x: T, b: seq<T>)
    requires Subsequence(a, b)
    ensures Subsequence(a, [x] + b)
  {
    hide Subsequence;
    SubsequenceMiddle([], [x], b);
    assert [] + b == b && [] + [x] + b == [x] + b;
    SubsequenceTransitive(a, b, [x] + b);
  }

  lemma {:induction false} SubsequenceSelf<T>(a: seq<T>)
    ensures Subsequence(a, a)
  {
    if a != [] {
      SubsequenceSelf(Front(a));
    }
  }

  lemma {:induction false} SubsequenceTransitive<T>(a: seq<T>, b: seq<T>, c: seq<T>)
    requires Subsequence(a, b) && Subsequence(b, c)
    ensures Subsequence(a, c)
    decreases |c|
  {
    if a != [] {
      if Last(b) == Last(c) && Subsequence(Front(b), Front(c)) {
        if Last(a) == Last(b) && Subsequence(Front(a), Front(b)) {
          SubsequenceTransitive(Front(a), Front(b), Front(c));
        } else {
          SubsequenceTransitive(a, Front(b), Front(c));
        }
      } else {
        SubsequenceTransitive(a, b, Front(c));
      }
    }
  }
}
