/** Arrays that hold groups of equal size one after another: pixels of samples, windows of weights. */
module Chunks {
  import opened Bits

  /** Groups one after another. */
  function Flat<T>(ps: seq<seq<T>>): (r: seq<T>)
  {
    if |ps| == 0 then [] else Flat(ps[..|ps| - 1]) + ps[|ps| - 1]
  }

  lemma {:induction false} FlatConcat<T>(a: seq<seq<T>>, b: seq<seq<T>>)
    ensures Flat(a + b) == Flat(a) + Flat(b)
    decreases |b|
  {
    if |b| == 0 {
      assert a + b == a;
    } else {
      var n := |b| - 1;
      assert (a + b)[..|a + b| - 1] == a + b[..n];
      FlatConcat(a, b[..n]);
    }
  }

  lemma FlatSnoc<T>(ps: seq<seq<T>>, p: seq<T>)
    ensures Flat(ps + [p]) == Flat(ps) + p
  {
    assert (ps + [p])[..|ps|] == ps;
  }

  ghost predicate Wide<T>(ps: seq<seq<T>>, n: nat)
  {
    forall k | 0 <= k < |ps| :: |ps[k]| == n
  }

  lemma FlatFrom<T>(ps: seq<seq<T>>, k: nat)
    requires k < |ps|
    ensures Flat(ps[k..]) == ps[k] + Flat(ps[k + 1..])
  {
    assert ps[k..] == [ps[k]] + ps[k + 1..];
    FlatConcat([ps[k]], ps[k + 1..]);
    FlatOne(ps[k]);
  }

  lemma FlatParts<T>(ps: seq<seq<T>>, k: nat)
    requires k < |ps|
    ensures Flat(ps) == Flat(ps[..k]) + (ps[k] + Flat(ps[k + 1..]))
  {
    FlatFrom(ps, k);
    FlatJoin(ps, ps[..k], ps[k..]);
  }

  lemma FlatJoin<T>(ps: seq<seq<T>>, a: seq<seq<T>>, b: seq<seq<T>>)
    requires ps == a + b
    ensures Flat(ps) == Flat(a) + Flat(b)
  {
    FlatConcat(a, b);
  }

  lemma FlatPieces<T>(t: seq<T>, a: seq<T>, b: seq<T>, c: seq<T>)
    requires t == a + (b + c)
    ensures t[..|a|] == a && t[|a|..|a| + |b|] == b && t[|a| + |b|..] == c && t == a + b + c
  {
  }

  lemma FlatOne<T>(p: seq<T>)
    ensures Flat([p]) == p
  {
    assert [p][..0] == [];
    assert Flat([]) + p == p;
  }

  lemma {:induction false} FlatWide<T>(ps: seq<seq<T>>, n: nat)
    requires Wide(ps, n)
    ensures |Flat(ps)| == Times(|ps|, n)
    decreases |ps|
  {
    if |ps| == 0 {
    } else {
      FlatWide(ps[..|ps| - 1], n);
    }
  }

  /** Where group k is. */
  lemma FlatGroup<T>(ps: seq<seq<T>>, n: nat, k: nat)
    requires Wide(ps, n) && k < |ps|
    ensures |Flat(ps)| == Times(|ps|, n) && Times(k, n) + n <= Times(|ps|, n)
    ensures Flat(ps)[..Times(k, n)] == Flat(ps[..k]) && Flat(ps)[Times(k, n)..Times(k, n) + n] == ps[k]
    ensures Flat(ps)[Times(k, n) + n..] == Flat(ps[k + 1..])
  {
    FlatParts(ps, k);
    FlatWide(ps[..k], n);
    FlatWide(ps, n);
    TimesMono(k + 1, |ps|, n);
    FlatPieces(Flat(ps), Flat(ps[..k]), ps[k], Flat(ps[k + 1..]));
  }

  /** Replacing one group replaces its elements. */
  lemma FlatUpdate<T>(ps: seq<seq<T>>, n: nat, k: nat, v: seq<T>)
    requires Wide(ps, n) && k < |ps| && |v| == n
    ensures |Flat(ps)| == Times(|ps|, n) && Times(k, n) + n <= Times(|ps|, n)
    ensures Flat(ps[k := v]) == Flat(ps)[..Times(k, n)] + (v + Flat(ps)[Times(k, n) + n..])
  {
    FlatGroup(ps, n, k);
    FlatParts(ps[k := v], k);
    assert ps[k := v][..k] == ps[..k] && ps[k := v][k + 1..] == ps[k + 1..];
  }
}
