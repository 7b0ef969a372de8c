/** A sequence of statements among the transactions of others.  `others(n)` are the transactions that
    commit immediately before statement number `n`; a statement commits at most one of its own. */
module Interleavings {
  import opened Entities

  function AsSeq<E>(own: Option<E>): seq<E> {
    if own.Some? then [own.value] else []
  }

  /** Everything committed during the statements `n`, `n + 1`, ... whose own transactions are `own`. */
  function Woven<E>(others: nat -> seq<E>, n: nat, own: seq<Option<E>>): seq<E>
    decreases |own|
  {
    if own == [] then [] else others(n) + AsSeq(own[0]) + Woven(others, n + 1, own[1..])
  }

  lemma {:induction false} WovenAppend<E>(others: nat -> seq<E>, n: nat, a: seq<Option<E>>, b: seq<Option<E>>)
    ensures Woven(others, n, a + b) == Woven(others, n, a) + Woven(others, n + |a|, b)
    decreases |a|
  {
    if a == [] {
      assert a + b == b;
    } else {
      assert (a + b)[1..] == a[1..] + b;
      WovenAppend(others, n + 1, a[1..], b);
    }
  }

  lemma WovenLast<E>(others: nat -> seq<E>, n: nat, a: seq<Option<E>>, x: Option<E>)
    ensures Woven(others, n, a + [x]) == Woven(others, n, a) + (others(n + |a|) + AsSeq(x))
  {
    WovenAppend(others, n, a, [x]);
    assert [x][1..] == [];
    assert Woven(others, n + |a|, [x]) == others(n + |a|) + AsSeq(x) + [];
  }
}
