/** Association lists from words to values: the model of the source's
    `HashMap`s.  The list keeps the keys in first-insertion order; every
    property stated about a map in this model holds for any order. */
module AssocLists {

  /** The keys of the list. */
  function Keys<V>(entries: seq<(string, V)>): set<string> {
    set i | 0 <= i < |entries| :: entries[i].0
  }

  /** No word is a key twice. */
  predicate Distinct<V>(entries: seq<(string, V)>) {
    forall i, j | 0 <= i < j < |entries| :: entries[i].0 != entries[j].0
  }

  lemma DistinctTail<V>(entries: seq<(string, V)>)
    requires Distinct(entries) && |entries| > 0
    ensures Distinct(entries[1..])
  {
    forall i, j | 0 <= i < j < |entries| - 1
      ensures entries[1..][i].0 != entries[1..][j].0
    {
      assert entries[1..][i] == entries[i + 1] && entries[1..][j] == entries[j + 1];
    }
  }

  /** The keys of a non-empty list are its first key and the keys of the
      rest. */
  lemma KeysCons<V>(entries: seq<(string, V)>)
    requires |entries| > 0
    ensures Keys(entries) == {entries[0].0} + Keys(entries[1..])
  {
    forall v | v in Keys(entries)
      ensures v in {entries[0].0} + Keys(entries[1..])
    {
      var i :| 0 <= i < |entries| && entries[i].0 == v;
      if i > 0 {
        assert entries[1..][i - 1] == entries[i];
      }
    }
  }

  /** A key put in front of a distinct list it does not occur in keeps the
      list distinct. */
  lemma DistinctCons<V>(e: (string, V), rest: seq<(string, V)>)
    requires Distinct(rest) && e.0 !in Keys(rest)
    ensures Distinct([e] + rest)
  {
    var r := [e] + rest;
    forall i, j | 0 <= i < j < |r|
      ensures r[i].0 != r[j].0
    {
      assert r[j] == rest[j - 1];
      if i > 0 {
        assert r[i] == rest[i - 1];
      }
    }
  }

  /** Reordering a list keeps its keys and, when distinct, keeps them
      distinct. */
  lemma KeysOfPermutation<V>(a: seq<(string, V)>, b: seq<(string, V)>)
    requires multiset(a) == multiset(b)
    ensures Keys(a) == Keys(b)
    ensures Distinct(a) ==> Distinct(b)
  {
    if Distinct(a) {
      forall i, j | 0 <= i < j < |b|
        ensures b[i].0 != b[j].0
      {
        SharedKey(a, b, i, j);
      }
    }
    forall v | v in Keys(a)
      ensures v in Keys(b)
    {
      var i :| 0 <= i < |a| && a[i].0 == v;
      assert a[i] in multiset(b);
    }
    forall v | v in Keys(b)
      ensures v in Keys(a)
    {
      var i :| 0 <= i < |b| && b[i].0 == v;
      assert b[i] in multiset(a);
    }
  }

  /** A distinct list holds each entry at most once. */
  lemma {:induction false} DistinctOnce<V>(a: seq<(string, V)>, e: (string, V))
    requires Distinct(a)
    ensures multiset(a)[e] <= 1
    decreases |a|
  {
    if |a| > 0 {
      DistinctTail(a);
      DistinctOnce(a[1..], e);
      assert a == [a[0]] + a[1..];
      if e == a[0] {
        forall k | 0 <= k < |a| - 1
          ensures a[1..][k] != e
        {
          assert a[1..][k] == a[k + 1];
        }
        assert e !in a[1..];
      }
    }
  }

  /** An entry at two positions is counted at least twice. */
  lemma TwiceCounted<V>(b: seq<(string, V)>, i: nat, j: nat)
    requires i < j < |b| && b[i] == b[j]
    ensures multiset(b)[b[j]] >= 2
  {
    assert b == b[..j] + [b[j]] + b[j + 1..];
    assert b[..j][i] == b[j];
  }

  /** Two entries of `b` with the same key come from two entries of `a`
      with that key, so `a` is not distinct. */
  lemma SharedKey<V>(a: seq<(string, V)>, b: seq<(string, V)>, i: nat, j: nat)
    requires multiset(a) == multiset(b) && i < j < |b|
    ensures b[i].0 == b[j].0 ==> !Distinct(a)
  {
    if b[i].0 == b[j].0 {
      if b[i] == b[j] {
        TwiceCounted(b, i, j);
        if Distinct(a) {
          DistinctOnce(a, b[j]);
        }
      } else {
        assert b[i] in multiset(a) && b[j] in multiset(a);
        var p :| 0 <= p < |a| && a[p] == b[i];
        var q :| 0 <= q < |a| && a[q] == b[j];
        if p < q {
          assert a[p].0 == a[q].0;
        } else {
          assert a[q].0 == a[p].0;
        }
      }
    }
  }
}
