/**
 * A dictionary that remembers the order of its keys: Python's `dict` and `OrderedDict`,
 * Java's `LinkedHashMap` in insertion and in access order.
 */
module OrderedMaps {

  /** The members of `keep`, in the order they have in `order`. */
  function Select<K(==)>(order: seq<K>, keep: set<K>): seq<K> {
    if order == [] then []
    else (if order[0] in keep then [order[0]] else []) + Select(order[1..], keep)
  }

  function Elements<K>(order: seq<K>): set<K> {
    set k | k in order
  }

  ghost predicate Distinct<K>(order: seq<K>) {
    forall i, j :: 0 <= i < j < |order| ==> order[i] != order[j]
  }

  datatype OMap<K(==), V> = OMap(order: seq<K>, at: map<K, V>) {

    ghost predicate Valid() {
      Distinct(order) && Elements(order) == at.Keys
    }

    /** `m[k] = v`: an old key keeps its place, a new one goes last. */
    function Put(k: K, v: V): OMap<K, V> {
      OMap(if k in at then order else order + [k], at[k := v])
    }

    function KeepOnly(keep: set<K>): OMap<K, V> {
      OMap(Select(order, keep), map k | k in at && k in keep :: at[k])
    }

    function Remove(k: K): OMap<K, V> {
      KeepOnly(at.Keys - {k})
    }

    function MoveToEnd(k: K): OMap<K, V> {
      OMap(Select(order, Elements(order) - {k}) + [k], at)
    }
  }

  function EmptyMap<K(==), V>(): OMap<K, V> {
    OMap([], map[])
  }

  lemma {:induction false} SelectMembers<K>(order: seq<K>, keep: set<K>)
    ensures Elements(Select(order, keep)) == Elements(order) * keep
    ensures |Select(order, keep)| <= |order|
    ensures Distinct(order) ==> Distinct(Select(order, keep))
  {
    if order != [] {
      var rest := order[1..];
      SelectMembers(rest, keep);
      assert order == [order[0]] + rest;
      assert Elements(order) == {order[0]} + Elements(rest);
      var head := if order[0] in keep then [order[0]] else [];
      assert Elements(Select(order, keep)) == Elements(head) + Elements(Select(rest, keep));
      if Distinct(order) {
        assert forall j :: 0 <= j < |rest| ==> rest[j] == order[j + 1];
        assert order[0] !in Elements(rest);
        var tail := Select(rest, keep);
        assert order[0] !in Elements(tail);
        forall j | 0 <= j < |tail| ensures tail[j] != order[0] {
          assert tail[j] in Elements(tail);
        }
        assert Distinct(head + tail);
      }
    }
  }

  lemma {:induction false} SelectAll<K>(order: seq<K>, keep: set<K>)
    requires Elements(order) <= keep
    ensures Select(order, keep) == order
  {
    if order != [] {
      assert forall k :: k in order[1..] ==> k in order;
      assert order[0] in Elements(order);
      SelectAll(order[1..], keep);
    }
  }

  lemma {:induction false} SelectAppend<K>(a: seq<K>, b: seq<K>, keep: set<K>)
    ensures Select(a + b, keep) == Select(a, keep) + Select(b, keep)
  {
    if a == [] {
      assert a + b == b;
    } else {
      assert (a + b)[1..] == a[1..] + b;
      SelectAppend(a[1..], b, keep);
      var head := if a[0] in keep then [a[0]] else [];
      assert Select(a + b, keep) == head + Select(a[1..] + b, keep);
      assert head + (Select(a[1..], keep) + Select(b, keep)) == (head + Select(a[1..], keep)) + Select(b, keep);
    }
  }

  lemma SelectNone<K>(k: K, keep: set<K>)
    requires k !in keep
    ensures Select([k], keep) == []
  {
  }

  /** Dropping the first key is removing it. */
  lemma RemoveFirst<K, V>(m: OMap<K, V>)
    requires m.Valid() && m.order != []
    ensures m.Remove(m.order[0]).order == m.order[1..]
    ensures m.Remove(m.order[0]).Valid()
  {
    var k := m.order[0];
    assert k in m.at;
    forall x | x in m.order[1..] ensures x in m.at.Keys - {k} {
      var i :| 0 <= i < |m.order| - 1 && m.order[i + 1] == x;
      assert x in Elements(m.order);
    }
    SelectAll(m.order[1..], m.at.Keys - {k});
    SelectMembers(m.order, m.at.Keys - {k});
  }

  lemma KeepOnlyValid<K, V>(m: OMap<K, V>, keep: set<K>)
    requires m.Valid()
    ensures m.KeepOnly(keep).Valid()
  {
    SelectMembers(m.order, keep);
  }

  lemma PutValid<K, V>(m: OMap<K, V>, k: K, v: V)
    requires m.Valid()
    ensures m.Put(k, v).Valid()
  {
    if k !in m.at {
      assert k !in Elements(m.order);
    }
  }

  lemma MoveToEndValid<K, V>(m: OMap<K, V>, k: K)
    requires m.Valid() && k in m.at
    ensures m.MoveToEnd(k).Valid()
  {
    SelectMembers(m.order, Elements(m.order) - {k});
    var moved := m.MoveToEnd(k);
    assert k in Elements(m.order);
    assert Elements(moved.order) == Elements(Select(m.order, Elements(m.order) - {k})) + {k};
  }

  lemma SelectOthers<K>(order: seq<K>, k: K)
    requires k !in order
    ensures Select(order + [k], Elements(order + [k]) - {k}) == order
  {
    var keep := Elements(order + [k]) - {k};
    SelectAppend(order, [k], keep);
    SelectNone(k, keep);
    forall x | x in order ensures x in keep {
      assert x in order + [k];
    }
    SelectAll(order, keep);
  }

  /** A key just added at the end is already last. */
  lemma MoveNewKey<K, V>(m: OMap<K, V>, k: K, v: V)
    requires m.Valid() && k !in m.at
    ensures m.Put(k, v).MoveToEnd(k) == m.Put(k, v)
  {
    assert k !in Elements(m.order);
    SelectOthers(m.order, k);
  }

  lemma {:induction false} DistinctCardinality<K>(order: seq<K>)
    requires Distinct(order)
    ensures |Elements(order)| == |order|
  {
    if order != [] {
      var rest, last := order[..|order| - 1], order[|order| - 1];
      DistinctCardinality(rest);
      assert order == rest + [last];
      assert Elements(order) == Elements(rest) + {last};
      assert last !in Elements(rest);
    }
  }

  function Below(n: nat): (s: set<nat>)
    ensures forall x: nat :: x in s <==> x < n
  {
    if n == 0 then {} else Below(n - 1) + {n - 1}
  }

  lemma {:induction false} BelowCardinality(n: nat)
    ensures |Below(n)| == n
  {
    if n > 0 {
      BelowCardinality(n - 1);
      assert Below(n) == Below(n - 1) + {n - 1};
    }
  }

  lemma {:induction false} SubsetCardinality<K>(a: set<K>, b: set<K>)
    requires a <= b
    ensures |a| <= |b|
  {
    if a != {} {
      var x :| x in a;
      SubsetCardinality(a - {x}, b - {x});
    }
  }

  /** Distinct numbers below `n` are at most `n` many. */
  lemma Pigeonhole(s: seq<nat>, n: nat)
    requires Distinct(s)
    requires forall i :: 0 <= i < |s| ==> s[i] < n
    ensures |s| <= n
  {
    DistinctCardinality(s);
    BelowCardinality(n);
    assert Elements(s) <= Below(n);
    SubsetCardinality(Elements(s), Below(n));
  }

  /** What is left of `all` after `got`, before and after one more member arrives. */
  lemma OneMore<K>(all: set<K>, got: set<K>, x: K)
    ensures |all - got| == 0 <==> all <= got
    ensures x in all && x !in got ==> |all - (got + {x})| == |all - got| - 1
  {
    if |all - got| == 0 {
      forall y | y in all ensures y in got {
        assert y !in all - got;
      }
    }
    assert all - (got + {x}) == (all - got) - {x};
  }

  /** The oldest entries leave until at most `limit` are left. */
  function TrimFront<K(==), V>(m: OMap<K, V>, limit: nat): OMap<K, V>
    decreases |m.order|
  {
    if |m.order| > limit then
      SelectMembers(m.order[1..], m.at.Keys - {m.order[0]});
      TrimFront(m.Remove(m.order[0]), limit)
    else m
  }

  // ---- Access order ----

  /** `get` on an access-ordered map. */
  function Touched<K(==), V>(m: OMap<K, V>, k: K): OMap<K, V> {
    if k in m.at then m.MoveToEnd(k) else m
  }

  /** `put` on an access-ordered map. */
  function PutTouched<K(==), V>(m: OMap<K, V>, k: K, v: V): OMap<K, V> {
    m.Put(k, v).MoveToEnd(k)
  }

  lemma PutTouchedValid<K, V>(m: OMap<K, V>, k: K, v: V)
    requires m.Valid()
    ensures PutTouched(m, k, v).Valid()
    ensures PutTouched(m, k, v).at == m.at[k := v]
  {
    PutValid(m, k, v);
    MoveToEndValid(m.Put(k, v), k);
  }
}
