/** Types and sequence facts shared by the whole project. */
module Common {

  /** One octet, as the unsigned value 0..255. */
  type Byte = b: int | 0 <= b < 256

  type Bytes = seq<Byte>

  datatype Option<+T> = None | Some(value: T)

  /** All pieces laid end to end. */
  function Flatten<T>(pieces: seq<seq<T>>): seq<T> {
    if pieces == [] then [] else pieces[0] + Flatten(pieces[1..])
  }

  lemma {:induction false} FlattenAppend<T>(a: seq<seq<T>>, b: seq<seq<T>>)
    ensures Flatten(a + b) == Flatten(a) + Flatten(b)
  {
    if a == [] {
      assert a + b == b;
    } else {
      assert (a + b)[1..] == a[1..] + b;
      FlattenAppend(a[1..], b);
    }
  }

  lemma FlattenOne<T>(a: seq<T>)
    ensures Flatten([a]) == a
  {
    assert Flatten([a]) == a + Flatten([]);
  }

  function Max(a: int, b: int): int {
    if a < b then b else a
  }

  function Min(a: int, b: int): int {
    if a < b then a else b
  }

  /** The quotient is the only multiplier that leaves a remainder below the divisor. */
  lemma DivUnique(x: nat, d: nat, q: nat)
    requires d > 0
    requires q == x / d || q * d <= x < q * d + d
    ensures x / d == q
    ensures q * d <= x < q * d + d
  {
    var k := x / d;
    assert x == k * d + x % d;
    if k < q {
      MulMonotone(k + 1, q, d);
    } else if q < k {
      MulMonotone(q + 1, k, d);
    }
  }

  lemma MulMonotone(a: nat, b: nat, d: nat)
    requires a <= b
    ensures a * d <= b * d
  {
    assert b * d == a * d + (b - a) * d;
  }

  /** Times that never run backwards. */
  ghost predicate Sorted(s: seq<int>) {
    forall i, j :: 0 <= i <= j < |s| ==> s[i] <= s[j]
  }

  /** `a` is what is left of `b` after deleting some elements, in the same order. */
  ghost predicate Subsequence<T>(a: seq<T>, b: seq<T>) {
    if a == [] then true
    else if b == [] then false
    else (a[0] == b[0] && Subsequence(a[1..], b[1..])) || Subsequence(a, b[1..])
  }

  lemma {:induction false} SubsequenceExtend<T>(a: seq<T>, b: seq<T>, x: T)
    requires Subsequence(a, b)
    ensures Subsequence(a, b + [x])
    ensures Subsequence(a + [x], b + [x])
  {
    if b == [] {
      assert a == [];
      assert ([x])[1..] == [];
      assert a + [x] == [x] && b + [x] == [x];
    } else {
      assert (b + [x])[1..] == b[1..] + [x];
      if a == [] {
        SubsequenceExtend([], b[1..], x);
      } else {
        assert (a + [x])[1..] == a[1..] + [x];
        if a[0] == b[0] && Subsequence(a[1..], b[1..]) {
          SubsequenceExtend(a[1..], b[1..], x);
        } else {
          SubsequenceExtend(a, b[1..], x);
        }
      }
    }
  }

  /** Deleting a middle part of `a` keeps it a subsequence. */
  lemma {:induction false} SubsequenceDelete<T>(a: seq<T>, m: seq<T>, c: seq<T>, b: seq<T>)
    requires Subsequence(a + m + c, b)
    ensures Subsequence(a + c, b)
    decreases |b|
  {
    if a + c == [] {
    } else if a != [] {
      assert (a + m + c)[1..] == a[1..] + m + c;
      assert (a + c)[1..] == a[1..] + c;
      if a[0] == b[0] && Subsequence(a[1..] + m + c, b[1..]) {
        SubsequenceDelete(a[1..], m, c, b[1..]);
      } else {
        SubsequenceDelete(a, m, c, b[1..]);
      }
    } else if m == [] {
      assert a + m + c == a + c;
    } else {
      assert a + c == c && a + m + c == m + c;
      assert (m + c)[1..] == m[1..] + c;
      if m[0] == b[0] && Subsequence(m[1..] + c, b[1..]) {
        assert [] + m[1..] + c == m[1..] + c;
        SubsequenceDelete([], m[1..], c, b[1..]);
        assert [] + c == c;
      } else {
        SubsequenceDelete([], m, c, b[1..]);
        assert [] + m + c == m + c;
      }
      SubsequenceSkip(c, b);
    }
  }

  lemma SubsequenceSkip<T>(a: seq<T>, b: seq<T>)
    requires b != [] && Subsequence(a, b[1..])
    ensures Subsequence(a, b)
  {
  }
}
