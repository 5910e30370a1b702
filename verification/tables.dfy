/** A table is a sequence of rows. This module gives the two statement shapes
    the application issues against a table, `SELECT col FROM t WHERE key = ?`
    and `DELETE FROM t WHERE key = ?`, together with the facts about them that
    the cascade proofs build on. A column is passed as a projection function
    `key: T -> K`. */
module Tables {

  /** Number of rows of `s` whose `key` column equals `k`. */
  function Count<T, K(==)>(s: seq<T>, key: T -> K, k: K): (n: nat)
    ensures n <= |s|
  {
    if |s| == 0 then 0
    else (if key(s[0]) == k then 1 else 0) + Count(s[1..], key, k)
  }

  /** No row matches exactly when the count is zero. */
  lemma {:induction false} CountZero<T, K>(s: seq<T>, key: T -> K, k: K)
    ensures Count(s, key, k) == 0 <==> forall x :: x in s ==> key(x) != k
  {
    if |s| > 0 {
      assert s == [s[0]] + s[1..];
      CountZero(s[1..], key, k);
    }
  }

  /** `after` is `before` with every row whose key lies in `gone` deleted and
      every other row kept, each with its multiplicity. */
  ghost predicate RemovedExactly<T(!new), K>(before: seq<T>, after: seq<T>, key: T -> K, gone: set<K>)
  {
    && (forall x :: x in after <==> x in before && key(x) !in gone)
    && (forall x :: key(x) !in gone ==> multiset(after)[x] == multiset(before)[x])
  }

  /** DELETE FROM s WHERE key = k: the surviving rows keep their order. Its
      full meaning is `RemoveMeaning`. */
  function Remove<T, K(==)>(s: seq<T>, key: T -> K, k: K): (r: seq<T>)
    ensures |r| == |s| - Count(s, key, k)
    ensures Count(r, key, k) == 0
    ensures Count(s, key, k) == 0 ==> r == s
  {
    if |s| == 0 then []
    else if key(s[0]) == k then Remove(s[1..], key, k)
    else [s[0]] + Remove(s[1..], key, k)
  }

  /** `Remove` deletes exactly the rows whose key is `k`. */
  lemma {:induction false} RemoveMeaning<T(!new), K>(s: seq<T>, key: T -> K, k: K)
    ensures RemovedExactly(s, Remove(s, key, k), key, {k})
  {
    if |s| > 0 {
      assert s == [s[0]] + s[1..];
      RemoveMeaning(s[1..], key, k);
    }
  }

  /** The membership half of `RemoveMeaning`: a row whose key is not `k`
      survives, and no row is added. */
  lemma RemoveKeeps<T(!new), K>(s: seq<T>, key: T -> K, k: K)
    ensures forall x :: x in s && key(x) != k ==> x in Remove(s, key, k)
    ensures forall x :: x in Remove(s, key, k) ==> x in s && key(x) != k
  {
    RemoveMeaning(s, key, k);
  }

  /** Deleting from a concatenation deletes from each part. */
  lemma {:induction false} RemoveAppend<T, K>(s: seq<T>, t: seq<T>, key: T -> K, k: K)
    ensures Remove(s + t, key, k) == Remove(s, key, k) + Remove(t, key, k)
  {
    if |s| == 0 {
      assert s + t == t;
    } else {
      assert (s + t)[0] == s[0] && (s + t)[1..] == s[1..] + t;
      RemoveAppend(s[1..], t, key, k);
    }
  }

  /** Number of rows of `s` whose `key` column equals `k` and whose `col`
      column equals `v`. */
  function CountWith<T, K(==), V(==)>(s: seq<T>, key: T -> K, k: K, col: T -> V, v: V): nat
  {
    if |s| == 0 then 0
    else (if key(s[0]) == k && col(s[0]) == v then 1 else 0) + CountWith(s[1..], key, k, col, v)
  }

  /** SELECT col FROM s WHERE key = k, in table order: one value per matching
      row, so each value occurs as often as matching rows carry it. */
  function Select<T, K(==), V(==,!new)>(s: seq<T>, key: T -> K, k: K, col: T -> V): (r: seq<V>)
    ensures |r| == Count(s, key, k)
    ensures forall v :: multiset(r)[v] == CountWith(s, key, k, col, v)
    ensures forall x :: x in s && key(x) == k ==> col(x) in r
    ensures forall i :: 0 <= i < |r| ==> exists x :: x in s && key(x) == k && col(x) == r[i]
  {
    if |s| == 0 then []
    else
      var rest := Select(s[1..], key, k, col);
      assert forall x :: x in s ==> x == s[0] || x in s[1..];
      if key(s[0]) == k then
        assert multiset([col(s[0])] + rest) == multiset([col(s[0])]) + multiset(rest);
        [col(s[0])] + rest
      else rest
  }

  /** The rows of `s` as a set. */
  function Elements<T>(s: seq<T>): set<T>
  {
    set x | x in s
  }

  lemma ElementsCons<T>(s: seq<T>)
    requires |s| > 0
    ensures Elements(s) == {s[0]} + Elements(s[1..])
  {
    assert s == [s[0]] + s[1..];
  }

  /** No two rows of `s` agree on their `key` column (a primary key). */
  ghost predicate KeysUnique<T, K>(s: seq<T>, key: T -> K)
  {
    forall i, j :: 0 <= i < j < |s| ==> key(s[i]) != key(s[j])
  }

  /** Deleting nothing leaves the rows as they were. */
  lemma RemovedNothing<T(!new), K>(s: seq<T>, key: T -> K)
    ensures RemovedExactly(s, s, key, {})
  {
  }

  /** Two deletions in a row delete the union of what each deleted. */
  lemma RemovedExactlyTrans<T(!new), K>(a: seq<T>, b: seq<T>, c: seq<T>, key: T -> K, g1: set<K>, g2: set<K>)
    requires RemovedExactly(a, b, key, g1)
    requires RemovedExactly(b, c, key, g2)
    ensures RemovedExactly(a, c, key, g1 + g2)
  {
  }

  /** Under a primary key at most one row matches a key value, and exactly one
      when some row carries it. */
  lemma {:induction false} CountUnderUniqueKey<T, K>(s: seq<T>, key: T -> K, k: K)
    requires KeysUnique(s, key)
    ensures Count(s, key, k) <= 1
    ensures (exists x :: x in s && key(x) == k) ==> Count(s, key, k) == 1
  {
    if |s| > 0 {
      assert KeysUnique(s[1..], key) by {
        forall i, j | 0 <= i < j < |s[1..]|
          ensures key(s[1..][i]) != key(s[1..][j])
        {
          assert s[1..][i] == s[i + 1] && s[1..][j] == s[j + 1];
        }
      }
      CountUnderUniqueKey(s[1..], key, k);
      if key(s[0]) == k {
        forall x | x in s[1..]
          ensures key(x) != k
        {
          var j :| 0 <= j < |s[1..]| && s[1..][j] == x;
          assert s[j + 1] == x;
        }
        CountZero(s[1..], key, k);
      } else {
        assert s == [s[0]] + s[1..];
      }
    }
  }
}
