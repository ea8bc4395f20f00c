/** Bag-relational algebra over finite sequences of rows: keys, distinct keys
    (the groups of a GROUP BY), the SUM and COUNT aggregates, and the fact that
    a grouped table rolls up to the rows it was grouped from. */
module Relational {

  /** No value occurs twice in `s`. */
  predicate NoDup<K(==)>(s: seq<K>)
  {
    forall i, j :: 0 <= i < j < |s| ==> s[i] != s[j]
  }

  /** The key column of `rows`. */
  function Keys<R, K>(rows: seq<R>, key: R -> K): (ks: seq<K>)
  {
    seq(|rows|, i requires 0 <= i < |rows| => key(rows[i]))
  }

  /** Every row's key is in the key column. */
  lemma KeysCover<R, K>(rows: seq<R>, key: R -> K)
    ensures forall j :: 0 <= j < |rows| ==> key(rows[j]) in Keys(rows, key)
  {
    forall j | 0 <= j < |rows| ensures key(rows[j]) in Keys(rows, key) {
      assert Keys(rows, key)[j] == key(rows[j]);
    }
  }

  /** A row carrying a key of the key column. */
  lemma KeyWitness<R, K>(rows: seq<R>, key: R -> K, k: K) returns (j: nat)
    requires k in Keys(rows, key)
    ensures j < |rows| && key(rows[j]) == k
  {
    var i :| 0 <= i < |Keys(rows, key)| && Keys(rows, key)[i] == k;
    j := i;
  }

  /** The distinct values of `s`, each kept at its last occurrence. */
  function Dedup<K(==,!new)>(s: seq<K>): (r: seq<K>)
    ensures NoDup(r)
    ensures forall x :: x in r <==> x in s
  {
    if s == [] then []
    else
      assert s == [s[0]] + s[1..];
      var rest := Dedup(s[1..]);
      if s[0] in s[1..] then rest
      else
        assert forall j :: 0 < j < |[s[0]] + rest| ==> ([s[0]] + rest)[j] == rest[j - 1];
        [s[0]] + rest
  }

  /** The groups of `GROUP BY key`: every key of `rows` exactly once, and no other. */
  function GroupKeys<R, K(==,!new)>(rows: seq<R>, key: R -> K): (ks: seq<K>)
    ensures NoDup(ks)
    ensures forall k :: k in ks <==> k in Keys(rows, key)
  {
    Dedup(Keys(rows, key))
  }

  /** `SUM(col)` over all rows. */
  function Total<R>(rows: seq<R>, col: R -> int): int
  {
    if rows == [] then 0 else col(rows[0]) + Total(rows[1..], col)
  }

  /** `SUM(col)` over the rows of the group `key == k`. */
  function SumAt<R, K(==)>(rows: seq<R>, key: R -> K, col: R -> int, k: K): int
  {
    if rows == [] then 0
    else (if key(rows[0]) == k then col(rows[0]) else 0) + SumAt(rows[1..], key, col, k)
  }

  /** `COUNT(*)` over the rows of the group `key == k`. */
  function CountAt<R, K(==)>(rows: seq<R>, key: R -> K, k: K): nat
  {
    if rows == [] then 0
    else (if key(rows[0]) == k then 1 else 0) + CountAt(rows[1..], key, k)
  }

  /** `SUM(col)` over the rows whose key, seen through `sel`, equals `s`: the sum
      of a coarser grouping (a year out of a (year, region) key, say). */
  function SumSel<R, K, S(==)>(rows: seq<R>, key: R -> K, sel: K -> S, s: S, col: R -> int): int
  {
    if rows == [] then 0
    else (if sel(key(rows[0])) == s then col(rows[0]) else 0) + SumSel(rows[1..], key, sel, s, col)
  }

  /** The selector that keeps a key as it is. */
  function Id<K>(k: K): K { k }

  /** The selector that puts every key in one group. */
  function Everything<K>(k: K): bool { true }

  lemma {:induction false} SumSelAppend<R, K, S>(a: seq<R>, b: seq<R>, key: R -> K, sel: K -> S, s: S, col: R -> int)
    ensures SumSel(a + b, key, sel, s, col) == SumSel(a, key, sel, s, col) + SumSel(b, key, sel, s, col)
  {
    if a != [] {
      assert (a + b)[0] == a[0];
      assert (a + b)[1..] == a[1..] + b;
      SumSelAppend(a[1..], b, key, sel, s, col);
    } else {
      assert a + b == b;
    }
  }

  /** Coarsening by the identity selector is the plain group sum. */
  lemma {:induction false} SumSelId<R, K>(rows: seq<R>, key: R -> K, col: R -> int, k: K)
    ensures SumSel(rows, key, Id, k, col) == SumAt(rows, key, col, k)
  {
    if rows != [] {
      SumSelId(rows[1..], key, col, k);
    }
  }

  /** Coarsening into one group is the plain total. */
  lemma {:induction false} SumSelEverything<R, K>(rows: seq<R>, key: R -> K, col: R -> int)
    ensures SumSel(rows, key, Everything, true, col) == Total(rows, col)
  {
    if rows != [] {
      SumSelEverything(rows[1..], key, col);
    }
  }

  /** A group exists exactly when it has at least one row. */
  lemma {:induction false} CountAtPositive<R, K>(rows: seq<R>, key: R -> K, k: K)
    ensures CountAt(rows, key, k) > 0 <==> exists j :: 0 <= j < |rows| && key(rows[j]) == k
  {
    if rows != [] {
      CountAtPositive(rows[1..], key, k);
      if key(rows[0]) != k && CountAt(rows, key, k) > 0 {
        var j :| 0 <= j < |rows[1..]| && key(rows[1..][j]) == k;
        assert key(rows[j + 1]) == k;
      }
    }
  }

  /** With non-negative values, a group's sum lies between 0 and the total. */
  lemma {:induction false} SumAtBounds<R, K>(rows: seq<R>, key: R -> K, col: R -> int, k: K)
    requires forall j :: 0 <= j < |rows| ==> col(rows[j]) >= 0
    ensures 0 <= SumAt(rows, key, col, k) <= Total(rows, col)
  {
    if rows != [] {
      SumAtBounds(rows[1..], key, col, k);
    }
  }

  // ---------------------------------------------------------------------------
  // Rolling a grouped table back up to the rows it was grouped from.

  /** The sum, over the table rows selected by (`sel`, `s`), of their groups' sums. */
  function KeySum<T, R, K(==), S(==)>(table: seq<T>, tkey: T -> K, sel: K -> S, s: S,
                                      facts: seq<R>, key: R -> K, col: R -> int): int
  {
    if table == [] then 0
    else (if sel(tkey(table[0])) == s then SumAt(facts, key, col, tkey(table[0])) else 0)
         + KeySum(table[1..], tkey, sel, s, facts, key, col)
  }

  /** What one fact of key `k` and value `v` adds to KeySum. */
  function Hit<T, K(==), S(==)>(table: seq<T>, tkey: T -> K, sel: K -> S, s: S, k: K, v: int): int
  {
    if table == [] then 0
    else (if sel(tkey(table[0])) == s && tkey(table[0]) == k then v else 0)
         + Hit(table[1..], tkey, sel, s, k, v)
  }

  lemma {:induction false} TableIsKeySum<T, R, K, S>(
    table: seq<T>, tkey: T -> K, tcol: T -> int, sel: K -> S, s: S,
    facts: seq<R>, key: R -> K, col: R -> int)
    requires forall i :: 0 <= i < |table| ==> tcol(table[i]) == SumAt(facts, key, col, tkey(table[i]))
    ensures SumSel(table, tkey, sel, s, tcol) == KeySum(table, tkey, sel, s, facts, key, col)
  {
    if table != [] {
      TableIsKeySum(table[1..], tkey, tcol, sel, s, facts, key, col);
    }
  }

  lemma {:induction false} KeySumNil<T, R, K, S>(
    table: seq<T>, tkey: T -> K, sel: K -> S, s: S, facts: seq<R>, key: R -> K, col: R -> int)
    requires facts == []
    ensures KeySum(table, tkey, sel, s, facts, key, col) == 0
  {
    if table != [] {
      KeySumNil(table[1..], tkey, sel, s, facts, key, col);
    }
  }

  lemma {:induction false} KeySumCons<T, R, K, S>(
    table: seq<T>, tkey: T -> K, sel: K -> S, s: S, facts: seq<R>, key: R -> K, col: R -> int)
    requires facts != []
    ensures KeySum(table, tkey, sel, s, facts, key, col)
         == Hit(table, tkey, sel, s, key(facts[0]), col(facts[0]))
            + KeySum(table, tkey, sel, s, facts[1..], key, col)
  {
    if table != [] {
      KeySumCons(table[1..], tkey, sel, s, facts, key, col);
    }
  }

  lemma {:induction false} HitAbsent<T, K, S>(table: seq<T>, tkey: T -> K, sel: K -> S, s: S, k: K, v: int)
    requires forall i :: 0 <= i < |table| ==> tkey(table[i]) != k
    ensures Hit(table, tkey, sel, s, k, v) == 0
  {
    if table != [] {
      HitAbsent(table[1..], tkey, sel, s, k, v);
    }
  }

  /** A key that occurs exactly once in the table is hit exactly once. */
  lemma {:induction false} HitOnce<T, K, S>(table: seq<T>, tkey: T -> K, sel: K -> S, s: S, k: K, v: int)
    requires forall i, j :: 0 <= i < j < |table| ==> tkey(table[i]) != tkey(table[j])
    requires k in Keys(table, tkey)
    ensures Hit(table, tkey, sel, s, k, v) == if sel(k) == s then v else 0
  {
    var i := KeyWitness(table, tkey, k);
    var rest := table[1..];
    assert forall j :: 0 <= j < |rest| ==> rest[j] == table[j + 1];
    if tkey(table[0]) == k {
      HitAbsent(rest, tkey, sel, s, k, v);
    } else {
      assert tkey(rest[i - 1]) == k;
      KeysCover(rest, tkey);
      HitOnce(rest, tkey, sel, s, k, v);
    }
  }

  lemma {:induction false} KeySumIsFactSum<T, R, K, S>(
    table: seq<T>, tkey: T -> K, sel: K -> S, s: S, facts: seq<R>, key: R -> K, col: R -> int)
    requires forall i, j :: 0 <= i < j < |table| ==> tkey(table[i]) != tkey(table[j])
    requires forall j :: 0 <= j < |facts| ==> key(facts[j]) in Keys(table, tkey)
    ensures KeySum(table, tkey, sel, s, facts, key, col) == SumSel(facts, key, sel, s, col)
  {
    if facts == [] {
      KeySumNil(table, tkey, sel, s, facts, key, col);
    } else {
      KeySumCons(table, tkey, sel, s, facts, key, col);
      HitOnce(table, tkey, sel, s, key(facts[0]), col(facts[0]));
      assert forall j :: 0 <= j < |facts[1..]| ==> facts[1..][j] == facts[j + 1];
      KeySumIsFactSum(table, tkey, sel, s, facts[1..], key, col);
    }
  }

  /** A table holding one row per group, with distinct keys covering every fact
      and each row carrying its group's sum, adds up (over any coarser group)
      to the same total as the facts it was grouped from. */
  lemma {:induction false} GroupedSum<T, R, K, S>(
    table: seq<T>, tkey: T -> K, tcol: T -> int,
    facts: seq<R>, key: R -> K, col: R -> int, sel: K -> S, s: S)
    requires forall i, j :: 0 <= i < j < |table| ==> tkey(table[i]) != tkey(table[j])
    requires forall k :: k in Keys(facts, key) ==> k in Keys(table, tkey)
    requires forall i :: 0 <= i < |table| ==> tcol(table[i]) == SumAt(facts, key, col, tkey(table[i]))
    ensures SumSel(table, tkey, sel, s, tcol) == SumSel(facts, key, sel, s, col)
  {
    TableIsKeySum(table, tkey, tcol, sel, s, facts, key, col);
    KeysCover(facts, key);
    KeySumIsFactSum(table, tkey, sel, s, facts, key, col);
  }
}
