/**
 Generic operations on a database table, viewed as a finite map from
 integer primary key to row. The behaviour follows SQLite's rowid tables
 (INTEGER PRIMARY KEY without AUTOINCREMENT), which is what the
 repository's models declare.
 */
module Tables {
  import opened Common

  /** Strict lexicographic order on (sort key, id) pairs. */
  predicate Before(k1: int, id1: nat, k2: int, id2: nat)
  {
    k1 < k2 || (k1 == k2 && id1 < id2)
  }

  /** Every finite non-empty set of ids has a largest element. */
  lemma {:induction false} MaxExists(s: set<nat>)
    requires s != {}
    ensures exists m :: m in s && forall j :: j in s ==> j <= m
  {
    var x :| x in s;
    var rest := s - {x};
    if rest == {} {
      forall j | j in s
        ensures j <= x
      {
        assert j == x || j in rest;
      }
    } else {
      MaxExists(rest);
      var m :| m in rest && forall j :: j in rest ==> j <= m;
      var top := if x <= m then m else x;
      forall j | j in s
        ensures j <= top
      {
        if j != x {
          assert j in rest;
        }
      }
      assert top in s;
    }
  }

  /** Every finite non-empty set of rows has a least one under `Before`
      of (key(row), id), among the ids `s`. */
  lemma {:induction false} LeastExists<T>(m: map<nat, T>, key: T -> int, s: set<nat>)
    requires s != {} && s <= m.Keys
    ensures exists k :: k in s && forall j :: j in s && j != k ==> Before(key(m[k]), k, key(m[j]), j)
  {
    var x :| x in s;
    if s == {x} {
    } else {
      LeastExists(m, key, s - {x});
      var k :| k in s - {x} && forall j :: j in s - {x} && j != k ==> Before(key(m[k]), k, key(m[j]), j);
      if Before(key(m[k]), k, key(m[x]), x) {
        assert forall j :: j in s && j != k ==> Before(key(m[k]), k, key(m[j]), j);
      } else {
        assert forall j :: j in s && j != x ==> Before(key(m[x]), x, key(m[j]), j);
      }
    }
  }

  /** The id SQLite assigns to a row inserted into a table holding `keys`:
      one more than the largest id, or 1 for an empty table. */
  function NewId(keys: set<nat>): (r: nat)
    ensures r >= 1 && r !in keys
    ensures forall k :: k in keys ==> k < r
    ensures keys == {} ==> r == 1
    ensures keys != {} ==> r - 1 in keys
  {
    if keys == {} then 1
    else
      MaxExists(keys);
      var m :| m in keys && forall j :: j in keys ==> j <= m;
      m + 1
  }

  /** Insert a row under a fresh id; returns the new table and the id. */
  function Insert<T>(m: map<nat, T>, row: T): (r: (map<nat, T>, nat))
    ensures r.1 !in m && r.1 >= 1
    ensures r.0.Keys == m.Keys + {r.1}
    ensures r.0[r.1] == row
    ensures forall k :: k in m ==> r.0[k] == m[k]
  {
    var id := NewId(m.Keys);
    (m[id := row], id)
  }

  /** `query.filter(p).first()`: the matching row with the lowest id
      (the order of SQLite's rowid scan), or nothing. */
  function FirstWhere<T>(m: map<nat, T>, p: T -> bool): (r: Option<nat>)
    ensures r.None? <==> forall k :: k in m ==> !p(m[k])
    ensures r.Some? ==> r.value in m && p(m[r.value])
    ensures r.Some? ==> forall k :: k in m && p(m[k]) ==> r.value <= k
  {
    var hits := set k | k in m && p(m[k]);
    if hits == {} then
      assert forall k :: k in m ==> k !in hits;
      None
    else
      LeastExists(m, _ => 0, hits);
      var k :| k in hits && forall j :: j in hits && j != k ==> Before(0, k, 0, j);
      Some(k)
  }

  /** No two rows share a value of `key` (a UNIQUE column). */
  ghost predicate UniqueBy<T, K>(m: map<nat, T>, key: T -> K)
  {
    forall i, j :: i in m && j in m && key(m[i]) == key(m[j]) ==> i == j
  }

  /** Under a UNIQUE column, the first match is the only match. */
  lemma FirstIsOnly<T, K>(m: map<nat, T>, key: T -> K, v: K, k: nat)
    requires UniqueBy(m, key)
    requires k in m && key(m[k]) == v
    ensures FirstWhere(m, row => key(row) == v) == Some(k)
  {
    var r := FirstWhere(m, row => key(row) == v);
    assert r.Some?;
  }

  /** `ids` lists rows of `m` in strictly increasing (key, id) order. */
  ghost predicate SortedIds<T>(m: map<nat, T>, key: T -> int, ids: seq<nat>)
  {
    forall i, j :: 0 <= i < j < |ids| ==> ids[i] in m && ids[j] in m && Before(key(m[ids[i]]), ids[i], key(m[ids[j]]), ids[j])
  }

  /** Putting the least row in front of a sorted listing of the others
      gives a sorted listing. */
  lemma ConsSorted<T>(m: map<nat, T>, key: T -> int, k: nat, rest: map<nat, T>, tail: seq<nat>)
    requires k in m
    requires forall j :: j in m && j != k ==> Before(key(m[k]), k, key(m[j]), j)
    requires forall j :: j in rest ==> j in m && j != k && rest[j] == m[j]
    requires forall j :: j in tail ==> j in rest
    requires SortedIds(rest, key, tail)
    ensures SortedIds(m, key, [k] + tail)
  {
    var r := [k] + tail;
    forall i, j | 0 <= i < j < |r|
      ensures r[i] in m && r[j] in m && Before(key(m[r[i]]), r[i], key(m[r[j]]), r[j])
    {
      assert r[j] == tail[j - 1];
      assert tail[j - 1] in tail;
      if i > 0 {
        assert r[i] == tail[i - 1];
        assert tail[i - 1] in tail;
      }
    }
  }

  /** `query.order_by(key).all()`: all ids, sorted by (key, id). Ties in
      `key` come out in id order. */
  function OrderedIds<T>(m: map<nat, T>, key: T -> int): (r: seq<nat>)
    ensures |r| == |m.Keys|
    ensures forall k :: k in m.Keys <==> k in r
    ensures SortedIds(m, key, r)
    decreases |m.Keys|
  {
    if m.Keys == {} then []
    else
      LeastExists(m, key, m.Keys);
      var k :| k in m && forall j :: j in m && j != k ==> Before(key(m[k]), k, key(m[j]), j);
      var rest := m - {k};
      assert rest.Keys == m.Keys - {k};
      var tail := OrderedIds(rest, key);
      ConsSorted(m, key, k, rest, tail);
      [k] + tail
  }

  /** The listing is sorted by the requested column, non-decreasingly. */
  lemma OrderedIdsSortedByKey<T>(m: map<nat, T>, key: T -> int, i: nat, j: nat)
    requires i <= j < |OrderedIds(m, key)|
    ensures key(m[OrderedIds(m, key)[i]]) <= key(m[OrderedIds(m, key)[j]])
  {
    var r := OrderedIds(m, key);
    assert r[i] in r && r[j] in r;
    if i < j {
      assert Before(key(m[r[i]]), r[i], key(m[r[j]]), r[j]);
    }
  }
}
