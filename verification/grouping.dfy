/** `GROUP BY key, SUM(value)` over a sequence of (key, value) rows, as an
    association list in order of first appearance, together with the
    reference definition of a group's total it is proved against. */
module Grouping {

  /** Reference: the sum of the values recorded against `k`. */
  function Total<K(==)>(rows: seq<(K, int)>, k: K): int {
    if |rows| == 0 then 0
    else Total(rows[..|rows| - 1], k) + (if rows[|rows| - 1].0 == k then rows[|rows| - 1].1 else 0)
  }

  predicate HasKey<K(==)>(rows: seq<(K, int)>, k: K) {
    exists i :: 0 <= i < |rows| && rows[i].0 == k
  }

  predicate KeysDistinct<K(==)>(g: seq<(K, int)>) {
    forall i, j :: 0 <= i < j < |g| ==> g[i].0 != g[j].0
  }

  /** A key no row carries totals to zero. */
  lemma {:induction false} TotalOfAbsentKey<K>(rows: seq<(K, int)>, k: K)
    requires !HasKey(rows, k)
    ensures Total(rows, k) == 0
  {
    if |rows| > 0 {
      var pre := rows[..|rows| - 1];
      assert !HasKey(pre, k) by {
        forall i | 0 <= i < |pre| ensures pre[i].0 != k {
          assert pre[i] == rows[i];
        }
      }
      TotalOfAbsentKey(pre, k);
    }
  }

  /** When every value is positive, a key that occurs totals to more than 0. */
  lemma {:induction false} TotalOfPresentKeyPositive<K>(rows: seq<(K, int)>, k: K)
    requires forall i :: 0 <= i < |rows| ==> rows[i].1 > 0
    requires HasKey(rows, k)
    ensures Total(rows, k) > 0
  {
    var pre := rows[..|rows| - 1];
    var last := rows[|rows| - 1];
    assert forall i :: 0 <= i < |pre| ==> pre[i].1 > 0 by {
      forall i | 0 <= i < |pre| ensures pre[i].1 > 0 { assert pre[i] == rows[i]; }
    }
    if last.0 == k {
      if HasKey(pre, k) {
        TotalOfPresentKeyPositive(pre, k);
      } else {
        TotalOfAbsentKey(pre, k);
      }
    } else {
      var i :| 0 <= i < |rows| && rows[i].0 == k;
      assert i < |pre| && pre[i] == rows[i];
      TotalOfPresentKeyPositive(pre, k);
    }
  }

  function IndexOfKey<K(==)>(g: seq<(K, int)>, k: K): (r: int)
    ensures -1 <= r < |g|
    ensures r >= 0 ==> g[r].0 == k
    ensures r < 0 ==> !HasKey(g, k)
  {
    if |g| == 0 then -1
    else if g[|g| - 1].0 == k then |g| - 1
    else
      var r := IndexOfKey(g[..|g| - 1], k);
      assert r < 0 ==> !HasKey(g, k) by {
        if r < 0 {
          forall i | 0 <= i < |g| ensures g[i].0 != k {
            if i < |g| - 1 { assert g[i] == g[..|g| - 1][i]; }
          }
        }
      }
      r
  }

  /** Adds one row to an association list: into its key's entry if there is
      one, else as a new entry at the end. */
  function AddTo<K(==)>(g: seq<(K, int)>, row: (K, int)): (r: seq<(K, int)>)
  {
    var i := IndexOfKey(g, row.0);
    if i >= 0 then g[i := (row.0, g[i].1 + row.1)] else g + [row]
  }

  /** One entry per distinct key, in order of first appearance, each holding
      the total of that key's values. */
  function Group<K(==,!new)>(rows: seq<(K, int)>): (g: seq<(K, int)>)
    ensures KeysDistinct(g)
    ensures forall i :: 0 <= i < |g| ==> g[i].1 == Total(rows, g[i].0)
    ensures forall k :: HasKey(g, k) <==> HasKey(rows, k)
  {
    if |rows| == 0 then []
    else
      var pre := rows[..|rows| - 1];
      var row := rows[|rows| - 1];
      var g0 := Group(pre);
      var g := AddTo(g0, row);
      assert forall k :: HasKey(rows, k) <==> HasKey(pre, k) || row.0 == k by {
        forall k ensures HasKey(rows, k) <==> HasKey(pre, k) || row.0 == k {
          if HasKey(rows, k) && row.0 != k {
            var i :| 0 <= i < |rows| && rows[i].0 == k;
            assert pre[i] == rows[i];
          }
          if HasKey(pre, k) {
            var i :| 0 <= i < |pre| && pre[i].0 == k;
            assert rows[i] == pre[i];
          }
        }
      }
      var i := IndexOfKey(g0, row.0);
      if i >= 0 then
        assert forall k :: HasKey(g, k) <==> HasKey(g0, k) by {
          forall k ensures HasKey(g, k) <==> HasKey(g0, k) {
            if HasKey(g0, k) {
              var j :| 0 <= j < |g0| && g0[j].0 == k;
              assert g[j].0 == k;
            }
            if HasKey(g, k) {
              var j :| 0 <= j < |g| && g[j].0 == k;
              assert g0[j].0 == k;
            }
          }
        }
        g
      else
        TotalOfAbsentKey(pre, row.0);
        assert forall k :: HasKey(g, k) <==> HasKey(g0, k) || row.0 == k by {
          forall k ensures HasKey(g, k) <==> HasKey(g0, k) || row.0 == k {
            if HasKey(g0, k) {
              var j :| 0 <= j < |g0| && g0[j].0 == k;
              assert g[j] == g0[j];
            }
            if HasKey(g, k) && row.0 != k {
              var j :| 0 <= j < |g| && g[j].0 == k;
              assert j < |g0| && g0[j] == g[j];
            }
            if row.0 == k { assert g[|g0|].0 == k; }
          }
        }
        g
  }

  /** Looks a key up in an association list; 0 when absent. */
  function Lookup<K(==)>(g: seq<(K, int)>, k: K): int {
    var i := IndexOfKey(g, k);
    if i >= 0 then g[i].1 else 0
  }

  /** Looking a key up in the grouped list gives its total, for every key. */
  lemma LookupGroup<K(!new)>(rows: seq<(K, int)>, k: K)
    ensures Lookup(Group(rows), k) == Total(rows, k)
  {
    if !HasKey(Group(rows), k) {
      TotalOfAbsentKey(rows, k);
    }
  }
}
