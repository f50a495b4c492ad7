/**
 Reference definition of pagination: the rows, cut into consecutive pages of
 `m` rows each, the last page holding what is left. The page generator is
 proved to bind exactly these groups of rows, one group per page.
 */
module Pagination {

  /** `rows` cut into consecutive groups of `m`; the last group may be shorter. */
  function Chunks<T>(rows: seq<T>, m: nat): seq<seq<T>>
    requires m > 0
    decreases |rows|
  {
    if |rows| == 0 then []
    else if |rows| <= m then [rows]
    else [rows[..m]] + Chunks(rows[m..], m)
  }

  /** The groups read one after another. */
  function Flatten<T>(groups: seq<seq<T>>): seq<T>
  {
    if groups == [] then [] else groups[0] + Flatten(groups[1..])
  }

  /** No row is lost, duplicated or reordered by the cut. */
  lemma {:induction false} ChunksFlatten<T>(rows: seq<T>, m: nat)
    requires m > 0
    ensures Flatten(Chunks(rows, m)) == rows
    decreases |rows|
  {
    if |rows| == 0 {
    } else if |rows| <= m {
      assert Flatten([rows]) == rows + Flatten([]);
    } else {
      ChunksFlatten(rows[m..], m);
      FlattenCons(rows[..m], Chunks(rows[m..], m));
      assert rows == rows[..m] + rows[m..];
    }
  }

  lemma FlattenCons<T>(first: seq<T>, rest: seq<seq<T>>)
    ensures Flatten([first] + rest) == first + Flatten(rest)
  {
  }

  /** `k` rows make ceil(k / m) groups, so no group at all when `k` is 0. */
  lemma {:induction false} ChunksCount<T>(rows: seq<T>, m: nat)
    requires m > 0
    ensures |Chunks(rows, m)| == (|rows| + m - 1) / m
    decreases |rows|
  {
    var k := |rows|;
    if k == 0 {
      DivSmall(m - 1, m);
    } else if k <= m {
      DivSmall(k - 1, m);
      DivShift(k - 1, m);
    } else {
      ChunksCount(rows[m..], m);
      DivShift(k - 1, m);
    }
  }

  /** Every group is non-empty and holds at most `m` rows; every group but the
      last holds exactly `m`. */
  lemma {:induction false} ChunksShape<T>(rows: seq<T>, m: nat)
    requires m > 0
    ensures forall j :: 0 <= j < |Chunks(rows, m)| ==> 0 < |Chunks(rows, m)[j]| <= m
    ensures forall j :: 0 <= j < |Chunks(rows, m)| - 1 ==> |Chunks(rows, m)[j]| == m
    decreases |rows|
  {
    if |rows| > m {
      ChunksShape(rows[m..], m);
      var c := Chunks(rows, m);
      assert c[1..] == Chunks(rows[m..], m);
      forall j | 1 <= j < |c|
        ensures 0 < |c[j]| <= m && (j < |c| - 1 ==> |c[j]| == m)
      {
        assert c[j] == c[1..][j - 1];
      }
    }
  }

  /** One page's worth: taking `min(m, |rows|)` rows off the front takes the
      first group, or nothing when no row is left. */
  lemma ChunksNext<T>(rows: seq<T>, m: nat, taken: nat)
    requires m > 0 && taken == if m <= |rows| then m else |rows|
    ensures Chunks(rows, m) == (if taken > 0 then [rows[..taken]] else []) + Chunks(rows[taken..], m)
  {
    if |rows| <= m {
      assert rows[..taken] == rows && rows[taken..] == [];
    }
  }

  lemma DivSmall(a: nat, m: nat)
    requires a < m
    ensures a / m == 0
  {
  }

  lemma DivShift(a: nat, m: nat)
    requires m > 0
    ensures (a + m) / m == a / m + 1
  {
    var q, r := a / m, a % m;
    assert a + m == (q + 1) * m + r;
    DivUnique(a + m, q + 1, r, m);
  }

  /** Integer division is determined by quotient and remainder. */
  lemma DivUnique(x: nat, d: nat, r: nat, m: nat)
    requires m > 0 && r < m && x == d * m + r
    ensures x / m == d
  {
    var q := x / m;
    if q > d {
      MulMono(d + 1, q, m);
      assert false;
    } else if q < d {
      MulMono(q + 1, d, m);
      assert false;
    }
  }

  lemma MulMono(a: nat, b: nat, m: nat)
    requires a <= b
    ensures a * m <= b * m && (a + 1) * m == a * m + m
  {
  }
}
