/** `get_hesitation_zones` of src/processor.py: the cells of the hesitation grid with the
    largest dwell, in decreasing order of dwell, as (column, row, dwell) triples. */
module Zones {
  import opened Grid
  import opened Processor

  /** One reported zone: column, row and the dwell time of that cell. */
  datatype Zone = Zone(x: int, y: int, dwell: real)

  // ---------------------------------------------------------------------------
  // Sorting flat indices by value

  /** The indices in `idxs` are valid positions of `values`. */
  ghost predicate IndicesIn(values: seq<real>, idxs: seq<nat>) {
    forall p :: 0 <= p < |idxs| ==> idxs[p] < |values|
  }

  ghost predicate Distinct(idxs: seq<nat>) {
    forall p, q :: 0 <= p < q < |idxs| ==> idxs[p] != idxs[q]
  }

  /** The values at `idxs` do not decrease along the sequence. */
  ghost predicate Ascending(values: seq<real>, idxs: seq<nat>)
    requires IndicesIn(values, idxs)
  {
    forall p, q :: 0 <= p < q < |idxs| ==> values[idxs[p]] <= values[idxs[q]]
  }

  /** The values at `idxs` do not increase along the sequence. */
  ghost predicate Descending(values: seq<real>, idxs: seq<nat>)
    requires IndicesIn(values, idxs)
  {
    forall p, q :: 0 <= p < q < |idxs| ==> values[idxs[p]] >= values[idxs[q]]
  }

  /** Inserts index `i` into `sorted`, in front of the first index whose value is not smaller. */
  function Insert(values: seq<real>, i: nat, sorted: seq<nat>): (r: seq<nat>)
    requires i < |values| && IndicesIn(values, sorted)
    ensures |r| == |sorted| + 1 && IndicesIn(values, r)
    ensures forall j :: j in r <==> j == i || j in sorted
  {
    if |sorted| == 0 then [i]
    else if values[i] <= values[sorted[0]] then [i] + sorted
    else [sorted[0]] + Insert(values, i, sorted[1..])
  }

  /** `np.argsort` of the first `k` values: the indices 0..k-1 ordered by value. The order
      among equal values is the one insertion produces. */
  function ArgSort(values: seq<real>, k: nat): (r: seq<nat>)
    requires k <= |values|
    ensures |r| == k && IndicesIn(values, r)
  {
    if k == 0 then [] else Insert(values, k - 1, ArgSort(values, k - 1))
  }

  /** `s[::-1]`. */
  function Reverse(s: seq<nat>): (r: seq<nat>)
    ensures |r| == |s|
    ensures forall p :: 0 <= p < |s| ==> r[p] == s[|s| - 1 - p]
  {
    seq(|s|, p requires 0 <= p < |s| => s[|s| - 1 - p])
  }

  /** The length of the Python slice `s[:k]` of a sequence of length `n`: a negative `k`
      counts from the end. */
  function SliceLength(n: nat, k: int): (m: nat)
    ensures m <= n
    ensures 0 <= k ==> m == Min(k, n)
    ensures k < 0 ==> m == Max(0, n + k)
  {
    if k >= 0 then (if k <= n then k else n)
    else if n + k >= 0 then n + k else 0
  }

  lemma {:induction false} InsertAscending(values: seq<real>, i: nat, sorted: seq<nat>)
    requires i < |values| && IndicesIn(values, sorted) && Ascending(values, sorted)
    ensures Ascending(values, Insert(values, i, sorted))
  {
    if |sorted| > 0 && values[i] > values[sorted[0]] {
      var tail := Insert(values, i, sorted[1..]);
      InsertAscending(values, i, sorted[1..]);
      var r := [sorted[0]] + tail;
      forall p, q | 0 <= p < q < |r| ensures values[r[p]] <= values[r[q]] {
        if p == 0 {
          assert r[q] in tail;
          if r[q] != i {
            assert r[q] in sorted[1..];
          }
        } else {
          assert r[p] == tail[p - 1] && r[q] == tail[q - 1];
        }
      }
    }
  }

  lemma {:induction false} InsertDistinct(values: seq<real>, i: nat, sorted: seq<nat>)
    requires i < |values| && IndicesIn(values, sorted) && Distinct(sorted) && i !in sorted
    ensures Distinct(Insert(values, i, sorted))
  {
    if |sorted| > 0 && values[i] > values[sorted[0]] {
      var tail := Insert(values, i, sorted[1..]);
      assert i !in sorted[1..];
      InsertDistinct(values, i, sorted[1..]);
      var r := [sorted[0]] + tail;
      forall p, q | 0 <= p < q < |r| ensures r[p] != r[q] {
        if p == 0 {
          assert r[q] in tail;
          assert sorted[0] !in sorted[1..];
        } else {
          assert r[p] == tail[p - 1] && r[q] == tail[q - 1];
        }
      }
    }
  }

  /** `argsort` orders by value and is a permutation of the first `k` indices. */
  lemma {:induction false} ArgSortShape(values: seq<real>, k: nat)
    requires k <= |values|
    ensures Ascending(values, ArgSort(values, k)) && Distinct(ArgSort(values, k))
    ensures forall j: nat :: j in ArgSort(values, k) <==> j < k
  {
    if k > 0 {
      ArgSortShape(values, k - 1);
      InsertAscending(values, k - 1, ArgSort(values, k - 1));
      InsertDistinct(values, k - 1, ArgSort(values, k - 1));
      var prev := ArgSort(values, k - 1);
      assert ArgSort(values, k) == Insert(values, k - 1, prev);
      forall j: nat ensures j in ArgSort(values, k) <==> j < k {
        assert j in Insert(values, k - 1, prev) <==> j == k - 1 || j in prev;
      }
    }
  }

  /** Reversing an ascending permutation gives a descending one. */
  lemma ReverseShape(values: seq<real>, s: seq<nat>)
    requires IndicesIn(values, s) && Ascending(values, s) && Distinct(s)
    ensures IndicesIn(values, Reverse(s)) && Descending(values, Reverse(s)) && Distinct(Reverse(s))
    ensures forall j :: j in Reverse(s) <==> j in s
  {
    var r := Reverse(s);
    forall j | j in s ensures j in r {
      var p :| 0 <= p < |s| && s[p] == j;
      assert r[|s| - 1 - p] == j;
    }
  }

  /** The flat indices `get_hesitation_zones` visits: all indices by decreasing value, cut
      to `top_n` with slice semantics. */
  function TopIndices(values: seq<real>, topN: int): (r: seq<nat>)
    ensures |r| == SliceLength(|values|, topN) && IndicesIn(values, r)
  {
    Reverse(ArgSort(values, |values|))[..SliceLength(|values|, topN)]
  }

  /** All indices, by decreasing value: a permutation. */
  lemma DescendingOrder(values: seq<real>)
    ensures var desc := Reverse(ArgSort(values, |values|));
      && IndicesIn(values, desc) && Distinct(desc) && Descending(values, desc)
      && forall j: nat :: j < |values| ==> j in desc
  {
    ArgSortShape(values, |values|);
    ReverseShape(values, ArgSort(values, |values|));
  }

  /** The visited indices are distinct, by decreasing value, and every index left out has a
      value no larger than any visited one. */
  lemma TopIndicesShape(values: seq<real>, topN: int)
    ensures var r := TopIndices(values, topN);
      && Distinct(r) && Descending(values, r)
      && (forall j :: 0 <= j < |values| && j !in r ==>
            forall p :: 0 <= p < |r| ==> values[j] <= values[r[p]])
  {
    var desc := Reverse(ArgSort(values, |values|));
    DescendingOrder(values);
    var take := SliceLength(|values|, topN);
    var r := desc[..take];
    assert r == TopIndices(values, topN);
    assert forall p :: 0 <= p < |r| ==> r[p] == desc[p];
    forall j | 0 <= j < |values| && j !in r
      ensures forall p :: 0 <= p < |r| ==> values[j] <= values[r[p]]
    {
      LeftOutBelow(values, desc, take, j);
    }
  }

  /** In a descending order, an index past the first `take` has a value no larger than any
      of the first `take`. */
  lemma LeftOutBelow(values: seq<real>, desc: seq<nat>, take: nat, j: nat)
    requires IndicesIn(values, desc) && Descending(values, desc) && take <= |desc|
    requires j in desc && j !in desc[..take]
    ensures forall p :: 0 <= p < take ==> values[j] <= values[desc[p]]
  {
    var q :| 0 <= q < |desc| && desc[q] == j;
    if q < take {
      assert false;
    }
  }

  // ---------------------------------------------------------------------------
  // Keeping the positive cells

  /** The indices among the first `k` of `idxs` whose value is positive, in order. */
  function Kept(values: seq<real>, idxs: seq<nat>, k: nat): (r: seq<nat>)
    requires IndicesIn(values, idxs) && k <= |idxs|
    ensures |r| <= k && IndicesIn(values, r)
  {
    if k == 0 then []
    else if values[idxs[k - 1]] > 0.0 then Kept(values, idxs, k - 1) + [idxs[k - 1]]
    else Kept(values, idxs, k - 1)
  }

  /** `np.unravel_index(idx, shape)` for a grid of `cols` columns, as (column, row). */
  function ZoneAt(values: seq<real>, cols: int, idx: nat): Zone
    requires idx < |values| && cols > 0
  {
    Zone(idx % cols, idx / cols, values[idx])
  }

  /** The zones the loop of `get_hesitation_zones` appends after visiting `idxs[..k]`. */
  function ZonesOf(values: seq<real>, cols: int, idxs: seq<nat>, k: nat): (zones: seq<Zone>)
    requires IndicesIn(values, idxs) && k <= |idxs| && cols > 0
    ensures |zones| == |Kept(values, idxs, k)|
  {
    var kept := Kept(values, idxs, k);
    seq(|kept|, m requires 0 <= m < |kept| => ZoneAt(values, cols, kept[m]))
  }

  /** What is kept are exactly the visited indices with a positive value. */
  lemma {:induction false} KeptMembers(values: seq<real>, idxs: seq<nat>, k: nat)
    requires IndicesIn(values, idxs) && k <= |idxs|
    ensures forall x :: x in Kept(values, idxs, k) <==> x in idxs[..k] && values[x] > 0.0
  {
    if k > 0 {
      KeptMembers(values, idxs, k - 1);
      assert idxs[..k] == idxs[..k - 1] + [idxs[k - 1]];
    }
  }

  /** Keeping preserves a decreasing order and distinctness of the visited indices. */
  lemma {:induction false} KeptDescending(values: seq<real>, idxs: seq<nat>, k: nat)
    requires IndicesIn(values, idxs) && k <= |idxs|
    requires Descending(values, idxs) && Distinct(idxs)
    ensures Descending(values, Kept(values, idxs, k)) && Distinct(Kept(values, idxs, k))
  {
    if k > 0 {
      KeptDescending(values, idxs, k - 1);
    }
    if k > 0 && values[idxs[k - 1]] > 0.0 {
      var prev := Kept(values, idxs, k - 1);
      KeptMembers(values, idxs, k - 1);
      var last := idxs[k - 1];
      var r := prev + [last];
      forall m | 0 <= m < |prev| ensures values[prev[m]] >= values[last] && prev[m] != last {
        assert prev[m] in idxs[..k - 1];
        var p :| 0 <= p < k - 1 && idxs[p] == prev[m];
      }
      forall m, m' | 0 <= m < m' < |r| ensures values[r[m]] >= values[r[m']] && r[m] != r[m'] {
        if m' < |prev| {
          assert r[m] == prev[m] && r[m'] == prev[m'];
        }
      }
    }
  }

  /** When every visited index has a positive value, all of them are kept. */
  lemma {:induction false} KeptAll(values: seq<real>, idxs: seq<nat>, k: nat)
    requires IndicesIn(values, idxs) && k <= |idxs|
    requires forall p :: 0 <= p < k ==> values[idxs[p]] > 0.0
    ensures |Kept(values, idxs, k)| == k
  {
    if k > 0 {
      KeptAll(values, idxs, k - 1);
    }
  }

  // ---------------------------------------------------------------------------
  // The grid as a flat row-major sequence

  /** Flat index `idx` of a grid with `rows` rows and `cols` columns lies in row
      `idx / cols` and column `idx % cols`. */
  lemma UnravelInGrid(idx: int, rows: int, cols: int)
    requires 0 <= idx < rows * cols && 0 <= rows && 0 <= cols
    ensures cols > 0 && 0 <= idx / cols < rows && 0 <= idx % cols < cols
  {
    if cols == 0 {
      assert false;
    }
    if idx / cols >= rows {
      MulMonotone(rows, idx / cols, cols);
      assert false;
    }
  }

  /** Cell (row, col) has flat index `row * cols + col`, and unravelling it gives the cell back. */
  lemma Ravel(row: int, col: int, rows: int, cols: int)
    requires 0 <= row < rows && 0 <= col < cols
    ensures 0 <= row * cols + col < rows * cols
    ensures (row * cols + col) / cols == row && (row * cols + col) % cols == col
  {
    MulMonotone(0, row, cols);
    MulMonotone(row + 1, rows, cols);
    assert (row + 1) * cols == row * cols + cols;
    DivUnique(row * cols + col, row, col, cols);
  }

  /** Euclidean division has one quotient and one remainder. */
  lemma DivUnique(n: int, q: int, r: int, d: int)
    requires 0 <= r < d && n == q * d + r
    ensures n / d == q && n % d == r
  {
    var q', r' := n / d, n % d;
    assert (q - q') * d == r' - r;
    if q - q' >= 1 {
      MulMonotone(1, q - q', d);
      assert false;
    }
    if q - q' <= -1 {
      MulMonotone(q - q', -1, d);
      assert false;
    }
  }

  /** `hesitation_map.flatten()`: the cells row after row. */
  function Flatten(a: array2<real>): (flat: seq<real>)
    reads a
    ensures |flat| == a.Length0 * a.Length1
  {
    var n := a.Length0 * a.Length1;
    seq(n, idx requires 0 <= idx < n reads a =>
      UnravelInGrid(idx, a.Length0, a.Length1);
      a[idx / a.Length1, idx % a.Length1])
  }

  /** The flat sequence holds every cell at its row-major index. */
  lemma FlattenCell(a: array2<real>, row: int, col: int)
    requires 0 <= row < a.Length0 && 0 <= col < a.Length1
    ensures 0 <= row * a.Length1 + col < |Flatten(a)|
    ensures Flatten(a)[row * a.Length1 + col] == a[row, col]
  {
    Ravel(row, col, a.Length0, a.Length1);
  }

  /** The zones `get_hesitation_zones(processed_data, top_n)` returns for a hesitation grid. */
  function TopZones(a: array2<real>, topN: int): seq<Zone>
    reads a
  {
    if a.Length0 * a.Length1 == 0 then []
    else
      UnravelInGrid(0, a.Length0, a.Length1);
      var values := Flatten(a);
      var idxs := TopIndices(values, topN);
      ZonesOf(values, a.Length1, idxs, |idxs|)
  }

  /** `get_hesitation_zones(processed_data, top_n)`. */
  method HesitationZones(processed: Analytics, topN: int) returns (zones: seq<Zone>)
    ensures zones == TopZones(processed.hesitationMap, topN)
  {
    var hesitationMap := processed.hesitationMap;
    if hesitationMap.Length0 * hesitationMap.Length1 == 0 {
      return [];
    }
    var cols := hesitationMap.Length1;
    UnravelInGrid(0, hesitationMap.Length0, cols);
    var values := Flatten(hesitationMap);
    var flatIndices := TopIndices(values, topN);
    zones := [];
    for i := 0 to |flatIndices|
      invariant zones == ZonesOf(values, cols, flatIndices, i)
    {
      var idx := flatIndices[i];
      UnravelInGrid(idx, hesitationMap.Length0, cols);
      var y, x := idx / cols, idx % cols;
      var dwell := hesitationMap[y, x];
      if dwell > 0.0 {
        zones := zones + [Zone(x, y, dwell)];
      }
    }
  }

  // ---------------------------------------------------------------------------
  // What the reported zones are

  /** Some zone reports the cell in column `x` and row `y`. */
  ghost predicate Reported(zones: seq<Zone>, x: int, y: int) {
    exists m :: 0 <= m < |zones| && zones[m].x == x && zones[m].y == y
  }

  /** The facts about the visited and the kept indices that the zone lemmas share. */
  lemma VisitedFacts(values: seq<real>, topN: int)
    ensures var idxs := TopIndices(values, topN);
      && Distinct(idxs) && Descending(values, idxs)
      && Descending(values, Kept(values, idxs, |idxs|)) && Distinct(Kept(values, idxs, |idxs|))
      && (forall x :: x in Kept(values, idxs, |idxs|) <==> x in idxs && values[x] > 0.0)
      && (forall j :: 0 <= j < |values| && j !in idxs ==>
            forall p :: 0 <= p < |idxs| ==> values[j] <= values[idxs[p]])
  {
    var idxs := TopIndices(values, topN);
    TopIndicesShape(values, topN);
    KeptDescending(values, idxs, |idxs|);
    KeptMembers(values, idxs, |idxs|);
    assert idxs[..|idxs|] == idxs;
  }

  /** The zones of the visited indices of a flat grid with `cols` columns. */
  function FlatZones(values: seq<real>, cols: int, topN: int): seq<Zone>
    requires cols > 0
  {
    var idxs := TopIndices(values, topN);
    ZonesOf(values, cols, idxs, |idxs|)
  }

  /** Distinct flat indices lie in distinct cells. */
  lemma ZoneAtInjective(values: seq<real>, cols: int, i: nat, j: nat)
    requires i < |values| && j < |values| && cols > 0 && i != j
    ensures (ZoneAt(values, cols, i).x, ZoneAt(values, cols, i).y) != (ZoneAt(values, cols, j).x, ZoneAt(values, cols, j).y)
  {
    assert i == (i / cols) * cols + i % cols;
    assert j == (j / cols) * cols + j % cols;
  }

  /** On the flat grid: by decreasing dwell, no cell twice. */
  lemma FlatZonesOrdered(values: seq<real>, cols: int, topN: int)
    requires cols > 0
    ensures var zones := FlatZones(values, cols, topN);
      && (forall m, m' :: 0 <= m < m' < |zones| ==> zones[m].dwell >= zones[m'].dwell)
      && (forall m, m' :: 0 <= m < m' < |zones| ==> (zones[m].x, zones[m].y) != (zones[m'].x, zones[m'].y))
  {
    VisitedFacts(values, topN);
    var idxs := TopIndices(values, topN);
    var kept := Kept(values, idxs, |idxs|);
    var zones := FlatZones(values, cols, topN);
    forall m, m' | 0 <= m < m' < |zones|
      ensures zones[m].dwell >= zones[m'].dwell
      ensures (zones[m].x, zones[m].y) != (zones[m'].x, zones[m'].y)
    {
      assert zones[m] == ZoneAt(values, cols, kept[m]) && zones[m'] == ZoneAt(values, cols, kept[m']);
      ZoneAtInjective(values, cols, kept[m], kept[m']);
    }
  }

  /** On the flat grid: an unreported positive cell has no more dwell than any reported one,
      and when fewer zones come back than were visited, every positive cell is reported. */
  lemma FlatZonesAreTheTop(values: seq<real>, cols: int, topN: int, j: nat)
    requires cols > 0 && j < |values| && values[j] > 0.0
    ensures var zones := FlatZones(values, cols, topN);
      && (!Reported(zones, j % cols, j / cols) ==>
            forall m :: 0 <= m < |zones| ==> values[j] <= zones[m].dwell)
      && (|zones| < |TopIndices(values, topN)| ==> Reported(zones, j % cols, j / cols))
  {
    VisitedFacts(values, topN);
    var idxs := TopIndices(values, topN);
    var kept := Kept(values, idxs, |idxs|);
    var zones := FlatZones(values, cols, topN);
    if j in idxs {
      assert j in kept;
      var m :| 0 <= m < |kept| && kept[m] == j;
      assert zones[m] == ZoneAt(values, cols, j);
    } else {
      forall m | 0 <= m < |zones| ensures values[j] <= zones[m].dwell {
        assert zones[m] == ZoneAt(values, cols, kept[m]);
        assert kept[m] in kept;
        var p :| 0 <= p < |idxs| && idxs[p] == kept[m];
      }
      if |zones| < |idxs| {
        if forall p :: 0 <= p < |idxs| ==> values[idxs[p]] > 0.0 {
          KeptAll(values, idxs, |idxs|);
          assert false;
        }
        assert false;
      }
    }
  }

  /** At most `top_n` zones (slice semantics), each a cell of the grid with its own,
      positive dwell. */
  lemma ZonesInGrid(a: array2<real>, topN: int)
    ensures var zones := TopZones(a, topN);
      && |zones| <= SliceLength(a.Length0 * a.Length1, topN)
      && forall m :: 0 <= m < |zones| ==>
           && 0 <= zones[m].y < a.Length0 && 0 <= zones[m].x < a.Length1
           && a[zones[m].y, zones[m].x] == zones[m].dwell && zones[m].dwell > 0.0
  {
    if a.Length0 * a.Length1 > 0 {
      UnravelInGrid(0, a.Length0, a.Length1);
      var values := Flatten(a);
      VisitedFacts(values, topN);
      var idxs := TopIndices(values, topN);
      var kept := Kept(values, idxs, |idxs|);
      var zones := TopZones(a, topN);
      assert zones == FlatZones(values, a.Length1, topN);
      forall m | 0 <= m < |zones|
        ensures 0 <= zones[m].y < a.Length0 && 0 <= zones[m].x < a.Length1
        ensures a[zones[m].y, zones[m].x] == zones[m].dwell && zones[m].dwell > 0.0
      {
        assert zones[m] == ZoneAt(values, a.Length1, kept[m]);
        assert kept[m] in kept;
        UnravelInGrid(kept[m], a.Length0, a.Length1);
      }
    }
  }

  /** The zones come by decreasing dwell and no cell is reported twice. */
  lemma ZonesOrdered(a: array2<real>, topN: int)
    ensures var zones := TopZones(a, topN);
      && (forall m, m' :: 0 <= m < m' < |zones| ==> zones[m].dwell >= zones[m'].dwell)
      && (forall m, m' :: 0 <= m < m' < |zones| ==> (zones[m].x, zones[m].y) != (zones[m'].x, zones[m'].y))
  {
    if a.Length0 * a.Length1 > 0 {
      UnravelInGrid(0, a.Length0, a.Length1);
      assert TopZones(a, topN) == FlatZones(Flatten(a), a.Length1, topN);
      FlatZonesOrdered(Flatten(a), a.Length1, topN);
    }
  }

  /** No unreported cell has more dwell than a reported one, and when fewer zones come back
      than `top_n` asks for, every cell with positive dwell is reported. */
  lemma ZonesAreTheTop(a: array2<real>, topN: int)
    ensures var zones := TopZones(a, topN);
      && (forall row, col ::
            (0 <= row < a.Length0 && 0 <= col < a.Length1 && a[row, col] > 0.0 && !Reported(zones, col, row)) ==>
              forall m :: 0 <= m < |zones| ==> a[row, col] <= zones[m].dwell)
      && (|zones| < SliceLength(a.Length0 * a.Length1, topN) ==>
            forall row, col :: 0 <= row < a.Length0 && 0 <= col < a.Length1 && a[row, col] > 0.0 ==>
              Reported(zones, col, row))
  {
    if a.Length0 * a.Length1 > 0 {
      UnravelInGrid(0, a.Length0, a.Length1);
      var values := Flatten(a);
      var cols := a.Length1;
      var zones := TopZones(a, topN);
      assert zones == FlatZones(values, cols, topN);
      forall row, col | 0 <= row < a.Length0 && 0 <= col < cols && a[row, col] > 0.0
        ensures !Reported(zones, col, row) ==> forall m :: 0 <= m < |zones| ==> a[row, col] <= zones[m].dwell
        ensures |zones| < SliceLength(a.Length0 * cols, topN) ==> Reported(zones, col, row)
      {
        FlattenCell(a, row, col);
        Ravel(row, col, a.Length0, cols);
        FlatZonesAreTheTop(values, cols, topN, row * cols + col);
      }
    }
  }
}
