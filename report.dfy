/**
 * The sorted hierarchical report of profiler.h (`_profiler_get_results` and
 * `profiler_get_results_sorted`), as functions on a snapshot of the node
 * table. A report is a header row, a separator row, then a depth-first walk
 * from parent -1 in which each level lists its children by repeatedly
 * picking the costliest one below a falling ceiling.
 */
module Report {
  import opened Cycles
  import opened Registry

  /** One report line, with its text columns abstracted to what determines them. */
  datatype Row = Header | Separator | Entry(level: nat, name: string, cycles: u64)

  /** The running `max_cycles` / `max_index` pair of one scan; index -1 means nothing found. */
  datatype Best = Best(cycles: u64, index: int)

  /** Slot `k` is a candidate of a scan: a child of `parentId`, non-zero, below the ceiling. */
  predicate Eligible(nodes: seq<Node>, parentId: int, ceil: u64, k: nat)
    requires k < |nodes|
  {
    nodes[k].parentId == parentId && 0 < nodes[k].totalCycles < ceil
  }

  /**
   * The scan of slots 0..n-1 (the inner loop of profiler.h): the running
   * largest candidate cost and the slot it was found at, or index -1.
   */
  function Scan(nodes: seq<Node>, parentId: int, ceil: u64, n: nat): (b: Best)
    requires n <= |nodes|
    ensures -1 <= b.index < n
    ensures b.index >= 0 ==> nodes[b.index].parentId == parentId
  {
    if n == 0 then Best(0, -1)
    else
      var b := Scan(nodes, parentId, ceil, n - 1);
      var node := nodes[n - 1];
      if node.parentId == parentId && node.totalCycles > b.cycles && node.totalCycles < ceil
      then Best(node.totalCycles, n - 1)
      else b
  }

  /**
   * A scan finds the largest candidate cost and the first slot that has
   * it, and finds nothing (index -1, cost 0) exactly when there is no
   * candidate.
   */
  lemma {:induction false} ScanBest(nodes: seq<Node>, parentId: int, ceil: u64, n: nat)
    requires n <= |nodes|
    ensures Scan(nodes, parentId, ceil, n).index == -1 <==> forall k :: 0 <= k < n ==> !Eligible(nodes, parentId, ceil, k)
    ensures Scan(nodes, parentId, ceil, n).index == -1 ==> Scan(nodes, parentId, ceil, n).cycles == 0
    ensures Scan(nodes, parentId, ceil, n).index >= 0 ==>
              && Eligible(nodes, parentId, ceil, Scan(nodes, parentId, ceil, n).index)
              && Scan(nodes, parentId, ceil, n).cycles == nodes[Scan(nodes, parentId, ceil, n).index].totalCycles
    ensures forall k :: 0 <= k < n && Eligible(nodes, parentId, ceil, k) ==>
              nodes[k].totalCycles <= Scan(nodes, parentId, ceil, n).cycles
    ensures forall k :: 0 <= k < Scan(nodes, parentId, ceil, n).index && Eligible(nodes, parentId, ceil, k) ==>
              nodes[k].totalCycles < Scan(nodes, parentId, ceil, n).cycles
  {
    if n > 0 {
      ScanBest(nodes, parentId, ceil, n - 1);
      var node := nodes[n - 1];
      var b := Scan(nodes, parentId, ceil, n - 1);
      if node.parentId == parentId && node.totalCycles > b.cycles && node.totalCycles < ceil {
        assert Eligible(nodes, parentId, ceil, n - 1);
      }
    }
  }

  /**
   * The slots one level of the report lists under `parentId`, in order,
   * when `count` picks have been made and the ceiling is `ceil`: at most
   * NodesMax picks are made per level, and the level ends at the first
   * scan that finds nothing.
   */
  function Siblings(nodes: seq<Node>, parentId: int, ceil: u64, count: nat): (r: seq<nat>)
    requires count <= NodesMax
    ensures |r| <= NodesMax - count
    ensures forall a :: 0 <= a < |r| ==> r[a] < |nodes| && nodes[r[a]].parentId == parentId
    decreases NodesMax - count
  {
    if count == NodesMax then []
    else
      var b := Scan(nodes, parentId, ceil, |nodes|);
      if b.index == -1 then []
      else [b.index as nat] + Siblings(nodes, parentId, b.cycles, count + 1)
  }

  /** Each pick is a non-zero child of `parentId` below the ceiling. */
  lemma {:induction false} SiblingsEligible(nodes: seq<Node>, parentId: int, ceil: u64, count: nat)
    requires count <= NodesMax
    ensures forall a :: 0 <= a < |Siblings(nodes, parentId, ceil, count)| ==>
              Eligible(nodes, parentId, ceil, Siblings(nodes, parentId, ceil, count)[a])
    decreases NodesMax - count
  {
    if count < NodesMax {
      var b := Scan(nodes, parentId, ceil, |nodes|);
      if b.index != -1 {
        ScanBest(nodes, parentId, ceil, |nodes|);
        var r := Siblings(nodes, parentId, ceil, count);
        var rest := Siblings(nodes, parentId, b.cycles, count + 1);
        SiblingsEligible(nodes, parentId, b.cycles, count + 1);
        assert r == [b.index as nat] + rest;
        forall a | 0 <= a < |r|
          ensures Eligible(nodes, parentId, ceil, r[a])
        {
          if a > 0 { assert r[a] == rest[a - 1]; }
        }
      }
    }
  }

  /** Each pick costs strictly less than the one before. */
  lemma {:induction false} SiblingsDescending(nodes: seq<Node>, parentId: int, ceil: u64, count: nat)
    requires count <= NodesMax
    ensures forall a, b :: 0 <= a < b < |Siblings(nodes, parentId, ceil, count)| ==>
              nodes[Siblings(nodes, parentId, ceil, count)[a]].totalCycles
              > nodes[Siblings(nodes, parentId, ceil, count)[b]].totalCycles
    decreases NodesMax - count
  {
    if count < NodesMax {
      var b := Scan(nodes, parentId, ceil, |nodes|);
      if b.index != -1 {
        ScanBest(nodes, parentId, ceil, |nodes|);
        var r := Siblings(nodes, parentId, ceil, count);
        var rest := Siblings(nodes, parentId, b.cycles, count + 1);
        SiblingsDescending(nodes, parentId, b.cycles, count + 1);
        SiblingsEligible(nodes, parentId, b.cycles, count + 1);
        assert r == [b.index as nat] + rest;
        forall a, c | 0 <= a < c < |r|
          ensures nodes[r[a]].totalCycles > nodes[r[c]].totalCycles
        {
          assert r[c] == rest[c - 1];
          if a > 0 { assert r[a] == rest[a - 1]; }
        }
      }
    }
  }

  /** Each pick is the first slot among its siblings with its cost: later ties are never listed. */
  lemma {:induction false} SiblingsFirst(nodes: seq<Node>, parentId: int, ceil: u64, count: nat)
    requires count <= NodesMax
    ensures forall a, k :: 0 <= a < |Siblings(nodes, parentId, ceil, count)| &&
                           0 <= k < Siblings(nodes, parentId, ceil, count)[a] && nodes[k].parentId == parentId ==>
              nodes[k].totalCycles != nodes[Siblings(nodes, parentId, ceil, count)[a]].totalCycles
    decreases NodesMax - count
  {
    if count < NodesMax {
      var b := Scan(nodes, parentId, ceil, |nodes|);
      if b.index != -1 {
        ScanBest(nodes, parentId, ceil, |nodes|);
        var r := Siblings(nodes, parentId, ceil, count);
        var rest := Siblings(nodes, parentId, b.cycles, count + 1);
        SiblingsFirst(nodes, parentId, b.cycles, count + 1);
        assert r == [b.index as nat] + rest;
        forall a, k | 0 <= a < |r| && 0 <= k < r[a] && nodes[k].parentId == parentId
          ensures nodes[k].totalCycles != nodes[r[a]].totalCycles
        {
          if a > 0 { assert r[a] == rest[a - 1]; }
        }
      }
    }
  }

  /** One pick of a level: the next scan's slot, then the picks under its cost as the new ceiling. */
  lemma SiblingsNext(nodes: seq<Node>, parentId: int, ceil: u64, count: nat)
    requires count < NodesMax
    ensures var b := Scan(nodes, parentId, ceil, |nodes|);
            Siblings(nodes, parentId, ceil, count)
            == if b.index == -1 then [] else [b.index as nat] + Siblings(nodes, parentId, b.cycles, count + 1)
  {
  }

  /**
   * No candidate is lost between picks: every candidate's cost is the cost
   * of some pick, unless the NodesMax picks of the level were all used.
   */
  lemma {:induction false} SiblingsComplete(nodes: seq<Node>, parentId: int, ceil: u64, count: nat, k: nat)
    requires count <= NodesMax && k < |nodes| && Eligible(nodes, parentId, ceil, k)
    ensures var r := Siblings(nodes, parentId, ceil, count);
            || |r| == NodesMax - count
            || exists a :: 0 <= a < |r| && nodes[r[a]].totalCycles == nodes[k].totalCycles
    decreases NodesMax - count
  {
    if count < NodesMax {
      var b := Scan(nodes, parentId, ceil, |nodes|);
      var r := Siblings(nodes, parentId, ceil, count);
      ScanBest(nodes, parentId, ceil, |nodes|);
      if nodes[k].totalCycles == b.cycles {
        assert nodes[r[0]].totalCycles == nodes[k].totalCycles;
      } else {
        var rest := Siblings(nodes, parentId, b.cycles, count + 1);
        assert r == [b.index as nat] + rest;
        SiblingsComplete(nodes, parentId, b.cycles, count + 1, k);
        if |rest| != NodesMax - count - 1 {
          var a :| 0 <= a < |rest| && nodes[rest[a]].totalCycles == nodes[k].totalCycles;
          assert r[a + 1] == rest[a];
        }
      }
    }
  }

  /**
   * On a table of at most NodesMax slots the cap of NodesMax picks per
   * level never hides a sibling: every child of `parentId` with a cost
   * strictly between 0 and the ceiling is listed, or shares its cost with
   * an earlier slot that is.
   */
  lemma SiblingsCoverAll(nodes: seq<Node>, parentId: int, ceil: u64, k: nat)
    requires |nodes| <= NodesMax && k < |nodes| && Eligible(nodes, parentId, ceil, k)
    ensures var r := Siblings(nodes, parentId, ceil, 0);
            exists a :: 0 <= a < |r| && nodes[r[a]].totalCycles == nodes[k].totalCycles
  {
    var r := Siblings(nodes, parentId, ceil, 0);
    SiblingsComplete(nodes, parentId, ceil, 0, k);
    if |r| == NodesMax {
      SiblingsDescending(nodes, parentId, ceil, 0);
      assert Distinct(r);
      DistinctBound(r, |nodes|);
      assert k in r;
      var a :| 0 <= a < |r| && r[a] == k;
    }
  }

  predicate Distinct(s: seq<nat>)
  {
    forall a, b :: 0 <= a < b < |s| ==> s[a] != s[b]
  }

  /** Pigeonhole: n distinct values below n are all of them, and there are never more. */
  lemma DistinctBound(s: seq<nat>, n: nat)
    requires Distinct(s) && forall a :: 0 <= a < |s| ==> s[a] < n
    ensures |s| <= n
    ensures |s| == n ==> forall x :: 0 <= x < n ==> x in s
  {
    var elems := set a | 0 <= a < |s| :: s[a];
    var range := Below(n);
    DistinctCard(s);
    assert elems <= range;
    SubsetCard(elems, range);
    if |s| == n {
      forall x | 0 <= x < n ensures x in s {
        if x !in s {
          assert x !in elems;
          SubsetCard(elems, range - {x});
        }
      }
    }
  }

  lemma {:induction false} DistinctCard(s: seq<nat>)
    requires Distinct(s)
    ensures |set a | 0 <= a < |s| :: s[a]| == |s|
  {
    if s != [] {
      var tail := s[1..];
      assert Distinct(tail);
      DistinctCard(tail);
      var elems := set a | 0 <= a < |s| :: s[a];
      var tailElems := set a | 0 <= a < |tail| :: tail[a];
      assert elems == {s[0]} + tailElems by {
        forall x | x in elems ensures x in {s[0]} + tailElems {
          var a :| 0 <= a < |s| && s[a] == x;
          if a > 0 { assert tail[a - 1] == x; }
        }
      }
      assert s[0] !in tailElems;
    }
  }

  /** The n values below n, as a set. */
  function Below(n: nat): (r: set<nat>)
    ensures |r| == n
    ensures forall x: nat :: x in r <==> x < n
  {
    if n == 0 then {} else Below(n - 1) + {n - 1}
  }

  lemma {:induction false} SubsetCard<T>(a: set<T>, b: set<T>)
    requires a <= b
    ensures |a| <= |b|
    decreases b
  {
    if a != {} {
      var x :| x in a;
      SubsetCard(a - {x}, b - {x});
    }
  }

  /** The parent id a walk along `path` lists children of: -1 at the top. */
  function ParentOf(path: seq<nat>): int
  {
    if path == [] then -1 else path[|path| - 1]
  }

  /** `path` is a chain of slots from a root down: each slot's stored parent is the one before it. */
  predicate ValidPath(nodes: seq<Node>, path: seq<nat>)
  {
    forall k :: 0 <= k < |path| ==>
      path[k] < |nodes| && nodes[path[k]].parentId == ParentOf(path[..k])
  }

  /** A chain from a root never repeats a slot, since each slot has one parent. */
  lemma {:induction false} ChainDistinctAt(nodes: seq<Node>, path: seq<nat>, a: nat, b: nat)
    requires ValidPath(nodes, path) && a < b < |path|
    ensures path[a] != path[b]
    decreases a
  {
    if a > 0 {
      ChainDistinctAt(nodes, path, a - 1, b - 1);
      assert nodes[path[a]].parentId == ParentOf(path[..a]) == path[a - 1];
      assert nodes[path[b]].parentId == ParentOf(path[..b]) == path[b - 1];
    } else {
      assert nodes[path[0]].parentId == ParentOf(path[..0]) == -1;
      assert nodes[path[b]].parentId == ParentOf(path[..b]) == path[b - 1];
    }
  }

  /**
   * Extending a chain by a child of its last slot keeps it a chain, and the
   * chain stays no longer than the table: so the walk cannot loop, even on
   * a table whose parent links hold cycles.
   */
  lemma PathExtend(nodes: seq<Node>, path: seq<nat>, j: nat)
    requires ValidPath(nodes, path) && j < |nodes| && nodes[j].parentId == ParentOf(path)
    ensures ValidPath(nodes, path + [j]) && |path| + 1 <= |nodes|
  {
    var p := path + [j];
    assert p[..|path|] == path;
    assert forall k :: 0 <= k < |path| ==> p[..k] == path[..k];
    forall a, b | 0 <= a < b < |p| ensures p[a] != p[b] {
      ChainDistinctAt(nodes, p, a, b);
    }
    DistinctBound(p, |nodes|);
  }

  /** The rows of the subtree below the end of `path` (the top level when `path` is empty). */
  function Walk(nodes: seq<Node>, path: seq<nat>): (r: seq<Row>)
    requires ValidPath(nodes, path)
    ensures r == [] || (r[0].Entry? && r[0].level == |path|)
    decreases |nodes| - |path|, 1, 0
  {
    Emit(nodes, path, Siblings(nodes, ParentOf(path), U64_MAX, 0))
  }

  /**
   * For each listed child in turn: its row at the path's depth, then its
   * own subtree. Written as the report grows, by appending the last child.
   */
  function Emit(nodes: seq<Node>, path: seq<nat>, ids: seq<nat>): (r: seq<Row>)
    requires ValidPath(nodes, path)
    requires forall a :: 0 <= a < |ids| ==> ids[a] < |nodes| && nodes[ids[a]].parentId == ParentOf(path)
    ensures |r| >= |ids|
    ensures ids != [] ==> r[0] == Entry(|path|, nodes[ids[0]].name, nodes[ids[0]].totalCycles)
    decreases |nodes| - |path|, 0, |ids|
  {
    if ids == [] then []
    else
      var j := ids[|ids| - 1];
      PathExtend(nodes, path, j);
      Emit(nodes, path, ids[..|ids| - 1]) + [Entry(|path|, nodes[j].name, nodes[j].totalCycles)] + Walk(nodes, path + [j])
  }

  /**
   * A subtree holds only entries, none above the path's depth, and none
   * for a slot of zero cost or of cost UINT64_MAX.
   */
  lemma {:induction false} WalkRows(nodes: seq<Node>, path: seq<nat>)
    requires ValidPath(nodes, path)
    ensures forall x :: x in Walk(nodes, path) ==> x.Entry? && x.level >= |path| && 0 < x.cycles < U64_MAX
    decreases |nodes| - |path|, 1, 0
  {
    SiblingsEligible(nodes, ParentOf(path), U64_MAX, 0);
    EmitRows(nodes, path, Siblings(nodes, ParentOf(path), U64_MAX, 0));
  }

  lemma {:induction false} EmitRows(nodes: seq<Node>, path: seq<nat>, ids: seq<nat>)
    requires ValidPath(nodes, path)
    requires forall a :: 0 <= a < |ids| ==> ids[a] < |nodes| && nodes[ids[a]].parentId == ParentOf(path)
    requires forall a :: 0 <= a < |ids| ==> 0 < nodes[ids[a]].totalCycles < U64_MAX
    ensures forall x :: x in Emit(nodes, path, ids) ==> x.Entry? && x.level >= |path| && 0 < x.cycles < U64_MAX
    decreases |nodes| - |path|, 0, |ids|
  {
    if ids != [] {
      var j := ids[|ids| - 1];
      PathExtend(nodes, path, j);
      WalkRows(nodes, path + [j]);
      EmitRows(nodes, path, ids[..|ids| - 1]);
    }
  }

  /** Emitting one more listed child appends its row and then its subtree. */
  lemma EmitAppend(nodes: seq<Node>, path: seq<nat>, ids: seq<nat>, j: nat)
    requires ValidPath(nodes, path)
    requires forall a :: 0 <= a < |ids| ==> ids[a] < |nodes| && nodes[ids[a]].parentId == ParentOf(path)
    requires j < |nodes| && nodes[j].parentId == ParentOf(path)
    ensures ValidPath(nodes, path + [j])
    ensures Emit(nodes, path, ids + [j])
            == Emit(nodes, path, ids) + [Entry(|path|, nodes[j].name, nodes[j].totalCycles)] + Walk(nodes, path + [j])
  {
    PathExtend(nodes, path, j);
    assert (ids + [j])[..|ids|] == ids;
  }

  /** The report below the end of `path` once its first `n` listed children have been emitted. */
  function EmitFirst(nodes: seq<Node>, path: seq<nat>, n: nat): seq<Row>
    requires ValidPath(nodes, path) && n <= |Siblings(nodes, ParentOf(path), U64_MAX, 0)|
  {
    Emit(nodes, path, Siblings(nodes, ParentOf(path), U64_MAX, 0)[..n])
  }

  /**
   * The outer loop of `profiler_get_results_sorted` ends, after `count`
   * picks made under the ceiling `ceil`, once NodesMax picks are made or
   * a scan finds nothing: the rows so far are then the whole subtree.
   */
  lemma WalkEnd(nodes: seq<Node>, path: seq<nat>, ceil: u64, count: nat)
    requires ValidPath(nodes, path) && count <= NodesMax
    requires count <= |Siblings(nodes, ParentOf(path), U64_MAX, 0)|
    requires Siblings(nodes, ParentOf(path), ceil, count) == Siblings(nodes, ParentOf(path), U64_MAX, 0)[count..]
    requires count == NodesMax || Scan(nodes, ParentOf(path), ceil, |nodes|).index == -1
    ensures Walk(nodes, path) == EmitFirst(nodes, path, count)
  {
    var all := Siblings(nodes, ParentOf(path), U64_MAX, 0);
    assert all[count..] == [];
    assert all[..count] == all;
  }

  /**
   * A round of the outer loop whose scan finds slot j: j is the next
   * listed child, the ceiling drops to its cost, and its row and then its
   * subtree are appended.
   */
  lemma WalkStep(nodes: seq<Node>, path: seq<nat>, ceil: u64, count: nat, j: nat)
    requires ValidPath(nodes, path) && count < NodesMax
    requires count <= |Siblings(nodes, ParentOf(path), U64_MAX, 0)|
    requires Siblings(nodes, ParentOf(path), ceil, count) == Siblings(nodes, ParentOf(path), U64_MAX, 0)[count..]
    requires Scan(nodes, ParentOf(path), ceil, |nodes|).index == j
    ensures ValidPath(nodes, path + [j]) && |path| < |nodes| && ParentOf(path + [j]) == j
    ensures count + 1 <= |Siblings(nodes, ParentOf(path), U64_MAX, 0)|
    ensures Siblings(nodes, ParentOf(path), nodes[j].totalCycles, count + 1)
            == Siblings(nodes, ParentOf(path), U64_MAX, 0)[count + 1..]
    ensures EmitFirst(nodes, path, count + 1)
            == EmitFirst(nodes, path, count) + [Entry(|path|, nodes[j].name, nodes[j].totalCycles)] + Walk(nodes, path + [j])
  {
    var all := Siblings(nodes, ParentOf(path), U64_MAX, 0);
    PickNext(nodes, ParentOf(path), ceil, count, j);
    TakeOneMore(all, count);
    PathExtend(nodes, path, j);
    EmitAppend(nodes, path, all[..count], j);
  }

  /** The pick a scan makes is the next listed slot, and the picks after it are those under its cost. */
  lemma PickNext(nodes: seq<Node>, parentId: int, ceil: u64, count: nat, j: nat)
    requires count < NodesMax && count <= |Siblings(nodes, parentId, U64_MAX, 0)|
    requires Siblings(nodes, parentId, ceil, count) == Siblings(nodes, parentId, U64_MAX, 0)[count..]
    requires Scan(nodes, parentId, ceil, |nodes|).index == j
    ensures count < |Siblings(nodes, parentId, U64_MAX, 0)| && Siblings(nodes, parentId, U64_MAX, 0)[count] == j
    ensures j < |nodes| && nodes[j].parentId == parentId
    ensures Siblings(nodes, parentId, nodes[j].totalCycles, count + 1) == Siblings(nodes, parentId, U64_MAX, 0)[count + 1..]
  {
    var later := Siblings(nodes, parentId, nodes[j].totalCycles, count + 1);
    ScanBest(nodes, parentId, ceil, |nodes|);
    SiblingsNext(nodes, parentId, ceil, count);
    DropOne(Siblings(nodes, parentId, U64_MAX, 0), count, j, later);
  }

  lemma DropOne(s: seq<nat>, n: nat, x: nat, rest: seq<nat>)
    requires n <= |s| && s[n..] == [x] + rest
    ensures n < |s| && s[n] == x && s[n + 1..] == rest
  {
    assert s[n..][0] == s[n];
    assert s[n + 1..] == s[n..][1..];
  }

  lemma TakeOneMore(s: seq<nat>, n: nat)
    requires n < |s|
    ensures s[..n + 1] == s[..n] + [s[n]]
  {
  }

  /** `_profiler_get_results`: the two header rows, then the walk from parent -1 at level 0. */
  function Render(nodes: seq<Node>): (r: seq<Row>)
    ensures |r| >= 2 && r[0] == Header && r[1] == Separator
    ensures forall i :: 2 <= i < |r| ==> r[i].Entry? && 0 < r[i].cycles < U64_MAX
  {
    WalkRows(nodes, []);
    [Header, Separator] + Walk(nodes, [])
  }

  /** The entries of `rows` at indentation `level`, in order. */
  function AtLevel(rows: seq<Row>, level: nat): (r: seq<Row>)
    ensures forall x :: x in r ==> x.Entry? && x.level == level
  {
    if rows == [] then []
    else (if rows[0].Entry? && rows[0].level == level then [rows[0]] else []) + AtLevel(rows[1..], level)
  }

  lemma {:induction false} AtLevelAppend(a: seq<Row>, b: seq<Row>, level: nat)
    ensures AtLevel(a + b, level) == AtLevel(a, level) + AtLevel(b, level)
  {
    if a != [] {
      assert (a + b)[0] == a[0];
      assert (a + b)[1..] == a[1..] + b;
      AtLevelAppend(a[1..], b, level);
    } else {
      assert a + b == b;
    }
  }

  lemma {:induction false} AtLevelDeeper(rows: seq<Row>, level: nat)
    requires forall x :: x in rows ==> x.Entry? && x.level > level
    ensures AtLevel(rows, level) == []
  {
    if rows != [] {
      assert rows[0] in rows;
      AtLevelDeeper(rows[1..], level);
    }
  }

  /** The rows the listed slots `ids` get at indentation `level`. */
  function EntriesFor(nodes: seq<Node>, ids: seq<nat>, level: nat): (r: seq<Row>)
    requires forall a :: 0 <= a < |ids| ==> ids[a] < |nodes|
    ensures |r| == |ids|
    ensures forall a :: 0 <= a < |ids| ==> r[a] == Entry(level, nodes[ids[a]].name, nodes[ids[a]].totalCycles)
  {
    if ids == [] then []
    else
      var j := ids[|ids| - 1];
      EntriesFor(nodes, ids[..|ids| - 1], level) + [Entry(level, nodes[j].name, nodes[j].totalCycles)]
  }

  lemma {:induction false} EmitTopLevel(nodes: seq<Node>, path: seq<nat>, ids: seq<nat>)
    requires ValidPath(nodes, path)
    requires forall a :: 0 <= a < |ids| ==> ids[a] < |nodes| && nodes[ids[a]].parentId == ParentOf(path)
    ensures AtLevel(Emit(nodes, path, ids), |path|) == EntriesFor(nodes, ids, |path|)
  {
    if ids != [] {
      var j := ids[|ids| - 1];
      PathExtend(nodes, path, j);
      var init := Emit(nodes, path, ids[..|ids| - 1]);
      var row := [Entry(|path|, nodes[j].name, nodes[j].totalCycles)];
      var sub := Walk(nodes, path + [j]);
      assert Emit(nodes, path, ids) == init + row + sub;
      AtLevelAppend(init + row, sub, |path|);
      AtLevelAppend(init, row, |path|);
      WalkRows(nodes, path + [j]);
      AtLevelDeeper(sub, |path|);
      EmitTopLevel(nodes, path, ids[..|ids| - 1]);
    }
  }

  /**
   * Depth-first structure: the rows of a subtree at its own depth are
   * exactly the rows of the listed children, in the order they were
   * picked, so strictly descending in cost; everything else in the subtree
   * is nested deeper.
   */
  lemma WalkTopLevel(nodes: seq<Node>, path: seq<nat>)
    requires ValidPath(nodes, path)
    ensures var top := AtLevel(Walk(nodes, path), |path|);
            && top == EntriesFor(nodes, Siblings(nodes, ParentOf(path), U64_MAX, 0), |path|)
            && forall a, b :: 0 <= a < b < |top| ==> top[a].cycles > top[b].cycles
  {
    SiblingsDescending(nodes, ParentOf(path), U64_MAX, 0);
    EmitTopLevel(nodes, path, Siblings(nodes, ParentOf(path), U64_MAX, 0));
  }

  /** The top level of the report is the list of roots (slots whose parent is -1), in the order picked. */
  lemma RenderTopLevel(nodes: seq<Node>)
    ensures AtLevel(Render(nodes), 0) == EntriesFor(nodes, Siblings(nodes, -1, U64_MAX, 0), 0)
  {
    var w := Walk(nodes, []);
    WalkTopLevel(nodes, []);
    AtLevelAppend([Header, Separator], w, 0);
    assert AtLevel([Header, Separator], 0) == [] by {
      assert [Header, Separator][1..] == [Separator];
    }
  }

  /** The top level of the report lists the roots in strictly descending cost. */
  lemma RenderRootsDescending(nodes: seq<Node>)
    ensures forall a, b :: 0 <= a < b < |AtLevel(Render(nodes), 0)| ==>
              AtLevel(Render(nodes), 0)[a].cycles > AtLevel(Render(nodes), 0)[b].cycles
  {
    RenderTopLevel(nodes);
    SiblingsDescending(nodes, -1, U64_MAX, 0);
  }

  /**
   * Every root with a cost strictly between 0 and UINT64_MAX is listed at
   * the top level, or shares its cost with a root listed there.
   */
  lemma RenderRootsComplete(nodes: seq<Node>, k: nat)
    requires |nodes| <= NodesMax && k < |nodes|
    requires nodes[k].parentId == -1 && 0 < nodes[k].totalCycles < U64_MAX
    ensures exists a :: 0 <= a < |AtLevel(Render(nodes), 0)| && AtLevel(Render(nodes), 0)[a].cycles == nodes[k].totalCycles
  {
    var roots := AtLevel(Render(nodes), 0);
    var r := Siblings(nodes, -1, U64_MAX, 0);
    assert roots == EntriesFor(nodes, r, 0) by {
      RenderTopLevel(nodes);
    }
    var a := RootWithCost(nodes, k);
    assert roots[a].cycles == nodes[k].totalCycles;
  }

  lemma RootWithCost(nodes: seq<Node>, k: nat) returns (a: nat)
    requires |nodes| <= NodesMax && k < |nodes|
    requires nodes[k].parentId == -1 && 0 < nodes[k].totalCycles < U64_MAX
    ensures a < |Siblings(nodes, -1, U64_MAX, 0)|
    ensures nodes[Siblings(nodes, -1, U64_MAX, 0)[a]].totalCycles == nodes[k].totalCycles
  {
    var r := Siblings(nodes, -1, U64_MAX, 0);
    assert Eligible(nodes, -1, U64_MAX, k);
    SiblingsCoverAll(nodes, -1, U64_MAX, k);
    a :| 0 <= a < |r| && nodes[r[a]].totalCycles == nodes[k].totalCycles;
  }

  /** A slot without children has an empty subtree. */
  lemma LeafWalk(nodes: seq<Node>, path: seq<nat>)
    requires ValidPath(nodes, path)
    requires forall k :: 0 <= k < |nodes| ==> nodes[k].parentId != ParentOf(path)
    ensures Walk(nodes, path) == []
  {
    ScanBest(nodes, ParentOf(path), U64_MAX, |nodes|);
  }

  /** Listed children that have no children of their own give exactly their own rows. */
  lemma {:induction false} EmitLeaves(nodes: seq<Node>, path: seq<nat>, ids: seq<nat>)
    requires ValidPath(nodes, path)
    requires forall a :: 0 <= a < |ids| ==> ids[a] < |nodes| && nodes[ids[a]].parentId == ParentOf(path)
    requires forall a, k :: 0 <= a < |ids| && 0 <= k < |nodes| ==> nodes[k].parentId != ids[a]
    ensures Emit(nodes, path, ids) == EntriesFor(nodes, ids, |path|)
  {
    if ids != [] {
      var j := ids[|ids| - 1];
      PathExtend(nodes, path, j);
      assert ParentOf(path + [j]) == j;
      LeafWalk(nodes, path + [j]);
      EmitLeaves(nodes, path, ids[..|ids| - 1]);
    }
  }

  /** A run that times root "a" in slot 0 for `x` cycles, then root "b" in slot 1 for `y` cycles. */
  function TwoRootsEvents(x: u64, y: u64): seq<Event>
  {
    [Begin(0, "a"), End(0, 0, x), Begin(1, "b"), End(1, 0, y)]
  }

  /** After a reset with the cursor at -1, that run leaves two roots and 254 cleared slots. */
  lemma TwoRootsTable(s: State, x: u64, y: u64)
    requires |s.nodes| == NodesMax && s.currentParent == -1
    ensures var t := Run(Reset(s), TwoRootsEvents(x, y));
            && t.nodes[0] == Node("a", x, -1, true) && t.nodes[1] == Node("b", y, -1, true)
            && forall k :: 2 <= k < |t.nodes| ==> t.nodes[k] == EmptyNode
  {
    var evs := TwoRootsEvents(x, y);
    var r := Reset(s);
    var s1 := Start(r, 0, "a");
    var s2 := Stop(s1, 0, 0, x);
    var s3 := Start(s2, 1, "b");
    var s4 := Stop(s3, 1, 0, y);
    assert evs[1..][1..][1..][1..] == [];
    assert Run(r, evs) == Run(s1, evs[1..]) == Run(s2, evs[1..][1..])
        == Run(s3, evs[1..][1..][1..]) == Run(s4, []);
  }

  /** A table of 256 slots whose only regions are the roots in slots 0 and 1; every other slot is cleared. */
  predicate TwoRootTable(nodes: seq<Node>)
  {
    && |nodes| == NodesMax
    && nodes[0].parentId == -1 && nodes[1].parentId == -1
    && nodes[0].totalCycles > 0 && nodes[1].totalCycles > 0
    && forall k :: 2 <= k < |nodes| ==> nodes[k] == EmptyNode
  }

  /**
   * A scan for roots of such a table: slot 1 when it is below the ceiling
   * and strictly costlier than slot 0 (or slot 0 is not below the
   * ceiling), else slot 0 when it is below the ceiling, else nothing.
   */
  lemma TwoRootScan(nodes: seq<Node>, ceil: u64)
    requires TwoRootTable(nodes)
    ensures var a := nodes[0].totalCycles;
            var b := nodes[1].totalCycles;
            Scan(nodes, -1, ceil, |nodes|)
            == if b < ceil && (a >= ceil || b > a) then Best(b, 1)
               else if a < ceil then Best(a, 0)
               else Best(0, -1)
  {
    ScanBest(nodes, -1, ceil, |nodes|);
    if nodes[0].totalCycles < ceil {
      assert Eligible(nodes, -1, ceil, 0);
    }
    if nodes[1].totalCycles < ceil {
      assert Eligible(nodes, -1, ceil, 1);
    }
  }

  /** Two roots are listed costliest first, although the cheaper one occupies the lower slot. */
  lemma TwoRootsDescending(s: State, x: u64, y: u64)
    requires |s.nodes| == NodesMax && s.currentParent == -1
    requires 0 < x < y < U64_MAX
    ensures Render(Run(Reset(s), TwoRootsEvents(x, y)).nodes)
            == [Header, Separator, Entry(0, "b", y), Entry(0, "a", x)]
  {
    TwoRootsTable(s, x, y);
    TwoRootsRender(Run(Reset(s), TwoRootsEvents(x, y)).nodes);
  }

  lemma TwoRootsRender(nodes: seq<Node>)
    requires TwoRootTable(nodes) && nodes[0].totalCycles < nodes[1].totalCycles < U64_MAX
    ensures Render(nodes) == [Header, Separator, Entry(0, nodes[1].name, nodes[1].totalCycles),
                              Entry(0, nodes[0].name, nodes[0].totalCycles)]
  {
    TwoRootScan(nodes, U64_MAX);
    TwoRootScan(nodes, nodes[1].totalCycles);
    TwoRootScan(nodes, nodes[0].totalCycles);
    SiblingsNext(nodes, -1, U64_MAX, 0);
    SiblingsNext(nodes, -1, nodes[1].totalCycles, 1);
    SiblingsNext(nodes, -1, nodes[0].totalCycles, 2);
    assert Siblings(nodes, -1, U64_MAX, 0) == [1, 0];
    EmitLeaves(nodes, [], [1, 0]);
  }

  /** Two roots of equal cost: only the lower slot is listed; the other is skipped. */
  lemma TieShowsFirstOnly(s: State, x: u64)
    requires |s.nodes| == NodesMax && s.currentParent == -1
    requires 0 < x < U64_MAX
    ensures Render(Run(Reset(s), TwoRootsEvents(x, x)).nodes) == [Header, Separator, Entry(0, "a", x)]
  {
    TwoRootsTable(s, x, x);
    TieRender(Run(Reset(s), TwoRootsEvents(x, x)).nodes);
  }

  lemma TieRender(nodes: seq<Node>)
    requires TwoRootTable(nodes) && nodes[0].totalCycles == nodes[1].totalCycles < U64_MAX
    ensures Render(nodes) == [Header, Separator, Entry(0, nodes[0].name, nodes[0].totalCycles)]
  {
    TwoRootScan(nodes, U64_MAX);
    TwoRootScan(nodes, nodes[0].totalCycles);
    SiblingsNext(nodes, -1, U64_MAX, 0);
    SiblingsNext(nodes, -1, nodes[0].totalCycles, 1);
    assert Siblings(nodes, -1, U64_MAX, 0) == [0];
    EmitLeaves(nodes, [], [0]);
  }

  /** A run that opens "a" in slot 0, runs "b" in slot 1 inside it from cycle 10 to 30, and closes "a" at cycle 100 after opening it at 5. */
  function NestedEvents(): seq<Event>
  {
    [Begin(0, "a"), Begin(1, "b"), End(1, 10, 30), End(0, 5, 100)]
  }

  /** After a reset with the cursor at -1, that run leaves "b" linked under "a", each with its own elapsed cycles. */
  lemma NestedTable(s: State)
    requires |s.nodes| == NodesMax && s.currentParent == -1
    ensures var t := Run(Reset(s), NestedEvents());
            && t.nodes[0] == Node("a", 95, -1, true) && t.nodes[1] == Node("b", 20, 0, true)
            && forall k :: 2 <= k < |t.nodes| ==> t.nodes[k] == EmptyNode
  {
    var evs := NestedEvents();
    var r := Reset(s);
    var s1 := Start(r, 0, "a");
    var s2 := Start(s1, 1, "b");
    var s3 := Stop(s2, 1, 10, 30);
    var s4 := Stop(s3, 0, 5, 100);
    assert evs[1..][1..][1..][1..] == [];
    assert Run(r, evs) == Run(s1, evs[1..]) == Run(s2, evs[1..][1..])
        == Run(s3, evs[1..][1..][1..]) == Run(s4, []);
  }

  /** The report of a nested run: the outer region at level 0, then the inner one below it at level 1. */
  lemma NestedReport(s: State)
    requires |s.nodes| == NodesMax && s.currentParent == -1
    ensures Render(Run(Reset(s), NestedEvents()).nodes)
            == [Header, Separator, Entry(0, "a", 95), Entry(1, "b", 20)]
  {
    NestedTable(s);
    NestedRender(Run(Reset(s), NestedEvents()).nodes);
  }

  /** A table of 256 slots holding one root in slot 0 with one child in slot 1; every other slot is cleared. */
  predicate NestedShape(nodes: seq<Node>)
  {
    && |nodes| == NodesMax && nodes[0].parentId == -1 && nodes[1].parentId == 0
    && 0 < nodes[0].totalCycles < U64_MAX && 0 < nodes[1].totalCycles < U64_MAX
    && forall k :: 2 <= k < |nodes| ==> nodes[k] == EmptyNode
  }

  /** Only slot 0 is listed at the top level, and only slot 1 below it. */
  lemma NestedPicks(nodes: seq<Node>, parentId: int, k: nat)
    requires NestedShape(nodes) && k < 2 && parentId == nodes[k].parentId
    ensures Siblings(nodes, parentId, U64_MAX, 0) == [k]
  {
    ScanBest(nodes, parentId, U64_MAX, |nodes|);
    ScanBest(nodes, parentId, nodes[k].totalCycles, |nodes|);
    assert Eligible(nodes, parentId, U64_MAX, k);
    SiblingsNext(nodes, parentId, U64_MAX, 0);
    SiblingsNext(nodes, parentId, nodes[k].totalCycles, 1);
  }

  lemma NestedRender(nodes: seq<Node>)
    requires NestedShape(nodes)
    ensures Render(nodes) == [Header, Separator, Entry(0, nodes[0].name, nodes[0].totalCycles),
                              Entry(1, nodes[1].name, nodes[1].totalCycles)]
  {
    NestedPicks(nodes, -1, 0);
    NestedPicks(nodes, 0, 1);
    EmitAppend(nodes, [], [], 0);
    assert ParentOf([0]) == 0;
    EmitLeaves(nodes, [0], [1]);
  }
}
