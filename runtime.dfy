/**
 * The profiler as profiler.h runs it: the global node array updated in
 * place, the cursor `profiler_current_parent` and the id counter
 * `profiler_current_id`. Every state-changing operation is proved to
 * perform exactly the transition its `Registry` function describes, and
 * the report it builds is proved equal to `Report.Render` of the array.
 * Cycle counts read by `get_cycles()` are passed in as arguments.
 */
module Runtime {
  import opened Cycles
  import opened Registry
  import opened Report

  class Profiler {
    const nodes: array<Node>
    var currentParent: int
    var currentId: nat

    /** The whole profiler state as a value. */
    ghost function Snapshot(): State
      reads this, nodes
    {
      State(nodes[..], currentParent, currentId)
    }

    ghost predicate Valid()
      reads this, nodes
    {
      nodes.Length == NodesMax && Registry.Valid(Snapshot())
    }

    /** Static initialisation of the globals: every slot zeroed, cursor -1, counter 0. */
    constructor ()
      ensures Valid() && fresh(nodes)
      ensures Snapshot() == Initial()
    {
      nodes := new Node[NodesMax](_ => ZeroNode);
      currentParent := -1;
      currentId := 0;
    }

    /** `_profiler_reset`: clears every slot in turn; the cursor and the counter are kept. */
    method Reset()
      requires Valid()
      modifies nodes
      ensures Valid()
      ensures Snapshot() == Registry.Reset(old(Snapshot()))
    {
      for i := 0 to NodesMax
        invariant forall k :: 0 <= k < i ==> nodes[k] == EmptyNode
      {
        nodes[i] := nodes[i].(totalCycles := 0, parentId := -1, isSetup := false, name := "");
      }
      assert nodes[..] == seq(NodesMax, _ => EmptyNode);
    }

    /** PROFILER_CREATE_ID under C++: the next id, post-incrementing the counter. */
    method CreateId() returns (id: nat)
      requires Valid()
      modifies this
      ensures Valid()
      ensures id == old(currentId) && currentId == old(currentId) + 1
      ensures currentParent == old(currentParent)
      ensures (id, Snapshot()) == Registry.CreateId(old(Snapshot()))
    {
      id := currentId;
      currentId := currentId + 1;
    }

    /** `_profiler_node_setup(id, name)`: slot `id` takes the name and the cursor as its parent. */
    method NodeSetup(id: nat, name: string)
      requires Valid() && id < NodesMax && |name| < NameMaxLen
      modifies nodes
      ensures Valid()
      ensures Snapshot() == Setup(old(Snapshot()), id, name)
    {
      nodes[id] := nodes[id].(name := name, parentId := currentParent, isSetup := true);
    }

    /** PROFILER_START for the call site with static id `id`. */
    method Start(id: nat, name: string)
      requires Valid() && CanStart(Snapshot(), id, name)
      modifies this, nodes
      ensures Valid()
      ensures Snapshot() == Registry.Start(old(Snapshot()), id, name)
    {
      if !nodes[id].isSetup {
        NodeSetup(id, name);
      }
      currentParent := id;
    }

    /** PROFILER_STOP: `start` was read at the matching START, `now` is read here. */
    method Stop(id: nat, start: u64, now: u64)
      requires Valid() && id < NodesMax
      modifies this, nodes
      ensures Valid()
      ensures Snapshot() == Registry.Stop(old(Snapshot()), id, start, now)
    {
      var n := nodes[id];
      nodes[id] := n.(totalCycles := WrapAdd(n.totalCycles, WrapSub(now, start)));
      currentParent := nodes[id].parentId;
    }

    /** `_profiler_get_results`: the two header rows, then the sorted walk from the top. */
    method GetResults() returns (rows: seq<Row>)
      requires nodes.Length == NodesMax
      ensures rows == Render(nodes[..])
    {
      var sub := ResultsSorted(-1, 0, nodes[..], []);
      rows := [Header, Separator] + sub;
    }

    /**
     * One scan of the slots in `profiler_get_results_sorted`: the largest
     * cost below `ceil` among the children of `parentId`, and the first
     * slot that has it (index -1 when there is none).
     */
    method ScanChildren(parentId: int, ceil: u64, ghost ns: seq<Node>) returns (maxCycles: u64, maxIndex: int)
      requires nodes.Length == NodesMax && nodes[..] == ns
      ensures Best(maxCycles, maxIndex) == Scan(ns, parentId, ceil, NodesMax)
    {
      maxCycles := 0;
      maxIndex := -1;
      var j := 0;
      while j < NodesMax
        invariant 0 <= j <= NodesMax
        invariant Best(maxCycles, maxIndex) == Scan(ns, parentId, ceil, j)
      {
        if nodes[j].parentId == parentId {
          if nodes[j].totalCycles > maxCycles && nodes[j].totalCycles < ceil {
            maxCycles := nodes[j].totalCycles;
            maxIndex := j;
          }
        }
        j := j + 1;
      }
    }

    /**
     * `profiler_get_results_sorted`: lists the children of `parentId` by
     * repeated scans under a falling ceiling, each followed by its own
     * subtree one level deeper. `ns` is the array's contents, which the
     * report only reads; `path` is the chain of slots the recursion has
     * descended through, and is what bounds the recursion.
     */
    method ResultsSorted(parentId: int, level: nat, ghost ns: seq<Node>, ghost path: seq<nat>) returns (rows: seq<Row>)
      requires nodes.Length == NodesMax && nodes[..] == ns
      requires ValidPath(ns, path) && parentId == ParentOf(path) && level == |path|
      ensures rows == Walk(ns, path)
      decreases NodesMax - |path|, 1
    {
      var ceil := U64_MAX;
      rows := [];
      var i := 0;
      while i < NodesMax
        invariant i <= NodesMax && i <= |Siblings(ns, parentId, U64_MAX, 0)|
        invariant Siblings(ns, parentId, ceil, i) == Siblings(ns, parentId, U64_MAX, 0)[i..]
        invariant rows == EmitFirst(ns, path, i)
      {
        var found;
        ceil, found, rows := ResultsNext(parentId, level, ns, path, ceil, i, rows);
        if !found {
          return;
        }
        i := i + 1;
      }
      WalkEnd(ns, path, ceil, i);
    }

    /**
     * One round of the outer loop of `profiler_get_results_sorted`: scan
     * for the costliest child below `ceil`; if there is one, lower the
     * ceiling to its cost and append its row and then its subtree.
     */
    method ResultsNext(parentId: int, level: nat, ghost ns: seq<Node>, ghost path: seq<nat>,
                       ceil: u64, i: nat, rows: seq<Row>)
      returns (newCeil: u64, found: bool, newRows: seq<Row>)
      requires nodes.Length == NodesMax && nodes[..] == ns
      requires ValidPath(ns, path) && parentId == ParentOf(path) && level == |path|
      requires i < NodesMax && i <= |Siblings(ns, parentId, U64_MAX, 0)|
      requires Siblings(ns, parentId, ceil, i) == Siblings(ns, parentId, U64_MAX, 0)[i..]
      requires rows == EmitFirst(ns, path, i)
      ensures !found ==> newRows == Walk(ns, path)
      ensures found ==> && i + 1 <= |Siblings(ns, parentId, U64_MAX, 0)|
                        && Siblings(ns, parentId, newCeil, i + 1) == Siblings(ns, parentId, U64_MAX, 0)[i + 1..]
                        && newRows == EmitFirst(ns, path, i + 1)
      decreases NodesMax - |path|, 0
    {
      var maxCycles, maxIndex := ScanChildren(parentId, ceil, ns);
      newCeil := maxCycles;
      found := maxIndex != -1;
      if !found {
        WalkEnd(ns, path, ceil, i);
        newRows := rows;
        return;
      }
      var k: nat := maxIndex;
      WalkStep(ns, path, ceil, i, k);
      var sub := ResultsSorted(k, level + 1, ns, path + [k]);
      newRows := rows + [Entry(level, nodes[k].name, nodes[k].totalCycles)] + sub;
    }
  }

  /**
   * The name column of a report line: four spaces per level of nesting,
   * then the region's name.
   */
  method IndentedName(level: nat, name: string) returns (column: string)
    ensures |column| == 4 * level + |name|
    ensures forall k :: 0 <= k < 4 * level ==> column[k] == ' '
    ensures column[4 * level..] == name
  {
    column := "";
    var j := 0;
    while j < level
      invariant 0 <= j <= level && |column| == 4 * j
      invariant forall k :: 0 <= k < |column| ==> column[k] == ' '
    {
      column := column + "    ";
      j := j + 1;
    }
    column := column + name;
  }
}
