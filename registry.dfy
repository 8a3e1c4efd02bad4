/**
 * The region table of profiler.h: 256 `profiler_node` slots, the cursor
 * `profiler_current_parent` and the C++ id counter `profiler_current_id`,
 * with the state transitions that `_profiler_reset`, `_profiler_node_setup`,
 * `PROFILER_START` and `PROFILER_STOP` perform, stated as functions on a
 * value of the whole table. The class `Runtime.Profiler` performs the same
 * transitions in place and is proved against these functions.
 */
module Registry {
  import opened Cycles

  const NodesMax: nat := 256
  /** Size of the `name` buffer, terminating NUL included. */
  const NameMaxLen: nat := 256

  datatype Node = Node(name: string, totalCycles: u64, parentId: int, isSetup: bool)

  datatype State = State(nodes: seq<Node>, currentParent: int, currentId: nat)

  /** A slot as static zero-initialisation leaves it: note the parent is slot 0, not -1. */
  const ZeroNode := Node("", 0, 0, false)

  /** A slot as `_profiler_reset` leaves it. */
  const EmptyNode := Node("", 0, -1, false)

  /** What every reachable table satisfies: 256 slots, every link and the cursor is -1 or a slot, every name fits its buffer. */
  ghost predicate Valid(s: State)
  {
    && |s.nodes| == NodesMax
    && -1 <= s.currentParent < NodesMax
    && forall i :: 0 <= i < |s.nodes| ==>
         -1 <= s.nodes[i].parentId < NodesMax && |s.nodes[i].name| < NameMaxLen
  }

  /** The process-start state: zeroed globals, cursor -1, id counter 0. */
  function Initial(): (r: State)
    ensures Valid(r)
    ensures r.currentParent == -1 && r.currentId == 0
    ensures forall i :: 0 <= i < NodesMax ==> r.nodes[i] == ZeroNode
  {
    State(seq(NodesMax, _ => ZeroNode), -1, 0)
  }

  /** `_profiler_reset`: every slot cleared; cursor and id counter untouched. */
  function Reset(s: State): (r: State)
    ensures |r.nodes| == |s.nodes|
    ensures r.currentParent == s.currentParent && r.currentId == s.currentId
    ensures forall i :: 0 <= i < |r.nodes| ==>
              r.nodes[i].totalCycles == 0 && r.nodes[i].parentId == -1 &&
              !r.nodes[i].isSetup && r.nodes[i].name == ""
    ensures Valid(s) ==> Valid(r)
  {
    s.(nodes := seq(|s.nodes|, _ => EmptyNode))
  }

  /** `_profiler_node_setup(id, name)`: slot `id` takes the name and the current cursor as parent. */
  function Setup(s: State, id: nat, name: string): (r: State)
    requires id < |s.nodes|
    requires |name| < NameMaxLen
    ensures |r.nodes| == |s.nodes|
    ensures r.currentParent == s.currentParent && r.currentId == s.currentId
    ensures r.nodes[id].name == name && r.nodes[id].parentId == s.currentParent && r.nodes[id].isSetup
    ensures r.nodes[id].totalCycles == s.nodes[id].totalCycles
    ensures forall i :: 0 <= i < |s.nodes| && i != id ==> r.nodes[i] == s.nodes[i]
    ensures Valid(s) ==> Valid(r)
  {
    s.(nodes := s.nodes[id := s.nodes[id].(name := name, parentId := s.currentParent, isSetup := true)])
  }

  /** The precondition of `PROFILER_START`: the slot exists, and a name that will be copied fits its buffer. */
  predicate CanStart(s: State, id: nat, name: string)
  {
    id < |s.nodes| && (!s.nodes[id].isSetup ==> |name| < NameMaxLen)
  }

  /**
   * `PROFILER_START(name)` for the call site whose static id is `id`: a slot
   * not yet set up since the last reset is set up under the cursor; a slot
   * already set up keeps its name and parent. Either way the cursor moves to `id`.
   */
  function Start(s: State, id: nat, name: string): (r: State)
    requires CanStart(s, id, name)
    ensures |r.nodes| == |s.nodes|
    ensures r.currentParent == id && r.currentId == s.currentId
    ensures r.nodes[id].isSetup && r.nodes[id].totalCycles == s.nodes[id].totalCycles
    ensures s.nodes[id].isSetup ==> r.nodes[id] == s.nodes[id]
    ensures !s.nodes[id].isSetup ==> r.nodes[id].name == name && r.nodes[id].parentId == s.currentParent
    ensures forall i :: 0 <= i < |s.nodes| && i != id ==> r.nodes[i] == s.nodes[i]
    ensures Valid(s) ==> Valid(r)
  {
    var t := if !s.nodes[id].isSetup then Setup(s, id, name) else s;
    t.(currentParent := id)
  }

  /**
   * `PROFILER_STOP(name)`, where `start` is the cycle count read at the
   * matching START and `now` the one read here: the elapsed cycles, modulo
   * 2^64, are added (wrapping) to that slot only, and the cursor returns to
   * the slot's stored parent.
   */
  function Stop(s: State, id: nat, start: u64, now: u64): (r: State)
    requires id < |s.nodes|
    ensures |r.nodes| == |s.nodes|
    ensures r.currentParent == s.nodes[id].parentId && r.currentId == s.currentId
    ensures r.nodes[id].totalCycles as int == (s.nodes[id].totalCycles as int + now as int - start as int) % TWO_64
    ensures r.nodes[id].name == s.nodes[id].name && r.nodes[id].parentId == s.nodes[id].parentId
    ensures r.nodes[id].isSetup == s.nodes[id].isSetup
    ensures forall i :: 0 <= i < |s.nodes| && i != id ==> r.nodes[i] == s.nodes[i]
    ensures Valid(s) ==> Valid(r)
  {
    AddElapsed(s.nodes[id].totalCycles, start, now);
    var n := s.nodes[id];
    s.(nodes := s.nodes[id := n.(totalCycles := WrapAdd(n.totalCycles, WrapSub(now, start)))],
       currentParent := n.parentId)
  }

  /** PROFILER_CREATE_ID under C++: hand out the counter's value and increment it. */
  function CreateId(s: State): (r: (nat, State))
    ensures r.0 == s.currentId && r.1.currentId == s.currentId + 1
    ensures r.1.nodes == s.nodes && r.1.currentParent == s.currentParent
  {
    (s.currentId, s.(currentId := s.currentId + 1))
  }

  /** Resetting twice leaves the same table as resetting once. */
  lemma ResetIdempotent(s: State)
    ensures Reset(Reset(s)) == Reset(s)
  {
  }

  /**
   * One START/STOP pair on slot `id` brings the cursor back to where it was
   * exactly when the slot was new, or its stored parent already is the
   * cursor: a region first entered elsewhere sends the cursor to that
   * earlier caller.
   */
  lemma StartStopCursor(s: State, id: nat, name: string, start: u64, now: u64)
    requires CanStart(s, id, name)
    ensures Stop(Start(s, id, name), id, start, now).currentParent == s.currentParent
            <==> !s.nodes[id].isSetup || s.nodes[id].parentId == s.currentParent
  {
  }

  /**
   * START(A); START(B); STOP(B); STOP(A) on two slots not yet set up: B is
   * linked under A, A under the cursor the sequence began with, the cursor
   * is back where it began, and each slot holds its own elapsed cycles.
   */
  lemma Nesting(s: State, a: nat, nameA: string, b: nat, nameB: string,
                startA: u64, startB: u64, stopB: u64, stopA: u64)
    requires a < |s.nodes| && b < |s.nodes| && a != b
    requires !s.nodes[a].isSetup && !s.nodes[b].isSetup
    requires |nameA| < NameMaxLen && |nameB| < NameMaxLen
    ensures var s1 := Start(s, a, nameA);
            var s2 := Start(s1, b, nameB);
            var s3 := Stop(s2, b, startB, stopB);
            var s4 := Stop(s3, a, startA, stopA);
            && s4.nodes[b].parentId == a
            && s4.nodes[a].parentId == s.currentParent
            && s4.currentParent == s.currentParent
            && s4.nodes[a].name == nameA && s4.nodes[b].name == nameB
            && s4.nodes[a].totalCycles as int == (s.nodes[a].totalCycles as int + stopA as int - startA as int) % TWO_64
            && s4.nodes[b].totalCycles as int == (s.nodes[b].totalCycles as int + stopB as int - startB as int) % TWO_64
  {
    var s1 := Start(s, a, nameA);
    var s2 := Start(s1, b, nameB);
    var s3 := Stop(s2, b, startB, stopB);
    assert s3.nodes[a] == s2.nodes[a] == s1.nodes[a];
    assert s3.currentParent == a;
  }

  /** One activation of a region: the cycle counts read at its START and at its STOP. */
  datatype Span = Span(start: u64, stop: u64)

  /** Total elapsed cycles over a run of activations, each interval taken modulo 2^64. */
  function Elapsed(spans: seq<Span>): nat
  {
    if spans == [] then 0 else WrapSub(spans[0].stop, spans[0].start) as int + Elapsed(spans[1..])
  }

  /** The call site for slot `id` executed once per span, each time START then STOP. */
  function Activate(s: State, id: nat, name: string, spans: seq<Span>): (r: State)
    requires id < |s.nodes| && |name| < NameMaxLen
    ensures |r.nodes| == |s.nodes|
    decreases |spans|
  {
    if spans == [] then s
    else Activate(Stop(Start(s, id, name), id, spans[0].start, spans[0].stop), id, name, spans[1..])
  }

  /**
   * A region's total is the sum of the elapsed cycles of all its
   * activations, modulo 2^64; its parent is fixed by the first activation;
   * no other slot changes.
   */
  lemma {:induction false} ActivationsAccumulate(s: State, id: nat, name: string, spans: seq<Span>)
    requires id < |s.nodes| && |name| < NameMaxLen
    ensures var r := Activate(s, id, name, spans);
            && r.nodes[id].totalCycles as int == (s.nodes[id].totalCycles as int + Elapsed(spans)) % TWO_64
            && (spans != [] ==>
                  && r.nodes[id].isSetup
                  && r.nodes[id].parentId == (if s.nodes[id].isSetup then s.nodes[id].parentId else s.currentParent))
            && (forall i :: 0 <= i < |s.nodes| && i != id ==> r.nodes[i] == s.nodes[i])
    decreases |spans|
  {
    if spans != [] {
      var t := Stop(Start(s, id, name), id, spans[0].start, spans[0].stop);
      ActivationsAccumulate(t, id, name, spans[1..]);
      var d := WrapSub(spans[0].stop, spans[0].start) as int;
      var x := s.nodes[id].totalCycles as int;
      assert t.nodes[id].totalCycles as int == (x + d) % TWO_64;
      ModSum(x, d, Elapsed(spans[1..]));
    }
  }

  /**
   * One macro executed by the instrumented program: a PROFILER_START, or a
   * PROFILER_STOP with the cycle counts read at its START and at the STOP.
   */
  datatype Event = Begin(id: nat, name: string) | End(id: nat, start: u64, now: u64)

  /** The event names a slot of a table with `n` slots, and a START's name fits its buffer. */
  predicate Fits(e: Event, n: nat)
  {
    e.id < n && (e.Begin? ==> |e.name| < NameMaxLen)
  }

  /** One event applied to the table. */
  function Step(s: State, e: Event): (r: State)
    requires Fits(e, |s.nodes|)
    ensures |r.nodes| == |s.nodes| && r.currentId == s.currentId
    ensures Valid(s) ==> Valid(r)
  {
    match e
    case Begin(id, name) => Start(s, id, name)
    case End(id, start, now) => Stop(s, id, start, now)
  }

  /** The table after the program executes `evs` in order, nested, interleaved or repeated in any way. */
  function Run(s: State, evs: seq<Event>): (r: State)
    requires forall k :: 0 <= k < |evs| ==> Fits(evs[k], |s.nodes|)
    ensures |r.nodes| == |s.nodes| && r.currentId == s.currentId
    ensures Valid(s) ==> Valid(r)
    decreases |evs|
  {
    if evs == [] then s
    else
      assert Fits(evs[0], |s.nodes|);
      Run(Step(s, evs[0]), evs[1..])
  }

  /** The elapsed cycles, modulo 2^64, that one event adds to slot `x`: those of a STOP of `x`, else none. */
  function Gain(e: Event, x: nat): nat
  {
    if e.End? && e.id == x then WrapSub(e.now, e.start) as int else 0
  }

  /** The elapsed cycles, each interval taken modulo 2^64, of the STOPs of slot `x` in `evs`. */
  function Delta(evs: seq<Event>, x: nat): nat
  {
    if evs == [] then 0 else Gain(evs[0], x) + Delta(evs[1..], x)
  }

  /** One event adds its gain to slot `x`'s total, wrapping, and leaves a set-up slot's name and parent alone. */
  lemma StepEffect(s: State, e: Event, x: nat)
    requires Fits(e, |s.nodes|) && x < |s.nodes|
    ensures Step(s, e).nodes[x].totalCycles as int == (s.nodes[x].totalCycles as int + Gain(e, x)) % TWO_64
    ensures s.nodes[x].isSetup ==>
              && Step(s, e).nodes[x].isSetup
              && Step(s, e).nodes[x].name == s.nodes[x].name
              && Step(s, e).nodes[x].parentId == s.nodes[x].parentId
  {
  }

  /**
   * Blocks with the same call site are combined: after any sequence of
   * STARTs and STOPs, every slot's total is its old total plus the elapsed
   * cycles of all of its own STOPs, modulo 2^64, whatever other regions
   * were open or run in between.
   */
  lemma {:induction false} RunAccumulates(s: State, evs: seq<Event>, x: nat)
    requires forall k :: 0 <= k < |evs| ==> Fits(evs[k], |s.nodes|)
    requires x < |s.nodes|
    ensures Run(s, evs).nodes[x].totalCycles as int == (s.nodes[x].totalCycles as int + Delta(evs, x)) % TWO_64
    decreases |evs|
  {
    if evs != [] {
      assert Fits(evs[0], |s.nodes|);
      var t := Step(s, evs[0]);
      assert Run(s, evs) == Run(t, evs[1..]);
      assert Delta(evs, x) == Gain(evs[0], x) + Delta(evs[1..], x);
      StepEffect(s, evs[0], x);
      RunAccumulates(t, evs[1..], x);
      ModSum(s.nodes[x].totalCycles as int, Gain(evs[0], x), Delta(evs[1..], x));
    } else {
      ModSum(s.nodes[x].totalCycles as int, 0, 0);
    }
  }

  /**
   * A slot already set up keeps its name and its parent through any
   * sequence of STARTs and STOPs: the parent link is fixed by the first
   * activation after a reset.
   */
  lemma {:induction false} RunKeepsSetup(s: State, evs: seq<Event>, x: nat)
    requires forall k :: 0 <= k < |evs| ==> Fits(evs[k], |s.nodes|)
    requires x < |s.nodes| && s.nodes[x].isSetup
    ensures Run(s, evs).nodes[x].isSetup
    ensures Run(s, evs).nodes[x].name == s.nodes[x].name
    ensures Run(s, evs).nodes[x].parentId == s.nodes[x].parentId
    decreases |evs|
  {
    if evs != [] {
      assert Fits(evs[0], |s.nodes|);
      StepEffect(s, evs[0], x);
      RunKeepsSetup(Step(s, evs[0]), evs[1..], x);
    }
  }

  lemma ModSum(x: int, d: int, e: int)
    ensures ((x + d) % TWO_64 + e) % TWO_64 == (x + (d + e)) % TWO_64
  {
  }
}
