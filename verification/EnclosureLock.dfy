// The enclosure lock: an flock shared by processes, re-entrant per thread through a depth
// counter, and degrading to unsynchronised access rather than failing.
module EnclosureLock {
  type Thread = nat  // any thread of any process
  type Path = string

  // One `with enclosure_access(...)` block a thread is inside.
  // A nested one yields True, one that could not open the lock file False, and an outermost
  // one whether its retry loop got the lock.
  datatype Frame = Nested | OpenFailed | Outer(path: Path, held: bool)

  // A thread between opening the lock file and leaving the retry loop is waiting.
  datatype State = State(holders: map<Path, Thread>, depth: map<Thread, nat>,
                         stacks: map<Thread, seq<Frame>>, waiting: map<Thread, Path>)

  datatype Event =
    | EnterNested(t: Thread)
    | OpenFails(t: Thread)
    | Opens(t: Thread, path: Path)
    | Locks(t: Thread)    // a non-blocking flock succeeds
    | GivesUp(t: Thread)  // it failed, and the deadline had passed
    | Aborts(t: Thread)   // an exception inside the retry loop
    | Exit(t: Thread)     // the block ends, normally or by exception

  const START := State(map[], map[], map[], map[])

  function DepthOf(s: State, t: Thread): nat { if t in s.depth then s.depth[t] else 0 }
  function StackOf(s: State, t: Thread): seq<Frame> { if t in s.stacks then s.stacks[t] else [] }

  predicate Enabled(s: State, e: Event) {
    match e
    case EnterNested(t) => t !in s.waiting && DepthOf(s, t) > 0
    case OpenFails(t) => t !in s.waiting && DepthOf(s, t) == 0
    case Opens(t, _) => t !in s.waiting && DepthOf(s, t) == 0
    case Locks(t) => t in s.waiting && s.waiting[t] !in s.holders
    case GivesUp(t) => t in s.waiting
    case Aborts(t) => t in s.waiting
    case Exit(t) => t !in s.waiting && StackOf(s, t) != []
  }

  function Push(s: State, t: Thread, frame: Frame): State { s.(stacks := s.stacks[t := StackOf(s, t) + [frame]]) }

  function Step(s: State, e: Event): State
    requires Enabled(s, e)
  {
    match e
    case EnterNested(t) => Push(s, t, Nested).(depth := s.depth[t := DepthOf(s, t) + 1])
    case OpenFails(t) => Push(s, t, OpenFailed)
    case Opens(t, path) => s.(waiting := s.waiting[t := path])
    case Locks(t) =>
      Push(s, t, Outer(s.waiting[t], true)).(holders := s.holders[s.waiting[t] := t], depth := s.depth[t := 1],
                                             waiting := s.waiting - {t})
    case GivesUp(t) =>
      Push(s, t, Outer(s.waiting[t], false)).(depth := s.depth[t := 1], waiting := s.waiting - {t})
    case Aborts(t) => s.(waiting := s.waiting - {t})
    case Exit(t) =>
      var stack := StackOf(s, t);
      var top, below := stack[|stack| - 1], s.stacks[t := stack[..|stack| - 1]];
      match top
      case Nested => s.(stacks := below, depth := s.depth[t := if DepthOf(s, t) > 0 then DepthOf(s, t) - 1 else 0])
      case OpenFailed => s.(stacks := below)
      case Outer(path, held) =>
        s.(stacks := below, depth := s.depth[t := 0], holders := if held then s.holders - {path} else s.holders)
  }

  // The retry loop: acquired exactly when some try succeeds with no earlier failed try past
  // the deadline. succeeds[k] is the k-th flock, late[k] the clock check after it fails.
  method Acquire(succeeds: seq<bool>, late: seq<bool>) returns (acquired: bool)
    requires |succeeds| == |late| > 0 && (succeeds[|late| - 1] || late[|late| - 1])
    ensures acquired <==> exists k :: 0 <= k < |succeeds| && succeeds[k] && forall j :: 0 <= j < k ==> !late[j]
  {
    var k := 0;
    while true
      invariant k < |succeeds| && forall j :: 0 <= j < k ==> !succeeds[j] && !late[j]
      decreases |succeeds| - k
    {
      if succeeds[k] {
        return true;
      }
      if late[k] {
        return false;
      }
      k := k + 1;
    }
  }

  // ------------------------------------------------------------------ every interleaving

  // What a thread's depth counter must be, given the blocks it is in: nothing is counted
  // until an outermost block has been through the retry loop.
  function Depth(stack: seq<Frame>): nat {
    if stack == [] then 0
    else
      var below := Depth(stack[..|stack| - 1]);
      match stack[|stack| - 1]
      case OpenFailed => 0
      case Outer(_, _) => 1
      case Nested => below + 1
  }

  // Blocks nest the way the code enters them.
  predicate WellNested(stack: seq<Frame>) {
    stack == [] || (WellNested(stack[..|stack| - 1]) && (stack[|stack| - 1].Nested? <==> Depth(stack[..|stack| - 1]) > 0))
  }

  ghost predicate Holds(s: State, t: Thread, path: Path) { Outer(path, true) in StackOf(s, t) }

  ghost predicate Inv(s: State) {
    && (forall t :: DepthOf(s, t) == Depth(StackOf(s, t)) && WellNested(StackOf(s, t)))
    && (forall t, path :: Holds(s, t, path) <==> path in s.holders && s.holders[path] == t)
    && (forall t :: t in s.waiting ==> DepthOf(s, t) == 0)
  }

  // Below depth zero there is no outermost block at all; above it, exactly one.
  lemma {:induction false} OneOuter(stack: seq<Frame>)
    requires WellNested(stack)
    ensures Depth(stack) == 0 ==> forall f :: f in stack ==> f.OpenFailed?
    ensures forall i, j :: 0 <= i < j < |stack| ==> !(stack[i].Outer? && stack[j].Outer?)
  {
    if stack != [] {
      var below := stack[..|stack| - 1];
      OneOuter(below);
      forall f | f in stack && Depth(stack) == 0 ensures f.OpenFailed? {
        if f in below {
        }
      }
      forall i, j | 0 <= i < j < |stack| ensures !(stack[i].Outer? && stack[j].Outer?) {
        if j < |stack| - 1 {
          assert stack[i] == below[i] && stack[j] == below[j];
        } else {
          assert below[i] in below;
        }
      }
    }
  }

  lemma StepKeepsNesting(s: State, e: Event, u: Thread)
    requires Inv(s) && Enabled(s, e)
    ensures DepthOf(Step(s, e), u) == Depth(StackOf(Step(s, e), u)) && WellNested(StackOf(Step(s, e), u))
  {
    assert DepthOf(s, u) == Depth(StackOf(s, u)) && WellNested(StackOf(s, u));
    var stack, stack' := StackOf(s, u), StackOf(Step(s, e), u);
    if e.t == u && !e.Exit? && stack' != stack {
      assert stack'[..|stack|] == stack;
    }
  }

  // Entering a block takes a lock only when the retry loop got it.
  lemma EntryTakes(s: State, e: Event, u: Thread, path: Path)
    requires Enabled(s, e) && !e.Exit?
    ensures Holds(Step(s, e), u, path) <==> Holds(s, u, path) || (e.Locks? && e.t == u && s.waiting[u] == path)
  {
    var stack, stack' := StackOf(s, u), StackOf(Step(s, e), u);
    if stack' != stack {
      assert stack' == stack + [stack'[|stack|]];
      InAppended(stack, stack'[|stack|], Outer(path, true));
    }
  }

  // Leaving one gives up exactly the lock it took, since no block below took one.
  lemma ExitGivesUp(s: State, e: Event, u: Thread, path: Path)
    requires Enabled(s, e) && e.Exit? && WellNested(StackOf(s, e.t))
    ensures var stack := StackOf(s, e.t);
            Holds(Step(s, e), u, path) <==>
              Holds(s, u, path) && !(u == e.t && stack[|stack| - 1] == Outer(path, true))
  {
    var stack := StackOf(s, e.t);
    var n := |stack| - 1;
    assert stack == stack[..n] + [stack[n]];
    InAppended(stack[..n], stack[n], Outer(path, true));
    if Outer(path, true) in stack[..n] {
      var i :| 0 <= i < n && stack[i] == Outer(path, true);
      OneOuter(stack);
    }
  }

  lemma InAppended(stack: seq<Frame>, top: Frame, f: Frame)
    ensures f in stack + [top] <==> f in stack || f == top
  {
  }

  lemma StepKeepsHolders(s: State, e: Event, u: Thread, path: Path)
    requires Inv(s) && Enabled(s, e)
    ensures Holds(Step(s, e), u, path) <==> path in Step(s, e).holders && Step(s, e).holders[path] == u
  {
    assert Holds(s, u, path) <==> path in s.holders && s.holders[path] == u;
    if e.Exit? {
      var stack := StackOf(s, e.t);
      ExitGivesUp(s, e, u, path);
      assert stack[|stack| - 1] == Outer(path, true) ==> Holds(s, e.t, path);
      assert Holds(s, e.t, path) <==> path in s.holders && s.holders[path] == e.t;
    } else {
      EntryTakes(s, e, u, path);
    }
  }

  lemma StepKeepsInv(s: State, e: Event)
    requires Inv(s) && Enabled(s, e)
    ensures Inv(Step(s, e))
  {
    forall u { StepKeepsNesting(s, e, u); }
    forall u, path { StepKeepsHolders(s, e, u, path); }
  }

  ghost predicate Run(states: seq<State>, events: seq<Event>) {
    && |states| == |events| + 1 && states[0] == START
    && forall i :: 0 <= i < |events| ==> Enabled(states[i], events[i]) && states[i + 1] == Step(states[i], events[i])
  }

  lemma {:induction false} RunKeepsInv(states: seq<State>, events: seq<Event>, n: nat)
    requires Run(states, events) && n < |states|
    ensures Inv(states[n])
  {
    if n > 0 {
      RunKeepsInv(states, events, n - 1);
      StepKeepsInv(states[n - 1], events[n - 1]);
    }
  }

  // At most one thread, of any process, is inside a block whose outermost entry said the lock
  // was held; whoever waits holds nothing, so a nested entry never waits on the file.
  lemma MutualExclusion(states: seq<State>, events: seq<Event>, n: nat, t: Thread, u: Thread, path: Path)
    requires Run(states, events) && n < |states|
    ensures Holds(states[n], t, path) && Holds(states[n], u, path) ==> t == u
    ensures t in states[n].waiting ==> forall f :: f in StackOf(states[n], t) ==> f.OpenFailed?
  {
    RunKeepsInv(states, events, n);
    assert Holds(states[n], t, path) <==> path in states[n].holders && states[n].holders[path] == t;
    assert Holds(states[n], u, path) <==> path in states[n].holders && states[n].holders[path] == u;
    OneOuter(StackOf(states[n], t));
  }

  // A thread's block opened by event i and closed by event j, with the thread back in the
  // blocks it was in, leaves its depth and its locks as they were, whatever happened between.
  lemma ExitRestores(states: seq<State>, events: seq<Event>, i: nat, j: nat, t: Thread)
    requires Run(states, events) && i <= j < |states| && StackOf(states[j], t) == StackOf(states[i], t)
    ensures DepthOf(states[j], t) == DepthOf(states[i], t)
    ensures forall path :: Holds(states[j], t, path) <==> Holds(states[i], t, path)
    ensures StackOf(states[j], t) == [] ==> forall path :: path in states[j].holders ==> states[j].holders[path] != t
  {
    RunKeepsInv(states, events, i);
    RunKeepsInv(states, events, j);
    forall path ensures StackOf(states[j], t) == [] && path in states[j].holders ==> states[j].holders[path] != t {
      assert Holds(states[j], t, path) <==> path in states[j].holders && states[j].holders[path] == t;
    }
  }

  // A nested entry says "held" even under an outermost one that degraded, so two threads can
  // both be told so at once: the exclusion is about outermost entries only.
  lemma NestedYieldProvesNothing() returns (states: seq<State>, events: seq<Event>)
    ensures Run(states, events)
    ensures var s := states[|events|];
            var a, b := StackOf(s, 1), StackOf(s, 2);
            a == [Outer("lock", true)] && b == [Outer("lock", false), Nested]
  {
    events := [Opens(1, "lock"), Locks(1), Opens(2, "lock"), GivesUp(2), EnterNested(2)];
    var s1 := Step(START, events[0]);
    var s2 := Step(s1, events[1]);
    var s3 := Step(s2, events[2]);
    var s4 := Step(s3, events[3]);
    var s5 := Step(s4, events[4]);
    states := [START, s1, s2, s3, s4, s5];
  }

  lemma {:induction false} DeepMeansOuter(stack: seq<Frame>) returns (i: nat)
    requires WellNested(stack) && Depth(stack) > 0
    ensures i < |stack| && stack[i].Outer?
  {
    i := |stack| - 1;
    if stack[i].Nested? {
      i := DeepMeansOuter(stack[..i]);
    }
  }

  // What a True is worth: a thread told so is inside exactly one outermost block, and holds
  // a lock if and only if that one was told so.
  lemma YieldIsTrueIff(states: seq<State>, events: seq<Event>, n: nat, t: Thread) returns (i: nat)
    requires Run(states, events) && n < |states|
    requires var stack := StackOf(states[n], t);
             stack != [] && (stack[|stack| - 1].Nested? || (stack[|stack| - 1].Outer? && stack[|stack| - 1].held))
    ensures var stack := StackOf(states[n], t);
            && i < |stack| && stack[i].Outer? && (forall j :: 0 <= j < |stack| && j != i ==> !stack[j].Outer?)
            && ((exists path :: path in states[n].holders && states[n].holders[path] == t) <==> stack[i].held)
  {
    RunKeepsInv(states, events, n);
    var s, stack := states[n], StackOf(states[n], t);
    assert DepthOf(s, t) == Depth(stack) && WellNested(stack);
    i := DeepMeansOuter(stack);
    OneOuter(stack);
    if stack[i].held {
      assert Holds(s, t, stack[i].path);
    }
    if path :| path in s.holders && s.holders[path] == t {
      assert Holds(s, t, path);
      var j :| 0 <= j < |stack| && stack[j] == Outer(path, true);
      assert j == i;
    }
  }
}
