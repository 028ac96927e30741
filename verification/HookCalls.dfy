/** What callbacks and hooked functions do, and how a dispatch must go. */
module HookCalls {
  import opened HookOrder
  import opened HookRegistry
  import opened HookWalk
  import opened FrameArgs

  /** The part of a full function name after its last '.' or ':'. */
  function ObjectName(func: string): string {
    if func == [] then []
    else if func[|func| - 1] in ".:" then []
    else ObjectName(func[..|func| - 1]) + [func[|func| - 1]]
  }

  lemma {:induction false} ObjectNameIsLastPart(func: string)
    ensures var r := ObjectName(func);
            && |r| <= |func| && func[|func| - |r|..] == r
            && '.' !in r && ':' !in r
            && (|r| < |func| ==> func[|func| - |r| - 1] in ".:")
  {
    if func != [] && func[|func| - 1] !in ".:" {
      var shorter := func[..|func| - 1];
      ObjectNameIsLastPart(shorter);
      assert func == shorter + [func[|func| - 1]];
    }
  }

  // ---- what callbacks may do ----------------------------------------------------------------

  datatype Option<+T> = None | Some(value: T)

  datatype ReturnWrite = Keep | Store(value: int) | Clear

  datatype Outcome = Returns(block: bool) | Throws

  /** One call of a callback: it operates on the hooks, may write the return value, and ends. */
  datatype Step = Step(ops: seq<Op>, write: ReturnWrite, outcome: Outcome)

  /** What callbacks and hooked functions do to the hooks, nested calls of hooked functions included. */
  datatype Op =
    | Add(func: string, hookType: HookType, identifier: string, callback: nat)
    | Remove(func: string, hookType: HookType, identifier: string)
    | Has(func: string, hookType: HookType, identifier: string)
    | InjectNext
    | Invoke(call: Call)

  /** Where the body of the dispatcher throws, if it does. */
  datatype Fault = NoFault | InArgs | InOriginal | InCopyTo | InCopyFrom

  /** One call of an unreal function, and how everything it runs into behaves: the callbacks, one
      step each in the order they are called (callbacks past the end of a list do nothing), the
      function itself, and the call made outside of the try block. */
  datatype Call = Call(fullName: string, initialized: bool, props: seq<Prop>, hasReturn: bool,
                       pre: seq<Step>, original: seq<Op>, value: int,
                       post: seq<Step>, postUnconditional: seq<Step>,
                       fault: Fault, fallback: seq<Op>, fallbackValue: int)

  /** The bytecode holds as many arguments as the function takes. */
  ghost predicate CanCall(call: Call, frame: FFrame?, n: nat)
    reads frame
  {
    frame != null ==> frame.Encodes(frame.pos, n) && n <= |Arguments(call.props)|
  }

  /** What a dispatch calls: a hook, which finds this return value, or the function itself. */
  datatype Event = Hook(node: Node, ret: Option<int>) | Original

  /** The hook details, of which only the return value proxy matters here.  Ghost: what the dispatch
      they belong to called so far. */
  class Details {
    const hasReturn: bool
    var ret: Option<int>
    ghost var events: seq<Event>

    constructor (hasReturn: bool)
      ensures this.hasReturn == hasReturn && ret == None && events == []
    {
      this.hasReturn, ret, events := hasReturn, None, [];
    }
  }

  /** Setting the value of a property which does not exist throws. */
  predicate StepThrows(s: Step, hasReturn: bool) {
    s.outcome.Throws? || (s.write.Store? && !hasReturn)
  }

  predicate StepBlocks(s: Step, hasReturn: bool) {
    !StepThrows(s, hasReturn) && s.outcome.block
  }

  function WriteReturn(s: Step, hasReturn: bool, ret: Option<int>): Option<int> {
    match s.write
    case Keep => ret
    case Store(v) => if hasReturn then Some(v) else ret
    case Clear => None
  }

  /** The return value after some callbacks. */
  function WriteReturns(steps: seq<Step>, hasReturn: bool, ret: Option<int>): Option<int> {
    if steps == [] then ret
    else
      var last := |steps| - 1;
      WriteReturn(steps[last], hasReturn, WriteReturns(steps[..last], hasReturn, ret))
  }

  /** Whether one of some callbacks blocks. */
  predicate Blocks(steps: seq<Step>, hasReturn: bool) {
    steps != [] && (Blocks(steps[..|steps| - 1], hasReturn) || StepBlocks(steps[|steps| - 1], hasReturn))
  }

  lemma {:induction false} BlocksWhenOneDoes(steps: seq<Step>, hasReturn: bool)
    ensures Blocks(steps, hasReturn) <==> exists i | 0 <= i < |steps| :: StepBlocks(steps[i], hasReturn)
  {
    if steps != [] {
      var last := |steps| - 1;
      BlocksWhenOneDoes(steps[..last], hasReturn);
      assert forall i | 0 <= i < last :: steps[..last][i] == steps[i];
    }
  }

  /** A callback blocks when it returns true; storing a return value where there is none throws instead. */
  lemma BlocksMeans(steps: seq<Step>, hasReturn: bool)
    ensures Blocks(steps, hasReturn) <==>
      exists i | 0 <= i < |steps| :: steps[i].outcome == Returns(true) && (steps[i].write.Store? ==> hasReturn)
  {
    BlocksWhenOneDoes(steps, hasReturn);
    forall i | 0 <= i < |steps|
      ensures StepBlocks(steps[i], hasReturn) <==>
        steps[i].outcome == Returns(true) && (steps[i].write.Store? ==> hasReturn) {}
  }

  predicate Writes(s: Step, hasReturn: bool) {
    s.write.Clear? || (s.write.Store? && hasReturn)
  }

  /** The `i`-th callback is the last to write the return value. */
  predicate LastToWrite(steps: seq<Step>, hasReturn: bool, i: nat) {
    i < |steps| && Writes(steps[i], hasReturn) && forall j | i < j < |steps| :: !Writes(steps[j], hasReturn)
  }

  /** What is left of the return value is what the last callback to write it stored, nothing when that one
      cleared it, and what there was before when none wrote it. */
  ghost predicate LeftBy(steps: seq<Step>, hasReturn: bool, before: Option<int>, ret: Option<int>) {
    && (forall i: nat | LastToWrite(steps, hasReturn, i) ::
          ret == if steps[i].write.Store? then Some(steps[i].write.value) else None)
    && ((forall i | 0 <= i < |steps| :: !Writes(steps[i], hasReturn)) ==> ret == before)
  }

  lemma LastOfMore(init: seq<Step>, s: Step, hasReturn: bool, i: nat)
    ensures LastToWrite(init + [s], hasReturn, i) <==>
      if Writes(s, hasReturn) then i == |init| else LastToWrite(init, hasReturn, i)
  {
    var steps := init + [s];
    assert steps[|init|] == s;
    if Writes(s, hasReturn) {
      assert i < |init| ==> !(forall j | i < j < |steps| :: !Writes(steps[j], hasReturn));
    } else if i < |init| {
      assert (forall j | i < j < |steps| :: !Writes(steps[j], hasReturn)) ==>
        forall j | i < j < |init| :: !Writes(init[j], hasReturn) by {
        forall j | i < j < |init| ensures steps[j] == init[j] {}
      }
    }
  }

  lemma LeftByMore(init: seq<Step>, s: Step, hasReturn: bool, before: Option<int>, ret: Option<int>)
    requires LeftBy(init, hasReturn, before, ret)
    ensures LeftBy(init + [s], hasReturn, before, WriteReturn(s, hasReturn, ret))
  {
    hide LastToWrite;
    forall i: nat ensures LastToWrite(init + [s], hasReturn, i) <==>
      if Writes(s, hasReturn) then i == |init| else LastToWrite(init, hasReturn, i)
    {
      LastOfMore(init, s, hasReturn, i);
    }
    assert (init + [s])[|init|] == s && forall i | 0 <= i < |init| :: (init + [s])[i] == init[i];
    forall i: nat | LastToWrite(init, hasReturn, i) ensures i < |init| { LastInside(init, hasReturn, i); }
  }

  lemma LastInside(steps: seq<Step>, hasReturn: bool, i: nat)
    requires LastToWrite(steps, hasReturn, i)
    ensures i < |steps|
  {
  }

  lemma NobodyWrote(hasReturn: bool, before: Option<int>)
    ensures LeftBy([], hasReturn, before, before)
  {
  }

  /** ... which is what writing one after the other comes to. */
  lemma {:induction false} LastWriteDecides(steps: seq<Step>, hasReturn: bool, before: Option<int>)
    ensures LeftBy(steps, hasReturn, before, WriteReturns(steps, hasReturn, before))
    decreases |steps|
  {
    hide LeftBy, LastToWrite, WriteReturn;
    if steps != [] {
      var init, last := steps[..|steps| - 1], steps[|steps| - 1];
      LastWriteDecides(init, hasReturn, before);
      LeftByMore(init, last, hasReturn, before, WriteReturns(init, hasReturn, before));
      assert steps == init + [last];
    } else {
      NobodyWrote(hasReturn, before);
    }
  }

  /** When some wrote it, one was the last. */
  lemma {:induction false} SomeoneLast(steps: seq<Step>, hasReturn: bool, k: nat) returns (i: nat)
    requires k < |steps| && Writes(steps[k], hasReturn)
    ensures LastToWrite(steps, hasReturn, i)
    decreases |steps| - k
  {
    if j :| k < j < |steps| && Writes(steps[j], hasReturn) {
      i := SomeoneLast(steps, hasReturn, j);
    } else {
      i := k;
    }
  }

  /** The steps of the first `n` callbacks; the ones past the end do nothing. */
  function Taken(steps: seq<Step>, n: nat): seq<Step> {
    if n <= |steps| then steps[..n] else steps
  }

  lemma TakenNone(steps: seq<Step>, hasReturn: bool, ret: Option<int>)
    ensures Taken(steps, 0) == [] && AddsInSteps([]) == 0
    ensures !Blocks([], hasReturn) && WriteReturns([], hasReturn, ret) == ret
  {
  }

  /** What the i-th callback does to the hooks. */
  function OpsAt(steps: seq<Step>, i: nat): seq<Op> {
    if i < |steps| then steps[i].ops else []
  }

  predicate BlocksAt(steps: seq<Step>, i: nat, hasReturn: bool) {
    i < |steps| && StepBlocks(steps[i], hasReturn)
  }

  function WriteAt(steps: seq<Step>, i: nat, hasReturn: bool, ret: Option<int>): Option<int> {
    if i < |steps| then WriteReturn(steps[i], hasReturn, ret) else ret
  }

  /** One of the first `n` callbacks asks for the next call to be injected. */
  ghost predicate AsksIn(steps: seq<Step>, n: nat) {
    exists i | 0 <= i < |steps| :: i < n && InjectNext in steps[i].ops
  }

  lemma AsksNext(steps: seq<Step>, n: nat)
    ensures !AsksIn(steps, 0)
    ensures AsksIn(steps, n + 1) <==> AsksIn(steps, n) || InjectNext in OpsAt(steps, n)
  {
  }

  /** Something a dispatch runs asks for the next call to be injected. */
  ghost predicate Asks(call: Call, hooked: bool, d: Dispatched) {
    || (hooked && AsksInTry(call, d))
    || ((!hooked || d.threw) && InjectNext in call.fallback)
  }

  ghost predicate AsksInTry(call: Call, d: Dispatched) {
    || AsksBefore(call, d)
    || AsksIn(call.post, |d.post|) || AsksIn(call.postUnconditional, |d.unconditional|)
  }

  ghost predicate AsksBefore(call: Call, d: Dispatched) {
    AsksIn(call.pre, |d.pre|) || (call.fault != InArgs && !d.blocked && InjectNext in call.original)
  }

  lemma IdleAsks(call: Call, hooked: bool, d: Dispatched)
    ensures IdleCall(call) ==> FlatCall(call) && !Asks(call, hooked, d)
  {
  }

  lemma FlatFallback(call: Call)
    ensures FlatCall(call) ==> Flat(call.fallback)
  {
  }

  lemma TakenNext(steps: seq<Step>, n: nat, hasReturn: bool, ret: Option<int>)
    ensures AddsInSteps(Taken(steps, n + 1)) == AddsInSteps(Taken(steps, n)) + AddsInOps(OpsAt(steps, n))
    ensures Blocks(Taken(steps, n + 1), hasReturn) ==
      (Blocks(Taken(steps, n), hasReturn) || BlocksAt(steps, n, hasReturn))
    ensures WriteReturns(Taken(steps, n + 1), hasReturn, ret)
         == WriteAt(steps, n, hasReturn, WriteReturns(Taken(steps, n), hasReturn, ret))
  {
    if n < |steps| {
      assert Taken(steps, n + 1)[..n] == Taken(steps, n);
    } else {
      assert steps[..|steps|] == steps;
    }
  }

  /** The hooks of one type ran, from a handle taken at `start`. */
  lemma RanPhase(start: Registry, a: Registry, b: Registry, nameOf: string -> FName, handle: Node, hookType: HookType,
                 called: seq<Node>, walk: seq<seq<Registry>>, adds: nat, steps: seq<Step>)
    requires Consistent(start, nameOf) && Consistent(a, nameOf) && Consistent(b, nameOf)
    requires RanAll(a, b, called, walk, steps, nameOf)
    requires Changed(start, a, adds) && Changed(a, b, AddsInSteps(Taken(steps, |called|)))
    requires handle in start.live && Ran(a, b, handle, Key(handle.fullName, hookType), called)
    ensures Changed(start, b, adds + AddsInSteps(steps)) && Changed(a, b, AddsInSteps(steps))
    ensures Phase(start, b, Key(handle.fullName, hookType), called, true)
    ensures AllIdle(steps) ==> b == a
  {
    hide Walked, AllFlat, AllIdle, Abs, Known, Consistent, InOrder, CalledAll, NothingMissed, Changed, Taken,
      AddsInSteps;
    StaleHandleComplete(start, a, b, nameOf, handle, Key(handle.fullName, hookType), called,
                        adds, AddsInSteps(Taken(steps, |called|)));
    TakenAddsLess(steps, |called|);
    ChangedWeakens(a, b, AddsInSteps(Taken(steps, |called|)), AddsInSteps(steps));
    ChangedTransitive(start, a, b, adds, AddsInSteps(steps));
  }

  lemma {:induction false} TakenAddsLess(steps: seq<Step>, n: nat)
    ensures AddsInSteps(Taken(steps, n)) <= AddsInSteps(steps)
    decreases |steps|
  {
    if n < |steps| {
      var shorter := steps[..|steps| - 1];
      assert Taken(shorter, n) == Taken(steps, n);
      TakenAddsLess(shorter, n);
    } else {
      assert Taken(steps, n) == steps;
    }
  }

  /** How many hooks callbacks may add, nested calls included. */
  function AddsInOp(op: Op): nat {
    match op
    case Add(_, _, _, _) => 1
    case Invoke(call) => AddsInCall(call)
    case _ => 0
  }

  function AddsInOps(ops: seq<Op>): nat {
    if ops == [] then 0 else AddsInOp(ops[0]) + AddsInOps(ops[1..])
  }

  function AddsInSteps(steps: seq<Step>): nat {
    if steps == [] then 0 else AddsInSteps(steps[..|steps| - 1]) + AddsInOps(steps[|steps| - 1].ops)
  }

  function AddsBefore(call: Call): nat
    decreases call, 0
  {
    AddsInSteps(call.pre) + AddsInOps(call.original)
  }

  function AddsAfter(call: Call): nat
    decreases call, 0
  {
    AddsInSteps(call.post) + AddsInSteps(call.postUnconditional)
  }

  function AddsInTry(call: Call): nat
    decreases call, 1
  {
    AddsBefore(call) + AddsAfter(call)
  }

  function AddsInCall(call: Call): nat
    decreases call, 2
  {
    AddsInTry(call) + AddsInOps(call.fallback)
  }

  /** No operation calls a hooked function. */
  predicate Flat(ops: seq<Op>) {
    forall i | 0 <= i < |ops| :: !ops[i].Invoke?
  }

  /** Callbacks which leave the hooks alone. */
  predicate AllIdle(steps: seq<Step>) {
    forall i | 0 <= i < |steps| :: steps[i].ops == []
  }

  predicate IdleCall(call: Call) {
    AllIdle(call.pre) && AllIdle(call.post) && AllIdle(call.postUnconditional) && call.original == call.fallback == []
  }

  predicate FlatCall(call: Call) {
    AllFlat(call.pre) && AllFlat(call.post) && AllFlat(call.postUnconditional) && Flat(call.original)
    && Flat(call.fallback)
  }

  predicate AllFlat(steps: seq<Step>) {
    forall i | 0 <= i < |steps| :: Flat(steps[i].ops)
  }

  function ApplyOp(t: Table, op: Op): Table {
    match op
    case Add(func, hookType, identifier, callback) => AddEntry(t, Key(func, hookType), Entry(identifier, callback))
    case Remove(func, hookType, identifier) => RemoveEntry(t, Key(func, hookType), identifier)
    case _ => t
  }

  /** The table after operations which call nothing. */
  function ApplyOps(t: Table, ops: seq<Op>): Table
    decreases ops
  {
    if ops == [] then t else ApplyOps(ApplyOp(t, ops[0]), ops[1..])
  }

  /** The table after some callbacks which call nothing. */
  function ApplySteps(t: Table, steps: seq<Step>): Table {
    if steps == [] then t
    else ApplyOps(ApplySteps(t, steps[..|steps| - 1]), steps[|steps| - 1].ops)
  }

  // ---- runs, state by state -----------------------------------------------------------------

  function Last<T>(s: seq<T>): T
    requires s != []
  {
    s[|s| - 1]
  }

  /** What one operation may do to the registry. */
  ghost predicate Does(a: Registry, op: Op, b: Registry) {
    match op
    case Add(func, hookType, identifier, callback) => AddsEntry(a, b, Key(func, hookType), Entry(identifier, callback))
    case Remove(func, hookType, identifier) => RemovesEntry(a, b, Key(func, hookType), identifier)
    case Has(_, _, _) => a == b
    case InjectNext => a == b
    case Invoke(call) => Changed(a, b, AddsInCall(call))
  }

  /** The states between some operations, from the one before the first to the one after the last. */
  ghost predicate DoesAll(states: seq<Registry>, ops: seq<Op>, nameOf: string -> FName) {
    && |states| == |ops| + 1
    && (forall i | 0 <= i < |states| :: Consistent(states[i], nameOf))
    && (forall i, j | 0 <= i < |ops| && j == i + 1 :: Does(states[i], ops[i], states[j]))
  }

  lemma DoesNothing(reg: Registry, nameOf: string -> FName)
    requires Consistent(reg, nameOf)
    ensures DoesAll([reg], [], nameOf) && Last([reg]) == reg
  {
    hide Consistent;
  }

  lemma DoesFirst(a: Registry, op: Op, states: seq<Registry>, ops: seq<Op>, nameOf: string -> FName)
    requires Consistent(a, nameOf) && DoesAll(states, ops, nameOf) && Does(a, op, states[0])
    ensures DoesAll([a] + states, [op] + ops, nameOf) && Last([a] + states) == Last(states)
  {
    hide Consistent, Does;
  }

  /** Operations which call nothing act on the table one after the other. */
  lemma {:induction false} DoesAllApplies(states: seq<Registry>, ops: seq<Op>, nameOf: string -> FName)
    requires DoesAll(states, ops, nameOf) && Flat(ops)
    ensures Abs(Last(states)) == ApplyOps(Abs(states[0]), ops)
    decreases |ops|
  {
    hide Consistent, Abs, AddsEntry, RemovesEntry;
    if ops != [] {
      assert Does(states[0], ops[0], states[1]);
      FlatApplies(states[0], ops[0], states[1]);
      forall i, j | 0 <= i < |ops[1..]| && j == i + 1 ensures Does(states[1..][i], ops[1..][i], states[1..][j]) {
        assert Does(states[i + 1], ops[i + 1], states[i + 2]);
      }
      DoesAllApplies(states[1..], ops[1..], nameOf);
    }
  }

  lemma FlatApplies(a: Registry, op: Op, b: Registry)
    requires Does(a, op, b) && !op.Invoke?
    ensures Abs(b) == ApplyOp(Abs(a), op)
  {
  }

  /** The state after the first `i` callbacks. */
  ghost function StateAt(start: Registry, walk: seq<seq<Registry>>, i: nat): Registry
    requires i <= |walk| && forall j | 0 <= j < |walk| :: walk[j] != []
  {
    if i == 0 then start else Last(walk[i - 1])
  }

  /** What comes after the i-th hook called. */
  function NextAt(called: seq<Node>, next: Node?, i: nat): Node? {
    if i + 1 < |called| then called[i + 1] else next
  }

  /** One callback: from `begin`, through the states between its operations, to where the link of its
      hook leads to `t`. */
  ghost predicate Turn(states: seq<Registry>, begin: Registry, ops: seq<Op>, n: Node, t: Node?,
                       nameOf: string -> FName) {
    && DoesAll(states, ops, nameOf) && states[0] == begin
    && n in Last(states).links && Last(states).links[n].At(4) == t
  }

  /** A walk along a collection: `walk[i]` are the states during the i-th callback, and after each
      callback the link of its hook leads to the next one called, or at last to `next`. */
  ghost predicate Walked(start: Registry, called: seq<Node>, walk: seq<seq<Registry>>, steps: seq<Step>,
                         now: Registry, next: Node?, nameOf: string -> FName) {
    && |walk| == |called|
    && (forall i | 0 <= i < |walk| :: walk[i] != [])
    && now == StateAt(start, walk, |walk|)
    && (forall i | 0 <= i < |walk| ::
          Turn(walk[i], StateAt(start, walk, i), OpsAt(steps, i), called[i], NextAt(called, next, i), nameOf))
  }

  lemma WalkedMore(start: Registry, called: seq<Node>, walk: seq<seq<Registry>>, steps: seq<Step>, now: Registry,
                   node: Node, states: seq<Registry>, next: Node?, nameOf: string -> FName)
    requires Walked(start, called, walk, steps, now, node, nameOf)
    requires states != [] && Turn(states, now, OpsAt(steps, |called|), node, next, nameOf)
    ensures Walked(start, called + [node], walk + [states], steps, Last(states), next, nameOf)
  {
    hide Turn, OpsAt;
    var walk', called' := walk + [states], called + [node];
    forall i | 0 <= i < |walk'|
      ensures Turn(walk'[i], StateAt(start, walk', i), OpsAt(steps, i), called'[i], NextAt(called', next, i), nameOf)
    {
      if i < |walk| {
        assert Turn(walk[i], StateAt(start, walk, i), OpsAt(steps, i), called[i], NextAt(called, node, i), nameOf);
        assert NextAt(called', next, i) == NextAt(called, node, i);
      }
    }
  }

  lemma WalkedNothing(reg: Registry, steps: seq<Step>, next: Node?, nameOf: string -> FName)
    ensures Walked(reg, [], [], steps, reg, next, nameOf)
  {
  }

  /** Callbacks which call nothing act on the table one after the other. */
  lemma {:induction false} WalkedApplies(start: Registry, called: seq<Node>, walk: seq<seq<Registry>>,
                                         steps: seq<Step>, now: Registry, next: Node?, nameOf: string -> FName, n: nat)
    requires Walked(start, called, walk, steps, now, next, nameOf) && n <= |walk|
    requires AllFlat(steps)
    ensures Abs(StateAt(start, walk, n)) == ApplySteps(Abs(start), Taken(steps, n))
    decreases n
  {
    hide Turn, Abs, Flat, OpsAt, Taken, ApplyOps, ApplySteps;
    if n == 0 {
      ApplyNone(Abs(start), steps);
    } else {
      WalkedApplies(start, called, walk, steps, now, next, nameOf, n - 1);
      var ops := OpsAt(steps, n - 1);
      assert Turn(walk[n - 1], StateAt(start, walk, n - 1), ops, called[n - 1], NextAt(called, next, n - 1), nameOf);
      assert Flat(ops) by { OpsFlat(steps, n - 1); }
      TurnApplies(walk[n - 1], StateAt(start, walk, n - 1), ops, called[n - 1], NextAt(called, next, n - 1), nameOf);
      ApplyNext(Abs(start), steps, n);
    }
  }

  /** Callbacks which leave the hooks alone leave the table as it was. */
  lemma {:induction false} WalkedIdle(start: Registry, called: seq<Node>, walk: seq<seq<Registry>>,
                                      steps: seq<Step>, now: Registry, next: Node?, nameOf: string -> FName, n: nat)
    requires Walked(start, called, walk, steps, now, next, nameOf) && n <= |walk| && AllIdle(steps)
    ensures StateAt(start, walk, n) == start
    decreases n
  {
    hide Turn, OpsAt, AllIdle;
    if n > 0 {
      WalkedIdle(start, called, walk, steps, now, next, nameOf, n - 1);
      OpsIdle(steps, n - 1);
      var ops := OpsAt(steps, n - 1);
      assert Turn(walk[n - 1], StateAt(start, walk, n - 1), ops, called[n - 1], NextAt(called, next, n - 1), nameOf);
      TurnIdle(walk[n - 1], StateAt(start, walk, n - 1), called[n - 1], NextAt(called, next, n - 1), nameOf);
    }
  }

  lemma OpsIdle(steps: seq<Step>, i: nat)
    requires AllIdle(steps)
    ensures OpsAt(steps, i) == []
  {
  }

  lemma TurnIdle(states: seq<Registry>, begin: Registry, n: Node, t: Node?, nameOf: string -> FName)
    requires states != [] && Turn(states, begin, [], n, t, nameOf)
    ensures Last(states) == begin
  {
  }

  lemma TurnApplies(states: seq<Registry>, begin: Registry, ops: seq<Op>, n: Node, t: Node?, nameOf: string -> FName)
    requires states != [] && Turn(states, begin, ops, n, t, nameOf) && Flat(ops)
    ensures Abs(Last(states)) == ApplyOps(Abs(begin), ops)
  {
    DoesAllApplies(states, ops, nameOf);
  }

  lemma ApplyNone(t: Table, steps: seq<Step>)
    ensures ApplySteps(t, Taken(steps, 0)) == t
  {
  }

  lemma ApplyNext(t: Table, steps: seq<Step>, n: nat)
    requires n > 0
    ensures ApplySteps(t, Taken(steps, n)) == ApplyOps(ApplySteps(t, Taken(steps, n - 1)), OpsAt(steps, n - 1))
  {
    if n <= |steps| {
      assert Taken(steps, n)[..n - 1] == Taken(steps, n - 1);
    } else {
      assert OpsAt(steps, n - 1) == [];
      assert Taken(steps, n) == Taken(steps, n - 1);
    }
  }

  lemma OpsFlat(steps: seq<Step>, i: nat)
    requires AllFlat(steps)
    ensures Flat(OpsAt(steps, i))
  {
  }

  /** What happened to the table while the hooks of one type ran: a walk from link to link, which calls
      at most as many hooks as there were plus those the callbacks add; and callbacks which call
      nothing act on the table one after the other. */
  ghost predicate RanAll(start: Registry, now: Registry, called: seq<Node>, walk: seq<seq<Registry>>,
                         steps: seq<Step>, nameOf: string -> FName) {
    && Walked(start, called, walk, steps, now, null, nameOf)
    && |called| <= |Known(start)| + AddsInSteps(Taken(steps, |called|))
    && (AllFlat(steps) ==> Abs(now) == ApplySteps(Abs(start), Taken(steps, |called|)))
    && (AllIdle(steps) ==> now == start)
  }

  /** A walk so far. */
  datatype Walk = Walk(start: Registry, handle: Node, key: Key, called: seq<Node>, states: seq<seq<Registry>>)

  ghost predicate Walking(w: Walk, steps: seq<Step>, now: Registry, node: Node?, nameOf: string -> FName) {
    && Consistent(w.start, nameOf)
    && Changed(w.start, now, AddsInSteps(Taken(steps, |w.called|)))
    && NothingMissed(w.start, now, w.handle, w.key, node, w.called) && InOrder(now, w.key, node, w.called)
    && Walked(w.start, w.called, w.states, steps, now, node, nameOf)
    && Started(w.start, w.handle, w.key, if w.called == [] then node else w.called[0])
  }

  lemma WalkingStarts(reg: Registry, handle: Node, key: Key, node: Node?, steps: seq<Step>, nameOf: string -> FName)
    requires Consistent(reg, nameOf)
    requires NothingMissed(reg, reg, handle, key, node, []) && InOrder(reg, key, node, [])
    ensures Walking(Walk(reg, handle, key, [], []), steps, reg, node, nameOf)
  {
    hide Consistent, NothingMissed, InOrder, Changed, Walked, Taken, AddsInSteps;
    Unchanged(reg);
    TakenNone(steps, false, None);
    WalkedNothing(reg, steps, node, nameOf);
  }

  lemma WalkingOn(w: Walk, steps: seq<Step>, before: Registry, now: Registry, node: Node, states: seq<Registry>,
                  nameOf: string -> FName)
    requires Walking(w, steps, before, node, nameOf) && Consistent(before, nameOf) && Consistent(now, nameOf)
    requires DoesAll(states, OpsAt(steps, |w.called|), nameOf) && states[0] == before && Last(states) == now
    requires Changed(before, now, AddsInOps(OpsAt(steps, |w.called|)))
    ensures node in now.links
    ensures var t := now.links[node].At(4);
      && Walking(w.(called := w.called + [node], states := w.states + [states]), steps, now, t, nameOf)
      && (t != null ==> t in Known(now) && Rest(Known(now), t) + {t} < Rest(Known(now), node) + {node})
  {
    hide Consistent, NothingMissed, InOrder, Changed, Walked, Taken, AddsInSteps, AddsInOps, OpsAt, DoesAll, Rest,
      Known, Started;
    WalkStep(w.start, before, now, nameOf, w.handle, w.key, node, w.called,
             AddsInSteps(Taken(steps, |w.called|)), AddsInOps(OpsAt(steps, |w.called|)));
    TakenNext(steps, |w.called|, false, None);
    assert states != [] by { DoesSomething(states, OpsAt(steps, |w.called|), nameOf); }
    WalkedMore(w.start, w.called, w.states, steps, before, node, states, now.links[node].At(4), nameOf);
  }

  lemma DoesSomething(states: seq<Registry>, ops: seq<Op>, nameOf: string -> FName)
    requires DoesAll(states, ops, nameOf)
    ensures states != []
  {
  }

  lemma WalkingEnds(w: Walk, steps: seq<Step>, now: Registry, nameOf: string -> FName)
    requires Walking(w, steps, now, null, nameOf)
    ensures Changed(w.start, now, AddsInSteps(Taken(steps, |w.called|)))
    ensures Started(w.start, w.handle, w.key, if w.called == [] then null else w.called[0])
    ensures Ran(w.start, now, w.handle, w.key, w.called) && RanAll(w.start, now, w.called, w.states, steps, nameOf)
  {
    hide Consistent, NothingMissed, InOrder, Changed, Walked, Taken, AddsInSteps, Abs, ApplySteps, AllFlat, AllIdle;
    CallsBoundedByAdds(w.start, now, w.handle, w.key, w.called, AddsInSteps(Taken(steps, |w.called|)));
    if AllFlat(steps) {
      assert |w.states| == |w.called| && now == StateAt(w.start, w.states, |w.states|) by {
        WalkedLength(w, steps, now, nameOf);
      }
      WalkedApplies(w.start, w.called, w.states, steps, now, null, nameOf, |w.called|);
    }
    if AllIdle(steps) {
      WalkedLength(w, steps, now, nameOf);
      WalkedIdle(w.start, w.called, w.states, steps, now, null, nameOf, |w.called|);
    }
  }

  lemma WalkedLength(w: Walk, steps: seq<Step>, now: Registry, nameOf: string -> FName)
    requires Walked(w.start, w.called, w.states, steps, now, null, nameOf)
    ensures |w.states| == |w.called| && (forall i | 0 <= i < |w.states| :: w.states[i] != [])
    ensures now == StateAt(w.start, w.states, |w.states|)
  {
  }

  /** The verdict, the return value and the events after some callbacks. */
  ghost predicate Reported(called: seq<Node>, steps: seq<Step>, hasReturn: bool, ret0: Option<int>, events0: seq<Event>,
                           block: bool, ret: Option<int>, events: seq<Event>) {
    && block == Blocks(Taken(steps, |called|), hasReturn)
    && ret == WriteReturns(Taken(steps, |called|), hasReturn, ret0)
    && events == events0 + Hooks(called, steps, hasReturn, ret0)
  }

  lemma ReportedNothing(steps: seq<Step>, hasReturn: bool, ret: Option<int>, events: seq<Event>)
    ensures Reported([], steps, hasReturn, ret, events, false, ret, events)
  {
    TakenNone(steps, hasReturn, ret);
  }

  lemma ReportedOn(called: seq<Node>, node: Node, steps: seq<Step>, hasReturn: bool, ret0: Option<int>,
                   events0: seq<Event>, block: bool, ret: Option<int>, events: seq<Event>)
    requires Reported(called, steps, hasReturn, ret0, events0, block, ret, events)
    ensures Reported(called + [node], steps, hasReturn, ret0, events0, block || BlocksAt(steps, |called|, hasReturn),
                     WriteAt(steps, |called|, hasReturn, ret), events + [Hook(node, ret)])
  {
    hide Blocks, WriteReturns, Taken, BlocksAt, WriteAt, Hooks;
    TakenNext(steps, |called|, hasReturn, ret0);
    HooksNext(called, node, steps, hasReturn, ret0);
  }

  lemma ReportedMeans(called: seq<Node>, steps: seq<Step>, hasReturn: bool, ret0: Option<int>, events0: seq<Event>,
                      block: bool, ret: Option<int>, events: seq<Event>)
    requires Reported(called, steps, hasReturn, ret0, events0, block, ret, events)
    ensures block == Blocks(Taken(steps, |called|), hasReturn)
    ensures ret == WriteReturns(Taken(steps, |called|), hasReturn, ret0)
    ensures events == events0 + Hooks(called, steps, hasReturn, ret0)
  {
  }

  lemma NothingAdded()
    ensures AddsInOps([]) == 0
  {
  }

  /** A removed hook is only called behind one which was removed no later; so when a hook is still
      registered as its callback returns, the next one called is too. */
  lemma CalledWhenRemoved(start: Registry, called: seq<Node>, walk: seq<seq<Registry>>, steps: seq<Step>,
                          now: Registry, next: Node?, nameOf: string -> FName, i: nat)
    requires Walked(start, called, walk, steps, now, next, nameOf) && i + 1 < |called|
    ensures var reg := Last(walk[i]); called[i + 1] !in reg.live ==>
      && called[i] in reg.dead && called[i + 1] in reg.dead
      && reg.dead[called[i]].time <= reg.dead[called[i + 1]].time
  {
    var reg := Last(walk[i]);
    assert Turn(walk[i], StateAt(start, walk, i), OpsAt(steps, i), called[i], NextAt(called, next, i), nameOf);
    assert Consistent(reg, nameOf);
    NextRemovedAfter(reg, nameOf, called[i]);
  }

  /** The link of a removed node stays what it is. */
  lemma {:induction false} FrozenToEnd(states: seq<Registry>, ops: seq<Op>, nameOf: string -> FName, j: nat, n: Node)
    requires DoesAll(states, ops, nameOf) && j < |states| && n in states[j].dead && n in states[j].links
    ensures n in Last(states).links && Last(states).links[n] == states[j].links[n]
    decreases |states| - j
  {
    hide Consistent, Abs;
    if j + 1 < |states| {
      assert Does(states[j], ops[j], states[j + 1]);
      StaysFrozen(states[j], ops[j], states[j + 1], n);
      FrozenToEnd(states, ops, nameOf, j + 1, n);
    }
  }

  lemma StaysFrozen(a: Registry, op: Op, b: Registry, n: Node)
    requires Does(a, op, b) && n in a.dead && n in a.links
    ensures n in b.dead && n in b.links && b.links[n] == a.links[n]
  {
    hide Abs;
  }

  /** When a callback removes its own hook, the hook behind it at that moment is called next, whatever
      the callback does afterwards, even if it removes that one too. */
  lemma NextFixedAtRemoval(start: Registry, called: seq<Node>, walk: seq<seq<Registry>>, steps: seq<Step>,
                           now: Registry, next: Node?, nameOf: string -> FName, i: nat, j: nat)
    requires Walked(start, called, walk, steps, now, next, nameOf) && i < |called| && j + 1 < |walk[i]|
    requires j < |OpsAt(steps, i)| && OpsAt(steps, i)[j].Remove?
    requires called[i] in walk[i][j].live && called[i] !in walk[i][j + 1].live
    ensures called[i] in walk[i][j].links && NextAt(called, next, i) == walk[i][j].links[called[i]].At(4)
  {
    hide Consistent, Abs, Evolves, LinksFrozen;
    var states, ops := walk[i], OpsAt(steps, i);
    assert Turn(states, StateAt(start, walk, i), ops, called[i], NextAt(called, next, i), nameOf);
    assert Does(states[j], ops[j], states[j + 1]);
    assert called[i] in Known(states[j + 1]);
    FrozenToEnd(states, ops, nameOf, j + 1, called[i]);
  }

  /** What one dispatch did: which hooks it called, and how it went. */
  datatype Dispatched = Dispatched(blocked: bool, threw: bool, hasPost: bool,
                                   pre: seq<Node>, post: seq<Node>, unconditional: seq<Node>)

  /** Some hooks being called, the return value being `ret` at first. */
  ghost function Hooks(s: seq<Node>, steps: seq<Step>, hasReturn: bool, ret: Option<int>): seq<Event> {
    seq(|s|, i requires 0 <= i < |s| => Hook(s[i], WriteReturns(Taken(steps, i), hasReturn, ret)))
  }

  lemma HooksNext(s: seq<Node>, n: Node, steps: seq<Step>, hasReturn: bool, ret: Option<int>)
    ensures Hooks([], steps, hasReturn, ret) == []
    ensures Hooks(s + [n], steps, hasReturn, ret) ==
      Hooks(s, steps, hasReturn, ret) + [Hook(n, WriteReturns(Taken(steps, |s|), hasReturn, ret))]
  {
    hide WriteReturns, Taken;
  }

  /** The return value the pre-hooks leave behind. */
  function PreReturn(call: Call, d: Dispatched): Option<int> {
    WriteReturns(Taken(call.pre, |d.pre|), call.hasReturn, None)
  }

  /** The return value the post-hooks find: what the pre-hooks set, or what the function returned. */
  function PostReturn(call: Call, d: Dispatched): Option<int> {
    if PreReturn(call, d).None? && call.hasReturn && !d.blocked then Some(call.value) else PreReturn(call, d)
  }

  ghost function PreTrace(call: Call, d: Dispatched): seq<Event> {
    Hooks(d.pre, call.pre, call.hasReturn, None) + if call.fault != InArgs && !d.blocked then [Original] else []
  }

  ghost function PostTrace(call: Call, post: seq<Node>, unconditional: seq<Node>, ret: Option<int>): seq<Event> {
    Hooks(post, call.post, call.hasReturn, ret)
    + Hooks(unconditional, call.postUnconditional, call.hasReturn,
      WriteReturns(Taken(call.post, |post|), call.hasReturn, ret))
  }

  /** What the try block calls, in order. */
  ghost function TraceOf(call: Call, d: Dispatched): seq<Event> {
    PreTrace(call, d) + PostTrace(call, d.post, d.unconditional, PostReturn(call, d))
  }

  lemma NoPostTrace(call: Call, ret: Option<int>)
    ensures PostTrace(call, [], [], ret) == []
  {
  }

  lemma TraceShort(call: Call, d: Dispatched)
    requires d.post == [] && d.unconditional == []
    ensures TraceOf(call, d) == PreTrace(call, d)
  {
    hide WriteReturns, Taken, PreTrace, PostReturn;
    NoPostTrace(call, PostReturn(call, d));
  }

  /** The value the caller finds: what the pre-hooks set, or what the function returned. */
  function SlotAfter(call: Call, d: Dispatched, params: int): int {
    if PreReturn(call, d).Some? then PreReturn(call, d).value
    else if d.blocked then params
    else call.value
  }

  /** The value the caller finds is what the last of the pre-hooks called to write it stored, whether the
      call was blocked or not.  When none did, or that one cleared it, it is what the function returned, or
      what was there before when it was blocked. */
  lemma CallerFinds(call: Call, d: Dispatched, params: int)
    ensures var (steps, slot) := (Taken(call.pre, |d.pre|), SlotAfter(call, d, params));
      && (forall i: nat | LastToWrite(steps, call.hasReturn, i) && steps[i].write.Store? ::
        slot == steps[i].write.value)
      && ((forall i: nat | LastToWrite(steps, call.hasReturn, i) :: steps[i].write.Clear?) ==>
            slot == if d.blocked then params else call.value)
  {
    var steps := Taken(call.pre, |d.pre|);
    LastWriteDecides(steps, call.hasReturn, None);
    if k :| 0 <= k < |steps| && Writes(steps[k], call.hasReturn) {
      var _ := SomeoneLast(steps, call.hasReturn, k);
    }
  }

  /** The value post-hooks find is the same, and none when the call was blocked or has no return value. */
  lemma PostHooksFind(call: Call, d: Dispatched)
    ensures var (steps, ret) := (Taken(call.pre, |d.pre|), PostReturn(call, d));
      && (forall i: nat | LastToWrite(steps, call.hasReturn, i) && steps[i].write.Store? ::
        ret == Some(steps[i].write.value))
      && ((forall i: nat | LastToWrite(steps, call.hasReturn, i) :: steps[i].write.Clear?) ==>
            ret == if d.blocked || !call.hasReturn then None else Some(call.value))
  {
    var steps := Taken(call.pre, |d.pre|);
    LastWriteDecides(steps, call.hasReturn, None);
    if k :| 0 <= k < |steps| && Writes(steps[k], call.hasReturn) {
      var _ := SomeoneLast(steps, call.hasReturn, k);
    }
  }

  /** The calls of a dispatch, one by one: first the pre-hooks, then the function itself unless blocked or
      not reached, then the post-hooks and last the unconditional ones.  Each hook finds what those of its
      kind before it left; post-hooks start with the value `PostHooksFind` is about, the unconditional
      ones with what the post-hooks left. */
  lemma TraceShape(call: Call, d: Dispatched)
    ensures var (trace, ran) := (TraceOf(call, d), if call.fault != InArgs && !d.blocked then 1 else 0);
      var (post, unconditional) := (|d.pre| + ran, |d.pre| + ran + |d.post|);
      && |trace| == unconditional + |d.unconditional|
      && (forall i | 0 <= i < |d.pre| :: Finds(trace[i], d.pre[i], call.pre, i, call.hasReturn, None))
      && (ran == 1 ==> trace[|d.pre|] == Original)
      && (forall i | 0 <= i < |d.post| ::
            Finds(trace[post + i], d.post[i], call.post, i, call.hasReturn, PostReturn(call, d)))
      && forall i | 0 <= i < |d.unconditional| ::
           Finds(trace[unconditional + i], d.unconditional[i], call.postUnconditional, i, call.hasReturn,
                 WriteReturns(Taken(call.post, |d.post|), call.hasReturn, PostReturn(call, d)))
  {
    hide WriteReturns, Taken, PostReturn, LeftBy;
    var ret := PostReturn(call, d);
    forall steps: seq<Step>, i: nat, before
      ensures LeftBy(Taken(steps, i), call.hasReturn, before, WriteReturns(Taken(steps, i), call.hasReturn, before))
    {
      LastWriteDecides(Taken(steps, i), call.hasReturn, before);
    }
  }

  /** This is the call of hook `n`, `i`-th of its kind, and it finds what the ones before it left. */
  ghost predicate Finds(e: Event, n: Node, steps: seq<Step>, i: nat, hasReturn: bool, before: Option<int>) {
    e.Hook? && e.node == n && LeftBy(Taken(steps, i), hasReturn, before, e.ret)
  }

  /** How a dispatch must go: pre-hooks decide whether the function is blocked, post-hooks run only
      when nothing was thrown, and those of the plain kind only when the function ran. */
  ghost predicate Behaved(call: Call, d: Dispatched) {
    && d.blocked == (call.fault != InArgs && Blocks(Taken(call.pre, |d.pre|), call.hasReturn))
    && (d.threw <==> match call.fault
          case NoFault => false
          case InArgs => true
          case InOriginal => !d.blocked
          case InCopyTo => PreReturn(call, d).Some?
          case InCopyFrom => d.hasPost && call.hasReturn && PreReturn(call, d).None? && !d.blocked)
    && (call.fault == InArgs ==> d.pre == [])
    && (d.threw || d.blocked ==> d.post == [])
    && (d.threw ==> d.unconditional == [])
  }

  /** The dispatch gets as far as looking for post-hooks. */
  predicate LooksForPosts(call: Call, d: Dispatched) {
    match call.fault
    case InArgs => false
    case InOriginal => d.blocked
    case InCopyTo => PreReturn(call, d).None?
    case _ => true
  }

  /** What looking for post-hooks says of the table: when none is found, none was there all along; when
      one is found, one was registered for the function at some time. */
  ghost predicate PostsFound(start: Registry, now: Registry, fullName: string, found: bool) {
    && (!found ==> forall x | x in start.live && x in now.live :: x.fullName == fullName ==> x.hookType == Pre)
    && (found ==> exists x | x in Known(now) :: x.fullName == fullName && x.hookType != Pre)
  }

  lemma PostsLookedFor(start: Registry, now: Registry, nameOf: string -> FName, handle: Node, found: bool, adds: nat)
    requires Consistent(start, nameOf) && Changed(start, now, adds) && handle in start.live
    requires found ==> exists x | x in Known(now) :: x.fullName == handle.fullName && x.hookType != Pre
    requires !found ==> NoPostHooks(now, handle)
    ensures PostsFound(start, now, handle.fullName, found)
  {
    if !found {
      forall x | x in start.live && x in now.live ensures CoLived(now, handle, x) {
        CoLivedSurvives(start, now, handle, x);
      }
    }
  }

  lemma PostsFoundLater(start: Registry, now: Registry, later: Registry, nameOf: string -> FName, fullName: string,
                        found: bool, adds: nat, adds': nat)
    requires Consistent(start, nameOf) && Consistent(now, nameOf) && Consistent(later, nameOf)
    requires Changed(start, now, adds) && Changed(now, later, adds') && PostsFound(start, now, fullName, found)
    ensures PostsFound(start, later, fullName, found)
  {
    forall x | x in start.live && x in later.live ensures x in now.live { LiveThroughout(now, later, nameOf, x); }
  }

  /** Every hook of the function which was there at the start, and was never removed, was called in
      its phase, if that phase was reached. */
  ghost predicate PhasesOf(start: Registry, now: Registry, call: Call, d: Dispatched) {
    && Phase(start, now, Key(call.fullName, Pre), d.pre, call.fault != InArgs)
    && Phase(start, now, Key(call.fullName, Post), d.post, !d.threw && !d.blocked)
    && Phase(start, now, Key(call.fullName, PostUnconditional), d.unconditional, !d.threw)
    && (LooksForPosts(call, d) ==> PostsFound(start, now, call.fullName, d.hasPost))
  }

  lemma PreEnds(start: Registry, middle: Registry, end: Registry, nameOf: string -> FName, call: Call, pre: seq<Node>)
    requires Consistent(middle, nameOf) && Consistent(end, nameOf)
    requires Changed(start, middle, AddsInSteps(call.pre)) && Changed(middle, end, AddsInOps(call.original))
    requires Phase(start, middle, Key(call.fullName, Pre), pre, true)
    ensures Changed(start, end, AddsBefore(call)) && Phase(start, end, Key(call.fullName, Pre), pre, true)
  {
    hide Consistent, Phase, Changed, AddsInSteps, AddsInOps;
    ChangedTransitive(start, middle, end, AddsInSteps(call.pre), AddsInOps(call.original));
    PhaseLater(start, middle, end, nameOf, Key(call.fullName, Pre), pre, true, AddsInSteps(call.pre),
      AddsInOps(call.original));
  }

  lemma TryEnds(start: Registry, middle: Registry, end: Registry, call: Call)
    requires Changed(start, middle, AddsBefore(call)) && Changed(middle, end, AddsAfter(call))
    ensures Changed(start, end, AddsInTry(call))
  {
    ChangedTransitive(start, middle, end, AddsBefore(call), AddsAfter(call));
  }

  lemma TryCutShort(start: Registry, now: Registry, call: Call)
    requires Changed(start, now, AddsBefore(call))
    ensures Changed(start, now, AddsInTry(call))
  {
  }

  lemma CallEnds(start: Registry, middle: Registry, end: Registry, call: Call)
    requires Changed(start, middle, AddsInTry(call)) && Changed(middle, end, AddsInOps(call.fallback))
    ensures Changed(start, end, AddsInCall(call))
  {
    ChangedTransitive(start, middle, end, AddsInTry(call), AddsInOps(call.fallback));
  }

  lemma PhasesLater(start: Registry, now: Registry, later: Registry, nameOf: string -> FName, call: Call, d: Dispatched)
    requires Consistent(start, nameOf) && Consistent(now, nameOf) && Consistent(later, nameOf)
    requires Changed(start, now, AddsInTry(call)) && Changed(now, later, AddsInOps(call.fallback))
    requires PhasesOf(start, now, call, d)
    ensures PhasesOf(start, later, call, d)
  {
    hide Consistent, Changed, Phase, AddsInTry, AddsInOps, PostsFound, PreReturn;
    if LooksForPosts(call, d) {
      PostsFoundLater(start, now, later, nameOf, call.fullName, d.hasPost, AddsInTry(call), AddsInOps(call.fallback));
    }
    PhaseLater(start, now, later, nameOf, Key(call.fullName, Pre), d.pre, call.fault != InArgs,
               AddsInTry(call), AddsInOps(call.fallback));
    PhaseLater(start, now, later, nameOf, Key(call.fullName, Post), d.post, !d.threw && !d.blocked,
               AddsInTry(call), AddsInOps(call.fallback));
    PhaseLater(start, now, later, nameOf, Key(call.fullName, PostUnconditional), d.unconditional, !d.threw,
               AddsInTry(call), AddsInOps(call.fallback));
  }

  lemma NoPhases(start: Registry, now: Registry, fullName: string)
    ensures forall hookType :: Phase(start, now, Key(fullName, hookType), [], false)
  {
  }
}
