/** What becomes of concrete hooks: cases in which the code does what its documentation does not say. */
module HookScenarios {
  import opened HookOrder
  import opened HookRegistry
  import opened HookWalk
  import opened HookCalls
  import opened HookManager
  import opened HookTheorems

  const FUNC := "Class:Func"
  const A := "a"
  const B := "b"

  // ---- what add_hook returns ----------------------------------------------------------------

  /** `add_hook` is documented to return whether the hook was added.  It was, exactly when it was not
      there before and is afterwards; the result says so exactly when the hook was there already, or
      is the first one for its function and type. */
  method AddHookReports(table: HookTable, func: string, hookType: HookType, identifier: string, callback: nat)
    returns (before: bool, r: bool, after: bool)
    requires table.Valid()
    modifies table`reg, table.buckets, table.reg.live
    ensures table.Valid() && after
    ensures (r == (!before && after)) <==> before || old(Lookup(Abs(table.reg), Key(func, hookType))) == []
    ensures AddsEntry(old(table.reg), table.reg, Key(func, hookType), Entry(identifier, callback))
    ensures before <==> HasIdentifier(old(Lookup(Abs(table.reg), Key(func, hookType))), identifier)
    ensures r <==> old(Lookup(Abs(table.reg), Key(func, hookType))) == []
  {
    hide Consistent, Abs;
    before := table.HasHook(func, hookType, identifier);
    r := table.AddHook(func, hookType, identifier, callback);
    after := table.HasHook(func, hookType, identifier);
    AddedIsThere(old(Abs(table.reg)), Key(func, hookType), Entry(identifier, callback));
  }

  lemma AddedIsThere(t: Table, key: Key, entry: Entry)
    ensures HasIdentifier(Lookup(AddEntry(t, key, entry), key), entry.identifier)
  {
    var s := Lookup(t, key) + [entry];
    assert s[|s| - 1] == entry;
  }

  /** A second hook on the same function and type is added, but not reported as added. */
  method AddMisreports(internName: string -> FName)
    returns (table: HookTable, ghost start: Registry, before: bool, r: bool, after: bool)
    ensures AddsEntry(start, table.reg, Key(FUNC, Pre), Entry(B, 1))
    ensures before <==> HasIdentifier(Lookup(Abs(start), Key(FUNC, Pre)), B)
    ensures r <==> Lookup(Abs(start), Key(FUNC, Pre)) == []
    ensures !before && after && !r
  {
    hide Consistent, Abs, AddsEntry, Lookup;
    ghost var a, b;
    table, a, b := OneHook(internName, Pre);
    start := table.reg;
    before, r, after := AddHookReports(table, FUNC, Pre, B, 1);
    NotThere(a);
  }

  lemma NotThere(a: Entry)
    requires a.identifier == A
    ensures !HasIdentifier([a], B) && [a] != []
  {
  }

  // ---- tables with one or two hooks ---------------------------------------------------------

  lemma FirstAdded(a: Registry, b: Registry, nameOf: string -> FName, key: Key, entry: Entry) returns (n: Node)
    requires Consistent(b, nameOf) && AddsEntry(a, b, key, entry) && Abs(a) == map[] && Known(a) == {}
    ensures Lookup(Abs(b), key) == [entry] && |Known(b)| == 1
    ensures n in b.live && KeyOf(n) == key && n.identifier == entry.identifier
  {
    hide Stamped, GroupsKeyed, KeysDistinct, Linked, Evolves, LinksFrozen;
    AddedIsThere(map[], key, entry);
    HasIdentifierLive(b, key, entry.identifier);
    n :| n in b.live && KeyOf(n) == key && n.identifier == entry.identifier;
    assert [] + [entry] == [entry];
  }

  /** A table with one hook. */
  method OneHook(internName: string -> FName, hookType: HookType)
    returns (table: HookTable, ghost entry: Entry, ghost a: Node)
    ensures fresh(table) && fresh(table.buckets) && fresh(table.reg.live) && table.Valid() &&
      !table.shouldInjectNextCall
    ensures table.internName == internName && entry == Entry(A, 0)
    ensures Lookup(Abs(table.reg), Key(FUNC, hookType)) == [entry]
    ensures |Known(table.reg)| == 1 && a in table.reg.live && KeyOf(a) == Key(FUNC, hookType) && a.identifier == A
  {
    hide Consistent, Abs, AddsEntry, Lookup;
    table := new HookTable(internName);
    entry := Entry(A, 0);
    ghost var empty := table.reg;
    assert table.reg.live == {} by { assert table.reg.live <= Known(table.reg); }
    var _ := table.AddHook(FUNC, hookType, A, 0);
    a := FirstAdded(empty, table.reg, table.nameOf, Key(FUNC, hookType), entry);
  }

  /** `x` and then `y` are all hooks there are for a function and type. */
  ghost predicate Pair(reg: Registry, key: Key, x: Node, y: Node) {
    && x in reg.live && y in reg.live && KeyOf(x) == KeyOf(y) == key && Before(x, y) && x.identifier != y.identifier
    && forall n | n in reg.live :: KeyOf(n) == key ==> n == x || n == y
  }

  lemma PairMeans(reg: Registry, key: Key, x: Node, y: Node)
    requires Pair(reg, key, x, y)
    ensures x in reg.live && y in reg.live && KeyOf(x) == KeyOf(y) == key
  {
  }

  lemma PairLinked(reg: Registry, nameOf: string -> FName, key: Key, x: Node, y: Node)
    requires Consistent(reg, nameOf) && Pair(reg, key, x, y)
    ensures x in reg.links && reg.links[x].At(4) == y
  {
    var t := reg.links[x].At(4);
    assert IsNext(reg.live, 4, x, t);
    assert KeysGrouped(x, y);
    assert Later(4, x, y);
  }

  /** A hook added to the one there is comes behind it. */
  lemma SecondAdded(a: Registry, b: Registry, nameOf: string -> FName, key: Key, entry: Entry, y: Node)
    returns (x: Node)
    requires Consistent(a, nameOf) && Consistent(b, nameOf) && AddsEntry(a, b, key, entry)
    requires y in a.live && KeyOf(y) == key && y.identifier != entry.identifier
    requires forall n | n in a.live :: KeyOf(n) == key ==> n == y
    ensures Pair(b, key, y, x) && x.identifier == entry.identifier
  {
    hide Stamped, KeysDistinct, Linked, Listed, GroupsKeyed, Abs, HasIdentifier, Lookup, AddEntry, Evolves, LinksFrozen;
    AddedIsThere(Abs(a), key, entry);
    HasIdentifierLive(b, key, entry.identifier);
    x :| x in b.live && KeyOf(x) == key && x.identifier == entry.identifier;
    NewComesLast(a, b, y, x);
    OneOfEach(b);
  }

  lemma NewComesLast(a: Registry, b: Registry, y: Node, x: Node)
    requires Stamped(a) && Stamped(b) && KeysDistinct(b) && Evolves(a, b) && b.dead == a.dead
    requires y in a.live && y in b.live && x in b.live && x !in a.live && KeyOf(x) == KeyOf(y)
    ensures Before(y, x)
  {
    assert x !in Known(a);
    assert KeysGrouped(y, x);
  }

  lemma OneOfEach(reg: Registry)
    requires KeysDistinct(reg)
    ensures forall m, n | m in reg.live && n in reg.live ::
      KeyOf(m) == KeyOf(n) && m.identifier == n.identifier ==> m == n
  {
  }

  /** Removing the first of two hooks leaves the second, to which its link still leads. */
  lemma FirstRemoved(a: Registry, b: Registry, nameOf: string -> FName, key: Key, x: Node, y: Node)
    requires Consistent(a, nameOf) && Consistent(b, nameOf) && Pair(a, key, x, y)
    requires RemovesEntry(a, b, key, x.identifier)
    ensures x !in b.live && y in b.live && (forall n | n in b.live :: KeyOf(n) == key ==> n == y)
    ensures x in b.dead && x in b.links && b.links[x].At(4) == y
  {
    PairLinked(a, nameOf, key, x, y);
    EntryGone(a, b, nameOf, key, x.identifier);
    assert x !in b.live;
    assert x in Known(b);
  }

  /** Once an entry is removed, no live node carries its identifier. */
  lemma EntryGone(a: Registry, b: Registry, nameOf: string -> FName, key: Key, identifier: string)
    requires Consistent(a, nameOf) && Consistent(b, nameOf) && RemovesEntry(a, b, key, identifier)
    ensures forall n | n in b.live :: !(KeyOf(n) == key && n.identifier == identifier)
  {
    assert Listed(b);
    TableIsDistinct(a, nameOf, key);
    hide Consistent, Abs, Listed, Evolves, LinksFrozen, Known, Distinct;
    HasIdentifierLive(b, key, identifier);
    CutIsGone(Lookup(Abs(a), key), identifier);
  }

  lemma CutIsGone(s: seq<Entry>, identifier: string)
    requires Distinct(s)
    ensures !HasIdentifier(if HasIdentifier(s, identifier) then Without(s, identifier) else s, identifier)
  {
    if HasIdentifier(s, identifier) {
      var i := WithoutCutsOne(s, identifier);
      var cut := s[..i] + s[i + 1..];
      forall j | 0 <= j < |cut| ensures cut[j].identifier != identifier {
        assert cut[j] == s[if j < i then j else j + 1];
      }
    }
  }


  /** A hook which removes itself and adds itself again goes to the end, and still leads to the other. */
  lemma Requeued(a: Registry, b: Registry, c: Registry, nameOf: string -> FName, key: Key, x: Node, y: Node,
                 callback: nat)
    returns (x': Node)
    requires Consistent(a, nameOf) && Consistent(b, nameOf) && Consistent(c, nameOf) && Pair(a, key, x, y)
    requires RemovesEntry(a, b, key, x.identifier) && AddsEntry(b, c, key, Entry(x.identifier, callback))
    ensures Pair(c, key, y, x') && x'.identifier == x.identifier
    ensures x in c.links && c.links[x].At(4) == y
  {
    FirstRemoved(a, b, nameOf, key, x, y);
    hide Consistent, Pair, RemovesEntry;
    x' := SecondAdded(b, c, nameOf, key, Entry(x.identifier, callback), y);
  }

  /** A table with two hooks. */
  method TwoHooks(internName: string -> FName) returns (table: HookTable, ghost a: Node, ghost b: Node)
    ensures fresh(table) && fresh(table.buckets) && fresh(table.reg.live) && table.Valid() &&
      !table.shouldInjectNextCall
    ensures table.internName == internName && a.identifier == A && b.identifier == B
    ensures a in table.reg.live && KeyOf(a) == KeyOf(b) == Key(FUNC, Pre)
    ensures Pair(table.reg, Key(FUNC, Pre), a, b) && Known(table.reg) == {a, b}
  {
    hide Consistent, Abs, AddsEntry, Pair, Known;
    ghost var entry;
    table, entry, a := OneHook(internName, Pre);
    ghost var one := table.reg;
    var _ := table.AddHook(FUNC, Pre, B, 1);
    OnlyOne(one, table.nameOf, a);
    b := SecondAdded(one, table.reg, table.nameOf, Key(FUNC, Pre), Entry(B, 1), a);
    PairMeans(table.reg, Key(FUNC, Pre), a, b);
    TwoKnown(one, table.reg, table.nameOf, a, b);
  }

  lemma OnlyOne(reg: Registry, nameOf: string -> FName, a: Node)
    requires a in reg.live && |Known(reg)| == 1
    ensures Known(reg) == {a}
    ensures forall n | n in reg.live :: KeyOf(n) == KeyOf(a) ==> n == a
  {
    assert Known(reg) == (Known(reg) - {a}) + {a};
    assert |Known(reg) - {a}| == 0;
    assert Known(reg) == {a};
  }

  lemma TwoKnown(one: Registry, two: Registry, nameOf: string -> FName, a: Node, b: Node)
    requires Known(one) == {a} && AddsEntry(one, two, Key(FUNC, Pre), Entry(B, 1)) && Pair(two, Key(FUNC, Pre), a, b)
    ensures Known(two) == {a, b}
  {
    hide Abs, Evolves, LinksFrozen, Before;
    assert a in Known(two) && b in Known(two) && a != b by { assert a.identifier != b.identifier; }
    assert |Known(two)| <= 2;
    assert Known(two) == (Known(two) - {a, b}) + {a, b};
  }

  /** The walk of two hooks starts at the first of them. */
  lemma StartsAtFirst(reg: Registry, nameOf: string -> FName, handle: Node, key: Key, a: Node, b: Node,
                      called: seq<Node>)
    requires Consistent(reg, nameOf) && Pair(reg, key, a, b) && Known(reg) == {a, b} && handle in reg.live
    requires Started(reg, handle, key, if called == [] then null else called[0])
    ensures called != [] && called[0] == a
  {
    hide GroupsKeyed, KeysDistinct, Listed, Linked;
    assert reg.live <= Known(reg);
    assert Wanted(reg, reg, handle, key, a);
  }

  // ---- a removed hook which is called -------------------------------------------------------

  /** A callback which removes both hooks. */
  function RemoveBoth(): Step {
    Step([Remove(FUNC, Pre, A), Remove(FUNC, Pre, B)], Keep, Returns(false))
  }

  /** Of two hooks, the first removes itself and then the second.  The second is called all the same,
      after it was removed. */
  method RemovedHookStillCalled(internName: string -> FName)
    returns (table: HookTable, ghost start: Registry, ghost called: seq<Node>, ghost walk: seq<seq<Registry>>,
             ghost reg: Registry)
    ensures RanAll(start, table.reg, called, walk, [RemoveBoth()], table.nameOf)
    ensures |called| >= 2 && Pair(start, Key(FUNC, Pre), called[0], called[1])
    ensures reg == StateAt(start, walk, 1) && called[1] in reg.dead && called[1] !in reg.live
  {
    hide Consistent, Pair, RanAll, Ran, Changed, Started, Known, EverHead, Hooks, Blocks, WriteReturns, Taken, Walked;
    ghost var a, b;
    table, a, b := TwoHooks(internName);
    start := table.reg;
    var details := new Details(false);
    var handle := Handle(table, a);
    var block;
    block, called, walk := table.RunHooksOfType(handle, Pre, [RemoveBoth()], details);
    StartsAtFirst(start, table.nameOf, handle, Key(FUNC, Pre), a, b, called);
    reg := BothRemoved(start, called, walk, [RemoveBoth()], table.reg, table.nameOf, a, b);
  }

  /** The handle of the function. */
  method Handle(table: HookTable, ghost a: Node) returns (handle: Node)
    requires table.Valid() && a in table.reg.live && a.fullName == FUNC && !table.shouldInjectNextCall
    modifies table`shouldInjectNextCall
    ensures table.Valid() && handle.fullName == FUNC && handle in table.reg.live && EverHead(table.reg, 2, handle)
    ensures table.reg == old(table.reg)
  {
    hide Consistent, Head;
    var r := table.PreprocessHook(true, table.internName(ObjectName(FUNC)), FUNC);
    handle := r;
    LiveHead(table.reg, table.nameOf, handle);
  }

  lemma LiveHead(reg: Registry, nameOf: string -> FName, n: Node)
    requires Consistent(reg, nameOf) && n in reg.live && Head(reg.live, 2, n)
    ensures EverHead(reg, 2, n)
  {
  }

  lemma BothRemoved(start: Registry, called: seq<Node>, walk: seq<seq<Registry>>, steps: seq<Step>, now: Registry,
                    nameOf: string -> FName, a: Node, b: Node) returns (reg: Registry)
    requires steps == [RemoveBoth()]
    requires RanAll(start, now, called, walk, steps, nameOf) && called != [] && called[0] == a
    requires Pair(start, Key(FUNC, Pre), a, b) && a.identifier == A && b.identifier == B && KeyOf(b) == Key(FUNC, Pre)
    ensures |called| >= 2 && called[1] == b && |walk| > 0 && reg == StateAt(start, walk, 1)
    ensures b in reg.dead && b !in reg.live
  {
    hide Consistent, Pair, RemovesEntry;
    var key, states := Key(FUNC, Pre), walk[0];
    assert Turn(states, StateAt(start, walk, 0), OpsAt(steps, 0), called[0], NextAt(called, null, 0), nameOf);
    assert Does(states[0], steps[0].ops[0], states[1]) && Does(states[1], steps[0].ops[1], states[2]);
    reg := states[2];
    FirstRemoved(start, states[1], nameOf, key, a, b);
    EntryGone(states[1], reg, nameOf, key, B);
    StillKnown(states[1], reg, key, B, a, b);
  }

  lemma StillKnown(a: Registry, b: Registry, key: Key, identifier: string, x: Node, y: Node)
    requires RemovesEntry(a, b, key, identifier) && x in a.dead && x in a.links && y in a.live && y !in b.live
    ensures y in b.dead && x in b.links && b.links[x] == a.links[x]
  {
    assert y in Known(b);
  }

  // ---- endless and bounded runs -------------------------------------------------------------

  /** Whose turn it is, when the two hooks take turns. */
  function TurnOf(i: nat): string {
    if i % 2 == 0 then A else B
  }

  /** A callback which removes its own hook and adds it again. */
  function Requeue(i: nat): Step {
    Step([Remove(FUNC, Pre, TurnOf(i)), Add(FUNC, Pre, TurnOf(i), 0)], Keep, Returns(false))
  }

  /** After `i` callbacks, `x` and then `y` are all hooks there are. */
  ghost predicate PairAfter(start: Registry, walk: seq<seq<Registry>>, i: nat, x: Node, y: Node) {
    && i <= |walk| && (forall j | 0 <= j < |walk| :: walk[j] != [])
    && Pair(StateAt(start, walk, i), Key(FUNC, Pre), x, y)
  }

  lemma TurnAt(start: Registry, called: seq<Node>, walk: seq<seq<Registry>>, steps: seq<Step>, now: Registry,
               nameOf: string -> FName, i: nat)
    requires RanAll(start, now, called, walk, steps, nameOf) && i < |called|
    ensures |walk| == |called| && (forall j | 0 <= j < |walk| :: walk[j] != [])
    ensures Turn(walk[i], StateAt(start, walk, i), OpsAt(steps, i), called[i], NextAt(called, null, i), nameOf)
    ensures StateAt(start, walk, i + 1) == Last(walk[i])
  {
    hide Turn, OpsAt;
  }

  /** As long as the hooks go on doing that, there is another one to call. */
  lemma {:induction false} TakesTurns(start: Registry, called: seq<Node>, walk: seq<seq<Registry>>, steps: seq<Step>,
                                      now: Registry, nameOf: string -> FName, a: Node, b: Node, i: nat)
    returns (y: Node)
    requires RanAll(start, now, called, walk, steps, nameOf) && Pair(start, Key(FUNC, Pre), a, b)
    requires called != [] && called[0] == a && a.identifier == A && b.identifier == B
    requires i <= |steps| && forall j | 0 <= j < |steps| :: steps[j] == Requeue(j)
    ensures i < |called| && PairAfter(start, walk, i, called[i], y)
    ensures called[i].identifier == TurnOf(i) && y.identifier == TurnOf(i + 1)
    decreases i
  {
    hide Consistent, Pair, Turn, Requeue, RanAll;
    if i == 0 {
      y := b;
      TurnAt(start, called, walk, steps, now, nameOf, 0);
    } else {
      var t := TakesTurns(start, called, walk, steps, now, nameOf, a, b, i - 1);
      TurnAt(start, called, walk, steps, now, nameOf, i - 1);
      assert OpsAt(steps, i - 1) == Requeue(i - 1).ops;
      y := OneTurn(walk[i - 1], StateAt(start, walk, i - 1), nameOf, called[i - 1], t, NextAt(called, null, i - 1),
        i - 1);
    }
  }

  lemma OneTurn(states: seq<Registry>, begin: Registry, nameOf: string -> FName, x: Node, y: Node, next: Node?, i: nat)
    returns (x': Node)
    requires states != [] && Turn(states, begin, Requeue(i).ops, x, next, nameOf) && Pair(begin, Key(FUNC, Pre), x, y)
    requires x.identifier == TurnOf(i)
    ensures next == y && Pair(Last(states), Key(FUNC, Pre), y, x') && x'.identifier == x.identifier
  {
    hide Consistent, Pair, RemovesEntry, AddsEntry;
    var ops := Requeue(i).ops;
    assert Does(states[0], ops[0], states[1]) && Does(states[1], ops[1], states[2]);
    x' := Requeued(states[0], states[1], states[2], nameOf, Key(FUNC, Pre), x, y, 0);
  }

  function Requeues(n: nat): (steps: seq<Step>)
    ensures |steps| == n && forall i | 0 <= i < n :: steps[i] == Requeue(i)
  {
    seq(n, i requires 0 <= i => Requeue(i))
  }

  /** Two hooks which each remove and add themselves again are called for as long as they do so:
      without a bound on what callbacks add, a run need not end. */
  method EndlessRun(internName: string -> FName, n: nat)
    returns (table: HookTable, ghost start: Registry, ghost called: seq<Node>, ghost walk: seq<seq<Registry>>)
    ensures RanAll(start, table.reg, called, walk, Requeues(n), table.nameOf) && |Known(start)| == 2
    ensures |called| > n
  {
    hide Consistent, Pair, RanAll, Ran, Changed, Started, Known, EverHead, Hooks, Blocks, WriteReturns, Taken, Walked;
    ghost var a, b;
    table, a, b := TwoHooks(internName);
    start := table.reg;
    var details := new Details(false);
    var handle := Handle(table, a);
    var block;
    block, called, walk := table.RunHooksOfType(handle, Pre, Requeues(n), details);
    StartsAtFirst(start, table.nameOf, handle, Key(FUNC, Pre), a, b, called);
    ghost var _ := TakesTurns(start, called, walk, Requeues(n), table.reg, table.nameOf, a, b, n);
  }

  /** When callbacks, however they go on, never add more than `k` hooks, a run calls no more than that
      besides the hooks there were: it ends before it has used up one more callback than that. */
  lemma BoundedAddsTerminate(behaviour: nat -> Step, n: nat, k: nat, start: Registry, now: Registry,
                             called: seq<Node>, walk: seq<seq<Registry>>, nameOf: string -> FName)
    requires forall m: nat :: AddsInSteps(seq(m, behaviour)) <= k
    requires RanAll(start, now, called, walk, seq(n, behaviour), nameOf)
    ensures |called| <= |Known(start)| + k
    ensures n > |Known(start)| + k ==> |called| < n
  {
    hide Walked, AllFlat, AllIdle, Known;
    var m := if |called| <= n then |called| else n;
    assert Taken(seq(n, behaviour), |called|) == seq(m, behaviour);
  }

  // ---- the original, once too often ---------------------------------------------------------

  /** A function, without hooks which do anything, which throws once it has run. */
  const THROWING := Call(FUNC, true, [], false, [], [], 0, [], [], InOriginal, [], 0)

  /** A function whose pre-hook sets the return value and blocks, when storing that value throws. */
  const BLOCKED := Call(FUNC, true, [], true, [BLOCKING], [], 0, [], [], InCopyTo, [], 0)
  const BLOCKING := Step([], Store(1), Returns(true))

  /** What a dispatch made of a call which threw. */
  ghost predicate Threw(start: Registry, now: Registry, call: Call, d: Dispatched, trace: seq<Event>) {
    Behaved(call, d) && PhasesOf(start, now, call, d) && d.threw && trace == TraceOf(call, d) + [Original]
  }

  /** The hooked function throws after it has run: it runs again. */
  method OriginalRunsTwice(internName: string -> FName)
    returns (table: HookTable, ghost start: Registry, ghost d: Dispatched, ghost trace: seq<Event>)
    ensures Lookup(Abs(start), Key(FUNC, Post)) == [Entry(A, 0)]
    ensures Threw(start, table.reg, THROWING, d, trace) && !d.blocked && Originals(trace) == 2
  {
    hide Consistent, Changed, PhasesOf, TraceOf, Abs, Lookup;
    ghost var entry, a, hooked;
    var slot;
    table, entry, a := OneHook(internName, Post);
    start := table.reg;
    slot, hooked, d, trace := table.Dispatch(THROWING, 0, null, 0);
    RunsExactlyOnce(THROWING, hooked, d, trace);
  }

  /** A pre-hook sets the return value and blocks, but storing the value throws: the function runs. */
  method BlockedOriginalRuns(internName: string -> FName)
    returns (table: HookTable, ghost start: Registry, ghost d: Dispatched, ghost trace: seq<Event>)
    ensures Lookup(Abs(start), Key(FUNC, Pre)) == [Entry(A, 0)]
    ensures Threw(start, table.reg, BLOCKED, d, trace) && d.blocked && Originals(trace) == 1
  {
    hide Consistent, Changed, TraceOf, Abs, Lookup;
    ghost var entry, a, hooked;
    var slot;
    table, entry, a := OneHook(internName, Pre);
    start := table.reg;
    slot, hooked, d, trace := table.Dispatch(BLOCKED, 0, null, 0);
    PreHookBlocks(start, BLOCKED, d, a, BLOCKING);
    RunsExactlyOnce(BLOCKED, hooked, d, trace);
  }

  lemma PreHookBlocks(reg: Registry, call: Call, d: Dispatched, a: Node, step: Step)
    requires step == Step([], Store(1), Returns(true)) && call.pre == [step] && call.hasReturn && call.fault == InCopyTo
    requires Behaved(call, d) && PhasesOf(reg, reg, call, d) && a in reg.live && KeyOf(a) == Key(call.fullName, Pre)
    ensures d.blocked && PreReturn(call, d) == Some(1)
  {
    hide Ordered;
    assert a in d.pre;
    assert Taken(call.pre, |d.pre|) == [step];
  }

  // ---- injected calls -----------------------------------------------------------------------

  /** Asking for the next call to be injected makes exactly one call go by all hooks: the next one once
      everything is initialized, whichever function that is.  The one after it is hooked again. */
  method InjectBypassesOnce(table: HookTable, injected: Call, call: Call, params: int)
    returns (ghost first: bool, ghost firstTrace: seq<Event>, ghost second: bool, ghost d: Dispatched,
             ghost trace: seq<Event>)
    requires table.Valid() && IdleCall(injected) && IdleCall(call) && injected.initialized && call.initialized
    requires exists x | x in table.reg.live :: x.fullName == call.fullName
    modifies table, table.buckets, table.reg.live
    ensures table.Valid() && table.reg == old(table.reg) && !table.shouldInjectNextCall
    ensures !first && firstTrace == [Original]
    ensures second && Behaved(call, d) && PhasesOf(table.reg, table.reg, call, d)
    ensures trace == TraceOf(call, d) + if d.threw then [Original] else []
  {
    hide Consistent, Changed, Behaved, PhasesOf, TraceOf, IdleCall, Asks, FlatCall;
    ghost var start := table.reg;
    ghost var states, d0;
    states := table.Perform([InjectNext]);
    AskedOnly(states, table.nameOf);
    assert table.reg == start && table.shouldInjectNextCall;
    var slot;
    slot, first, d0, firstTrace := table.Dispatch(injected, params, null, 0);
    slot, second, d, trace := table.Dispatch(call, params, null, 0);
  }

  lemma AskedOnly(states: seq<Registry>, nameOf: string -> FName)
    requires DoesAll(states, [InjectNext], nameOf)
    ensures Last(states) == states[0]
  {
    assert Does(states[0], [InjectNext][0], states[1]);
  }
}
