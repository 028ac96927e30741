/** What follows for users of the hook table and of the dispatcher. */
module HookTheorems {
  import opened HookOrder
  import opened HookRegistry
  import opened HookWalk
  import opened HookCalls
  import opened HookManager

  // ---- the table ----------------------------------------------------------------------------

  predicate Distinct(s: seq<Entry>) {
    forall i, j | 0 <= i < j < |s| :: s[i].identifier != s[j].identifier
  }

  /** In every state of the table, the identifiers of each function and type are distinct. */
  lemma TableIsDistinct(reg: Registry, nameOf: string -> FName, key: Key)
    requires Consistent(reg, nameOf)
    ensures Distinct(Lookup(Abs(reg), key))
  {
    hide Stamped, GroupsKeyed, Linked;
    var s := List(reg, key);
    assert Lookup(Abs(reg), key) == Entries(s);
    forall i, j | 0 <= i < j < |s| ensures s[i].identifier != s[j].identifier {
      assert s[i] in reg.live && s[j] in reg.live && Before(s[i], s[j]);
    }
  }

  lemma {:induction false} WithoutAppended(s: seq<Entry>, entry: Entry)
    requires !HasIdentifier(s, entry.identifier)
    ensures Without(s + [entry], entry.identifier) == s
  {
    if s != [] {
      assert s[0].identifier != entry.identifier;
      assert forall i | 0 <= i < |s| - 1 :: s[1..][i] == s[i + 1];
      assert (s + [entry])[1..] == s[1..] + [entry];
      WithoutAppended(s[1..], entry);
    }
  }

  /** Removing a hook undoes adding it, for every function and type. */
  lemma RemoveUndoesAdd(t: Table, key: Key, entry: Entry, other: Key)
    requires !HasIdentifier(Lookup(t, key), entry.identifier)
    ensures Lookup(RemoveEntry(AddEntry(t, key, entry), key, entry.identifier), other) == Lookup(t, other)
  {
    var s := Lookup(t, key) + [entry];
    assert s[|s| - 1] == entry;
    WithoutAppended(Lookup(t, key), entry);
  }

  /** Removing takes out the one entry, wherever it stands, and touches no other function or type. */
  lemma {:induction false} WithoutMiddle(before: seq<Entry>, entry: Entry, after: seq<Entry>)
    requires !HasIdentifier(before, entry.identifier)
    ensures Without(before + [entry] + after, entry.identifier) == before + after
    decreases |before|
  {
    var s := before + [entry] + after;
    if before == [] {
      assert s == [entry] + after && s[1..] == after;
    } else {
      assert before[0].identifier != entry.identifier;
      assert !HasIdentifier(before[1..], entry.identifier) by {
        forall i | 0 <= i < |before| - 1 ensures before[1..][i].identifier != entry.identifier {
          assert before[1..][i] == before[i + 1];
        }
      }
      WithoutMiddle(before[1..], entry, after);
      assert s[1..] == before[1..] + [entry] + after;
      assert [before[0]] + (before[1..] + after) == before + after;
    }
  }

  lemma RemovesExactly(t: Table, key: Key, before: seq<Entry>, entry: Entry, after: seq<Entry>, other: Key)
    requires Lookup(t, key) == before + [entry] + after && !HasIdentifier(before, entry.identifier)
    ensures Lookup(RemoveEntry(t, key, entry.identifier), other) ==
      if other == key then before + after else Lookup(t, other)
  {
    assert Lookup(t, key)[|before|] == entry;
    WithoutMiddle(before, entry, after);
  }

  lemma AddsExactly(t: Table, key: Key, entry: Entry, other: Key)
    ensures Lookup(AddEntry(t, key, entry), other) ==
      if other == key && (forall e | e in Lookup(t, key) :: e.identifier != entry.identifier)
      then Lookup(t, key) + [entry] else Lookup(t, other)
  {
  }

  // ---- the dispatcher -----------------------------------------------------------------------

  ghost function Originals(trace: seq<Event>): nat {
    if trace == [] then 0
    else Originals(trace[..|trace| - 1]) + if trace[|trace| - 1].Original? then 1 else 0
  }

  lemma {:induction false} OriginalsConcat(a: seq<Event>, b: seq<Event>)
    ensures Originals(a + b) == Originals(a) + Originals(b)
    decreases |b|
  {
    if b == [] {
      assert a + b == a;
    } else {
      OriginalsConcat(a, b[..|b| - 1]);
      assert (a + b)[..|a + b| - 1] == a + b[..|b| - 1];
    }
  }

  lemma {:induction false} OriginalsInHooks(s: seq<Node>, steps: seq<Step>, hasReturn: bool, ret: Option<int>)
    ensures Originals(Hooks(s, steps, hasReturn, ret)) == 0
    decreases |s|
  {
    hide WriteReturns, Taken;
    if s != [] {
      var shorter := s[..|s| - 1];
      OriginalsInHooks(shorter, steps, hasReturn, ret);
      HooksNext(shorter, s[|s| - 1], steps, hasReturn, ret);
      assert s == shorter + [s[|s| - 1]];
      var hooks := Hooks(shorter, steps, hasReturn, ret);
      assert Hooks(s, steps, hasReturn, ret)[..|hooks|] == hooks;
    }
  }

  /** Something throws after the arguments were read: the function itself, storing the value the
      pre-hooks set, or, when post-hooks were found, reading the value the function returned. */
  predicate ThrowsLate(call: Call, d: Dispatched) {
    match call.fault
    case InOriginal => !d.blocked
    case InCopyTo => PreReturn(call, d).Some?
    case InCopyFrom => d.hasPost && call.hasReturn && PreReturn(call, d).None? && !d.blocked
    case _ => false
  }

  /** The function runs exactly once when it is not blocked, and not at all when it is, exactly unless
      something throws late; then it runs once more than that. */
  lemma RunsExactlyOnce(call: Call, hooked: bool, d: Dispatched, trace: seq<Event>)
    requires hooked ==> Behaved(call, d)
    requires trace == (if hooked then TraceOf(call, d) else []) + if hooked && !d.threw then [] else [Original]
    ensures Originals(trace) == (if hooked && d.blocked then 0 else 1) + if hooked && ThrowsLate(call, d) then 1 else 0
  {
    var last := if hooked && !d.threw then [] else [Original];
    if hooked {
      var ret := PostReturn(call, d);
      var later := WriteReturns(Taken(call.post, |d.post|), call.hasReturn, ret);
      OriginalsConcat(TraceOf(call, d), last);
      OriginalsConcat(PreTrace(call, d), PostTrace(call, d.post, d.unconditional, ret));
      OriginalsConcat(Hooks(d.post, call.post, call.hasReturn, ret),
                      Hooks(d.unconditional, call.postUnconditional, call.hasReturn, later));
      OriginalsConcat(Hooks(d.pre, call.pre, call.hasReturn, None),
                      if call.fault != InArgs && !d.blocked then [Original] else []);
      OriginalsInHooks(d.pre, call.pre, call.hasReturn, None);
      OriginalsInHooks(d.post, call.post, call.hasReturn, ret);
      OriginalsInHooks(d.unconditional, call.postUnconditional, call.hasReturn, later);
    } else {
      assert trace == last;
    }
    assert last == [] || last == [Original];
  }

  /** The last pre-hook which writes the return value decides it. */
  lemma {:induction false} LastWriteWins(steps: seq<Step>, i: nat, ret: Option<int>)
    requires i < |steps| && steps[i].write.Store?
    requires forall j | i < j < |steps| :: steps[j].write.Keep?
    ensures WriteReturns(steps, true, ret) == Some(steps[i].write.value)
    decreases |steps|
  {
    var last := |steps| - 1;
    if i < last {
      LastWriteWins(steps[..last], i, ret);
    }
  }

  /** Replacing one callback by one which throws changes nothing but its own verdict. */
  lemma ThrowingHookOnlyLosesItsVerdict(steps: seq<Step>, i: nat, hasReturn: bool)
    requires i < |steps|
    ensures var throwing := steps[i].(outcome := Throws);
      Blocks(steps[i := throwing], hasReturn) <==>
        exists j | 0 <= j < |steps| && j != i :: StepBlocks(steps[j], hasReturn)
  {
    var other := steps[i := steps[i].(outcome := Throws)];
    BlocksWhenOneDoes(other, hasReturn);
    assert !StepBlocks(other[i], hasReturn);
    if j :| 0 <= j < |steps| && j != i && StepBlocks(steps[j], hasReturn) {
      assert StepBlocks(other[j], hasReturn);
    }
    if j :| 0 <= j < |other| && StepBlocks(other[j], hasReturn) {
      assert StepBlocks(steps[j], hasReturn);
    }
  }
}
