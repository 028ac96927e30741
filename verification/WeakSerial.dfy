/** The serial numbers of weak object pointers, with threads racing to give an object its own. */
module WeakSerial {
  datatype Option<T> = None | Some(value: T)

  /** A slot of the object array; `incarnation` counts the objects which lived in it. */
  datatype Slot = Slot(obj: int, serial: nat, incarnation: nat)

  /** A weak pointer, and the incarnation of the object it was made for. */
  datatype WeakPtr = WeakPtr(index: int, serial: nat, incarnation: nat)

  /** Where a thread is inside of `set_weak_object`. */
  datatype Thread =
    | Idle
    | ToLoad(index: nat, incarnation: nat)
    | ToIncrement(index: nat, incarnation: nat)
    | ToExchange(index: nat, incarnation: nat, serial: nat)
    | ToWrite(index: nat, incarnation: nat, serial: nat)

  /** The object array, the threads, and all weak pointers made so far. */
  datatype State = State(slots: seq<Slot>, master: nat, threads: seq<Thread>, made: seq<WeakPtr>)

  /** A thread starts or goes on, or the engine reuses a slot for another object. */
  datatype Event = Begin(thread: nat, index: nat) | Continue(thread: nat) | Recycle(index: nat, obj: int)

  predicate Busy(s: State, index: nat) {
    exists t | 0 <= t < |s.threads| :: !s.threads[t].Idle? && s.threads[t].index == index
  }

  function Step(s: State, e: Event): State {
    match e
    case Begin(t, index) =>
      if t < |s.threads| && s.threads[t].Idle? && index < |s.slots| then
        s.(threads := s.threads[t := ToLoad(index, s.slots[index].incarnation)])
      else s
    case Continue(t) => if t < |s.threads| then Advance(s, t) else s
    case Recycle(index, obj) =>
      // The object given to set_weak_object stays alive during the call
      if index < |s.slots| && !Busy(s, index) then
        s.(slots := s.slots[index := Slot(obj, 0, s.slots[index].incarnation + 1)])
      else s
  }

  function Advance(s: State, t: nat): State
    requires t < |s.threads|
  {
    match s.threads[t]
    case Idle => s
    case ToLoad(i, n) =>
      if i >= |s.slots| then s
      else if s.slots[i].serial == 0 then s.(threads := s.threads[t := ToIncrement(i, n)])
      else s.(threads := s.threads[t := ToWrite(i, n, s.slots[i].serial)])
    case ToIncrement(i, n) =>
      s.(master := s.master + 1, threads := s.threads[t := ToExchange(i, n, s.master + 1)])
    case ToExchange(i, n, serial) =>
      if i >= |s.slots| then s
      else if s.slots[i].serial == 0 then
        s.(slots := s.slots[i := s.slots[i].(serial := serial)], threads := s.threads[t := ToWrite(i, n, serial)])
      else s.(threads := s.threads[t := ToWrite(i, n, s.slots[i].serial)])
    case ToWrite(i, n, serial) =>
      s.(threads := s.threads[t := Idle], made := s.made + [WeakPtr(i, serial, n)])
  }

  function Run(s: State, events: seq<Event>): State {
    if events == [] then s else Step(Run(s, events[..|events| - 1]), events[|events| - 1])
  }

  /** No thread is at work, and the engine gave out each serial number so far at most once. */
  predicate Initial(s: State) {
    && (forall i | 0 <= i < |s.slots| :: s.slots[i].serial <= s.master)
    && (forall i, j | 0 <= i < j < |s.slots| :: s.slots[i].serial == s.slots[j].serial ==> s.slots[i].serial == 0)
    && (forall t | 0 <= t < |s.threads| :: s.threads[t].Idle?)
    && s.made == []
  }

  function GetWeakObject(slots: seq<Slot>, p: WeakPtr): Option<int> {
    if p.serial == 0 then None
    else if p.index < 0 || p.index >= |slots| then None
    else if p.serial != slots[p.index].serial then None
    else Some(slots[p.index].obj)
  }

  // ---- the invariant ------------------------------------------------------------------------

  /** Whose serial number each one ever given out is: a slot and an incarnation. */
  type Ledger = map<nat, (int, nat)>

  ghost predicate SlotOk(s: State, given: Ledger, i: nat)
    requires i < |s.slots|
  {
    var slot := s.slots[i];
    && (slot.serial != 0 ==> slot.serial in given && given[slot.serial] == (i, slot.incarnation))
    && (slot.serial == 0 ==> forall n | n in given :: given[n] != (i, slot.incarnation))
  }

  ghost predicate GivenOk(s: State, given: Ledger, n: nat)
    requires n in given
  {
    && 0 < n <= s.master && 0 <= given[n].0 < |s.slots| && given[n].1 <= s.slots[given[n].0].incarnation
    && forall m | m in given && given[m] == given[n] :: m == n
  }

  ghost predicate ThreadOk(s: State, given: Ledger, t: nat)
    requires t < |s.threads|
  {
    var thread := s.threads[t];
    && (!thread.Idle? ==> thread.index < |s.slots| && thread.incarnation == s.slots[thread.index].incarnation)
    && (thread.ToExchange? ==>
          && 0 < thread.serial <= s.master && thread.serial !in given
          && forall u | 0 <= u < |s.threads| && u != t && s.threads[u].ToExchange? ::
            s.threads[u].serial != thread.serial)
    && (thread.ToWrite? ==> thread.serial in given && given[thread.serial] == (thread.index, thread.incarnation))
  }

  ghost predicate Invariant(s: State, given: Ledger) {
    && (forall i | 0 <= i < |s.slots| :: SlotOk(s, given, i))
    && (forall n | n in given :: GivenOk(s, given, n))
    && (forall t | 0 <= t < |s.threads| :: ThreadOk(s, given, t))
    && (forall p | p in s.made :: p.serial in given && given[p.serial] == (p.index, p.incarnation))
  }

  /** A successful exchange gives a serial number out; nothing else does. */
  ghost function LedgerAfter(s: State, given: Ledger, e: Event): Ledger {
    if e.Continue? && e.thread < |s.threads| && s.threads[e.thread].ToExchange?
      && s.threads[e.thread].index < |s.slots| && s.slots[s.threads[e.thread].index].serial == 0 then
      given[s.threads[e.thread].serial := (s.threads[e.thread].index, s.threads[e.thread].incarnation)]
    else given
  }

  lemma RecycleKeepsInvariant(s: State, given: Ledger, index: nat, obj: int)
    requires Invariant(s, given) && index < |s.slots| && !Busy(s, index)
    ensures Invariant(Step(s, Recycle(index, obj)), given)
  {
    var after := Step(s, Recycle(index, obj));
    forall n | n in given ensures GivenOk(after, given, n) && given[n] != (index, after.slots[index].incarnation) {
      assert GivenOk(s, given, n);
    }
    forall i | 0 <= i < |after.slots| ensures SlotOk(after, given, i) { assert SlotOk(s, given, i); }
    forall t | 0 <= t < |after.threads| ensures ThreadOk(after, given, t) { assert ThreadOk(s, given, t); }
  }

  /** A step of one thread which gives no serial number out. */
  lemma ThreadKeepsInvariant(s: State, given: Ledger, t: nat, thread: Thread, after: State)
    requires Invariant(s, given) && t < |s.threads|
    requires after == s.(master := after.master, threads := s.threads[t := thread], made := after.made)
    requires after.master >= s.master && ThreadOk(after, given, t)
    requires thread.ToExchange? ==> thread.serial > s.master
    requires forall p | p in after.made && p !in s.made ::
      p.serial in given && given[p.serial] == (p.index, p.incarnation)
    ensures Invariant(after, given)
  {
    forall n | n in given ensures GivenOk(after, given, n) { assert GivenOk(s, given, n); }
    forall i | 0 <= i < |after.slots| ensures SlotOk(after, given, i) { assert SlotOk(s, given, i); }
    forall u | 0 <= u < |after.threads| ensures ThreadOk(after, given, u) { assert ThreadOk(s, given, u); }
  }

  lemma ExchangeKeepsInvariant(s: State, given: Ledger, t: nat)
    requires Invariant(s, given) && t < |s.threads| && s.threads[t].ToExchange?
    requires s.threads[t].index < |s.slots| && s.slots[s.threads[t].index].serial == 0
    ensures Invariant(Advance(s, t), LedgerAfter(s, given, Continue(t)))
  {
    var thread, after, more := s.threads[t], Advance(s, t), LedgerAfter(s, given, Continue(t));
    assert ThreadOk(s, given, t) && SlotOk(s, given, thread.index);
    forall n | n in more ensures GivenOk(after, more, n) { assert n in given ==> GivenOk(s, given, n); }
    forall i | 0 <= i < |after.slots| ensures SlotOk(after, more, i) { assert SlotOk(s, given, i); }
    forall u | 0 <= u < |after.threads| ensures ThreadOk(after, more, u) { assert ThreadOk(s, given, u); }
  }

  lemma NewSerialFresh(s: State, given: Ledger, t: nat, after: State)
    requires Invariant(s, given) && t < |s.threads| && s.threads[t].ToIncrement? && after == Advance(s, t)
    ensures ThreadOk(after, given, t)
  {
    assert ThreadOk(s, given, t);
    forall n | n in given ensures n <= s.master { assert GivenOk(s, given, n); }
    forall u | 0 <= u < |s.threads| ensures s.threads[u].ToExchange? ==> s.threads[u].serial <= s.master {
      assert ThreadOk(s, given, u);
    }
  }

  lemma StepKeepsInvariant(s: State, given: Ledger, e: Event)
    requires Invariant(s, given)
    ensures Invariant(Step(s, e), LedgerAfter(s, given, e))
  {
    hide Invariant;
    var after := Step(s, e);
    if after != s {
      match e
      case Recycle(index, obj) => RecycleKeepsInvariant(s, given, index, obj);
      case Begin(t, index) =>
        ThreadKeepsInvariant(s, given, t, after.threads[t], after);
      case Continue(t) =>
        if s.threads[t].ToExchange? && s.slots[s.threads[t].index].serial == 0 {
          ExchangeKeepsInvariant(s, given, t);
        } else {
          AdvanceOk(s, given, t);
          ThreadKeepsInvariant(s, given, t, after.threads[t], after);
        }
    }
  }

  lemma AdvanceOk(s: State, given: Ledger, t: nat)
    requires Invariant(s, given) && t < |s.threads| && Advance(s, t) != s
    requires s.threads[t].ToExchange? ==> s.slots[s.threads[t].index].serial != 0
    ensures ThreadOk(Advance(s, t), given, t)
    ensures forall p | p in Advance(s, t).made && p !in s.made ::
      p.serial in given && given[p.serial] == (p.index, p.incarnation)
  {
    assert ThreadOk(s, given, t) && SlotOk(s, given, s.threads[t].index);
    if s.threads[t].ToIncrement? { NewSerialFresh(s, given, t, Advance(s, t)); }
  }

  /** What the slots say about whose serial numbers there are. */
  lemma FirstLedger(slots: seq<Slot>) returns (given: Ledger)
    requires forall i, j | 0 <= i < j < |slots| :: slots[i].serial == slots[j].serial ==> slots[i].serial == 0
    ensures forall i | 0 <= i < |slots| && slots[i].serial != 0 ::
      slots[i].serial in given && given[slots[i].serial] == (i, slots[i].incarnation)
    ensures forall n | n in given ::
      n != 0 && exists i | 0 <= i < |slots| :: slots[i].serial == n && given[n] == (i, slots[i].incarnation)
  {
    given := map i | 0 <= i < |slots| && slots[i].serial != 0 :: slots[i].serial := (i, slots[i].incarnation);
  }

  lemma StartsWithInvariant(s: State) returns (given: Ledger)
    requires Initial(s)
    ensures Invariant(s, given)
  {
    given := FirstLedger(s.slots);
    forall n | n in given ensures GivenOk(s, given, n) {
      var i :| 0 <= i < |s.slots| && s.slots[i].serial == n && given[n] == (i, s.slots[i].incarnation);
    }
    forall i | 0 <= i < |s.slots| ensures SlotOk(s, given, i) {}
  }

  lemma {:induction false} RunKeepsInvariant(s: State, events: seq<Event>) returns (given: Ledger)
    requires Initial(s)
    ensures Invariant(Run(s, events), given)
    decreases |events|
  {
    given := StartsWithInvariant(s);
    if events != [] {
      var before := RunKeepsInvariant(s, events[..|events| - 1]);
      StepKeepsInvariant(Run(s, events[..|events| - 1]), before, events[|events| - 1]);
      given := LedgerAfter(Run(s, events[..|events| - 1]), before, events[|events| - 1]);
    }
  }

  // ---- what it is for -----------------------------------------------------------------------

  /** No two slots ever share a serial number. */
  lemma SerialsUnique(s: State, events: seq<Event>, i: nat, j: nat)
    requires Initial(s) && i < j < |Run(s, events).slots|
    ensures var slots := Run(s, events).slots; slots[i].serial == slots[j].serial ==> slots[i].serial == 0
  {
    var given := RunKeepsInvariant(s, events);
    assert SlotOk(Run(s, events), given, i) && SlotOk(Run(s, events), given, j);
  }

  /** All weak pointers made for one incarnation of an object hold the same serial number, and those for
      different ones different serial numbers, whatever threads made them. */
  lemma OneSerialPerObject(s: State, events: seq<Event>, p: WeakPtr, q: WeakPtr)
    requires Initial(s) && p in Run(s, events).made && q in Run(s, events).made
    ensures p.serial != 0
    ensures p.serial == q.serial <==> p.index == q.index && p.incarnation == q.incarnation
  {
    var given := RunKeepsInvariant(s, events);
    assert GivenOk(Run(s, events), given, p.serial) && GivenOk(Run(s, events), given, q.serial);
  }

  /** A weak pointer gives the slot's object exactly as long as that is the one it was made for; a
      reused slot is never mistaken for it. */
  lemma GetIsExact(s: State, events: seq<Event>, p: WeakPtr)
    requires Initial(s) && p in Run(s, events).made
    ensures var slots := Run(s, events).slots;
      && 0 <= p.index < |slots| && p.incarnation <= slots[p.index].incarnation
      && GetWeakObject(slots, p) ==
           if slots[p.index].incarnation == p.incarnation then Some(slots[p.index].obj) else None
  {
    var given := RunKeepsInvariant(s, events);
    assert GivenOk(Run(s, events), given, p.serial);
    assert SlotOk(Run(s, events), given, p.index);
    assert given[p.serial] == (p.index, p.incarnation);
  }

  // ---- progress -----------------------------------------------------------------------------

  /** How many steps a call has left at most. */
  function StepsLeft(t: Thread): nat {
    match t
    case Idle => 0
    case ToLoad(_, _) => 4
    case ToIncrement(_, _) => 3
    case ToExchange(_, _, _) => 2
    case ToWrite(_, _, _) => 1
  }

  /** How often a thread goes on. */
  function Turns(events: seq<Event>, t: nat): nat {
    if events == [] then 0
    else Turns(events[..|events| - 1], t) + if events[|events| - 1] == Continue(t) then 1 else 0
  }

  /** The call a thread was in is over, and made a pointer to the object it was for; or it is still on its
      way, with fewer steps left. */
  ghost predicate GoesOn(before: State, after: State, t: nat, steps: nat)
    requires t < |before.threads| == |after.threads| && !before.threads[t].Idle?
  {
    var (was, now) := (before.threads[t], after.threads[t]);
    && before.made <= after.made
    && if now.Idle? then
         exists k | |before.made| <= k < |after.made| ::
           after.made[k].index == was.index && after.made[k].incarnation == was.incarnation
       else
         now.index == was.index && now.incarnation == was.incarnation && StepsLeft(now) + steps <= StepsLeft(was)
  }

  lemma StepGoesOn(s: State, before: State, given: Ledger, t: nat, e: Event, steps: nat)
    requires Invariant(before, given) && (e.Begin? ==> e.thread != t)
    requires t < |s.threads| == |before.threads| && !s.threads[t].Idle? && GoesOn(s, before, t, steps)
    ensures |Step(before, e).threads| == |s.threads|
    ensures GoesOn(s, Step(before, e), t, steps + if e == Continue(t) then 1 else 0)
  {
    assert ThreadOk(before, given, t);
    var after := Step(before, e);
    assert before.made <= after.made;
    if before.threads[t].Idle? {
      var k :| |s.made| <= k < |before.made| && before.made[k].index == s.threads[t].index
               && before.made[k].incarnation == s.threads[t].incarnation;
      assert after.made[k] == before.made[k];
    } else if e == Continue(t) && before.threads[t].ToWrite? {
      assert after.made[|before.made|].index == s.threads[t].index;
    }
  }

  /** No call can be held up by others: after at most four steps of its own it returns, with a pointer to
      the object it was called for. */
  lemma {:induction false} EveryCallReturns(s: State, given: Ledger, t: nat, events: seq<Event>)
    returns (after: Ledger)
    requires Invariant(s, given) && t < |s.threads| && !s.threads[t].Idle?
    requires forall e | e in events && e.Begin? :: e.thread != t
    ensures Invariant(Run(s, events), after) && |Run(s, events).threads| == |s.threads|
    ensures GoesOn(s, Run(s, events), t, Turns(events, t))
    ensures Turns(events, t) >= 4 ==> Run(s, events).threads[t].Idle?
    decreases |events|
  {
    hide Invariant, Step;
    after := given;
    if events != [] {
      var init, last := events[..|events| - 1], events[|events| - 1];
      var before := EveryCallReturns(s, given, t, init);
      StepKeepsInvariant(Run(s, init), before, last);
      after := LedgerAfter(Run(s, init), before, last);
      StepGoesOn(s, Run(s, init), before, t, last, Turns(init, t));
    }
  }

  // ---- one call -----------------------------------------------------------------------------

  class FWeakObjectPtr {
    var objectIndex: int
    var objectSerialNumber: nat
  }

  /** What a call does to the machine above when no other thread interferes. */
  function Alone(slots: seq<Slot>, master: nat, index: nat): State {
    var s := Step(State(slots, master, [Idle], []), Begin(0, index));
    Step(Step(Step(Step(s, Continue(0)), Continue(0)), Continue(0)), Continue(0))
  }

  class GObjects {
    var slots: seq<Slot>
    var masterSerialNumber: nat

    method CompareExchange(index: nat, expected: nat, serial: nat) returns (ok: bool, seen: nat)
      requires index < |slots|
      modifies this`slots
      ensures seen == old(slots)[index].serial && ok == (seen == expected)
      ensures slots == if ok then old(slots)[index := old(slots)[index].(serial := serial)] else old(slots)
    {
      seen := slots[index].serial;
      ok := seen == expected;
      if ok {
        slots := slots[index := slots[index].(serial := serial)];
      }
    }

    /** Makes a weak pointer to the object in a slot, or to nothing. */
    method SetWeakObject(ptr: FWeakObjectPtr, index: Option<nat>)
      requires index.Some? ==> index.value < |slots|
      modifies this, ptr
      ensures index.None? ==>
        slots == old(slots) && masterSerialNumber == old(masterSerialNumber) &&
          GetWeakObject(slots, Pointer(ptr)) == None
      ensures index.Some? ==> var s := Alone(old(slots), old(masterSerialNumber), index.value);
        slots == s.slots && masterSerialNumber == s.master && s.made == [Pointer(ptr)] && s.threads == [Idle]
      ensures index.Some? ==> GetWeakObject(slots, Pointer(ptr)) == Some(slots[index.value].obj)
    {
      if index.None? {
        ptr.objectIndex, ptr.objectSerialNumber := -1, 0;
        return;
      }
      var i := index.value;
      ptr.objectIndex := i;
      var serial := slots[i].serial;
      if serial == 0 {
        masterSerialNumber := masterSerialNumber + 1;
        serial := masterSerialNumber;
        var ok, seen := CompareExchange(i, 0, serial);
        if !ok {
          serial := seen;
        }
      }
      ptr.objectSerialNumber := serial;
    }

    function Pointer(ptr: FWeakObjectPtr): WeakPtr
      reads this, ptr
    {
      WeakPtr(ptr.objectIndex, ptr.objectSerialNumber,
              if 0 <= ptr.objectIndex < |slots| then slots[ptr.objectIndex].incarnation else 0)
    }
  }
}
