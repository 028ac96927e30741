/** The console's history, updated in place. */
module History {
  import opened Arrays

  const MAX_HISTORY_ENTRIES := 50

  function Text(e: Element): string {
    if e.Zero? then "" else e.text
  }

  /** A string as it is stored: an empty one has no memory of its own. */
  function NewString(id: nat, line: string): Element {
    if line == "" then Zero else Live(id, line)
  }

  /** Where the line is, last; the length when it is not there. */
  function LastMatch(h: seq<Element>, line: string): (i: nat)
    ensures i <= |h| && (i < |h| ==> Text(h[i]) == line)
    ensures forall j | i < j < |h| :: Text(h[j]) != line
    ensures i == |h| ==> forall j | 0 <= j < |h| :: Text(h[j]) != line
  {
    if h == [] then 0
    else
      var last := |h| - 1;
      var before := LastMatch(h[..last], line);
      if Text(h[last]) == line then last
      else if before == last then |h|
      else before
  }

  /** The entry to drop: the line itself, or the oldest one when there is no room. */
  function Dropped(h: seq<Element>, line: string): (i: nat)
    ensures i <= |h|
  {
    if LastMatch(h, line) < |h| then LastMatch(h, line)
    else if |h| >= MAX_HISTORY_ENTRIES then 0
    else |h|
  }

  /** Entry `d`, if there is one, taken out, and `e` put at the end. */
  function Replaced(h: seq<Element>, d: nat, e: Element): seq<Element>
    requires d <= |h|
  {
    h[..d] + (if d < |h| then h[d + 1..] else []) + [e]
  }

  /** The history with the line at its end. */
  function Updated(h: seq<Element>, line: string, id: nat): seq<Element> {
    Replaced(h, Dropped(h, line), NewString(id, line))
  }

  // ---- the buffer ---------------------------------------------------------------------------

  /** The whole array, with the slots behind the entries, and every string destroyed so far. */
  datatype Buffer = Buffer(memory: seq<Element>, count: nat, hasBlock: bool, destroyed: seq<Element>) {
    predicate Valid() {
      count <= |memory|
    }

    function Entries(): seq<Element>
      requires Valid()
    {
      memory[..count]
    }
  }

  /** A line, the name of its copy, and whether the engine finds memory for the array and for the copy. */
  datatype Input = Input(line: string, id: nat, arrayAllocates: bool, stringAllocates: bool) {
    function Made(): Element {
      NewString(id, line)
    }
  }

  datatype UpdateOutcome = Done | ArrayFails(reason: Outcome) | StringFails(reason: Outcome)

  /** What making a copy of the line comes to: it is an array itself, with a null terminator. */
  function StringOutcome(input: Input): Outcome {
    if input.line == "" then Ok
    else if Grown(|input.line| + 1) > MAX_CAPACITY then LengthError
    else if !input.stringAllocates then AllocationFailed else Ok
  }

  function ArrayOutcome(b: Buffer, input: Input): Outcome
    requires b.Valid()
  {
    if Dropped(b.Entries(), input.line) < b.count || b.count < |b.memory| then Ok
    else if Grown(b.count + 1) > MAX_CAPACITY then LengthError
    else if !input.arrayAllocates then AllocationFailed else Ok
  }

  /** How the update ends: the array is resized first, and the line copied only after that. */
  function OutcomeOf(b: Buffer, input: Input): UpdateOutcome
    requires b.Valid()
  {
    if ArrayOutcome(b, input) != Ok then ArrayFails(ArrayOutcome(b, input))
    else if StringOutcome(input) != Ok then StringFails(StringOutcome(input))
    else Done
  }

  /** Moving the entries down reads one past the last, for which there must be a slot. */
  predicate SpareOk(b: Buffer, line: string)
    requires b.Valid()
  {
    Dropped(b.Entries(), line) + 1 < b.count ==> b.count < |b.memory|
  }

  /** Entry `d` destroyed, and those after it moved down: the last slot is up for the line. */
  function Vacated(b: Buffer, d: nat): (r: Buffer)
    requires b.Valid() && d < b.count && (d + 1 < b.count ==> b.count < |b.memory|)
    ensures r.Valid() && r.count == b.count && |r.memory| == |b.memory|
  {
    b.(memory := if d == b.count - 1 then b.memory[d := Zero]
                 else b.memory[..d] + b.memory[d + 1..b.count + 1] + b.memory[b.count..],
       destroyed := b.destroyed + [b.memory[d]])
  }

  /** One more slot, for which the array grows when it is full. */
  function Lengthened(b: Buffer, garbage: Element): (r: Buffer)
    requires b.Valid()
    ensures r.Valid() && r.count == b.count + 1
  {
    var memory := if b.count < |b.memory| then b.memory
                  else Extended(b.memory, b.hasBlock, Grown(b.count + 1), garbage);
    b.(memory := memory[b.count := Zero], count := b.count + 1, hasBlock := b.hasBlock || b.memory == [])
  }

  function Stored(b: Buffer, i: nat, input: Input): (r: Buffer)
    requires b.Valid() && i < b.count
    ensures r.Valid() && r.count == b.count
  {
    b.(memory := b.memory[i := input.Made()])
  }

  /** The buffer after an update, which may have stopped halfway. */
  function Advance(b: Buffer, input: Input, garbage: Element): (r: Buffer)
    requires b.Valid() && SpareOk(b, input.line)
    ensures r.Valid()
  {
    var d := Dropped(b.Entries(), input.line);
    if OutcomeOf(b, input).ArrayFails? then b
    else
      var ready := if d < b.count then Vacated(b, d) else Lengthened(b, garbage);
      if OutcomeOf(b, input).Done? then Stored(ready, ready.count - 1, input) else ready
  }

  ghost function BufferOf(history: WrappedArray): (b: Buffer)
    requires history.base.Valid()
    reads history, history.base, history.base.data
    ensures b.Valid() && b.count == history.base.count && |b.memory| == history.base.max
    ensures b.Entries() == history.base.Contents()
  {
    Buffer(history.base.Memory(), history.base.count, history.base.data != null, history.destroyed)
  }

  // ---- in place -----------------------------------------------------------------------------

  /** Copies `n` elements down by one; what is there may overlap. */
  method MoveDown(data: array<Element>, dest: nat, n: nat)
    requires dest + 1 + n <= data.Length
    modifies data
    ensures data[..dest] == old(data[..dest]) && data[dest..dest + n] == old(data[dest + 1..dest + 1 + n])
    ensures data[dest + n..] == old(data[dest + n..])
  {
    for i := 0 to n
      invariant data[..dest] == old(data[..dest])
      invariant data[dest..dest + i] == old(data[dest + 1..dest + 1 + i])
      invariant data[dest + i..] == old(data[dest + i..])
    {
      data[dest + i] := data[dest + i + 1];
    }
  }

  method FindLast(history: WrappedArray, line: string) returns (matching: nat)
    requires history.base.Valid()
    ensures matching == LastMatch(history.base.Contents(), line)
  {
    hide Text;
    var size := history.base.count;
    matching := size;
    ghost var h := history.base.Contents();
    for i := 0 to size
      invariant matching == (if LastMatch(h[..i], line) < i then LastMatch(h[..i], line) else size)
    {
      assert h[..i + 1][..i] == h[..i];
      if Text(history.base.data[i]) == line {
        matching := i;
      }
    }
    assert h[..size] == h;
  }

  /** Destroys an entry, and moves those after it down. */
  method Drop(history: WrappedArray, dropped: nat)
    requires history.base.Valid() && dropped < history.base.count
    requires dropped + 1 < history.base.count ==> history.base.count < history.base.max
    modifies history, history.base.data
    ensures history.base.Valid() && BufferOf(history) == Vacated(old(BufferOf(history)), dropped)
  {
    var size := history.base.count;
    ghost var memory := history.base.Memory();
    history.DestroyAt(dropped);
    if dropped != size - 1 {
      MoveDown(history.base.data, dropped, size - dropped);
      assert history.base.Memory() == memory[..dropped] + memory[dropped + 1..size + 1] + memory[size..];
    }
  }

  /** Drops the entry which has to go, if one has, and returns how many are left. */
  method MakeRoom(history: WrappedArray, line: string) returns (size: nat)
    requires history.base.Valid() && SpareOk(BufferOf(history), line)
    modifies history, history.base.data
    ensures history.base.Valid()
    ensures var (b, d) := old((BufferOf(history), Dropped(BufferOf(history).Entries(), line)));
      if d < b.count then BufferOf(history) == Vacated(b, d) && size == b.count - 1
      else BufferOf(history) == b && size == b.count
  {
    hide LastMatch, Text, Vacated;
    size := history.base.count;
    var matching := FindLast(history, line);
    var needsMove, dropped := true, matching;
    if matching == size {
      needsMove := size >= MAX_HISTORY_ENTRIES;
      dropped := 0;
    }
    if needsMove {
      Drop(history, dropped);
      size := size - 1;
    }
  }

  lemma ZeroedOne(m: seq<Element>, i: nat)
    requires i < |m|
    ensures Zeroed(m, i, i + 1) == m[i := Zero]
  {
  }

  /** Resizes the array to as many elements as it has, or to one more. */
  method ResizeTo(history: WrappedArray, n: nat, allocates: bool, garbage: Element) returns (r: Outcome)
    requires history.base.Valid() && history.base.count <= n <= history.base.count + 1
    modifies history, history.base, history.base.data
    ensures history.base.Valid() && (history.base.data == old(history.base.data) || fresh(history.base.data))
    ensures r == if n <= old(history.base.max) then Ok
                 else if Grown(n) > MAX_CAPACITY then LengthError
                 else if !allocates then AllocationFailed else Ok
    ensures BufferOf(history) ==
      if r == Ok && n > old(history.base.count) then Lengthened(old(BufferOf(history)), garbage)
      else old(BufferOf(history))
  {
    hide Grown, Extended, Zeroed, Resized;
    ghost var b := BufferOf(history);
    ghost var memory := if n <= |b.memory| then b.memory else Extended(b.memory, b.hasBlock, Grown(n), garbage);
    if n > b.count {
      ZeroedOne(memory, b.count);
    }
    assert b.destroyed + b.Entries()[Min(n, b.count)..] == b.destroyed;
    r := history.Resize(n, allocates, garbage);
    assert |history.base.Contents()| == if r == Ok then n else b.count;
  }

  /** Copies the line, which may fail, into a slot there is. */
  method SetAt(history: WrappedArray, i: nat, input: Input) returns (r: Outcome)
    requires history.base.Valid() && i < history.base.count
    modifies history.base.data
    ensures r == StringOutcome(input)
    ensures history.base.Valid()
    ensures BufferOf(history) == if r == Ok then Stored(old(BufferOf(history)), i, input) else old(BufferOf(history))
  {
    if input.line != "" {
      var size := |input.line| + 1;
      if size > MAX_CAPACITY {
        return LengthError;
      }
      var copy := new TArray();
      r := copy.Resize(size, input.stringAllocates, Zero);
      if r != Ok {
        return;
      }
    }
    history.base.data[i] := input.Made();
    r := Ok;
  }

  /** Removes the line if it is there, or the oldest entry if the history is full, and puts the line at
      the end.  Where memory runs out, what was done until then stays done. */
  method Update(history: WrappedArray, input: Input, garbage: Element) returns (r: UpdateOutcome)
    requires history.base.Valid() && SpareOk(BufferOf(history), input.line)
    modifies history, history.base, history.base.data
    ensures history.base.Valid() && (history.base.data == old(history.base.data) || fresh(history.base.data))
    ensures r == OutcomeOf(old(BufferOf(history)), input)
    ensures BufferOf(history) == Advance(old(BufferOf(history)), input, garbage)
  {
    hide LastMatch, Text, Dropped, Grown, StringOutcome, Vacated, Lengthened, Stored;
    var size := MakeRoom(history, input.line);
    var resized := ResizeTo(history, size + 1, input.arrayAllocates, garbage);
    if resized != Ok {
      return ArrayFails(resized);
    }
    var stored := SetAt(history, size, input);
    r := if stored == Ok then Done else StringFails(stored);
  }

  // ---- what the update is -------------------------------------------------------------------

  function Texts(h: seq<Element>): (ts: seq<string>)
    ensures |ts| == |h|
  {
    seq(|h|, i requires 0 <= i < |h| => Text(h[i]))
  }

  predicate Distinct(h: seq<Element>) {
    forall i, j | 0 <= i < j < |h| :: Text(h[i]) != Text(h[j])
  }

  function Without(ts: seq<string>, line: string): seq<string> {
    if ts == [] then []
    else Without(ts[..|ts| - 1], line) + if ts[|ts| - 1] == line then [] else [ts[|ts| - 1]]
  }

  function Newest(ts: seq<string>, n: nat): seq<string> {
    if |ts| > n then ts[|ts| - n..] else ts
  }

  /** Removing the line, adding it at the bottom and trimming the top: what the engine does one after
      the other, the update does at once. */
  lemma UpdateIsRemoveAddTrim(h: seq<Element>, line: string, id: nat)
    requires Distinct(h) && |h| <= MAX_HISTORY_ENTRIES
    ensures Texts(Updated(h, line, id)) == Newest(Without(Texts(h), line) + [line], MAX_HISTORY_ENTRIES)
  {
    var d, e := Dropped(h, line), NewString(id, line);
    assert Text(e) == line;
    TextsReplaced(h, d, e);
    if LastMatch(h, line) < |h| {
      WithoutMatch(h, line, d);
    } else {
      WithoutNone(h, line);
    }
    hide LastMatch, Text, NewString, Without, Replaced, Distinct;
    if LastMatch(h, line) == |h| >= MAX_HISTORY_ENTRIES {
      OldestTrimmed(h, line);
    } else if d == |h| {
      assert h[..d] == h;
    }
  }

  lemma TextsReplaced(h: seq<Element>, d: nat, e: Element)
    requires d <= |h|
    ensures |Replaced(h, d, e)| == |h| + if d < |h| then 0 else 1
    ensures Texts(Replaced(h, d, e)) == Texts(h[..d]) + (if d < |h| then Texts(h[d + 1..]) else []) + [Text(e)]
  {
    TextsConcat(h[..d], if d < |h| then h[d + 1..] else []);
    TextsConcat(h[..d] + (if d < |h| then h[d + 1..] else []), [e]);
    TextsOne(e);
  }

  lemma OldestTrimmed(h: seq<Element>, line: string)
    requires |h| == MAX_HISTORY_ENTRIES
    ensures Newest(Texts(h) + [line], MAX_HISTORY_ENTRIES) == Texts(h[..0]) + Texts(h[1..]) + [line]
  {
  }

  lemma TextsConcat(a: seq<Element>, b: seq<Element>)
    ensures Texts(a + b) == Texts(a) + Texts(b)
  {
  }

  lemma TextsOne(e: Element)
    ensures Texts([e]) == [Text(e)]
  {
  }

  lemma {:induction false} WithoutNone(h: seq<Element>, line: string)
    requires forall j | 0 <= j < |h| :: Text(h[j]) != line
    ensures Without(Texts(h), line) == Texts(h)
    decreases |h|
  {
    if h != [] {
      WithoutNone(h[..|h| - 1], line);
      WithoutNext(h, line);
    }
  }

  lemma WithoutNext(h: seq<Element>, line: string)
    requires h != []
    ensures var (init, last) := (h[..|h| - 1], h[|h| - 1]);
      && Texts(h) == Texts(init) + [Text(last)]
      && Without(Texts(h), line) == Without(Texts(init), line) + if Text(last) == line then [] else [Text(last)]
  {
  }

  lemma {:induction false} WithoutMatch(h: seq<Element>, line: string, i: nat)
    requires Distinct(h) && i < |h| && Text(h[i]) == line
    ensures Without(Texts(h), line) == Texts(h[..i]) + Texts(h[i + 1..])
    decreases |h|
  {
    hide Texts, Without, Text;
    var init, last := h[..|h| - 1], h[|h| - 1];
    WithoutNext(h, line);
    if i < |init| {
      WithoutMatch(init, line, i);
      assert init[..i] == h[..i] && h[i + 1..] == init[i + 1..] + [last];
      TextsConcat(init[i + 1..], [last]);
      TextsOne(last);
    } else {
      WithoutNone(init, line);
      assert h[i + 1..] == [];
      TextsConcat(init, []);
    }
  }

  /** No line is ever there twice, there are never more than fit, and the newest comes last. */
  lemma UpdateKeepsHistory(h: seq<Element>, line: string, id: nat)
    requires Distinct(h) && |h| <= MAX_HISTORY_ENTRIES
    ensures Distinct(Updated(h, line, id)) && |Updated(h, line, id)| <= MAX_HISTORY_ENTRIES
  {
  }

  // ---- what failing leaves -------------------------------------------------------------------

  /** What an update destroys. */
  function Gone(h: seq<Element>, line: string): seq<Element> {
    if Dropped(h, line) < |h| then [h[Dropped(h, line)]] else []
  }

  /** An update which gets all the memory it asks for leaves the new history, whatever the array was like. */
  lemma UpdatesEntries(b: Buffer, input: Input, garbage: Element)
    requires b.Valid() && SpareOk(b, input.line) && OutcomeOf(b, input).Done?
    ensures var after := Advance(b, input, garbage);
      && after.Entries() == Updated(b.Entries(), input.line, input.id)
      && after.destroyed == b.destroyed + Gone(b.Entries(), input.line)
  {
    hide LastMatch, Grown, StringOutcome, NewString, Extended;
  }

  /** When only the line cannot be copied, the entry to drop is gone already, and in place of the line
      there is an empty entry, or a second reference to whatever was in the spare slot. */
  lemma StringFailureLeaves(b: Buffer, input: Input, garbage: Element)
    requires b.Valid() && SpareOk(b, input.line) && OutcomeOf(b, input).StringFails?
    ensures var (h, d, after) := (b.Entries(), Dropped(b.Entries(), input.line), Advance(b, input, garbage));
      && after.Entries() == Replaced(h, d, if d + 1 < |h| then b.memory[|h|] else Zero)
      && after.destroyed == b.destroyed + Gone(h, input.line)
  {
    hide LastMatch, Grown, StringOutcome, NewString, Extended;
  }

  /** An update which fails leaves the history as it was exactly when it was the array which could not grow. */
  lemma UnchangedIffArrayFails(b: Buffer, input: Input, garbage: Element)
    requires b.Valid() && SpareOk(b, input.line) && !OutcomeOf(b, input).Done?
    ensures var after := Advance(b, input, garbage);
      && (after.Entries() == b.Entries() && after.destroyed == b.destroyed <==> OutcomeOf(b, input).ArrayFails?)
      && (OutcomeOf(b, input).ArrayFails? ==> after == b)
  {
    if OutcomeOf(b, input).StringFails? {
      StringFailureLeaves(b, input, garbage);
    }
  }

  /** Entering the older of two lines again while the engine is out of memory: it is lost. */
  lemma StringFailureLosesLine(garbage: Element)
    ensures var b := Buffer([Live(0, "a"), Live(1, "b"), Zero, Zero], 2, true, []);
      && SpareOk(b, "a") && OutcomeOf(b, Input("a", 2, true, false)) == StringFails(AllocationFailed)
      && Advance(b, Input("a", 2, true, false), garbage)
           == Buffer([Live(1, "b"), Zero, Zero, Zero], 2, true, [Live(0, "a")])
  {
    var b := Buffer([Live(0, "a"), Live(1, "b"), Zero, Zero], 2, true, []);
    assert b.Entries() == [Live(0, "a"), Live(1, "b")];
    assert LastMatch(b.Entries(), "a") == 0;
  }

  // ---- runs ---------------------------------------------------------------------------------

  /** Every update of a run has the spare slot it may need. */
  predicate SpareAll(b: Buffer, inputs: seq<Input>, garbage: Element)
    requires b.Valid()
    decreases |inputs|, 0
  {
    inputs == [] ||
    var init := inputs[..|inputs| - 1];
    SpareAll(b, init, garbage) && SpareOk(AdvanceAll(b, init, garbage), inputs[|inputs| - 1].line)
  }

  function AdvanceAll(b: Buffer, inputs: seq<Input>, garbage: Element): (r: Buffer)
    requires b.Valid() && SpareAll(b, inputs, garbage)
    ensures r.Valid()
    decreases |inputs|, 1
  {
    if inputs == [] then b
    else Advance(AdvanceAll(b, inputs[..|inputs| - 1], garbage), inputs[|inputs| - 1], garbage)
  }

  lemma {:induction false} SparePrefix(b: Buffer, inputs: seq<Input>, i: nat, garbage: Element)
    requires b.Valid() && SpareAll(b, inputs, garbage) && i <= |inputs|
    ensures SpareAll(b, inputs[..i], garbage)
    decreases |inputs|
  {
    if i < |inputs| {
      assert inputs[..|inputs| - 1][..i] == inputs[..i];
      SparePrefix(b, inputs[..|inputs| - 1], i, garbage);
    } else {
      assert inputs[..i] == inputs;
    }
  }

  lemma AdvanceNext(b: Buffer, inputs: seq<Input>, i: nat, garbage: Element)
    requires b.Valid() && SpareAll(b, inputs, garbage) && i < |inputs|
    ensures SpareAll(b, inputs[..i], garbage) && SpareAll(b, inputs[..i + 1], garbage)
    ensures SpareOk(AdvanceAll(b, inputs[..i], garbage), inputs[i].line)
    ensures AdvanceAll(b, inputs[..i + 1], garbage) == Advance(AdvanceAll(b, inputs[..i], garbage), inputs[i], garbage)
  {
    SparePrefix(b, inputs, i, garbage);
    SparePrefix(b, inputs, i + 1, garbage);
    assert inputs[..i + 1][..i] == inputs[..i];
  }

  /** Line after line, into any array, with memory running out at any of them. */
  method UpdateAll(history: WrappedArray, inputs: seq<Input>, garbage: Element)
    requires history.base.Valid() && SpareAll(BufferOf(history), inputs, garbage)
    modifies history, history.base, history.base.data
    ensures history.base.Valid() && BufferOf(history) == AdvanceAll(old(BufferOf(history)), inputs, garbage)
  {
    hide SpareOk, Advance, OutcomeOf;
    ghost var b := BufferOf(history);
    SparePrefix(b, inputs, 0, garbage);
    assert AdvanceAll(b, inputs[..0], garbage) == b;
    for i := 0 to |inputs|
      invariant history.base.Valid() && (history.base.data == old(history.base.data) || fresh(history.base.data))
      invariant SpareAll(b, inputs[..i], garbage) && BufferOf(history) == AdvanceAll(b, inputs[..i], garbage)
    {
      AdvanceNext(b, inputs, i, garbage);
      var r := Update(history, inputs[i], garbage);
    }
    assert inputs[..|inputs|] == inputs;
  }

  function Lines(inputs: seq<Input>): (ls: seq<string>)
    ensures |ls| == |inputs|
  {
    seq(|inputs|, i requires 0 <= i < |inputs| => inputs[i].line)
  }

  lemma LinesNext(inputs: seq<Input>)
    requires inputs != []
    ensures Lines(inputs) == Lines(inputs[..|inputs| - 1]) + [inputs[|inputs| - 1].line]
  {
  }

  function UpdatedAll(h: seq<Element>, inputs: seq<Input>): seq<Element> {
    if inputs == [] then h
    else Updated(UpdatedAll(h, inputs[..|inputs| - 1]), inputs[|inputs| - 1].line, inputs[|inputs| - 1].id)
  }

  function GoneAll(h: seq<Element>, inputs: seq<Input>): seq<Element> {
    if inputs == [] then []
    else
      var init := inputs[..|inputs| - 1];
      GoneAll(h, init) + Gone(UpdatedAll(h, init), inputs[|inputs| - 1].line)
  }

  predicate AllDone(b: Buffer, inputs: seq<Input>, garbage: Element)
    requires b.Valid() && SpareAll(b, inputs, garbage)
  {
    inputs == [] ||
    var init := inputs[..|inputs| - 1];
    AllDone(b, init, garbage) && OutcomeOf(AdvanceAll(b, init, garbage), inputs[|inputs| - 1]).Done?
  }

  /** With memory for the array and for the copy of each line, every update gets done. */
  lemma {:induction false} AffordableRunIsDone(b: Buffer, inputs: seq<Input>, garbage: Element)
    requires b.Valid() && SpareAll(b, inputs, garbage)
    requires forall i | 0 <= i < |inputs| :: inputs[i].arrayAllocates && StringOutcome(inputs[i]) == Ok
    ensures AllDone(b, inputs, garbage)
    decreases |inputs|
  {
    hide StringOutcome, LastMatch;
    if inputs != [] {
      AffordableRunIsDone(b, inputs[..|inputs| - 1], garbage);
    }
  }

  lemma {:induction false} RunUpdatesEntries(b: Buffer, inputs: seq<Input>, garbage: Element)
    requires b.Valid() && SpareAll(b, inputs, garbage) && AllDone(b, inputs, garbage)
    ensures AdvanceAll(b, inputs, garbage).Entries() == UpdatedAll(b.Entries(), inputs)
    ensures AdvanceAll(b, inputs, garbage).destroyed == b.destroyed + GoneAll(b.Entries(), inputs)
    decreases |inputs|
  {
    hide Updated, Advance, Gone, SpareOk, OutcomeOf;
    if inputs != [] {
      var init := inputs[..|inputs| - 1];
      RunUpdatesEntries(b, init, garbage);
      UpdatesEntries(AdvanceAll(b, init, garbage), inputs[|inputs| - 1], garbage);
    }
  }

  /** The lines in the order in which each was entered last. */
  function LastEntered(ts: seq<string>): seq<string> {
    if ts == [] then [] else Without(LastEntered(ts[..|ts| - 1]), ts[|ts| - 1]) + [ts[|ts| - 1]]
  }

  predicate NoneTwice(ts: seq<string>) {
    forall i, j | 0 <= i < j < |ts| :: ts[i] != ts[j]
  }

  lemma {:induction false} WithoutKeeps(ts: seq<string>, line: string)
    requires NoneTwice(ts)
    ensures NoneTwice(Without(ts, line)) && |Without(ts, line)| == |ts| - (if line in ts then 1 else 0)
    ensures forall t :: t in Without(ts, line) <==> t in ts && t != line
  {
    if ts != [] {
      var init, last := ts[..|ts| - 1], ts[|ts| - 1];
      WithoutKeeps(init, line);
      assert ts == init + [last];
      assert last !in init;
    }
  }

  lemma {:induction false} WithoutConcat(a: seq<string>, b: seq<string>, line: string)
    ensures Without(a + b, line) == Without(a, line) + Without(b, line)
    decreases |b|
  {
    if b == [] {
      assert a + b == a;
    } else {
      assert (a + b)[..|a + b| - 1] == a + b[..|b| - 1];
      WithoutConcat(a, b[..|b| - 1], line);
    }
  }

  /** Trimming before as well makes no difference. */
  lemma TrimTwice(ts: seq<string>, line: string, n: nat)
    requires NoneTwice(ts)
    ensures Newest(Without(Newest(ts, n), line) + [line], n) == Newest(Without(ts, line) + [line], n)
  {
    if |ts| > n {
      var a, b := ts[..|ts| - n], ts[|ts| - n..];
      assert ts == a + b;
      WithoutConcat(a, b, line);
      assert NoneTwice(b);
      WithoutKeeps(b, line);
      NewestOfBoth(Without(a, line), Without(b, line) + [line], n);
      assert Without(ts, line) + [line] == Without(a, line) + (Without(b, line) + [line]);
    }
  }

  lemma NewestOfBoth(a: seq<string>, b: seq<string>, n: nat)
    requires |b| >= n
    ensures Newest(a + b, n) == Newest(b, n)
  {
  }

  lemma {:induction false} LastEnteredNoneTwice(ts: seq<string>)
    ensures NoneTwice(LastEntered(ts))
  {
    if ts != [] {
      LastEnteredNoneTwice(ts[..|ts| - 1]);
      WithoutKeeps(LastEntered(ts[..|ts| - 1]), ts[|ts| - 1]);
    }
  }

  lemma EnteredNext(ts: seq<string>, line: string, n: nat)
    ensures Newest(Without(Newest(LastEntered(ts), n), line) + [line], n) == Newest(LastEntered(ts + [line]), n)
  {
    LastEnteredNoneTwice(ts);
    TrimTwice(LastEntered(ts), line, n);
    assert (ts + [line])[..|ts|] == ts;
  }

  lemma {:induction false} WithoutAbsent(ts: seq<string>, line: string)
    requires line !in ts
    ensures Without(ts, line) == ts
  {
    if ts != [] { WithoutAbsent(ts[..|ts| - 1], line); }
  }

  lemma {:induction false} AllLastEntered(ts: seq<string>)
    requires NoneTwice(ts)
    ensures LastEntered(ts) == ts
  {
    if ts != [] {
      AllLastEntered(ts[..|ts| - 1]);
      WithoutAbsent(ts[..|ts| - 1], ts[|ts| - 1]);
    }
  }

  lemma {:induction false} RunKeepsHistory(h: seq<Element>, inputs: seq<Input>)
    requires Distinct(h) && |h| <= MAX_HISTORY_ENTRIES
    ensures Distinct(UpdatedAll(h, inputs)) && |UpdatedAll(h, inputs)| <= MAX_HISTORY_ENTRIES
    decreases |inputs|
  {
    hide Updated, Distinct;
    if inputs != [] {
      var init, last := inputs[..|inputs| - 1], inputs[|inputs| - 1];
      RunKeepsHistory(h, init);
      UpdateKeepsHistory(UpdatedAll(h, init), last.line, last.id);
    }
  }

  /** After any run of lines, the history holds the fifty lines entered last, in the order in which each
      was entered last. */
  lemma {:induction false} RunKeepsNewestLines(h: seq<Element>, inputs: seq<Input>)
    requires Distinct(h) && |h| <= MAX_HISTORY_ENTRIES
    ensures Texts(UpdatedAll(h, inputs)) == Newest(LastEntered(Texts(h) + Lines(inputs)), MAX_HISTORY_ENTRIES)
    decreases |inputs|
  {
    hide Updated, Distinct, Without, Newest, Texts, LastEntered, Lines, NoneTwice;
    if inputs == [] {
      NothingEntered(h);
    } else {
      var init, last := inputs[..|inputs| - 1], inputs[|inputs| - 1];
      RunKeepsNewestLines(h, init);
      RunKeepsHistory(h, init);
      UpdateIsRemoveAddTrim(UpdatedAll(h, init), last.line, last.id);
      EnteredNext(Texts(h) + Lines(init), last.line, MAX_HISTORY_ENTRIES);
      LinesNext(inputs);
      assert Texts(h) + (Lines(init) + [last.line]) == (Texts(h) + Lines(init)) + [last.line];
    }
  }

  lemma NothingEntered(h: seq<Element>)
    requires Distinct(h) && |h| <= MAX_HISTORY_ENTRIES
    ensures Texts(h) == Newest(LastEntered(Texts(h) + Lines([])), MAX_HISTORY_ENTRIES)
  {
    AllLastEntered(Texts(h));
    assert Texts(h) + Lines([]) == Texts(h);
  }

  // ---- nothing leaks ------------------------------------------------------------------------

  /** Nothing but zeros behind the entries, and no block without any room. */
  predicate Clean(b: Buffer)
    requires b.Valid()
  {
    (b.hasBlock ==> b.memory != []) && forall i | b.count <= i < |b.memory| :: b.memory[i] == Zero
  }

  function MadeAll(b: Buffer, inputs: seq<Input>, garbage: Element): seq<Element>
    requires b.Valid() && SpareAll(b, inputs, garbage)
  {
    if inputs == [] then []
    else
      var (init, last) := (inputs[..|inputs| - 1], inputs[|inputs| - 1]);
      MadeAll(b, init, garbage) + if OutcomeOf(AdvanceAll(b, init, garbage), last).Done? then [last.Made()] else []
  }

  /** How often an element is in the history or was destroyed. */
  function Tally(b: Buffer, e: Element): nat
    requires b.Valid()
  {
    multiset(b.Entries())[e] + multiset(b.destroyed)[e]
  }

  lemma ReplacedTally(h: seq<Element>, d: nat, last: Element, e: Element)
    requires d <= |h|
    ensures multiset(Replaced(h, d, last))[e] + multiset(if d < |h| then [h[d]] else [])[e] ==
            multiset(h)[e] + multiset([last])[e]
  {
    if d < |h| {
      assert h == h[..d] + ([h[d]] + h[d + 1..]);
    } else {
      assert h[..d] + [] + [last] == h + [last];
    }
  }

  /** In a clean array, a line which cannot be copied leaves nothing in its place. */
  lemma CleanEntries(b: Buffer, input: Input, garbage: Element)
    requires b.Valid() && SpareOk(b, input.line) && Clean(b) && !OutcomeOf(b, input).ArrayFails?
    ensures var (h, after) := (b.Entries(), Advance(b, input, garbage));
      && after.Entries() ==
        Replaced(h, Dropped(h, input.line), if OutcomeOf(b, input).Done? then input.Made() else Zero)
      && after.destroyed == b.destroyed + Gone(h, input.line)
  {
    if OutcomeOf(b, input).Done? {
      UpdatesEntries(b, input, garbage);
    } else {
      StringFailureLeaves(b, input, garbage);
    }
    hide Advance;
  }

  lemma AdvanceKeepsClean(b: Buffer, input: Input, garbage: Element)
    requires b.Valid() && SpareOk(b, input.line) && Clean(b)
    ensures Clean(Advance(b, input, garbage))
  {
    hide LastMatch, Grown, StringOutcome, NewString;
  }

  lemma GoneTally(b: Buffer, after: Buffer, gone: seq<Element>, e: Element)
    requires b.Valid() && after.Valid() && after.destroyed == b.destroyed + gone
    ensures Tally(after, e) + multiset(b.Entries())[e] == Tally(b, e) + multiset(after.Entries())[e] + multiset(gone)[e]
  {
  }

  lemma AdvanceConserves(b: Buffer, input: Input, garbage: Element, e: Element)
    requires b.Valid() && SpareOk(b, input.line) && Clean(b) && e.Live?
    ensures Tally(Advance(b, input, garbage), e) ==
            Tally(b, e) + multiset(if OutcomeOf(b, input).Done? then [input.Made()] else [])[e]
  {
    hide Advance, Replaced, Dropped, NewString, SpareOk, Clean, OutcomeOf;
    if !OutcomeOf(b, input).ArrayFails? {
      var last := if OutcomeOf(b, input).Done? then input.Made() else Zero;
      CleanEntries(b, input, garbage);
      ReplacedTally(b.Entries(), Dropped(b.Entries(), input.line), last, e);
      GoneTally(b, Advance(b, input, garbage), Gone(b.Entries(), input.line), e);
    } else {
      UnchangedIffArrayFails(b, input, garbage);
    }
  }

  /** In any run, whatever fails in it, every string there was and every copy made is in the history or
      was destroyed, each once. */
  lemma {:induction false} RunConserves(b: Buffer, inputs: seq<Input>, garbage: Element, e: Element)
    requires b.Valid() && Clean(b) && SpareAll(b, inputs, garbage) && e.Live?
    ensures Clean(AdvanceAll(b, inputs, garbage))
    ensures Tally(AdvanceAll(b, inputs, garbage), e) == Tally(b, e) + multiset(MadeAll(b, inputs, garbage))[e]
    decreases |inputs|
  {
    hide Clean, Advance, OutcomeOf, SpareOk, Tally;
    if inputs != [] {
      var init, last := inputs[..|inputs| - 1], inputs[|inputs| - 1];
      RunConserves(b, init, garbage, e);
      AdvanceKeepsClean(AdvanceAll(b, init, garbage), last, garbage);
      AdvanceConserves(AdvanceAll(b, init, garbage), last, garbage, e);
    }
  }

  /** Only the empty line may be there more than once. */
  predicate NoRepeats(h: seq<Element>) {
    forall i, j | 0 <= i < j < |h| && Text(h[i]) == Text(h[j]) :: Text(h[i]) == ""
  }

  lemma ReplacedRepeatsNothing(h: seq<Element>, line: string, e: Element)
    requires NoRepeats(h) && Text(e) in {line, ""}
    ensures NoRepeats(Replaced(h, Dropped(h, line), e))
  {
  }

  lemma AdvanceRepeatsNothing(b: Buffer, input: Input, garbage: Element)
    requires b.Valid() && SpareOk(b, input.line) && Clean(b) && NoRepeats(b.Entries())
    requires b.count <= MAX_HISTORY_ENTRIES
    ensures NoRepeats(Advance(b, input, garbage).Entries()) && Advance(b, input, garbage).count <= MAX_HISTORY_ENTRIES
  {
    AdvanceSizes(b, input, garbage);
    hide Advance, Replaced, Dropped, SpareOk, Clean, OutcomeOf, NoRepeats;
    if !OutcomeOf(b, input).ArrayFails? {
      CleanEntries(b, input, garbage);
      ReplacedRepeatsNothing(b.Entries(), input.line, if OutcomeOf(b, input).Done? then input.Made() else Zero);
    } else {
      UnchangedIffArrayFails(b, input, garbage);
    }
  }

  /** In any run, whatever fails in it, there are never more than fifty entries, and the same line twice
      only if it is the empty one. */
  lemma {:induction false} RunRepeatsNothing(b: Buffer, inputs: seq<Input>, garbage: Element)
    requires b.Valid() && SpareAll(b, inputs, garbage) && Clean(b) && NoRepeats(b.Entries())
    requires b.count <= MAX_HISTORY_ENTRIES
    ensures var after := AdvanceAll(b, inputs, garbage);
      Clean(after) && NoRepeats(after.Entries()) && after.count <= MAX_HISTORY_ENTRIES
    decreases |inputs|
  {
    hide Clean, Advance, SpareOk, NoRepeats;
    if inputs != [] {
      var init, last := inputs[..|inputs| - 1], inputs[|inputs| - 1];
      RunRepeatsNothing(b, init, garbage);
      AdvanceKeepsClean(AdvanceAll(b, init, garbage), last, garbage);
      AdvanceRepeatsNothing(AdvanceAll(b, init, garbage), last, garbage);
    }
  }

  // ---- the spare slot -----------------------------------------------------------------------

  lemma AdvanceSizes(b: Buffer, input: Input, garbage: Element)
    requires b.Valid() && SpareOk(b, input.line)
    ensures var after := Advance(b, input, garbage);
      var grows := !OutcomeOf(b, input).ArrayFails? && Dropped(b.Entries(), input.line) == b.count;
      && after.count == b.count + (if grows then 1 else 0)
      && (grows ==> b.count < MAX_HISTORY_ENTRIES)
      && |after.memory| == if grows && b.count == |b.memory| then Grown(b.count + 1) else |b.memory|
  {
    hide LastMatch, Grown, StringOutcome, NewString, Extended;
  }

  /** With room for one more than ever fit, there always is a spare slot. */
  lemma {:induction false} AmpleRoom(b: Buffer, inputs: seq<Input>, garbage: Element)
    requires b.Valid() && b.count <= MAX_HISTORY_ENTRIES < |b.memory|
    ensures SpareAll(b, inputs, garbage)
    ensures var after := AdvanceAll(b, inputs, garbage);
      after.count <= MAX_HISTORY_ENTRIES && |after.memory| == |b.memory|
    decreases |inputs|
  {
    hide Advance, OutcomeOf, Dropped;
    if inputs != [] {
      var init, last := inputs[..|inputs| - 1], inputs[|inputs| - 1];
      AmpleRoom(b, init, garbage);
      AdvanceSizes(AdvanceAll(b, init, garbage), last, garbage);
    }
  }

  /** The capacity an array has after growing to `n` elements one at a time. */
  function CapacityAt(n: nat): nat {
    if n == 0 then 0 else if CapacityAt(n - 1) >= n then CapacityAt(n - 1) else Grown(n)
  }

  /** An array grown by the history alone has no slot to spare at exactly these lengths. */
  lemma SpareSlotMissing(n: nat)
    requires n <= MAX_HISTORY_ENTRIES
    ensures CapacityAt(n) == n <==> n in {0, 4, 22, 47}
  {
    CapacityStays(4, 1, n);
    CapacityStays(22, 5, n);
    CapacityStays(47, 23, n);
    CapacityStays(82, 48, n);
  }

  /** From where it is reached, a capacity lasts until it is used up. */
  lemma {:induction false} CapacityStays(cap: nat, from: nat, n: nat)
    requires (cap, from) in {(4, 1), (22, 5), (47, 23), (82, 48)}
    ensures from <= n <= cap ==> CapacityAt(n) == cap
    decreases cap, n
  {
    if from < n <= cap {
      CapacityStays(cap, from, n - 1);
    } else if n == from {
      match cap
      case 4 =>
      case 22 => CapacityStays(4, 1, 4);
      case 47 => CapacityStays(22, 5, 22);
      case _ => CapacityStays(47, 23, 47);
    }
  }

  const EMPTY := Buffer([], 0, false, [])

  /** Whatever happens in a run on a new array, its capacity follows from the number of entries. */
  lemma {:induction false} CapacityOfRun(inputs: seq<Input>, garbage: Element)
    requires SpareAll(EMPTY, inputs, garbage)
    ensures var after := AdvanceAll(EMPTY, inputs, garbage);
      |after.memory| == CapacityAt(after.count) && after.count <= MAX_HISTORY_ENTRIES
    decreases |inputs|
  {
    hide Advance, OutcomeOf, Dropped, SpareOk, Grown;
    if inputs != [] {
      var init, last := inputs[..|inputs| - 1], inputs[|inputs| - 1];
      CapacityOfRun(init, garbage);
      AdvanceSizes(AdvanceAll(EMPTY, init, garbage), last, garbage);
    }
  }

  /** After any run on a new array, entering a line goes past the end of the memory exactly when the line
      is there already, is not the last, and there are 4, 22 or 47 of them. */
  lemma PastTheEnd(inputs: seq<Input>, garbage: Element, line: string)
    requires SpareAll(EMPTY, inputs, garbage)
    ensures var b := AdvanceAll(EMPTY, inputs, garbage);
      !SpareOk(b, line) <==> LastMatch(b.Entries(), line) + 1 < b.count && b.count in {4, 22, 47}
  {
    hide CapacityAt, Grown, LastMatch, AdvanceAll;
    CapacityOfRun(inputs, garbage);
    SpareSlotMissing(AdvanceAll(EMPTY, inputs, garbage).count);
  }
}
