/** Searching for many patterns at once: every search hangs off one byte all patterns share. */
module MultiSigscan {
  import opened Sigscan
  import opened ScanThreads

  const MIN_SIZE_PER_THREAD := 4 * 1024 * 1024
  const IGNORED: set<byte> := {0x00, 0x24, 0x48, 0xFF}

  /** A pattern together with where its search hangs off, and its result. */
  class MultiPattern {
    const bytes: seq<byte>
    const mask: seq<byte>
    const offset: int
    var startOffset: nat
    var result: nat

    constructor (p: Pattern)
      requires p.Valid()
      ensures AsPattern() == p && startOffset == 0 && result == 0
    {
      bytes, mask, offset, startOffset, result := p.bytes, p.mask, p.offset, 0, 0;
    }

    function AsPattern(): Pattern {
      Pattern(bytes, mask, offset)
    }

    /** The `i`-th byte is `b`, and must match exactly. */
    predicate Unmasked(i: nat, b: byte) {
      i < |bytes| == |mask| && mask[i] == 0xFF && bytes[i] == b
    }

    predicate FirstAt(i: nat, b: byte) {
      Unmasked(i, b) && forall j | 0 <= j < i :: !Unmasked(j, b)
    }

    /** How many of the first `n` bytes are an unmasked `b`. */
    function CountIn(n: nat, b: byte): nat {
      if n == 0 then 0 else CountIn(n - 1, b) + if Unmasked(n - 1, b) then 1 else 0
    }
  }

  // ---- choosing the byte --------------------------------------------------------------------

  predicate HasByte(p: MultiPattern, b: byte) {
    exists i | 0 <= i < |p.bytes| :: p.Unmasked(i, b)
  }

  function Saturate(n: nat): byte {
    if n < 255 then n else 255
  }

  /** How often `b` occurs unmasked in all patterns together. */
  function Total(ps: seq<MultiPattern>, b: byte): nat {
    if ps == [] then 0 else Total(ps[..|ps| - 1], b) + ps[|ps| - 1].CountIn(|ps[|ps| - 1].bytes|, b)
  }

  /** How many patterns have an unmasked `b`. */
  function WithByte(ps: seq<MultiPattern>, b: byte): (n: nat)
    ensures n <= |ps|
  {
    if ps == [] then 0 else WithByte(ps[..|ps| - 1], b) + if HasByte(ps[|ps| - 1], b) then 1 else 0
  }

  /** A byte all searches may hang off.  The counters saturate, so there is none for over 255 patterns. */
  predicate Eligible(ps: seq<MultiPattern>, b: byte) {
    |ps| == 0 || (|ps| <= 255 && b !in IGNORED && forall k | 0 <= k < |ps| :: HasByte(ps[k], b))
  }

  lemma {:induction false} WithByteAll(ps: seq<MultiPattern>, b: byte)
    ensures WithByte(ps, b) == |ps| <==> forall k | 0 <= k < |ps| :: HasByte(ps[k], b)
    decreases |ps|
  {
    if ps != [] {
      var last := |ps| - 1;
      WithByteAll(ps[..last], b);
      if forall k | 0 <= k < last :: HasByte(ps[..last][k], b) {
        assert forall k | 0 <= k < last :: ps[..last][k] == ps[k];
      } else {
        var k :| 0 <= k < last && !HasByte(ps[..last][k], b);
        assert !HasByte(ps[k], b);
      }
    }
  }

  lemma {:induction false} CountPositive(p: MultiPattern, n: nat, b: byte)
    ensures p.CountIn(n, b) > 0 <==> exists i | 0 <= i < n :: p.Unmasked(i, b)
    decreases n
  {
    if n > 0 { CountPositive(p, n - 1, b); }
  }

  lemma {:induction false} CountInIsCount(p: MultiPattern, n: nat, b: byte)
    ensures p.CountIn(n, b) == |set i: nat | i < n && p.Unmasked(i, b)|
    decreases n
  {
    if n > 0 {
      CountInIsCount(p, n - 1, b);
      var before, now := set i: nat | i < n - 1 && p.Unmasked(i, b), set i: nat | i < n && p.Unmasked(i, b);
      assert now == before + if p.Unmasked(n - 1, b) then {n - 1} else {};
    }
  }

  /** Each pattern adds the number of places where its byte is an unmasked `b`. */
  lemma TotalCounts(ps: seq<MultiPattern>, p: MultiPattern, b: byte)
    ensures Total([], b) == 0
    ensures Total(ps + [p], b) == Total(ps, b) + |set i: nat | i < |p.bytes| && p.Unmasked(i, b)|
  {
    CountInIsCount(p, |p.bytes|, b);
    assert (ps + [p])[..|ps|] == ps;
  }

  /** Counts one pattern's bytes, and notes which it has. */
  method CountPatternBytes(p: MultiPattern, byteCounts: array<byte>, ghost before: seq<MultiPattern>)
    returns (seen: array<bool>)
    requires |p.bytes| == |p.mask| && byteCounts.Length == 256
    requires forall b: byte :: byteCounts[b] == Saturate(Total(before, b))
    modifies byteCounts
    ensures fresh(seen) && seen.Length == 256 && forall b: byte :: seen[b] <==> HasByte(p, b)
    ensures forall b: byte :: byteCounts[b] == Saturate(Total(before + [p], b))
  {
    seen := new bool[256](_ => false);
    for i := 0 to |p.bytes|
      invariant forall b: byte :: byteCounts[b] == Saturate(Total(before, b) + p.CountIn(i, b))
      invariant forall b: byte :: seen[b] <==> p.CountIn(i, b) > 0
    {
      if p.mask[i] != 0xFF {
        continue;
      }
      var found := p.bytes[i];
      var count: nat := byteCounts[found];
      byteCounts[found] := Saturate(count + 1);
      seen[found] := true;
    }
    forall b: byte ensures seen[b] <==> HasByte(p, b) { CountPositive(p, |p.bytes|, b); }
    assert (before + [p])[..|before|] == before;
  }

  method CountPattern(p: MultiPattern, byteCounts: array<byte>, withByte: array<byte>, ghost before: seq<MultiPattern>)
    requires |p.bytes| == |p.mask| && byteCounts != withByte && byteCounts.Length == withByte.Length == 256
    requires forall b: byte ::
      byteCounts[b] == Saturate(Total(before, b)) && withByte[b] == Saturate(WithByte(before, b))
    modifies byteCounts, withByte
    ensures forall b: byte :: byteCounts[b] == Saturate(Total(before + [p], b))
    ensures forall b: byte :: withByte[b] == Saturate(WithByte(before + [p], b))
  {
    hide HasByte, Total;
    var seen := CountPatternBytes(p, byteCounts, before);
    assert (before + [p])[..|before|] == before;
    for i := 0 to 256
      invariant forall b: byte :: byteCounts[b] == Saturate(Total(before + [p], b))
      invariant forall b: byte :: seen[b] <==> HasByte(p, b)
      invariant forall b: byte | b < i :: withByte[b] == Saturate(WithByte(before + [p], b))
      invariant forall b: byte | b >= i :: withByte[b] == Saturate(WithByte(before, b))
    {
      if seen[i] {
        var count: nat := withByte[i];
        withByte[i] := Saturate(count + 1);
      }
    }
  }

  datatype Anchor = NoCommonByte | Anchor(b: byte, overscan: nat)

  /** `b` is the eligible byte which occurs least, and the first of those. */
  ghost predicate Best(ps: seq<MultiPattern>, b: byte) {
    && Eligible(ps, b)
    && forall c: byte | Eligible(ps, c) ::
         Saturate(Total(ps, b)) < Saturate(Total(ps, c)) || (Saturate(Total(ps, b)) == Saturate(Total(ps, c)) && b <= c)
  }

  /** The choice among the bytes counted. */
  method ChooseByte(n: nat, byteCounts: array<byte>, withByte: array<byte>) returns (found: bool, b: byte)
    requires byteCounts.Length == withByte.Length == 256
    ensures !found ==> forall c: byte :: withByte[c] < n
    ensures found ==> withByte[b] >= n && forall c: byte | withByte[c] >= n ::
      byteCounts[b] < byteCounts[c] || (byteCounts[b] == byteCounts[c] && b <= c)
  {
    b := 0;
    var least: nat := 0xFFFF_FFFF;
    for i := 0 to 256
      invariant least == 0xFFFF_FFFF ==> forall c: byte | c < i :: withByte[c] < n
      invariant least != 0xFFFF_FFFF ==> (
        && b < i && least == byteCounts[b] && withByte[b] >= n
        && forall c: byte | c < i && withByte[c] >= n ::
             byteCounts[b] < byteCounts[c] || (byteCounts[b] == byteCounts[c] && b <= c))
    {
      if withByte[i] < n {
        continue;
      }
      if byteCounts[i] < least {
        least := byteCounts[i];
        b := i;
      }
    }
    found := least != 0xFFFF_FFFF;
  }

  /** Every pattern's first unmasked `b`, and how far the longest pattern reaches past it. */
  ghost predicate Anchored(ps: seq<MultiPattern>, b: byte)
    reads ps
  {
    forall k | 0 <= k < |ps| :: ps[k].FirstAt(ps[k].startOffset, b)
  }

  function Tail(p: MultiPattern): int
    reads p
  {
    |p.bytes| - p.startOffset - 1
  }

  method SetStartOffset(p: MultiPattern, b: byte)
    requires |p.bytes| == |p.mask| && HasByte(p, b)
    modifies p`startOffset
    ensures p.FirstAt(p.startOffset, b)
  {
    for i := 0 to |p.bytes|
      invariant forall j | 0 <= j < i :: !p.Unmasked(j, b)
    {
      if p.mask[i] != 0xFF || p.bytes[i] != b {
        continue;
      }
      p.startOffset := i;
      break;
    }
  }

  method SetStartOffsets(ps: seq<MultiPattern>, b: byte) returns (overscan: nat)
    requires forall k | 0 <= k < |ps| :: |ps[k].bytes| == |ps[k].mask| && HasByte(ps[k], b)
    modifies ps
    ensures forall p | p in ps :: p.result == old(p.result)
    ensures Anchored(ps, b)
    ensures forall k | 0 <= k < |ps| :: Tail(ps[k]) <= overscan
    ensures overscan == 0 || exists k | 0 <= k < |ps| :: Tail(ps[k]) == overscan
  {
    hide HasByte, MultiPattern.CountIn, MultiPattern.Unmasked;
    overscan := 0;
    for k := 0 to |ps|
      invariant forall p | p in ps :: p.result == old(p.result)
      invariant Anchored(ps[..k], b)
      invariant forall j | 0 <= j < k :: Tail(ps[j]) <= overscan
      invariant overscan == 0 || exists j | 0 <= j < k :: Tail(ps[j]) == overscan
    {
      assert forall j | 0 <= j < k :: ps[..k][j] == ps[j];
      SetStartOffset(ps[k], b);
      var tail := |ps[k].bytes| - ps[k].startOffset - 1;
      overscan := if overscan < tail then tail else overscan;
    }
  }

  method CountBytes(ps: seq<MultiPattern>) returns (byteCounts: array<byte>, withByte: array<byte>)
    requires forall k | 0 <= k < |ps| :: |ps[k].bytes| == |ps[k].mask|
    ensures fresh(byteCounts) && fresh(withByte) && byteCounts != withByte
    ensures byteCounts.Length == withByte.Length == 256
    ensures forall b: byte :: byteCounts[b] == Saturate(Total(ps, b))
    ensures forall b: byte :: withByte[b] == Saturate(WithByte(ps, b))
  {
    byteCounts, withByte := new byte[256](_ => 0), new byte[256](_ => 0);
    for k := 0 to |ps|
      invariant forall b: byte :: byteCounts[b] == Saturate(Total(ps[..k], b))
      invariant forall b: byte :: withByte[b] == Saturate(WithByte(ps[..k], b))
    {
      assert ps[..k + 1] == ps[..k] + [ps[k]];
      CountPattern(ps[k], byteCounts, withByte, ps[..k]);
    }
    assert ps[..|ps|] == ps;
  }

  /** Fails exactly when no byte is eligible; else sets up every pattern to hang off the best byte. */
  method Preprocess(ps: seq<MultiPattern>) returns (r: Anchor)
    requires forall k | 0 <= k < |ps| :: |ps[k].bytes| == |ps[k].mask|
    modifies ps
    ensures forall p | p in ps :: p.result == old(p.result)
    ensures r.NoCommonByte? <==> forall b: byte :: !Eligible(ps, b)
    ensures |ps| > 255 ==> r.NoCommonByte?
    ensures r.NoCommonByte? ==> forall p | p in ps :: p.startOffset == old(p.startOffset)
    ensures r.Anchor? ==> Best(ps, r.b) && Anchored(ps, r.b)
    ensures r.Anchor? ==> forall k | 0 <= k < |ps| :: Tail(ps[k]) <= r.overscan
    ensures r.Anchor? ==> r.overscan == 0 || exists k | 0 <= k < |ps| :: Tail(ps[k]) == r.overscan
  {
    hide HasByte, Total, MultiPattern.CountIn, MultiPattern.FirstAt;
    var byteCounts, withByte := CountBytes(ps);
    withByte[0x00], withByte[0x24], withByte[0x48], withByte[0xFF] := 0, 0, 0, 0;
    var found, b := ChooseByte(|ps|, byteCounts, withByte);
    forall b: byte ensures withByte[b] >= |ps| <==> Eligible(ps, b) { WithByteAll(ps, b); }
    if !found {
      return NoCommonByte;
    }
    var overscan := SetStartOffsets(ps, b);
    r := Anchor(b, overscan);
  }

  // ---- one thread ---------------------------------------------------------------------------

  /** What a thread looks for: a pattern, and where in it the shared byte is. */
  datatype Target = Target(pattern: Pattern, startOffset: nat)

  function TargetOf(p: MultiPattern): Target
    reads p
  {
    Target(p.AsPattern(), p.startOffset)
  }

  function Targets(ps: seq<MultiPattern>): (ts: seq<Target>)
    reads ps
    ensures |ts| == |ps| && forall k | 0 <= k < |ps| :: ts[k] == TargetOf(ps[k])
  {
    seq(|ps|, k requires 0 <= k < |ps| reads ps => TargetOf(ps[k]))
  }

  function Results(ps: seq<MultiPattern>): (r: seq<nat>)
    reads ps
    ensures |r| == |ps| && forall k | 0 <= k < |ps| :: r[k] == ps[k].result
  {
    seq(|ps|, k requires 0 <= k < |ps| reads ps => ps[k].result)
  }

  /** `v` is the result of a match whose anchor lies in [lo, hi). */
  ghost predicate FoundIn(mem: Memory, t: Target, lo: int, hi: int, v: int) {
    && t.pattern.Valid()
    && lo <= v - t.pattern.offset + t.startOffset < hi
    && MatchesAt(mem, t.pattern, v - t.pattern.offset)
  }

  /** `after` is the least of `before`, when set, and all matches with their anchor in [lo, hi). */
  ghost predicate Merged(mem: Memory, t: Target, lo: int, hi: int, before: nat, after: nat) {
    && (after == 0 <==> before == 0 && forall v :: !FoundIn(mem, t, lo, hi, v))
    && (after != 0 ==> (after == before || FoundIn(mem, t, lo, hi, after)))
    && (before != 0 ==> after <= before)
    && (forall v | FoundIn(mem, t, lo, hi, v) :: after <= v)
  }

  ghost predicate AllMerged(mem: Memory, ts: seq<Target>, lo: int, hi: int, before: seq<nat>, after: seq<nat>) {
    && |ts| == |before| == |after|
    && forall k | 0 <= k < |ts| :: Merged(mem, ts[k], lo, hi, before[k], after[k])
  }

  /** The stores a thread attempts are exactly the matches with their anchor in [lo, hi). */
  ghost predicate Finds(mem: Memory, ts: seq<Target>, lo: int, hi: int, work: seq<Commit>) {
    forall c: Commit :: c in work <==> c.slot < |ts| && FoundIn(mem, ts[c.slot], lo, hi, c.value)
  }

  /** All hang off `b`, and no match has an address which is not positive. */
  predicate Ready(ts: seq<Target>, b: byte, start: int) {
    forall k | 0 <= k < |ts| ::
      && ts[k].pattern.Valid() && ts[k].startOffset < |ts[k].pattern.bytes| <= start + ts[k].pattern.offset
      && ts[k].pattern.bytes[ts[k].startOffset] == b && ts[k].pattern.mask[ts[k].startOffset] == 0xFF
  }

  predicate Distinct(ps: seq<MultiPattern>) {
    forall j, k | 0 <= j < k < |ps| :: ps[j] != ps[k]
  }

  lemma MergedTwice(mem: Memory, t: Target, lo: int, m1: int, m2: int, hi: int, a: nat, b: nat, c: nat)
    requires lo <= m2 <= m1 <= hi
    requires Merged(mem, t, lo, m1, a, b) && Merged(mem, t, m2, hi, b, c)
    ensures Merged(mem, t, lo, hi, a, c)
  {
    hide MatchesAt;
    forall v ensures FoundIn(mem, t, lo, hi, v) <==> FoundIn(mem, t, lo, m1, v) || FoundIn(mem, t, m2, hi, v) {}
  }

  lemma MergedNothing(mem: Memory, t: Target, lo: int, hi: int, r: nat)
    requires forall v :: !FoundIn(mem, t, lo, hi, v)
    ensures Merged(mem, t, lo, hi, r, r)
  {
  }

  lemma AllMergedTwice(mem: Memory, ts: seq<Target>, lo: int, m1: int, m2: int, hi: int,
                       a: seq<nat>, b: seq<nat>, c: seq<nat>)
    requires lo <= m2 <= m1 <= hi
    requires AllMerged(mem, ts, lo, m1, a, b) && AllMerged(mem, ts, m2, hi, b, c)
    ensures AllMerged(mem, ts, lo, hi, a, c)
  {
    hide Merged;
    forall k | 0 <= k < |ts| ensures Merged(mem, ts[k], lo, hi, a[k], c[k]) {
      MergedTwice(mem, ts[k], lo, m1, m2, hi, a[k], b[k], c[k]);
    }
  }

  lemma FindsJoin(mem: Memory, ts: seq<Target>, lo: int, mid: int, hi: int, w1: seq<Commit>, w2: seq<Commit>)
    requires lo <= mid <= hi && Finds(mem, ts, lo, mid, w1) && Finds(mem, ts, mid, hi, w2)
    ensures Finds(mem, ts, lo, hi, w1 + w2)
  {
  }

  /** A match has the shared byte at its anchor, so only the places where that byte is need looking at. */
  lemma NoAnchorNoMatch(mem: Memory, ts: seq<Target>, b: byte, start: int, lo: int, hi: int, r: seq<nat>)
    requires Ready(ts, b, start) && |r| == |ts| && forall i | lo <= i < hi :: mem(i) != b
    ensures AllMerged(mem, ts, lo, hi, r, r) && Finds(mem, ts, lo, hi, [])
  {
    forall k, v | 0 <= k < |ts| ensures !FoundIn(mem, ts[k], lo, hi, v) {
      var p, so := ts[k].pattern, ts[k].startOffset;
      if lo <= v - p.offset + so < hi {
        UnmaskedByte(mem(v - p.offset + so));
        assert And(mem(v - p.offset + so), p.mask[so]) != p.bytes[so];
      }
    }
    hide FoundIn;
    forall k | 0 <= k < |ts| ensures Merged(mem, ts[k], lo, hi, r[k], r[k]) {
      MergedNothing(mem, ts[k], lo, hi, r[k]);
    }
  }

  method Find(mem: Memory, pos: int, end: int, b: byte) returns (at: int)
    requires pos <= end
    ensures pos <= at <= end && (at < end ==> mem(at) == b) && forall i | pos <= i < at :: mem(i) != b
  {
    at := pos;
    while at < end && mem(at) != b
      invariant pos <= at <= end && forall i | pos <= i < at :: mem(i) != b
    {
      at := at + 1;
    }
  }

  method Equal(mem: Memory, p: MultiPattern, at: int) returns (equal: bool)
    requires |p.bytes| == |p.mask|
    ensures equal <==> MatchesAt(mem, TargetOf(p).pattern, at)
  {
    ghost var t := TargetOf(p).pattern;
    for j := 0 to |p.bytes|
      invariant forall i | 0 <= i < j :: And(mem(at + i), t.mask[i]) == t.bytes[i]
    {
      if And(mem(at + j), p.mask[j]) != p.bytes[j] {
        assert And(mem(at + j), t.mask[j]) != t.bytes[j];
        return false;
      }
    }
    return true;
  }

  /** Checks one pattern at an anchor, and stores the result when it is the lowest so far. */
  method TryPattern(mem: Memory, p: MultiPattern, at: int) returns (found: bool)
    requires |p.bytes| == |p.mask| && p.startOffset < at + p.offset
    modifies p`result
    ensures Merged(mem, TargetOf(p), at, at + 1, old(p.result), p.result)
    ensures found ==> FoundIn(mem, TargetOf(p), at, at + 1, at - p.startOffset + p.offset)
    ensures forall v, hi | hi == at + 1 && FoundIn(mem, TargetOf(p), at, hi, v) ::
      found && v == at - p.startOffset + p.offset
  {
    var sigStart := at - p.startOffset;
    found := Equal(mem, p, sigStart);
    hide MatchesAt;
    var result := sigStart + p.offset;
    assert found <==> FoundIn(mem, TargetOf(p), at, at + 1, result) by {
      assert result - p.offset == sigStart;
    }
    if found {
      p.result := Pick(p.result, result);
    }
  }

  /** Checks every pattern at an anchor. */
  method TryPatterns(mem: Memory, ps: seq<MultiPattern>, b: byte, at: int) returns (ghost work: seq<Commit>)
    requires Ready(Targets(ps), b, at) && Distinct(ps)
    modifies ps
    ensures Targets(ps) == old(Targets(ps))
    ensures AllMerged(mem, Targets(ps), at, at + 1, old(Results(ps)), Results(ps))
    ensures Finds(mem, Targets(ps), at, at + 1, work)
  {
    hide Merged, FoundIn, Targets, Results;
    work := [];
    ghost var ts, before, end := Targets(ps), Results(ps), at + 1;
    for k := 0 to |ps|
      invariant forall j | 0 <= j < |ps| :: TargetOf(ps[j]) == ts[j]
      invariant forall j | 0 <= j < k :: Merged(mem, ts[j], at, end, before[j], ps[j].result)
      invariant forall j | k <= j < |ps| :: ps[j].result == before[j]
      invariant Finds(mem, ts[..k], at, end, work)
    {
      assert TargetOf(ps[k]) == ts[k];
      var found := TryPattern(mem, ps[k], at);
      if found {
        ghost var commit := Commit(k, at - ps[k].startOffset + ps[k].offset);
        assert forall c :: c in work + [commit] <==> c in work || c == commit;
        work := work + [commit];
      }
    }
    assert ts[..|ps|] == ts;
    assert Targets(ps) == ts;
  }

  /** One thread, run alone: merges exactly the matches which have their anchor in [start, end). */
  method MultiSigscanThread(mem: Memory, start: int, end: int, ps: seq<MultiPattern>, b: byte)
    returns (ghost work: seq<Commit>)
    requires start <= end && Ready(Targets(ps), b, start) && Distinct(ps)
    modifies ps
    ensures Targets(ps) == old(Targets(ps))
    ensures AllMerged(mem, Targets(ps), start, end, old(Results(ps)), Results(ps))
    ensures Finds(mem, Targets(ps), start, end, work)
  {
    hide AllMerged, Finds, Distinct, Targets, Results;
    var pos := start;
    work := [];
    ghost var ts, before := Targets(ps), Results(ps);
    NoAnchorNoMatch(mem, ts, b, start, pos, pos, before);
    while true
      invariant start <= pos <= end
      invariant Targets(ps) == ts
      invariant AllMerged(mem, ts, start, pos, before, Results(ps))
      invariant Finds(mem, ts, start, pos, work)
      decreases end - pos
    {
      var at := Find(mem, pos, end, b);
      ghost var now := Results(ps);
      NoAnchorNoMatch(mem, ts, b, start, pos, at, now);
      AllMergedTwice(mem, ts, start, pos, pos, at, before, now, now);
      FindsJoin(mem, ts, start, pos, at, work, []);
      work := work + [];
      if at == end {
        return;
      }
      ghost var more := TryPatterns(mem, ps, b, at);
      pos := at + 1;
      AllMergedTwice(mem, ts, start, at, at, pos, before, now, Results(ps));
      FindsJoin(mem, ts, start, at, pos, work, more);
      work := work + more;
    }
  }

  // ---- all threads --------------------------------------------------------------------------

  ghost predicate InSome(works: seq<seq<Commit>>, c: Commit) {
    exists t | 0 <= t < |works| :: c in works[t]
  }

  /** Together, the threads attempt to store exactly the matches with their anchor in [lo, hi). */
  ghost predicate Cover(mem: Memory, ts: seq<Target>, lo: int, hi: int, works: seq<seq<Commit>>) {
    forall c: Commit :: InSome(works, c) <==> c.slot < |ts| && FoundIn(mem, ts[c.slot], lo, hi, c.value)
  }

  lemma CoverMore(mem: Memory, ts: seq<Target>, lo: int, m1: int, m2: int, hi: int,
                  works: seq<seq<Commit>>, work: seq<Commit>)
    requires lo <= m2 <= m1 <= hi && Cover(mem, ts, lo, m1, works) && Finds(mem, ts, m2, hi, work)
    ensures Cover(mem, ts, lo, hi, works + [work])
  {
    hide MatchesAt;
    forall c ensures InSome(works + [work], c) <==> InSome(works, c) || c in work {
      if c in work { assert c in (works + [work])[|works|]; }
      if t :| 0 <= t < |works| && c in works[t] { assert c in (works + [work])[t]; }
    }
  }

  function Zeros(n: nat): (z: seq<nat>)
    ensures |z| == n && forall k | 0 <= k < n :: z[k] == 0
  {
    seq(n, _ => 0)
  }

  /** However the threads interleave, they leave what running them one after another leaves. */
  lemma AnySchedule(mem: Memory, ts: seq<Target>, b: byte, lo: int, hi: int, works: seq<seq<Commit>>,
                    schedule: seq<Choice>, after: seq<nat>)
    requires Ready(ts, b, lo) && Cover(mem, ts, lo, hi, works)
    requires AllMerged(mem, ts, lo, hi, Zeros(|ts|), after)
    requires Finished(Run(Start(|ts|, works), schedule))
    ensures Run(Start(|ts|, works), schedule).results == after
  {
    hide MatchesAt, Run, Start, Finished;
    forall t, c | 0 <= t < |works| && c in works[t] ensures c.slot < |ts| && c.value > 0 {
      assert InSome(works, c);
    }
    var results := Run(Start(|ts|, works), schedule).results;
    forall k | 0 <= k < |ts| ensures |results| == |ts| && results[k] == after[k] {
      JoinedResult(|ts|, works, schedule, k);
      assert Merged(mem, ts[k], lo, hi, 0, after[k]);
      if after[k] != 0 {
        assert InSome(works, Commit(k, after[k]));
      }
      if results[k] != 0 {
        assert InSome(works, Commit(k, results[k]));
      }
    }
    RunKeepsInvariant(|ts|, works, schedule);
  }

  /** ... and wherever they are, they can get there. */
  lemma ScheduleFinishes(mem: Memory, ts: seq<Target>, b: byte, lo: int, hi: int, works: seq<seq<Commit>>,
                         begun: seq<Choice>, after: seq<nat>) returns (rest: seq<Choice>)
    requires Ready(ts, b, lo) && Cover(mem, ts, lo, hi, works)
    requires AllMerged(mem, ts, lo, hi, Zeros(|ts|), after)
    ensures Finished(Run(Start(|ts|, works), begun + rest))
    ensures Run(Start(|ts|, works), begun + rest).results == after
  {
    hide MatchesAt, Run, Start, Finished;
    forall t, c | 0 <= t < |works| && c in works[t] ensures c.slot < |ts| && c.value > 0 {
      assert InSome(works, c);
    }
    RunKeepsInvariant(|ts|, works, begun);
    rest := CanFinish(Run(Start(|ts|, works), begun));
    RunConcat(Start(|ts|, works), begun, rest);
    AnySchedule(mem, ts, b, lo, hi, works, begun + rest, after);
  }

  lemma Scales(a: nat, b: nat, c: nat)
    requires b <= c
    ensures a * b <= a * c
  {
  }

  /** Splitting the region never takes more threads than the hardware has. */
  lemma ThreadCount(size: nat, threads: nat, perThread: nat, started: nat)
    requires 0 < threads <= perThread && size / threads <= perThread && started * perThread < size
    ensures started <= threads
  {
    Scales(threads, size / threads, perThread);
    assert perThread * (threads + 1) == threads * perThread + perThread;
    assert size < perThread * (threads + 1);
    if started > threads {
      Scales(perThread, threads + 1, started);
    }
  }

  lemma AnchoredReady(ps: seq<MultiPattern>, b: byte, start: int)
    requires Anchored(ps, b)
    requires forall k | 0 <= k < |ps| :: |ps[k].bytes| == |ps[k].mask| && |ps[k].bytes| <= start + ps[k].offset
    ensures Ready(Targets(ps), b, start)
  {
  }

  lemma NothingCovered(mem: Memory, ts: seq<Target>, at: int, results: seq<nat>)
    requires |results| == |ts|
    ensures AllMerged(mem, ts, at, at, results, results) && Cover(mem, ts, at, at, [])
  {
  }

  function Least(a: int, b: int): int {
    if a < b then a else b
  }

  function Times(n: nat, perThread: nat): nat {
    n * perThread
  }

  lemma TimesNext(n: nat, perThread: nat)
    ensures Times(0, perThread) == 0 && Times(n + 1, perThread) == Times(n, perThread) + perThread
  {
  }

  lemma ReadyLater(ts: seq<Target>, b: byte, start: int, pos: int)
    requires Ready(ts, b, start) && start <= pos
    ensures Ready(ts, b, pos)
  {
  }

  /** Starts a thread for each stretch of the region.  They are run one after another here; `works` is
      what each attempts to store, so that `AnySchedule` speaks of every way of interleaving them. */
  method RunThreads(mem: Memory, start: int, size: nat, perThread: nat, overscan: nat, ps: seq<MultiPattern>, b: byte)
    returns (ghost works: seq<seq<Commit>>)
    requires Distinct(ps) && perThread > 0 && Ready(Targets(ps), b, start)
    modifies ps
    ensures Targets(ps) == old(Targets(ps))
    ensures AllMerged(mem, Targets(ps), start, start + size, old(Results(ps)), Results(ps))
    ensures Cover(mem, Targets(ps), start, start + size, works)
    ensures works != [] ==> Times(|works| - 1, perThread) < size
  {
    hide AllMerged, Cover, Finds, Ready, Distinct, Times, Targets, Results;
    works := [];
    TimesNext(0, perThread);
    var offset, end := 0, start + size;
    ghost var ts, before, covered := Targets(ps), Results(ps), start;
    NothingCovered(mem, ts, start, before);
    while offset < size
      invariant offset == Times(|works|, perThread)
      invariant works != [] ==> Times(|works| - 1, perThread) < size
      invariant covered == if offset == 0 then start else Least(start + offset + overscan, end)
      invariant Targets(ps) == ts
      invariant AllMerged(mem, ts, start, covered, before, Results(ps))
      invariant Cover(mem, ts, start, covered, works)
      decreases size - offset
    {
      var pos := start + offset;
      var threadEnd := Least(pos + perThread + overscan, end);
      ghost var now := Results(ps);
      ReadyLater(ts, b, start, pos);
      ghost var work := MultiSigscanThread(mem, pos, threadEnd, ps, b);
      AllMergedTwice(mem, ts, start, covered, pos, threadEnd, before, now, Results(ps));
      CoverMore(mem, ts, start, covered, pos, threadEnd, works, work);
      covered := threadEnd;
      TimesNext(|works|, perThread);
      works := works + [work];
      offset := offset + perThread;
    }
    assert covered == end;
  }

  /** The whole scan.  One thread is left for the game, so where there is only one the code divides by
      zero once it has chosen the byte. */
  method MultiSigscan(mem: Memory, start: int, size: nat, hardware: nat, ps: seq<MultiPattern>)
    returns (r: Anchor, crashed: bool, ghost works: seq<seq<Commit>>)
    requires Distinct(ps)
    requires forall k | 0 <= k < |ps| ::
      |ps[k].bytes| == |ps[k].mask| && |ps[k].bytes| <= start + ps[k].offset && ps[k].result == 0
    modifies ps
    ensures r.NoCommonByte? <==> forall b: byte :: !Eligible(ps, b)
    ensures r.NoCommonByte? ==> Targets(ps) == old(Targets(ps)) && Results(ps) == old(Results(ps))
    ensures r.Anchor? ==> Best(ps, r.b) && Anchored(ps, r.b) && Ready(Targets(ps), r.b, start)
    ensures crashed <==> r.Anchor? && hardware == 1
    ensures crashed ==> Results(ps) == old(Results(ps))
    ensures r.Anchor? && !crashed ==> AllMerged(mem, Targets(ps), start, start + size, Zeros(|ps|), Results(ps))
    ensures r.Anchor? && !crashed ==> Cover(mem, Targets(ps), start, start + size, works)
    ensures hardware <= MIN_SIZE_PER_THREAD ==> |works| <= if hardware == 0 then 8 else hardware
  {
    hide Eligible, Best, MultiPattern.FirstAt, AllMerged, Cover, Finds, Ready;
    works, crashed := [], false;
    r := Preprocess(ps);
    if r.NoCommonByte? {
      return;
    }
    assert Results(ps) == Zeros(|ps|);
    assert Ready(Targets(ps), r.b, start) by { AnchoredReady(ps, r.b, start); }
    var threads := if hardware == 0 then 8 else hardware;
    threads := threads - 1;
    if threads == 0 {
      return r, true, [];
    }
    var perThread := if size / threads < MIN_SIZE_PER_THREAD then MIN_SIZE_PER_THREAD else size / threads;
    works := RunThreads(mem, start, size, perThread, r.overscan, ps, r.b);
    if works != [] && hardware <= MIN_SIZE_PER_THREAD {
      ThreadCount(size, threads, perThread, |works| - 1);
    }
  }

  // ---- against the naive search -------------------------------------------------------------

  /** A match the fast search sees: one with its anchor in the region. */
  ghost predicate FastSees(mem: Memory, t: Target, start: int, size: nat, v: int) {
    FoundIn(mem, t, start, start + size, v)
  }

  /** A match the naive search sees. */
  ghost predicate NaiveSees(mem: Memory, t: Target, start: int, size: nat, v: int) {
    && t.pattern.Valid()
    && start <= v - t.pattern.offset < start + Alignments(size, |t.pattern.bytes|)
    && MatchesAt(mem, t.pattern, v - t.pattern.offset)
  }

  /** Neither search goes by a match without the other having one at or below it. */
  ghost predicate Agreeing(mem: Memory, t: Target, start: int, size: nat) {
    && (forall v | FastSees(mem, t, start, size, v) :: exists u | NaiveSees(mem, t, start, size, u) :: u <= v)
    && (forall u | NaiveSees(mem, t, start, size, u) :: exists v | FastSees(mem, t, start, size, v) :: v <= u)
  }

  /** The fast search agrees with the naive one exactly when no match that only one of them sees comes
      before all that the other sees. */
  lemma FastEqualsNaive(mem: Memory, t: Target, start: int, size: nat, fast: nat, naive: int)
    requires t.pattern.Valid() && t.startOffset < |t.pattern.bytes| <= start + t.pattern.offset
    requires Merged(mem, t, start, start + size, 0, fast) && NaiveResult(mem, t.pattern, start, size, naive)
    ensures fast == naive <==> Agreeing(mem, t, start, size)
  {
    hide MatchesAt, Alignments;
    if exists i | start <= i < start + Alignments(size, |t.pattern.bytes|) :: MatchesAt(mem, t.pattern, i) {
      assert NaiveSees(mem, t, start, size, naive);
      forall u | NaiveSees(mem, t, start, size, u) ensures naive <= u {
        assert MatchesAt(mem, t.pattern, u - t.pattern.offset);
      }
    } else {
      forall u ensures !NaiveSees(mem, t, start, size, u) {}
    }
    if fast != 0 {
      assert FastSees(mem, t, start, size, fast);
    }
  }

  /** Of the matches inside of the region, the naive search misses exactly the one at the last alignment. */
  lemma LastAlignment(mem: Memory, t: Target, start: int, size: nat, at: int)
    requires t.pattern.Valid() && |t.pattern.bytes| <= size < SIZE_VALUES
    requires start <= at <= start + size - |t.pattern.bytes| && MatchesAt(mem, t.pattern, at)
    ensures NaiveSees(mem, t, start, size, at + t.pattern.offset) <==> at != start + size - |t.pattern.bytes|
  {
    hide MatchesAt;
  }

  /** When the pattern fits into the region, what the naive search sees is also the fast one's: then they
      agree exactly when no match at the last alignment, or reaching out of the region, comes first. */
  lemma NaiveSeesLess(mem: Memory, t: Target, start: int, size: nat)
    requires t.startOffset < |t.pattern.bytes| <= size
    ensures forall u | NaiveSees(mem, t, start, size, u) :: FastSees(mem, t, start, size, u)
    ensures Agreeing(mem, t, start, size) <==>
      forall v | FastSees(mem, t, start, size, v) :: exists u | NaiveSees(mem, t, start, size, u) :: u <= v
  {
  }

  /** The two really differ: a match at the very end of the region is only found by the fast search. */
  lemma LastAlignmentMissed(fast: nat, naive: int)
    requires Merged(_ => 1, Target(Pattern([1], [0xFF], 0), 0), 100, 101, 0, fast)
    requires NaiveResult(_ => 1, Pattern([1], [0xFF], 0), 100, 1, naive)
    ensures fast == 100 && naive == 0
  {
    var t := Target(Pattern([1], [0xFF], 0), 0);
    UnmaskedByte(1);
    assert FoundIn(_ => 1, t, 100, 101, 100);
  }
}
