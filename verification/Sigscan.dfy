/** Masked patterns, and the naive search for them. */
module Sigscan {
  type byte = n: nat | n < 256

  /** Bitwise and. */
  function And(a: nat, b: nat): nat {
    if a == 0 || b == 0 then 0 else 2 * And(a / 2, b / 2) + (a % 2) * (b % 2)
  }

  /** The `k`-th bit. */
  function Bit(n: nat, k: nat): nat {
    if k == 0 then n % 2 else Bit(n / 2, k - 1)
  }

  /** Bit by bit: the lowest bit is that of both, and the rest goes on alike. */
  lemma AndHalves(a: nat, b: nat)
    ensures And(a, b) / 2 == And(a / 2, b / 2) && And(a, b) % 2 == if a % 2 == 1 && b % 2 == 1 then 1 else 0
  {
    if a != 0 && b != 0 {
      LowBits(a % 2, b % 2);
    }
  }

  lemma LowBits(x: nat, y: nat)
    requires x < 2 && y < 2
    ensures x * y == if x == 1 && y == 1 then 1 else 0
  {
  }

  /** A bit is set exactly when it is in both. */
  lemma {:induction false} AndBit(a: nat, b: nat, k: nat)
    ensures Bit(And(a, b), k) == 1 <==> Bit(a, k) == 1 && Bit(b, k) == 1
    decreases k
  {
    hide And;
    AndHalves(a, b);
    if k > 0 { AndBit(a / 2, b / 2, k - 1); }
  }

  lemma TwoBits(r: nat, a: nat, half: nat, rest: nat)
    requires a == 2 * half + a % 2 && half == 2 * rest + r / 2 && r % 2 == a % 2 && r / 2 < 2
    ensures r == a % 4
  {
    assert a == 4 * rest + r;
  }

  lemma ThreeBits(r: nat, a: nat, half: nat, rest: nat)
    requires a == 2 * half + a % 2 && half == 4 * rest + r / 2 && r % 2 == a % 2 && r / 2 < 4
    ensures r == a % 8
  {
    assert a == 8 * rest + r;
  }

  lemma FourBits(r: nat, a: nat, half: nat, rest: nat)
    requires a == 2 * half + a % 2 && half == 8 * rest + r / 2 && r % 2 == a % 2 && r / 2 < 8
    ensures r == a % 16
  {
    assert a == 16 * rest + r;
  }

  lemma AndOne(a: nat)
    ensures And(a, 1) == a % 2
  {
    AndHalves(a, 1);
    AndNothing(a / 2);
  }

  lemma AndThree(a: nat)
    ensures And(a, 3) == a % 4
  {
    hide And;
    AndHalves(a, 3);
    AndOne(a / 2);
    TwoBits(And(a, 3), a, a / 2, a / 2 / 2);
  }

  lemma AndSeven(a: nat)
    ensures And(a, 7) == a % 8
  {
    hide And;
    AndHalves(a, 7);
    AndThree(a / 2);
    ThreeBits(And(a, 7), a, a / 2, a / 2 / 4);
  }

  lemma AndLowNibble(a: nat)
    ensures And(a, 0x0F) == a % 16
  {
    hide And;
    AndHalves(a, 0x0F);
    AndSeven(a / 2);
    FourBits(And(a, 0x0F), a, a / 2, a / 2 / 8);
  }

  lemma AndDoubled(a: nat, m: nat)
    ensures And(a, 2 * m) == 2 * And(a / 2, m)
  {
    AndHalves(a, 2 * m);
  }

  lemma AndHighNibble(a: byte)
    ensures And(a, 0xF0) == a - a % 16
  {
    hide And;
    AndDoubled(a, 0x78);
    AndDoubled(a / 2, 0x3C);
    AndDoubled(a / 4, 0x1E);
    AndDoubled(a / 8, 0x0F);
    AndLowNibble(a / 16);
  }

  /** Masking by nibbles keeps the high nibble, or the low one, as it is. */
  lemma AndNibbles(a: byte)
    ensures And(a, 0) == 0 && And(a, 0x0F) == a % 16 && And(a, 0xF0) == a - a % 16 && And(a, 0xFF) == a
  {
    AndNothing(a);
    AndLowNibble(a);
    AndHighNibble(a);
    UnmaskedByte(a);
  }

  lemma AndNothing(a: nat)
    ensures And(a, 0) == 0
  {
  }

  /** Memory, addressed by integers; what lies outside of a scanned region is arbitrary. */
  type Memory = int -> byte

  datatype Pattern = Pattern(bytes: seq<byte>, mask: seq<byte>, offset: int) {
    predicate Valid() {
      |bytes| == |mask|
    }

    /** The precondition of the scanners: the bytes are already masked. */
    predicate Masked() {
      Valid() && forall i | 0 <= i < |bytes| :: And(bytes[i], mask[i]) == bytes[i]
    }
  }

  ghost predicate MatchesAt(mem: Memory, p: Pattern, at: int)
    requires p.Valid()
  {
    forall j | 0 <= j < |p.bytes| :: And(mem(at + j), p.mask[j]) == p.bytes[j]
  }

  lemma {:induction false} AndOnes(a: nat, bits: nat, ones: nat)
    requires a <= ones && ones == Pow2(bits) - 1
    ensures And(a, ones) == a
    decreases bits
  {
    if a > 0 {
      assert Pow2(bits) == 2 * Pow2(bits - 1);
      AndOnes(a / 2, bits - 1, ones / 2);
    }
  }

  function Pow2(n: nat): (r: nat)
    ensures r >= 1
  {
    if n == 0 then 1 else 2 * Pow2(n - 1)
  }

  /** A byte which is not masked out is compared as it is. */
  lemma UnmaskedByte(a: byte)
    ensures And(a, 0xFF) == a
  {
    assert Pow2(8) == 256 by {
      assert Pow2(4) == 16;
    }
    AndOnes(a, 8, 0xFF);
  }

  /** `at` is the lowest match in [lo, hi). */
  ghost predicate Lowest(mem: Memory, p: Pattern, lo: int, hi: int, at: int)
    requires p.Valid()
  {
    lo <= at < hi && MatchesAt(mem, p, at) && forall i | lo <= i < at :: !MatchesAt(mem, p, i)
  }

  /** The number of values of the source's unsigned sizes. */
  const SIZE_VALUES := 0x1_0000_0000_0000_0000

  /** How many alignments the naive search tries: one less than there are.  For a pattern longer than the
      region the subtraction wraps around, and the search runs on behind the region. */
  function Alignments(size: nat, patternSize: nat): nat {
    (size as int - patternSize) % SIZE_VALUES
  }

  /** The naive search. */
  method Scan(mem: Memory, p: Pattern, start: int, size: nat) returns (r: int)
    requires p.Valid() && size < SIZE_VALUES && |p.bytes| < SIZE_VALUES
    ensures (forall i | start <= i < start + Alignments(size, |p.bytes|) :: !MatchesAt(mem, p, i)) ==> r == 0
    ensures (exists i | start <= i < start + Alignments(size, |p.bytes|) :: MatchesAt(mem, p, i)) ==>
      Lowest(mem, p, start, start + Alignments(size, |p.bytes|), r)
  {
    for i := 0 to Alignments(size, |p.bytes|)
      invariant forall k | start <= k < start + i :: !MatchesAt(mem, p, k)
    {
      var found := true;
      for j := 0 to |p.bytes|
        invariant found && forall k | 0 <= k < j :: And(mem(start + i + k), p.mask[k]) == p.bytes[k]
      {
        var val := mem(start + i + j);
        if And(val, p.mask[j]) != p.bytes[j] {
          found := false;
          assert !MatchesAt(mem, p, start + i);
          break;
        }
      }
      if found {
        assert MatchesAt(mem, p, start + i);
        return start + i;
      }
    }
    return 0;
  }

  /** `r` is what the naive search finds: 0, or its lowest match moved by the offset. */
  ghost predicate NaiveResult(mem: Memory, p: Pattern, start: int, size: nat, r: int)
    requires p.Valid()
  {
    var end := start + Alignments(size, |p.bytes|);
    && ((forall i | start <= i < end :: !MatchesAt(mem, p, i)) ==> r == 0)
    && ((exists i | start <= i < end :: MatchesAt(mem, p, i)) ==> Lowest(mem, p, start, end, r - p.offset))
  }

  method SigscanNullable(mem: Memory, p: Pattern, start: int, size: nat) returns (r: int)
    requires p.Valid() && size < SIZE_VALUES && |p.bytes| < SIZE_VALUES && 0 < start
    ensures NaiveResult(mem, p, start, size, r)
  {
    hide Alignments, MatchesAt;
    var addr := Scan(mem, p, start, size);
    r := if addr == 0 then 0 else addr + p.offset;
  }
}
