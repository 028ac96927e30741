/** Patterns written as hex strings. */
module PatternParser {
  import opened Sigscan

  /** The offset which stands for "not given": the largest ptrdiff_t. */
  const UNSET := 0x7FFF_FFFF_FFFF_FFFF

  datatype ParseResult = Parsed(p: Pattern) | OffsetInsideByte | TooLong | InvalidSize

  /** Bitwise or. */
  function Or(a: nat, b: nat): nat {
    if a == 0 && b == 0 then 0 else 2 * Or(a / 2, b / 2) + (if a % 2 + b % 2 > 0 then 1 else 0)
  }

  type nibble = n: nat | n < 16

  function NibbleAndMask(c: char): (r: (nibble, nibble))
    ensures r.1 == 0xF || r == (0, 0)
  {
    if '0' <= c <= '9' then ((c - '0') as int, 0xF)
    else if 'A' <= c <= 'F' then ((c - 'A') as int + 0xA, 0xF)
    else if 'a' <= c <= 'f' then ((c - 'a') as int + 0xA, 0xF)
    else (0, 0)
  }

  // ---- what a string means ------------------------------------------------------------------

  /** The string up to its terminator. */
  function Text(hex: string): string {
    if hex == [] || hex[0] == '\0' then [] else [hex[0]] + Text(hex[1..])
  }

  /** Without spaces and closing braces. */
  function Kept(text: string): string {
    if text == [] then []
    else
      var c := text[|text| - 1];
      Kept(text[..|text| - 1]) + if c == ' ' || c == '}' then [] else [c]
  }

  /** The characters which stand for nibbles. */
  function Digits(kept: string): string {
    if kept == [] then []
    else
      var c := kept[|kept| - 1];
      Digits(kept[..|kept| - 1]) + if c == '{' then [] else [c]
  }

  /** The `i`-th character opens the offset halfway through one of the first `n` bytes. */
  predicate SplitsByte(kept: string, n: nat, i: nat) {
    i < |kept| && kept[i] == '{' && |Digits(kept[..i])| % 2 == 1 && |Digits(kept[..i])| < 2 * n
  }

  /** The offset the braces set, unless one was given: where the first one is. */
  function BraceOffset(kept: string, given: int): int {
    if kept == [] then given
    else
      var before := BraceOffset(kept[..|kept| - 1], given);
      if kept[|kept| - 1] == '{' && before == UNSET then |Digits(kept[..|kept| - 1])| / 2 else before
  }

  function ByteOf(digits: string, i: nat): byte
    requires 2 * i + 1 < |digits|
  {
    16 * NibbleAndMask(digits[2 * i]).0 + NibbleAndMask(digits[2 * i + 1]).0
  }

  function MaskOf(digits: string, i: nat): byte
    requires 2 * i + 1 < |digits|
  {
    16 * NibbleAndMask(digits[2 * i]).1 + NibbleAndMask(digits[2 * i + 1]).1
  }

  /** What a pattern of `n` bytes the string stands for, or what is wrong with it. */
  function Parse(n: nat, hex: string, given: int): ParseResult {
    var kept := Kept(Text(hex));
    var digits := Digits(kept);
    var offset := BraceOffset(kept, given);
    if exists i | 0 <= i < |kept| :: SplitsByte(kept, n, i) then OffsetInsideByte
    else if |digits| > 2 * n then TooLong
    else if |digits| < 2 * n then InvalidSize
    else Parsed(Pattern(seq(n, i requires 0 <= i < n => ByteOf(digits, i)),
                        seq(n, i requires 0 <= i < n => MaskOf(digits, i)),
                        if offset == UNSET then 0 else offset))
  }

  // ---- the parser ---------------------------------------------------------------------------

  lemma {:induction false} TextEnds(hex: string, k: nat)
    requires k <= |hex| && '\0' !in hex[..k] && (k == |hex| || hex[k] == '\0')
    ensures Text(hex) == hex[..k]
    decreases k
  {
    if k > 0 {
      assert hex[0] in hex[..k];
      assert forall c | c in hex[1..][..k - 1] :: c in hex[..k];
      TextEnds(hex[1..], k - 1);
      assert hex[..k] == [hex[0]] + hex[1..][..k - 1];
    }
  }

  /** Writing the lower nibble over an empty one is adding it. */
  lemma OrNibble(high: nibble, low: nibble)
    ensures Or(16 * high, low) == 16 * high + low
  {
    hide Or;
    OrBit(high, low / 8);
    OrBit(2 * high, low / 4);
    OrBit(4 * high, low / 2);
    OrBit(8 * high, low);
  }

  lemma OrBit(a: nat, low: nat)
    requires Or(a, low / 2) == a + low / 2 || low < 2
    ensures Or(2 * a, low) == 2 * a + low
  {
    OrZero(a);
  }

  lemma {:induction false} OrZero(a: nat)
    ensures Or(a, 0) == a
  {
    if a > 0 { OrZero(a / 2); }
  }

  lemma {:induction false} KeptGrows(text: string, k: nat)
    requires k <= |text|
    ensures Kept(text[..k]) <= Kept(text)
    decreases |text|
  {
    if k < |text| {
      KeptGrows(text[..|text| - 1], k);
      assert text[..|text| - 1][..k] == text[..k];
    } else {
      assert text[..k] == text;
    }
  }

  lemma {:induction false} DigitsGrow(kept: string, k: nat)
    requires k <= |kept|
    ensures Digits(kept[..k]) <= Digits(kept)
    decreases |kept|
  {
    if k < |kept| {
      DigitsGrow(kept[..|kept| - 1], k);
      assert kept[..|kept| - 1][..k] == kept[..k];
    } else {
      assert kept[..k] == kept;
    }
  }

  lemma {:induction false} TextGrows(hex: string, k: nat)
    requires k <= |hex| && '\0' !in hex[..k]
    ensures hex[..k] <= Text(hex)
    decreases k
  {
    if k > 0 {
      assert hex[0] in hex[..k];
      assert forall c | c in hex[1..][..k - 1] :: c in hex[..k];
      TextGrows(hex[1..], k - 1);
      assert hex[..k] == [hex[0]] + hex[1..][..k - 1];
    }
  }

  /** What was kept so far begins what is kept in the end. */
  lemma KeptSoFar(hex: string, k: nat)
    requires k <= |hex| && '\0' !in hex[..k]
    ensures Kept(hex[..k]) <= Kept(Text(hex))
  {
    TextGrows(hex, k);
    KeptGrows(Text(hex), k);
    assert Text(hex)[..k] == hex[..k];
  }

  /** The parser's variables say what the characters kept so far mean. */
  ghost predicate Progress(n: nat, kept: string, given: int,
                           bytes: seq<byte>, mask: seq<byte>, offset: int, idx: nat, upper: bool) {
    && |bytes| == |mask| == n
    && |Digits(kept)| == 2 * idx + (if upper then 0 else 1) <= 2 * n
    && offset == BraceOffset(kept, given)
    && (forall i | 0 <= i < |kept| :: !SplitsByte(kept, n, i))
    && (forall i | 0 <= i < idx :: bytes[i] == ByteOf(Digits(kept), i) && mask[i] == MaskOf(Digits(kept), i))
    && (!upper ==>
          && bytes[idx] == 16 * NibbleAndMask(Digits(kept)[2 * idx]).0
          && mask[idx] == 16 * NibbleAndMask(Digits(kept)[2 * idx]).1)
  }

  lemma NextKept(kept: string, c: char, n: nat, given: int)
    ensures Digits(kept + [c]) == Digits(kept) + if c == '{' then [] else [c]
    ensures BraceOffset(kept + [c], given) ==
      if c == '{' && BraceOffset(kept, given) == UNSET then |Digits(kept)| / 2 else BraceOffset(kept, given)
    ensures forall i | 0 <= i < |kept| :: SplitsByte(kept + [c], n, i) <==> SplitsByte(kept, n, i)
    ensures SplitsByte(kept + [c], n, |kept|) <==> c == '{' && |Digits(kept)| % 2 == 1 && |Digits(kept)| < 2 * n
  {
    assert (kept + [c])[..|kept|] == kept;
    forall i | 0 <= i < |kept| ensures SplitsByte(kept + [c], n, i) <==> SplitsByte(kept, n, i) {
      assert (kept + [c])[..i] == kept[..i];
    }
  }

  /** A brace inside a byte is an error of the whole string, whatever follows. */
  lemma SplitRemains(kept: string, all: string, n: nat)
    requires kept + ['{'] <= all && |Digits(kept)| % 2 == 1 && |Digits(kept)| < 2 * n
    ensures exists i | 0 <= i < |all| :: SplitsByte(all, n, i)
  {
    assert all[..|kept|] == kept;
    assert SplitsByte(all, n, |kept|);
  }

  /** One nibble too many is an error of the whole string, whatever follows. */
  lemma TooLongRemains(kept: string, c: char, all: string, n: nat)
    requires kept + [c] <= all && c != '{' && |Digits(kept)| == 2 * n
    requires forall i | 0 <= i < |kept| :: !SplitsByte(kept, n, i)
    ensures |Digits(all)| > 2 * n && forall i | 0 <= i < |all| :: !SplitsByte(all, n, i)
  {
    hide Digits, SplitsByte;
    NextKept(kept, c, n, UNSET);
    DigitsGrow(all, |kept| + 1);
    assert all[..|kept| + 1] == kept + [c];
    forall i | 0 <= i < |all| ensures !SplitsByte(all, n, i) {
      assert all[..|kept|] == kept;
      NoSplitAfter(kept, all, n, i);
    }
  }

  lemma NoSplitAfter(kept: string, all: string, n: nat, i: nat)
    requires kept <= all && i < |all| && |Digits(kept)| == 2 * n
    requires i < |kept| ==> !SplitsByte(kept, n, i)
    ensures !SplitsByte(all, n, i)
  {
    hide Digits;
    if i < |kept| {
      assert all[..i] == kept[..i];
    } else {
      DigitsGrow(all[..i], |kept|);
      assert all[..i][..|kept|] == kept;
    }
  }

  lemma BraceProgress(n: nat, kept: string, given: int, bytes: seq<byte>, mask: seq<byte>, offset: int, idx: nat)
    requires Progress(n, kept, given, bytes, mask, offset, idx, true)
    ensures Progress(n, kept + ['{'], given, bytes, mask, if offset == UNSET then idx else offset, idx, true)
  {
    hide Digits, BraceOffset, SplitsByte;
    NextKept(kept, '{', n, given);
    forall i | 0 <= i <= |kept| ensures !SplitsByte(kept + ['{'], n, i) {}
  }

  lemma UpperProgress(n: nat, kept: string, given: int, bytes: seq<byte>, mask: seq<byte>, offset: int, idx: nat,
                      c: char)
    requires Progress(n, kept, given, bytes, mask, offset, idx, true) && c != '{' && idx < n
    ensures var (nibble, nibbleMask) := NibbleAndMask(c);
      Progress(n, kept + [c], given, bytes[idx := 16 * nibble], mask[idx := 16 * nibbleMask], offset, idx, false)
  {
    hide Digits, BraceOffset, SplitsByte, NibbleAndMask;
    NextKept(kept, c, n, given);
    forall i | 0 <= i <= |kept| ensures !SplitsByte(kept + [c], n, i) {}
  }

  lemma LowerProgress(n: nat, kept: string, given: int, bytes: seq<byte>, mask: seq<byte>, offset: int, idx: nat,
                      c: char)
    requires Progress(n, kept, given, bytes, mask, offset, idx, false) && c != '{'
    ensures var (nibble, nibbleMask) := NibbleAndMask(c);
      && Or(bytes[idx], nibble) < 256 && Or(mask[idx], nibbleMask) < 256
      && Progress(n, kept + [c], given, bytes[idx := Or(bytes[idx], nibble)], mask[idx := Or(mask[idx], nibbleMask)],
                  offset, idx + 1, true)
  {
    hide Digits, BraceOffset, SplitsByte, NibbleAndMask, Or;
    NextKept(kept, c, n, given);
    forall i | 0 <= i <= |kept| ensures !SplitsByte(kept + [c], n, i) {}
    var (nibble, nibbleMask) := NibbleAndMask(c);
    OrNibble(NibbleAndMask(Digits(kept)[2 * idx]).0, nibble);
    OrNibble(NibbleAndMask(Digits(kept)[2 * idx]).1, nibbleMask);
  }

  /** At the end of the string, the variables are the result. */
  lemma ProgressDone(n: nat, hex: string, given: int, bytes: seq<byte>, mask: seq<byte>, offset: int, idx: nat,
                     upper: bool)
    requires Progress(n, Kept(Text(hex)), given, bytes, mask, offset, idx, upper)
    ensures Parse(n, hex, given) ==
      if idx != n || !upper then InvalidSize
      else Parsed(Pattern(bytes, mask, if offset == UNSET then 0 else offset))
  {
  }

  /** Parses the string for a pattern of `n` bytes; `given` is `UNSET` when no offset is given. */
  method ParseHex(n: nat, hex: string, given: int) returns (r: ParseResult)
    ensures r == Parse(n, hex, given)
  {
    hide Digits, BraceOffset, SplitsByte, NibbleAndMask, Or, Text;
    var bytes := new byte[n](_ => 0);
    var mask := new byte[n](_ => 0);
    var offset, idx, upper := given, 0, true;
    ghost var kept: string := [];
    var k := 0;
    NothingKept(n, given, bytes[..], mask[..]);
    while k < |hex|
      invariant k <= |hex| && '\0' !in hex[..k] && kept == Kept(hex[..k])
      invariant Progress(n, kept, given, bytes[..], mask[..], offset, idx, upper)
    {
      var c := hex[k];
      if c == '\0' {
        break;
      }
      k := k + 1;
      assert hex[..k] == hex[..k - 1] + [c];
      if c == ' ' || c == '}' {
        continue;
      }
      KeptSoFar(hex, k);
      assert kept + [c] == Kept(hex[..k]);
      if c == '{' {
        if !upper {
          SplitRemains(kept, Kept(Text(hex)), n);
          return OffsetInsideByte;
        }
        BraceProgress(n, kept, given, bytes[..], mask[..], offset, idx);
        if offset == UNSET {
          offset := idx;
        }
        kept := kept + [c];
        continue;
      }
      ghost var before, beforeMask := bytes[..], mask[..];
      var (nibble, nibbleMask) := NibbleAndMask(c);
      if upper {
        if idx >= n {
          TooLongRemains(kept, c, Kept(Text(hex)), n);
          return TooLong;
        }
        UpperProgress(n, kept, given, before, beforeMask, offset, idx, c);
        bytes[idx] := 16 * nibble;
        mask[idx] := 16 * nibbleMask;
        assert bytes[..] == before[idx := bytes[idx]] && mask[..] == beforeMask[idx := mask[idx]];
        upper := false;
      } else {
        LowerProgress(n, kept, given, before, beforeMask, offset, idx, c);
        bytes[idx] := Or(bytes[idx], nibble);
        mask[idx] := Or(mask[idx], nibbleMask);
        assert bytes[..] == before[idx := bytes[idx]] && mask[..] == beforeMask[idx := mask[idx]];
        idx := idx + 1;
        upper := true;
      }
      kept := kept + [c];
    }
    TextEnds(hex, k);
    ProgressDone(n, hex, given, bytes[..], mask[..], offset, idx, upper);
    if idx != n || !upper {
      return InvalidSize;
    }
    if offset == UNSET {
      offset := 0;
    }
    r := Parsed(Pattern(bytes[..], mask[..], offset));
  }

  lemma NothingKept(n: nat, given: int, bytes: seq<byte>, mask: seq<byte>)
    requires |bytes| == |mask| == n
    ensures Progress(n, [], given, bytes, mask, given, 0, true)
  {
  }
}
