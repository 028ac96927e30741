/** Parsing undoes printing, and what the parser accepts is what the scanners compare under. */
module PatternTheorems {
  import opened Sigscan
  import opened PatternParser

  // ---- characters which do not matter -------------------------------------------------------

  lemma TextNext(c: char, s: string)
    ensures Text([c] + s) == if c == '\0' then [] else [c] + Text(s)
  {
    assert ([c] + s)[1..] == s;
  }

  lemma {:induction false} TextConcat(a: string, b: string)
    ensures Text(a + b) == if '\0' in a then Text(a) else a + Text(b)
    decreases |a|
  {
    if a == [] {
      assert a + b == b;
      assert [] + Text(b) == Text(b);
    } else {
      TextConcat(a[1..], b);
      assert (a + b)[1..] == a[1..] + b && (a + b)[0] == a[0];
      TextNext(a[0], a[1..]);
      TextNext(a[0], a[1..] + b);
      assert a == [a[0]] + a[1..] && a + b == [a[0]] + (a[1..] + b);
      hide Text;
      assert a + Text(b) == [a[0]] + (a[1..] + Text(b));
    }
  }

  lemma {:induction false} KeptConcat(a: string, b: string)
    ensures Kept(a + b) == Kept(a) + Kept(b)
    decreases |b|
  {
    if b == [] {
      assert a + b == a;
    } else {
      KeptConcat(a, b[..|b| - 1]);
      assert (a + b)[..|a + b| - 1] == a + b[..|b| - 1];
    }
  }

  /** A space or a closing brace changes nothing, wherever it stands. */
  lemma IgnoredCharacter(n: nat, before: string, c: char, after: string, given: int)
    requires c == ' ' || c == '}'
    ensures Parse(n, before + [c] + after, given) == Parse(n, before + after, given)
  {
    hide Kept, Text, Parse;
    TextConcat(before, after);
    TextConcat(before, [c] + after);
    TextConcat([c], after);
    assert before + ([c] + after) == before + [c] + after;
    if '\0' !in before {
      KeptConcat(before, Text(after));
      KeptConcat(before, [c] + Text(after));
      KeptConcat([c], Text(after));
      assert Kept([c]) == [] by { SingleIgnored(c); }
    }
    SameKept(n, before + [c] + after, before + after, given);
  }

  lemma SingleIgnored(c: char)
    requires c == ' ' || c == '}'
    ensures Kept([c]) == []
  {
  }

  lemma SameKept(n: nat, hex: string, other: string, given: int)
    requires Kept(Text(hex)) == Kept(Text(other))
    ensures Parse(n, hex, given) == Parse(n, other, given)
  {
  }

  // ---- what is accepted ---------------------------------------------------------------------

  predicate NibbleOk(value: nat, mask: nat) {
    value < 16 && (mask == 0xF || (mask == 0 && value == 0))
  }

  /** What can be written as a string: every nibble is either given or a wildcard, and the offset is
      at a byte of the pattern or at its end. */
  predicate Printable(p: Pattern) {
    && p.Valid()
    && 0 <= p.offset <= |p.bytes| && p.offset != UNSET
    && forall i | 0 <= i < |p.bytes| ::
         NibbleOk(p.bytes[i] / 16, p.mask[i] / 16) && NibbleOk(p.bytes[i] % 16, p.mask[i] % 16)
  }

  lemma MaskedNibbles(b: byte, m: byte)
    requires NibbleOk(b / 16, m / 16) && NibbleOk(b % 16, m % 16)
    ensures And(b, m) == b
  {
    MaskedAgrees(b, b, m);
  }

  lemma {:induction false} BraceOffsetBounded(kept: string, given: int)
    ensures BraceOffset(kept, given) == given || (given == UNSET && 0 <= BraceOffset(kept, given) <= |Digits(kept)| / 2)
    decreases |kept|
  {
    if kept != [] { BraceOffsetBounded(kept[..|kept| - 1], given); }
  }

  /** An accepted string gives a pattern which can be printed, and whose bytes are already masked, as
      the scanners demand; an offset which was given is the one it has. */
  lemma AcceptedPattern(n: nat, hex: string, given: int)
    requires Parse(n, hex, given).Parsed?
    ensures var p := Parse(n, hex, given).p;
      && |p.bytes| == n && p.Masked()
      && (given == UNSET ==> Printable(p))
      && (given != UNSET ==> p.offset == given)
  {
    hide Kept, Text, Digits, BraceOffset, NibbleAndMask, And;
    var p := Parse(n, hex, given).p;
    BraceOffsetBounded(Kept(Text(hex)), given);
    forall i | 0 <= i < n
      ensures NibbleOk(p.bytes[i] / 16, p.mask[i] / 16) && NibbleOk(p.bytes[i] % 16, p.mask[i] % 16)
      ensures And(p.bytes[i], p.mask[i]) == p.bytes[i]
    {
      NibblesOk(n, hex, given, i);
      MaskedNibbles(p.bytes[i], p.mask[i]);
    }
  }

  /** Both nibbles are the same, or wildcards. */
  predicate NibblesAgree(found: byte, b: byte, m: byte) {
    && (m / 16 == 0xF ==> found / 16 == b / 16)
    && (m % 16 == 0xF ==> found % 16 == b % 16)
  }

  lemma MaskedAgrees(found: byte, b: byte, m: byte)
    requires NibbleOk(b / 16, m / 16) && NibbleOk(b % 16, m % 16)
    ensures And(found, m) == b <==> NibblesAgree(found, b, m)
  {
    assert m == 16 * (m / 16) + m % 16 && b == 16 * (b / 16) + b % 16;
    AndNibbles(found);
  }

  /** An accepted string is found exactly where every nibble which is not a wildcard is the one in memory. */
  lemma AcceptedMatches(n: nat, hex: string, given: int, mem: Memory, at: int)
    requires Parse(n, hex, given).Parsed?
    ensures var p := Parse(n, hex, given).p;
      && p.Valid() && |p.bytes| == n
      && (MatchesAt(mem, p, at) <==> forall j | 0 <= j < n :: NibblesAgree(mem(at + j), p.bytes[j], p.mask[j]))
  {
    var p := Parse(n, hex, given).p;
    AcceptedPattern(n, hex, given);
    forall j | 0 <= j < n
      ensures And(mem(at + j), p.mask[j]) == p.bytes[j] <==> NibblesAgree(mem(at + j), p.bytes[j], p.mask[j])
    {
      NibblesOk(n, hex, given, j);
      MaskedAgrees(mem(at + j), p.bytes[j], p.mask[j]);
    }
  }

  lemma NibblesOk(n: nat, hex: string, given: int, j: nat)
    requires Parse(n, hex, given).Parsed? && j < n
    ensures var p := Parse(n, hex, given).p;
      NibbleOk(p.bytes[j] / 16, p.mask[j] / 16) && NibbleOk(p.bytes[j] % 16, p.mask[j] % 16)
  {
    hide Kept, Text, Digits, BraceOffset, NibbleAndMask;
    var digits := Digits(Kept(Text(hex)));
    assert NibbleOk(NibbleAndMask(digits[2 * j]).0, NibbleAndMask(digits[2 * j]).1);
    assert NibbleOk(NibbleAndMask(digits[2 * j + 1]).0, NibbleAndMask(digits[2 * j + 1]).1);
  }

  lemma AcceptedDigits(n: nat, hex: string, given: int)
    ensures var kept := Kept(Text(hex));
      Parse(n, hex, given).Parsed? <==>
        |Digits(kept)| == 2 * n && forall i | 0 <= i < |kept| && kept[i] == '{' :: |Digits(kept[..i])| % 2 == 0
  {
    hide Kept, Text, Digits, BraceOffset, NibbleAndMask;
    var kept := Kept(Text(hex));
    forall i | 0 <= i < |kept|
      ensures |Digits(kept)| == 2 * n ==>
        (SplitsByte(kept, n, i) <==> kept[i] == '{' && |Digits(kept[..i])| % 2 == 1)
    {
      DigitsGrow(kept, i);
    }
  }

  /** Accepted is exactly what has two digits for every byte, and no opening brace between the two. */
  lemma AcceptedExactly(n: nat, hex: string, given: int)
    ensures var kept := Kept(Text(hex));
      Parse(n, hex, given).Parsed? <==>
        && |kept| - multiset(kept)['{'] == 2 * n
        && forall i | 0 <= i < |kept| && kept[i] == '{' :: (i - multiset(kept[..i])['{']) % 2 == 0
  {
    AcceptedDigits(n, hex, given);
    hide Kept, Text, Digits, Parse;
    var kept := Kept(Text(hex));
    DigitsCount(kept);
    forall i | 0 <= i < |kept| ensures |Digits(kept[..i])| == i - multiset(kept[..i])['{'] { DigitsCount(kept[..i]); }
  }

  lemma {:induction false} DigitsCount(kept: string)
    ensures |Digits(kept)| == |kept| - multiset(kept)['{']
  {
    if kept != [] {
      assert kept == kept[..|kept| - 1] + [kept[|kept| - 1]];
      DigitsCount(kept[..|kept| - 1]);
    }
  }

  /** Without an offset given, the first opening brace sets it. */
  lemma {:induction false} FirstBraceSetsOffset(kept: string, i: nat)
    requires i < |kept| < UNSET && kept[i] == '{' && '{' !in kept[..i]
    ensures BraceOffset(kept, UNSET) == |Digits(kept[..i])| / 2
    decreases |kept|
  {
    var init := kept[..|kept| - 1];
    DigitsShorter(kept[..i]);
    if i < |init| {
      assert init[..i] == kept[..i];
      FirstBraceSetsOffset(init, i);
    } else {
      NoBraceNoOffset(init);
    }
  }

  lemma {:induction false} NoBraceNoOffset(kept: string)
    requires '{' !in kept
    ensures BraceOffset(kept, UNSET) == UNSET
  {
    if kept != [] { NoBraceNoOffset(kept[..|kept| - 1]); }
  }

  lemma {:induction false} DigitsShorter(kept: string)
    ensures |Digits(kept)| <= |kept|
  {
    if kept != [] { DigitsShorter(kept[..|kept| - 1]); }
  }

  // ---- characters which mean the same -------------------------------------------------------

  const CANONICAL := "0123456789ABCDEF"

  /** How a character would be printed: letters in upper case, and whatever is no digit as a wildcard. */
  function Canonical(c: char): char {
    if c == '\0' || c in " {}" || c in CANONICAL then c
    else if c == 'a' then 'A'
    else if c == 'b' then 'B'
    else if c == 'c' then 'C'
    else if c == 'd' then 'D'
    else if c == 'e' then 'E'
    else if c == 'f' then 'F'
    else '?'
  }

  function CanonicalText(s: string): (r: string)
    ensures |r| == |s| && forall i | 0 <= i < |s| :: r[i] == Canonical(s[i])
  {
    seq(|s|, i requires 0 <= i < |s| => Canonical(s[i]))
  }

  lemma CanonicalNext(s: string)
    requires s != []
    ensures CanonicalText(s[..|s| - 1]) == CanonicalText(s)[..|s| - 1]
    ensures CanonicalText(s) == CanonicalText(s[..|s| - 1]) + [Canonical(s[|s| - 1])]
    ensures CanonicalText(s) == [Canonical(s[0])] + CanonicalText(s[1..])
  {
  }

  lemma CanonicalAppend(s: string, c: char)
    ensures CanonicalText(s + [c]) == CanonicalText(s) + [Canonical(c)] &&
      CanonicalText(s + []) == CanonicalText(s) + []
  {
    assert s + [] == s;
  }

  lemma NothingCanonical()
    ensures CanonicalText([]) == []
  {
  }

  lemma CanonicalReads(c: char)
    ensures NibbleAndMask(Canonical(c)) == NibbleAndMask(c)
    ensures Canonical(c) == '\0' <==> c == '\0'
    ensures Canonical(c) in " {}" || c in " {}" ==> Canonical(c) == c
  {
    assert forall i: nat | i < 10 :: CANONICAL[i] == '0' + i as char;
    assert '0' <= c <= '9' ==> CANONICAL[c as int - '0' as int] == c;
    assert 'A' <= c <= 'F' ==> CANONICAL[c as int - 'A' as int + 10] == c;
  }

  lemma {:induction false} CanonicalTexts(hex: string)
    ensures Text(CanonicalText(hex)) == CanonicalText(Text(hex))
  {
    hide Canonical, NibbleAndMask;
    if hex != [] {
      CanonicalReads(hex[0]);
      CanonicalNext(hex);
      assert CanonicalText(hex)[1..] == CanonicalText(hex[1..]);
      CanonicalTexts(hex[1..]);
    }
  }

  lemma {:induction false} CanonicalKept(text: string)
    ensures Kept(CanonicalText(text)) == CanonicalText(Kept(text))
  {
    hide Canonical, NibbleAndMask, CanonicalText;
    if text != [] {
      var init, c := text[..|text| - 1], text[|text| - 1];
      CanonicalReads(c);
      CanonicalNext(text);
      CanonicalKept(init);
      CanonicalAppend(Kept(init), c);
    } else {
      NothingCanonical();
    }
  }

  lemma {:induction false} CanonicalDigits(kept: string)
    ensures Digits(CanonicalText(kept)) == CanonicalText(Digits(kept))
    decreases |kept|
  {
    hide Canonical, NibbleAndMask, CanonicalText;
    if kept != [] {
      var init, c := kept[..|kept| - 1], kept[|kept| - 1];
      CanonicalReads(c);
      CanonicalNext(kept);
      CanonicalDigits(init);
      CanonicalAppend(Digits(init), c);
    } else {
      NothingCanonical();
    }
  }

  lemma {:induction false} CanonicalOffset(kept: string, given: int)
    ensures BraceOffset(CanonicalText(kept), given) == BraceOffset(kept, given)
    decreases |kept|
  {
    hide Canonical, NibbleAndMask, Digits;
    if kept != [] {
      CanonicalReads(kept[|kept| - 1]);
      CanonicalNext(kept);
      CanonicalDigits(kept[..|kept| - 1]);
      CanonicalOffset(kept[..|kept| - 1], given);
    }
  }

  lemma CanonicalSplits(kept: string, n: nat, i: nat)
    ensures SplitsByte(CanonicalText(kept), n, i) <==> SplitsByte(kept, n, i)
  {
    hide Canonical, NibbleAndMask, Digits;
    if i < |kept| {
      CanonicalReads(kept[i]);
      assert CanonicalText(kept)[..i] == CanonicalText(kept[..i]);
      CanonicalDigits(kept[..i]);
    }
  }

  /** Case does not matter, nor which character stands for a wildcard. */
  lemma CanonicalParsesAlike(n: nat, hex: string, given: int)
    ensures Parse(n, CanonicalText(hex), given) == Parse(n, hex, given)
  {
    hide Canonical, NibbleAndMask, Digits, BraceOffset, SplitsByte, Kept, Text;
    var kept, digits := Kept(Text(hex)), Digits(Kept(Text(hex)));
    CanonicalTexts(hex);
    CanonicalKept(Text(hex));
    CanonicalDigits(kept);
    CanonicalOffset(kept, given);
    forall i | 0 <= i < |kept| ensures SplitsByte(CanonicalText(kept), n, i) <==> SplitsByte(kept, n, i) {
      CanonicalSplits(kept, n, i);
    }
    forall i: nat | 2 * i + 1 < |digits|
      ensures ByteOf(CanonicalText(digits), i) == ByteOf(digits, i)
      ensures MaskOf(CanonicalText(digits), i) == MaskOf(digits, i)
    {
      CanonicalReads(digits[2 * i]);
      CanonicalReads(digits[2 * i + 1]);
    }
  }

  // ---- printing -----------------------------------------------------------------------------

  function NibbleChar(value: nat, mask: nat): char
    requires value < 16
  {
    if mask == 0 then '?'
    else if value < 10 then '0' + value as char
    else 'A' + (value - 10) as char
  }

  /** The first `i` bytes, with the offset's brace if it is before them. */
  function PrintTo(p: Pattern, i: nat): string
    requires p.Valid() && i <= |p.bytes|
  {
    if i == 0 then []
    else
      PrintTo(p, i - 1) + (if p.offset == i - 1 then ['{'] else [])
      + [NibbleChar(p.bytes[i - 1] / 16, p.mask[i - 1] / 16)]
      + [NibbleChar(p.bytes[i - 1] % 16, p.mask[i - 1] % 16)] + [' ']
  }

  /** The canonical text of a pattern, like `48 {8? 0F `. */
  function Print(p: Pattern): string
    requires p.Valid()
  {
    PrintTo(p, |p.bytes|) + if p.offset == |p.bytes| then ['{'] else []
  }

  lemma NibbleCharReads(value: nat, mask: nat)
    requires NibbleOk(value, mask)
    ensures NibbleAndMask(NibbleChar(value, mask)) == (value, mask)
    ensures NibbleChar(value, mask) !in " {}" && NibbleChar(value, mask) != '\0'
  {
  }

  /** The text stands for digits `ds` and offset `offset`, with no brace inside a byte of `n`. */
  ghost predicate Means(text: string, n: nat, ds: string, offset: int) {
    && '\0' !in text
    && Digits(Kept(text)) == ds
    && BraceOffset(Kept(text), UNSET) == offset
    && forall i | 0 <= i < |Kept(text)| :: !SplitsByte(Kept(text), n, i)
  }

  lemma MeansSpace(text: string, n: nat, ds: string, offset: int)
    requires Means(text, n, ds, offset)
    ensures Means(text + [' '], n, ds, offset)
  {
    hide Digits, BraceOffset, SplitsByte;
    KeptConcat(text, [' ']);
    SingleIgnored(' ');
    assert Kept(text + [' ']) == Kept(text);
  }

  lemma MeansDigit(text: string, n: nat, ds: string, offset: int, c: char)
    requires Means(text, n, ds, offset) && c !in " {}" && c != '\0'
    ensures Means(text + [c], n, ds + [c], offset)
  {
    hide Digits, BraceOffset, SplitsByte;
    NextKept(Kept(text), c, n, UNSET);
    assert Kept(text + [c]) == Kept(text) + [c];
  }

  lemma MeansBrace(text: string, n: nat, ds: string)
    requires Means(text, n, ds, UNSET) && |ds| % 2 == 0
    ensures Means(text + ['{'], n, ds, |ds| / 2)
  {
    hide Digits, BraceOffset, SplitsByte;
    NextKept(Kept(text), '{', n, UNSET);
    assert Kept(text + ['{']) == Kept(text) + ['{'];
  }

  /** The digits of the first `i` bytes. */
  function DigitsTo(p: Pattern, i: nat): (ds: string)
    requires p.Valid() && i <= |p.bytes|
    ensures |ds| == 2 * i
  {
    if i == 0 then []
    else DigitsTo(p, i - 1) + [NibbleChar(p.bytes[i - 1] / 16, p.mask[i - 1] / 16)]
                            + [NibbleChar(p.bytes[i - 1] % 16, p.mask[i - 1] % 16)]
  }

  lemma {:induction false} PrintMeans(p: Pattern, i: nat)
    requires Printable(p) && i <= |p.bytes|
    ensures Means(PrintTo(p, i), |p.bytes|, DigitsTo(p, i), if p.offset < i then p.offset else UNSET)
  {
    hide Means;
    var n := |p.bytes|;
    if i == 0 {
      assert Means([], n, [], UNSET) by { NothingMeans(n); }
    } else {
      PrintMeans(p, i - 1);
      var text, ds := PrintTo(p, i - 1), DigitsTo(p, i - 1);
      var offset := if p.offset < i then p.offset else UNSET;
      if p.offset == i - 1 {
        MeansBrace(text, n, ds);
        text := text + ['{'];
      } else {
        assert text + [] == text;
      }
      var high, low :=
        NibbleChar(p.bytes[i - 1] / 16, p.mask[i - 1] / 16), NibbleChar(p.bytes[i - 1] % 16, p.mask[i - 1] % 16);
      NibbleCharReads(p.bytes[i - 1] / 16, p.mask[i - 1] / 16);
      NibbleCharReads(p.bytes[i - 1] % 16, p.mask[i - 1] % 16);
      MeansDigit(text, n, ds, offset, high);
      MeansDigit(text + [high], n, ds + [high], offset, low);
      MeansSpace(text + [high] + [low], n, ds + [high] + [low], offset);
    }
  }

  lemma NothingMeans(n: nat)
    ensures Means([], n, [], UNSET)
  {
  }

  lemma {:induction false} DigitsAt(p: Pattern, i: nat, k: nat)
    requires Printable(p) && k < i <= |p.bytes|
    ensures ByteOf(DigitsTo(p, i), k) == p.bytes[k] && MaskOf(DigitsTo(p, i), k) == p.mask[k]
    decreases i
  {
    if k == i - 1 {
      NibbleCharReads(p.bytes[k] / 16, p.mask[k] / 16);
      NibbleCharReads(p.bytes[k] % 16, p.mask[k] % 16);
    } else {
      DigitsAt(p, i - 1, k);
      assert DigitsTo(p, i)[2 * k] == DigitsTo(p, i - 1)[2 * k];
      assert DigitsTo(p, i)[2 * k + 1] == DigitsTo(p, i - 1)[2 * k + 1];
    }
  }

  /** Parsing what was printed gives the pattern back, offset included. */
  lemma ParseInvertsPrint(p: Pattern)
    requires Printable(p)
    ensures Parse(|p.bytes|, Print(p), UNSET) == Parsed(p)
  {
    hide Digits, Kept, BraceOffset, SplitsByte, ByteOf, MaskOf, Text, PrintTo, DigitsTo;
    var n := |p.bytes|;
    var ds := DigitsTo(p, n);
    PrintMeans(p, n);
    if p.offset == n {
      MeansBrace(PrintTo(p, n), n, ds);
    } else {
      assert PrintTo(p, n) + [] == PrintTo(p, n);
    }
    var text := Print(p);
    assert Means(text, n, ds, p.offset);
    TextEnds(text, |text|);
    assert text[..|text|] == text;
    forall k | 0 <= k < n ensures ByteOf(ds, k) == p.bytes[k] && MaskOf(ds, k) == p.mask[k] { DigitsAt(p, n, k); }
    assert seq(n, i requires 0 <= i < n => ByteOf(ds, i)) == p.bytes;
    assert seq(n, i requires 0 <= i < n => MaskOf(ds, i)) == p.mask;
  }

  /** Printing what was parsed and parsing it again changes nothing: the text is a normal form. */
  lemma PrintIsNormalForm(n: nat, hex: string)
    requires Parse(n, hex, UNSET).Parsed?
    ensures Parse(n, Print(Parse(n, hex, UNSET).p), UNSET) == Parse(n, hex, UNSET)
  {
    hide Parse, Print;
    AcceptedPattern(n, hex, UNSET);
    ParseInvertsPrint(Parse(n, hex, UNSET).p);
  }
}
