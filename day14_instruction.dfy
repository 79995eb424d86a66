/**
 * Day 14: the bitmask, its two ways of being applied, and the parsers of the
 * program's instructions (`mask = …` and `mem[A] = V`).
 */
module Day14Instruction {
  import opened Wrappers
  import opened Text
  import opened Seqs
  import opened Arith
  import opened Day14Bits
  import opened Day14Floating

  datatype MaskValue = Zero | One | DontCare

  /** `Mask`: exactly 36 mask values, most significant bit first. */
  type Mask = m: seq<MaskValue> | |m| == 36 witness seq(36, _ => DontCare)

  /** `Mask::default`: every bit is left as it is. */
  function DefaultMask(): (m: Mask)
    ensures forall i | 0 <= i < 36 :: m[i] == DontCare
  {
    seq(36, _ => DontCare)
  }

  /** The 36 bits `apply_v1` builds: forced by `Zero` and `One`, copied through `DontCare`. */
  function MaskedV1(mask: Mask, bin: string): (s: string)
    requires |bin| >= 36
  {
    seq(36, i requires 0 <= i < 36 => match mask[i] case Zero => '0' case One => '1' case DontCare => bin[i])
  }

  /**
   * `Mask::apply_v1`: the value written in binary, each bit overwritten by
   * the mask where it says `0` or `1`, read back as a number.
   */
  function ApplyV1(mask: Mask, value: nat): (r: nat)
    ensures r < Pow2(36)
    ensures forall i | 0 <= i < 36 :: (BinaryString(r, 36)[i] ==
      match mask[i] case Zero => '0' case One => '1' case DontCare => Format036b(value)[i])
  {
    var applied := MaskedV1(mask, Format036b(value));
    BinaryStringParse(applied);
    ParseBinary(applied)
  }

  /** The 36 bits of `v` already agree with every bit the mask forces. */
  predicate Respects(mask: Mask, v: nat)
  {
    forall i | 0 <= i < 36 ::
      (mask[i] == Zero ==> BinaryString(v, 36)[i] == '0') && (mask[i] == One ==> BinaryString(v, 36)[i] == '1')
  }

  /** A 36-bit value whose bits already agree with the mask is left alone. */
  lemma ApplyV1Fixed(mask: Mask, v: nat)
    requires v < Pow2(36) && Respects(mask, v)
    ensures ApplyV1(mask, v) == v
  {
    ApplyV1SameBits(mask, v);
    BinaryStringInjective(ApplyV1(mask, v), v, 36);
  }

  /** Masking a value that agrees with the mask gives back its 36 bits. */
  lemma ApplyV1SameBits(mask: Mask, v: nat)
    requires v < Pow2(36) && Respects(mask, v)
    ensures BinaryString(ApplyV1(mask, v), 36) == BinaryString(v, 36)
  {
    Format036bSmall(v);
    var r, bits := ApplyV1(mask, v), BinaryString(v, 36);
    assert forall i | 0 <= i < 36 :: BinaryString(r, 36)[i] == bits[i];
  }

  /** Applying a mask twice is applying it once. */
  lemma ApplyV1Idempotent(mask: Mask, value: nat)
    ensures ApplyV1(mask, ApplyV1(mask, value)) == ApplyV1(mask, value)
  {
    ApplyV1Fixed(mask, ApplyV1(mask, value));
  }

  /** The default mask leaves every 36-bit value alone. */
  lemma ApplyV1Default(value: nat)
    requires value < Pow2(36)
    ensures ApplyV1(DefaultMask(), value) == value
  {
    ApplyV1Fixed(DefaultMask(), value);
  }

  /** The address pattern `apply_v2` builds: `1` forced by `One`, the bit kept by `Zero`, `X` for `DontCare`. */
  function FloatingPattern(mask: Mask, value: nat): (p: string)
    ensures |p| == 36
  {
    var bin := Format036b(value);
    seq(36, i requires 0 <= i < 36 => match mask[i] case Zero => bin[i] case One => '1' case DontCare => 'X')
  }

  /** The addresses a version 2 write reaches, in the order `apply_v2` lists them. */
  function Addresses(mask: Mask, value: nat): (r: seq<nat>)
    ensures |r| == |Expand(FloatingPattern(mask, value))|
  {
    var e := Expand(FloatingPattern(mask, value));
    seq(|e|, k requires 0 <= k < |e| => ExpandSound(FloatingPattern(mask, value), k); ParseBinary(e[k]))
  }

  /** An address the mask allows: `1` where the mask says `One`, the value's bit where it says `Zero`. */
  predicate Allowed(mask: Mask, value: nat, a: nat)
  {
    a < Pow2(36) &&
    forall i | 0 <= i < 36 ::
      (mask[i] == One ==> BinaryString(a, 36)[i] == '1') &&
      (mask[i] == Zero ==> BinaryString(a, 36)[i] == Format036b(value)[i])
  }

  /** The mask's `DontCare` positions are the pattern's `X` positions. */
  lemma {:induction false} CountFloating(mask: seq<MaskValue>, pattern: string)
    requires |mask| == |pattern|
    requires forall i | 0 <= i < |mask| :: (mask[i] == DontCare <==> pattern[i] == 'X')
    ensures Count(pattern, 'X') == Count(mask, DontCare)
    decreases |mask|
  {
    if |mask| > 0 {
      CountFloating(mask[1..], pattern[1..]);
    }
  }

  /** A version 2 write reaches two to the number of `DontCare` positions addresses. */
  lemma AddressesCount(mask: Mask, value: nat)
    ensures |Addresses(mask, value)| == Pow2(Count(mask, DontCare))
  {
    var p := FloatingPattern(mask, value);
    ExpandCount(p);
    CountFloating(mask, p);
  }

  /** No address is listed twice. */
  lemma AddressesDistinct(mask: Mask, value: nat)
    ensures Distinct(Addresses(mask, value))
  {
    var p := FloatingPattern(mask, value);
    var e := Expand(p);
    var r := Addresses(mask, value);
    ExpandDistinct(p);
    forall i, j | 0 <= i < j < |r|
      ensures r[i] != r[j]
    {
      ExpandSound(p, i);
      ExpandSound(p, j);
      BinaryStringParse(e[i]);
      BinaryStringParse(e[j]);
    }
  }

  /** Every listed address is allowed by the mask. */
  lemma AddressesSound(mask: Mask, value: nat, k: nat)
    requires k < |Addresses(mask, value)|
    ensures Allowed(mask, value, Addresses(mask, value)[k])
  {
    var p := FloatingPattern(mask, value);
    var e := Expand(p);
    var a := Addresses(mask, value)[k];
    ExpandSound(p, k);
    BinaryStringParse(e[k]);
    assert BinaryString(a, 36) == e[k];
  }

  /** Every address the mask allows is listed. */
  lemma AddressesComplete(mask: Mask, value: nat, a: nat)
    requires Allowed(mask, value, a)
    ensures a in Addresses(mask, value)
  {
    var p := FloatingPattern(mask, value);
    var e := Expand(p);
    var t := BinaryString(a, 36);
    assert Fits(t, p);
    ExpandComplete(p, t);
    var k :| 0 <= k < |e| && e[k] == t;
    ParseBinaryStringSmall(a, 36);
    assert Addresses(mask, value)[k] == a;
  }

  /** The listed addresses are exactly the allowed ones. */
  lemma AddressesSpec(mask: Mask, value: nat)
    ensures |Addresses(mask, value)| == Pow2(Count(mask, DontCare))
    ensures Distinct(Addresses(mask, value))
    ensures forall a: nat :: a in Addresses(mask, value) <==> Allowed(mask, value, a)
  {
    var r := Addresses(mask, value);
    AddressesCount(mask, value);
    AddressesDistinct(mask, value);
    forall a: nat
      ensures a in r <==> Allowed(mask, value, a)
    {
      if a in r {
        var j :| 0 <= j < |r| && r[j] == a;
        AddressesSound(mask, value, j);
      }
      if Allowed(mask, value, a) {
        AddressesComplete(mask, value, a);
      }
    }
  }

  /** The inner loop of `Mask::apply_v2`: each prefix followed by `0` and by `1`, then the chunk. */
  method BranchAll(temp: seq<string>, part: string) returns (result: seq<string>)
    ensures result == Branch(temp, part)
  {
    result := [];
    var i := 0;
    while i < |temp|
      invariant 0 <= i <= |temp|
      invariant result == Branch(temp[..i], part)
    {
      assert temp[..i + 1][..i] == temp[..i];
      result := result + [temp[i] + "0" + part, temp[i] + "1" + part];
      i := i + 1;
    }
    assert temp[..i] == temp;
  }

  /**
   * The splitting loop of `Mask::apply_v2`: the chunk before the first `X`,
   * then for every further chunk each prefix branches on the `X` before it.
   */
  method ExpandPattern(pattern: string) returns (result: seq<string>)
    ensures result == Expand(pattern)
  {
    var parts := Split(pattern, "X");
    SplitPiecesFreeChar(pattern, 'X', 0);
    ExpandFixed(parts[0]);
    assert parts[..1] == [parts[0]];
    result := [parts[0]];
    var k := 1;
    while k < |parts|
      invariant 1 <= k <= |parts|
      invariant result == Expand(Join(parts[..k], "X"))
    {
      var part := parts[k];
      result := BranchAll(result, part);
      SplitPiecesFreeChar(pattern, 'X', k);
      ExpandChunk(Join(parts[..k], "X"), part);
      JoinSnoc(parts, "X", k);
      k := k + 1;
    }
    assert parts[..k] == parts;
    SplitJoin(pattern, "X");
  }

  /**
   * `Mask::apply_v2`: the pattern is cut at its `X` positions; starting from
   * the first piece, every floating bit doubles the list of prefixes, `0`
   * before `1`, each followed by the next piece; the strings are read back as
   * numbers.
   */
  method ApplyV2(mask: Mask, value: nat) returns (addresses: seq<nat>)
    ensures addresses == Addresses(mask, value)
    ensures |addresses| == Pow2(Count(mask, DontCare))
    ensures Distinct(addresses)
    ensures forall a: nat :: a in addresses <==> Allowed(mask, value, a)
  {
    var pattern := FloatingPattern(mask, value);
    var result := ExpandPattern(pattern);
    addresses := seq(|result|, j requires 0 <= j < |result| => ExpandSound(pattern, j); ParseBinary(result[j]));
    assert addresses == Addresses(mask, value);
    AddressesSpec(mask, value);
  }

  datatype ParseMaskValueError = UnknownCharError(c: char)

  datatype ParseMaskError =
    | ParseMaskValueError(valueError: ParseMaskValueError)
    | MaskMalformedInput(input: string)
    | MaskTooShort(expected: nat, actual: nat)

  datatype ParseWriteError =
    | WriteMalformedInput(input: string)
    | ParseDestinationError(destinationError: ParseIntError)
    | ParseValueError(valueError: ParseIntError)

  datatype ParseInstructionError =
    | ParseMaskError(maskError: ParseMaskError)
    | ParseWriteError(writeError: ParseWriteError)
    | MalformedInputError(input: string)

  /** A `mem[to] = value` instruction. */
  datatype Write = Write(to: nat, value: nat)

  datatype Instruction = MaskInstruction(mask: Mask) | WriteInstruction(write: Write)

  /** `MaskValue::try_from`: `0`, `1` or `X`, else an error naming the character. */
  function ParseMaskValue(c: char): (r: Result<MaskValue, ParseMaskValueError>)
    ensures r.Ok? <==> c in "01X"
    ensures r.Ok? ==> MaskChar(r.value) == c
    ensures r.Err? ==> r.error == UnknownCharError(c)
  {
    match c
    case '0' => Ok(Zero)
    case '1' => Ok(One)
    case 'X' => Ok(DontCare)
    case x => Err(UnknownCharError(x))
  }

  /** The character of each mask value. */
  function MaskChar(m: MaskValue): char
  {
    match m
    case Zero => '0'
    case One => '1'
    case DontCare => 'X'
  }

  /**
   * `Mask::from_str`: the text after the first ` = `, one mask value per
   * character (the first bad character is the error), and exactly 36 of them.
   */
  function ParseMask(s: string): (r: Result<Mask, ParseMaskError>)
    ensures |Split(s, " = ")| < 2 ==> r == Err(MaskMalformedInput(s))
    ensures r.Ok? <==> (|Split(s, " = ")| >= 2 && |Split(s, " = ")[1]| == 36 &&
      forall i | 0 <= i < 36 :: Split(s, " = ")[1][i] in "01X")
    ensures r.Ok? ==> forall i | 0 <= i < 36 :: MaskChar(r.value[i]) == Split(s, " = ")[1][i]
    ensures (|Split(s, " = ")| >= 2 && |Split(s, " = ")[1]| != 36
             && forall i | 0 <= i < |Split(s, " = ")[1]| :: Split(s, " = ")[1][i] in "01X")
      ==> r == Err(MaskTooShort(36, |Split(s, " = ")[1]|))
    ensures |Split(s, " = ")| >= 2 ==>
      forall i | 0 <= i < |Split(s, " = ")[1]| && Split(s, " = ")[1][i] !in "01X"
                 && (forall j | 0 <= j < i :: Split(s, " = ")[1][j] in "01X")
        :: r == Err(ParseMaskValueError(UnknownCharError(Split(s, " = ")[1][i])))
  {
    var pieces := Split(s, " = ");
    if |pieces| < 2 then Err(MaskMalformedInput(s))
    else
      match CollectAll(pieces[1], ParseMaskValue)
      case Err(e) =>
        CollectAllFirstError(pieces[1], ParseMaskValue);
        Err(ParseMaskValueError(e))
      case Ok(values) =>
        if |values| != 36 then Err(MaskTooShort(36, |values|))
        else Ok(values)
  }

  /** The text between `mem[` and `]`, when the text has that shape. */
  function Bracketed(p: string): (r: Option<string>)
    ensures r.Some? <==> |p| >= 5 && p[..4] == "mem[" && p[|p| - 1] == ']'
    ensures r.Some? ==> p == "mem[" + r.value + "]"
  {
    match StripPrefix(p, "mem[")
    case None => None
    case Some(afterPrefix) => StripSuffix(afterPrefix, "]")
  }

  /** The text put between `mem[` and `]` is found again. */
  lemma BracketedOf(inner: string)
    ensures Bracketed("mem[" + inner + "]") == Some(inner)
  {
    var p := "mem[" + inner + "]";
    assert p[..4] == "mem[" && p[|p| - 1] == ']';
    var v := Bracketed(p).value;
    assert |v| == |inner|;
    forall i | 0 <= i < |v|
      ensures v[i] == inner[i]
    {
      assert v[i] == p[i + 4];
    }
    assert v == inner;
  }

  /**
   * `Write::from_str`: `mem[` address `]` before the first ` = ` and the value
   * after it; a missing bracket or a missing value is malformed input, a bad
   * address or value is reported as such, in that order.
   */
  function ParseWrite(s: string): (r: Result<Write, ParseWriteError>)
    ensures var dest := Bracketed(Split(s, " = ")[0]);
      dest.None? ==> r == Err(WriteMalformedInput(s))
    ensures var dest := Bracketed(Split(s, " = ")[0]);
      dest.Some? && ParseNat(dest.value).None? ==> r == Err(ParseDestinationError(ParseIntError))
    ensures var pieces := Split(s, " = "); var dest := Bracketed(pieces[0]);
      dest.Some? && ParseNat(dest.value).Some? && |pieces| < 2 ==> r == Err(WriteMalformedInput(s))
    ensures var pieces := Split(s, " = "); var dest := Bracketed(pieces[0]);
      dest.Some? && ParseNat(dest.value).Some? && |pieces| >= 2 && ParseNat(pieces[1]).None?
      ==> r == Err(ParseValueError(ParseIntError))
    ensures var pieces := Split(s, " = "); var dest := Bracketed(pieces[0]);
      r.Ok? <==> (dest.Some? && ParseNat(dest.value).Some? && |pieces| >= 2 && ParseNat(pieces[1]).Some?)
    ensures var pieces := Split(s, " = ");
      r.Ok? ==> (Bracketed(pieces[0]).Some? && |pieces| >= 2 &&
        ParseNat(Bracketed(pieces[0]).value) == Some(r.value.to) && ParseNat(pieces[1]) == Some(r.value.value))
  {
    var pieces := Split(s, " = ");
    match Bracketed(pieces[0])
    case None => Err(WriteMalformedInput(s))
    case Some(inner) =>
      match ParseUsize(inner)
      case Err(e) => Err(ParseDestinationError(e))
      case Ok(to) =>
        if |pieces| < 2 then Err(WriteMalformedInput(s))
        else
          match ParseUsize(pieces[1])
          case Err(e) => Err(ParseValueError(e))
          case Ok(value) => Ok(Write(to, value))
  }

  /**
   * `Instruction::from_str`: a line starting with `mask` is a mask, one
   * starting with `mem` a write, anything else is malformed.
   */
  function ParseInstruction(s: string): (r: Result<Instruction, ParseInstructionError>)
    ensures StartsWith(s, "mask") ==> r == (match ParseMask(s)
      case Ok(m) => Ok(MaskInstruction(m)) case Err(e) => Err(ParseMaskError(e)))
    ensures !StartsWith(s, "mask") && StartsWith(s, "mem") ==> r == (match ParseWrite(s)
      case Ok(w) => Ok(WriteInstruction(w)) case Err(e) => Err(ParseWriteError(e)))
    ensures !StartsWith(s, "mask") && !StartsWith(s, "mem") ==> r == Err(MalformedInputError(s))
  {
    if StartsWith(s, "mask") then
      match ParseMask(s)
      case Ok(m) => Ok(MaskInstruction(m))
      case Err(e) => Err(ParseMaskError(e))
    else if StartsWith(s, "mem") then
      match ParseWrite(s)
      case Ok(w) => Ok(WriteInstruction(w))
      case Err(e) => Err(ParseWriteError(e))
    else
      Err(MalformedInputError(s))
  }

  /** `parse_instruction_list`: one instruction per line, the first error stops the parse. */
  function ParseInstructionList(input: string): (r: Result<seq<Instruction>, ParseInstructionError>)
    ensures r.Ok? <==> forall i | 0 <= i < |Lines(input)| :: ParseInstruction(Lines(input)[i]).Ok?
    ensures r.Ok? ==> |r.value| == |Lines(input)|
    ensures r.Ok? ==> forall i | 0 <= i < |r.value| :: ParseInstruction(Lines(input)[i]) == Ok(r.value[i])
  {
    CollectAll(Lines(input), ParseInstruction)
  }

  /** A mask instruction as it appears in the puzzle input. */
  function ShowMask(mask: Mask): string
  {
    "mask = " + MaskChars(mask)
  }

  /** A write instruction as it appears in the puzzle input. */
  function ShowWrite(w: Write): string
  {
    "mem[" + ShowNat(w.to) + "] = " + ShowNat(w.value)
  }

  /** ` = ` cannot start inside a text without spaces. */
  lemma NoSeparatorWithoutSpace(a: string, b: string)
    requires ' ' !in a
    ensures forall i: nat | i < |a| :: !OccursAt(a + b, " = ", i)
  {
    forall i: nat | i < |a|
      ensures !OccursAt(a + b, " = ", i)
    {
      assert (a + b)[i] == a[i] != ' ';
      if i + 3 <= |a + b| {
        assert (a + b)[i..i + 3][0] != ' ';
      }
    }
  }

  /** Digits contain no space. */
  lemma ShowNatNoSpace(n: nat)
    ensures ' ' !in ShowNat(n)
  {
    var d := ShowNat(n);
    forall i | 0 <= i < |d|
      ensures d[i] != ' '
    {
      assert IsDigit(d[i]);
    }
  }

  /** The characters of a mask, in order. */
  function MaskChars(mask: Mask): (chars: string)
    ensures |chars| == 36 && forall i | 0 <= i < 36 :: chars[i] == MaskChar(mask[i])
  {
    seq(36, i requires 0 <= i < 36 => MaskChar(mask[i]))
  }

  /** A printed mask line splits at ` = ` into `mask` and the mask's characters. */
  lemma SplitShowMask(mask: Mask)
    ensures Split(ShowMask(mask), " = ") == ["mask", MaskChars(mask)]
  {
    var chars := MaskChars(mask);
    assert ShowMask(mask) == "mask" + " = " + chars;
    assert forall i | 0 <= i < 36 :: chars[i] != ' ';
    assert "mask" + " = " + chars == "mask" + (" = " + chars);
    NoSeparatorWithoutSpace("mask", " = " + chars);
    NoSeparatorWithoutSpace(chars, "");
    assert chars + "" == chars;
    SplitInTwo("mask", " = ", chars);
  }

  /** A printed mask line parses back to the same mask. */
  lemma ParseShowMask(mask: Mask)
    ensures ParseInstruction(ShowMask(mask)) == Ok(MaskInstruction(mask))
  {
    var s := ShowMask(mask);
    SplitShowMask(mask);
    assert s[..4] == "mask";
    assert StartsWith(s, "mask");
    var r := ParseMask(s);
    assert r.Ok?;
    assert r.value == mask by {
      forall i | 0 <= i < 36
        ensures r.value[i] == mask[i]
      {
        assert MaskChar(r.value[i]) == MaskChar(mask[i]);
      }
    }
  }

  /** A printed write line splits at ` = ` into its destination and its value. */
  lemma SplitShowWrite(w: Write)
    ensures Split(ShowWrite(w), " = ") == ["mem[" + ShowNat(w.to) + "]", ShowNat(w.value)]
  {
    var value := ShowNat(w.value);
    var a := "mem[" + ShowNat(w.to) + "]";
    assert ShowWrite(w) == a + " = " + value;
    ShowNatNoSpace(w.to);
    ShowNatNoSpace(w.value);
    assert forall i | 0 <= i < |a| :: a[i] != ' ';
    NoSeparatorWithoutSpace(a, " = " + value);
    NoSeparatorWithoutSpace(value, "");
    assert value + "" == value;
    assert a + " = " + value == a + (" = " + value);
    SplitInTwo(a, " = ", value);
  }

  /** A printed write line parses back to the same write. */
  lemma ParseShowWrite(w: Write)
    ensures ParseInstruction(ShowWrite(w)) == Ok(WriteInstruction(w))
  {
    var s := ShowWrite(w);
    var a := "mem[" + ShowNat(w.to) + "]";
    SplitShowWrite(w);
    assert s[..4] == "mem[" && s[3] == '[';
    assert StartsWith(s, "mem") && !StartsWith(s, "mask");
    BracketedOf(ShowNat(w.to));
    ParseShowNat(w.to);
    ParseShowNat(w.value);
  }
}
