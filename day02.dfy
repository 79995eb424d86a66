/**
 * Day 2 (password philosophy): each line is `MIN-MAX C: PASSWORD`. Part one
 * wants `C` to occur between MIN and MAX times; part two wants `C` at exactly
 * one of the 1-based positions MIN and MAX. Passwords are taken as ASCII, so
 * byte length and character count agree.
 */
module Day02 {
  import opened Wrappers
  import opened Text
  import opened Seqs

  datatype Requirement = Requirement(min: nat, max: nat, letter: char)

  /** Where the input was malformed. */
  datatype Location =
    | SpaceSplitBetweenNumeralsAndChar
    | HyphenSplitBetweenNumerals
    | MoreThanOneChar
    | SplitBetweenRequirementAndPassword

  datatype RequirementParseError =
    | Malformed(location: Location)
    | MinParseError
    | MaxParseError

  datatype LineParseError =
    | LineMalformed(location: Location)
    | RequirementError(cause: RequirementParseError)

  /** `check_password_part1`: the character occurs between `min` and `max` times. */
  function CheckPart1(req: Requirement, password: string): (valid: bool)
    ensures valid <==> req.min <= multiset(password)[req.letter] <= req.max
  {
    CountIsMultiplicity(password, req.letter);
    req.min <= Count(password, req.letter) && req.max >= Count(password, req.letter)
  }

  /**
   * `check_password_part2`: false when the password is too short for either
   * position, otherwise whether exactly one of the two positions holds the
   * character. The positions are decremented and subtracted as unsigned
   * numbers before anything else, which panics unless `1 <= min < max`.
   */
  function CheckPart2(req: Requirement, password: string): (valid: bool)
    requires 1 <= req.min < req.max
    ensures |password| < req.max ==> !valid
    ensures |password| >= req.max ==>
      (valid <==> (password[req.min - 1] == req.letter) != (password[req.max - 1] == req.letter))
  {
    var min := req.min - 1;
    var max := req.max - 1;
    var diff := max - min - 1;
    if |password| <= min || |password| <= max then false
    else
      var rest := password[min + 1..];
      var minChar := password[min];
      var maxChar := rest[diff];
      assert maxChar == password[max];
      (minChar == req.letter) != (maxChar == req.letter)
  }

  /**
   * `Requirement::from_str`: `MIN-MAX C`. The checks run in order: two
   * space-separated parts, two hyphen-separated numbers, MIN, MAX, then
   * exactly one character.
   */
  function ParseRequirement(s: string): (r: Result<Requirement, RequirementParseError>)
    ensures r.Ok? ==> |Split(s, " ")| == 2 && |Split(Split(s, " ")[0], "-")| == 2
    ensures r.Ok? ==> Some(r.value.min) == ParseNat(Split(Split(s, " ")[0], "-")[0])
    ensures r.Ok? ==> Some(r.value.max) == ParseNat(Split(Split(s, " ")[0], "-")[1])
    ensures r.Ok? ==> Split(s, " ")[1] == [r.value.letter]
    ensures |Split(s, " ")| != 2 ==> r == Err(Malformed(SpaceSplitBetweenNumeralsAndChar))
    ensures |Split(s, " ")| == 2 && |Split(Split(s, " ")[0], "-")| != 2 ==> r == Err(Malformed(HyphenSplitBetweenNumerals))
    ensures (|Split(s, " ")| == 2 && |Split(Split(s, " ")[0], "-")| == 2
             && ParseNat(Split(Split(s, " ")[0], "-")[0]).None?)
      ==> r == Err(MinParseError)
    ensures (|Split(s, " ")| == 2 && |Split(Split(s, " ")[0], "-")| == 2
             && ParseNat(Split(Split(s, " ")[0], "-")[0]).Some?
             && ParseNat(Split(Split(s, " ")[0], "-")[1]).None?)
      ==> r == Err(MaxParseError)
    ensures (|Split(s, " ")| == 2 && |Split(Split(s, " ")[0], "-")| == 2
             && ParseNat(Split(Split(s, " ")[0], "-")[0]).Some? && ParseNat(Split(Split(s, " ")[0], "-")[1]).Some?
             && |Split(s, " ")[1]| != 1)
      ==> r == Err(Malformed(MoreThanOneChar))
    ensures r.Ok? <==> (|Split(s, " ")| == 2 && |Split(Split(s, " ")[0], "-")| == 2
      && ParseNat(Split(Split(s, " ")[0], "-")[0]).Some? && ParseNat(Split(Split(s, " ")[0], "-")[1]).Some?
      && |Split(s, " ")[1]| == 1)
  {
    var spaceSplit := Split(s, " ");
    if |spaceSplit| != 2 then Err(Malformed(SpaceSplitBetweenNumeralsAndChar))
    else
      var hyphenSplit := Split(spaceSplit[0], "-");
      if |hyphenSplit| != 2 then Err(Malformed(HyphenSplitBetweenNumerals))
      else
        match ParseNat(hyphenSplit[0])
        case None => Err(MinParseError)
        case Some(min) =>
          match ParseNat(hyphenSplit[1])
          case None => Err(MaxParseError)
          case Some(max) =>
            if |spaceSplit[1]| != 1 then Err(Malformed(MoreThanOneChar))
            else Ok(Requirement(min, max, spaceSplit[1][0]))
  }

  /**
   * `RequirementAndPassword::try_from`: `REQUIREMENT: PASSWORD`; the password
   * is the second part as it stands.
   */
  function ParseLine(s: string): (r: Result<(Requirement, string), LineParseError>)
    ensures r.Ok? <==> |Split(s, ": ")| == 2 && ParseRequirement(Split(s, ": ")[0]).Ok?
    ensures |Split(s, ": ")| != 2 ==> r == Err(LineMalformed(SplitBetweenRequirementAndPassword))
    ensures |Split(s, ": ")| == 2 && ParseRequirement(Split(s, ": ")[0]).Err? ==>
      r == Err(RequirementError(ParseRequirement(Split(s, ": ")[0]).error))
    ensures r.Ok? ==> r.value.1 == Split(s, ": ")[1]
    ensures r.Ok? ==> ParseRequirement(Split(s, ": ")[0]) == Ok(r.value.0)
  {
    var split := Split(s, ": ");
    if |split| != 2 then Err(LineMalformed(SplitBetweenRequirementAndPassword))
    else
      match ParseRequirement(split[0])
      case Err(e) => Err(RequirementError(e))
      case Ok(req) => Ok((req, split[1]))
  }

  /** How a requirement is written in the input. */
  function ShowRequirement(req: Requirement): string
  {
    ShowNat(req.min) + "-" + ShowNat(req.max) + " " + [req.letter]
  }

  lemma DigitsAvoid(s: string, c: char)
    requires AllDigits(s) && !IsDigit(c)
    ensures c !in s
  {
  }

  /** A written requirement parses back to itself, unless its character is a space. */
  lemma ParseShowRequirement(req: Requirement)
    requires req.letter != ' '
    ensures ParseRequirement(ShowRequirement(req)) == Ok(req)
  {
    var lo, hi := ShowNat(req.min), ShowNat(req.max);
    DigitsAvoid(lo, ' ');
    DigitsAvoid(hi, ' ');
    DigitsAvoid(lo, '-');
    DigitsAvoid(hi, '-');
    assert ' ' !in lo + "-" + hi;
    SplitAtChar(lo + "-" + hi, ' ', [req.letter]);
    SplitAtChar(lo, '-', hi);
    ParseShowNat(req.min);
    ParseShowNat(req.max);
    assert ShowRequirement(req) == (lo + "-" + hi) + [' '] + [req.letter];
    assert lo + "-" + hi == lo + ['-'] + hi;
  }

  /**
   * A line made of a requirement without `:`, the separator and a password
   * without `": "` parses to that requirement and that exact password.
   */
  lemma ParseLineParts(req: string, password: string)
    requires ':' !in req
    requires forall i: nat :: !OccursAt(password, ": ", i)
    ensures ParseLine(req + ": " + password) ==
      match ParseRequirement(req)
      case Ok(r) => Ok((r, password))
      case Err(e) => Err(RequirementError(e))
  {
    var s := req + ": " + password;
    forall i: nat | i < |req|
      ensures !OccursAt(s, ": ", i)
    {
      assert s[i] == req[i];
    }
    SplitInTwo(req, ": ", password);
  }
}
