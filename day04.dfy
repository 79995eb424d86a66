/**
 * Day 4 (passport processing), the field validators of part two and the
 * passport check that applies them to the required fields.
 */
module Day04 {
  import opened Wrappers
  import opened Text
  import opened Seqs
  import opened Day04Passport

  /** `get_requirements`: the seven fields a passport must have; the country is optional. */
  function Requirements(): (r: seq<FieldKind>)
    ensures |r| == 7 && Distinct(r)
    ensures CountryID !in r && forall k | k in r :: !k.Unknown?
  {
    [BirthYear, IssueYear, ExpirationYear, Height, HairColor, EyeColor, PassportID]
  }

  /** `validate_year`: an unsigned number within the inclusive bounds. */
  predicate ValidateYear(value: string, lo: nat, hi: nat)
  {
    match ParseNat(value)
    case Some(year) => lo <= year <= hi
    case None => false
  }

  /** A written number is a valid year iff it lies within the bounds. */
  lemma ValidateYearShow(n: nat, lo: nat, hi: nat)
    ensures ValidateYear(ShowNat(n), lo, hi) <==> lo <= n <= hi
  {
    ParseShowNat(n);
  }

  /**
   * `validate_height`: a number with suffix `cm` in 150..=193, or else one
   * with suffix `in` in 59..=76.
   */
  predicate ValidateHeight(value: string)
  {
    match StripSuffix(value, "cm")
    case Some(cm) => (match ParseNat(cm) case Some(h) => 150 <= h <= 193 case None => false)
    case None =>
      match StripSuffix(value, "in")
      case Some(inches) => (match ParseNat(inches) case Some(h) => 59 <= h <= 76 case None => false)
      case None => false
  }

  /** A written height in centimetres is valid iff it lies in 150..=193. */
  lemma ValidateHeightCm(n: nat)
    ensures ValidateHeight(ShowNat(n) + "cm") <==> 150 <= n <= 193
  {
    ParseShowNat(n);
    var cm := ShowNat(n) + "cm";
    assert cm[..|cm| - 2] == ShowNat(n) && cm[|cm| - 2..] == "cm";
  }

  /** A written height in inches is valid iff it lies in 59..=76. */
  lemma ValidateHeightIn(n: nat)
    ensures ValidateHeight(ShowNat(n) + "in") <==> 59 <= n <= 76
  {
    ParseShowNat(n);
    var inches := ShowNat(n) + "in";
    assert inches[..|inches| - 2] == ShowNat(n) && inches[|inches| - 2..] == "in";
    assert !EndsWith(inches, "cm");
  }

  /** A height without either unit is never valid. */
  lemma ValidateHeightNeedsUnit(value: string)
    requires !EndsWith(value, "cm") && !EndsWith(value, "in")
    ensures !ValidateHeight(value)
  {
  }

  predicate IsHexDigit(c: char)
  {
    '0' <= c <= '9' || 'a' <= c <= 'f'
  }

  /** Number of characters of `s` satisfying `p`. */
  function CountWhere(s: string, p: char -> bool): (n: nat)
    ensures n <= |s|
  {
    if s == [] then 0 else (if p(s[0]) then 1 else 0) + CountWhere(s[1..], p)
  }

  /**
   * `validate_hair_color`: a leading `#` and exactly six characters from
   * `0-9a-f` after it; other characters are not rejected.
   */
  predicate ValidateHairColor(value: string): (valid: bool)
    ensures valid ==> |value| >= 7 && value[0] == '#'
    ensures (forall i | 1 <= i < |value| :: IsHexDigit(value[i]))
      ==> (valid <==> |value| == 7 && value[0] == '#')
  {
    match StripPrefix(value, "#")
    case Some(rest) =>
      assert rest == value[1..];
      CountWhereAllIf(rest, IsHexDigit);
      CountWhere(rest, IsHexDigit) == 6
    case None => false
  }

  /** `validate_eye_color`: one of the seven colour codes. */
  predicate ValidateEyeColor(value: string): (valid: bool)
    ensures valid ==> |value| == 3
    ensures valid <==> value == "amb" || value == "blu" || value == "brn" || value == "gry"
                       || value == "grn" || value == "hzl" || value == "oth"
  {
    value in {"amb", "blu", "brn", "gry", "grn", "hzl", "oth"}
  }

  /** `validate_passport_id`: exactly nine decimal digits; other characters are not rejected. */
  predicate ValidatePassportId(value: string): (valid: bool)
    ensures valid ==> |value| >= 9
    ensures AllDigits(value) ==> (valid <==> |value| == 9)
  {
    CountWhereAllIf(value, IsDigit);
    CountWhere(value, IsDigit) == 9
  }

  /** A string holding nothing but `n` characters that pass counts `n`. */
  lemma {:induction false} CountWhereAll(s: string, p: char -> bool)
    requires forall i | 0 <= i < |s| :: p(s[i])
    ensures CountWhere(s, p) == |s|
  {
    if s != [] {
      CountWhereAll(s[1..], p);
    }
  }

  lemma CountWhereAllIf(s: string, p: char -> bool)
    ensures (forall i | 0 <= i < |s| :: p(s[i])) ==> CountWhere(s, p) == |s|
  {
    if forall i | 0 <= i < |s| :: p(s[i]) {
      CountWhereAll(s, p);
    }
  }

  lemma {:induction false} CountWhereAppend(a: string, b: string, p: char -> bool)
    ensures CountWhere(a + b, p) == CountWhere(a, p) + CountWhere(b, p)
  {
    if a != [] {
      assert (a + b)[0] == a[0] && (a + b)[1..] == a[1..] + b;
      CountWhereAppend(a[1..], b, p);
    } else {
      assert a + b == b;
    }
  }

  /**
   * The checks count rather than match: a nine-digit id stays valid with
   * letters mixed in, and so does a six-digit colour.
   */
  lemma CountingAcceptsExtras(digits: string, junk: string)
    requires |digits| == 9 && AllDigits(digits)
    requires forall i | 0 <= i < |junk| :: !IsDigit(junk[i]) && !IsHexDigit(junk[i])
    ensures ValidatePassportId(digits + junk)
    ensures ValidateHairColor("#" + digits[..6] + junk)
  {
    CountWhereAll(digits, IsDigit);
    CountWhereAppend(digits, junk, IsDigit);
    CountWhereNone(junk, IsDigit);
    var six := digits[..6];
    CountWhereAll(six, IsHexDigit);
    CountWhereAppend(six, junk, IsHexDigit);
    CountWhereNone(junk, IsHexDigit);
    var colour := "#" + six + junk;
    assert colour[1..] == six + junk;
  }

  lemma {:induction false} CountWhereNone(s: string, p: char -> bool)
    requires forall i | 0 <= i < |s| :: !p(s[i])
    ensures CountWhere(s, p) == 0
  {
    if s != [] {
      CountWhereNone(s[1..], p);
    }
  }

  /**
   * `is_valid_field`: the validator of the field's kind. The country and
   * unknown kinds are unreachable (the source panics), so they are excluded.
   */
  predicate IsValidField(field: Field)
    requires field.0 != CountryID && !field.0.Unknown?
  {
    match field.0
    case BirthYear => ValidateYear(field.1, 1920, 2002)
    case IssueYear => ValidateYear(field.1, 2010, 2020)
    case ExpirationYear => ValidateYear(field.1, 2020, 2030)
    case Height => ValidateHeight(field.1)
    case HairColor => ValidateHairColor(field.1)
    case EyeColor => ValidateEyeColor(field.1)
    case PassportID => ValidatePassportId(field.1)
  }

  /**
   * `is_valid_passport`: every field whose kind is among `kinds` is valid;
   * other fields are ignored.
   */
  predicate IsValidPassport(p: Passport, kinds: seq<FieldKind>)
    requires CountryID !in kinds && forall k | k in kinds :: !k.Unknown?
  {
    forall i | 0 <= i < |p.fields| && p.fields[i].0 in kinds :: IsValidField(p.fields[i])
  }

  /** Fields outside the required kinds never make a passport invalid. */
  lemma IgnoredFieldsDoNotMatter(p: Passport, extra: Field)
    requires extra.0 !in Requirements()
    ensures IsValidPassport(Passport(p.fields + [extra]), Requirements()) <==> IsValidPassport(p, Requirements())
  {
    var q := Passport(p.fields + [extra]);
    assert forall i | 0 <= i < |p.fields| :: q.fields[i] == p.fields[i];
  }

  /** Part two: the passports that have all required fields and whose required fields are valid. */
  function ValidPassports(b: Batch): (r: seq<Passport>)
    ensures forall p | p in r :: p in b.passports && ContainFields(p, Requirements()) && IsValidPassport(p, Requirements())
    ensures forall p | p in b.passports && ContainFields(p, Requirements()) && IsValidPassport(p, Requirements()) :: p in r
    ensures forall p :: multiset(r)[p] ==
                        if ContainFields(p, Requirements()) && IsValidPassport(p, Requirements())
                        then multiset(b.passports)[p] else 0
    ensures Embeds(r, b.passports)
  {
    var containing := PassportsContaining(b, Requirements());
    FilterMultiset(containing, p => IsValidPassport(p, Requirements()));
    FilterEmbeds(containing, p => IsValidPassport(p, Requirements()));
    EmbedsTrans(Filter(containing, p => IsValidPassport(p, Requirements())), containing, b.passports);
    Filter(containing, p => IsValidPassport(p, Requirements()))
  }
}
