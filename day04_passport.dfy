/**
 * Day 4 (passport processing), the batch file: passports separated by blank
 * lines, each a whitespace-separated list of `key:value` fields.
 */
module Day04Passport {
  import opened Text
  import opened Seqs

  datatype FieldKind =
    | BirthYear
    | IssueYear
    | ExpirationYear
    | Height
    | HairColor
    | EyeColor
    | PassportID
    | CountryID
    | Unknown(name: string)

  type Field = (FieldKind, string)

  datatype Passport = Passport(fields: seq<Field>)

  datatype Batch = Batch(passports: seq<Passport>)

  /** `PassportFieldParse::from`: the eight known keys, anything else is `Unknown`. */
  function KindOf(s: string): (k: FieldKind)
    ensures k.Unknown? <==> s !in {"byr", "iyr", "eyr", "hgt", "hcl", "ecl", "pid", "cid"}
    ensures k.Unknown? ==> k.name == s
  {
    match s
    case "byr" => BirthYear
    case "iyr" => IssueYear
    case "eyr" => ExpirationYear
    case "hgt" => Height
    case "hcl" => HairColor
    case "ecl" => EyeColor
    case "pid" => PassportID
    case "cid" => CountryID
    case _ => Unknown(s)
  }

  /** Distinct keys give distinct kinds. */
  lemma KindOfInjective(s: string, t: string)
    requires KindOf(s) == KindOf(t)
    ensures s == t
  {
  }

  /**
   * One token `ID:VALUE`: the kind of the text before the first `:` and the
   * text between the first and a possible second `:`; no field without a `:`.
   */
  function ParseToken(token: string): (r: seq<Field>)
    ensures |r| <= 1
    ensures r == [] <==> ':' !in token
  {
    var parts := Split(token, ":");
    if |parts| < 2 then
      SplitWithoutAbsent(token);
      []
    else
      SplitHasSep(token);
      [(KindOf(parts[0]), parts[1])]
  }

  lemma SplitWithoutAbsent(token: string)
    ensures ':' in token ==> |Split(token, ":")| >= 2
  {
    if ':' in token {
      var i :| 0 <= i < |token| && token[i] == ':';
      assert token[i..i + 1] == ":";
      assert OccursAt(token, ":", i);
    }
  }

  lemma SplitHasSep(token: string)
    requires |Split(token, ":")| >= 2
    ensures ':' in token
  {
    var r := IndexOf(token, ":");
    assert r.Some?;
    var i := r.value;
    assert token[i..i + 1] == ":";
    assert token[i] == token[i..i + 1][0];
  }

  function ParseTokens(tokens: seq<string>): (r: seq<Field>)
    ensures |r| <= |tokens|
  {
    if tokens == [] then [] else ParseToken(tokens[0]) + ParseTokens(tokens[1..])
  }

  /** Token `t` holds a `:` and reads as field `f`. */
  predicate Gives(t: string, f: Field)
  {
    |Split(t, ":")| >= 2 && f == (KindOf(Split(t, ":")[0]), Split(t, ":")[1])
  }

  /** The fields are those of the tokens holding a `:`, each read as `ID:VALUE`. */
  lemma {:induction false} ParseTokensMember(tokens: seq<string>, f: Field)
    ensures f in ParseTokens(tokens) <==> exists t | t in tokens :: Gives(t, f)
  {
    if tokens != [] {
      var t, rest := tokens[0], tokens[1..];
      ParseTokensMember(rest, f);
      assert ParseTokens(tokens) == ParseToken(t) + ParseTokens(rest);
      assert f in ParseToken(t) <==> Gives(t, f);
      if f in ParseTokens(tokens) {
        if f in ParseToken(t) {
          assert t in tokens;
        } else {
          var u :| u in rest && Gives(u, f);
          assert u in tokens;
        }
      }
      if exists u | u in tokens :: Gives(u, f) {
        var u :| u in tokens && Gives(u, f);
        if u != t {
          assert u in rest;
        }
      }
    }
  }

  /** `PassportParse::from`: the fields of the whitespace-separated tokens, in order. */
  function ParsePassport(s: string): (p: Passport)
    ensures |p.fields| <= |SplitWhitespace(s)|
  {
    Passport(ParseTokens(SplitWhitespace(s)))
  }

  /** `Batch::from`: one passport per blank-line-separated chunk. */
  function ParseBatch(s: string): (b: Batch)
    ensures |b.passports| == |Split(s, "\n\n")|
    ensures forall i | 0 <= i < |b.passports| :: b.passports[i] == ParsePassport(Split(s, "\n\n")[i])
  {
    var chunks := Split(s, "\n\n");
    Batch(seq(|chunks|, i requires 0 <= i < |chunks| => ParsePassport(chunks[i])))
  }

  function KindSet(p: Passport): set<FieldKind>
  {
    set f | f in p.fields :: f.0
  }

  /**
   * `contain_fields`: the requirements, as a set, meet the passport's kinds
   * in as many elements as there are requirements.
   */
  predicate ContainFields(p: Passport, requirements: seq<FieldKind>)
  {
    |(set k | k in requirements) * KindSet(p)| == |requirements|
  }

  /**
   * With distinct requirements, a passport passes iff it has every required
   * kind; with a repeated requirement no passport passes.
   */
  lemma ContainFieldsSpec(p: Passport, requirements: seq<FieldKind>)
    ensures Distinct(requirements) ==>
      (ContainFields(p, requirements) <==> forall k | k in requirements :: k in KindSet(p))
    ensures !Distinct(requirements) ==> !ContainFields(p, requirements)
  {
    var reqs := set k | k in requirements;
    var both := reqs * KindSet(p);
    if Distinct(requirements) {
      DistinctCard(requirements);
      if forall k | k in requirements :: k in KindSet(p) {
        assert both == reqs;
      } else {
        var k :| k in requirements && k !in KindSet(p);
        assert both <= reqs - {k};
        SubsetCard(both, reqs - {k});
      }
    } else {
      var i, j :| 0 <= i < j < |requirements| && requirements[i] == requirements[j];
      SetOfSeqSmaller(requirements, i, j);
      SubsetCard(both, reqs);
    }
  }

  lemma SubsetCard<T>(a: set<T>, b: set<T>)
    requires a <= b
    ensures |a| <= |b|
  {
    assert b == a + (b - a);
  }

  /** A repeated element makes the set of elements smaller than the sequence. */
  lemma SetOfSeqSmaller<T>(s: seq<T>, i: nat, j: nat)
    requires i < j < |s| && s[i] == s[j]
    ensures |set x | x in s| < |s|
  {
    var without := s[..j] + s[j + 1..];
    assert (set x | x in s) == (set x | x in without) by {
      forall k | 0 <= k < |s|
        ensures s[k] in without
      {
        if k < j {
          assert without[k] == s[k];
        } else if k > j {
          assert without[k - 1] == s[k];
        } else {
          assert without[i] == s[k];
        }
      }
      forall k | 0 <= k < |without|
        ensures without[k] in s
      {
        if k >= j {
          assert without[k] == s[k + 1];
        }
      }
    }
    SetOfSeqAtMost(without);
  }

  lemma {:induction false} SetOfSeqAtMost<T>(s: seq<T>)
    ensures |set x | x in s| <= |s|
  {
    if s != [] {
      var init := s[..|s| - 1];
      SetOfSeqAtMost(init);
      assert s == init + [s[|s| - 1]];
      assert (set x | x in s) == (set x | x in init) + {s[|s| - 1]};
    }
  }

  /** `get_passports_containing_fields`: the passports that pass, in batch order. */
  function PassportsContaining(b: Batch, requirements: seq<FieldKind>): (r: seq<Passport>)
    ensures |r| <= |b.passports|
    ensures forall p | p in r :: p in b.passports && ContainFields(p, requirements)
    ensures forall p | p in b.passports && ContainFields(p, requirements) :: p in r
    ensures forall p :: multiset(r)[p] == if ContainFields(p, requirements) then multiset(b.passports)[p] else 0
    ensures Embeds(r, b.passports)
  {
    FilterMultiset(b.passports, p => ContainFields(p, requirements));
    FilterEmbeds(b.passports, p => ContainFields(p, requirements));
    Filter(b.passports, p => ContainFields(p, requirements))
  }
}
