/**
 * Day 16 (ticket translation): the ticket rules, the tickets, which values
 * and tickets are valid, and the parsers of rules and tickets.
 *
 * A rule is a named list of inclusive ranges; the rules are a map from the
 * name to its ranges (the iteration order of the source's hash map never
 * shows in a result).
 */
module Day16Ticket {
  import opened Wrappers
  import opened Text
  import opened Seqs

  /** `RangeInclusive<usize>`: `lo..=hi`, empty when `lo > hi`. */
  datatype Range = Range(lo: nat, hi: nat)
  {
    predicate Contains(v: nat)
    {
      lo <= v <= hi
    }
  }

  type Rules = map<string, seq<Range>>

  datatype Ticket = Ticket(values: seq<nat>)

  /** Number of values on a well-formed ticket. */
  const Width := 20

  /** Some range of the rule contains `v` (`ranges.iter().any(|range| range.contains(v))`). */
  predicate RuleAccepts(ranges: seq<Range>, v: nat)
  {
    exists i | 0 <= i < |ranges| :: ranges[i].Contains(v)
  }

  /** Some rule accepts `v`. */
  predicate ValidValue(rules: Rules, v: nat)
  {
    exists name | name in rules.Keys :: RuleAccepts(rules[name], v)
  }

  /** `TicketRules::is_valid`: every value of the ticket is accepted by some rule. */
  predicate IsValid(rules: Rules, t: Ticket)
  {
    forall i | 0 <= i < |t.values| :: ValidValue(rules, t.values[i])
  }

  /** The values no rule accepts, in ticket order, repetitions kept. */
  function InvalidValues(rules: Rules, values: seq<nat>): (r: seq<nat>)
    ensures |r| <= |values|
    decreases |values|
  {
    if values == [] then []
    else
      var last := values[|values| - 1];
      InvalidValues(rules, values[..|values| - 1]) + (if ValidValue(rules, last) then [] else [last])
  }

  /** The invalid values are exactly the ticket's values that no rule accepts. */
  lemma {:induction false} InvalidValuesMembers(rules: Rules, values: seq<nat>)
    ensures forall x :: x in InvalidValues(rules, values) <==> x in values && !ValidValue(rules, x)
    decreases |values|
  {
    if values != [] {
      var init := values[..|values| - 1];
      InvalidValuesMembers(rules, init);
      assert values == init + [values[|values| - 1]];
    }
  }

  /** An invalid value occurs as often among the invalid values as on the ticket; a valid one not at all. */
  lemma {:induction false} InvalidValuesCount(rules: Rules, values: seq<nat>, x: nat)
    ensures Count(InvalidValues(rules, values), x) == if ValidValue(rules, x) then 0 else Count(values, x)
    decreases |values|
  {
    if values != [] {
      var init := values[..|values| - 1];
      var last := values[|values| - 1];
      InvalidValuesCount(rules, init, x);
      assert values == init + [last];
      CountAppend(init, [last], x);
      CountAppend(InvalidValues(rules, init), if ValidValue(rules, last) then [] else [last], x);
    }
  }

  /** A ticket is valid exactly when it has no invalid value. */
  lemma ValidIffNoInvalidValues(rules: Rules, t: Ticket)
    ensures IsValid(rules, t) <==> InvalidValues(rules, t.values) == []
  {
    var r := InvalidValues(rules, t.values);
    InvalidValuesMembers(rules, t.values);
    assert |r| > 0 ==> r[0] in r && r[0] in t.values && !ValidValue(rules, r[0]);
    if !IsValid(rules, t) {
      var i :| 0 <= i < |t.values| && !ValidValue(rules, t.values[i]);
      assert t.values[i] in r;
    }
  }

  /**
   * `TicketRules::get_general_invalid_values`: walks the ticket and keeps
   * each value that no rule accepts.
   */
  method GetGeneralInvalidValues(rules: Rules, t: Ticket) returns (result: seq<nat>)
    ensures result == InvalidValues(rules, t.values)
  {
    result := [];
    var i := 0;
    while i < |t.values|
      invariant 0 <= i <= |t.values|
      invariant result == InvalidValues(rules, t.values[..i])
    {
      var value := t.values[i];
      assert t.values[..i + 1][..i] == t.values[..i];
      if !ValidValue(rules, value) {
        result := result + [value];
      }
      i := i + 1;
    }
    assert t.values[..i] == t.values;
  }

  /** The names of the rules accepting `v`. */
  function ValidRuleSet(rules: Rules, v: nat): set<string>
  {
    set name | name in rules.Keys && RuleAccepts(rules[name], v)
  }

  /** Some rule accepts a value exactly when the set of rules accepting it is not empty. */
  lemma ValidRuleSetNonEmpty(rules: Rules, v: nat)
    ensures ValidValue(rules, v) <==> ValidRuleSet(rules, v) != {}
  {
    if ValidValue(rules, v) {
      var name :| name in rules.Keys && RuleAccepts(rules[name], v);
      assert name in ValidRuleSet(rules, v);
    }
  }

  /** `TicketRules::get_all_rule_indexes`: the names of all rules. */
  function AllRuleIndexes(rules: Rules): set<string>
  {
    rules.Keys
  }

  /**
   * `TicketRules::get_valid_rule_for`: walks the rules and collects the name
   * of each rule with a range containing `value`.
   */
  method GetValidRuleFor(rules: Rules, value: nat) returns (result: set<string>)
    ensures forall name :: name in result <==> name in rules && RuleAccepts(rules[name], value)
    ensures result == ValidRuleSet(rules, value)
    ensures result <= AllRuleIndexes(rules)
  {
    result := {};
    var rest := rules.Keys;
    while rest != {}
      invariant rest <= rules.Keys
      invariant result == set name | name in rules.Keys - rest && RuleAccepts(rules[name], value)
      decreases rest
    {
      var name :| name in rest;
      if RuleAccepts(rules[name], value) {
        result := result + {name};
      }
      rest := rest - {name};
    }
  }

  /** The tickets every value of which some rule accepts, in order. */
  function ValidTickets(rules: Rules, tickets: seq<Ticket>): (r: seq<Ticket>)
    ensures |r| <= |tickets|
    decreases |tickets|
  {
    if tickets == [] then []
    else
      var last := tickets[|tickets| - 1];
      ValidTickets(rules, tickets[..|tickets| - 1]) + (if IsValid(rules, last) then [last] else [])
  }

  /** The kept tickets are exactly the valid ones among the given tickets. */
  lemma {:induction false} ValidTicketsMembers(rules: Rules, tickets: seq<Ticket>)
    ensures forall t :: t in ValidTickets(rules, tickets) <==> t in tickets && IsValid(rules, t)
    decreases |tickets|
  {
    if tickets != [] {
      var init := tickets[..|tickets| - 1];
      var last := tickets[|tickets| - 1];
      ValidTicketsMembers(rules, init);
      assert tickets == init + [last];
    }
  }

  /** A valid ticket is kept as often as it occurs; an invalid one is dropped every time. */
  lemma {:induction false} ValidTicketsCount(rules: Rules, tickets: seq<Ticket>, t: Ticket)
    ensures Count(ValidTickets(rules, tickets), t) == if IsValid(rules, t) then Count(tickets, t) else 0
    decreases |tickets|
  {
    if tickets != [] {
      var init := tickets[..|tickets| - 1];
      var last := tickets[|tickets| - 1];
      ValidTicketsCount(rules, init, t);
      assert tickets == init + [last];
      CountAppend(init, [last], t);
      CountAppend(ValidTickets(rules, init), if IsValid(rules, last) then [last] else [], t);
    }
  }

  /** Keeping the valid tickets twice keeps the same tickets as once. */
  lemma {:induction false} ValidTicketsIdempotent(rules: Rules, tickets: seq<Ticket>)
    ensures ValidTickets(rules, ValidTickets(rules, tickets)) == ValidTickets(rules, tickets)
    decreases |tickets|
  {
    if tickets != [] {
      var init := tickets[..|tickets| - 1];
      var last := tickets[|tickets| - 1];
      var kept := ValidTickets(rules, init);
      ValidTicketsIdempotent(rules, init);
      if IsValid(rules, last) {
        var both := kept + [last];
        assert ValidTickets(rules, tickets) == both;
        assert both[..|both| - 1] == kept;
        assert both[|both| - 1] == last;
        assert ValidTickets(rules, both) == ValidTickets(rules, kept) + [last];
      } else {
        assert ValidTickets(rules, tickets) == kept + [];
        assert kept + [] == kept;
      }
    }
  }

  /**
   * `Input::get_general_invalid_values_of_other_tickets`: the invalid values
   * of all tickets, ticket after ticket.
   */
  function AllInvalidValues(rules: Rules, tickets: seq<Ticket>): (r: seq<nat>)
    decreases |tickets|
  {
    if tickets == [] then []
    else AllInvalidValues(rules, tickets[..|tickets| - 1]) + InvalidValues(rules, tickets[|tickets| - 1].values)
  }

  /** `x` is among the invalid values of all tickets exactly when some ticket holds it and no rule accepts it. */
  lemma {:induction false} AllInvalidValuesMember(rules: Rules, tickets: seq<Ticket>, x: nat)
    ensures x in AllInvalidValues(rules, tickets) <==>
      (exists k | 0 <= k < |tickets| :: x in tickets[k].values) && !ValidValue(rules, x)
    decreases |tickets|
  {
    if tickets != [] {
      var init := tickets[..|tickets| - 1];
      var last := tickets[|tickets| - 1];
      var before := AllInvalidValues(rules, init);
      var here := InvalidValues(rules, last.values);
      AllInvalidValuesMember(rules, init, x);
      InvalidValuesMembers(rules, last.values);
      assert AllInvalidValues(rules, tickets) == before + here;
      assert x in before + here <==> x in before || x in here;
      if exists k | 0 <= k < |tickets| :: x in tickets[k].values {
        var k :| 0 <= k < |tickets| && x in tickets[k].values;
        if k < |init| {
          assert x in init[k].values;
        }
      }
      if exists k | 0 <= k < |init| :: x in init[k].values {
        var k :| 0 <= k < |init| && x in init[k].values;
        assert x in tickets[k].values;
      }
    }
  }

  /** The ticket scanning error rate: the sum of all invalid values. */
  function ErrorRate(rules: Rules, tickets: seq<Ticket>): int
  {
    Sum(AllInvalidValues(rules, tickets))
  }

  /** Tickets that are all valid have no invalid value, so their error rate is zero. */
  lemma {:induction false} AllValidNoInvalid(rules: Rules, tickets: seq<Ticket>)
    requires forall k | 0 <= k < |tickets| :: IsValid(rules, tickets[k])
    ensures AllInvalidValues(rules, tickets) == []
    ensures ErrorRate(rules, tickets) == 0
    decreases |tickets|
  {
    if tickets != [] {
      AllValidNoInvalid(rules, tickets[..|tickets| - 1]);
      ValidIffNoInvalidValues(rules, tickets[|tickets| - 1]);
    }
  }

  /** After dropping the invalid tickets, nothing adds to the error rate. */
  lemma CleanupClearsErrorRate(rules: Rules, tickets: seq<Ticket>)
    ensures AllInvalidValues(rules, ValidTickets(rules, tickets)) == []
    ensures ErrorRate(rules, ValidTickets(rules, tickets)) == 0
  {
    var kept := ValidTickets(rules, tickets);
    ValidTicketsMembers(rules, tickets);
    assert forall k | 0 <= k < |kept| :: kept[k] in kept;
    AllValidNoInvalid(rules, kept);
  }

  // Parsing

  datatype ParseTicketRulesError =
    | RulesMalformedInput
    | RulesParseIntError(error: ParseIntError)

  datatype ParseTicketError =
    | NotEnoughValues(expected: nat, found: nat)
    | TicketParseIntError(error: ParseIntError)

  /** `str::parse::<usize>` inside a rule. */
  function ParseRuleNumber(s: string): Result<nat, ParseTicketRulesError>
  {
    match ParseUsize(s)
    case Ok(n) => Ok(n)
    case Err(e) => Err(RulesParseIntError(e))
  }

  /** One `lo-hi` range of a rule: exactly two pieces around `-`, both unsigned integers. */
  function ParseRange(s: string): (r: Result<Range, ParseTicketRulesError>)
    ensures r.Ok? <==> |Split(s, "-")| == 2 && ParseNat(Split(s, "-")[0]).Some? && ParseNat(Split(s, "-")[1]).Some?
    ensures r.Ok? ==> ParseNat(Split(s, "-")[0]) == Some(r.value.lo) && ParseNat(Split(s, "-")[1]) == Some(r.value.hi)
    ensures |Split(s, "-")| != 2 ==> r == Err(RulesMalformedInput)
  {
    var pieces := Split(s, "-");
    if |pieces| != 2 then Err(RulesMalformedInput)
    else
      match ParseRuleNumber(pieces[0])
      case Err(e) => Err(e)
      case Ok(lo) =>
        match ParseRuleNumber(pieces[1])
        case Err(e) => Err(e)
        case Ok(hi) => Ok(Range(lo, hi))
  }

  function ShowRange(r: Range): string
  {
    ShowNat(r.lo) + "-" + ShowNat(r.hi)
  }

  lemma DigitsLackChar(s: string, c: char)
    requires AllDigits(s) && !IsDigit(c)
    ensures c !in s
  {
  }

  /** A written range reads back as itself. */
  lemma ParseShowRange(r: Range)
    ensures ParseRange(ShowRange(r)) == Ok(r)
  {
    DigitsLackChar(ShowNat(r.lo), '-');
    DigitsLackChar(ShowNat(r.hi), '-');
    SplitAtChar(ShowNat(r.lo), '-', ShowNat(r.hi));
    assert ShowRange(r) == ShowNat(r.lo) + ['-'] + ShowNat(r.hi);
    ParseShowNat(r.lo);
    ParseShowNat(r.hi);
  }

  /** `collect::<String>()`: the pieces glued together without separator. */
  function Concat(pieces: seq<string>): string
  {
    if pieces == [] then "" else pieces[0] + Concat(pieces[1..])
  }

  /** The name of the rule a line defines: the text before the first `": "`. */
  function RuleKey(line: string): string
  {
    Split(line, ": ")[0]
  }

  /** The text of the ranges: everything after the first `": "`, further separators dropped. */
  function RuleRanges(line: string): string
  {
    Concat(Split(line, ": ")[1..])
  }

  /** One line of the rules: the name, then ranges separated by `" or "`. */
  function ParseRuleLine(line: string): (r: Result<(string, seq<Range>), ParseTicketRulesError>)
    ensures r.Ok? <==> forall i | 0 <= i < |Split(RuleRanges(line), " or ")| :: ParseRange(Split(RuleRanges(line), " or ")[i]).Ok?
    ensures r.Ok? ==> r.value.0 == RuleKey(line)
    ensures r.Ok? ==> |r.value.1| == |Split(RuleRanges(line), " or ")|
    ensures r.Ok? ==> forall i | 0 <= i < |r.value.1| :: ParseRange(Split(RuleRanges(line), " or ")[i]) == Ok(r.value.1[i])
  {
    match CollectAll(Split(RuleRanges(line), " or "), ParseRange)
    case Err(e) => Err(e)
    case Ok(ranges) => Ok((RuleKey(line), ranges))
  }

  /** A line without `": "` names a rule without ranges and is rejected as malformed. */
  lemma ParseRuleLineWithoutColon(line: string)
    requires forall i: nat :: !OccursAt(line, ": ", i)
    ensures ParseRuleLine(line) == Err(RulesMalformedInput)
  {
    assert IndexOf(line, ": ").None?;
    assert Split(line, ": ") == [line];
    assert RuleRanges(line) == "";
    assert IndexOf("", " or ").None?;
    assert Split("", " or ") == [""];
    assert IndexOf("", "-").None?;
    assert ParseRange("") == Err(RulesMalformedInput);
  }

  /** The parsed lines gathered into a map; a later line for the same name replaces an earlier one. */
  function InsertAll(pairs: seq<(string, seq<Range>)>): (m: Rules)
    ensures m.Keys == set k | 0 <= k < |pairs| :: pairs[k].0
    ensures forall k | 0 <= k < |pairs| && (forall j | k < j < |pairs| :: pairs[j].0 != pairs[k].0) :: m[pairs[k].0] == pairs[k].1
    decreases |pairs|
  {
    if pairs == [] then map[]
    else
      var init := pairs[..|pairs| - 1];
      var last := pairs[|pairs| - 1];
      assert forall k | 0 <= k < |init| :: init[k] == pairs[k];
      InsertAll(init)[last.0 := last.1]
  }

  /** Line `i` is the last line naming its rule. */
  predicate LastFor(lines: seq<string>, i: nat)
    requires i < |lines|
  {
    forall j | i < j < |lines| :: RuleKey(lines[j]) != RuleKey(lines[i])
  }

  /** `TicketRules::from_str`: one rule per line; the first bad line's error ends the parse. */
  function ParseRules(s: string): (r: Result<Rules, ParseTicketRulesError>)
    ensures r.Ok? <==> forall i | 0 <= i < |Lines(s)| :: ParseRuleLine(Lines(s)[i]).Ok?
    ensures r.Ok? ==> r.value.Keys == set i | 0 <= i < |Lines(s)| :: RuleKey(Lines(s)[i])
  {
    var lines := Lines(s);
    match CollectAll(lines, ParseRuleLine)
    case Err(e) => Err(e)
    case Ok(pairs) =>
      PairKeys(lines, pairs);
      Ok(InsertAll(pairs))
  }

  /** The names of the parsed pairs are the names of the lines. */
  lemma PairKeys(lines: seq<string>, pairs: seq<(string, seq<Range>)>)
    requires |pairs| == |lines|
    requires forall k | 0 <= k < |lines| :: ParseRuleLine(lines[k]) == Ok(pairs[k])
    ensures (set k | 0 <= k < |pairs| :: pairs[k].0) == (set i | 0 <= i < |lines| :: RuleKey(lines[i]))
  {
    assert forall k | 0 <= k < |pairs| :: pairs[k].0 == RuleKey(lines[k]);
  }

  /** The rule of a name holds the ranges of the last line naming it. */
  lemma ParseRulesLastLine(s: string, i: nat)
    requires ParseRules(s).Ok? && i < |Lines(s)| && LastFor(Lines(s), i)
    ensures var key := RuleKey(Lines(s)[i]);
      key in ParseRules(s).value && ParseRuleLine(Lines(s)[i]) == Ok((key, ParseRules(s).value[key]))
  {
    var lines := Lines(s);
    var pairs := CollectAll(lines, ParseRuleLine).value;
    assert ParseRules(s).value == InsertAll(pairs);
    InsertAllLastLine(lines, pairs, i);
  }

  /** The parsed pairs of the lines, inserted in order, keep the last line's ranges. */
  lemma InsertAllLastLine(lines: seq<string>, pairs: seq<(string, seq<Range>)>, i: nat)
    requires |pairs| == |lines| && forall k | 0 <= k < |lines| :: ParseRuleLine(lines[k]) == Ok(pairs[k])
    requires i < |lines| && LastFor(lines, i)
    ensures pairs[i].0 == RuleKey(lines[i]) && InsertAll(pairs)[pairs[i].0] == pairs[i].1
  {
    assert ParseRuleLine(lines[i]) == Ok(pairs[i]);
    forall j | i < j < |pairs|
      ensures pairs[j].0 != pairs[i].0
    {
      assert ParseRuleLine(lines[j]) == Ok(pairs[j]);
    }
  }

  function ParseTicketNumber(s: string): Result<nat, ParseTicketError>
  {
    match ParseUsize(s)
    case Ok(n) => Ok(n)
    case Err(e) => Err(TicketParseIntError(e))
  }

  /**
   * `Ticket::from_str`: comma-separated unsigned integers, exactly `Width`
   * of them; the count is checked only once every piece has parsed.
   */
  function ParseTicket(s: string): (r: Result<Ticket, ParseTicketError>)
    ensures r.Ok? <==> |Split(s, ",")| == Width && forall i | 0 <= i < |Split(s, ",")| :: ParseNat(Split(s, ",")[i]).Some?
    ensures r.Ok? ==> |r.value.values| == Width && forall i | 0 <= i < Width :: ParseNat(Split(s, ",")[i]) == Some(r.value.values[i])
    ensures (forall i | 0 <= i < |Split(s, ",")| :: ParseNat(Split(s, ",")[i]).Some?) && |Split(s, ",")| != Width
      ==> r == Err(NotEnoughValues(Width, |Split(s, ",")|))
  {
    match CollectAll(Split(s, ","), ParseTicketNumber)
    case Err(e) => Err(e)
    case Ok(values) =>
      if |values| != Width then Err(NotEnoughValues(Width, |values|))
      else Ok(Ticket(values))
  }

  function ShowTicket(t: Ticket): string
    requires |t.values| >= 1
  {
    Join(seq(|t.values|, i requires 0 <= i < |t.values| => ShowNat(t.values[i])), ",")
  }

  /** A written ticket of `Width` values reads back as itself. */
  lemma ParseShowTicket(t: Ticket)
    requires |t.values| == Width
    ensures ParseTicket(ShowTicket(t)) == Ok(t)
  {
    var parts := seq(|t.values|, i requires 0 <= i < |t.values| => ShowNat(t.values[i]));
    forall k | 0 <= k < |parts|
      ensures ',' !in parts[k]
      ensures ParseNat(parts[k]) == Some(t.values[k])
    {
      DigitsLackChar(parts[k], ',');
      ParseShowNat(t.values[k]);
    }
    JoinSplitChar(parts, ',');
    assert Split(ShowTicket(t), ",") == parts;
    var r := ParseTicket(ShowTicket(t));
    assert r.Ok?;
    assert r.value.values == t.values;
  }
}
