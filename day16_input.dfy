/**
 * Day 16 (ticket translation): the puzzle input (rules, my ticket, the
 * nearby tickets), dropping invalid tickets in place, and working out which
 * rule describes which ticket position.
 *
 * Field determination first narrows, per position, the set of candidate rule
 * names by every value seen at that position. It then repeats elimination
 * rounds: every name that is the only candidate of some position is marked
 * as fixed, and fixed names are removed from every position that still has
 * more than one candidate. The rounds stop when every position has exactly
 * one candidate.
 */
module Day16Input {
  import opened Wrappers
  import opened Text
  import opened Seqs
  import opened Day16Ticket

  datatype InputData = InputData(rules: Rules, myTicket: Ticket, otherTickets: seq<Ticket>)

  /** Field determination indexes a vector of `Width` positions with each ticket's value positions. */
  predicate Fits(d: InputData)
  {
    && |d.myTicket.values| <= Width
    && forall k | 0 <= k < |d.otherTickets| :: |d.otherTickets[k].values| <= Width
  }

  // Narrowing the candidates

  /** Each of the first `|values|` positions keeps only the rules accepting the value found there. */
  function Narrow(rules: Rules, possible: seq<set<string>>, values: seq<nat>): seq<set<string>>
    requires |values| <= |possible|
  {
    seq(|possible|, i requires 0 <= i < |possible| =>
      if i < |values| then possible[i] * ValidRuleSet(rules, values[i]) else possible[i])
  }

  /** Narrowing by each ticket in turn. */
  function NarrowAll(rules: Rules, possible: seq<set<string>>, tickets: seq<Ticket>): (r: seq<set<string>>)
    requires forall k | 0 <= k < |tickets| :: |tickets[k].values| <= |possible|
    ensures |r| == |possible|
    decreases |tickets|
  {
    if tickets == [] then possible
    else Narrow(rules, NarrowAll(rules, possible, tickets[..|tickets| - 1]), tickets[|tickets| - 1].values)
  }

  /** The candidate rules of each position after the nearby tickets and my own ticket are taken into account. */
  function Candidates(d: InputData): (r: seq<set<string>>)
    requires Fits(d)
    ensures |r| == Width
  {
    Narrow(d.rules, NarrowAll(d.rules, Unnarrowed(d.rules), d.otherTickets), d.myTicket.values)
  }

  /** `vec![self.rules.get_all_rule_indexes(); 20]`: every rule is a candidate of every position. */
  function Unnarrowed(rules: Rules): (r: seq<set<string>>)
    ensures |r| == Width
  {
    seq(Width, _ => AllRuleIndexes(rules))
  }

  /** A rule stays a candidate of a position exactly when it accepts that position's value on every ticket. */
  lemma {:induction false} NarrowAllMembers(rules: Rules, possible: seq<set<string>>, tickets: seq<Ticket>, i: nat, name: string)
    requires forall k | 0 <= k < |tickets| :: |tickets[k].values| <= |possible|
    requires i < |possible|
    ensures name in NarrowAll(rules, possible, tickets)[i] <==>
      && name in possible[i]
      && (name in rules ==> forall k | 0 <= k < |tickets| && i < |tickets[k].values| :: RuleAccepts(rules[name], tickets[k].values[i]))
      && (name !in rules ==> forall k | 0 <= k < |tickets| :: i >= |tickets[k].values|)
    decreases |tickets|
  {
    if tickets != [] {
      var init := tickets[..|tickets| - 1];
      assert forall k | 0 <= k < |init| :: init[k] == tickets[k];
      NarrowAllMembers(rules, possible, init, i, name);
    }
  }

  /**
   * The candidates of a position are exactly the rules that accept the value
   * at that position on every nearby ticket and on my ticket.
   */
  lemma CandidatesMembers(d: InputData, i: nat, name: string)
    requires Fits(d) && i < Width
    ensures name in Candidates(d)[i] <==>
      && name in d.rules
      && (forall k | 0 <= k < |d.otherTickets| && i < |d.otherTickets[k].values| ::
            RuleAccepts(d.rules[name], d.otherTickets[k].values[i]))
      && (i < |d.myTicket.values| ==> RuleAccepts(d.rules[name], d.myTicket.values[i]))
  {
    NarrowAllMembers(d.rules, Unnarrowed(d.rules), d.otherTickets, i, name);
  }

  /** The inner loop of the narrowing: position `idx` of the vector meets the rules accepting the value found there. */
  method NarrowByTicket(rules: Rules, possible: seq<set<string>>, values: seq<nat>) returns (r: seq<set<string>>)
    requires |values| <= |possible|
    ensures r == Narrow(rules, possible, values)
  {
    r := possible;
    var idx := 0;
    while idx < |values|
      invariant 0 <= idx <= |values|
      invariant r == Narrow(rules, possible, values[..idx])
    {
      var valid := GetValidRuleFor(rules, values[idx]);
      r := r[idx := r[idx] * valid];
      idx := idx + 1;
    }
    assert values[..idx] == values;
  }

  // Elimination rounds

  /** The sum of the candidate set sizes, which every round that changes anything decreases. */
  function SizeSum(p: seq<set<string>>): nat
  {
    if p == [] then 0 else SizeSum(p[..|p| - 1]) + |p[|p| - 1]|
  }

  /** The names that are the only candidate of some position. */
  function Singles(p: seq<set<string>>): set<string>
  {
    if p == [] then {} else Singles(p[..|p| - 1]) + (if |p[|p| - 1]| == 1 then p[|p| - 1] else {})
  }

  /** `n` is the only candidate of some position. */
  predicate FixedAt(p: seq<set<string>>, n: string)
  {
    exists j | 0 <= j < |p| :: p[j] == {n}
  }

  lemma SingletonOf(s: set<string>, n: string)
    requires |s| == 1 && n in s
    ensures s == {n}
  {
    assert |s - {n}| == 0;
  }

  /** The names taken from singleton sets are exactly the fixed names. */
  lemma {:induction false} SinglesFixed(p: seq<set<string>>, n: string)
    ensures n in Singles(p) <==> FixedAt(p, n)
    decreases |p|
  {
    if p != [] {
      var init := p[..|p| - 1];
      var last := p[|p| - 1];
      SinglesFixed(init, n);
      if FixedAt(p, n) {
        var j :| 0 <= j < |p| && p[j] == {n};
        if j < |init| {
          assert init[j] == {n};
        }
      }
      if |last| == 1 && n in last {
        SingletonOf(last, n);
      }
      if FixedAt(init, n) {
        var j :| 0 <= j < |init| && init[j] == {n};
        assert p[j] == {n};
      }
    }
  }

  /** Fixed names leave every position with more than one candidate; the other positions are untouched. */
  function Prune(p: seq<set<string>>, fixed: set<string>): (r: seq<set<string>>)
    ensures |r| == |p|
    ensures forall i | 0 <= i < |p| :: r[i] <= p[i] && p[i] - r[i] <= fixed
    ensures forall i | 0 <= i < |p| && |p[i]| <= 1 :: r[i] == p[i]
  {
    seq(|p|, i requires 0 <= i < |p| => if |p[i]| > 1 then p[i] - fixed else p[i])
  }

  lemma SubsetCard(a: set<string>, b: set<string>)
    requires a <= b
    ensures |a| <= |b|
    ensures a != b ==> |a| < |b|
  {
    assert b == a + (b - a);
    if a != b {
      var x :| x in b && x !in a;
      assert x in b - a;
    }
  }

  /** Shrinking some sets and no others lowers the size sum. */
  lemma {:induction false} SizeSumShrinks(p: seq<set<string>>, q: seq<set<string>>)
    requires |q| == |p|
    requires forall i | 0 <= i < |p| :: q[i] <= p[i]
    ensures SizeSum(q) <= SizeSum(p)
    ensures q != p ==> SizeSum(q) < SizeSum(p)
    decreases |p|
  {
    if p != [] {
      var n := |p| - 1;
      SizeSumShrinks(p[..n], q[..n]);
      SubsetCard(q[n], p[n]);
      if q != p && q[..n] == p[..n] {
        assert q == q[..n] + [q[n]] && p == p[..n] + [p[n]];
      }
    }
  }

  /** Every position has exactly one candidate. */
  predicate AllSingle(p: seq<set<string>>)
  {
    forall i | 0 <= i < |p| :: |p[i]| == 1
  }

  /**
   * The elimination rounds from candidate sets `p` and the names `fixed` so
   * far: `Some` of the final sets, or `None` when a round changes nothing
   * while some position is not settled, after which the same round repeats
   * forever.
   */
  function Eliminate(p: seq<set<string>>, fixed: set<string>): (r: Option<seq<set<string>>>)
    ensures r.Some? ==> |r.value| == |p| && AllSingle(r.value)
    ensures r.Some? ==> forall i | 0 <= i < |p| :: r.value[i] <= p[i]
    decreases SizeSum(p)
  {
    var marked := fixed + Singles(p);
    var next := Prune(p, marked);
    if AllSingle(next) then Some(next)
    else if next == p then None
    else
      SizeSumShrinks(p, next);
      Eliminate(next, marked)
  }

  /** A round that changes no set leaves the marked names as they are too: the next round is the same. */
  lemma RoundFixedPoint(p: seq<set<string>>, fixed: set<string>)
    requires Prune(p, fixed + Singles(p)) == p
    ensures Prune(p, (fixed + Singles(p)) + Singles(p)) == p
  {
    assert (fixed + Singles(p)) + Singles(p) == fixed + Singles(p);
  }

  /** A name that is the only candidate of a position stays so to the end. */
  lemma {:induction false} EliminateKeepsFixed(p: seq<set<string>>, fixed: set<string>, n: string)
    requires FixedAt(p, n)
    requires Eliminate(p, fixed).Some?
    ensures FixedAt(Eliminate(p, fixed).value, n)
    decreases SizeSum(p)
  {
    var marked := fixed + Singles(p);
    var next := Prune(p, marked);
    var j :| 0 <= j < |p| && p[j] == {n};
    assert next[j] == {n};
    if !AllSingle(next) {
      SizeSumShrinks(p, next);
      EliminateKeepsFixed(next, marked, n);
    }
  }

  /**
   * Elimination removes a name from a position only if that position had
   * more than one candidate, and only a name that ends up as the only
   * candidate of some position.
   */
  lemma {:induction false} EliminateRemovesOnlyFixed(p: seq<set<string>>, fixed: set<string>, i: nat, n: string)
    requires forall m | m in fixed :: FixedAt(p, m)
    requires Eliminate(p, fixed).Some?
    requires i < |p| && n in p[i] && n !in Eliminate(p, fixed).value[i]
    ensures |p[i]| > 1
    ensures FixedAt(Eliminate(p, fixed).value, n)
    decreases SizeSum(p)
  {
    var marked := fixed + Singles(p);
    var next := Prune(p, marked);
    forall m | m in marked
      ensures FixedAt(next, m)
    {
      SinglesFixed(p, m);
      var j :| 0 <= j < |p| && p[j] == {m};
      assert next[j] == {m};
    }
    if n in next[i] {
      SizeSumShrinks(p, next);
      EliminateRemovesOnlyFixed(next, marked, i, n);
      SubsetCard(next[i], p[i]);
    } else if !AllSingle(next) {
      SizeSumShrinks(p, next);
      EliminateKeepsFixed(next, marked, n);
    }
  }

  /** The first step of a round: every name alone at some position joins the fixed names. */
  method MarkSingles(possible: seq<set<string>>, fixed: set<string>) returns (marked: set<string>)
    ensures marked == fixed + Singles(possible)
  {
    marked := fixed;
    var j := 0;
    while j < |possible|
      invariant 0 <= j <= |possible|
      invariant marked == fixed + Singles(possible[..j])
    {
      assert possible[..j + 1][..j] == possible[..j];
      if |possible[j]| == 1 {
        var n :| n in possible[j];
        SingletonOf(possible[j], n);
        marked := marked + {n};
      }
      j := j + 1;
    }
    assert possible[..j] == possible;
  }

  /** The second step of a round: fixed names are dropped from the sets with more than one candidate. */
  method RemoveMarked(possible: seq<set<string>>, marked: set<string>) returns (r: seq<set<string>>)
    ensures r == Prune(possible, marked)
  {
    r := possible;
    var i := 0;
    while i < |possible|
      invariant 0 <= i <= |possible|
      invariant |r| == |possible|
      invariant forall k | 0 <= k < i :: r[k] == Prune(possible, marked)[k]
      invariant forall k | i <= k < |possible| :: r[k] == possible[k]
    {
      if |r[i]| > 1 {
        r := r[i := r[i] - marked];
      }
      i := i + 1;
    }
  }

  /** `possible_mappings.into_iter().map(|v| v.into_iter().next().unwrap())`: the one name of each set. */
  method TakeSingles(possible: seq<set<string>>) returns (names: seq<string>)
    requires AllSingle(possible)
    ensures |names| == |possible|
    ensures forall i | 0 <= i < |possible| :: possible[i] == {names[i]}
  {
    names := [];
    var i := 0;
    while i < |possible|
      invariant 0 <= i <= |possible|
      invariant |names| == i
      invariant forall k | 0 <= k < i :: possible[k] == {names[k]}
    {
      var n :| n in possible[i];
      SingletonOf(possible[i], n);
      names := names + [n];
      i := i + 1;
    }
  }

  /** `Input`: the parsed puzzle, whose list of nearby tickets is cleaned up in place. */
  class Input {
    var rules: Rules
    var myTicket: Ticket
    var otherTickets: seq<Ticket>

    function Contents(): InputData
      reads this
    {
      InputData(rules, myTicket, otherTickets)
    }

    constructor (d: InputData)
      ensures Contents() == d
    {
      rules := d.rules;
      myTicket := d.myTicket;
      otherTickets := d.otherTickets;
    }

    /** `Input::part_1_result`: the ticket scanning error rate of the nearby tickets. */
    function Part1Result(): int
      reads this
    {
      ErrorRate(rules, otherTickets)
    }

    /**
     * `Input::cleanup_invalid_tickets`: keeps the valid nearby tickets in
     * their order; the rules and my ticket stay as they are.
     */
    method CleanupInvalidTickets()
      modifies this
      ensures rules == old(rules) && myTicket == old(myTicket)
      ensures otherTickets == ValidTickets(old(rules), old(otherTickets))
    {
      var kept := [];
      var i := 0;
      while i < |otherTickets|
        invariant 0 <= i <= |otherTickets|
        invariant kept == ValidTickets(rules, otherTickets[..i])
      {
        assert otherTickets[..i + 1][..i] == otherTickets[..i];
        if IsValid(rules, otherTickets[i]) {
          kept := kept + [otherTickets[i]];
        }
        i := i + 1;
      }
      assert otherTickets[..i] == otherTickets;
      otherTickets := kept;
    }

    /**
     * `Input::try_determine_field`: the rule name of each position, `None`
     * where the source's elimination loop would repeat the same round forever.
     */
    method TryDetermineField() returns (r: Option<seq<string>>)
      requires Fits(Contents())
      ensures r.None? <==> Eliminate(Candidates(Contents()), {}).None?
      ensures r.Some? ==> |r.value| == Width
      ensures r.Some? ==> forall i | 0 <= i < Width :: Eliminate(Candidates(Contents()), {}).value[i] == {r.value[i]}
      ensures r.Some? ==> forall i | 0 <= i < Width :: r.value[i] in Candidates(Contents())[i]
    {
      var all := Unnarrowed(rules);
      var possible := all;
      var k := 0;
      while k < |otherTickets|
        invariant 0 <= k <= |otherTickets|
        invariant possible == NarrowAll(rules, all, otherTickets[..k])
      {
        assert otherTickets[..k + 1][..k] == otherTickets[..k];
        possible := NarrowByTicket(rules, possible, otherTickets[k].values);
        k := k + 1;
      }
      assert otherTickets[..k] == otherTickets;
      possible := NarrowByTicket(rules, possible, myTicket.values);
      ghost var start := possible;
      assert start == Candidates(Contents());

      var checked: set<string> := {};
      while true
        invariant |possible| == Width
        invariant Eliminate(possible, checked) == Eliminate(start, {})
        decreases SizeSum(possible)
      {
        var before := possible;
        checked := MarkSingles(possible, checked);
        possible := RemoveMarked(possible, checked);
        if AllSingle(possible) {
          var names := TakeSingles(possible);
          r := Some(names);
          forall i | 0 <= i < Width
            ensures names[i] in start[i]
          {
            assert names[i] in possible[i];
          }
          return;
        }
        if possible == before {
          return None;
        }
        SizeSumShrinks(before, possible);
      }
    }
  }

  // Parsing the whole input

  datatype ParseInputError =
    | InputMalformedInput
    | ParseTicketRulesError(rulesError: ParseTicketRulesError)
    | ParseTicketError(ticketError: ParseTicketError)

  predicate NonEmpty(line: string)
  {
    |line| > 0
  }

  /** The non-empty lines of the nearby block, each as often as it occurs, in order. */
  function NearbyLines(s: string): (lines: seq<string>)
    ensures forall line :: multiset(lines)[line] == if |line| > 0 then multiset(Split(s, "\n"))[line] else 0
    ensures Embeds(lines, Split(s, "\n"))
  {
    FilterMultiset(Split(s, "\n"), NonEmpty);
    FilterEmbeds(Split(s, "\n"), NonEmpty);
    Filter(Split(s, "\n"), NonEmpty)
  }

  /** The nearby tickets: one per non-empty line, in order; the first line that fails gives the error. */
  function ParseNearby(s: string): (r: Result<seq<Ticket>, ParseTicketError>)
    ensures r.Ok? <==> forall k | 0 <= k < |NearbyLines(s)| :: ParseTicket(NearbyLines(s)[k]).Ok?
    ensures r.Ok? ==> |r.value| == |NearbyLines(s)|
    ensures r.Ok? ==> forall k | 0 <= k < |r.value| :: ParseTicket(NearbyLines(s)[k]) == Ok(r.value[k])
    ensures r.Ok? ==> forall k | 0 <= k < |r.value| :: |r.value[k].values| == Width
    ensures r.Err? ==> exists k | 0 <= k < |NearbyLines(s)| ::
      ParseTicket(NearbyLines(s)[k]) == Err(r.error) && forall j | 0 <= j < k :: ParseTicket(NearbyLines(s)[j]).Ok?
  {
    var lines := NearbyLines(s);
    var r := CollectAll(lines, ParseTicket);
    if r.Err? then
      CollectAllFirstError(lines, ParseTicket);
      r
    else
      assert forall k | 0 <= k < |r.value| :: ParseTicket(lines[k]) == Ok(r.value[k]);
      assert forall k | 0 <= k < |r.value| :: |ParseTicket(lines[k]).value.values| == Width;
      r
  }

  /** The blocks of the input, separated by blank lines. */
  function Blocks(s: string): (blocks: seq<string>)
    ensures |blocks| >= 1
  {
    Split(s, "\n\n")
  }

  /**
   * `Input::from_str`: three blocks separated by a blank line: the rules, then
   * `your ticket:` and my ticket, then `nearby tickets:` and one ticket per
   * line. Blocks after the third are ignored.
   */
  function ParseInput(s: string): (r: Result<InputData, ParseInputError>)
    ensures r.Ok? ==> |Blocks(s)| >= 3
    ensures r.Ok? ==> ParseRules(Blocks(s)[0]) == Ok(r.value.rules)
    ensures r.Ok? ==> StripPrefix(Blocks(s)[1], "your ticket:\n").Some?
    ensures r.Ok? ==> ParseTicket(StripPrefix(Blocks(s)[1], "your ticket:\n").value) == Ok(r.value.myTicket)
    ensures r.Ok? ==> StripPrefix(Blocks(s)[2], "nearby tickets:\n").Some?
    ensures r.Ok? ==> ParseNearby(StripPrefix(Blocks(s)[2], "nearby tickets:\n").value) == Ok(r.value.otherTickets)
    ensures r.Ok? ==> |r.value.myTicket.values| == Width
    ensures r.Ok? ==> forall k | 0 <= k < |r.value.otherTickets| :: |r.value.otherTickets[k].values| == Width
    ensures ParseRules(Blocks(s)[0]).Err? ==> r == Err(ParseTicketRulesError(ParseRules(Blocks(s)[0]).error))
    ensures ParseRules(Blocks(s)[0]).Ok? && |Blocks(s)| < 2 ==> r == Err(InputMalformedInput)
    ensures r.Ok? <==> (ParseRules(Blocks(s)[0]).Ok? && |Blocks(s)| >= 3
                        && StripPrefix(Blocks(s)[1], "your ticket:\n").Some?
                        && ParseTicket(StripPrefix(Blocks(s)[1], "your ticket:\n").value).Ok?
                        && StripPrefix(Blocks(s)[2], "nearby tickets:\n").Some?
                        && ParseNearby(StripPrefix(Blocks(s)[2], "nearby tickets:\n").value).Ok?)
    ensures (ParseRules(Blocks(s)[0]).Ok? && |Blocks(s)| >= 2
             && StripPrefix(Blocks(s)[1], "your ticket:\n").None?)
      ==> r == Err(InputMalformedInput)
    ensures (ParseRules(Blocks(s)[0]).Ok? && |Blocks(s)| >= 2
             && StripPrefix(Blocks(s)[1], "your ticket:\n").Some?
             && ParseTicket(StripPrefix(Blocks(s)[1], "your ticket:\n").value).Err?)
      ==> r == Err(ParseTicketError(ParseTicket(StripPrefix(Blocks(s)[1], "your ticket:\n").value).error))
    ensures (ParseRules(Blocks(s)[0]).Ok? && |Blocks(s)| >= 2
             && StripPrefix(Blocks(s)[1], "your ticket:\n").Some?
             && ParseTicket(StripPrefix(Blocks(s)[1], "your ticket:\n").value).Ok?
             && (|Blocks(s)| < 3 || StripPrefix(Blocks(s)[2], "nearby tickets:\n").None?))
      ==> r == Err(InputMalformedInput)
    ensures (ParseRules(Blocks(s)[0]).Ok? && |Blocks(s)| >= 3
             && StripPrefix(Blocks(s)[1], "your ticket:\n").Some?
             && ParseTicket(StripPrefix(Blocks(s)[1], "your ticket:\n").value).Ok?
             && StripPrefix(Blocks(s)[2], "nearby tickets:\n").Some?
             && ParseNearby(StripPrefix(Blocks(s)[2], "nearby tickets:\n").value).Err?)
      ==> r == Err(ParseTicketError(ParseNearby(StripPrefix(Blocks(s)[2], "nearby tickets:\n").value).error))
  {
    var blocks := Blocks(s);
    match ParseRules(blocks[0])
    case Err(e) => Err(ParseTicketRulesError(e))
    case Ok(rules) =>
      if |blocks| < 2 then Err(InputMalformedInput)
      else
        match StripPrefix(blocks[1], "your ticket:\n")
        case None => Err(InputMalformedInput)
        case Some(mine) =>
          match ParseTicket(mine)
          case Err(e) => Err(ParseTicketError(e))
          case Ok(myTicket) =>
            if |blocks| < 3 then Err(InputMalformedInput)
            else
              match StripPrefix(blocks[2], "nearby tickets:\n")
              case None => Err(InputMalformedInput)
              case Some(rest) =>
                match ParseNearby(rest)
                case Err(e) => Err(ParseTicketError(e))
                case Ok(others) => Ok(InputData(rules, myTicket, others))
  }
}
