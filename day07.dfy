/**
 * Day 7 (handy haversacks): bag rules mapping an outer bag to the bags it
 * directly holds, the search for every bag that can eventually hold a
 * given one, and the total number of bags inside a given one.
 */
module Day07 {
  import opened Wrappers
  import opened Text

  datatype BagInfo = BagInfo(adjective: string, color: string)

  datatype BagCount = BagCount(count: nat, bag: BagInfo)

  /** Outer bag to its contents; a later rule for the same bag replaces an earlier one. */
  type Rules = map<BagInfo, seq<BagCount>>

  /** `BagCount::default()`, which stands for `no other bags`. */
  const NoOtherBags := BagCount(0, BagInfo("", ""))

  /** The rule of `outer` lists some bag of `targets`. */
  predicate HoldsSome(rules: Rules, outer: BagInfo, targets: set<BagInfo>)
    requires outer in rules
  {
    exists c | c in rules[outer] :: c.bag in targets
  }

  /** The bags whose rule lists some bag of `targets`. */
  function Parents(rules: Rules, targets: set<BagInfo>): (parents: set<BagInfo>)
    ensures parents <= rules.Keys
  {
    set k | k in rules && HoldsSome(rules, k, targets)
  }

  /** The bags from which `bag` is reached in exactly `n` containment steps. */
  function Level(rules: Rules, bag: BagInfo, n: nat): (level: set<BagInfo>)
    ensures n > 0 ==> level <= rules.Keys
  {
    if n == 0 then {bag} else Parents(rules, Level(rules, bag, n - 1))
  }

  /** The bags from which `bag` is reached in between 1 and `n` containment steps. */
  function Upto(rules: Rules, bag: BagInfo, n: nat): (bags: set<BagInfo>)
    ensures n > 0 ==> Level(rules, bag, n) <= bags
  {
    if n == 0 then {} else Upto(rules, bag, n - 1) + Level(rules, bag, n)
  }

  /** A bag in `Upto(n)` is reached in some number of steps between 1 and `n`. */
  lemma {:induction false} UptoWitness(rules: Rules, bag: BagInfo, n: nat, x: BagInfo) returns (m: nat)
    requires x in Upto(rules, bag, n)
    ensures 1 <= m <= n && x in Level(rules, bag, m)
  {
    assert Upto(rules, bag, n) == Upto(rules, bag, n - 1) + Level(rules, bag, n);
    if x in Level(rules, bag, n) {
      m := n;
    } else {
      m := UptoWitness(rules, bag, n - 1, x);
    }
  }

  /** A bag reached in between 1 and `n` steps is in `Upto(n)`. */
  lemma {:induction false} UptoComplete(rules: Rules, bag: BagInfo, n: nat, m: nat, x: BagInfo)
    requires 1 <= m <= n && x in Level(rules, bag, m)
    ensures x in Upto(rules, bag, n)
  {
    assert Upto(rules, bag, n) == Upto(rules, bag, n - 1) + Level(rules, bag, n);
    if m < n {
      UptoComplete(rules, bag, n - 1, m, x);
    }
  }

  /** `outer` holds `bag` after one or more containment steps. */
  ghost predicate Eventually(rules: Rules, outer: BagInfo, bag: BagInfo)
  {
    exists n: nat | n >= 1 :: outer in Level(rules, bag, n)
  }

  /**
   * A ranking witnessing that no bag holding `bag` (and not `bag` itself)
   * eventually holds itself: each such bag ranks above the bags of its rule
   * that are `bag` or hold `bag`, and no rank exceeds `height`. Bags that do
   * not hold `bag` are unconstrained, as `can_contain` never reaches them.
   */
  ghost predicate HoldersRanked(rules: Rules, bag: BagInfo, rank: map<BagInfo, nat>, height: nat)
  {
    && bag in rank
    && forall x | Eventually(rules, x, bag) ::
         && x in rules && x in rank && rank[x] <= height
         && forall c | c in rules[x] && (c.bag == bag || Eventually(rules, c.bag, bag)) ::
              c.bag in rank && rank[c.bag] < rank[x]
  }

  /** A bag `n` steps out ranks at least `n` above the starting bag. */
  lemma {:induction false} LevelRank(rules: Rules, rank: map<BagInfo, nat>, height: nat, bag: BagInfo, n: nat)
    requires HoldersRanked(rules, bag, rank, height) && n >= 1
    ensures forall x | x in Level(rules, bag, n) :: x in rules && x in rank && rank[x] >= n && rank[x] >= rank[bag] + n
  {
    if n > 1 {
      LevelRank(rules, rank, height, bag, n - 1);
    }
    forall x | x in Level(rules, bag, n)
      ensures x in rules && x in rank && rank[x] >= n && rank[x] >= rank[bag] + n
    {
      assert Eventually(rules, x, bag);
      var c :| c in rules[x] && c.bag in Level(rules, bag, n - 1);
      if n > 1 {
        assert Eventually(rules, c.bag, bag);
      }
      assert rank[c.bag] < rank[x];
    }
  }

  /** Under such a ranking `bag` does not eventually hold itself. */
  lemma RankedAcyclic(rules: Rules, rank: map<BagInfo, nat>, height: nat, bag: BagInfo)
    requires HoldersRanked(rules, bag, rank, height)
    ensures !Eventually(rules, bag, bag)
  {
    forall n: nat | n >= 1
      ensures bag !in Level(rules, bag, n)
    {
      LevelRank(rules, rank, height, bag, n);
    }
  }

  /** Once a level is empty, so are all the levels beyond it. */
  lemma {:induction false} EmptyLevelStays(rules: Rules, bag: BagInfo, n: nat, m: nat)
    requires Level(rules, bag, n) == {} && n <= m
    ensures Level(rules, bag, m) == {}
    decreases m - n
  {
    if n < m {
      EmptyLevelStays(rules, bag, n + 1, m);
    }
  }

  /** A bag whose rule lists `bag`, or lists a bag that eventually holds `bag`, eventually holds `bag`. */
  lemma EventuallyExtends(rules: Rules, bag: BagInfo, outer: BagInfo, c: BagCount)
    requires outer in rules && c in rules[outer]
    requires c.bag == bag || Eventually(rules, c.bag, bag)
    ensures Eventually(rules, outer, bag)
  {
    var n: nat := 0;
    if c.bag != bag {
      n :| n >= 1 && c.bag in Level(rules, bag, n);
    }
    assert c.bag in Level(rules, bag, n);
    assert HoldsSome(rules, outer, Level(rules, bag, n));
    assert outer in Level(rules, bag, n + 1);
  }

  /** The scan over all rules in one generation of `can_contain`: the holders of some target. */
  method HoldersOf(rules: Rules, searchTargets: set<BagInfo>) returns (found: set<BagInfo>)
    ensures found == Parents(rules, searchTargets)
  {
    found := {};
    var unvisited := rules.Keys;
    while unvisited != {}
      invariant unvisited <= rules.Keys
      invariant forall x :: x in found <==> x in rules && x !in unvisited && HoldsSome(rules, x, searchTargets)
      decreases unvisited
    {
      var key :| key in unvisited;
      if HoldsSome(rules, key, searchTargets) {
        found := found + {key};
      }
      unvisited := unvisited - {key};
    }
  }

  /**
   * `can_contain`: the bags that eventually hold `bag`, found generation by
   * generation until a generation finds no new holder. The search ends only
   * when no bag holding `bag` eventually holds itself, which the ranking
   * witnesses.
   */
  method CanContain(rules: Rules, bag: BagInfo, ghost rank: map<BagInfo, nat>, ghost height: nat) returns (can: set<BagInfo>)
    requires HoldersRanked(rules, bag, rank, height)
    ensures forall x | x in can :: Eventually(rules, x, bag)
    ensures forall x | Eventually(rules, x, bag) :: x in can
  {
    can := {};
    var searchTargets := {bag};
    ghost var k := 0;
    while true
      invariant k <= height
      invariant searchTargets == Level(rules, bag, k)
      invariant can == Upto(rules, bag, k)
      decreases height - k
    {
      var found := HoldersOf(rules, searchTargets);
      if found == {} {
        break;
      }
      LevelRank(rules, rank, height, bag, k + 1);
      var x :| x in found;
      assert Eventually(rules, x, bag);
      can := can + found;
      searchTargets := found;
      k := k + 1;
    }
    UptoAll(rules, bag, k);
  }

  /**
   * A cycle among bags that do not hold the target does not stop the
   * search: with `X` holding `X` and `A` holding `B`, the holders of `B` are
   * ranked, and `can_contain` finds exactly `A`.
   */
  lemma CycleElsewhere(rules: Rules, a: BagInfo, b: BagInfo, x: BagInfo)
    requires a != b && a != x && b != x
    requires rules == map[x := [BagCount(1, x)], a := [BagCount(1, b)]]
    ensures HoldersRanked(rules, b, map[b := 0, a := 1], 1)
    ensures forall y :: Eventually(rules, y, b) <==> y == a
  {
    assert Level(rules, b, 1) == {a} by {
      assert HoldsSome(rules, a, {b});
      assert !HoldsSome(rules, x, {b});
    }
    assert Level(rules, b, 2) == {} by {
      assert !HoldsSome(rules, a, {a});
      assert !HoldsSome(rules, x, {a});
    }
    forall y | Eventually(rules, y, b)
      ensures y == a
    {
      var n: nat :| n >= 1 && y in Level(rules, b, n);
      if n >= 2 {
        EmptyLevelStays(rules, b, 2, n);
      }
    }
    assert a in Level(rules, b, 1);
  }

  /** When the generation after `k` is empty, `Upto(k)` holds every bag that eventually holds `bag`. */
  lemma UptoAll(rules: Rules, bag: BagInfo, k: nat)
    requires Level(rules, bag, k + 1) == {}
    ensures forall x | x in Upto(rules, bag, k) :: Eventually(rules, x, bag)
    ensures forall x | Eventually(rules, x, bag) :: x in Upto(rules, bag, k)
  {
    forall x | x in Upto(rules, bag, k)
      ensures Eventually(rules, x, bag)
    {
      var m := UptoWitness(rules, bag, k, x);
      assert m >= 1 && x in Level(rules, bag, m);
    }
    forall x | Eventually(rules, x, bag)
      ensures x in Upto(rules, bag, k)
    {
      var n: nat :| n >= 1 && x in Level(rules, bag, n);
      if n > k {
        EmptyLevelStays(rules, bag, k + 1, n);
      } else {
        UptoComplete(rules, bag, k, n, x);
      }
    }
  }

  /** The sum of the counts a rule lists. */
  function DirectCount(contents: seq<BagCount>): nat
  {
    if contents == [] then 0 else DirectCount(contents[..|contents| - 1]) + contents[|contents| - 1].count
  }

  /** The bags reached from `top` going `n` steps into the rules. */
  function Below(rules: Rules, top: BagInfo, n: nat): set<BagInfo>
  {
    if n == 0 then {top}
    else
      var above := Below(rules, top, n - 1);
      set x, c | x in above && x in rules && c in rules[x] :: c.bag
  }

  /** `x` is `top` or lies somewhere inside it. */
  ghost predicate Reaches(rules: Rules, top: BagInfo, x: BagInfo)
  {
    exists n: nat :: x in Below(rules, top, n)
  }

  /**
   * A ranking witnessing that no bag at or below `top` eventually holds
   * itself: each bag with a rule ranks above every bag its rule lists. Bags
   * not reached from `top` are unconstrained, as `get_contents_bag_count`
   * never visits them.
   */
  ghost predicate BelowRanked(rules: Rules, top: BagInfo, rank: map<BagInfo, nat>)
  {
    forall x | Reaches(rules, top, x) && x in rules ::
      x in rank && forall c | c in rules[x] :: c.bag in rank && rank[c.bag] < rank[x]
  }

  /** The bags below a listed sub-bag are below its holder. */
  lemma {:induction false} BelowShift(rules: Rules, outer: BagInfo, c: BagCount, n: nat)
    requires outer in rules && c in rules[outer]
    ensures Below(rules, c.bag, n) <= Below(rules, outer, n + 1)
  {
    if n > 0 {
      BelowShift(rules, outer, c, n - 1);
    }
  }

  /** A ranking for a bag serves each sub-bag its rule lists. */
  lemma BelowRankedStep(rules: Rules, outer: BagInfo, rank: map<BagInfo, nat>, c: BagCount)
    requires BelowRanked(rules, outer, rank) && outer in rules && c in rules[outer]
    ensures BelowRanked(rules, c.bag, rank)
    ensures outer in rank && c.bag in rank && rank[c.bag] < rank[outer]
  {
    assert outer in Below(rules, outer, 0);
    forall x | Reaches(rules, c.bag, x)
      ensures Reaches(rules, outer, x)
    {
      var n: nat :| x in Below(rules, c.bag, n);
      BelowShift(rules, outer, c, n);
      assert x in Below(rules, outer, n + 1);
    }
  }

  /**
   * `get_contents_bag_count`: the bags inside `bag`, each listed sub-bag
   * counting once for itself and once for everything inside it; a bag
   * without a rule holds nothing.
   */
  function ContentsCount(rules: Rules, bag: BagInfo, ghost rank: map<BagInfo, nat>): (n: nat)
    requires BelowRanked(rules, bag, rank)
    ensures bag !in rules ==> n == 0
    ensures bag in rules ==> n >= DirectCount(rules[bag])
    decreases if bag in rank then rank[bag] else 0, 1, 0
  {
    if bag in rules then
      assert bag in Below(rules, bag, 0);
      SumContents(rules, bag, rules[bag], rank)
    else 0
  }

  /** The part of `ContentsCount(outer)` contributed by `contents`, a prefix of its rule. */
  function SumContents(rules: Rules, outer: BagInfo, contents: seq<BagCount>, ghost rank: map<BagInfo, nat>): (n: nat)
    requires BelowRanked(rules, outer, rank) && outer in rules && outer in rank
    requires forall c | c in contents :: c in rules[outer]
    ensures n >= DirectCount(contents)
    decreases rank[outer], 0, |contents|
  {
    if contents == [] then 0
    else
      var last := contents[|contents| - 1];
      assert last in rules[outer];
      BelowRankedStep(rules, outer, rank, last);
      SumContents(rules, outer, contents[..|contents| - 1], rank)
        + last.count * (1 + ContentsCount(rules, last.bag, rank))
  }

  /** The count does not depend on which ranking witnesses that the recursion ends. */
  lemma {:induction false} ContentsCountRankFree(rules: Rules, bag: BagInfo, r1: map<BagInfo, nat>, r2: map<BagInfo, nat>)
    requires BelowRanked(rules, bag, r1) && BelowRanked(rules, bag, r2)
    ensures ContentsCount(rules, bag, r1) == ContentsCount(rules, bag, r2)
    decreases if bag in r1 then r1[bag] else 0, 1, 0
  {
    if bag in rules {
      assert bag in Below(rules, bag, 0);
      SumContentsRankFree(rules, bag, rules[bag], r1, r2);
    }
  }

  lemma {:induction false} SumContentsRankFree(rules: Rules, outer: BagInfo, contents: seq<BagCount>,
                                               r1: map<BagInfo, nat>, r2: map<BagInfo, nat>)
    requires BelowRanked(rules, outer, r1) && BelowRanked(rules, outer, r2) && outer in rules
    requires outer in r1 && outer in r2
    requires forall c | c in contents :: c in rules[outer]
    ensures SumContents(rules, outer, contents, r1) == SumContents(rules, outer, contents, r2)
    decreases r1[outer], 0, |contents|
  {
    if contents != [] {
      var last := contents[|contents| - 1];
      assert last in rules[outer];
      BelowRankedStep(rules, outer, r1, last);
      BelowRankedStep(rules, outer, r2, last);
      SumContentsRankFree(rules, outer, contents[..|contents| - 1], r1, r2);
      ContentsCountRankFree(rules, last.bag, r1, r2);
    }
  }

  /** A rule holding only `no other bags` contributes nothing. */
  lemma NoOtherBagsHoldsNothing(rules: Rules, bag: BagInfo, rank: map<BagInfo, nat>)
    requires BelowRanked(rules, bag, rank) && bag in rules && rules[bag] == [NoOtherBags]
    ensures ContentsCount(rules, bag, rank) == 0
  {
    assert bag in Below(rules, bag, 0);
    BelowRankedStep(rules, bag, rank, NoOtherBags);
    var inner := ContentsCount(rules, NoOtherBags.bag, rank);
    assert rules[bag][..0] == [];
    calc {
      ContentsCount(rules, bag, rank);
      SumContents(rules, bag, [NoOtherBags], rank);
      SumContents(rules, bag, [], rank) + 0 * (1 + inner);
      0;
    }
  }

  /** A bag holding `k` bags that are empty holds exactly `k` bags. */
  lemma HoldingOnlyEmptyBags(rules: Rules, bag: BagInfo, rank: map<BagInfo, nat>)
    requires BelowRanked(rules, bag, rank) && bag in rules
    requires forall c | c in rules[bag] :: c.bag !in rules
    ensures ContentsCount(rules, bag, rank) == DirectCount(rules[bag])
  {
    assert bag in Below(rules, bag, 0);
    SumOfEmptyBags(rules, bag, rules[bag], rank);
  }

  lemma {:induction false} SumOfEmptyBags(rules: Rules, outer: BagInfo, contents: seq<BagCount>, rank: map<BagInfo, nat>)
    requires BelowRanked(rules, outer, rank) && outer in rules && outer in rank
    requires forall c | c in contents :: c in rules[outer] && c.bag !in rules
    ensures SumContents(rules, outer, contents, rank) == DirectCount(contents)
  {
    if contents != [] {
      var init := contents[..|contents| - 1];
      assert forall c | c in init :: c in contents;
      SumOfEmptyBags(rules, outer, init, rank);
    }
  }

  // Parsing. The source unwraps, so every malformed piece panics; here a
  // panic is `None`.

  /** `BagInfo::from_iter`: the first word is the adjective, the second the colour, the rest is dropped. */
  function BagInfoOfWords(words: seq<string>): (r: Option<BagInfo>)
    ensures r.Some? <==> |words| >= 2
    ensures r.Some? ==> r.value.adjective == words[0] && r.value.color == words[1]
  {
    if |words| < 2 then None else Some(BagInfo(words[0], words[1]))
  }

  /** `BagInfo::from`: the words of `s` between single spaces. */
  function ParseBagInfo(s: string): (r: Option<BagInfo>)
  {
    BagInfoOfWords(Split(s, " "))
  }

  /** Adjective and colour come back from a text that starts with them. */
  lemma ParseBagInfoWords(adjective: string, color: string, rest: string)
    requires ' ' !in adjective && ' ' !in color
    requires rest == [] || rest[0] == ' '
    ensures ParseBagInfo(adjective + " " + color + rest) == Some(BagInfo(adjective, color))
  {
    assert adjective + " " + color + rest == adjective + [' '] + (color + rest);
    SplitFirstChar(adjective, ' ', color + rest);
    if rest == [] {
      assert color + rest == color;
      SplitWithoutChar(color, ' ');
    } else {
      assert color + rest == color + [' '] + rest[1..];
      SplitFirstChar(color, ' ', rest[1..]);
    }
  }

  /** `BagCount::from`: `N adjective colour bags`, or the default for `no other bags`. */
  function ParseBagCount(s: string): (r: Option<BagCount>)
    ensures Contains(s, "no other bags") ==> r == Some(NoOtherBags)
  {
    if Contains(s, "no other bags") then Some(NoOtherBags)
    else
      var words := Split(s, " ");
      match ParseNat(words[0])
      case None => None
      case Some(count) =>
        match BagInfoOfWords(words[1..])
        case None => None
        case Some(bag) => Some(BagCount(count, bag))
  }

  /** A count written in decimal followed by a bag parses to that count and bag. */
  lemma ParseBagCountWords(n: nat, adjective: string, color: string, rest: string)
    requires ' ' !in adjective && ' ' !in color
    requires rest == [] || rest[0] == ' '
    requires !Contains(ShowNat(n) + " " + adjective + " " + color + rest, "no other bags")
    ensures ParseBagCount(ShowNat(n) + " " + adjective + " " + color + rest) == Some(BagCount(n, BagInfo(adjective, color)))
  {
    var digits := ShowNat(n);
    DigitsOfShowNat(n);
    forall i | 0 <= i < |digits|
      ensures digits[i] != ' '
    {
      assert IsDigit(digits[i]);
    }
    var tail := adjective + " " + color + rest;
    assert digits + " " + adjective + " " + color + rest == digits + [' '] + tail;
    SplitFirstChar(digits, ' ', tail);
    ParseBagInfoWords(adjective, color, rest);
    ParseShowNat(n);
  }

  /**
   * `Rule::from`: drop the final `.`, take the text before `contain ` as the
   * outer bag and split the text after it on `, `.
   */
  function ParseRule(s: string): (r: Option<(BagInfo, seq<BagCount>)>)
    ensures r.Some? ==> EndsWith(s, ".") && |Split(s[..|s| - 1], "contain ")| >= 2
    ensures r.Some? ==> |r.value.1| == |Split(Split(s[..|s| - 1], "contain ")[1], ", ")| >= 1
  {
    match StripSuffix(s, ".")
    case None => None
    case Some(stripped) =>
      var parts := Split(stripped, "contain ");
      if |parts| < 2 then None
      else
        match ParseBagInfo(parts[0])
        case None => None
        case Some(key) =>
          match CollectSome(Split(parts[1], ", "), ParseBagCount)
          case None => None
          case Some(contents) => Some((key, contents))
  }

  /** Pairs collected into a map in order, so a later pair for a key replaces an earlier one. */
  function ToMap(pairs: seq<(BagInfo, seq<BagCount>)>): (rules: Rules)
  {
    if pairs == [] then map[]
    else ToMap(pairs[..|pairs| - 1])[pairs[|pairs| - 1].0 := pairs[|pairs| - 1].1]
  }

  /** There is a rule for exactly the bags some pair names. */
  lemma {:induction false} ToMapKeys(pairs: seq<(BagInfo, seq<BagCount>)>, bag: BagInfo)
    ensures bag in ToMap(pairs) <==> exists i | 0 <= i < |pairs| :: pairs[i].0 == bag
  {
    if pairs != [] {
      var init := pairs[..|pairs| - 1];
      ToMapKeys(init, bag);
      if i :| 0 <= i < |init| && init[i].0 == bag {
        assert pairs[i].0 == bag;
      }
      if i :| 0 <= i < |pairs| && pairs[i].0 == bag {
        if i < |init| {
          assert init[i].0 == bag;
        }
      }
    }
  }

  /** The rule of a bag is the one from the last pair naming that bag. */
  lemma {:induction false} LastRuleWins(pairs: seq<(BagInfo, seq<BagCount>)>, i: nat)
    requires i < |pairs|
    requires forall j | i < j < |pairs| :: pairs[j].0 != pairs[i].0
    ensures pairs[i].0 in ToMap(pairs) && ToMap(pairs)[pairs[i].0] == pairs[i].1
  {
    var init := pairs[..|pairs| - 1];
    if i < |pairs| - 1 {
      assert forall j | i < j < |init| :: init[j] == pairs[j];
      LastRuleWins(init, i);
    }
  }

  /** `Rules::from`: one rule per line, collected into a map in line order. */
  function ParseRules(s: string): (r: Option<Rules>)
    ensures r.Some? <==> forall i | 0 <= i < |Lines(s)| :: ParseRule(Lines(s)[i]).Some?
  {
    match CollectSome(Lines(s), ParseRule)
    case None => None
    case Some(pairs) => Some(ToMap(pairs))
  }
}
