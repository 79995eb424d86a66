/**
 * Day 6 (customs declarations): groups of people separated by blank lines,
 * each person's answers a line of characters. Part one counts the questions
 * anyone in a group answered, part two those everyone answered, both by
 * folding the people's answer sets with union or intersection.
 */
module Day06 {
  import opened Text

  type Group = seq<set<char>>

  /** The characters of a line, as a set. */
  function AnswerSet(line: string): (r: set<char>)
    ensures forall c :: c in r <==> c in line
  {
    set i | 0 <= i < |line| :: line[i]
  }

  /**
   * `get_groups`: the input split at each blank line (`"\n\n"`), each group
   * cut into lines, each line turned into its set of characters.
   */
  function Groups(content: string): (groups: seq<Group>)
    ensures |groups| == |Split(content, "\n\n")|
    ensures forall k | 0 <= k < |groups| :: |groups[k]| == |Lines(Split(content, "\n\n")[k])|
    ensures forall k, j, c | 0 <= k < |groups| && 0 <= j < |groups[k]| ::
      c in groups[k][j] <==> c in Lines(Split(content, "\n\n")[k])[j]
  {
    var chunks := Split(content, "\n\n");
    seq(|chunks|, k requires 0 <= k < |chunks| =>
      var lines := Lines(chunks[k]);
      seq(|lines|, j requires 0 <= j < |lines| => AnswerSet(lines[j])))
  }

  /** The two folding operations of the puzzle parts. */
  datatype SetOp = Union | Intersection

  function Apply(op: SetOp, acc: set<char>, next: set<char>): set<char>
  {
    match op
    case Union => acc + next
    case Intersection => acc * next
  }

  /** `Iterator::fold` of `op` over `rest`, starting from `acc`. */
  function Fold(op: SetOp, acc: set<char>, rest: Group): set<char>
    decreases |rest|
  {
    if rest == [] then acc else Fold(op, Apply(op, acc, rest[0]), rest[1..])
  }

  /** `op_on_set`: the size of the fold over the group from its first set; 0 for no one. */
  function OpOnSet(group: Group, op: SetOp): nat
  {
    if group == [] then 0 else |Fold(op, group[0], group[1..])|
  }

  /** `count_union`. */
  function CountUnion(group: Group): nat
  {
    OpOnSet(group, Union)
  }

  /** `count_intersection`. */
  function CountIntersection(group: Group): nat
  {
    OpOnSet(group, Intersection)
  }

  /** The questions someone in the group answered. */
  function Anyone(group: Group): set<char>
  {
    set i, c | 0 <= i < |group| && c in group[i] :: c
  }

  /** The questions everyone in the (non-empty) group answered. */
  function Everyone(group: Group): set<char>
    requires group != []
  {
    set c | c in group[0] && forall i | 0 <= i < |group| :: c in group[i]
  }

  lemma {:induction false} FoldUnion(acc: set<char>, rest: Group)
    ensures Fold(Union, acc, rest) == acc + Anyone(rest)
    decreases |rest|
  {
    if rest != [] {
      FoldUnion(acc + rest[0], rest[1..]);
      forall c | c in Anyone(rest)
        ensures c in rest[0] + Anyone(rest[1..])
      {
        var i :| 0 <= i < |rest| && c in rest[i];
        if i > 0 {
          assert c in rest[1..][i - 1];
        }
      }
      forall c | c in Anyone(rest[1..])
        ensures c in Anyone(rest)
      {
        var i :| 0 <= i < |rest[1..]| && c in rest[1..][i];
        assert c in rest[i + 1];
      }
    }
  }

  lemma {:induction false} FoldIntersection(acc: set<char>, rest: Group)
    ensures Fold(Intersection, acc, rest) == set c | c in acc && forall i | 0 <= i < |rest| :: c in rest[i]
    decreases |rest|
  {
    if rest != [] {
      FoldIntersection(acc * rest[0], rest[1..]);
      forall c
        ensures (c in acc * rest[0] && forall i | 0 <= i < |rest[1..]| :: c in rest[1..][i])
            <==> (c in acc && forall i | 0 <= i < |rest| :: c in rest[i])
      {
        if c in acc * rest[0] && forall i | 0 <= i < |rest[1..]| :: c in rest[1..][i] {
          forall i | 0 <= i < |rest|
            ensures c in rest[i]
          {
            if i > 0 {
              assert rest[i] == rest[1..][i - 1];
            }
          }
        }
      }
    }
  }

  /** Part one counts the questions anyone answered. */
  lemma CountUnionIsAnyone(group: Group)
    ensures CountUnion(group) == |Anyone(group)|
  {
    if group != [] {
      FoldUnion(group[0], group[1..]);
      assert Anyone(group) == group[0] + Anyone(group[1..]) by {
        forall c | c in Anyone(group)
          ensures c in group[0] + Anyone(group[1..])
        {
          var i :| 0 <= i < |group| && c in group[i];
          if i > 0 {
            assert c in group[1..][i - 1];
          }
        }
        forall c | c in Anyone(group[1..])
          ensures c in Anyone(group)
        {
          var i :| 0 <= i < |group[1..]| && c in group[1..][i];
          assert c in group[i + 1];
        }
      }
    }
  }

  /** Part two counts the questions everyone answered; an empty group counts 0. */
  lemma CountIntersectionIsEveryone(group: Group)
    ensures group == [] ==> CountIntersection(group) == 0
    ensures group != [] ==> CountIntersection(group) == |Everyone(group)|
  {
    if group != [] {
      FoldIntersection(group[0], group[1..]);
      assert Fold(Intersection, group[0], group[1..]) == Everyone(group) by {
        forall c | c in group[0]
          ensures (forall i | 0 <= i < |group[1..]| :: c in group[1..][i])
              <==> (forall i | 0 <= i < |group| :: c in group[i])
        {
          if forall i | 0 <= i < |group[1..]| :: c in group[1..][i] {
            forall i | 0 <= i < |group|
              ensures c in group[i]
            {
              if i > 0 {
                assert group[i] == group[1..][i - 1];
              }
            }
          }
        }
      }
    }
  }

  /**
   * Everyone's answers are among anyone's, so part two never counts more than
   * part one; for a single person the counts agree.
   */
  lemma IntersectionAtMostUnion(group: Group)
    requires group != []
    ensures CountIntersection(group) <= CountUnion(group)
    ensures |group| == 1 ==> CountIntersection(group) == CountUnion(group)
  {
    CountUnionIsAnyone(group);
    CountIntersectionIsEveryone(group);
    assert Everyone(group) <= Anyone(group) by {
      forall c | c in Everyone(group)
        ensures c in Anyone(group)
      {
        assert c in group[0];
      }
    }
    var everyone, anyone := Everyone(group), Anyone(group);
    assert anyone == everyone + (anyone - everyone);
    if |group| == 1 {
      assert Anyone(group) <= Everyone(group) by {
        forall c | c in Anyone(group)
          ensures c in Everyone(group)
        {
          var i :| 0 <= i < |group| && c in group[i];
        }
      }
    }
  }
}
