/**
 * Day 15 (rambunctious recitation): the memory game. After the starting
 * numbers, each turn says 0 if the last number was new, and otherwise how
 * many turns apart its last two sayings were.
 */
module Day15 {
  import opened Wrappers

  /** The 0-based index of the last occurrence of `x` in `s`, if any. */
  function LastIndexOf(s: seq<nat>, x: nat): (r: Option<nat>)
    ensures r.Some? ==> r.value < |s| && s[r.value] == x && forall j | r.value < j < |s| :: s[j] != x
    ensures r.None? ==> x !in s
    decreases |s|
  {
    if |s| == 0 then None
    else if s[|s| - 1] == x then Some(|s| - 1)
    else LastIndexOf(s[..|s| - 1], x)
  }

  /** The number said after the turns `prev`, by the rules of the game. */
  function NextSaid(prev: seq<nat>): (r: nat)
  {
    if |prev| == 0 then 0
    else
      match LastIndexOf(prev[..|prev| - 1], prev[|prev| - 1])
      case None => 0
      case Some(j) => |prev| - 1 - j
  }

  /** A number not said before is followed by 0, a repeated one by its positive distance, below the number of turns. */
  lemma NextSaidBounds(prev: seq<nat>)
    requires |prev| > 0
    ensures NextSaid(prev) < |prev|
    ensures prev[|prev| - 1] in prev[..|prev| - 1] ==> NextSaid(prev) >= 1
    ensures prev[|prev| - 1] !in prev[..|prev| - 1] ==> NextSaid(prev) == 0
  {
  }

  /** The first `n` numbers said when the game starts with `start`. */
  function Game(start: seq<nat>, n: nat): (r: seq<nat>)
    ensures |r| == n
    ensures n <= |start| ==> r == start[..n]
    decreases n
  {
    if n <= |start| then start[..n]
    else
      var prev := Game(start, n - 1);
      prev + [NextSaid(prev)]
  }

  /** Every number said is remembered: the game up to `n` turns extends the game up to `m <= n` turns. */
  lemma {:induction false} GamePrefix(start: seq<nat>, m: nat, n: nat)
    requires m <= n
    ensures Game(start, n)[..m] == Game(start, m)
    decreases n
  {
    if m == n {
      assert Game(start, n)[..n] == Game(start, n);
    } else if n <= |start| {
      PrefixOfPrefix(start, m, n);
    } else {
      GameExtends(start, n);
      GamePrefix(start, m, n - 1);
      PrefixOfPrefix(Game(start, n), m, n - 1);
    }
  }

  /** A prefix of a prefix is a prefix. */
  lemma PrefixOfPrefix(s: seq<nat>, m: nat, k: nat)
    requires m <= k <= |s|
    ensures s[..k][..m] == s[..m]
  {
  }

  /** A turn after the starting numbers keeps the turns before it. */
  lemma GameExtends(start: seq<nat>, n: nat)
    requires |start| < n
    ensures Game(start, n)[..n - 1] == Game(start, n - 1)
  {
    var prev := Game(start, n - 1);
    assert (prev + [NextSaid(prev)])[..n - 1] == prev;
  }

  /**
   * One turn of the game after the starting numbers: when the first `k` turns
   * are `turns[..k]` and `turns[k]` is what the rules say next, the first
   * `k + 1` turns are `turns[..k + 1]`.
   */
  lemma GameStep(start: seq<nat>, turns: seq<nat>, k: nat, last: Option<nat>)
    requires |start| <= k && 0 < k < |turns| && Game(start, k) == turns[..k]
    requires LastIndexOf(turns[..k - 1], turns[k - 1]) == last
    requires turns[k] == if last.None? then 0 else k - 1 - last.value
    ensures Game(start, k + 1) == turns[..k + 1]
  {
    assert turns[..k][..k - 1] == turns[..k - 1];
    assert turns[..k] + [turns[k]] == turns[..k + 1];
  }

  /** `x` was last said at `k` when it is at `k` and not after it. */
  lemma LastIndexOfAt(s: seq<nat>, x: nat, k: nat)
    requires k < |s| && s[k] == x && forall j | k < j < |s| :: s[j] != x
    ensures LastIndexOf(s, x) == Some(k)
  {
    assert s[k] in s;
  }

  /** `x` was never said in `s`. */
  lemma LastIndexOfAbsent(s: seq<nat>, x: nat)
    requires x !in s
    ensures LastIndexOf(s, x) == None
  {
  }

  /** The first six turns of the example of the puzzle, whose first ten turns are `t`. */
  lemma ExampleStart(t: seq<nat>)
    requires t == [0, 3, 6, 0, 3, 3, 1, 0, 4, 0]
    ensures Game(t[..3], 6) == t[..6]
  {
    var s := t[..3];
    assert Game(s, 3) == t[..3];
    LastIndexOfAbsent(t[..2], 6);
    GameStep(s, t, 3, None);
    LastIndexOfAt(t[..3], 0, 0);
    GameStep(s, t, 4, Some(0));
    LastIndexOfAt(t[..4], 3, 1);
    GameStep(s, t, 5, Some(1));
  }

  /** The first eight turns of the example of the puzzle. */
  lemma ExampleMiddle(t: seq<nat>)
    requires t == [0, 3, 6, 0, 3, 3, 1, 0, 4, 0]
    ensures Game(t[..3], 8) == t[..8]
  {
    var s := t[..3];
    ExampleStart(t);
    LastIndexOfAt(t[..5], 3, 4);
    GameStep(s, t, 6, Some(4));
    LastIndexOfAbsent(t[..6], 1);
    GameStep(s, t, 7, None);
  }

  /** The example of the puzzle: starting with 0, 3, 6, the first ten turns are `t`. */
  lemma Example(t: seq<nat>)
    requires t == [0, 3, 6, 0, 3, 3, 1, 0, 4, 0]
    ensures t[..3] == [0, 3, 6] && Game(t[..3], 10) == t
  {
    var s := t[..3];
    ExampleMiddle(t);
    LastIndexOfAt(t[..7], 0, 3);
    GameStep(s, t, 8, Some(3));
    LastIndexOfAbsent(t[..8], 4);
    GameStep(s, t, 9, None);
    assert t[..10] == t;
    assert s == [0, 3, 6];
  }

  /** At most the first two elements, as the `while dq.len() > 2` loop leaves a deque. */
  function Take2(s: seq<nat>): (r: seq<nat>)
    ensures |r| <= 2 && |r| <= |s| && r == s[..|r|]
    ensures |s| <= 2 ==> r == s
    ensures |s| > 2 ==> |r| == 2
  {
    if |s| <= 2 then s else s[..2]
  }

  /** The (1-based) turns on which `x` was said most recently, newest first, at most two. */
  function Recent(spoken: seq<nat>, x: nat): (r: seq<nat>)
    ensures |r| <= 2
    ensures forall i | 0 <= i < |r| :: 1 <= r[i] <= |spoken| && spoken[r[i] - 1] == x
    ensures |r| == 2 ==> r[0] > r[1]
    decreases |spoken|
  {
    if |spoken| == 0 then []
    else
      var before := Recent(spoken[..|spoken| - 1], x);
      if spoken[|spoken| - 1] == x then Take2([|spoken|] + before) else before
  }

  /**
   * The remembered turns of the last number say what comes next: the first
   * is the last turn, and a second is there exactly when the number was said
   * before, on that turn.
   */
  lemma {:induction false} RecentLast(spoken: seq<nat>, x: nat)
    requires |spoken| > 0 && spoken[|spoken| - 1] == x
    ensures |Recent(spoken, x)| >= 1 && Recent(spoken, x)[0] == |spoken|
    ensures var prior := LastIndexOf(spoken[..|spoken| - 1], x);
      (|Recent(spoken, x)| == 2 <==> prior.Some?) &&
      (prior.Some? ==> Recent(spoken, x)[1] == prior.value + 1)
  {
    var before := spoken[..|spoken| - 1];
    RecentFirst(before, x);
  }

  /** The first remembered turn is the last occurrence. */
  lemma {:induction false} RecentFirst(spoken: seq<nat>, x: nat)
    ensures |Recent(spoken, x)| >= 1 <==> LastIndexOf(spoken, x).Some?
    ensures |Recent(spoken, x)| >= 1 ==> Recent(spoken, x)[0] == LastIndexOf(spoken, x).value + 1
    decreases |spoken|
  {
    if |spoken| > 0 && spoken[|spoken| - 1] != x {
      RecentFirst(spoken[..|spoken| - 1], x);
    }
  }

  /** Saying one more number adds its turn to that number's remembered turns only. */
  lemma RecentAppend(prev: seq<nat>, next: nat, x: nat)
    ensures Recent(prev + [next], x) ==
      if x == next then Take2([|prev| + 1] + Recent(prev, x)) else Recent(prev, x)
  {
    assert (prev + [next])[..|prev|] == prev;
  }

  /**
   * After the starting numbers, the next number comes from the remembered
   * turns of the last one: their difference when there are two, else 0.
   */
  lemma SaidAfterStart(start: seq<nat>, spoken: seq<nat>)
    requires |spoken| >= |start| && spoken == Game(start, |spoken|)
    ensures Game(start, |spoken| + 1) == spoken + [NextSaid(spoken)]
    ensures var last := if |spoken| == 0 then 0 else spoken[|spoken| - 1];
      var turns := Recent(spoken, last);
      NextSaid(spoken) == if |turns| == 2 then turns[0] - turns[1] else 0
  {
    if |spoken| > 0 {
      RecentLast(spoken, spoken[|spoken| - 1]);
    }
  }

  /** `mem` holds, for every number said, exactly its remembered turns. */
  ghost predicate Remembers(mem: map<nat, seq<nat>>, spoken: seq<nat>)
  {
    (forall x :: x in mem <==> |Recent(spoken, x)| > 0) &&
    (forall x | x in mem :: mem[x] == Recent(spoken, x))
  }

  /** What `Memory::append` does to the map keeps it remembering the game. */
  lemma RemembersAppend(mem: map<nat, seq<nat>>, spoken: seq<nat>, next: nat)
    requires Remembers(mem, spoken)
    ensures Remembers(mem[next := Take2([|spoken| + 1] + (if next in mem then mem[next] else []))], spoken + [next])
  {
    var turns := Take2([|spoken| + 1] + (if next in mem then mem[next] else []));
    var mem' := mem[next := turns];
    var spoken' := spoken + [next];
    forall x
      ensures (x in mem' <==> |Recent(spoken', x)| > 0) && (x in mem' ==> mem'[x] == Recent(spoken', x))
    {
      RecentAppend(spoken, next, x);
      if x == next {
        assert (if next in mem then mem[next] else []) == Recent(spoken, x);
        assert turns == Recent(spoken', x);
        assert turns[0] == |spoken| + 1;
      } else {
        assert Recent(spoken', x) == Recent(spoken, x);
      }
    }
  }

  /** The state `SpokenNumber` keeps: starting numbers left, turn count, last number, remembered turns. */
  datatype GameState = GameState(init: seq<nat>, count: nat, last: nat, mem: map<nat, seq<nat>>)

  /** The state of a fresh game (`SpokenNumber::new`). */
  function Initial(start: seq<nat>): GameState
  {
    GameState(start, 0, 0, map[])
  }

  /**
   * `st` is the state of a game started with `start` after the turns
   * `spoken`: the starting numbers not yet said, the turn count, the last
   * number and the remembered turns all agree with them.
   */
  ghost predicate Consistent(start: seq<nat>, spoken: seq<nat>, st: GameState)
  {
    |spoken| == st.count &&
    spoken == Game(start, st.count) &&
    st.init == (if st.count <= |start| then start[st.count..] else []) &&
    st.last == (if st.count == 0 then 0 else spoken[st.count - 1]) &&
    Remembers(st.mem, spoken)
  }

  /** A fresh game is consistent with no turn taken. */
  lemma InitialConsistent(start: seq<nat>)
    ensures Consistent(start, [], Initial(start))
  {
    assert start[0..] == start;
  }

  /** The remembered turns are at most two, newest first, and no later than the turn count. */
  predicate WellFormed(st: GameState)
  {
    forall x | x in st.mem :: 1 <= |st.mem[x]| <= 2 && st.mem[x][0] <= st.count &&
      (|st.mem[x]| == 2 ==> st.mem[x][0] > st.mem[x][1])
  }

  /** The number `SpokenNumber::next` says from state `st`. */
  function Said(st: GameState): nat
  {
    if |st.init| > 0 then st.init[0]
    else if st.last in st.mem && |st.mem[st.last]| == 2 && st.mem[st.last][0] >= st.mem[st.last][1] then
      st.mem[st.last][0] - st.mem[st.last][1]
    else 0
  }

  /** The state after `SpokenNumber::next`. */
  function Advance(st: GameState): (r: GameState)
    ensures WellFormed(st) ==> WellFormed(r)
  {
    var next := Said(st);
    GameState(if |st.init| > 0 then st.init[1..] else [], st.count + 1, next,
              st.mem[next := Take2([st.count + 1] + (if next in st.mem then st.mem[next] else []))])
  }

  /** While starting numbers remain, the next one is said. */
  lemma StepSaidStart(start: seq<nat>, spoken: seq<nat>, count: nat)
    requires count < |start| && spoken == Game(start, count)
    ensures Game(start, count + 1) == spoken + [start[count]]
  {
    assert start[..count + 1] == start[..count] + [start[count]];
  }

  /** The number one turn says is the game's next number. */
  lemma StepSaid(start: seq<nat>, spoken: seq<nat>, st: GameState)
    requires Consistent(start, spoken, st)
    ensures spoken + [Said(st)] == Game(start, st.count + 1)
    ensures st.count < |start| ==> Said(st) == start[st.count]
    ensures st.count >= |start| ==> Said(st) == NextSaid(spoken)
  {
    if st.count < |start| {
      StepSaidStart(start, spoken, st.count);
    } else {
      SaidAfterStart(start, spoken);
      var turns := Recent(spoken, st.last);
      assert st.init == [];
      assert st.last in st.mem ==> st.mem[st.last] == turns;
      assert st.last !in st.mem ==> |turns| == 0;
      assert Said(st) == NextSaid(spoken);
    }
  }

  /** One turn keeps the state consistent with the game. */
  lemma StepConsistent(start: seq<nat>, spoken: seq<nat>, st: GameState)
    requires Consistent(start, spoken, st)
    ensures Consistent(start, spoken + [Said(st)], Advance(st))
  {
    StepSaid(start, spoken, st);
    RemembersAppend(st.mem, spoken, Said(st));
    if st.count < |start| {
      assert start[st.count..][1..] == start[st.count + 1..];
    }
  }

  /** `Memory`: for each number said, its latest turns. */
  class Memory {
    var mem: map<nat, seq<nat>>

    constructor ()
      ensures mem == map[]
    {
      mem := map[];
    }

    /**
     * `Memory::append`: `pos` becomes the newest turn of `key`, and only the
     * two newest turns are kept.
     */
    method Append(key: nat, pos: nat)
      modifies this
      ensures key in mem && 1 <= |mem[key]| <= 2 && mem[key][0] == pos
      ensures key in old(mem) && |old(mem)[key]| > 0 ==> |mem[key]| == 2 && mem[key][1] == old(mem)[key][0]
      ensures key !in old(mem) ==> mem[key] == [pos]
      ensures mem == old(mem)[key := Take2([pos] + (if key in old(mem) then old(mem)[key] else []))]
    {
      if key !in mem {
        mem := mem[key := [pos]];
      } else {
        var dq := [pos] + mem[key];
        ghost var full := dq;
        while |dq| > 2
          invariant 1 <= |dq| <= |full| && dq == full[..|dq|]
          invariant |full| >= 2 ==> |dq| >= 2
        {
          dq := dq[..|dq| - 1];
        }
        mem := mem[key := dq];
      }
    }

    /** `Memory::get`: the remembered turns, only when there are exactly two of them. */
    function Get(key: nat): (r: Option<seq<nat>>)
      reads this
      ensures r.Some? <==> key in mem && |mem[key]| == 2
      ensures r.Some? ==> r.value == mem[key]
    {
      if key !in mem then None
      else if |mem[key]| > 2 then None
      else if |mem[key]| < 2 then None
      else Some(mem[key])
    }
  }

  /** `SpokenNumber`: the game as an iterator over the numbers said. */
  class SpokenNumber {
    var init: seq<nat>
    var count: nat
    var last: nat
    var memory: Memory

    function Contents(): GameState
      reads this, memory
    {
      GameState(init, count, last, memory.mem)
    }

    /** `SpokenNumber::new` */
    constructor (init: seq<nat>)
      ensures Contents() == Initial(init) && WellFormed(Contents()) && fresh(memory)
    {
      this.init := init;
      count := 0;
      last := 0;
      memory := new Memory();
    }

    /**
     * `SpokenNumber::next`: the next starting number while there are any,
     * then 0 for a new number or the distance between its last two turns;
     * it never ends.
     */
    method Next() returns (next: nat)
      requires WellFormed(Contents())
      modifies this, memory
      ensures memory == old(memory)
      ensures next == Said(old(Contents())) && Contents() == Advance(old(Contents()))
      ensures WellFormed(Contents())
    {
      if |init| > 0 {
        next := init[0];
        init := init[1..];
      } else {
        match memory.Get(last)
        case None =>
          next := 0;
        case Some(list) =>
          next := list[0] - list[1];
      }
      last := next;
      count := count + 1;
      memory.Append(next, count);
    }
  }

  /** The state after `n` turns of a game started with `start`. */
  function Run(start: seq<nat>, n: nat): GameState
    decreases n
  {
    if n == 0 then Initial(start) else Advance(Run(start, n - 1))
  }

  /** The state after `n` turns remembers exactly the first `n` numbers of the game. */
  lemma {:induction false} RunConsistent(start: seq<nat>, n: nat)
    ensures Consistent(start, Game(start, n), Run(start, n))
    ensures n > 0 ==> Game(start, n) == Game(start, n - 1) + [Said(Run(start, n - 1))]
    decreases n
  {
    if n == 0 {
      InitialConsistent(start);
    } else {
      RunConsistent(start, n - 1);
      StepConsistent(start, Game(start, n - 1), Run(start, n - 1));
    }
  }

  /** The number said on turn `n` is the game's `n`-th number. */
  lemma RunSays(start: seq<nat>, n: nat)
    requires n >= 1
    ensures Said(Run(start, n - 1)) == Game(start, n)[n - 1]
  {
    RunConsistent(start, n);
  }
}
