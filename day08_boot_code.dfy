/**
 * Day 8 (handheld halting), the boot code: `nop`, `acc` and `jmp`
 * instructions, their parser and printer, and the machine that runs them
 * until an instruction is about to run a second time or the program counter
 * leaves the program.
 */
module Day08BootCode {
  import opened Wrappers
  import opened Text

  datatype Sign = Plus | Minus

  /** Jump and no-op keep their argument as sign and magnitude; `acc` keeps it signed. */
  datatype Instruction = Nop(sign: Sign, value: nat) | Acc(amount: int) | Jmp(sign: Sign, value: nat)

  datatype TermReason = Loop(acc: int) | End(acc: int)

  datatype ParseInstructionError =
    | MalformedInputError(input: string)
    | UnknownInstructionError(name: string, input: string)
    | ParseIntError

  datatype ParseInstructionListError = ParseInstructionListError(line: nat, error: ParseInstructionError)

  function SignedValue(sign: Sign, value: nat): (v: int)
    ensures v == value || v == -(value as int)
    ensures (v < 0 ==> sign == Minus) && (v > 0 ==> sign == Plus)
  {
    match sign
    case Plus => value
    case Minus => -(value as int)
  }

  /** `get_value`: the argument as a signed number. */
  function GetValue(ins: Instruction): (v: int)
    ensures ins.Acc? ==> v == ins.amount
    ensures !ins.Acc? ==> (v == ins.value || v == -(ins.value as int))
    ensures !ins.Acc? && Normal(ins) ==> (v < 0 <==> ins.sign == Minus)
  {
    match ins
    case Nop(sign, value) => SignedValue(sign, value)
    case Acc(amount) => amount
    case Jmp(sign, value) => SignedValue(sign, value)
  }

  function Name(ins: Instruction): string
  {
    match ins
    case Nop(_, _) => "nop"
    case Acc(_) => "acc"
    case Jmp(_, _) => "jmp"
  }

  /** The form the parser produces: a zero magnitude always carries `Plus`. */
  predicate Normal(ins: Instruction)
  {
    !ins.Acc? ==> (ins.sign == Minus ==> ins.value > 0)
  }

  /**
   * `Instruction::from_str`: the name and the number are the first two
   * space-separated words; the number is parsed before the name is checked.
   */
  function ParseInstruction(s: string): (r: Result<Instruction, ParseInstructionError>)
    ensures r.Ok? ==> Normal(r.value)
    ensures r.Ok? ==> |Split(s, " ")| >= 2 && ParseInt(Split(s, " ")[1]) == Some(GetValue(r.value))
    ensures r.Ok? ==> Split(s, " ")[0] == Name(r.value)
    ensures r.Ok? <==> (|Split(s, " ")| >= 2 && ParseInt(Split(s, " ")[1]).Some?
                        && Split(s, " ")[0] in {"nop", "acc", "jmp"})
    ensures |Split(s, " ")| < 2 ==> r == Err(MalformedInputError(s))
    ensures |Split(s, " ")| >= 2 && ParseInt(Split(s, " ")[1]).None? ==> r == Err(ParseInstructionError.ParseIntError)
    ensures (|Split(s, " ")| >= 2 && ParseInt(Split(s, " ")[1]).Some?
             && Split(s, " ")[0] !in {"nop", "acc", "jmp"})
      ==> r == Err(UnknownInstructionError(Split(s, " ")[0], s))
  {
    var words := Split(s, " ");
    if |words| < 2 then Err(MalformedInputError(s))
    else
      match ParseInt(words[1])
      case None => Err(ParseInstructionError.ParseIntError)
      case Some(data) =>
        var sign := if data < 0 then Minus else Plus;
        var value: nat := if data < 0 then -data else data;
        if words[0] == "nop" then Ok(Nop(sign, value))
        else if words[0] == "acc" then Ok(Acc(data))
        else if words[0] == "jmp" then Ok(Jmp(sign, value))
        else Err(UnknownInstructionError(words[0], s))
  }

  /** `Display`: the name and the value with an explicit sign. */
  function Show(ins: Instruction): (s: string)
    ensures Split(s, " ") == [Name(ins), ShowSigned(GetValue(ins))]
    ensures ParseInt(Split(s, " ")[1]) == Some(GetValue(ins))
  {
    var name, number := Name(ins), ShowSigned(GetValue(ins));
    SignedHasNoSpace(GetValue(ins));
    assert ' ' !in name;
    SplitAtChar(name, ' ', number);
    ParseShowSigned(GetValue(ins));
    name + [' '] + number
  }

  /** A printed instruction in the parser's form parses back to itself. */
  lemma ParseShow(ins: Instruction)
    requires Normal(ins)
    ensures ParseInstruction(Show(ins)) == Ok(ins)
  {
    var v := GetValue(ins);
    ParseShowSigned(v);
    var sign := if v < 0 then Minus else Plus;
    var value: nat := if v < 0 then -v else v;
    assert !ins.Acc? ==> ins == (if ins.Nop? then Nop(sign, value) else Jmp(sign, value));
  }

  lemma SignedHasNoSpace(v: int)
    ensures ' ' !in ShowSigned(v)
  {
    var number := ShowSigned(v);
    var magnitude := ShowNat(if v < 0 then -v else v);
    assert number == [number[0]] + magnitude;
    forall i | 0 <= i < |number|
      ensures number[i] != ' '
    {
      if i > 0 {
        assert number[i] == magnitude[i - 1];
        assert IsDigit(magnitude[i - 1]);
      }
    }
  }

  /** `parse_instruction_list`'s step: a line's error carries the line's 0-based index. */
  function ParseNumbered(line: (nat, string)): Result<Instruction, ParseInstructionListError>
  {
    match ParseInstruction(line.1)
    case Ok(ins) => Ok(ins)
    case Err(e) => Err(ParseInstructionListError(line.0, e))
  }

  function Numbered(lines: seq<string>): (numbered: seq<(nat, string)>)
    ensures |numbered| == |lines| && forall i | 0 <= i < |lines| :: numbered[i] == (i, lines[i])
  {
    seq(|lines|, i requires 0 <= i < |lines| => (i, lines[i]))
  }

  /** `parse_instruction_list`: every line parsed, or the first bad line's index and error. */
  function ParseInstructionList(content: string): (r: Result<seq<Instruction>, ParseInstructionListError>)
    ensures r.Ok? <==> forall i | 0 <= i < |Lines(content)| :: ParseInstruction(Lines(content)[i]).Ok?
    ensures r.Ok? ==> (|r.value| == |Lines(content)|
      && forall i | 0 <= i < |Lines(content)| :: ParseInstruction(Lines(content)[i]) == Ok(r.value[i]))
  {
    var numbered := Numbered(Lines(content));
    assert forall i | 0 <= i < |numbered| :: ParseNumbered(numbered[i]).Ok? == ParseInstruction(Lines(content)[i]).Ok?;
    CollectAll(numbered, ParseNumbered)
  }

  /** A failed list names the first line that does not parse, with that line's error. */
  lemma ParseInstructionListError_FirstLine(content: string)
    requires ParseInstructionList(content).Err?
    ensures var e := ParseInstructionList(content).error;
      e.line < |Lines(content)| && ParseInstruction(Lines(content)[e.line]) == Err(e.error)
      && forall j | 0 <= j < e.line :: ParseInstruction(Lines(content)[j]).Ok?
  {
    var numbered := Numbered(Lines(content));
    CollectAllFirstError(numbered, ParseNumbered);
  }

  /** One instruction's effect on program counter and accumulator (the counter may go below 0). */
  function Step(ins: Instruction, pc: nat, acc: int): (next: (int, int))
    ensures next.0 == pc + (if ins.Jmp? then GetValue(ins) else 1)
    ensures next.1 == acc + (if ins.Acc? then ins.amount else 0)
  {
    match ins
    case Nop(_, _) => (pc + 1, acc)
    case Acc(amount) => (pc + 1, acc + amount)
    case Jmp(Plus, value) => (pc + value, acc)
    case Jmp(Minus, value) => (pc - value, acc)
  }

  /** A backward jump past instruction 0 underflows the unsigned counter, which panics. */
  predicate Underflows(ins: Instruction, pc: nat)
  {
    ins.Jmp? && ins.sign == Minus && ins.value > pc
  }

  /** The valid program counters of a program of length `n`. */
  function Range(n: nat): (r: set<nat>)
    ensures forall i: nat :: i in r <==> i < n
  {
    if n == 0 then {} else Range(n - 1) + {n - 1}
  }

  datatype Outcome = Halted(reason: TermReason, pc: nat) | Underflow

  /**
   * What `run_till_term` does from counter `pc` and accumulator `acc` when
   * the counters in `ran` have already run: the reason it stops and the final
   * counter, or `Underflow` when a backward jump would panic first.
   */
  function RunFrom(prog: seq<Instruction>, pc: nat, acc: int, ran: set<nat>): (o: Outcome)
    requires ran <= Range(|prog|)
    ensures o.Halted? && o.reason.Loop? ==> o.pc < |prog|
    ensures o.Halted? && o.reason.End? ==> o.pc >= |prog|
    decreases |Range(|prog|) - ran|
  {
    if pc in ran then Halted(Loop(acc), pc)
    else if pc >= |prog| then Halted(End(acc), pc)
    else if Underflows(prog[pc], pc) then Underflow
    else
      var next := Step(prog[pc], pc, acc);
      assert Range(|prog|) - (ran + {pc}) < Range(|prog|) - ran;
      RunFrom(prog, next.0, next.1, ran + {pc})
  }

  /** The counters that have run when the run from `pc` stops. */
  ghost function RanBy(prog: seq<Instruction>, pc: nat, acc: int, ran: set<nat>): set<nat>
    requires ran <= Range(|prog|)
    decreases |Range(|prog|) - ran|
  {
    if pc in ran || pc >= |prog| || Underflows(prog[pc], pc) then ran
    else
      var next := Step(prog[pc], pc, acc);
      assert Range(|prog|) - (ran + {pc}) < Range(|prog|) - ran;
      RanBy(prog, next.0, next.1, ran + {pc})
  }

  /**
   * The run stops at a repeat only on a counter that has already run, and at
   * the end only on a counter outside the program that has not.
   */
  lemma {:induction false} RunFromStops(prog: seq<Instruction>, pc: nat, acc: int, ran: set<nat>)
    requires ran <= Range(|prog|) && RunFrom(prog, pc, acc, ran).Halted?
    ensures ran <= RanBy(prog, pc, acc, ran) <= Range(|prog|)
    ensures RunFrom(prog, pc, acc, ran).reason.Loop? ==> RunFrom(prog, pc, acc, ran).pc in RanBy(prog, pc, acc, ran)
    ensures RunFrom(prog, pc, acc, ran).reason.End? ==>
      RunFrom(prog, pc, acc, ran).pc >= |prog| && RunFrom(prog, pc, acc, ran).pc !in RanBy(prog, pc, acc, ran)
    ensures pc >= |prog| && pc !in ran ==> RunFrom(prog, pc, acc, ran) == Halted(End(acc), pc)
    decreases |Range(|prog|) - ran|
  {
    if !(pc in ran || pc >= |prog|) {
      var next := Step(prog[pc], pc, acc);
      assert Range(|prog|) - (ran + {pc}) < Range(|prog|) - ran;
      RunFromStops(prog, next.0, next.1, ran + {pc});
    }
  }

  /** `Machine`: the program counter and the accumulator, both starting at 0. */
  class Machine {
    var pc: nat
    var acc: int

    constructor ()
      ensures pc == 0 && acc == 0
    {
      pc := 0;
      acc := 0;
    }

    /** `run_instruction`: advance by one, add to the accumulator, or jump. */
    method RunInstruction(ins: Instruction)
      requires !Underflows(ins, pc)
      modifies this
      ensures pc == Step(ins, old(pc), old(acc)).0 && acc == Step(ins, old(pc), old(acc)).1
    {
      match ins {
        case Nop(_, _) =>
          pc := pc + 1;
        case Acc(amount) =>
          acc := acc + amount;
          pc := pc + 1;
        case Jmp(sign, value) =>
          match sign {
            case Plus => pc := pc + value;
            case Minus => pc := pc - value;
          }
      }
    }

    /**
     * `run_till_term`: runs until an instruction is about to run a second
     * time (`Loop`) or the counter leaves the program (`End`); every counter
     * runs at most once, so the loop ends.
     */
    method RunTillTerm(prog: seq<Instruction>) returns (r: TermReason)
      requires RunFrom(prog, pc, acc, {}).Halted?
      modifies this
      ensures RunFrom(prog, old(pc), old(acc), {}) == Halted(r, pc)
      ensures r.acc == acc
    {
      var ran: set<nat> := {};
      while true
        invariant ran <= Range(|prog|)
        invariant RunFrom(prog, pc, acc, ran) == RunFrom(prog, old(pc), old(acc), {})
        decreases |Range(|prog|) - ran|
      {
        if pc in ran {
          return Loop(acc);
        }
        if pc >= |prog| {
          return End(acc);
        }
        assert Range(|prog|) - (ran + {pc}) < Range(|prog|) - ran;
        ran := ran + {pc};
        RunInstruction(prog[pc]);
      }
    }
  }
}
