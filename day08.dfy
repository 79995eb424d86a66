/**
 * Day 8 (handheld halting), the repair: swap one `jmp` for a `nop` or the
 * other way round so that the program runs off its end.
 */
module Day08 {
  import opened Wrappers
  import opened Seqs
  import opened Day08BootCode

  /** `jmp` and `nop` trade places, keeping sign and value; `acc` has no counterpart. */
  function Swapped(ins: Instruction): (r: Instruction)
    requires !ins.Acc?
    ensures !r.Acc? && r.Jmp? != ins.Jmp? && GetValue(r) == GetValue(ins)
  {
    match ins
    case Jmp(sign, value) => Nop(sign, value)
    case Nop(sign, value) => Jmp(sign, value)
  }

  /** Swapping twice gives the instruction back. */
  lemma SwappedInvolution(ins: Instruction)
    requires !ins.Acc?
    ensures Swapped(Swapped(ins)) == ins
  {
  }

  /** The program with the instruction at `idx` swapped. */
  function SwapAt(prog: seq<Instruction>, idx: nat): (r: seq<Instruction>)
    requires idx < |prog| && !prog[idx].Acc?
    ensures |r| == |prog| && r[idx] == Swapped(prog[idx])
    ensures forall i | 0 <= i < |prog| && i != idx :: r[i] == prog[i]
  {
    prog[idx := Swapped(prog[idx])]
  }

  /** The swap at `idx` lets the program run off its end from a fresh machine. */
  predicate Repairs(prog: seq<Instruction>, idx: nat)
  {
    idx < |prog| && !prog[idx].Acc? && RunFrom(SwapAt(prog, idx), 0, 0, {}).Halted?
      && RunFrom(SwapAt(prog, idx), 0, 0, {}).reason.End?
  }

  /** No swap makes the fresh machine's run panic on a backward jump below 0. */
  predicate SwapsDoNotUnderflow(prog: seq<Instruction>)
  {
    forall idx | 0 <= idx < |prog| && !prog[idx].Acc? :: RunFrom(SwapAt(prog, idx), 0, 0, {}).Halted?
  }

  /**
   * `try_change`: `None` at an `acc`; otherwise swap, run a fresh machine and
   * report `idx` exactly when the run ends.
   */
  method TryChange(prog: seq<Instruction>, idx: nat) returns (r: Option<nat>)
    requires idx < |prog|
    requires !prog[idx].Acc? ==> RunFrom(SwapAt(prog, idx), 0, 0, {}).Halted?
    ensures r.Some? <==> Repairs(prog, idx)
    ensures r.Some? ==> r.value == idx
  {
    if prog[idx].Acc? {
      return None;
    }
    var changed := SwapAt(prog, idx);
    var machine := new Machine();
    var reason := machine.RunTillTerm(changed);
    match reason {
      case Loop(_) => r := None;
      case End(_) => r := Some(idx);
    }
  }

  /** The positions whose swap repairs the program, in ascending order. */
  function RepairPositions(prog: seq<Instruction>, n: nat): (positions: seq<nat>)
    requires n <= |prog|
    ensures forall p: nat :: p in positions <==> p < n && Repairs(prog, p)
    ensures forall i, j | 0 <= i < j < |positions| :: positions[i] < positions[j]
  {
    if n == 0 then []
    else
      var before := RepairPositions(prog, n - 1);
      assert forall k | 0 <= k < |before| :: before[k] in before;
      if Repairs(prog, n - 1) then before + [n - 1] else before
  }

  /**
   * `fix_looped_instructions_bruteforce`: tries every `jmp` and `nop`,
   * demands that exactly one swap repairs the program (the source asserts
   * so) and returns the program with that swap applied.
   */
  method FixLoopedInstructions(prog: seq<Instruction>) returns (fixed: seq<Instruction>, ghost pos: nat)
    requires SwapsDoNotUnderflow(prog)
    requires |RepairPositions(prog, |prog|)| == 1
    ensures Repairs(prog, pos) && forall p | Repairs(prog, p) :: p == pos
    ensures fixed == SwapAt(prog, pos)
    ensures RunFrom(fixed, 0, 0, {}).Halted? && RunFrom(fixed, 0, 0, {}).reason.End?
  {
    var positions: seq<nat> := [];
    for idx := 0 to |prog|
      invariant positions == RepairPositions(prog, idx)
    {
      var found := TryChange(prog, idx);
      if found.Some? {
        positions := positions + [found.value];
      }
    }
    var p := positions[0];
    assert p in positions;
    pos := p;
    fixed := prog[p := Swapped(prog[p])];
  }
}
