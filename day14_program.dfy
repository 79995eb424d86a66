/**
 * Day 14: the docking program's memory, written by a list of instructions in
 * either decoder version.
 */
module Day14Program {
  import opened Arith
  import opened Day14Bits
  import opened Day14Instruction

  /** The memory's contents: the current mask and the written addresses. */
  datatype State = State(mask: Mask, mem: map<nat, nat>)

  /** The two decoder versions, `Memory::apply_v1` and `Memory::apply_v2`. */
  datatype Version = V1 | V2

  /** The memory after writing `value` to each of `addresses`, one after the other. */
  function WriteAll(mem: map<nat, nat>, addresses: seq<nat>, value: nat): (r: map<nat, nat>)
    ensures r.Keys == mem.Keys + set a | a in addresses
    ensures forall a | a in addresses :: r[a] == value
    ensures forall a | a in mem && a !in addresses :: r[a] == mem[a]
    decreases |addresses|
  {
    if |addresses| == 0 then mem
    else WriteAll(mem, addresses[..|addresses| - 1], value)[addresses[|addresses| - 1] := value]
  }

  /** Writing one more address is one more update. */
  lemma WriteAllSnoc(mem: map<nat, nat>, addresses: seq<nat>, value: nat, i: nat)
    requires i < |addresses|
    ensures WriteAll(mem, addresses[..i + 1], value) == WriteAll(mem, addresses[..i], value)[addresses[i] := value]
  {
    assert addresses[..i + 1][..i] == addresses[..i];
  }

  /** One instruction, as `Memory::apply_v1` or `Memory::apply_v2` carries it out. */
  function Step(version: Version, st: State, ins: Instruction): (r: State)
    ensures ins.MaskInstruction? ==> r == State(ins.mask, st.mem)
    ensures version == V1 && ins.WriteInstruction? ==>
      r.mask == st.mask && r.mem == st.mem[ins.write.to := ApplyV1(st.mask, ins.write.value)]
    ensures version == V2 && ins.WriteInstruction? ==>
      r.mask == st.mask && r.mem == WriteAll(st.mem, Addresses(st.mask, ins.write.to), ins.write.value)
  {
    match ins
    case MaskInstruction(m) => State(m, st.mem)
    case WriteInstruction(w) =>
      match version
      case V1 => State(st.mask, st.mem[w.to := ApplyV1(st.mask, w.value)])
      case V2 =>
        State(st.mask, WriteAll(st.mem, Addresses(st.mask, w.to), w.value))
  }

  /** The memory after a whole list of instructions, as `apply_list` leaves it. */
  function Run(version: Version, st: State, list: seq<Instruction>): State
    decreases |list|
  {
    if |list| == 0 then st else Step(version, Run(version, st, list[..|list| - 1]), list[|list| - 1])
  }

  /** Running two lists one after the other is running their concatenation. */
  lemma {:induction false} RunAppend(version: Version, st: State, a: seq<Instruction>, b: seq<Instruction>)
    ensures Run(version, st, a + b) == Run(version, Run(version, st, a), b)
    decreases |b|
  {
    if |b| > 0 {
      assert (a + b)[..|a + b| - 1] == a + b[..|b| - 1];
      assert (a + b)[|a + b| - 1] == b[|b| - 1];
      RunAppend(version, st, a, b[..|b| - 1]);
    } else {
      assert a + b == a;
    }
  }

  /** `true` when the instruction writes to `address` in version 1. */
  predicate WritesTo(ins: Instruction, address: nat)
  {
    ins.WriteInstruction? && ins.write.to == address
  }

  /** In version 1, instructions that do not write to an address leave it as it is. */
  lemma {:induction false} RunV1Elsewhere(st: State, list: seq<Instruction>, address: nat)
    requires address in st.mem
    requires forall i | 0 <= i < |list| :: !WritesTo(list[i], address)
    ensures address in Run(V1, st, list).mem && Run(V1, st, list).mem[address] == st.mem[address]
    decreases |list|
  {
    if |list| > 0 {
      RunV1Elsewhere(st, list[..|list| - 1], address);
    }
  }

  /**
   * In version 1 the last write to an address decides its value: the
   * written value under the mask in force at that write.
   */
  lemma LastWriteWinsV1(st: State, before: seq<Instruction>, w: Write, after: seq<Instruction>)
    requires forall i | 0 <= i < |after| :: !WritesTo(after[i], w.to)
    ensures var final := Run(V1, st, before + [WriteInstruction(w)] + after);
      w.to in final.mem && final.mem[w.to] == ApplyV1(Run(V1, st, before).mask, w.value)
  {
    RunAppend(V1, st, before, [WriteInstruction(w)]);
    assert (before + [WriteInstruction(w)])[..|before|] == before;
    RunAppend(V1, st, before + [WriteInstruction(w)], after);
    RunV1Elsewhere(Run(V1, st, before + [WriteInstruction(w)]), after, w.to);
  }

  /** Every value in memory fits in 36 bits. */
  predicate Values36(st: State)
  {
    forall a | a in st.mem :: st.mem[a] < Pow2(36)
  }

  /** Version 1 only ever stores masked, 36-bit values. */
  lemma {:induction false} RunV1Values36(st: State, list: seq<Instruction>)
    requires Values36(st)
    ensures Values36(Run(V1, st, list))
    decreases |list|
  {
    if |list| > 0 {
      RunV1Values36(st, list[..|list| - 1]);
    }
  }

  /**
   * A version 2 write stores its value at exactly the addresses its mask
   * allows and leaves every other cell as it was.
   */
  lemma StepV2Write(st: State, w: Write)
    ensures var r := Step(V2, st, WriteInstruction(w));
      (forall a: nat :: a in r.mem <==> a in st.mem || Allowed(st.mask, w.to, a)) &&
      (forall a: nat | Allowed(st.mask, w.to, a) :: a in r.mem && r.mem[a] == w.value) &&
      (forall a: nat | a in st.mem && !Allowed(st.mask, w.to, a) :: r.mem[a] == st.mem[a])
  {
    AddressesSpec(st.mask, w.to);
  }

  /** The sum of the stored values (in no particular order). */
  ghost function SumValues(mem: map<nat, nat>): nat
    decreases |mem|
  {
    if mem == map[] then 0
    else
      var k :| k in mem;
      mem[k] + SumValues(mem - {k})
  }

  /** The sum does not depend on which address is taken first. */
  lemma {:induction false} SumValuesRemove(mem: map<nat, nat>, k: nat)
    requires k in mem
    ensures SumValues(mem) == mem[k] + SumValues(mem - {k})
    decreases |mem|
  {
    var j :| j in mem && SumValues(mem) == mem[j] + SumValues(mem - {j});
    if j != k {
      SumValuesRemove(mem - {j}, k);
      SumValuesRemove(mem - {k}, j);
      assert mem - {j} - {k} == mem - {k} - {j};
    }
  }

  /** `Memory`: the current mask and the memory cells written so far. */
  class Memory {
    var mask: Mask
    var mem: map<nat, nat>

    function Contents(): State
      reads this
    {
      State(mask, mem)
    }

    /** `Memory::default`: the default mask and no cell written. */
    constructor ()
      ensures Contents() == State(DefaultMask(), map[])
    {
      mask := DefaultMask();
      mem := map[];
    }

    /** `Memory::apply_v1`: a mask replaces the mask, a write stores the masked value. */
    method ApplyV1(ins: Instruction)
      modifies this
      ensures Contents() == Step(V1, old(Contents()), ins)
    {
      match ins
      case MaskInstruction(m) =>
        mask := m;
      case WriteInstruction(w) =>
        mem := mem[w.to := Day14Instruction.ApplyV1(mask, w.value)];
    }

    /** `Memory::apply_v2`: a mask replaces the mask, a write stores the value at every floating address. */
    method ApplyV2(ins: Instruction)
      modifies this
      ensures Contents() == Step(V2, old(Contents()), ins)
    {
      match ins
      case MaskInstruction(m) =>
        mask := m;
      case WriteInstruction(w) =>
        var addresses := Day14Instruction.ApplyV2(mask, w.to);
        for i := 0 to |addresses|
          invariant mask == old(mask)
          invariant mem == WriteAll(old(mem), addresses[..i], w.value)
        {
          WriteAllSnoc(old(mem), addresses, w.value, i);
          mem := mem[addresses[i] := w.value];
        }
        assert addresses[..|addresses|] == addresses;
    }

    /** `Memory::sum`: the sum of every stored value. */
    method Sum() returns (total: nat)
      ensures total == SumValues(mem)
    {
      total := 0;
      var rest := mem;
      while rest != map[]
        invariant total + SumValues(rest) == SumValues(mem)
        decreases |rest|
      {
        var k :| k in rest;
        SumValuesRemove(rest, k);
        total := total + rest[k];
        rest := rest - {k};
      }
    }
  }

  /** `apply_list`: every instruction of the list in order, with the chosen version. */
  method ApplyList(memory: Memory, version: Version, list: seq<Instruction>)
    modifies memory
    ensures memory.Contents() == Run(version, old(memory.Contents()), list)
  {
    for i := 0 to |list|
      invariant memory.Contents() == Run(version, old(memory.Contents()), list[..i])
    {
      assert list[..i + 1][..i] == list[..i];
      match version
      case V1 => memory.ApplyV1(list[i]);
      case V2 => memory.ApplyV2(list[i]);
    }
    assert list[..|list|] == list;
  }
}
