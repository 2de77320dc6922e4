/** Which register an ARM store-multiple puts at an address, and from which address a load-multiple takes a
    register: armSTM and armLDM of decodeArm.py, against the ARM Architecture Reference Manual ARMv7-A/R
    (DDI 0406C), sections A8.8.58 to A8.8.60. */
module DecodeArm {
  import opened Collections

  /** Increment or decrement, after or before. */
  datatype Mode = Mode(down: bool, before: bool)

  /** The manual: the registers fill a block of words, the lowest register at the lowest address. */
  function ManualStart(m: Mode, base: int, n: nat): int {
    if m.down then base - 4 * n + (if m.before then 0 else 4)
    else base + (if m.before then 4 else 0)
  }

  function ManualAddress(m: Mode, base: int, n: nat, i: nat): int {
    ManualStart(m, base, n) + 4 * i
  }

  /** What the mnemonics say: stmdb, ldmia and so on. The d of ldm itself does not count. */
  function StmMode(mn: string): Mode {
    Mode('d' in mn, 'b' in mn)
  }

  function LdmMode(mn: string): Mode {
    Mode(|mn| > 3 && 'd' in mn[3..], 'b' in mn)
  }

  /** How the manual spells a mode. */
  function Spelt(m: Mode): string {
    [if m.down then 'd' else 'i', if m.before then 'b' else 'a']
  }

  /** The eight mnemonics, with whatever condition or width follows, are read as the manual means them. No
      condition has a b or a d. */
  lemma MnemonicsRead(m: Mode, suffix: string)
    requires 'b' !in suffix && 'd' !in suffix
    ensures StmMode("stm" + Spelt(m) + suffix) == m && LdmMode("ldm" + Spelt(m) + suffix) == m
  {
    var stm, ldm := "stm" + Spelt(m) + suffix, "ldm" + Spelt(m) + suffix;
    assert stm[3] == Spelt(m)[0] && stm[4] == Spelt(m)[1];
    assert ldm[3..] == Spelt(m) + suffix;
    assert ldm[3..][0] == Spelt(m)[0] && ldm[4] == Spelt(m)[1];
  }

  /** Without a mode they are increment-after. */
  lemma PlainMnemonicsRead(suffix: string)
    requires 'b' !in suffix && 'd' !in suffix
    ensures StmMode("stm" + suffix) == LdmMode("ldm" + suffix) == Mode(false, false)
  {
    assert ("ldm" + suffix)[3..] == suffix;
  }

  function Reversed(regs: seq<string>): (r: seq<string>)
    ensures |r| == |regs| && forall reg :: reg in regs <==> reg in r
  {
    if regs == [] then [] else Reversed(regs[1..]) + [regs[0]]
  }

  /** list.index: the first place. */
  function IndexOf(regs: seq<string>, reg: string): (i: nat)
    requires reg in regs
    ensures i < |regs| && regs[i] == reg && reg !in regs[..i]
  {
    if regs[0] == reg then 0 else 1 + IndexOf(regs[1..], reg)
  }

  /** int(offset/4 - before): division of floats, then truncation toward zero. */
  function Truncated(n: int): int {
    if n >= 0 then n / 4 else -((-n) / 4)
  }

  lemma TruncatedExact(n: int)
    ensures n >= 0 ==> 4 * Truncated(n) <= n < 4 * Truncated(n) + 4
    ensures n <= 0 ==> 4 * Truncated(n) - 4 < n <= 4 * Truncated(n)
  {
  }

  /** A register of the list; none when the operand is not a list; an index error. */
  datatype Register = Reg(name: string) | NoList | IndexError

  /** A negative index counts from the end. */
  function AtIndex(regs: seq<string>, index: int): Register {
    if 0 <= index < |regs| then Reg(regs[index])
    else if -|regs| <= index < 0 then Reg(regs[|regs| + index])
    else IndexError
  }

  /** Each register is at two indices, and no register is at any other. */
  lemma AtIndexExact(regs: seq<string>, i: nat, index: int)
    requires i < |regs|
    ensures AtIndex(regs, i) == AtIndex(regs, i - |regs|) == Reg(regs[i])
    ensures AtIndex(regs, index) == IndexError <==> index < -|regs| || index >= |regs|
  {
  }

  function StmRegister(m: Mode, base: int, regs: seq<string>, addr: int): Register {
    var offset := (addr - base) * (if m.down then -1 else 1);
    AtIndex(if m.down then Reversed(regs) else regs, Truncated(offset - (if m.before then 4 else 0)))
  }

  function LdmAddress(m: Mode, base: int, regs: seq<string>, reg: string): Option<int> {
    if reg !in regs then None
    else if m.down then Some(base - 4 * (IndexOf(Reversed(regs), reg) + (if m.before then 1 else 0)))
    else Some(base + 4 * (IndexOf(regs, reg) - (if m.before then 1 else 0)))
  }

  /** `operand` is the list between the braces; None when the operand is no such list. */
  method ArmSTM(mn: string, operand: Option<seq<string>>, base: int, addr: int) returns (r: Register)
    ensures r == if operand.None? then NoList else StmRegister(StmMode(mn), base, operand.value, addr)
  {
    r := NoList;
    if operand.Some? {
      var regs := operand.value;
      var mul := 1;
      if 'd' in mn {
        mul := -1;
      }
      var before := 0;
      if 'b' in mn {
        before := 1;
      }
      var offset := (addr - base) * mul;
      var count := Truncated(offset - 4 * before);
      if mul < 0 {
        regs := Reversed(regs);
      }
      r := AtIndex(regs, count);
    }
  }

  method ArmLDM(mn: string, operand: Option<seq<string>>, base: int, reg: string) returns (address: Option<int>)
    ensures address == if operand.None? then None else LdmAddress(LdmMode(mn), base, operand.value, reg)
  {
    address := None;
    var mul := 1;
    if |mn| > 3 && 'd' in mn[3..] {
      mul := -1;
    }
    var before := 0;
    if 'b' in mn {
      before := 1;
    }
    if operand.Some? {
      var regs := operand.value;
      if reg in regs {
        if mul < 0 {
          regs := Reversed(regs);
          before := before * -1;
        }
        var index := IndexOf(regs, reg) - before;
        var offset := index * 4;
        address := Some(base + offset * mul);
      }
    }
  }

  lemma {:induction false} ReversedAt(regs: seq<string>, i: nat)
    requires i < |regs|
    ensures Reversed(regs)[|regs| - 1 - i] == regs[i]
  {
    if i > 0 {
      ReversedAt(regs[1..], i - 1);
    }
  }

  lemma ReversedDistinct(regs: seq<string>)
    requires Distinct(regs)
    ensures Distinct(Reversed(regs))
  {
    forall i, j | 0 <= i < j < |regs| ensures Reversed(regs)[i] != Reversed(regs)[j] {
      ReversedAt(regs, |regs| - 1 - i);
      ReversedAt(regs, |regs| - 1 - j);
    }
  }

  lemma IndexIs(regs: seq<string>, i: nat)
    requires i < |regs| && Distinct(regs)
    ensures IndexOf(regs, regs[i]) == i
  {
  }

  lemma IndexInReversed(regs: seq<string>, i: nat)
    requires i < |regs| && Distinct(regs)
    ensures regs[i] in Reversed(regs) && IndexOf(Reversed(regs), regs[i]) == |regs| - 1 - i
  {
    ReversedAt(regs, i);
    ReversedDistinct(regs);
    IndexIs(Reversed(regs), |regs| - 1 - i);
  }

  /** The store side is right in all four modes: each register is found at the address the manual gives it. */
  lemma StmIsManual(m: Mode, base: int, regs: seq<string>, i: nat)
    requires i < |regs|
    ensures StmRegister(m, base, regs, ManualAddress(m, base, |regs|, i)) == Reg(regs[i])
  {
    ReversedAt(regs, i);
  }

  /** The load side is right but for increment-before, where it is always two words too low. */
  lemma LdmIsManual(m: Mode, base: int, regs: seq<string>, i: nat)
    requires i < |regs| && Distinct(regs)
    ensures LdmAddress(m, base, regs, regs[i]) ==
      Some(ManualAddress(m, base, |regs|, i) - (if m == Mode(false, true) then 8 else 0))
  {
    IndexIs(regs, i);
    IndexInReversed(regs, i);
  }

  /** armSTM at the address that armLDM gives for a register finds that register, whatever the list and the
      base; with increment-before it does so exactly when the list has two registers, thanks to negative indices. */
  lemma RoundTrip(m: Mode, base: int, regs: seq<string>, i: nat)
    requires i < |regs| && Distinct(regs)
    ensures LdmAddress(m, base, regs, regs[i]).Some?
    ensures StmRegister(m, base, regs, LdmAddress(m, base, regs, regs[i]).value) == Reg(regs[i])
      <==> m != Mode(false, true) || |regs| == 2
  {
    LdmIsManual(m, base, regs, i);
    if m != Mode(false, true) {
      StmIsManual(m, base, regs, i);
    }
  }

  /** Distinct registers have distinct addresses, all within the block that starts at the manual's address. */
  lemma LdmFillsBlock(m: Mode, base: int, regs: seq<string>, i: nat, j: nat)
    requires i < j < |regs| && Distinct(regs) && m != Mode(false, true)
    ensures var a, b := LdmAddress(m, base, regs, regs[i]), LdmAddress(m, base, regs, regs[j]);
      var start := ManualStart(m, base, |regs|);
      a.Some? && b.Some? && start <= a.value < b.value < start + 4 * |regs|
  {
    LdmIsManual(m, base, regs, i);
    LdmIsManual(m, base, regs, j);
  }
}
