/** Replacement of privileged instructions by generated code (bootx/accel/mol.c). */
module Replace {
  import opened Options
  import opened PowerPc

  // ----- The instruction encoders

  function HiAlg(addr: Word): Word {
    var l := if addr & 0x8000 != 0 then 0xffff8000 | addr else addr & 0x7fff;
    HalfDown(Minus(addr, l))
  }

  /** Opcode, two registers and a 16-bit operand. */
  function DForm(prim: Word, a: Word, b: Word, low: Word): Word { (prim << 26) + (a << 21) + (b << 16) + low }

  /** Opcode, three registers and a secondary opcode. */
  function XForm(prim: Word, a: Word, b: Word, x: Word, sec: Word): Word {
    (prim << 26) + (a << 21) + (b << 16) + (x << 11) + (sec << 1)
  }

  function InstLisAlg(dr: Word, addr: Word): Word { DForm(15, dr, 0, HiAlg(addr)) }

  function InstLisLog(dr: Word, addr: Word): Word { DForm(15, dr, 0, HalfDown(addr)) }

  function InstOri(dr: Word, sr: Word, addr: Word): Word { DForm(24, sr, dr, LowHalf(addr)) }

  function InstLwz(dr: Word, sr: Word, addr: Word): Word { DForm(32, dr, sr, LowHalf(addr)) }

  function InstLwzx(dr: Word, ar: Word, br: Word): Word { XForm(31, dr, ar, br, 23) }

  function InstB(from: Word, to: Word): Word { (18 << 26) + Displacement(Minus(to, from)) }

  /** hi_alg is the upper half to which the sign-extended lower half adds up. */
  lemma HiAlgAdds(addr: Word)
    ensures Plus(HalfUp(HiAlg(addr)), SignExtend16(LowHalf(addr))) == addr
    ensures HiAlg(addr) <= 0xffff
  {
    hide Plus, Minus, HalfUp, HalfDown, SignExtend16, LowHalf;
    var l := if addr & 0x8000 != 0 then 0xffff8000 | addr else addr & 0x7fff;
    if addr & 0x8000 != 0 {
      LowNegative(addr);
    } else {
      LowPositive(addr);
    }
    Halves(Minus(addr, l));
    Arrives(l, addr);
  }

  lemma LowNegative(x: Word)
    requires x & 0x8000 != 0
    ensures SignExtend16(LowHalf(x)) == 0xffff8000 | x
    ensures LowHalf(Minus(x, 0xffff8000 | x)) == 0
  {
    hide Minus, LowHalf;
    LowNegativeBits(x);
    LowNegativeRest(x);
    assert SignExtend16(LowHalf(x)) == (LowHalf(x) & 0xffff) | 0xffff0000;
  }

  lemma LowNegativeBits(x: Word)
    requires x & 0x8000 != 0
    ensures LowHalf(x) & 0x8000 != 0 && (LowHalf(x) & 0xffff) | 0xffff0000 == 0xffff8000 | x
  {
  }

  lemma LowNegativeRest(x: Word)
    requires x & 0x8000 != 0
    ensures LowHalf(Minus(x, 0xffff8000 | x)) == 0
  {
  }

  lemma LowPositive(x: Word)
    requires x & 0x8000 == 0
    ensures SignExtend16(LowHalf(x)) == x & 0x7fff
    ensures LowHalf(Minus(x, x & 0x7fff)) == 0
  {
    hide Minus, LowHalf;
    LowPositiveBits(x);
    LowPositiveRest(x);
    assert SignExtend16(LowHalf(x)) == LowHalf(x) & 0xffff;
  }

  lemma LowPositiveBits(x: Word)
    requires x & 0x8000 == 0
    ensures LowHalf(x) & 0x8000 == 0 && LowHalf(x) & 0xffff == x & 0x7fff
  {
  }

  lemma LowPositiveRest(x: Word)
    requires x & 0x8000 == 0
    ensures LowHalf(Minus(x, x & 0x7fff)) == 0
  {
  }

  lemma Halves(y: Word)
    ensures LowHalf(y) == 0 ==> HalfUp(HalfDown(y)) == y
    ensures HalfDown(y) <= 0xffff && LowHalf(y) <= 0xffff
    ensures HalfUp(HalfDown(y)) | LowHalf(y) == y
  {
  }

  lemma Arrives(from: Word, to: Word)
    ensures Plus(from, Minus(to, from)) == to && Plus(Minus(to, from), from) == to
  {
  }

  /** The fields of an instruction put together are read back. */
  lemma Fields(prim: Word, a: Word, b: Word, low: Word)
    requires prim < 64 && a < 32 && b < 32 && low <= 0xffff
    ensures var w := DForm(prim, a, b, low);
      Primary(w) == prim && Field1(w) == a && Field2(w) == b && LowHalf(w) == low
  {
  }

  /** The range of a branch: a signed distance of 26 bits, in whole words. */
  predicate Reaches(from: Word, to: Word) {
    var x := Minus(to, from); x & 3 == 0 && (x < 0x02000000 || x >= 0xfe000000)
  }

  /** A generated branch goes to its target if and only if that is in range. */
  lemma BranchOffset(from: Word, to: Word)
    ensures var w := InstB(from, to);
      Primary(w) == 18 && Relative(w) && (Plus(from, SignExtend26(Displacement(w))) == to <==> Reaches(from, to))
  {
    hide Plus, Minus, SignExtend26, Primary, Relative, Displacement, InstB;
    OffsetFields(from, to);
    if Reaches(from, to) {
      OffsetKept(Minus(to, from));
    } else {
      OffsetLost(Minus(to, from));
    }
    ArrivesOnly(from, to, SignExtend26(Displacement(Minus(to, from))));
  }

  /** An address just out of range, which the code does not exclude: the branch goes backwards. */
  lemma BranchMisses()
    ensures Plus(0, SignExtend26(Displacement(InstB(0, 0x02000000)))) == 0xfe000000
  {
  }

  lemma ArrivesOnly(from: Word, to: Word, x: Word)
    ensures Plus(from, x) == to <==> x == Minus(to, from)
  {
    hide Plus, Minus;
    Arrives(from, to);
    Distance(from, x);
  }

  lemma Distance(from: Word, x: Word)
    ensures Minus(Plus(from, x), from) == x
  {
    hide Minus;
    MinusSum(from, x);
  }

  lemma MinusSum(from: Word, x: Word)
    ensures Minus(from + x, from) == x
  {
  }

  lemma OffsetLost(x: Word)
    ensures SignExtend26(Displacement(x)) == x ==> x & 3 == 0 && (x < 0x02000000 || x >= 0xfe000000)
  {
  }

  lemma OffsetFields(from: Word, to: Word)
    ensures var w := InstB(from, to); Primary(w) == 18 && Relative(w) && Displacement(w) == Displacement(Minus(to, from))
  {
    hide Minus;
  }

  lemma OffsetKept(x: Word)
    requires x & 3 == 0 && (x < 0x02000000 || x >= 0xfe000000)
    ensures SignExtend26(Displacement(x)) == x
  {
    var y := x & 0x03fffffc;
    if x < 0x02000000 {
      Forward(x);
      assert y == x;
      assert SignExtend26(y) == y;
    } else {
      Backward(x, y);
    }
  }

  lemma Forward(x: Word)
    requires x & 3 == 0 && x < 0x02000000
    ensures x & 0x03fffffc == x && x & 0x02000000 == 0 && x & 0x03ffffff == x
  {
  }

  lemma Backward(x: Word, y: Word)
    requires x & 3 == 0 && x >= 0xfe000000 && y == x & 0x03fffffc
    ensures y & 0x02000000 != 0 && (y & 0x03ffffff) | 0xfc000000 == x
  {
  }

  lemma FieldsX(prim: Word, a: Word, b: Word, x: Word, sec: Word)
    requires prim < 64 && a < 32 && b < 32 && x < 32 && sec < 1024
    ensures var w := XForm(prim, a, b, x, sec);
      Primary(w) == prim && Field1(w) == a && Field2(w) == b && Field3(w) == x && Secondary(w) == sec && w & 1 == 0
  {
  }

  // ----- One generated instruction at a time

  lemma StepLis(c: Cpu, dr: Word, imm: Word)
    requires dr < 32 && imm <= 0xffff && c.mem(c.pc) == DForm(15, dr, 0, imm)
    ensures Step(c) == Some(c.(pc := Plus(c.pc, 4), gpr := Set(c.gpr, dr, HalfUp(imm))))
  {
    hide DForm, XForm, Plus, Primary, Field1, Field2, LowHalf, HalfUp, Secondary, Relative, Displacement, SignExtend16, SignExtend26;
    Fields(15, dr, 0, imm);
    PlusZero(HalfUp(imm));
  }

  lemma PlusZero(x: Word)
    ensures Plus(0, x) == x
  {
  }

  lemma StepOri(c: Cpu, dr: Word, sr: Word, addr: Word)
    requires dr < 32 && sr < 32 && c.mem(c.pc) == InstOri(dr, sr, addr)
    ensures Step(c) == Some(c.(pc := Plus(c.pc, 4), gpr := Set(c.gpr, dr, c.gpr(sr) | LowHalf(addr))))
  {
    hide DForm, XForm, Plus, Primary, Field1, Field2, LowHalf, HalfUp, Secondary, Relative, Displacement, SignExtend16, SignExtend26;
    Halves(addr);
    Fields(24, sr, dr, LowHalf(addr));
  }

  lemma StepLwz(c: Cpu, dr: Word, sr: Word, addr: Word)
    requires dr < 32 && 0 < sr < 32 && c.mem(c.pc) == InstLwz(dr, sr, addr)
    ensures Step(c) == Some(c.(pc := Plus(c.pc, 4),
      gpr := Set(c.gpr, dr, c.mem(Plus(c.gpr(sr), SignExtend16(LowHalf(addr)))))))
  {
    hide DForm, XForm, Plus, Primary, Field1, Field2, LowHalf, HalfUp, Secondary, Relative, Displacement, SignExtend16, SignExtend26;
    Halves(addr);
    Fields(32, dr, sr, LowHalf(addr));
  }

  lemma StepLwzx(c: Cpu, dr: Word, br: Word)
    requires dr < 32 && br < 32 && c.mem(c.pc) == InstLwzx(dr, 0, br)
    ensures Step(c) == Some(c.(pc := Plus(c.pc, 4), gpr := Set(c.gpr, dr, c.mem(c.gpr(br)))))
  {
    hide DForm, XForm, Plus, Primary, Field1, Field2, Field3, LowHalf, HalfUp, Secondary, Relative, Displacement, SignExtend16, SignExtend26;
    FieldsX(31, dr, 0, br, 23);
    PlusZero(c.gpr(br));
  }

  lemma StepBranch(c: Cpu, to: Word)
    requires Reaches(c.pc, to) && c.mem(c.pc) == InstB(c.pc, to)
    ensures Step(c) == Some(c.(pc := to))
  {
    hide DForm, XForm, Plus, Primary, Field1, Field2, Field3, LowHalf, HalfUp, Secondary, Relative, Displacement, SignExtend16, SignExtend26,
      Reaches, InstB;
    BranchOffset(c.pc, to);
  }

  // ----- The generated sequences

  /** encode_mregs_read */
  function EncodeMregsRead(dr: Word, maddr: Word): (code: seq<Word>)
    ensures 2 <= |code| <= 3
  {
    if dr == 0 then [InstLisLog(dr, maddr), InstOri(dr, dr, maddr), InstLwzx(dr, 0, dr)]
    else [InstLisAlg(dr, maddr), InstLwz(dr, dr, maddr)]
  }

  /** The address of word i of a buffer. */
  function At(d: Word, i: nat): Word {
    if i == 0 then d else Plus(At(d, i - 1), 4)
  }

  /** The generated words at d for the instruction at p: the load and the branch back. */
  function Replacement(dr: Word, maddr: Word, d: Word, p: Word): (code: seq<Word>)
    ensures 3 <= |code| <= 4
  {
    var code := EncodeMregsRead(dr, maddr);
    code + [InstB(At(d, |code|), Plus(p, 4))]
  }

  ghost predicate Holds(mem: Word -> Word, d: Word, code: seq<Word>) {
    forall i :: 0 <= i < |code| ==> mem(At(d, i)) == code[i]
  }

  /** What an instruction that loads the word at maddr into register dr does. */
  ghost predicate Loads(c: Cpu, c': Cpu, dr: Word, maddr: Word) {
    c'.pc == Plus(c.pc, 4) && c'.mem == c.mem && c'.gpr(dr) == c.mem(maddr) && forall r :: r != dr ==> c'.gpr(r) == c.gpr(r)
  }

  /** The branch at the patched instruction and the generated code together load the mregs word into
      the destination register, change no other register, and resume at the next instruction. */
  lemma ReplacedRead(c: Cpu, dr: Word, maddr: Word, d: Word)
    requires dr < 32 && c.mem(c.pc) == InstB(c.pc, d)
    requires Holds(c.mem, d, Replacement(dr, maddr, d, c.pc))
    requires Reaches(c.pc, d) && Reaches(At(d, |Replacement(dr, maddr, d, c.pc)| - 1), Plus(c.pc, 4))
    ensures var r := Run(c, |Replacement(dr, maddr, d, c.pc)| + 1); r.Some? && Loads(c, r.value, dr, maddr)
  {
    hide DForm, XForm, Step, Plus, HalfUp, HalfDown, LowHalf, SignExtend16, HiAlg, InstB, Reaches;
    StepBranch(c, d);
    var c1 := c.(pc := d);
    AtFirst(d);
    var code := Replacement(dr, maddr, d, c.pc);
    assert c.mem(At(d, 0)) == code[0] && c.mem(At(d, 1)) == code[1] && c.mem(At(d, 2)) == code[2];
    assert |code| == 4 ==> c.mem(At(d, 3)) == code[3];
    if dr == 0 {
      ReadByZero(c1, maddr, Plus(c.pc, 4));
    } else {
      ReadByRegister(c1, dr, maddr, Plus(c.pc, 4));
    }
  }

  lemma AtFirst(d: Word)
    ensures At(d, 0) == d && At(d, 1) == Plus(d, 4) && At(d, 2) == Plus(Plus(d, 4), 4)
    ensures At(d, 3) == Plus(Plus(Plus(d, 4), 4), 4)
  {
    hide Plus;
  }

  lemma ReadByRegister(c: Cpu, dr: Word, maddr: Word, next: Word)
    requires 0 < dr < 32
    requires c.mem(c.pc) == InstLisAlg(dr, maddr) && c.mem(Plus(c.pc, 4)) == InstLwz(dr, dr, maddr)
    requires var b := Plus(Plus(c.pc, 4), 4); c.mem(b) == InstB(b, next) && Reaches(b, next)
    ensures var r := Run(c, 3); r.Some? && Loads(c, r.value.(pc := Plus(c.pc, 4)), dr, maddr) && r.value.pc == next
  {
    hide DForm, XForm, Step, Plus, HalfUp, HalfDown, LowHalf, SignExtend16, HiAlg, InstB, InstLwz, Reaches;
    HiAlgAdds(maddr);
    StepLis(c, dr, HiAlg(maddr));
    var c1 := Step(c).value;
    StepLwz(c1, dr, dr, maddr);
    var c2 := Step(c1).value;
    StepBranch(c2, next);
  }

  lemma ReadByZero(c: Cpu, maddr: Word, next: Word)
    requires c.mem(c.pc) == InstLisLog(0, maddr) && c.mem(Plus(c.pc, 4)) == InstOri(0, 0, maddr)
    requires c.mem(Plus(Plus(c.pc, 4), 4)) == InstLwzx(0, 0, 0)
    requires var b := Plus(Plus(Plus(c.pc, 4), 4), 4); c.mem(b) == InstB(b, next) && Reaches(b, next)
    ensures var r := Run(c, 4); r.Some? && Loads(c, r.value.(pc := Plus(c.pc, 4)), 0, maddr) && r.value.pc == next
  {
    hide DForm, XForm, Step, Plus, HalfUp, HalfDown, LowHalf, SignExtend16, HiAlg, InstB, InstOri, InstLwzx, Reaches;
    Halves(maddr);
    StepLis(c, 0, HalfDown(maddr));
    var c1 := Step(c).value;
    StepOri(c1, 0, 0, maddr);
    var c2 := Step(c1).value;
    StepLwzx(c2, 0, 0);
    var c3 := Step(c2).value;
    StepBranch(c3, next);
  }
}
