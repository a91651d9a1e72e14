/** The few PowerPC instructions that bootx/accel/mol.c generates, and what they do
    (PowerPC User Instruction Set Architecture, chapters 2 and 3). */
module PowerPc {
  import opened Options

  type Word = bv32

  /** Program counter, general registers by number, and memory words by address. */
  datatype Cpu = Cpu(pc: Word, gpr: Word -> Word, mem: Word -> Word)

  /** Unsigned 32-bit arithmetic. */
  function Plus(a: Word, b: Word): Word { a + b }

  function Minus(a: Word, b: Word): Word { a - b }

  function HalfUp(a: Word): Word { a << 16 }

  function HalfDown(a: Word): Word { a >> 16 }

  function LowHalf(a: Word): Word { a & 0xffff }

  function Set(f: Word -> Word, r: Word, v: Word): Word -> Word {
    x => if x == r then v else f(x)
  }

  /** The register operand that reads as 0 when its number is 0. */
  function Base(c: Cpu, r: Word): Word {
    if r == 0 then 0 else c.gpr(r)
  }

  function SignExtend16(x: Word): Word {
    if x & 0x8000 != 0 then (x & 0xffff) | 0xffff0000 else x & 0xffff
  }

  function SignExtend26(x: Word): Word {
    if x & 0x02000000 != 0 then (x & 0x03ffffff) | 0xfc000000 else x & 0x03ffffff
  }

  function Primary(w: Word): Word { w >> 26 }

  function Field1(w: Word): Word { (w >> 21) & 0x1f }

  function Field2(w: Word): Word { (w >> 16) & 0x1f }

  function Field3(w: Word): Word { (w >> 11) & 0x1f }

  function Secondary(w: Word): Word { (w >> 1) & 0x3ff }

  /** A branch to a relative address that saves no return address: AA and LK are 0. */
  predicate Relative(w: Word) { w & 3 == 0 }

  function Displacement(w: Word): Word { w & 0x03fffffc }

  /** addis, ori, lwz, lwzx and b without AA and LK; nothing else is executed here. */
  function Step(c: Cpu): Option<Cpu> {
    var w := c.mem(c.pc);
    var next := c.(pc := Plus(c.pc, 4));
    if Primary(w) == 15 then
      Some(next.(gpr := Set(c.gpr, Field1(w), Plus(Base(c, Field2(w)), HalfUp(LowHalf(w))))))
    else if Primary(w) == 24 then
      Some(next.(gpr := Set(c.gpr, Field2(w), c.gpr(Field1(w)) | LowHalf(w))))
    else if Primary(w) == 32 then
      Some(next.(gpr := Set(c.gpr, Field1(w), c.mem(Plus(Base(c, Field2(w)), SignExtend16(LowHalf(w)))))))
    else if Primary(w) == 31 && Secondary(w) == 23 && w & 1 == 0 then
      Some(next.(gpr := Set(c.gpr, Field1(w), c.mem(Plus(Base(c, Field2(w)), c.gpr(Field3(w)))))))
    else if Primary(w) == 18 && Relative(w) then
      Some(c.(pc := Plus(c.pc, SignExtend26(Displacement(w)))))
    else
      None
  }

  function Run(c: Cpu, n: nat): Option<Cpu>
    decreases n
  {
    if n == 0 then Some(c)
    else match Step(c)
      case None => None
      case Some(c') => Run(c', n - 1)
  }
}
