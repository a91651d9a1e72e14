/** Which instructions bootx/accel/mol.c replaces, and its two passes over low memory. */
module ReplacePass {
  import opened Options
  import opened PowerPc
  import opened Replace

  // ----- Instruction lookup

  datatype Field = Dest | Source | Zero | Anything

  datatype Handler = MfMsr | MfSpr | MtMsr | MtSpr | Rfi | MfSr | MtSr | NopOut

  datatype Row = Row(prim: Word, sec: Word, f1: Field, f2: Field, f3: Field, handler: Handler)

  /** priv_insts; every row requires bit 31 to be zero. */
  const PRIV_INSTS: seq<Row> := [
    Row(31, 83, Dest, Zero, Zero, MfMsr),
    Row(31, 339, Dest, Anything, Anything, MfSpr),
    Row(31, 146, Source, Zero, Zero, MtMsr),
    Row(31, 467, Source, Anything, Anything, MtSpr),
    Row(19, 50, Zero, Zero, Zero, Rfi),
    Row(31, 595, Dest, Anything, Zero, MfSr),
    Row(31, 210, Source, Anything, Zero, MtSr),
    Row(31, 854, Zero, Zero, Zero, NopOut),
    Row(31, 306, Zero, Zero, Source, NopOut)
  ]

  /** Supervisor registers that mfspr is replaced for, the decrementer aside. */
  predicate Readable(spr: Word) {
    spr == 18 || spr == 19 || 25 <= spr <= 27 || 272 <= spr <= 275 || spr == 287 || 528 <= spr <= 543
    || spr == 944 || 952 <= spr <= 959 || 1008 <= spr <= 1023
  }

  const DEC: Word := 22

  const NOP: Word := 0x60000000

  /** The fields of mac_regs_t that are read: msr, segr[0] and spr[0]. */
  datatype Layout = Layout(mregs: Word, msr: Word, segr: Word, spr: Word)

  /** What a handler does with an instruction: nothing, overwrite it by a nop, overwrite it by a
      branch to an emulation stub, or have it replaced by generated code that loads a word. */
  datatype Action =
    | Skip
    | Nop
    | Stub(flags: Word, param: Word)
    | Read(maddr: Word, r: Word)
    | ReadDec(maddr: Word, r: Word)

  predicate Matches(row: Row, inst: Word) {
    row.prim == Primary(inst) && row.sec == Secondary(inst) &&
    (row.f1.Zero? ==> Field1(inst) == 0) && (row.f2.Zero? ==> Field2(inst) == 0) && (row.f3.Zero? ==> Field3(inst) == 0) &&
    inst & 1 == 0
  }

  /** The number in the register field of a row. */
  function RegisterOf(row: Row, inst: Word): Word {
    if row.f1.Dest? || row.f1.Source? then Field1(inst)
    else if row.f2.Dest? || row.f2.Source? then Field2(inst)
    else if row.f3.Dest? || row.f3.Source? then Field3(inst)
    else 0
  }

  /** The special register number of mfspr and mtspr, whose halves are stored in exchanged order. */
  function SprOf(inst: Word): Word {
    Field2(inst) | ((inst >> 6) & 0x3e0)
  }

  /** The emulation stub for a write to a special register. */
  function WriteStub(spr: Word): Word {
    if spr == 272 then 3 << 5 else if spr == 273 then 4 << 5 else if spr == 274 then 5 << 5 else if spr == 275 then 6 << 5
    else if spr == 26 then 1 << 5 else if spr == 27 then 2 << 5 else if spr == 1008 then 12 << 5 else 0
  }

  const STUB_MTMSR: Word := 0xe0

  const STUB_RFI: Word := 0x100

  const STUB_UPDATE_DEC: Word := 0x120

  /** Stub 10, with the flag that it takes a parameter. */
  const STUB_MTSR: Word := 0x540

  function WithRegister(flags: Word, r: Word): Word { flags + r }

  /** The offset of an element of an array of words. */
  function Element(base: Word, i: Word): Word { Plus(base, Quadruple(i)) }

  function Quadruple(i: Word): Word { i * 4 }

  function Handle(h: Handler, inst: Word, r: Word, l: Layout): Action {
    match h
    case MfMsr => Read(Plus(l.mregs, l.msr), r)
    case MfSr => if Field2(inst) & 0x10 != 0 then Skip else Read(Plus(l.mregs, Element(l.segr, Field2(inst))), r)
    case MtSr => if Field2(inst) & 0x10 != 0 then Skip else Stub(STUB_MTSR, inst)
    case MfSpr =>
      var spr := SprOf(inst);
      if spr & 0x10 == 0 then Skip
      else if Readable(spr) then Read(Plus(l.mregs, Element(l.spr, spr)), r)
      else if spr == DEC then ReadDec(Plus(l.mregs, Element(l.spr, spr)), r)
      else Skip
    case MtSpr => if WriteStub(SprOf(inst)) == 0 then Skip else Stub(WithRegister(WriteStub(SprOf(inst)), r), 0)
    case MtMsr => Stub(WithRegister(STUB_MTMSR, r), 0)
    case Rfi => Stub(STUB_RFI, 0)
    case NopOut => Nop
  }

  function LookupFrom(i: nat, inst: Word, l: Layout): Action
    requires i <= |PRIV_INSTS|
    decreases |PRIV_INSTS| - i
  {
    if i == |PRIV_INSTS| then Skip
    else if Matches(PRIV_INSTS[i], inst) then Handle(PRIV_INSTS[i].handler, inst, RegisterOf(PRIV_INSTS[i], inst), l)
    else LookupFrom(i + 1, inst, l)
  }

  /** lookup_inst: the first row of the table that matches decides. */
  method LookupInst(inst: Word, l: Layout) returns (a: Action)
    ensures a == LookupFrom(0, inst, l)
  {
    hide Matches, Handle, RegisterOf;
    var i := 0;
    while i < |PRIV_INSTS|
      invariant 0 <= i <= |PRIV_INSTS|
      invariant LookupFrom(i, inst, l) == LookupFrom(0, inst, l)
    {
      if Matches(PRIV_INSTS[i], inst) {
        return Handle(PRIV_INSTS[i].handler, inst, RegisterOf(PRIV_INSTS[i], inst), l);
      }
      i := i + 1;
    }
    a := Skip;
  }

  // ----- What is replaced is what is emulated

  /** An instruction that reads a supervisor register into r. */
  datatype Privileged = GetMsr(r: Word) | GetSr(r: Word, sr: Word) | GetSpr(r: Word, spr: Word)

  predicate Supported(p: Privileged) {
    p.r < 32 &&
    match p
    case GetMsr(_) => true
    case GetSr(_, sr) => sr < 16
    case GetSpr(_, spr) => Readable(spr)
  }

  /** mfmsr, mfsr and mfspr (PowerPC Operating Environment Architecture, chapter 4). */
  function Encoded(p: Privileged): Word {
    match p
    case GetMsr(r) => XForm(31, r, 0, 0, 83)
    case GetSr(r, sr) => XForm(31, r, sr, 0, 595)
    case GetSpr(r, spr) => XForm(31, r, spr & 0x1f, spr >> 5, 339)
  }

  /** Where mac_regs_t keeps the register. */
  function Kept(p: Privileged, l: Layout): Word {
    Plus(l.mregs, match p
      case GetMsr(_) => l.msr
      case GetSr(_, sr) => Element(l.segr, sr)
      case GetSpr(_, spr) => Element(l.spr, spr))
  }

  lemma XFormOf(w: Word)
    requires w & 1 == 0
    ensures w == XForm(Primary(w), Field1(w), Field2(w), Field3(w), Secondary(w))
    ensures Field1(w) < 32 && Field2(w) < 32 && Field3(w) < 32
  {
  }

  /** The halves of a special register number, as stored and as read. */
  lemma SprHalves(w: Word, spr: Word)
    requires spr < 1024
    ensures Field2(w) == spr & 0x1f && Field3(w) == spr >> 5 <==> SprOf(w) == spr
    ensures spr & 0x1f < 32 && spr >> 5 < 32
  {
  }

  lemma SprSmall(w: Word)
    ensures SprOf(w) < 1024
  {
  }

  lemma ReadableBit(spr: Word)
    ensures Readable(spr) ==> spr & 0x10 != 0 && spr < 1024 && spr != DEC
  {
  }

  lemma SecsDiffer(i: nat, j: nat)
    requires i < j < |PRIV_INSTS|
    ensures PRIV_INSTS[i].sec != PRIV_INSTS[j].sec
  {
  }

  /** At most one row of the table matches. */
  lemma {:induction false} LookupAt(i: nat, j: nat, inst: Word, l: Layout)
    requires i <= j < |PRIV_INSTS| && Matches(PRIV_INSTS[j], inst)
    ensures LookupFrom(i, inst, l) == Handle(PRIV_INSTS[j].handler, inst, RegisterOf(PRIV_INSTS[j], inst), l)
    decreases j - i
  {
    hide Primary, Secondary, Field1, Field2, Field3, Handle, RegisterOf;
    if i < j {
      SecsDiffer(i, j);
      LookupAt(i + 1, j, inst, l);
    }
  }

  lemma {:induction false} LookupRow(i: nat, inst: Word, l: Layout) returns (j: nat)
    requires i <= |PRIV_INSTS| && LookupFrom(i, inst, l) != Skip
    ensures j < |PRIV_INSTS| && Matches(PRIV_INSTS[j], inst)
    ensures LookupFrom(i, inst, l) == Handle(PRIV_INSTS[j].handler, inst, RegisterOf(PRIV_INSTS[j], inst), l)
    decreases |PRIV_INSTS| - i
  {
    hide Primary, Secondary, Field1, Field2, Field3, Handle, RegisterOf;
    if Matches(PRIV_INSTS[i], inst) {
      j := i;
    } else {
      j := LookupRow(i + 1, inst, l);
    }
  }

  /** Every supported instruction is found, with its register and the word it stands for. */
  lemma LookupEncoded(p: Privileged, l: Layout)
    requires Supported(p)
    ensures LookupFrom(0, Encoded(p), l) == Read(Kept(p, l), p.r)
  {
    hide XForm, Primary, Secondary, Field1, Field2, Field3, SprOf, Readable, Plus, Element, LookupFrom, WriteStub,
      WithRegister;
    match p
    case GetMsr(r) =>
      FieldsX(31, r, 0, 0, 83);
      LookupAt(0, 0, Encoded(p), l);
    case GetSr(r, sr) => LookupGetSr(r, sr, l);
    case GetSpr(r, spr) => LookupGetSpr(r, spr, l);
  }

  lemma LookupGetSr(r: Word, sr: Word, l: Layout)
    requires r < 32 && sr < 16
    ensures LookupFrom(0, XForm(31, r, sr, 0, 595), l) == Read(Plus(l.mregs, Element(l.segr, sr)), r)
  {
    hide XForm, Primary, Secondary, Field1, Field2, Field3, SprOf, Readable, Plus, Element, LookupFrom, WriteStub,
      WithRegister;
    FieldsX(31, r, sr, 0, 595);
    SmallSr(sr);
    LookupAt(0, 5, XForm(31, r, sr, 0, 595), l);
  }

  lemma LookupGetSpr(r: Word, spr: Word, l: Layout)
    requires r < 32 && Readable(spr)
    ensures LookupFrom(0, XForm(31, r, spr & 0x1f, spr >> 5, 339), l) == Read(Plus(l.mregs, Element(l.spr, spr)), r)
  {
    hide XForm, Primary, Secondary, Field1, Field2, Field3, SprOf, Readable, Plus, Element, LookupFrom, WriteStub,
      WithRegister;
    var inst := XForm(31, r, spr & 0x1f, spr >> 5, 339);
    ReadableBit(spr);
    SprHalves(inst, spr);
    FieldsX(31, r, spr & 0x1f, spr >> 5, 339);
    LookupAt(0, 1, inst, l);
  }

  lemma SmallSr(sr: Word)
    ensures sr < 32 ==> (sr & 0x10 == 0 <==> sr < 16)
  {
  }

  /** Whatever is replaced by a load is a supported instruction, and the load is of its register. */
  lemma LookupMeans(inst: Word, l: Layout) returns (p: Privileged)
    requires LookupFrom(0, inst, l).Read?
    ensures Supported(p) && inst == Encoded(p) && LookupFrom(0, inst, l) == Read(Kept(p, l), p.r)
  {
    hide XForm, Primary, Secondary, Field1, Field2, Field3, SprOf, Readable, Plus, Element, LookupFrom, WriteStub,
      WithRegister;
    var j := LookupRow(0, inst, l);
    ReadRows(j, inst, RegisterOf(PRIV_INSTS[j], inst), l);
    if j == 1 {
      MeansGetSpr(inst, l);
      p := GetSpr(Field1(inst), SprOf(inst));
    } else {
      XFormOf(inst);
      SmallSr(Field2(inst));
      p := if j == 0 then GetMsr(Field1(inst)) else GetSr(Field1(inst), Field2(inst));
    }
  }

  /** Three handlers have instructions replaced by a load. */
  lemma ReadRows(j: nat, inst: Word, r: Word, l: Layout)
    requires j < |PRIV_INSTS| && Handle(PRIV_INSTS[j].handler, inst, r, l).Read?
    ensures j == 0 || j == 1 || j == 5
  {
    hide Field2, SprOf, Plus, Element, Readable, WriteStub, WithRegister;
  }

  lemma MeansGetSpr(inst: Word, l: Layout)
    requires Matches(PRIV_INSTS[1], inst) && Handle(MfSpr, inst, Field1(inst), l).Read?
    ensures var p := GetSpr(Field1(inst), SprOf(inst));
      Supported(p) && inst == Encoded(p) && Handle(MfSpr, inst, Field1(inst), l) == Read(Kept(p, l), p.r)
  {
    hide XForm, Primary, Secondary, Field1, Field2, Field3, SprOf, Readable, Plus, Element;
    XFormOf(inst);
    SprSmall(inst);
    SprHalves(inst, SprOf(inst));
  }

  // ----- What is emulated by a stub, dropped, or read with the decrementer

  /** An instruction that writes a supervisor register from r, or returns from an interrupt. */
  datatype Emulated = PutMsr(r: Word) | PutSr(r: Word, sr: Word) | PutSpr(r: Word, spr: Word) | ReturnInterrupt

  predicate Emulable(e: Emulated) {
    match e
    case PutMsr(r) => r < 32
    case PutSr(r, sr) => r < 32 && sr < 16
    case PutSpr(r, spr) => r < 32 && (spr == 26 || spr == 27 || 272 <= spr <= 275 || spr == 1008)
    case ReturnInterrupt => true
  }

  /** mtmsr, mtsr, mtspr and rfi (PowerPC Operating Environment Architecture, chapter 4). */
  function EncodedWrite(e: Emulated): Word {
    match e
    case PutMsr(r) => XForm(31, r, 0, 0, 146)
    case PutSr(r, sr) => XForm(31, r, sr, 0, 210)
    case PutSpr(r, spr) => XForm(31, r, spr & 0x1f, spr >> 5, 467)
    case ReturnInterrupt => XForm(19, 0, 0, 0, 50)
  }

  /** The emulation asked for and the register it takes, as the flags of a stub give them. */
  function EmulationOf(flags: Word): Word { flags & 0xffe0 }

  function OperandOf(flags: Word): Word { flags & 0x1f }

  lemma FlagParts(flags: Word, r: Word)
    requires flags & 0xffe0 == flags && r < 32
    ensures EmulationOf(WithRegister(flags, r)) == flags && OperandOf(WithRegister(flags, r)) == r
  {
  }

  lemma StubFlags()
    ensures EmulationOf(STUB_MTSR) == 10 * 32 + 1024 && OperandOf(STUB_MTSR) == 0
    ensures EmulationOf(STUB_RFI) == 8 * 32 && OperandOf(STUB_RFI) == 0
  {
  }

  lemma WriteStubs(spr: Word)
    ensures WriteStub(spr) != 0 <==> spr == 26 || spr == 27 || 272 <= spr <= 275 || spr == 1008
    ensures WriteStub(spr) & 0xffe0 == WriteStub(spr)
    ensures WriteStub(spr) != 0 ==> spr < 1024 && WriteStub(spr) != 0xe0
    ensures forall other :: WriteStub(spr) == WriteStub(other) != 0 ==> spr == other
  {
  }

  /** Every such instruction gets the stub for it, which is told the register; the stub of mtsr is
      told the whole instruction. */
  lemma LookupWrite(e: Emulated, l: Layout)
    requires Emulable(e)
    ensures LookupFrom(0, EncodedWrite(e), l).Stub?
    ensures var a := LookupFrom(0, EncodedWrite(e), l);
      EmulationOf(a.flags) == NumberOf(e) && a.param == (if e.PutSr? then EncodedWrite(e) else 0) &&
      OperandOf(a.flags) == if e.PutMsr? || e.PutSpr? then e.r else 0
  {
    StubFlags();
    hide XForm, Primary, Secondary, Field1, Field2, Field3, SprOf, Plus, Element, LookupFrom, WriteStub,
      WithRegister, EmulationOf, OperandOf;
    match e
    case PutMsr(r) =>
      FieldsX(31, r, 0, 0, 146);
      LookupAt(0, 2, EncodedWrite(e), l);
      FlagParts(STUB_MTMSR, r);
    case PutSr(r, sr) =>
      FieldsX(31, r, sr, 0, 210);
      SmallSr(sr);
      LookupAt(0, 6, EncodedWrite(e), l);
    case PutSpr(r, spr) => LookupPutSpr(r, spr, l);
    case ReturnInterrupt =>
      FieldsX(19, 0, 0, 0, 50);
      LookupAt(0, 4, EncodedWrite(e), l);
  }

  lemma LookupPutSpr(r: Word, spr: Word, l: Layout)
    requires Emulable(PutSpr(r, spr))
    ensures LookupFrom(0, EncodedWrite(PutSpr(r, spr)), l) == Stub(WithRegister(WriteStub(spr), r), 0)
    ensures EmulationOf(WithRegister(WriteStub(spr), r)) == NumberOf(PutSpr(r, spr))
    ensures OperandOf(WithRegister(WriteStub(spr), r)) == r
  {
    hide XForm, Primary, Secondary, Field1, Field2, Field3, SprOf, Plus, Element, LookupFrom, WriteStub,
      WithRegister, EmulationOf, OperandOf;
    var inst := EncodedWrite(PutSpr(r, spr));
    WriteStubs(spr);
    StubNumber(spr);
    SprHalves(inst, spr);
    FieldsX(31, r, spr & 0x1f, spr >> 5, 467);
    LookupAt(0, 3, inst, l);
    FlagParts(WriteStub(spr), r);
  }

  lemma StubNumber(spr: Word)
    requires Emulable(PutSpr(0, spr))
    ensures WriteStub(spr) == NumberOf(PutSpr(0, spr))
  {
    SprCases(spr);
  }

  /** Nothing else gets a stub. */
  lemma LookupStubs(inst: Word, l: Layout) returns (e: Emulated)
    requires LookupFrom(0, inst, l).Stub?
    ensures Emulable(e) && inst == EncodedWrite(e)
  {
    hide XForm, Primary, Secondary, Field1, Field2, Field3, SprOf, Plus, Element, LookupFrom, WriteStub, Readable,
      WithRegister;
    var j := LookupRow(0, inst, l);
    StubRows(j, inst, RegisterOf(PRIV_INSTS[j], inst), l);
    XFormOf(inst);
    if j == 3 {
      WriteStubs(SprOf(inst));
      SprHalves(inst, SprOf(inst));
      e := PutSpr(Field1(inst), SprOf(inst));
    } else {
      SmallSr(Field2(inst));
      e := if j == 2 then PutMsr(Field1(inst)) else if j == 4 then ReturnInterrupt else PutSr(Field1(inst), Field2(inst));
    }
  }

  lemma StubRows(j: nat, inst: Word, r: Word, l: Layout)
    requires j < |PRIV_INSTS| && Handle(PRIV_INSTS[j].handler, inst, r, l).Stub?
    ensures j == 2 || j == 3 || j == 4 || j == 6
    ensures j == 3 ==> WriteStub(SprOf(inst)) != 0
    ensures j == 6 ==> Field2(inst) & 0x10 == 0
  {
    hide Field2, SprOf, Plus, Element, Readable, WriteStub, WithRegister;
  }

  /** What a stub is told says which instruction it stands for. */
  lemma StubTells(e: Emulated, e': Emulated, l: Layout)
    requires Emulable(e) && Emulable(e') && LookupFrom(0, EncodedWrite(e), l) == LookupFrom(0, EncodedWrite(e'), l)
    ensures e == e'
  {
    hide LookupFrom, EncodedWrite, EmulationOf, OperandOf, Emulable, NumberOf;
    LookupWrite(e, l);
    LookupWrite(e', l);
    NumbersApart(e, e');
    if e.PutSr? {
      SrRead(e.r, e.sr);
      SrRead(e'.r, e'.sr);
    }
  }

  /** The number of the emulation. */
  function NumberOf(e: Emulated): Word {
    match e
    case PutMsr(r) => 7 * 32
    case PutSr(r, sr) => 10 * 32 + 1024
    case PutSpr(r, spr) => if spr == 26 then 32 else if spr == 27 then 64 else if spr == 1008 then 12 * 32 else (spr - 269) * 32
    case ReturnInterrupt => 8 * 32
  }

  lemma NumbersApart(e: Emulated, e': Emulated)
    requires Emulable(e) && Emulable(e') && NumberOf(e) == NumberOf(e')
    ensures (e.PutMsr? <==> e'.PutMsr?) && (e.PutSr? <==> e'.PutSr?) && (e.ReturnInterrupt? <==> e'.ReturnInterrupt?)
    ensures e.PutSpr? ==> e'.PutSpr? && e'.spr == e.spr
    ensures e.PutSr? ==> e.r < 32 && e.sr < 16 && e'.r < 32 && e'.sr < 16
  {
    if e.PutSpr? { SprCases(e.spr); }
    if e'.PutSpr? { SprCases(e'.spr); }
  }

  lemma SprCases(spr: Word)
    requires Emulable(PutSpr(0, spr))
    ensures spr == 26 || spr == 27 || spr == 272 || spr == 273 || spr == 274 || spr == 275 || spr == 1008
  {
  }

  lemma SrRead(r: Word, sr: Word)
    requires r < 32 && sr < 16
    ensures Field1(EncodedWrite(PutSr(r, sr))) == r && Field2(EncodedWrite(PutSr(r, sr))) == sr
  {
    FieldsX(31, r, sr, 0, 210);
  }

  /** Exactly eieio and tlbie are dropped. */
  lemma LookupDropped(inst: Word, l: Layout)
    ensures LookupFrom(0, inst, l) == Nop <==>
      inst == XForm(31, 0, 0, 0, 854) || (Field3(inst) < 32 && inst == XForm(31, 0, 0, Field3(inst), 306))
  {
    hide XForm, Primary, Secondary, Field1, Field2, Field3, SprOf, Plus, Element, LookupFrom, WriteStub, Readable,
      WithRegister;
    if LookupFrom(0, inst, l) == Nop {
      var j := LookupRow(0, inst, l);
      NopRows(j, inst, RegisterOf(PRIV_INSTS[j], inst), l);
      XFormOf(inst);
    } else if inst == XForm(31, 0, 0, 0, 854) {
      FieldsX(31, 0, 0, 0, 854);
      LookupAt(0, 7, inst, l);
    } else if Field3(inst) < 32 && inst == XForm(31, 0, 0, Field3(inst), 306) {
      FieldsX(31, 0, 0, Field3(inst), 306);
      LookupAt(0, 8, inst, l);
    }
  }

  lemma NopRows(j: nat, inst: Word, r: Word, l: Layout)
    requires j < |PRIV_INSTS| && Handle(PRIV_INSTS[j].handler, inst, r, l) == Nop
    ensures j == 7 || j == 8
  {
    hide Field2, SprOf, Plus, Element, Readable, WriteStub, WithRegister;
  }

  /** Exactly the reading of the decrementer is replaced by code that has it updated first. */
  lemma LookupDec(inst: Word, l: Layout)
    ensures LookupFrom(0, inst, l).ReadDec? <==> Field1(inst) < 32 && inst == Encoded(GetSpr(Field1(inst), DEC))
    ensures LookupFrom(0, inst, l).ReadDec? ==> LookupFrom(0, inst, l) == ReadDec(Kept(GetSpr(Field1(inst), DEC), l), Field1(inst))
  {
    hide XForm, Primary, Secondary, Field1, Field2, Field3, SprOf, Plus, Element, LookupFrom, WriteStub, Readable,
      WithRegister;
    var r := Field1(inst);
    DecSpr();
    SprHalves(inst, DEC);
    if LookupFrom(0, inst, l).ReadDec? {
      var j := LookupRow(0, inst, l);
      DecRows(j, inst, RegisterOf(PRIV_INSTS[j], inst), l);
      XFormOf(inst);
    } else if r < 32 && inst == Encoded(GetSpr(r, DEC)) {
      FieldsX(31, r, DEC & 0x1f, DEC >> 5, 339);
      LookupAt(0, 1, inst, l);
    }
  }

  lemma DecSpr()
    ensures !Readable(DEC) && DEC & 0x10 != 0
  {
  }

  lemma DecRows(j: nat, inst: Word, r: Word, l: Layout)
    requires j < |PRIV_INSTS| && Handle(PRIV_INSTS[j].handler, inst, r, l).ReadDec?
    ensures j == 1 && SprOf(inst) == DEC
    ensures Handle(PRIV_INSTS[j].handler, inst, r, l) == ReadDec(Plus(l.mregs, Element(l.spr, DEC)), r)
  {
    hide Field2, SprOf, Plus, Element, Readable, WriteStub, WithRegister;
  }

  /** The registers of an array follow each other, one word each. */
  lemma ElementNext(base: Word, i: Word)
    ensures Element(base, 0) == base && Element(base, Plus(i, 1)) == Plus(Element(base, i), 4)
  {
    hide Plus, Quadruple;
    QuadrupleNext(i);
    SumFour(base, Quadruple(i));
    assert Plus(Quadruple(i), 4) == Quadruple(i) + 4 && Plus(Element(base, i), 4) == Element(base, i) + 4 by { PlusFour(); }
  }

  lemma QuadrupleNext(i: Word)
    ensures Quadruple(0) == 0 && Quadruple(Plus(i, 1)) == Plus(Quadruple(i), 4)
    ensures forall a :: Plus(a, 0) == a
  {
  }

  lemma PlusFour()
    ensures forall a :: Plus(a, 4) == a + 4
  {
  }

  lemma SumFour(a: Word, b: Word)
    ensures Plus(a, b + 4) == Plus(a, b) + 4
  {
  }

  // ----- The two passes of inst_replacements

  /** encode_mfdec at d, once the stub that updates the decrementer has been given. */
  function EncodeMfdec(dr: Word, maddr: Word, d: Word, stub: Word): (code: seq<Word>)
    ensures 3 <= |code| <= 4
  {
    if dr == 0 then [InstLisLog(dr, maddr), InstOri(dr, dr, maddr), InstB(At(d, 2), stub), InstLwzx(dr, 0, dr)]
    else [InstLisAlg(dr, maddr), InstB(At(d, 1), stub), InstLwz(dr, dr, maddr)]
  }

  /** OSI_EmuAccel: the address of a stub for given flags, parameter and instruction address, or 0. */
  type Accel = (Word, Word, Word) -> Word

  /** The stub used by the decrementer code at d for register r. */
  function DecStub(accel: Accel, r: Word, d: Word): Word {
    accel(STUB_UPDATE_DEC, 0, At(d, if r == 0 then 2 else 1))
  }

  /** The words generated at d for the instruction at p. */
  function Generated(a: Action, d: Word, p: Word, accel: Accel): seq<Word> {
    match a
    case Read(maddr, r) => Replacement(r, maddr, d, p)
    case ReadDec(maddr, r) =>
      var stub := DecStub(accel, r, d);
      var code := EncodeMfdec(r, maddr, d, stub);
      if stub == 0 then [] else code + [InstB(At(d, |code|), Plus(p, 4))]
    case _ => []
  }

  /** The words the dry run counts: as if every stub were given. */
  function Counted(a: Action): nat {
    match a
    case Read(_, r) => if r == 0 then 4 else 3
    case ReadDec(_, r) => if r == 0 then 5 else 4
    case _ => 0
  }

  /** The real pass never generates more for an instruction than the dry run counted. */
  lemma GeneratedCounted(a: Action, d: Word, p: Word, accel: Accel)
    ensures |Generated(a, d, p, accel)| <= Counted(a)
    ensures a.Read? ==> |Generated(a, d, p, accel)| == Counted(a)
  {
  }

  function Total(insts: seq<Word>, l: Layout): nat {
    if insts == [] then 0
    else Total(insts[..|insts| - 1], l) + Counted(LookupFrom(0, insts[|insts| - 1], l))
  }

  lemma {:induction false} TotalGrows(insts: seq<Word>, i: nat, l: Layout)
    requires i <= |insts|
    ensures Total(insts[..i], l) <= Total(insts, l)
    ensures i < |insts| ==> Total(insts[..i + 1], l) == Total(insts[..i], l) + Counted(LookupFrom(0, insts[i], l))
    decreases |insts|
  {
    hide LookupFrom, Counted;
    if i < |insts| {
      assert insts[..i + 1][..i] == insts[..i];
      var shorter := insts[..|insts| - 1];
      assert shorter[..i] == insts[..i];
      TotalGrows(shorter, i, l);
    } else {
      assert insts[..i] == insts;
    }
  }

  /** What the dry run leaves in place of an instruction. */
  function Dried(inst: Word, l: Layout): Word {
    if LookupFrom(0, inst, l) == Nop then NOP else inst
  }

  lemma NopSkipped(l: Layout)
    ensures LookupFrom(0, NOP, l) == Skip
  {
    hide Handle;
    assert Primary(NOP) == 24;
  }

  /** The real pass finds the instructions of the dry run, those dropped aside. */
  lemma DriedLookup(inst: Word, l: Layout)
    ensures LookupFrom(0, Dried(inst, l), l) == if LookupFrom(0, inst, l) == Nop then Skip else LookupFrom(0, inst, l)
    ensures Dried(inst, l) == if LookupFrom(0, inst, l) == Nop then NOP else inst
  {
    hide LookupFrom;
    NopSkipped(l);
  }

  /** What stands at p for an instruction after both passes, with generated words from start on. */
  predicate Patched(inst: Word, w: Word, out: seq<Word>, start: nat, p: Word, d: Word, l: Layout, accel: Accel) {
    var a := LookupFrom(0, inst, l);
    match a
    case Skip => w == inst
    case Nop => w == NOP
    case Stub(flags, param) => var stub := accel(flags, param, p); w == if stub == 0 then inst else InstB(p, stub)
    case _ =>
      var code := Generated(a, At(d, start), p, accel);
      start + |code| <= |out| && out[start..start + |code|] == code && w == if code == [] then inst else InstB(p, At(d, start))
  }

  ghost predicate AllPatched(insts: seq<Word>, code: seq<Word>, out: seq<Word>, starts: seq<nat>, d: Word, l: Layout, accel: Accel) {
    |code| == |starts| <= |insts| &&
    forall j :: 0 <= j < |code| ==> Patched(insts[j], code[j], out, starts[j], At(0, j), d, l, accel)
  }

  /** Words generated later change nothing for the instructions already patched. */
  lemma PatchedLater(insts: seq<Word>, code: seq<Word>, out: seq<Word>, longer: seq<Word>, starts: seq<nat>, d: Word,
      l: Layout, accel: Accel)
    requires AllPatched(insts, code, out, starts, d, l, accel) && out <= longer
    ensures AllPatched(insts, code, longer, starts, d, l, accel)
  {
    hide LookupFrom, Generated, Patched, At;
    forall j | 0 <= j < |code| ensures Patched(insts[j], code[j], longer, starts[j], At(0, j), d, l, accel) {
      PatchedMore(insts[j], code[j], out, longer, starts[j], At(0, j), d, l, accel);
    }
  }

  lemma PatchedNext(insts: seq<Word>, code: seq<Word>, w: Word, out: seq<Word>, starts: seq<nat>, k: nat, d: Word,
      l: Layout, accel: Accel)
    requires AllPatched(insts, code, out, starts, d, l, accel) && |code| < |insts|
    requires Patched(insts[|code|], w, out, k, At(0, |code|), d, l, accel)
    ensures AllPatched(insts, code + [w], out, starts + [k], d, l, accel)
  {
    hide LookupFrom, Generated, Patched, At;
  }

  lemma PatchedMore(inst: Word, w: Word, out: seq<Word>, longer: seq<Word>, start: nat, p: Word, d: Word, l: Layout, accel: Accel)
    requires Patched(inst, w, out, start, p, d, l, accel) && out <= longer
    ensures Patched(inst, w, longer, start, p, d, l, accel)
  {
    hide LookupFrom, Generated, At, InstB;
    var code := Generated(LookupFrom(0, inst, l), At(d, start), p, accel);
    SliceKept(out, longer, start, |code|);
  }

  lemma SliceKept(s: seq<Word>, t: seq<Word>, i: nat, n: nat)
    requires s <= t
    ensures i + n <= |s| ==> i + n <= |t| && t[i..i + n] == s[i..i + n]
  {
  }

  /** The dry run: instructions to be dropped become nops, and the words to be generated are counted. */
  method DryRun(code: array<Word>, l: Layout) returns (size: nat)
    modifies code
    ensures size == Total(old(code[..]), l)
    ensures forall i :: 0 <= i < code.Length ==> code[i] == Dried(old(code[i]), l)
  {
    hide LookupFrom, Counted;
    ghost var insts := code[..];
    size := 0;
    var i := 0;
    while i < code.Length
      invariant 0 <= i <= code.Length
      invariant size == Total(insts[..i], l)
      invariant forall j :: 0 <= j < i ==> code[j] == Dried(insts[j], l)
      invariant forall j :: i <= j < code.Length ==> code[j] == insts[j]
    {
      TotalGrows(insts, i, l);
      var a := LookupInst(code[i], l);
      if a == Nop {
        code[i] := NOP;
      }
      var c := CountWords(a);
      size := size + c;
      i := i + 1;
    }
    assert insts[..code.Length] == insts;
  }

  /** The words encoded into the scratch buffer of the dry run, the branch back included. */
  method CountWords(a: Action) returns (c: nat)
    ensures c == Counted(a) && c <= 16
  {
    c := 0;
    if a.Read? {
      c := |EncodeMregsRead(a.r, a.maddr)| + 1;
    } else if a.ReadDec? {
      c := |EncodeMfdec(a.r, a.maddr, 0, 0)| + 1;
    }
  }

  /** The size of the buffer for the generated words, in whole pages. */
  function BufferWords(size: nat): (n: nat)
    ensures size <= n < size + 0x400 && n % 0x400 == 0
  {
    (size * 4 + 0xfff) / 0x1000 * 0x400
  }

  /** encode_mregs_read, into the buffer at k; the number of words. */
  method WriteMregsRead(out: array<Word>, k: nat, dr: Word, maddr: Word) returns (c: nat)
    requires k + |EncodeMregsRead(dr, maddr)| <= out.Length
    modifies out
    ensures c == |EncodeMregsRead(dr, maddr)|
    ensures out[..k] == old(out[..k]) && out[k..k + c] == EncodeMregsRead(dr, maddr)
  {
    hide InstLisAlg, InstLisLog, InstOri, InstLwz, InstLwzx;
    if dr == 0 {
      out[k], out[k + 1], out[k + 2] := InstLisLog(dr, maddr), InstOri(dr, dr, maddr), InstLwzx(dr, 0, dr);
      c := 3;
    } else {
      out[k], out[k + 1] := InstLisAlg(dr, maddr), InstLwz(dr, dr, maddr);
      c := 2;
    }
  }

  /** encode_mfdec, into the buffer at k; the number of words, 0 if there is no stub. */
  method WriteMfdec(out: array<Word>, k: nat, dr: Word, maddr: Word, d: Word, accel: Accel) returns (c: nat)
    requires k + |EncodeMfdec(dr, maddr, d, 0)| <= out.Length
    modifies out
    ensures out[..k] == old(out[..k])
    ensures c == 0 <==> DecStub(accel, dr, d) == 0
    ensures c > 0 ==> c == |EncodeMfdec(dr, maddr, d, 0)| && out[k..k + c] == EncodeMfdec(dr, maddr, d, DecStub(accel, dr, d))
  {
    hide InstB, InstLisAlg, InstLisLog, InstOri, InstLwz, InstLwzx, At;
    var stub;
    if dr == 0 {
      out[k], out[k + 1] := InstLisLog(dr, maddr), InstOri(dr, dr, maddr);
      stub := accel(STUB_UPDATE_DEC, 0, At(d, 2));
      if stub == 0 {
        return 0;
      }
      out[k + 2], out[k + 3] := InstB(At(d, 2), stub), InstLwzx(dr, 0, dr);
      c := 4;
    } else {
      out[k] := InstLisAlg(dr, maddr);
      stub := accel(STUB_UPDATE_DEC, 0, At(d, 1));
      if stub == 0 {
        return 0;
      }
      out[k + 1], out[k + 2] := InstB(At(d, 1), stub), InstLwz(dr, dr, maddr);
      c := 3;
    }
  }

  /** One turn of the real pass. */
  method ReplaceOne(word: Word, p: Word, out: array<Word>, k: nat, d: Word, l: Layout, accel: Accel, ghost inst: Word)
      returns (c: nat, w: Word)
    requires word == Dried(inst, l) && k + Counted(LookupFrom(0, inst, l)) <= out.Length
    modifies out
    ensures c <= Counted(LookupFrom(0, inst, l)) && out[..k] == old(out[..k])
    ensures Patched(inst, w, out[..k + c], k, p, d, l, accel)
  {
    hide InstB, LookupFrom, At, Generated, Patched, Counted, Dried, Plus;
    DriedLookup(inst, l);
    var a := LookupInst(word, l);
    c, w := 0, word;
    if a.Read? || a.ReadDec? {
      c, w := ReplaceByCode(word, a, p, out, k, d, l, accel);
      return;
    }
    if a.Stub? {
      var stub := accel(a.flags, a.param, p);
      if stub != 0 {
        w := InstB(p, stub);
      }
    }
    PatchedByWord(inst, w, out[..k], k, p, d, l, accel);
  }

  /** The part of it for an instruction that is replaced by generated code, if there is any. */
  method ReplaceByCode(inst: Word, a: Action, p: Word, out: array<Word>, k: nat, d: Word, l: Layout, accel: Accel)
      returns (c: nat, w: Word)
    requires a == LookupFrom(0, inst, l) && (a.Read? || a.ReadDec?) && k + Counted(a) <= out.Length
    modifies out
    ensures c <= Counted(a) && out[..k] == old(out[..k])
    ensures Patched(inst, w, out[..k + c], k, p, d, l, accel)
  {
    hide InstB, LookupFrom, EncodeMfdec, EncodeMregsRead, At, DecStub, Generated, Patched, Counted, Plus;
    CountedCode(a, At(d, k));
    w := inst;
    if a.Read? {
      c := WriteMregsRead(out, k, a.r, a.maddr);
    } else {
      c := WriteMfdec(out, k, a.r, a.maddr, At(d, k), accel);
    }
    if c > 0 {
      ghost var code := out[k..k + c];
      out[k + c] := InstB(At(At(d, k), c), Plus(p, 4));
      c := c + 1;
      w := InstB(p, At(d, k));
      assert out[..k + c][k..k + c - 1] == code;
    }
    PatchedByCode(inst, a, out[..k + c], k, c, p, d, l, accel);
  }

  /** A nop, a stub or an unchanged word. */
  lemma PatchedByWord(inst: Word, w: Word, out: seq<Word>, k: nat, p: Word, d: Word, l: Layout, accel: Accel)
    requires match LookupFrom(0, inst, l)
             case Skip => w == inst
             case Nop => w == NOP
             case Stub(flags, param) =>
               w == if accel(flags, param, p) == 0 then inst else InstB(p, accel(flags, param, p))
             case _ => false
    ensures Patched(inst, w, out, k, p, d, l, accel)
  {
    hide InstB, LookupFrom, Generated;
  }

  /** The space the dry run counted is enough for the words and the branch back. */
  lemma CountedCode(a: Action, d: Word)
    ensures a.Read? ==> |EncodeMregsRead(a.r, a.maddr)| + 1 == Counted(a)
    ensures a.ReadDec? ==> |EncodeMfdec(a.r, a.maddr, d, 0)| + 1 == Counted(a)
  {
  }

  /** The encoded words and the branch back are what is to be generated. */
  lemma PatchedByCode(inst: Word, a: Action, out: seq<Word>, k: nat, c: nat, p: Word, d: Word, l: Layout, accel: Accel)
    requires a == LookupFrom(0, inst, l) && (a.Read? || a.ReadDec?) && k + c == |out|
    requires c == 0 <==> a.ReadDec? && DecStub(accel, a.r, At(d, k)) == 0
    requires c > 0 ==> out[k + c - 1] == InstB(At(At(d, k), c - 1), Plus(p, 4))
    requires c > 0 && a.Read? ==> out[k..k + c - 1] == EncodeMregsRead(a.r, a.maddr)
    requires c > 0 && a.ReadDec? ==> out[k..k + c - 1] == EncodeMfdec(a.r, a.maddr, At(d, k), DecStub(accel, a.r, At(d, k)))
    ensures Patched(inst, if c == 0 then inst else InstB(p, At(d, k)), out, k, p, d, l, accel)
  {
    hide InstB, LookupFrom, At, DecStub, Plus, Generated, Patched, EncodeMregsRead, EncodeMfdec;
    var code := out[k..k + c];
    if c > 0 {
      assert code == out[k..k + c - 1] + [out[k + c - 1]];
      GeneratedIs(a, At(d, k), p, accel, out[k..k + c - 1]);
    } else {
      GeneratedNone(a, At(d, k), p, accel);
    }
    PatchedIs(inst, a, code, out, k, p, d, l, accel);
  }

  lemma PatchedIs(inst: Word, a: Action, code: seq<Word>, out: seq<Word>, k: nat, p: Word, d: Word, l: Layout, accel: Accel)
    requires a == LookupFrom(0, inst, l) && (a.Read? || a.ReadDec?)
    requires code == Generated(a, At(d, k), p, accel) && k + |code| <= |out| && out[k..k + |code|] == code
    ensures Patched(inst, if |code| == 0 then inst else InstB(p, At(d, k)), out, k, p, d, l, accel)
  {
    hide InstB, LookupFrom, At, Generated;
  }

  lemma GeneratedIs(a: Action, d: Word, p: Word, accel: Accel, code: seq<Word>)
    requires (a.Read? && code == EncodeMregsRead(a.r, a.maddr)) || (a.ReadDec? && DecStub(accel, a.r, d) != 0 &&
             code == EncodeMfdec(a.r, a.maddr, d, DecStub(accel, a.r, d)))
    ensures Generated(a, d, p, accel) == code + [InstB(At(d, |code|), Plus(p, 4))]
  {
    hide InstB, EncodeMfdec, EncodeMregsRead, At, DecStub, Plus;
  }

  lemma GeneratedNone(a: Action, d: Word, p: Word, accel: Accel)
    requires a.ReadDec? && DecStub(accel, a.r, d) == 0
    ensures Generated(a, d, p, accel) == []
  {
    hide InstB, EncodeMfdec, At, DecStub, Plus;
  }

  /** inst_replacements: the words code, from address 0 on, and the buffer at address d. */
  method InstReplacements(code: array<Word>, d: Word, l: Layout, accel: Accel)
      returns (out: array<Word>, ghost starts: seq<nat>)
    modifies code
    ensures fresh(out) && |starts| == code.Length
    ensures forall i :: 0 <= i < code.Length ==>
      Patched(old(code[i]), code[i], out[..], starts[i], At(0, i), d, l, accel)
  {
    hide LookupFrom, Counted, Generated, Patched, Total, AllPatched, At, Dried, BufferWords;
    ghost var insts := code[..];
    var size := DryRun(code, l);
    out := new Word[BufferWords(size)];
    var k: nat, i: nat := 0, 0;
    starts := [];
    TotalGrows(insts, 0, l);
    NonePatched(insts, out[..0], d, l, accel);
    while i < code.Length
      invariant 0 <= i <= code.Length && |starts| == i
      invariant k <= Total(insts[..i], l) <= Total(insts, l) <= out.Length
      invariant AllPatched(insts, code[..i], out[..k], starts, d, l, accel)
      invariant forall j :: i <= j < code.Length ==> code[j] == Dried(insts[j], l)
    {
      TotalGrows(insts, i, l);
      ghost var before := out[..k];
      TotalGrows(insts, i + 1, l);
      var c, w := ReplaceOne(code[i], At(0, i), out, k, d, l, accel, insts[i]);
      PatchedLater(insts, code[..i], before, out[..k + c], starts, d, l, accel);
      PatchedNext(insts, code[..i], w, out[..k + c], starts, k, d, l, accel);
      code[i] := w;
      assert code[..i + 1] == code[..i] + [w];
      starts := starts + [k];
      k := k + c;
      i := i + 1;
    }
    PatchedLater(insts, code[..i], out[..k], out[..], starts, d, l, accel);
    assert code[..i] == code[..];
    PatchedEach(insts, code[..], out[..], starts, d, l, accel);
  }

  lemma NonePatched(insts: seq<Word>, out: seq<Word>, d: Word, l: Layout, accel: Accel)
    ensures AllPatched(insts, [], out, [], d, l, accel)
  {
  }

  lemma PatchedEach(insts: seq<Word>, code: seq<Word>, out: seq<Word>, starts: seq<nat>, d: Word, l: Layout, accel: Accel)
    requires AllPatched(insts, code, out, starts, d, l, accel) && |code| == |insts|
    ensures forall j :: 0 <= j < |code| ==> Patched(insts[j], code[j], out, starts[j], At(0, j), d, l, accel)
  {
    hide Patched, At;
  }

  // ----- What the patched memory does

  lemma {:induction false} AtSum(d: Word, i: nat, j: nat)
    ensures At(At(d, i), j) == At(d, i + j)
  {
    hide Plus;
    if j > 0 {
      AtSum(d, i, j - 1);
    }
  }

  lemma HoldsPart(mem: Word -> Word, d: Word, out: seq<Word>, start: nat, code: seq<Word>)
    requires Holds(mem, d, out) && start + |code| <= |out| && out[start..start + |code|] == code
    ensures Holds(mem, At(d, start), code)
  {
    hide At;
    forall j | 0 <= j < |code| ensures mem(At(At(d, start), j)) == code[j] {
      AtSum(d, start, j);
      assert out[start..start + |code|][j] == out[start + j];
    }
  }

  /** After both passes, a supported instruction at a patched address does what it always did, by a
      load from the register file: the branches being in range, execution from there reads the word
      kept for the register, changes no other register, and goes on behind the instruction. */
  lemma PatchedLoads(p: Privileged, i: nat, w: Word, out: seq<Word>, start: nat, d: Word, l: Layout, accel: Accel, c: Cpu)
    requires Supported(p) && Patched(Encoded(p), w, out, start, At(0, i), d, l, accel)
    requires c.pc == At(0, i) && c.mem(c.pc) == w && Holds(c.mem, d, out)
    requires var n := Counted(Read(Kept(p, l), p.r));
      Reaches(c.pc, At(d, start)) && Reaches(At(d, start + n - 1), Plus(c.pc, 4))
    ensures var r := Run(c, Counted(Read(Kept(p, l), p.r)) + 1); r.Some? && Loads(c, r.value, p.r, Kept(p, l))
  {
    hide LookupFrom, At, Encoded, Kept, Plus, Reaches, InstB, Loads, Run, Holds, Replacement;
    LookupEncoded(p, l);
    var maddr := Kept(p, l);
    var base := At(d, start);
    var code := Replacement(p.r, maddr, base, c.pc);
    GeneratedCounted(Read(maddr, p.r), base, c.pc, accel);
    HoldsPart(c.mem, d, out, start, code);
    AtSum(d, start, |code| - 1);
    ReplacedRead(c, p.r, maddr, base);
  }

  // ----- The code for the decrementer

  /** What is left of the load when its address is in the register: upper half, or all of it for r0. */
  function AddressPart(r: Word, maddr: Word): Word {
    if r == 0 then maddr else HalfUp(HiAlg(maddr))
  }

  /** The number of words before the branch to the stub. */
  function StubAt(r: Word): nat { if r == 0 then 2 else 1 }

  /** At the stub, nothing but the register has changed. */
  ghost predicate AtStub(c: Cpu, c': Cpu, r: Word, maddr: Word, stub: Word) {
    c'.pc == stub && c'.mem == c.mem && c'.gpr(r) == AddressPart(r, maddr) && forall q :: q != r ==> c'.gpr(q) == c.gpr(q)
  }

  /** From the patched instruction to the stub. */
  lemma DecToStub(c: Cpu, r: Word, maddr: Word, d: Word, stub: Word)
    requires r < 32 && c.mem(c.pc) == InstB(c.pc, d) && Holds(c.mem, d, EncodeMfdec(r, maddr, d, stub))
    requires Reaches(c.pc, d) && Reaches(At(d, StubAt(r)), stub)
    ensures var s := Run(c, StubAt(r) + 2); s.Some? && AtStub(c, s.value, r, maddr, stub)
  {
    hide DForm, XForm, Step, Plus, HalfUp, HalfDown, LowHalf, SignExtend16, HiAlg, InstB, Reaches, InstLwz, InstLwzx,
      InstLisAlg, InstLisLog, InstOri, AddressPart;
    StepBranch(c, d);
    AtFirst(d);
    var code := EncodeMfdec(r, maddr, d, stub);
    assert c.mem(At(d, 0)) == code[0] && c.mem(At(d, 1)) == code[1] && c.mem(At(d, 2)) == code[2];
    if r == 0 {
      StubByZero(c.(pc := d), maddr, stub);
    } else {
      StubByRegister(c.(pc := d), r, maddr, stub);
    }
  }

  lemma StubByZero(c: Cpu, maddr: Word, stub: Word)
    requires c.mem(c.pc) == InstLisLog(0, maddr) && c.mem(Plus(c.pc, 4)) == InstOri(0, 0, maddr)
    requires var b := Plus(Plus(c.pc, 4), 4); c.mem(b) == InstB(b, stub) && Reaches(b, stub)
    ensures var s := Run(c, 3); s.Some? && AtStub(c, s.value, 0, maddr, stub)
  {
    hide DForm, XForm, Step, Plus, HalfUp, HalfDown, LowHalf, SignExtend16, HiAlg, InstB, InstOri, Reaches;
    Halves(maddr);
    StepLis(c, 0, HalfDown(maddr));
    var c1 := Step(c).value;
    StepOri(c1, 0, 0, maddr);
    var c2 := Step(c1).value;
    StepBranch(c2, stub);
  }

  lemma StubByRegister(c: Cpu, r: Word, maddr: Word, stub: Word)
    requires 0 < r < 32 && c.mem(c.pc) == InstLisAlg(r, maddr)
    requires var b := Plus(c.pc, 4); c.mem(b) == InstB(b, stub) && Reaches(b, stub)
    ensures var s := Run(c, 2); s.Some? && AtStub(c, s.value, r, maddr, stub)
  {
    hide DForm, XForm, Step, Plus, HalfUp, HalfDown, LowHalf, SignExtend16, HiAlg, InstB, Reaches;
    HiAlgAdds(maddr);
    StepLis(c, r, HiAlg(maddr));
    var c1 := Step(c).value;
    StepBranch(c1, stub);
  }

  /** From behind the branch to the stub on, if the stub has kept the register: the word that is then
      in memory is loaded, and execution goes on behind the patched instruction. */
  lemma DecFromStub(c: Cpu, r: Word, maddr: Word, next: Word, b: Word)
    requires r < 32 && c.gpr(r) == AddressPart(r, maddr) && b == Plus(c.pc, 4)
    requires c.mem(c.pc) == if r == 0 then InstLwzx(0, 0, 0) else InstLwz(r, r, maddr)
    requires c.mem(b) == InstB(b, next) && Reaches(b, next)
    ensures Run(c, 2) == Some(Cpu(next, Set(c.gpr, r, c.mem(maddr)), c.mem))
  {
    hide DForm, XForm, Step, Plus, HalfUp, HalfDown, LowHalf, SignExtend16, HiAlg, InstB, Reaches, InstLwz, InstLwzx;
    if r == 0 {
      StepLwzx(c, 0, 0);
    } else {
      HiAlgAdds(maddr);
      StepLwz(c, r, r, maddr);
    }
    var c1 := Step(c).value;
    StepBranch(c1, next);
    assert Run(c1, 1) == Some(c1.(pc := next));
  }

  lemma HoldsFront(mem: Word -> Word, d: Word, code: seq<Word>, last: Word)
    requires Holds(mem, d, code + [last])
    ensures Holds(mem, d, code) && mem(At(d, |code|)) == last
  {
    hide At;
    forall i | 0 <= i < |code| ensures mem(At(d, i)) == code[i] {
      assert (code + [last])[i] == code[i];
    }
    assert (code + [last])[|code|] == last;
  }

  /** What stands in place of a read of the decrementer after both passes. */
  lemma PatchedDecIs(r: Word, i: nat, w: Word, out: seq<Word>, start: nat, d: Word, l: Layout, accel: Accel)
    requires r < 32 && Patched(Encoded(GetSpr(r, DEC)), w, out, start, At(0, i), d, l, accel)
    requires DecStub(accel, r, At(d, start)) != 0
    ensures w == InstB(At(0, i), At(d, start))
    ensures var code := EncodeMfdec(r, Kept(GetSpr(r, DEC), l), At(d, start), DecStub(accel, r, At(d, start)));
      var all := code + [InstB(At(At(d, start), |code|), Plus(At(0, i), 4))];
      start + |all| <= |out| && out[start..start + |all|] == all
  {
    hide LookupFrom, At, Kept, Plus, InstB, EncodeMfdec, Encoded, DecStub, Field1;
    DecFound(r, l);
  }

  lemma DecFound(r: Word, l: Layout)
    requires r < 32
    ensures LookupFrom(0, Encoded(GetSpr(r, DEC)), l) == ReadDec(Kept(GetSpr(r, DEC), l), r)
  {
    hide LookupFrom, Kept, XForm;
    FieldsX(31, r, DEC & 0x1f, DEC >> 5, 339);
    LookupDec(Encoded(GetSpr(r, DEC)), l);
  }

  /** After both passes, a read of the decrementer at a patched address first goes to the stub, which
      is asked to update the decrementer and told from where it is branched to. If the stub comes
      back behind that branch, with the register and the generated code as they were, the word then
      kept for the decrementer is loaded, and execution goes on behind the instruction. */
  lemma PatchedDec(r: Word, i: nat, w: Word, out: seq<Word>, start: nat, d: Word, l: Layout, accel: Accel, c: Cpu, back: Cpu)
    requires r < 32 && Patched(Encoded(GetSpr(r, DEC)), w, out, start, At(0, i), d, l, accel)
    requires c.pc == At(0, i) && c.mem(c.pc) == w && Holds(c.mem, d, out)
    requires var branch, stub := At(d, start + StubAt(r)), DecStub(accel, r, At(d, start));
      stub != 0 && Reaches(c.pc, At(d, start)) && Reaches(branch, stub)
    ensures DecStub(accel, r, At(d, start)) == accel(9 * 32, 0, At(d, start + StubAt(r)))
    ensures var s := Run(c, StubAt(r) + 2);
      s.Some? && AtStub(c, s.value, r, Kept(GetSpr(r, DEC), l), DecStub(accel, r, At(d, start)))
    ensures (back.pc == At(d, start + StubAt(r) + 1) && back.gpr(r) == Run(c, StubAt(r) + 2).value.gpr(r) &&
        Holds(back.mem, d, out) && Reaches(At(d, start + StubAt(r) + 2), Plus(c.pc, 4))) ==>
      Run(back, 2) == Some(Cpu(Plus(c.pc, 4), Set(back.gpr, r, back.mem(Kept(GetSpr(r, DEC), l))), back.mem))
  {
    hide LookupFrom, At, Encoded, Kept, Plus, Reaches, InstB, Run, Holds, Patched, InstLwz, InstLwzx, InstLisAlg, InstLisLog,
      InstOri, Set, AddressPart;
    PatchedDecIs(r, i, w, out, start, d, l, accel);
    var maddr, base, n := Kept(GetSpr(r, DEC), l), At(d, start), StubAt(r);
    var code := EncodeMfdec(r, maddr, base, DecStub(accel, r, base));
    var last := InstB(At(base, |code|), Plus(c.pc, 4));
    AtSum(d, start, n);
    AtSum(d, start, n + 1);
    AtSum(d, start, n + 2);
    HoldsPart(c.mem, d, out, start, code + [last]);
    HoldsFront(c.mem, base, code, last);
    DecToStub(c, r, maddr, base, DecStub(accel, r, base));
    if back.pc == At(d, start + n + 1) && back.gpr(r) == Run(c, n + 2).value.gpr(r) &&
      Holds(back.mem, d, out) && Reaches(At(d, start + n + 2), Plus(c.pc, 4))
    {
      HoldsPart(back.mem, d, out, start, code + [last]);
      HoldsFront(back.mem, base, code, last);
      AtNext(base, n + 1);
      HoldsWord(back.mem, base, code, n + 1);
      DecFromStub(back, r, maddr, Plus(c.pc, 4), At(base, n + 2));
    }
  }

  lemma AtNext(d: Word, i: nat)
    ensures At(d, i + 1) == Plus(At(d, i), 4)
  {
  }

  lemma HoldsWord(mem: Word -> Word, d: Word, code: seq<Word>, i: nat)
    requires Holds(mem, d, code) && i < |code|
    ensures mem(At(d, i)) == code[i]
  {
    hide At;
  }
}
