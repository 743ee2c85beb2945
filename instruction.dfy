/** The x86-64 instruction-length decoder used to relocate a function's
    first instructions: legacy prefixes, an optional REX prefix, the
    opcode map selected by the 0F, 0F 38, 0F 3A, C4 and C5 escapes, and
    the ModR/M, SIB, displacement and immediate bytes, following the
    instruction format of section 2.1 of volume 2 of the Intel 64 and
    IA-32 Architectures Software Developer's Manual. An instruction whose
    length cannot be decoded, or which cannot be moved, gets length 0.
    Instructions whose displacement is relative to the instruction pointer
    record a patch: two byte offsets packed into one word. The bytes are a
    sequence; reading past its end reads zero. */
module X86Length {
  const U32: nat := 0x1_0000_0000

  type Byte = b: nat | b < 256

  /** The group an opcode belongs to in the lookup tables:
      0 no ModR/M, 1 one immediate byte, 2 four immediate bytes,
      3 ModR/M, 4 ModR/M and one immediate byte, 5 ModR/M and four,
      6 invalid or unsupported, 7 the F6/F7 group, 8 ModR/M after eight
      bytes, 9 a jump with a 32-bit offset, 10 the FF group, 11 the 0F 00
      group, 12 3DNow!, 13 AMD SSE5A. */
  type Group = g: nat | g <= 13

  const MAP0: seq<seq<Group>> := [
    [3, 3, 3, 3, 1, 2, 6, 6, 3, 3, 3, 3, 1, 2, 6, 6],
    [3, 3, 3, 3, 1, 2, 6, 6, 3, 3, 3, 3, 1, 2, 6, 6],
    [3, 3, 3, 3, 1, 2, 6, 6, 3, 3, 3, 3, 1, 2, 6, 6],
    [3, 3, 3, 3, 1, 2, 6, 6, 3, 3, 3, 3, 1, 2, 6, 6],
    [6, 6, 6, 6, 6, 6, 6, 6, 6, 6, 6, 6, 6, 6, 6, 6],
    [0, 0, 0, 0, 0, 0, 0, 0, 0, 0, 0, 0, 0, 0, 0, 0],
    [6, 6, 6, 3, 6, 6, 6, 6, 2, 5, 1, 4, 6, 6, 6, 6],
    [6, 6, 6, 6, 6, 6, 6, 6, 6, 6, 6, 6, 6, 6, 6, 6],
    [4, 5, 4, 4, 3, 3, 3, 3, 3, 3, 3, 3, 3, 3, 3, 3],
    [0, 0, 0, 0, 0, 0, 0, 0, 0, 0, 6, 0, 0, 0, 6, 6],
    [8, 8, 8, 8, 0, 0, 0, 0, 1, 2, 3, 3, 3, 3, 3, 3],
    [1, 1, 1, 1, 1, 1, 1, 1, 2, 2, 2, 2, 2, 2, 2, 2],
    [4, 5, 6, 6, 6, 6, 4, 5, 4, 0, 2, 6, 0, 1, 6, 6],
    [3, 3, 3, 6, 6, 6, 6, 0, 3, 3, 3, 3, 3, 3, 3, 3],
    [6, 6, 6, 6, 1, 1, 1, 1, 9, 9, 6, 6, 6, 6, 6, 6],
    [6, 0, 6, 6, 0, 0, 7, 7, 0, 0, 0, 0, 0, 0, 3, 10]
  ]

  const MAP1: seq<seq<Group>> := [
    [3, 6, 3, 3, 0, 0, 0, 0, 0, 0, 6, 0, 6, 12, 12, 12],
    [3, 3, 3, 3, 3, 3, 3, 3, 3, 3, 3, 3, 3, 3, 3, 3],
    [6, 6, 6, 6, 6, 6, 6, 6, 3, 3, 3, 3, 3, 3, 3, 3],
    [0, 0, 0, 0, 0, 0, 6, 0, 6, 6, 6, 6, 6, 6, 6, 6],
    [3, 3, 3, 3, 3, 3, 3, 3, 3, 3, 3, 3, 3, 3, 3, 3],
    [3, 3, 3, 3, 3, 3, 3, 3, 3, 3, 3, 3, 3, 3, 3, 3],
    [3, 3, 3, 3, 3, 3, 3, 3, 3, 3, 3, 3, 3, 3, 3, 3],
    [3, 4, 4, 4, 3, 3, 3, 0, 3, 3, 13, 13, 3, 3, 3, 3],
    [6, 6, 6, 6, 6, 6, 6, 6, 6, 6, 6, 6, 6, 6, 6, 6],
    [3, 3, 3, 3, 3, 3, 3, 3, 3, 3, 3, 3, 3, 3, 3, 3],
    [0, 0, 0, 3, 4, 3, 0, 0, 3, 3, 6, 3, 4, 3, 3, 3],
    [3, 3, 3, 3, 3, 3, 3, 3, 3, 3, 4, 3, 3, 3, 3, 3],
    [3, 3, 4, 3, 4, 4, 4, 3, 3, 3, 3, 3, 3, 3, 3, 3],
    [3, 3, 3, 3, 3, 3, 3, 3, 3, 3, 3, 3, 3, 3, 3, 3],
    [3, 3, 3, 3, 3, 3, 3, 3, 3, 3, 3, 3, 3, 3, 3, 3],
    [3, 3, 3, 3, 3, 3, 3, 3, 3, 3, 3, 3, 3, 3, 3, 0]
  ]

  const MAP2: seq<seq<Group>> := [
    [3, 3, 3, 3, 3, 3, 3, 3, 3, 3, 3, 3, 6, 6, 6, 6],
    [3, 6, 6, 3, 3, 3, 3, 3, 3, 3, 3, 3, 3, 3, 3, 6],
    [3, 3, 3, 3, 3, 3, 6, 3, 3, 3, 3, 3, 3, 3, 3, 3],
    [3, 3, 3, 3, 3, 3, 3, 3, 3, 3, 3, 3, 3, 3, 3, 3],
    [3, 3, 6, 6, 3, 3, 3, 3, 6, 6, 6, 6, 6, 6, 6, 6],
    [3, 3, 3, 3, 6, 3, 6, 6, 3, 3, 3, 3, 3, 3, 3, 3],
    [6, 6, 6, 6, 3, 3, 6, 6, 6, 6, 6, 6, 3, 3, 3, 3],
    [6, 6, 6, 6, 3, 6, 6, 6, 3, 3, 6, 6, 6, 6, 6, 6],
    [3, 3, 3, 6, 3, 6, 3, 3, 6, 6, 6, 6, 3, 6, 3, 6],
    [3, 3, 3, 3, 6, 6, 3, 3, 3, 3, 3, 3, 3, 3, 3, 3],
    [3, 6, 3, 6, 3, 6, 3, 3, 3, 3, 3, 3, 3, 3, 3, 3],
    [6, 6, 6, 6, 3, 3, 3, 3, 3, 3, 3, 3, 3, 3, 3, 3],
    [6, 6, 6, 6, 6, 6, 3, 6, 6, 6, 6, 6, 6, 6, 6, 6],
    [3, 3, 6, 6, 3, 3, 6, 6, 6, 6, 6, 3, 3, 3, 3, 3],
    [6, 6, 6, 6, 6, 6, 6, 6, 6, 6, 6, 6, 6, 6, 6, 6],
    [3, 3, 3, 3, 6, 3, 3, 3, 6, 6, 6, 6, 6, 6, 6, 6]
  ]

  const MAP3: seq<seq<Group>> := [
    [4, 4, 4, 3, 4, 4, 4, 3, 4, 4, 4, 4, 4, 4, 4, 4],
    [6, 6, 6, 6, 4, 4, 4, 4, 4, 4, 6, 6, 6, 4, 4, 4],
    [4, 4, 4, 6, 6, 6, 4, 6, 6, 6, 6, 6, 6, 6, 6, 6],
    [6, 6, 6, 6, 6, 6, 6, 6, 4, 4, 6, 6, 6, 6, 4, 6],
    [4, 4, 4, 6, 4, 6, 4, 6, 4, 4, 3, 3, 3, 6, 6, 6],
    [6, 6, 4, 6, 6, 6, 6, 6, 6, 6, 6, 6, 3, 3, 3, 3],
    [4, 4, 4, 4, 6, 6, 6, 6, 3, 3, 3, 3, 3, 3, 3, 3],
    [4, 6, 6, 6, 6, 6, 4, 6, 3, 3, 3, 3, 3, 3, 3, 3],
    [6, 6, 6, 6, 6, 6, 6, 6, 6, 6, 6, 6, 6, 6, 6, 6],
    [6, 6, 6, 6, 6, 6, 6, 6, 6, 6, 6, 6, 6, 6, 6, 6],
    [6, 6, 6, 6, 6, 6, 6, 6, 6, 6, 6, 6, 6, 6, 6, 6],
    [6, 6, 6, 6, 6, 6, 6, 6, 6, 6, 6, 6, 6, 6, 6, 6],
    [6, 6, 6, 6, 6, 6, 6, 6, 6, 6, 4, 4, 6, 6, 6, 6],
    [6, 6, 6, 6, 6, 6, 6, 6, 6, 6, 6, 6, 6, 6, 6, 4],
    [6, 6, 6, 6, 6, 6, 4, 6, 6, 6, 6, 6, 6, 6, 6, 6],
    [4, 6, 6, 6, 6, 6, 6, 6, 6, 6, 6, 6, 6, 6, 6, 6]
  ]

  /** The four opcode maps: one-byte opcodes, 0F, 0F 38 and 0F 3A. */
  function Lookup(m: nat, op: Byte): Group
    requires m < 4
  {
    var t := if m == 0 then MAP0 else if m == 1 then MAP1 else if m == 2 then MAP2 else MAP3;
    t[op / 16][op % 16]
  }

  function At(code: seq<Byte>, i: nat): Byte
  {
    if i < |code| then code[i] else 0
  }

  /** The fields of a ModR/M byte, rm in the low bits. */
  function Mod(b: Byte): nat { b / 64 }
  function Reg(b: Byte): nat { b / 8 % 8 }
  function Rm(b: Byte): nat { b % 8 }
  /** The map field of the first VEX byte after C4: its low five bits. */
  function VexMap(b: Byte): nat { b % 32 }

  /** The decoder's fields. */
  datatype State = State(length: int, modRM: Byte, vex1: Byte, patch: nat, prologueSize: int)

  const Cleared: State := State(0, 0, 0, 0, 0)

  /** The segment, lock, repeat, operand-size and address-size prefixes. */
  predicate IsLegacyPrefix(b: Byte)
  {
    b == 0xf0 || b == 0xf2 || b == 0xf3 || b == 0x2e || b == 0x36 || b == 0x3e || b == 0x26 ||
    b == 0x66 || b == 0x67 || b == 0x64 || b == 0x65
  }

  /** What a prefix adds to the length: FS and GS count 5. */
  function PrefixCost(b: Byte): nat
  {
    if b == 0x64 || b == 0x65 then 5 else 1
  }

  predicate IsRex(b: Byte)
  {
    b / 16 == 4
  }

  /** The legacy prefixes at i: how many, and what they add. */
  function Legacy(code: seq<Byte>, i: nat): (r: (nat, nat))
    decreases |code| - i
  {
    if i < |code| && IsLegacyPrefix(code[i]) then
      var rest := Legacy(code, i + 1);
      (rest.0 + 1, rest.1 + PrefixCost(code[i]))
    else (0, 0)
  }

  /** The number of FS and GS prefixes among the n bytes at i. */
  function SegmentCount(code: seq<Byte>, i: nat, n: nat): nat
    decreases n
  {
    if n == 0 then 0 else (if At(code, i) == 0x64 || At(code, i) == 0x65 then 1 else 0) + SegmentCount(code, i + 1, n - 1)
  }

  /** The prefix scan stops at the first byte that is not a legacy prefix;
      each prefix adds one, FS and GS five. */
  lemma {:induction false} LegacyMeaning(code: seq<Byte>, i: nat)
    ensures var r := Legacy(code, i);
      (forall k :: i <= k < i + r.0 ==> k < |code| && IsLegacyPrefix(code[k])) &&
      !IsLegacyPrefix(At(code, i + r.0)) &&
      r.1 == r.0 + 4 * SegmentCount(code, i, r.0)
    decreases |code| - i
  {
    if i < |code| && IsLegacyPrefix(code[i]) {
      LegacyMeaning(code, i + 1);
    }
  }

  /** The prefixes of an instruction at i: the legacy ones, then a REX
      prefix; the new length and the number of prefix bytes. */
  function PrefixStep(code: seq<Byte>, i: nat, s: State): (r: (State, nat))
  {
    var legacy := Legacy(code, i);
    var rex := if IsRex(At(code, i + legacy.0)) then 1 else 0;
    (s.(length := s.length + legacy.1 + rex), legacy.0 + rex)
  }

  /** A patch word: the instruction's end in the upper bits and the
      position of its displacement in the low byte. */
  function PatchWord(disp: int, end: int): int
  {
    end * 0x100 + disp
  }

  /** makePatch: the offset n of the instruction's displacement is the
      prologue size plus the length so far; one more when a ModR/M byte
      is set. The patch is an unsigned 32-bit value. */
  function PatchStep(s: State): (r: State)
    ensures r.length == s.length + 5 + (if s.modRM != 0 then 1 else 0)
    ensures r.modRM == s.modRM && r.vex1 == s.vex1 && r.prologueSize == s.prologueSize && r.patch < U32
  {
    var n := s.prologueSize + s.length;
    var extra := if s.modRM != 0 then 1 else 0;
    s.(patch := PatchWord(n + 1 + extra, n + 5 + extra) % U32, length := s.length + 5 + extra)
  }

  /** A patch word gives back both offsets when they are small enough. */
  lemma PatchWordDecodes(disp: nat, end: nat)
    requires disp < 0x100 && end < 0x100_0000
    ensures PatchWord(disp, end) % U32 % 0x100 == disp
    ensures PatchWord(disp, end) % U32 / 0x100 == end
  {
  }

  /** The bytes of ModR/M, SIB and displacement after the opcode, per
      tables 2-2 and 2-3 of the manual: a SIB byte when rm is 100 and mod
      is not 11, a 1-byte displacement for mod 01, a 4-byte one for mod
      10, for mod 00 with rm 101 and for mod 00 with a SIB base of 101. */
  function SdmOperandBytes(modrm: Byte, sib: Byte): nat
  {
    var hasSib := Mod(modrm) != 3 && Rm(modrm) == 4;
    var disp :=
      if Mod(modrm) == 1 then 1
      else if Mod(modrm) == 2 then 4
      else if Mod(modrm) == 0 && Rm(modrm) == 5 then 4
      else if Mod(modrm) == 0 && hasSib && sib % 8 == 5 then 4
      else 0;
    1 + (if hasSib then 1 else 0) + disp
  }

  /** What evalModRM adds to the length for an opcode with a ModR/M byte
      that is not relative to the instruction pointer: the opcode, the
      ModR/M byte, a SIB byte and the displacement. */
  function ModRMBytes(modrm: Byte, sib: Byte): nat
  {
    if Mod(modrm) == 0 then (if Rm(modrm) != 4 then 2 else if sib % 8 == 5 then 7 else 3)
    else if Mod(modrm) == 1 then (if Rm(modrm) != 4 then 3 else 4)
    else if Mod(modrm) == 2 then (if Rm(modrm) != 4 then 6 else 7)
    else 2
  }

  /** evalModRM: mod 00 with rm 101 addresses relative to the instruction
      pointer and makes a patch; otherwise the ModR/M bytes are added. */
  function ModRMStep(s: State, modrm: Byte, sib: Byte): (r: State)
    ensures r.length >= s.length + 2 && r.prologueSize == s.prologueSize
  {
    var s1 := s.(modRM := modrm);
    if Mod(modrm) == 0 && Rm(modrm) == 5 then PatchStep(s1)
    else s1.(length := s.length + ModRMBytes(modrm, sib))
  }

  /** evalModRM adds the opcode byte and exactly the bytes the manual
      gives the ModR/M operand, and makes a patch only for an operand
      relative to the instruction pointer, whose displacement is two
      bytes after the offset n and which ends six bytes after it. */
  lemma ModRMMatchesManual(s: State, modrm: Byte, sib: Byte)
    ensures var r := ModRMStep(s, modrm, sib);
      r.length == s.length + 1 + SdmOperandBytes(modrm, sib) && r.modRM == modrm
    ensures var r := ModRMStep(s, modrm, sib);
      var n := s.prologueSize + s.length;
      if Mod(modrm) == 0 && Rm(modrm) == 5 then r.patch == PatchWord(n + 2, n + 6) % U32
      else r.patch == s.patch
  {
  }

  /** The opcode map an instruction at i uses, where its opcode is, and
      what the escape bytes add to the length. A C4 prefix takes the map
      from its next byte: 1 or 2, and 3 for anything else. */
  function SelectMap(code: seq<Byte>, i: nat): (r: (nat, nat, nat))
    ensures r.0 < 4 && r.1 == i + r.2
    ensures r.0 == 0 <==> At(code, i) != 0x0f && At(code, i) != 0xc4 && At(code, i) != 0xc5
  {
    var b := At(code, i);
    if b == 0xc4 then
      var m := VexMap(At(code, i + 1));
      (if m == 1 then 1 else if m == 2 then 2 else 3, i + 3, 3)
    else if b == 0x0f then
      if At(code, i + 1) == 0x38 then (2, i + 2, 2)
      else if At(code, i + 1) == 0x3a then (3, i + 2, 2)
      else (1, i + 1, 1)
    else if b == 0xc5 then (1, i + 2, 2)
    else (0, i, 0)
  }

  /** The F6/F7 group: TEST (reg 0 or 1) has an immediate byte after F6
      and four after F7. */
  function GroupF6F7(s: State, code: seq<Byte>, j: nat): State
  {
    var m := At(code, j + 1);
    var s1 := s.(modRM := m);
    var s2 := if Reg(m) == 0 || Reg(m) == 1 then s1.(length := s1.length + if At(code, j) == 0xf6 then 1 else 4) else s1;
    ModRMStep(s2, m, At(code, j + 2))
  }

  /** The FF group: INC, DEC and PUSH (reg 0, 1, 6) are decoded; calls
      and jumps through memory cannot be moved. */
  function GroupFF(s: State, code: seq<Byte>, j: nat): State
  {
    var m := At(code, j + 1);
    var s1 := s.(modRM := m);
    if Reg(m) == 0 || Reg(m) == 1 || Reg(m) == 6 then ModRMStep(s1, m, At(code, j + 2))
    else s1.(length := 0)
  }

  /** The 0F 00 group: every member but reg 6 is decoded. */
  function Group0F00(s: State, code: seq<Byte>, j: nat): State
  {
    var m := At(code, j + 1);
    var s1 := s.(modRM := m);
    if Reg(m) != 6 then ModRMStep(s1, m, At(code, j + 2)) else s1.(length := 0)
  }

  /** A jump or call with a 32-bit offset: five bytes, and a patch whose
      displacement is one byte after the offset n and which ends five
      bytes after it. */
  function JumpStep(s: State): (r: State)
  {
    var n := s.prologueSize + s.length;
    s.(patch := PatchWord(n + 1, n + 5) % U32, length := s.length + 5)
  }

  /** What the group of the opcode at j adds to the length. */
  function GroupStep(s: State, code: seq<Byte>, j: nat, g: Group): (r: State)
    ensures r.length == 0 || r.length >= s.length + 1
    ensures r.prologueSize == s.prologueSize
  {
    match g
    case 0 => s.(length := s.length + 1)
    case 1 => s.(length := s.length + 2)
    case 2 => s.(length := s.length + 5)
    case 3 => ModRMStep(s, At(code, j + 1), At(code, j + 2))
    case 4 => ModRMStep(s.(length := s.length + 1), At(code, j + 1), At(code, j + 2))
    case 5 => ModRMStep(s.(length := s.length + 4), At(code, j + 1), At(code, j + 2))
    case 6 => s.(length := 0)
    case 7 => GroupF6F7(s, code, j)
    case 8 => ModRMStep(s.(length := s.length + 8), At(code, j + 1), At(code, j + 2))
    case 9 => JumpStep(s)
    case 10 => GroupFF(s, code, j)
    case 11 => Group0F00(s, code, j)
    case 12 => s.(length := 0)
    case 13 => s.(length := 0)
  }

  /** decodeOpcode: 8F with reg 0 is POP with a ModR/M operand and any
      other reg an XOP instruction, which is not supported; any other
      opcode is looked up in the map its escape bytes select. */
  function OpcodeStep(code: seq<Byte>, i: nat, s: State): State
  {
    var b := At(code, i);
    if b == 0x8f then
      var m := At(code, i + 1);
      var s1 := s.(modRM := m);
      if Reg(m) == 0 then ModRMStep(s1, m, At(code, i + 2)) else s1.(length := 0)
    else
      var s1 := if b == 0xc4 then s.(vex1 := At(code, i + 1)) else s;
      var sel := SelectMap(code, i);
      GroupStep(s1.(length := s1.length + sel.2), code, sel.1, Lookup(sel.0, At(code, sel.1)))
  }

  /** decodeInstruction: the prefixes, then the opcode after them; the
      length adds to what earlier calls left. */
  function Decode(code: seq<Byte>, n: int, s: State): State
  {
    var p := PrefixStep(code, 0, s.(prologueSize := n));
    OpcodeStep(code, p.1, p.0)
  }

  /** Every group either rejects the instruction with length 0 or adds
      at least its opcode byte; the invalid, 3DNow! and SSE5A groups
      always reject it, FF rejects reg 2 to 5 and 7, 0F 00 rejects reg 6. */
  lemma GroupOutcome(s: State, code: seq<Byte>, j: nat, g: Group)
    ensures var r := GroupStep(s, code, j, g); r.length == 0 || r.length >= s.length + 1
    ensures g == 6 || g == 12 || g == 13 ==> GroupStep(s, code, j, g).length == 0
    ensures var m := Reg(At(code, j + 1));
      g == 10 ==> (GroupStep(s, code, j, g).length == 0 || m == 0 || m == 1 || m == 6)
    ensures var m := Reg(At(code, j + 1));
      g == 10 && m != 0 && m != 1 && m != 6 ==> GroupStep(s, code, j, g).length == 0
    ensures g == 11 && Reg(At(code, j + 1)) == 6 ==> GroupStep(s, code, j, g).length == 0
  {
  }

  /** The opcode step either rejects the instruction or adds at least a byte. */
  lemma OpcodeOutcome(code: seq<Byte>, i: nat, s: State)
    ensures var r := OpcodeStep(code, i, s); r.length == 0 || r.length >= s.length + 1
    ensures OpcodeStep(code, i, s).prologueSize == s.prologueSize
  {
    var b := At(code, i);
    if b != 0x8f {
      var s1 := if b == 0xc4 then s.(vex1 := At(code, i + 1)) else s;
      var sel := SelectMap(code, i);
      var s2 := s1.(length := s1.length + sel.2);
      assert s2.length >= s.length;
    }
  }

  /** The length of a decoded instruction accumulates onto the earlier
      length: a decoded instruction adds at least one byte, a rejected
      one gives 0, and the prologue size is the given offset. */
  lemma DecodeAccumulates(code: seq<Byte>, n: int, s: State)
    ensures var r := Decode(code, n, s); r.length == 0 || r.length >= s.length + 1
    ensures Decode(code, n, s).prologueSize == n
  {
    var p := PrefixStep(code, 0, s.(prologueSize := n));
    assert p.0.length >= s.length && p.0.prologueSize == n;
    OpcodeOutcome(code, p.1, p.0);
  }

  /** push %rbp is one byte. */
  lemma PushExample()
    ensures Decode([0x55], 0, Cleared).length == 1
  {
    var code: seq<Byte> := [0x55];
    assert Legacy(code, 0) == (0, 0);
    assert PrefixStep(code, 0, Cleared) == (Cleared, 0);
    assert SelectMap(code, 0) == (0, 0, 0);
    assert Lookup(0, 0x55) == 0;
  }

  /** mov %rsp,%rbp is three bytes: REX.W, the opcode and a register
      ModR/M byte. */
  lemma MovExample()
    ensures Decode([0x48, 0x89, 0xe5], 0, Cleared).length == 3
  {
    var code: seq<Byte> := [0x48, 0x89, 0xe5];
    assert Legacy(code, 0) == (0, 0);
    assert PrefixStep(code, 0, Cleared) == (Cleared.(length := 1), 1);
    assert SelectMap(code, 1) == (0, 1, 0);
    assert Lookup(0, 0x89) == 3;
  }

  /** sub $16,%rsp is four bytes: REX.W, the opcode, the ModR/M byte and
      an immediate byte. */
  lemma SubExample()
    ensures Decode([0x48, 0x83, 0xec, 0x10], 0, Cleared).length == 4
  {
    var code: seq<Byte> := [0x48, 0x83, 0xec, 0x10];
    assert Legacy(code, 0) == (0, 0);
    assert PrefixStep(code, 0, Cleared) == (Cleared.(length := 1), 1);
    assert SelectMap(code, 1) == (0, 1, 0);
    assert Lookup(0, 0x83) == 4;
  }

  /** A near jump is five bytes; its offset is one byte in and the jump
      ends five bytes in. */
  lemma JumpExample()
    ensures Decode([0xe9, 0, 0, 0, 0], 0, Cleared) == Cleared.(length := 5, patch := PatchWord(1, 5))
  {
    var code: seq<Byte> := [0xe9, 0, 0, 0, 0];
    assert Legacy(code, 0) == (0, 0);
    assert PrefixStep(code, 0, Cleared) == (Cleared, 0);
    assert SelectMap(code, 0) == (0, 0, 0);
    assert Lookup(0, 0xe9) == 9;
  }

  /** mov disp(%rip),%rax after three bytes of earlier instructions: seven
      bytes, with the displacement at offset 6 and the end at offset 10. */
  lemma RipExample()
    ensures Decode([0x48, 0x8b, 0x05, 0, 0, 0, 0], 3, Cleared) == State(7, 5, 0, PatchWord(6, 10), 3)
  {
    var code: seq<Byte> := [0x48, 0x8b, 0x05, 0, 0, 0, 0];
    assert Legacy(code, 0) == (0, 0);
    assert PrefixStep(code, 0, Cleared.(prologueSize := 3)) == (State(1, 0, 0, 0, 3), 1);
    assert SelectMap(code, 1) == (0, 1, 0);
    assert Lookup(0, 0x8b) == 3;
  }

  /** The decoder: its fields persist from one instruction to the next
      until clear. */
  class Instruction {
    var length: int
    var modRM: Byte
    var vex1: Byte
    var patch: nat
    var prologueSize: int

    function Snapshot(): State
      reads this
    {
      State(length, modRM, vex1, patch, prologueSize)
    }

    constructor()
      ensures Snapshot() == Cleared
    {
      length, modRM, vex1, patch, prologueSize := 0, 0, 0, 0, 0;
    }

    /** clear: every field back to zero. */
    method Clear()
      modifies this
      ensures Snapshot() == Cleared
    {
      length, modRM, vex1, patch, prologueSize := 0, 0, 0, 0, 0;
    }

    /** decodeInstruction: the length of the instruction at the start of
        code added to the length so far, or 0; n is the length of the
        instructions before it. */
    method DecodeInstruction(code: seq<Byte>, n: int) returns (len: int)
      modifies this
      ensures Snapshot() == Decode(code, n, old(Snapshot())) && len == length
    {
      prologueSize := n;
      var prefixes := DecodePrefix(code, 0);
      DecodeOpcode(code, prefixes);
      len := length;
    }

    /** decodePrefix: counts the legacy prefixes at i, adding each one's
        cost to the length, then a REX prefix after them. */
    method DecodePrefix(code: seq<Byte>, i: nat) returns (prefixes: nat)
      modifies this
      ensures (Snapshot(), prefixes) == PrefixStep(code, i, old(Snapshot()))
    {
      prefixes := 0;
      var k := i;
      while k < |code| && IsLegacyPrefix(code[k])
        invariant i <= k && prefixes == k - i
        invariant Legacy(code, i) == (var r := Legacy(code, k); (r.0 + prefixes, r.1 + (length - old(length))))
        invariant Snapshot() == old(Snapshot()).(length := length)
        decreases |code| - k
      {
        length := length + PrefixCost(code[k]);
        prefixes := prefixes + 1;
        k := k + 1;
      }
      if IsRex(At(code, k)) {
        prefixes := prefixes + 1;
        length := length + 1;
      }
    }

    /** decodeOpcode: selects the opcode map and adds the length its
        group gives. */
    method DecodeOpcode(code: seq<Byte>, i: nat)
      modifies this
      ensures Snapshot() == OpcodeStep(code, i, old(Snapshot()))
    {
      var b := At(code, i);
      if b == 0x8f {
        modRM := At(code, i + 1);
        if Reg(modRM) == 0 {
          EvalModRM(At(code, i + 1), At(code, i + 2));
        } else {
          length := 0;
        }
        return;
      }
      var selectMap, j := DecodeEscape(code, i);
      var group := Lookup(selectMap, At(code, j));
      ApplyGroup(code, j, group);
    }

    /** The escape bytes before an opcode: C4 takes the map from its
        next byte, 0F 38 and 0F 3A select maps 2 and 3, 0F alone and C5
        select map 1, and anything else is a one-byte opcode. */
    method DecodeEscape(code: seq<Byte>, i: nat) returns (selectMap: nat, j: nat)
      modifies this
      ensures var sel := SelectMap(code, i); selectMap == sel.0 && j == sel.1
      ensures var s := old(Snapshot());
        var s1 := if At(code, i) == 0xc4 then s.(vex1 := At(code, i + 1)) else s;
        Snapshot() == s1.(length := s1.length + SelectMap(code, i).2)
    {
      var b := At(code, i);
      j := i;
      if b == 0xc4 {
        vex1 := At(code, i + 1);
        var m := VexMap(vex1);
        selectMap := if m == 1 then 1 else if m == 2 then 2 else 3;
        length := length + 3;
        j := i + 3;
      } else if b == 0x0f {
        if At(code, i + 1) == 0x38 {
          selectMap, length, j := 2, length + 2, i + 2;
        } else if At(code, i + 1) == 0x3a {
          selectMap, length, j := 3, length + 2, i + 2;
        } else {
          selectMap, length, j := 1, length + 1, i + 1;
        }
      } else if b == 0xc5 {
        selectMap, length, j := 1, length + 2, i + 2;
      } else {
        selectMap := 0;
      }
    }

    /** The switch on the opcode's group. */
    method ApplyGroup(code: seq<Byte>, j: nat, group: Group)
      modifies this
      ensures Snapshot() == GroupStep(old(Snapshot()), code, j, group)
    {
      match group
      case 0 => length := length + 1;
      case 1 => length := length + 2;
      case 2 => length := length + 5;
      case 3 => EvalModRM(At(code, j + 1), At(code, j + 2));
      case 4 =>
        length := length + 1;
        EvalModRM(At(code, j + 1), At(code, j + 2));
      case 5 =>
        length := length + 4;
        EvalModRM(At(code, j + 1), At(code, j + 2));
      case 6 => length := 0;
      case 7 => GroupF6F7Step(code, j);
      case 8 =>
        length := length + 8;
        EvalModRM(At(code, j + 1), At(code, j + 2));
      case 9 => JumpPatch();
      case 10 => GroupFFStep(code, j);
      case 11 => Group0F00Step(code, j);
      case 12 => Group3dNow();
      case 13 => GroupSSE5A();
    }

    /** groupF6F7. */
    method GroupF6F7Step(code: seq<Byte>, j: nat)
      modifies this
      ensures Snapshot() == GroupF6F7(old(Snapshot()), code, j)
    {
      modRM := At(code, j + 1);
      if Reg(modRM) == 0 || Reg(modRM) == 1 {
        if At(code, j) == 0xf6 {
          length := length + 1;
        } else {
          length := length + 4;
        }
      }
      EvalModRM(At(code, j + 1), At(code, j + 2));
    }

    /** groupFF. */
    method GroupFFStep(code: seq<Byte>, j: nat)
      modifies this
      ensures Snapshot() == GroupFF(old(Snapshot()), code, j)
    {
      modRM := At(code, j + 1);
      if Reg(modRM) == 0 || Reg(modRM) == 1 || Reg(modRM) == 6 {
        EvalModRM(At(code, j + 1), At(code, j + 2));
      } else {
        length := 0;
      }
    }

    /** group0F00. */
    method Group0F00Step(code: seq<Byte>, j: nat)
      modifies this
      ensures Snapshot() == Group0F00(old(Snapshot()), code, j)
    {
      modRM := At(code, j + 1);
      if Reg(modRM) != 6 {
        EvalModRM(At(code, j + 1), At(code, j + 2));
      } else {
        length := 0;
      }
    }

    /** group3dNOW: not supported. */
    method Group3dNow()
      modifies this
      ensures Snapshot() == old(Snapshot()).(length := 0)
    {
      length := 0;
    }

    /** groupSSE5A: not supported. */
    method GroupSSE5A()
      modifies this
      ensures Snapshot() == old(Snapshot()).(length := 0)
    {
      length := 0;
    }

    /** evalModRM, given the ModR/M byte and the byte after it. */
    method EvalModRM(modrm: Byte, sib: Byte)
      modifies this
      ensures Snapshot() == ModRMStep(old(Snapshot()), modrm, sib)
    {
      modRM := modrm;
      if Mod(modRM) == 0 && Rm(modRM) == 5 {
        MakePatch();
      } else if Mod(modRM) == 0 {
        if Rm(modRM) != 4 {
          length := length + 2;
        } else if sib % 8 == 5 {
          length := length + 7;
        } else {
          length := length + 3;
        }
      } else if Mod(modRM) == 1 {
        length := length + if Rm(modRM) != 4 then 3 else 4;
      } else if Mod(modRM) == 2 {
        length := length + if Rm(modRM) != 4 then 6 else 7;
      } else {
        length := length + 2;
      }
    }

    /** makePatch. */
    method MakePatch()
      modifies this
      ensures Snapshot() == PatchStep(old(Snapshot()))
    {
      var n := prologueSize + length;
      var extra := if modRM != 0 then 1 else 0;
      patch := ((n + 5 + extra) * 0x100 + n + 1 + extra) % U32;
      length := length + 5 + extra;
    }

    /** The patch of a jump or call with a 32-bit offset. */
    method JumpPatch()
      modifies this
      ensures Snapshot() == JumpStep(old(Snapshot()))
    {
      var n := prologueSize + length;
      patch := ((n + 5) * 0x100 + n + 1) % U32;
      length := length + 5;
    }
  }

  /** The first case of decodeOpcode as written: it tests for F8, the
      one-byte CLC, where the POP/XOP opcode is 8F, so CLC takes the
      next byte as a ModR/M byte. */
  function F8CaseAsWritten(code: seq<Byte>, i: nat, s: State): State
    requires At(code, i) == 0xf8
  {
    var m := At(code, i + 1);
    var s1 := s.(modRM := m);
    if Reg(m) == 0 then ModRMStep(s1, m, At(code, i + 2)) else s1.(length := 0)
  }

  /** CLC followed by RET: the source decodes a 2-byte instruction where
      the manual has the 1-byte CLC, which the corrected decoder finds. */
  lemma ClcReadAsPop()
    ensures F8CaseAsWritten([0xf8, 0xc3], 0, Cleared).length == 2
    ensures Decode([0xf8, 0xc3], 0, Cleared).length == 1
  {
    var code: seq<Byte> := [0xf8, 0xc3];
    assert Legacy(code, 0) == (0, 0);
    assert PrefixStep(code, 0, Cleared) == (Cleared, 0);
    assert SelectMap(code, 0) == (0, 0, 0);
    assert Lookup(0, 0xf8) == 0;
  }

  /** evalModRM as written: mod 00 with a SIB byte always counts 3 bytes,
      also when the SIB base is 101 and a 4-byte displacement follows. */
  function ModRMBytesAsWritten(modrm: Byte): nat
  {
    if Mod(modrm) == 0 then (if Rm(modrm) != 4 then 2 else 3)
    else if Mod(modrm) == 1 then (if Rm(modrm) != 4 then 3 else 4)
    else if Mod(modrm) == 2 then (if Rm(modrm) != 4 then 6 else 7)
    else 2
  }

  /** mov eax, [disp32] is 8B 04 25 and four displacement bytes: the
      source counts 3 bytes, the manual 7. */
  lemma SibDisplacementMissed()
    ensures ModRMBytesAsWritten(0x04) == 3
    ensures 1 + SdmOperandBytes(0x04, 0x25) == 7 && ModRMBytes(0x04, 0x25) == 7
  {
  }

  /** Group 9 as written: five bytes are added before makePatch, which
      adds five more and takes them into the patch's offsets. */
  function JumpStepAsWritten(s: State): State
  {
    PatchStep(s.(length := s.length + 5))
  }

  /** A near jump is five bytes: the source decodes ten from a cleared
      decoder, while the corrected decoder gives 5 and the patch that the
      prologue parser of the hooking code makes for it. */
  lemma JumpCountedTwice()
    ensures JumpStepAsWritten(Cleared).length == 10
    ensures JumpStep(Cleared).length == 5 && JumpStep(Cleared).patch == PatchWord(1, 5)
  {
  }
}
