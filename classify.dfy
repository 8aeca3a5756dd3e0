/** Instruction classification and branch-target decoding of the code graph
    processor (x86code-modifier/src/cgp.c, `cgp_get_node_type` and
    `cgp_get_branch_offset`). Opcodes follow the Jcc, JMP, CALL, RET and LOOP
    entries of the Intel 64 and IA-32 Architectures Software Developer's Manual,
    Volume 2. */
module Classify {
  import opened Words
  import opened Wrappers

  const OPCODE_JMP_REL8: byte := 0xEB
  const OPCODE_JMP_REL32: byte := 0xE9
  const OPCODE_CALL: byte := 0xE8
  const OPCODE_RET: byte := 0xC3
  const OPCODE_NOP: byte := 0x90
  /** The byte written over displacements that are not patched yet (INT3). */
  const PLACEHOLDER: byte := 0xCC

  /** The kinds of graph node; `Label` is the zero-size marker that decoding never produces. */
  datatype NodeType = Line | Jmp | Jcc | Call | Ret | Label

  /** `0F 80..8F`: Jcc rel32. */
  predicate IsLongJcc(s: seq<byte>) {
    |s| >= 2 && s[0] == 0x0F && 0x80 <= s[1] <= 0x8F
  }

  /** `70..7F`: Jcc rel8. */
  predicate IsShortJcc(s: seq<byte>) {
    |s| >= 1 && 0x70 <= s[0] <= 0x7F
  }

  /** `E0..E3`: LOOPNE, LOOPE, LOOP, JECXZ (all rel8). */
  predicate IsLoop(s: seq<byte>) {
    |s| >= 1 && 0xE0 <= s[0] <= 0xE3
  }

  /** cgp_get_node_type on the bytes at the cursor. The source reads the byte
      after a `0F` unconditionally; here a lone `0F` at the very end of the
      buffer is not a long Jcc. The rules are checked in the order of the C code, and
      the contract shows the order does not matter: the opcode sets are disjoint. */
  function GetNodeType(s: seq<byte>): (t: NodeType)
    requires |s| >= 1
    ensures t == Jcc <==> IsLongJcc(s) || IsShortJcc(s) || IsLoop(s)
    ensures t == Jmp <==> s[0] == OPCODE_JMP_REL8 || s[0] == OPCODE_JMP_REL32
    ensures t == Ret <==> s[0] == OPCODE_RET
    ensures t == Call <==> s[0] == OPCODE_CALL
    ensures t == Line <==> !(IsLongJcc(s) || IsShortJcc(s) || IsLoop(s))
                           && s[0] !in {OPCODE_JMP_REL8, OPCODE_JMP_REL32, OPCODE_RET, OPCODE_CALL}
    ensures t != Label
  {
    if IsLongJcc(s) then Jcc
    else if IsShortJcc(s) then Jcc
    else if IsLoop(s) then Jcc
    else if s[0] == OPCODE_JMP_REL8 || s[0] == OPCODE_JMP_REL32 then Jmp
    else if s[0] == OPCODE_RET then Ret
    else if s[0] == OPCODE_CALL then Call
    else Line
  }

  /** The five relative-branch encodings the processor can decode and patch. */
  datatype BranchForm = LongJcc | ShortJcc | JmpRel8 | JmpRel32 | CallRel32

  /** Instruction length of each form. */
  function FormLength(f: BranchForm): nat {
    match f
    case LongJcc => 6
    case ShortJcc => 2
    case JmpRel8 => 2
    case JmpRel32 => 5
    case CallRel32 => 5
  }

  /** Where the displacement starts inside the instruction. */
  function DispPos(f: BranchForm): nat {
    if f == LongJcc then 2 else 1
  }

  /** Displacement width in bytes. */
  function DispWidth(f: BranchForm): (w: nat)
    ensures DispPos(f) + w == FormLength(f)
  {
    match f
    case LongJcc => 4
    case ShortJcc => 1
    case JmpRel8 => 1
    case JmpRel32 => 4
    case CallRel32 => 4
  }

  /** The branch form of the instruction starting at `s[0]`, if it has one. */
  function FormOf(s: seq<byte>): (r: Option<BranchForm>)
    ensures r.Some? ==> |s| >= 1
  {
    if IsLongJcc(s) then Some(LongJcc)
    else if IsShortJcc(s) then Some(ShortJcc)
    else if |s| >= 1 && s[0] == OPCODE_JMP_REL8 then Some(JmpRel8)
    else if |s| >= 1 && s[0] == OPCODE_JMP_REL32 then Some(JmpRel32)
    else if |s| >= 1 && s[0] == OPCODE_CALL then Some(CallRel32)
    else None
  }

  /** The signed displacement stored in a complete instruction of form `f`. */
  function SignedDisp(s: seq<byte>, f: BranchForm): int
    requires |s| >= FormLength(f)
  {
    if DispWidth(f) == 4 then Signed32(FromLe32(s[DispPos(f)..])) else Signed8(s[1])
  }

  /** Result of cgp_get_branch_offset: a target, the `exit(0)` taken on any other
      opcode (LOOP among them), or a read past the end of the buffer. */
  datatype Target = Target(offset: u32) | NotBranch | Truncated

  /** `x ^ 0xFFFFFF00`: the exclusive-or flips the high 24 bits and keeps the
      low byte (the source applies it to `~r` for a negative rel8). */
  function XorHigh24(x: u32): (r: u32)
    ensures r % 0x100 == x % 0x100
  {
    (0xFF_FFFF - x / 0x100) * 0x100 + x % 0x100
  }

  /** cgp_get_branch_offset, with the source's sign tests and complement
      arithmetic as written (x86code-modifier/src/cgp.c:335-404). */
  function GetBranchOffset(buff: seq<byte>, off: u32): (r: Target)
    ensures r.Target? <==> off < |buff| && FormOf(buff[off..]).Some?
                           && off + FormLength(FormOf(buff[off..]).value) <= |buff|
    ensures r.NotBranch? <==> off < |buff| && FormOf(buff[off..]).None?
  {
    if off >= |buff| then Truncated
    else
      var s := buff[off..];
      if IsLongJcc(s) then
        if |s| < 6 then Truncated
        else
          var r := FromLe32(s[2..]);
          if Signed32(r) >= 0 then Target(Wrap(off + Wrap(r + 6)))
          else Target(Wrap(off - Wrap(Not(r) - 5)))
      else if IsShortJcc(s) || s[0] == OPCODE_JMP_REL8 then
        if |s| < 2 then Truncated
        else
          var r := s[1];
          if Signed8(r) >= 0 then Target(Wrap(off + (r + 2)))
          else Target(Wrap(off - XorHigh24(Not(r)) + 1))
      else if s[0] == OPCODE_JMP_REL32 || s[0] == OPCODE_CALL then
        if |s| < 5 then Truncated
        else
          var r := FromLe32(s[1..]);
          if Signed32(r) >= 0 then Target(Wrap(off + Wrap(r + 5)))
          else Target(Wrap(off - Wrap(Not(r) - 4)))
      else NotBranch
  }

  lemma XorHigh24OfComplementedByte(b: byte)
    ensures XorHigh24(Not(b)) == 0xFF - b
  {
    assert Not(b) == 0xFF_FFFF * 0x100 + (0xFF - b);
  }

  lemma WrapAddWrap(a: int, b: int)
    ensures Wrap(a + Wrap(b)) == Wrap(a + b)
    ensures Wrap(a - Wrap(b)) == Wrap(a - b)
  {
    var k := b / TWO32;
    assert Wrap(b) == b - k * TWO32;
    assert a + Wrap(b) == (a + b) + (-k) * TWO32;
    assert a - Wrap(b) == (a - b) + k * TWO32;
    WrapShift(a + b, -k);
    WrapShift(a - b, k);
  }

  lemma WrapShift(x: int, k: int)
    ensures Wrap(x + k * TWO32) == Wrap(x)
  {
  }

  /** Branch targets: whatever the sign of the displacement, the source's two
      complement formulas compute `offset + length + displacement` modulo 2^32. */
  lemma {:induction false} BranchTargetIsRelative(buff: seq<byte>, off: u32)
    requires off < |buff| && FormOf(buff[off..]).Some?
    requires off + FormLength(FormOf(buff[off..]).value) <= |buff|
    ensures var f := FormOf(buff[off..]).value;
            GetBranchOffset(buff, off)
              == Target(Wrap(off + FormLength(f) + SignedDisp(buff[off..], f)))
  {
    var s := buff[off..];
    var f := FormOf(s).value;
    match f
    case LongJcc =>
      var r := FromLe32(s[2..]);
      if Signed32(r) >= 0 {
        WrapAddWrap(off, r as int + 6);
      } else {
        WrapAddWrap(off, Not(r) - 5);
        assert off - (Not(r) - 5) == off + 6 + Signed32(r);
      }
    case ShortJcc =>
      ShortTarget(s, off);
    case JmpRel8 =>
      ShortTarget(s, off);
    case JmpRel32 =>
      NearTarget(s, off);
    case CallRel32 =>
      NearTarget(s, off);
  }

  lemma ShortTarget(s: seq<byte>, off: u32)
    requires |s| >= 2
    ensures Signed8(s[1]) >= 0 ==> Wrap(off + (s[1] + 2)) == Wrap(off + 2 + Signed8(s[1]))
    ensures Signed8(s[1]) < 0 ==> Wrap(off - XorHigh24(Not(s[1])) + 1) == Wrap(off + 2 + Signed8(s[1]))
  {
    XorHigh24OfComplementedByte(s[1]);
  }

  lemma NearTarget(s: seq<byte>, off: u32)
    requires |s| >= 5
    ensures var r := FromLe32(s[1..]);
            Signed32(r) >= 0 ==> Wrap(off + Wrap(r + 5)) == Wrap(off + 5 + Signed32(r))
    ensures var r := FromLe32(s[1..]);
            Signed32(r) < 0 ==> Wrap(off - Wrap(Not(r) - 4)) == Wrap(off + 5 + Signed32(r))
  {
    var r := FromLe32(s[1..]);
    WrapAddWrap(off, r as int + 5);
    WrapAddWrap(off, Not(r) - 4);
    assert Signed32(r) < 0 ==> off - (Not(r) - 4) == off + 5 + Signed32(r);
  }

  /** LOOP opcodes are classified as conditional jumps but have no decodable
      branch form, so decoding their target takes the abort path; every other
      jump, conditional jump or call has a form, and nothing else does. */
  lemma ClassifierAgreesWithDecoder(s: seq<byte>)
    requires |s| >= 1
    ensures FormOf(s).Some? <==> GetNodeType(s) in {Jmp, Jcc, Call} && !IsLoop(s)
    ensures IsLoop(s) ==> GetNodeType(s) == Jcc && FormOf(s).None?
  {
  }
}
