/** Branch encodings: widening and narrowing of a node's instruction bytes
    (`cgp_short2long`, `cgp_long2short`) and the displacement arithmetic of
    `cgp_write_offset` (x86code-modifier/src/cgp.c:454-600). */
module Encoding {
  import opened Words
  import opened Wrappers
  import opened Classify

  /** The unpatched 4-byte displacement. */
  const CC4: seq<byte> := [PLACEHOLDER, PLACEHOLDER, PLACEHOLDER, PLACEHOLDER]

  /** What `cgp_short2long` needs of the node's data buffer: it writes up to
      five bytes of a short JMP and six of a short Jcc. */
  predicate CanWiden(data: seq<byte>) {
    |data| >= 1
    && (data[0] == OPCODE_JMP_REL8 ==> |data| >= 5)
    && (0x70 <= data[0] <= 0x7F ==> |data| >= 6)
  }

  /** cgp_short2long on a node's data buffer and weight: `EB` becomes
      `E9 CC CC CC CC` (weight 5), `7x` becomes `0F 7x+10 CC CC CC CC` (weight 6),
      anything else is left alone. */
  function ShortToLong(data: seq<byte>, weight: u32): (r: (seq<byte>, u32))
    requires CanWiden(data)
    ensures |r.0| == |data|
  {
    if data[0] == OPCODE_JMP_REL8 then (Overwrite(data, 0, [OPCODE_JMP_REL32] + CC4), 5)
    else if 0x70 <= data[0] <= 0x7F then (Overwrite(data, 0, [0x0F, data[0] + 0x10] + CC4), 6)
    else (data, weight)
  }

  /** What `cgp_long2short` needs: it reads or writes the second byte of an
      `E9` or `0F` instruction. */
  predicate CanNarrow(data: seq<byte>) {
    |data| >= 1 && (data[0] == OPCODE_JMP_REL32 || data[0] == 0x0F ==> |data| >= 2)
  }

  /** cgp_long2short as written: `E9` becomes `EB CC` (weight 2); a `0F`
      instruction is narrowed only when its second byte is in 0x70..0x7F, which
      no long Jcc (`0F 80..8F`) satisfies. */
  function LongToShort(data: seq<byte>, weight: u32): (r: (seq<byte>, u32))
    requires CanNarrow(data)
    ensures |r.0| == |data|
  {
    if data[0] == OPCODE_JMP_REL32 then (Overwrite(data, 0, [OPCODE_JMP_REL8, PLACEHOLDER]), 2)
    else if data[0] == 0x0F && 0x70 <= data[1] <= 0x7F then (Overwrite(data, 0, [data[1] - 0x10, PLACEHOLDER]), 2)
    else (data, weight)
  }

  /** cgp_long2short as evidently intended: the guard tests the long Jcc range
      0x80..0x8F, and `0F 8x` becomes `7x CC`. */
  function LongToShortIntended(data: seq<byte>, weight: u32): (r: (seq<byte>, u32))
    requires CanNarrow(data)
    ensures |r.0| == |data|
  {
    if data[0] == OPCODE_JMP_REL32 then (Overwrite(data, 0, [OPCODE_JMP_REL8, PLACEHOLDER]), 2)
    else if data[0] == 0x0F && 0x80 <= data[1] <= 0x8F then (Overwrite(data, 0, [data[1] - 0x10, PLACEHOLDER]), 2)
    else (data, weight)
  }

  /** Widening never changes what kind of instruction a node holds, turns a
      short JMP or Jcc into the long form of the same branch with its weight set
      to that form's length and the displacement left as placeholder, and keeps
      every other instruction as it is. */
  lemma WidenKeepsBranch(data: seq<byte>, weight: u32)
    requires CanWiden(data)
    ensures var r := ShortToLong(data, weight);
            GetNodeType(r.0) == GetNodeType(data)
    ensures var r := ShortToLong(data, weight);
            data[0] == OPCODE_JMP_REL8 ==>
              FormOf(r.0) == Some(JmpRel32) && r.1 == FormLength(JmpRel32) && r.0[1..5] == CC4
    ensures var r := ShortToLong(data, weight);
            IsShortJcc(data) ==>
              FormOf(r.0) == Some(LongJcc) && r.1 == FormLength(LongJcc) && r.0[2..6] == CC4
              && r.0[1] - 0x80 == data[0] - 0x70
    ensures var r := ShortToLong(data, weight);
            data[0] != OPCODE_JMP_REL8 && !IsShortJcc(data) ==> r == (data, weight)
  {
    var r := ShortToLong(data, weight);
    if data[0] == OPCODE_JMP_REL8 {
      assert r.0[0] == OPCODE_JMP_REL32;
    } else if IsShortJcc(data) {
      assert r.0[0] == 0x0F && r.0[1] == data[0] + 0x10;
      assert IsLongJcc(r.0);
    }
  }

  /** Narrowing a widened short JMP gives back the short JMP, with weight 2
      and a placeholder displacement. */
  lemma NarrowAfterWidenJmp(data: seq<byte>, weight: u32)
    requires CanWiden(data) && data[0] == OPCODE_JMP_REL8
    ensures var w := ShortToLong(data, weight);
            var n := LongToShort(w.0, w.1);
            n.1 == 2 && n.0[..2] == [OPCODE_JMP_REL8, PLACEHOLDER] && n.0[2..] == w.0[2..]
  {
    var w := ShortToLong(data, weight);
    assert w.0[0] == OPCODE_JMP_REL32;
  }

  /** As written, narrowing leaves every long Jcc untouched. */
  lemma NarrowSkipsLongJcc(data: seq<byte>, weight: u32)
    requires IsLongJcc(data)
    ensures LongToShort(data, weight) == (data, weight)
  {
  }

  /** The counterexample: `74 05` (JE +5) widened to `0F 84 CC CC CC CC` stays
      6 bytes long when narrowed, while the intended narrowing restores `74 CC`. */
  lemma NarrowWidenedJeCounterexample()
    ensures var d: seq<byte> := [0x74, 0x05, 0, 0, 0, 0, 0, 0, 0, 0];
            var w := ShortToLong(d, 2);
            w.0[..6] == [0x0F, 0x84] + CC4
            && LongToShort(w.0, w.1) == w
            && LongToShortIntended(w.0, w.1).1 == 2
            && LongToShortIntended(w.0, w.1).0[..2] == [0x74, PLACEHOLDER]
  {
    var d: seq<byte> := [0x74, 0x05, 0, 0, 0, 0, 0, 0, 0, 0];
    var w := ShortToLong(d, 2);
    assert w.0[..6] == [0x0F, 0x84] + CC4;
  }

  /** With the intended guard, narrowing undoes widening for every short Jcc:
      the condition code comes back, the weight is the short form's length and
      the displacement is a placeholder. */
  lemma {:induction false} NarrowIntendedAfterWidenJcc(data: seq<byte>, weight: u32)
    requires CanWiden(data) && IsShortJcc(data)
    ensures var w := ShortToLong(data, weight);
            var n := LongToShortIntended(w.0, w.1);
            n.1 == FormLength(ShortJcc) && n.0[..2] == [data[0], PLACEHOLDER]
            && FormOf(n.0) == Some(ShortJcc) && n.0[2..6] == CC4
  {
    var w := ShortToLong(data, weight);
    assert w.0[..6] == [0x0F, data[0] + 0x10] + CC4;
    assert w.0[0] == 0x0F && w.0[1] == data[0] + 0x10;
    var n := LongToShortIntended(w.0, w.1);
    assert n.0 == Overwrite(w.0, 0, [data[0], PLACEHOLDER]);
    assert n.0[..2] == [data[0], PLACEHOLDER];
    assert n.0[2..6] == w.0[2..6] == CC4;
  }

  // ---- relocation -------------------------------------------------------

  /** The value `cgp_write_offset` stores in the displacement field of a branch
      of form `f` placed at `at` whose target is placed at `target`, with the
      source's two cases: a backward branch computes `~(at - target) - (len - 1)`,
      a forward one `target - at - len`; rel8 forms keep the low byte. */
  function DispAsWritten(f: BranchForm, at: u32, target: u32): (d: nat)
    ensures DispWidth(f) == 1 ==> d < 0x100
    ensures DispWidth(f) == 4 ==> d < TWO32
  {
    var len := FormLength(f);
    if DispWidth(f) == 4 then
      if at > target then Wrap(Not(Wrap(at - target)) - (len - 1)) else Wrap(target - at - len)
    else
      if at > target then Low8(Not(Wrap(at - target)) - 1) else Low8(target - at - 2)
  }

  /** The displacement written is `target - (at + length)` reduced to the
      field's width, whichever way the branch points. */
  lemma {:induction false} DispIsRelative(f: BranchForm, at: u32, target: u32)
    ensures DispWidth(f) == 4 ==> DispAsWritten(f, at, target) == Wrap(target - (at + FormLength(f)))
    ensures DispWidth(f) == 1 ==> DispAsWritten(f, at, target) == Low8(target - (at + FormLength(f)))
  {
    var len := FormLength(f);
    if at > target {
      assert Wrap(at - target) == at - target;
      assert Not(Wrap(at - target)) - (len - 1) == target - (at + len) + TWO32;
      LowShift(target - (at + len));
    }
  }

  /** Adding 2^32 changes neither the low byte nor the 32-bit word. */
  lemma LowShift(x: int)
    ensures Low8(x + TWO32) == Low8(x)
    ensures Wrap(x + TWO32) == Wrap(x)
  {
    Low8Shift(x, 0x100_0000);
    WrapShift(x, 1);
  }

  lemma Low8Shift(x: int, k: int)
    ensures Low8(x + k * TWO8) == Low8(x)
  {
  }

  /** The bytes of the displacement field for the value `d`. */
  function DispBytes(f: BranchForm, d: nat): (r: seq<byte>)
    requires d < (if DispWidth(f) == 4 then TWO32 else 0x100)
    ensures |r| == DispWidth(f)
  {
    if DispWidth(f) == 4 then Le32(d) else [d]
  }

  /** A buffer with the displacement of the branch at `at` patched to reach `target`. */
  function Patch(buff: seq<byte>, f: BranchForm, at: u32, target: u32): (r: seq<byte>)
    requires at + FormLength(f) <= |buff|
    ensures |r| == |buff|
  {
    Overwrite(buff, at + DispPos(f), DispBytes(f, DispAsWritten(f, at, target)))
  }

  /** Relocation and target decoding are inverse: after a branch is patched
      towards `target`, decoding it gives `target` back. A 4-byte form always
      reaches its target; a 1-byte form does when the distance fits a signed byte. */
  lemma {:induction false} PatchThenDecode(buff: seq<byte>, f: BranchForm, at: u32, target: u32)
    requires at + FormLength(f) <= |buff| && FormOf(buff[at..]) == Some(f)
    requires DispWidth(f) == 1 ==> -0x80 <= target - (at + FormLength(f)) < 0x80
    ensures GetBranchOffset(Patch(buff, f, at, target), at) == Target(target)
  {
    var p := Patch(buff, f, at, target);
    PatchKeepsForm(buff, f, at, target);
    BranchTargetIsRelative(p, at);
    DispIsRelative(f, at, target);
    if DispWidth(f) == 4 {
      WideDisp(buff, f, at, target);
    } else {
      NarrowDisp(buff, f, at, target);
    }
  }

  lemma PatchKeepsForm(buff: seq<byte>, f: BranchForm, at: u32, target: u32)
    requires at + FormLength(f) <= |buff| && FormOf(buff[at..]) == Some(f)
    ensures var p := Patch(buff, f, at, target);
            FormOf(p[at..]) == Some(f)
  {
    var p := Patch(buff, f, at, target);
    assert p[at..][0] == buff[at..][0];
    assert f == LongJcc ==> p[at..][1] == buff[at..][1];
  }

  lemma WideDisp(buff: seq<byte>, f: BranchForm, at: u32, target: u32)
    requires at + FormLength(f) <= |buff| && DispWidth(f) == 4
    requires DispAsWritten(f, at, target) == Wrap(target - (at + FormLength(f)))
    ensures var p := Patch(buff, f, at, target);
            Wrap(at + FormLength(f) + SignedDisp(p[at..], f)) == target
  {
    var p := Patch(buff, f, at, target);
    var d := DispAsWritten(f, at, target);
    var k := at + DispPos(f);
    assert p[k..k + 4] == Le32(d);
    assert p[at..][DispPos(f)..][..4] == p[k..k + 4];
    Le32ReadBack(p[at..][DispPos(f)..], d);
    assert SignedDisp(p[at..], f) == Signed32(d);
    RelativeWrap(at + FormLength(f), target, d);
  }

  lemma NarrowDisp(buff: seq<byte>, f: BranchForm, at: u32, target: u32)
    requires at + FormLength(f) <= |buff| && DispWidth(f) == 1
    requires -0x80 <= target - (at + FormLength(f)) < 0x80
    requires DispAsWritten(f, at, target) == Low8(target - (at + FormLength(f)))
    ensures var p := Patch(buff, f, at, target);
            Wrap(at + FormLength(f) + SignedDisp(p[at..], f)) == target
  {
    var p := Patch(buff, f, at, target);
    var d := DispAsWritten(f, at, target);
    assert p[at + 1] == d;
    assert p[at..][1] == d;
  }

  /** A 32-bit displacement that wraps `target - base` leads from `base` back to `target`. */
  lemma RelativeWrap(base: int, target: u32, d: u32)
    requires d == Wrap(target - base)
    ensures Wrap(base + Signed32(d)) == target
  {
    var q := (target - base) / TWO32;
    assert d == target - base - q * TWO32;
    if d < 0x8000_0000 {
      assert base + Signed32(d) == target + (-q) * TWO32;
      WrapShift(target, -q);
    } else {
      assert base + Signed32(d) == target + (-q - 1) * TWO32;
      WrapShift(target, -q - 1);
    }
  }
}
