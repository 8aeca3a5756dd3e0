/** The node records of the code graph and the pure facts about them: the
    arena of records, the byte image a layout produces, and relocation
    (x86code-modifier/src/cgp.c:37-56, 491-600). A node is addressed by its
    index in the arena of every record ever allocated; the `nodes[]` slot
    array of the source is a sequence of such addresses, where a removed node
    leaves `Null` behind. */
module Arena {
  import opened Words
  import opened Wrappers
  import opened Classify
  import opened Encoding

  const INVALID_OFFSET: u32 := 0xFFFF_FFFF
  const STACK_LIMIT: nat := 0x1000
  const CODE_BUFFER_LIMIT: nat := 0x1_0000

  /** A `pNode`: NULL or the address of a record in the arena. */
  datatype Ptr = Null | Ref(id: nat)

  /** `struct node`. `data` is the allocated buffer; `weight` is how many of
      its bytes are the instruction. */
  datatype Node = Node(kind: NodeType, data: seq<byte>, weight: u32, offset: u32,
                       blink: Ptr, flink: Ptr, clink: Ptr)

  /** A record fresh from `calloc`: every field zero or NULL. */
  const BLANK: Node := Node(Line, [], 0, 0, Null, Null, Null)

  /** `E9 CC CC CC CC`, the unpatched near jump of the link nodes. */
  const LINK_JMP: seq<byte> := [OPCODE_JMP_REL32] + CC4

  predicate PtrIn(p: Ptr, n: nat) {
    p.Ref? ==> p.id < n
  }

  /** Every link of every record stays inside the arena. */
  predicate Closed(heap: seq<Node>) {
    forall i :: 0 <= i < |heap| ==>
      PtrIn(heap[i].blink, |heap|) && PtrIn(heap[i].flink, |heap|) && PtrIn(heap[i].clink, |heap|)
  }

  /** Every slot is NULL or an address in the arena. */
  predicate SlotsIn(nodes: seq<Ptr>, n: nat) {
    forall i :: 0 <= i < |nodes| ==> PtrIn(nodes[i], n)
  }

  /** No record sits in two slots. */
  predicate DistinctSlots(nodes: seq<Ptr>) {
    forall i, j :: 0 <= i < |nodes| && 0 <= j < |nodes| && i != j && nodes[i].Ref? ==> nodes[i] != nodes[j]
  }

  /** Slot `i` holds a node placed at `off`. */
  predicate SlotAt(heap: seq<Node>, nodes: seq<Ptr>, i: nat, off: u32)
    requires i < |nodes| && SlotsIn(nodes, |heap|)
  {
    nodes[i].Ref? && heap[nodes[i].id].offset == off
  }

  /** Rewriting one record with links inside the arena keeps the arena closed. */
  lemma ClosedUpdate(heap: seq<Node>, j: nat, n: Node)
    requires Closed(heap) && j < |heap|
    requires PtrIn(n.blink, |heap|) && PtrIn(n.flink, |heap|) && PtrIn(n.clink, |heap|)
    ensures Closed(heap[j := n])
  {
  }

  /** Copying a node's instruction out of its buffer stays inside the buffer. */
  predicate Sized(n: Node) {
    n.weight <= |n.data|
  }

  /** The bytes the layout copies for a node: the first `weight` bytes of its
      buffer. */
  function Chunk(n: Node): (r: seq<byte>)
    requires Sized(n)
    ensures |r| == n.weight
  {
    n.data[..n.weight]
  }

  /** Two arenas that differ at most in links. */
  predicate SameRecords(h: seq<Node>, h': seq<Node>) {
    |h| == |h'|
    && forall i :: 0 <= i < |h| ==>
         h'[i].kind == h[i].kind && h'[i].data == h[i].data
         && h'[i].weight == h[i].weight && h'[i].offset == h[i].offset
  }

  /** Byte strings laid end to end. */
  function Concat(cs: seq<seq<byte>>): (r: seq<byte>)
    ensures cs == [] ==> r == []
  {
    if cs == [] then [] else Concat(cs[..|cs| - 1]) + cs[|cs| - 1]
  }

  /** In a concatenation, each piece starts right after the pieces before it. */
  lemma {:induction false} ConcatAt(cs: seq<seq<byte>>, k: nat)
    requires k < |cs|
    ensures |Concat(cs[..k])| + |cs[k]| <= |Concat(cs)|
    ensures Concat(cs)[|Concat(cs[..k])|..|Concat(cs[..k])| + |cs[k]|] == cs[k]
    decreases |cs|
  {
    var init := cs[..|cs| - 1];
    if k == |cs| - 1 {
      assert cs[..k] == init;
    } else {
      assert init[..k] == cs[..k];
      ConcatAt(init, k);
      var a := |Concat(cs[..k])|;
      assert Concat(cs)[a..a + |cs[k]|] == Concat(init)[a..a + |cs[k]|];
    }
  }

  /** Appending a piece appends its bytes. */
  lemma ConcatSnoc(cs: seq<seq<byte>>, c: seq<byte>)
    ensures Concat(cs + [c]) == Concat(cs) + c
  {
    assert (cs + [c])[..|cs|] == cs;
  }

  /** Rewriting the record just appended. */
  lemma AppendUpdate(h: seq<Node>, n: Node, n': Node)
    ensures (h + [n])[|h| := n'] == h + [n']
  {
  }

  /** Appending a piece keeps the concatenation of every earlier prefix. */
  lemma ConcatPrefix(cs: seq<seq<byte>>, c: seq<byte>, k: nat)
    requires k <= |cs|
    ensures (cs + [c])[..k] == cs[..k]
  {
  }

  // ---- relocation --------------------------------------------------------

  /** What `cgp_write_offset` does with a buffer: leave it (return 0), patch
      it (return 1), or write outside it, which the C code does not guard. */
  datatype Patched = Unchanged | Written(buff: seq<byte>) | OutOfBounds

  /** Whether the form is a JMP, whose target is the fall-through link. */
  predicate IsJmpForm(f: BranchForm) {
    f == JmpRel8 || f == JmpRel32
  }

  /** cgp_write_offset (x86code-modifier/src/cgp.c:491-600). The form is read
      from the output buffer at the node's position. A JMP is patched when its
      FLink is placed, towards its CLink if it has one (the temporary link swap)
      and else its FLink; a Jcc or CALL is patched towards its placed CLink. */
  function Relocation(heap: seq<Node>, p: Ptr, b: seq<byte>): (r: Patched)
    requires Closed(heap) && PtrIn(p, |heap|)
    ensures r.Written? ==> |r.buff| == |b|
  {
    if p.Null? || heap[p.id].offset == INVALID_OFFSET then Unchanged
    else
      var n := heap[p.id];
      if n.offset >= |b| then OutOfBounds
      else match FormOf(b[n.offset..])
        case None => Unchanged
        case Some(f) =>
          var guard := if IsJmpForm(f) then n.flink else n.clink;
          if guard.Null? || heap[guard.id].offset == INVALID_OFFSET then Unchanged
          else if n.offset + FormLength(f) > |b| then OutOfBounds
          else
            var target := if IsJmpForm(f) && n.clink.Ref? then n.clink else guard;
            Written(Patch(b, f, n.offset, heap[target.id].offset))
  }

  /** The link a patched branch now reaches. */
  function RelocationTarget(heap: seq<Node>, id: nat, f: BranchForm): Ptr
    requires id < |heap|
  {
    var n := heap[id];
    if IsJmpForm(f) then (if n.clink.Ref? then n.clink else n.flink) else n.clink
  }

  /** Relocation and decoding agree: after a branch is patched, decoding it
      gives the position of the node it was patched towards (for a rel8 form,
      when that node is within a signed byte of the next instruction). Only
      the displacement field changes. */
  lemma RelocationReachesTarget(heap: seq<Node>, id: nat, b: seq<byte>)
    requires Closed(heap) && id < |heap|
    requires Relocation(heap, Ref(id), b).Written?
    ensures var n := heap[id];
            var f := FormOf(b[n.offset..]).value;
            var t := RelocationTarget(heap, id, f);
            var b' := Relocation(heap, Ref(id), b).buff;
            t.Ref? && FormOf(b'[n.offset..]) == Some(f)
            && (forall k :: 0 <= k < |b| && !(n.offset + DispPos(f) <= k < n.offset + FormLength(f)) ==> b'[k] == b[k])
            && (DispWidth(f) == 4 || -0x80 <= heap[t.id].offset - (n.offset + FormLength(f)) < 0x80
                ==> GetBranchOffset(b', n.offset) == Target(heap[t.id].offset))
  {
    var n := heap[id];
    var f := FormOf(b[n.offset..]).value;
    var t := RelocationTarget(heap, id, f);
    PatchKeepsForm(b, f, n.offset, heap[t.id].offset);
    if DispWidth(f) == 4 || -0x80 <= heap[t.id].offset - (n.offset + FormLength(f)) < 0x80 {
      PatchThenDecode(b, f, n.offset, heap[t.id].offset);
    }
  }

  /** The branch nodes `cgp_build` and `cgp_build_spaghetti` relocate. */
  predicate IsBranchKind(k: NodeType) {
    k == Jmp || k == Jcc || k == Call
  }

  /** The relocation pass: `cgp_write_offset` on every live JMP, Jcc and CALL
      node in slot order, or None when one of them would write outside the buffer. */
  function RelocateAll(heap: seq<Node>, nodes: seq<Ptr>, b: seq<byte>): (r: Option<seq<byte>>)
    requires Closed(heap) && SlotsIn(nodes, |heap|)
    ensures r.Some? ==> |r.value| == |b|
  {
    if nodes == [] then Some(b)
    else
      match RelocateAll(heap, nodes[..|nodes| - 1], b)
      case None => None
      case Some(b1) => RelocateSlot(heap, nodes[|nodes| - 1], b1)
  }

  /** The relocation of one slot: a JMP, Jcc or CALL node goes through
      `cgp_write_offset`, anything else is skipped. */
  function RelocateSlot(heap: seq<Node>, p: Ptr, b: seq<byte>): (r: Option<seq<byte>>)
    requires Closed(heap) && PtrIn(p, |heap|)
    ensures r.Some? ==> |r.value| == |b|
  {
    if p.Null? || !IsBranchKind(heap[p.id].kind) then Some(b)
    else match Relocation(heap, p, b)
      case OutOfBounds => None
      case Unchanged => Some(b)
      case Written(b2) => Some(b2)
  }

  /** The relocation pass over the first `i + 1` slots is the pass over the
      first `i` followed by slot `i`. */
  lemma RelocateAllStep(heap: seq<Node>, nodes: seq<Ptr>, b: seq<byte>, i: nat)
    requires Closed(heap) && SlotsIn(nodes, |heap|) && i < |nodes|
    ensures RelocateAll(heap, nodes[..i + 1], b)
            == match RelocateAll(heap, nodes[..i], b)
               case None => None
               case Some(b1) => RelocateSlot(heap, nodes[i], b1)
  {
    assert nodes[..i + 1][..i] == nodes[..i];
  }

  /** A byte inside the instruction of a node placed at `off`: relocation only
      ever rewrites the bytes after a branch's opcode. */
  predicate InsideBranch(heap: seq<Node>, nodes: seq<Ptr>, k: int)
    requires SlotsIn(nodes, |heap|)
  {
    exists i :: 0 <= i < |nodes| && nodes[i].Ref? && IsBranchKind(heap[nodes[i].id].kind)
                && heap[nodes[i].id].offset < k < heap[nodes[i].id].offset + 6
  }

  /** The relocation pass leaves every byte that is not inside a relocated
      branch as it was: opcodes and the code between branches are kept. */
  lemma {:induction false} RelocateAllFrame(heap: seq<Node>, nodes: seq<Ptr>, b: seq<byte>, k: int)
    requires Closed(heap) && SlotsIn(nodes, |heap|)
    requires RelocateAll(heap, nodes, b).Some?
    requires 0 <= k < |b| && !InsideBranch(heap, nodes, k)
    ensures RelocateAll(heap, nodes, b).value[k] == b[k]
    decreases |nodes|
  {
    if nodes != [] {
      var init := nodes[..|nodes| - 1];
      assert forall i :: 0 <= i < |init| ==> init[i] == nodes[i];
      RelocateAllFrame(heap, init, b, k);
      var b1 := RelocateAll(heap, init, b).value;
      var p := nodes[|nodes| - 1];
      if p.Ref? && IsBranchKind(heap[p.id].kind) && Relocation(heap, p, b1).Written? {
        var n := heap[p.id];
        var f := FormOf(b1[n.offset..]).value;
        assert !(n.offset < k < n.offset + 6) by {
          assert nodes[|nodes| - 1] == p;
        }
        RelocationReachesTarget(heap, p.id, b1);
      }
    }
  }

  /** Once a relocation would write outside the buffer, the whole pass fails. */
  lemma {:induction false} RelocateAllStops(heap: seq<Node>, nodes: seq<Ptr>, b: seq<byte>, k: nat)
    requires Closed(heap) && SlotsIn(nodes, |heap|) && k <= |nodes|
    requires RelocateAll(heap, nodes[..k], b).None?
    ensures RelocateAll(heap, nodes, b).None?
    decreases |nodes| - k
  {
    if k < |nodes| {
      assert nodes[..k + 1][..k] == nodes[..k];
      RelocateAllStops(heap, nodes, b, k + 1);
    } else {
      assert nodes[..k] == nodes;
    }
  }
}
