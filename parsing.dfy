/** What `cgp_parse` builds (x86code-modifier/src/cgp.c:602-834), stated on
    the arena: which records are decoded instructions, what each of them holds,
    and the external length decoder it relies on. */
module Parsing {
  import opened Words
  import opened Wrappers
  import opened Classify
  import opened Encoding
  import opened Arena

  /** `GetInstructionSize` on the bytes from the cursor to the end of the
      input: the instruction length, or None when the decoder fails. */
  type Decoder = seq<byte> -> Option<u32>

  /** The length decoder gives every relative branch its architectural length. */
  ghost predicate CanonicalDecoder(lde: Decoder) {
    forall s :: lde(s).Some? && FormOf(s).Some? ==> lde(s).value == FormLength(FormOf(s).value)
  }

  /** How `cgp_parse` ends: the traversal finished, or one of the places
      where the source aborts or reads or writes outside a buffer. */
  datatype ParseOutcome =
    | Parsed
    | DecodeFailed(at: u32)     // `GetInstructionSize` failed: exit(1)
    | Unsupported(at: u32)      // a branch without a decodable target (LOOP): exit(0)
    | ReadPastEnd(at: u32)      // the instruction runs past the end of the input
    | DataOverflow(at: u32)     // a Jcc longer than its 10-byte buffer
    | CallOutOfScope            // a CALL whose continuation is outside the input: exit(1)
    | StackFull                 // the worklist assertion
    | OutOfFuel                 // the traversal did not finish within the bound

  /** A record made from an input instruction, as opposed to the JMP link
      nodes and labels the traversal adds. */
  predicate Decoded(n: Node) {
    n.kind != Jmp && n.kind != Label
  }

  /** The 10-byte buffer of a Jcc node: the long form of the same condition
      with a placeholder displacement (the rest of the buffer is not written
      by the source; it is zero here). */
  function JccImage(s: seq<byte>): (r: seq<byte>)
    requires IsLongJcc(s) || IsShortJcc(s)
    ensures |r| == 10 && IsLongJcc(r) && r[2..6] == CC4
  {
    [0x0F, if IsShortJcc(s) then s[0] + 0x10 else s[1]] + CC4 + [0, 0, 0, 0]
  }

  /** A decoded record placed at `offset` holds the instruction found there:
      its kind is the classification of the bytes, a LINE or RET holds the
      bytes themselves, a CALL holds `E8` and a placeholder, a Jcc holds the
      long form of its condition. */
  predicate HoldsSource(n: Node, buff: seq<byte>) {
    n.offset < |buff|
    && var s := buff[n.offset..];
    n.kind == GetNodeType(s)
    && match n.kind
       case Line => n.weight <= |s| && n.data == s[..n.weight]
       case Ret => n.weight <= |s| && n.data == s[..n.weight]
       case Call => n.weight == 5 && n.data == [OPCODE_CALL] + CC4
       case Jcc => (IsLongJcc(s) || IsShortJcc(s)) && n.weight == 6 && n.data == JccImage(s)
       case _ => false
  }

  /** The graph while and after `cgp_parse` runs: nothing has been removed,
      the first record is the first node, every decoded record still at its
      position holds the instruction found there, no two decoded records share
      a position, every JMP record is a link node and every label is empty. */
  predicate ParseShape(heap: seq<Node>, nodes: seq<Ptr>, first: Ptr, buff: seq<byte>) {
    |nodes| == |heap|
    && (forall i :: 0 <= i < |nodes| ==> nodes[i] == Ref(i))
    && first == (if heap == [] then Null else Ref(0))
    && (forall i :: 0 <= i < |heap| && Decoded(heap[i]) && heap[i].offset != INVALID_OFFSET ==>
          HoldsSource(heap[i], buff))
    && (forall i :: 0 <= i < |heap| && heap[i].kind == Jmp ==> heap[i].data == LINK_JMP && heap[i].weight == 5)
    && (forall i :: 0 <= i < |heap| && heap[i].kind == Label ==> heap[i].data == [] && heap[i].weight == 0)
    && (forall i, j ::
          (0 <= i < |heap| && 0 <= j < |heap| && i != j && Decoded(heap[i]) && Decoded(heap[j])
           && heap[i].offset != INVALID_OFFSET) ==> heap[i].offset != heap[j].offset)
  }

  /** Relinking records never disturbs the shape. */
  lemma ShapeIgnoresLinks(h: seq<Node>, h': seq<Node>, nodes: seq<Ptr>, first: Ptr, buff: seq<byte>)
    requires ParseShape(h, nodes, first, buff) && SameRecords(h, h')
    ensures ParseShape(h', nodes, first, buff)
  {
    assert h == [] <==> h' == [];
    forall i | 0 <= i < |h'| && Decoded(h'[i]) && h'[i].offset != INVALID_OFFSET
      ensures HoldsSource(h'[i], buff)
    {
      assert HoldsSource(h[i], buff);
    }
  }

  /** How a new node is attached to the one decoded before it: it becomes the
      FLink, except that a Jcc or CALL whose FLink is already set takes it as
      its CLink; a label takes nothing. */
  function Attach(n: Node, cur: nat): (r: Node)
    ensures r.kind == n.kind && r.data == n.data && r.weight == n.weight && r.offset == n.offset
    ensures r.blink == n.blink
    ensures n.kind == Label ==> r == n
    ensures n.kind != Label ==> (r.flink == Ref(cur) && r.clink == n.clink) || (r.flink == n.flink && r.clink == Ref(cur))
  {
    match n.kind
    case Line => n.(flink := Ref(cur))
    case Jmp => n.(flink := Ref(cur))
    case Ret => n.(flink := Ref(cur))
    case Jcc => if n.flink.Null? then n.(flink := Ref(cur)) else n.(clink := Ref(cur))
    case Call => if n.flink.Null? then n.(flink := Ref(cur)) else n.(clink := Ref(cur))
    case Label => n
  }

  /** A label record fresh from `cgp_allocate_node`. */
  const LABEL: Node := BLANK.(kind := Label)

  /** What the decoder's canonical lengths guarantee about one instruction. */
  predicate Fits(s: seq<byte>, n: nat) {
    n <= |s| && (FormOf(s).Some? ==> n == FormLength(FormOf(s).value))
  }

  /** A Jcc copied into its zeroed 10-byte buffer, widened and given the
      placeholder displacement, is the long form of its condition. */
  lemma WidenedJccImage(s: seq<byte>, n: nat)
    requires (IsLongJcc(s) || IsShortJcc(s)) && Fits(s, n)
    ensures CanWiden(Overwrite(Fill(0, 10), 0, s[..n]))
    ensures var w := ShortToLong(Overwrite(Fill(0, 10), 0, s[..n]), n);
            w.1 == 6 && |w.0| == 10 && Overwrite(w.0, 2, CC4) == JccImage(s)
  {
    var d := Overwrite(Fill(0, 10), 0, s[..n]);
    assert d[0] == s[0];
    var w := ShortToLong(d, n);
    if IsShortJcc(s) {
      assert n == 2 && d[1] == s[1];
      assert w.0 == [0x0F, s[0] + 0x10] + CC4 + [0, 0, 0, 0];
    } else {
      assert n == 6 && d[1] == s[1];
      assert Overwrite(w.0, 2, CC4) == [0x0F, s[1]] + CC4 + [0, 0, 0, 0];
    }
  }

  /** Relinking one record, or withdrawing a decoded record from its position,
      and appending a record that is not decoded keeps the shape. */
  lemma ShapeAfterRelink(h: seq<Node>, nodes: seq<Ptr>, first: Ptr, last: nat, n: Node, buff: seq<byte>)
    requires ParseShape(h, nodes, first, buff) && last < |h|
    requires n.kind == h[last].kind && n.data == h[last].data && n.weight == h[last].weight
    requires n.offset == h[last].offset || n.offset == INVALID_OFFSET
    ensures ParseShape(h[last := n] + [LABEL], nodes + [Ref(|h|)], first, buff)
  {
  }

  /** Pointing a record at a new link JMP appended after it keeps the shape. */
  lemma ShapeAfterLink(h: seq<Node>, nodes: seq<Ptr>, first: Ptr, last: nat, target: Ptr, buff: seq<byte>)
    requires ParseShape(h, nodes, first, buff) && last < |h|
    ensures ParseShape(h[last := h[last].(flink := Ref(|h|))] + [Node(Jmp, LINK_JMP, 5, 0, Ref(last), target, Null)],
                       nodes + [Ref(|h|)], first, buff)
  {
  }

  /** Attaching a decoded record that holds its source at a position no record
      has yet keeps the shape. */
  lemma NewShape(h: seq<Node>, nodes: seq<Ptr>, first: Ptr, last: Ptr, cur: nat, n: Node, buff: seq<byte>)
    requires ParseShape(h, nodes, first, buff) && PtrIn(last, |h|) && cur == |h|
    requires Closed(h) && n.flink.Null? && n.clink.Null? && PtrIn(n.blink, |h|)
    requires Decoded(n) && forall i :: 0 <= i < |h| ==> h[i].offset != n.offset
    ensures var h' := if last.Ref? then h[last.id := Attach(h[last.id], cur)] else h;
            Closed(h' + [n])
            && (HoldsSource(n, buff) ==> ParseShape(h' + [n], nodes + [Ref(cur)], if h == [] then Ref(cur) else first, buff))
  {
    var h' := if last.Ref? then h[last.id := Attach(h[last.id], cur)] else h;
    ShapeIgnoresLinks(h, h', nodes, first, buff);
    forall i | 0 <= i < |h' + [n]|
      ensures PtrIn((h' + [n])[i].blink, cur + 1) && PtrIn((h' + [n])[i].flink, cur + 1)
              && PtrIn((h' + [n])[i].clink, cur + 1)
    {
      if i < cur && last.Ref? && i == last.id {
        assert PtrIn(h[i].flink, cur) && PtrIn(h[i].clink, cur);
      } else if i < cur {
        assert (h' + [n])[i] == h[i];
      }
    }
    if HoldsSource(n, buff) {
      AppendDecoded(h', nodes, first, n, buff);
    }
  }

  /** Appending a decoded record that holds its source at a fresh position keeps the shape. */
  lemma AppendDecoded(h: seq<Node>, nodes: seq<Ptr>, first: Ptr, n: Node, buff: seq<byte>)
    requires ParseShape(h, nodes, first, buff) && Decoded(n) && HoldsSource(n, buff)
    requires forall i :: 0 <= i < |h| ==> h[i].offset != n.offset
    ensures ParseShape(h + [n], nodes + [Ref(|h|)], if h == [] then Ref(|h|) else first, buff)
  {
    var h2 := h + [n];
    forall i | 0 <= i < |h2| && Decoded(h2[i]) && h2[i].offset != INVALID_OFFSET
      ensures HoldsSource(h2[i], buff)
    {
      if i < |h| { assert h2[i] == h[i]; }
    }
    forall i, j | 0 <= i < |h2| && 0 <= j < |h2| && i != j && Decoded(h2[i]) && Decoded(h2[j])
                  && h2[i].offset != INVALID_OFFSET
      ensures h2[i].offset != h2[j].offset
    {
      if i < |h| && j < |h| {
        assert h2[i] == h[i] && h2[j] == h[j];
      } else if i < |h| {
        assert h2[i] == h[i];
      } else {
        assert h2[j] == h[j];
      }
    }
  }

  /** The buffer and weight `cgp_parse` gives the node of an instruction of
      length `n` at the start of `s`: a copy of the instruction (in a 10-byte
      buffer for a Jcc), widened and with a placeholder displacement for a Jcc
      or CALL. A LINE or RET keeps its bytes, a CALL becomes `E8 CC CC CC CC`,
      a Jcc the long form of its condition. */
  function NodeImage(s: seq<byte>, n: u32): (r: (seq<byte>, u32))
    requires |s| >= 1 && Fits(s, n) && GetNodeType(s) != Jmp
    requires GetNodeType(s) == Jcc ==> n <= 10
    ensures GetNodeType(s) in {Line, Ret} ==> r == (s[..n], n)
    ensures GetNodeType(s) == Call ==> r == ([OPCODE_CALL] + CC4, 5)
    ensures GetNodeType(s) == Jcc && !IsLoop(s) ==> r == (JccImage(s), 6)
  {
    var kind := GetNodeType(s);
    var d := Overwrite(if kind == Jcc then Fill(0, 10) else Fill(0, n), 0, s[..n]);
    if kind == Jcc then
      var w := ShortToLong(d, n);
      if !IsLoop(s) then WidenedJccImage(s, n); (Overwrite(w.0, 2, CC4), w.1)
      else (Overwrite(w.0, 2, CC4), w.1)
    else if kind == Call then
      assert d == s[..5] && d[0] == OPCODE_CALL;
      var w := ShortToLong(d, n);
      assert w == (d, 5);
      var r := Overwrite(w.0, 1, CC4);
      assert r == [OPCODE_CALL] + CC4 by {
        assert r[0] == OPCODE_CALL && r[1..5] == CC4;
      }
      (r, w.1)
    else
      assert d == s[..n];
      (d, n)
  }

  /** How a failed `cgp_get_branch_offset` ends the parse. */
  function BranchFailure(t: Target, at: u32): (r: ParseOutcome)
    requires !t.Target?
    ensures t.NotBranch? ==> r == Unsupported(at)
    ensures t.Truncated? ==> r == ReadPastEnd(at)
  {
    if t.NotBranch? then Unsupported(at) else ReadPastEnd(at)
  }

  /** Where one round of the traversal leaves it: at a position, with the
      node the next one attaches to, or finished. */
  datatype Cursor = Continue(offset: u32, last: Ptr) | Stop(outcome: ParseOutcome)
}
