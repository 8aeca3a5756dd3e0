/** What `cgp_build` and `cgp_build_spaghetti` lay out
    (x86code-modifier/src/cgp.c:836-1065): the records placed so far, in the
    order they were placed, each one's bytes right after the previous one's. */
module Layout {
  import opened Words
  import opened Wrappers
  import opened Classify
  import opened Arena

  /** How a build ends: the size of the code laid out, or the place where the
      source dereferences NULL, overruns a buffer or fails an assertion. */
  datatype BuildOutcome =
    | Built(size: nat)
    | NullLink          // a Jcc or CALL without CLink, or a JMP without FLink
    | BufferFull        // the cursor assertion, or a copy past the 64 KiB buffer
    | Unreadable        // a node whose weight exceeds its buffer
    | StackExhausted    // the worklist assertion
    | WriteOutOfBounds  // a relocation that would write past the buffer
    | TooManyNodes      // more slots than the generator can shuffle
    | SlotOverrun       // a 32-bit loop bound that wraps around and reads past the slot array
    | WalkUnfinished    // the walk did not finish within the bound

  /** Labels carry nothing: the parse creates them zeroed and nothing resizes them. */
  predicate LabelsBlank(heap: seq<Node>) {
    forall i :: 0 <= i < |heap| && heap[i].kind == Label ==> heap[i].data == [] && heap[i].weight == 0
  }

  /** Appending a record that is not a label keeps the labels blank. */
  lemma LabelsBlankAppend(heap: seq<Node>, n: Node)
    requires n.kind != Label
    ensures LabelsBlank(heap) ==> LabelsBlank(heap + [n])
  {
  }

  /** What `cgp_build` emits: `order` places every live node, `laid` holds
      their bytes, `size` bytes in all, and `out` is that image, padded with
      zeros, with every branch relocated. */
  ghost predicate Emitted(heap: seq<Node>, nodes: seq<Ptr>, order: seq<nat>, laid: seq<seq<byte>>, size: nat, out: seq<byte>) {
    Closed(heap) && SlotsIn(nodes, |heap|)
    && Laid(heap, order, laid) && size == |Concat(laid)| <= CODE_BUFFER_LIMIT
    && (forall i :: 0 <= i < |nodes| && nodes[i].Ref? ==> nodes[i].id in order)
    && RelocateAll(heap, nodes, Concat(laid) + Fill(0, CODE_BUFFER_LIMIT - size)) == Some(out)
  }

  /** Relinking records and appending LINE records keeps the labels blank. */
  lemma LabelsBlankGrow(heap: seq<Node>, heap': seq<Node>)
    requires |heap'| >= |heap| && SameRecords(heap, heap'[..|heap|])
    requires forall y :: |heap| <= y < |heap'| ==> heap'[y].kind == Line
    ensures LabelsBlank(heap) ==> LabelsBlank(heap')
  {
    forall i | 0 <= i < |heap| && LabelsBlank(heap)
      ensures heap'[i].kind == Label ==> heap'[i].data == [] && heap'[i].weight == 0
    {
      assert heap'[..|heap|][i] == heap'[i];
    }
  }

  /** `order` lists the records placed so far, each once, and `laid` their
      bytes: every one holds its buffer's first `weight` bytes, and its
      position is the total size of those placed before it. */
  predicate Laid(heap: seq<Node>, order: seq<nat>, laid: seq<seq<byte>>) {
    |laid| == |order|
    && (forall k {:trigger order[k]} :: 0 <= k < |order| ==>
          order[k] < |heap| && Sized(heap[order[k]]) && laid[k] == Chunk(heap[order[k]])
          && heap[order[k]].offset == |Concat(laid[..k])|)
    && (forall a, b :: 0 <= a < b < |order| ==> order[a] != order[b])
  }

  /** A prefix of a concatenation is no longer than a longer prefix. */
  lemma {:induction false} ConcatGrows(cs: seq<seq<byte>>, i: nat, j: nat)
    requires i <= j <= |cs|
    ensures |Concat(cs[..i])| <= |Concat(cs[..j])|
    decreases j - i
  {
    if i < j {
      ConcatGrows(cs, i, j - 1);
      assert cs[..j][..j - 1] == cs[..j - 1];
    }
  }

  /** Every placed record lies inside what has been laid out. */
  lemma LaidWithin(heap: seq<Node>, order: seq<nat>, laid: seq<seq<byte>>, k: nat)
    requires Laid(heap, order, laid) && k < |order|
    ensures heap[order[k]].offset + heap[order[k]].weight <= |Concat(laid)|
  {
    ConcatAt(laid, k);
  }

  /** The bytes laid out at a placed record's position are its instruction. */
  lemma LaidBytes(heap: seq<Node>, order: seq<nat>, laid: seq<seq<byte>>, k: nat)
    requires Laid(heap, order, laid) && k < |order|
    ensures var n := heap[order[k]];
            n.offset + n.weight <= |Concat(laid)|
            && Concat(laid)[n.offset..n.offset + n.weight] == n.data[..n.weight]
  {
    ConcatAt(laid, k);
  }

  /** Records placed one after the other never overlap: the earlier one ends
      at or before the later one starts. */
  lemma LaidDisjoint(heap: seq<Node>, order: seq<nat>, laid: seq<seq<byte>>, a: nat, b: nat)
    requires Laid(heap, order, laid) && a < b < |order|
    ensures heap[order[a]].offset + heap[order[a]].weight <= heap[order[b]].offset
  {
    assert laid[..a + 1] == laid[..a] + [laid[a]];
    assert laid[..a + 1][..a] == laid[..a];
    ConcatGrows(laid, a + 1, b);
  }

  /** Placing one more record right after the others keeps the layout. */
  lemma LaidAppend(heap: seq<Node>, order: seq<nat>, laid: seq<seq<byte>>, id: nat, at: u32)
    requires Laid(heap, order, laid) && id < |heap| && id !in order && Sized(heap[id])
    requires at == |Concat(laid)|
    ensures var h := heap[id := heap[id].(offset := at)];
            Laid(h, order + [id], laid + [Chunk(heap[id])])
  {
    var c := Chunk(heap[id]);
    forall k | 0 <= k <= |laid|
      ensures (laid + [c])[..k] == if k < |laid| then laid[..k] else laid
    {
      ConcatPrefix(laid, c, k);
    }
  }

  /** Relinking records keeps the layout. */
  lemma LaidIgnoresLinks(heap: seq<Node>, heap': seq<Node>, order: seq<nat>, laid: seq<seq<byte>>)
    requires Laid(heap, order, laid) && SameRecords(heap, heap')
    ensures Laid(heap', order, laid)
  {
  }

  /** Records appended to the arena keep the layout. */
  lemma LaidGrows(heap: seq<Node>, more: seq<Node>, order: seq<nat>, laid: seq<seq<byte>>)
    requires Laid(heap, order, laid)
    ensures Laid(heap + more, order, laid)
  {
  }

  /** The output buffer holds what has been laid out, and zeros after it
      (the buffer comes from `calloc`). */
  predicate Image(out: seq<byte>, laid: seq<seq<byte>>) {
    |Concat(laid)| <= |out| && out == Concat(laid) + Fill(0, |out| - |Concat(laid)|)
  }

  /** Copying the next piece at the end of what is laid out extends the image. */
  lemma ImageAppend(out: seq<byte>, laid: seq<seq<byte>>, c: seq<byte>)
    requires Image(out, laid) && |Concat(laid)| + |c| <= |out|
    ensures Image(Overwrite(out, |Concat(laid)|, c), laid + [c])
  {
    assert (laid + [c])[..|laid|] == laid;
    var o := Overwrite(out, |Concat(laid)|, c);
    var e := Concat(laid + [c]) + Fill(0, |out| - |Concat(laid + [c])|);
    assert |o| == |e|;
    forall k | 0 <= k < |o|
      ensures o[k] == e[k]
    {
    }
  }

  /** No placed record is at the invalid position while the layout fits in a
      32-bit range. */
  lemma LaidValid(heap: seq<Node>, order: seq<nat>, laid: seq<seq<byte>>)
    requires Laid(heap, order, laid) && |Concat(laid)| < INVALID_OFFSET
    ensures forall k :: 0 <= k < |order| ==> heap[order[k]].offset != INVALID_OFFSET
  {
    forall k | 0 <= k < |order|
      ensures heap[order[k]].offset != INVALID_OFFSET
    {
      LaidWithin(heap, order, laid, k);
    }
  }

  /** Every live slot has been placed, or is still waiting at the invalid position. */
  predicate Accounted(heap: seq<Node>, nodes: seq<Ptr>, order: seq<nat>)
    requires SlotsIn(nodes, |heap|)
  {
    forall i :: 0 <= i < |nodes| && nodes[i].Ref? ==>
      heap[nodes[i].id].offset == INVALID_OFFSET || nodes[i].id in order
  }

  /** Placing a record keeps every live slot accounted for. */
  lemma AccountedPlace(heap: seq<Node>, nodes: seq<Ptr>, order: seq<nat>, id: nat, at: u32)
    requires SlotsIn(nodes, |heap|) && Accounted(heap, nodes, order) && id < |heap|
    ensures SlotsIn(nodes, |heap[id := heap[id].(offset := at)]|)
    ensures Accounted(heap[id := heap[id].(offset := at)], nodes, order + [id])
  {
  }

  /** Relinking records, appending records and emptying slots keep every
      live slot accounted for. */
  lemma AccountedRelink(heap: seq<Node>, nodes: seq<Ptr>, order: seq<nat>, heap': seq<Node>, nodes': seq<Ptr>)
    requires SlotsIn(nodes, |heap|) && Accounted(heap, nodes, order)
    requires |heap| <= |heap'| && SameRecords(heap, heap'[..|heap|])
    requires |nodes'| == |nodes| && forall i :: 0 <= i < |nodes| ==> nodes'[i] == nodes[i] || nodes'[i].Null?
    ensures SlotsIn(nodes', |heap'|) && Accounted(heap', nodes', order)
  {
    forall i | 0 <= i < |nodes'| && nodes'[i].Ref?
      ensures heap'[nodes'[i].id].offset == heap[nodes'[i].id].offset
    {
      assert heap'[..|heap|][nodes'[i].id] == heap'[nodes'[i].id];
    }
  }

  /** A new slot holding a placed record is accounted for. */
  lemma AccountedNewSlot(heap: seq<Node>, nodes: seq<Ptr>, order: seq<nat>, j: nat)
    requires SlotsIn(nodes, |heap|) && Accounted(heap, nodes, order) && j < |heap| && j in order
    ensures SlotsIn(nodes + [Ref(j)], |heap|) && Accounted(heap, nodes + [Ref(j)], order)
  {
  }

  // ---- the spaghetti layout ----------------------------------------------

  /** The bytes `cgp_build_spaghetti` lays out for one slot: nothing for an
      empty slot, else the node's instruction followed by a 5-byte link JMP
      unless the node is a RET. */
  function Footprint(heap: seq<Node>, p: Ptr): nat
    requires PtrIn(p, |heap|)
  {
    if p.Null? then 0 else heap[p.id].weight + if heap[p.id].kind == Ret then 0 else 5
  }

  /** The bytes laid out for a run of slots. */
  function SpaghettiSize(heap: seq<Node>, slots: seq<Ptr>): nat
    requires SlotsIn(slots, |heap|)
  {
    if slots == [] then 0
    else SpaghettiSize(heap, slots[..|slots| - 1]) + Footprint(heap, slots[|slots| - 1])
  }

  /** The size of two runs of slots laid one after the other is the sum of
      their sizes. */
  lemma {:induction false} SpaghettiSizeAppend(heap: seq<Node>, u: seq<Ptr>, v: seq<Ptr>)
    requires SlotsIn(u, |heap|) && SlotsIn(v, |heap|)
    ensures SlotsIn(u + v, |heap|)
    ensures SpaghettiSize(heap, u + v) == SpaghettiSize(heap, u) + SpaghettiSize(heap, v)
    decreases |v|
  {
    assert forall i :: 0 <= i < |u + v| ==> (u + v)[i] == if i < |u| then u[i] else v[i - |u|];
    if v != [] {
      var w := v[..|v| - 1];
      assert (u + v)[..|u + v| - 1] == u + w;
      SpaghettiSizeAppend(heap, u, w);
    } else {
      assert u + v == u;
    }
  }

  /** Taking one slot out of a run removes exactly its footprint. */
  lemma SpaghettiSizeRemove(heap: seq<Node>, b: seq<Ptr>, k: nat)
    requires SlotsIn(b, |heap|) && k < |b|
    ensures SlotsIn(b[..k] + b[k + 1..], |heap|)
    ensures SpaghettiSize(heap, b) == SpaghettiSize(heap, b[..k] + b[k + 1..]) + Footprint(heap, b[k])
    ensures multiset(b[..k] + b[k + 1..]) == multiset(b) - multiset{b[k]}
  {
    var x := b[k];
    assert b == b[..k] + [x] + b[k + 1..];
    SpaghettiSizeAppend(heap, b[..k], [x]);
    SpaghettiSizeAppend(heap, b[..k] + [x], b[k + 1..]);
    SpaghettiSizeAppend(heap, b[..k], b[k + 1..]);
    assert [x][..0] == [];
    assert multiset(b) == multiset(b[..k] + [x]) + multiset(b[k + 1..]);
  }

  /** The size does not depend on the order of the slots: any permutation of
      them, such as the shuffle, lays out the same number of bytes. */
  lemma {:induction false} SpaghettiSizePermutes(heap: seq<Node>, a: seq<Ptr>, b: seq<Ptr>)
    requires SlotsIn(a, |heap|) && multiset(a) == multiset(b)
    ensures SlotsIn(b, |heap|) && SpaghettiSize(heap, a) == SpaghettiSize(heap, b)
    decreases |a|
  {
    forall i | 0 <= i < |b|
      ensures PtrIn(b[i], |heap|)
    {
      assert b[i] in multiset(a);
    }
    if a != [] {
      var x := a[|a| - 1];
      var init := a[..|a| - 1];
      assert a == init + [x];
      assert multiset(init) == multiset(a) - multiset{x};
      assert x in multiset(b);
      var k :| 0 <= k < |b| && b[k] == x;
      SpaghettiSizeRemove(heap, b, k);
      SpaghettiSizePermutes(heap, init, b[..k] + b[k + 1..]);
    } else {
      assert |b| == |multiset(b)| == 0;
    }
  }

  /** A prefix of a run of slots lays out no more than the whole run. */
  lemma SpaghettiSizePrefix(heap: seq<Node>, slots: seq<Ptr>, i: nat)
    requires SlotsIn(slots, |heap|) && i <= |slots|
    ensures SpaghettiSize(heap, slots[..i]) <= SpaghettiSize(heap, slots)
  {
    assert slots[..i] + slots[i..] == slots;
    SpaghettiSizeAppend(heap, slots[..i], slots[i..]);
  }

  /** Why `cgp_build_spaghetti` stops before the end of the slots `slots`
      of arena `hs`: some slot holds a node whose weight exceeds its buffer,
      or the entry JMP and the slots' footprints reach the end of the 64 KiB
      buffer. */
  predicate SpaghettiFailure(hs: seq<Node>, slots: seq<Ptr>, entry: Ptr, r: BuildOutcome)
    requires SlotsIn(slots, |hs|)
  {
    (r.Unreadable? ==> exists p :: p in slots && p.Ref? && p.id < |hs| && !Sized(hs[p.id]))
    && (r.BufferFull? ==> (if entry.Ref? then 5 else 0) + SpaghettiSize(hs, slots) >= CODE_BUFFER_LIMIT)
  }

  /** A failure at slot `i`, with the cursor after the earlier slots, is
      explained by the whole run of slots. */
  lemma SpaghettiFailureAt(hs: seq<Node>, slots: seq<Ptr>, i: nat, entry: Ptr, cursor: nat, r: BuildOutcome)
    requires SlotsIn(slots, |hs|) && i < |slots| && slots[i].Ref?
    requires cursor == (if entry.Ref? then 5 else 0) + SpaghettiSize(hs, slots[..i])
    requires r.Unreadable? ==> !Sized(hs[slots[i].id])
    requires r.BufferFull? ==> cursor + Footprint(hs, slots[i]) >= CODE_BUFFER_LIMIT
    ensures SpaghettiFailure(hs, slots, entry, r)
  {
    assert slots[..i + 1] == slots[..i] + [slots[i]];
    assert slots[..i + 1][..i] == slots[..i];
    SpaghettiSizePrefix(hs, slots, i + 1);
    assert slots[i] in slots;
  }

  /** The explanation does not depend on the order of the slots. */
  lemma SpaghettiFailurePermutes(hs: seq<Node>, a: seq<Ptr>, b: seq<Ptr>, entry: Ptr, r: BuildOutcome)
    requires SlotsIn(a, |hs|) && multiset(a) == multiset(b) && SlotsIn(b, |hs|)
    requires SpaghettiFailure(hs, b, entry, r)
    ensures SpaghettiFailure(hs, a, entry, r)
  {
    SpaghettiSizePermutes(hs, a, b);
    if r.Unreadable? {
      var p :| p in b && p.Ref? && p.id < |hs| && !Sized(hs[p.id]);
      assert p in multiset(b);
    }
  }

  /** A new link JMP placed at `at`, to be patched towards `f`. */
  function LinkAt(at: nat, b: Ptr, f: Ptr): Node
    requires at < TWO32
  {
    Node(Jmp, LINK_JMP, 5, at, b, f, Null)
  }

  /** `l` is a link JMP placed right after `n`, with `n`'s links. */
  predicate IsLinkAfter(l: Node, n: Node) {
    l.kind == Jmp && l.data == LINK_JMP && l.weight == 5 && l.offset == n.offset + n.weight
    && l.blink == n.blink && l.flink == n.flink && l.clink == Null
  }

  /** `cgp_build_spaghetti` after the first `i` of the shuffled `slots`: the
      records are those of `hs` but for their positions; every node of those
      slots lies before the cursor and after the nodes of earlier slots, and
      each one but a RET is followed right away by its link JMP in `links`. */
  ghost predicate SpaghettiSoFar(hs: seq<Node>, slots: seq<Ptr>, i: nat, heap: seq<Node>, cursor: nat, links: map<nat, nat>)
    requires SlotsIn(slots, |hs|) && i <= |slots|
  {
    |hs| <= |heap|
    && (forall y :: 0 <= y < |hs| ==> heap[y] == hs[y].(offset := heap[y].offset))
    && (forall j :: 0 <= j < i && slots[j].Ref? ==>
          heap[slots[j].id].offset + hs[slots[j].id].weight + (if hs[slots[j].id].kind == Ret then 0 else 5) <= cursor)
    && (forall j, k :: 0 <= j < k < i && slots[j].Ref? && slots[k].Ref? ==>
          heap[slots[j].id].offset + hs[slots[j].id].weight <= heap[slots[k].id].offset)
    && (forall j :: 0 <= j < i && slots[j].Ref? && hs[slots[j].id].kind != Ret ==>
          var n := heap[slots[j].id];
          slots[j].id in links && |hs| <= links[slots[j].id] < |heap|
          && IsLinkAfter(heap[links[slots[j].id]], n))
  }

  /** Placing the node of slot `i` at the cursor, and its link JMP right
      after it, extends the spaghetti layout by one slot. */
  lemma SpaghettiSoFarStep(hs: seq<Node>, slots: seq<Ptr>, i: nat, heap: seq<Node>, cursor: nat, links: map<nat, nat>,
                           heap': seq<Node>, links': map<nat, nat>)
    requires SlotsIn(slots, |hs|) && DistinctSlots(slots) && i < |slots|
    requires SpaghettiSoFar(hs, slots, i, heap, cursor, links)
    requires slots[i].Null? ==> heap' == heap && links' == links
    requires slots[i].Ref? ==>
               var n := heap[slots[i].id];
               cursor < TWO32 && cursor + n.weight < TWO32
               && (n.kind == Ret ==> heap' == heap[slots[i].id := n.(offset := cursor)] && links' == links)
               && (n.kind != Ret ==>
                     (heap' == heap[slots[i].id := n.(offset := cursor)] + [LinkAt(cursor + n.weight, n.blink, n.flink)]
                      && links' == links[slots[i].id := |heap|]))
    ensures SpaghettiSoFar(hs, slots, i + 1, heap', cursor + Footprint(hs, slots[i]), links')
  {
    if slots[i].Ref? {
      var id := slots[i].id;
      forall j | 0 <= j < i && slots[j].Ref?
        ensures slots[j].id != id
      {
      }
    }
  }

  /** The spaghetti layout after the entry JMP and the first `i` slots: the
      cursor has advanced by the entry and the footprints of those slots, the
      entry JMP and the nodes of those slots are laid out and the nodes of the
      later slots are not, and the placed nodes are in slot order. */
  ghost predicate SpaghettiPrefix(hs: seq<Node>, slots: seq<Ptr>, i: nat, entry: Ptr, heap: seq<Node>,
                                  order: seq<nat>, cursor: nat, links: map<nat, nat>)
    requires SlotsIn(slots, |hs|) && i <= |slots|
  {
    cursor == (if entry.Ref? then 5 else 0) + SpaghettiSize(hs, slots[..i])
    && (entry.Ref? ==> |heap| > |hs| && heap[|hs|] == LinkAt(0, Null, entry) && |hs| in order)
    && (forall j :: i <= j < |slots| && slots[j].Ref? ==> slots[j].id !in order)
    && (forall j :: 0 <= j < i && slots[j].Ref? ==> slots[j].id in order)
    && SpaghettiSoFar(hs, slots, i, heap, cursor, links)
  }

  /** Record `id` of `heap` placed at `cursor`: its position is set, and unless
      it is a RET a link JMP with its backward and forward links is appended
      right after it and remembered in `links`. */
  ghost predicate Placed(heap: seq<Node>, id: nat, cursor: nat, heap': seq<Node>,
                         order: seq<nat>, order': seq<nat>, links: map<nat, nat>, links': map<nat, nat>)
    requires id < |heap|
  {
    var n := heap[id];
    cursor + n.weight < TWO32
    && (n.kind == Ret ==>
          heap' == heap[id := n.(offset := cursor)] && links' == links && order' == order + [id])
    && (n.kind != Ret ==>
          heap' == heap[id := n.(offset := cursor)] + [LinkAt(cursor + n.weight, n.blink, n.flink)]
          && links' == links[id := |heap|] && order' == order + [id, |heap|])
  }

  /** Skipping an empty slot, or placing the node of slot `i` at the cursor
      (followed by its link JMP unless it is a RET), extends the prefix by one
      slot. */
  lemma SpaghettiPrefixStep(hs: seq<Node>, slots: seq<Ptr>, i: nat, entry: Ptr, heap: seq<Node>,
                            order: seq<nat>, cursor: nat, links: map<nat, nat>,
                            heap': seq<Node>, order': seq<nat>, cursor': nat, links': map<nat, nat>)
    requires SlotsIn(slots, |hs|) && DistinctSlots(slots) && i < |slots|
    requires SpaghettiPrefix(hs, slots, i, entry, heap, order, cursor, links)
    requires cursor' == cursor + Footprint(hs, slots[i])
    requires slots[i].Null? ==> heap' == heap && links' == links && order' == order
    requires slots[i].Ref? ==> slots[i].id < |heap| && Placed(heap, slots[i].id, cursor, heap', order, order', links, links')
    ensures SpaghettiPrefix(hs, slots, i + 1, entry, heap', order', cursor', links')
  {
    assert slots[..i + 1] == slots[..i] + [slots[i]];
    SpaghettiSoFarStep(hs, slots, i, heap, cursor, links, heap', links');
    forall j | i + 1 <= j < |slots| && slots[j].Ref?
      ensures slots[j].id !in order'
    {
      assert slots[j] != slots[i];
    }
  }

  /** What `cgp_build_spaghetti` lays out from the shuffled `slots` of the
      arena `hs`: an entry JMP to the first node at position 0 when there is
      one, then every live node of the slots in slot order, each but a RET
      followed by its link JMP; `size` bytes in all. */
  ghost predicate SpaghettiLayout(hs: seq<Node>, slots: seq<Ptr>, entry: Ptr, heap: seq<Node>,
                                  order: seq<nat>, laid: seq<seq<byte>>, size: nat, links: map<nat, nat>)
    requires SlotsIn(slots, |hs|)
  {
    Laid(heap, order, laid) && size == |Concat(laid)| <= CODE_BUFFER_LIMIT
    && size == (if entry.Ref? then 5 else 0) + SpaghettiSize(hs, slots)
    && (entry.Ref? ==> |heap| > |hs| && heap[|hs|] == LinkAt(0, Null, entry) && |hs| in order)
    && (forall i :: 0 <= i < |slots| && slots[i].Ref? ==> slots[i].id in order)
    && SpaghettiSoFar(hs, slots, |slots|, heap, size, links)
  }

  /** A prefix that covers every slot is the whole layout. */
  lemma SpaghettiPrefixComplete(hs: seq<Node>, slots: seq<Ptr>, entry: Ptr, heap: seq<Node>,
                                order: seq<nat>, laid: seq<seq<byte>>, size: nat, links: map<nat, nat>)
    requires SlotsIn(slots, |hs|) && SpaghettiPrefix(hs, slots, |slots|, entry, heap, order, size, links)
    requires Laid(heap, order, laid) && size == |Concat(laid)| <= CODE_BUFFER_LIMIT
    ensures SpaghettiLayout(hs, slots, entry, heap, order, laid, size, links)
  {
    assert slots[..|slots|] == slots;
  }
}
