/** The code graph processor's session: the globals of
    x86code-modifier/src/cgp.c:47-56 and every operation that updates them. */
module Cgp {
  import opened Words
  import opened Wrappers
  import opened Classify
  import opened Encoding
  import opened Arena
  import opened Lcg
  import opened Parsing
  import opened Layout

  /** Exchanging two slots keeps every slot inside the arena and no record
      in two slots. */
  lemma SwapKeepsSlots(s: seq<Ptr>, i: nat, j: nat, n: nat)
    requires i < |s| && j < |s| && SlotsIn(s, n) && DistinctSlots(s)
    ensures SlotsIn(Swap(s, i, j), n) && DistinctSlots(Swap(s, i, j))
  {
    var t := Swap(s, i, j);
    forall a | 0 <= a < |t|
      ensures t[a] == s[if a == j then i else if a == i then j else a]
    {
    }
  }

  /** The NOP record `cgp_add_reduntant_nop` puts after record `a` whose
      successor was `f`. */
  function Nop(a: nat, f: Ptr): Node {
    Node(Line, [OPCODE_NOP], 1, 0, Ref(a), f, Null)
  }

  /** Record `j` once a NOP record `x` was put after record `a`, whose old
      successor was `f`: `a` falls through to the NOP, and a record that `a`
      fell through to links back to it. */
  function Relinked(n: Node, j: nat, a: nat, x: nat, f: Ptr): Node {
    if j == a then n.(flink := Ref(x), blink := if f == Ref(a) then Ref(x) else n.blink)
    else n.(blink := if Ref(j) == f then Ref(x) else n.blink)
  }

  /** The first `k` records of `heap`, relinked for a NOP after `a`. */
  function RelinkedUpTo(heap: seq<Node>, a: nat, k: nat): (r: seq<Node>)
    requires a < |heap| && k <= |heap|
    ensures |r| == k
  {
    if k == 0 then []
    else RelinkedUpTo(heap, a, k - 1) + [Relinked(heap[k - 1], k - 1, a, |heap|, heap[a].flink)]
  }

  /** The arena after `cgp_insert_node(a, INSERT_AFTER)` has put the NOP
      after record `a`: `a` falls through to the NOP, the NOP to `a`'s old
      successor, and the records that linked back to `a` through that
      successor link back to the NOP. */
  function WithNop(heap: seq<Node>, a: nat): (r: seq<Node>)
    requires a < |heap|
    ensures |r| == |heap| + 1
  {
    RelinkedUpTo(heap, a, |heap|) + [Nop(a, heap[a].flink)]
  }

  /** Each of the first `k` records is relinked in place. */
  lemma {:induction false} RelinkedAt(heap: seq<Node>, a: nat, k: nat)
    requires a < |heap| && k <= |heap|
    ensures forall j :: 0 <= j < k ==> RelinkedUpTo(heap, a, k)[j] == Relinked(heap[j], j, a, |heap|, heap[a].flink)
    decreases k
  {
    if k > 0 {
      RelinkedAt(heap, a, k - 1);
    }
  }

  /** The records of `WithNop`: the NOP after `a`, falling through to `a`'s
      old successor; `a` now falling through to the NOP; every other record
      as before, except that a record `a` fell through to links back to the
      NOP. */
  lemma WithNopRecords(heap: seq<Node>, a: nat)
    requires a < |heap|
    ensures var r, x, f := WithNop(heap, a), |heap|, heap[a].flink;
            r[x] == Nop(a, f)
            && r[a] == heap[a].(flink := Ref(x), blink := if f == Ref(a) then Ref(x) else heap[a].blink)
            && forall j :: 0 <= j < x && j != a ==> r[j] == heap[j].(blink := if Ref(j) == f then Ref(x) else heap[j].blink)
  {
    RelinkedAt(heap, a, |heap|);
  }

  /** The arena and slots after `cgp_add_reduntant_nop` has gone through the
      first `m` slots of `n`, starting from arena `h`: one NOP in a new slot
      after each live node, in slot order. */
  function NopsAll(h: seq<Node>, n: seq<Ptr>, m: nat): (r: (seq<Node>, seq<Ptr>))
    requires m <= |n| && SlotsIn(n, |h|)
    ensures |r.0| >= |h| && |r.1| >= |n| && r.1[..|n|] == n
    decreases m
  {
    if m == 0 then (h, n)
    else
      var s := NopsAll(h, n, m - 1);
      if n[m - 1].Ref? then
        assert (s.1 + [Ref(|s.0|)])[..|n|] == s.1[..|n|];
        (WithNop(s.0, n[m - 1].id), s.1 + [Ref(|s.0|)])
      else s
  }

  /** The NOP record after each live node of the first `m` slots of `n`. */
  ghost function NopMap(h: seq<Node>, n: seq<Ptr>, m: nat): map<nat, nat>
    requires m <= |n| && SlotsIn(n, |h|)
  {
    if m == 0 then map[]
    else if n[m - 1].Ref? then NopMap(h, n, m - 1)[n[m - 1].id := |NopsAll(h, n, m - 1).0|]
    else NopMap(h, n, m - 1)
  }

  /** cgp_add_reduntant_nop after the slots before `i` of `n0` over the arena
      `h0`: the records of `h0` are unchanged but for links, every new record
      is a NOP in a new slot, each node of those slots (and no other) has a
      NOP `nop[b]` as its successor, which falls through to the node's old
      successor. */
  ghost predicate NopsAdded(h0: seq<Node>, n0: seq<Ptr>, i: nat, heap: seq<Node>, nodes: seq<Ptr>, nop: map<nat, nat>)
    requires i <= |n0|
  {
    |heap| >= |h0| && SameRecords(h0, heap[..|h0|])
    && NopSlotsAppended(h0, n0, heap, nodes) && NopKeys(n0, i, nop) && NopLinks(h0, heap, nop)
  }

  /** The slots of the new NOPs follow the old slots, in the order of the
      records. */
  ghost predicate NopSlotsAppended(h0: seq<Node>, n0: seq<Ptr>, heap: seq<Node>, nodes: seq<Ptr>) {
    |nodes| - |n0| == |heap| - |h0| && |nodes| >= |n0| && nodes[..|n0|] == n0
    && (forall k :: |n0| <= k < |nodes| ==> nodes[k] == Ref(k - |n0| + |h0|))
  }

  /** The live nodes of the slots before `i`, and only those, have a NOP. */
  ghost predicate NopKeys(n0: seq<Ptr>, i: nat, nop: map<nat, nat>)
    requires i <= |n0|
  {
    (forall j :: i <= j < |n0| && n0[j].Ref? ==> n0[j].id !in nop)
    && (forall j :: 0 <= j < i && n0[j].Ref? ==> n0[j].id in nop)
  }

  /** Each node with a NOP falls through to it and the NOP to the node's old
      fall-through; every other old node keeps its FLink. */
  ghost predicate NopLinks(h0: seq<Node>, heap: seq<Node>, nop: map<nat, nat>)
    requires |heap| >= |h0|
  {
    (forall b :: b in nop ==>
       b < |h0| && |h0| <= nop[b] < |heap| && heap[b].flink == Ref(nop[b]) && heap[nop[b]] == Nop(b, h0[b].flink))
    && (forall y :: |h0| <= y < |heap| ==> heap[y].kind == Line)
    && (forall b :: 0 <= b < |h0| && b !in nop ==> heap[b].flink == h0[b].flink)
  }

  /** The node of the last of the first `m` slots of `n0` whose node falls
      through to record `s` in `h0`, if any. */
  function LastFaller(h0: seq<Node>, n0: seq<Ptr>, m: nat, s: nat): (r: Option<nat>)
    requires m <= |n0| && SlotsIn(n0, |h0|)
    ensures r.Some? ==> r.value < |h0| && Slotted(n0, m, r.value) && h0[r.value].flink == Ref(s)
    ensures r.None? ==> forall j :: 0 <= j < m && n0[j].Ref? ==> h0[n0[j].id].flink != Ref(s)
  {
    if m == 0 then None
    else if n0[m - 1].Ref? && h0[n0[m - 1].id].flink == Ref(s) then Some(n0[m - 1].id)
    else LastFaller(h0, n0, m - 1, s)
  }

  /** Every record of `h0` once NOPs were put after the live nodes of the
      slots before `i`, `nop` naming them: a record that one of those nodes
      fell through to links back to the NOP after the last such node; any
      other record keeps its BLink. */
  ghost predicate NopBacks(h0: seq<Node>, n0: seq<Ptr>, i: nat, heap: seq<Node>, nop: map<nat, nat>)
    requires i <= |n0|
  {
    SlotsIn(n0, |h0|) && |h0| <= |heap|
    && forall s :: 0 <= s < |h0| ==> heap[s].blink == NopBlink(h0, n0, i, nop, s)
  }

  /** The BLink `NopBacks` gives record `s`: the NOP of the last node that
      fell through to it, or its old BLink. */
  ghost function NopBlink(h0: seq<Node>, n0: seq<Ptr>, i: nat, nop: map<nat, nat>, s: nat): Ptr
    requires i <= |n0| && SlotsIn(n0, |h0|) && s < |h0|
  {
    match LastFaller(h0, n0, i, s)
    case None => h0[s].blink
    case Some(b) => if b in nop then Ref(nop[b]) else Null
  }

  /** The counting half of the loop invariant: the nodes given a NOP are
      those of the slots before `i`, one new slot each. */
  ghost predicate NopsCounted(n0: seq<Ptr>, i: nat, nodes: seq<Ptr>, nop: map<nat, nat>)
    requires i <= |n0|
  {
    (forall b :: b in nop ==> Slotted(n0, i, b)) && |nodes| - |n0| == LiveBefore(n0, i)
  }

  /** One more slot keeps the count: an empty slot adds nothing, a live one
      one new slot and one NOP. */
  lemma NopsCountedStep(n0: seq<Ptr>, i: nat, nodes: seq<Ptr>, nop: map<nat, nat>, nodes': seq<Ptr>, nop': map<nat, nat>)
    requires i < |n0| && NopsCounted(n0, i, nodes, nop)
    requires n0[i].Null? ==> nodes' == nodes && nop' == nop
    requires n0[i].Ref? ==> |nodes'| == |nodes| + 1 && nop'.Keys == nop.Keys + {n0[i].id}
    ensures NopsCounted(n0, i + 1, nodes', nop')
  {
    forall b | b in nop'
      ensures Slotted(n0, i + 1, b)
    {
      if b in nop {
        var j :| 0 <= j < i && n0[j] == Ref(b);
      } else {
        assert n0[i] == Ref(b);
      }
    }
  }

  /** How many of the first `m` slots of `n` hold a node. */
  function LiveBefore(n: seq<Ptr>, m: nat): (r: nat)
    requires m <= |n|
    ensures r <= m
  {
    if m == 0 then 0 else LiveBefore(n, m - 1) + if n[m - 1].Ref? then 1 else 0
  }

  /** One of the first `m` slots of `n` holds node `b`. */
  predicate Slotted(n: seq<Ptr>, m: nat, b: nat)
    requires m <= |n|
  {
    exists j :: 0 <= j < m && n[j] == Ref(b)
  }

  /** One more slot: an empty slot changes nothing, a live one gets its NOP
      as a new record in a new slot. */
  lemma NopsAddedStep(h0: seq<Node>, n0: seq<Ptr>, i: nat, heap: seq<Node>, nodes: seq<Ptr>, nop: map<nat, nat>,
                      heap': seq<Node>, nodes': seq<Ptr>, nop': map<nat, nat>)
    requires i < |n0| && Closed(h0) && SlotsIn(n0, |h0|) && DistinctSlots(n0) && NopsAdded(h0, n0, i, heap, nodes, nop)
    requires n0[i].Null? ==> heap' == heap && nodes' == nodes && nop' == nop
    requires n0[i].Ref? ==>
               var a := n0[i].id;
               a < |heap| && heap' == WithNop(heap, a) && nodes' == nodes + [Ref(|heap|)] && nop' == nop[a := |heap|]
    ensures NopsAdded(h0, n0, i + 1, heap', nodes', nop')
  {
    if n0[i].Ref? {
      WithNopRecords(heap, n0[i].id);
      NopAddedLive(h0, n0, i, n0[i].id, heap, nodes, nop, heap', nodes', nop');
    }
  }

  /** The live case of `NopsAddedStep`, for the node `a` of slot `i`. */
  lemma NopAddedLive(h0: seq<Node>, n0: seq<Ptr>, i: nat, a: nat, heap: seq<Node>, nodes: seq<Ptr>, nop: map<nat, nat>,
                     heap': seq<Node>, nodes': seq<Ptr>, nop': map<nat, nat>)
    requires i < |n0| && Closed(h0) && SlotsIn(n0, |h0|) && DistinctSlots(n0) && NopsAdded(h0, n0, i, heap, nodes, nop)
    requires n0[i] == Ref(a)
    requires |heap'| == |heap| + 1 && nodes' == nodes + [Ref(|heap|)] && nop' == nop[a := |heap|]
    requires heap'[|heap|] == Nop(a, heap[a].flink)
    requires heap'[a] == heap[a].(flink := Ref(|heap|), blink := if heap[a].flink == Ref(a) then Ref(|heap|) else heap[a].blink)
    requires forall j :: 0 <= j < |heap| && j != a ==>
               heap'[j] == heap[j].(blink := if Ref(j) == heap[a].flink then Ref(|heap|) else heap[j].blink)
    ensures NopsAdded(h0, n0, i + 1, heap', nodes', nop')
  {

    assert a < |h0| && a !in nop;
    assert heap[a].flink == h0[a].flink && PtrIn(h0[a].flink, |h0|);
    NopRecords(h0, heap, a, heap');
    NopSlots(h0, n0, i, a, heap, nodes, nop, nodes', nop');
    forall b | b in nop'
      ensures b < |h0| && |h0| <= nop'[b] < |heap'| && heap'[b].flink == Ref(nop'[b]) && heap'[nop'[b]] == Nop(b, h0[b].flink)
    {
      if b != a {
        assert Ref(nop[b]) != heap[a].flink;
      }
    }
  }

  /** Inserting the NOP changes no record of `h0` but for its links, and the
      new record is a LINE. */
  lemma NopRecords(h0: seq<Node>, heap: seq<Node>, a: nat, heap': seq<Node>)
    requires |heap| >= |h0| && SameRecords(h0, heap[..|h0|]) && a < |h0|
    requires forall y :: |h0| <= y < |heap| ==> heap[y].kind == Line
    requires |heap'| == |heap| + 1 && heap'[|heap|] == Nop(a, heap[a].flink)
    requires heap'[a] == heap[a].(flink := Ref(|heap|), blink := heap'[a].blink)
    requires forall j :: 0 <= j < |heap| && j != a ==>
               heap'[j] == heap[j].(blink := if Ref(j) == heap[a].flink then Ref(|heap|) else heap[j].blink)
    ensures |heap'| >= |h0| && SameRecords(h0, heap'[..|h0|])
    ensures forall y :: |h0| <= y < |heap'| ==> heap'[y].kind == Line
    ensures forall b :: 0 <= b < |heap| && b != a ==> heap'[b].flink == heap[b].flink
  {
    forall j | 0 <= j < |h0|
      ensures heap'[j].kind == h0[j].kind && heap'[j].data == h0[j].data
              && heap'[j].weight == h0[j].weight && heap'[j].offset == h0[j].offset
    {
      assert heap[..|h0|][j] == heap[j];
    }
    forall y | |h0| <= y < |heap'|
      ensures heap'[y].kind == Line
    {
      if y < |heap| {
        assert heap'[y].kind == heap[y].kind;
      }
    }
  }

  /** The new slot holds the new record, and the node of slot `i` now has its
      NOP. */
  lemma NopSlots(h0: seq<Node>, n0: seq<Ptr>, i: nat, a: nat, heap: seq<Node>, nodes: seq<Ptr>, nop: map<nat, nat>,
                 nodes': seq<Ptr>, nop': map<nat, nat>)
    requires i < |n0| && DistinctSlots(n0) && n0[i] == Ref(a)
    requires |heap| >= |h0| && |nodes| - |n0| == |heap| - |h0| && nodes[..|n0|] == n0
    requires forall k :: |n0| <= k < |nodes| ==> nodes[k] == Ref(k - |n0| + |h0|)
    requires forall j :: i <= j < |n0| && n0[j].Ref? ==> n0[j].id !in nop
    requires forall j :: 0 <= j < i && n0[j].Ref? ==> n0[j].id in nop
    requires nodes' == nodes + [Ref(|heap|)] && nop' == nop[a := |heap|]
    ensures |nodes'| - |n0| == |heap| + 1 - |h0| && nodes'[..|n0|] == n0
    ensures forall k :: |n0| <= k < |nodes'| ==> nodes'[k] == Ref(k - |n0| + |h0|)
    ensures forall j :: i + 1 <= j < |n0| && n0[j].Ref? ==> n0[j].id !in nop'
    ensures forall j :: 0 <= j < i + 1 && n0[j].Ref? ==> n0[j].id in nop'
  {
    assert nodes'[..|n0|] == nodes[..|n0|];
    forall j | i + 1 <= j < |n0| && n0[j].Ref?
      ensures n0[j].id !in nop'
    {
      assert n0[j] != n0[i];
    }
  }

  /** The NOP records and their slots at every stage of the insertions. */
  lemma {:induction false} NopsAddedAll(h0: seq<Node>, n0: seq<Ptr>, i: nat)
    requires i <= |n0| && Closed(h0) && SlotsIn(n0, |h0|) && DistinctSlots(n0)
    ensures NopsAdded(h0, n0, i, NopsAll(h0, n0, i).0, NopsAll(h0, n0, i).1, NopMap(h0, n0, i))
    decreases i
  {
    if i == 0 {
      assert h0[..|h0|] == h0 && NopsAll(h0, n0, 0) == (h0, n0);
    } else {
      NopsAddedAll(h0, n0, i - 1);
      var s, nop := NopsAll(h0, n0, i - 1), NopMap(h0, n0, i - 1);
      assert s.1[i - 1] == n0[i - 1];
      NopsAddedStep(h0, n0, i - 1, s.0, s.1, nop, NopsAll(h0, n0, i).0, NopsAll(h0, n0, i).1, NopMap(h0, n0, i));
    }
  }

  /** The count of new slots at every stage of the insertions. */
  lemma {:induction false} NopsCountedAll(h0: seq<Node>, n0: seq<Ptr>, i: nat)
    requires i <= |n0| && SlotsIn(n0, |h0|)
    ensures NopsCounted(n0, i, NopsAll(h0, n0, i).1, NopMap(h0, n0, i))
    decreases i
  {
    if i > 0 {
      NopsCountedAll(h0, n0, i - 1);
      NopsCountedStep(n0, i - 1, NopsAll(h0, n0, i - 1).1, NopMap(h0, n0, i - 1), NopsAll(h0, n0, i).1, NopMap(h0, n0, i));
    }
  }

  /** The node of a live slot not yet reached has no NOP, and still falls
      through to its old successor. */
  lemma NopFree(h0: seq<Node>, n0: seq<Ptr>, i: nat)
    requires i < |n0| && Closed(h0) && SlotsIn(n0, |h0|) && DistinctSlots(n0) && n0[i].Ref?
    ensures var a, s := n0[i].id, NopsAll(h0, n0, i).0;
            a < |h0| <= |s| && a !in NopMap(h0, n0, i) && s[a].flink == h0[a].flink
  {
    NopsAddedAll(h0, n0, i);
  }

  /** One more slot keeps the BLink of record `s`: a NOP after the node of
      the slot becomes its BLink if that node fell through to `s`. */
  lemma NopBackNext(h0: seq<Node>, n0: seq<Ptr>, i: nat, heap: seq<Node>, nop: map<nat, nat>,
                    heap': seq<Node>, nop': map<nat, nat>, s: nat)
    requires i < |n0| && SlotsIn(n0, |h0|) && DistinctSlots(n0) && s < |h0| <= |heap|
    requires heap[s].blink == NopBlink(h0, n0, i, nop, s)
    requires n0[i].Null? ==> heap' == heap && nop' == nop
    requires n0[i].Ref? ==>
               var a := n0[i].id;
               a !in nop && heap[a].flink == h0[a].flink && heap' == WithNop(heap, a) && nop' == nop[a := |heap|]
    ensures s < |heap'| && heap'[s].blink == NopBlink(h0, n0, i + 1, nop', s)
  {
    if n0[i].Ref? {
      WithNopRecords(heap, n0[i].id);
      if LastFaller(h0, n0, i, s).Some? {
        var j :| 0 <= j < i && n0[j] == Ref(LastFaller(h0, n0, i, s).value);
        assert n0[j] != n0[i];
      }
    }
  }

  /** The BLink of record `s` at every stage of the insertions: the NOP
      after the last node that fell through to it, or its old BLink. */
  lemma {:induction false} NopBackAt(h0: seq<Node>, n0: seq<Ptr>, i: nat, s: nat)
    requires i <= |n0| && Closed(h0) && SlotsIn(n0, |h0|) && DistinctSlots(n0) && s < |h0|
    ensures s < |NopsAll(h0, n0, i).0| && NopsAll(h0, n0, i).0[s].blink == NopBlink(h0, n0, i, NopMap(h0, n0, i), s)
    decreases i
  {
    if i > 0 {
      NopBackAt(h0, n0, i - 1, s);
      var st, nop := NopsAll(h0, n0, i - 1), NopMap(h0, n0, i - 1);
      if n0[i - 1].Ref? {
        NopFree(h0, n0, i - 1);
        assert NopsAll(h0, n0, i).0 == WithNop(st.0, n0[i - 1].id) && NopMap(h0, n0, i) == nop[n0[i - 1].id := |st.0|];
      } else {
        assert NopsAll(h0, n0, i) == st && NopMap(h0, n0, i) == nop;
      }
      NopBackNext(h0, n0, i - 1, st.0, nop, NopsAll(h0, n0, i).0, NopMap(h0, n0, i), s);
    }
  }

  /** The backward links at every stage of the insertions. */
  lemma NopBacksAll(h0: seq<Node>, n0: seq<Ptr>, i: nat)
    requires i <= |n0| && Closed(h0) && SlotsIn(n0, |h0|) && DistinctSlots(n0)
    ensures NopBacks(h0, n0, i, NopsAll(h0, n0, i).0, NopMap(h0, n0, i))
  {
    forall s | 0 <= s < |h0|
      ensures NopsAll(h0, n0, i).0[s].blink == NopBlink(h0, n0, i, NopMap(h0, n0, i), s)
    {
      NopBackAt(h0, n0, i, s);
    }
  }

  /** What the finished loop leaves: every live node of the slots before
      `i` falls through to its own new NOP, which falls through to the
      node's old successor; the new slots hold the new records. */
  lemma NopsAddedDone(h0: seq<Node>, n0: seq<Ptr>, i: nat, heap: seq<Node>, nodes: seq<Ptr>)
    requires i <= |n0| && Closed(h0) && SlotsIn(n0, |h0|) && DistinctSlots(n0)
    requires (heap, nodes) == NopsAll(h0, n0, i)
    ensures forall j :: 0 <= j < i && n0[j].Ref? ==>
              var a := n0[j].id;
              heap[a].flink.Ref? && |h0| <= heap[a].flink.id < |heap| && heap[heap[a].flink.id] == Nop(a, h0[a].flink)
    ensures forall k :: |n0| <= k < |nodes| ==> nodes[k].Ref? && |h0| <= nodes[k].id < |heap|
    ensures |nodes| - |n0| == LiveBefore(n0, i)
    ensures forall b :: 0 <= b < |h0| && !Slotted(n0, i, b) ==> heap[b].flink == h0[b].flink
    ensures |h0| <= |heap| && SameRecords(h0, heap[..|h0|]) && forall y :: |h0| <= y < |heap| ==> heap[y].kind == Line
    ensures BackToNops(h0, n0, i, heap)
  {
    NopsAddedAll(h0, n0, i);
    NopsCountedAll(h0, n0, i);
    NopBacksAll(h0, n0, i);
  }

  /** The BLink of record `s` of `h0` once NOPs were put after the live
      nodes of the first `m` slots of `n0`: a record that one of those nodes
      fell through to links back to the new successor, the NOP, of the last
      such node in slot order; any other record keeps its BLink. */
  ghost function BlinkAfterNops(h0: seq<Node>, n0: seq<Ptr>, m: nat, heap: seq<Node>, s: nat): Ptr
    requires m <= |n0| && SlotsIn(n0, |h0|) && |h0| <= |heap| && s < |h0|
  {
    match LastFaller(h0, n0, m, s)
    case None => h0[s].blink
    case Some(b) => heap[b].flink
  }

  /** Every record of `h0` has the BLink `BlinkAfterNops` gives it. */
  ghost predicate BackToNops(h0: seq<Node>, n0: seq<Ptr>, m: nat, heap: seq<Node>)
    requires m <= |n0| && SlotsIn(n0, |h0|) && |h0| <= |heap|
  {
    forall s :: 0 <= s < |h0| ==> heap[s].blink == BlinkAfterNops(h0, n0, m, heap, s)
  }

  /** The word `cgp_remove_simple_obfuscation` looks for at a call's target:
      `8D 64 24 04`, `lea esp, [esp+4]`, which drops the return address the
      call has just pushed. */
  const FAKE_CALL_MARK: u32 := 0x0424648D

  /** The first four bytes of `data`, read as one little-endian word, are the
      marker. */
  predicate IsMark(data: seq<byte>)
    requires |data| >= 4
  {
    FromLe32(data) == FAKE_CALL_MARK
  }

  /** The marker is the byte string `8D 64 24 04`. */
  lemma MarkBytes(data: seq<byte>)
    requires |data| >= 4
    ensures IsMark(data) <==> data[..4] == [0x8D, 0x64, 0x24, 0x04]
  {
    FromLe32RoundTrip(data);
    Le32RoundTrip(FAKE_CALL_MARK);
    if data[..4] == [0x8D, 0x64, 0x24, 0x04] {
      Le32ReadBack(data, FAKE_CALL_MARK);
    }
  }

  /** The word `cgp_remove_simple_obfuscation` reads at the start of record
      `k`'s buffer. A buffer of fewer than four bytes is read past its end;
      the word found there is `past(k)`. (A label has no buffer at all; the
      sweep stops before reading one.) */
  function HeadWord(heap: seq<Node>, k: nat, past: nat -> u32): (w: u32)
    requires k < |heap|
    ensures |heap[k].data| >= 4 ==> (w == FAKE_CALL_MARK <==> IsMark(heap[k].data))
  {
    if |heap[k].data| >= 4 then FromLe32(heap[k].data) else past(k)
  }

  /** A CALL of the arena that only jumps: its target is an instruction,
      not a label, and starts with the marker. */
  predicate FakeCall(heap: seq<Node>, id: nat, past: nat -> u32)
    requires id < |heap| && Closed(heap)
  {
    var n := heap[id];
    n.kind == Call && n.clink.Ref? && heap[n.clink.id].kind != Label
    && HeadWord(heap, n.clink.id, past) == FAKE_CALL_MARK
  }

  /** A CALL whose check or removal dereferences NULL: it has no target, or
      its target is a label, whose buffer is NULL, or it is marked and has
      no fall-through node, or its fall-through or target is the CALL itself,
      whose slot the first removals then empty before the source reads it
      again. */
  predicate Unchecked(heap: seq<Node>, id: nat, past: nat -> u32)
    requires id < |heap| && Closed(heap)
  {
    var n := heap[id];
    n.kind == Call
    && (n.clink.Null? || heap[n.clink.id].kind == Label
        || (HeadWord(heap, n.clink.id, past) == FAKE_CALL_MARK
            && (n.flink.Null? || n.flink == Ref(id) || n.clink == Ref(id))))
  }

  /** The nodes a sweep of `cgp_remove_simple_obfuscation` took out: each
      removed CALL with the fall-through node and the target it had. */
  function Swept(removed: seq<(nat, Ptr, Ptr)>): set<Ptr> {
    if removed == [] then {}
    else
      var e := removed[|removed| - 1];
      Swept(removed[..|removed| - 1]) + {Ref(e.0), e.1, e.2}
  }

  /** Taking out one more CALL with its fall-through node and its target
      empties exactly the slots holding one of the three. */
  lemma SweepStep(n: seq<Ptr>, n0: seq<Ptr>, removed: seq<(nat, Ptr, Ptr)>, e: (nat, Ptr, Ptr))
    requires |n0| == |n| && e.1.Ref? && e.2.Ref?
    requires forall k :: 0 <= k < |n| ==> n0[k] == if n[k] in Swept(removed) then Null else n[k]
    ensures var n' := Without(Without(Without(n0, e.1.id), e.2.id), e.0);
            forall k :: 0 <= k < |n| ==> n'[k] == if n[k] in Swept(removed + [e]) then Null else n[k]
  {
    assert (removed + [e])[..|removed|] == removed;
  }

  /** Two arenas that differ at most in forward and backward links. */
  predicate SameContents(h: seq<Node>, h': seq<Node>) {
    SameRecords(h, h') && forall i :: 0 <= i < |h| ==> h'[i].clink == h[i].clink
  }

  /** A slot array whose slots were at most emptied. */
  predicate Thinned(n: seq<Ptr>, n': seq<Ptr>) {
    |n'| == |n| && forall k :: 0 <= k < |n| ==> n'[k] == n[k] || n'[k].Null?
  }

  /** The arena after `cgp_except_node(id)` over the slots `nodes`: when the
      node has a predecessor, the predecessor takes over its forward link and
      every live node whose backward link pointed at it points at that
      predecessor instead; otherwise nothing changes. */
  function Excepted(heap: seq<Node>, nodes: seq<Ptr>, id: nat): (r: seq<Node>)
    requires id < |heap| && PtrIn(heap[id].blink, |heap|)
    ensures SameRecords(heap, r) && forall j :: 0 <= j < |heap| ==> r[j].clink == heap[j].clink
    ensures Closed(heap) ==> Closed(r)
  {
    var b := heap[id].blink;
    if b.Null? then heap
    else seq(|heap|, j requires 0 <= j < |heap| =>
               heap[j].(flink := if j == b.id then heap[id].flink else heap[j].flink,
                        blink := if Ref(j) in nodes && heap[j].blink == Ref(id) then b else heap[j].blink))
  }

  /** The slots after `cgp_remove_node(id)`: every slot holding the node is
      emptied and the others are kept. */
  function Without(nodes: seq<Ptr>, id: nat): (r: seq<Ptr>)
    ensures Thinned(nodes, r) && Ref(id) !in r
    ensures forall k :: 0 <= k < |nodes| && nodes[k] != Ref(id) ==> r[k] == nodes[k]
  {
    seq(|nodes|, k requires 0 <= k < |nodes| => if nodes[k] == Ref(id) then Null else nodes[k])
  }

  /** The arena and slots after `cgp_except_node` takes out the fall-through
      node, the target and the CALL of entry `e = (call, fall-through,
      target)`, in that order. */
  function Clean(h: seq<Node>, n: seq<Ptr>, e: (nat, Ptr, Ptr)): (r: (seq<Node>, seq<Ptr>))
    requires Closed(h) && e.0 < |h| && e.1.Ref? && e.1.id < |h| && e.2.Ref? && e.2.id < |h|
    ensures Closed(r.0) && SameContents(h, r.0) && Thinned(n, r.1)
    ensures r.1 == Without(Without(Without(n, e.1.id), e.2.id), e.0)
  {
    var h1, n1 := Excepted(h, n, e.1.id), Without(n, e.1.id);
    var h2, n2 := Excepted(h1, n1, e.2.id), Without(n1, e.2.id);
    (Excepted(h2, n2, e.0), Without(n2, e.0))
  }

  /** Entry `e` names a live fake CALL of arena `h` with slots `n`, together
      with its FLink and CLink in that arena. */
  predicate Removable(h: seq<Node>, n: seq<Ptr>, e: (nat, Ptr, Ptr), past: nat -> u32)
    requires Closed(h)
  {
    e.0 < |h| && Ref(e.0) in n && FakeCall(h, e.0, past) && e.1.Ref? && e.1 == h[e.0].flink && e.2 == h[e.0].clink
  }

  /** The removals of a sweep replayed from arena `h` and slots `n`: each
      entry must be a live fake CALL of the arena the earlier removals left,
      with its FLink and CLink of that moment, and is then cleaned out; the
      result is the final arena and slots, or None when an entry is not such
      a CALL. */
  function SweepAll(h: seq<Node>, n: seq<Ptr>, removed: seq<(nat, Ptr, Ptr)>, past: nat -> u32)
    : (r: Option<(seq<Node>, seq<Ptr>)>)
    requires Closed(h)
    ensures r.Some? ==> Closed(r.value.0) && SameContents(h, r.value.0) && Thinned(n, r.value.1)
    decreases |removed|
  {
    if removed == [] then Some((h, n))
    else
      match SweepAll(h, n, removed[..|removed| - 1], past)
      case None => None
      case Some(s) =>
        var e := removed[|removed| - 1];
        if Removable(s.0, s.1, e, past) then Some(Clean(s.0, s.1, e)) else None
  }

  /** One more removal replayed: the entry was removable in the arena the
      earlier ones left, and cleaning it out gives the result. */
  lemma SweepAllLast(h: seq<Node>, n: seq<Ptr>, removed: seq<(nat, Ptr, Ptr)>, past: nat -> u32)
    requires Closed(h) && removed != [] && SweepAll(h, n, removed, past).Some?
    ensures var s := SweepAll(h, n, removed[..|removed| - 1], past);
            var e := removed[|removed| - 1];
            s.Some? && Removable(s.value.0, s.value.1, e, past)
            && SweepAll(h, n, removed, past).value == Clean(s.value.0, s.value.1, e)
  {
  }

  /** What a replayed sweep did: a slot is empty exactly when it held a
      removed CALL, its fall-through node or its target, and each removed
      CALL was a live fake CALL of the original arena with its original
      target. */
  lemma {:induction false} SweepAllEffect(h: seq<Node>, n: seq<Ptr>, removed: seq<(nat, Ptr, Ptr)>, past: nat -> u32)
    requires Closed(h) && SweepAll(h, n, removed, past).Some?
    ensures var n' := SweepAll(h, n, removed, past).value.1;
            forall k :: 0 <= k < |n| ==> n'[k] == if n[k] in Swept(removed) then Null else n[k]
    ensures forall e :: e in removed ==>
              e.0 < |h| && Ref(e.0) in n && FakeCall(h, e.0, past) && e.1.Ref? && e.2 == h[e.0].clink
    decreases |removed|
  {
    if removed != [] {
      var init, e := removed[..|removed| - 1], removed[|removed| - 1];
      SweepAllEffect(h, n, init, past);
      SweepAllLast(h, n, removed, past);
      var s := SweepAll(h, n, init, past).value;
      FakeCallKept(h, s.0, past);
      SweepStep(n, s.1, init, e);
      var k :| 0 <= k < |s.1| && s.1[k] == Ref(e.0);
      assert n[k] == Ref(e.0);
    }
  }

  lemma ThinnedTrans(n: seq<Ptr>, n': seq<Ptr>, n'': seq<Ptr>)
    requires Thinned(n, n') && Thinned(n', n'')
    ensures Thinned(n, n'')
  {
  }

  lemma SameContentsTrans(h: seq<Node>, h': seq<Node>, h'': seq<Node>)
    requires SameContents(h, h') && SameContents(h', h'')
    ensures SameContents(h, h'')
  {
  }

  /** Which calls are fake does not depend on forward or backward links. */
  lemma FakeCallKept(h: seq<Node>, h': seq<Node>, past: nat -> u32)
    requires Closed(h) && Closed(h') && SameContents(h, h')
    ensures forall id :: 0 <= id < |h| ==> FakeCall(h, id, past) == FakeCall(h', id, past)
  {
  }

  datatype Cleanup = Cleaned | Stuck(slot: nat)

  /** `enum insert_types`. */
  datatype InsertKind = Before | After

  class Session {
    /** Every record ever allocated; removal never erases one, so a node that
        was removed can still be read, as the source does. */
    var heap: seq<Node>
    /** `nodes[0 .. nodes_count)`. */
    var nodes: seq<Ptr>
    var firstNode: Ptr
    var randSeed: u32
    const jccStack: array<nat>
    var jccCount: nat
    const callStack: array<nat>
    var callCount: nat

    ghost predicate Valid()
      reads this, jccStack, callStack
    {
      jccStack.Length == STACK_LIMIT && callStack.Length == STACK_LIMIT && jccStack != callStack
      && jccCount <= STACK_LIMIT && callCount <= STACK_LIMIT
      && Closed(heap) && SlotsIn(nodes, |heap|) && DistinctSlots(nodes) && PtrIn(firstNode, |heap|)
      && (forall k :: 0 <= k < jccCount ==> jccStack[k] < |heap|)
      && (forall k :: 0 <= k < callCount ==> callStack[k] < |heap|)
    }

    /** The state `cgp_init` starts parsing from. */
    ghost predicate Empty()
      reads this
    {
      heap == [] && nodes == [] && firstNode == Null && jccCount == 0 && callCount == 0
    }

    twostate predicate SameStacks()
      reads this
    {
      jccCount == old(jccCount) && callCount == old(callCount)
    }

    twostate predicate SameGraph()
      reads this
    {
      heap == old(heap) && nodes == old(nodes) && firstNode == old(firstNode)
    }

    /** The globals before `cgp_init`, with the generator seeded by `seed`
        (the source seeds it from the clock). */
    constructor (seed: u32)
      ensures Valid() && Empty() && randSeed == seed
      ensures fresh(jccStack) && fresh(callStack)
    {
      heap := [];
      nodes := [];
      firstNode := Null;
      randSeed := seed;
      jccCount := 0;
      callCount := 0;
      jccStack := new nat[STACK_LIMIT];
      callStack := new nat[STACK_LIMIT];
    }

    // ---- randomness -------------------------------------------------------

    /** cgp_random: advance the generator and draw a value below `n`. */
    method Random(n: u32) returns (r: u32)
      requires n <= MAX_BOUND
      modifies this
      ensures randSeed == NextSeed(old(randSeed)) && r == Draw(randSeed, n)
      ensures n > 0 ==> r < n
      ensures SameGraph() && SameStacks()
    {
      randSeed := Wrap(MULTIPLIER * randSeed + 1);
      DrawBelow(randSeed, n);
      r := randSeed * n / TWO32;
    }

    /** shuffle_array over the slot array: a Fisher–Yates permutation driven by
        the generator. */
    method ShuffleArray()
      requires Valid() && |nodes| <= MAX_BOUND
      modifies this
      ensures Valid()
      ensures (nodes, randSeed) == Shuffle(old(nodes), old(randSeed), |old(nodes)|)
      ensures multiset(nodes) == multiset(old(nodes))
      ensures heap == old(heap) && firstNode == old(firstNode) && SameStacks()
    {
      var n: nat := |nodes|;
      ShufflePermutes(nodes, randSeed, n);
      while n > 1
        invariant n <= |nodes| == |old(nodes)|
        invariant Shuffle(nodes, randSeed, n) == Shuffle(old(nodes), old(randSeed), |old(nodes)|)
        invariant multiset(nodes) == multiset(old(nodes))
        invariant Valid()
        invariant heap == old(heap) && firstNode == old(firstNode) && SameStacks()
      {
        var k := Random(n);
        n := n - 1;
        SwapPermutes(nodes, n, k);
        SwapKeepsSlots(nodes, n, k, |heap|);
        nodes := Swap(nodes, n, k);
      }
    }

    // ---- worklists --------------------------------------------------------

    /** cgp_push_jcc: the stack grows by `owner`; returns the new depth. */
    method PushJcc(owner: nat) returns (count: nat)
      requires Valid() && owner < |heap| && jccCount < STACK_LIMIT
      modifies this, jccStack
      ensures Valid()
      ensures jccCount == old(jccCount) + 1 && count == jccCount
      ensures jccStack[..jccCount] == old(jccStack[..jccCount]) + [owner]
      ensures SameGraph() && callCount == old(callCount) && randSeed == old(randSeed)
    {
      jccStack[jccCount] := owner;
      jccCount := jccCount + 1;
      count := jccCount;
    }

    /** cgp_pop_jcc: the most recently pushed node comes back and the depth
        drops by one (the source's `jcc_count >= 0` check holds for any
        unsigned count, so callers test the depth first). */
    method PopJcc() returns (top: nat)
      requires Valid() && jccCount > 0
      modifies this
      ensures Valid()
      ensures jccCount == old(jccCount) - 1
      ensures top == old(jccStack[jccCount - 1]) && top < |heap|
      ensures jccStack[..jccCount] == old(jccStack[..jccCount - 1])
      ensures SameGraph() && callCount == old(callCount) && randSeed == old(randSeed)
    {
      jccCount := jccCount - 1;
      top := jccStack[jccCount];
    }

    /** cgp_push_call. */
    method PushCall(owner: nat) returns (count: nat)
      requires Valid() && owner < |heap| && callCount < STACK_LIMIT
      modifies this, callStack
      ensures Valid()
      ensures callCount == old(callCount) + 1 && count == callCount
      ensures callStack[..callCount] == old(callStack[..callCount]) + [owner]
      ensures SameGraph() && jccCount == old(jccCount) && randSeed == old(randSeed)
    {
      callStack[callCount] := owner;
      callCount := callCount + 1;
      count := callCount;
    }

    /** cgp_pop_call. */
    method PopCall() returns (top: nat)
      requires Valid() && callCount > 0
      modifies this
      ensures Valid()
      ensures callCount == old(callCount) - 1
      ensures top == old(callStack[callCount - 1]) && top < |heap|
      ensures callStack[..callCount] == old(callStack[..callCount - 1])
      ensures SameGraph() && jccCount == old(jccCount) && randSeed == old(randSeed)
    {
      callCount := callCount - 1;
      top := callStack[callCount];
    }

    // ---- the node arena ---------------------------------------------------

    /** cgp_allocate_node: a zeroed record in a new slot at the end; it becomes
        the first node when there is none. */
    method AllocateNode() returns (id: nat)
      requires Valid()
      modifies this
      ensures Valid()
      ensures id == |old(heap)| && heap == old(heap) + [BLANK] && nodes == old(nodes) + [Ref(id)]
      ensures firstNode == (if old(firstNode).Null? then Ref(id) else old(firstNode))
      ensures SameStacks() && randSeed == old(randSeed)
    {
      id := |heap|;
      heap := heap + [BLANK];
      nodes := nodes + [Ref(id)];
      if firstNode.Null? {
        firstNode := nodes[|nodes| - 1];
      }
    }

    /** cgp_find_by_offset: the node in the first slot whose position is `off`,
        or NULL when no live node is there. */
    method FindByOffset(off: u32) returns (r: Ptr)
      requires Valid()
      ensures r.Null? <==> forall i :: 0 <= i < |nodes| ==> !SlotAt(heap, nodes, i, off)
      ensures r.Ref? ==> exists i :: 0 <= i < |nodes| && nodes[i] == r && SlotAt(heap, nodes, i, off)
                                   && forall j :: 0 <= j < i ==> !SlotAt(heap, nodes, j, off)
    {
      var i := 0;
      while i < |nodes|
        invariant i <= |nodes|
        invariant forall j :: 0 <= j < i ==> !SlotAt(heap, nodes, j, off)
      {
        if nodes[i].Ref? && heap[nodes[i].id].offset == off {
          assert SlotAt(heap, nodes, i, off);
          return nodes[i];
        }
        i := i + 1;
      }
      return Null;
    }

    /** cgp_remove_node: every slot holding the node becomes NULL; the arena
        does not shrink and the record itself stays readable. */
    method RemoveNode(id: nat)
      requires Valid()
      modifies this
      ensures Valid()
      ensures heap == old(heap) && firstNode == old(firstNode) && |nodes| == |old(nodes)|
      ensures forall i :: 0 <= i < |nodes| ==>
                nodes[i] == (if old(nodes[i]) == Ref(id) then Null else old(nodes[i]))
      ensures Ref(id) !in nodes
      ensures SameStacks() && randSeed == old(randSeed)
    {
      var i := 0;
      while i < |nodes|
        invariant i <= |nodes| == |old(nodes)|
        invariant forall j :: 0 <= j < |nodes| ==>
                    nodes[j] == (if j < i && old(nodes[j]) == Ref(id) then Null else old(nodes[j]))
        invariant Valid() && heap == old(heap) && firstNode == old(firstNode)
        invariant SameStacks() && randSeed == old(randSeed)
      {
        if nodes[i] == Ref(id) {
          nodes := nodes[i := Null];
        }
        i := i + 1;
      }
    }

    /** cgp_merge_nodes: the first node takes over the second's forward link
        and adds its weight (in 32-bit arithmetic); the instruction bytes are
        not merged. */
    method MergeNodes(first: nat, second: nat) returns (r: nat)
      requires Valid() && first < |heap| && second < |heap|
      modifies this
      ensures Valid() && r == first
      ensures heap == old(heap)[first := old(heap[first]).(flink := old(heap[second].flink),
                                        weight := Wrap(old(heap[first].weight) + old(heap[second].weight)))]
      ensures nodes == old(nodes) && firstNode == old(firstNode) && SameStacks() && randSeed == old(randSeed)
    {
      heap := heap[first := heap[first].(flink := heap[second].flink)];
      heap := heap[first := heap[first].(weight := Wrap(heap[first].weight + heap[second].weight))];
      r := first;
    }

    /** cgp_except_node: splice a node out of the list and remove it. Its
        predecessor takes over its forward link, and every live node whose
        backward link pointed at it now points at its predecessor; a node
        without a predecessor is only removed. */
    method ExceptNode(id: nat)
      requires Valid() && id < |heap|
      modifies this
      ensures Valid()
      ensures |heap| == |old(heap)| && firstNode == old(firstNode)
      ensures heap == Excepted(old(heap), old(nodes), id) && nodes == Without(old(nodes), id)
      ensures SameContents(old(heap), heap) && Thinned(old(nodes), nodes)
      ensures SameStacks() && randSeed == old(randSeed)
    {
      var b := heap[id].blink;
      if b.Null? {
        RemoveNode(id);
        return;
      }
      var h := heap;
      h := h[b.id := h[b.id].(flink := h[id].flink)];
      ghost var h1 := h;
      var i := 0;
      while i < |nodes|
        invariant i <= |nodes|
        invariant |h| == |h1| && h[id].blink == b
        invariant forall j :: 0 <= j < |h| ==>
                    h[j] == h1[j].(blink := if Ref(j) in nodes[..i] && h1[j].blink == Ref(id)
                                            then b else h1[j].blink)
      {
        if nodes[i].Ref? && h[nodes[i].id].blink == Ref(id) {
          h := h[nodes[i].id := h[nodes[i].id].(blink := h[id].blink)];
        }
        assert nodes[..i + 1] == nodes[..i] + [nodes[i]];
        i := i + 1;
      }
      assert nodes[..i] == nodes;
      assert Closed(h);
      heap := h;
      RemoveNode(id);
    }

    /** cgp_insert_node: a new node next to `at`, in the list order the kind
        asks for. AFTER places it between `at` and `at`'s old successor;
        BEFORE places it between `at`'s old predecessor and `at`, and makes it
        the first node when `at` was. */
    method InsertNode(at: nat, kind: InsertKind) returns (nn: nat)
      requires Valid() && at < |heap|
      modifies this
      ensures Valid()
      ensures nn == |old(heap)| && |heap| == nn + 1 && nodes == old(nodes) + [Ref(nn)]
      ensures kind == After ==>
                var t := old(heap[at].flink);
                heap[nn] == BLANK.(blink := Ref(at), flink := t)
                && heap[at] == old(heap[at]).(flink := Ref(nn), blink := if t == Ref(at) then Ref(nn) else old(heap[at].blink))
                && (t.Ref? && t.id != at ==> heap[t.id] == old(heap[t.id]).(blink := Ref(nn)))
                && (forall j :: 0 <= j < nn && j != at && Ref(j) != t ==> heap[j] == old(heap[j]))
                && firstNode == (if old(firstNode).Null? then Ref(nn) else old(firstNode))
      ensures kind == Before ==>
                var t := old(heap[at].blink);
                heap[nn] == BLANK.(flink := Ref(at), blink := t)
                && heap[at] == old(heap[at]).(blink := Ref(nn), flink := if t == Ref(at) then Ref(nn) else old(heap[at].flink))
                && (t.Ref? && t.id != at ==> heap[t.id] == old(heap[t.id]).(flink := Ref(nn)))
                && (forall j :: 0 <= j < nn && j != at && Ref(j) != t ==> heap[j] == old(heap[j]))
                && firstNode == (if old(firstNode).Null? || old(firstNode) == Ref(at) then Ref(nn) else old(firstNode))
      ensures SameStacks() && randSeed == old(randSeed)
    {
      nn := AllocateNode();
      if kind == After {
        SpliceAfter(at, nn);
      } else {
        if Ref(at) == firstNode {
          firstNode := Ref(nn);
        }
        SpliceBefore(at, nn);
      }
    }

    /** The AFTER half of cgp_insert_node, on the freshly allocated `nn`. */
    method SpliceAfter(at: nat, nn: nat)
      requires Valid() && at < nn && nn == |heap| - 1 && heap[nn] == BLANK && heap[at].flink != Ref(nn)
      modifies this
      ensures Valid()
      ensures |heap| == |old(heap)| && nodes == old(nodes) && firstNode == old(firstNode)
      ensures var t := old(heap[at].flink);
              heap[nn] == BLANK.(blink := Ref(at), flink := t)
              && heap[at] == old(heap[at]).(flink := Ref(nn), blink := if t == Ref(at) then Ref(nn) else old(heap[at].blink))
              && (t.Ref? && t.id != at ==> heap[t.id] == old(heap[t.id]).(blink := Ref(nn)))
              && (forall j :: 0 <= j < nn && j != at && Ref(j) != t ==> heap[j] == old(heap[j]))
      ensures SameStacks() && randSeed == old(randSeed)
    {
      var h := heap;
      var temp := h[at].flink;
      h := h[at := h[at].(flink := Ref(nn))];
      h := h[nn := h[nn].(blink := Ref(at))];
      if temp.Ref? {
        h := h[temp.id := h[temp.id].(blink := Ref(nn))];
      }
      h := h[nn := h[nn].(flink := temp)];
      assert Closed(h);
      heap := h;
    }

    /** The BEFORE half of cgp_insert_node, on the freshly allocated `nn`. */
    method SpliceBefore(at: nat, nn: nat)
      requires Valid() && at < nn && nn == |heap| - 1 && heap[nn] == BLANK && heap[at].blink != Ref(nn)
      modifies this
      ensures Valid()
      ensures |heap| == |old(heap)| && nodes == old(nodes) && firstNode == old(firstNode)
      ensures var t := old(heap[at].blink);
              heap[nn] == BLANK.(flink := Ref(at), blink := t)
              && heap[at] == old(heap[at]).(blink := Ref(nn), flink := if t == Ref(at) then Ref(nn) else old(heap[at].flink))
              && (t.Ref? && t.id != at ==> heap[t.id] == old(heap[t.id]).(flink := Ref(nn)))
              && (forall j :: 0 <= j < nn && j != at && Ref(j) != t ==> heap[j] == old(heap[j]))
      ensures SameStacks() && randSeed == old(randSeed)
    {
      var h := heap;
      var temp := h[at].blink;
      h := h[at := h[at].(blink := Ref(nn))];
      h := h[nn := h[nn].(flink := Ref(at))];
      if temp.Ref? {
        h := h[temp.id := h[temp.id].(flink := Ref(nn))];
      }
      h := h[nn := h[nn].(blink := temp)];
      assert Closed(h);
      heap := h;
    }

    /** cgp_link_nodes: a new JMP node `E9 CC CC CC CC` between `first` and
        `second`, which `first` now falls through to. */
    method LinkNodes(first: nat, second: Ptr) returns (j: nat)
      requires Valid() && first < |heap| && PtrIn(second, |heap|)
      modifies this
      ensures Valid()
      ensures j == |old(heap)|
      ensures heap == old(heap)[first := old(heap[first]).(flink := Ref(j))]
                      + [Node(Jmp, LINK_JMP, 5, 0, Ref(first), second, Null)]
      ensures nodes == old(nodes) + [Ref(j)]
      ensures firstNode == (if old(firstNode).Null? then Ref(j) else old(firstNode))
      ensures SameStacks() && randSeed == old(randSeed)
    {
      j := AllocateNode();
      heap := heap[j := heap[j].(kind := Jmp, weight := 5)];
      heap := heap[j := heap[j].(data := LINK_JMP)];
      heap := heap[j := heap[j].(blink := Ref(first), flink := second)];
      heap := heap[first := heap[first].(flink := Ref(j))];
    }

    /** cgp_short2long on a node. */
    method Short2Long(id: nat)
      requires Valid() && id < |heap| && CanWiden(heap[id].data)
      modifies this
      ensures Valid()
      ensures var w := ShortToLong(old(heap[id].data), old(heap[id].weight));
              heap == old(heap)[id := old(heap[id]).(data := w.0, weight := w.1)]
      ensures nodes == old(nodes) && firstNode == old(firstNode) && SameStacks() && randSeed == old(randSeed)
    {
      var d := heap[id].data;
      if d[0] == OPCODE_JMP_REL8 {
        heap := heap[id := heap[id].(data := Overwrite(d, 0, [OPCODE_JMP_REL32] + CC4), weight := 5)];
      } else if 0x70 <= d[0] <= 0x7F {
        heap := heap[id := heap[id].(data := Overwrite(d, 0, [0x0F, d[0] + 0x10] + CC4), weight := 6)];
      }
    }

    /** cgp_long2short on a node, as written: long Jcc instructions are left alone. */
    method Long2Short(id: nat)
      requires Valid() && id < |heap| && CanNarrow(heap[id].data)
      modifies this
      ensures Valid()
      ensures var w := LongToShort(old(heap[id].data), old(heap[id].weight));
              heap == old(heap)[id := old(heap[id]).(data := w.0, weight := w.1)]
      ensures nodes == old(nodes) && firstNode == old(firstNode) && SameStacks() && randSeed == old(randSeed)
    {
      var d := heap[id].data;
      if d[0] == OPCODE_JMP_REL32 {
        heap := heap[id := heap[id].(data := Overwrite(d, 0, [OPCODE_JMP_REL8, PLACEHOLDER]), weight := 2)];
      } else if d[0] == 0x0F && 0x70 <= d[1] <= 0x7F {
        heap := heap[id := heap[id].(data := Overwrite(d, 0, [d[1] - 0x10, PLACEHOLDER]), weight := 2)];
      }
    }

    // ---- relocation -------------------------------------------------------

    /** Store the displacement of a branch of form `f` at `at` towards `target`. */
    static method PatchDisp(buff: array<byte>, f: BranchForm, at: u32, target: u32)
      requires at + FormLength(f) <= buff.Length
      modifies buff
      ensures buff[..] == Patch(old(buff[..]), f, at, target)
    {
      Copy(buff, at + DispPos(f), DispBytes(f, DispAsWritten(f, at, target)));
    }

    /** cgp_write_offset: patch the displacement of the branch placed at the
        node's position; returns 1 when it patched and 0 when the node, its
        position, its form or its target's position is missing. */
    method WriteOffset(p: Ptr, buff: array<byte>) returns (r: int)
      requires Valid() && PtrIn(p, |heap|)
      requires !Relocation(heap, p, buff[..]).OutOfBounds?
      modifies this, buff
      ensures Valid() && SameGraph() && SameStacks() && randSeed == old(randSeed)
      ensures var rel := Relocation(heap, p, old(buff[..]));
              r == (if rel.Written? then 1 else 0)
              && buff[..] == (if rel.Written? then rel.buff else old(buff[..]))
    {
      if p.Null? || heap[p.id].offset == INVALID_OFFSET {
        return 0;
      }
      var at := heap[p.id].offset;
      var f: BranchForm;
      if buff[at] == OPCODE_JMP_REL32 {
        f := JmpRel32;
      } else if buff[at] == OPCODE_JMP_REL8 {
        f := JmpRel8;
      } else if at + 1 < buff.Length && buff[at] == 0x0F && 0x80 <= buff[at + 1] <= 0x8F {
        f := LongJcc;
      } else if 0x70 <= buff[at] <= 0x7F {
        f := ShortJcc;
      } else if buff[at] == OPCODE_CALL {
        f := CallRel32;
      } else {
        assert FormOf(buff[at..]).None?;
        return 0;
      }
      assert FormOf(buff[at..]) == Some(f);
      if IsJmpForm(f) {
        r := PatchJmp(p.id, f, buff);
      } else {
        r := PatchConditional(p.id, f, buff);
      }
    }

    /** The JMP cases of cgp_write_offset: the guard tests FLink; a JMP with a
        CLink briefly swaps FLink and CLink so that the displacement reaches
        the CLink, and swaps them back. The swap is made on a copy of the
        record, which the swap back restores exactly, so the arena is left
        as it was. */
    method PatchJmp(id: nat, f: BranchForm, buff: array<byte>) returns (r: int)
      requires Valid() && id < |heap| && IsJmpForm(f)
      requires heap[id].offset != INVALID_OFFSET && heap[id].offset < buff.Length
      requires FormOf(buff[heap[id].offset..]) == Some(f)
      requires !Relocation(heap, Ref(id), buff[..]).OutOfBounds?
      modifies buff
      ensures var rel := Relocation(heap, Ref(id), old(buff[..]));
              r == (if rel.Written? then 1 else 0)
              && buff[..] == (if rel.Written? then rel.buff else old(buff[..]))
    {
      var n := heap[id];
      if n.flink.Null? || heap[n.flink.id].offset == INVALID_OFFSET {
        return 0;
      }
      var temp := Null;
      if n.clink.Ref? {
        temp := n.flink;
        n := n.(flink := n.clink);
      }
      PatchDisp(buff, f, n.offset, heap[n.flink.id].offset);
      if temp.Ref? {
        n := n.(clink := n.flink);
        n := n.(flink := temp);
      }
      assert n == heap[id];
      return 1;
    }

    /** The Jcc and CALL cases of cgp_write_offset: the target is the CLink. */
    method PatchConditional(id: nat, f: BranchForm, buff: array<byte>) returns (r: int)
      requires Valid() && id < |heap| && !IsJmpForm(f)
      requires heap[id].offset != INVALID_OFFSET && heap[id].offset < buff.Length
      requires FormOf(buff[heap[id].offset..]) == Some(f)
      requires !Relocation(heap, Ref(id), buff[..]).OutOfBounds?
      modifies buff
      ensures var rel := Relocation(heap, Ref(id), old(buff[..]));
              r == (if rel.Written? then 1 else 0)
              && buff[..] == (if rel.Written? then rel.buff else old(buff[..]))
    {
      var at := heap[id].offset;
      if heap[id].clink.Null? || heap[heap[id].clink.id].offset == INVALID_OFFSET {
        return 0;
      }
      PatchDisp(buff, f, at, heap[heap[id].clink.id].offset);
      return 1;
    }

    // ---- parsing ----------------------------------------------------------

    /** cgp_parse, lines 614-635: the traversal reached a position decoded
        before. A LINE predecessor is joined to it by a new link JMP; a Jcc or
        CALL predecessor takes it as FLink, or as CLink when its FLink is set;
        any other predecessor is left alone. */
    method JoinFound(last: nat, found: nat, ghost buff: seq<byte>)
      requires Valid() && ParseShape(heap, nodes, firstNode, buff) && last < |heap| && found < |heap|
      modifies this
      ensures Valid() && ParseShape(heap, nodes, firstNode, buff)
      ensures old(heap[last].kind) == Line ==>
                heap == old(heap)[last := old(heap[last]).(flink := Ref(|old(heap)|))]
                        + [Node(Jmp, LINK_JMP, 5, 0, Ref(last), Ref(found), Null)]
      ensures old(heap[last].kind) in {Jcc, Call} ==> heap == old(heap)[last := Attach(old(heap[last]), found)]
      ensures old(heap[last].kind) in {Jmp, Ret, Label} ==> heap == old(heap)
      ensures SameStacks() && randSeed == old(randSeed)
    {
      var k := heap[last].kind;
      if k == Line {
        ShapeAfterLink(heap, nodes, firstNode, last, Ref(found), buff);
        var j := LinkNodes(last, Ref(found));
      } else if k == Jcc || k == Call {
        ClosedUpdate(heap, last, Attach(heap[last], found));
        ShapeIgnoresLinks(heap, heap[last := Attach(heap[last], found)], nodes, firstNode, buff);
        heap := heap[last := Attach(heap[last], found)];
      }
    }

    /** cgp_parse, lines 638-661: the traversal left the input. A LINE
        predecessor loses its position and falls through to a new label; a Jcc
        predecessor takes a new label as FLink, or as CLink when its FLink is
        set; a CALL predecessor is an error (`ok` is false). */
    method JoinOutOfScope(last: nat, ghost buff: seq<byte>) returns (ok: bool)
      requires Valid() && ParseShape(heap, nodes, firstNode, buff) && last < |heap|
      modifies this
      ensures ok <==> old(heap[last].kind) != Call
      ensures Valid() && ParseShape(heap, nodes, firstNode, buff)
      ensures old(heap[last].kind) == Line ==>
                heap == old(heap)[last := old(heap[last]).(offset := INVALID_OFFSET, flink := Ref(|old(heap)|))]
                        + [LABEL]
      ensures old(heap[last].kind) == Jcc ==> heap == old(heap)[last := Attach(old(heap[last]), |old(heap)|)] + [LABEL]
      ensures old(heap[last].kind) in {Jmp, Ret, Label, Call} ==> heap == old(heap)
      ensures SameStacks() && randSeed == old(randSeed)
    {
      var k := heap[last].kind;
      if k == Call {
        return false;
      }
      if k == Line || k == Jcc {
        ghost var h0, nodes0 := heap, nodes;
        var cur := AllocateNode();
        var n := if k == Line then heap[last].(offset := INVALID_OFFSET, flink := Ref(cur))
                 else Attach(heap[last], cur);
        ClosedUpdate(heap, cur, LABEL);
        ClosedUpdate(heap[cur := LABEL], last, n);
        heap := heap[cur := LABEL][last := n];
        assert heap == h0[last := n] + [LABEL];
        ShapeAfterRelink(h0, nodes0, firstNode, last, n, buff);
      }
      return true;
    }

    /** cgp_parse, lines 693-758: a node for the instruction of length `n` at
        `offset`, attached after `last`. Its buffer gets a copy of the
        instruction (10 bytes for a Jcc, room for the long form), a Jcc or CALL
        is widened and its displacement replaced by the placeholder. Unless the
        instruction is a LOOP, the new node holds its source. */
    method NewInstruction(buff: seq<byte>, offset: u32, n: u32, last: Ptr) returns (cur: nat)
      requires Valid() && ParseShape(heap, nodes, firstNode, buff) && PtrIn(last, |heap|)
      requires offset < |buff| && offset + n <= |buff| && Fits(buff[offset..], n)
      requires GetNodeType(buff[offset..]) != Jmp
      requires GetNodeType(buff[offset..]) == Jcc ==> n <= 10
      requires forall i :: 0 <= i < |heap| ==> heap[i].offset != offset
      modifies this
      ensures Valid() && cur == |old(heap)| && nodes == old(nodes) + [Ref(cur)]
      ensures var s := buff[offset..];
              var image := NodeImage(s, n);
              heap == (if last.Ref? then old(heap)[last.id := Attach(old(heap[last.id]), cur)] else old(heap))
                      + [Node(GetNodeType(s), image.0, image.1, offset, last, Null, Null)]
      ensures !IsLoop(buff[offset..]) ==> ParseShape(heap, nodes, firstNode, buff)
      ensures SameStacks() && randSeed == old(randSeed)
    {
      var s := buff[offset..];
      var kind := GetNodeType(s);
      ghost var h0, nodes0, first0 := heap, nodes, firstNode;
      var image := NodeImage(s, n);
      var node := Node(kind, image.0, image.1, offset, last, Null, Null);
      NewShape(h0, nodes0, first0, last, |h0|, node, buff);
      cur := AllocateNode();
      var h := heap[..cur];
      if last.Ref? {
        h := h[last.id := Attach(h[last.id], cur)];
      }
      heap := h + [node];
      assert firstNode == if h0 == [] then Ref(cur) else first0;
      if !IsLoop(s) {
        assert HoldsSource(node, buff);
      }
    }

    /** cgp_parse: a depth-first traversal of the code from `entry`. Every
        instruction reached becomes a node, except a JMP, which is followed;
        a Jcc's target and a CALL's callee are taken up once the fall-through
        path ends (Jcc targets first); a RET resumes at the callee of the
        latest pending CALL. `lde` is the external length decoder; the loop
        runs at most `fuel` times. When the traversal finishes, no branch is
        pending and every decoded node holds the instruction at its position,
        at a position of its own. */
    method Parse(buff: seq<byte>, entry: u32, lde: Decoder, fuel: nat) returns (r: ParseOutcome)
      requires Valid() && Empty() && |buff| < TWO32 && CanonicalDecoder(lde)
      modifies this, jccStack, callStack
      ensures Valid() && randSeed == old(randSeed)
      ensures r.Parsed? ==> ParseShape(heap, nodes, firstNode, buff) && jccCount == 0 && callCount == 0
    {
      var offset: u32 := entry;
      var last: Ptr := Null;
      firstNode := Null;
      var steps := fuel;
      while steps > 0
        invariant Valid() && ParseShape(heap, nodes, firstNode, buff) && PtrIn(last, |heap|)
        invariant randSeed == old(randSeed)
      {
        steps := steps - 1;
        var found := Null;
        if offset < |buff| {
          found := FindByOffset(offset);
        }
        var c: Cursor;
        if offset >= |buff| || found.Ref? {
          c := Resume(buff, offset, last, found);
        } else {
          c := Visit(buff, offset, last, lde);
        }
        if c.Stop? {
          return c.outcome;
        }
        offset, last := c.offset, c.last;
      }
      return OutOfFuel;
    }

    /** cgp_parse, lines 611-680: the position is outside the input or was
        decoded before. The previous node is joined to what is there, then the
        traversal resumes at the target of the latest pending Jcc, else at the
        callee of the latest pending CALL, else it is finished. */
    method Resume(buff: seq<byte>, offset: u32, last: Ptr, found: Ptr) returns (c: Cursor)
      requires Valid() && ParseShape(heap, nodes, firstNode, buff) && PtrIn(last, |heap|) && PtrIn(found, |heap|)
      requires offset < |buff| ==> found.Ref?
      modifies this
      ensures Valid() && randSeed == old(randSeed)
      ensures c.Continue? || c.outcome.Parsed? ==> ParseShape(heap, nodes, firstNode, buff)
      ensures c.Continue? ==> PtrIn(c.last, |heap|)
      ensures c.Continue? ==> jccCount + callCount == old(jccCount) + old(callCount) - 1
      ensures c.Stop? && c.outcome.Parsed? ==> jccCount == 0 && callCount == 0
      ensures c.Stop? ==> c.outcome.Parsed? || c.outcome.CallOutOfScope? || c.outcome.Unsupported? || c.outcome.ReadPastEnd?
    {
      if offset < |buff| && last.Ref? {
        JoinFound(last.id, found.id, buff);
      }
      if offset > |buff| && last.Ref? {
        var ok := JoinOutOfScope(last.id, buff);
        if !ok {
          return Stop(CallOutOfScope);
        }
      }
      if jccCount != 0 {
        var top := PopJcc();
        var t := GetBranchOffset(buff, heap[top].offset);
        if !t.Target? {
          return Stop(BranchFailure(t, heap[top].offset));
        }
        return Continue(t.offset, Ref(top));
      }
      if callCount != 0 {
        var top := PopCall();
        var t := GetBranchOffset(buff, heap[top].offset);
        if !t.Target? {
          return Stop(BranchFailure(t, heap[top].offset));
        }
        return Continue(t.offset, Ref(top));
      }
      return Stop(Parsed);
    }

    /** cgp_parse, lines 682-821: the position holds an instruction not
        decoded yet. A JMP is followed without a node; anything else becomes a
        node after `last`. A LINE continues with the next instruction; a Jcc or
        CALL takes a decoded target as CLink or leaves it pending, and continues
        with the next instruction; a RET resumes at the callee of the latest
        pending CALL, or stays put (the next round finds it decoded) when none
        is pending. */
    method Visit(buff: seq<byte>, offset: u32, last: Ptr, lde: Decoder) returns (c: Cursor)
      requires Valid() && ParseShape(heap, nodes, firstNode, buff) && PtrIn(last, |heap|)
      requires |buff| < TWO32 && CanonicalDecoder(lde)
      requires offset < |buff| && forall i :: 0 <= i < |nodes| ==> !SlotAt(heap, nodes, i, offset)
      modifies this, jccStack, callStack
      ensures Valid() && randSeed == old(randSeed)
      ensures c.Continue? ==> ParseShape(heap, nodes, firstNode, buff) && PtrIn(c.last, |heap|)
      ensures c.Stop? ==> !c.outcome.Parsed? && !c.outcome.CallOutOfScope? && !c.outcome.OutOfFuel?
    {
      var s := buff[offset..];
      var size := lde(s);
      if size.None? {
        return Stop(DecodeFailed(offset));
      }
      var n := size.value;
      var kind := GetNodeType(s);
      if kind == Jmp {
        var t := GetBranchOffset(buff, offset);
        if !t.Target? {
          return Stop(BranchFailure(t, offset));
        }
        return Continue(t.offset, last);
      }
      if offset + n > |buff| {
        return Stop(ReadPastEnd(offset));
      }
      if kind == Jcc && n > 10 {
        return Stop(DataOverflow(offset));
      }
      assert forall i :: 0 <= i < |heap| ==> heap[i].offset != offset by {
        forall i | 0 <= i < |heap|
          ensures heap[i].offset != offset
        {
          assert !SlotAt(heap, nodes, i, offset);
        }
      }
      var cur := NewInstruction(buff, offset, n, last);
      if kind == Line {
        return Continue(offset + n, Ref(cur));
      }
      if kind == Jcc || kind == Call {
        c := FollowBranch(buff, offset, n, cur);
      } else {
        c := Return(buff, offset, cur);
      }
    }

    /** cgp_parse, lines 770-810: the new Jcc or CALL node `cur` at `offset`
        takes a decoded target as CLink; otherwise it is pushed on its
        worklist. The traversal goes on with the next instruction. */
    method FollowBranch(buff: seq<byte>, offset: u32, n: u32, cur: nat) returns (c: Cursor)
      requires Valid() && cur < |heap| && heap[cur].kind in {Jcc, Call} && |buff| < TWO32
      requires offset < |buff| && offset + n <= |buff| && GetNodeType(buff[offset..]) == heap[cur].kind
      requires !IsLoop(buff[offset..]) ==> ParseShape(heap, nodes, firstNode, buff)
      modifies this, jccStack, callStack
      ensures Valid() && randSeed == old(randSeed) && |heap| == |old(heap)|
      ensures c.Continue? ==> ParseShape(heap, nodes, firstNode, buff) && c == Continue(offset + n, Ref(cur))
      ensures c.Stop? ==> c.outcome.StackFull? || c.outcome.Unsupported? || c.outcome.ReadPastEnd?
    {
      var s := buff[offset..];
      var t := GetBranchOffset(buff, offset);
      if !t.Target? {
        return Stop(BranchFailure(t, offset));
      }
      ClassifierAgreesWithDecoder(s);
      var target := FindByOffset(t.offset);
      if target.Ref? {
        ClosedUpdate(heap, cur, heap[cur].(clink := target));
        ShapeIgnoresLinks(heap, heap[cur := heap[cur].(clink := target)], nodes, firstNode, buff);
        heap := heap[cur := heap[cur].(clink := target)];
      } else if heap[cur].kind == Jcc {
        if jccCount >= STACK_LIMIT {
          return Stop(StackFull);
        }
        var _ := PushJcc(cur);
      } else {
        if callCount >= STACK_LIMIT {
          return Stop(StackFull);
        }
        var _ := PushCall(cur);
      }
      return Continue(offset + n, Ref(cur));
    }

    /** cgp_parse, lines 813-821: after the new RET node `cur`, the traversal
        resumes at the callee of the latest pending CALL and attaches to that
        CALL, or stays at `offset` when no CALL is pending. */
    method Return(buff: seq<byte>, offset: u32, cur: nat) returns (c: Cursor)
      requires Valid() && cur < |heap|
      modifies this
      ensures Valid() && SameGraph() && randSeed == old(randSeed)
      ensures old(callCount) == 0 ==> c == Continue(offset, Ref(cur))
      ensures c.Continue? ==> PtrIn(c.last, |heap|)
      ensures c.Stop? ==> c.outcome.Unsupported? || c.outcome.ReadPastEnd?
    {
      if callCount == 0 {
        return Continue(offset, Ref(cur));
      }
      var top := PopCall();
      var t := GetBranchOffset(buff, heap[top].offset);
      if !t.Target? {
        return Stop(BranchFailure(t, heap[top].offset));
      }
      var back := FindByOffset(heap[top].offset);
      return Continue(t.offset, back);
    }

    // ---- layout -----------------------------------------------------------

    /** Place record `id` at the end of the layout: its position becomes the
        cursor and its first `weight` bytes are copied there. Fails when the
        weight exceeds the buffer or the copy would run past the output. */
    method Lay(id: nat, out: array<byte>, cursor: nat, ghost order: seq<nat>, ghost laid: seq<seq<byte>>)
      returns (r: BuildOutcome)
      requires Valid() && id < |heap| && id !in order && out.Length == CODE_BUFFER_LIMIT
      requires Laid(heap, order, laid) && Image(out[..], laid) && cursor == |Concat(laid)|
      modifies this, out
      ensures Valid() && nodes == old(nodes) && firstNode == old(firstNode) && SameStacks() && randSeed == old(randSeed)
      ensures r.Built? || r.BufferFull? || r.Unreadable?
      ensures r.Unreadable? <==> !Sized(old(heap[id]))
      ensures r.BufferFull? <==> Sized(old(heap[id])) && cursor + old(heap[id].weight) > CODE_BUFFER_LIMIT
      ensures !r.Built? ==> heap == old(heap) && out[..] == old(out[..])
      ensures r.Built? ==> Sized(old(heap[id])) && r.size == cursor + old(heap[id].weight) <= CODE_BUFFER_LIMIT
                           && heap == old(heap)[id := old(heap[id]).(offset := cursor)]
                           && Laid(heap, order + [id], laid + [Chunk(old(heap[id]))])
                           && Image(out[..], laid + [Chunk(old(heap[id]))])
                           && Concat(laid + [Chunk(old(heap[id]))]) == Concat(laid) + Chunk(old(heap[id]))
    {
      var n := heap[id];
      if n.weight > |n.data| {
        return Unreadable;
      }
      if cursor + n.weight > CODE_BUFFER_LIMIT {
        return BufferFull;
      }
      LaidAppend(heap, order, laid, id, cursor);
      ImageAppend(out[..], laid, Chunk(n));
      ConcatSnoc(laid, Chunk(n));
      heap := heap[id := n.(offset := cursor)];
      Copy(out, cursor, n.data[..n.weight]);
      return Built(cursor + n.weight);
    }

    /** cgp_build, lines 859-908: the walk reached record `id`, not placed
        yet and not a label. A Jcc or CALL whose CLink is not placed is pushed
        on its worklist. A JMP whose FLink is not placed yet is dropped from
        the graph (the walk goes on at that FLink, which the JMP would only
        jump to); anything else is placed, and when its FLink is placed
        already, a new link JMP to it is placed right after. The walk goes on
        at the record's FLink. */
    method PlaceInWalk(id: nat, out: array<byte>, cursor: nat, ghost order: seq<nat>, ghost laid: seq<seq<byte>>)
      returns (r: BuildOutcome, next: Ptr, ghost order': seq<nat>, ghost laid': seq<seq<byte>>)
      requires Valid() && LabelsBlank(heap) && id < |heap| && heap[id].kind != Label
      requires heap[id].offset == INVALID_OFFSET && out.Length == CODE_BUFFER_LIMIT
      requires Laid(heap, order, laid) && Image(out[..], laid) && cursor == |Concat(laid)| < CODE_BUFFER_LIMIT
      requires Accounted(heap, nodes, order)
      modifies this, out, jccStack, callStack
      ensures Valid() && LabelsBlank(heap) && randSeed == old(randSeed)
      ensures r.Built? || r.BufferFull? || r.Unreadable? || r.NullLink? || r.StackExhausted?
      ensures r.Built? ==> Laid(heap, order', laid') && Image(out[..], laid') && r.size == |Concat(laid')|
                           && r.size <= CODE_BUFFER_LIMIT && Accounted(heap, nodes, order') && PtrIn(next, |heap|)
    {
      order', laid' := order, laid;
      next := Null;
      var n := heap[id];
      if n.kind == Call || n.kind == Jcc {
        var fault := Defer(id);
        if fault.Some? {
          return fault.value, next, order', laid';
        }
      }
      if n.kind == Jmp {
        if n.flink.Null? {
          return NullLink, next, order', laid';
        }
        if heap[n.flink.id].offset == INVALID_OFFSET {
          next := DropJmp(id, order, laid);
          return Built(cursor), next, order', laid';
        }
      }
      r, order', laid' := LayThenLink(id, out, cursor, order, laid);
      next := heap[id].flink;
    }

    /** cgp_build, lines 880-905: the node is copied at the cursor and, unless
        it is a JMP, followed by a link JMP when its fall-through successor is
        already placed. */
    method LayThenLink(id: nat, out: array<byte>, cursor: nat, ghost order: seq<nat>, ghost laid: seq<seq<byte>>)
      returns (r: BuildOutcome, ghost order': seq<nat>, ghost laid': seq<seq<byte>>)
      requires Valid() && LabelsBlank(heap) && id < |heap| && out.Length == CODE_BUFFER_LIMIT
      requires heap[id].offset == INVALID_OFFSET
      requires Laid(heap, order, laid) && Image(out[..], laid) && cursor == |Concat(laid)| < CODE_BUFFER_LIMIT
      requires Accounted(heap, nodes, order)
      modifies this, out
      ensures Valid() && LabelsBlank(heap) && SameStacks() && randSeed == old(randSeed)
      ensures |heap| >= |old(heap)|
      ensures r.Built? || r.BufferFull? || r.Unreadable?
      ensures r.Built? ==> Laid(heap, order', laid') && Image(out[..], laid') && r.size == |Concat(laid')|
                           && r.size <= CODE_BUFFER_LIMIT && Accounted(heap, nodes, order')
    {
      order', laid' := order, laid;
      var n := heap[id];
      LaidValid(heap, order, laid);
      ghost var h0 := heap;
      r := Lay(id, out, cursor, order, laid);
      if !r.Built? {
        return;
      }
      AccountedPlace(h0, nodes, order, id, cursor);
      order', laid' := order + [id], laid + [Chunk(n)];
      var f := heap[id].flink;
      if n.kind != Jmp && f.Ref? && heap[f.id].offset != INVALID_OFFSET {
        r, order', laid' := EmitLink(id, out, r.size, order', laid');
      }
    }

    /** cgp_build, lines 864-874: a Jcc or CALL whose CLink is not placed yet
        waits on its worklist. The fault is the NULL CLink or the full worklist
        that stops the build. */
    method Defer(id: nat) returns (fault: Option<BuildOutcome>)
      requires Valid() && id < |heap| && heap[id].kind in {Jcc, Call}
      modifies this, jccStack, callStack
      ensures Valid() && SameGraph() && randSeed == old(randSeed)
      ensures fault == None || fault == Some(NullLink) || fault == Some(StackExhausted)
      ensures fault == Some(NullLink) <==> old(heap[id].clink).Null?
      ensures fault.None? ==>
                var c := old(heap[id].clink);
                if heap[c.id].offset != INVALID_OFFSET then SameStacks()
                else if heap[id].kind == Call then callCount == old(callCount) + 1 && jccCount == old(jccCount)
                     && callStack[callCount - 1] == id
                else jccCount == old(jccCount) + 1 && callCount == old(callCount) && jccStack[jccCount - 1] == id
    {
      var n := heap[id];
      if n.clink.Null? {
        return Some(NullLink);
      }
      if heap[n.clink.id].offset == INVALID_OFFSET {
        if n.kind == Call {
          if callCount >= STACK_LIMIT {
            return Some(StackExhausted);
          }
          var _ := PushCall(id);
        } else {
          if jccCount >= STACK_LIMIT {
            return Some(StackExhausted);
          }
          var _ := PushJcc(id);
        }
      }
      return None;
    }

    /** cgp_build, lines 876-879: a JMP whose FLink is not placed yet is taken
        out of the graph; the walk goes on at that FLink. */
    method DropJmp(id: nat, ghost order: seq<nat>, ghost laid: seq<seq<byte>>) returns (next: Ptr)
      requires Valid() && LabelsBlank(heap) && id < |heap| && Laid(heap, order, laid) && Accounted(heap, nodes, order)
      modifies this
      ensures Valid() && LabelsBlank(heap) && SameStacks() && randSeed == old(randSeed)
      ensures Laid(heap, order, laid) && Accounted(heap, nodes, order)
      ensures Ref(id) !in nodes && SameRecords(old(heap), heap) && next == old(heap[id].flink)
    {
      ghost var h0, nodes0 := heap, nodes;
      ExceptNode(id);
      assert SameRecords(h0, heap);
      LaidIgnoresLinks(h0, heap, order, laid);
      AccountedRelink(h0, nodes0, order, heap, nodes);
      next := heap[id].flink;
    }

    /** cgp_build, lines 886-905: a new link JMP `E9 CC CC CC CC` placed at
        the cursor, with the backward and forward links of record `id`; it is
        patched towards that forward link later. */
    method EmitLink(id: nat, out: array<byte>, cursor: nat, ghost order: seq<nat>, ghost laid: seq<seq<byte>>)
      returns (r: BuildOutcome, ghost order': seq<nat>, ghost laid': seq<seq<byte>>)
      requires Valid() && LabelsBlank(heap) && id < |heap| && out.Length == CODE_BUFFER_LIMIT
      requires Laid(heap, order, laid) && Image(out[..], laid) && cursor == |Concat(laid)| <= CODE_BUFFER_LIMIT
      requires Accounted(heap, nodes, order)
      modifies this, out
      ensures Valid() && LabelsBlank(heap) && SameStacks() && randSeed == old(randSeed)
      ensures r.Built? || r.BufferFull?
      ensures |heap| == |old(heap)| + 1 && heap[..|old(heap)|] == old(heap)
      ensures heap[|old(heap)|].kind == Jmp && heap[|old(heap)|].data == LINK_JMP
      ensures heap[|old(heap)|].blink == old(heap[id].blink) && heap[|old(heap)|].flink == old(heap[id].flink)
      ensures r.Built? ==> Laid(heap, order', laid') && Image(out[..], laid') && r.size == |Concat(laid')|
                           && r.size <= CODE_BUFFER_LIMIT && Accounted(heap, nodes, order')
                           && heap[|old(heap)|].offset == cursor && order' == order + [|old(heap)|]
    {
      ghost var nodes0 := nodes;
      r, order', laid' := PlaceLink(heap[id].blink, heap[id].flink, out, cursor, order, laid);
      if r.Built? {
        var j := |old(heap)|;
        AccountedRelink(old(heap), nodes0, order, heap, nodes0);
        assert Accounted(heap, nodes0, order + [j]);
        AccountedNewSlot(heap, nodes0, order', j);
      }
    }

    /** A new link JMP `E9 CC CC CC CC` between `b` and `f`, placed at the
        cursor (cgp_build, lines 886-905, and cgp_build_spaghetti, lines
        995-1011 and 1032-1047). */
    method PlaceLink(b: Ptr, f: Ptr, out: array<byte>, cursor: nat, ghost order: seq<nat>, ghost laid: seq<seq<byte>>)
      returns (r: BuildOutcome, ghost order': seq<nat>, ghost laid': seq<seq<byte>>)
      requires Valid() && PtrIn(b, |heap|) && PtrIn(f, |heap|) && out.Length == CODE_BUFFER_LIMIT
      requires Laid(heap, order, laid) && Image(out[..], laid) && cursor == |Concat(laid)| <= CODE_BUFFER_LIMIT
      modifies this, out
      ensures Valid() && SameStacks() && randSeed == old(randSeed)
      ensures LabelsBlank(old(heap)) ==> LabelsBlank(heap)
      ensures r.Built? || r.BufferFull?
      ensures r.BufferFull? <==> cursor + 5 > CODE_BUFFER_LIMIT
      ensures nodes == old(nodes) + [Ref(|old(heap)|)] && |heap| == |old(heap)| + 1
      ensures heap == old(heap) + [LinkAt(if r.Built? then cursor else 0, b, f)]
      ensures r.Built? ==> Laid(heap, order', laid') && Image(out[..], laid') && r.size == |Concat(laid')| == cursor + 5
                           && order' == order + [|old(heap)|]
    {
      order', laid' := order, laid;
      var j := NewLink(b, f);
      LaidGrows(old(heap), [LinkAt(0, b, f)], order, laid);
      assert Chunk(heap[j]) == LINK_JMP by {
        assert LINK_JMP[..5] == LINK_JMP;
      }
      ghost var h1 := heap;
      r := Lay(j, out, cursor, order, laid);
      AppendUpdate(old(heap), LinkAt(0, b, f), LinkAt(if r.Built? then cursor else 0, b, f));
      LabelsBlankAppend(old(heap), LinkAt(if r.Built? then cursor else 0, b, f));
      if r.Built? {
        order', laid' := order + [j], laid + [LINK_JMP];
      }
    }

    /** A new JMP `E9 CC CC CC CC` record between `b` and `f`, not placed yet
        and not linked from anywhere. */
    method NewLink(b: Ptr, f: Ptr) returns (j: nat)
      requires Valid() && PtrIn(b, |heap|) && PtrIn(f, |heap|)
      modifies this
      ensures Valid() && SameStacks() && randSeed == old(randSeed)
      ensures LabelsBlank(old(heap)) ==> LabelsBlank(heap)
      ensures j == |old(heap)| && heap == old(heap) + [LinkAt(0, b, f)]
      ensures nodes == old(nodes) + [Ref(j)]
    {
      j := AllocateNode();
      heap := heap[j := LinkAt(0, b, f)];
      LabelsBlankAppend(old(heap), LinkAt(0, b, f));
    }

    /** cgp_build: lay the graph out into a fresh 64 KiB buffer and return
        the size laid out. The records placed (`order`, with their bytes `laid`)
        follow one another from position 0 without gap or overlap, every live
        node is among them, and the buffer is that layout, zero-filled, with
        every live branch relocated. `fuel` bounds the walk. */
    method Build(fuel: nat) returns (r: BuildOutcome, out: array<byte>, ghost order: seq<nat>, ghost laid: seq<seq<byte>>)
      requires Valid() && LabelsBlank(heap)
      modifies this, jccStack, callStack
      ensures fresh(out) && out.Length == CODE_BUFFER_LIMIT
      ensures Valid() && LabelsBlank(heap) && randSeed == old(randSeed)
      ensures r.Built? || r.NullLink? || r.BufferFull? || r.Unreadable? || r.StackExhausted?
              || r.WriteOutOfBounds? || r.WalkUnfinished?
      ensures r.Built? ==> Emitted(heap, nodes, order, laid, r.size, out[..])
      ensures r.WriteOutOfBounds? ==>
                Laid(heap, order, laid) && |Concat(laid)| <= CODE_BUFFER_LIMIT
                && RelocateAll(heap, nodes, Concat(laid) + Fill(0, CODE_BUFFER_LIMIT - |Concat(laid)|)).None?
    {
      out := new byte[CODE_BUFFER_LIMIT](_ => 0);
      r, order, laid := Place(out, fuel);
      if !r.Built? {
        return;
      }
      var size := r.size;
      ghost var image, h1, n1 := out[..], heap, nodes;
      assert image == Concat(laid) + Fill(0, CODE_BUFFER_LIMIT - size);
      var ok := Relocate(out);
      assert heap == h1 && nodes == n1;
      if !ok {
        assert RelocateAll(heap, nodes, image).None?;
        return WriteOutOfBounds, out, order, laid;
      }
      assert RelocateAll(heap, nodes, image) == Some(out[..]);
      return Built(size), out, order, laid;
    }

    /** cgp_build, lines 843-937: with empty stacks and every position
        reset, the walk and then the sweep place every live node. */
    method Place(out: array<byte>, fuel: nat) returns (r: BuildOutcome, ghost order: seq<nat>, ghost laid: seq<seq<byte>>)
      requires Valid() && LabelsBlank(heap) && out.Length == CODE_BUFFER_LIMIT && out[..] == Fill(0, CODE_BUFFER_LIMIT)
      modifies this, out, jccStack, callStack
      ensures Valid() && LabelsBlank(heap) && randSeed == old(randSeed)
      ensures r.Built? || r.NullLink? || r.BufferFull? || r.Unreadable? || r.StackExhausted? || r.WalkUnfinished?
      ensures r.Built? ==>
                Laid(heap, order, laid) && Image(out[..], laid) && r.size == |Concat(laid)| <= CODE_BUFFER_LIMIT
                && forall i :: 0 <= i < |nodes| && nodes[i].Ref? ==> nodes[i].id in order
    {
      callCount := 0;
      jccCount := 0;
      Reset();
      r, order, laid := Walk(out, fuel);
      if r.Built? {
        r, order, laid := Sweep(out, r.size, order, laid);
      }
    }

    /** cgp_build, lines 848-851: every live node loses its position. */
    method Reset()
      requires Valid()
      modifies this
      ensures Valid() && nodes == old(nodes) && firstNode == old(firstNode) && SameStacks() && randSeed == old(randSeed)
      ensures |heap| == |old(heap)|
      ensures forall j :: 0 <= j < |heap| ==>
                heap[j] == if Ref(j) in nodes then old(heap[j]).(offset := INVALID_OFFSET) else old(heap[j])
    {
      var h := heap;
      for i := 0 to |nodes|
        invariant |h| == |heap|
        invariant forall j :: 0 <= j < |h| ==>
                    h[j] == if Ref(j) in nodes[..i] then heap[j].(offset := INVALID_OFFSET) else heap[j]
      {
        if nodes[i].Ref? {
          h := h[nodes[i].id := h[nodes[i].id].(offset := INVALID_OFFSET)];
        }
        assert nodes[..i + 1] == nodes[..i] + [nodes[i]];
      }
      assert nodes[..|nodes|] == nodes;
      assert Closed(h);
      heap := h;
    }

    /** cgp_build, lines 853-927: the walk from the first node along forward
        links, taking up pending Jcc targets and then pending callees whenever
        it reaches NULL or a placed node. Every record it reaches is placed
        right after the previous one. The loop runs at most `fuel` times. */
    method Walk(out: array<byte>, fuel: nat) returns (r: BuildOutcome, ghost order: seq<nat>, ghost laid: seq<seq<byte>>)
      requires Valid() && LabelsBlank(heap) && out.Length == CODE_BUFFER_LIMIT && out[..] == Fill(0, CODE_BUFFER_LIMIT)
      requires forall i :: 0 <= i < |nodes| && nodes[i].Ref? ==> heap[nodes[i].id].offset == INVALID_OFFSET
      modifies this, out, jccStack, callStack
      ensures Valid() && LabelsBlank(heap) && randSeed == old(randSeed)
      ensures r.Built? || r.BufferFull? || r.Unreadable? || r.NullLink? || r.StackExhausted? || r.WalkUnfinished?
      ensures r.Built? ==> Laid(heap, order, laid) && Image(out[..], laid) && r.size == |Concat(laid)| <= CODE_BUFFER_LIMIT
                           && Accounted(heap, nodes, order)
    {
      order, laid := [], [];
      assert Image(out[..], laid);
      var cursor: nat := 0;
      var cur := firstNode;
      var steps := fuel;
      while cur.Ref?
        invariant Valid() && LabelsBlank(heap) && randSeed == old(randSeed) && PtrIn(cur, |heap|)
        invariant Laid(heap, order, laid) && Image(out[..], laid) && cursor == |Concat(laid)| <= CODE_BUFFER_LIMIT
        invariant Accounted(heap, nodes, order)
        decreases steps
      {
        if steps == 0 {
          return WalkUnfinished, order, laid;
        }
        steps := steps - 1;
        if cursor >= CODE_BUFFER_LIMIT {
          return BufferFull, order, laid;
        }
        var id := cur.id;
        if heap[id].offset == INVALID_OFFSET {
          if heap[id].kind == Label {
            LaidValid(heap, order, laid);
            ghost var h0 := heap;
            r := Lay(id, out, cursor, order, laid);
            AccountedPlace(h0, nodes, order, id, cursor);
            order, laid := order + [id], laid + [Chunk(h0[id])];
            cur := heap[id].flink;
          } else {
            r, cur, order, laid := PlaceInWalk(id, out, cursor, order, laid);
            if !r.Built? {
              return r, order, laid;
            }
          }
          cursor := r.size;
        } else {
          cur := Null;
        }
        if cur.Null? {
          if jccCount != 0 {
            var top := PopJcc();
            cur := heap[top].clink;
          } else if callCount != 0 {
            var top := PopCall();
            cur := heap[top].clink;
          }
        }
      }
      return Built(cursor), order, laid;
    }

    /** cgp_build, lines 929-937: every live node the walk did not reach is
        placed after the others. */
    method Sweep(out: array<byte>, cursor: nat, ghost order: seq<nat>, ghost laid: seq<seq<byte>>)
      returns (r: BuildOutcome, ghost order': seq<nat>, ghost laid': seq<seq<byte>>)
      requires Valid() && LabelsBlank(heap) && out.Length == CODE_BUFFER_LIMIT
      requires Laid(heap, order, laid) && Image(out[..], laid) && cursor == |Concat(laid)| <= CODE_BUFFER_LIMIT
      requires Accounted(heap, nodes, order)
      modifies this, out
      ensures Valid() && LabelsBlank(heap) && nodes == old(nodes) && SameStacks() && randSeed == old(randSeed)
      ensures r.Built? || r.BufferFull? || r.Unreadable?
      ensures r.Built? ==> Laid(heap, order', laid') && Image(out[..], laid') && r.size == |Concat(laid')| <= CODE_BUFFER_LIMIT
                           && forall i :: 0 <= i < |nodes| && nodes[i].Ref? ==> nodes[i].id in order'
    {
      order', laid' := order, laid;
      var size := cursor;
      for i := 0 to |nodes|
        invariant Valid() && LabelsBlank(heap) && nodes == old(nodes) && SameStacks() && randSeed == old(randSeed)
        invariant Laid(heap, order', laid') && Image(out[..], laid') && size == |Concat(laid')| <= CODE_BUFFER_LIMIT
        invariant Accounted(heap, nodes, order')
        invariant forall j :: 0 <= j < i && nodes[j].Ref? ==> nodes[j].id in order'
      {
        if nodes[i].Ref? && heap[nodes[i].id].offset == INVALID_OFFSET {
          var id := nodes[i].id;
          LaidValid(heap, order', laid');
          ghost var h0 := heap;
          r := Lay(id, out, size, order', laid');
          if !r.Built? {
            return r, order', laid';
          }
          AccountedPlace(h0, nodes, order', id, size);
          order', laid' := order' + [id], laid' + [Chunk(h0[id])];
          size := r.size;
        }
      }
      return Built(size), order', laid';
    }

    /** cgp_build, lines 939-947, and cgp_build_spaghetti, lines 1050-1061:
        cgp_write_offset on every live JMP, Jcc and CALL node in slot order.
        Fails, with the buffer as far as it got, where a patch would write
        past the buffer. */
    method Relocate(out: array<byte>) returns (ok: bool)
      requires Valid()
      modifies this, out
      ensures Valid() && SameGraph() && SameStacks() && randSeed == old(randSeed)
      ensures ok <==> RelocateAll(heap, nodes, old(out[..])).Some?
      ensures ok ==> RelocateAll(heap, nodes, old(out[..])) == Some(out[..])
    {
      ghost var b0 := out[..];
      for i := 0 to |nodes|
        invariant Valid() && SameGraph() && SameStacks() && randSeed == old(randSeed)
        invariant RelocateAll(heap, nodes[..i], b0) == Some(out[..])
      {
        RelocateAllStep(heap, nodes, b0, i);
        ghost var b1 := out[..];
        var p := nodes[i];
        if p.Ref? && IsBranchKind(heap[p.id].kind) {
          if Relocation(heap, p, out[..]).OutOfBounds? {
            assert RelocateSlot(heap, p, b1).None?;
            RelocateAllStops(heap, nodes, b0, i + 1);
            return false;
          }
          var _ := WriteOffset(p, out);
        }
        assert RelocateSlot(heap, p, b1) == Some(out[..]);
      }
      assert nodes[..|nodes|] == nodes;
      return true;
    }

    // ---- transformations --------------------------------------------------

    /** One step of cgp_add_reduntant_nop: a one-byte NOP LINE node inserted
        after record `a`, between it and its old successor. */
    method AddNop(a: nat) returns (x: nat)
      requires Valid() && a < |heap|
      modifies this
      ensures Valid() && SameStacks() && randSeed == old(randSeed)
      ensures x == |old(heap)| && |heap| == x + 1 && nodes == old(nodes) + [Ref(x)]
      ensures heap[x] == Nop(a, old(heap[a].flink))
      ensures heap[a] == old(heap[a]).(flink := Ref(x),
                                       blink := if old(heap[a].flink) == Ref(a) then Ref(x) else old(heap[a].blink))
      ensures forall j :: 0 <= j < x && j != a ==>
                heap[j] == old(heap[j]).(blink := if Ref(j) == old(heap[a].flink) then Ref(x) else old(heap[j].blink))
      ensures firstNode == (if old(firstNode).Null? then Ref(x) else old(firstNode))
      ensures heap == WithNop(old(heap), a)
    {
      x := InsertNode(a, After);
      heap := heap[x := heap[x].(weight := 1, data := [OPCODE_NOP], clink := Null, kind := Line)];
      WithNopRecords(old(heap), a);
    }

    /** The loop of cgp_add_reduntant_nop over the first `m` slots: a NOP
        after the node of each live slot, in slot order. */
    method AddNops(m: nat)
      requires Valid() && m <= |nodes|
      modifies this
      ensures Valid() && SameStacks() && randSeed == old(randSeed)
      ensures (heap, nodes) == NopsAll(old(heap), old(nodes), m)
      ensures firstNode == if old(firstNode).Null? && |heap| > |old(heap)| then Ref(|old(heap)|) else old(firstNode)
    {
      for i := 0 to m
        invariant Valid() && SameStacks() && randSeed == old(randSeed)
        invariant (heap, nodes) == NopsAll(old(heap), old(nodes), i)
        invariant firstNode == if old(firstNode).Null? && |heap| > |old(heap)| then Ref(|old(heap)|) else old(firstNode)
      {
        assert nodes[i] == old(nodes)[i];
        if nodes[i].Ref? {
          var _ := AddNop(nodes[i].id);
        }
      }
    }

    /** cgp_add_reduntant_nop: a one-byte NOP after every live node of the
        slots before the last. Every such node now falls through to its own
        NOP, which falls through to the node's old successor; the instructions
        themselves are untouched. With no slot at all the source's 32-bit loop
        bound `count - 1` wraps around and the loop reads past the slot array:
        `ok` is false and nothing changes. */
    method AddRedundantNop() returns (ok: bool)
      requires Valid()
      modifies this
      ensures Valid() && SameStacks() && randSeed == old(randSeed)
      ensures ok <==> |old(nodes)| > 0
      ensures !ok ==> heap == old(heap) && nodes == old(nodes)
      ensures ok ==> (heap, nodes) == NopsAll(old(heap), old(nodes), |old(nodes)| - 1)
      ensures |heap| >= |old(heap)| && SameRecords(old(heap), heap[..|old(heap)|])
      ensures |nodes| >= |old(nodes)| && nodes[..|old(nodes)|] == old(nodes)
      ensures forall i :: 0 <= i < |old(nodes)| - 1 && old(nodes)[i].Ref? ==>
                var a := old(nodes)[i].id;
                heap[a].flink.Ref? && |old(heap)| <= heap[a].flink.id < |heap|
                && heap[heap[a].flink.id] == Nop(a, old(heap[a].flink))
      ensures forall i :: |old(nodes)| <= i < |nodes| ==> nodes[i].Ref? && |old(heap)| <= nodes[i].id < |heap|
      ensures forall y :: |old(heap)| <= y < |heap| ==> heap[y].kind == Line
      ensures ok ==> |nodes| - |old(nodes)| == LiveBefore(old(nodes), |old(nodes)| - 1)
      ensures ok ==> forall b :: 0 <= b < |old(heap)| && !Slotted(old(nodes), |old(nodes)| - 1, b) ==>
                       heap[b].flink == old(heap[b].flink)
      ensures ok ==> BackToNops(old(heap), old(nodes), |old(nodes)| - 1, heap)
      ensures firstNode == if old(firstNode).Null? && |heap| > |old(heap)| then Ref(|old(heap)|) else old(firstNode)
      ensures LabelsBlank(old(heap)) ==> LabelsBlank(heap)
    {
      if |nodes| == 0 {
        return false;
      }
      AddNops(|nodes| - 1);
      NopsAddedDone(old(heap), old(nodes), |old(nodes)| - 1, heap, nodes);
      LabelsBlankGrow(old(heap), heap);
      return true;
    }

    /** cgp_build_reduntant_nop: add the NOPs, then build. */
    method BuildRedundantNop(fuel: nat) returns (r: BuildOutcome, out: array<byte>, ghost order: seq<nat>, ghost laid: seq<seq<byte>>)
      requires Valid() && LabelsBlank(heap)
      modifies this, jccStack, callStack
      ensures fresh(out) && out.Length == CODE_BUFFER_LIMIT
      ensures Valid() && LabelsBlank(heap) && randSeed == old(randSeed)
      ensures r.Built? ==> Emitted(heap, nodes, order, laid, r.size, out[..])
    {
      var ok := AddRedundantNop();
      if !ok {
        out := new byte[CODE_BUFFER_LIMIT](_ => 0);
        return SlotOverrun, out, [], [];
      }
      r, out, order, laid := Build(fuel);
    }

    /** cgp_build_spaghetti, lines 1017-1047: the node `id` of a slot placed
        at the cursor and, unless it is a RET, followed by a new link JMP with
        the node's backward and forward links, which is patched later to jump
        to where the node would have fallen through. */
    method SpaghettiStep(id: nat, out: array<byte>, cursor: nat, ghost order: seq<nat>, ghost laid: seq<seq<byte>>,
                         ghost links: map<nat, nat>)
      returns (r: BuildOutcome, ghost order': seq<nat>, ghost laid': seq<seq<byte>>, ghost links': map<nat, nat>)
      requires Valid() && id < |heap| && id !in order && out.Length == CODE_BUFFER_LIMIT
      requires Laid(heap, order, laid) && Image(out[..], laid) && cursor == |Concat(laid)| < CODE_BUFFER_LIMIT
      modifies this, out
      ensures Valid() && SameStacks() && randSeed == old(randSeed)
      ensures r.Built? || r.BufferFull? || r.Unreadable?
      ensures |heap| >= |old(heap)| && |nodes| >= |old(nodes)| && nodes[..|old(nodes)|] == old(nodes)
      ensures r.Built? ==>
                Laid(heap, order', laid') && Image(out[..], laid') && r.size == |Concat(laid')| <= CODE_BUFFER_LIMIT
                && r.size == cursor + Footprint(old(heap), Ref(id))
                && Placed(old(heap), id, cursor, heap, order, order', links, links')
      ensures r.Built? ==> nodes == old(nodes) + if old(heap[id].kind) == Ret then [] else [Ref(|old(heap)|)]
      ensures r.Unreadable? ==> !Sized(old(heap[id]))
      ensures r.BufferFull? ==> cursor + Footprint(old(heap), Ref(id)) > CODE_BUFFER_LIMIT
    {
      order', laid', links' := order, laid, links;
      ghost var h0 := heap;
      var n := heap[id];
      r := Lay(id, out, cursor, order, laid);
      if r.Built? {
        ghost var h1 := heap;
        if n.kind == Ret {
          order', laid' := order + [id], laid + [Chunk(n)];
          assert Placed(h0, id, cursor, heap, order, order', links, links');
        } else {
          links' := links[id := |heap|];
          var at := r.size;
          r, order', laid' := PlaceLink(n.blink, n.flink, out, at, order + [id], laid + [Chunk(n)]);
          assert heap == h1 + [LinkAt(if r.Built? then at else 0, n.blink, n.flink)];
          assert r.Built? ==> Placed(h0, id, cursor, heap, order, order', links, links');
        }
      }
    }

    /** cgp_build_spaghetti: shuffle the slots, then lay every live node out
        in the shuffled slot order, each but a RET followed by a JMP to where
        it would have fallen through, behind an entry JMP to the first node,
        and relocate every branch of that image. The size laid out does not
        depend on the shuffle. */
    method BuildSpaghetti() returns (r: BuildOutcome, out: array<byte>,
                                     ghost order: seq<nat>, ghost laid: seq<seq<byte>>, ghost links: map<nat, nat>,
                                     ghost image: seq<byte>)
      requires Valid()
      modifies this
      ensures fresh(out) && out.Length == CODE_BUFFER_LIMIT
      ensures Valid() && SameStacks()
      ensures r.Built? || r.BufferFull? || r.Unreadable? || r.TooManyNodes? || r.WriteOutOfBounds?
      ensures r.TooManyNodes? <==> |old(nodes)| > MAX_BOUND
      ensures r.Built? || r.WriteOutOfBounds? ==>
                |nodes| >= |old(nodes)|
                && var slots, size := nodes[..|old(nodes)|], |Concat(laid)|;
                slots == Shuffle(old(nodes), old(randSeed), |old(nodes)|).0 && SlotsIn(slots, |old(heap)|)
                && SpaghettiLayout(old(heap), slots, old(firstNode), heap, order, laid, size, links)
                && size == (if old(firstNode).Ref? then 5 else 0) + SpaghettiSize(old(heap), old(nodes))
                && image == Concat(laid) + Fill(0, CODE_BUFFER_LIMIT - size)
      ensures r.Built? ==> r.size == |Concat(laid)| && RelocateAll(heap, nodes, image) == Some(out[..])
      ensures r.WriteOutOfBounds? ==> RelocateAll(heap, nodes, image).None?
      ensures SpaghettiFailure(old(heap), old(nodes), old(firstNode), r)
    {
      out := new byte[CODE_BUFFER_LIMIT](_ => 0);
      order, laid, links, image := [], [], map[], [];
      if |nodes| > MAX_BOUND {
        return TooManyNodes, out, order, laid, links, image;
      }
      assert out[..] == Fill(0, CODE_BUFFER_LIMIT);
      r, order, laid, links := ShuffleAndLay(out);
      if !r.Built? {
        return;
      }
      image := out[..];
      ghost var h1, n1 := heap, nodes;
      assert image == Concat(laid) + Fill(0, CODE_BUFFER_LIMIT - r.size);
      var ok := Relocate(out);
      if !ok {
        return WriteOutOfBounds, out, order, laid, links, image;
      }
      assert heap == h1 && nodes == n1;
      assert RelocateAll(heap, nodes, image) == Some(out[..]);
    }

    /** cgp_build_spaghetti, lines 985-1048: shuffle the slots, then lay out
        the entry JMP and every live node in the new slot order. */
    method ShuffleAndLay(out: array<byte>) returns (r: BuildOutcome,
                                                    ghost order: seq<nat>, ghost laid: seq<seq<byte>>, ghost links: map<nat, nat>)
      requires Valid() && |nodes| <= MAX_BOUND && out.Length == CODE_BUFFER_LIMIT && out[..] == Fill(0, CODE_BUFFER_LIMIT)
      modifies this, out
      ensures Valid() && SameStacks()
      ensures r.Built? || r.BufferFull? || r.Unreadable?
      ensures r.Built? ==>
                |nodes| >= |old(nodes)|
                && var slots := nodes[..|old(nodes)|];
                slots == Shuffle(old(nodes), old(randSeed), |old(nodes)|).0 && SlotsIn(slots, |old(heap)|)
                && SpaghettiLayout(old(heap), slots, old(firstNode), heap, order, laid, r.size, links)
                && r.size == (if old(firstNode).Ref? then 5 else 0) + SpaghettiSize(old(heap), old(nodes))
                && Image(out[..], laid) && r.size == |Concat(laid)|
      ensures SpaghettiFailure(old(heap), old(nodes), old(firstNode), r)
    {
      ShuffleArray();
      SpaghettiSizePermutes(heap, old(nodes), nodes);
      ghost var slots, entry := nodes, firstNode;
      assert heap == old(heap) && entry == old(firstNode);
      r, order, laid, links := LaySpaghetti(out);
      SpaghettiFailurePermutes(old(heap), old(nodes), slots, entry, r);
      if r.Built? {
        assert nodes[..|old(nodes)|] == slots;
      }
    }

    /** cgp_build_spaghetti, lines 995-1048: the entry JMP, then every live
        node in slot order with its link JMP. */
    method LaySpaghetti(out: array<byte>) returns (r: BuildOutcome,
                                                   ghost order: seq<nat>, ghost laid: seq<seq<byte>>, ghost links: map<nat, nat>)
      requires Valid() && out.Length == CODE_BUFFER_LIMIT && out[..] == Fill(0, CODE_BUFFER_LIMIT)
      modifies this, out
      ensures Valid() && SameStacks() && randSeed == old(randSeed)
      ensures r.Built? || r.BufferFull? || r.Unreadable?
      ensures r.Built? ==>
                |nodes| >= |old(nodes)| && nodes[..|old(nodes)|] == old(nodes) && Image(out[..], laid)
                && SpaghettiLayout(old(heap), old(nodes), old(firstNode), heap, order, laid, r.size, links)
      ensures SpaghettiFailure(old(heap), old(nodes), old(firstNode), r)
    {
      ghost var hs, slots := heap, nodes;
      assert nodes[..|nodes|] == nodes;
      order, laid, links := [], [], map[];
      assert Image(out[..], laid);
      var count := |nodes|;
      var cursor: nat := 0;
      r := Built(0);
      if firstNode.Ref? {
        r, order, laid := PlaceLink(Null, firstNode, out, 0, order, laid);
        cursor := 5;
      }
      assert slots[..0] == [];
      for i := 0 to count
        invariant SameStacks() && randSeed == old(randSeed)
        invariant LaidOut(hs, slots, i, old(firstNode), out, cursor, order, laid, links)
      {
        r, cursor, order, laid, links := SpaghettiSlot(i, out, cursor, hs, slots, old(firstNode), order, laid, links);
        if !r.Built? {
          return r, order, laid, links;
        }
      }
      SpaghettiPrefixComplete(hs, slots, old(firstNode), heap, order, laid, cursor, links);
      r := Built(cursor);
    }

    /** The state of cgp_build_spaghetti after the entry JMP and the first
        `i` of the shuffled `slots`: the records laid out so far, in `order`,
        are the image in `out`; the nodes of those slots are placed, those of
        the later slots are not, and the layout is the one the slot order
        dictates. */
    ghost predicate LaidOut(hs: seq<Node>, slots: seq<Ptr>, i: nat, entry: Ptr, out: array<byte>, cursor: nat,
                            order: seq<nat>, laid: seq<seq<byte>>, links: map<nat, nat>)
      reads this, jccStack, callStack, out
    {
      Valid() && i <= |slots| && SlotsIn(slots, |hs|) && DistinctSlots(slots)
      && |nodes| >= |slots| && nodes[..|slots|] == slots
      && out.Length == CODE_BUFFER_LIMIT
      && Laid(heap, order, laid) && Image(out[..], laid) && cursor == |Concat(laid)| <= CODE_BUFFER_LIMIT
      && SpaghettiPrefix(hs, slots, i, entry, heap, order, cursor, links)
    }

    /** cgp_build_spaghetti, lines 1013-1048, for slot `i`: an empty slot is
        skipped, a live node is placed with its link JMP. */
    method SpaghettiSlot(i: nat, out: array<byte>, cursor: nat, ghost hs: seq<Node>, ghost slots: seq<Ptr>, ghost entry: Ptr,
                         ghost order: seq<nat>, ghost laid: seq<seq<byte>>, ghost links: map<nat, nat>)
      returns (r: BuildOutcome, cursor': nat, ghost order': seq<nat>, ghost laid': seq<seq<byte>>, ghost links': map<nat, nat>)
      requires i < |slots| && LaidOut(hs, slots, i, entry, out, cursor, order, laid, links)
      modifies this, out
      ensures Valid() && SameStacks() && randSeed == old(randSeed)
      ensures r.Built? || r.BufferFull? || r.Unreadable?
      ensures r.Built? ==> LaidOut(hs, slots, i + 1, entry, out, cursor', order', laid', links')
      ensures SpaghettiFailure(hs, slots, entry, r)
    {
      cursor', order', laid', links' := cursor, order, laid, links;
      r := Built(cursor);
      if nodes[i].Null? {
        assert slots[i].Null?;
        SpaghettiPrefixStep(hs, slots, i, entry, heap, order, cursor, links, heap, order, cursor, links);
        return;
      }
      r, order', laid', links' := PlaceSlot(i, nodes[i].id, out, cursor, hs, slots, entry, order, laid, links);
      if r.Built? {
        cursor' := r.size;
      } else {
        SpaghettiFailureAt(hs, slots, i, entry, cursor, r);
      }
    }

    /** cgp_build_spaghetti, lines 1019-1047, for a live slot `i`: its node at
        the cursor, followed by its link JMP unless it is a RET. */
    method PlaceSlot(i: nat, id: nat, out: array<byte>, cursor: nat, ghost hs: seq<Node>, ghost slots: seq<Ptr>, ghost entry: Ptr,
                     ghost order: seq<nat>, ghost laid: seq<seq<byte>>, ghost links: map<nat, nat>)
      returns (r: BuildOutcome, ghost order': seq<nat>, ghost laid': seq<seq<byte>>, ghost links': map<nat, nat>)
      requires i < |slots| && slots[i] == Ref(id) && LaidOut(hs, slots, i, entry, out, cursor, order, laid, links)
      modifies this, out
      ensures Valid() && SameStacks() && randSeed == old(randSeed)
      ensures r.Built? || r.BufferFull? || r.Unreadable?
      ensures r.Built? ==> LaidOut(hs, slots, i + 1, entry, out, r.size, order', laid', links')
      ensures r.Unreadable? ==> !Sized(hs[id])
      ensures r.BufferFull? ==> cursor + Footprint(hs, Ref(id)) >= CODE_BUFFER_LIMIT
    {
      links' := links;
      order', laid' := order, laid;
      if cursor >= CODE_BUFFER_LIMIT {
        return BufferFull, order', laid', links';
      }
      assert id < |hs| <= |heap|;
      ghost var h0, n0 := heap, nodes;
      assert h0[id].weight == hs[id].weight && h0[id].kind == hs[id].kind;
      r, order', laid', links' := SpaghettiStep(id, out, cursor, order, laid, links);
      if !r.Built? {
        return;
      }
      SpaghettiPrefixStep(hs, slots, i, entry, h0, order, cursor, links, heap, order', r.size, links');
      assert nodes[..|slots|] == slots;
    }

    /** cgp_remove_simple_obfuscation: every live CALL whose target begins with
        the marker is a jump in disguise; its fall-through node, its target
        and the call itself are spliced out, in slot order. `removed` lists
        each such CALL with the fall-through node and the target it had when
        it was taken out, and replaying those removals from the old arena
        gives the new one; the slots holding one of them are emptied and no
        other slot changes. A target of fewer than four bytes is read past
        its end, where the word found is `past` of the target. A CALL whose
        removal would dereference NULL (`Unchecked`) stops the sweep at that
        slot. */
    method RemoveSimpleObfuscation(past: nat -> u32) returns (r: Cleanup, ghost removed: seq<(nat, Ptr, Ptr)>)
      requires Valid()
      modifies this
      ensures Valid() && SameContents(old(heap), heap)
      ensures firstNode == old(firstNode) && SameStacks() && randSeed == old(randSeed)
      ensures |nodes| == |old(nodes)|
      ensures SweepAll(old(heap), old(nodes), removed, past) == Some((heap, nodes))
      ensures forall k :: 0 <= k < |nodes| ==> nodes[k] == if old(nodes[k]) in Swept(removed) then Null else old(nodes[k])
      ensures forall e :: e in removed ==>
                e.0 < |old(heap)| && Ref(e.0) in old(nodes) && FakeCall(old(heap), e.0, past)
                && e.1.Ref? && e.2 == old(heap[e.0].clink)
      ensures var end := if r.Cleaned? then |nodes| else r.slot;
              end <= |nodes| && forall i :: 0 <= i < end && nodes[i].Ref? ==> !FakeCall(heap, nodes[i].id, past)
      ensures r.Stuck? ==> r.slot < |nodes| && nodes[r.slot].Ref? && Unchecked(heap, nodes[r.slot].id, past)
    {
      var i := 0;
      r := Cleaned;
      removed := [];
      while i < |nodes|
        invariant SweptUpTo(old(heap), old(nodes), removed, i, past)
        invariant firstNode == old(firstNode) && SameStacks() && randSeed == old(randSeed)
      {
        var stuck;
        stuck, removed := SweepSlot(i, old(heap), old(nodes), removed, past);
        if stuck {
          r := Stuck(i);
          break;
        }
        i := i + 1;
      }
      FakeCallKept(old(heap), heap, past);
      SweepAllEffect(old(heap), old(nodes), removed, past);
    }

    /** The sweep after its first `i` slots, starting from arena `h0` and
        slots `n0`: replaying `removed` from there gives the current arena
        and slots, and no slot before `i` holds a fake CALL. */
    ghost predicate SweptUpTo(h0: seq<Node>, n0: seq<Ptr>, removed: seq<(nat, Ptr, Ptr)>, i: nat, past: nat -> u32)
      reads this, jccStack, callStack
    {
      Valid() && Closed(h0) && SweepAll(h0, n0, removed, past) == Some((heap, nodes)) && i <= |nodes|
      && (forall k :: 0 <= k < i && nodes[k].Ref? ==> !FakeCall(h0, nodes[k].id, past))
    }

    /** One turn of the sweep's loop: clean slot `i` and record what left. */
    method SweepSlot(i: nat, ghost h0: seq<Node>, ghost n0: seq<Ptr>, ghost removed: seq<(nat, Ptr, Ptr)>, past: nat -> u32)
      returns (stuck: bool, ghost removed': seq<(nat, Ptr, Ptr)>)
      requires SweptUpTo(h0, n0, removed, i, past) && i < |nodes|
      modifies this
      ensures SweptUpTo(h0, n0, removed', if stuck then i else i + 1, past)
      ensures stuck ==> i < |nodes| && nodes[i].Ref? && Unchecked(heap, nodes[i].id, past)
      ensures firstNode == old(firstNode) && SameStacks() && randSeed == old(randSeed)
    {
      ghost var h1, n1 := heap, nodes;
      ghost var entry;
      stuck, entry := CleanSlot(i, past);
      removed' := removed;
      if entry.Some? {
        ghost var e := entry.value;
        assert (removed + [e])[..|removed|] == removed;
        removed' := removed + [e];
      }
      FakeCallKept(h0, heap, past);
    }

    /** One slot of `cgp_remove_simple_obfuscation`. A live fake CALL leaves
        its slot together with its fall-through node and its target, each
        taken out by `cgp_except_node` in that order; `entry` names the three.
        Any other slot leaves everything as it was. */
    method CleanSlot(i: nat, past: nat -> u32) returns (stuck: bool, ghost entry: Option<(nat, Ptr, Ptr)>)
      requires Valid() && i < |nodes|
      modifies this
      ensures Valid() && SameContents(old(heap), heap)
      ensures firstNode == old(firstNode) && SameStacks() && randSeed == old(randSeed)
      ensures Thinned(old(nodes), nodes)
      ensures stuck ==> nodes[i].Ref? && Unchecked(heap, nodes[i].id, past)
      ensures !stuck ==> nodes[i].Null? || !FakeCall(heap, nodes[i].id, past)
      ensures entry.Some? <==> !stuck && old(nodes[i]).Ref? && FakeCall(old(heap), old(nodes[i]).id, past)
      ensures entry.None? ==> heap == old(heap) && nodes == old(nodes)
      ensures entry.Some? ==>
                entry.value.0 == old(nodes[i]).id && Removable(old(heap), old(nodes), entry.value, past)
                && (heap, nodes) == Clean(old(heap), old(nodes), entry.value)
    {
      entry := None;
      if nodes[i].Null? || heap[nodes[i].id].kind != Call {
        return false, entry;
      }
      var id := nodes[i].id;
      var n := heap[id];
      if n.clink.Null? || heap[n.clink.id].kind == Label {
        return true, entry;
      }
      var word := if |heap[n.clink.id].data| >= 4 then FromLe32(heap[n.clink.id].data) else past(n.clink.id);
      if word != FAKE_CALL_MARK {
        return false, entry;
      }
      if n.flink.Null? || n.flink == Ref(id) || n.clink == Ref(id) {
        return true, entry;
      }
      ExceptNode(n.flink.id);
      ghost var h1, n1 := heap, nodes;
      ExceptNode(heap[id].clink.id);
      SameContentsTrans(old(heap), h1, heap);
      ThinnedTrans(old(nodes), n1, nodes);
      ghost var h2, n2 := heap, nodes;
      ExceptNode(id);
      SameContentsTrans(old(heap), h2, heap);
      ThinnedTrans(old(nodes), n2, nodes);
      entry := Some((id, n.flink, n.clink));
      return false, entry;
    }

    /** cgp_init: a fresh session, seeded by `seed`, holding the graph of the
        code in `buff` reached from `entry`. */
    static method Init(buff: seq<byte>, entry: u32, seed: u32, lde: Decoder, fuel: nat)
      returns (s: Session, r: ParseOutcome)
      requires |buff| < TWO32 && CanonicalDecoder(lde)
      ensures s.Valid() && s.randSeed == seed
      ensures r.Parsed? ==> ParseShape(s.heap, s.nodes, s.firstNode, buff) && s.jccCount == 0 && s.callCount == 0
    {
      s := new Session(seed);
      r := s.Parse(buff, entry, lde, fuel);
    }
  }
}
