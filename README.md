# x86 code graph processor and simple BMP library, modelled in Dafny

This project models two small C libraries and proves properties of the models.

**The code graph processor** (`x86code-modifier/src/cgp.c`) reads a routine of
x86 machine code and turns it into a graph of nodes. Each node holds one
instruction and has three links: FLink (forward), BLink (backward) and CLink
(the branch target). It then writes the graph back out as code, in one of
three layouts:

- the identity layout;
- a layout with a one-byte NOP after every node;
- a "spaghetti" layout: the nodes in shuffled order, each followed by a jump
  to its successor.

It also widens and narrows branch encodings, relocates branch displacements,
and removes a simple obfuscation (a CALL that is really a jump).

The model follows the source's structure:

- `Words`: `uint32_t` and byte arithmetic, little-endian stores, bitwise OR.
- `Lcg`: the generator and the shuffle, as functions.
- `Classify`: the opcode classifier and the branch decoder, as functions.
- `Encoding`: widening, narrowing and the displacement a relocation writes,
  as functions.
- `Arena`: the node records, as values. A node is an index into the arena of
  every record ever allocated. Removing a node empties its slot; the record
  itself stays readable.
- `Parsing` and `Layout`: predicates and lemmas about what the traversal and
  the layouts build.
- `Cgp.Session`: a class holding the library's globals: the arena, the slot
  array, the first node, the seed, and both worklists with their counts. Its
  methods are the library's functions, written as imperative code with loops.

**The BMP library** (`simple-bmp-lib/bmplib.c`, `bmplib.h`) builds a
device-independent bitmap in memory:

- the 40-byte BITMAPINFOHEADER, the palette, the pixel rows and, for icons,
  the AND-mask rows;
- palette entries, pixels and mask bits painted in place;
- lines and circles drawn pixel by pixel;
- a bitmap read back from memory;
- a bitmap wrapped in a BMP file with its 14-byte BITMAPFILEHEADER.

`BmpLayout` holds the size, offset and header formulas as functions.
`BmpLib.Bitmap` is the `BMP` record as a class over an `array<byte>` buffer,
and its methods update that buffer in place.

## Model

| member | source | states |
|---|---|---|
| Words.Wrap | x86code-modifier/src/cgp.c:61 | `uint32_t` arithmetic: the result is the value modulo 2^32 |
| Words.Unsigned32 | simple-bmp-lib/bmplib.c:304-305 | an `int` compared with a `uint32_t` is read as unsigned: negative values become 2^31 or more, others are unchanged |
| Words.Signed32 | x86code-modifier/src/cgp.c:345 | `(int)` of a 32-bit word is the two's-complement reading: non-negative exactly when the top bit is clear |
| Words.Signed8 | x86code-modifier/src/cgp.c:357 | `(char)` of a byte is its two's-complement reading |
| Words.Le32RoundTrip | x86code-modifier/src/cgp.c:344 | reading back a word stored little-endian gives the word |
| Words.FromLe32RoundTrip | simple-bmp-lib/bmplib.c:226-227 | storing a word read from four bytes gives back those bytes |
| Words.Le16RoundTrip | simple-bmp-lib/bmplib.c:228 | reading back a stored 16-bit word gives the word |
| Words.BitOrBit | simple-bmp-lib/bmplib.h:12 | bit s of `a \| b` is set exactly when it is set in a or in b |
| Words.BitOrDisjoint | simple-bmp-lib/bmplib.h:12 | OR of a value below 2^k with a multiple of 2^k is their sum |
| Words.Copy | x86code-modifier/src/cgp.c:882 | `memcpy` into an array overwrites exactly the target range |
| Lcg.DrawBelow | x86code-modifier/src/cgp.c:59-63 | every draw with a positive bound is below the bound; a bound of 0 draws 0 |
| Lcg.Swap | x86code-modifier/src/cgp.c:211-213 | the two positions are exchanged and every other position is kept |
| Lcg.SwapPermutes | x86code-modifier/src/cgp.c:211-213 | an exchange keeps the multiset of slot values |
| Lcg.ShufflePermutes | x86code-modifier/src/cgp.c:203-216 | the shuffle only permutes the slots |
| Lcg.ShuffleKeepsTail | x86code-modifier/src/cgp.c:203-216 | slots beyond the first n are never touched |
| Classify.GetNodeType | x86code-modifier/src/cgp.c:308-333 | JCC exactly for `0F 80..8F`, `70..7F` and `E0..E3`; JMP exactly for `EB`/`E9`; RET for `C3`; CALL for `E8`; LINE for everything else; never a label. Each kind is an if-and-only-if, so the order of the tests does not matter |
| Classify.GetBranchOffset | x86code-modifier/src/cgp.c:335-404 | a target is produced exactly for a complete branch with a decodable form; the abort path is taken exactly for a byte without one |
| Classify.XorHigh24OfComplementedByte | x86code-modifier/src/cgp.c:360 | for a byte b, `~b ^ 0xFFFFFF00` is `0xFF - b` |
| Classify.ShortTarget | x86code-modifier/src/cgp.c:355-375 | both sign cases of the rel8 formula compute `offset + 2 + signed displacement` modulo 2^32 |
| Classify.NearTarget | x86code-modifier/src/cgp.c:377-398 | both sign cases of the rel32 formula compute `offset + 5 + signed displacement` modulo 2^32 |
| Classify.BranchTargetIsRelative | x86code-modifier/src/cgp.c:335-404 | every decoded target is `offset + length + signed displacement` modulo 2^32, with length 6, 2, 2, 5, 5 for long Jcc, short Jcc, `EB`, `E9`, `E8` |
| Classify.ClassifierAgreesWithDecoder | x86code-modifier/src/cgp.c:318-321 | a byte has a branch form exactly when it is classified JMP, JCC or CALL and is not a LOOP; LOOP opcodes are JCC without a form, so decoding them aborts |
| Encoding.WidenKeepsBranch | x86code-modifier/src/cgp.c:473-489 | `EB` becomes `E9` + placeholder with weight 5; `7x` becomes `0F 8x` of the same condition + placeholder with weight 6; the node kind never changes; everything else is left as it is |
| Encoding.NarrowAfterWidenJmp | x86code-modifier/src/cgp.c:454-489 | narrowing a widened short JMP gives `EB CC` with weight 2 |
| Encoding.NarrowSkipsLongJcc | x86code-modifier/src/cgp.c:463-464 | as written, every long Jcc is left unchanged by narrowing |
| Encoding.NarrowWidenedJeCounterexample | x86code-modifier/src/cgp.c:463-464 | `74 05` widened and then narrowed stays 6 bytes long; the corrected guard restores `74 CC` |
| Encoding.NarrowIntendedAfterWidenJcc | x86code-modifier/src/cgp.c:454-489 | with the corrected guard, narrowing undoes widening for every short Jcc: same condition, weight 2, placeholder displacement |
| Encoding.DispIsRelative | x86code-modifier/src/cgp.c:491-600 | the backward formula `~(at - target) - (len - 1)` and the forward formula `target - at - len` both write `target - (at + len)` reduced to the field width |
| Encoding.PatchThenDecode | x86code-modifier/src/cgp.c:491-600 | relocation and decoding are inverse: after a branch is patched towards a target, decoding it gives that target (for rel8, when the distance fits a signed byte) |
| Encoding.PatchKeepsForm | x86code-modifier/src/cgp.c:491-600 | patching leaves the opcode bytes, so the branch keeps its form |
| Encoding.RelativeWrap | x86code-modifier/src/cgp.c:377-398 | a wrapped 32-bit displacement leads from the base back to the target |
| Arena.ClosedUpdate | x86code-modifier/src/cgp.c:37-45 | rewriting a record with links inside the arena keeps every link inside it |
| Arena.ConcatAt | x86code-modifier/src/cgp.c:881-883 | in a layout, each piece starts right after the pieces before it |
| Arena.RelocationReachesTarget | x86code-modifier/src/cgp.c:491-600 | after `cgp_write_offset` patches a node, decoding the branch gives the position of its target (FLink, or CLink when a JMP has one; CLink for Jcc and CALL); only the displacement bytes change |
| Arena.RelocateAllStep | x86code-modifier/src/cgp.c:939-947 | the pass over one more slot is the pass so far followed by that slot |
| Arena.RelocateAllFrame | x86code-modifier/src/cgp.c:939-947 | the pass changes no byte outside a relocated branch |
| Arena.RelocateAllStops | x86code-modifier/src/cgp.c:939-947 | once a patch would write outside the buffer, the whole pass fails |
| Parsing.JccImage | x86code-modifier/src/cgp.c:698-757 | a Jcc node's 10-byte buffer holds the long form of its condition with a placeholder displacement |
| Parsing.ShapeIgnoresLinks | x86code-modifier/src/cgp.c:602-834 | relinking records never disturbs what the parse guarantees |
| Parsing.Attach | x86code-modifier/src/cgp.c:709-739 | a new node becomes its predecessor's FLink, or its CLink when a Jcc or CALL predecessor already has an FLink; nothing else changes |
| Parsing.WidenedJccImage | x86code-modifier/src/cgp.c:743-757 | a Jcc copied, widened and given the placeholder is the long form of its condition, with weight 6 |
| Parsing.ShapeAfterRelink | x86code-modifier/src/cgp.c:638-655 | relinking the last node and appending a label keeps the parse invariant |
| Parsing.ShapeAfterLink | x86code-modifier/src/cgp.c:615-618 | linking the last node through a new link JMP keeps the parse invariant |
| Parsing.NewShape | x86code-modifier/src/cgp.c:693-758 | attaching a decoded node at a new position keeps the arena closed and the parse invariant |
| Parsing.AppendDecoded | x86code-modifier/src/cgp.c:693-758 | a decoded node at a new position keeps positions unique |
| Parsing.NodeImage | x86code-modifier/src/cgp.c:698-757 | LINE and RET nodes hold their source bytes; a CALL holds `E8 CC CC CC CC` (weight 5); a Jcc the long form of its condition (weight 6) |
| Parsing.BranchFailure | x86code-modifier/src/cgp.c:400-401 | an undecodable branch aborts the parse at its position |
| Layout.LabelsBlankAppend | x86code-modifier/src/cgp.c:640-648 | appending a non-label record keeps every label empty |
| Layout.LabelsBlankGrow | x86code-modifier/src/cgp.c:953-971 | relinking records and appending LINE records keep every label empty |
| Layout.ConcatGrows | x86code-modifier/src/cgp.c:881-883 | a longer prefix of the layout is never shorter |
| Layout.LaidWithin | x86code-modifier/src/cgp.c:881-883 | every placed record lies inside what has been laid out |
| Layout.LaidBytes | x86code-modifier/src/cgp.c:881-883 | the bytes at a placed record's position are its first `weight` bytes |
| Layout.LaidDisjoint | x86code-modifier/src/cgp.c:881-883 | records placed one after another never overlap |
| Layout.LaidAppend | x86code-modifier/src/cgp.c:881-883 | placing one more record at the cursor keeps the layout invariant |
| Layout.LaidIgnoresLinks | x86code-modifier/src/cgp.c:879 | relinking records keeps the layout invariant |
| Layout.LaidGrows | x86code-modifier/src/cgp.c:889 | appending records to the arena keeps the layout invariant |
| Layout.ImageAppend | x86code-modifier/src/cgp.c:882 | copying the next piece at the cursor extends the image, and the rest stays zero |
| Layout.LaidValid | x86code-modifier/src/cgp.c:881 | no placed record is at the invalid position |
| Layout.AccountedPlace | x86code-modifier/src/cgp.c:929-937 | placing a record keeps every live slot placed or waiting |
| Layout.AccountedRelink | x86code-modifier/src/cgp.c:876-879 | relinking, appending and emptying slots keep every live slot placed or waiting |
| Layout.AccountedNewSlot | x86code-modifier/src/cgp.c:889-904 | a new slot holding a placed record is accounted for |
| Layout.SpaghettiSizeAppend | x86code-modifier/src/cgp.c:1013-1048 | the size of two runs of slots is the sum of their sizes |
| Layout.SpaghettiSizeRemove | x86code-modifier/src/cgp.c:1013-1048 | taking a slot out of a run removes exactly its footprint |
| Layout.SpaghettiSizePermutes | x86code-modifier/src/cgp.c:989-1048 | the spaghetti size does not depend on the order of the slots, so the shuffle does not change it |
| Layout.SpaghettiSoFarStep | x86code-modifier/src/cgp.c:1013-1048 | placing a slot's node and its link JMP extends the spaghetti layout by one slot |
| Layout.SpaghettiPrefixStep | x86code-modifier/src/cgp.c:1013-1048 | skipping an empty slot, or placing a live one, extends the layout prefix by one slot |
| Layout.SpaghettiPrefixComplete | x86code-modifier/src/cgp.c:1013-1048 | a prefix that covers every slot is the whole spaghetti layout |
| Layout.SpaghettiSizePrefix | x86code-modifier/src/cgp.c:1013-1048 | a prefix of the slots lays out no more bytes than the whole run |
| Layout.SpaghettiFailureAt | x86code-modifier/src/cgp.c:1019-1047 | an unreadable node, or a footprint that reaches the limit, at a live slot is a failure of the whole run |
| Layout.SpaghettiFailurePermutes | x86code-modifier/src/cgp.c:989-1048 | a failure of the shuffled slots is one of the old slots |
| Cgp.SwapKeepsSlots | x86code-modifier/src/cgp.c:203-216 | exchanging slots keeps every slot in the arena and no record in two slots |
| Cgp.NopsAddedStep | x86code-modifier/src/cgp.c:958-970 | one more slot of the NOP loop keeps the NOP records, their slots and the kept FLinks |
| Cgp.LastFaller | x86code-modifier/src/cgp.c:958-970 | the last slot before `m` whose node falls through to `s` in the old arena, or none when no such slot exists |
| Cgp.NopsAll | x86code-modifier/src/cgp.c:958-970 | the arena and slots after the first `m` slots: the arena only grows, and the old slots are kept as a prefix |
| Cgp.WithNopRecords | x86code-modifier/src/cgp.c:274-281 | after the insertion the NOP falls through to `a`'s old successor and links back to `a`; `a` falls through to the NOP; every other record is unchanged except that a record `a` fell through to links back to the NOP |
| Cgp.RelinkedAt | x86code-modifier/src/cgp.c:274-281 | each of the first `k` records is rewritten in place, at its own index |
| Cgp.NopsAddedAll | x86code-modifier/src/cgp.c:958-970 | at every stage of the loop, each live node of the slots passed has its own NOP record in a new slot, falling through to the node's old successor, and no other record changes but for links |
| Cgp.NopsCountedAll | x86code-modifier/src/cgp.c:958-970 | at every stage of the loop, the nodes with a NOP are those of the slots passed, one new slot each |
| Cgp.NopFree | x86code-modifier/src/cgp.c:958-962 | the node of a live slot not yet reached has no NOP and still falls through to its old successor |
| Cgp.NopBackNext | x86code-modifier/src/cgp.c:270-281 | one more NOP becomes the BLink of the record its node fell through to; every other record keeps its BLink |
| Cgp.NopBackAt | x86code-modifier/src/cgp.c:958-970 | at every stage of the loop, a record links back to the NOP after the last node of the slots passed that fell through to it, or keeps its BLink |
| Cgp.NopBacksAll | x86code-modifier/src/cgp.c:958-970 | the same, for every record of the old arena at once |
| Cgp.NopAddedLive | x86code-modifier/src/cgp.c:962-969 | a live slot gets its own NOP record in a new slot |
| Cgp.NopRecords | x86code-modifier/src/cgp.c:962-969 | inserting a NOP changes no earlier record except its links, and the new record is a LINE |
| Cgp.NopSlots | x86code-modifier/src/cgp.c:962 | the new slot holds the new record, and the slot's node now has its NOP |
| Cgp.NopsAddedDone | x86code-modifier/src/cgp.c:958-970 | after the loop, each live node falls through to its own NOP, which falls through to the node's old successor; every old record that some slotted node fell through to links back to that node's NOP (the last such node's), every other old record keeps its BLink |
| Cgp.MarkBytes | x86code-modifier/src/cgp.c:1075 | the marker word `0x0424648D` is the byte string `8D 64 24 04` |
| Cgp.ThinnedTrans | x86code-modifier/src/cgp.c:1076-1078 | slots emptied twice are slots emptied |
| Cgp.SameContentsTrans | x86code-modifier/src/cgp.c:1076-1078 | two link-only changes are a link-only change |
| Cgp.FakeCallKept | x86code-modifier/src/cgp.c:1074-1075 | whether a CALL is fake does not depend on forward or backward links |
| Cgp.Session.constructor | x86code-modifier/src/cgp.c:47-56 | empty arena, no first node, empty worklists, the given seed |
| Cgp.Session.Random | x86code-modifier/src/cgp.c:59-63 | the seed advances by the LCG step, and the result is below a positive bound |
| Cgp.Session.ShuffleArray | x86code-modifier/src/cgp.c:203-216 | the loop computes the `Shuffle` function, and the slot array is a permutation of the old one |
| Cgp.Session.PushJcc | x86code-modifier/src/cgp.c:419-425 | the Jcc worklist grows by the node, and the new count is returned |
| Cgp.Session.PopJcc | x86code-modifier/src/cgp.c:427-432 | returns the node pushed last, and the worklist shrinks by it |
| Cgp.Session.PushCall | x86code-modifier/src/cgp.c:406-411 | the CALL worklist grows by the node, and the new count is returned |
| Cgp.Session.PopCall | x86code-modifier/src/cgp.c:413-417 | returns the node pushed last, and the worklist shrinks by it |
| Cgp.Session.AllocateNode | x86code-modifier/src/cgp.c:218-229 | a zeroed record in a new last slot; it becomes the first node when there is none |
| Cgp.Session.FindByOffset | x86code-modifier/src/cgp.c:298-306 | NULL exactly when no live slot holds a node at that position; otherwise the node of the first such slot |
| Cgp.Session.RemoveNode | x86code-modifier/src/cgp.c:231-241 | every slot holding the node becomes NULL, the slot count is unchanged, and the record stays readable |
| Cgp.Session.MergeNodes | x86code-modifier/src/cgp.c:243-248 | the first node takes the second's FLink and the sum of both weights modulo 2^32; nothing else changes |
| Cgp.Excepted | x86code-modifier/src/cgp.c:250-268 | taking a node out changes links only, never a CLink |
| Cgp.Without | x86code-modifier/src/cgp.c:231-241 | exactly the slots holding the node become NULL; every other slot keeps its node |
| Cgp.Session.ExceptNode | x86code-modifier/src/cgp.c:250-268 | the predecessor takes over the node's FLink; every live BLink to the node now points at the predecessor; the node's slots become NULL; a node without a predecessor is only removed |
| Cgp.Session.InsertNode | x86code-modifier/src/cgp.c:270-296 | AFTER puts the new node between `at` and its old FLink; BEFORE puts it between `at`'s old BLink and `at`, and makes it the first node when `at` was; both neighbours' links are fixed and no other record changes |
| Cgp.Session.SpliceAfter | x86code-modifier/src/cgp.c:274-281 | the AFTER links, as in InsertNode |
| Cgp.Session.SpliceBefore | x86code-modifier/src/cgp.c:282-293 | the BEFORE links, as in InsertNode |
| Cgp.Session.LinkNodes | x86code-modifier/src/cgp.c:434-452 | a new `E9 CC CC CC CC` node between the two nodes, which the first now falls through to |
| Cgp.Session.Short2Long | x86code-modifier/src/cgp.c:473-489 | the node's bytes and weight become those of `ShortToLong`; nothing else changes |
| Cgp.Session.Long2Short | x86code-modifier/src/cgp.c:454-471 | the node's bytes and weight become those of `LongToShort` as written; nothing else changes |
| Cgp.Session.WriteOffset | x86code-modifier/src/cgp.c:491-600 | returns 1 and leaves the buffer `Relocation` describes when it patches; returns 0 and leaves the buffer unchanged when the node, its position, its form or its target's position is missing; the graph is unchanged |
| Cgp.Session.PatchJmp | x86code-modifier/src/cgp.c:498-547 | the JMP cases: the displacement reaches the CLink if there is one, else the FLink, and the temporary link swap leaves the arena unchanged |
| Cgp.Session.PatchConditional | x86code-modifier/src/cgp.c:549-597 | the Jcc and CALL cases: the displacement reaches the CLink |
| Cgp.Session.JoinFound | x86code-modifier/src/cgp.c:614-635 | a LINE predecessor is linked to the found node by a new JMP; a Jcc or CALL takes it as FLink or CLink; any other predecessor is left alone; the parse invariant is kept |
| Cgp.Session.JoinOutOfScope | x86code-modifier/src/cgp.c:638-661 | fails exactly for a CALL predecessor; a LINE loses its position and falls through to a new label; a Jcc takes a new label |
| Cgp.Session.NewInstruction | x86code-modifier/src/cgp.c:693-758 | a node with the bytes `NodeImage` gives, attached after the previous node; the node holds its source unless it is a LOOP |
| Cgp.Session.Parse | x86code-modifier/src/cgp.c:602-834 | when the traversal finishes: both worklists are empty; the first record is the first node; every decoded node holds the instruction at its position; no two decoded nodes share a position; every JMP is a link node; every label is empty |
| Cgp.Session.Resume | x86code-modifier/src/cgp.c:611-680 | joins the previous node to what is found, then resumes at the latest pending Jcc target, else the latest pending callee, else stops |
| Cgp.Session.Visit | x86code-modifier/src/cgp.c:682-821 | a JMP is followed without a node; any other instruction becomes a node after the previous one |
| Cgp.Session.FollowBranch | x86code-modifier/src/cgp.c:770-810 | a decoded target becomes the CLink, otherwise the node is pushed on its worklist; the traversal goes on with the next instruction |
| Cgp.Session.Return | x86code-modifier/src/cgp.c:813-821 | resumes at the callee of the latest pending CALL, or stays put when none is pending |
| Cgp.Session.Lay | x86code-modifier/src/cgp.c:881-883 | the record is placed at the cursor and its bytes are copied there; it fails, changing nothing, when the weight exceeds the buffer or the copy would run past 64 KiB |
| Cgp.Session.PlaceInWalk | x86code-modifier/src/cgp.c:859-908 | one step of the walk keeps the layout invariant |
| Cgp.Session.LayThenLink | x86code-modifier/src/cgp.c:880-905 | the node is copied, then followed by a link JMP when its FLink is already placed |
| Cgp.Session.Defer | x86code-modifier/src/cgp.c:864-874 | a Jcc or CALL whose CLink is not placed is pushed; a NULL CLink or a full worklist is the fault |
| Cgp.Session.DropJmp | x86code-modifier/src/cgp.c:876-879 | a JMP to an unplaced node is spliced out, and the walk goes on at its FLink |
| Cgp.Session.EmitLink | x86code-modifier/src/cgp.c:886-905 | a link JMP with the node's BLink and FLink is placed at the cursor |
| Cgp.Session.PlaceLink | x86code-modifier/src/cgp.c:886-905 | a new `E9 CC CC CC CC` record is placed at the cursor and its bytes copied |
| Cgp.Session.NewLink | x86code-modifier/src/cgp.c:889-901 | a new unplaced JMP record between the given links |
| Cgp.Session.Build | x86code-modifier/src/cgp.c:836-951 | on success, the records placed follow one another from position 0 without gap or overlap; every live node is among them; the returned size is the bytes laid out; the buffer is that image, zero-filled, with every live branch relocated. A failed relocation is reported with the layout it failed on |
| Cgp.Session.Place | x86code-modifier/src/cgp.c:843-937 | the walk and then the sweep place every live node |
| Cgp.Session.Reset | x86code-modifier/src/cgp.c:848-851 | every live node loses its position |
| Cgp.Session.Walk | x86code-modifier/src/cgp.c:853-927 | the walk keeps the layout invariant, and every live slot is placed or still waiting |
| Cgp.Session.Sweep | x86code-modifier/src/cgp.c:929-937 | every live node the walk missed is placed after the others |
| Cgp.Session.Relocate | x86code-modifier/src/cgp.c:939-947 | succeeds exactly when `RelocateAll` does, and then leaves its buffer |
| Cgp.Session.AddNop | x86code-modifier/src/cgp.c:962-969 | a one-byte NOP LINE record is inserted after the node, between it and its old successor, which now links back to the NOP; the arena is `WithNop` of the old one |
| Cgp.Session.AddNops | x86code-modifier/src/cgp.c:958-970 | the loop over the first `m` slots leaves the arena and slots of the fold `NopsAll`; the first node is kept, or is the first NOP when there was none |
| Cgp.Session.AddRedundantNop | x86code-modifier/src/cgp.c:953-971 | the arena and slots are the fold `NopsAll` over the first `count - 1` slots; each live node of those falls through to its own new NOP, which falls through to the node's old successor; that successor links back to the NOP; there are exactly as many new slots as live slots among those; every other node keeps its FLink and its BLink; no instruction changes; the first node is kept, or is the first NOP when there was none; with no slot, nothing changes |
| Cgp.NopsCountedStep | x86code-modifier/src/cgp.c:958-970 | a live slot adds one new slot and one NOP, an empty slot nothing |
| Cgp.Session.BuildRedundantNop | x86code-modifier/src/cgp.c:973-977 | the NOPs are added, then the build guarantees hold |
| Cgp.Session.SpaghettiStep | x86code-modifier/src/cgp.c:1017-1047 | the node is placed at the cursor, followed by a link JMP unless it is a RET; `Unreadable` only for a node shorter than its weight, `BufferFull` only when its footprint passes the limit |
| Cgp.Session.BuildSpaghetti | x86code-modifier/src/cgp.c:979-1065 | the slots are the shuffle of the old slots; the image is the entry JMP, then every live node in shuffled slot order, each non-RET followed by its link JMP; size = 5·[first node] + Σ footprints, independent of the shuffle; the buffer is that image with every branch relocated; `Unreadable` only when some live node's data is shorter than its weight; `BufferFull` only when that size reaches the 64 KiB limit; `WriteOutOfBounds` only when the relocation of that image fails |
| Cgp.Session.ShuffleAndLay | x86code-modifier/src/cgp.c:985-1048 | shuffle, then the spaghetti layout of the shuffled slots; a failure is one of the old arena and slots, by the same two conditions |
| Cgp.Session.LaySpaghetti | x86code-modifier/src/cgp.c:995-1048 | the entry JMP, then every live node in slot order with its link JMP; `Unreadable` only when some live node's data is shorter than its weight, `BufferFull` only when the whole layout reaches the 64 KiB limit |
| Cgp.Session.SpaghettiSlot | x86code-modifier/src/cgp.c:1013-1048 | an empty slot is skipped and a live one placed; the prefix invariant grows by one slot; a failure is one of the whole run of slots |
| Cgp.Session.PlaceSlot | x86code-modifier/src/cgp.c:1019-1047 | the live slot's node is placed, followed by its link JMP unless it is a RET; `Unreadable` only for a node shorter than its weight, `BufferFull` only when its footprint reaches the limit |
| Cgp.Session.RemoveSimpleObfuscation | x86code-modifier/src/cgp.c:1067-1081 | the arena and slots are `SweepAll` of the removed CALLs over the old ones: each removed CALL, in slot order, with its fall-through node and its target, as `ExceptNode` leaves them; the slot count is kept; a slot becomes NULL exactly when it held a removed CALL, its fall-through node or its target; each removed CALL was a live fake CALL of the old arena, and its target is its old CLink; only links change; no slot swept holds a fake CALL afterwards; a stop is at a CALL whose check or removal dereferences NULL (`Unchecked`): no target, a label target, or a marked target with a NULL fall-through node or one of the two being the CALL itself |
| Cgp.Session.SweepSlot | x86code-modifier/src/cgp.c:1069-1080 | one turn of the sweep keeps its invariant: the state is `SweepAll` of the CALLs removed so far, and no slot swept holds a fake CALL; it stops only at a CALL whose check or removal dereferences NULL (`Unchecked`): no target, a label target, or a marked target with a NULL fall-through node or one of the two being the CALL itself |
| Cgp.SweepStep | x86code-modifier/src/cgp.c:1076-1078 | taking out one more CALL with its fall-through node and its target empties exactly the slots holding one of the three |
| Cgp.Session.CleanSlot | x86code-modifier/src/cgp.c:1070-1079 | a slot that holds no live fake CALL changes nothing; a live fake CALL leaves with its fall-through node and its target, and the state is then `Clean` of the old one; the stop cases are: no target, a label target (whose buffer is NULL), a marked target and no fall-through node, a fall-through node or a target that is the CALL itself |
| Cgp.HeadWord | x86code-modifier/src/cgp.c:1075 | for a target of at least four bytes, the word read equals the marker exactly when the bytes are `8D 64 24 04` |
| Cgp.Clean | x86code-modifier/src/cgp.c:1076-1078 | taking out the fall-through node, the target and the CALL changes only links, empties only their slots, and empties exactly the three |
| Cgp.SweepAll | x86code-modifier/src/cgp.c:1067-1081 | the sweep over a list of removed CALLs, when each was removable in turn, changes only links and only empties slots |
| Cgp.SweepAllLast | x86code-modifier/src/cgp.c:1069-1080 | a sweep that succeeds is the sweep without its last CALL, followed by that CALL's `Clean` |
| Cgp.SweepAllEffect | x86code-modifier/src/cgp.c:1067-1081 | after a sweep, a slot is NULL exactly when it held a removed CALL, its fall-through node or its target; every removed CALL was a live fake CALL of the old arena, with a fall-through node, and its target is its old CLink |
| BmpLayout.Rgb | simple-bmp-lib/bmplib.h:12 | every colour is below 2^24 |
| BmpLayout.RgbBytes | simple-bmp-lib/bmplib.h:12 | with byte components, blue is bits 0-7, green 8-15 and red 16-23, and the stored bytes are `b, g, r, 0` |
| BmpLayout.ColorCounts | simple-bmp-lib/bmplib.c:17 | 2, 16 and 256 palette entries at 1, 4 and 8 bits; 2^24 at 24 bits; 0 (low 32 bits of 2^32) at 32 bits |
| BmpLayout.Align4 | simple-bmp-lib/bmplib.c:21 | the result is the least multiple of 4 that is not below the input |
| BmpLayout.RowsSucc | simple-bmp-lib/bmplib.c:78-84 | one more row adds one row's bytes |
| BmpLayout.RowsMono | simple-bmp-lib/bmplib.c:78-84 | more rows never take fewer bytes |
| BmpLayout.RowsProduct | simple-bmp-lib/bmplib.c:32-46 | the bytes of all rows are rows × row size |
| BmpLayout.XorSizeHoldsRow | simple-bmp-lib/bmplib.c:20-21 | a paletted row is 4 bytes when its bits fit 32, otherwise the fewest whole 32-bit words that hold its bits |
| BmpLayout.Row24Aligned | simple-bmp-lib/bmplib.c:40 | `Width % 4` bytes of padding make a 24-bit row a whole number of 32-bit words |
| BmpLayout.InfoHeaderFields | simple-bmp-lib/bmplib.c:54-65 | the fields read back at their offsets: 40, width, height (doubled for a mask), 1 plane, depth, no compression, image size, then zeros |
| BmpLayout.FileHeaderFields | simple-bmp-lib/bmplib.c:248-258 | it starts with `B` `M`; the file size, a zero word and the data offset read back at 2, 6 and 10 |
| BmpLayout.DataOffsetAsWrittenPastEnd | simple-bmp-lib/bmplib.c:258 | at 24 bits the offset as written points 64 MiB past the end of a one-pixel file |
| BmpLayout.DataOffsetAsWrittenPaletted | simple-bmp-lib/bmplib.c:258 | wherever there is a palette, the written offset and the corrected offset agree |
| BmpLayout.DataOffsetStartsPixels | simple-bmp-lib/bmplib.c:258 | the corrected offset points at the first pixel: exactly the pixel and mask rows lie behind it |
| BmpLayout.PixelByteAsWrittenOutside | simple-bmp-lib/bmplib.c:177 | a 1×2 24-bit bitmap is 48 bytes long, and the height-based stride writes its lower pixel at bytes 48-50 |
| BmpLayout.AsWrittenBelowCorner | simple-bmp-lib/bmplib.c:175-192 | at 24 and 32 bits the top right pixel is the one `SetPixel` addresses last |
| BmpLayout.AsWrittenInRowsLandscape | simple-bmp-lib/bmplib.c:175-192 | on a bitmap no taller than wide the stride taken from the height keeps every 24- and 32-bit pixel inside the pixel rows |
| BmpLayout.RowsMonoRow | simple-bmp-lib/bmplib.c:78-84 | longer rows never take fewer bytes |
| BmpLayout.PixelInRows | simple-bmp-lib/bmplib.c:150-194 | with the stride taken from the width, every pixel lies behind the palette and inside the pixel rows |
| BmpLayout.ColumnInRow | simple-bmp-lib/bmplib.c:150-194 | the bytes of pixel x lie inside one row |
| BmpLayout.MaskByteAsWrittenOutside | simple-bmp-lib/bmplib.c:217 | a 2×1 icon is 56 bytes long, and the width-based row index sends its only mask bit to byte 56 |
| BmpLayout.MaskInRows | simple-bmp-lib/bmplib.c:210-219 | with the row taken from the height, every mask bit lies inside the mask rows at the end of the buffer |
| BmpLayout.MaskAsWrittenInRows | simple-bmp-lib/bmplib.c:210-219 | with the row taken from the width, as written, a mask bit lies inside the mask rows when y ≤ Width < y + Height, which holds for every pixel of a square icon |
| BmpLayout.MaskByteAsWrittenWraps | simple-bmp-lib/bmplib.c:217 | for the top pixel of a 1×2 icon `Width - y` wraps, and the 32-bit address lands on byte 52, among the pixel rows |
| BmpLayout.OrByteBits | simple-bmp-lib/bmplib.c:156 | `\|=` sets the bits of the value's low byte and clears none |
| BmpLayout.SetsPixelBit | simple-bmp-lib/bmplib.c:151-156 | OR-ing `1 << (7 - (x-1) % 8)` sets exactly the bit of pixel x and keeps the others |
| BmpLayout.SetsBit | simple-bmp-lib/bmplib.c:219 | OR-ing `1 << s` into a byte sets bit s only |
| BmpLayout.SetsNibble | simple-bmp-lib/bmplib.c:160-165 | a 4-bit colour OR-ed at shift 4 or 0 sets bits of that nibble only |
| BmpLayout.ShiftBit | simple-bmp-lib/bmplib.c:156 | bit t of `c << k` is bit t − k of c |
| BmpLayout.PaintAtPixel | simple-bmp-lib/bmplib.c:150-194 | a 1-bit pixel of colour 0 or 1 gets its bit set for colour 1 and keeps every other bit; a 4-bit colour is added to the high nibble for odd x and the low nibble for even x; an 8-bit pixel holds the colour's low byte; 24- and 32-bit pixels are cleared |
| BmpLib.LineWalkGrows | simple-bmp-lib/bmplib.c:303-319 | painting the next point and stepping to a neighbour extends the line's walk |
| BmpLib.LineStep | simple-bmp-lib/bmplib.c:308-318 | until the end is reached, the doubled error moves at least one coordinate, and never one whose span is done |
| BmpLib.LineAdvance | simple-bmp-lib/bmplib.c:308-318 | each step moves to a king's-move neighbour inside the rectangle of the end points, keeps Bresenham's error invariant, and gets closer to the end |
| BmpLib.ArcGrows | simple-bmp-lib/bmplib.c:329-352 | visiting the next point extends the circle's arc |
| BmpLib.Mirrored | simple-bmp-lib/bmplib.c:330-333 | four points are painted per arc point |
| BmpLib.DrawQuadrants | simple-bmp-lib/bmplib.c:330-333 | drawing the four mirrored points plots them in the source's order |
| BmpLib.DrawSnoc | simple-bmp-lib/bmplib.c:330-333 | drawing one more point plots it after the others |
| BmpLib.CircleAdvance | simple-bmp-lib/bmplib.c:335-351 | each step goes right, down or both, and either y drops or delta rises towards 0, so the loop ends |
| BmpLib.Bitmap.constructor | simple-bmp-lib/bmplib.h:14-22 | the record with the caller's width, height, depth and mask flag |
| BmpLib.Bitmap.CreateBitmap | simple-bmp-lib/bmplib.c:3-117 | `BadDepth` (1) exactly for an unsupported depth, changing nothing else; otherwise the colour count is 2^bits; `TooLarge` exactly when `0x28 + sizeOfImage` does not fit 32 bits; on success the buffer is `0x28 + sizeOfImage` bytes, the info header in front and zeros behind it |
| BmpLib.Bitmap.Lay | simple-bmp-lib/bmplib.c:51-116 | the buffer is allocated, the header written and the walk over palette, rows and mask ends exactly at the end |
| BmpLib.Bitmap.Walk | simple-bmp-lib/bmplib.c:68-113 | the cursor walk over palette, pixel rows and mask rows writes only zeros into the zeroed buffer and ends exactly at `Size` |
| BmpLib.Bitmap.ClearPalette | simple-bmp-lib/bmplib.c:68-75 | the palette loop leaves the zeroed buffer as it is and moves the cursor 4·ColorCount bytes on |
| BmpLib.Bitmap.ClearRows | simple-bmp-lib/bmplib.c:78-84 | a row loop leaves the zeroed buffer as it is and moves the cursor count × row bytes on |
| BmpLib.Bitmap.ClearPixels | simple-bmp-lib/bmplib.c:87-105 | the 24/32-bit loop leaves the zeroed buffer as it is and moves the cursor over every pixel row with its padding |
| BmpLib.Bitmap.ClearRowPixels | simple-bmp-lib/bmplib.c:87-105 | one row of the 24/32-bit loop moves the cursor over the row's pixels |
| BmpLib.Bitmap.SetPalette | simple-bmp-lib/bmplib.c:127-137 | returns 0 exactly for a paletted depth and an index below the colour count, and then writes the colour little-endian at `0x28 + 4·Index` and nothing else; otherwise returns 1 and writes nothing |
| BmpLib.Bitmap.PaletteInPalette | simple-bmp-lib/bmplib.c:135 | every accepted entry lies between the header and the pixel rows |
| BmpLib.Bitmap.SetPixel | simple-bmp-lib/bmplib.c:139-195 | returns 0 exactly when 1 ≤ x ≤ Width and 1 ≤ y ≤ Height, and then the buffer is `Painted` at the address the source computes (`PixelAt`: rows bottom up behind the palette, with the 24- and 32-bit row stride taken from the height); otherwise returns 1 and writes nothing; a drawable bitmap stays drawable |
| BmpLib.Bitmap.Paint | simple-bmp-lib/bmplib.c:150-194 | the stores of each depth, as `PaintAt` |
| BmpLib.Bitmap.PixelInside | simple-bmp-lib/bmplib.c:150-194 | in a drawable bitmap the bytes `SetPixel` writes for any pixel lie behind the palette and inside the buffer |
| BmpLib.Bitmap.DrawableFits | simple-bmp-lib/bmplib.c:150-194 | in a drawable bitmap every pixel, at the address `SetPixel` computes, fits the buffer |
| BmpLib.Bitmap.LandscapeDrawable | simple-bmp-lib/bmplib.c:175-192 | a valid bitmap no taller than wide, whose `Width * BitCount` does not wrap, is drawable |
| BmpLib.Bitmap.PlotPixel | simple-bmp-lib/bmplib.c:139-195 | `SetPixel` whatever its answer: the buffer is `Plot` of the old one |
| BmpLib.Bitmap.DrawLine | simple-bmp-lib/bmplib.c:292-320 | the buffer is the old one with the end point and then the walk's points plotted; the walk starts at (x1, y1) and moves by king's steps inside the rectangle of the end points; it reaches (x2, y2) unless it stops at a point right of or below the bitmap |
| BmpLib.Bitmap.LinePoint | simple-bmp-lib/bmplib.c:307-318 | one loop body of DrawLine keeps the loop invariant |
| BmpLib.Bitmap.DrawCircle | simple-bmp-lib/bmplib.c:322-353 | the buffer is the old one with four mirrored points plotted per arc point; the arc is empty exactly for a negative radius; otherwise it starts at (0, radius), moves right or down, stays in the quadrant x, y ≥ 0 and ends at y = 0 |
| BmpLib.Bitmap.PlotQuadrants | simple-bmp-lib/bmplib.c:330-333 | the four `SetPixel` calls plot the four mirrored points in order |
| BmpLib.Bitmap.CirclePoint | simple-bmp-lib/bmplib.c:330-351 | one loop body of DrawCircle keeps the loop invariant |
| BmpLib.Bitmap.MaskBitmap | simple-bmp-lib/bmplib.c:197-220 | nothing changes unless the bitmap has a mask, x and y are not 0, and x ≤ Width and y ≤ Height compared unsigned; otherwise pixel x's bit is OR-ed into the byte `MaskAt` computes as the source does (the row from `Width - y`, in 32-bit arithmetic) and no other byte changes; the header is kept when that byte lies behind it |
| BmpLib.Bitmap.MaskInside | simple-bmp-lib/bmplib.c:210-219 | in a valid icon, when y ≤ Width < y + Height (every pixel of a square icon), the byte `MaskBitmap` writes lies behind the pixel rows and inside the buffer |
| BmpLib.Bitmap.Open | simple-bmp-lib/bmplib.c:222-237 | width, height and depth are read from 0x04, 0x08 and 0x0E; the colour count is 2^depth; there is no mask; exactly `size` bytes are copied |
| BmpLib.Bitmap.Reopen | simple-bmp-lib/bmplib.c:222-237 | `OpenBitmap` on the buffer of a bitmap without a mask gives back the same width, height, depth, colour count, size and bytes |
| BmpLib.Bitmap.CreateBMPFile | simple-bmp-lib/bmplib.c:239-266 | the file is `14 + Size` bytes: the file header with the data offset `0x36 + 4·ColorCount` as the source writes it, then a copy of the bitmap buffer; returns 0 |

## Left out

- `export_to_gdl` (x86code-modifier/src/cgp.c:70-201): file output and pointer-derived names for a diagnostic dump.
- `GetInstructionSize` is not part of this model. It is a parameter `lde` of `Parse`, required to give each relative branch its architectural length (`CanonicalDecoder`).
- `cgp_randomize` (x86code-modifier/src/cgp.c:65-68) reads the clock; the seed is a parameter of the `Session` constructor.
- `cgp_free`, `cgp_init`, `CloseBitmap` and the `malloc`/`calloc`/`realloc` mechanics: the arena is a growable sequence, a new buffer is `new byte[n]`, and allocation failure is not modelled.
- Both `usage.c` drivers: `main`, file output, `rand()` and linker-symbol arithmetic.
- `OpenBMPFile` (simple-bmp-lib/bmplib.c:268-290): `fopen`/`fread` wrappers.
- `CreateICO` and `ConvertFileToBitmap` are declared in bmplib.h but have no definition in the library.
- `printf`/`exit`/`assert` in the source become error outcomes (`ParseOutcome`, `BuildOutcome`, `Cleanup`), never a crash.
- Cgp.Session.Parse: the traversal can loop forever on a cycle of jumps (`EB FE`). It is bounded by `fuel`, and running out is the `OutOfFuel` outcome. The contract covers the finished traversal only.
- Cgp.Session.Build, Cgp.Session.Walk: the walk is bounded by `fuel` for the same reason, with outcome `WalkUnfinished`.
- Cgp.Session.Build: reading a NULL CLink or FLink, a weight beyond the node's buffer, a copy past the 64 KiB buffer and a full worklist become the outcomes `NullLink`, `Unreadable`, `BufferFull` and `StackExhausted`. The source dereferences NULL or overruns the buffer there instead.
- Cgp.Session.Build: a relocation whose displacement would fall outside the 64 KiB buffer is the outcome `WriteOutOfBounds`. The source writes there without a check.
- Cgp.Session.Build, Cgp.Session.RemoveSimpleObfuscation: records freed by `cgp_except_node` stay readable in the arena. The source reads them after the free: the walk reads them, the sweep reads `nodes[i]->CLink` after the fall-through node is excepted, and it excepts the same record twice when the target is the fall-through node. The model does not describe freed memory.
- Cgp.Session.Visit: an instruction that runs past the end of the input is the outcome `ReadPastEnd`, and a Jcc longer than the 10 bytes allocated for it at x86code-modifier/src/cgp.c:699 is `DataOverflow`. The source's `memcpy` at x86code-modifier/src/cgp.c:743 reads or writes out of bounds instead.
- Cgp.Session.Random: it requires a bound of at most 2^31, where `rand_seed * (long long) seed` cannot overflow. `BuildSpaghetti` reports more slots than that as `TooManyNodes`.
- Cgp.Session.AddRedundantNop: with no slot at all, the source's bound `count - 1` wraps to 2^32 − 1 and the loop reads past the slot array. The model returns `ok = false` and changes nothing.
- Cgp.Session.RemoveSimpleObfuscation: the sweep stops (`Stuck`) at a CALL with no target, at a CALL whose target is a label (labels are allocated without a buffer, so the source reads the marker word through NULL), and at a marked CALL whose fall-through node is NULL, is the CALL itself, or whose target is the CALL itself. There the source dereferences NULL. In the last two cases the first `cgp_except_node` empties the CALL's own slot, and the source then reads `nodes[i]` again.
- Cgp.Session.RemoveSimpleObfuscation: for an instruction target of fewer than four bytes the source reads the marker word past the end of the target's buffer. The word it reads there is the parameter `past`, and the sweep goes on with it.
- Cgp.Session.PatchJmp: the temporary FLink/CLink swap of `cgp_write_offset` happens on a copy of the record. Swapping back restores it exactly, so the arena ends as in the source, but the swap is not visible in between.
- Parsing.NodeImage: the bytes of a Jcc buffer beyond the instruction are left uninitialised by the source; here they are zero.
- Classify.GetNodeType: the source reads the byte after a `0F` even at the very end of the buffer. Here a lone `0F` at the end is not a long Jcc.
- BmpLayout.ColorCounts: `(uint32_t) pow(2.0, 32)` is undefined in C. The model takes the low 32 bits (0), which makes the 32-bit depth palette-free, as the size formula expects.
- BmpLib.Bitmap.CreateBitmap: when the image size does not fit 32 bits, the source's sums wrap and its cursor runs past the buffer. The model reports `TooLarge` and allocates nothing.
- BmpLib.Bitmap.SetPixel: at 24 and 32 bits the source writes zeros whatever the colour. The model keeps this and states no colour property there.
- BmpLib.Bitmap.SetPixel: `Painted` covers every colour. The bit-level statement `PaintAtPixel` is given for colours below 2 at 1 bit and below 16 at 4 bits; larger colours spill into other pixels' bits, as in the source.
- BmpLib.Bitmap.SetPixel: it requires the pixel's bytes to fit the buffer. BmpLib.Bitmap.DrawLine and BmpLib.Bitmap.DrawCircle require a drawable bitmap (`Drawable`). At paletted depths `Width * BitCount` must not wrap. At 24 and 32 bits the top right pixel, at the address computed with the stride from the height, must fit the buffer. This holds for every bitmap no taller than wide (`LandscapeDrawable`). A taller bitmap can fail it, and then the source writes past the buffer (see Findings).
- BmpLib.Bitmap.DrawLine and BmpLib.Bitmap.DrawCircle: signed overflow in `abs`, `error * 2` and `x0 ± x` is undefined in C and not modelled. The coordinates are unbounded integers.
- BmpLib.Bitmap.DrawCircle: the contract states the shape of the arc (from the top to y = 0, moving right or down), not how close its points lie to the circle.
- BmpLib.Bitmap.MaskBitmap: the source compares `x` and `y` with the unsigned `Width` and `Height`, so negative coordinates pass its check only when `Width` or `Height` is 2^31 or more. The model requires a passing `x` to be positive, and requires the byte it writes to lie inside the buffer.
- BmpLib.Bitmap.MaskBitmap: it promises the header is kept only when the byte written lies behind the header. When `Width - y` wraps, as in `MaskByteAsWrittenWraps`, the source writes into the pixel rows, or into the header.
- BmpLib.Bitmap.MaskInside: it is stated for y ≤ Width < y + Height, where the row taken from the width is a real mask row. For other pixels of a non-square icon the source's address leaves the mask rows (see Findings).
- BmpLib.Bitmap.CreateBMPFile: the allocation of the out-parameter is not modelled.
- BmpLib.Bitmap.CreateBMPFile: it requires `0x0E + Size` to fit 32 bits and the buffer to hold `Size` bytes. `CreateBitmap` accepts a `Size` up to 2^32 − 1, and for a `Size` of 2^32 − 14 or more the source's `size` wraps: it allocates and records the wrapped size, and its `memcpy` of `Size` bytes runs past the allocation. A buffer from `Open` shorter than `Size` is read past its end. The model states neither.
- BmpLib.Bitmap.SetPalette: it requires an accepted palette entry to lie inside the buffer. Every valid bitmap meets this (`PaletteInPalette`), but a buffer from `Open` shorter than `0x28 + 4·ColorCount` does not, and there the source writes past the buffer. The model states nothing for such a buffer.

## Findings

The operations themselves follow the code as written: `Long2Short`, `SetPixel`,
`MaskBitmap` and `CreateBMPFile` compute what the source computes. The
corrected definitions (`LongToShortIntended`, `PixelByte`, `MaskByte`,
`DataOffset`) stand beside them with the intended property proved.

| source | as written | input that shows it | evidently intended | confidence | as-written member | corrected member |
|---|---|---|---|---|---|---|
| x86code-modifier/src/cgp.c:463-464 | `cgp_long2short` narrows a `0F` instruction only when its second byte is in 0x70..0x7F, which no long Jcc (`0F 80..8F`) has | `74 05` widened to `0F 84 CC CC CC CC`, then narrowed: it stays 6 bytes | test 0x80..0x8F and write `7x CC` back | high, not executed | Encoding.NarrowWidenedJeCounterexample | Encoding.NarrowIntendedAfterWidenJcc |
| simple-bmp-lib/bmplib.c:217 | the mask row is `(Width - y) * AND_size` | a 2×1 icon (56 bytes): pixel (1, 1) writes byte 56, past the end | `(Height - y) * AND_size` | high, not executed | BmpLayout.MaskByteAsWrittenOutside | BmpLayout.MaskInRows |
| simple-bmp-lib/bmplib.c:177-186 | the 24- and 32-bit row stride is computed from `Height` | a 1×2 24-bit bitmap (48 bytes): pixel (1, 1) writes bytes 48-50, past the end | the stride from `Width` | high, not executed | BmpLayout.PixelByteAsWrittenOutside | BmpLayout.PixelInRows |
| simple-bmp-lib/bmplib.c:258 | the data offset is `0x0E + 0x28 + ColorCount * 4` at every depth | a 1×1 24-bit file (58 bytes) gets data offset `0x36 + 0x4000000` | no palette term at 24 and 32 bits | high, not executed | BmpLayout.DataOffsetAsWrittenPastEnd | BmpLayout.DataOffsetStartsPixels |
