# A verified model of w_libs: red-black tree, BKV format, key tree

The project models three components of the library and proves what they promise.

**The red-black tree** (`rbt/src/red_black_tree.c`) is modelled on the heap: nodes
with `left`, `right`, `parent` and `red` fields that rotations, insertion and
deletion rewrite in place, a shared black `nil`, and a root sentinel whose `left`
is the real root. Beside the heap runs a ghost tree and a ghost path from the focus
node to the root; every case of the two fix-ups is first proved on those values
(`RedBlackShape`) and then on the pointers (`RedBlackLinks`, `RedBlackInsert`,
`RedBlackDelete`, `RedBlackTree`). `nil.parent` is scratch and never constrained. In
`RBDeleteFixUp` the root is captured once, as in the source, and may be stale after
the first rotation; the invariant says exactly what is then still known of it.
Duplicate keys are allowed; the order invariant is on the in-order sequence of
nodes. `RedBlackRuns` says what runs of insertions and deletions amount to on
sequences, and `RedBlackClient` makes such runs, and a walk, on trees.

**The BKV format** (`bkv/src/bkv.c`, `bkv/src/bkv_val.c`, `bkv/src/bkv_byteorder.c`)
is modelled from the byte routines up. `BkvDocument` gives the trees and their bytes;
the header byte of a closing mark that the writer never writes is part of the tree
(`pad`), so that the encoding is a function. `BkvMachine` is the writer as a state
machine on values, `BkvWriter` the handle: one buffer, a stack of open containers,
back-patched lengths. `BkvRuns` proves what all runs of calls can and cannot write.
`BkvReader` is the reading loop over any bytes, `BkvEvents` what it does with a
document, `BkvLookup` path lookup with its callbacks; `BkvRoundTrip` joins writing and
reading, and `BkvClient` makes whole runs of calls, on handles and bytes. Beside the
shared encoding stands a second account of the format in plain numbers, whose statements
do not use its bytes, header constants or readers: `BkvWire` says which bytes stand for a value and what each call writes,
`BkvLayout` the same of whole documents, `BkvTurns` what the loop reads, where it goes
and when it ends, turn by turn, and `BkvFound` what a lookup hands out.

**The key tree** (`kt/src/keytree.c`), for words of letters and digits and create
flags 0: `KeyTreeWords` says what additions, lookups and walks mean on sets of words,
`KeyTree` is the mutable trie with its child lists and counters.

Where code and comments differ the code is followed. The byte routines are called
`le`, yet they store the most significant byte first. A path lookup does not go back
to the key before when it leaves a map: `{ 1: {}, 3: 7 }` has no `1.3`, and the lookup
finds one. The element count of an array goes on from that of the array before at the
same depth. Each of these is a lemma with its exact condition below.

## Model

| member | source | states |
|---|---|---|
| RedBlackTree.RbTree.constructor | rbt/src/red_black_tree.c:24-50 | a new tree is a valid empty red-black tree with fresh sentinels |
| RedBlackTree.RbTree.LeftRotate | rbt/src/red_black_tree.c:69-104 | exactly the six pointers of a left rotation change, nil's parent is left alone |
| RedBlackTree.RbTree.RightRotate | rbt/src/red_black_tree.c:124-158 | the mirror image |
| RedBlackLinks.LeftRotateFocus | rbt/src/red_black_tree.c:69-104 | those pointer changes turn a linked tree into the linked rotated tree, wherever it hangs |
| RedBlackLinks.RightRotateFocus | rbt/src/red_black_tree.c:124-158 | the mirror image |
| RedBlackTree.RbTree.TreeInsertHelp | rbt/src/red_black_tree.c:175-203 | the new node hangs where everything before it is not above its key and everything after it is above |
| RedBlackTree.RbTree.InsertFixUp | rbt/src/red_black_tree.c:237-272 | from one possible red-red pair to a red-black tree with the same in-order sequence, with at most two rotations |
| RedBlackShape.PushRedUpColours | rbt/src/red_black_tree.c:240-244 | with a red uncle, recolouring moves the only possible red-red pair two levels up and keeps black heights |
| RedBlackShape.StraightenColours | rbt/src/red_black_tree.c:246-249 | the inner rotation turns a bent red-red pair into a straight one |
| RedBlackShape.SettleColours | rbt/src/red_black_tree.c:250-252 | recolouring and the outer rotation end the red-red pair and keep black heights |
| RedBlackTree.RbTree.RBTreeInsert | rbt/src/red_black_tree.c:225-279 | the tree stays a valid red-black tree; its sequence gains exactly the new node, after every key not above it and before every key above it; at most two rotations |
| RedBlackTree.RbTree.RBDeleteFixUp | rbt/src/red_black_tree.c:503-563 | from one subtree that is a black short to a red-black tree with the same in-order sequence, with at most three rotations, though the captured root goes stale |
| RedBlackTree.RbTree.DeleteFixLeft | rbt/src/red_black_tree.c:508-531 | one round on the left: done, or the shortage has moved up without a rotation, or one rotation has put it under a red parent |
| RedBlackTree.RbTree.DeleteFixRight | rbt/src/red_black_tree.c:532-556 | the mirrored round |
| RedBlackShape.RaiseSiblingColours | rbt/src/red_black_tree.c:510-515 | case 1: a rotation puts a black sibling beside the short subtree, nothing else becomes short |
| RedBlackShape.RedSiblingColours | rbt/src/red_black_tree.c:516-518 | case 2: reddening the sibling moves the shortage to the parent |
| RedBlackShape.TurnSiblingColours | rbt/src/red_black_tree.c:520-525 | case 3: the sibling is turned so that its far child is red |
| RedBlackShape.AbsorbColours | rbt/src/red_black_tree.c:526-530 | case 4: the rotation pays for the missing black |
| RedBlackDelete.AbsorbStep | rbt/src/red_black_tree.c:526-530 | case 4 on the pointers: the tree is whole again, and blackening the captured root afterwards does no harm even when it is no longer the root |
| RedBlackDelete.ShortageEnds | rbt/src/red_black_tree.c:507-558 | when the loop ends on a red node or on the captured root, blackening it gives a red-black tree |
| RedBlackTree.RbTree.SpliceOut | rbt/src/red_black_tree.c:588-598 | the node with at most one child is replaced by that child in its parent, and the child's parent (or nil's scratch parent) is set |
| RedBlackTree.RbTree.TakePlace | rbt/src/red_black_tree.c:610-619 | the spliced-out node takes over the four fields of the deleted one and its place with parent and children |
| RedBlackDelete.PlaceStep | rbt/src/red_black_tree.c:599-619 | after that the linked tree is the old one with the one node in the place of the other, colours and black heights as before |
| RedBlackTree.RbTree.RBDelete | rbt/src/red_black_tree.c:582-631 | the tree stays a valid red-black tree and its sequence of nodes is the old one without exactly the node given; at most three rotations |
| RedBlackTree.RbTree.TreeSuccessor | rbt/src/red_black_tree.c:295-314 | the next node of the in-order sequence, nil after the last |
| RedBlackTree.RbTree.TreePredecessor | rbt/src/red_black_tree.c:330-349 | the node before in the in-order sequence, nil before the first |
| RedBlackTree.RbTree.RBExactQuery | rbt/src/red_black_tree.c:468-484 | null exactly when no node has an equal key; otherwise a node with an equal key whose subtree holds all such nodes; no more Compare calls than the height, which is at most twice the binary logarithm of the size plus one |
| RedBlackShape.HeightBound | rbt/src/red_black_tree.c:468-484 | a red-black tree of n nodes has height at most 2 log2(n + 1) |
| RedBlackTree.RbTree.ContentsDistinct | rbt/src/red_black_tree.c:24-50 | no node is in the tree twice and nil is never in it |
| RedBlackRuns.InsertPromise | rbt/src/red_black_tree.c:175-203 | what insertion promises determines the new sequence: the node goes right after all keys not above it |
| RedBlackRuns.DeletePromise | rbt/src/red_black_tree.c:582-631 | what deletion promises determines the new sequence |
| RedBlackRuns.RemoveCommutes | rbt/src/red_black_tree.c:225-279 | inserting one node and deleting another give the same in either order |
| RedBlackRuns.RunSorts | rbt/src/red_black_tree.c:213-217 | on the sequences that the contracts determine: any legal run of insertions and deletions leaves exactly the surviving nodes, as if they alone had been inserted in their order of arrival |
| RedBlackRuns.SortedBySorted | rbt/src/red_black_tree.c:175-203 | that sequence is sorted and a permutation of the nodes inserted |
| RedBlackRuns.SortedByStable | rbt/src/red_black_tree.c:186-190 | smaller keys stand before greater ones, and equal keys in their order of insertion |
| RedBlackRuns.RunKeepsOrder | rbt/src/red_black_tree.c:588-626 | on those sequences: two nodes that a run does not delete keep their relative order through it |
| RedBlackRuns.SuccessorWalk | rbt/src/red_black_tree.c:295-314 | a sequence that begins with the first node and goes from successor to successor until nil is the whole sequence, each node once |
| RedBlackClient.RunCommands | rbt/src/red_black_tree.c:213-217 | any run of insertions and deletions by calls on a tree: it stays a valid red-black tree; of the node objects it held, exactly those that no call deletes are still in it, with key and info, in their relative order; it holds exactly the entries left, sorted, equal keys in their order of arrival, as if the deleted ones had never been there |
| RedBlackClient.RunFromNew | rbt/src/red_black_tree.c:24-50 | the same from a new tree on |
| RedBlackClient.VisitAll | rbt/src/red_black_tree.c:295-314 | calling TreeSuccessor from the leftmost node until nil visits the in-order sequence of the tree exactly |
| RedBlackRuns.SuccessorInverse | rbt/src/red_black_tree.c:330-349 | y follows x exactly when x precedes y |
| BkvBytes.Le16ToCpu | bkv/src/bkv_byteorder.c:26-31 | the number read is the one whose two bytes stand there |
| BkvBytes.Le32ToCpu | bkv/src/bkv_byteorder.c:41-46 | the same for four bytes |
| BkvBytes.LeU64ToCpu | bkv/src/bkv_byteorder.c:48-60 | the same for eight bytes |
| BkvBytes.LefToCpu | bkv/src/bkv_byteorder.c:85-93 | the bit pattern read is the one whose bytes stand there |
| BkvBytes.CpuToLe16 | bkv/src/bkv_byteorder.c:33-39 | stores the two bytes of the number at the offset and changes nothing else |
| BkvBytes.CpuToLe32 | bkv/src/bkv_byteorder.c:62-70 | the same for four bytes |
| BkvBytes.CpuToLeU64 | bkv/src/bkv_byteorder.c:72-84 | the same for eight bytes |
| BkvBytes.CpuToLef | bkv/src/bkv_byteorder.c:95-99 | stores the four bytes of a float's bit pattern unchanged |
| BkvBytes.Masked | bkv/src/bkv_byteorder.c:96 | the three masks lose no bit of the pattern |
| BkvBytes.Bytes16Injective | bkv/src/bkv_byteorder.c:26-39 | two bytes determine the number, so reading gives back what was written |
| BkvBytes.Bytes32Injective | bkv/src/bkv_byteorder.c:41-70 | the same for four bytes |
| BkvBytes.Bytes64Injective | bkv/src/bkv_byteorder.c:48-84 | the same for eight bytes |
| BkvBytes.SetKey | bkv/src/bkv.c:371-378 | stores the two header bytes and changes nothing else |
| BkvBytes.HeaderRoundTrip | bkv/src/bkv.c:371-378 | type and key come back from a header if and only if the key is at most 0xFFF |
| BkvWire.LeafAppended | bkv/src/bkv_header.h:25-39 | the encoding of every kind of value in numbers: header byte, key and digits, the most significant first |
| BkvWire.WrittenStands | bkv/src/bkv_val.c:131-174 | what a call writes under a key that fits, strings up to 65535 bytes, is what the reader's rules find there |
| BkvLayout.EncodeLaidOut | bkv/src/bkv_header.h:25-46 | where the bytes of a document stand, every header, length, count, value and mark of it is laid out as the format says, in numbers |
| BkvLayout.EntryThere | bkv/src/bkv_val.c:102-106 | entry number j of a container stands behind its header and the j entries before it |
| BkvMachine.ApplyKeepsInv | bkv/src/bkv.c:529-619 | every accepted call keeps the invariant: the state names the innermost container and arrays stand in maps only |
| BkvRuns.AcceptsExactly | bkv/src/bkv.c:101-134 | in every reachable kind of state, exactly the calls that are accepted; the array case of STATE_IN_MAP and STATE_KEY_SET do not come up, and closing an array always leaves a map open |
| BkvWriter.Bkv.constructor | bkv/src/bkv.c:191-208 | a new handle has written nothing, and its buffer holds zeros |
| BkvWriter.Bkv.KvAdd | bkv/src/bkv.c:380-505 | accepted calls put the item into the open container and append exactly its bytes, given as numbers: first byte 0x50, 0x60, 0x70, 0x80, 0x90 or 0xB0 by the kind of value plus the key's top bits, then the key's low byte and the digits of the value; a refused call gives its code and changes nothing; nothing behind the new end is touched |
| BkvWriter.Bkv.KvArrayAdd | bkv/src/bkv.c:621-711 | the same for array elements, under the array key 0xFFD; the counter of the innermost depth goes up by one, except for 64-bit integers, and no other does |
| BkvWriter.Bkv.KvMapOpen | bkv/src/bkv.c:529-557 | accepted exactly when the state allows; writes the header, 0x10 plus the key's top bits first, and records its offset one deeper; the counters stay, and nothing behind the new end is touched |
| BkvWriter.Bkv.KvArrayOpen | bkv/src/bkv.c:598-619 | the same for arrays with 0x30 |
| BkvWriter.Bkv.KvMapClose | bkv/src/bkv.c:560-596 | the open map becomes a finished item: 0x20 at the end, the distance from the recorded offset to the new end, cut to sixteen bits, in its header, every other byte as it was; the second byte of the mark is what the buffer held; the last close reaches STATE_TERM |
| BkvWriter.Bkv.KvArrayClose | bkv/src/bkv.c:715-759 | the same for arrays: 0x40, three bytes 0xEE, the distance and the counter of the innermost depth in the header; the empty-stack branch is dead |
| BkvWriter.Bkv.Append | bkv/src/bkv.c:763-792 | appends the other handle's bytes whatever the states; the items of a handle with nothing open go into the open container as if written there |
| BkvWriter.LaidPut | bkv/src/bkv.c:380-398 | appending an item's bytes to a well-formed prefix gives the prefix with the item |
| BkvWriter.LaidCloseMap | bkv/src/bkv.c:577-583 | patching the length and appending the mark turns a prefix with an open map into one with that map finished |
| BkvWriter.LaidCloseArr | bkv/src/bkv.c:731-745 | the same for arrays, with the count |
| BkvRuns.WriteItem | bkv/src/bkv.c:380-759 | a writable item is accepted call by call wherever it may stand and lands in the innermost container, with nothing else changed but the element counters |
| BkvRuns.RunWellWritten | bkv/src/bkv.c:101-134 | after any run everything in the handle could be written where it stands, and a single root map is complete exactly in STATE_TERM |
| BkvRuns.WrittenExactly | bkv/src/bkv.c:101-134 | the documents that complete runs produce are, up to array counts, exactly the maps in which scalars have keys up to 0xFFF and arrays hold scalars other than 32-bit integers and maps, nested at most 32 deep |
| BkvRuns.ArrayCount | bkv/src/bkv.c:739-741 | the count in an array's header is what earlier arrays at its depth left plus its elements other than 64-bit integers and maps; it is the number of elements exactly when these errors cancel |
| BkvRuns.SecondArrayMiscounted | bkv/src/bkv.c:598-619 | two one-element arrays side by side get the counts 1 and 2 |
| BkvEvents.QuietItem | bkv/src/bkv_val.c:79-182 | inside a container, callbacks that ask for nothing are given exactly the item's events, and the loop stands just past the item at the same depth |
| BkvEvents.QuietRoot | bkv/src/bkv_val.c:108-117 | on a closed document they are given exactly its events and the loop stops just past the root's close at depth 0 |
| BkvEvents.SkipEqualsParse | bkv/src/bkv_val.c:92-105 | skipping a map lands where reading it lands if and only if its extent is below 65536; a multiple of 65536 is reported as a map never closed |
| BkvEvents.SameEventsSameDocument | bkv/src/bkv_val.c:85-180 | the events determine the document, all but the pad byte of array closes |
| BkvReader.WalkItem | bkv/src/bkv_val.c:79-182 | where the bytes of an item stand, the loop makes the callbacks that the recursion over the tree makes, for any callbacks, and goes on from where that ends; after a jump over a map too long for its length field, from wherever that lands |
| BkvReader.RoundSkips | bkv/src/bkv_val.c:92-99 | on the bytes of a map to skip, the round stands behind the map at the same depth if and only if its extent is below 65536, and takes it for unclosed exactly when the extent is a multiple of that |
| BkvReader.ParseLandsBehind | bkv/src/bkv_val.c:79-182 | event by event, callbacks asking for nothing come to the same place and depth |
| BkvReader.SkipLandsBehind | bkv/src/bkv_val.c:92-105 | when the extent is below 65536, the walk that skips the map goes on from there, with nothing done but the one callback |
| BkvReader.ReadOne | bkv/src/bkv_val.c:80-182 | on any bytes, one round is the recursion's round; `BkvTurns.RoundTurns` says in numbers what it decodes, calls and moves |
| BkvReader.ValForeach | bkv/src/bkv_val.c:62-185 | on any bytes that the walk does not leave: data, answer and end position are those of the walk, and BKV_INV_ARG exactly on a map to skip without a length; `BkvTurns` says without the walk what that means |
| BkvTurns.RoundTurns | bkv/src/bkv_val.c:79-180 | one round on any bytes makes the one callback that the header byte, in numbers, calls for, with the key and value read there, and goes on by the width of the item, or behind the map to skip, with the depth moved; an unknown header makes none |
| BkvTurns.WalkTurns | bkv/src/bkv_val.c:79-182 | the whole walk is a list of such turns: each starts where the one before has led, with the data it has left; none follows a STOP answer or the close of the outermost map; it ends only by these, an unknown header, or, as the one error, an unclosed map to skip |
| BkvTurns.TurnsUnique | bkv/src/bkv_val.c:79-185 | bytes, callbacks and first data leave the loop no choice: one list of turns, one result, one answer, one end |
| BkvTurns.ForeachLogged | bkv/src/bkv_val.c:62-185 | val_foreach with callbacks that log their answers, on any bytes it does not leave: no entry of the log but the last answers STOP, the log is that of the turns, and the loop is over for one of the four reasons |
| BkvRoundTrip.ClosedHandle | bkv/src/bkv.c:586-588 | a handle in STATE_TERM holds exactly the bytes of one root map |
| BkvRoundTrip.ReadBack | bkv/src/bkv_val.c:506-510 | reading a closed handle gives quiet callbacks the events of what was written, from the first to the last byte |
| BkvRoundTrip.WrittenReadsBack | bkv/src/bkv_val.c:62-185 | on the writer's values and the recursion over trees: the run that writes a writable map, and the events of what it writes |
| BkvRoundTrip.WriteOut | bkv/src/bkv.c:380-759 | the calls for a writable item on a handle with just the room for it are all accepted, move the end by its extent, touch nothing behind it, and write the item with the pads its marks have found, which are zero where the buffer is |
| BkvRoundTrip.WriteAndRead | bkv/src/bkv_val.c:62-185 | a writable and readable map written on a new handle and read from its bytes gives quiet callbacks exactly its events, with marks of zero and the counts its arrays get, and stops after the last byte written |
| BkvClient.Make | bkv/src/bkv.c:380-759 | any one call on a handle, accepted or refused, keeps it valid, does what the state machine does, and answers 1, -2 or -5 by state and key alone |
| BkvClient.MakeAll | bkv/src/bkv.c:101-134 | after any sequence of calls on a handle, accepted or refused, everything in it could be written where it stands, and in STATE_TERM its bytes are those of one root map, laid out as the format says; the accepted calls are a run of the state machine |
| BkvClient.EmbedAndLookUp | bkv/src/bkv.c:763-792 | a closed document appended to an open root map of another handle, which is then closed: looking its key up in the bytes finds its place, and looking inside at that place answers as in the document by itself, with places moved |
| BkvRoundTrip.AppendedAsWritten | bkv/src/bkv.c:763-792 | appending a closed document leaves, up to array counts, the tree that writing it there as a nested map leaves |
| BkvLookup.RunFinds | bkv/src/bkv_val.c:199-457 | the callbacks do with any item, for any path, what a recursive search does: set the value, stop without one, go on with the next key, or fail at a map too long for its length field |
| BkvLookup.LookupSearches | bkv/src/bkv_val.c:199-457 | when every map jumped over is short enough for its length field, the loop with the lookup callbacks is a search of the visible entries: it sets the value exactly when the search finds one, and to that one |
| BkvLookup.OneKey | bkv/src/bkv_val.c:480-504 | with one key the lookup finds the first visible entry with that key, and nothing exactly when there is none |
| BkvLookup.VisibleEntries | bkv/src/bkv_val.c:118-129 | the visible entries are the map's own and what its arrays hold directly |
| BkvLookup.DescendedIsFound | bkv/src/bkv_val.c:199-231 | with a longer path, whenever the step-by-step first-match descent resolves, the lookup finds the same entry |
| BkvLookup.SearchExactly | bkv/src/bkv_val.c:213-237 | for every path and document, what the lookup answers: the descent's entry, and when the descent gets stuck, what the remaining keys are found to be among the entries after the maps gone into |
| BkvLookup.SearchSettled | bkv/src/bkv_val.c:213-237 | the lookup in closed form, by descents alone: when one gets stuck, the keys left are looked up among the entries behind the maps gone into |
| BkvLookup.StrayAnswer | bkv/src/bkv_val.c:213-237 | the lookup differs from the descent exactly when the descent gets stuck inside some map and the keys left are found behind it |
| BkvLookup.OneKeyLeft | bkv/src/bkv_val.c:213-237 | one key left is found there exactly when an entry has it |
| BkvLookup.NotRolledBack | bkv/src/bkv_val.c:213-237 | a document without the path 1.3 in which the lookup of 1.3 succeeds |
| BkvLookup.ArrayFills | bkv/src/bkv_val.c:252-260 | without a path the first m numbers of an array fill the m outputs in order, and the loop stops right after the m-th |
| BkvLookup.ValGet2 | bkv/src/bkv_val.c:480-504 | on any bytes, for both kinds of call: the answer and the outputs are those of the walk with the lookup callbacks; without a path, on anything but an array, BKV_INV_ARG and nothing touched; `BkvFound` says what is handed out, by the bytes |
| BkvLookup.GetSearches | bkv/src/bkv_val.c:480-504 | on the bytes of a document, with a path: no read outside the key array, BKV_OK exactly when the search finds an entry, the output set to that entry and otherwise untouched |
| BkvLookup.GetFills | bkv/src/bkv_val.c:480-504 | on the bytes of an array that begins with m numbers, without a path: the m outputs are these numbers in order and nothing behind the m-th is read |
| BkvLookup.LookupMoved | bkv/src/bkv_val.c:480-504 | a lookup answers the same wherever the document stands, with its places moved |
| BkvLookup.EmbeddedIsFound | bkv/src/bkv.c:789-790 | a document appended under a key not used before it is found under that key, and its own bytes stand at the place found |
| BkvFound.GetOnAnyBytes | bkv/src/bkv_val.c:199-457 | with a path, on any bytes: the output is what the bytes say of an item under the last key, where the loop has come to last: its place, count, number, pattern, text and length, or a truth value that is false exactly for a zero byte; a failure leaves it alone |
| BkvFound.GetOnDocument | bkv/src/bkv_val.c:480-504 | with a path, on a document: success exactly when the keys lead to an entry, and then the output says what that entry's bytes say; each key leads to the first entry with its header at which the lookup does something, a map or a number under a key before the last |
| BkvFound.AnswersWhenLed | bkv/src/bkv_val.c:199-457 | the search answers exactly when the keys lead somewhere, in terms of the header bytes |
| BkvFound.VisibleAscends | bkv/src/bkv_val.c:79-182 | the entries a lookup sees are in the order in which they stand |
| BkvFound.VisibleHas | bkv/src/bkv_val.c:118-129 | none of a map's entries, nor of the elements of its arrays, is missing among them, each at its place |
| BkvFound.GetElements | bkv/src/bkv_val.c:252-260 | without a path, on an array that begins with enough numbers: output j is the value whose bytes stand at the place of element j |
| KeyTreeWords.AfterExactly | kt/src/keytree.c:227-324 | what any additions come to, as a value that `AddAll` puts into trees: the words are those added, the keys are their beginnings, and a key's data is what the first addition through it left |
| KeyTreeWords.FirstWriterWins | kt/src/keytree.c:310-320 | in that value, a word's data is its first writer's if and only if no longer word went through its key before, or that writer had none |
| KeyTreeWords.LongerWordFirst | kt/src/keytree.c:310-320 | adding "ab" before "a" leaves "a" a word without data |
| KeyTree.KtKeyAdd | kt/src/keytree.c:193-222 | the child at the place, made if it was not there; the counter stays the number of children |
| KeyTree.KeyTree.ChildFor | kt/src/keytree.c:244-309 | one round of the loop keeps the tree valid and adds a key for at most the next beginning |
| KeyTree.KeyTree.Add | kt/src/keytree.c:227-324 | the tree knows afterwards exactly what an addition adds; W_E_EXISTS exactly when the word's key was there, with the data it already had; new keys are new objects |
| KeyTree.AddAll | kt/src/keytree.c:374-381 | any sequence of additions on an empty tree leaves what `After` says of it, so that the statements on `After` are statements on trees |
| KeyTree.AddAllAndCompare | kt/src/keytree.c:437-488 | after any additions a string is recognised, with 0 and otherwise 2, exactly when the letters and digits it starts with are an added word and a character up to the space, or DEL, follows |
| KeyTree.WgKeytreeCreate | kt/src/keytree.c:333-372 | there is a tree exactly when no word is empty or the beginning of a word before it, and it then holds all the words; otherwise the error is 5 when the first such word is empty and 6 when it is such a beginning |
| KeyTree.KeyTree.Strcmp | kt/src/keytree.c:437-488 | succeeds exactly when the letters and digits the string starts with are an added word and a space or control character follows |
| KeyTree.KeyTree.KeyGet | kt/src/keytree.c:383-435 | the key of that word when punctuation, a space or a control character follows, and null in every other case |
| KeyTree.KeyTree.Foreach | kt/src/keytree.c:76-139 | the callback gets every key below the given one, with its flag, its data and its string, in the order of the walk; the early exit by the counter misses none |
| KeyTree.KeyTree.ForeachAll | kt/src/keytree.c:597-603 | the walk from the head with its buffer of 128 characters |
| KeyTree.AddAllAndCollect | kt/src/keytree.c:88-124 | after any additions, the keys that the walk finds ending a word are those of exactly the words added, each met once, in order |
| KeyTree.AddAllAndVisit | kt/src/keytree.c:88-124 | after any additions, what the walk hands to its callback: each beginning of an added word exactly once, in order, with a key of its own, flagged exactly when it is a word, with the data of the first addition through it if that was of this very word and none otherwise, as the key itself has them |
| KeyTree.VisitAndGet | kt/src/keytree.c:383-435 | for any string: a key is found exactly when the letters and digits it starts with are an added word and another character up to 127 follows, and it is the object that the walk hands out under that word |
| KeyTree.WalkExactly | kt/src/keytree.c:597-603 | that walk meets exactly the strings that have a key, in order |
| KeyTreeWords.VisitsExactly | kt/src/keytree.c:76-139 | a walk visits exactly the strings below its start |
| KeyTreeWords.VisitsInOrder | kt/src/keytree.c:88-124 | a walk is in order: a string before those that go on from it, lower case before upper case before digits |
| KeyTreeWords.EarlierIsBefore | kt/src/keytree.c:88-124 | that order without ranks: by beginnings, and where two strings first differ, lower case, upper case, digits, each by code |
| KeyTreeWords.VisitedOnce | kt/src/keytree.c:88-124 | no string is visited twice |

## Left out

Red-black tree:

- Comparison functions outside the contract of `rbt/inc/w_rbt.h` line 32: every valid tree has a total preorder answering 1, -1 or 0.
- The destruction callbacks and freeing nodes: a deleted node is out of the tree and not otherwise touched. `key` and `info` are constants of a node, as the source writes them once.
- Printing, `RBTreeDestroy`, the disabled `RBEnumerate`, `rbt/src/stack.c`, allocation failure.
- The cases of `RBDelete`, `RBTreeInsert` and `RBDeleteFixUp` are methods of their own here, one for each branch of the C function.

BKV:

- Buffer growth, files and memory maps (`bkv_prepare`, `bkv_mem_truncate`): room in the buffer is a precondition of every write; that marks find zeros is said of a buffer that has not grown. The sizes `bkv_prepare` is given are not the bytes written and it grows by one chunk only, so the source does not guarantee it.
- Depth: at most 32 open containers is a precondition of opening one; the source does not check.
- Keys above 0xFFF for maps and arrays: the source does not check them and neither does the model; `HeaderRoundTrip` says that such a header does not read back, and documents that are read have keys that fit.
- In STATE_INIT and STATE_TERM some calls read `deep_value[-1]`; no answer depends on it, and the model uses a fixed character.
- `array_nb_elems` and the other fixed arrays of the handle are sequence fields.
- Writing doubles (the writer keeps 32 bits of them; reading one is modelled, as its bit pattern), `bkv_kv_wchar_add`, insertion mode (`bkv_write_offset_set`, `bkv_finalize`), which does not update enclosing lengths.
- ValForeach: the loop does not know where the buffer ends; the model requires that the walk does not read behind it.
- The data that callbacks share is passed through pure functions rather than through pointers; callbacks that change the document are not modelled. A null callback is one that asks for nothing.
- The add functions differ only in the type of the value; KvAdd and KvArrayAdd stand for all of them, with the value as a datatype. Closing a container is a check and a second method that writes.
- A float is its bit pattern; strings are the bytes at the pointer handed over.
- ValGet2: a walk in which a callback reads outside the key array or writes outside the values given, as with strings in an array and no path, is excluded by precondition, like one that leaves the buffer.
- WrittenReadsBack: speaks of the writer's values and of trees only; WriteAndRead states the round trip on a handle and its bytes.
- The JSON layer, dictionary plug-ins, the logger and initialisation.

Key tree:

- Characters other than letters and digits in words added, create flags other than 0, `wg_keytree_weakcmp`, `wg_keytree_strcmp_isalnum`, callbacks on addition, release, and allocation failure.
- Characters above 127 count as neither letters, spaces, control characters nor punctuation, as in the C locale.
- A callback of the walk is a pure function of the key's object, flag, data and string; it does not change the tree.
- The lists of child pointers are sequence fields of a key, empty for the null pointer.
- Words longer than 128 characters, for which the walk's buffer is too short, are excluded there by precondition.
