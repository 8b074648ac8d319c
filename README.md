# christree in Dafny

A model of the christree of the dumbstruct C library, and of its `dbs_hash`
byte hash, with proofs about both.

A christree stores fixed-length byte keys, each `layer_num` bytes long, one
byte per tree level:

- Each node has an ordered array of children (`next`, `next_used`,
  `next_alloc`), sorted by the child's byte (`dif`).
- Each node is also on a doubly linked chain of all the nodes of its layer
  (`before`/`after`). Each layer's head and node count are kept in
  `struct dbs_christree_layer`.
- `add` walks a key down from the root, creating the nodes it is missing,
  and hangs a payload on the last one.
- `rmv` frees a key's node and then the ancestors left without children.
- `sel` finds a node by a layer offset and a byte mask, and copies the
  payloads below it, in pre-order, into a bounded buffer.

The tree is the class `ChrisTree.Tree`:

- Its nodes live in an arena: a map from handles to node records, with the
  horizontal links in a second map. Handles come from a counter that plays
  the part of `malloc`.
- The ghost fields give each layer's chain as a sequence, and each node's key
  prefix together with its inverse.
- `Valid()` holds the tree invariant:
  - parents and children agree, and layers increase by one per level;
  - child arrays are strictly sorted, so no byte repeats among siblings;
  - chains are sorted and mirror the links, and each chain's head and count
    match its layer record;
  - prefixes extend their parent's prefix by the node's byte;
  - handles are fresh.
- `Contents()` is the abstract view: a map from stored keys to payloads.

Each C function is a method of the class. It states the new state in terms of
specification functions (`WithChild`, `LinkedIn`, `Attached`, `Detached`,
…), and lemmas prove those functions keep `Valid()` and how they change
`Contents()`.

Modules:

- `ChrisNode` (chris_node.dfy): node records, the `char` byte order, the
  scans of `get_next`/`add_next`/`rmv_next`, and sortedness lemmas.
- `ChrisShape` (chris_shape.dfy): the tree invariant, key prefixes, the
  abstract view, and the pre-order collection `sel_hlf` performs.
- `ChrisLayer` (chris_layer.dfy): layer chains and their links.
- `ChrisUpdate` (chris_update.dfy): `init`, a creating round of `add`, and
  storing a payload.
- `ChrisDetach` (chris_detach.dfy): a pruning round of `rmv`.
- `ChrisTree` (chris_tree.dfy): the class with one method per C function.
- `Djb2` (djb2.dfy): `dbs_hash` with explicit 64-bit wrap-around.
- `Wrappers` (wrappers.dfy): `Option`.

Where the C code does something evidently unintended, the model follows the
intent. The doc comment of the affected member says so:

- `add_next` never increments `next_used`, and its `memmove` shifts by the
  wrong amount.
- `unlink_layer` matches by byte rather than by node, and never advances
  along the chain. It also writes through the tail's NULL `after`.
- `rmv_next` never clears the slot it vacates, so the handle of the old last
  child stays there. A later `add_next` of a child greater than all the
  others then lands past that stale slot, outside `next_used`, while the
  stale handle is counted twice. The model's child array has no slots past
  the used ones.
- `rmv` prunes an ancestor that still has one child.
- `sel_hlf` checks the buffer limit only once per node.

The model also fixes two things the C leaves open. Bytes compare as signed
`char`. The root's unset fields are given values: its layer is -1.

## Model

| member | source | states |
|---|---|---|
| Djb2.Hash | src/utils.c:6-16 | The loop's result is the djb2 fold of the first `len` bytes with the shift-and-add steps wrapping at 2^64; a non-positive length gives 5381. |
| Djb2.HashOfAppend | src/utils.c:11-13 | One more byte multiplies the previous hash by 33 and adds the byte, modulo 2^64. |
| Djb2.HashOfOneByte | src/utils.c:8-13 | A one-byte buffer hashes to 5381·33 + byte. |
| Djb2.ShiftAddStep | src/utils.c:12 | `(hash << 5) + hash + b` on a u64 equals `33·hash + b` modulo 2^64. |
| ChrisNode.Signed | src/christree.c:243 | The `char` reading of a byte lies in -128..127 and is congruent to the byte modulo 256; bytes of 128 and up read negative. |
| ChrisNode.SignedInjective | src/christree.c:167-168 | Two bytes compare equal as `char` exactly when they are equal. |
| ChrisNode.FirstWithDif | src/christree.c:167-170 | The index found is the first whose byte equals `dif`; every earlier byte differs; the length means none matches. |
| ChrisNode.InsertPos | src/christree.c:229-251 | The insertion index follows every entry whose byte is not greater in `char` order and precedes the first greater one. |
| ChrisNode.GetNext | src/christree.c:157-173 | A returned child is a used child of `n` with byte `dif`; NULL means no used child has that byte. |
| ChrisNode.StrictlySortedFirst | src/christree.c:157-173 | In a strictly sorted child array the scan of `get_next` finds each child at its own index. |
| ChrisNode.InsertKeepsStrictlySorted | src/christree.c:229-251 | Inserting a child with a new byte at the `add_next` position keeps the child array strictly sorted. |
| ChrisNode.InsertKeepsSorted | src/christree.c:316-349 | Inserting at the `link_layer` position keeps a layer chain sorted. |
| ChrisNode.RemoveKeepsStrictlySorted | src/christree.c:259-286 | Removing a child keeps the child array strictly sorted. |
| ChrisNode.RemoveKeepsSorted | src/christree.c:356-391 | Removing a node keeps a layer chain sorted. |
| ChrisNode.Grown | src/christree.c:215-226 | Growing by 1.5 never shrinks the slot count, and leaves room for one more child. |
| ChrisNode.IndexOf | src/christree.c:367-371 | The index is the position of the node in the chain, or the length exactly when it is absent. |
| ChrisNode.AddThenRemoveChild | src/christree.c:198-286 | `rmv_next` after `add_next` of a child with a new byte finds it where it went in and restores the original child array. |
| ChrisNode.LinkThenUnlink | src/christree.c:288-391 | Unlinking a node just linked into a chain finds it where it went in and restores the chain. |
| ChrisNode.InsertHas | src/christree.c:229-251 | Insertion keeps every entry and adds exactly the new one. |
| ChrisNode.RemoveHas | src/christree.c:259-286 | Removing an entry of a repeat-free sequence keeps exactly the other entries. |
| ChrisShape.MirroredAt | src/christree.c:341-342 | Each member of a mirrored chain links back to its predecessor and on to its successor, with NULL at the ends. |
| ChrisShape.ChildLookup | src/christree.c:157-173 | In a valid tree `get_next(p, b)` finds the node for p's prefix extended by `b`, and NULL exactly when no node has that prefix. |
| ChrisShape.PrefixClosed | src/christree.c:460-472 | Every prefix of a key held by the tree is held by a node as well. |
| ChrisShape.Descend | src/christree.c:503-509 | The node reached by one `get_next` per byte is allocated. |
| ChrisShape.DescendFinds | src/christree.c:503-509 | Following bytes `bs` from `n` reaches the node of n's prefix extended by `bs`, and NULL exactly when there is none. |
| ChrisShape.Truncate | src/christree.c:537-538 | What fits in a buffer of `m` slots: a prefix of the sequence, of length the smaller of the two. |
| ChrisShape.TruncateAppend | src/christree.c:527-543 | Filling a buffer with a part that fits and then more leaves the rest of the room to the second part. |
| ChrisShape.CollectSound | src/christree.c:527-543 | Every payload gathered below `n` belongs to a stored key starting with n's prefix. |
| ChrisShape.CollectComplete | src/christree.c:527-543 | The payload of every stored key starting with n's prefix is gathered below `n`. |
| ChrisShape.CollectExact | src/christree.c:527-543 | The payloads gathered below `n` are exactly those of the stored keys that start with n's prefix. |
| ChrisShape.AncestorHasChild | src/christree.c:514-516 | A node on a strict prefix of another node's key has a child, so the pruning loop stops at it. |
| ChrisShape.StillBelow | src/christree.c:518-522 | After freeing the deepest node left on a key, its parent is the deepest node left on that key. |
| ChrisShape.StopsBelow | src/christree.c:511-523 | Once the deepest node left on a key is the root or has a child, every node left on the key is. |
| ChrisShape.NoPayload | src/christree.c:511-523 | Freeing a node that carries no payload drops no key from the abstract view. |
| ChrisShape.NewPayload | src/christree.c:477 | Storing a payload on the node of a key rebinds that key and no other. |
| ChrisShape.LeadsToPayload | src/christree.c:511-523 | In a tree pruned as `rmv` leaves it, every non-root node lies on the way to a stored payload. |
| ChrisShape.NodeImpliesPayload | src/christree.c:511-523 | A pruned tree holding any node besides the root holds some payload. |
| ChrisLayer.ChainInsert | src/christree.c:288-353 | Linking a node into its layer at the `link_layer` position keeps the chain sorted, repeat-free, mirrored by its links and counted by its layer record. |
| ChrisLayer.ChainRemove | src/christree.c:356-391 | Unlinking a chain member keeps the chain valid, moves the head on when the head goes, and counts it out. |
| ChrisLayer.UnlinkAt | src/christree.c:375-382 | A member's `before`/`after` are its chain neighbours, and unlinking it joins them directly. |
| ChrisLayer.ChainFrame | src/christree.c:406-412 | A chain stays valid when its nodes keep their layer, byte and links, as `add_next` leaves them. |
| ChrisUpdate.InitOk | src/christree.c:10-66 | The tree `init` returns is valid and stores nothing. |
| ChrisUpdate.AttachOk | src/christree.c:462-469 | One creating round of `add` keeps the tree valid and allocates exactly one fresh node. |
| ChrisUpdate.AttachKeeps | src/christree.c:462-469 | One creating round of `add` changes no stored key or payload. |
| ChrisUpdate.SetDataOk | src/christree.c:477 | Hanging a payload on a last-layer node keeps the tree valid. |
| ChrisUpdate.SetDataKeeps | src/christree.c:477 | Hanging `v` on a node binds that node's key to `v` and leaves every other key alone. |
| ChrisDetach.CutParent | src/christree.c:518-520 | Cutting a non-root node removes it from the arena and changes only its parent's child array. |
| ChrisDetach.DetachOk | src/christree.c:511-523 | One pruning round on a childless node keeps the tree valid and frees exactly that node. |
| ChrisDetach.DetachKeeps | src/christree.c:511-523 | One pruning round drops the payload of that node's own key and no other. |
| ChrisTree.Mask.Tail | src/christree.c:565-568 | The bytes the mask loop reads after the first: `len - 1` of them, from `data[1]` on. |
| ChrisTree.Tree.constructor | src/christree.c:10-66 | `init(lim)`: a valid tree with `lim` empty layers and a childless root with NEXT_MIN empty slots, storing nothing. |
| ChrisTree.Tree.New | src/christree.c:99-141 | `new`: on success a fresh handle holding a childless, unlinked node with NEXT_MIN slots and the given parent, layer and byte; on allocation failure NULL and no change. |
| ChrisTree.Tree.Del | src/christree.c:144-154 | `del`: the node leaves the arena and nothing else changes. |
| ChrisTree.Tree.AddNext | src/christree.c:198-256 | `add_next`: -1 and no change when growing fails; otherwise `c` is inserted after every child not greater in `char` order, and the slots grow by 1.5 when full. |
| ChrisTree.Tree.RmvNext | src/christree.c:259-286 | `rmv_next`: the first child with c's byte is removed and the later ones move down; no change when there is none. The vacated slot is empty again, where the C leaves the old last handle in it. |
| ChrisTree.Tree.GetLayer | src/christree.c:176-195 | `get_layer`: the first chain member with byte `dif`; NULL exactly when no node of that layer has it. |
| ChrisTree.Tree.SeekLayer | src/christree.c:316-343 | The walk of `link_layer` stops at the `link_layer` insertion position and returns the chain neighbours there. |
| ChrisTree.Tree.Splice | src/christree.c:320-349 | The pointer writes of `link_layer`: the new node's links, both neighbours', and the layer's head and count. |
| ChrisTree.Tree.LinkLayer | src/christree.c:288-353 | `link_layer`: the node enters its layer's chain at the sorted position, the head moves on a front insert, the count rises by one, and the chain stays valid. |
| ChrisTree.Tree.SeekNode | src/christree.c:367-371 | The walk of `unlink_layer` finds `n`'s position in the chain, and reports whether `n` is on it. |
| ChrisTree.Tree.Unhook | src/christree.c:375-387 | The pointer writes of `unlink_layer`: neighbours are joined, the head moves on, the count drops by one. |
| ChrisTree.Tree.UnlinkLayer | src/christree.c:356-391 | `unlink_layer`: exactly `n` leaves its chain, the head moves on when it was the head, the count drops, and the chain stays valid; no change when `n` is absent. |
| ChrisTree.Tree.LinkNode | src/christree.c:394-423 | `link_node`: `add_next` then `link_layer`; -1 and no change when `add_next` fails. |
| ChrisTree.Tree.UnlinkNode | src/christree.c:426-443 | `unlink_node`: `unlink_layer` then `rmv_next`, with the resulting state stated for both. |
| ChrisTree.Tree.Graft | src/christree.c:462-469 | A creating round succeeds exactly when both allocations do; then the state is the attached one, and otherwise nothing but the allocator moves. |
| ChrisTree.Tree.Hang | src/christree.c:467-482 | `link_node` on a node just made, and `del` on failure, restoring the state before `new`. |
| ChrisTree.Tree.Extend | src/christree.c:460-472 | A creating round on a valid tree keeps it valid and its contents unchanged; on success exactly one node is added, under `p`, for the extended prefix. |
| ChrisTree.Tree.Step | src/christree.c:461-471 | One loop round of `add` reaches the node for the prefix extended by `b`, creating it only when absent, and fails only on an allocation fault; contents stay unchanged. |
| ChrisTree.Tree.Walk | src/christree.c:460-472 | The loop of `add` reaches the key's node unless an allocation fails, changes nothing when the key exists, and every node it adds lies on a prefix of the key. |
| ChrisTree.Tree.Store | src/christree.c:477 | The payload is hung on the key's node: the key is bound to `v`, and validity and pruning are kept. |
| ChrisTree.Tree.Add | src/christree.c:446-487 | `add`: -1 and no change for a NULL key or payload; 0 binds the key to the payload; -1 on allocation failure leaves contents unchanged; without faults it succeeds; re-adding a stored key only overwrites the payload of its node; the tree stays valid and pruned. |
| ChrisTree.Tree.Follow | src/christree.c:503-509 | One `get_next` per byte from `n`, stopping at the first missing child: the node reached is `Descend` of the bytes. |
| ChrisTree.Tree.Snip | src/christree.c:518-520 | `unlink_node` and `del` of one pruning round give the detached state. |
| ChrisTree.Tree.Drop | src/christree.c:511-523 | One pruning round keeps the tree valid, frees exactly `n`, drops only n's key from the contents, and returns n's parent. |
| ChrisTree.Tree.Rmv | src/christree.c:490-524 | `rmv`: the key leaves the contents and no other key does; an absent or NULL key changes nothing; a stored key's node is freed, only nodes on the key's path are freed, and every node left on the path is the root or still has a child; the tree stays valid and pruned. |
| ChrisTree.Tree.PruneUp | src/christree.c:511-523 | The pruning loop frees childless ancestors below the root: afterwards every node left on the key's path is the root or has a child, only nodes on that path are freed, contents and validity are kept, and a pruned tree stays pruned. |
| ChrisTree.Tree.PruneStep | src/christree.c:512-522 | One pruning round frees the bare node `cur` and no other, keeps validity and contents, and returns its parent, which becomes the deepest node left on the key. |
| ChrisTree.Tree.SelHlf | src/christree.c:527-543 | `sel_hlf`: from slot `c0` the buffer holds the pre-order payloads of n's subtree, cut at `lim`; slots outside those written are untouched. |
| ChrisTree.Tree.SelKids | src/christree.c:537-542 | The children loop of `sel_hlf` writes the children's subtrees in array order, cut at `lim`, and nothing else. |
| ChrisTree.Tree.SelKid | src/christree.c:540-541 | One child's subtree is appended after what the buffer already holds, cut at `lim`. |
| ChrisTree.Tree.Target | src/christree.c:562-568 | The node `sel` collects from, when there is one, is allocated. |
| ChrisTree.Tree.TargetMatches | src/christree.c:562-568 | The node `sel` collects from lies `len - 1` layers below `off`, and its key carries the mask's bytes from position `off` on. |
| ChrisTree.Tree.Sel | src/christree.c:547-581 | `sel`: -1 for no mask or `lim < 1`; 0 when no node matches; otherwise the count and the first `lim` pre-order payloads below the match. Each is stored under the match's prefix, and all such payloads are present when fewer than `lim` come back. |

## Left out

- `dbs_christree_close` (src/christree.c:69-96) is not modelled: the arena is never torn down. The C frees only the layer array, the root and the tree record, so every node below the root leaks.
- The `ALARM` diagnostics on each error path are left out; only the return codes are modelled.
- Memory addresses are handles (naturals) from a counter, and `void *data` is a type parameter. Pointer identity beyond the handle is not modelled.
- `malloc` and `realloc` outcomes are inputs: the `ok` flags of `New` and `AddNext`, and the `Fault` parameter of `Add`.
- `init`'s allocation failures (src/christree.c:19-45) are not modelled; the constructor always succeeds.
- `new` has two allocations, and both failures are folded into the single `ok` flag. When the second `malloc` fails, the C returns NULL without freeing the node it has already allocated, so the node leaks; the model allocates nothing on failure.
- The NULL guards on the tree and node arguments (`if(!tree || !node)` and the like, returning -1 or nothing) are not modelled; the NULL key, payload and mask of `add`, `rmv` and `sel` are. The tree is `this`, and node arguments are handles that the preconditions require to be allocated, so these cases cannot arise.
- ChrisTree.Tree.constructor: requires `lim >= 1`; `init` with `lim < 1` would allocate zero layers.
- ChrisTree.Tree.Add: requires a key of exactly `layer_num` bytes. The C reads that many bytes from an unsized pointer, and a shorter buffer is undefined behaviour.
- ChrisTree.Tree.Rmv: requires a key of exactly `layer_num` bytes, for the same reason.
- ChrisTree.Tree.Sel: requires a mask whose `off` is a valid layer and whose `data` holds at least one byte and at least `len` bytes, and `lim` no larger than the buffer. The C reads these without checking.
- ChrisTree.Tree.GetLayer: requires an existing layer; the C indexes `layer[]` without a check.
- ChrisTree.Tree.SelHlf: requires `c0 < lim`. The C's first write happens before any limit check, so `c0 >= lim` writes past the limit.
- ChrisTree.Tree.LinkNode: the C's rollback of `add_next` after a failed `link_layer` is unreachable, because `link_layer` only fails on NULL arguments.
- ChrisTree.Tree.Sel: uses only the first node of layer `off` with byte `data[0]`, as the C does. Other nodes of that layer with the same byte are not searched.
- `rmv` follows the evident intent rather than the code: it stops at the first ancestor with a child, and at the root, instead of pruning while `next_used <= 1` for `layer_num + 1` rounds.
- The declarations in the headers (`struct` layouts, `DBS_API`) appear only through the fields they define.
