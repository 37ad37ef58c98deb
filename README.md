# clib containers and the SOCKS5 address codec, in Dafny

This project models two parts of a network proxy's C sources, both declared in headers:

- the container library of `src/obfs/c_lib.h` (a copy of clib/cstl);
- the SOCKS5 address codec of `src/sockaddr_universal.h`.

**Container library.** Every container entry is a `clib_object`, an owned byte copy of the caller's value. The library offers:
- a dynamic array;
- a circular deque;
- a red-black tree keyed by a caller-supplied comparator;
- a set and a map built on that tree;
- a singly linked list.

Operations that can fail report one of the `CLIB_*` status codes. Queries of size and capacity return an `int`, the `*_empty`, `*_exists` and `*_find` queries return a `clib_bool`, the tree's find, remove, minimum and successor return a node, and the list's delete, remove and for-each return nothing; the model keeps each of these result kinds, with a returned node standing as its optional entry.

**SOCKS5 codec.** It reads and writes a destination address in the ATYP / DST.ADDR / DST.PORT layout of section 5 of RFC 1928:
- one type octet (0x01 IPv4, 0x03 domain name, 0x04 IPv6; 0x00 marks an invalid address);
- then the address;
- last, the port in network byte order.

## Layout

- `common.dfy` (`ClibCommon`): the status codes and their numeric values, `Option`, `Result` and `byte`.
- `object.dfy` (`ClibObject`): `clib_object`, a class holding a byte array and its size.
- `array.dfy` (`ClibArray`): `clib_array`, a class over an `array` slot buffer.
  - `Contents()` is the live prefix.
  - Insertion and removal shift slots in place.
- `deque.dfy` (`ClibDeque`): `clib_deque`, a circular buffer.
  - `head` is the slot of the front element and `tail` the slot after the back one.
  - Logical index `i` sits in slot `(head + i) mod capacity`.
  - A full buffer is moved into one twice the size.
- `slist.dfy` (`ClibSlist`): `clib_slist`, heap nodes linked from `head`.
  - The ghost sequence `Nodes` names the chain.
  - `Valid()` ties `size`, `head` and every `next` link to `Nodes`.
- `ordering.dfy` (`Ordering`): the abstract view of a search tree.
  - Its in-order entry sequence, and what a valid comparator is.
  - Sortedness, the entries below or above a key, and the key/value map of an entry sequence.
  - The lemmas about splitting, inserting into and removing from a sorted sequence.
- `rbtree.dfy` (`RedBlack`): the red-black tree as a datatype.
  - `Leaf` is the black sentinel.
  - Insertion rebalances with the four red-red rotations.
  - Removal rebalances with the standard left and right fix-ups and joins the two subtrees of the removed node.
  - The colouring invariants, the entry order and the map view are proved here.
- `rb.dfy` (`ClibRb`): `clib_rb`, a class holding the tree and the comparator.
  - Find, minimum, successor and iteration are loops that walk the tree.
- `set.dfy` (`ClibSet`), `map.dfy` (`ClibMap`): `clib_set` and `clib_map` over an `RbTree`.
- `scenarios.dfy` (`ClibScenarios`): client code that makes several calls in a row on one or more containers and states the final contents.
- `socks5.dfy` (`Socks5Address`): the address datatype and the size and encoding functions.
  - The parser as a pure function and as a method over a byte array.
  - The serialiser as a method writing into a caller's buffer.
  - The round-trip lemmas.

Throughout, the comparator is a function `(K, K) -> int`. `ValidComparator` asks three things of it:
- it returns 0 exactly on equal keys;
- `cmp(a, b) < 0` exactly when `cmp(b, a) > 0`;
- it is transitive.

## Model

| member | source | states |
|---|---|---|
| ClibCommon.Status.Code | src/obfs/c_lib.h:46-70 | the numeric value of each status is 0 exactly for success, and never negative |
| ClibCommon.CodeCollisions | src/obfs/c_lib.h:60-68 | two statuses share a code exactly when they are equal or are one of the three colliding pairs: tree not-initialised/duplicate (401), set/map not-initialised (501), set/map invalid-input (502) |
| ClibObject.CopyBytes | src/obfs/c_lib.h:275 | a fresh buffer holding exactly the first n octets of the source |
| ClibObject.Object.constructor | src/obfs/c_lib.h:275 | the object owns a fresh copy whose payload is the caller's first obj_size octets and whose size is obj_size |
| ClibObject.Object.GetRaw | src/obfs/c_lib.h:276 | returns success and exactly the stored payload, of the recorded size |
| ClibObject.Object.ReplaceRaw | src/obfs/c_lib.h:278 | afterwards the payload is a fresh copy of the given octets and the size is theirs |
| ClibArray.DynamicArray.constructor | src/obfs/c_lib.h:112-120 | an empty array with capacity init_size |
| ClibArray.DynamicArray.Grow | src/obfs/c_lib.h:112-118 | reallocation to a larger slot array keeps size and contents |
| ClibArray.DynamicArray.CopyPrefix | src/obfs/c_lib.h:116 | the first n slots of the destination equal those of the source |
| ClibArray.DynamicArray.ShiftUp | src/obfs/c_lib.h:123 | slots lo..hi-1 move one place up and every other slot is unchanged |
| ClibArray.DynamicArray.ShiftDown | src/obfs/c_lib.h:130 | slots lo+1..hi-1 move one place down and every other slot is unchanged |
| ClibArray.DynamicArray.GrownCapacity | src/obfs/c_lib.h:113 | the capacity chosen for a full array is larger than the old one |
| ClibArray.DynamicArray.PushBack | src/obfs/c_lib.h:121 | success; contents become old contents plus the element at the end; the slot array is kept unless the array was full, in which case it is a fresh, larger one |
| ClibArray.DynamicArray.ElementAt | src/obfs/c_lib.h:122 | Ok with the element at pos for 0 <= pos < size, ARRAY_INDEX_OUT_OF_BOUND otherwise |
| ClibArray.DynamicArray.InsertAt | src/obfs/c_lib.h:123 | for 0 <= index <= size the element is inserted before position index (appended at size), in the same slot array or, when full, a fresh one; any other index is an out-of-bound error that changes nothing |
| ClibArray.DynamicArray.Size | src/obfs/c_lib.h:124 | the number of elements |
| ClibArray.DynamicArray.Capacity | src/obfs/c_lib.h:125 | the slot count, never below the size |
| ClibArray.DynamicArray.Empty | src/obfs/c_lib.h:126 | true exactly when there are no elements |
| ClibArray.DynamicArray.Reserve | src/obfs/c_lib.h:127 | success; capacity becomes at least n, through a fresh slot array when it grows, and the contents are unchanged |
| ClibArray.DynamicArray.Front | src/obfs/c_lib.h:128 | the first element, or an out-of-bound error when empty |
| ClibArray.DynamicArray.Back | src/obfs/c_lib.h:129 | the last element, or an out-of-bound error when empty |
| ClibArray.DynamicArray.RemoveFrom | src/obfs/c_lib.h:130 | for 0 <= pos < size exactly the pos-th element is removed and the rest keep their order; otherwise an out-of-bound error and no change |
| ClibArray.DynamicArray.Delete | src/obfs/c_lib.h:131 | success and the array is left empty, keeping its slot array |
| ClibArray.DynamicArray.ReplaceValueAt | src/obfs/c_lib.h:101 | an in-range position is overwritten and nothing else changes; an out-of-range one is an error |
| ClibArray.DynamicArray.Elements | src/obfs/c_lib.h:133 | iteration yields exactly the contents in index order |
| ClibDeque.Wrap | src/obfs/c_lib.h:143-144 | the cursor position `p mod capacity`, below the capacity |
| ClibDeque.Deque.constructor | src/obfs/c_lib.h:150 | an empty deque with deq_size slots (at least one) |
| ClibDeque.Deque.Linearize | src/obfs/c_lib.h:141-145 | the n elements of the ring from slot h land in logical order at the start of the new buffer |
| ClibDeque.Deque.Grow | src/obfs/c_lib.h:140-148 | the buffer doubles, the contents are unchanged and the front moves to slot 0 |
| ClibDeque.Deque.PushBack | src/obfs/c_lib.h:151 | success; the element is appended at the back and the ring invariant is kept; the buffer is kept unless it was full, in which case it is a fresh one |
| ClibDeque.Deque.PushFront | src/obfs/c_lib.h:152 | success; the element is prepended at the front and the ring invariant is kept; the buffer is kept unless it was full, in which case it is a fresh one |
| ClibDeque.Deque.PushBackRoom | src/obfs/c_lib.h:151 | with a free slot, the element goes in at the old tail slot of the same buffer, tail steps on one slot mod capacity, head stays, and the element is appended to the contents |
| ClibDeque.Deque.PushFrontRoom | src/obfs/c_lib.h:152 | with a free slot, head steps back one slot mod capacity in the same buffer and that slot takes the element, tail stays, and the element is prepended to the contents |
| ClibDeque.Deque.Front | src/obfs/c_lib.h:154 | the front element, or an out-of-bound error when empty |
| ClibDeque.Deque.Back | src/obfs/c_lib.h:155 | the back element, or an out-of-bound error when empty |
| ClibDeque.Deque.PopBack | src/obfs/c_lib.h:156 | removes the back element; on an empty deque it returns DEQUE_NOT_INITIALIZED and changes nothing |
| ClibDeque.Deque.PopFront | src/obfs/c_lib.h:157 | removes the front element; on an empty deque it returns DEQUE_NOT_INITIALIZED and changes nothing |
| ClibDeque.Deque.Empty | src/obfs/c_lib.h:158 | true exactly when there are no elements |
| ClibDeque.Deque.Size | src/obfs/c_lib.h:159 | the number of elements |
| ClibDeque.Deque.Delete | src/obfs/c_lib.h:160 | success and the deque is left empty, keeping its buffer |
| ClibDeque.Deque.ElementAt | src/obfs/c_lib.h:161 | for 0 <= index < size, the logical element index, read from physical slot (head + index) mod capacity; otherwise DEQUE_INDEX_OUT_OF_BOUND |
| ClibDeque.Deque.ReplaceValueAt | src/obfs/c_lib.h:101 | an in-range logical index is overwritten and nothing else changes; an out-of-range one is an error |
| ClibDeque.Deque.Elements | src/obfs/c_lib.h:163 | iteration yields the contents front to back |
| ClibSlist.IndexOf | src/obfs/c_lib.h:255 | the position of the first element the comparator reports equal; None exactly when no element matches |
| ClibSlist.Node.constructor | src/obfs/c_lib.h:237-240 | a node holds the given element and links to the given next node |
| ClibSlist.Slist.HeadNull | src/obfs/c_lib.h:242-247 | head is null exactly when size is 0, that is, when the list is empty |
| ClibSlist.Slist.constructor | src/obfs/c_lib.h:249 | an empty list with the given comparator |
| ClibSlist.Slist.NodeAt | src/obfs/c_lib.h:237-240 | walking k links from head reaches the k-th node |
| ClibSlist.Slist.Insert | src/obfs/c_lib.h:251 | for 0 <= pos <= size the element is placed at position pos (pos = 0 prepends) in a fresh node spliced into the chain there; a larger or negative pos returns SLIST_INSERT_FAILED and changes nothing |
| ClibSlist.Slist.Prepend | src/obfs/c_lib.h:251 | the pos = 0 case of insert: a fresh node becomes head and holds the first element; the old chain follows it |
| ClibSlist.Slist.InsertAfter | src/obfs/c_lib.h:251 | a fresh node is linked after the k-th one; the element lands at position k + 1, its node at chain position k + 1, and the chain stays valid |
| ClibSlist.Slist.LinkAfter | src/obfs/c_lib.h:251 | a node not yet in the chain is linked in after the k-th node: it lands at chain position k + 1 and its element at position k + 1 |
| ClibSlist.Slist.PushBack | src/obfs/c_lib.h:252 | success and the element is appended in a fresh node after the last one |
| ClibSlist.Slist.Remove | src/obfs/c_lib.h:253 | for 0 <= pos < size exactly the pos-th element and its node are unlinked, the other nodes stay in order; any other pos changes nothing |
| ClibSlist.Slist.RemoveHead | src/obfs/c_lib.h:253 | the pos = 0 case of remove: the head's successor becomes head, and the first element and node are gone |
| ClibSlist.Slist.RemoveAfter | src/obfs/c_lib.h:253 | prev is the k-th node; the (k+1)-th node and its element are unlinked, and the other nodes and elements stay in order |
| ClibSlist.Slist.Elements | src/obfs/c_lib.h:254 | the callback order: exactly the contents, head to tail |
| ClibSlist.Slist.Find | src/obfs/c_lib.h:255 | the first element head to tail that compares equal to the value, or none when nothing matches |
| ClibSlist.Slist.Delete | src/obfs/c_lib.h:250 | the list is left empty |
| Ordering.SplitAbsent | src/obfs/c_lib.h:188 | a sorted entry sequence without key k is the entries below k followed by those above it |
| Ordering.SplitAt | src/obfs/c_lib.h:195 | a sorted entry sequence splits at each entry into those below, the entry, and those above; the ones above are exactly the entries after it |
| Ordering.SortedInsert | src/obfs/c_lib.h:188 | putting a new key between the entries below and above it keeps the sequence sorted |
| Ordering.SortedRemove | src/obfs/c_lib.h:190 | dropping the entries equal to k keeps the sequence sorted |
| Ordering.ToMapInsert | src/obfs/c_lib.h:188 | the map of that insertion is the old map with k mapped to v |
| Ordering.ToMapRemove | src/obfs/c_lib.h:190 | the map of that removal is the old map without k |
| Ordering.ToMapHasKey | src/obfs/c_lib.h:189 | a key is in the map of a sequence exactly when some entry carries it |
| Ordering.SortedEntryIn | src/obfs/c_lib.h:230 | in a sorted sequence, a pair occurs exactly when its key maps to its value |
| RedBlack.SamePathBlackCounts | src/obfs/c_lib.h:170-185 | in a black-balanced tree every root-to-sentinel path has the same number of black nodes, the black height |
| RedBlack.Insert | src/obfs/c_lib.h:188 | the tree after an insertion is non-empty and its root is black |
| RedBlack.InsInvariant | src/obfs/c_lib.h:188 | insertion below the root keeps the black height and black balance and leaves at most a red root with a red child |
| RedBlack.InsertInvariant | src/obfs/c_lib.h:188 | insertion followed by blackening the root keeps all red-black invariants |
| RedBlack.InsEntries | src/obfs/c_lib.h:188 | inserting an absent key puts its entry between the entries below and above it in key order |
| RedBlack.InsertSpec | src/obfs/c_lib.h:188 | inserting an absent key into a valid tree gives a valid tree whose map is the old map with k mapped to v |
| RedBlack.JoinInvariant | src/obfs/c_lib.h:190 | joining two subtrees of equal black height keeps that height and the colouring invariants |
| RedBlack.JoinEntries | src/obfs/c_lib.h:190 | the join's in-order entries are those of the left tree followed by those of the right |
| RedBlack.Delete | src/obfs/c_lib.h:190 | the tree after a removal has a black root or is the sentinel, and removing from the sentinel leaves the sentinel |
| RedBlack.DelInvariant | src/obfs/c_lib.h:190 | removal below a red node keeps the black height; below a black node it lowers it by one with at most a red root with a red child |
| RedBlack.DeleteInvariant | src/obfs/c_lib.h:190 | removal followed by blackening the root keeps all red-black invariants |
| RedBlack.DelEntries | src/obfs/c_lib.h:190 | removal keeps exactly the entries below and above k, in order |
| RedBlack.DeleteSpec | src/obfs/c_lib.h:190 | removing from a valid tree gives a valid tree whose map is the old map without k |
| RedBlack.Lookup | src/obfs/c_lib.h:189 | a found entry is one of the tree's entries and its key compares equal to k |
| RedBlack.LookupSpec | src/obfs/c_lib.h:189 | the walk by the comparator finds the entry exactly when the key is in the tree's map, with the mapped value |
| RedBlack.Min | src/obfs/c_lib.h:194 | there is a minimum exactly when the tree is not the sentinel, and it is one of the tree's entries |
| RedBlack.MinSpec | src/obfs/c_lib.h:194 | the leftmost node holds the first in-order entry, and an empty tree has none |
| RedBlack.Succ | src/obfs/c_lib.h:195 | a successor is one of the tree's entries and its key is above k |
| RedBlack.SuccSpec | src/obfs/c_lib.h:195 | the successor of k is the first entry with a key above k |
| RedBlack.SuccOfEntry | src/obfs/c_lib.h:195 | the successor of the i-th entry's key is the (i+1)-th entry, and the last entry has none |
| RedBlack.EmptySpec | src/obfs/c_lib.h:192 | the tree is the sentinel exactly when its map is empty |
| ClibRb.RbTree.constructor | src/obfs/c_lib.h:187 | an empty, valid tree with the given comparator |
| ClibRb.RbTree.Find | src/obfs/c_lib.h:189 | the entry stored under k, or none when k is absent |
| ClibRb.RbTree.Insert | src/obfs/c_lib.h:188 | a new key is added with its value and the tree stays valid; a present key returns RBTREE_KEY_DUPLICATE and leaves the tree unchanged |
| ClibRb.RbTree.Remove | src/obfs/c_lib.h:190 | hands back the entry under k, if any, and the map loses k while the tree stays valid |
| ClibRb.RbTree.Delete | src/obfs/c_lib.h:191 | success and the tree is the sentinel alone |
| ClibRb.RbTree.Empty | src/obfs/c_lib.h:192 | true exactly when the root is the sentinel, that is, when the map is empty |
| ClibRb.RbTree.Minimum | src/obfs/c_lib.h:194 | the first in-order entry of the subtree x, or none for the sentinel |
| ClibRb.RbTree.Successor | src/obfs/c_lib.h:195 | the entry with the least key above k, or none |
| ClibRb.RbTree.Elements | src/obfs/c_lib.h:194-195 | minimum then repeated successor yields every entry, in strictly ascending key order |
| ClibSet.Set.constructor | src/obfs/c_lib.h:205 | an empty set over the comparator |
| ClibSet.Set.Insert | src/obfs/c_lib.h:206 | an absent key is added with success; a present one returns RBTREE_KEY_DUPLICATE; either way the set then holds the key |
| ClibSet.Set.Exists | src/obfs/c_lib.h:207 | true exactly when the key is in the set |
| ClibSet.Set.Remove | src/obfs/c_lib.h:208 | the key is gone afterwards; success if it was there, RBTREE_KEY_NOT_FOUND if not |
| ClibSet.Set.Find | src/obfs/c_lib.h:209 | the stored key equal to k, or none |
| ClibSet.Set.Delete | src/obfs/c_lib.h:210 | success and the set is left empty |
| ClibSet.Set.Elements | src/obfs/c_lib.h:212 | iteration yields exactly the set's keys, in strictly ascending comparator order |
| ClibMap.Map.constructor | src/obfs/c_lib.h:223 | an empty map over the key comparator |
| ClibMap.Map.Insert | src/obfs/c_lib.h:224 | a new key is added with its value; a present key returns RBTREE_KEY_DUPLICATE and keeps its old value |
| ClibMap.Map.Exists | src/obfs/c_lib.h:225 | true exactly when the key is in the map |
| ClibMap.Map.Remove | src/obfs/c_lib.h:226 | the key is gone afterwards; success if it was there, RBTREE_KEY_NOT_FOUND if not |
| ClibMap.Map.Find | src/obfs/c_lib.h:227 | the value stored under k, or none |
| ClibMap.Map.Delete | src/obfs/c_lib.h:228 | success and the map is left empty |
| ClibMap.Map.Elements | src/obfs/c_lib.h:230 | iteration yields exactly the map's pairs, keys strictly ascending |
| ClibScenarios.ArrayPushRemove | src/obfs/c_lib.h:121-130 | three appends to an array of one slot and the removal of position 1 leave 1, 3: size 2, element 1 is 3 |
| ClibScenarios.TwoArrays | src/obfs/c_lib.h:121-127 | appends, insertions and a reserve on one array leave another array's contents alone, and a refused insertion changes nothing |
| ClibScenarios.DequePushes | src/obfs/c_lib.h:151-161 | push_back 1, push_back 2, push_front 0 on two slots read back as 0, 1, 2 |
| ClibScenarios.DequeFifo | src/obfs/c_lib.h:151-157 | elements pushed at the back and popped at the front come out in the order they went in |
| ClibScenarios.DequeStack | src/obfs/c_lib.h:152-157 | elements pushed and popped at the front come out in reverse order |
| ClibScenarios.ListInsert | src/obfs/c_lib.h:251-254 | two appends and an insertion at position 1 leave 1, 2, 3 |
| ClibScenarios.ListRemoveFind | src/obfs/c_lib.h:252-255 | after the element at position 1 is removed, find for its value reports not-found and the other element stays |
| ClibScenarios.TwoLists | src/obfs/c_lib.h:251-254 | appends and insertions on one list leave another list's nodes and elements alone |
| ClibScenarios.MapDuplicate | src/obfs/c_lib.h:224-227 | a second insert of a key is a duplicate and find still returns the first value; after remove the key is not found |
| Socks5Address.TypeOf | src/sockaddr_universal.h:20-25 | each address type has its own ATYP octet (0x01, 0x03, 0x04), never the invalid 0x00 |
| Socks5Address.DomainNameFits | src/sockaddr_universal.h:32 | a domain name is shorter than the 0x0100-byte name buffer |
| Socks5Address.Size | src/sockaddr_universal.h:38 | the encoded length lies between 4 and 259 octets |
| Socks5Address.PortBytes | src/sockaddr_universal.h:34 | a port is written as two octets |
| Socks5Address.PortRoundTrip | src/sockaddr_universal.h:34 | reading back the two network-order octets of a port gives the port |
| Socks5Address.ReadPort | src/sockaddr_universal.h:34 | a port read in network byte order has the first octet as its high byte and the second as its low byte |
| Socks5Address.ReadPortBytes | src/sockaddr_universal.h:34 | writing a port read from two octets gives back those octets |
| Socks5Address.Binary | src/sockaddr_universal.h:39 | the encoding is Size(a) octets long, starts with the address's ATYP and ends with the port in network byte order |
| Socks5Address.Parse | src/sockaddr_universal.h:37 | a successful parse used no more than the given length and its type matches the first octet; empty input is rejected |
| Socks5Address.RoundTrip | src/sockaddr_universal.h:37-39 | parsing the encoding of an address, whatever follows it, gives back that address |
| Socks5Address.ParseReadsBinary | src/sockaddr_universal.h:37-39 | a successful parse read exactly the encoding of its result |
| Socks5Address.ParseAcceptsEncodings | src/sockaddr_universal.h:37-39 | the parse returns address a exactly when the input starts with a's encoding |
| Socks5Address.ParseRejects | src/sockaddr_universal.h:37 | an invalid ATYP, or input shorter than its type needs (7, 19, or 4 plus the length octet), is rejected |
| Socks5Address.ParseAddress | src/sockaddr_universal.h:37 | the step-by-step parse over len octets of a buffer agrees with Parse |
| Socks5Address.WriteBytes | src/sockaddr_universal.h:39 | copies the octets to the given offset and leaves every other slot alone |
| Socks5Address.WriteAddress | src/sockaddr_universal.h:39 | succeeds exactly when size can hold the encoding; it then writes exactly the Size(a) octets of Binary(a) and nothing past them; on failure it writes nothing |

## Left out

- Only the two headers are part of this model; the C function bodies are not. Where the headers leave behaviour open, the model gives these containers their usual semantics (append, insert before a position, remove a position, first match, ordered keys without duplicates), and the lines below list each choice that goes beyond the declarations.
- Parent links, in-place rotations and the sentinel's parent bookkeeping of `clib_rb_node`: the tree is a functional datatype. Its shape after an insertion or a removal may differ from the C fix-up's, while the entries, the order and the colouring invariants are the ones proved. The "children point back to their parent" invariant is therefore not stated.
- ClibRb.RbTree.Successor: takes the key it follows and walks down from the root. The C version climbs parent links from a node; both give the next larger entry.
- Container entries are of a generic type `T` (or `K` and `V`), not `clib_object` byte copies. The copy the C code takes on insertion is modelled once, by `ClibObject.Object`. For a `T` that is a reference type, a container here holds the reference itself, so the copy-on-insert ownership is not captured.
- Destructor callbacks and the teardown of `*_delete`: a deleted container is modelled as becoming empty, and releasing its memory is out of scope.
- Allocation failure, `CLIB_ERROR_MEMORY`, and the raw helpers `clib_copy`, `clib_get`, `clib_strdup`: allocation always succeeds here.
- A NULL container, and the `*_NOT_INITIALIZED` and `*_INVALID_INPUT` codes that report one: a container in this model always exists. The one exception is the deque's PopBack and PopFront, which report `DEQUE_NOT_INITIALIZED` for an empty deque.
- `clib_object_delete`: releasing an object's buffer is out of scope, as for teardown.
- Iterator internals (`get_next`, `pCurrent`, `pCurrentElement`) and mutation during iteration, which the C code leaves undefined. Each container's `Elements` gives the sequence an iteration yields, and `ReplaceValueAt` stands for `replace_value`.
- The `compare_fn` of the array and the deque: no declared array or deque operation compares elements.
- The `int` fields of the C structs: 32-bit overflow of sizes, positions and doubled capacities is not modelled; the counts are unbounded naturals.
- ClibArray.DynamicArray.PushBack: the growth policy (double, or one slot from zero) is a modelling choice, because the header does not fix one.
- ClibDeque.Deque.constructor: the capacity is at least one slot, so that the modulo translation is defined.
- ClibDeque.Deque.Grow: a full buffer is replaced by one twice the size, with the old contents moved to its start; the header does not fix this growth policy.
- ClibArray.DynamicArray.Front and ClibArray.DynamicArray.Back: an empty array answers `ARRAY_INDEX_OUT_OF_BOUND`, as `element_at` does for a position outside the contents; the header does not fix this code.
- ClibArray.DynamicArray.ReplaceValueAt and ClibDeque.Deque.ReplaceValueAt: these stand for the iterator's `replace_value`, which returns `void` and acts on the iterator's current element. The model takes a position instead and returns a status: success for a position inside the contents, and `ARRAY_INDEX_OUT_OF_BOUND` or `DEQUE_INDEX_OUT_OF_BOUND` with nothing changed for any other. The header does not define these status results.
- ClibDeque.Deque.Front and ClibDeque.Deque.Back: an empty deque answers `DEQUE_INDEX_OUT_OF_BOUND`, as `element_at` does for a position outside the contents; the header does not fix this code.
- ClibSet.Set.Remove and ClibMap.Map.Remove: an absent key is reported as `RBTREE_KEY_NOT_FOUND`, the tree's code, because the header declares no set- or map-specific not-found code.
- ClibSlist.Slist.Insert: positions are 0-based. A negative position is refused along with positions beyond the end.
- `c_slist_for_each` and `clib_for_each` callbacks: modelled only as the order in which elements are visited (`Elements`).
- Socks5Address.Parse: the C struct keeps a domain name zero-terminated, so a name containing a zero octet cannot round-trip through it. The model keeps the name's length instead.
- An address whose type is `SOCKS5_ADDRTYPE_INVALID`: it is not a value of `Address`, so what the serialiser does with such an address is not modelled. The header does not say; refusing it is an assumption.
- The `sockaddr_universal` union, `convert_address` and `resolv.h`: they convert to and from operating-system socket structures and resolve names, which this model does not cover.
- Concurrency: the library has none.
