# DoubleSea intrusive doubly linked list, modelled in Dafny

DoubleSea is a C library of intrusive doubly linked lists. The caller owns
every record. A record embeds three pointer-sized slots: a data reference,
`next` and `prev`. A list holds only the head, the tail, a count, the byte
offset of the `next` slot inside the record, an ownership flag (`dynamic`:
1 when the list or record lives on the heap and the library frees it) and an
optional order function. With an order function, inserting keeps the list in
order. Without one, inserting appends.

The repository has two copies of the engine:

- `DoubleSeaLib.c`: the `DSL_` API. It links records through the
  `_InsertNodeAtHead` / `_InsertNodeAtTail` helpers, tests the tail before
  the head on an ordered insert, and adds push, pop, find and bulk
  registration of a static array of records.
- `DoublyLinkedList.c`: an older copy. It links records inline, tests the
  head before the tail, and adds heap constructors for records and lists.

`ListUtils.c` holds the slot address helpers. `DoubleSeaLib.c` defines its
own copies of them (`_GetNextPointer`, `_GetPrevPointer`,
`_GetDataPointer`), and `DoublyLinkedList.c` writes the same address
arithmetic inline.

The model has four modules:

- `ListUtils` (`list_utils.dfy`): the slot address arithmetic on 64-bit
  addresses, with its wrap-around.
- `Linkage` (`linkage.dfy`): the shared `Record` class (data, next, prev,
  dynamic, index and a key the order function reads). It also holds the
  `Chain` invariant, which ties the head, the tail and every link to a
  sequence of records, and the sequence-level specifications of insertion
  (`InsertAt`, `RemoveAt`, `TailFirstPosition`, `HeadFirstPosition`,
  `FirstGreater`, `InsertEach`), with their lemmas: the inverse of
  insertion and removal, the permutation property, sortedness, and when the
  two test orders agree.
- `DoubleSeaLib` (`double_sea_lib.dfy`): a `List` class whose methods
  perform the C pointer surgery. Each insert and remove method is proved
  to move the list's ghost `contents` as the sequence functions say, to keep
  `Chain`, and to leave every record's data, ownership flag and index alone.
  The destroy methods instead reset or release the records, and then
  release the list or leave it empty and valid. A released record or list
  is marked by a ghost `freed` flag. A list that satisfies `Valid()` has
  not been released, and inserting, initialising or destroying a released
  record is excluded by precondition.
- `DoublyLinkedList` (`doubly_linked_list.dfy`): the same for the second
  copy.

## Model

| member | source | states |
|---|---|---|
| ListUtils.GetNextPointer | ListUtils.c:12-17 | the `next` slot is `offset` bytes after the record's start when that stays inside the address space |
| ListUtils.GetPrevPointer | ListUtils.c:28-33 | the `prev` slot is one pointer width after the `next` slot, modulo 2^64 |
| ListUtils.GetDataPointer | ListUtils.c:44-48 | the data slot is one pointer width before the `next` slot, modulo 2^64 |
| ListUtils.SlotsAreAdjacent | ListUtils.c:12-48 | for an in-range record whose offset leaves room for the data slot, the slots are distinct, ascending and one pointer apart: data, next, prev |
| ListUtils.NullRecordDataSlot | DoubleSeaLib.c:281-295 | the data slot of a null record is the null address exactly when the offset is one pointer width, so DSL_FindNode's null checks on the head and tail data slots only reject an empty list at that offset |
| Linkage.ChainProperties | DoubleSeaLib.c:79-136 | a linked list is empty exactly when the head (or the tail) is null; the ends have null outer links; next and prev are mutually inverse; walking `next` from the head visits exactly the list's records, in order |
| Linkage.NeighboursOf | DoubleSeaLib.c:85-125 | a member's links are its neighbours in the list, or null at the ends, and it is the head or the tail exactly at positions 0 and last: what removal relies on to unlink in constant time |
| Linkage.RemoveAtLinked | DoubleSeaLib.c:110-121 | after its neighbours are linked across the gap, removing a record leaves a doubly linked sequence |
| Linkage.FirstGreaterUnique | DoubleSeaLib.c:181-187 | the scan's stopping point (every earlier record ties or sorts before the new one, and the record there sorts after it) determines the insert position |
| Linkage.InsertThenRemove | DoubleSeaLib.c:79-217 | a record inserted into a list it was not in is found by identity at the position it was inserted at, so removing it restores the list |
| Linkage.InsertRemoveInverse | DoubleSeaLib.c:146-217 | removing the record just inserted at a position restores the list, and reinserting a removed record at its old position restores the list |
| Linkage.InsertAtEnds | DoubleSeaLib.c:447-515 | inserting at position 0 prepends and inserting at the end appends |
| Linkage.InsertPositionsAgree | DoublyLinkedList.c:132-215 | on a list sorted by a comparator that meets its contract, the tail-first tests of DSL_InsertNode and the head-first tests of InsertNode choose the same place, after every record that does not sort after the new one |
| Linkage.InsertPositionsDiffer | DoublyLinkedList.c:147-172 | the two test orders disagree exactly when the new record sorts before the head and after the tail; then one appends and the other prepends |
| Linkage.NotBeforeTailAppends | DoublyLinkedList.c:161-172 | a record that does not sort before the tail of a sorted list is appended under either test order |
| Linkage.SortedInsert | DoubleSeaLib.c:168-212 | inserting at the stable position keeps a sorted list sorted, and the new record lands after every record that ties with it |
| Linkage.FirstGreaterSuffix | DoubleSeaLib.c:181-187 | on a sorted list, the new record sorts strictly before every record from the scan's stopping point on |
| Linkage.WeakThenStrict | DoubleSeaLib.c:168-176 | transitivity of the comparator contract: a record that sorts after the tail does not sort before any record of a sorted list |
| Linkage.StrictThenWeak | DoubleSeaLib.c:181-187 | transitivity of the comparator contract: sorting before one record and that record sorting no later than another puts the first before the other |
| Linkage.DifferenceIsPreorder | Test_DoublyLinkedList.c:94-108 | the tests' order function, the difference of two numbers, meets the comparator contract on unbounded integers |
| Linkage.InsertAtMultiset | DoubleSeaLib.c:146-217 | inserting adds exactly one occurrence of the new record and keeps every other record |
| Linkage.InsertAtMembers | DoubleSeaLib.c:146-217 | after an insert, the members are the old members and the new record |
| Linkage.InsertEachStep | DoubleSeaLib.c:354-363 | one more round of bulk registration is one more ordered insert of the next array record |
| Linkage.InsertEachUnordered | DoubleSeaLib.c:354-363 | without an order function, bulk registration appends the array's records in array order |
| Linkage.InsertEachMultiset | DoubleSeaLib.c:354-363 | bulk registration adds each array record exactly once and keeps the existing records |
| Linkage.InsertEachMembers | DoubleSeaLib.c:354-363 | after bulk registration, the members are the old members and the array's records |
| Linkage.InsertEachSorted | DoubleSeaLib.c:354-363 | bulk registration into a sorted list with a comparator that meets its contract leaves the list sorted |
| DoubleSeaLib.List.constructor | DoubleSeaLib.c:376-389 | a fresh empty list with the given flag and order function; the offset (size_t)-1 selects DSL_Node's layout |
| DoubleSeaLib.List.InitList | DoubleSeaLib.c:376-389 | the list becomes empty and valid, with the given flag and order function, and offset (size_t)-1 replaced by DSL_Node's offset |
| DoubleSeaLib.List.InsertNodeAtHead | DoubleSeaLib.c:447-480 | prepends the record, or makes it the only record of an empty list; the head already being that record changes nothing; the count is left to the caller |
| DoubleSeaLib.List.InsertNodeAtTail | DoubleSeaLib.c:493-515 | appends the record, keeping the head; the tail already being that record changes nothing; the count is left to the caller |
| DoubleSeaLib.List.InsertNode | DoubleSeaLib.c:146-217 | a null record changes nothing; otherwise the list becomes the old list with the record inserted at the tail-first position (appended when there is no order function), still linked and counted, with every record's payload unchanged |
| DoubleSeaLib.List.InsertNodeInNonEmpty | DoubleSeaLib.c:163-214 | on a non-empty list the three branches (append, prepend, scan) together insert at the tail-first position |
| DoubleSeaLib.List.InsertNodeInMiddle | DoubleSeaLib.c:177-213 | the scan inserts before the first record the new one sorts strictly before, or appends when there is none |
| DoubleSeaLib.List.ScanForGreater | DoubleSeaLib.c:181-187 | the scan stops at the first record the new one sorts strictly before (position FirstGreater), or at null |
| DoubleSeaLib.List.LinkBefore | DoubleSeaLib.c:195-212 | splicing the record in front of an inner record inserts it at that record's position and keeps the list linked |
| DoubleSeaLib.List.Unlink | DoubleSeaLib.c:85-125 | the head and tail move past the record, its neighbours are linked to each other, their outer links are kept, and its own links are cleared |
| DoubleSeaLib.List.RemoveNode | DoubleSeaLib.c:79-136 | a null record or an empty list changes nothing; otherwise exactly that record leaves the list, which stays linked and counted, and its links are cleared; an emptied list has null ends |
| DoubleSeaLib.List.Push | DoubleSeaLib.c:61-69 | a null record changes nothing; otherwise the record becomes the new head and is counted |
| DoubleSeaLib.List.Pop | DoubleSeaLib.c:17-27 | an empty list yields null; otherwise the old head is returned with its links cleared and the list becomes the rest |
| DoubleSeaLib.List.InsertThenRemoveNode | DoubleSeaLib.c:79-217 | inserting a record and removing it again leaves the list as it was and the record unlinked, whatever position the insert chose |
| DoubleSeaLib.List.PushThenPop | DoubleSeaLib.c:17-69 | pushing a record and popping returns that record with cleared links and leaves the list as it was |
| DoubleSeaLib.List.FindNode | DoubleSeaLib.c:270-313 | NULL data finds nothing; otherwise the slot found holds a record with the data; a head match wins, then a tail match, then the first match after the head in list order |
| DoubleSeaLib.List.DestroyList | DoubleSeaLib.c:229-259 | when cleaning, every member is freed if heap-owned and reset otherwise, and keeps its index in every case; a heap-owned list is freed, any other list becomes empty and valid with no order function and its offset kept |
| DoubleSeaLib.InitNode | DoubleSeaLib.c:324-335 | a non-null record gets no links, the given data and the given flag |
| DoubleSeaLib.DestroyNode | DoubleSeaLib.c:37-51 | a record not yet released: a heap-owned one is freed and otherwise untouched; any other record is reset to no links, no data and flag 0 |
| DoubleSeaLib.StoreItem | DoubleSeaLib.c:354-363 | one round of the registration loop stamps the record's index and, when there is a list, inserts it in order; no other record's index changes, whether in the array or already in the list, the list keeps its offset and flag, every record keeps its data, flag and liveness, and without a list no links change |
| DoubleSeaLib.InitStaticStorageListWData | DoubleSeaLib.c:347-364 | every array record gets its array index; with a list, the list becomes the old list with the records inserted one by one in array order (InsertEach) and stays valid with its offset and flag; records outside the array, including the list's old members, keep their index; every record keeps its data, flag and liveness; without a list no links change |
| DoublyLinkedList.List.constructor | DoublyLinkedList.c:351-364 | a fresh empty list with the given flag and order function; the offset (size_t)-1 selects DoublyLinkedNode's layout |
| DoublyLinkedList.List.InitializeDoublyLinkedList | DoublyLinkedList.c:351-364 | the list becomes empty and valid, with the given flag and order function, and offset (size_t)-1 replaced by DoublyLinkedNode's offset |
| DoublyLinkedList.List.InsertNode | DoublyLinkedList.c:110-220 | a null record changes nothing; otherwise the list becomes the old list with the record inserted at the head-first position (appended when there is no order function), still linked and counted, with every record's payload unchanged |
| DoublyLinkedList.List.InsertIntoNonEmpty | DoublyLinkedList.c:129-216 | on a non-empty list the branches (no order function, before the head, after the tail, scan) together insert at the head-first position |
| DoublyLinkedList.List.AppendAtTail | DoublyLinkedList.c:132-145 | appends the record, keeping the head and the count |
| DoublyLinkedList.List.PrependAtHead | DoublyLinkedList.c:147-159 | prepends the record, keeping the tail and the count |
| DoublyLinkedList.List.InsertInMiddle | DoublyLinkedList.c:175-215 | the scan inserts before the first record the new one sorts strictly before, or appends when the scan runs off the end |
| DoublyLinkedList.List.ScanForGreater | DoublyLinkedList.c:179-185 | the scan stops at the first record the new one sorts strictly before (position FirstGreater), or at null |
| DoublyLinkedList.List.LinkBefore | DoublyLinkedList.c:201-214 | splicing the record in front of an inner record inserts it at that record's position and keeps the list linked |
| DoublyLinkedList.List.Unlink | DoublyLinkedList.c:45-88 | the head and tail move past the record, its neighbours are linked to each other, their outer links are kept, and its own links are cleared |
| DoublyLinkedList.List.InsertThenRemoveNode | DoublyLinkedList.c:38-220 | inserting a record and removing it again leaves the list as it was and the record unlinked, whatever position the insert chose |
| DoublyLinkedList.List.RemoveNode | DoublyLinkedList.c:38-99 | a null record or an empty list changes nothing; otherwise exactly that record leaves the list, which stays linked and counted, and its links are cleared |
| DoublyLinkedList.List.DestroyDoublyLinkedList | DoublyLinkedList.c:258-288 | when cleaning, every member is freed if heap-owned and reset otherwise, and keeps its index in every case; a heap-owned list is freed, any other list becomes empty and valid with no order function and its offset kept |
| DoublyLinkedList.InitializeDoublyLinkedNode | DoublyLinkedList.c:301-312 | a non-null record gets no links, the given data and the given flag |
| DoublyLinkedList.DestroyDoublyLinkedNode | DoublyLinkedList.c:13-27 | a record not yet released: a heap-owned one is freed and otherwise untouched; any other record is reset to no links, no data and flag 0 |
| DoublyLinkedList.CreateDoublyLinkedNode | DoublyLinkedList.c:230-242 | a fresh, unlinked, heap-owned record holding the data |
| DoublyLinkedList.CreateDoublyLinkedList | DoublyLinkedList.c:324-336 | a fresh, empty, valid, heap-owned list with the given order function and resolved offset |

## Left out

- Memory is a heap of `Record` objects. The byte-offset layout is kept only
  in `ListUtils`. In the lists, `next`, `prev` and `data` are fields.
  Releasing memory is a ghost `freed` flag.
- `sizeof(void *)` is fixed at 8 (`ListUtils.POINTER_SIZE`), and so are
  `OFFSETOF_DSL_NODE` and `DOUBLY_LINKED_NODE_OFFSET`. The source does not
  fix the pointer width; the model assumes a 64-bit target.
- DoubleSeaLib.DestroyNode and DoublyLinkedList.DestroyDoublyLinkedNode:
  releasing a record twice, or initialising, inserting or pushing a
  released record, is undefined behaviour in the source. The model
  excludes it by precondition (`!freed`) and does not describe what such
  a call would do. DoubleSeaLib.List.DestroyList and
  DoublyLinkedList.List.DestroyDoublyLinkedList require that no member
  has been released. A record released while still linked in a list is
  not tracked by `Valid()`. DoubleSeaLib.List.InitList and
  DoublyLinkedList.List.InitializeDoublyLinkedList require a list that has
  not been released.
- Methods are called on a `List` object, so the source's null-list guards
  have no counterpart.
- The allocation failure in CreateDoublyLinkedNode and
  CreateDoublyLinkedList (a null return) is not modelled.
- Order functions compare integer keys of records. In the source they
  inspect the records through the offset. The comparator contract
  (`IsPreorder`) is assumed where sortedness is claimed.
- The tests' `a - b` order function overflows a 32-bit `int` for numbers
  far apart. The model's integers are unbounded.
- The list count is a `nat`. A `size_t` count cannot overflow for lists
  that fit in memory.
- DoubleSeaLib.List.FindNode: the source's scan walks past the tail when no
  record holds the data. The model therefore requires that some record
  holds it. The null checks on the head and tail data slots are modelled
  only through `ListUtils.NullRecordDataSlot`; the method requires a valid
  list.
- DoubleSeaLib.List.InsertNodeAtHead and DoubleSeaLib.List.InsertNodeAtTail:
  the guard that returns when the record is already the head or tail is
  modelled for the helpers. DSL_Push and both InsertNode functions still
  count such a record, which corrupts the count. The model's callers
  therefore require a record that is not in the list.
- DoubleSeaLib.List.RemoveNode and DoublyLinkedList.List.RemoveNode: the
  source does not check membership. Removing a foreign record from a
  non-empty list is excluded by the precondition.
- DoubleSeaLib.List.DestroyList and
  DoublyLinkedList.List.DestroyDoublyLinkedList: the cleaning walk reads
  the successor through the library's own node type. The model requires
  that layout's offset when cleaning.
- DoubleSeaLib.c:400-432 repeats the three slot functions of ListUtils.c.
  `ListUtils` models both.
- The arguments structure of DSL_InitStaticStorageListWData also carries
  an offset, an order function, a record size and an index-field offset.
  The model passes the records as a sequence and the index as a field.
- DoubleSeaLib.InitStaticStorageListWData: the comment on the function
  says it initialises the list, but the code never calls DSL_InitList and
  never reads the offset or order function of its arguments. The model
  follows the code and requires a list the caller has already made valid.
- DSL_InitStaticStorageList, and Push and Pop of DoublyLinkedList.h, are
  declared but have no definition in the repository, so they are not part
  of this model. FindDoublyLinkedNode, called by the tests, is not
  declared. CalculateNextPointerOffset and CalculatePrevPointerOffset of
  ListUtils.h are declared without a definition and are not part of this
  model either.
- The comment on DSL_Push says it adds at the end of the list, but the
  code links the record at the head. The model follows the code.
