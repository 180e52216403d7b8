/**
 * The DoubleSeaLib copy of the intrusive list engine (DoubleSeaLib.c).
 *
 * DSL_List becomes the class List. Its ghost field `contents` holds the
 * linked records from head to tail, and Valid() ties the real fields to it.
 * Every operation that rewrites links is a method proved against the
 * sequence-level specification in Linkage.
 */
module DoubleSeaLib {
  import opened ListUtils
  import opened Linkage

  /** offsetof(DSL_Node, pNext): only the data pointer precedes it. */
  const OFFSETOF_DSL_NODE: Size := POINTER_SIZE

  class List {
    var head: Record?
    var tail: Record?
    var dynamic: int
    var length: nat
    var offset: Size
    var orderFunction: Option<Comparator>
    ghost var contents: seq<Record>
    /** Set when the engine releases a heap-owned list. */
    ghost var freed: bool

    /**
     * The list is linked as `contents` says and counted, and has not been
     * released.
     */
    ghost predicate Valid()
      reads this, contents
    {
      && Chain(head, tail, contents) && length == |contents|
      && !freed
    }

    /** List storage initialised by DSL_InitList. */
    constructor (isDynamic: int, offset: Size, order: Option<Comparator>)
      ensures Valid() && contents == [] && !freed
      ensures length == 0 && head == null && tail == null
      ensures dynamic == isDynamic && orderFunction == order
      ensures this.offset == if offset == SIZE_MAX then OFFSETOF_DSL_NODE else offset
    {
      freed := false;
      new;
      InitList(isDynamic, offset, order);
    }

    /**
     * DSL_InitList: an empty list with the given ownership flag and order
     * function; the sentinel offset (size_t)-1 selects the layout of DSL_Node.
     */
    method InitList(isDynamic: int, offset: Size, order: Option<Comparator>)
      requires !freed
      modifies this
      ensures Valid() && contents == [] && freed == old(freed)
      ensures length == 0 && head == null && tail == null
      ensures dynamic == isDynamic && orderFunction == order
      ensures this.offset == if offset == SIZE_MAX then OFFSETOF_DSL_NODE else offset
    {
      length := 0;
      head := null;
      tail := null;
      dynamic := isDynamic;
      orderFunction := order;
      this.offset := if offset == SIZE_MAX then OFFSETOF_DSL_NODE else offset;
      contents := [];
    }

    /**
     * _InsertNodeAtHead: links `node` in front of the head, or makes it the
     * only record of an empty list. Like the source it leaves `length` to the
     * caller, and it does nothing when `node` is already the head.
     */
    method InsertNodeAtHead(node: Record)
      requires Valid()
      requires node !in contents || node == head
      modifies this`head, this`tail, this`contents, (set r | r in contents), node
      ensures Chain(head, tail, contents) && length == old(length)
      ensures contents == if old(head) == node then old(contents) else [node] + old(contents)
      ensures forall r: Record :: old(allocated(r)) ==> r.data == old(r.data) && r.dynamic == old(r.dynamic) && r.index == old(r.index) && r.freed == old(r.freed)
    {
      if head == node {
        return;
      }
      if length == 0 {
        head := node;
        tail := node;
        node.next := null;
        node.prev := null;
        contents := [node];
      } else {
        ghost var s := contents;
        node.next := head;
        head.prev := node;
        head := node;
        node.prev := null;
        contents := [node] + s;
        assert forall i :: 0 <= i < |s| - 1 ==> s[i].next == s[i + 1] && s[i + 1].prev == s[i];
        assert forall i :: 1 <= i < |contents| ==> contents[i] == s[i - 1];
      }
    }

    /**
     * _InsertNodeAtTail: links `node` behind the tail of a non-empty list.
     * It leaves `length` to the caller and does nothing when `node` is
     * already the tail.
     */
    method InsertNodeAtTail(node: Record)
      requires Valid() && length > 0
      requires node !in contents || node == tail
      modifies this`tail, this`contents, (set r | r in contents), node
      ensures Chain(head, tail, contents) && length == old(length) && head == old(head)
      ensures contents == if old(tail) == node then old(contents) else old(contents) + [node]
      ensures forall r: Record :: old(allocated(r)) ==> r.data == old(r.data) && r.dynamic == old(r.dynamic) && r.index == old(r.index) && r.freed == old(r.freed)
    {
      if tail == node {
        return;
      }
      ghost var s := contents;
      tail.next := node;
      node.prev := tail;
      tail := node;
      node.next := null;
      contents := s + [node];
      assert forall i :: 0 <= i < |s| ==> contents[i] == s[i];
    }

    /**
     * DSL_InsertNode: links a record that is in no list. Without an order
     * function it is appended; with one it goes at the place that
     * TailFirstPosition describes, which on a sorted list is the stable
     * sorted place (Linkage.InsertPositionsAgree, Linkage.SortedInsert).
     * A null record changes nothing.
     */
    method InsertNode(node: Record?)
      requires Valid()
      requires node == null || (node !in contents && !node.freed)
      modifies this`head, this`tail, this`length, this`contents, (set r | r in contents), node
      ensures Valid()
      ensures node == null ==> contents == old(contents)
      ensures node != null ==>
        contents == InsertAt(old(contents), TailFirstPosition(old(contents), node.key, orderFunction), node)
      ensures node != null && orderFunction.None? ==> contents == old(contents) + [node]
      ensures forall r: Record :: old(allocated(r)) ==> r.data == old(r.data) && r.dynamic == old(r.dynamic) && r.index == old(r.index) && r.freed == old(r.freed)
    {
      if node == null {
        return;
      }
      if length == 0 {
        head := node;
        tail := node;
        node.next := null;
        node.prev := null;
        contents := [node];
        assert contents == InsertAt(old(contents), 0, node);
      } else {
        InsertNodeInNonEmpty(node);
      }
      length := length + 1;
    }

    /**
     * DSL_InsertNode on a non-empty list, before `length` is updated: the
     * tail test, the head test and the scan, in that order.
     */
    method InsertNodeInNonEmpty(node: Record)
      requires Valid() && length > 0 && node !in contents
      modifies this`head, this`tail, this`contents, (set r | r in contents), node
      ensures Chain(head, tail, contents) && length == old(length)
      ensures contents == InsertAt(old(contents), TailFirstPosition(old(contents), node.key, orderFunction), node)
      ensures forall r: Record :: old(allocated(r)) ==> r.data == old(r.data) && r.dynamic == old(r.dynamic) && r.index == old(r.index) && r.freed == old(r.freed)
    {
      ghost var s := contents;
      ghost var p := TailFirstPosition(s, node.key, orderFunction);
      InsertAtEnds(s, node);
      if orderFunction.None? || orderFunction.value(node.key, tail.key) > 0 {
        assert p == |s|;
        InsertNodeAtTail(node);
      } else if orderFunction.value(node.key, head.key) < 0 {
        assert p == 0;
        InsertNodeAtHead(node);
      } else {
        assert p == FirstGreater(s, node.key, orderFunction.value);
        InsertNodeInMiddle(node);
      }
    }

    /**
     * The ordered branch of DSL_InsertNode that is reached when `node` sorts
     * neither after the tail nor before the head: scan from the head for the
     * first record it sorts strictly before and link it in front of that
     * record, or behind the tail when the scan runs off the end (a tie with
     * the tail). Leaves `length` to the caller.
     */
    method InsertNodeInMiddle(node: Record)
      requires Valid() && length > 0 && node !in contents
      requires orderFunction.Some?
      requires orderFunction.value(node.key, tail.key) <= 0
      requires orderFunction.value(node.key, head.key) >= 0
      modifies this`tail, this`contents, (set r | r in contents), node
      ensures Chain(head, tail, contents) && length == old(length) && head == old(head)
      ensures contents == InsertAt(old(contents), FirstGreater(old(contents), node.key, orderFunction.value), node)
      ensures forall r: Record :: old(allocated(r)) ==> r.data == old(r.data) && r.dynamic == old(r.dynamic) && r.index == old(r.index) && r.freed == old(r.freed)
    {
      ghost var s := contents;
      var current, j := ScanForGreater(node.key);
      if current == null {
        assert InsertAt(s, |s|, node) == s + [node];
        InsertNodeAtTail(node);
      } else {
        LinkBefore(node, current, j);
      }
    }

    /**
     * The scan of the ordered insert: walks `next` from the head to the
     * first record that `key` sorts strictly before, and yields null when
     * there is none. The ghost result is that record's position.
     */
    method ScanForGreater(key: int) returns (current: Record?, ghost j: nat)
      requires Valid() && orderFunction.Some?
      ensures j == FirstGreater(contents, key, orderFunction.value)
      ensures current == if j < |contents| then contents[j] else null
    {
      var order := orderFunction.value;
      current := head;
      j := 0;
      while current != null
        invariant 0 <= j <= |contents|
        invariant current == if j < |contents| then contents[j] else null
        invariant forall i :: 0 <= i < j ==> order(key, contents[i].key) >= 0
        decreases |contents| - j
      {
        if order(key, current.key) < 0 {
          break;
        }
        current := current.next;
        j := j + 1;
      }
      FirstGreaterUnique(contents, key, order, j);
    }

    /**
     * The pointer surgery of the ordered insert: `node` goes between
     * `current` (element `j`, not the head) and its predecessor.
     */
    method LinkBefore(node: Record, current: Record, ghost j: nat)
      requires Valid() && node !in contents
      requires 0 < j < |contents| && contents[j] == current
      modifies this`contents, (set r | r in contents), node
      ensures Chain(head, tail, contents) && length == old(length)
      ensures contents == InsertAt(old(contents), j, node)
      ensures forall r: Record :: old(allocated(r)) ==> r.data == old(r.data) && r.dynamic == old(r.dynamic) && r.index == old(r.index) && r.freed == old(r.freed)
    {
      ghost var s := contents;
      var prev := current.prev;
      assert s[j - 1].next == s[(j - 1) + 1] && s[(j - 1) + 1].prev == s[j - 1];
      node.next := current;
      node.prev := prev;
      prev.next := node;
      current.prev := node;
      contents := InsertAt(s, j, node);
      forall i | 0 <= i < |contents| - 1
        ensures contents[i].next == contents[i + 1] && contents[i + 1].prev == contents[i]
      {
        if i < j - 1 {
          assert contents[i] == s[i] && contents[i + 1] == s[i + 1];
        } else if i >= j + 1 {
          assert contents[i] == s[i - 1] && contents[i + 1] == s[(i - 1) + 1];
        }
      }
    }

    /**
     * The pointer surgery of DSL_RemoveNode: the ends move past `node`, its
     * neighbours are linked to each other, and its own links are cleared.
     * Only `node`, its two neighbours and the ends are written.
     */
    method Unlink(node: Record)
      requires node.prev != node && node.next != node
      requires head == node ==> node.prev == null
      requires tail == node ==> node.next == null
      requires node.prev != null ==> node.prev != node.next
      modifies this`head, this`tail, node, node.prev, node.next
      ensures head == if old(head) == node then old(node.next) else old(head)
      ensures tail == if old(tail) == node then old(node.prev) else old(tail)
      ensures old(node.prev) != null ==> old(node.prev).next == old(node.next)
      ensures old(node.next) != null ==> old(node.next).prev == old(node.prev)
      ensures old(node.prev) != null ==> old(node.prev).prev == old(node.prev.prev)
      ensures old(node.next) != null ==> old(node.next).next == old(node.next.next)
      ensures node.next == null && node.prev == null
      ensures forall r: Record :: old(allocated(r)) ==> r.data == old(r.data) && r.dynamic == old(r.dynamic) && r.index == old(r.index) && r.freed == old(r.freed)
    {
      if head == node {
        head := node.next;
        if head != null {
          head.prev := null;
        }
      }
      if tail == node {
        tail := node.prev;
        if tail != null {
          tail.next := null;
        }
      }
      if node.prev != null {
        node.prev.next := node.next;
      }
      if node.next != null {
        node.next.prev := node.prev;
      }
      node.next := null;
      node.prev := null;
    }

    /**
     * InsertNode followed by RemoveNode of the same record: the list is as
     * it was and the record is unlinked again, whatever position the
     * insert chose.
     */
    method InsertThenRemoveNode(node: Record)
      requires Valid() && node !in contents && !node.freed
      modifies this`head, this`tail, this`length, this`contents, (set r | r in contents), node
      ensures Valid()
      ensures contents == old(contents)
      ensures node.next == null && node.prev == null
    {
      ghost var s := contents;
      ghost var p := TailFirstPosition(s, node.key, orderFunction);
      InsertNode(node);
      InsertThenRemove(s, p, node);
      RemoveNode(node);
    }

    /**
     * DSL_RemoveNode: unlinks a member in constant time and clears its
     * links; the list's ends are moved when the member was one of them. A
     * null record or an empty list changes nothing. The source does not
     * check membership, so a record of the list is required when the list
     * is not empty.
     */
    method RemoveNode(node: Record?)
      requires Valid()
      requires node == null || length == 0 || node in contents
      modifies this`head, this`tail, this`length, this`contents, (set r | r in contents)
      ensures Valid()
      ensures node == null || old(length) == 0 ==> contents == old(contents)
      ensures node != null && old(length) > 0 ==>
        && contents == RemoveAt(old(contents), IndexOf(old(contents), node))
        && node.next == null && node.prev == null
      ensures length == 0 ==> head == null && tail == null
      ensures forall r: Record :: old(allocated(r)) ==> r.data == old(r.data) && r.dynamic == old(r.dynamic) && r.index == old(r.index) && r.freed == old(r.freed)
    {
      if node == null || length == 0 {
        return;
      }
      ghost var s := contents;
      ghost var k := IndexOf(s, node);
      NeighboursOf(s, k);
      Unlink(node);
      length := length - 1;
      if length == 0 {
        head := null;
        tail := null;
      }
      RemoveAtLinked(s, k);
      contents := RemoveAt(s, k);
    }

    /**
     * DSL_Push: links `node` in front of the head and counts it. A null
     * record changes nothing.
     */
    method Push(node: Record?)
      requires Valid()
      requires node == null || (node !in contents && !node.freed)
      modifies this`head, this`tail, this`length, this`contents, (set r | r in contents), node
      ensures Valid()
      ensures contents == if node == null then old(contents) else [node] + old(contents)
      ensures forall r: Record :: old(allocated(r)) ==> r.data == old(r.data) && r.dynamic == old(r.dynamic) && r.index == old(r.index) && r.freed == old(r.freed)
    {
      if node == null {
        return;
      }
      InsertNodeAtHead(node);
      length := length + 1;
    }

    /**
     * DSL_Pop: unlinks the head and returns it, or returns null when the
     * list is empty.
     */
    method Pop() returns (node: Record?)
      requires Valid()
      modifies this`head, this`tail, this`length, this`contents, (set r | r in contents)
      ensures Valid()
      ensures old(contents) == [] ==> node == null && contents == []
      ensures old(contents) != [] ==> node == old(contents)[0] && contents == old(contents)[1..]
      ensures node != null ==> node.next == null && node.prev == null
      ensures forall r: Record :: old(allocated(r)) ==> r.data == old(r.data) && r.dynamic == old(r.dynamic) && r.index == old(r.index) && r.freed == old(r.freed)
    {
      if length == 0 {
        return null;
      }
      node := head;
      ghost var s := contents;
      RemoveNode(node);
      assert IndexOf(s, node) == 0;
      assert RemoveAt(s, 0) == s[1..];
    }

    /**
     * DSL_Push followed by DSL_Pop: the pushed record comes straight back
     * and the list is as it was, so a stack built with the two is LIFO.
     */
    method PushThenPop(node: Record) returns (popped: Record?)
      requires Valid() && node !in contents && !node.freed
      modifies this`head, this`tail, this`length, this`contents, (set r | r in contents), node
      ensures Valid()
      ensures popped == node && contents == old(contents)
      ensures node.next == null && node.prev == null
    {
      Push(node);
      popped := Pop();
    }

    /** The record a slot returned by FindNode holds, null for NoSlot. */
    ghost function Target(slot: Slot): Record?
      reads this, contents
    {
      match slot
      case NoSlot => null
      case HeadSlot => head
      case TailSlot => tail
      case NextSlotOf(owner) => if owner < |contents| then contents[owner].next else null
    }

    /**
     * DSL_FindNode: the slot (the list's head or tail field, or some record's
     * next field) that holds a record whose data is `withData`. The head is
     * tested first, then the tail, then the records after the head in list
     * order, so a tail match wins over an earlier match inside the list. A
     * NULL `withData` finds nothing. The source's scan does not stop at the
     * end of the list, so a record with the data must be linked.
     */
    method FindNode(withData: Address) returns (slot: Slot)
      requires Valid()
      requires withData == NULL || exists i :: 0 <= i < |contents| && contents[i].data == withData
      ensures withData == NULL ==> slot == NoSlot
      ensures withData != NULL ==> slot != NoSlot && Target(slot) != null && Target(slot).data == withData
      ensures withData != NULL && contents[0].data == withData ==> slot == HeadSlot
      ensures withData != NULL && contents[0].data != withData && contents[|contents| - 1].data == withData ==> slot == TailSlot
      ensures slot.NextSlotOf? ==>
        && slot.owner + 1 < |contents| - 1
        && contents[slot.owner + 1].data == withData
        && forall i :: 0 <= i <= slot.owner ==> contents[i].data != withData
    {
      if withData == NULL {
        return NoSlot;
      }
      if head.data == withData {
        return HeadSlot;
      }
      if tail.data == withData {
        return TailSlot;
      }
      var current := head;
      var k := 0;
      while true
        invariant k < |contents| && current == contents[k]
        invariant forall i :: 0 <= i <= k ==> contents[i].data != withData
        invariant exists i :: k < i < |contents| && contents[i].data == withData
        decreases |contents| - k
      {
        assert k + 1 < |contents| && contents[k].next == contents[k + 1];
        current := current.next;
        k := k + 1;
        if current.data == withData {
          return NextSlotOf(k - 1);
        }
      }
    }

    /**
     * DSL_DestroyList: with `cleanNodes` equal to 1, walks the records from
     * the head, reading each one's successor before destroying it (freeing a
     * heap-owned record, resetting a caller-owned one). Then a heap-owned
     * list is released and any other list is reinitialised empty, with no
     * order function and its offset kept. The walk reads the successor
     * through DSL_Node's layout, so cleaning needs that layout.
     */
    method DestroyList(cleanNodes: int)
      requires Valid()
      requires forall r :: r in contents ==> !r.freed
      requires cleanNodes == 1 ==> offset == OFFSETOF_DSL_NODE
      modifies this, (set r | r in contents)
      ensures cleanNodes == 1 ==> forall r: Record :: r in old(contents) ==>
        if old(r.dynamic) == 1 then r.freed else r.next == null && r.prev == null && r.data == NULL && r.dynamic == 0 && r.freed == old(r.freed)
      ensures cleanNodes != 1 ==> forall r: Record :: r in old(contents) ==>
        r.next == old(r.next) && r.prev == old(r.prev) && r.data == old(r.data) && r.dynamic == old(r.dynamic) && r.freed == old(r.freed)
      ensures forall r: Record :: r in old(contents) ==> r.index == old(r.index)
      ensures old(dynamic) == 1 ==> freed && contents == old(contents) && length == old(length) && head == old(head) && tail == old(tail)
      ensures old(dynamic) != 1 ==>
        && Valid() && contents == [] && freed == old(freed)
        && dynamic == 0 && orderFunction == None
        && offset == if old(offset) == SIZE_MAX then OFFSETOF_DSL_NODE else old(offset)
    {
      ghost var s := contents;
      if cleanNodes == 1 {
        var node := head;
        ghost var j := 0;
        while node != null
          invariant j <= |s| && node == if j < |s| then s[j] else null
          invariant forall i :: 0 <= i < j ==>
            if old(s[i].dynamic) == 1 then s[i].freed else s[i].next == null && s[i].prev == null && s[i].data == NULL && s[i].dynamic == 0 && s[i].freed == old(s[i].freed)
          invariant forall i :: j <= i < |s| ==>
            s[i].next == old(s[i].next) && s[i].prev == old(s[i].prev) && s[i].data == old(s[i].data) && s[i].dynamic == old(s[i].dynamic) && s[i].freed == old(s[i].freed)
          invariant forall i :: j <= i < |s| ==> !s[i].freed
          invariant forall i :: 0 <= i < |s| ==> s[i].index == old(s[i].index)
          invariant unchanged(this)
          decreases |s| - j
        {
          var next := node.next;
          DestroyNode(node);
          node := next;
          j := j + 1;
        }
      }
      if dynamic == 1 {
        freed := true;
      } else {
        InitList(0, offset, None);
      }
    }
  }

  /**
   * Where DSL_FindNode found the record: the list's head field, its tail
   * field, or the next field of the record at position `owner`.
   */
  datatype Slot = NoSlot | HeadSlot | TailSlot | NextSlotOf(owner: nat)

  /**
   * DSL_InitNode: clears the links of a record, stores its data reference
   * and its ownership flag. A null record is ignored.
   */
  method InitNode(isDynamic: int, node: Record?, withData: Address)
    requires node != null ==> !node.freed
    modifies node
    ensures node != null ==> node.next == null && node.prev == null && node.data == withData && node.dynamic == isDynamic
    ensures node != null ==> node.index == old(node.index) && node.freed == old(node.freed)
  {
    if node == null {
      return;
    }
    node.next := null;
    node.prev := null;
    node.data := withData;
    node.dynamic := isDynamic;
  }

  /**
   * DSL_DestroyNode: a heap-owned record (dynamic flag 1) is released; any
   * other record is reset by DSL_InitNode to no links, no data and not
   * heap-owned. A null record is ignored.
   */
  method DestroyNode(node: Record?)
    requires node != null ==> !node.freed
    modifies node
    ensures node != null && old(node.dynamic) == 1 ==>
      node.freed && node.next == old(node.next) && node.prev == old(node.prev) && node.data == old(node.data) && node.dynamic == 1
    ensures node != null && old(node.dynamic) != 1 ==>
      node.next == null && node.prev == null && node.data == NULL && node.dynamic == 0 && node.freed == old(node.freed)
    ensures node != null ==> node.index == old(node.index)
  {
    if node == null {
      return;
    } else if node.dynamic == 1 {
      node.freed := true;
    } else {
      InitNode(0, node, NULL);
    }
  }

  /**
   * DSL_InitStaticStorageListArgs: the caller's array of records, in array
   * order, and the list to register them in (which the caller has already
   * initialised).
   */
  datatype StaticStorageArgs = StaticStorageArgs(items: seq<Record>, list: List?)

  /**
   * One round of the DSL_InitStaticStorageListWData loop: record `i` of the
   * array gets its index, then DSL_InsertNode links it into the list, which
   * does nothing when there is no list.
   */
  method StoreItem(list: List?, items: seq<Record>, i: nat, ghost s: seq<Record>, ghost order: Option<Comparator>)
    requires i < |items| && Distinct(items)
    requires forall k :: 0 <= k < |items| ==> !items[k].freed
    requires list != null ==> forall r :: r in items ==> r !in s
    requires list != null ==> list.Valid() && list.orderFunction == order && list.contents == InsertEach(s, items[..i], order)
    modifies if list != null then {list} else {}, (set r | list != null && r in list.contents), items[i]
    ensures list != null ==> list.Valid() && list.orderFunction == order && list.contents == InsertEach(s, items[..i + 1], order)
    ensures items[i].index == i
    ensures forall k :: 0 <= k < |items| && k != i ==> items[k].index == old(items[k].index)
    ensures forall k :: 0 <= k < |items| ==> !items[k].freed
    ensures list != null ==> list.offset == old(list.offset) && list.dynamic == old(list.dynamic)
    ensures list == null ==> forall k :: 0 <= k < |items| ==> items[k].next == old(items[k].next) && items[k].prev == old(items[k].prev)
    ensures forall r: Record :: old(allocated(r)) ==> r.data == old(r.data) && r.dynamic == old(r.dynamic) && r.freed == old(r.freed)
    ensures forall r: Record :: old(allocated(r)) && r != items[i] ==> r.index == old(r.index)
  {
    items[i].index := i;
    if list != null {
      InsertEachMembers(s, items[..i], order);
      assert items[i] !in items[..i];
      list.InsertNode(items[i]);
      InsertEachStep(s, items, i, order);
    }
  }

  /**
   * DSL_InitStaticStorageListWData: stamps every record of the array with
   * its array index and inserts it into the list with DSL_InsertNode, in
   * array order. Without arguments nothing happens; with a null list only
   * the indices are stamped.
   */
  method InitStaticStorageListWData(args: Option<StaticStorageArgs>)
    requires args.Some? ==> Distinct(args.value.items)
    requires args.Some? ==> forall k :: 0 <= k < |args.value.items| ==> !args.value.items[k].freed
    requires args.Some? && args.value.list != null ==> args.value.list.Valid()
    requires args.Some? && args.value.list != null ==> forall r :: r in args.value.items ==> r !in args.value.list.contents
    modifies set r | args.Some? && r in args.value.items
    modifies if args.Some? && args.value.list != null then {args.value.list} else {}
    modifies set r | args.Some? && args.value.list != null && r in args.value.list.contents
    ensures args.Some? ==> forall i :: 0 <= i < |args.value.items| ==> args.value.items[i].index == i
    ensures args.Some? && args.value.list != null ==>
      var list := args.value.list;
      && list.Valid()
      && list.orderFunction == old(list.orderFunction)
      && list.contents == InsertEach(old(list.contents), args.value.items, list.orderFunction)
      && list.offset == old(list.offset) && list.dynamic == old(list.dynamic)
    ensures args.Some? && args.value.list == null ==> forall k :: 0 <= k < |args.value.items| ==>
      args.value.items[k].next == old(args.value.items[k].next) && args.value.items[k].prev == old(args.value.items[k].prev)
    ensures forall r: Record :: old(allocated(r)) ==> r.data == old(r.data) && r.dynamic == old(r.dynamic) && r.freed == old(r.freed)
    ensures args.Some? ==> forall r: Record :: old(allocated(r)) && r !in args.value.items ==> r.index == old(r.index)
  {
    if args.None? {
      return;
    }
    var items, list := args.value.items, args.value.list;
    ghost var s := if list == null then [] else list.contents;
    ghost var order := if list == null then None else list.orderFunction;
    for i := 0 to |items|
      invariant forall k :: 0 <= k < i ==> items[k].index == k
      invariant forall k :: 0 <= k < |items| ==> !items[k].freed
      invariant list != null ==> list.Valid()
      invariant list != null ==> list.orderFunction == order && list.contents == InsertEach(s, items[..i], order)
      invariant list != null ==> list.offset == old(list.offset) && list.dynamic == old(list.dynamic)
      invariant list == null ==> forall k :: 0 <= k < |items| ==> items[k].next == old(items[k].next) && items[k].prev == old(items[k].prev)
      invariant forall r: Record :: old(allocated(r)) ==> r.data == old(r.data) && r.dynamic == old(r.dynamic) && r.freed == old(r.freed)
      invariant forall r: Record :: old(allocated(r)) && r !in items ==> r.index == old(r.index)
    {
      if list != null {
        InsertEachMembers(s, items[..i], order);
      }
      StoreItem(list, items, i, s, order);
    }
    assert items[..|items|] == items;
  }
}
