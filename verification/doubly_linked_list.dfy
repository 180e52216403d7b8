/**
 * The DoublyLinkedList copy of the intrusive list engine
 * (DoublyLinkedList.c). It keeps the record layout and the removal code of
 * DoubleSeaLib, but its ordered insert tests the head before the tail and
 * links records inline instead of through helpers, and it adds heap
 * constructors for records and lists.
 */
module DoublyLinkedList {
  import opened ListUtils
  import opened Linkage

  /** offsetof(DoublyLinkedNode, pNext): only the data pointer precedes it. */
  const DOUBLY_LINKED_NODE_OFFSET: Size := POINTER_SIZE

  class List {
    var head: Record?
    var tail: Record?
    var dynamic: int
    var count: nat
    var offset: Size
    var orderFunction: Option<Comparator>
    ghost var contents: seq<Record>
    /** Set when the engine releases a heap-owned list. */
    ghost var freed: bool

    /**
     * The list is linked as `contents` says and counted, and has not been
     * released.
     */
    ghost predicate Valid()
      reads this, contents
    {
      && Chain(head, tail, contents) && count == |contents|
      && !freed
    }

    /** List storage initialised by InitializeDoublyLinkedList. */
    constructor (isDynamic: int, offset: Size, order: Option<Comparator>)
      ensures Valid() && contents == [] && !freed
      ensures count == 0 && head == null && tail == null
      ensures dynamic == isDynamic && orderFunction == order
      ensures this.offset == if offset == SIZE_MAX then DOUBLY_LINKED_NODE_OFFSET else offset
    {
      freed := false;
      new;
      InitializeDoublyLinkedList(isDynamic, offset, order);
    }

    /**
     * InitializeDoublyLinkedList: an empty list with the given ownership
     * flag and order function; the sentinel offset (size_t)-1 selects the
     * layout of DoublyLinkedNode.
     */
    method InitializeDoublyLinkedList(isDynamic: int, offset: Size, order: Option<Comparator>)
      requires !freed
      modifies this
      ensures Valid() && contents == [] && freed == old(freed)
      ensures count == 0 && head == null && tail == null
      ensures dynamic == isDynamic && orderFunction == order
      ensures this.offset == if offset == SIZE_MAX then DOUBLY_LINKED_NODE_OFFSET else offset
    {
      count := 0;
      head := null;
      tail := null;
      dynamic := isDynamic;
      orderFunction := order;
      this.offset := if offset == SIZE_MAX then DOUBLY_LINKED_NODE_OFFSET else offset;
      contents := [];
    }

    /**
     * InsertNode: links a record that is in no list. Without an order
     * function it is appended; with one it goes at the place that
     * HeadFirstPosition describes, which on a sorted list is the stable
     * sorted place (Linkage.InsertPositionsAgree, Linkage.SortedInsert).
     * A null record changes nothing.
     */
    method InsertNode(node: Record?)
      requires Valid()
      requires node == null || (node !in contents && !node.freed)
      modifies this`head, this`tail, this`count, this`contents, (set r | r in contents), node
      ensures Valid()
      ensures node == null ==> contents == old(contents)
      ensures node != null ==>
        contents == InsertAt(old(contents), HeadFirstPosition(old(contents), node.key, orderFunction), node)
      ensures node != null && orderFunction.None? ==> contents == old(contents) + [node]
      ensures forall r: Record :: old(allocated(r)) ==> r.data == old(r.data) && r.dynamic == old(r.dynamic) && r.index == old(r.index) && r.freed == old(r.freed)
    {
      if node == null {
        return;
      }
      if count == 0 {
        head := node;
        tail := node;
        node.next := null;
        node.prev := null;
        contents := [node];
        assert contents == InsertAt(old(contents), 0, node);
      } else {
        InsertIntoNonEmpty(node);
      }
      count := count + 1;
    }

    /**
     * InsertNode on a non-empty list, before `count` is updated: the
     * missing order function, the head test, the tail test and the scan,
     * in that order.
     */
    method InsertIntoNonEmpty(node: Record)
      requires Valid() && count > 0 && node !in contents
      modifies this`head, this`tail, this`contents, (set r | r in contents), node
      ensures Chain(head, tail, contents) && count == old(count)
      ensures contents == InsertAt(old(contents), HeadFirstPosition(old(contents), node.key, orderFunction), node)
      ensures forall r: Record :: old(allocated(r)) ==> r.data == old(r.data) && r.dynamic == old(r.dynamic) && r.index == old(r.index) && r.freed == old(r.freed)
    {
      ghost var s := contents;
      ghost var p := HeadFirstPosition(s, node.key, orderFunction);
      InsertAtEnds(s, node);
      if orderFunction.None? {
        assert p == |s|;
        AppendAtTail(node);
      } else if orderFunction.value(node.key, head.key) < 0 {
        assert p == 0;
        PrependAtHead(node);
      } else if orderFunction.value(node.key, tail.key) > 0 {
        assert p == |s|;
        AppendAtTail(node);
      } else {
        assert p == FirstGreater(s, node.key, orderFunction.value);
        InsertInMiddle(node);
      }
    }

    /**
     * The three blocks of InsertNode that link `node` behind the tail of a
     * non-empty list: the tail's next becomes `node`, `node` takes the old
     * tail as its prev and becomes the tail with no next.
     */
    method AppendAtTail(node: Record)
      requires Valid() && count > 0 && node !in contents
      modifies this`tail, this`contents, (set r | r in contents), node
      ensures Chain(head, tail, contents) && count == old(count) && head == old(head)
      ensures contents == old(contents) + [node]
      ensures forall r: Record :: old(allocated(r)) ==> r.data == old(r.data) && r.dynamic == old(r.dynamic) && r.index == old(r.index) && r.freed == old(r.freed)
    {
      ghost var s := contents;
      tail.next := node;
      node.prev := tail;
      tail := node;
      node.next := null;
      contents := s + [node];
      assert forall i :: 0 <= i < |s| ==> contents[i] == s[i];
    }

    /**
     * The head block of InsertNode: `node` takes the head as its next, the
     * head's prev becomes `node`, and `node` becomes the head with no prev.
     */
    method PrependAtHead(node: Record)
      requires Valid() && count > 0 && node !in contents
      modifies this`head, this`contents, (set r | r in contents), node
      ensures Chain(head, tail, contents) && count == old(count) && tail == old(tail)
      ensures contents == [node] + old(contents)
      ensures forall r: Record :: old(allocated(r)) ==> r.data == old(r.data) && r.dynamic == old(r.dynamic) && r.index == old(r.index) && r.freed == old(r.freed)
    {
      ghost var s := contents;
      node.next := head;
      head.prev := node;
      head := node;
      node.prev := null;
      contents := [node] + s;
      assert forall i :: 0 <= i < |s| - 1 ==> s[i].next == s[i + 1] && s[i + 1].prev == s[i];
      assert forall i :: 1 <= i < |contents| ==> contents[i] == s[i - 1];
    }

    /**
     * The middle block of InsertNode, reached when `node` sorts neither
     * before the head nor after the tail: scan from the head for the first
     * record it sorts strictly before and link it in front of that record,
     * or behind the tail when the scan runs off the end (a tie with the
     * tail).
     */
    method InsertInMiddle(node: Record)
      requires Valid() && count > 0 && node !in contents
      requires orderFunction.Some?
      requires orderFunction.value(node.key, head.key) >= 0
      requires orderFunction.value(node.key, tail.key) <= 0
      modifies this`tail, this`contents, (set r | r in contents), node
      ensures Chain(head, tail, contents) && count == old(count) && head == old(head)
      ensures contents == InsertAt(old(contents), FirstGreater(old(contents), node.key, orderFunction.value), node)
      ensures forall r: Record :: old(allocated(r)) ==> r.data == old(r.data) && r.dynamic == old(r.dynamic) && r.index == old(r.index) && r.freed == old(r.freed)
    {
      ghost var s := contents;
      var current, j := ScanForGreater(node.key);
      if current == null {
        InsertAtEnds(s, node);
        AppendAtTail(node);
      } else {
        LinkBefore(node, current, j);
      }
    }

    /**
     * The scan of the ordered insert: walks `next` from the head to the
     * first record that `key` sorts strictly before, and yields null when
     * there is none. The ghost result is that record's position.
     */
    method ScanForGreater(key: int) returns (current: Record?, ghost j: nat)
      requires Valid() && orderFunction.Some?
      ensures j == FirstGreater(contents, key, orderFunction.value)
      ensures current == if j < |contents| then contents[j] else null
    {
      var order := orderFunction.value;
      current := head;
      j := 0;
      while current != null
        invariant 0 <= j <= |contents|
        invariant current == if j < |contents| then contents[j] else null
        invariant forall i :: 0 <= i < j ==> order(key, contents[i].key) >= 0
        decreases |contents| - j
      {
        if order(key, current.key) < 0 {
          break;
        }
        current := current.next;
        j := j + 1;
      }
      FirstGreaterUnique(contents, key, order, j);
    }

    /**
     * The pointer surgery of the ordered insert: `node` goes between
     * `current` (element `j`, not the head) and its predecessor.
     */
    method LinkBefore(node: Record, current: Record, ghost j: nat)
      requires Valid() && node !in contents
      requires 0 < j < |contents| && contents[j] == current
      modifies this`contents, (set r | r in contents), node
      ensures Chain(head, tail, contents) && count == old(count)
      ensures contents == InsertAt(old(contents), j, node)
      ensures forall r: Record :: old(allocated(r)) ==> r.data == old(r.data) && r.dynamic == old(r.dynamic) && r.index == old(r.index) && r.freed == old(r.freed)
    {
      ghost var s := contents;
      var prev := current.prev;
      assert s[j - 1].next == s[(j - 1) + 1] && s[(j - 1) + 1].prev == s[j - 1];
      node.next := current;
      node.prev := prev;
      prev.next := node;
      current.prev := node;
      contents := InsertAt(s, j, node);
      forall i | 0 <= i < |contents| - 1
        ensures contents[i].next == contents[i + 1] && contents[i + 1].prev == contents[i]
      {
        if i < j - 1 {
          assert contents[i] == s[i] && contents[i + 1] == s[i + 1];
        } else if i >= j + 1 {
          assert contents[i] == s[i - 1] && contents[i + 1] == s[(i - 1) + 1];
        }
      }
    }

    /**
     * The pointer surgery of RemoveNode: the ends move past `node`, its
     * neighbours are linked to each other, and its own links are cleared.
     */
    method Unlink(node: Record)
      requires node.prev != node && node.next != node
      requires node.prev != null ==> node.prev != node.next
      requires head == node ==> node.prev == null
      requires tail == node ==> node.next == null
      modifies this`head, this`tail, node, node.prev, node.next
      ensures head == if old(head) == node then old(node.next) else old(head)
      ensures tail == if old(tail) == node then old(node.prev) else old(tail)
      ensures old(node.prev) != null ==> old(node.prev).next == old(node.next)
      ensures old(node.next) != null ==> old(node.next).prev == old(node.prev)
      ensures old(node.prev) != null ==> old(node.prev).prev == old(node.prev.prev)
      ensures old(node.next) != null ==> old(node.next).next == old(node.next.next)
      ensures node.next == null && node.prev == null
      ensures forall r: Record :: old(allocated(r)) ==> r.data == old(r.data) && r.dynamic == old(r.dynamic) && r.index == old(r.index) && r.freed == old(r.freed)
    {
      if head == node {
        head := node.next;
        if head != null {
          head.prev := null;
        }
      }
      if tail == node {
        tail := node.prev;
        if tail != null {
          tail.next := null;
        }
      }
      if node.prev != null {
        node.prev.next := node.next;
      }
      if node.next != null {
        node.next.prev := node.prev;
      }
      node.next := null;
      node.prev := null;
    }

    /**
     * InsertNode followed by RemoveNode of the same record: the list is as
     * it was and the record is unlinked again, whatever position the
     * insert chose.
     */
    method InsertThenRemoveNode(node: Record)
      requires Valid() && node !in contents && !node.freed
      modifies this`head, this`tail, this`count, this`contents, (set r | r in contents), node
      ensures Valid()
      ensures contents == old(contents)
      ensures node.next == null && node.prev == null
    {
      ghost var s := contents;
      ghost var p := HeadFirstPosition(s, node.key, orderFunction);
      InsertNode(node);
      InsertThenRemove(s, p, node);
      RemoveNode(node);
    }

    /**
     * RemoveNode: unlinks a member in constant time and clears its links;
     * the list's ends are moved when the member was one of them. A null
     * record or an empty list changes nothing. The source does not check
     * membership, so a record of the list is required when the list is not
     * empty.
     */
    method RemoveNode(node: Record?)
      requires Valid()
      requires node == null || count == 0 || node in contents
      modifies this`head, this`tail, this`count, this`contents, (set r | r in contents)
      ensures Valid()
      ensures node == null || old(count) == 0 ==> contents == old(contents)
      ensures node != null && old(count) > 0 ==>
        && contents == RemoveAt(old(contents), IndexOf(old(contents), node))
        && node.next == null && node.prev == null
      ensures count == 0 ==> head == null && tail == null
      ensures forall r: Record :: old(allocated(r)) ==> r.data == old(r.data) && r.dynamic == old(r.dynamic) && r.index == old(r.index) && r.freed == old(r.freed)
    {
      if node == null || count == 0 {
        return;
      }
      ghost var s := contents;
      ghost var k := IndexOf(s, node);
      NeighboursOf(s, k);
      Unlink(node);
      count := count - 1;
      if count == 0 {
        head := null;
        tail := null;
      }
      RemoveAtLinked(s, k);
      contents := RemoveAt(s, k);
    }

    /**
     * DestroyDoublyLinkedList: with `cleanNodes` equal to 1, walks the
     * records from the head, reading each one's successor before destroying
     * it. Then a heap-owned list is released and any other list is
     * reinitialised empty, with no order function and its offset kept. The
     * walk reads the successor through DoublyLinkedNode's layout, so
     * cleaning needs that layout.
     */
    method DestroyDoublyLinkedList(cleanNodes: int)
      requires Valid()
      requires forall r :: r in contents ==> !r.freed
      requires cleanNodes == 1 ==> offset == DOUBLY_LINKED_NODE_OFFSET
      modifies this, (set r | r in contents)
      ensures cleanNodes == 1 ==> forall r: Record :: r in old(contents) ==>
        if old(r.dynamic) == 1 then r.freed else r.next == null && r.prev == null && r.data == NULL && r.dynamic == 0 && r.freed == old(r.freed)
      ensures cleanNodes != 1 ==> forall r: Record :: r in old(contents) ==>
        r.next == old(r.next) && r.prev == old(r.prev) && r.data == old(r.data) && r.dynamic == old(r.dynamic) && r.freed == old(r.freed)
      ensures forall r: Record :: r in old(contents) ==> r.index == old(r.index)
      ensures old(dynamic) == 1 ==> freed && contents == old(contents) && count == old(count) && head == old(head) && tail == old(tail)
      ensures old(dynamic) != 1 ==>
        && Valid() && contents == [] && freed == old(freed)
        && dynamic == 0 && orderFunction == None
        && offset == if old(offset) == SIZE_MAX then DOUBLY_LINKED_NODE_OFFSET else old(offset)
    {
      ghost var s := contents;
      if cleanNodes == 1 {
        var node := head;
        ghost var j := 0;
        while node != null
          invariant j <= |s| && node == if j < |s| then s[j] else null
          invariant forall i :: 0 <= i < j ==>
            if old(s[i].dynamic) == 1 then s[i].freed else s[i].next == null && s[i].prev == null && s[i].data == NULL && s[i].dynamic == 0 && s[i].freed == old(s[i].freed)
          invariant forall i :: j <= i < |s| ==>
            s[i].next == old(s[i].next) && s[i].prev == old(s[i].prev) && s[i].data == old(s[i].data) && s[i].dynamic == old(s[i].dynamic) && s[i].freed == old(s[i].freed)
          invariant forall i :: j <= i < |s| ==> !s[i].freed
          invariant forall i :: 0 <= i < |s| ==> s[i].index == old(s[i].index)
          invariant unchanged(this)
          decreases |s| - j
        {
          var next := node.next;
          DestroyDoublyLinkedNode(node);
          node := next;
          j := j + 1;
        }
      }
      if dynamic == 1 {
        freed := true;
      } else {
        InitializeDoublyLinkedList(0, offset, None);
      }
    }
  }

  /**
   * InitializeDoublyLinkedNode: clears the links of a record, stores its
   * data reference and its ownership flag. A null record is ignored.
   */
  method InitializeDoublyLinkedNode(isDynamic: int, node: Record?, withData: Address)
    requires node != null ==> !node.freed
    modifies node
    ensures node != null ==> node.next == null && node.prev == null && node.data == withData && node.dynamic == isDynamic
    ensures node != null ==> node.index == old(node.index) && node.freed == old(node.freed)
  {
    if node == null {
      return;
    }
    node.next := null;
    node.prev := null;
    node.data := withData;
    node.dynamic := isDynamic;
  }

  /**
   * DestroyDoublyLinkedNode: a heap-owned record (dynamic flag 1) is
   * released; any other record is reset to no links, no data and not
   * heap-owned. A null record is ignored.
   */
  method DestroyDoublyLinkedNode(node: Record?)
    requires node != null ==> !node.freed
    modifies node
    ensures node != null && old(node.dynamic) == 1 ==>
      node.freed && node.next == old(node.next) && node.prev == old(node.prev) && node.data == old(node.data) && node.dynamic == 1
    ensures node != null && old(node.dynamic) != 1 ==>
      node.next == null && node.prev == null && node.data == NULL && node.dynamic == 0 && node.freed == old(node.freed)
    ensures node != null ==> node.index == old(node.index)
  {
    if node == null {
      return;
    } else if node.dynamic == 1 {
      node.freed := true;
    } else {
      InitializeDoublyLinkedNode(0, node, NULL);
    }
  }

  /**
   * CreateDoublyLinkedNode: a new heap-owned record holding `data`, linked
   * to nothing. The record's key is what the list's order function will
   * inspect in it.
   */
  method CreateDoublyLinkedNode(key: int, data: Address) returns (node: Record)
    ensures fresh(node) && !node.freed
    ensures node.key == key && node.data == data && node.dynamic == 1
    ensures node.next == null && node.prev == null
  {
    node := new Record(key, NULL);
    InitializeDoublyLinkedNode(1, node, data);
  }

  /**
   * CreateDoublyLinkedList: a new heap-owned empty list with the given
   * offset (or DoublyLinkedNode's layout for the sentinel) and order
   * function.
   */
  method CreateDoublyLinkedList(offset: Size, order: Option<Comparator>) returns (list: List)
    ensures fresh(list) && list.Valid() && list.contents == [] && !list.freed
    ensures list.dynamic == 1 && list.orderFunction == order
    ensures list.offset == if offset == SIZE_MAX then DOUBLY_LINKED_NODE_OFFSET else offset
  {
    list := new List(1, offset, order);
  }
}
