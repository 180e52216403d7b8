/**
 * The record and ordering model shared by both copies of the list engine
 * (DoubleSeaLib.c and DoublyLinkedList.c).
 *
 * A record is a caller-owned structure that embeds the linkage fields; the
 * byte-offset addressing of ListUtils is abstracted to the fields `next`,
 * `prev` and `data` of a Record object. A list's abstract value is the
 * sequence of its records from head to tail, and `Chain` ties the head, tail
 * and every record's links to that sequence.
 */
module Linkage {
  import opened ListUtils

  datatype Option<T> = None | Some(value: T)

  /**
   * A caller record carrying the linkage of DSL_Node / DoublyLinkedNode:
   * data reference, next and prev links and the dynamic (heap-owned) flag.
   * `index` is the caller's slot-index field that bulk registration stamps,
   * and `key` is what the list's order function inspects in the record.
   */
  class Record {
    var data: Address
    var next: Record?
    var prev: Record?
    var dynamic: int
    var index: nat
    const key: int
    /** Set when the engine releases a heap-owned record. */
    ghost var freed: bool

    /** Caller storage for a record (a static or stack record before any init call). */
    constructor (key: int, data: Address)
      ensures this.key == key && this.data == data
      ensures next == null && prev == null && dynamic == 0 && index == 0 && !freed
    {
      this.key := key;
      this.data := data;
      next, prev, dynamic, index, freed := null, null, 0, 0, false;
    }
  }

  /**
   * An order function: negative when the first record sorts before the
   * second, positive when after, zero on a tie.
   */
  type Comparator = (int, int) -> int

  /**
   * The comparator contract: the sign flips when the arguments are swapped,
   * and "sorts no later than" is transitive. Together these make
   * `cmp(a, b) <= 0` a total preorder on keys.
   */
  ghost predicate IsPreorder(cmp: Comparator)
  {
    && (forall a, b :: cmp(a, b) < 0 <==> cmp(b, a) > 0)
    && (forall a, b, c :: cmp(a, b) <= 0 && cmp(b, c) <= 0 ==> cmp(a, c) <= 0)
  }

  ghost predicate Distinct(s: seq<Record>)
  {
    forall i, j :: 0 <= i < j < |s| ==> s[i] != s[j]
  }

  /**
   * The list invariant: head and tail are the ends of `s` (both null exactly
   * when `s` is empty), the head has no `prev` and the tail no `next`, no
   * record occurs twice, and neighbours in `s` are linked both ways.
   */
  ghost predicate Chain(head: Record?, tail: Record?, s: seq<Record>)
    reads s
  {
    && (|s| == 0 ==> head == null && tail == null)
    && (|s| > 0 ==> head == s[0] && tail == s[|s| - 1] && s[0].prev == null && s[|s| - 1].next == null)
    && Distinct(s)
    && (forall i :: 0 <= i < |s| - 1 ==> s[i].next == s[i + 1] && s[i + 1].prev == s[i])
  }

  /** Records met by following `next` from `r`, at most `fuel` of them. */
  ghost function Walk(r: Record?, fuel: nat): seq<Record>
    reads *
    decreases fuel
  {
    if r == null || fuel == 0 then [] else [r] + Walk(r.next, fuel - 1)
  }

  /**
   * The structural properties of a linked list: emptiness is decided by the
   * ends, the end records have null outer links, following `next` then `prev`
   * (or `prev` then `next`) returns to the start, and the records reachable
   * from the head are exactly the list's records, in order.
   */
  lemma {:induction false} ChainProperties(head: Record?, tail: Record?, s: seq<Record>)
    requires Chain(head, tail, s)
    ensures |s| == 0 <==> head == null
    ensures |s| == 0 <==> tail == null
    ensures head != null ==> head.prev == null
    ensures tail != null ==> tail.next == null
    ensures forall r :: r in s && r.next != null ==> r.next.prev == r
    ensures forall r :: r in s && r.prev != null ==> r.prev.next == r
    ensures Walk(head, |s|) == s
  {
    forall r | r in s && r.next != null
      ensures r.next.prev == r
    {
      var i :| 0 <= i < |s| && s[i] == r;
      assert i < |s| - 1 && s[i].next == s[i + 1];
    }
    forall r | r in s && r.prev != null
      ensures r.prev.next == r
    {
      var i :| 0 <= i < |s| && s[i] == r;
      assert i != 0;
      assert s[i - 1].next == s[(i - 1) + 1] && s[(i - 1) + 1].prev == s[i - 1];
    }
    if |s| > 0 {
      WalkSuffix(head, tail, s, 0);
    }
  }

  lemma {:induction false} WalkSuffix(head: Record?, tail: Record?, s: seq<Record>, i: nat)
    requires Chain(head, tail, s)
    requires i < |s|
    ensures Walk(s[i], |s| - i) == s[i..]
    decreases |s| - i
  {
    if i + 1 < |s| {
      WalkSuffix(head, tail, s, i + 1);
      assert s[i].next == s[i + 1];
      assert s[i..] == [s[i]] + s[i + 1..];
    } else {
      assert Walk(s[i].next, 0) == [];
    }
  }

  /**
   * The links of the record at position `k` of a chain: its neighbours in
   * the sequence, or null at the ends; and it is the head or the tail exactly
   * when it is at position 0 or |s| - 1.
   */
  lemma NeighboursOf(s: seq<Record>, k: nat)
    requires Distinct(s) && k < |s|
    requires forall i :: 0 <= i < |s| - 1 ==> s[i].next == s[i + 1] && s[i + 1].prev == s[i]
    requires s[0].prev == null && s[|s| - 1].next == null
    ensures s[k].next == if k + 1 < |s| then s[k + 1] else null
    ensures s[k].prev == if k > 0 then s[k - 1] else null
    ensures s[k] == s[0] <==> k == 0
    ensures s[k] == s[|s| - 1] <==> k == |s| - 1
  {
    if k > 0 {
      assert s[k - 1].next == s[(k - 1) + 1] && s[(k - 1) + 1].prev == s[k - 1];
    }
  }


  /**
   * Removing element `k` keeps a doubly linked sequence linked when the
   * links around the gap have been redirected across it.
   */
  lemma RemoveAtLinked(s: seq<Record>, k: nat)
    requires k < |s|
    requires forall i :: 0 <= i < |s| - 1 && i != k && i + 1 != k ==> s[i].next == s[i + 1] && s[i + 1].prev == s[i]
    requires 0 < k < |s| - 1 ==> s[k - 1].next == s[k + 1] && s[k + 1].prev == s[k - 1]
    ensures forall i :: 0 <= i < |s| - 2 ==> RemoveAt(s, k)[i].next == RemoveAt(s, k)[i + 1] && RemoveAt(s, k)[i + 1].prev == RemoveAt(s, k)[i]
  {
    var t := RemoveAt(s, k);
    forall i | 0 <= i < |t| - 1
      ensures t[i].next == t[i + 1] && t[i + 1].prev == t[i]
    {
      if i + 1 < k {
        assert t[i] == s[i] && t[i + 1] == s[i + 1];
      } else if i + 1 == k {
        assert t[i] == s[k - 1] && t[i + 1] == s[k + 1];
      } else {
        assert t[i] == s[i + 1] && t[i + 1] == s[i + 2];
      }
    }
  }

  /** Position of `r` in `s`. */
  function IndexOf(s: seq<Record>, r: Record): (i: nat)
    requires r in s
    ensures i < |s| && s[i] == r
    ensures forall j :: 0 <= j < i ==> s[j] != r
  {
    if s[0] == r then 0 else 1 + IndexOf(s[1..], r)
  }

  /** Every pair of records appears in the order `cmp` prescribes. */
  ghost predicate Sorted(s: seq<Record>, cmp: Comparator)
  {
    forall i, j :: 0 <= i < j < |s| ==> cmp(s[i].key, s[j].key) <= 0
  }

  /**
   * Position of the first record that a record with key `k` sorts strictly
   * before, or |s| when there is none: the place of a stable ordered insert.
   */
  function FirstGreater(s: seq<Record>, k: int, cmp: Comparator): (p: nat)
    ensures p <= |s|
    ensures forall i :: 0 <= i < p ==> cmp(k, s[i].key) >= 0
    ensures p < |s| ==> cmp(k, s[p].key) < 0
  {
    if |s| == 0 || cmp(k, s[0].key) < 0 then 0 else 1 + FirstGreater(s[1..], k, cmp)
  }

  /** The two properties of FirstGreater determine it. */
  lemma FirstGreaterUnique(s: seq<Record>, k: int, cmp: Comparator, j: nat)
    requires j <= |s|
    requires forall i :: 0 <= i < j ==> cmp(k, s[i].key) >= 0
    requires j < |s| ==> cmp(k, s[j].key) < 0
    ensures FirstGreater(s, k, cmp) == j
  {
  }

  /** `s` with `r` inserted so that it becomes element `p`. */
  function InsertAt(s: seq<Record>, p: nat, r: Record): (t: seq<Record>)
    requires p <= |s|
    ensures |t| == |s| + 1 && t[p] == r
    ensures forall i {:trigger t[i]} :: 0 <= i < p ==> t[i] == s[i]
    ensures forall i {:trigger t[i]} :: p < i <= |s| ==> t[i] == s[i - 1]
  {
    if p == 0 then [r] + s else [s[0]] + InsertAt(s[1..], p - 1, r)
  }

  /** `s` without its element `k`. */
  function RemoveAt(s: seq<Record>, k: nat): (t: seq<Record>)
    requires k < |s|
    ensures |t| == |s| - 1
    ensures forall i {:trigger t[i]} :: 0 <= i < k ==> t[i] == s[i]
    ensures forall i {:trigger t[i]} :: k <= i < |t| ==> t[i] == s[i + 1]
  {
    s[..k] + s[k + 1..]
  }

  /** Removing the element just inserted gives the list back, and vice versa. */
  lemma InsertRemoveInverse(s: seq<Record>, p: nat, r: Record)
    requires p <= |s|
    ensures RemoveAt(InsertAt(s, p, r), p) == s
    ensures p < |s| ==> InsertAt(RemoveAt(s, p), p, s[p]) == s
  {
    var t := RemoveAt(InsertAt(s, p, r), p);
    assert forall i :: 0 <= i < |s| ==> t[i] == s[i];
    if p < |s| {
      var u := InsertAt(RemoveAt(s, p), p, s[p]);
      assert forall i :: 0 <= i < |s| ==> u[i] == s[i];
    }
  }

  /**
   * A record inserted into a list it was not in is found at the position it
   * was inserted at, so removing it by identity (as RemoveNode does)
   * restores the list.
   */
  lemma InsertThenRemove(s: seq<Record>, p: nat, r: Record)
    requires p <= |s| && r !in s
    ensures r in InsertAt(s, p, r) && IndexOf(InsertAt(s, p, r), r) == p
    ensures RemoveAt(InsertAt(s, p, r), IndexOf(InsertAt(s, p, r), r)) == s
  {
    InsertRemoveInverse(s, p, r);
  }

  /** Inserting at either end is prepending or appending. */
  lemma InsertAtEnds(s: seq<Record>, r: Record)
    ensures InsertAt(s, 0, r) == [r] + s
    ensures InsertAt(s, |s|, r) == s + [r]
  {
    assert forall i :: 0 <= i < |s| ==> InsertAt(s, |s|, r)[i] == (s + [r])[i];
  }

  /**
   * Where DSL_InsertNode puts a record with key `k`: at the tail when there
   * is no order function or the record sorts after the tail, at the head when
   * it sorts before the head, otherwise before the first record it sorts
   * strictly before (at the tail when the scan finds none).
   */
  function TailFirstPosition(s: seq<Record>, k: int, order: Option<Comparator>): (p: nat)
    ensures p <= |s|
  {
    if |s| == 0 || order.None? then |s|
    else if order.value(k, s[|s| - 1].key) > 0 then |s|
    else if order.value(k, s[0].key) < 0 then 0
    else FirstGreater(s, k, order.value)
  }

  /**
   * Where InsertNode of DoublyLinkedList.c puts a record with key `k`: the
   * same cases, but the head is tested before the tail.
   */
  function HeadFirstPosition(s: seq<Record>, k: int, order: Option<Comparator>): (p: nat)
    ensures p <= |s|
  {
    if |s| == 0 || order.None? then |s|
    else if order.value(k, s[0].key) < 0 then 0
    else if order.value(k, s[|s| - 1].key) > 0 then |s|
    else FirstGreater(s, k, order.value)
  }

  /**
   * On a list sorted by a comparator that meets its contract, the two test
   * orders agree, and both choose the stable position: after every record
   * that does not sort after the new one.
   */
  lemma InsertPositionsAgree(s: seq<Record>, k: int, cmp: Comparator)
    requires IsPreorder(cmp)
    requires Sorted(s, cmp)
    ensures TailFirstPosition(s, k, Some(cmp)) == FirstGreater(s, k, cmp)
    ensures HeadFirstPosition(s, k, Some(cmp)) == FirstGreater(s, k, cmp)
  {
    if |s| > 0 {
      var last := |s| - 1;
      if cmp(k, s[last].key) > 0 {
        forall i | 0 <= i < |s|
          ensures cmp(k, s[i].key) >= 0
        {
          if i < last {
            WeakThenStrict(cmp, s[i].key, s[last].key, k);
          }
        }
        FirstGreaterUnique(s, k, cmp, |s|);
        assert TailFirstPosition(s, k, Some(cmp)) == |s|;
        assert HeadFirstPosition(s, k, Some(cmp)) == |s|;
      } else if cmp(k, s[0].key) < 0 {
        FirstGreaterUnique(s, k, cmp, 0);
        assert TailFirstPosition(s, k, Some(cmp)) == 0;
        assert HeadFirstPosition(s, k, Some(cmp)) == 0;
      }
    }
  }

  /**
   * The two test orders disagree exactly when the new record sorts before
   * the head and after the tail at once, which no list sorted by a
   * comparator that meets its contract allows.
   */
  lemma InsertPositionsDiffer(s: seq<Record>, k: int, cmp: Comparator)
    ensures TailFirstPosition(s, k, Some(cmp)) != HeadFirstPosition(s, k, Some(cmp))
      <==> |s| > 0 && cmp(k, s[0].key) < 0 && cmp(k, s[|s| - 1].key) > 0
    ensures |s| > 0 && cmp(k, s[0].key) < 0 && cmp(k, s[|s| - 1].key) > 0 ==>
      TailFirstPosition(s, k, Some(cmp)) == |s| && HeadFirstPosition(s, k, Some(cmp)) == 0
  {
  }

  /**
   * A record that does not sort before the tail of a sorted list is
   * appended by either test order; inserting records in ascending order
   * therefore only ever moves the tail.
   */
  lemma NotBeforeTailAppends(s: seq<Record>, k: int, cmp: Comparator)
    requires IsPreorder(cmp)
    requires Sorted(s, cmp)
    requires |s| > 0 && cmp(s[|s| - 1].key, k) <= 0
    ensures TailFirstPosition(s, k, Some(cmp)) == |s|
    ensures HeadFirstPosition(s, k, Some(cmp)) == |s|
  {
    var last := |s| - 1;
    forall i | 0 <= i < |s|
      ensures cmp(k, s[i].key) >= 0
    {
      if i < last {
        assert cmp(s[i].key, s[last].key) <= 0;
      }
    }
    FirstGreaterUnique(s, k, cmp, |s|);
    InsertPositionsAgree(s, k, cmp);
  }

  /** The comparator of the repository's tests, the difference of two numbers, meets the contract on unbounded integers. */
  lemma DifferenceIsPreorder()
    ensures IsPreorder((a: int, b: int) => a - b)
  {
  }

  /**
   * Inserting at the stable position keeps a sorted list sorted: the new
   * record sorts strictly before every record behind it and no earlier than
   * every record in front of it, so it lands after all records equal to it.
   */
  lemma SortedInsert(s: seq<Record>, r: Record, cmp: Comparator)
    requires IsPreorder(cmp)
    requires Sorted(s, cmp)
    ensures var p := FirstGreater(s, r.key, cmp);
      && (forall i :: p <= i < |s| ==> cmp(r.key, s[i].key) < 0)
      && (forall i :: 0 <= i < |s| && cmp(r.key, s[i].key) == 0 ==> i < p)
      && Sorted(InsertAt(s, p, r), cmp)
  {
    var p := FirstGreater(s, r.key, cmp);
    FirstGreaterSuffix(s, r.key, cmp);
    var t := InsertAt(s, p, r);
    forall i, j | 0 <= i < j < |t|
      ensures cmp(t[i].key, t[j].key) <= 0
    {
      SortedInsertPair(s, r, cmp, p, i, j);
    }
  }

  /** On a sorted list, the key sorts strictly before every record from FirstGreater on. */
  lemma FirstGreaterSuffix(s: seq<Record>, k: int, cmp: Comparator)
    requires IsPreorder(cmp)
    requires Sorted(s, cmp)
    ensures forall i :: FirstGreater(s, k, cmp) <= i < |s| ==> cmp(k, s[i].key) < 0
  {
    var p := FirstGreater(s, k, cmp);
    forall i | p <= i < |s|
      ensures cmp(k, s[i].key) < 0
    {
      if i > p {
        StrictThenWeak(cmp, k, s[p].key, s[i].key);
      }
    }
  }

  /** When `a` sorts no later than `b` and `c` sorts strictly after `b`, `c` does not sort before `a`. */
  lemma WeakThenStrict(cmp: Comparator, a: int, b: int, c: int)
    requires IsPreorder(cmp)
    requires cmp(a, b) <= 0 && cmp(c, b) > 0
    ensures cmp(c, a) >= 0
  {
  }

  /** Sorting strictly before `b` and `b` sorting no later than `c` put `a` strictly before `c`. */
  lemma StrictThenWeak(cmp: Comparator, a: int, b: int, c: int)
    requires IsPreorder(cmp)
    requires cmp(a, b) < 0 && cmp(b, c) <= 0
    ensures cmp(a, c) < 0
  {
  }

  lemma SortedInsertPair(s: seq<Record>, r: Record, cmp: Comparator, p: nat, i: nat, j: nat)
    requires Sorted(s, cmp)
    requires p <= |s|
    requires forall i :: 0 <= i < p ==> cmp(r.key, s[i].key) >= 0
    requires forall i :: p <= i < |s| ==> cmp(r.key, s[i].key) < 0
    requires forall a, b :: cmp(a, b) < 0 <==> cmp(b, a) > 0
    requires i < j <= |s|
    ensures cmp(InsertAt(s, p, r)[i].key, InsertAt(s, p, r)[j].key) <= 0
  {
    var t := InsertAt(s, p, r);
    if j == p {
      assert cmp(r.key, s[i].key) >= 0;
    } else if i == p {
      assert cmp(r.key, s[j - 1].key) < 0;
    } else {
      var i' := if i < p then i else i - 1;
      var j' := if j < p then j else j - 1;
      assert t[i] == s[i'] && t[j] == s[j'];
      assert i' < j';
    }
  }

  /** Inserting adds exactly the new record to the list's records. */
  lemma {:induction false} InsertAtMultiset(s: seq<Record>, p: nat, r: Record)
    requires p <= |s|
    ensures multiset(InsertAt(s, p, r)) == multiset(s) + multiset{r}
    decreases p
  {
    if p > 0 {
      InsertAtMultiset(s[1..], p - 1, r);
      assert s == [s[0]] + s[1..];
    }
  }

  /** A record is in the list after an insertion exactly when it was before or is the new one. */
  lemma InsertAtMembers(s: seq<Record>, p: nat, r: Record)
    requires p <= |s|
    ensures forall x :: x in InsertAt(s, p, r) <==> x in s || x == r
  {
    InsertAtMultiset(s, p, r);
    forall x
      ensures x in InsertAt(s, p, r) <==> x in s || x == r
    {
      assert x in InsertAt(s, p, r) <==> x in multiset(InsertAt(s, p, r));
      assert x in s <==> x in multiset(s);
    }
  }

  /**
   * The records `xs` inserted one after another, first to last, each at the
   * place TailFirstPosition gives for the list built so far.
   */
  function InsertEach(s: seq<Record>, xs: seq<Record>, order: Option<Comparator>): (t: seq<Record>)
    ensures |t| == |s| + |xs|
    decreases |xs|
  {
    if |xs| == 0 then s
    else
      var u := InsertEach(s, xs[..|xs| - 1], order);
      InsertAt(u, TailFirstPosition(u, xs[|xs| - 1].key, order), xs[|xs| - 1])
  }

  /** Bulk insertion of one more record of `xs` is one more insertion. */
  lemma InsertEachStep(s: seq<Record>, xs: seq<Record>, i: nat, order: Option<Comparator>)
    requires i < |xs|
    ensures var u := InsertEach(s, xs[..i], order);
      InsertEach(s, xs[..i + 1], order) == InsertAt(u, TailFirstPosition(u, xs[i].key, order), xs[i])
  {
    assert xs[..i + 1][..i] == xs[..i];
  }

  /** Without an order function the records are appended in array order. */
  lemma {:induction false} InsertEachUnordered(s: seq<Record>, xs: seq<Record>)
    ensures InsertEach(s, xs, None) == s + xs
    decreases |xs|
  {
    if |xs| > 0 {
      var init := xs[..|xs| - 1];
      InsertEachUnordered(s, init);
      InsertAtEnds(s + init, xs[|xs| - 1]);
      assert init + [xs[|xs| - 1]] == xs;
    }
  }

  /** Bulk insertion keeps exactly the given records, each once. */
  lemma {:induction false} InsertEachMultiset(s: seq<Record>, xs: seq<Record>, order: Option<Comparator>)
    ensures multiset(InsertEach(s, xs, order)) == multiset(s) + multiset(xs)
    decreases |xs|
  {
    if |xs| > 0 {
      var init, last := xs[..|xs| - 1], xs[|xs| - 1];
      var u := InsertEach(s, init, order);
      calc {
        multiset(InsertEach(s, xs, order));
        { InsertAtMultiset(u, TailFirstPosition(u, last.key, order), last); }
        multiset(u) + multiset{last};
        { InsertEachMultiset(s, init, order); }
        multiset(s) + multiset(init) + multiset{last};
        { assert xs == init + [last]; }
        multiset(s) + multiset(xs);
      }
    }
  }

  /** After bulk insertion the list holds the records it held and the inserted ones. */
  lemma InsertEachMembers(s: seq<Record>, xs: seq<Record>, order: Option<Comparator>)
    ensures forall r :: r in InsertEach(s, xs, order) <==> r in s || r in xs
  {
    InsertEachMultiset(s, xs, order);
    forall r
      ensures r in InsertEach(s, xs, order) <==> r in s || r in xs
    {
      assert r in InsertEach(s, xs, order) <==> r in multiset(InsertEach(s, xs, order));
      assert r in s <==> r in multiset(s);
      assert r in xs <==> r in multiset(xs);
    }
  }

  /**
   * With a comparator that meets its contract, bulk insertion into a sorted
   * list (an empty one in particular) yields a sorted list.
   */
  lemma {:induction false} InsertEachSorted(s: seq<Record>, xs: seq<Record>, cmp: Comparator)
    requires IsPreorder(cmp)
    requires Sorted(s, cmp)
    ensures Sorted(InsertEach(s, xs, Some(cmp)), cmp)
    decreases |xs|
  {
    if |xs| > 0 {
      var u := InsertEach(s, xs[..|xs| - 1], Some(cmp));
      InsertEachSorted(s, xs[..|xs| - 1], cmp);
      InsertPositionsAgree(u, xs[|xs| - 1].key, cmp);
      SortedInsert(u, xs[|xs| - 1], cmp);
    }
  }
}
