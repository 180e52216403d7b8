/**
 * Slot addressing of an intrusive record.
 *
 * A record that takes part in a list keeps three pointer-sized fields at a
 * fixed byte offset from its own start: the data reference, then `next`,
 * then `prev`. The list only knows the offset of `next`; the other two slots
 * are one pointer width before and after it. These functions are the address
 * computations of ListUtils.c (DoubleSeaLib.c repeats them with a leading
 * underscore); they never read memory.
 */
module ListUtils {

  /** sizeof(void *), fixed here at 8 bytes: the model assumes a 64-bit target. */
  const POINTER_SIZE: nat := 8

  /** Number of distinct 64-bit addresses. */
  const ADDRESS_SPACE: nat := 0x1_0000_0000_0000_0000

  /** A machine address; 0 is the null pointer. */
  type Address = a: int | 0 <= a < ADDRESS_SPACE

  /** A size_t value. */
  type Size = n: int | 0 <= n < ADDRESS_SPACE

  const NULL: Address := 0

  /** (size_t)-1, the value a caller passes to ask for the default offset. */
  const SIZE_MAX: Size := ADDRESS_SPACE - 1

  /** `(char *)p + delta`: byte arithmetic on a 64-bit address, which wraps. */
  function Advance(p: Address, delta: int): (r: Address)
    ensures 0 <= p + delta < ADDRESS_SPACE ==> r == p + delta
    ensures (r - p - delta) % ADDRESS_SPACE == 0
  {
    (p + delta) % ADDRESS_SPACE
  }

  /** Address of the record's `next` slot. */
  function GetNextPointer(p: Address, offset: Size): (r: Address)
    ensures p + offset < ADDRESS_SPACE ==> r == p + offset
  {
    Advance(p, offset)
  }

  /** Address of the record's `prev` slot: one pointer after `next`. */
  function GetPrevPointer(p: Address, offset: Size): (r: Address)
    ensures r == Advance(GetNextPointer(p, offset), POINTER_SIZE)
  {
    Advance(p, offset + POINTER_SIZE)
  }

  /** Address of the record's data slot: one pointer before `next`. */
  function GetDataPointer(p: Address, offset: Size): (r: Address)
    ensures Advance(r, POINTER_SIZE) == GetNextPointer(p, offset)
  {
    Advance(p, offset - POINTER_SIZE)
  }

  /**
   * When the record's slots lie inside the address space and the offset
   * leaves room for the data slot, the three slots are distinct and sit one
   * pointer width apart, in the order data, next, prev.
   */
  lemma SlotsAreAdjacent(p: Address, offset: Size)
    requires POINTER_SIZE <= offset
    requires p + offset + POINTER_SIZE < ADDRESS_SPACE
    ensures GetDataPointer(p, offset) < GetNextPointer(p, offset) < GetPrevPointer(p, offset)
    ensures GetNextPointer(p, offset) - GetDataPointer(p, offset) == POINTER_SIZE
    ensures GetPrevPointer(p, offset) - GetNextPointer(p, offset) == POINTER_SIZE
  {
  }

  /**
   * The data slot of a null record is itself null exactly when the offset is
   * one pointer width, the layout of the library's own node type. This is
   * what makes the `pNodeData != NULL` guards of DSL_FindNode reject an
   * empty head or tail; under any other offset the guard passes and the null
   * record is dereferenced.
   */
  lemma NullRecordDataSlot(offset: Size)
    ensures GetDataPointer(NULL, offset) == NULL <==> offset == POINTER_SIZE
  {
  }
}
