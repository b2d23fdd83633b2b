/**
 * The growable array of opaque element handles (array_header_t and the
 * container operations of array.c). A handle is any value of T; a slot is
 * Some(handle), or None where the C buffer holds NULL (calloc'd or never
 * written). Handles may themselves be None: C lets a caller add NULL.
 */
module DynArrays {
  import opened Wrappers
  import opened Align

  /** What array_element as written can return: a slot's content, or a read beyond the buffer. */
  datatype Access<T> = Slot(handle: Option<T>) | PastBuffer

  /** memcpy of n handles from the front of src into dst, starting at slot at. */
  method CopyHandles<T>(dst: array<Option<T>>, at: nat, src: array<Option<T>>, n: nat)
    requires dst != src
    requires n <= src.Length && at + n <= dst.Length
    modifies dst
    ensures forall i :: 0 <= i < dst.Length ==>
              dst[i] == if at <= i < at + n then src[i - at] else old(dst[i])
  {
    var i := 0;
    while i < n
      invariant i <= n
      invariant forall j :: 0 <= j < dst.Length ==>
                  dst[j] == if at <= j < at + i then src[j - at] else old(dst[j])
    {
      dst[at + i] := src[i];
      i := i + 1;
    }
  }

  /**
   * realloc of a handle buffer to size slots: fresh storage that keeps the
   * first min(size, buffer.Length) slots. Slots beyond the old length are
   * indeterminate (section 7.22.3.5 of ISO C11), so the contract says nothing
   * about them; the body happens to fill them with NULL.
   */
  method Reallocate<T>(buffer: array<Option<T>>, size: nat) returns (grown: array<Option<T>>)
    ensures fresh(grown) && grown.Length == size
    ensures forall i :: 0 <= i < size && i < buffer.Length ==> grown[i] == buffer[i]
  {
    grown := new Option<T>[size](_ => None);
    var keep := if size < buffer.Length then size else buffer.Length;
    CopyHandles(grown, 0, buffer, keep);
  }

  class DynArray<T(==)> {
    var capacity: nat
    var count: nat
    var data: array<Option<T>>

    /** The header invariant every constructor and mutator keeps. */
    ghost predicate Valid()
      reads this
    {
      1 <= capacity && IsPowerOfTwo(capacity) && count <= capacity && capacity == data.Length
    }

    /** The stored handles: the occupied prefix of the buffer, in insertion order. */
    ghost function Contents(): seq<Option<T>>
      reads this, data
      requires Valid()
    {
      data[..count]
    }

    /** array_new: an empty array with a zeroed buffer of power-of-two size. */
    constructor New(elements: nat)
      ensures Valid() && fresh(data)
      ensures Contents() == []
      ensures capacity == CeilPow2(elements)
      ensures forall i :: 0 <= i < data.Length ==> data[i] == None
    {
      var aligned := AlignCeiling(elements);
      capacity := aligned;
      count := 0;
      data := new Option<T>[aligned](_ => None);
    }

    /** array_copy: own storage, same header, the same handles in every slot. */
    constructor Copy(source: DynArray<T>)
      requires source.Valid()
      ensures Valid() && fresh(data)
      ensures capacity == source.capacity && count == source.count
      ensures data[..] == source.data[..]
      ensures Contents() == source.Contents()
    {
      var buffer := new Option<T>[source.capacity](_ => None);
      CopyHandles(buffer, 0, source.data, source.capacity);
      capacity := source.capacity;
      count := source.count;
      data := buffer;
      assert buffer[..] == source.data[..];
    }

    /** array_count. */
    function Count(): (n: nat)
      reads this, data
      requires Valid()
      ensures n == |Contents()|
    {
      count
    }

    /** array_is_empty. */
    function IsEmpty(): (empty: bool)
      reads this, data
      requires Valid()
      ensures empty <==> Contents() == []
    {
      count == 0
    }

    /** array_is_full: no free slot is left, so the next Add reallocates. */
    function IsFull(): (full: bool)
      reads this, data
      requires Valid()
      ensures full <==> |Contents()| == data.Length
    {
      capacity == count
    }

    /**
     * array_element with the bound it evidently intends: the handle at index,
     * or NULL for every index outside the occupied range (index >= count).
     */
    function Element(index: nat): (h: Option<T>)
      reads this, data
      requires Valid()
      ensures index < |Contents()| ==> h == Contents()[index]
      ensures |Contents()| <= index ==> h == None
    {
      if index < count then data[index] else None
    }

    /**
     * array_element as written: the guard is `index > count`, so index ==
     * count reaches the slot read. That slot is not part of Contents(), and
     * on a full array it lies beyond the buffer (PastBuffer).
     */
    function ElementAsWritten(index: nat): (r: Access<T>)
      reads this, data
      requires Valid()
      ensures index > |Contents()| ==> r == Slot(None)
      ensures index < |Contents()| ==> r == Slot(Contents()[index])
      ensures index == |Contents()| ==> (r == PastBuffer <==> IsFull())
    {
      if index > count then Slot(None)
      else if index < data.Length then Slot(data[index])
      else PastBuffer
    }

    /** array_add: double the buffer when full, then store the handle at index count. */
    method Add(element: Option<T>)
      requires Valid()
      modifies this, data
      ensures Valid()
      ensures Contents() == old(Contents()) + [element]
      ensures old(IsFull()) ==> capacity == 2 * old(capacity) && fresh(data)
      ensures !old(IsFull()) ==> capacity == old(capacity) && data == old(data)
    {
      if IsFull() {
        var newCapacity := capacity * 2;
        data := Reallocate(data, newCapacity);
        capacity := newCapacity;
      }
      data[count] := element;
      count := count + 1;
    }

    /**
     * array_append_elements: resize the buffer once, to the power-of-two
     * ceiling of the new count (possibly smaller than before), then copy the
     * handles of toAdd behind the existing ones. toAdd may be this array.
     */
    method AppendElements(toAdd: DynArray<T>)
      requires Valid() && toAdd.Valid()
      modifies this
      ensures Valid() && fresh(data)
      ensures Contents() == old(Contents()) + old(toAdd.Contents())
      ensures capacity == CeilPow2(old(count) + old(toAdd.count))
      ensures toAdd != this ==> toAdd.Valid() && toAdd.Contents() == old(toAdd.Contents())
    {
      var source, added := toAdd.data, toAdd.count;
      var newCount := count + added;
      var newCapacity := AlignCeiling(newCount);
      var buffer := Reallocate(data, newCapacity);
      CopyHandles(buffer, count, source, added);
      data, capacity, count := buffer, newCapacity, newCount;
      assert Contents() == old(Contents()) + old(toAdd.Contents());
    }

    /**
     * array_join: a fresh array sized to the power-of-two ceiling of the
     * combined count, holding first's handles and then second's.
     */
    static method Join(first: DynArray<T>, second: DynArray<T>) returns (items: DynArray<T>)
      requires first.Valid() && second.Valid()
      ensures fresh(items) && fresh(items.data) && items.Valid()
      ensures items.Contents() == first.Contents() + second.Contents()
      ensures items.capacity == CeilPow2(first.count + second.count)
    {
      items := new DynArray.New(first.count + second.count);
      CopyHandles(items.data, 0, first.data, first.count);
      CopyHandles(items.data, first.count, second.data, second.count);
      items.count := first.count + second.count;
      assert items.Contents() == first.Contents() + second.Contents();
    }

    /** array_contains_element: identity search over the occupied slots. */
    method ContainsElement(element: Option<T>) returns (found: bool)
      requires Valid()
      ensures found <==> element in Contents()
    {
      var index := 0;
      while index < count
        invariant index <= count
        invariant element !in data[..index]
      {
        if data[index] == element {
          return true;
        }
        index := index + 1;
      }
      return false;
    }

    /** array_contains_any_element: the two occupied prefixes share a handle. */
    method ContainsAnyElement(elements: DynArray<T>) returns (found: bool)
      requires Valid() && elements.Valid()
      ensures found <==> Shares(Contents(), elements.Contents())
    {
      var index := 0;
      while index < count
        invariant index <= count
        invariant !Shares(data[..index], elements.Contents())
      {
        var other := 0;
        while other < elements.count
          invariant other <= elements.count
          invariant data[index] !in elements.data[..other]
        {
          if data[index] == elements.data[other] {
            assert data[..count][index] == elements.Contents()[other];
            return true;
          }
          other := other + 1;
        }
        assert data[..index + 1] == data[..index] + [data[index]];
        index := index + 1;
      }
      return false;
    }
  }

  /**
   * The capacity once repeated array_add calls have brought the count to n,
   * starting from capacity c: it doubles each time an add finds the array
   * full, and otherwise stays.
   */
  function Grown(c: nat, n: nat): nat
    requires 1 <= c
    decreases n - c
  {
    if n <= c then c else Grown(2 * c, n)
  }

  /** Growing a power of two by doublings gives a power of two. */
  lemma {:induction false} GrownPowerOfTwo(c: nat, n: nat)
    requires 1 <= c && IsPowerOfTwo(c)
    ensures IsPowerOfTwo(Grown(c, n))
    decreases n - c
  {
    if n > c {
      assert IsPowerOfTwo(2 * c) by { assert (2 * c) / 2 == c; }
      GrownPowerOfTwo(2 * c, n);
    }
  }

  /**
   * One add moves the count from k to k + 1: the grown capacity stays while
   * k is below it and doubles when k has reached it, as Add does.
   */
  lemma {:induction false} GrownStep(c: nat, k: nat)
    requires 1 <= c
    ensures k < Grown(c, k) ==> Grown(c, k + 1) == Grown(c, k)
    ensures k == Grown(c, k) ==> Grown(c, k + 1) == 2 * Grown(c, k)
    decreases k - c
  {
    if k > c {
      GrownStep(2 * c, k);
    }
  }

  /**
   * The grown capacity after one more add, from the count k and capacity c
   * before it and the capacity after: Add's doubling rule keeps Grown.
   */
  lemma GrownAfterAdd(initial: nat, k: nat, c: nat, next: nat)
    requires 1 <= initial && c == Grown(initial, k) && k <= c
    requires next == if k == c then 2 * c else c
    ensures next == Grown(initial, k + 1)
  {
    GrownStep(initial, k);
  }

  /** Some handle occurs in both sequences. */
  predicate Shares<T(==)>(s: seq<T>, t: seq<T>)
  {
    exists i, j :: 0 <= i < |s| && 0 <= j < |t| && s[i] == t[j]
  }
}
