/** The array stack of pointers that the buffer pools keep their free buffers on. */
module StackArray {
  type Pointer = nat // zero is the null pointer

  class Stack {
    var elements: array<Pointer>
    var index: nat
    var count: nat

    ghost predicate Valid()
      reads this, elements
    {
      0 < count == elements.Length && index <= count
    }

    ghost function Contents(): (s: seq<Pointer>)
      reads this, elements
      requires Valid()
    {
      elements[..index]
    }

    constructor (initialCount: nat)
      requires initialCount > 0
      ensures Valid() && fresh(elements) && Contents() == [] && count == initialCount
    {
      elements := new Pointer[initialCount];
      index, count := 0, initialCount;
    }

    /** Construction fails exactly for an empty stack. */
    static method Construct(initialCount: nat) returns (r: Stack?)
      ensures r == null <==> initialCount == 0
      ensures r != null ==> fresh(r) && fresh(r.elements) && r.Valid() && r.Contents() == [] && r.count == initialCount
    {
      if initialCount == 0 {
        return null;
      }
      r := new Stack(initialCount);
    }

    /** Copies the elements to storage of twice the size; what lies beyond them is unspecified. */
    method Resize()
      requires 0 < count == elements.Length
      modifies this`elements, this`count
      ensures fresh(elements) && count == 2 * old(count) == elements.Length
      ensures elements[..old(count)] == old(elements[..])
    {
      var resized := new Pointer[2 * count];
      forall i | 0 <= i < count {
        resized[i] := elements[i];
      }
      elements, count := resized, 2 * count;
    }

    /**
      * A push takes an index before it looks at the capacity, and takes another one after growing: it
      * appends exactly its element if and only if there was room.
      */
    method Push(pointer: Pointer)
      requires Valid()
      modifies this, elements
      ensures Valid() && (elements == old(elements) || fresh(elements))
      ensures pointer == 0 ==> Contents() == old(Contents()) && count == old(count)
      ensures pointer != 0 ==>
                && old(Contents()) < Contents() && Contents()[|Contents()| - 1] == pointer
                && (Contents() == old(Contents()) + [pointer] <==> old(index < count))
                && (old(index < count) ==> count == old(count) && elements == old(elements))
                && |Contents()| == old(index) + if old(index < count) then 1 else if old(count) == 1 then 3 else 2
    {
      if pointer == 0 {
        return;
      }
      ghost var before := Contents();
      var taken := index;
      index := index + 1;
      while taken >= count
        invariant 0 < count == elements.Length && index == taken + 1 && |before| <= taken <= count
        invariant elements == old(elements) || fresh(elements)
        invariant elements[..|before|] == before
        invariant taken == old(index) ==> count == old(count) && elements == old(elements)
        invariant old(index < count) ==> taken == old(index)
        invariant taken == old(index) || (taken == old(index) + 1 && count == 2 * old(count)) ||
                  (old(count) == 1 && taken == old(index) + 2 && count == 4)
        decreases if taken == count == 1 then 2 else if taken >= count then 1 else 0
      {
        Resize();
        taken := index;
        index := index + 1;
      }
      elements[taken] := pointer;
    }

    /** Removes and returns the last element, or null when there is none. */
    method Pop() returns (pointer: Pointer)
      requires Valid()
      modifies this`index
      ensures Valid()
      ensures old(Contents()) == [] ==> pointer == 0 && Contents() == []
      ensures old(Contents()) != [] ==>
                old(Contents()) == Contents() + [pointer]
    {
      if index == 0 {
        return 0;
      }
      index := index - 1;
      pointer := elements[index];
    }
  }
}
