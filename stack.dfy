/** kernel/stack.c: a bounded stack of (x, y) elements over an element array, with a
    count of the elements in use and `top`, the last usable index. */
module KStack {
  import opened CTypes

  /** struct element */
  datatype Element = Element(x: I32, y: I32)

  /** struct stack. The header's `size` field is never read or written by stack.c. */
  class Stack {
    var elements: array<Element>
    var top: int
    var count: int

    /** What create establishes and push and pop keep: `top` is the last index of the
        element array and count lies between 0 and the capacity. */
    ghost predicate Valid()
      reads this
    {
      top == elements.Length - 1 && 0 <= count <= elements.Length
    }

    /** The elements on the stack, bottom first. */
    ghost function Contents(): seq<Element>
      reads this, elements
      requires Valid()
    {
      elements[..count]
    }

    ghost function Capacity(): nat
      reads this
    {
      elements.Length
    }

    /** A `struct stack` before create: an empty element array. */
    constructor ()
      ensures Valid() && Contents() == [] && Capacity() == 0
    {
      elements := new Element[0];
      top := -1;
      count := 0;
    }

    /** create: 0 and nothing changed for a negative size; otherwise a fresh element array
        of that many slots, top = size - 1, count = 0, and 1. */
    method Create(n: I32) returns (r: int)
      modifies this
      ensures n < 0 ==> r == 0 && elements == old(elements) && top == old(top) && count == old(count)
      ensures n >= 0 ==> r == 1 && fresh(elements) && Valid() && Contents() == [] && Capacity() == n
    {
      if n < 0 {
        return 0;
      }
      elements := new Element[n];
      top := n - 1;
      count := 0;
      return 1;
    }

    /** is_empty: 1 exactly when there are no elements, else 0. */
    function IsEmpty(): (r: int)
      reads this, elements
      requires Valid()
      ensures r == 1 <==> Contents() == []
      ensures r == 0 || r == 1
    {
      if count == 0 then 1 else 0
    }

    /** is_full: 1 exactly when count has passed top, that is when every slot is used. */
    function IsFull(): (r: int)
      reads this, elements
      requires Valid()
      ensures r == 1 <==> |Contents()| == Capacity()
      ensures r == 0 || r == 1
    {
      if count > top then 1 else 0
    }

    /** count: the number of elements on the stack. */
    function Count(): (r: int)
      reads this, elements
      requires Valid()
      ensures r == |Contents()|
    {
      count
    }
  }

  /** push: -1 for NULL, -2 (and nothing changed) when full, otherwise store the element
      at index count, increment count and return 1. */
  method Push(p: Stack?, e: Element) returns (r: int)
    requires p != null ==> p.Valid()
    modifies if p != null then {p, p.elements} else {}
    ensures p == null ==> r == -1
    ensures p != null ==> p.Valid() && p.elements == old(p.elements)
    ensures p != null && old(|p.Contents()|) == p.Capacity() ==>
      r == -2 && p.Contents() == old(p.Contents()) && p.elements[..] == old(p.elements[..])
    ensures p != null && old(|p.Contents()|) < p.Capacity() ==>
      r == 1 && p.Contents() == old(p.Contents()) + [e]
  {
    if p == null {
      return -1;
    }
    if p.IsFull() == 1 {
      return -2;
    }
    p.elements[p.count] := e;
    p.count := p.count + 1;
    return 1;
  }

  /** pop: -1 for NULL, -2 when empty (the destination keeps its value), otherwise copy the
      element at index count - 1 out, decrement count and return 1. The array is not written. */
  method Pop(p: Stack?, e: Element) returns (r: int, e': Element)
    requires p != null ==> p.Valid()
    modifies p
    ensures p == null ==> r == -1 && e' == e
    ensures p != null ==> p.Valid() && p.elements == old(p.elements) && p.elements[..] == old(p.elements[..])
    ensures p != null && old(p.Contents()) == [] ==> r == -2 && e' == e && p.Contents() == []
    ensures p != null && old(p.Contents()) != [] ==>
      r == 1 && old(p.Contents()) == p.Contents() + [e']
  {
    if p == null {
      return -1, e;
    }
    if p.IsEmpty() == 1 {
      return -2, e;
    }
    var resp := p.elements[p.count - 1];
    p.count := p.count - 1;
    return 1, resp;
  }

  /** Last in, first out: a successful push followed by a pop gives back the pushed
      element and leaves the stack as it was. */
  method PushThenPop(p: Stack, e: Element, d: Element) returns (e': Element)
    requires p.Valid() && |p.Contents()| < p.Capacity()
    modifies p, p.elements
    ensures e' == e
    ensures p.Valid() && p.Contents() == old(p.Contents())
  {
    var r1 := Push(p, e);
    var r2;
    r2, e' := Pop(p, d);
  }
}
