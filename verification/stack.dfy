/** The fixed-capacity array stack of StackImplementation.java. */
module StackImplementation {
  import opened Wrappers

  /** `ArrayStack<T>`: items live in `stackItems[0..stackSize)`, the top one at
      `topIndex`.  A slot the stack does not use holds `None` (Java's `null`)
      until it is first pushed to; `Pop` does not clear the slot it frees. */
  class ArrayStack<T> {
    const stackItems: array<Option<T>>
    var topIndex: int
    var stackSize: int

    /** The abstract stack, bottom first. */
    ghost var Contents: seq<T>

    ghost predicate Valid()
      reads this, stackItems
    {
      0 <= stackSize <= stackItems.Length &&
      topIndex == stackSize - 1 &&
      |Contents| == stackSize &&
      forall i :: 0 <= i < stackSize ==> stackItems[i] == Some(Contents[i])
    }

    /** The capacity, fixed at construction. */
    function Capacity(): nat
      reads this
    {
      stackItems.Length
    }

    /** A new stack is empty and every slot is null. */
    constructor (capacity: nat)
      ensures Valid() && fresh(stackItems)
      ensures Capacity() == capacity && Contents == []
      ensures topIndex == -1 && stackSize == 0
      ensures forall i :: 0 <= i < capacity ==> stackItems[i] == None
    {
      stackItems := new Option<T>[capacity](_ => None);
      topIndex := -1;
      stackSize := 0;
      Contents := [];
    }

    /** Puts `item` on top.  The Java `push` resets `topIndex` to 0 when it
        reaches the capacity; the precondition rules that case out (see
        `PushAsWritten` for what the Java `push` does there). */
    method Push(item: T)
      requires Valid()
      requires stackSize < Capacity()
      modifies this, stackItems
      ensures Valid()
      ensures Contents == old(Contents) + [item]
      ensures stackSize == old(stackSize) + 1
      ensures forall i :: 0 <= i < stackItems.Length && i != old(stackSize) ==>
                stackItems[i] == old(stackItems[i])
    {
      topIndex := topIndex + 1;
      stackItems[topIndex] := Some(item);
      stackSize := stackSize + 1;
      Contents := Contents + [item];
    }

    /** Removes and returns the top item. */
    method Pop() returns (item: T)
      requires Valid()
      requires stackSize > 0
      modifies this
      ensures Valid()
      ensures item == old(Contents)[|old(Contents)| - 1]
      ensures Contents == old(Contents)[..|old(Contents)| - 1]
      ensures stackSize == old(stackSize) - 1
    {
      item := stackItems[topIndex].value;
      topIndex := topIndex - 1;
      stackSize := stackSize - 1;
      Contents := Contents[..stackSize];
    }

    /** Returns the top item; changes nothing. */
    function Peek(): (item: T)
      reads this, stackItems
      requires Valid()
      requires stackSize > 0
      ensures item == Contents[|Contents| - 1]
    {
      stackItems[topIndex].value
    }

    /** True iff no item is on the stack. */
    predicate IsEmpty()
      reads this, stackItems
      requires Valid()
      ensures IsEmpty() <==> Contents == []
    {
      stackSize == 0
    }

    /** Nulls every slot and empties the stack; works from any state. */
    method Clear()
      modifies this, stackItems
      ensures Valid() && Contents == []
      ensures topIndex == -1 && stackSize == 0
      ensures forall i :: 0 <= i < stackItems.Length ==> stackItems[i] == None
    {
      var i := 0;
      while i < stackItems.Length
        invariant 0 <= i <= stackItems.Length
        invariant forall k :: 0 <= k < i ==> stackItems[k] == None
      {
        stackItems[i] := None;
        i := i + 1;
      }
      topIndex := -1;
      stackSize := 0;
      Contents := [];
    }
  }

  /** The stack's fields as a value, to state what the Java `push` does
      when the stack is already full. */
  datatype StackState<T> = StackState(slots: seq<Option<T>>, topIndex: int, stackSize: int)

  /** A stack state that `ArrayStack.Valid` would accept, holding `items`. */
  ghost predicate Holds<T>(s: StackState<T>, items: seq<T>)
  {
    0 <= s.stackSize <= |s.slots| &&
    s.topIndex == s.stackSize - 1 &&
    |items| == s.stackSize &&
    forall i :: 0 <= i < s.stackSize ==> s.slots[i] == Some(items[i])
  }

  /** The Java `push` as written, wrap-around included, on a stack of
      positive capacity. */
  function PushAsWritten<T>(s: StackState<T>, item: T): (r: StackState<T>)
    requires -1 <= s.topIndex < |s.slots| && |s.slots| > 0
    ensures |r.slots| == |s.slots| && r.stackSize == s.stackSize + 1
    ensures 0 <= r.topIndex < |r.slots| && r.slots[r.topIndex] == Some(item)
  {
    var top := if s.topIndex + 1 == |s.slots| then 0 else s.topIndex + 1;
    StackState(s.slots[top := Some(item)], top, s.stackSize + 1)
  }

  /** Below capacity the Java `push` does what `ArrayStack.Push` promises. */
  lemma PushAsWrittenBelowCapacity<T>(s: StackState<T>, items: seq<T>, item: T)
    requires Holds(s, items) && s.stackSize < |s.slots|
    ensures Holds(PushAsWritten(s, item), items + [item])
  {
  }

  /** At capacity the Java `push` overwrites the bottom item and leaves a
      state that no longer holds any item sequence: the size exceeds the
      capacity and `topIndex` is no longer `stackSize - 1`. */
  lemma PushAsWrittenAtCapacityCorrupts<T>(s: StackState<T>, items: seq<T>, item: T)
    requires Holds(s, items) && s.stackSize == |s.slots| > 0
    ensures var r := PushAsWritten(s, item);
      r.topIndex == 0 && r.slots[0] == Some(item) &&
      r.stackSize == |r.slots| + 1 &&
      forall any: seq<T> :: !Holds(r, any)
  {
  }
}
