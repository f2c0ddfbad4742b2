/**
 * An assembly is one candidate parse state: a cursor into a fixed sequence of
 * elements, a LIFO working stack, and an optional target object that
 * assemblers build a result in.
 */
module Assemblies {
  import opened Wrappers

  /** The value an assembly holds at one moment. The stack's top is its last
      element. The target is an opaque value: copying the value is the
      "deep clone" of a publicly cloneable target. */
  datatype AsmState<E, S, T> = AsmState(elements: seq<E>, index: nat, stack: seq<S>, target: Option<T>)
  {
    /** The number of elements consumed is the cursor. */
    function ElementsConsumed(): nat { index }

    /** May be negative when the cursor was pushed past the end. */
    function ElementsRemaining(): int { |elements| - ElementsConsumed() }

    predicate HasMoreElements() { ElementsConsumed() < |elements| }
  }

  /** The part of an assembly an assembler may change. */
  datatype Work<S, T> = Work(stack: seq<S>, target: Option<T>)

  /** A semantic action bound to a parser node. It reads the whole assembly
      and replaces the stack and the target; it never moves the cursor. */
  datatype Assembler<!E, !S, !T> = Assembler(workOn: AsmState<E, S, T> -> Work<S, T>)
  {
    function Apply(a: AsmState<E, S, T>): (r: AsmState<E, S, T>)
      ensures r.elements == a.elements && r.index == a.index
      ensures r.stack == workOn(a).stack && r.target == workOn(a).target
    {
      a.(stack := workOn(a).stack, target := workOn(a).target)
    }
  }

  datatype StackError = EmptyStack

  predicate IsInt32(x: int)
  {
    -0x8000_0000 <= x < 0x8000_0000
  }

  /** x as Java's int arithmetic leaves it: reduced modulo 2^32 into the
      two's-complement range. */
  function Int32(x: int): (r: int)
    ensures IsInt32(r)
    ensures (x - r) % 0x1_0000_0000 == 0
    ensures IsInt32(x) ==> r == x
  {
    (x + 0x8000_0000) % 0x1_0000_0000 - 0x8000_0000
  }

  class Assembly<E, S, T> {
    /** The input, shared read-only by every clone. */
    const elements: seq<E>
    /** Which element is next. */
    var index: nat
    var stack: seq<S>
    var target: Option<T>

    function State(): AsmState<E, S, T>
      reads this
    {
      AsmState(elements, index, stack, target)
    }

    constructor (elements: seq<E>)
      ensures State() == AsmState(elements, 0, [], None)
    {
      this.elements := elements;
      index := 0;
      stack := [];
      target := None;
    }

    /** A copy with the same cursor, its own stack and its own target. */
    method Clone() returns (a: Assembly<E, S, T>)
      ensures fresh(a)
      ensures a.State() == State()
    {
      a := new Assembly(elements);
      a.index := index;
      a.stack := stack;
      a.target := target;
    }

    function Length(): nat
      reads this
    {
      |elements|
    }

    function ElementsConsumed(): (r: nat)
      reads this
      ensures r == State().ElementsConsumed()
      ensures Length() - r == State().ElementsRemaining()
    {
      index
    }

    function ElementsRemaining(): (r: int)
      reads this
      ensures r == Length() - ElementsConsumed()
      ensures r > 0 <==> State().HasMoreElements()
    {
      State().ElementsRemaining()
    }

    predicate HasMoreElements()
      reads this
      ensures HasMoreElements() <==> ElementsConsumed() < Length()
      ensures HasMoreElements() <==> ElementsRemaining() > 0
    {
      State().HasMoreElements()
    }

    predicate StackIsEmpty()
      reads this
      ensures StackIsEmpty() <==> |stack| == 0
    {
      stack == []
    }

    method Push(o: S)
      modifies this
      ensures stack == old(stack) + [o]
      ensures index == old(index) && target == old(target)
    {
      stack := stack + [o];
    }

    /** Removes and returns the top of the stack; an empty stack is the
        EmptyStackException of the library, reported as a failure. */
    method Pop() returns (r: Result<S, StackError>)
      modifies this
      ensures old(stack) == [] ==> r == Failure(EmptyStack) && stack == old(stack)
      ensures old(stack) != [] ==> r == Success(old(stack)[|old(stack)| - 1]) && stack == old(stack)[..|old(stack)| - 1]
      ensures index == old(index) && target == old(target)
    {
      if |stack| == 0 {
        r := Failure(EmptyStack);
      } else {
        r := Success(stack[|stack| - 1]);
        stack := stack[..|stack| - 1];
      }
    }

    /** Puts back n elements. The subtraction is Java's 32-bit int
        subtraction, which wraps around; a negative result is clamped to
        zero. The cursor and n are Java ints. */
    method Unget(n: int)
      requires IsInt32(n) && index < 0x8000_0000
      modifies this
      ensures index == if Int32(old(index) - n) < 0 then 0 else Int32(old(index) - n)
      ensures stack == old(stack) && target == old(target)
      ensures index < 0x8000_0000
      ensures 0 <= n ==> index == if n <= old(index) then old(index) - n else 0
      ensures n < 0 && old(index) - n < 0x8000_0000 ==> index == old(index) - n
      ensures n < 0 && old(index) - n >= 0x8000_0000 ==> index == 0
      ensures n >= 0 && old(index) <= |elements| ==> index <= |elements|
    {
      var d := Int32(index - n);
      if d < 0 {
        index := 0;
      } else {
        index := d;
      }
    }

    /** Lets an assembler work on this assembly in place. */
    method WorkOn(f: Assembler<E, S, T>)
      modifies this
      ensures State() == f.Apply(old(State()))
    {
      var w := f.workOn(State());
      stack := w.stack;
      target := w.target;
    }

    /** Consumes the next element (the enumeration step a terminal uses). */
    method NextElement() returns (e: E)
      requires HasMoreElements()
      modifies this
      ensures e == elements[old(index)]
      ensures State() == old(State()).(index := old(index) + 1)
    {
      e := elements[index];
      index := index + 1;
    }
  }

  /** Pushing on a clone leaves the original untouched. */
  method CloneIsolation<E, S, T>(a: Assembly<E, S, T>, o: S) returns (c: Assembly<E, S, T>)
    modifies a
    ensures fresh(c)
    ensures c.index == a.index && c.stack == a.stack + [o]
    ensures a.State() == old(a.State())
  {
    c := a.Clone();
    c.Push(o);
  }

  /** A push followed by a pop returns the pushed object and restores the
      stack; neither moves the cursor. */
  method PushPopRoundTrip<E, S, T>(a: Assembly<E, S, T>, o: S) returns (r: Result<S, StackError>)
    modifies a
    ensures r == Success(o)
    ensures a.State() == old(a.State())
  {
    a.Push(o);
    r := a.Pop();
  }
}
