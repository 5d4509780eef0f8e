/** The tree that a parser's callbacks fill.  `AstBuilder` says what follows from its steps. */
module AstTrees {
  import opened Errors
  import opened AstElements
  import opened AstBuilder

  datatype ParseControl = BREAK | CONTINUE

  class Tree {
    var stack: seq<Element>
    var error: Error
    var root: Root

    ghost function Contents(): State
      reads this
    {
      State(stack, root, error)
    }

    /** What a callback has done, as an outcome. */
    ghost function Done(control: ParseControl): Outcome
      reads this
    {
      if control == CONTINUE then Continue(Contents()) else Outcome.Break(Contents())
    }

    /** Nothing but the stack has changed, and the parser goes on. */
    twostate predicate Goes(control: ParseControl)
      reads this
    {
      control == CONTINUE && error == old(error) && root == old(root)
    }

    /** The parser stops with this error. */
    twostate predicate Stops(control: ParseControl, e: Error)
      reads this
    {
      control == BREAK && error == e && root == old(root)
    }

    constructor ()
      ensures Contents() == FRESH
    {
      stack, error, root := [], Success, NoRoot;
    }

    method OnMapStart(granted: bool) returns (control: ParseControl)
      modifies this
      ensures granted ==> Step(old(Contents()), MapStart) == Done(control)
      ensures granted ==> Goes(control) && stack == old(stack) + [Map([])]
      ensures !granted ==> Stops(control, OutOfMemory) && stack == old(stack)
    {
      if !granted {
        error := OutOfMemory;
        return BREAK;
      }
      stack := stack + [Map([])];
      control := CONTINUE;
    }

    method OnMapEnd() returns (control: ParseControl)
      requires stack != [] && Step(Contents(), MapEnd) != Undefined
      modifies this
      ensures Step(old(Contents()), MapEnd) == Done(control)
      ensures var e, was := Last(old(stack)), Rest(old(stack));
              if e.Map? then Closed(was, e, control) else Stops(control, CannotParse) && stack == was
    {
      var newMap := stack[|stack| - 1];
      stack := stack[..|stack| - 1];
      if !newMap.Map? {
        error := CannotParse;
        return BREAK;
      }
      control := PutContainer(newMap);
    }

    method OnListStart(granted: bool) returns (control: ParseControl)
      modifies this
      ensures granted ==> Step(old(Contents()), ListStart) == Done(control)
      ensures granted ==> Goes(control) && stack == old(stack) + [List([])]
      ensures !granted ==> Stops(control, OutOfMemory) && stack == old(stack)
    {
      if !granted {
        error := OutOfMemory;
        return BREAK;
      }
      stack := stack + [List([])];
      control := CONTINUE;
    }

    method OnListEnd() returns (control: ParseControl)
      requires stack != [] && Step(Contents(), ListEnd) != Undefined
      modifies this
      ensures Step(old(Contents()), ListEnd) == Done(control)
      ensures var e, was := Last(old(stack)), Rest(old(stack));
              if e.List? then Closed(was, e, control) else Stops(control, CannotParse) && stack == was
    {
      var newList := stack[|stack| - 1];
      stack := stack[..|stack| - 1];
      if !newList.List? {
        error := CannotParse;
        return BREAK;
      }
      control := PutContainer(newList);
    }

    /** What becomes of a finished container: it is the root, or the next element of the list on top, or the value of
        the key on top; if it cannot be that, it goes back on the stack. */
    twostate predicate Closed(was: seq<Element>, e: Element, control: ParseControl)
      reads this
    {
      if was == [] then control == CONTINUE && root == Root(e) && stack == [] && error == old(error)
      else if was[|was| - 1].List? then Goes(control) && Listed(was, e)
      else if Refusal(was) == Success then Goes(control) && Paired(was, e)
      else Stops(control, Refusal(was)) && stack == WithoutKey(was) + [e]
    }

    /** The list on top has got one more element, behind the others. */
    predicate Listed(was: seq<Element>, e: Element)
      reads this
    {
      && was != [] && was[|was| - 1].List?
      && stack == was[..|was| - 1] + [List(was[|was| - 1].elements + [e])]
    }

    /** The key on top has left the stack, and the map below it has got the pair. */
    predicate Paired(was: seq<Element>, e: Element)
      reads this
    {
      && |was| >= 2 && was[|was| - 1].Leaf? && was[|was| - 2].Map?
      && stack == was[..|was| - 2] + [Map(Put(was[|was| - 2].pairs, was[|was| - 1].scalar, e))]
    }

    /** Why an element cannot be the value of what is on top: that is no key of a map, or the map has the key already.
      */
    predicate NoKey(was: seq<Element>)
    {
      |was| < 2 || !was[|was| - 1].Leaf? || !was[|was| - 2].Map?
    }

    function Refusal(was: seq<Element>): Error
    {
      if NoKey(was) then CannotParse
      else if HasKey(was[|was| - 2].pairs, was[|was| - 1].scalar) then UniquenessViolation
      else Success
    }

    /** A key leaves the stack even then. */
    function WithoutKey(was: seq<Element>): seq<Element>
    {
      if was != [] && was[|was| - 1].Leaf? then was[..|was| - 1] else was
    }

    /** A container that has just been taken off the stack becomes the root, or goes into the one that is now on top. */
    method PutContainer(e: Element) returns (control: ParseControl)
      requires Close(Contents().(stack := stack + [e])) != Undefined
      modifies this
      ensures Close(old(Contents()).(stack := old(stack) + [e])) == Done(control)
      ensures Closed(old(stack), e, control)
    {
      ghost var st := Contents().(stack := stack + [e]);
      assert Rest(st.stack) == stack;
      if |stack| == 0 {
        root := Root(e);
        return CONTINUE;
      }
      if Last(stack).List? {
        AddToList(e);
        return CONTINUE;
      }
      control := InsertPair(e);
      if control == BREAK {
        stack := stack + [e];
      }
    }

    method AddToList(e: Element)
      requires stack != [] && Last(stack).List?
      modifies `stack
      ensures Contents() == AddLast(old(Contents()), e) && Listed(old(stack), e)
    {
      stack := stack[..|stack| - 1] + [List(stack[|stack| - 1].elements + [e])];
    }

    /** `insertKeyPair`. */
    method InsertPair(e: Element) returns (control: ParseControl)
      requires stack != [] && InsertKeyPair(Contents(), e) != Undefined
      modifies this
      ensures InsertKeyPair(old(Contents()), e) == Done(control)
      ensures if Refusal(old(stack)) == Success then Goes(control) && Paired(old(stack), e)
              else Stops(control, Refusal(old(stack))) && stack == WithoutKey(old(stack))
    {
      var top := stack[|stack| - 1];
      if !top.Leaf? {
        error := CannotParse;
        return BREAK;
      }
      var key := top.scalar;
      stack := stack[..|stack| - 1];
      top := stack[|stack| - 1];
      if !top.Map? {
        error := CannotParse;
        return BREAK;
      }
      if HasKey(top.pairs, key) {
        error := UniquenessViolation;
        return BREAK;
      }
      stack := stack[..|stack| - 1] + [Map(Put(top.pairs, key, e))];
      control := CONTINUE;
    }

    /** Where an element goes: into the list on top, on the stack as the key of the map on top, or below the key on
        top. */
    twostate predicate Inserted(was: seq<Element>, e: Element, control: ParseControl)
      reads this
      requires was != []
    {
      if was[|was| - 1].List? then Goes(control) && Listed(was, e)
      else if was[|was| - 1].Map? then Goes(control) && stack == was + [e]
      else if Refusal(was) == Success then Goes(control) && Paired(was, e)
      else Stops(control, Refusal(was)) && stack == WithoutKey(was)
    }

    /** `insertKeyOrValue`. */
    method InsertAny(e: Element) returns (control: ParseControl)
      requires stack != [] && InsertKeyOrValue(Contents(), e) != Undefined
      modifies this
      ensures InsertKeyOrValue(old(Contents()), e) == Done(control)
      ensures Inserted(old(stack), e, control)
    {
      if Last(stack).List? {
        AddToList(e);
        return CONTINUE;
      }
      if Last(stack).Map? {
        stack := stack + [e];
        return CONTINUE;
      }
      control := InsertPair(e);
    }

    method OnNull(granted: bool) returns (control: ParseControl)
      requires Step(Contents(), Null) != Undefined
      modifies this
      ensures granted ==> Step(old(Contents()), Null) == Done(control)
      ensures if old(stack) == [] || old(stack)[|old(stack)| - 1].Nil? || old(stack)[|old(stack)| - 1].Map?
              then Stops(control, CannotParse) && stack == old(stack)
              else if !granted then Stops(control, OutOfMemory) && stack == old(stack)
                else Inserted(old(stack), Nil, control)
    {
      if |stack| == 0 || Last(stack).Nil? || Last(stack).Map? {
        error := CannotParse;
        return BREAK;
      }
      if !granted {
        error := OutOfMemory;
        return BREAK;
      }
      if Last(stack).List? {
        AddToList(Nil);
        return CONTINUE;
      }
      control := InsertPair(Nil);
    }

    /** `onBoolean`, `onInteger`, `onDecimal` and `onString`. */
    method OnScalar(scalar: Scalar, granted: bool) returns (control: ParseControl)
      requires Step(Contents(), Value(scalar)) != Undefined
      modifies this
      ensures granted ==> Step(old(Contents()), Value(scalar)) == Done(control)
      ensures if old(stack) == [] || old(stack)[|old(stack)| - 1].Nil?
              then Stops(control, CannotParse) && stack == old(stack)
              else if !granted then Stops(control, OutOfMemory) && stack == old(stack)
                else Inserted(old(stack), Leaf(Shown(scalar)), control)
    {
      if |stack| == 0 || Last(stack).Nil? {
        error := CannotParse;
        return BREAK;
      }
      if !granted {
        error := OutOfMemory;
        return BREAK;
      }
      control := InsertAny(Leaf(Shown(scalar)));
    }
  }
}
