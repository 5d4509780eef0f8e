/** Doubly linked lists whose links live in the elements, so that an element can be removed without a search. */
module EmbeddedLists {

  /** A timer is a list element that also knows its tick, which is -1 when it is not in a timing wheel. */
  class Timer {
    var next: Timer?
    var previous: Timer?
    var tick: int

    constructor ()
      ensures next == null && previous == null && tick == -1
    {
      next, previous, tick := null, null, -1;
    }

    /** `remove`. */
    method ResetTick()
      modifies `tick
      ensures tick == -1
    {
      tick := -1;
    }
  }

  function At(s: seq<Timer>, i: int): Timer?
  {
    if 0 <= i < |s| then s[i] else null
  }

  ghost predicate Distinct(s: seq<Timer>)
  {
    forall i, j :: 0 <= i < j < |s| ==> s[i] != s[j]
  }

  function Without(s: seq<Timer>, i: nat): seq<Timer>
    requires i < |s|
  {
    s[..i] + s[i + 1..]
  }

  lemma WithoutDistinct(s: seq<Timer>, i: nat)
    requires Distinct(s) && i < |s|
    ensures Distinct(Without(s, i))
  {
  }

  /** Following the forward links from `head` visits exactly `s`. */
  ghost predicate Chain(head: Timer?, s: seq<Timer>)
    reads s
  {
    && head == At(s, 0) && (s != [] ==> s[|s| - 1].next == null)
    && forall i, j :: 0 <= i < j < |s| && j == i + 1 ==> s[i].next == s[j]
  }

  /** The backward links and the tail agree with the forward links. */
  ghost predicate BackChain(tail: Timer?, s: seq<Timer>)
    reads s
  {
    && tail == At(s, |s| - 1) && (s != [] ==> s[0].previous == null)
    && forall i, j :: 0 <= i < j < |s| && j == i + 1 ==> s[j].previous == s[i]
  }

  class EmbeddedList {
    var head: Timer?
    var tail: Timer?
    ghost var elements: seq<Timer>

    ghost predicate Valid()
      reads this, elements
    {
      Distinct(elements) && Chain(head, elements) && BackChain(tail, elements)
    }

    twostate lemma Untouched()
      requires old(Valid()) && unchanged(this)
      requires forall i :: 0 <= i < |elements| ==> unchanged(elements[i])
      ensures Valid()
    {
      var s := elements;
      assert old(Chain(head, s)) && old(BackChain(tail, s));
      forall i | 0 <= i < |s|
        ensures s[i].next == old(s[i].next) && s[i].previous == old(s[i].previous)
      {
      }
    }

    constructor ()
      ensures Valid() && elements == []
    {
      head, tail, elements := null, null, [];
    }

    predicate IsEmpty()
      reads this
    {
      head == null
    }

    method AddFirst(element: Timer)
      requires Valid() && element !in elements && element.next == null && element.previous == null
      modifies this, elements`previous, element`next, element`previous
      ensures Valid() && elements == [element] + old(elements)
    {
      elements := [element] + elements;
      if head == null {
        head, tail := element, element;
        element.next, element.previous := null, null;
        return;
      }
      element.next := head;
      element.previous := null;
      head.previous := element;
      head := element;
    }

    method AddLast(element: Timer)
      requires Valid() && element !in elements && element.next == null && element.previous == null
      modifies this, elements`next, element`next, element`previous
      ensures Valid() && elements == old(elements) + [element]
    {
      elements := elements + [element];
      if tail == null {
        head, tail := element, element;
        element.next, element.previous := null, null;
        return;
      }
      element.next := null;
      element.previous := tail;
      tail.next := element;
      tail := element;
    }

    /** Removes an element, the i-th one, unless the list is empty. */
    method Remove(element: Timer?, ghost i: nat)
      requires Valid() && (element != null && elements != [] ==> i < |elements| && elements[i] == element)
      modifies this, elements`next, elements`previous
      ensures Valid()
      ensures element == null || old(elements) == [] ==> unchanged(this) && unchanged(old(elements))
      ensures element != null && old(elements) != [] ==>
                elements == Without(old(elements), i) && element.next == null && element.previous == null
    {
      if element == null || head == null || tail == null {
        return;
      }
      Detach(element, i);
    }

    /** Takes the i-th element out of the chain. */
    method Detach(element: Timer, ghost i: nat)
      requires Valid() && i < |elements| && elements[i] == element
      modifies this, elements`next, elements`previous
      ensures Valid() && elements == Without(old(elements), i)
      ensures element.next == null && element.previous == null
    {
      ghost var s, n := elements, |elements|;
      assert i > 0 ==> s[i - 1].next == element && element.previous == s[i - 1];
      assert i < n - 1 ==> s[i + 1].previous == element && element.next == s[i + 1];
      if element.previous != null {
        element.previous.next := element.next;
      } else {
        head := element.next;
        if head != null {
          head.previous := null;
        }
      }
      if element.next != null {
        element.next.previous := element.previous;
      } else {
        tail := element.previous;
        if tail != null {
          tail.next := null;
        }
      }
      element.next := null;
      element.previous := null;
      elements := Without(s, i);
      WithoutDistinct(s, i);
      assert Chain(head, elements);
      assert BackChain(tail, elements);
    }

    method RemoveFirst() returns (first: Timer?)
      requires Valid()
      modifies this, elements`next, elements`previous
      ensures Valid() && first == At(old(elements), 0)
      ensures elements == if first == null then [] else old(elements)[1..]
      ensures first != null ==> first.next == null && first.previous == null
    {
      first := head;
      if first != null {
        assert elements[1..] == Without(elements, 0);
        Detach(first, 0);
      }
    }

    method Size() returns (length: nat)
      requires Valid()
      ensures length == |elements|
    {
      length := 0;
      var current := head;
      while current != null
        invariant length <= |elements| && current == At(elements, length)
        decreases |elements| - length
      {
        length := length + 1;
        current := current.next;
      }
    }

    method Index(idx: int) returns (element: Timer?)
      requires Valid()
      ensures element == At(elements, idx)
    {
      var i := 0;
      element := head;
      while element != null
        invariant 0 <= i <= |elements| && element == At(elements, i) && !(0 <= idx < i)
        decreases |elements| - i
      {
        if i == idx {
          return;
        }
        element := element.next;
        i := i + 1;
      }
      element := null;
    }

    /** What `Validate` finds in order: an element before the first goes unnoticed if its forward link leads to the
        first. */
    ghost predicate SeemsBackChain(s: seq<Timer>)
      requires s != []
      reads this, s, s[0].previous
    {
      && tail == s[|s| - 1] && (forall i :: 0 < i < |s| ==> s[i].previous == s[i - 1])
      && (s[0].previous != null ==> s[0].previous.next == s[0])
    }

    /** Checks links that are not known to be in order.  The forward links must at least come to an end; they visit `s`.
        The tail of an empty list is not looked at. */
    method Validate(ghost s: seq<Timer>) returns (valid: bool)
      requires Distinct(s) && Chain(head, s)
      ensures valid <==> s == [] || SeemsBackChain(s)
    {
      var current := head;
      ghost var i := 0;
      while current != null
        invariant 0 <= i <= |s| && current == At(s, i)
        invariant forall j :: 0 < j <= i && j < |s| ==> s[j].previous == s[j - 1]
        invariant 0 < i ==> s[0].previous != null ==> s[0].previous.next == s[0]
        invariant 0 < i == |s| ==> tail == s[i - 1]
        decreases |s| - i
      {
        assert i < |s| - 1 ==> s[i].next == s[i + 1];
        if current.next != null {
          if current != current.next.previous {
            return false;
          }
        } else {
          if current != tail {
            return false;
          }
        }
        assert i > 0 ==> s[i - 1].next == s[i];
        if current.previous != null {
          if current != current.previous.next {
            return false;
          }
        } else {
          if current != head {
            return false;
          }
        }
        current := current.next;
        i := i + 1;
      }
      valid := true;
    }

    lemma SeemsMeans(s: seq<Timer>)
      requires s != []
      ensures BackChain(tail, s) <==> SeemsBackChain(s) && s[0].previous == null
    {
      assert s == [s[0]] + s[1..];
    }

    /** A list of one element that links back to an element before it. */
    static method Overlooked() returns (list: EmbeddedList, valid: bool)
      ensures valid && list.head != null && Chain(list.head, [list.head]) && !BackChain(list.tail, [list.head])
    {
      var a := new Timer();
      var x := new Timer();
      x.next, a.previous := a, x;
      list := new EmbeddedList();
      list.head, list.tail := a, a;
      valid := list.Validate([a]);
    }
  }
}
