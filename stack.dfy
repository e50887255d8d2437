/** The LIFO `Stack` of dns.go: a slice that `Push` appends to and `Pop` cuts the last item from. */
module Stacks {
  import opened Outcomes

  /** What a pop yields, and the items left behind. */
  datatype Popped<T> = Popped(item: Result<T>, rest: seq<T>)

  /**
   * `Pop` on the items of a stack: an empty stack reports an error and stays as it is; otherwise
   * the last item comes off.
   */
  function PopFrom<T>(items: seq<T>): (p: Popped<T>)
    ensures p.item.Ok? <==> items != []
    ensures items != [] ==> p.rest + [p.item.value] == items
  {
    if items == [] then Popped(Err(EmptyStack), items)
    else Popped(Ok(items[|items| - 1]), items[..|items| - 1])
  }

  /** Popping right after pushing `x` gives `x` back and restores the items before the push. */
  lemma PushThenPop<T>(items: seq<T>, x: T)
    ensures PopFrom(items + [x]) == Popped(Ok(x), items)
  {
    assert (items + [x])[..|items|] == items;
  }

  /** Popping an empty stack fails and leaves it empty. */
  lemma PopEmpty<T>()
    ensures PopFrom<T>([]) == Popped(Err(EmptyStack), [])
  {
  }

  /** `type Stack []string` with its pointer-receiver methods. */
  class Stack<T> {
    var items: seq<T>

    constructor (initial: seq<T>)
      ensures items == initial
    {
      items := initial;
    }

    /** `Push`: `*s = append(*s, item)`. */
    method Push(x: T)
      modifies this
      ensures items == old(items) + [x]
    {
      items := items + [x];
    }

    /** `Pop`: the last item, sliced off; an error when there is none. */
    method Pop() returns (r: Result<T>)
      modifies this
      ensures Popped(r, items) == PopFrom(old(items))
    {
      if |items| == 0 {
        return Err(EmptyStack);
      }
      var index := |items| - 1;
      var element := items[index];
      items := items[..index];
      return Ok(element);
    }
  }
}
