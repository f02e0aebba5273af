/** The linked queue of integers.

    The queue is a chain of nodes: `rearPtr` points at the newest node, each node's `nextPtr`
    points at the node enqueued just before it, and the oldest node (the front) is the one
    whose `nextPtr` is null. The chain is modelled by the sequence of its values in the order
    the links visit them, `chain[0]` being the node `rearPtr` points at; `count` is kept
    beside it. The queue seen by its users, oldest value first, is `Contents()`, the chain
    read backwards. */
module Queues {
  import opened Outcomes

  /** The exceptions the queue throws. */
  datatype QueueError = QueueEmpty | QueueFull | QueueInvalidPeek

  /** `s` read from its last element to its first. */
  ghost function Reverse(s: seq<int>): (r: seq<int>)
    ensures |r| == |s|
  {
    if s == [] then [] else [s[|s| - 1]] + Reverse(s[..|s| - 1])
  }

  lemma {:induction false} ReverseAt(s: seq<int>, i: int)
    requires 0 <= i < |s|
    ensures Reverse(s)[i] == s[|s| - 1 - i]
    decreases |s|
  {
    if i > 0 {
      ReverseAt(s[..|s| - 1], i - 1);
    }
  }

  /** Putting a node in front of the chain adds its value at the back of the queue. */
  lemma ReverseCons(x: int, s: seq<int>)
    ensures Reverse([x] + s) == Reverse(s) + [x]
  {
    var r, r' := Reverse([x] + s), Reverse(s) + [x];
    forall i | 0 <= i < |r| ensures r[i] == r'[i] {
      ReverseAt([x] + s, i);
      if i < |s| {
        ReverseAt(s, i);
      }
    }
  }

  /** Cutting the last node off the chain removes the front of the queue. */
  lemma ReverseDropLast(s: seq<int>)
    requires s != []
    ensures Reverse(s[..|s| - 1]) == Reverse(s)[1..]
  {
  }

  /** The recursion of Front(): follows the links to the node whose `nextPtr` is null. */
  function FrontRecursion(chain: seq<int>): (v: int)
    requires chain != []
    ensures v == Reverse(chain)[0]
  {
    if |chain| == 1 then chain[0] else FrontRecursion(chain[1..])
  }

  /** The recursion of Dequeue(): follows the links to the node whose `nextPtr` is null and
      sets the link that points at it to null. */
  function DequeueRecursion(chain: seq<int>): (rest: seq<int>)
    requires chain != []
    ensures Reverse(rest) == Reverse(chain)[1..]
  {
    if |chain| == 1 then []
    else
      var rest := DequeueRecursion(chain[1..]);
      ReverseDropLast(chain);
      ReverseDropLast(chain[1..]);
      assert chain[1..][..|chain| - 2] == chain[1..|chain| - 1];
      assert [chain[0]] + chain[1..|chain| - 1] == chain[..|chain| - 1];
      ReverseCons(chain[0], rest);
      ReverseCons(chain[0], chain[1..|chain| - 1]);
      [chain[0]] + rest
  }

  /** The recursion of MakeEmpty(): releases the nodes from the rear and nulls every link. */
  function EmptyRecursion(chain: seq<int>): (rest: seq<int>)
    ensures rest == []
  {
    if chain == [] then [] else EmptyRecursion(chain[1..])
  }

  class Queue {
    var chain: seq<int>
    var count: int

    /** `count` is the number of nodes of the chain. */
    ghost predicate Valid()
      reads this
    {
      count == |chain|
    }

    /** The queue, oldest value first. */
    ghost function Contents(): seq<int>
      reads this
    {
      Reverse(chain)
    }

    /** Queue(): the empty queue. */
    constructor ()
      ensures Valid() && Contents() == [] && count == 0
    {
      chain := [];
      count := 0;
    }

    /** MakeEmpty(): releases every node and resets the count. */
    method MakeEmpty()
      modifies this
      ensures Valid() && Contents() == [] && count == 0
    {
      chain := EmptyRecursion(chain);
      count := 0;
    }

    /** Enqueue(n): a new node holding `n` becomes the rear and links to the old rear. The
        IsFull() check is always false, so QueueFull is never thrown. */
    method Enqueue(n: int)
      requires Valid()
      modifies this
      ensures Valid()
      ensures Contents() == old(Contents()) + [n]
      ensures count == old(count) + 1
    {
      ReverseCons(n, chain);
      chain := [n] + chain;
      count := count + 1;
    }

    /** Dequeue(): removes the oldest value; throws QueueEmpty on an empty queue. */
    method Dequeue() returns (r: Outcome<QueueError>)
      requires Valid()
      modifies this
      ensures Valid()
      ensures old(Contents()) == [] ==> r == Fail(QueueEmpty) && chain == old(chain) && count == old(count)
      ensures old(Contents()) != [] ==>
                r == Pass && Contents() == old(Contents())[1..] && count == old(count) - 1
    {
      if IsEmpty() {
        return Fail(QueueEmpty);
      }
      chain := DequeueRecursion(chain);
      count := count - 1;
      r := Pass;
    }

    /** Front(): the oldest value; throws QueueEmpty on an empty queue. */
    function Front(): (r: Result<int, QueueError>)
      reads this
      ensures Contents() == [] ==> r == Err(QueueEmpty)
      ensures Contents() != [] ==> r == Ok(Contents()[0])
    {
      if chain == [] then Err(QueueEmpty) else Ok(FrontRecursion(chain))
    }

    /** Rear(): the newest value; throws QueueEmpty on an empty queue. */
    function Rear(): (r: Result<int, QueueError>)
      reads this
      ensures Contents() == [] ==> r == Err(QueueEmpty)
      ensures Contents() != [] ==> r == Ok(Contents()[|Contents()| - 1])
    {
      if chain != [] then ReverseAt(chain, |chain| - 1); Ok(chain[0]) else Err(QueueEmpty)
    }

    /** Peek(n), corrected: the value `n` places behind the front, found by walking
        `count - n - 1` links from the rear. Throws QueueEmpty on an empty queue and
        QueueInvalidPeek for a position outside the queue (the code as written lets
        `n == count` through and walks off the chain for a negative `n`, see PeekAsWritten). */
    method Peek(n: int) returns (r: Result<int, QueueError>)
      requires Valid()
      ensures Contents() == [] ==> r == Err(QueueEmpty)
      ensures Contents() != [] && !(0 <= n < count) ==> r == Err(QueueInvalidPeek)
      ensures Contents() != [] && 0 <= n < count ==> r == Ok(Contents()[n])
    {
      if IsEmpty() {
        return Err(QueueEmpty);
      } else if n < 0 || n >= count {
        return Err(QueueInvalidPeek);
      }
      // `node` is the part of the chain that starts at the node reached so far.
      var node := chain;
      for i := 0 to count - n - 1
        invariant node == chain[i..]
      {
        node := node[1..];
      }
      ReverseAt(chain, n);
      r := Ok(node[0]);
    }

    /** IsFull(): the queue has no capacity limit. */
    function IsFull(): (full: bool)
      ensures !full
    {
      false
    }

    /** IsEmpty(): `rearPtr` is null, which is when the count is 0. */
    function IsEmpty(): (empty: bool)
      reads this
      ensures empty <==> Contents() == []
      ensures Valid() ==> (empty <==> count == 0)
    {
      chain == []
    }

    /** Size(): the count, which is the length of the queue. */
    function Size(): (n: int)
      reads this
      requires Valid()
      ensures n == |Contents()|
    {
      count
    }
  }

  /** Peek(n) as written on a chain of values: no test rejects `n == count`, for which the
      walk takes no step and returns the rear, and a negative `n` walks past the front node
      and dereferences null. */
  function PeekAsWritten(chain: seq<int>, n: int): (r: Run<Result<int, QueueError>>)
    ensures chain == [] ==> r == Returns(Err(QueueEmpty))
    ensures chain != [] && n > |chain| ==> r == Returns(Err(QueueInvalidPeek))
    ensures chain != [] && 0 <= n < |chain| ==> r == Returns(Ok(Reverse(chain)[n]))
    ensures chain != [] && n == |chain| ==> r == Returns(Ok(Reverse(chain)[|chain| - 1]))
    ensures chain != [] && n < 0 ==> r == NullDereference
  {
    if chain == [] then Returns(Err(QueueEmpty))
    else if n > |chain| then Returns(Err(QueueInvalidPeek))
    else
      var steps := if |chain| - n - 1 < 0 then 0 else |chain| - n - 1;
      if steps >= |chain| then NullDereference
      else
        ReverseAt(chain, |chain| - 1 - steps);
        Returns(Ok(chain[steps]))
  }
}
