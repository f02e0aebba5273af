/** The linear feedback shift register, a client of the queue.

    The register is a queue of 0/1 values. One step drops the oldest value and appends the
    exclusive or of the values at the two tap positions, counted from the front. */
module ShiftRegister {
  import opened Outcomes
  import opened Queues

  /** XOR(a, b): exactly one of the two values is non-zero. */
  function XOR(a: int, b: int): (r: bool)
    ensures r <==> (a != 0) != (b != 0)
  {
    (a == 0 && b != 0) || (b == 0 && a != 0)
  }

  /** The value a `bool` converts to when it is enqueued. */
  function BoolToInt(b: bool): int
  {
    if b then 1 else 0
  }

  /** Every value of the register is 0 or 1. */
  ghost predicate IsBits(s: seq<int>)
  {
    forall i :: 0 <= i < |s| ==> s[i] == 0 || s[i] == 1
  }

  /** A `std::string` is a sequence of bytes, and the seed loop visits each byte. */
  type Byte = bv8

  /** The byte of the character '1' in ASCII and UTF-8. */
  const ONE: Byte := 0x31

  /** The register a seed string loads: 1 for each byte '1', 0 for any other byte. */
  ghost function SeedBits(seed: seq<Byte>): seq<int>
  {
    seq(|seed|, i requires 0 <= i < |seed| => if seed[i] == ONE then 1 else 0)
  }

  /** Both taps name a position of a register of length `n`. */
  ghost predicate TapsValid(n: int, t1: int, t2: int)
  {
    0 <= t1 < n && 0 <= t2 < n
  }

  /** The register after one step from `s`. */
  ghost function NextBits(s: seq<int>, t1: int, t2: int): (s': seq<int>)
    requires TapsValid(|s|, t1, t2)
    ensures |s'| == |s|
    ensures IsBits(s) ==> IsBits(s')
  {
    s[1..] + [BoolToInt(XOR(s[t1], s[t2]))]
  }

  /** The register after `n` steps from `s`. */
  ghost function Iterate(s: seq<int>, t1: int, t2: int, n: nat): (s': seq<int>)
    requires TapsValid(|s|, t1, t2)
    ensures |s'| == |s|
    ensures IsBits(s) ==> IsBits(s')
  {
    if n == 0 then s else NextBits(Iterate(s, t1, t2, n - 1), t1, t2)
  }

  class LFSR {
    var q: Queue
    var t1: int
    var t2: int

    ghost predicate Valid()
      reads this, q
    {
      q.Valid() && IsBits(q.Contents())
    }

    /** LFSR(seed, tap1, tap2): enqueues one value per seed byte, in order, and keeps
        the taps. */
    constructor (seed: seq<Byte>, tap1: int, tap2: int)
      ensures Valid() && fresh(q)
      ensures q.Contents() == SeedBits(seed)
      ensures t1 == tap1 && t2 == tap2
    {
      var queue := new Queue();
      for i := 0 to |seed|
        invariant queue.Valid()
        invariant queue.Contents() == SeedBits(seed[..i])
      {
        queue.Enqueue(BoolToInt(seed[i] == ONE));
        assert SeedBits(seed[..i + 1]) == SeedBits(seed[..i]) + [BoolToInt(seed[i] == ONE)];
      }
      assert seed[..|seed|] == seed;
      q := queue;
      t1 := tap1;
      t2 := tap2;
    }

    /** NextState(): peeks at both taps, drops the front value and enqueues the exclusive or
        of the two. A failing Peek throws before the queue changes. */
    method NextState() returns (r: Outcome<QueueError>)
      requires Valid()
      modifies q
      ensures Valid()
      ensures old(q.Contents()) == [] ==> r == Fail(QueueEmpty) && q.Contents() == old(q.Contents())
      ensures old(q.Contents()) != [] && !TapsValid(|old(q.Contents())|, t1, t2) ==>
                r == Fail(QueueInvalidPeek) && q.Contents() == old(q.Contents())
      ensures TapsValid(|old(q.Contents())|, t1, t2) ==>
                r == Pass && q.Contents() == NextBits(old(q.Contents()), t1, t2)
    {
      var a := q.Peek(t1);
      if a.Err? {
        return Fail(a.error);
      }
      var b := q.Peek(t2);
      if b.Err? {
        return Fail(b.error);
      }
      var tmp := XOR(a.value, b.value);
      var _ := q.Dequeue();
      q.Enqueue(BoolToInt(tmp));
      r := Pass;
    }

    /** Print(): takes the front value, dequeues it and enqueues it again, once per value,
        so the queue ends as it started (the digits it writes are left out). */
    method Print()
      requires Valid()
      modifies q
      ensures Valid() && q.Contents() == old(q.Contents())
    {
      ghost var s := q.Contents();
      var k := 0;
      var num := q.Size();
      while k < num
        invariant q.Valid() && 0 <= k <= num && num == |s|
        invariant q.Contents() == s[k..] + s[..k]
      {
        RotateOnce(s, k);
        var temp := q.Front();
        var _ := q.Dequeue();
        q.Enqueue(temp.value);
        k := k + 1;
      }
      assert s[..num] == s;
    }
  }

  /** Moving the front value of the rotation `s[k..] + s[..k]` to the back gives the next
      rotation. */
  lemma RotateOnce(s: seq<int>, k: int)
    requires 0 <= k < |s|
    ensures (s[k..] + s[..k])[0] == s[k]
    ensures (s[k..] + s[..k])[1..] + [s[k]] == s[k + 1..] + s[..k + 1]
  {
    assert s[k..] == [s[k]] + s[k + 1..];
    assert s[..k + 1] == s[..k] + [s[k]];
  }

  // ---------------------------------------------------------------------------------------
  // The pattern of ones and zeros eventually repeats.

  function Pow2(n: nat): (p: nat)
    ensures p >= 1
  {
    if n == 0 then 1 else 2 * Pow2(n - 1)
  }

  /** The number a register spells in binary, its front value the least significant digit. */
  ghost function Value(s: seq<int>): int
  {
    if s == [] then 0 else s[0] + 2 * Value(s[1..])
  }

  lemma {:induction false} ValueBounds(s: seq<int>)
    requires IsBits(s)
    ensures 0 <= Value(s) < Pow2(|s|)
  {
    if s != [] {
      ValueBounds(s[1..]);
    }
  }

  /** Registers of one length that spell the same number are equal. */
  lemma {:induction false} ValueInjective(s: seq<int>, u: seq<int>)
    requires IsBits(s) && IsBits(u) && |s| == |u| && Value(s) == Value(u)
    ensures s == u
  {
    if s != [] {
      ValueBounds(s[1..]);
      ValueBounds(u[1..]);
      assert s[0] == u[0];
      ValueInjective(s[1..], u[1..]);
      assert s == [s[0]] + s[1..];
      assert u == [u[0]] + u[1..];
    }
  }

  /** More than `bound` naturals below `bound` hold a repeated value. */
  lemma {:induction false} Pigeonhole(xs: seq<nat>, bound: nat)
    requires |xs| > bound
    requires forall i :: 0 <= i < |xs| ==> xs[i] < bound
    ensures exists i, j :: 0 <= i < j < |xs| && xs[i] == xs[j]
    decreases |xs|
  {
    var last := |xs| - 1;
    var x := xs[last];
    if exists i :: 0 <= i < last && xs[i] == x {
      var i :| 0 <= i < last && xs[i] == x;
      assert xs[i] == xs[last];
    } else {
      // Close the gap that x leaves among the values of the other positions.
      var ys := seq(last, i requires 0 <= i < last => if xs[i] > x then xs[i] - 1 else xs[i]);
      forall i | 0 <= i < last ensures ys[i] < bound - 1 {
        assert xs[i] != x;
      }
      Pigeonhole(ys, bound - 1);
      var i, j :| 0 <= i < j < |ys| && ys[i] == ys[j];
      assert xs[i] != x && xs[j] != x;
      assert xs[i] == xs[j];
    }
  }

  /** Within 2^n steps an n-value register returns to a state it was in before. */
  lemma StatesEventuallyRepeat(s: seq<int>, t1: int, t2: int)
    requires IsBits(s) && TapsValid(|s|, t1, t2)
    ensures exists i, j :: 0 <= i < j <= Pow2(|s|) && Iterate(s, t1, t2, i) == Iterate(s, t1, t2, j)
  {
    var bound := Pow2(|s|);
    var xs := seq(bound + 1, i requires 0 <= i <= bound => Value(Iterate(s, t1, t2, i)));
    forall i | 0 <= i <= bound ensures 0 <= xs[i] < bound {
      ValueBounds(Iterate(s, t1, t2, i));
    }
    var ns: seq<nat> := seq(bound + 1, i requires 0 <= i <= bound => xs[i] as nat);
    Pigeonhole(ns, bound);
    var i, j :| 0 <= i < j < |ns| && ns[i] == ns[j];
    ValueInjective(Iterate(s, t1, t2, i), Iterate(s, t1, t2, j));
  }

  /** Once a state recurs, the register repeats the same cycle of states for ever. */
  lemma {:induction false} RepeatedStateRepeatsForever(s: seq<int>, t1: int, t2: int, i: nat, j: nat, m: nat)
    requires TapsValid(|s|, t1, t2)
    requires Iterate(s, t1, t2, i) == Iterate(s, t1, t2, j)
    ensures Iterate(s, t1, t2, i + m) == Iterate(s, t1, t2, j + m)
  {
    if m > 0 {
      RepeatedStateRepeatsForever(s, t1, t2, i, j, m - 1);
    }
  }
}
