/**
 * Sequences of vector operations: the invariants every operation keeps, the
 * round trips between operations, the usage scenarios of code/vector.py, and
 * the consequence of the missing floor on shrinking.
 */
module VectorRuns {
  import opened Wrappers
  import opened Vectors

  /** A capacity the resize policy can produce: zero or a power of two. */
  predicate PowerOfTwo(n: nat)
    decreases n
  {
    n == 1 || (n >= 2 && n % 2 == 0 && PowerOfTwo(n / 2))
  }

  predicate CapacityShape(c: nat) {
    c == 0 || PowerOfTwo(c)
  }

  /** One call on the vector, with its arguments. */
  datatype Op =
    | PushOp(x: int)
    | InsertOp(i: nat, x: int)
    | PrependOp(x: int)
    | PopOp
    | DeleteOp(i: nat)
    | RemoveOp(x: int)

  /**
   * The vector after one call.  A call that raises leaves the vector as it
   * was, as in the source.  An insert past the end is outside the model and
   * is skipped.
   */
  function Apply(v: Vector, op: Op, minCapacity: nat): (w: Vector)
    requires Valid(v)
    ensures Valid(w)
    ensures minCapacity <= Capacity(v) ==> minCapacity <= Capacity(w)
  {
    match op
    case PushOp(x) =>
      var r := Push(v, x);
      if r.Ok? then r.value else v
    case InsertOp(i, x) =>
      if i <= Size(v) then
        var r := Insert(v, i, x);
        if r.Ok? then r.value else v
      else v
    case PrependOp(x) =>
      var r := Prepend(v, x);
      if r.Ok? then r.value else v
    case PopOp =>
      var r := Pop(v, minCapacity);
      if r.Ok? then r.value.vector else v
    case DeleteOp(i) =>
      var r := Delete(v, i, minCapacity);
      if r.Ok? then r.value else v
    case RemoveOp(x) =>
      Remove(v, x, minCapacity)
  }

  /** The vector after a sequence of calls. */
  function Run(v: Vector, ops: seq<Op>, minCapacity: nat): (w: Vector)
    requires Valid(v)
    decreases |ops|
    ensures Valid(w)
  {
    if ops == [] then v else Run(Apply(v, ops[0], minCapacity), ops[1..], minCapacity)
  }

  lemma {:induction false} RemoveKeepsShape(v: Vector, x: int, minCapacity: nat)
    requires Valid(v) && CapacityShape(Capacity(v))
    ensures CapacityShape(Capacity(Remove(v, x, minCapacity)))
    decreases v.length
  {
    var i := Find(v, x);
    if i != -1 {
      var d := Delete(v, i, minCapacity).value;
      RemoveKeepsShape(d, x, minCapacity);
    }
  }

  /** One call keeps the capacity zero or a power of two. */
  lemma ApplyKeepsShape(v: Vector, op: Op, minCapacity: nat)
    requires Valid(v) && CapacityShape(Capacity(v))
    ensures CapacityShape(Capacity(Apply(v, op, minCapacity)))
  {
    if op.RemoveOp? {
      RemoveKeepsShape(v, op.x, minCapacity);
    } else if Capacity(v) >= 1 {
      assert PowerOfTwo(2 * Capacity(v));
    }
  }

  /**
   * After every call, the length stays within the capacity and the capacity
   * stays zero or a power of two.
   */
  lemma {:induction false} RunKeepsInvariant(v: Vector, ops: seq<Op>, minCapacity: nat)
    requires Valid(v) && CapacityShape(Capacity(v))
    ensures Valid(Run(v, ops, minCapacity))
    ensures CapacityShape(Capacity(Run(v, ops, minCapacity)))
    decreases |ops|
  {
    if ops != [] {
      ApplyKeepsShape(v, ops[0], minCapacity);
      RunKeepsInvariant(Apply(v, ops[0], minCapacity), ops[1..], minCapacity);
    }
  }

  /**
   * From a new vector, every sequence of calls leaves the capacity zero or a
   * power of two, so each halving of it is exact.
   */
  lemma NewVectorRunKeepsShape(ops: seq<Op>, minCapacity: nat)
    ensures CapacityShape(Capacity(Run(New(), ops, minCapacity)))
  {
    assert PowerOfTwo(1) && PowerOfTwo(2) && PowerOfTwo(4) && PowerOfTwo(8);
    RunKeepsInvariant(New(), ops, minCapacity);
  }

  /** `push(x)` then `pop()` hands back `x` and restores the contents. */
  lemma PushPopRoundTrip(v: Vector, x: int, minCapacity: nat)
    requires Valid(v) && Capacity(v) >= 1
    ensures Push(v, x).Ok?
    ensures Pop(Push(v, x).value, minCapacity).Ok?
    ensures Pop(Push(v, x).value, minCapacity).value.item == x
    ensures Elems(Pop(Push(v, x).value, minCapacity).value.vector) == Elems(v)
  {
  }

  /** `insert(i, x)` then `delete(i)` restores the contents. */
  lemma InsertDeleteRoundTrip(v: Vector, i: nat, x: int, minCapacity: nat)
    requires Valid(v) && Capacity(v) >= 1 && i <= Size(v)
    ensures Insert(v, i, x).Ok?
    ensures Delete(Insert(v, i, x).value, i, minCapacity).Ok?
    ensures Elems(Delete(Insert(v, i, x).value, i, minCapacity).value) == Elems(v)
  {
    var s := Elems(v);
    var t := s[..i] + [x] + s[i..];
    assert t[..i] + t[i + 1..] == s;
  }

  /** Push each of `xs` in turn, stopping at the first call that raises. */
  function PushAll(v: Vector, xs: seq<int>): (r: Result<Vector, VectorError>)
    requires Valid(v)
    decreases |xs|
    ensures r.Ok? ==> Valid(r.value)
  {
    if xs == [] then Ok(v)
    else
      var w := Push(v, xs[0]);
      if w.Err? then Err(w.error) else PushAll(w.value, xs[1..])
  }

  /** The result of popping several times: the vector and the items, in pop order. */
  datatype Drained = Drained(vector: Vector, items: seq<int>)

  /** Pop `n` times, stopping at the first call that raises. */
  function PopN(v: Vector, n: nat, minCapacity: nat): (r: Result<Drained, VectorError>)
    requires Valid(v)
    ensures r.Ok? ==> Valid(r.value.vector)
  {
    if n == 0 then Ok(Drained(v, []))
    else
      var d := PopN(v, n - 1, minCapacity);
      if d.Err? then d
      else
        var p := Pop(d.value.vector, minCapacity);
        if p.Err? then Err(p.error)
        else Ok(Drained(p.value.vector, d.value.items + [p.value.item]))
  }

  /** Any number of pushes succeed once the capacity is positive, and append in order. */
  lemma {:induction false} PushAllAppends(v: Vector, xs: seq<int>)
    requires Valid(v) && Capacity(v) >= 1
    ensures PushAll(v, xs).Ok?
    ensures Elems(PushAll(v, xs).value) == Elems(v) + xs
    ensures Capacity(PushAll(v, xs).value) >= 1
    decreases |xs|
  {
    if xs != [] {
      var w := Push(v, xs[0]).value;
      PushAllAppends(w, xs[1..]);
      assert Elems(v) + [xs[0]] + xs[1..] == Elems(v) + xs;
    }
  }

  /**
   * Pushes keep the capacity while there is room, and the one push that
   * finds the store full doubles it.
   */
  lemma {:induction false} PushAllUntilFull(v: Vector, xs: seq<int>)
    requires Valid(v) && Capacity(v) >= 1
    requires Size(v) + |xs| <= Capacity(v) + 1
    ensures PushAll(v, xs).Ok?
    ensures Capacity(PushAll(v, xs).value)
         == if Size(v) + |xs| <= Capacity(v) then Capacity(v) else 2 * Capacity(v)
    decreases |xs|
  {
    if xs != [] {
      var w := Push(v, xs[0]).value;
      if Size(v) < Capacity(v) {
        PushAllUntilFull(w, xs[1..]);
      } else {
        assert xs[1..] == [];
      }
    }
  }

  /** The capacity `c` slots reach by doubling until `n` elements fit. */
  function Grown(c: nat, n: nat): (g: nat)
    requires c >= 1
    decreases if n <= c then 0 else n - c
    ensures c <= g && n <= g
    ensures g == c || g < 2 * n
  {
    if n <= c then c else Grown(2 * c, n)
  }

  /**
   * Pushes double the store each time it is full and never otherwise: the
   * capacity ends at the first doubling that holds every element.
   */
  lemma {:induction false} PushAllGrows(v: Vector, xs: seq<int>)
    requires Valid(v) && Capacity(v) >= 1
    ensures PushAll(v, xs).Ok?
    ensures Capacity(PushAll(v, xs).value) == Grown(Capacity(v), Size(v) + |xs|)
    decreases |xs|
  {
    if xs != [] {
      var w := Push(v, xs[0]).value;
      PushAllGrows(w, xs[1..]);
    }
  }

  function Reverse(s: seq<int>): (r: seq<int>)
    ensures |r| == |s|
  {
    if s == [] then [] else Reverse(s[1..]) + [s[0]]
  }

  /** Popping `|t|` times from a vector holding `s + t` leaves `s` and yields `t` last first. */
  lemma {:induction false} PopNSplit(v: Vector, s: seq<int>, t: seq<int>, minCapacity: nat)
    requires Valid(v) && Elems(v) == s + t
    ensures PopN(v, |t|, minCapacity).Ok?
    ensures Elems(PopN(v, |t|, minCapacity).value.vector) == s
    ensures PopN(v, |t|, minCapacity).value.items == Reverse(t)
    decreases |t|
  {
    if t != [] {
      assert Elems(v) == (s + [t[0]]) + t[1..] by {
        assert t == [t[0]] + t[1..];
      }
      PopNSplit(v, s + [t[0]], t[1..], minCapacity);
      var d := PopN(v, |t| - 1, minCapacity).value;
      var p := PopLast(d.vector, s, t[0], minCapacity);
      assert PopN(v, |t|, minCapacity) == Ok(Drained(p.vector, d.items + [t[0]]));
    }
  }

  /** Popping `n` times takes the last `n` elements, last first. */
  lemma PopNTakesSuffix(v: Vector, n: nat, minCapacity: nat)
    requires Valid(v) && n <= Size(v)
    ensures PopN(v, n, minCapacity).Ok?
    ensures Elems(PopN(v, n, minCapacity).value.vector) == Elems(v)[..Size(v) - n]
    ensures PopN(v, n, minCapacity).value.items == Reverse(Elems(v)[Size(v) - n..])
  {
    var s := Elems(v);
    assert s == s[..|s| - n] + s[|s| - n..];
    PopNSplit(v, s[..|s| - n], s[|s| - n..], minCapacity);
  }

  /** Popping a vector whose content is `s + [x]` yields `x` and leaves `s`. */
  lemma PopLast(v: Vector, s: seq<int>, x: int, minCapacity: nat) returns (p: Popped)
    requires Valid(v) && Elems(v) == s + [x]
    ensures Pop(v, minCapacity) == Ok(p)
    ensures p.item == x && Valid(p.vector) && Elems(p.vector) == s
  {
    p := Pop(v, minCapacity).value;
  }

  /** Pushing `xs` and then popping as many times yields `xs` reversed and the original contents. */
  lemma PushAllPopNReverses(v: Vector, xs: seq<int>, minCapacity: nat)
    requires Valid(v) && Capacity(v) >= 1
    ensures PushAll(v, xs).Ok?
    ensures PopN(PushAll(v, xs).value, |xs|, minCapacity).Ok?
    ensures Elems(PopN(PushAll(v, xs).value, |xs|, minCapacity).value.vector) == Elems(v)
    ensures PopN(PushAll(v, xs).value, |xs|, minCapacity).value.items == Reverse(xs)
  {
    PushAllAppends(v, xs);
    var w := PushAll(v, xs).value;
    PopNTakesSuffix(w, |xs|, minCapacity);
    assert Elems(w)[..Size(w) - |xs|] == Elems(v);
    assert Elems(w)[Size(w) - |xs|..] == xs;
  }

  /** Pops that leave more than a quarter of the store in use keep the capacity. */
  lemma {:induction false} PopNAboveQuarter(v: Vector, n: nat, minCapacity: nat)
    requires Valid(v) && n <= Size(v)
    requires 4 * (Size(v) - n) > Capacity(v)
    ensures PopN(v, n, minCapacity).Ok?
    ensures Capacity(PopN(v, n, minCapacity).value.vector) == Capacity(v)
    ensures Size(PopN(v, n, minCapacity).value.vector) == Size(v) - n
  {
    if n > 0 {
      PopNAboveQuarter(v, n - 1, minCapacity);
    }
  }

  /** Every capacity of at most 16 that is a power of two. */
  lemma {:induction false} SmallPowersOfTwo(c: nat)
    requires PowerOfTwo(c) && c <= 16
    ensures c == 1 || c == 2 || c == 4 || c == 8 || c == 16
    decreases c
  {
    if c > 1 {
      SmallPowersOfTwo(c / 2);
    }
  }

  /**
   * Seventeen pushes onto an empty vector of at most 16 slots, a power of
   * two as every reachable capacity is, hold the items in order in 32 slots.
   * The earlier pops of the usage scenario leave one slot at this point.
   */
  lemma SeventeenPushesDouble(v: Vector, xs: seq<int>)
    requires Valid(v) && Elems(v) == [] && PowerOfTwo(Capacity(v)) && Capacity(v) <= 16
    requires |xs| == 17
    ensures PushAll(v, xs).Ok?
    ensures Elems(PushAll(v, xs).value) == xs
    ensures Capacity(PushAll(v, xs).value) == 32
  {
    PushAllAppends(v, xs);
    PushAllGrows(v, xs);
    SmallPowersOfTwo(Capacity(v));
    assert Grown(16, 17) == 32;
    assert Grown(8, 17) == 32;
    assert Grown(4, 17) == 32;
    assert Grown(2, 17) == 32;
    assert Grown(1, 17) == 32;
  }

  /**
   * From 17 elements in 32 slots, eight pops keep the capacity and the ninth,
   * leaving 8 elements, halves it to 16.
   */
  lemma NinePopsHalve(v: Vector, minCapacity: nat)
    requires Valid(v) && Size(v) == 17 && Capacity(v) == 32 && minCapacity <= 16
    ensures PopN(v, 8, minCapacity).Ok?
    ensures Capacity(PopN(v, 8, minCapacity).value.vector) == 32
    ensures PopN(v, 9, minCapacity).Ok?
    ensures Capacity(PopN(v, 9, minCapacity).value.vector) == 16
    ensures Size(PopN(v, 9, minCapacity).value.vector) == 8
  {
    PopNAboveQuarter(v, 8, minCapacity);
  }

  /** Push 1 and 3, insert 2 at index 1: three pops yield 3, 2, 1 and empty the vector. */
  lemma PushInsertPopScenario(v: Vector, minCapacity: nat)
    requires Valid(v) && Elems(v) == [] && Capacity(v) >= 1
    ensures PushAll(v, [1, 3]).Ok?
    ensures Size(PushAll(v, [1, 3]).value) == 2
    ensures Insert(PushAll(v, [1, 3]).value, 1, 2).Ok?
    ensures PopN(Insert(PushAll(v, [1, 3]).value, 1, 2).value, 3, minCapacity).Ok?
    ensures PopN(Insert(PushAll(v, [1, 3]).value, 1, 2).value, 3, minCapacity).value.items == [3, 2, 1]
    ensures Elems(PopN(Insert(PushAll(v, [1, 3]).value, 1, 2).value, 3, minCapacity).value.vector) == []
  {
    PushAllAppends(v, [1, 3]);
    var w := PushAll(v, [1, 3]).value;
    assert Elems(w) == [1, 3];
    var u := Insert(w, 1, 2).value;
    assert Elems(u) == [1, 2, 3];
    PopNTakesSuffix(u, 3, minCapacity);
    assert Elems(u)[0..] == [1, 2, 3];
    assert Reverse([1, 2, 3]) == [3, 2, 1];
  }

  /** `n` rounds of `push(0)` followed by `pop()`. */
  function PushPopRounds(n: nat): seq<Op> {
    if n == 0 then [] else [PushOp(0), PopOp] + PushPopRounds(n - 1)
  }

  /** `c` halved `n` times. */
  function Halved(c: nat, n: nat): nat {
    if n == 0 then c else Halved(c / 2, n - 1)
  }

  /** As written (no floor): a push/pop round on an empty vector halves its store. */
  lemma UnflooredRoundHalves(v: Vector)
    requires Valid(v) && Elems(v) == []
    ensures Elems(Apply(Apply(v, PushOp(0), 0), PopOp, 0)) == []
    ensures Capacity(Apply(Apply(v, PushOp(0), 0), PopOp, 0)) == Capacity(v) / 2
  {
    var w := Apply(v, PushOp(0), 0);
    if Capacity(v) >= 1 {
      assert Elems(w) == [0] && Capacity(w) == Capacity(v);
    }
  }

  /**
   * As written (no floor): each push/pop round on an empty vector halves its
   * store, down to zero slots.
   */
  lemma {:induction false} UnflooredRoundsHalve(v: Vector, n: nat)
    requires Valid(v) && Elems(v) == []
    ensures Elems(Run(v, PushPopRounds(n), 0)) == []
    ensures Capacity(Run(v, PushPopRounds(n), 0)) == Halved(Capacity(v), n)
    decreases n
  {
    if n > 0 {
      var ops := PushPopRounds(n);
      assert ops[0] == PushOp(0) && ops[1..][0] == PopOp && ops[1..][1..] == PushPopRounds(n - 1);
      var w := Apply(v, PushOp(0), 0);
      var u := Apply(w, PopOp, 0);
      assert Run(v, ops, 0) == Run(u, PushPopRounds(n - 1), 0);
      UnflooredRoundHalves(v);
      UnflooredRoundsHalve(u, n - 1);
    }
  }

  /** A vector with no slots never gets any back: every call raises or does nothing. */
  lemma {:induction false} NoSlotsIsPermanent(v: Vector, ops: seq<Op>, minCapacity: nat)
    requires Valid(v) && Capacity(v) == 0
    ensures Capacity(Run(v, ops, minCapacity)) == 0
    decreases |ops|
  {
    if ops != [] {
      NoSlotsIsPermanent(Apply(v, ops[0], minCapacity), ops[1..], minCapacity);
    }
  }

  /**
   * As written: five push/pop rounds take a new vector from 16 slots to 0,
   * after which `push` and `prepend` raise whatever happens next.
   */
  lemma UnflooredVectorLosesAllSlots(x: int, ops: seq<Op>)
    ensures Capacity(Run(New(), PushPopRounds(5), 0)) == 0
    ensures Push(Run(New(), PushPopRounds(5), 0), x).Err?
    ensures Push(Run(Run(New(), PushPopRounds(5), 0), ops, 0), x).Err?
    ensures Prepend(Run(Run(New(), PushPopRounds(5), 0), ops, 0), x).Err?
  {
    UnflooredRoundsHalve(New(), 5);
    assert Halved(16, 5) == 0;
    NoSlotsIsPermanent(Run(New(), PushPopRounds(5), 0), ops, 0);
  }

  /**
   * Corrected: with a positive floor no call takes the capacity below it, so
   * `push` and `prepend` never raise.
   */
  lemma {:induction false} FlooredVectorStaysUsable(v: Vector, ops: seq<Op>, minCapacity: nat, x: int)
    requires Valid(v) && 1 <= minCapacity <= Capacity(v)
    ensures minCapacity <= Capacity(Run(v, ops, minCapacity))
    ensures Push(Run(v, ops, minCapacity), x).Ok?
    ensures Prepend(Run(v, ops, minCapacity), x).Ok?
    decreases |ops|
  {
    if ops != [] {
      FlooredVectorStaysUsable(Apply(v, ops[0], minCapacity), ops[1..], minCapacity, x);
    }
  }

  /** Corrected, from a new vector: the capacity never drops below 16. */
  lemma NewVectorKeepsInitialCapacity(ops: seq<Op>)
    ensures InitialCapacity <= Capacity(Run(New(), ops, InitialCapacity))
  {
    FlooredVectorStaysUsable(New(), ops, InitialCapacity, 0);
  }
}
