/**
 * The growable integer array of code/vector.py, as an immutable value.
 *
 * `buffer` is the backing store (the source's `array`), so its length is
 * the capacity, and the first `length` slots hold the elements in order.
 * Every operation returns the new value instead of mutating; an operation
 * that raises returns `Err` and, as in the source, has changed nothing
 * observable.
 */
module Vectors {
  import opened Wrappers

  /** Python's IndexError, the only exception the modelled operations raise. */
  datatype VectorError = IndexError

  /** Capacity of a freshly constructed vector. */
  const InitialCapacity: nat := 16

  datatype Vector = Vector(buffer: seq<int>, length: nat)

  /** What `pop` hands back: the vector after the call and the removed item. */
  datatype Popped = Popped(vector: Vector, item: int)

  /** The class invariant: the elements in use fit in the backing store. */
  predicate Valid(v: Vector) {
    v.length <= |v.buffer|
  }

  /** The abstract content of a vector: its first `length` slots, in order. */
  function Elems(v: Vector): seq<int>
    requires Valid(v)
  {
    v.buffer[..v.length]
  }

  function Zeros(n: nat): (z: seq<int>)
    ensures |z| == n
    ensures forall i :: 0 <= i < n ==> z[i] == 0
  {
    seq(n, _ => 0)
  }

  /** `Vector()`: sixteen zeroed slots, none in use. */
  function New(): (v: Vector)
    ensures Valid(v)
    ensures Elems(v) == []
    ensures Capacity(v) == InitialCapacity
  {
    Vector(Zeros(InitialCapacity), 0)
  }

  function Size(v: Vector): (n: nat)
    requires Valid(v)
    ensures n == |Elems(v)|
  {
    v.length
  }

  function Capacity(v: Vector): (c: nat)
    ensures Valid(v) ==> |Elems(v)| <= c
  {
    |v.buffer|
  }

  function IsEmpty(v: Vector): (b: bool)
    requires Valid(v)
    ensures b <==> Elems(v) == []
  {
    v.length == 0
  }

  /**
   * `_resize(c)`: a fresh zeroed store of `c` slots receives the elements in
   * use; raises when they would not fit.
   */
  function Resize(v: Vector, c: nat): (r: Result<Vector, VectorError>)
    requires Valid(v)
    ensures r.Err? <==> c < |Elems(v)|
    ensures r.Ok? ==> Valid(r.value) && Capacity(r.value) == c
    ensures r.Ok? ==> Elems(r.value) == Elems(v)
    ensures r.Ok? ==> forall i :: |Elems(v)| <= i < c ==> r.value.buffer[i] == 0
  {
    if c < v.length then Err(IndexError)
    else Ok(Vector(v.buffer[..v.length] + Zeros(c - v.length), v.length))
  }

  /** The doubling step shared by `push` and `insert`: a full store doubles. */
  function GrowIfFull(v: Vector): (g: Vector)
    requires Valid(v)
    ensures Valid(g) && Elems(g) == Elems(v)
    ensures Capacity(g) == if Size(v) == Capacity(v) then 2 * Capacity(v) else Capacity(v)
  {
    if v.length == |v.buffer| then Resize(v, 2 * |v.buffer|).value else v
  }

  /**
   * The capacity after a removal leaves `length` elements in a store of
   * `capacity` slots.  The source halves when `length <= capacity / 4` in
   * floating point, which is the test `4 * length <= capacity`, and takes
   * `int(capacity / 2)`, which truncates to `capacity / 2`.  It has no lower
   * bound, which is `minCapacity == 0`.  A positive `minCapacity` is a lower
   * bound on halving; 16, the capacity `__init__` starts with, keeps a vector
   * from reaching capacity 0, where `push` raises.
   */
  function ShrunkCapacity(length: nat, capacity: nat, minCapacity: nat): nat {
    if 4 * length <= capacity && minCapacity <= capacity / 2 then capacity / 2 else capacity
  }

  /** The halving step shared by `pop` and `delete`. */
  function ShrinkIfSparse(v: Vector, minCapacity: nat): (s: Vector)
    requires Valid(v)
    ensures Valid(s) && Elems(s) == Elems(v)
    ensures Capacity(s) == ShrunkCapacity(Size(v), Capacity(v), minCapacity)
  {
    if 4 * v.length <= |v.buffer| && minCapacity <= |v.buffer| / 2 then
      Resize(v, |v.buffer| / 2).value
    else v
  }

  /** `at(i)`: the i-th element, or IndexError past the end. */
  function At(v: Vector, i: nat): (r: Result<int, VectorError>)
    requires Valid(v)
    ensures r.Ok? <==> i < |Elems(v)|
    ensures r.Ok? ==> r.value == Elems(v)[i]
  {
    if i >= v.length then Err(IndexError) else Ok(v.buffer[i])
  }

  /**
   * `push(x)`: append, doubling a full store first.  A store of capacity 0
   * doubles to 0 and the write then raises.
   */
  function Push(v: Vector, x: int): (r: Result<Vector, VectorError>)
    requires Valid(v)
    ensures r.Err? <==> Capacity(v) == 0
    ensures r.Ok? ==> Valid(r.value) && Elems(r.value) == Elems(v) + [x]
    ensures r.Ok? ==> Capacity(r.value) == if Size(v) == Capacity(v) then 2 * Capacity(v) else Capacity(v)
  {
    var g := GrowIfFull(v);
    if g.length < |g.buffer| then Ok(Vector(g.buffer[g.length := x], g.length + 1))
    else Err(IndexError)
  }

  /**
   * `insert(i, x)`: after the doubling step, slots `[i, length)` move one place
   * right and `x` lands at `i`.  The slot just past the old end receives the
   * last element; the rest of the store is untouched.
   */
  function Insert(v: Vector, i: nat, x: int): (r: Result<Vector, VectorError>)
    requires Valid(v) && i <= Size(v)
    ensures r.Err? <==> Capacity(v) == 0
    ensures r.Ok? ==> Valid(r.value) && Elems(r.value) == Elems(v)[..i] + [x] + Elems(v)[i..]
    ensures r.Ok? ==> Capacity(r.value) == if Size(v) == Capacity(v) then 2 * Capacity(v) else Capacity(v)
  {
    var g := GrowIfFull(v);
    if g.length < |g.buffer| then
      var a := g.buffer[..i] + [x] + g.buffer[i..g.length] + g.buffer[g.length + 1..];
      assert a[..g.length + 1] == g.buffer[..i] + [x] + g.buffer[i..g.length];
      Ok(Vector(a, g.length + 1))
    else Err(IndexError)
  }

  /** `prepend(x)`: `insert(0, x)`. */
  function Prepend(v: Vector, x: int): (r: Result<Vector, VectorError>)
    requires Valid(v)
    ensures r.Err? <==> Capacity(v) == 0
    ensures r.Ok? ==> Valid(r.value) && Elems(r.value) == [x] + Elems(v)
  {
    Insert(v, 0, x)
  }

  /**
   * `pop()`: IndexError on an empty vector; otherwise the last element comes
   * out and the store halves when a quarter or less of it stays in use.
   */
  function Pop(v: Vector, minCapacity: nat): (r: Result<Popped, VectorError>)
    requires Valid(v)
    ensures r.Err? <==> Elems(v) == []
    ensures r.Ok? ==> Valid(r.value.vector)
    ensures r.Ok? ==> Elems(v) == Elems(r.value.vector) + [r.value.item]
    ensures r.Ok? ==> Capacity(r.value.vector) == ShrunkCapacity(|Elems(v)| - 1, Capacity(v), minCapacity)
  {
    if v.length == 0 then Err(IndexError)
    else
      var d := Vector(v.buffer, v.length - 1);
      assert Elems(v) == Elems(d) + [v.buffer[v.length - 1]];
      Ok(Popped(ShrinkIfSparse(d, minCapacity), v.buffer[v.length - 1]))
  }

  /**
   * `delete(i)`: IndexError when `i` is past the end; otherwise slots
   * `[i + 1, length)` move one place left (the old last slot keeps its
   * value), the length drops and the halving rule of `pop` applies.
   */
  function Delete(v: Vector, i: nat, minCapacity: nat): (r: Result<Vector, VectorError>)
    requires Valid(v)
    ensures r.Err? <==> i >= |Elems(v)|
    ensures r.Ok? ==> Valid(r.value) && Elems(r.value) == Elems(v)[..i] + Elems(v)[i + 1..]
    ensures r.Ok? ==> Capacity(r.value) == ShrunkCapacity(|Elems(v)| - 1, Capacity(v), minCapacity)
  {
    if i >= v.length then Err(IndexError)
    else
      var a := v.buffer[..i] + v.buffer[i + 1..v.length] + v.buffer[v.length - 1..];
      assert a[..v.length - 1] == v.buffer[..i] + v.buffer[i + 1..v.length];
      Ok(ShrinkIfSparse(Vector(a, v.length - 1), minCapacity))
  }

  /** The scan of `find` from position `i` on: the first index holding `x`. */
  function IndexFrom(s: seq<int>, x: int, i: nat): (r: int)
    requires i <= |s|
    decreases |s| - i
    ensures r == -1 <==> x !in s[i..]
    ensures r != -1 ==> i <= r < |s| && s[r] == x && x !in s[i..r]
  {
    if i == |s| then -1
    else if s[i] == x then i
    else IndexFrom(s, x, i + 1)
  }

  /** `find(x)`: the least index holding `x`, or -1 when there is none. */
  function Find(v: Vector, x: int): (r: int)
    requires Valid(v)
    ensures r == -1 <==> x !in Elems(v)
    ensures r != -1 ==> 0 <= r < |Elems(v)| && Elems(v)[r] == x && x !in Elems(v)[..r]
  {
    IndexFrom(Elems(v), x, 0)
  }

  /** `s` with every occurrence of `x` dropped and the rest kept in order. */
  function Without(s: seq<int>, x: int): seq<int> {
    if s == [] then []
    else (if s[0] == x then [] else [s[0]]) + Without(s[1..], x)
  }

  lemma {:induction false} WithoutConcat(a: seq<int>, b: seq<int>, x: int)
    ensures Without(a + b, x) == Without(a, x) + Without(b, x)
    decreases |a|
  {
    if a == [] {
      assert a + b == b;
    } else {
      assert (a + b)[1..] == a[1..] + b;
      WithoutConcat(a[1..], b, x);
    }
  }

  lemma {:induction false} WithoutAbsent(s: seq<int>, x: int)
    requires x !in s
    ensures Without(s, x) == s
    decreases |s|
  {
    if s != [] {
      assert s == [s[0]] + s[1..];
      WithoutAbsent(s[1..], x);
    }
  }

  /** Dropping the first occurrence, at `i`, and then filtering is filtering. */
  lemma WithoutDeleteFirst(s: seq<int>, i: nat, x: int)
    requires i < |s| && s[i] == x && x !in s[..i]
    ensures Without(s[..i] + s[i + 1..], x) == Without(s, x)
  {
    assert s == s[..i] + ([s[i]] + s[i + 1..]);
    WithoutConcat(s[..i], [s[i]] + s[i + 1..], x);
    WithoutConcat(s[..i], s[i + 1..], x);
    assert ([s[i]] + s[i + 1..])[1..] == s[i + 1..];
  }

  /**
   * `remove(x)`: `find` then `delete` until `find` reports -1; each delete
   * may halve the store.
   */
  function Remove(v: Vector, x: int, minCapacity: nat): (r: Vector)
    requires Valid(v)
    decreases v.length
    ensures Valid(r) && Elems(r) == Without(Elems(v), x)
    ensures Find(r, x) == -1
    ensures Capacity(r) <= Capacity(v)
    ensures minCapacity <= Capacity(v) ==> minCapacity <= Capacity(r)
  {
    var i := Find(v, x);
    if i == -1 then
      WithoutAbsent(Elems(v), x);
      v
    else
      var d := Delete(v, i, minCapacity).value;
      WithoutDeleteFirst(Elems(v), i, x);
      Remove(d, x, minCapacity)
  }
}
