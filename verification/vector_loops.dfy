/**
 * The loops of code/vector.py, slot by slot as the source writes them, each
 * proved to compute the closed form of the corresponding `Vectors` function.
 */
module VectorLoops {
  import opened Wrappers
  import opened Vectors

  /** `_resize`: copy the slots in use, one at a time, into a zeroed store. */
  method ResizeCopy(v: Vector, c: nat) returns (r: Result<Vector, VectorError>)
    requires Valid(v)
    ensures r == Resize(v, c)
  {
    if c < v.length {
      return Err(IndexError);
    }
    var a := Zeros(c);
    var i := 0;
    while i < v.length
      invariant i <= v.length
      invariant |a| == c
      invariant a[..i] == v.buffer[..i]
      invariant forall p :: i <= p < c ==> a[p] == 0
    {
      a := a[i := v.buffer[i]];
      i := i + 1;
    }
    assert a == v.buffer[..v.length] + Zeros(c - v.length);
    r := Ok(Vector(a, v.length));
  }

  /** The doubling step of `push` and `insert`, through the copy loop. */
  method GrowStep(v: Vector) returns (g: Vector)
    requires Valid(v)
    ensures g == GrowIfFull(v)
  {
    g := v;
    if v.length == |v.buffer| {
      var grown := ResizeCopy(v, 2 * |v.buffer|);
      g := grown.value;
    }
  }

  /** The halving step of `pop` and `delete`, through the copy loop. */
  method ShrinkStep(v: Vector, minCapacity: nat) returns (s: Vector)
    requires Valid(v)
    ensures s == ShrinkIfSparse(v, minCapacity)
  {
    s := v;
    if 4 * v.length <= |v.buffer| && minCapacity <= |v.buffer| / 2 {
      var shrunk := ResizeCopy(v, |v.buffer| / 2);
      s := shrunk.value;
    }
  }

  /**
   * `insert(i, x)`: grow if full, move slots `[i, length)` one place right
   * from the top down, then write `x` at `i`.  With capacity 0 the store
   * stays empty, the shift has nothing to do and the write raises.
   */
  method InsertShift(v: Vector, i: nat, x: int) returns (r: Result<Vector, VectorError>)
    requires Valid(v) && i <= v.length
    ensures r == Insert(v, i, x)
  {
    var g := GrowStep(v);
    if g.length >= |g.buffer| {
      return Err(IndexError);
    }
    var a := g.buffer;
    var j := g.length;
    while j > i
      invariant i <= j <= g.length
      invariant |a| == |g.buffer|
      invariant forall p :: 0 <= p <= j ==> a[p] == g.buffer[p]
      invariant forall p :: j < p <= g.length ==> a[p] == g.buffer[p - 1]
      invariant forall p :: g.length < p < |a| ==> a[p] == g.buffer[p]
    {
      a := a[j := a[j - 1]];
      j := j - 1;
    }
    a := a[i := x];
    var b := g.buffer[..i] + [x] + g.buffer[i..g.length] + g.buffer[g.length + 1..];
    assert |a| == |b|;
    forall p | 0 <= p < |a|
      ensures a[p] == b[p]
    {
      if p < i {
      } else if p == i {
      } else if p <= g.length {
        assert b[p] == g.buffer[p - 1];
      } else {
        assert b[p] == g.buffer[p];
      }
    }
    assert a == b;
    r := Ok(Vector(a, g.length + 1));
  }

  /** `push(x)`: grow if full, then write `x` just past the end. */
  method PushStep(v: Vector, x: int) returns (r: Result<Vector, VectorError>)
    requires Valid(v)
    ensures r == Push(v, x)
  {
    var g := GrowStep(v);
    if g.length >= |g.buffer| {
      return Err(IndexError);
    }
    r := Ok(Vector(g.buffer[g.length := x], g.length + 1));
  }

  /** `pop()`: read the last slot in use, drop it, halve if sparse. */
  method PopStep(v: Vector, minCapacity: nat) returns (r: Result<Popped, VectorError>)
    requires Valid(v)
    ensures r == Pop(v, minCapacity)
  {
    if v.length == 0 {
      return Err(IndexError);
    }
    var item := v.buffer[v.length - 1];
    var s := ShrinkStep(Vector(v.buffer, v.length - 1), minCapacity);
    r := Ok(Popped(s, item));
  }

  /**
   * `delete(i)`: move slots `[i + 1, length)` one place left from the bottom
   * up, drop the last slot in use, halve if sparse.
   */
  method DeleteShift(v: Vector, i: nat, minCapacity: nat) returns (r: Result<Vector, VectorError>)
    requires Valid(v)
    ensures r == Delete(v, i, minCapacity)
  {
    if i >= v.length {
      return Err(IndexError);
    }
    var a := v.buffer;
    var j := i;
    while j < v.length - 1
      invariant i <= j <= v.length - 1
      invariant |a| == |v.buffer|
      invariant forall p :: 0 <= p < i ==> a[p] == v.buffer[p]
      invariant forall p :: i <= p < j ==> a[p] == v.buffer[p + 1]
      invariant forall p :: j <= p < |a| ==> a[p] == v.buffer[p]
    {
      a := a[j := a[j + 1]];
      j := j + 1;
    }
    assert a == v.buffer[..i] + v.buffer[i + 1..v.length] + v.buffer[v.length - 1..];
    var s := ShrinkStep(Vector(a, v.length - 1), minCapacity);
    r := Ok(s);
  }

  /** `find(x)`: scan the slots in use from the front. */
  method FindScan(v: Vector, x: int) returns (r: int)
    requires Valid(v)
    ensures r == Find(v, x)
  {
    var i := 0;
    while i < v.length
      invariant i <= v.length
      invariant x !in v.buffer[..i]
    {
      if v.buffer[i] == x {
        assert Elems(v)[i] == x;
        return i;
      }
      i := i + 1;
    }
    assert Elems(v) == v.buffer[..i];
    return -1;
  }

  /** `remove(x)`: delete what `find` reports until it reports -1. */
  method RemoveLoop(v: Vector, x: int, minCapacity: nat) returns (r: Vector)
    requires Valid(v)
    ensures r == Remove(v, x, minCapacity)
  {
    r := v;
    var i := FindScan(r, x);
    while i != -1
      invariant Valid(r)
      invariant i == Find(r, x)
      invariant Remove(r, x, minCapacity) == Remove(v, x, minCapacity)
      decreases r.length
    {
      var d := DeleteShift(r, i, minCapacity);
      r := d.value;
      i := FindScan(r, x);
    }
  }
}
