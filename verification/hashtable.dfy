/**
 * The open-addressing table of code/hashtable.py: a fixed row of slots,
 * linear probing with no wrap-around, and deletion by backward shift with no
 * tombstones.
 *
 * The source hashes with MD5; here the hash is a parameter `hash` that maps a
 * key to its home slot.  Keys are strings and values of any type `V`.  The
 * source raises when a scan reads past the last slot; that is `RanOffEnd`.
 */
module HashTable {
  import opened Wrappers

  /** The reference table: 256^2 slots, indexed by two bytes of digest. */
  const ReferenceCapacity: nat := 65536

  /** One slot: `(None, None)` in the source, or a key and its value. */
  datatype Slot<V> = Empty | Full(key: string, value: V)

  /** The IndexError raised when a scan reads past the last slot. */
  datatype TableError = RanOffEnd

  /** `[(None, None)] * n`: a table with `n` slots and no key. */
  function New<V>(n: nat): (t: seq<Slot<V>>)
    ensures |t| == n
    ensures forall k :: !HasKey(t, k)
  {
    seq(n, _ => Empty)
  }

  /** A probe for `k` moves on past slot `i`: it holds some other key. */
  predicate Passes<V>(t: seq<Slot<V>>, k: string, i: nat)
    requires i < |t|
  {
    t[i].Full? && t[i].key != k
  }

  ghost predicate HasKey<V>(t: seq<Slot<V>>, k: string) {
    exists j :: 0 <= j < |t| && t[j].Full? && t[j].key == k
  }

  /** Some slot of `t` holds the entry `(k, v)`. */
  ghost predicate Holds<V>(t: seq<Slot<V>>, k: string, v: V) {
    exists j :: 0 <= j < |t| && t[j] == Full(k, v)
  }

  /**
   * The probe invariant: an entry sits at or after its home slot, and every
   * slot from its home up to it is occupied.
   */
  ghost predicate ChainsIntact<V>(t: seq<Slot<V>>, hash: string -> nat) {
    forall j :: 0 <= j < |t| && t[j].Full? ==>
      hash(t[j].key) <= j && forall p :: hash(t[j].key) <= p < j ==> t[p].Full?
  }

  ghost predicate UniqueKeys<V>(t: seq<Slot<V>>) {
    forall i, j :: 0 <= i < |t| && 0 <= j < |t| && t[i].Full? && t[j].Full? && t[i].key == t[j].key ==> i == j
  }

  /** What `add` and `remove` maintain. */
  ghost predicate Valid<V>(t: seq<Slot<V>>, hash: string -> nat) {
    ChainsIntact(t, hash) && UniqueKeys(t)
  }

  /**
   * The probe loop shared by every operation: from slot `i`, move on while
   * the slot holds a different key.  It stops at the first slot that is
   * empty or holds `k`, and raises when it runs past the last slot.
   */
  function Probe<V>(t: seq<Slot<V>>, k: string, i: nat): (r: Result<nat, TableError>)
    decreases |t| - i
    ensures r.Ok? ==> i <= r.value < |t| && !Passes(t, k, r.value)
    ensures r.Ok? ==> forall p :: i <= p < r.value ==> Passes(t, k, p)
    ensures r.Err? ==> forall p :: i <= p < |t| ==> Passes(t, k, p)
  {
    if i >= |t| then Err(RanOffEnd)
    else if t[i].Empty? || t[i].key == k then Ok(i)
    else Probe(t, k, i + 1)
  }

  /** Every slot from the home of `k` to the end holds some other key. */
  ghost predicate NoRoomFor<V>(t: seq<Slot<V>>, hash: string -> nat, k: string) {
    forall p :: hash(k) <= p < |t| ==> Passes(t, k, p)
  }

  /** `exists(k)`: whether the probe for `k` ends on `k`. */
  function Exists<V>(t: seq<Slot<V>>, hash: string -> nat, k: string): (r: Result<bool, TableError>)
    ensures r.Err? <==> NoRoomFor(t, hash, k)
    ensures r == Ok(true) ==> HasKey(t, k)
  {
    match Probe(t, k, hash(k))
    case Err(e) => Err(e)
    case Ok(j) => Ok(t[j].Full?)
  }

  /** `get(k)`: the value in the slot the probe ends on, or `None` there is none. */
  function Get<V>(t: seq<Slot<V>>, hash: string -> nat, k: string): (r: Result<Option<V>, TableError>)
    ensures r.Err? <==> NoRoomFor(t, hash, k)
    ensures r.Ok? ==> (r.value.Some? <==> Exists(t, hash, k) == Ok(true))
    ensures r.Ok? && r.value.Some? ==> Holds(t, k, r.value.value)
  {
    match Probe(t, k, hash(k))
    case Err(e) => Err(e)
    case Ok(j) => if t[j].Empty? then Ok(None) else Ok(Some(t[j].value))
  }

  /**
   * `add(k, v)`: write `(k, v)` into the slot the probe ends on, the slot of
   * `k` or the first empty one.
   */
  function Add<V>(t: seq<Slot<V>>, hash: string -> nat, k: string, v: V): (r: Result<seq<Slot<V>>, TableError>)
    ensures r.Err? <==> NoRoomFor(t, hash, k)
    ensures r.Ok? ==> exists j :: 0 <= j < |t| && !Passes(t, k, j) && r.value == t[j := Full(k, v)]
  {
    match Probe(t, k, hash(k))
    case Err(e) => Err(e)
    case Ok(j) => Ok(t[j := Full(k, v)])
  }

  /**
   * The backward shift after slot `hole` was emptied: scanning the occupied
   * run from `next`, an entry whose home is at or before the hole moves into
   * it and leaves a new hole behind.  The scan stops at the first empty slot
   * or at the end of the table (where the source raises instead; see
   * `CompactAsWritten`).
   */
  function Compact<V>(t: seq<Slot<V>>, hash: string -> nat, hole: nat, next: nat): (r: seq<Slot<V>>)
    requires hole < next <= |t|
    decreases |t| - next
    ensures |r| == |t|
    ensures r[..hole] == t[..hole]
    ensures t[hole].Empty? ==> exists p :: hole <= p < |r| && r[p].Empty?
  {
    if next == |t| || t[next].Empty? then t
    else if hash(t[next].key) <= hole then
      Compact(t[hole := t[next]][next := Empty], hash, next, next + 1)
    else Compact(t, hash, hole, next + 1)
  }

  /**
   * `remove(k)`: empty the slot the probe ends on (the slot of `k`, or an
   * empty slot when `k` is absent), then shift back the entries after it.
   */
  function Remove<V>(t: seq<Slot<V>>, hash: string -> nat, k: string): (r: Result<seq<Slot<V>>, TableError>)
    ensures r.Err? <==> NoRoomFor(t, hash, k)
    ensures r.Ok? ==> |r.value| == |t|
  {
    match Probe(t, k, hash(k))
    case Err(e) => Err(e)
    case Ok(j) => Ok(Compact(t[j := Empty], hash, j, j + 1))
  }

  /** Every slot from `i` to the end is occupied. */
  ghost predicate RunsToEnd<V>(t: seq<Slot<V>>, i: nat) {
    forall p :: i <= p < |t| ==> t[p].Full?
  }

  /**
   * The backward shift as the source writes it: the scan reads slot `next`
   * before checking the bound, so it raises whenever the occupied run
   * reaches the last slot.
   */
  function CompactAsWritten<V>(t: seq<Slot<V>>, hash: string -> nat, hole: nat, next: nat)
    : (r: Result<seq<Slot<V>>, TableError>)
    requires hole < next <= |t|
    decreases |t| - next
    ensures r.Err? <==> RunsToEnd(t, next)
    ensures r.Ok? ==> r.value == Compact(t, hash, hole, next)
  {
    if next == |t| then Err(RanOffEnd)
    else if t[next].Empty? then Ok(t)
    else if hash(t[next].key) <= hole then
      var moved := t[hole := t[next]][next := Empty];
      assert forall p :: next < p < |t| ==> moved[p] == t[p];
      CompactAsWritten(moved, hash, next, next + 1)
    else CompactAsWritten(t, hash, hole, next + 1)
  }

  /**
   * `remove(k)` as the source writes it: like `Remove`, but it also raises
   * when the occupied run after the emptied slot reaches the last slot.
   */
  function RemoveAsWritten<V>(t: seq<Slot<V>>, hash: string -> nat, k: string)
    : (r: Result<seq<Slot<V>>, TableError>)
    ensures r.Err? <==> match Probe(t, k, hash(k))
                        case Err(_) => true
                        case Ok(j) => RunsToEnd(t, j + 1)
    ensures r.Ok? ==> r == Remove(t, hash, k)
  {
    match Probe(t, k, hash(k))
    case Err(e) => Err(e)
    case Ok(j) =>
      assert forall p :: j < p < |t| ==> t[j := Empty][p] == t[p];
      CompactAsWritten(t[j := Empty], hash, j, j + 1)
  }
}
