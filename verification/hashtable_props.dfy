/**
 * What the operations of `HashTable` guarantee under the probe invariant:
 * lookups find exactly the stored entries, `add` and `remove` keep the
 * invariant and change the stored entries as a map update and a map
 * deletion, and the backward shift repairs every chain the removal broke.
 */
module HashTableProps {
  import opened Wrappers
  import opened HashTable

  /** The probe from `i` ends on `j` when it passes every slot before `j` and not `j`. */
  lemma ProbeEndsAt<V>(t: seq<Slot<V>>, k: string, i: nat, j: nat)
    requires i <= j < |t| && !Passes(t, k, j)
    requires forall p :: i <= p < j ==> Passes(t, k, p)
    ensures Probe(t, k, i) == Ok(j)
  {
    var r := Probe(t, k, i);
    assert r.Ok? ==> !(r.value < j) && !(j < r.value);
  }

  /** Under the invariant, the probe for a stored key ends on the slot holding it. */
  lemma ProbeFindsKey<V>(t: seq<Slot<V>>, hash: string -> nat, k: string, i: nat)
    requires Valid(t, hash) && i < |t| && t[i].Full? && t[i].key == k
    ensures Probe(t, k, hash(k)) == Ok(i)
  {
    forall p | hash(k) <= p < i
      ensures Passes(t, k, p)
    {
      assert t[p].Full?;
    }
    ProbeEndsAt(t, k, hash(k), i);
  }

  /** Under the invariant, a stored key sits nowhere but where its probe ends. */
  lemma KeyOnlyAtProbeEnd<V>(t: seq<Slot<V>>, hash: string -> nat, k: string, i: nat)
    requires Valid(t, hash) && i < |t| && t[i].Full? && t[i].key == k
    requires Probe(t, k, hash(k)).Ok?
    ensures i == Probe(t, k, hash(k)).value
  {
    ProbeFindsKey(t, hash, k, i);
  }

  /** A new table satisfies the invariant, and every key whose home fits is reported absent. */
  lemma NewTableIsEmpty<V>(n: nat, hash: string -> nat, k: string)
    requires hash(k) < n
    ensures Valid(New<V>(n), hash)
    ensures Exists(New<V>(n), hash, k) == Ok(false)
    ensures Get(New<V>(n), hash, k) == Ok(None)
  {
    ProbeEndsAt(New<V>(n), k, hash(k), hash(k));
  }

  /** `exists(k)` is true exactly when some slot holds `k`; it is false when `k` is absent and the probe finds room. */
  lemma ExistsIffStored<V>(t: seq<Slot<V>>, hash: string -> nat, k: string)
    requires Valid(t, hash)
    ensures Exists(t, hash, k) == Ok(true) <==> HasKey(t, k)
    ensures !HasKey(t, k) && !NoRoomFor(t, hash, k) ==> Exists(t, hash, k) == Ok(false)
  {
    if HasKey(t, k) {
      var i :| 0 <= i < |t| && t[i].Full? && t[i].key == k;
      ProbeFindsKey(t, hash, k, i);
    }
  }

  /** `get(k)` returns `v` exactly when the table holds `(k, v)`, and `None` for an absent key when the probe finds room. */
  lemma GetIffHolds<V>(t: seq<Slot<V>>, hash: string -> nat, k: string, v: V)
    requires Valid(t, hash)
    ensures Get(t, hash, k) == Ok(Some(v)) <==> Holds(t, k, v)
    ensures !HasKey(t, k) && !NoRoomFor(t, hash, k) ==> Get(t, hash, k) == Ok(None)
  {
    if Holds(t, k, v) {
      var i :| 0 <= i < |t| && t[i] == Full(k, v);
      ProbeFindsKey(t, hash, k, i);
    }
  }

  /** After `add(k, v)`, `get(k)` returns `v`, whatever the table held before. */
  lemma AddThenGet<V>(t: seq<Slot<V>>, hash: string -> nat, k: string, v: V)
    requires Add(t, hash, k, v).Ok?
    ensures Exists(Add(t, hash, k, v).value, hash, k) == Ok(true)
    ensures Get(Add(t, hash, k, v).value, hash, k) == Ok(Some(v))
  {
    var j := Probe(t, k, hash(k)).value;
    var r := t[j := Full(k, v)];
    assert Add(t, hash, k, v).value == r;
    forall p | hash(k) <= p < j
      ensures Passes(r, k, p)
    {
      assert Passes(t, k, p) && r[p] == t[p];
    }
    ProbeEndsAt(r, k, hash(k), j);
  }

  /** Writing into the slot the probe ends on keeps every chain intact. */
  lemma AddKeepsChains<V>(t: seq<Slot<V>>, hash: string -> nat, k: string, v: V)
    requires ChainsIntact(t, hash) && Probe(t, k, hash(k)).Ok?
    ensures ChainsIntact(t[Probe(t, k, hash(k)).value := Full(k, v)], hash)
  {
    var j := Probe(t, k, hash(k)).value;
    var r := t[j := Full(k, v)];
    assert forall p :: 0 <= p < |t| && t[p].Full? ==> r[p].Full?;
    forall i | 0 <= i < |r| && r[i].Full?
      ensures hash(r[i].key) <= i && forall p :: hash(r[i].key) <= p < i ==> r[p].Full?
    {
      if i == j {
        forall p | hash(k) <= p < j
          ensures r[p].Full?
        {
          assert Passes(t, k, p);
        }
      } else {
        assert r[i] == t[i];
        forall p | hash(r[i].key) <= p < i
          ensures r[p].Full?
        {
          assert t[p].Full?;
        }
      }
    }
  }

  /**
   * `add(k, v)` keeps the invariant and acts on the stored entries as the
   * map update `m[k := v]`: `(k, v)` is the only entry for `k`, and the
   * entries of every other key are unchanged.
   */
  lemma AddKeepsValid<V>(t: seq<Slot<V>>, hash: string -> nat, k: string, v: V)
    requires Valid(t, hash) && Add(t, hash, k, v).Ok?
    ensures Valid(Add(t, hash, k, v).value, hash)
    ensures Holds(Add(t, hash, k, v).value, k, v)
    ensures forall v' :: Holds(Add(t, hash, k, v).value, k, v') ==> v' == v
    ensures forall k', v' :: k' != k ==>
      (Holds(Add(t, hash, k, v).value, k', v') <==> Holds(t, k', v'))
  {
    var j := Probe(t, k, hash(k)).value;
    var r := t[j := Full(k, v)];
    assert Add(t, hash, k, v).value == r;
    forall i | 0 <= i < |t| && t[i].Full? && t[i].key == k
      ensures i == j
    {
      KeyOnlyAtProbeEnd(t, hash, k, i);
    }
    AddKeepsChains(t, hash, k, v);
    assert UniqueKeys(r);
    assert r[j] == Full(k, v);
    forall k', v' | k' != k
      ensures Holds(r, k', v') <==> Holds(t, k', v')
    {
      if Holds(r, k', v') {
        var i :| 0 <= i < |r| && r[i] == Full(k', v');
        assert t[i] == Full(k', v');
      }
      if Holds(t, k', v') {
        var i :| 0 <= i < |t| && t[i] == Full(k', v');
        assert r[i] == Full(k', v');
      }
    }
  }

  /**
   * `add(k, v1)` then `add(k, v2)`: the second call overwrites the slot the
   * first one wrote, so `get(k)` returns `v2` and `k` occupies one slot.
   */
  lemma AddTwice<V>(t: seq<Slot<V>>, hash: string -> nat, k: string, v1: V, v2: V)
    requires Valid(t, hash) && Add(t, hash, k, v1).Ok?
    ensures Add(Add(t, hash, k, v1).value, hash, k, v2).Ok?
    ensures Add(Add(t, hash, k, v1).value, hash, k, v2).value
         == t[Probe(t, k, hash(k)).value := Full(k, v2)]
    ensures Get(Add(Add(t, hash, k, v1).value, hash, k, v2).value, hash, k) == Ok(Some(v2))
    ensures forall v :: Holds(Add(Add(t, hash, k, v1).value, hash, k, v2).value, k, v) ==> v == v2
  {
    var j := Probe(t, k, hash(k)).value;
    var t1 := t[j := Full(k, v1)];
    assert Add(t, hash, k, v1).value == t1;
    forall p | hash(k) <= p < j
      ensures Passes(t1, k, p)
    {
      assert Passes(t, k, p) && t1[p] == t[p];
    }
    ProbeEndsAt(t1, k, hash(k), j);
    AddKeepsValid(t, hash, k, v1);
    AddKeepsValid(t1, hash, k, v2);
    AddThenGet(t1, hash, k, v2);
    assert t1[j := Full(k, v2)] == t[j := Full(k, v2)];
  }

  /** Every chain is intact except possibly where it crosses `hole`. */
  ghost predicate ChainsIntactBut<V>(t: seq<Slot<V>>, hash: string -> nat, hole: nat) {
    forall j :: 0 <= j < |t| && t[j].Full? ==>
      hash(t[j].key) <= j && forall p :: hash(t[j].key) <= p < j && p != hole ==> t[p].Full?
  }

  /**
   * The state of the backward shift: `hole` is empty, only chains through
   * it may be broken, and the entries scanned since it have homes past it.
   */
  ghost predicate ShiftState<V>(t: seq<Slot<V>>, hash: string -> nat, hole: nat, next: nat) {
    && hole < next <= |t|
    && t[hole].Empty?
    && ChainsIntactBut(t, hash, hole)
    && forall j :: hole < j < next ==> t[j].Full? && hash(t[j].key) > hole
  }

  /** A scan that reached an empty slot or the end leaves every chain intact. */
  lemma ShiftStopRestores<V>(t: seq<Slot<V>>, hash: string -> nat, hole: nat, next: nat)
    requires ShiftState(t, hash, hole, next) && (next == |t| || t[next].Empty?)
    ensures ChainsIntact(t, hash)
  {
    forall j | 0 <= j < |t| && t[j].Full?
      ensures hash(t[j].key) <= j && forall p :: hash(t[j].key) <= p < j ==> t[p].Full?
    {
      if next < j {
        assert !t[next].Full?;
      }
    }
  }

  /** Moving an entry whose home is at or before the hole into it leaves a shift state at its old slot. */
  lemma ShiftMoveKeepsState<V>(t: seq<Slot<V>>, hash: string -> nat, hole: nat, next: nat)
    requires ShiftState(t, hash, hole, next) && next < |t| && t[next].Full? && hash(t[next].key) <= hole
    ensures ShiftState(t[hole := t[next]][next := Empty], hash, next, next + 1)
  {
    var m := t[hole := t[next]][next := Empty];
    forall j | 0 <= j < |m| && m[j].Full?
      ensures hash(m[j].key) <= j && forall p :: hash(m[j].key) <= p < j && p != next ==> m[p].Full?
    {
      if j == hole {
        assert m[j] == t[next];
      } else {
        assert m[j] == t[j];
      }
    }
  }

  /** The backward shift re-establishes every chain. */
  lemma {:induction false} CompactRestoresChains<V>(t: seq<Slot<V>>, hash: string -> nat, hole: nat, next: nat)
    requires ShiftState(t, hash, hole, next)
    ensures ChainsIntact(Compact(t, hash, hole, next), hash)
    decreases |t| - next
  {
    if next == |t| || t[next].Empty? {
      ShiftStopRestores(t, hash, hole, next);
    } else if hash(t[next].key) <= hole {
      ShiftMoveKeepsState(t, hash, hole, next);
      CompactRestoresChains(t[hole := t[next]][next := Empty], hash, next, next + 1);
    } else {
      CompactRestoresChains(t, hash, hole, next + 1);
    }
  }

  /** Moving the entry at `b` into the empty slot `a` keeps the stored entries and their uniqueness. */
  lemma MoveKeepsEntries<V>(t: seq<Slot<V>>, a: nat, b: nat)
    requires a < |t| && b < |t| && a != b && t[a].Empty? && t[b].Full?
    ensures forall k, v :: Holds(t[a := t[b]][b := Empty], k, v) <==> Holds(t, k, v)
    ensures UniqueKeys(t) ==> UniqueKeys(t[a := t[b]][b := Empty])
  {
    var m := t[a := t[b]][b := Empty];
    forall k, v
      ensures Holds(m, k, v) <==> Holds(t, k, v)
    {
      if Holds(m, k, v) {
        var j :| 0 <= j < |m| && m[j] == Full(k, v);
        var j' := if j == a then b else j;
        assert t[j'] == Full(k, v);
      }
      if Holds(t, k, v) {
        var j :| 0 <= j < |t| && t[j] == Full(k, v);
        var j' := if j == b then a else j;
        assert m[j'] == Full(k, v);
      }
    }
    if UniqueKeys(t) {
      forall i, j | 0 <= i < |m| && 0 <= j < |m| && m[i].Full? && m[j].Full? && m[i].key == m[j].key
        ensures i == j
      {
        var i' := if i == a then b else i;
        var j' := if j == a then b else j;
        assert t[i'] == m[i] && t[j'] == m[j];
      }
    }
  }

  /** The backward shift only moves entries: the stored entries and their uniqueness survive it. */
  lemma {:induction false} CompactKeepsEntries<V>(t: seq<Slot<V>>, hash: string -> nat, hole: nat, next: nat)
    requires hole < next <= |t| && t[hole].Empty?
    ensures forall k, v :: Holds(Compact(t, hash, hole, next), k, v) <==> Holds(t, k, v)
    ensures UniqueKeys(t) ==> UniqueKeys(Compact(t, hash, hole, next))
    decreases |t| - next
  {
    if next == |t| || t[next].Empty? {
    } else if hash(t[next].key) <= hole {
      MoveKeepsEntries(t, hole, next);
      CompactKeepsEntries(t[hole := t[next]][next := Empty], hash, next, next + 1);
    } else {
      CompactKeepsEntries(t, hash, hole, next + 1);
    }
  }

  /** With every chain intact, no entry after an empty slot has its home at or before it: the shift moves nothing. */
  lemma {:induction false} CompactMovesNothing<V>(t: seq<Slot<V>>, hash: string -> nat, hole: nat, next: nat)
    requires hole < next <= |t| && t[hole].Empty? && ChainsIntact(t, hash)
    ensures Compact(t, hash, hole, next) == t
    decreases |t| - next
  {
    if next < |t| && t[next].Full? {
      assert !t[hole].Full?;
      CompactMovesNothing(t, hash, hole, next + 1);
    }
  }

  /** Emptying a slot of a valid table leaves a backward-shift state at that slot. */
  lemma ClearStartsShift<V>(t: seq<Slot<V>>, hash: string -> nat, j: nat)
    requires Valid(t, hash) && j < |t|
    ensures ShiftState(t[j := Empty], hash, j, j + 1)
    ensures UniqueKeys(t[j := Empty])
  {
    var t1 := t[j := Empty];
    forall i | 0 <= i < |t1| && t1[i].Full?
      ensures hash(t1[i].key) <= i && forall p :: hash(t1[i].key) <= p < i && p != j ==> t1[p].Full?
    {
      assert t1[i] == t[i];
    }
  }

  /** Emptying a slot that is empty or holds `k` leaves the entries of every other key. */
  lemma ClearKeepsOthers<V>(t: seq<Slot<V>>, k: string, j: nat)
    requires j < |t| && !Passes(t, k, j)
    ensures forall k', v :: k' != k ==> (Holds(t[j := Empty], k', v) <==> Holds(t, k', v))
  {
    forall k', v | k' != k
      ensures Holds(t[j := Empty], k', v) <==> Holds(t, k', v)
    {
      if Holds(t, k', v) {
        var i :| 0 <= i < |t| && t[i] == Full(k', v);
        assert t[j := Empty][i] == Full(k', v);
      }
    }
  }

  /** Under the invariant, emptying the slot the probe for `k` ends on leaves `k` nowhere. */
  lemma ClearDropsKey<V>(t: seq<Slot<V>>, hash: string -> nat, k: string)
    requires Valid(t, hash) && Probe(t, k, hash(k)).Ok?
    ensures !HasKey(t[Probe(t, k, hash(k)).value := Empty], k)
  {
    var j := Probe(t, k, hash(k)).value;
    forall i | 0 <= i < |t| && t[i].Full? && t[i].key == k
      ensures i == j
    {
      KeyOnlyAtProbeEnd(t, hash, k, i);
    }
  }

  /**
   * `remove(k)` keeps the invariant and acts on the stored entries as the
   * map deletion `m - {k}`: `k` is gone, so `exists(k)` is false, and the
   * entries of every other key are unchanged.
   */
  lemma RemoveKeepsValid<V>(t: seq<Slot<V>>, hash: string -> nat, k: string)
    requires Valid(t, hash) && Remove(t, hash, k).Ok?
    ensures Valid(Remove(t, hash, k).value, hash)
    ensures !HasKey(Remove(t, hash, k).value, k)
    ensures Exists(Remove(t, hash, k).value, hash, k) == Ok(false)
    ensures forall k', v :: k' != k ==> (Holds(Remove(t, hash, k).value, k', v) <==> Holds(t, k', v))
  {
    var j := Probe(t, k, hash(k)).value;
    var t1 := t[j := Empty];
    var r := Compact(t1, hash, j, j + 1);
    assert Remove(t, hash, k).value == r;
    ClearStartsShift(t, hash, j);
    CompactRestoresChains(t1, hash, j, j + 1);
    CompactKeepsEntries(t1, hash, j, j + 1);
    ClearKeepsOthers(t, k, j);
    ClearDropsKey(t, hash, k);
    RemovedStaysAbsent(t1, r, k);
    var p :| j <= p < |r| && r[p].Empty?;
    ProbeReachesEmpty(r, k, hash(k), p);
  }

  /** A table with the same entries as one without `k` has no `k` either. */
  lemma RemovedStaysAbsent<V>(t: seq<Slot<V>>, r: seq<Slot<V>>, k: string)
    requires !HasKey(t, k)
    requires forall k', v :: Holds(r, k', v) <==> Holds(t, k', v)
    ensures !HasKey(r, k)
  {
    if HasKey(r, k) {
      var q :| 0 <= q < |r| && r[q].Full? && r[q].key == k;
      assert Holds(r, k, r[q].value);
    }
  }

  /** A probe from `i` for a key the table lacks, with an empty slot ahead, reports the key absent. */
  lemma ProbeReachesEmpty<V>(t: seq<Slot<V>>, k: string, i: nat, p: nat)
    requires i <= p < |t| && t[p].Empty? && !HasKey(t, k)
    ensures Probe(t, k, i).Ok? && t[Probe(t, k, i).value].Empty?
  {
    assert !Passes(t, k, p);
  }

  /** Removing an absent key empties a slot that is already empty and moves nothing. */
  lemma RemoveAbsentIsNoop<V>(t: seq<Slot<V>>, hash: string -> nat, k: string)
    requires Valid(t, hash) && !HasKey(t, k) && Remove(t, hash, k).Ok?
    ensures Remove(t, hash, k).value == t
  {
    var j := Probe(t, k, hash(k)).value;
    assert t[j := Empty] == t;
    CompactMovesNothing(t, hash, j, j + 1);
  }

  /**
   * As written, removing the key held in the last slot raises: the scan
   * reads the slot after it.  The corrected `Remove` succeeds and drops it.
   */
  lemma RemoveOfLastSlotRaises<V>(t: seq<Slot<V>>, hash: string -> nat, k: string)
    requires Valid(t, hash) && |t| > 0 && t[|t| - 1].Full? && t[|t| - 1].key == k
    ensures RemoveAsWritten(t, hash, k) == Err(RanOffEnd)
    ensures Remove(t, hash, k).Ok? && !HasKey(Remove(t, hash, k).value, k)
  {
    ProbeFindsKey(t, hash, k, |t| - 1);
    RemoveKeepsValid(t, hash, k);
  }

  function HomeZero(k: string): nat {
    0
  }

  /**
   * As written, removing the key in the last slot raises: the scan reads
   * the slot after it.  A one-slot table holding "First" shows it; the
   * corrected `Remove` empties the table.
   */
  lemma RemoveAtLastSlotRaises()
    ensures Valid([Full("First", 13)], HomeZero)
    ensures RemoveAsWritten([Full("First", 13)], HomeZero, "First") == Err(RanOffEnd)
    ensures Remove([Full("First", 13)], HomeZero, "First") == Ok([Empty])
  {
    var t := [Full("First", 13)];
    ProbeEndsAt(t, "First", 0, 0);
    assert t[0 := Empty] == [Empty];
  }

  /**
   * The usage scenario of code/hashtable.py on a new table of any size that
   * has room for both keys' homes.  The final `remove` is the corrected one;
   * the source's `remove` agrees with it, except that it raises when the home
   * of "First" is the last slot.
   */
  lemma SelfTestScenario(n: nat, hash: string -> nat)
    requires hash("First") < n && hash("Not yet") < n
    ensures Exists(New<int>(n), hash, "Not yet") == Ok(false)
    ensures Add(New<int>(n), hash, "First", 13).Ok?
    ensures Exists(Add(New<int>(n), hash, "First", 13).value, hash, "First") == Ok(true)
    ensures Get(Add(New<int>(n), hash, "First", 13).value, hash, "First") == Ok(Some(13))
    ensures Add(Add(New<int>(n), hash, "First", 13).value, hash, "First", 14).Ok?
    ensures Get(Add(Add(New<int>(n), hash, "First", 13).value, hash, "First", 14).value, hash, "First") == Ok(Some(14))
    ensures Remove(Add(Add(New<int>(n), hash, "First", 13).value, hash, "First", 14).value, hash, "First").Ok?
    ensures Exists(Remove(Add(Add(New<int>(n), hash, "First", 13).value, hash, "First", 14).value, hash, "First").value,
                   hash, "First") == Ok(false)
    ensures RemoveAsWritten(Add(Add(New<int>(n), hash, "First", 13).value, hash, "First", 14).value, hash, "First").Err?
        <==> hash("First") == n - 1
    ensures hash("First") + 1 < n ==>
              RemoveAsWritten(Add(Add(New<int>(n), hash, "First", 13).value, hash, "First", 14).value, hash, "First")
              == Remove(Add(Add(New<int>(n), hash, "First", 13).value, hash, "First", 14).value, hash, "First")
  {
    var t := New<int>(n);
    NewTableIsEmpty<int>(n, hash, "Not yet");
    NewTableIsEmpty<int>(n, hash, "First");
    var t1 := Add(t, hash, "First", 13).value;
    AddThenGet(t, hash, "First", 13);
    AddKeepsValid(t, hash, "First", 13);
    AddTwice(t, hash, "First", 13, 14);
    var t2 := Add(t1, hash, "First", 14).value;
    AddKeepsValid(t1, hash, "First", 14);
    assert !NoRoomFor(t2, hash, "First");
    RemoveKeepsValid(t2, hash, "First");
    var j := hash("First");
    ProbeEndsAt(t, "First", j, j);
    assert t1 == t[j := Full("First", 13)];
    ProbeEndsAt(t1, "First", j, j);
    assert t2 == t1[j := Full("First", 14)];
    ProbeEndsAt(t2, "First", j, j);
    if j + 1 < n {
      assert t2[j + 1].Empty?;
    }
  }
}
