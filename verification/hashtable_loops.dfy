/**
 * The loops of code/hashtable.py as the source writes them, each proved to
 * compute the corresponding `HashTable` function.
 */
module HashTableLoops {
  import opened Wrappers
  import opened HashTable

  /**
   * The probe loop: move on while the slot holds another key.  Reading a
   * slot past the end raises, which is the only way the loop fails; the
   * source's separate test for index 65536 is never reached, because the
   * read of that slot has already raised.
   */
  method ProbeScan<V>(t: seq<Slot<V>>, k: string, start: nat) returns (r: Result<nat, TableError>)
    ensures r == Probe(t, k, start)
  {
    var idx := start;
    while idx < |t| && Passes(t, k, idx)
      invariant start <= idx
      invariant Probe(t, k, idx) == Probe(t, k, start)
      decreases |t| - idx
    {
      idx := idx + 1;
    }
    if idx >= |t| {
      return Err(RanOffEnd);
    }
    return Ok(idx);
  }

  /**
   * `remove(k)` as the source writes it, with the table it leaves behind:
   * probe, empty the slot found, then scan on, moving each entry whose home
   * is at or before the hole into it.  The source's test of the slot after
   * the hole is the scan's first step.  `raised` reports the IndexError of
   * reading past the last slot; when it comes from the scan, the slot has
   * already been emptied and entries already moved, and what is left is
   * exactly the table the corrected `Remove` produces.
   */
  method RemoveScan<V>(t: seq<Slot<V>>, hash: string -> nat, k: string) returns (r: seq<Slot<V>>, raised: bool)
    ensures raised <==> RemoveAsWritten(t, hash, k).Err?
    ensures !raised ==> RemoveAsWritten(t, hash, k) == Ok(r)
    ensures Remove(t, hash, k).Ok? ==> r == Remove(t, hash, k).value
    ensures Remove(t, hash, k).Err? ==> r == t
  {
    var probe := ProbeScan(t, k, hash(k));
    if probe.Err? {
      return t, true;
    }
    var j := probe.value;
    var idx: nat := j;
    r := t[j := Empty];
    var next: nat := j + 1;
    assert forall p :: j < p < |t| ==> r[p] == t[p];
    raised := false;
    while true
      invariant idx < next <= |r| == |t|
      invariant r[idx].Empty?
      invariant Compact(r, hash, idx, next) == Compact(t[j := Empty], hash, j, j + 1)
      invariant CompactAsWritten(r, hash, idx, next) == CompactAsWritten(t[j := Empty], hash, j, j + 1)
      decreases |r| - next
    {
      if next == |r| {
        raised := true;
        return;
      }
      if r[next].Empty? {
        break;
      }
      if hash(r[next].key) <= idx {
        r := r[idx := r[next]][next := Empty];
        idx := next;
      }
      next := next + 1;
    }
  }
}
