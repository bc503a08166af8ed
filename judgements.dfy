/**
 * Registrar judgements and the per-identity judgement list.
 *
 * A registration keeps its judgements as `(RegistrarIndex, Judgement)`
 * pairs, ordered by registrar index with at most one entry per registrar.
 * The pallet finds an entry with a binary search by key and then
 * overwrites, inserts or removes at the position found. `Find`, `Upsert`
 * and `Remove` are reference definitions of those edits by linear
 * recursion; the lemmas below tie the position-based edits to them.
 */
module Judgements {
  import opened Wrappers

  /** `2^32`: the `u32` range, and the modulus of a cast to `u32`. */
  const U32_MODULUS: nat := 0x1_0000_0000

  /** Rust's `u32`. */
  type u32 = n: nat | n < U32_MODULUS

  /** A registrar's position in the registrar list. */
  type RegistrarIndex = u32

  /** A registrar's opinion of an identity; `FeePaid` holds a reserved fee. */
  datatype Judgement =
    | Unknown
    | FeePaid(fee: nat)
    | Reasonable
    | KnownGood
    | OutOfDate
    | LowQuality
    | Erroneous

  /** A deposit is held for this judgement. */
  predicate HasDeposit(j: Judgement) {
    match j
    case FeePaid(_) => true
    case _ => false
  }

  /** This judgement is not replaced except by a specialised handler. */
  predicate IsSticky(j: Judgement) {
    match j
    case FeePaid(_) | Erroneous => true
    case _ => false
  }

  /** Judgement rules: only `FeePaid` holds a deposit; `FeePaid` and `Erroneous` are sticky. */
  lemma JudgementRules(j: Judgement)
    ensures HasDeposit(j) <==> j.FeePaid?
    ensures IsSticky(j) <==> j.FeePaid? || j == Erroneous
    ensures HasDeposit(j) ==> IsSticky(j)
  {
  }

  type Entry = (RegistrarIndex, Judgement)

  /** The amount a judgement holds in reserve: the fee of `FeePaid`, zero otherwise. */
  function HeldFee(j: Judgement): (f: nat)
    ensures f > 0 ==> HasDeposit(j)
  {
    if j.FeePaid? then j.fee else 0
  }

  /** `HeldFee` of an optional judgement, zero when absent. */
  function HeldFeeOf(o: Option<Judgement>): nat {
    if o.Some? then HeldFee(o.value) else 0
  }

  /** The sum of the fees held by the judgements of a list. */
  function FeesHeld(js: seq<Entry>): (t: nat)
    ensures t == 0 <==> forall i | 0 <= i < |js| :: HeldFee(js[i].1) == 0
  {
    if js == [] then 0 else HeldFee(js[0].1) + FeesHeld(js[1..])
  }

  /** Ordered by registrar index (what a binary search by key needs). */
  ghost predicate SortedByKey(js: seq<Entry>) {
    forall i, k :: 0 <= i < k < |js| ==> js[i].0 <= js[k].0
  }

  /** Strictly ordered by registrar index: sorted, at most one entry per registrar. */
  ghost predicate StrictlySorted(js: seq<Entry>) {
    forall i, k :: 0 <= i < k < |js| ==> js[i].0 < js[k].0
  }

  /** Every entry refers to a registrar index below `n`. */
  ghost predicate IndicesBelow(js: seq<Entry>, n: nat) {
    forall i :: 0 <= i < |js| ==> js[i].0 < n
  }

  /** The judgement of registrar `key`, if the list has one (the first one, by position). */
  function Find(js: seq<Entry>, key: RegistrarIndex): (r: Option<Judgement>)
    ensures r.Some? ==> (key, r.value) in js
    ensures r.None? <==> forall e | e in js :: e.0 != key
  {
    if js == [] then None
    else if js[0].0 == key then Some(js[0].1)
    else Find(js[1..], key)
  }

  /** The list with registrar `key`'s judgement set to `j`: its entry replaced, or one inserted in order. */
  function Upsert(js: seq<Entry>, key: RegistrarIndex, j: Judgement): (r: seq<Entry>)
    ensures |r| == |js| || |r| == |js| + 1
    ensures (key, j) in r
    ensures forall e | e in r :: e == (key, j) || e in js
  {
    if js == [] then [(key, j)]
    else if js[0].0 == key then [(key, j)] + js[1..]
    else if key < js[0].0 then [(key, j)] + js
    else [js[0]] + Upsert(js[1..], key, j)
  }

  /** The list without registrar `key`'s entry (the first one, by position). */
  function Remove(js: seq<Entry>, key: RegistrarIndex): (r: seq<Entry>)
    ensures |r| == |js| || |r| + 1 == |js|
    ensures forall e | e in r :: e in js
  {
    if js == [] then []
    else if js[0].0 == key then js[1..]
    else [js[0]] + Remove(js[1..], key)
  }

  /** The list with only its sticky judgements, in their original order (`retain(is_sticky)`). */
  function RetainSticky(js: seq<Entry>): (r: seq<Entry>)
    ensures |r| <= |js|
    ensures forall e | e in r :: e in js && IsSticky(e.1)
    ensures forall e | e in js && IsSticky(e.1) :: e in r
  {
    if js == [] then []
    else if IsSticky(js[0].1) then [js[0]] + RetainSticky(js[1..])
    else RetainSticky(js[1..])
  }

  /**
   * Binary search of a list sorted by registrar index (the standard
   * library's `binary_search_by_key`): either a position holding `key`, or
   * the position where `key` would be inserted to keep the order.
   */
  method BinarySearchByKey(js: seq<Entry>, key: RegistrarIndex) returns (found: bool, pos: nat)
    requires SortedByKey(js)
    ensures pos <= |js|
    ensures found ==> pos < |js| && js[pos].0 == key
    ensures !found ==> forall i :: 0 <= i < |js| ==> (i < pos ==> js[i].0 < key) && (pos <= i ==> key < js[i].0)
  {
    var lo, hi := 0, |js|;
    while lo < hi
      invariant 0 <= lo <= hi <= |js|
      invariant forall i :: 0 <= i < lo ==> js[i].0 < key
      invariant forall i :: hi <= i < |js| ==> key < js[i].0
    {
      var mid := lo + (hi - lo) / 2;
      if js[mid].0 < key {
        lo := mid + 1;
      } else if key < js[mid].0 {
        hi := mid;
      } else {
        return true, mid;
      }
    }
    return false, lo;
  }

  // ---------------------------------------------------------------------
  // The fees a list holds

  /** Every single held fee is part of the total. */
  lemma {:induction false} FeesHeldCovers(js: seq<Entry>, i: nat)
    requires i < |js|
    ensures HeldFee(js[i].1) <= FeesHeld(js)
  {
    if i > 0 {
      FeesHeldCovers(js[1..], i - 1);
    }
  }

  // ---------------------------------------------------------------------
  // Positions found by the binary search versus the reference definitions

  /** The tail of a strictly sorted list is strictly sorted. */
  lemma StrictlySortedTail(js: seq<Entry>)
    requires StrictlySorted(js) && js != []
    ensures StrictlySorted(js[1..])
  {
    forall i, k | 0 <= i < k < |js| - 1 ensures js[1..][i].0 < js[1..][k].0 {
      assert js[1..][i] == js[i + 1] && js[1..][k] == js[k + 1];
    }
  }

  /** Every entry after the first of a strictly sorted list has a larger index. */
  lemma HeadBelowTail(js: seq<Entry>)
    requires StrictlySorted(js) && js != []
    ensures forall e | e in js[1..] :: js[0].0 < e.0
  {
    forall e | e in js[1..] ensures js[0].0 < e.0 {
      var i :| 0 <= i < |js[1..]| && js[1..][i] == e;
      assert js[i + 1] == e;
    }
  }

  /** An entry below everything in a strictly sorted list may be put in front of it. */
  lemma ConsSorted(x: Entry, js: seq<Entry>)
    requires StrictlySorted(js)
    requires forall e | e in js :: x.0 < e.0
    ensures StrictlySorted([x] + js)
  {
    forall i, k | 0 <= i < k < |js| + 1 ensures ([x] + js)[i].0 < ([x] + js)[k].0 {
      assert ([x] + js)[k] == js[k - 1];
      if i > 0 {
        assert ([x] + js)[i] == js[i - 1];
      } else {
        assert js[k - 1] in js;
      }
    }
  }

  /** In a strictly sorted list, the first registrar has no second entry. */
  lemma HeadKeyUnique(js: seq<Entry>)
    requires StrictlySorted(js) && js != []
    ensures Find(js[1..], js[0].0) == None
  {
    forall e | e in js[1..] ensures e.0 != js[0].0 {
      var i :| 0 <= i < |js[1..]| && js[1..][i] == e;
      assert js[0].0 < js[i + 1].0;
    }
  }

  /** In a strictly sorted list, the entry at a position holding `key` is what `Find` returns. */
  lemma {:induction false} FindAt(js: seq<Entry>, pos: nat)
    requires StrictlySorted(js) && pos < |js|
    ensures Find(js, js[pos].0) == Some(js[pos].1)
  {
    if pos > 0 {
      assert js[0].0 < js[pos].0;
      assert js[1..][pos - 1] == js[pos];
      FindAt(js[1..], pos - 1);
    }
  }

  /** Overwriting the entry at a position holding `key` is `Upsert`. */
  lemma {:induction false} UpsertAt(js: seq<Entry>, pos: nat, j: Judgement)
    requires StrictlySorted(js) && pos < |js|
    ensures Upsert(js, js[pos].0, j) == js[pos := (js[pos].0, j)]
  {
    if pos > 0 {
      var key := js[pos].0;
      assert js[0].0 < key;
      assert js[1..][pos - 1] == js[pos];
      UpsertAt(js[1..], pos - 1, j);
      assert js[pos := (key, j)] == [js[0]] + js[1..][pos - 1 := (key, j)];
    }
  }

  /** Inserting at the gap the binary search reports for a missing `key` is `Upsert`. */
  lemma {:induction false} UpsertInsertAt(js: seq<Entry>, pos: nat, key: RegistrarIndex, j: Judgement)
    requires pos <= |js|
    requires forall i :: 0 <= i < pos ==> js[i].0 < key
    requires forall i :: pos <= i < |js| ==> key < js[i].0
    ensures Upsert(js, key, j) == js[..pos] + [(key, j)] + js[pos..]
  {
    if pos > 0 {
      UpsertInsertAt(js[1..], pos - 1, key, j);
      assert js[..pos] == [js[0]] + js[1..][..pos - 1];
      assert js[pos..] == js[1..][pos - 1..];
    } else if js != [] {
      assert key < js[0].0;
    }
  }

  /**
   * Binary search for `key`, then overwrite its entry in place or insert a new one at the
   * position the search reports; also returns the judgement that was there before.
   */
  method SearchAndUpsert(js: seq<Entry>, key: RegistrarIndex, j: Judgement)
    returns (r: seq<Entry>, previous: Option<Judgement>)
    requires StrictlySorted(js)
    ensures r == Upsert(js, key, j) && previous == Find(js, key)
  {
    var found, pos := BinarySearchByKey(js, key);
    if found {
      FindAt(js, pos);
      UpsertAt(js, pos, j);
      previous := Some(js[pos].1);
      r := js[pos := (key, j)];
    } else {
      UpsertInsertAt(js, pos, key, j);
      previous := None;
      r := js[..pos] + [(key, j)] + js[pos..];
    }
  }

  /** Removing the entry at a position holding `key` is `Remove`. */
  lemma {:induction false} RemoveAt(js: seq<Entry>, pos: nat)
    requires StrictlySorted(js) && pos < |js|
    ensures Remove(js, js[pos].0) == js[..pos] + js[pos + 1..]
  {
    if pos > 0 {
      var key, tail := js[pos].0, js[1..];
      assert tail[pos - 1] == js[pos];
      assert Remove(js, key) == [js[0]] + Remove(tail, key) by {
        assert js[0].0 < key;
      }
      StrictlySortedTail(js);
      RemoveAt(tail, pos - 1);
      assert js[..pos] == [js[0]] + tail[..pos - 1];
      assert js[pos + 1..] == tail[pos..];
    }
  }

  // ---------------------------------------------------------------------
  // Upsert

  /** `Upsert` keeps a list strictly sorted. */
  lemma {:induction false} UpsertSorted(js: seq<Entry>, key: RegistrarIndex, j: Judgement)
    requires StrictlySorted(js)
    ensures StrictlySorted(Upsert(js, key, j))
  {
    if js != [] && js[0].0 < key {
      var tail := js[1..];
      StrictlySortedTail(js);
      UpsertSorted(tail, key, j);
      HeadBelowTail(js);
      ConsSorted(js[0], Upsert(tail, key, j));
    }
  }

  /** After `Upsert`, registrar `key` has judgement `j` and every other registrar is untouched. */
  lemma {:induction false} UpsertFind(js: seq<Entry>, key: RegistrarIndex, j: Judgement, other: RegistrarIndex)
    ensures Find(Upsert(js, key, j), other) == if other == key then Some(j) else Find(js, other)
  {
    if js != [] && js[0].0 != key && key > js[0].0 {
      UpsertFind(js[1..], key, j, other);
    }
  }

  /** `Upsert` trades the fee held by the replaced judgement for the fee held by the new one. */
  lemma {:induction false} UpsertFees(js: seq<Entry>, key: RegistrarIndex, j: Judgement)
    requires SortedByKey(js)
    ensures FeesHeld(Upsert(js, key, j)) + HeldFeeOf(Find(js, key)) == FeesHeld(js) + HeldFee(j)
  {
    if js == [] {
    } else if js[0].0 == key {
      assert Upsert(js, key, j)[1..] == js[1..];
    } else if key < js[0].0 {
      assert Find(js, key) == None by {
        forall e | e in js ensures e.0 != key {
          var i :| 0 <= i < |js| && js[i] == e;
          assert js[0].0 <= js[i].0;
        }
      }
      assert Upsert(js, key, j)[1..] == js;
    } else {
      UpsertFees(js[1..], key, j);
      assert Upsert(js, key, j)[1..] == Upsert(js[1..], key, j);
    }
  }

  /** `Upsert` with an index below `n` keeps every index below `n`. */
  lemma UpsertIndicesBelow(js: seq<Entry>, key: RegistrarIndex, j: Judgement, n: nat)
    requires IndicesBelow(js, n) && key < n
    ensures IndicesBelow(Upsert(js, key, j), n)
  {
    var r := Upsert(js, key, j);
    forall i | 0 <= i < |r| ensures r[i].0 < n {
      assert r[i] in r;
      if r[i] != (key, j) {
        var k :| 0 <= k < |js| && js[k] == r[i];
      }
    }
  }

  // ---------------------------------------------------------------------
  // Remove

  /** `Remove` keeps a list strictly sorted. */
  lemma {:induction false} RemoveSorted(js: seq<Entry>, key: RegistrarIndex)
    requires StrictlySorted(js)
    ensures StrictlySorted(Remove(js, key))
  {
    if js != [] && js[0].0 != key {
      var tail := js[1..];
      RemoveSorted(tail, key);
      var r := Remove(js, key);
      assert r == [js[0]] + Remove(tail, key);
      forall i | 1 <= i < |r| ensures js[0].0 < r[i].0 {
        assert r[i] in Remove(tail, key);
        assert r[i] in tail;
      }
    }
  }

  /** After `Remove` on a strictly sorted list, registrar `key` has no entry and every other registrar is untouched. */
  lemma {:induction false} RemoveFind(js: seq<Entry>, key: RegistrarIndex, other: RegistrarIndex)
    requires StrictlySorted(js)
    ensures Find(Remove(js, key), other) == if other == key then None else Find(js, other)
  {
    if js == [] {
    } else if js[0].0 == key {
      if other == key {
        HeadKeyUnique(js);
      }
    } else {
      RemoveFind(js[1..], key, other);
    }
  }

  /** `Remove` releases exactly the fee held by the removed judgement. */
  lemma {:induction false} RemoveFees(js: seq<Entry>, key: RegistrarIndex)
    ensures FeesHeld(Remove(js, key)) + HeldFeeOf(Find(js, key)) == FeesHeld(js)
  {
    if js != [] && js[0].0 != key {
      RemoveFees(js[1..], key);
      assert Remove(js, key)[1..] == Remove(js[1..], key);
    }
  }

  /** `Remove` keeps every index below `n`. */
  lemma RemoveIndicesBelow(js: seq<Entry>, key: RegistrarIndex, n: nat)
    requires IndicesBelow(js, n)
    ensures IndicesBelow(Remove(js, key), n)
  {
    var r := Remove(js, key);
    forall i | 0 <= i < |r| ensures r[i].0 < n {
      assert r[i] in r;
      var k :| 0 <= k < |js| && js[k] == r[i];
    }
  }

  // ---------------------------------------------------------------------
  // RetainSticky

  /** Dropping the non-sticky judgements releases no fee: every fee-holding judgement is sticky. */
  lemma {:induction false} RetainStickyFees(js: seq<Entry>)
    ensures FeesHeld(RetainSticky(js)) == FeesHeld(js)
  {
    if js != [] {
      RetainStickyFees(js[1..]);
      if IsSticky(js[0].1) {
        assert RetainSticky(js)[1..] == RetainSticky(js[1..]);
      }
    }
  }

  /** `RetainSticky` keeps a list strictly sorted. */
  lemma {:induction false} RetainStickySorted(js: seq<Entry>)
    requires StrictlySorted(js)
    ensures StrictlySorted(RetainSticky(js))
  {
    if js != [] {
      var tail := js[1..];
      StrictlySortedTail(js);
      RetainStickySorted(tail);
      if IsSticky(js[0].1) {
        HeadBelowTail(js);
        ConsSorted(js[0], RetainSticky(tail));
      }
    }
  }

  /** After `RetainSticky` on a strictly sorted list, a registrar keeps its judgement exactly when it is sticky. */
  lemma {:induction false} RetainStickyFind(js: seq<Entry>, key: RegistrarIndex)
    requires StrictlySorted(js)
    ensures Find(RetainSticky(js), key) ==
            if Find(js, key).Some? && IsSticky(Find(js, key).value) then Find(js, key) else None
  {
    if js != [] {
      var tail := js[1..];
      RetainStickyFind(tail, key);
      if js[0].0 == key && !IsSticky(js[0].1) {
        HeadKeyUnique(js);
      }
    }
  }

  /** `RetainSticky` keeps every index below `n`. */
  lemma RetainStickyIndicesBelow(js: seq<Entry>, n: nat)
    requires IndicesBelow(js, n)
    ensures IndicesBelow(RetainSticky(js), n)
  {
    var r := RetainSticky(js);
    forall i | 0 <= i < |r| ensures r[i].0 < n {
      assert r[i] in r;
      var k :| 0 <= k < |js| && js[k] == r[i];
    }
  }
}
