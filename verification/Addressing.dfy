// Why an addressed LED is never the wrong bay's: what the page's checks prove about
// which physical element each printed entry really describes.
module Addressing {
  import opened Options
  import opened AesPage
  import opened ElementTypes
  import opened SlotMap

  // `actual[p]` is the element, within the type descriptor, that the descriptor printed at
  // position p truly describes. The page does not show it; sg_ses may have shifted it.
  ghost predicate Describes(actual: seq<nat>, entries: seq<Entry>, expected: int) {
    |actual| == |entries| && forall p :: 0 <= p < |actual| ==> actual[p] < expected
  }

  ghost predicate Increasing(actual: seq<nat>) {
    forall i, j :: 0 <= i < j < |actual| ==> actual[i] < actual[j]
  }

  // Every entry prints its index, and the indexes share one zero point.
  ghost predicate IndexesFrom(zero: int, actual: seq<nat>, entries: seq<Entry>)
    requires |actual| == |entries|
  {
    forall p :: 0 <= p < |entries| ==> entries[p].index.Some? && entries[p].index.value == zero + actual[p]
  }

  ghost predicate InPlace(actual: seq<nat>) { forall p :: 0 <= p < |actual| ==> actual[p] == p }

  lemma {:induction false} IncreasingIsAbove(actual: seq<nat>, p: nat)
    requires Increasing(actual) && p < |actual|
    ensures actual[p] >= p
  {
    if p > 0 {
      IncreasingIsAbove(actual, p - 1);
    }
  }

  lemma {:induction false} IncreasingLeavesRoom(actual: seq<nat>, expected: int, p: nat)
    requires Increasing(actual) && p < |actual| && forall i :: 0 <= i < |actual| ==> actual[i] < expected
    ensures actual[p] + (|actual| - 1 - p) < expected
    decreases |actual| - p
  {
    if p < |actual| - 1 {
      IncreasingLeavesRoom(actual, expected, p + 1);
    }
  }

  // Without printed indexes, an in-order block is complete, and so in place, exactly when the
  // count check passes: one omitted descriptor is always caught.
  lemma CountCheckIsExact(actual: seq<nat>, entries: seq<Entry>, expected: int)
    requires Describes(actual, entries, expected) && Increasing(actual) && expected >= 0
    ensures |entries| == expected <==> forall e :: 0 <= e < expected ==> e in actual
    ensures |entries| == expected ==> InPlace(actual)
  {
    if |entries| == expected {
      forall p | 0 <= p < |actual| ensures actual[p] == p {
        IncreasingIsAbove(actual, p);
        IncreasingLeavesRoom(actual, expected, p);
      }
      forall e | 0 <= e < expected ensures e in actual {
        assert actual[e] == e;
      }
    } else {
      if |actual| > 0 {
        IncreasingIsAbove(actual, |actual| - 1);
      }
      assert |actual| < expected;
      PrefixOrMissing(actual, expected, |actual|);
      if InPlace(actual) {
        assert |actual| !in actual;
      }
    }
  }

  lemma {:induction false} PrefixOrMissing(actual: seq<nat>, expected: int, n: nat)
    requires Increasing(actual) && n <= |actual| < expected
    ensures (exists e :: 0 <= e < expected && e !in actual) || (forall p :: 0 <= p < n ==> actual[p] == p)
  {
    if n > 0 {
      PrefixOrMissing(actual, expected, n - 1);
      if n - 1 in actual {
        var p :| 0 <= p < |actual| && actual[p] == n - 1;
        IncreasingIsAbove(actual, n - 1);
      }
    }
  }

  // With every index printed, the count and offset checks together pass exactly when every
  // descriptor stands at its own element's position, whatever the zero point is.
  lemma OffsetCheckIsExact(actual: seq<nat>, entries: seq<Entry>, expected: int, zero: int)
    requires Describes(actual, entries, expected) && IndexesFrom(zero, actual, entries)
    requires |entries| == expected
    ensures OneOffset(entries) <==> InPlace(actual)
  {
    if OneOffset(entries) && |actual| > 0 {
      var last := |actual| - 1;
      forall p | 0 <= p < |actual| ensures actual[p] == p {
        assert Indexed(entries, 0) && Indexed(entries, last) && Indexed(entries, p);
        assert OffsetAt(entries, p) == OffsetAt(entries, 0) == OffsetAt(entries, last);
        assert zero + actual[p] - p == zero + actual[0] == zero + actual[last] - last;
      }
    }
  }

  // The wrong bay is never addressed. Whenever the map sends a slot to element p, the
  // descriptor that names the slot is element p's own, and it is the only one on the
  // page that does.
  lemma WrongBayIsNeverAddressed(blocks: seq<Block>, typeIndex: nat, expected: int, slot: nat, p: nat,
                                 b: nat, actual: seq<nat>)
    requires Chosen(blocks, typeIndex, b) && Describes(actual, blocks[b].entries, expected)
    requires Increasing(actual) || exists zero :: IndexesFrom(zero, actual, blocks[b].entries)
    requires var m := SlotMapOf(blocks, typeIndex, expected); slot in m && m[slot] == Some(p)
    ensures p < |actual| && actual[p] == p
    ensures blocks[b].entries[p].slot == Some(slot)
    ensures forall c, q :: ClaimedAt(blocks, slot, c, q) ==> c == b && q == p
  {
    AddressableIff(blocks, typeIndex, expected, slot, p);
    var c :| Trusted(blocks, typeIndex, expected, c) && SoleClaim(blocks, slot, c, p);
    assert c == b;
    if Increasing(actual) {
      CountCheckIsExact(actual, blocks[b].entries, expected);
    } else {
      var zero :| IndexesFrom(zero, actual, blocks[b].entries);
      OffsetCheckIsExact(actual, blocks[b].entries, expected, zero);
    }
  }

  // ------------------------------------------------------------------ what the page alone proves

  // A truth the page allows: n distinct elements of the n, from some zero point of the indexes.
  ghost predicate Possible(actual: seq<nat>, entries: seq<Entry>) {
    && |actual| == |entries|
    && (forall p :: 0 <= p < |actual| ==> actual[p] < |entries|)
    && (forall p, q :: 0 <= p < q < |actual| ==> actual[p] != actual[q])
    && exists zero :: Numbered(zero, actual, entries)
  }

  // Every printed index counts from this zero point.
  ghost predicate Numbered(zero: int, actual: seq<nat>, entries: seq<Entry>)
    requires |actual| == |entries|
  {
    forall p :: Indexed(entries, p) ==> entries[p].index.value == zero + actual[p]
  }

  // Anyone can read this off the page: there is but one entry, or both ends print an index,
  // and so does p, or every entry but p.
  predicate Pinned(entries: seq<Entry>, p: nat) {
    || |entries| <= 1
    || (Indexed(entries, 0) && Indexed(entries, |entries| - 1)
        && (Indexed(entries, p) || forall q :: 0 <= q < |entries| && q != p ==> Indexed(entries, q)))
  }

  ghost predicate ProvedAt(entries: seq<Entry>, p: nat)
    requires p < |entries|
  {
    forall actual :: Possible(actual, entries) ==> actual[p] == p
  }

  lemma EndsFixTheRest(actual: seq<nat>, entries: seq<Entry>, p: nat)
    requires OneOffset(entries) && Possible(actual, entries) && p < |entries| && Indexed(entries, p)
    requires Indexed(entries, 0) && Indexed(entries, |entries| - 1)
    ensures actual[p] == p
  {
    var n := |entries|;
    var zero :| Numbered(zero, actual, entries);
    assert OffsetAt(entries, 0) == OffsetAt(entries, n - 1) == OffsetAt(entries, p);
    assert zero + actual[0] == zero + actual[n - 1] - (n - 1) == zero + actual[p] - p;
  }

  lemma PinnedIsProved(actual: seq<nat>, entries: seq<Entry>, p: nat)
    requires OneOffset(entries) && Possible(actual, entries) && p < |entries| && Pinned(entries, p)
    ensures actual[p] == p
  {
    if |entries| > 1 {
      if Indexed(entries, p) {
        EndsFixTheRest(actual, entries, p);
      } else if actual[p] != p {
        EndsFixTheRest(actual, entries, actual[p]);
      }
    }
  }

  function RotatedBack(n: nat): (r: seq<nat>)
    requires n > 0
  {
    seq(n, p requires 0 <= p < n => if p == 0 then n - 1 else p - 1)
  }

  function RotatedOn(n: nat): (r: seq<nat>)
    requires n > 0
  {
    seq(n, p requires 0 <= p < n => if p == n - 1 then 0 else p + 1)
  }

  function Swapped(n: nat, u: nat, v: nat): (r: seq<nat>)
    requires u < n && v < n
  {
    seq(n, p requires 0 <= p < n => if p == u then v else if p == v then u else p)
  }

  // The common offset of the printed indexes, if any is printed.
  lemma CommonOffset(entries: seq<Entry>) returns (c: int)
    requires OneOffset(entries)
    ensures forall p :: Indexed(entries, p) ==> entries[p].index.value == c + p
  {
    if i :| Indexed(entries, i) {
      c := OffsetAt(entries, i).delta;
      forall p | Indexed(entries, p) ensures entries[p].index.value == c + p {
        assert OffsetAt(entries, p) == OffsetAt(entries, i);
      }
    } else {
      c := 0;
    }
  }

  lemma UnpinnedIsUnproved(entries: seq<Entry>, p: nat) returns (actual: seq<nat>)
    requires OneOffset(entries) && p < |entries| && !Pinned(entries, p)
    ensures Possible(actual, entries) && actual[p] != p
  {
    var n := |entries|;
    var c := CommonOffset(entries);
    if !Indexed(entries, 0) {
      actual := RotatedBack(n);
      assert Numbered(c + 1, actual, entries);
    } else if !Indexed(entries, n - 1) {
      actual := RotatedOn(n);
      assert Numbered(c - 1, actual, entries);
    } else {
      var q :| 0 <= q < n && q != p && !Indexed(entries, q);
      actual := Swapped(n, p, q);
      assert Numbered(c, actual, entries);
    }
  }

  // Of a complete block that passes the offset check, the page alone proves that the entry at p
  // is element p's exactly when p is pinned by what is printed.
  lemma ProvedIffPinned(entries: seq<Entry>, p: nat)
    requires OneOffset(entries) && p < |entries|
    ensures ProvedAt(entries, p) <==> Pinned(entries, p)
  {
    if Pinned(entries, p) {
      forall actual | Possible(actual, entries) ensures actual[p] == p {
        PinnedIsProved(actual, entries, p);
      }
    } else {
      var actual := UnpinnedIsUnproved(entries, p);
    }
  }

  // So it proves a block of several entries in place exactly when both ends print an index and
  // at most one entry does not.
  lemma BlockProvedIff(entries: seq<Entry>)
    requires OneOffset(entries)
    ensures (forall p :: 0 <= p < |entries| ==> ProvedAt(entries, p)) <==>
            || |entries| <= 1
            || (Indexed(entries, 0) && Indexed(entries, |entries| - 1)
                && forall p, q :: 0 <= p < q < |entries| ==> Indexed(entries, p) || Indexed(entries, q))
  {
    forall p | 0 <= p < |entries| ensures ProvedAt(entries, p) <==> Pinned(entries, p) {
      ProvedIffPinned(entries, p);
    }
    if forall p :: 0 <= p < |entries| ==> ProvedAt(entries, p) {
      forall p, q | 0 <= p < q < |entries| && |entries| > 1 ensures Indexed(entries, p) || Indexed(entries, q) {
        assert ProvedAt(entries, p);
      }
      if |entries| > 1 {
        assert ProvedAt(entries, 0);
      }
    }
  }

  // What is not on the page: a complete block stands in place exactly when it was printed in
  // element order.
  lemma InPlaceIffInOrder(actual: seq<nat>, entries: seq<Entry>, expected: int)
    requires Describes(actual, entries, expected) && |entries| == expected
    ensures InPlace(actual) <==> Increasing(actual)
  {
    if Increasing(actual) {
      CountCheckIsExact(actual, entries, expected);
    }
  }

  // An address is certain, whatever the truth the page allows, exactly when it is pinned.
  lemma AddressIsProvedIff(blocks: seq<Block>, typeIndex: nat, expected: int, slot: nat, p: nat, b: nat)
    requires Chosen(blocks, typeIndex, b)
    requires var m := SlotMapOf(blocks, typeIndex, expected); slot in m && m[slot] == Some(p)
    ensures p < |blocks[b].entries| && SoleClaim(blocks, slot, b, p)
    ensures ProvedAt(blocks[b].entries, p) <==> Pinned(blocks[b].entries, p)
  {
    AddressableIff(blocks, typeIndex, expected, slot, p);
    var c :| Trusted(blocks, typeIndex, expected, c) && SoleClaim(blocks, slot, c, p);
    assert c == b;
    ProvedIffPinned(blocks[b].entries, p);
  }

  // ------------------------------------------------------------------ a page that misleads

  // The assumption cannot be dropped: a complete eip=0 block printed out of order carries
  // nothing to check, and the map then names the other bay's element.
  lemma UnindexedPermutationIsInvisible()
    ensures var entries := [Entry(None, None, Some(5), None), Entry(None, None, Some(6), None)];
            var blocks := [Block(ARRAY_DEVICE_SLOT, 0, 0, entries, false)];
            var actual := [1, 0];
            && Describes(actual, entries, 2)
            && 5 in SlotMapOf(blocks, 0, 2) && SlotMapOf(blocks, 0, 2)[5] == Some(0)
            && actual[0] != 0
  {
    var entries := [Entry(None, None, Some(5), None), Entry(None, None, Some(6), None)];
    var blocks := [Block(ARRAY_DEVICE_SLOT, 0, 0, entries, false)];
    assert Trusted(blocks, 0, 2, 0);
    assert ClaimedAt(blocks, 5, 0, 0);
    AddressableIff(blocks, 0, 2, 5, 0);
  }
}
