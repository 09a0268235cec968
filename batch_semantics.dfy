/**
 * What the batch operations of the singly, circular-singly and
 * circular-doubly lists do to the sequence of payloads. Each item is
 * checked against the size the list has when that item's turn comes.
 */
module BatchSemantics {
  import opened LinkedListUtilities

  function ElementsOf<T>(hs: seq<MultipleElementsHandler<T>>): seq<T>
  {
    seq(|hs|, i requires 0 <= i < |hs| => hs[i].element)
  }

  /**
   * One accepted batch insertion: index 1 prepends, an index equal to the
   * current size appends (the element ends up last, not at that index), and
   * any other index puts the element at that position.
   */
  function InsertAt<T>(xs: seq<T>, h: MultipleElementsHandler<T>): seq<T>
    requires 1 <= h.index <= |xs|
  {
    if h.index == 1 then [h.element] + xs
    else if h.index == |xs| then xs + [h.element]
    else xs[..h.index - 1] + [h.element] + xs[h.index - 1..]
  }

  datatype InsertOutcome<T> = InsertOutcome(
    elements: seq<T>,
    inserted: seq<MultipleElementsHandler<T>>,
    skipped: seq<MultipleElementsHandler<T>>)

  /** Handlers in the order given; one whose index is outside 1..current size is skipped. */
  function InsertMany<T>(xs: seq<T>, hs: seq<MultipleElementsHandler<T>>): InsertOutcome<T>
    decreases |hs|
  {
    if hs == [] then InsertOutcome(xs, [], [])
    else if hs[0].index <= 0 || hs[0].index > |xs| then
      var r := InsertMany(xs, hs[1..]);
      r.(skipped := [hs[0]] + r.skipped)
    else
      var r := InsertMany(InsertAt(xs, hs[0]), hs[1..]);
      r.(inserted := [hs[0]] + r.inserted)
  }

  /** `InsertMany` on the suffix from `p`, unfolded once. */
  lemma InsertManyFrom<T>(xs: seq<T>, hs: seq<MultipleElementsHandler<T>>, p: int)
    requires 0 <= p < |hs|
    ensures hs[p].index <= 0 || hs[p].index > |xs| ==>
      InsertMany(xs, hs[p..]) == InsertMany(xs, hs[p + 1..]).(skipped := [hs[p]] + InsertMany(xs, hs[p + 1..]).skipped)
    ensures 1 <= hs[p].index <= |xs| ==>
      InsertMany(xs, hs[p..]) == InsertMany(InsertAt(xs, hs[p]), hs[p + 1..]).(inserted := [hs[p]] + InsertMany(InsertAt(xs, hs[p]), hs[p + 1..]).inserted)
  {
    assert hs[p..][0] == hs[p] && hs[p..][1..] == hs[p + 1..];
  }

  /**
   * After the first `p` handlers: `xs` is the current list and `inserted`
   * and `skipped` what was done so far; the rest of the batch then finishes
   * as the whole batch does from `start`.
   */
  ghost predicate InsertProgress<T>(start: seq<T>, hs: seq<MultipleElementsHandler<T>>, p: int, xs: seq<T>,
                                    inserted: seq<MultipleElementsHandler<T>>, skipped: seq<MultipleElementsHandler<T>>)
    requires 0 <= p <= |hs|
  {
    var o := InsertMany(xs, hs[p..]);
    InsertMany(start, hs) == InsertOutcome(o.elements, inserted + o.inserted, skipped + o.skipped)
  }

  lemma InsertProgressStart<T>(start: seq<T>, hs: seq<MultipleElementsHandler<T>>)
    ensures InsertProgress(start, hs, 0, start, [], [])
  {
    assert hs[0..] == hs;
  }

  lemma InsertProgressSkip<T>(start: seq<T>, hs: seq<MultipleElementsHandler<T>>, p: int, xs: seq<T>,
                              inserted: seq<MultipleElementsHandler<T>>, skipped: seq<MultipleElementsHandler<T>>)
    requires 0 <= p < |hs| && InsertProgress(start, hs, p, xs, inserted, skipped)
    requires hs[p].index <= 0 || hs[p].index > |xs|
    ensures InsertProgress(start, hs, p + 1, xs, inserted, skipped + [hs[p]])
  {
    InsertManyFrom(xs, hs, p);
    var o := InsertMany(xs, hs[p + 1..]);
    assert skipped + ([hs[p]] + o.skipped) == skipped + [hs[p]] + o.skipped;
  }

  lemma InsertProgressApply<T>(start: seq<T>, hs: seq<MultipleElementsHandler<T>>, p: int, xs: seq<T>,
                               inserted: seq<MultipleElementsHandler<T>>, skipped: seq<MultipleElementsHandler<T>>)
    requires 0 <= p < |hs| && InsertProgress(start, hs, p, xs, inserted, skipped)
    requires 1 <= hs[p].index <= |xs|
    ensures InsertProgress(start, hs, p + 1, InsertAt(xs, hs[p]), inserted + [hs[p]], skipped)
  {
    InsertManyFrom(xs, hs, p);
    var o := InsertMany(InsertAt(xs, hs[p]), hs[p + 1..]);
    assert inserted + ([hs[p]] + o.inserted) == inserted + [hs[p]] + o.inserted;
  }

  lemma InsertProgressEnd<T>(start: seq<T>, hs: seq<MultipleElementsHandler<T>>, xs: seq<T>,
                             inserted: seq<MultipleElementsHandler<T>>, skipped: seq<MultipleElementsHandler<T>>)
    requires InsertProgress(start, hs, |hs|, xs, inserted, skipped)
    ensures InsertMany(start, hs) == InsertOutcome(xs, inserted, skipped)
  {
    assert hs[|hs|..] == [];
  }

  /** Where one accepted insertion of a batch puts the new element, and what the list then holds: the old elements and the new one. */
  lemma InsertAtPlaces<T>(xs: seq<T>, h: MultipleElementsHandler<T>)
    requires 1 <= h.index <= |xs|
    ensures |InsertAt(xs, h)| == |xs| + 1
    ensures multiset(InsertAt(xs, h)) == multiset(xs) + multiset{h.element}
    ensures h.index < |xs| ==> InsertAt(xs, h)[h.index - 1] == h.element
    ensures 1 < h.index == |xs| ==> InsertAt(xs, h)[|xs|] == h.element
    ensures forall z :: z in InsertAt(xs, h) <==> z in xs || z == h.element
  {
    var i := h.index;
    if i != 1 && i != |xs| {
      assert xs == xs[..i - 1] + xs[i - 1..];
    }
  }

  /** Every handler is either inserted or skipped, and the list grows by one per insertion. */
  lemma {:induction false} InsertManyCounts<T>(xs: seq<T>, hs: seq<MultipleElementsHandler<T>>)
    ensures |InsertMany(xs, hs).elements| == |xs| + |InsertMany(xs, hs).inserted|
    ensures |InsertMany(xs, hs).inserted| + |InsertMany(xs, hs).skipped| == |hs|
    decreases |hs|
  {
    if hs != [] {
      var h := hs[0];
      if h.index <= 0 || h.index > |xs| {
        InsertManyCounts(xs, hs[1..]);
      } else {
        InsertAtPlaces(xs, h);
        InsertManyCounts(InsertAt(xs, h), hs[1..]);
      }
    }
  }

  /** The inserted and the skipped handlers together are the given ones. */
  lemma {:induction false} InsertManyPartitions<T>(xs: seq<T>, hs: seq<MultipleElementsHandler<T>>)
    ensures multiset(InsertMany(xs, hs).inserted) + multiset(InsertMany(xs, hs).skipped) == multiset(hs)
    decreases |hs|
  {
    if hs != [] {
      var h := hs[0];
      assert hs == [h] + hs[1..];
      if h.index <= 0 || h.index > |xs| {
        InsertManyPartitions(xs, hs[1..]);
      } else {
        InsertManyPartitions(InsertAt(xs, h), hs[1..]);
      }
    }
  }

  /** No payload is lost: the final payloads are the initial ones plus the inserted elements. */
  lemma {:induction false} InsertManyConserves<T>(xs: seq<T>, hs: seq<MultipleElementsHandler<T>>)
    ensures multiset(InsertMany(xs, hs).elements) == multiset(xs) + multiset(ElementsOf(InsertMany(xs, hs).inserted))
    decreases |hs|
  {
    if hs != [] {
      var h := hs[0];
      if h.index > 0 && h.index <= |xs| {
        var ys := InsertAt(xs, h);
        InsertAtPlaces(xs, h);
        InsertManyConserves(ys, hs[1..]);
        var r := InsertMany(ys, hs[1..]);
        assert ElementsOf([h] + r.inserted) == [h.element] + ElementsOf(r.inserted);
      } else {
        InsertManyConserves(xs, hs[1..]);
      }
    }
  }

  /**
   * Since the list only grows, a handler with an index in 1..initial size
   * is never skipped, and one with an index below 1 always is.
   */
  lemma {:induction false} InsertManySkips<T>(xs: seq<T>, hs: seq<MultipleElementsHandler<T>>)
    ensures forall h :: h in InsertMany(xs, hs).skipped ==> h.index <= 0 || h.index > |xs|
    ensures forall i :: 0 <= i < |hs| && hs[i].index <= 0 ==> hs[i] in InsertMany(xs, hs).skipped
    decreases |hs|
  {
    if hs != [] {
      if hs[0].index <= 0 || hs[0].index > |xs| {
        InsertManySkips(xs, hs[1..]);
        forall i | 0 <= i < |hs| && hs[i].index <= 0 ensures hs[i] in InsertMany(xs, hs).skipped {
          if i > 0 { assert hs[i] == hs[1..][i - 1]; }
        }
      } else {
        var ys := InsertAt(xs, hs[0]);
        InsertAtPlaces(xs, hs[0]);
        InsertManySkips(ys, hs[1..]);
        forall i | 0 <= i < |hs| && hs[i].index <= 0 ensures hs[i] in InsertMany(xs, hs).skipped {
          assert i > 0 && hs[i] == hs[1..][i - 1];
        }
      }
    }
  }

  /** Removes the element at 1-based position `i`. */
  function RemoveAt<T>(xs: seq<T>, i: int): seq<T>
    requires 1 <= i <= |xs|
  {
    xs[..i - 1] + xs[i..]
  }

  datatype DeleteOutcome<T> = DeleteOutcome(
    elements: seq<T>,
    deleted: seq<MultipleElementsHandler<T>>,
    skipped: seq<int>)

  /** Indices in the order given; one outside 1..current size is skipped, any other removes that position. */
  function DeleteMany<T>(xs: seq<T>, idx: seq<int>): DeleteOutcome<T>
    decreases |idx|
  {
    if idx == [] then DeleteOutcome(xs, [], [])
    else if idx[0] <= 0 || idx[0] > |xs| then
      var r := DeleteMany(xs, idx[1..]);
      r.(skipped := [idx[0]] + r.skipped)
    else
      var r := DeleteMany(RemoveAt(xs, idx[0]), idx[1..]);
      r.(deleted := [MultipleElementsHandler(idx[0], xs[idx[0] - 1])] + r.deleted)
  }

  /** `DeleteMany` on the suffix from `p`, unfolded once. */
  lemma DeleteManyFrom<T>(xs: seq<T>, idx: seq<int>, p: int)
    requires 0 <= p < |idx|
    ensures idx[p] <= 0 || idx[p] > |xs| ==>
      DeleteMany(xs, idx[p..]) == DeleteMany(xs, idx[p + 1..]).(skipped := [idx[p]] + DeleteMany(xs, idx[p + 1..]).skipped)
    ensures 1 <= idx[p] <= |xs| ==>
      DeleteMany(xs, idx[p..]) == DeleteMany(RemoveAt(xs, idx[p]), idx[p + 1..]).(deleted :=
        [MultipleElementsHandler(idx[p], xs[idx[p] - 1])] + DeleteMany(RemoveAt(xs, idx[p]), idx[p + 1..]).deleted)
  {
    var s := idx[p..];
    assert s[0] == idx[p] && s[1..] == idx[p + 1..];
    if idx[p] <= 0 || idx[p] > |xs| {
      assert DeleteMany(xs, s) == DeleteMany(xs, s[1..]).(skipped := [s[0]] + DeleteMany(xs, s[1..]).skipped);
    } else {
      assert DeleteMany(xs, s) == DeleteMany(RemoveAt(xs, s[0]), s[1..]).(deleted :=
        [MultipleElementsHandler(s[0], xs[s[0] - 1])] + DeleteMany(RemoveAt(xs, s[0]), s[1..]).deleted);
    }
  }

  /** After the first `p` indices, as `InsertProgress` is for insertions. */
  ghost predicate DeleteProgress<T>(start: seq<T>, idx: seq<int>, p: int, xs: seq<T>,
                                    deleted: seq<MultipleElementsHandler<T>>, skipped: seq<int>)
    requires 0 <= p <= |idx|
  {
    var o := DeleteMany(xs, idx[p..]);
    DeleteMany(start, idx) == DeleteOutcome(o.elements, deleted + o.deleted, skipped + o.skipped)
  }

  lemma DeleteProgressStart<T>(start: seq<T>, idx: seq<int>)
    ensures DeleteProgress(start, idx, 0, start, [], [])
  {
    assert idx[0..] == idx;
  }

  lemma DeleteProgressSkip<T>(start: seq<T>, idx: seq<int>, p: int, xs: seq<T>,
                              deleted: seq<MultipleElementsHandler<T>>, skipped: seq<int>)
    requires 0 <= p < |idx| && DeleteProgress(start, idx, p, xs, deleted, skipped)
    requires idx[p] <= 0 || idx[p] > |xs|
    ensures DeleteProgress(start, idx, p + 1, xs, deleted, skipped + [idx[p]])
  {
    DeleteManyFrom(xs, idx, p);
    var o := DeleteMany(xs, idx[p + 1..]);
    assert skipped + ([idx[p]] + o.skipped) == skipped + [idx[p]] + o.skipped;
  }

  lemma DeleteProgressApply<T>(start: seq<T>, idx: seq<int>, p: int, xs: seq<T>,
                               deleted: seq<MultipleElementsHandler<T>>, skipped: seq<int>)
    requires 0 <= p < |idx| && DeleteProgress(start, idx, p, xs, deleted, skipped)
    requires 1 <= idx[p] <= |xs|
    ensures DeleteProgress(start, idx, p + 1, RemoveAt(xs, idx[p]), deleted + [MultipleElementsHandler(idx[p], xs[idx[p] - 1])], skipped)
  {
    DeleteManyFrom(xs, idx, p);
    var h := MultipleElementsHandler(idx[p], xs[idx[p] - 1]);
    var o := DeleteMany(RemoveAt(xs, idx[p]), idx[p + 1..]);
    assert deleted + ([h] + o.deleted) == deleted + [h] + o.deleted;
  }

  lemma DeleteProgressEnd<T>(start: seq<T>, idx: seq<int>, xs: seq<T>,
                             deleted: seq<MultipleElementsHandler<T>>, skipped: seq<int>)
    requires DeleteProgress(start, idx, |idx|, xs, deleted, skipped)
    ensures DeleteMany(start, idx) == DeleteOutcome(xs, deleted, skipped)
  {
    assert idx[|idx|..] == [];
  }

  lemma RemoveAtConserves<T>(xs: seq<T>, i: int)
    requires 1 <= i <= |xs|
    ensures |RemoveAt(xs, i)| == |xs| - 1
    ensures multiset(RemoveAt(xs, i)) + multiset{xs[i - 1]} == multiset(xs)
    ensures forall z :: z in RemoveAt(xs, i) ==> z in xs
  {
    assert xs == xs[..i - 1] + [xs[i - 1]] + xs[i..];
  }

  /** A deletion keeps only elements that were there. */
  lemma RemoveAtMembers<T>(xs: seq<T>, i: int)
    requires 1 <= i <= |xs|
    ensures forall z :: z in RemoveAt(xs, i) ==> z in xs
  {
    assert xs == xs[..i - 1] + xs[i - 1..];
  }

  /**
   * Every index is either deleted or skipped; the list shrinks by one per
   * deletion, and each result holds the payload that left the list.
   */
  lemma {:induction false} DeleteManyAccounts<T>(xs: seq<T>, idx: seq<int>)
    ensures var r := DeleteMany(xs, idx);
      |r.elements| == |xs| - |r.deleted| &&
      |r.deleted| + |r.skipped| == |idx| &&
      multiset(r.elements) + multiset(ElementsOf(r.deleted)) == multiset(xs)
    decreases |idx|
  {
    if idx != [] {
      if idx[0] <= 0 || idx[0] > |xs| {
        DeleteManyAccounts(xs, idx[1..]);
      } else {
        RemoveAtConserves(xs, idx[0]);
        DeleteManyAccounts(RemoveAt(xs, idx[0]), idx[1..]);
        var r := DeleteMany(RemoveAt(xs, idx[0]), idx[1..]);
        var h := MultipleElementsHandler(idx[0], xs[idx[0] - 1]);
        assert ElementsOf([h] + r.deleted) == [h.element] + ElementsOf(r.deleted);
      }
    }
  }

  /**
   * With ascending indices, the deleted results keep the ascending order,
   * each index was within the size the list had at its turn, and a skipped
   * index is below 1 or beyond the size left at the end.
   */
  lemma {:induction false} DeleteManySorted<T>(xs: seq<T>, idx: seq<int>)
    requires forall i, j :: 0 <= i < j < |idx| ==> idx[i] <= idx[j]
    ensures var r := DeleteMany(xs, idx);
      (forall i, j :: 0 <= i < j < |r.deleted| ==> r.deleted[i].index <= r.deleted[j].index) &&
      (forall i :: 0 <= i < |r.deleted| ==> 1 <= r.deleted[i].index <= |xs| - i) &&
      (forall i :: 0 <= i < |r.skipped| ==> r.skipped[i] <= 0 || r.skipped[i] > |r.elements|)
    decreases |idx|
  {
    if idx != [] {
      var rest := idx[1..];
      DeleteManySorted(if idx[0] <= 0 || idx[0] > |xs| then xs else RemoveAt(xs, idx[0]), rest);
      DeleteManyAccounts(if idx[0] <= 0 || idx[0] > |xs| then xs else RemoveAt(xs, idx[0]), rest);
      DeleteManyIndicesFrom(if idx[0] <= 0 || idx[0] > |xs| then xs else RemoveAt(xs, idx[0]), rest);
      if !(idx[0] <= 0 || idx[0] > |xs|) {
        var r := DeleteMany(RemoveAt(xs, idx[0]), rest);
        var h := MultipleElementsHandler(idx[0], xs[idx[0] - 1]);
        var d := [h] + r.deleted;
        forall i, j | 0 <= i < j < |d| ensures d[i].index <= d[j].index {
          if i == 0 { assert d[j].index in rest by { assert d[j] == r.deleted[j - 1]; } }
        }
      } else {
        var r := DeleteMany(xs, rest);
        if idx[0] > |xs| {
          assert |r.elements| <= |xs|;
        }
      }
    }
  }

  /** The index recorded in each result is one of the requested indices. */
  lemma {:induction false} DeleteManyIndicesFrom<T>(xs: seq<T>, idx: seq<int>)
    ensures forall h :: h in DeleteMany(xs, idx).deleted ==> h.index in idx
    ensures forall k :: k in DeleteMany(xs, idx).skipped ==> k in idx
    decreases |idx|
  {
    if idx != [] {
      DeleteManyIndicesFrom(if idx[0] <= 0 || idx[0] > |xs| then xs else RemoveAt(xs, idx[0]), idx[1..]);
    }
  }

  /** Deleting positions 1, 3 and 6 of a five-element list: two deletions, 6 skipped, three left. */
  lemma {:induction false} DeleteManyExample(a: int, b: int, c: int, d: int, e: int)
    ensures DeleteMany([a, b, c, d, e], [1, 3, 6]) ==
      DeleteOutcome([b, c, e], [MultipleElementsHandler(1, a), MultipleElementsHandler(3, d)], [6])
  {
    assert RemoveAt([a, b, c, d, e], 1) == [b, c, d, e];
    assert RemoveAt([b, c, d, e], 3) == [b, c, e];
    assert DeleteMany([b, c, e], [6]) == DeleteOutcome([b, c, e], [], [6]);
  }
}
