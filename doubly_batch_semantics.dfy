/**
 * What the doubly list's batch operations do. Both keep a cursor that
 * walks forward from the head, never back, across the whole batch, and
 * both check each handler against the size the list has at its turn. The
 * outcome records the skipped indices, the handlers acted on, and the
 * 0-based position of the node at which the first action happened.
 */
module DoublyBatchSemantics {
  import opened LinkedListUtilities

  datatype DoublyBatch<T> = DoublyBatch(skipped: seq<int>, acted: seq<MultipleElementsHandler<T>>, at: int)

  /**
   * `insert_dll_multiple_elements` from handler `hs[0]` on, on a list of
   * `size` nodes whose cursor is `cursor` nodes past the head (at or past
   * `size`: None). Until the first insertion the cursor advances
   * `index - 1` nodes per handler, and inserts only where the node it
   * reaches has a successor. The new node then links to itself, the cursor
   * stays on the newest node, and every later handler within
   * 1..size + 1 is inserted after it.
   */
  function DoublyInsertScan<T>(hs: seq<MultipleElementsHandler<T>>, size: int, cursor: int, started: bool): DoublyBatch<T>
    decreases |hs|
  {
    if hs == [] then DoublyBatch([], [], -1)
    else if hs[0].index < 1 || hs[0].index > size + 1 then
      var r := DoublyInsertScan(hs[1..], size, cursor, started);
      r.(skipped := [hs[0].index] + r.skipped)
    else if started then
      var r := DoublyInsertScan(hs[1..], size + 1, cursor, true);
      r.(acted := [hs[0]] + r.acted)
    else if cursor + hs[0].index - 1 < size - 1 then
      var r := DoublyInsertScan(hs[1..], size + 1, cursor + hs[0].index - 1, true);
      DoublyBatch(r.skipped, [hs[0]] + r.acted, cursor + hs[0].index - 1)
    else
      DoublyInsertScan(hs[1..], size, cursor + hs[0].index - 1, false)
  }

  /**
   * `delete_dll_multiple_elements` from handler `hs[0]` on. Until the first
   * deletion the cursor advances `index - 1` nodes per handler, and deletes
   * only where the node it reaches has a successor and a predecessor (the
   * head has one only when `staleHead`, a link left behind by an earlier
   * head removal). The cursor then stays on the removed node, whose links
   * are None, so no later handler deletes anything.
   */
  function DoublyDeleteScan<T>(hs: seq<MultipleElementsHandler<T>>, size: int, cursor: int, started: bool,
                               staleHead: bool): DoublyBatch<T>
    decreases |hs|
  {
    if hs == [] then DoublyBatch([], [], -1)
    else if hs[0].index < 1 || hs[0].index > size then
      var r := DoublyDeleteScan(hs[1..], size, cursor, started, staleHead);
      r.(skipped := [hs[0].index] + r.skipped)
    else if started then
      DoublyDeleteScan(hs[1..], size, cursor, true, staleHead)
    else if cursor + hs[0].index - 1 < size - 1 && (cursor + hs[0].index - 1 > 0 || staleHead) then
      var r := DoublyDeleteScan(hs[1..], size - 1, cursor + hs[0].index - 1, true, staleHead);
      DoublyBatch(r.skipped, [hs[0]] + r.acted, cursor + hs[0].index - 1)
    else
      DoublyDeleteScan(hs[1..], size, cursor + hs[0].index - 1, false, staleHead)
  }

  /**
   * After the first `p` sorted handlers, with the list at `size` nodes and
   * the cursor at `cursor`: `skipped` and `acted` so far, and the rest of
   * the batch finishes as the whole batch does on a list of `k` nodes.
   */
  ghost predicate InsertScanProgress<T>(hs: seq<MultipleElementsHandler<T>>, k: int, p: int, size: int, cursor: int,
                                        started: bool, skipped: seq<int>, acted: seq<MultipleElementsHandler<T>>, at: int)
    requires 0 <= p <= |hs|
  {
    var r := DoublyInsertScan(hs[p..], size, cursor, started);
    DoublyInsertScan(hs, k, 0, false) == DoublyBatch(skipped + r.skipped, acted + r.acted, if started then at else r.at)
  }

  lemma InsertScanStart<T>(hs: seq<MultipleElementsHandler<T>>, k: int)
    ensures InsertScanProgress(hs, k, 0, k, 0, false, [], [], -1)
  {
    assert hs[0..] == hs;
  }

  lemma InsertScanEnd<T>(hs: seq<MultipleElementsHandler<T>>, k: int, size: int, cursor: int, started: bool,
                         skipped: seq<int>, acted: seq<MultipleElementsHandler<T>>, at: int)
    requires InsertScanProgress(hs, k, |hs|, size, cursor, started, skipped, acted, at)
    ensures DoublyInsertScan(hs, k, 0, false) == DoublyBatch(skipped, acted, if started then at else -1)
  {
    assert hs[|hs|..] == [];
  }

  /** One handler further: skipped, inserted after the newest node, the first insertion, or passed over. */
  lemma InsertScanStep<T>(hs: seq<MultipleElementsHandler<T>>, k: int, p: int, size: int, cursor: int,
                          started: bool, skipped: seq<int>, acted: seq<MultipleElementsHandler<T>>, at: int)
    requires 0 <= p < |hs| && InsertScanProgress(hs, k, p, size, cursor, started, skipped, acted, at)
    ensures var h := hs[p];
      var c := cursor + h.index - 1;
      (h.index < 1 || h.index > size + 1 ==>
        InsertScanProgress(hs, k, p + 1, size, cursor, started, skipped + [h.index], acted, at)) &&
      (1 <= h.index <= size + 1 && started ==>
        InsertScanProgress(hs, k, p + 1, size + 1, cursor, true, skipped, acted + [h], at)) &&
      (1 <= h.index <= size + 1 && !started && c < size - 1 ==>
        InsertScanProgress(hs, k, p + 1, size + 1, c, true, skipped, acted + [h], c)) &&
      (1 <= h.index <= size + 1 && !started && c >= size - 1 ==>
        InsertScanProgress(hs, k, p + 1, size, c, false, skipped, acted, at))
  {
    assert hs[p..][0] == hs[p] && hs[p..][1..] == hs[p + 1..];
  }

  /** After the first `p` sorted handlers, as `InsertScanProgress` is for insertions. */
  ghost predicate DeleteScanProgress<T>(hs: seq<MultipleElementsHandler<T>>, k: int, stale: bool, p: int, size: int,
                                        cursor: int, started: bool, skipped: seq<int>,
                                        acted: seq<MultipleElementsHandler<T>>, at: int)
    requires 0 <= p <= |hs|
  {
    var r := DoublyDeleteScan(hs[p..], size, cursor, started, stale);
    DoublyDeleteScan(hs, k, 0, false, stale) == DoublyBatch(skipped + r.skipped, acted + r.acted, if started then at else r.at)
  }

  lemma DeleteScanStart<T>(hs: seq<MultipleElementsHandler<T>>, k: int, stale: bool)
    ensures DeleteScanProgress(hs, k, stale, 0, k, 0, false, [], [], -1)
  {
    assert hs[0..] == hs;
  }

  lemma DeleteScanEnd<T>(hs: seq<MultipleElementsHandler<T>>, k: int, stale: bool, size: int, cursor: int,
                         started: bool, skipped: seq<int>, acted: seq<MultipleElementsHandler<T>>, at: int)
    requires DeleteScanProgress(hs, k, stale, |hs|, size, cursor, started, skipped, acted, at)
    ensures DoublyDeleteScan(hs, k, 0, false, stale) == DoublyBatch(skipped, acted, if started then at else -1)
  {
    assert hs[|hs|..] == [];
  }

  /** One handler further: skipped, passed over after the deletion, the deletion, or passed over before it. */
  lemma DeleteScanStep<T>(hs: seq<MultipleElementsHandler<T>>, k: int, stale: bool, p: int, size: int, cursor: int,
                          started: bool, skipped: seq<int>, acted: seq<MultipleElementsHandler<T>>, at: int)
    requires 0 <= p < |hs| && DeleteScanProgress(hs, k, stale, p, size, cursor, started, skipped, acted, at)
    ensures var h := hs[p];
      var c := cursor + h.index - 1;
      (h.index < 1 || h.index > size ==>
        DeleteScanProgress(hs, k, stale, p + 1, size, cursor, started, skipped + [h.index], acted, at)) &&
      (1 <= h.index <= size && started ==>
        DeleteScanProgress(hs, k, stale, p + 1, size, cursor, true, skipped, acted, at)) &&
      (1 <= h.index <= size && !started && c < size - 1 && (c > 0 || stale) ==>
        DeleteScanProgress(hs, k, stale, p + 1, size - 1, c, true, skipped, acted + [h], c)) &&
      (1 <= h.index <= size && !started && !(c < size - 1 && (c > 0 || stale)) ==>
        DeleteScanProgress(hs, k, stale, p + 1, size, c, false, skipped, acted, at))
  {
    assert hs[p..][0] == hs[p] && hs[p..][1..] == hs[p + 1..];
  }

  /**
   * Every handler is skipped, inserted or passed over; an insertion happened
   * exactly when a position is recorded, and the first one lands strictly
   * before the tail; a handler below 1 is always skipped, and a skipped
   * index is below 1 or beyond the size the list started with plus one.
   */
  lemma {:induction false} DoublyInsertScanAccounts<T>(hs: seq<MultipleElementsHandler<T>>, size: int, cursor: int, started: bool)
    requires 0 <= cursor
    ensures var r := DoublyInsertScan(hs, size, cursor, started);
      |r.skipped| + |r.acted| <= |hs| &&
      (!started ==> (r.acted == [] <==> r.at == -1) && (r.acted != [] ==> cursor <= r.at < size - 1)) &&
      (started ==> r.at == -1) &&
      (forall i :: 0 <= i < |r.skipped| ==> r.skipped[i] < 1 || r.skipped[i] > size + 1) &&
      (forall i :: 0 <= i < |r.acted| ==> r.acted[i].index >= 1) &&
      (forall i :: 0 <= i < |hs| && hs[i].index < 1 ==> hs[i].index in r.skipped)
    decreases |hs|
  {
    if hs != [] {
      var h := hs[0];
      var c := cursor + h.index - 1;
      var nextSize := if h.index < 1 || h.index > size + 1 || (!started && c >= size - 1) then size else size + 1;
      var nextCursor := if h.index < 1 || h.index > size + 1 || started then cursor else c;
      var nextStarted := started || (1 <= h.index <= size + 1 && c < size - 1);
      DoublyInsertScanAccounts(hs[1..], nextSize, nextCursor, nextStarted);
      forall i | 0 <= i < |hs| && hs[i].index < 1 ensures hs[i].index in DoublyInsertScan(hs, size, cursor, started).skipped {
        if i > 0 {
          assert hs[1..][i - 1] == hs[i];
        }
      }
    }
  }

  /**
   * At most one handler is acted on, and only before the deletion: at a
   * node with a successor, and past the head unless the head has a stale
   * back link. A handler below 1 is always skipped, and a skipped index is
   * below 1 or beyond the size left at the end.
   */
  lemma {:induction false} DoublyDeleteScanAccounts<T>(hs: seq<MultipleElementsHandler<T>>, size: int, cursor: int,
                                                       started: bool, stale: bool)
    requires 0 <= cursor
    ensures var r := DoublyDeleteScan(hs, size, cursor, started, stale);
      |r.skipped| + |r.acted| <= |hs| && |r.acted| <= 1 &&
      (started ==> r.acted == [] && r.at == -1) &&
      (r.acted == [] <==> r.at == -1) &&
      (r.acted != [] ==> cursor <= r.at < size - 1 && (r.at > 0 || stale) && 1 <= r.acted[0].index <= size) &&
      (forall i :: 0 <= i < |r.skipped| ==> r.skipped[i] < 1 || r.skipped[i] > size - |r.acted|) &&
      (forall i :: 0 <= i < |hs| && hs[i].index < 1 ==> hs[i].index in r.skipped)
    decreases |hs|
  {
    if hs != [] {
      var h := hs[0];
      var c := cursor + h.index - 1;
      var acts := 1 <= h.index <= size && !started && c < size - 1 && (c > 0 || stale);
      var nextSize := if acts then size - 1 else size;
      var nextCursor := if h.index < 1 || h.index > size || started then cursor else c;
      DoublyDeleteScanAccounts(hs[1..], nextSize, nextCursor, started || acts, stale);
      forall i | 0 <= i < |hs| && hs[i].index < 1 ensures hs[i].index in DoublyDeleteScan(hs, size, cursor, started, stale).skipped {
        if i > 0 {
          assert hs[1..][i - 1] == hs[i];
        }
      }
    }
  }

  /** A finished batch deletion acted on exactly one handler when it recorded a position, and on none otherwise. */
  lemma DeleteScanActs<T>(hs: seq<MultipleElementsHandler<T>>, k: int, stale: bool, started: bool,
                          skipped: seq<int>, acted: seq<MultipleElementsHandler<T>>, at: int)
    requires DoublyDeleteScan(hs, k, 0, false, stale) == DoublyBatch(skipped, acted, if started then at else -1)
    requires started ==> 0 <= at
    ensures |acted| == if started then 1 else 0
  {
    DoublyDeleteScanAccounts(hs, k, 0, false, stale);
  }

  /**
   * The documented example of `insert_dll_multiple_elements`, on a one-node
   * list with handlers for indices 1 and 2: the cursor reaches the tail and
   * then None, so nothing is inserted and nothing is skipped. The example's
   * text says two nodes are inserted.
   */
  lemma DoublyInsertDocumentedExample<T>(a: T, b: T)
    ensures DoublyInsertScan([MultipleElementsHandler(1, a), MultipleElementsHandler(2, b)], 1, 0, false) ==
      DoublyBatch([], [], -1)
  {
    var hs := [MultipleElementsHandler(1, a), MultipleElementsHandler(2, b)];
    assert hs[1..] == [MultipleElementsHandler(2, b)] && hs[1..][1..] == [];
    assert DoublyInsertScan(hs[1..], 1, 0, false) == DoublyInsertScan([], 1, 1, false);
  }

  /**
   * On three nodes, index 2 twice then 9: the first 2 goes in after the
   * second node (`at == 1`); the cursor then sits on the new node past
   * index 2 and does not move back, so the second 2 goes in after that new
   * node; and 9 exceeds the size, by then five, plus one.
   */
  lemma DoublyInsertExample<T>(a: T, b: T, c: T)
    ensures DoublyInsertScan([MultipleElementsHandler(2, a), MultipleElementsHandler(2, b), MultipleElementsHandler(9, c)], 3, 0, false) ==
      DoublyBatch([9], [MultipleElementsHandler(2, a), MultipleElementsHandler(2, b)], 1)
  {
    var hs := [MultipleElementsHandler(2, a), MultipleElementsHandler(2, b), MultipleElementsHandler(9, c)];
    assert hs[1..] == [MultipleElementsHandler(2, b), MultipleElementsHandler(9, c)];
    assert hs[1..][1..] == [MultipleElementsHandler(9, c)] && hs[1..][1..][1..] == [];
    assert DoublyInsertScan(hs[1..][1..], 5, 1, true) == DoublyBatch([9], [], -1);
    assert DoublyInsertScan(hs[1..], 4, 1, true) == DoublyBatch([9], [MultipleElementsHandler(2, b)], -1);
  }

  /**
   * The documented example of `delete_dll_multiple_elements`, on three
   * nodes with indices 1 and 3: the head has no back link and the tail no
   * successor, so nothing is deleted. The example's text says two are.
   */
  lemma DoublyDeleteDocumentedExample<T>(a: T, b: T)
    ensures DoublyDeleteScan([MultipleElementsHandler(1, a), MultipleElementsHandler(3, b)], 3, 0, false, false) ==
      DoublyBatch([], [], -1)
  {
    var hs := [MultipleElementsHandler(1, a), MultipleElementsHandler(3, b)];
    assert hs[1..] == [MultipleElementsHandler(3, b)] && hs[1..][1..] == [];
    assert DoublyDeleteScan(hs[1..], 3, 0, false, false) == DoublyDeleteScan([], 3, 2, false, false);
  }

  /** On four nodes, indices 2, 3 and 7: 2 deletes the second node, 3 then does nothing, and 7 is skipped. */
  lemma DoublyDeleteExample<T>(a: T, b: T, c: T)
    ensures DoublyDeleteScan([MultipleElementsHandler(2, a), MultipleElementsHandler(3, b), MultipleElementsHandler(7, c)], 4, 0, false, false) ==
      DoublyBatch([7], [MultipleElementsHandler(2, a)], 1)
  {
    var hs := [MultipleElementsHandler(2, a), MultipleElementsHandler(3, b), MultipleElementsHandler(7, c)];
    assert hs[1..] == [MultipleElementsHandler(3, b), MultipleElementsHandler(7, c)];
    assert hs[1..][1..] == [MultipleElementsHandler(7, c)] && hs[1..][1..][1..] == [];
    assert DoublyDeleteScan(hs[1..][1..], 3, 1, true, false) == DoublyBatch([7], [], -1);
    assert DoublyDeleteScan(hs[1..], 3, 1, true, false) == DoublyBatch([7], [], -1);
  }
}
