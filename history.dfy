/**
 * The calculation history: a newest-first list of at most 100 entries.
 * Each operation builds a new list from the old one. The identifier and
 * timestamp of a new entry come from the host and are parameters here.
 */
module History {
  import opened Types

  const MaxHistory: nat := 100

  /** Prepend the new entry, then keep the first 100. */
  function AddEntry(history: seq<HistoryEntry>, expression: string, result: string, mode: CalculatorMode,
                    id: string, timestamp: int): (h: seq<HistoryEntry>)
    ensures |h| == if |history| + 1 < MaxHistory then |history| + 1 else MaxHistory
    ensures h[0] == HistoryEntry(id, expression, result, timestamp, mode)
    ensures forall i :: 1 <= i < |h| ==> h[i] == history[i - 1]
    ensures |history| >= MaxHistory ==> h[1..] == history[..MaxHistory - 1]
  {
    var updated := [HistoryEntry(id, expression, result, timestamp, mode)] + history;
    if |updated| <= MaxHistory then updated else updated[..MaxHistory]
  }

  /** The list held in state is empty after a clear. */
  function ClearHistory(): (h: seq<HistoryEntry>)
    ensures |h| == 0
  {
    []
  }

  /** Keep the entries whose id differs from the given one. */
  function DeleteEntry(history: seq<HistoryEntry>, id: string): (h: seq<HistoryEntry>)
    ensures |h| <= |history|
    ensures forall i :: 0 <= i < |h| ==> h[i].id != id
  {
    if history == [] then []
    else (if history[0].id != id then [history[0]] else []) + DeleteEntry(history[1..], id)
  }

  /** The kept entries are exactly the entries of the old list whose id differs. */
  lemma {:induction false} DeleteEntryMembers(history: seq<HistoryEntry>, id: string, e: HistoryEntry)
    ensures e in DeleteEntry(history, id) <==> e in history && e.id != id
  {
    if history != [] {
      DeleteEntryMembers(history[1..], id, e);
      assert history == [history[0]] + history[1..];
    }
  }

  /** Deleting works entry by entry: it splits over concatenation, so the kept entries keep their order. */
  lemma {:induction false} DeleteEntrySplits(a: seq<HistoryEntry>, b: seq<HistoryEntry>, id: string)
    ensures DeleteEntry(a + b, id) == DeleteEntry(a, id) + DeleteEntry(b, id)
  {
    if a == [] {
      assert a + b == b;
    } else {
      var head := if a[0].id != id then [a[0]] else [];
      var rest, restA, restB := DeleteEntry(a[1..] + b, id), DeleteEntry(a[1..], id), DeleteEntry(b, id);
      assert DeleteEntry(a + b, id) == head + rest by {
        assert (a + b)[0] == a[0];
        assert (a + b)[1..] == a[1..] + b;
      }
      assert rest == restA + restB by {
        DeleteEntrySplits(a[1..], b, id);
      }
      assert DeleteEntry(a, id) == head + restA;
      assert head + (restA + restB) == (head + restA) + restB;
    }
  }

  /** An id that no entry carries leaves the list as it was. */
  lemma {:induction false} DeleteUnknownIsNoOp(history: seq<HistoryEntry>, id: string)
    requires forall i :: 0 <= i < |history| ==> history[i].id != id
    ensures DeleteEntry(history, id) == history
  {
    if history != [] {
      DeleteUnknownIsNoOp(history[1..], id);
    }
  }

  /** A second delete of the same id changes nothing. */
  lemma DeleteEntryIdempotent(history: seq<HistoryEntry>, id: string)
    ensures DeleteEntry(DeleteEntry(history, id), id) == DeleteEntry(history, id)
  {
    DeleteUnknownIsNoOp(DeleteEntry(history, id), id);
  }

  /** None of the three operations takes the list past 100 entries. */
  lemma BoundPreserved(history: seq<HistoryEntry>, expression: string, result: string, mode: CalculatorMode,
                       id: string, timestamp: int)
    requires |history| <= MaxHistory
    ensures |AddEntry(history, expression, result, mode, id, timestamp)| <= MaxHistory
    ensures |DeleteEntry(history, id)| <= MaxHistory
    ensures |ClearHistory()| <= MaxHistory
  {
  }
}
