/** The cursor-paged scan of a consumer group's pending entries, and the chunks they are acknowledged in. */
module PendingScan {
  import opened Wrappers

  /** A pending entry: its stream id, as a position in id order, and how long it has been idle. */
  datatype Entry = Entry(id: int, idleMs: int)

  ghost predicate IdOrdered(pending: seq<Entry>) {
    forall i, j :: 0 <= i < j < |pending| ==> pending[i].id < pending[j].id
  }

  function Max(a: int, b: int): (m: int)
    ensures a <= m && b <= m && (m == a || m == b)
  {
    if a >= b then a else b
  }

  function Min(a: int, b: int): (m: int)
    ensures m <= a && m <= b && (m == a || m == b)
  {
    if a <= b then a else b
  }

  /** How many entries lie at or before the cursor. */
  function Passed(pending: seq<Entry>, cursor: Option<int>): (n: nat)
    ensures n <= |pending|
  {
    if pending == [] || cursor.None? || pending[0].id > cursor.value then 0
    else 1 + Passed(pending[1..], cursor)
  }

  /** The range query: up to `count` entries after the cursor, in id order. */
  function Page(pending: seq<Entry>, cursor: Option<int>, count: nat): seq<Entry> {
    var from := Passed(pending, cursor);
    pending[from..Min(from + count, |pending|)]
  }

  /** The ids of the entries idle for at least `minIdleMs`. */
  function StaleIds(entries: seq<Entry>, minIdleMs: int): seq<int> {
    if entries == [] then []
    else
      var last := entries[|entries| - 1];
      StaleIds(entries[..|entries| - 1], minIdleMs) + if last.idleMs >= minIdleMs then [last.id] else []
  }

  lemma {:induction false} PassedIsIndex(pending: seq<Entry>, k: nat)
    requires IdOrdered(pending) && k < |pending|
    ensures Passed(pending, Some(pending[k].id)) == k + 1
  {
    if k > 0 {
      PassedIsIndex(pending[1..], k - 1);
    } else if |pending| > 1 {
      assert pending[1..][0].id > pending[0].id;
    }
  }

  /** The cursor after the first `n` entries have been read. */
  function CursorAt(pending: seq<Entry>, n: nat): Option<int>
    requires n <= |pending|
  {
    if n == 0 then None else Some(pending[n - 1].id)
  }

  lemma PassedAtCursor(pending: seq<Entry>, n: nat)
    requires IdOrdered(pending) && n <= |pending|
    ensures Passed(pending, CursorAt(pending, n)) == n
  {
    if n > 0 {
      PassedIsIndex(pending, n - 1);
    }
  }

  /** A page is the next entries after the cursor, as many as were asked for or as there are. */
  lemma PageIsNext(pending: seq<Entry>, n: nat, count: nat)
    requires IdOrdered(pending) && n <= |pending|
    ensures var page := Page(pending, CursorAt(pending, n), count);
            && |page| == (if |pending| - n < count then |pending| - n else count)
            && forall i :: 0 <= i < |page| ==> page[i] == pending[n + i]
  {
    PassedAtCursor(pending, n);
  }

  lemma StaleStep(pending: seq<Entry>, minIdleMs: int, n: nat)
    requires n < |pending|
    ensures StaleIds(pending[..n + 1], minIdleMs)
            == StaleIds(pending[..n], minIdleMs) + if pending[n].idleMs >= minIdleMs then [pending[n].id] else []
  {
    assert pending[..n + 1][..n] == pending[..n];
  }

  /** Goes through one page, up to the scan limit. */
  method ReadPage(
    pending: seq<Entry>, rows: seq<Entry>, minIdleMs: int, maxScan: int, stale: seq<int>, from: nat)
    returns (staleIds: seq<int>, scanned: nat, start: Option<int>)
    requires rows != [] && from + |rows| <= |pending| && rows == pending[from..from + |rows|]
    requires from < Max(1, maxScan) && stale == StaleIds(pending[..from], minIdleMs)
    ensures from < scanned <= from + |rows| && scanned <= Max(1, maxScan)
    ensures start == CursorAt(pending, scanned)
    ensures staleIds == StaleIds(pending[..scanned], minIdleMs)
  {
    staleIds, scanned, start := stale, from, CursorAt(pending, from);
    for i := 0 to |rows|
      invariant scanned == from + i
      invariant start == CursorAt(pending, scanned)
      invariant staleIds == StaleIds(pending[..scanned], minIdleMs)
      invariant i > 0 ==> scanned < maxScan
    {
      var row := rows[i];
      assert row == pending[scanned];
      StaleStep(pending, minIdleMs, scanned);
      scanned := scanned + 1;
      start := Some(row.id);
      if row.idleMs >= minIdleMs {
        staleIds := staleIds + [row.id];
      }
      if scanned >= maxScan {
        break;
      }
    }
  }

  /** Scans page by page from the start until the limit or the end, collecting stale ids. */
  method Scan(pending: seq<Entry>, minIdleMs: int, scanBatch: nat, maxScan: int)
    returns (staleIds: seq<int>, scanned: nat)
    requires IdOrdered(pending) && scanBatch >= 1
    ensures scanned == Min(|pending|, Max(1, maxScan))
    ensures staleIds == StaleIds(pending[..scanned], minIdleMs)
  {
    staleIds, scanned := [], 0;
    var start: Option<int> := None;
    while scanned < Max(1, maxScan)
      invariant scanned <= Min(|pending|, Max(1, maxScan))
      invariant start == CursorAt(pending, scanned)
      invariant staleIds == StaleIds(pending[..scanned], minIdleMs)
      decreases |pending| - scanned
    {
      PassedAtCursor(pending, scanned);
      var rows := Page(pending, start, Min(scanBatch, Max(1, maxScan - scanned)));
      if |rows| == 0 {
        break;
      }
      staleIds, scanned, start := ReadPage(pending, rows, minIdleMs, maxScan, staleIds, scanned);
    }
  }

  /** What the scan finds: exactly the ids idle long enough, strictly increasing, so none twice. */
  lemma {:induction false} StaleIdsMeaning(entries: seq<Entry>, minIdleMs: int)
    requires IdOrdered(entries)
    ensures forall id :: id in StaleIds(entries, minIdleMs) <==>
              exists e :: e in entries && e.id == id && e.idleMs >= minIdleMs
    ensures forall i, j :: 0 <= i < j < |StaleIds(entries, minIdleMs)| ==>
              StaleIds(entries, minIdleMs)[i] < StaleIds(entries, minIdleMs)[j]
  {
    if entries != [] {
      var before, last := entries[..|entries| - 1], entries[|entries| - 1];
      StaleIdsMeaning(before, minIdleMs);
      assert forall e :: e in entries <==> e in before || e == last;
      forall i | 0 <= i < |StaleIds(before, minIdleMs)| ensures StaleIds(before, minIdleMs)[i] < last.id {
        assert StaleIds(before, minIdleMs)[i] in StaleIds(before, minIdleMs);
      }
    }
  }

  function Concat<T>(chunks: seq<seq<T>>): seq<T> {
    if chunks == [] then [] else Concat(chunks[..|chunks| - 1]) + chunks[|chunks| - 1]
  }

  /** Cuts a list into chunks of `size`, the last possibly shorter. */
  method Chunked<T>(items: seq<T>, size: nat) returns (chunks: seq<seq<T>>)
    requires size >= 1
    ensures Concat(chunks) == items
    ensures forall c :: c in chunks ==> 1 <= |c| <= size
    ensures forall i :: 0 <= i < |chunks| - 1 ==> |chunks[i]| == size
  {
    chunks := [];
    var i := 0;
    while i < |items|
      invariant 0 <= i
      invariant Concat(chunks) == items[..Min(i, |items|)]
      invariant forall c :: c in chunks ==> 1 <= |c| <= size
      invariant i < |items| ==> forall k :: 0 <= k < |chunks| ==> |chunks[k]| == size
      invariant forall k :: 0 <= k < |chunks| - 1 ==> |chunks[k]| == size
    {
      var chunk := items[i..Min(i + size, |items|)];
      assert (chunks + [chunk])[..|chunks|] == chunks;
      assert items[..i] + chunk == items[..Min(i + size, |items|)];
      chunks := chunks + [chunk];
      i := i + size;
    }
  }
}
