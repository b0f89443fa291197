/** The in-memory log history the debug panel shows: every formatted log
    message is appended with its time, and the list is capped at 200 entries
    by dropping the oldest. */
module Debug {

  /** The most entries the history keeps. */
  const MaxHistory: nat := 200

  /** One history entry: the time of the message and its formatted text. */
  datatype Entry = Entry(timestamp: int, message: string)

  /** The last `n` elements of `s`, or all of them when there are fewer. */
  function Last<T>(s: seq<T>, n: nat): (r: seq<T>)
    ensures |r| == if |s| < n then |s| else n
    ensures r == s[|s| - |r|..]
  {
    if |s| <= n then s else s[|s| - n..]
  }

  /** The history after one `emit`: the entry is appended and, past the cap,
      the first entry is dropped. */
  function Emitted(h: seq<Entry>, e: Entry): (r: seq<Entry>)
    ensures |h| <= MaxHistory ==> |r| <= MaxHistory
  {
    var g := h + [e];
    if |g| > MaxHistory then g[1..] else g
  }

  /** Within the cap, one `emit` keeps the newest 200 of the old entries and
      the new one. */
  lemma EmittedKeepsLast(h: seq<Entry>, e: Entry)
    requires |h| <= MaxHistory
    ensures Emitted(h, e) == Last(h + [e], MaxHistory)
  {
  }

  /** The history after emitting `es` in order. */
  function EmittedAll(h: seq<Entry>, es: seq<Entry>): seq<Entry>
    decreases |es|
  {
    if es == [] then h else EmittedAll(Emitted(h, es[0]), es[1..])
  }

  /** Emitting any number of entries keeps exactly the newest 200 of all
      entries ever emitted, in order. */
  lemma {:induction false} EmittedAllKeepsLast(h: seq<Entry>, es: seq<Entry>)
    requires |h| <= MaxHistory
    ensures EmittedAll(h, es) == Last(h + es, MaxHistory)
    decreases |es|
  {
    if es != [] {
      var h' := Emitted(h, es[0]);
      EmittedAllKeepsLast(h', es[1..]);
      EmittedThenAppend(h, es[0], es[1..]);
      assert h + [es[0]] + es[1..] == h + es;
    }
  }

  /** One `emit` followed by more entries keeps the same newest 200 as
      appending everything at once. */
  lemma EmittedThenAppend(h: seq<Entry>, e: Entry, rest: seq<Entry>)
    requires |h| <= MaxHistory
    ensures Last(Emitted(h, e) + rest, MaxHistory) == Last(h + [e] + rest, MaxHistory)
  {
    EmittedKeepsLast(h, e);
    LastOfLast(h + [e], rest, MaxHistory);
  }

  /** Trimming before appending does not change the last `n`. */
  lemma LastOfLast<T>(s: seq<T>, t: seq<T>, n: nat)
    ensures Last(Last(s, n) + t, n) == Last(s + t, n)
  {
    var u := Last(s, n);
    var a, b := Last(u + t, n), Last(s + t, n);
    assert |a| == |b|;
    forall i | 0 <= i < |a|
      ensures a[i] == b[i]
    {
      var k := |u + t| - |a| + i;
      var k' := |s + t| - |b| + i;
      if k < |u| {
        assert (u + t)[k] == u[k] == s[|s| - |u| + k];
        assert (s + t)[k'] == s[k'];
      } else {
        assert (u + t)[k] == t[k - |u|] == (s + t)[k'];
      }
    }
  }

  /** The history buffer of `UILogHandler`. */
  class LogHistory {
    var entries: seq<Entry>

    ghost predicate Valid()
      reads this
    {
      |entries| <= MaxHistory
    }

    constructor ()
      ensures Valid() && entries == []
    {
      entries := [];
    }

    /** `UILogHandler.emit`: appends the entry and drops the oldest one when
        the history is over the cap. */
    method Emit(timestamp: int, message: string)
      requires Valid()
      modifies this
      ensures Valid()
      ensures entries == Emitted(old(entries), Entry(timestamp, message))
      ensures entries == Last(old(entries) + [Entry(timestamp, message)], MaxHistory)
      ensures |old(entries)| < MaxHistory ==> entries == old(entries) + [Entry(timestamp, message)]
      ensures |old(entries)| == MaxHistory ==> entries == old(entries)[1..] + [Entry(timestamp, message)]
    {
      EmittedKeepsLast(entries, Entry(timestamp, message));
      entries := entries + [Entry(timestamp, message)];
      if |entries| > MaxHistory {
        entries := entries[1..];
      }
    }

    /** `get_recent_logs(n)`, Python's `list(log_history)[-n:]`: for `n > 0`
        the slice starts `n` from the end; for `n == 0` it starts at `-0 = 0`,
        the very beginning; for `n < 0` it drops the first `-n`. */
    function GetRecentLogs(n: int): (r: seq<Entry>)
      reads this
      ensures |r| <= |entries| && r == entries[|entries| - |r|..]
      ensures n >= 1 ==> r == Last(entries, n)
      ensures n == 0 ==> r == entries
      ensures n < 0 ==> r == entries[if -n < |entries| then -n else |entries|..]
    {
      var start := if n > 0 then (if n < |entries| then |entries| - n else 0)
                   else (if -n < |entries| then -n else |entries|);
      entries[start..]
    }
  }
}
