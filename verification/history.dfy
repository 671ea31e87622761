/**
 * The session download log (app.py:28-30), the entry the profile-picture
 * downloader appends to it (app.py:247-251) and the history view that lists
 * it newest first (app.py:278-285). Timestamps are abstract ordered values.
 */
module History {

  datatype Entry = Entry(filename: string, timestamp: int)

  /** Newest first: timestamps never increase along the sequence. */
  predicate NewestFirst(s: seq<Entry>)
  {
    forall i, j :: 0 <= i < j < |s| ==> s[i].timestamp >= s[j].timestamp
  }

  /** The entries of `s` stamped `t`, in their order in `s`. */
  function Matching(s: seq<Entry>, t: int): seq<Entry>
  {
    if s == [] then []
    else (if s[0].timestamp == t then [s[0]] else []) + Matching(s[1..], t)
  }

  /** `e` placed into a newest-first sequence after every entry that is not
      older than it: one entry more, and nothing else added or lost. */
  function Insert(view: seq<Entry>, e: Entry): (r: seq<Entry>)
    ensures |r| == |view| + 1
    ensures multiset(r) == multiset(view) + multiset{e}
  {
    if view == [] || view[0].timestamp < e.timestamp then [e] + view
    else
      assert view == [view[0]] + view[1..];
      [view[0]] + Insert(view[1..], e)
  }

  /** Inserting entries no newer than `bound` gives entries no newer than it. */
  lemma {:induction false} InsertBounded(view: seq<Entry>, e: Entry, bound: int)
    requires forall i :: 0 <= i < |view| ==> view[i].timestamp <= bound
    requires e.timestamp <= bound
    ensures forall i :: 0 <= i < |Insert(view, e)| ==> Insert(view, e)[i].timestamp <= bound
  {
    if view != [] && view[0].timestamp >= e.timestamp {
      InsertBounded(view[1..], e, bound);
    }
  }

  /** Insertion keeps a sequence newest first. */
  lemma {:induction false} InsertKeepsOrder(view: seq<Entry>, e: Entry)
    requires NewestFirst(view)
    ensures NewestFirst(Insert(view, e))
  {
    if view == [] || view[0].timestamp < e.timestamp {
      assert Insert(view, e) == [e] + view;
      forall i | 0 <= i < |view| ensures view[i].timestamp <= e.timestamp {
        assert view[0].timestamp >= view[i].timestamp;
      }
      ConsKeepsOrder(e, view);
    } else {
      var rest := Insert(view[1..], e);
      assert Insert(view, e) == [view[0]] + rest;
      InsertKeepsOrder(view[1..], e);
      InsertBounded(view[1..], e, view[0].timestamp);
      ConsKeepsOrder(view[0], rest);
    }
  }

  /** An entry no older than any of a newest-first sequence, put in front of it. */
  lemma ConsKeepsOrder(x: Entry, rest: seq<Entry>)
    requires NewestFirst(rest)
    requires forall i :: 0 <= i < |rest| ==> rest[i].timestamp <= x.timestamp
    ensures NewestFirst([x] + rest)
  {
    var r := [x] + rest;
    forall i, j | 0 <= i < j < |r| ensures r[i].timestamp >= r[j].timestamp {
      assert r[j] == rest[j - 1];
      if i > 0 {
        assert r[i] == rest[i - 1];
      }
    }
  }

  /** Python's `sorted(log, key=timestamp, reverse=True)`, which is stable:
      each entry is inserted after the earlier entries with the same
      timestamp. The result is newest first and a permutation of the log. */
  function SortNewestFirst(log: seq<Entry>): (view: seq<Entry>)
    ensures NewestFirst(view)
    ensures multiset(view) == multiset(log)
  {
    if log == [] then []
    else
      var init, last := log[..|log| - 1], log[|log| - 1];
      assert log == init + [last];
      var sorted := SortNewestFirst(init);
      InsertKeepsOrder(sorted, last);
      Insert(sorted, last)
  }

  lemma {:induction false} MatchingAppend(s: seq<Entry>, e: Entry, t: int)
    ensures Matching(s + [e], t) == Matching(s, t) + (if e.timestamp == t then [e] else [])
  {
    if s != [] {
      assert (s + [e])[1..] == s[1..] + [e];
      MatchingAppend(s[1..], e, t);
    }
  }

  lemma {:induction false} MatchingOlder(s: seq<Entry>, t: int)
    requires forall i :: 0 <= i < |s| ==> s[i].timestamp < t
    ensures Matching(s, t) == []
  {
    if s != [] {
      MatchingOlder(s[1..], t);
    }
  }

  /** Inserting into a newest-first sequence puts `e` after the entries that
      share its timestamp. */
  lemma {:induction false} MatchingInsert(view: seq<Entry>, e: Entry, t: int)
    requires NewestFirst(view)
    ensures Matching(Insert(view, e), t) == Matching(view, t) + (if e.timestamp == t then [e] else [])
  {
    if view == [] || view[0].timestamp < e.timestamp {
      assert Insert(view, e) == [e] + view;
      assert ([e] + view)[1..] == view;
      if e.timestamp == t {
        MatchingOlder(view, t);
      }
    } else {
      var rest := Insert(view[1..], e);
      assert Insert(view, e) == [view[0]] + rest;
      assert NewestFirst(view[1..]);
      MatchingInsert(view[1..], e, t);
      assert ([view[0]] + rest)[1..] == rest;
    }
  }

  /** The sort is stable: entries with the same timestamp keep the order in
      which they were logged. */
  lemma {:induction false} SortIsStable(log: seq<Entry>, t: int)
    ensures Matching(SortNewestFirst(log), t) == Matching(log, t)
  {
    if log != [] {
      var init, last := log[..|log| - 1], log[|log| - 1];
      var sorted := SortNewestFirst(init);
      assert SortNewestFirst(log) == Insert(sorted, last);
      SortIsStable(init, t);
      MatchingInsert(sorted, last, t);
      assert log == init + [last];
      MatchingAppend(init, last, t);
    }
  }

  /** `st.session_state['download_log']`: a list that is only ever appended
      to during the session. */
  class DownloadLog {
    var entries: seq<Entry>

    /** The log starts empty. */
    constructor ()
      ensures entries == []
    {
      entries := [];
    }

    /** `download_log.append(entry)`: one entry more, at the end; the earlier
        ones are untouched. */
    method Append(e: Entry)
      modifies this
      ensures entries == old(entries) + [e]
      ensures |entries| == |old(entries)| + 1 && entries[..|old(entries)|] == old(entries)
    {
      entries := entries + [e];
      assert entries[..|old(entries)|] == old(entries);
    }

    /** The profile-picture downloader logs `<username>_dp.jpg` stamped `now`
        once the picture was fetched and decoded, and logs nothing when any
        of those steps raised. */
    method RecordProfilePicture(username: string, now: int, fetched: bool)
      modifies this
      ensures fetched ==> entries == old(entries) + [Entry(username + "_dp.jpg", now)]
      ensures !fetched ==> entries == old(entries)
    {
      if fetched {
        Append(Entry(username + "_dp.jpg", now));
      }
    }

    /** The history page: the log newest first, holding exactly the logged
        entries, with entries of equal timestamp in logging order; empty
        exactly when nothing was logged ("No downloads in this session
        yet."). */
    method View() returns (view: seq<Entry>)
      ensures NewestFirst(view)
      ensures multiset(view) == multiset(entries)
      ensures forall t :: Matching(view, t) == Matching(entries, t)
      ensures view == [] <==> entries == []
    {
      view := SortNewestFirst(entries);
      forall t ensures Matching(view, t) == Matching(entries, t) {
        SortIsStable(entries, t);
      }
      assert |view| == |multiset(view)| == |entries|;
    }
  }
}
