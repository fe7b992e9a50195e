/**
 * The time-window filter `filter_dataframe` of database/db_writer.py.
 *
 * Timestamps are integers (microseconds). A candidate row carries the value that
 * `pd.to_datetime(..., errors='coerce')` gave its `Gmt time` cell, `None` where the
 * cell did not parse. The reference series is already parsed. Each reference time
 * `r` gives the window `[r - Delta, r + Delta]`; the candidates and the windows are
 * sorted, every candidate is matched "as of, backward" to the window with the
 * greatest start not after it, and kept when it also lies before that window's end.
 */
module Alignment {
  import opened Wrappers
  import opened Sorting
  import opened DataModel

  /** One minute in microseconds: the half-width of every reference window. */
  const Delta: int := 60_000_000

  /** A candidate record: its parsed `Gmt time` (if any) and the rest of its columns. */
  datatype Row<P> = Row(ts: Option<int>, payload: P)

  /** A pandas frame: its column names and its rows. */
  datatype Frame<P> = Frame(columns: seq<string>, rows: seq<Row<P>>)

  /** The `start_time` / `end_time` pair derived from one reference time. */
  datatype Window = Window(start: int, end: int)

  datatype AlignError = ValueError(message: string)

  const MissingColumnMessage: string :=
    "Neither 'DataModel.time_column' nor 'DataModel.time_column' and 'RELEASE_TIME' column found in the DataFrame"

  /** The sort key of a parsed row (only ever applied to rows whose timestamp parsed). */
  function TimeOf<P>(row: Row<P>): int
  {
    if row.ts.Some? then row.ts.value else 0
  }

  function StartOf(w: Window): int
  {
    w.start
  }

  /** The window of one reference time. The width is fixed: the `time_window` argument is never read. */
  function WindowOf(r: int): (w: Window)
    ensures w.start <= r <= w.end
    ensures w.end - w.start == 2 * Delta
  {
    Window(r - Delta, r + Delta)
  }

  function WindowsOf(refs: seq<int>): seq<Window>
  {
    seq(|refs|, k requires 0 <= k < |refs| => WindowOf(refs[k]))
  }

  /** The right-hand side of `merge_asof`: the windows sorted by start. */
  function SortedWindows(refs: seq<int>): seq<Window>
  {
    Sort(WindowsOf(refs), StartOf)
  }

  /**
   * The `merge_asof` (direction backward) match of time `t`: the last window whose
   * start is at most `t`, or `None` when every start is after `t`.
   */
  function AsOf(t: int, ws: seq<Window>): (m: Option<Window>)
    ensures m.Some? ==> m.value in ws && m.value.start <= t
    ensures m.None? <==> forall k :: 0 <= k < |ws| ==> ws[k].start > t
  {
    if |ws| == 0 then None
    else if ws[|ws| - 1].start <= t then Some(ws[|ws| - 1])
    else AsOf(t, ws[..|ws| - 1])
  }

  /** The mask applied after the merge: a match exists and `start <= t <= end`. */
  predicate Keeps(t: int, ws: seq<Window>)
    ensures Keeps(t, ws) ==> exists w :: w in ws && w.start <= t <= w.end
  {
    match AsOf(t, ws)
    case None => false
    case Some(w) => w.start <= t && t <= w.end
  }

  /** What the docstring promises: `t` lies within one minute of some reference time. */
  predicate Near(t: int, refs: seq<int>)
    ensures Near(t, refs) <==> exists k :: 0 <= k < |refs| && refs[k] - Delta <= t <= refs[k] + Delta
  {
    NearWitness(t, refs);
    exists r :: r in refs && r - Delta <= t <= r + Delta
  }

  /** A reference time close to `t` is one at some position of the reference series. */
  lemma NearWitness(t: int, refs: seq<int>)
    ensures (exists r :: r in refs && r - Delta <= t <= r + Delta) <==>
      exists k :: 0 <= k < |refs| && refs[k] - Delta <= t <= refs[k] + Delta
  {
    if exists r :: r in refs && r - Delta <= t <= r + Delta {
      var r :| r in refs && r - Delta <= t <= r + Delta;
      var k :| 0 <= k < |refs| && refs[k] == r;
    }
    if exists k :: 0 <= k < |refs| && refs[k] - Delta <= t <= refs[k] + Delta {
      var k :| 0 <= k < |refs| && refs[k] - Delta <= t <= refs[k] + Delta;
      assert refs[k] in refs;
    }
  }

  predicate AllParsed<P>(rows: seq<Row<P>>)
  {
    forall k :: 0 <= k < |rows| ==> rows[k].ts.Some?
  }

  /** `dropna(subset=[candle_time])`: the rows whose timestamp parsed, in order. */
  function Parsed<P>(rows: seq<Row<P>>): (r: seq<Row<P>>)
    ensures AllParsed(r)
    ensures |r| <= |rows|
  {
    if |rows| == 0 then []
    else Parsed(rows[..|rows| - 1]) + (if rows[|rows| - 1].ts.Some? then [rows[|rows| - 1]] else [])
  }

  /** `dropna` keeps every parsed row as often as it occurs, and no other row. */
  lemma {:induction false} ParsedCount<P>(rows: seq<Row<P>>, x: Row<P>)
    ensures multiset(Parsed(rows))[x] == if x.ts.Some? then multiset(rows)[x] else 0
  {
    if |rows| > 0 {
      var front := rows[..|rows| - 1];
      ParsedCount(front, x);
      assert rows == front + [rows[|rows| - 1]];
    }
  }

  /** Reference definition of the result: parsed rows within one minute of a reference time, in order. */
  function NearOnly<P>(rows: seq<Row<P>>, refs: seq<int>): (r: seq<Row<P>>)
    ensures |r| <= |rows|
    ensures forall k :: 0 <= k < |r| ==> r[k].ts.Some? && Near(r[k].ts.value, refs) && r[k] in rows
  {
    if |rows| == 0 then []
    else
      var last := rows[|rows| - 1];
      assert forall x :: x in rows[..|rows| - 1] ==> x in rows;
      NearOnly(rows[..|rows| - 1], refs) + (if last.ts.Some? && Near(last.ts.value, refs) then [last] else [])
  }

  /** What the merge followed by the mask keeps of a sequence of rows. */
  function KeptByAsOf<P>(rows: seq<Row<P>>, ws: seq<Window>): seq<Row<P>>
  {
    if |rows| == 0 then []
    else
      var last := rows[|rows| - 1];
      KeptByAsOf(rows[..|rows| - 1], ws) + (if Keeps(TimeOf(last), ws) then [last] else [])
  }

  /**
   * What `filter_dataframe` returns for a frame with a `Gmt time` column: only parsed
   * rows, ascending by time, and exactly (as a multiset) the parsed rows that lie
   * within one minute of a reference time. The order of equal timestamps is left open.
   */
  ghost predicate Aligned<P>(refs: seq<int>, input: seq<Row<P>>, output: seq<Row<P>>)
  {
    && AllParsed(output)
    && SortedBy(output, TimeOf)
    && multiset(output) == multiset(NearOnly(input, refs))
  }

  // ---------------------------------------------------------------------------
  // The as-of match

  /** If exactly the first `j` windows start at or before `t`, the match is window `j - 1`. */
  lemma {:induction false} AsOfAt(t: int, ws: seq<Window>, j: nat)
    requires j <= |ws|
    requires forall m :: 0 <= m < j ==> ws[m].start <= t
    requires forall m :: j <= m < |ws| ==> ws[m].start > t
    ensures AsOf(t, ws) == if j == 0 then None else Some(ws[j - 1])
  {
    if j < |ws| {
      AsOfAt(t, ws[..|ws| - 1], j);
    }
  }

  /**
   * On windows sorted by start, the match is a window with the greatest start not
   * after `t`, and there is no match exactly when every start is after `t`.
   */
  lemma {:induction false} AsOfGreatestStart(t: int, ws: seq<Window>)
    requires SortedBy(ws, StartOf)
    ensures AsOf(t, ws).None? <==> forall k :: 0 <= k < |ws| ==> ws[k].start > t
    ensures AsOf(t, ws).Some? ==>
      && AsOf(t, ws).value in ws
      && AsOf(t, ws).value.start <= t
      && forall k :: 0 <= k < |ws| && ws[k].start <= t ==> ws[k].start <= AsOf(t, ws).value.start
  {
    if |ws| > 0 && ws[|ws| - 1].start > t {
      var front := ws[..|ws| - 1];
      assert SortedBy(front, StartOf);
      AsOfGreatestStart(t, front);
      assert forall k :: 0 <= k < |front| ==> front[k] == ws[k];
    }
  }

  /** Every sorted window is the window of some reference time. */
  lemma SortedWindowOrigin(refs: seq<int>, w: Window)
    requires w in SortedWindows(refs)
    ensures exists r :: r in refs && w == WindowOf(r)
  {
    assert w in multiset(SortedWindows(refs));
    assert w in multiset(WindowsOf(refs));
    var k :| 0 <= k < |WindowsOf(refs)| && WindowsOf(refs)[k] == w;
    assert refs[k] in refs;
  }

  /** The window of every reference time is among the sorted windows. */
  lemma SortedWindowOf(refs: seq<int>, r: int)
    requires r in refs
    ensures WindowOf(r) in SortedWindows(refs)
  {
    var k :| 0 <= k < |refs| && refs[k] == r;
    assert WindowsOf(refs)[k] == WindowOf(r);
    assert WindowOf(r) in multiset(WindowsOf(refs));
    assert WindowOf(r) in multiset(SortedWindows(refs));
  }

  /**
   * The key property: since every window has the same width, the window with the
   * greatest start not after `t` also has the greatest end, so the as-of match keeps
   * `t` exactly when `t` lies within one minute of some reference time. Both bounds
   * are inclusive.
   */
  lemma KeepsIffNear(refs: seq<int>, t: int)
    ensures Keeps(t, SortedWindows(refs)) <==> Near(t, refs)
  {
    var ws := SortedWindows(refs);
    AsOfGreatestStart(t, ws);
    if Near(t, refs) {
      var r :| r in refs && r - Delta <= t <= r + Delta;
      SortedWindowOf(refs, r);
      var k :| 0 <= k < |ws| && ws[k] == WindowOf(r);
      var w := AsOf(t, ws).value;
      SortedWindowOrigin(refs, w);
    }
    if Keeps(t, ws) {
      var w := AsOf(t, ws).value;
      SortedWindowOrigin(refs, w);
    }
  }

  /** The matched window is always that of a reference time, and `t` is not before its start. */
  lemma MatchedWindowIsReferenceWindow(refs: seq<int>, t: int)
    requires AsOf(t, SortedWindows(refs)).Some?
    ensures exists r :: r in refs && AsOf(t, SortedWindows(refs)).value == WindowOf(r) && r - Delta <= t
  {
    AsOfGreatestStart(t, SortedWindows(refs));
    SortedWindowOrigin(refs, AsOf(t, SortedWindows(refs)).value);
  }

  /** A time before every window start has no as-of match, so it is dropped. */
  lemma BeforeEveryWindowDropped(refs: seq<int>, t: int)
    requires forall r :: r in refs ==> t < r - Delta
    ensures AsOf(t, SortedWindows(refs)).None?
    ensures !Keeps(t, SortedWindows(refs))
  {
    var ws := SortedWindows(refs);
    AsOfGreatestStart(t, ws);
    forall k | 0 <= k < |ws|
      ensures ws[k].start > t
    {
      SortedWindowOrigin(refs, ws[k]);
    }
  }

  /**
   * A time in a gap between windows is matched to an earlier window whose end it has
   * passed, and is dropped.
   */
  lemma GapDropped(refs: seq<int>, t: int)
    requires exists r :: r in refs && r + Delta < t
    requires !Near(t, refs)
    ensures AsOf(t, SortedWindows(refs)).Some?
    ensures AsOf(t, SortedWindows(refs)).value.end < t
    ensures !Keeps(t, SortedWindows(refs))
  {
    var ws := SortedWindows(refs);
    var r :| r in refs && r + Delta < t;
    SortedWindowOf(refs, r);
    AsOfGreatestStart(t, ws);
    KeepsIffNear(refs, t);
    var w := AsOf(t, ws).value;
    SortedWindowOrigin(refs, w);
  }

  /** With one reference time `r`: `r - Delta` and `r + Delta` are kept, one microsecond beyond either is not. */
  lemma BoundariesInclusive(r: int)
    ensures Keeps(r - Delta, SortedWindows([r])) && Keeps(r + Delta, SortedWindows([r]))
    ensures !Keeps(r - Delta - 1, SortedWindows([r])) && !Keeps(r + Delta + 1, SortedWindows([r]))
  {
    assert r in [r];
    KeepsIffNear([r], r - Delta);
    KeepsIffNear([r], r + Delta);
    KeepsIffNear([r], r - Delta - 1);
    KeepsIffNear([r], r + Delta + 1);
  }

  // ---------------------------------------------------------------------------
  // From the merge to the reference definition

  lemma {:induction false} KeptByAsOfIsNearOnly<P>(rows: seq<Row<P>>, refs: seq<int>)
    requires AllParsed(rows)
    ensures KeptByAsOf(rows, SortedWindows(refs)) == NearOnly(rows, refs)
  {
    if |rows| > 0 {
      var front := rows[..|rows| - 1];
      assert AllParsed(front) by {
        forall k | 0 <= k < |front| ensures front[k].ts.Some? {
          assert front[k] == rows[k];
        }
      }
      KeptByAsOfIsNearOnly(front, refs);
      KeepsIffNear(refs, TimeOf(rows[|rows| - 1]));
    }
  }

  /** Dropping unparsed rows first does not change the reference result. */
  lemma {:induction false} NearOnlyOfParsed<P>(rows: seq<Row<P>>, refs: seq<int>)
    ensures NearOnly(Parsed(rows), refs) == NearOnly(rows, refs)
  {
    if |rows| > 0 {
      var front := rows[..|rows| - 1];
      var last := rows[|rows| - 1];
      NearOnlyOfParsed(front, refs);
      if last.ts.Some? {
        var p := Parsed(front) + [last];
        assert Parsed(rows) == p;
        assert p[..|p| - 1] == Parsed(front);
        assert NearOnly(p, refs) == NearOnly(Parsed(front), refs) + NearOnly([last], refs);
      } else {
        assert Parsed(rows) == Parsed(front);
      }
    }
  }

  /** How often a row occurs in the reference result. */
  lemma {:induction false} NearOnlyCount<P>(rows: seq<Row<P>>, refs: seq<int>, x: Row<P>)
    ensures multiset(NearOnly(rows, refs))[x] ==
      if x.ts.Some? && Near(x.ts.value, refs) then multiset(rows)[x] else 0
  {
    if |rows| > 0 {
      var front := rows[..|rows| - 1];
      NearOnlyCount(front, refs, x);
      assert rows == front + [rows[|rows| - 1]];
    }
  }

  /** The reference result of two permutations of one another are permutations of one another. */
  lemma NearOnlyPermutation<P>(a: seq<Row<P>>, b: seq<Row<P>>, refs: seq<int>)
    requires multiset(a) == multiset(b)
    ensures multiset(NearOnly(a, refs)) == multiset(NearOnly(b, refs))
  {
    var ma, mb := multiset(NearOnly(a, refs)), multiset(NearOnly(b, refs));
    forall x: Row<P>
      ensures ma[x] == mb[x]
    {
      NearOnlyCount(a, refs, x);
      NearOnlyCount(b, refs, x);
    }
    MultisetExt(ma, mb);
  }

  lemma MultisetExt<T>(m1: multiset<T>, m2: multiset<T>)
    requires forall x: T :: m1[x] == m2[x]
    ensures m1 == m2
  {
  }

  /** The reference result of a sorted sequence is sorted. */
  lemma {:induction false} NearOnlySorted<P>(rows: seq<Row<P>>, refs: seq<int>)
    requires SortedBy(rows, TimeOf)
    ensures SortedBy(NearOnly(rows, refs), TimeOf)
  {
    if |rows| > 0 {
      var front := rows[..|rows| - 1];
      var last := rows[|rows| - 1];
      assert SortedBy(front, TimeOf);
      NearOnlySorted(front, refs);
      var r := NearOnly(front, refs);
      forall i | 0 <= i < |r|
        ensures TimeOf(r[i]) <= TimeOf(last)
      {
        assert r[i] in front;
        var m :| 0 <= m < |front| && front[m] == r[i];
      }
    }
  }

  // ---------------------------------------------------------------------------
  // What a result satisfying Aligned promises

  /** Soundness: every returned row parsed, lies within one minute of a reference time, and came from the input. */
  lemma AlignedSound<P>(refs: seq<int>, input: seq<Row<P>>, output: seq<Row<P>>, k: nat)
    requires Aligned(refs, input, output)
    requires k < |output|
    ensures output[k].ts.Some?
    ensures Near(output[k].ts.value, refs)
    ensures output[k] in input
  {
    var x := output[k];
    assert x in multiset(output);
    NearOnlyCount(input, refs, x);
  }

  /** Completeness: every parsed input row within one minute of a reference time is returned, as often as it occurs. */
  lemma AlignedComplete<P>(refs: seq<int>, input: seq<Row<P>>, output: seq<Row<P>>, x: Row<P>)
    requires Aligned(refs, input, output)
    requires x in input && x.ts.Some? && Near(x.ts.value, refs)
    ensures x in output
    ensures multiset(output)[x] == multiset(input)[x]
  {
    NearOnlyCount(input, refs, x);
    assert x in multiset(input);
  }

  /** The result is a sub-multiset of the input, so it is never longer. */
  lemma AlignedSubMultiset<P>(refs: seq<int>, input: seq<Row<P>>, output: seq<Row<P>>)
    requires Aligned(refs, input, output)
    ensures multiset(output) <= multiset(input)
    ensures |output| <= |input|
  {
    forall x: Row<P>
      ensures multiset(output)[x] <= multiset(input)[x]
    {
      NearOnlyCount(input, refs, x);
    }
    assert |multiset(output)| <= |multiset(input)| by {
      var d := multiset(input) - multiset(output);
      assert multiset(input) == multiset(output) + d;
    }
  }

  // ---------------------------------------------------------------------------
  // The algorithm

  /**
   * `merge_asof` followed by the `start <= t <= end` mask, as one merging pass
   * over the rows and the windows, both sorted.
   */
  method MergeAsOf<P>(rows: seq<Row<P>>, ws: seq<Window>) returns (kept: seq<Row<P>>)
    requires SortedBy(rows, TimeOf)
    requires SortedBy(ws, StartOf)
    ensures kept == KeptByAsOf(rows, ws)
  {
    kept := [];
    var i, j := 0, 0;
    while i < |rows|
      invariant 0 <= i <= |rows| && 0 <= j <= |ws|
      invariant i < |rows| ==> forall m :: 0 <= m < j ==> ws[m].start <= TimeOf(rows[i])
      invariant kept == KeptByAsOf(rows[..i], ws)
    {
      var t := TimeOf(rows[i]);
      while j < |ws| && ws[j].start <= t
        invariant 0 <= j <= |ws|
        invariant forall m :: 0 <= m < j ==> ws[m].start <= t
      {
        j := j + 1;
      }
      AsOfAt(t, ws, j);
      if j > 0 && ws[j - 1].start <= t && t <= ws[j - 1].end {
        kept := kept + [rows[i]];
      }
      assert rows[..i + 1][..i] == rows[..i];
      i := i + 1;
    }
    assert rows[..i] == rows;
  }

  /**
   * `filter_dataframe(reference_df, target_df, time_window)`. With a `Gmt time`
   * column, the rows are aligned; otherwise a frame with `RELEASE_TIME` is returned
   * unchanged, and any other frame raises `ValueError`. `time_window` is ignored.
   */
  method FilterDataframe<P(==)>(reference: seq<int>, target: Frame<P>, timeWindow: int)
    returns (r: Result<Frame<P>, AlignError>)
    ensures TimeColumn in target.columns ==>
      r.Success? && r.value.columns == target.columns && Aligned(reference, target.rows, r.value.rows)
    ensures TimeColumn !in target.columns && ReleaseTimeColumn in target.columns ==>
      r == Success(target)
    ensures TimeColumn !in target.columns && ReleaseTimeColumn !in target.columns ==>
      r == Failure(ValueError(MissingColumnMessage))
  {
    if TimeColumn in target.columns {
      var parsed := Parsed(target.rows);
      var candles := Sort(parsed, TimeOf);
      var kept := MergeAsOf(candles, SortedWindows(reference));
      assert AllParsed(candles) by {
        forall k | 0 <= k < |candles| ensures candles[k].ts.Some? {
          assert candles[k] in multiset(parsed);
        }
      }
      KeptByAsOfIsNearOnly(candles, reference);
      NearOnlySorted(candles, reference);
      NearOnlyPermutation(candles, parsed, reference);
      NearOnlyOfParsed(target.rows, reference);
      assert AllParsed(kept) by {
        forall k | 0 <= k < |kept| ensures kept[k].ts.Some? {
          NearOnlyCount(candles, reference, kept[k]);
          assert kept[k] in multiset(kept);
        }
      }
      r := Success(Frame(target.columns, kept));
    } else if ReleaseTimeColumn in target.columns {
      r := Success(target);
    } else {
      r := Failure(ValueError(MissingColumnMessage));
    }
  }
}
