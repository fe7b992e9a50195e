/**
 * The writing side of `DataFrameChunkWriter` (database/db_writer.py): the drain loop
 * of `write_to_db` with its sentinel and its retry policy, and the preparation of a
 * chunk's time columns by `_prepare_chunk_for_db` and `format_time_column`.
 *
 * The multiprocessing queue is the sequence of items the writer will read, in order.
 * The sqlite database is a map from table name to the chunks appended to it. Whether
 * a write attempt raises `sqlite3.OperationalError` is decided by an oracle
 * `fails(i, k)`: item `i` of the queue, attempt `k` (counted from 0).
 */
module Writer {
  import opened Wrappers
  import opened DataModel

  /**
   * A pandas chunk, as far as the writer touches it: its column labels, the column
   * set as index (if any), the format each time column was parsed with, and its
   * records, which the writer never inspects.
   */
  datatype Chunk = Chunk(columns: seq<string>, index: Option<string>, formats: map<string, string>, records: seq<string>)

  /** `(chunk, table_name)` as read from the queue; a `None` chunk is the sentinel. */
  datatype Item = Item(chunk: Option<Chunk>, table: string)

  const GmtFormat: string := "%Y-%m-%d %H:%M:%S.%f"
  const ReleaseFormat: string := "%Y.%m.%d %H:%M:%S"

  /** `retry_count = 5`. */
  const MaxAttempts: nat := 5

  // ---------------------------------------------------------------------------
  // Preparing a chunk

  /** `format_time_column(df, column, fmt)`: the column is parsed with `fmt` when present; otherwise nothing happens. */
  function FormatTimeColumn(c: Chunk, column: string, fmt: string): (r: Chunk)
    ensures column !in c.columns ==> r == c
    ensures column in c.columns ==>
      r.formats == c.formats[column := fmt] && r.columns == c.columns && r.index == c.index && r.records == c.records
  {
    if column in c.columns then c.(formats := c.formats[column := fmt]) else c
  }

  /** Every occurrence of `column` removed, the others kept in order. */
  function Without(columns: seq<string>, column: string): (r: seq<string>)
    ensures forall x :: x in r <==> x in columns && x != column
    ensures |r| <= |columns|
  {
    if |columns| == 0 then []
    else
      assert columns == [columns[0]] + columns[1..];
      (if columns[0] == column then [] else [columns[0]]) + Without(columns[1..], column)
  }

  /** `chunk.set_index(column, inplace=True)`: the column leaves the columns and becomes the index. */
  function SetIndex(c: Chunk, column: string): (r: Chunk)
    ensures forall x :: x in r.columns <==> x in c.columns && x != column
    ensures r.index == Some(column) && r.formats == c.formats && r.records == c.records
  {
    c.(columns := Without(c.columns, column), index := Some(column))
  }

  /**
   * `_prepare_chunk_for_db`: `Gmt time` wins and becomes the index; otherwise
   * `RELEASE_TIME` is parsed and stays a column; otherwise nothing changes. The
   * second `Gmt time` branch repeats the first test and is never taken.
   */
  function PrepareChunk(c: Chunk): (r: Chunk)
    ensures TimeColumn !in r.columns
    ensures forall x :: x in r.columns ==> x in c.columns
    ensures r.records == c.records
    ensures TimeColumn in c.columns ==> r.index == Some(TimeColumn)
  {
    if TimeColumn in c.columns then SetIndex(FormatTimeColumn(c, TimeColumn, GmtFormat), TimeColumn)
    else if ReleaseTimeColumn in c.columns then FormatTimeColumn(c, ReleaseTimeColumn, ReleaseFormat)
    else c
  }

  /** The chunk after `n` runs of `_prepare_chunk_for_db`: every attempt re-runs it on the already changed chunk. */
  function PrepareTimes(c: Chunk, n: nat): (r: Chunk)
    ensures n >= 1 ==> TimeColumn !in r.columns
    ensures forall x :: x in r.columns ==> x in c.columns
    ensures r.records == c.records
  {
    if n == 0 then c else PrepareChunk(PrepareTimes(c, n - 1))
  }

  /** `Gmt time` present: parsed with its format and moved into the index, nothing else touched. */
  lemma PrepareGmtChunk(c: Chunk)
    requires TimeColumn in c.columns
    ensures var r := PrepareChunk(c);
      r.index == Some(TimeColumn) && r.formats == c.formats[TimeColumn := GmtFormat] &&
      (forall x :: x in r.columns <==> x in c.columns && x != TimeColumn) && r.records == c.records
  {
  }

  /** Only `RELEASE_TIME` present: parsed with its own format, kept as a column, the index left alone. */
  lemma PrepareReleaseChunk(c: Chunk)
    requires TimeColumn !in c.columns && ReleaseTimeColumn in c.columns
    ensures var r := PrepareChunk(c);
      r.index == c.index && r.formats == c.formats[ReleaseTimeColumn := ReleaseFormat] &&
      r.columns == c.columns && r.records == c.records
  {
  }

  /** Neither time column present: the chunk is untouched. */
  lemma PrepareOtherChunk(c: Chunk)
    requires TimeColumn !in c.columns && ReleaseTimeColumn !in c.columns
    ensures PrepareChunk(c) == c
  {
  }

  /** Parsing a column twice with the same format is parsing it once. */
  lemma FormatTimeColumnIdempotent(c: Chunk, column: string, fmt: string)
    ensures FormatTimeColumn(FormatTimeColumn(c, column, fmt), column, fmt) == FormatTimeColumn(c, column, fmt)
  {
  }

  /** Without `Gmt time`, preparing is idempotent. */
  lemma PrepareIdempotentWithoutGmt(c: Chunk)
    requires TimeColumn !in c.columns
    ensures PrepareChunk(PrepareChunk(c)) == PrepareChunk(c)
  {
  }

  /** After any number of attempts the chunk is the one after at most two: the second run is the last that changes it. */
  lemma {:induction false} PrepareSettles(c: Chunk, n: nat)
    requires n >= 2
    ensures PrepareTimes(c, n) == PrepareTimes(c, 2)
  {
    if n > 2 {
      PrepareSettles(c, n - 1);
      var p := PrepareTimes(c, 1);
      assert TimeColumn !in p.columns;
      PrepareIdempotentWithoutGmt(p);
    }
  }

  /**
   * A chunk with both `Gmt time` and `RELEASE_TIME`: written on the first attempt,
   * its `RELEASE_TIME` stays unparsed; written on a retry, it is parsed, because the
   * retry runs `_prepare_chunk_for_db` again on a chunk whose `Gmt time` is now the index.
   */
  lemma RetryAlsoFormatsReleaseTime(c: Chunk)
    requires TimeColumn in c.columns && ReleaseTimeColumn in c.columns
    requires ReleaseTimeColumn !in c.formats
    ensures ReleaseTimeColumn !in PrepareTimes(c, 1).formats
    ensures ReleaseTimeColumn in PrepareTimes(c, 2).formats && PrepareTimes(c, 2).formats[ReleaseTimeColumn] == ReleaseFormat
    ensures PrepareTimes(c, 2).index == PrepareTimes(c, 1).index == Some(TimeColumn)
  {
    assert PrepareTimes(c, 0) == c;
    var p := PrepareTimes(c, 1);
    assert p == PrepareChunk(c);
    assert ReleaseTimeColumn[0] != TimeColumn[0];
    assert ReleaseTimeColumn in p.columns;
    assert PrepareTimes(c, 2) == PrepareChunk(p);
  }

  // ---------------------------------------------------------------------------
  // Retries and the drain, as functions of the queue and the oracle

  /** The attempt, among `k` .. 4, that succeeds first, if any. */
  function FirstSuccess(fails: (nat, nat) -> bool, i: nat, k: nat): (r: Option<nat>)
    requires k <= MaxAttempts
    ensures r.Some? ==> k <= r.value < MaxAttempts && !fails(i, r.value) && forall a :: k <= a < r.value ==> fails(i, a)
    ensures r.None? <==> forall a :: k <= a < MaxAttempts ==> fails(i, a)
    decreases MaxAttempts - k
  {
    if k == MaxAttempts then None
    else if !fails(i, k) then Some(k)
    else FirstSuccess(fails, i, k + 1)
  }

  /** The chunks of table `t`, `[]` when it does not exist yet. */
  function Get(store: map<string, seq<Chunk>>, t: string): seq<Chunk>
  {
    if t in store then store[t] else []
  }

  /** `to_sql(table, if_exists='append')` that succeeds. */
  function Append(store: map<string, seq<Chunk>>, t: string, c: Chunk): (r: map<string, seq<Chunk>>)
    ensures Get(r, t) == Get(store, t) + [c]
    ensures forall u :: u != t ==> Get(r, u) == Get(store, u)
  {
    store[t := Get(store, t) + [c]]
  }

  /**
   * Writing item `i` with up to five attempts: the chunk as prepared by the number of
   * attempts made is appended once, on the first success; after five failures the
   * chunk is dropped and the store is unchanged.
   */
  function WriteItem(store: map<string, seq<Chunk>>, item: Item, i: nat, fails: (nat, nat) -> bool): (r: map<string, seq<Chunk>>)
    ensures item.chunk.None? ==> r == store
    ensures forall u :: u != item.table ==> Get(r, u) == Get(store, u)
    ensures Get(store, item.table) <= Get(r, item.table)
    ensures |Get(r, item.table)| <= |Get(store, item.table)| + 1
    ensures store.Keys <= r.Keys
  {
    match item.chunk
    case None => store
    case Some(c) =>
      match FirstSuccess(fails, i, 0)
      case None => store
      case Some(k) => Append(store, item.table, PrepareTimes(c, k + 1))
  }

  /** The store after writing `items` in queue order, item `j` under oracle index `j`. */
  function Drain(store: map<string, seq<Chunk>>, items: seq<Item>, fails: (nat, nat) -> bool): (r: map<string, seq<Chunk>>)
    ensures store.Keys <= r.Keys
  {
    if |items| == 0 then store
    else WriteItem(Drain(store, items[..|items| - 1], fails), items[|items| - 1], |items| - 1, fails)
  }

  /** Draining only appends: each table keeps what it held and gains at most one chunk per item. */
  lemma {:induction false} DrainOnlyAppends(store: map<string, seq<Chunk>>, items: seq<Item>, fails: (nat, nat) -> bool, t: string)
    ensures Get(store, t) <= Get(Drain(store, items, fails), t)
    ensures |Get(Drain(store, items, fails), t)| <= |Get(store, t)| + |items|
  {
    if |items| > 0 {
      DrainOnlyAppends(store, items[..|items| - 1], fails, t);
    }
  }

  /** Draining one more item of the queue writes that item on top of the shorter drain. */
  lemma DrainPrefix(store: map<string, seq<Chunk>>, q: seq<Item>, fails: (nat, nat) -> bool, i: nat)
    requires i < |q|
    ensures Drain(store, q[..i + 1], fails) == WriteItem(Drain(store, q[..i], fails), q[i], i, fails)
  {
    assert q[..i + 1][..i] == q[..i];
  }

  /** The position of the first sentinel, or the length of the queue when it has none. */
  function SentinelIndex(q: seq<Item>): (n: nat)
    ensures n <= |q|
    ensures forall j :: 0 <= j < n ==> q[j].chunk.Some?
    ensures n < |q| ==> q[n].chunk.None?
  {
    if |q| == 0 || q[0].chunk.None? then 0 else 1 + SentinelIndex(q[1..])
  }

  /** One successful `to_sql`: the table, the chunk as written, and the queue position of its item. */
  datatype Write = Write(table: string, chunk: Chunk, item: nat)

  /** The write, if any, that item `i` leads to: none for the sentinel or after five failures. */
  function ItemWrites(item: Item, i: nat, fails: (nat, nat) -> bool): (ws: seq<Write>)
    ensures |ws| <= 1
  {
    match item.chunk
    case None => []
    case Some(c) =>
      match FirstSuccess(fails, i, 0)
      case None => []
      case Some(k) => [Write(item.table, PrepareTimes(c, k + 1), i)]
  }

  /** Every successful write, in the order it happens. */
  function Writes(items: seq<Item>, fails: (nat, nat) -> bool): seq<Write>
  {
    if |items| == 0 then []
    else Writes(items[..|items| - 1], fails) + ItemWrites(items[|items| - 1], |items| - 1, fails)
  }

  /** The chunks a list of writes puts into table `t`, in order. */
  function ChunksFor(ws: seq<Write>, t: string): seq<Chunk>
  {
    if |ws| == 0 then []
    else ChunksFor(ws[..|ws| - 1], t) + (if ws[|ws| - 1].table == t then [ws[|ws| - 1].chunk] else [])
  }

  /** Writing one item adds to table `t` what its write, if any, puts there. */
  lemma WriteItemAppends(store: map<string, seq<Chunk>>, item: Item, i: nat, fails: (nat, nat) -> bool, t: string)
    ensures Get(WriteItem(store, item, i, fails), t) == Get(store, t) + ChunksFor(ItemWrites(item, i, fails), t)
  {
    var mine := ItemWrites(item, i, fails);
    if |mine| == 1 {
      assert mine[..0] == [];
    }
  }

  /** The chunks of `ws + mine` for a table are those of `ws`, then those of `mine` (at most one write). */
  lemma ChunksForAppend(ws: seq<Write>, mine: seq<Write>, t: string)
    requires |mine| <= 1
    ensures ChunksFor(ws + mine, t) == ChunksFor(ws, t) + ChunksFor(mine, t)
  {
    if |mine| == 1 {
      assert (ws + mine)[..|ws|] == ws;
      assert mine[..0] == [];
    } else {
      assert ws + mine == ws;
    }
  }

  /** What the last item adds to table `t` in the store. */
  lemma DrainStep(store: map<string, seq<Chunk>>, items: seq<Item>, fails: (nat, nat) -> bool, t: string)
    requires |items| > 0
    ensures Get(Drain(store, items, fails), t) ==
      Get(Drain(store, items[..|items| - 1], fails), t) + ChunksFor(ItemWrites(items[|items| - 1], |items| - 1, fails), t)
  {
    var i := |items| - 1;
    WriteItemAppends(Drain(store, items[..i], fails), items[i], i, fails, t);
  }

  /** What the last item adds to table `t` in the writes. */
  lemma WritesStep(items: seq<Item>, fails: (nat, nat) -> bool, t: string)
    requires |items| > 0
    ensures ChunksFor(Writes(items, fails), t) ==
      ChunksFor(Writes(items[..|items| - 1], fails), t) + ChunksFor(ItemWrites(items[|items| - 1], |items| - 1, fails), t)
  {
    var i := |items| - 1;
    ChunksForAppend(Writes(items[..i], fails), ItemWrites(items[i], i, fails), t);
  }

  /**
   * Each table receives exactly the successful chunks addressed to it, after what it
   * held, in queue order; every other table is left as it was.
   */
  lemma {:induction false} DrainAppendsInOrder(store: map<string, seq<Chunk>>, items: seq<Item>, fails: (nat, nat) -> bool, t: string)
    ensures Get(Drain(store, items, fails), t) == Get(store, t) + ChunksFor(Writes(items, fails), t)
  {
    if |items| > 0 {
      var front := items[..|items| - 1];
      DrainAppendsInOrder(store, front, fails, t);
      DrainStep(store, items, fails, t);
      WritesStep(items, fails, t);
      Regroup(Get(store, t), ChunksFor(Writes(front, fails), t),
        ChunksFor(ItemWrites(items[|items| - 1], |items| - 1, fails), t),
        Get(Drain(store, front, fails), t), Get(Drain(store, items, fails), t));
    }
  }

  /** A table extended twice holds its old chunks followed by both extensions. */
  lemma Regroup(held: seq<Chunk>, earlier: seq<Chunk>, mine: seq<Chunk>, before: seq<Chunk>, after: seq<Chunk>)
    requires before == held + earlier && after == before + mine
    ensures after == held + (earlier + mine)
  {
    assert (held + earlier) + mine == held + (earlier + mine);
  }

  /** Write `w` is item `w.item`'s chunk, under its table, as prepared by the attempts made. */
  predicate WriteOf(items: seq<Item>, fails: (nat, nat) -> bool, w: Write)
  {
    w.item < |items| && items[w.item].chunk.Some? && FirstSuccess(fails, w.item, 0).Some? &&
    w.table == items[w.item].table &&
    w.chunk == PrepareTimes(items[w.item].chunk.value, FirstSuccess(fails, w.item, 0).value + 1)
  }

  /** The writes follow the queue, at most one per item: their item positions strictly increase. */
  lemma {:induction false} WritesInQueueOrder(items: seq<Item>, fails: (nat, nat) -> bool)
    ensures forall a :: 0 <= a < |Writes(items, fails)| ==> Writes(items, fails)[a].item < |items|
    ensures forall a, b :: 0 <= a < b < |Writes(items, fails)| ==> Writes(items, fails)[a].item < Writes(items, fails)[b].item
  {
    if |items| > 0 {
      var i := |items| - 1;
      WritesInQueueOrder(items[..i], fails);
      var earlier := Writes(items[..i], fails);
      assert forall a :: 0 <= a < |earlier| ==> earlier[a].item < i;
      var mine := ItemWrites(items[i], i, fails);
      assert forall a :: 0 <= a < |mine| ==> mine[a].item == i;
      var ws := earlier + mine;
      assert Writes(items, fails) == ws;
      assert forall a :: 0 <= a < |ws| ==> ws[a].item < |items|;
    }
  }

  /** Each write is its item's chunk, under the item's table, as prepared by the attempts made. */
  lemma {:induction false} WritesAreItems(items: seq<Item>, fails: (nat, nat) -> bool)
    ensures forall a :: 0 <= a < |Writes(items, fails)| ==> WriteOf(items, fails, Writes(items, fails)[a])
  {
    if |items| > 0 {
      var i := |items| - 1;
      var front := items[..i];
      WritesAreItems(front, fails);
      WritesInQueueOrder(front, fails);
      var earlier := Writes(front, fails);
      var mine := ItemWrites(items[i], i, fails);
      var ws := earlier + mine;
      assert Writes(items, fails) == ws;
      forall a | 0 <= a < |ws|
        ensures WriteOf(items, fails, ws[a])
      {
        if a < |earlier| {
          assert ws[a] == earlier[a];
          assert WriteOf(front, fails, earlier[a]);
          assert items[earlier[a].item] == front[earlier[a].item];
        } else {
          assert ws[a] == mine[0];
        }
      }
    }
  }

  /** Some write comes from item `j`. */
  predicate IsWritten(items: seq<Item>, fails: (nat, nat) -> bool, j: nat)
  {
    exists a :: 0 <= a < |Writes(items, fails)| && Writes(items, fails)[a].item == j
  }

  /** Item `j` is written exactly when it is a chunk and one of its five attempts succeeds. */
  lemma {:induction false} WrittenIff(items: seq<Item>, fails: (nat, nat) -> bool, j: nat)
    requires j < |items|
    ensures IsWritten(items, fails, j) <==> items[j].chunk.Some? && FirstSuccess(fails, j, 0).Some?
  {
    if j == |items| - 1 {
      WrittenIffLast(items, fails);
    } else {
      WrittenIff(items[..|items| - 1], fails, j);
      assert items[..|items| - 1][j] == items[j];
      WrittenIffStep(items, fails, j);
    }
  }

  /** The write of item `i`, if any, carries its position. */
  lemma ItemWritesAt(item: Item, i: nat, fails: (nat, nat) -> bool)
    ensures forall a :: 0 <= a < |ItemWrites(item, i, fails)| ==> ItemWrites(item, i, fails)[a].item == i
    ensures |ItemWrites(item, i, fails)| == 1 <==> item.chunk.Some? && FirstSuccess(fails, i, 0).Some?
  {
  }

  lemma WrittenIffLast(items: seq<Item>, fails: (nat, nat) -> bool)
    requires |items| > 0
    ensures IsWritten(items, fails, |items| - 1) <==>
      items[|items| - 1].chunk.Some? && FirstSuccess(fails, |items| - 1, 0).Some?
  {
    var i := |items| - 1;
    var front := items[..i];
    WritesInQueueOrder(front, fails);
    var earlier := Writes(front, fails);
    var mine := ItemWrites(items[i], i, fails);
    ItemWritesAt(items[i], i, fails);
    var ws := Writes(items, fails);
    assert ws == earlier + mine;
    if IsWritten(items, fails, i) {
      var a :| 0 <= a < |ws| && ws[a].item == i;
      assert a >= |earlier|;
      assert |mine| > 0;
    }
    if items[i].chunk.Some? && FirstSuccess(fails, i, 0).Some? {
      assert ws[|earlier|] == mine[0];
      assert ws[|earlier|].item == i;
      assert IsWritten(items, fails, i);
    }
  }

  /** Appending the last item's write does not change whether an earlier item is written. */
  lemma WrittenIffStep(items: seq<Item>, fails: (nat, nat) -> bool, j: nat)
    requires j < |items| - 1
    ensures IsWritten(items, fails, j) <==> IsWritten(items[..|items| - 1], fails, j)
  {
    var i := |items| - 1;
    var earlier := Writes(items[..i], fails);
    var mine := ItemWrites(items[i], i, fails);
    ItemWritesAt(items[i], i, fails);
    var ws := Writes(items, fails);
    assert ws == earlier + mine;
    if IsWritten(items[..i], fails, j) {
      var a :| 0 <= a < |earlier| && earlier[a].item == j;
      assert ws[a] == earlier[a];
      assert IsWritten(items, fails, j);
    }
    if IsWritten(items, fails, j) {
      var a :| 0 <= a < |ws| && ws[a].item == j;
      assert earlier[a] == ws[a];
      assert IsWritten(items[..i], fails, j);
    }
  }

  /** After five failures the chunk is dropped: the store does not change. */
  lemma DroppedAfterFiveFailures(store: map<string, seq<Chunk>>, item: Item, i: nat, fails: (nat, nat) -> bool)
    requires forall a :: 0 <= a < MaxAttempts ==> fails(i, a)
    ensures WriteItem(store, item, i, fails) == store
  {
  }

  /** A chunk written on attempt `k` is appended exactly once, prepared `k + 1` times. */
  lemma WrittenOnFirstSuccess(store: map<string, seq<Chunk>>, c: Chunk, t: string, i: nat, k: nat, fails: (nat, nat) -> bool)
    requires k < MaxAttempts && !fails(i, k) && forall a :: 0 <= a < k ==> fails(i, a)
    ensures Get(WriteItem(store, Item(Some(c), t), i, fails), t) == Get(store, t) + [PrepareTimes(c, k + 1)]
  {
    FirstSuccessIs(fails, i, k);
  }

  /** The attempt that succeeds first is the only one FirstSuccess can name. */
  lemma FirstSuccessIs(fails: (nat, nat) -> bool, i: nat, k: nat)
    requires k < MaxAttempts && !fails(i, k) && forall a :: 0 <= a < k ==> fails(i, a)
    ensures FirstSuccess(fails, i, 0) == Some(k)
  {
  }

  // ---------------------------------------------------------------------------
  // The writer

  class ChunkWriter {
    /** `self.db_name`; the database file is `<db_name>.db`. */
    const dbName: string
    /** The items still to be read from the queue, in order. */
    var queue: seq<Item>
    /** The database: table name to the chunks appended to it. */
    var store: map<string, seq<Chunk>>

    constructor (name: string, items: seq<Item>, database: map<string, seq<Chunk>>)
      ensures dbName == name && queue == items && store == database
    {
      dbName := name;
      queue := items;
      store := database;
    }

    /**
     * The inner loop of `write_to_db` for the chunk of item `i`: up to five attempts,
     * each re-running `_prepare_chunk_for_db` on the chunk, stopping at the first
     * `to_sql` that succeeds.
     */
    method WriteWithRetry(chunk0: Chunk, table: string, i: nat, fails: (nat, nat) -> bool)
      modifies this
      ensures store == WriteItem(old(store), Item(Some(chunk0), table), i, fails)
      ensures queue == old(queue)
    {
      var chunk := chunk0;
      var retryCount := MaxAttempts;
      while retryCount > 0
        invariant 0 <= retryCount <= MaxAttempts
        invariant chunk == PrepareTimes(chunk0, MaxAttempts - retryCount)
        invariant forall a :: 0 <= a < MaxAttempts - retryCount ==> fails(i, a)
        invariant store == old(store) && queue == old(queue)
      {
        var attempt := MaxAttempts - retryCount;
        chunk := PrepareChunk(chunk);
        if !fails(i, attempt) {
          FirstSuccessIs(fails, i, attempt);
          store := Append(store, table, chunk);
          return;
        }
        retryCount := retryCount - 1;
      }
    }

    /**
     * `write_to_db`: reads items in order and writes each chunk until the sentinel,
     * which ends the call with `finished`. Nothing after the sentinel is read. The
     * blocking `queue.get()` on an empty queue is modelled by returning with
     * `finished` false.
     */
    method WriteToDb(fails: (nat, nat) -> bool) returns (finished: bool)
      modifies this
      ensures finished <==> SentinelIndex(old(queue)) < |old(queue)|
      ensures queue == if finished then old(queue)[SentinelIndex(old(queue)) + 1..] else []
      ensures store == Drain(old(store), old(queue)[..SentinelIndex(old(queue))], fails)
    {
      ghost var q0 := queue;
      var i := 0;
      finished := false;
      while queue != []
        invariant 0 <= i <= SentinelIndex(q0)
        invariant queue == q0[i..]
        invariant store == Drain(old(store), q0[..i], fails)
        invariant !finished
        decreases |queue|
      {
        var item := queue[0];
        queue := queue[1..];
        if item.chunk.None? {
          finished := true;
          return;
        }
        WriteWithRetry(item.chunk.value, item.table, i, fails);
        DrainPrefix(old(store), q0, fails, i);
        i := i + 1;
      }
    }
  }
}
