/** The load stage: cleaned records are inserted into `price_changes` one
    at a time, and the batch is committed when at least one insert went in
    and rolled back otherwise. */
module Load {
  import opened Common

  /** A row of `price_changes`, its columns in the order the insert
      statement lists them: `(price, product_id, timestamp)`. */
  datatype PriceRow = PriceRow(price: real, productId: int, timestamp: Timestamp)

  /** A database connection with one open transaction. Which insert
      statements the database rejects is not decided by this model:
      `failing` holds their positions, counted over the connection's life.
      As in PostgreSQL, a rejected statement aborts the transaction: every
      later statement fails too, and a commit then ends it as a rollback. */
  class Connection {
    var committed: seq<PriceRow>   // rows of price_changes that are durable
    var pending: seq<PriceRow>     // rows inserted in the open transaction
    var aborted: bool              // a statement of the open transaction failed
    var savepoint: nat             // length of `pending` at the last SAVEPOINT
    var attempts: nat              // insert statements executed so far
    var commits: nat
    var rollbacks: nat
    const failing: set<nat>
    const productIds: seq<int>     // the product_id column of the product table, row by row

    constructor (failing: set<nat>, productIds: seq<int>)
      ensures this.failing == failing && this.productIds == productIds
      ensures committed == [] && pending == [] && !aborted && savepoint == 0
      ensures attempts == 0 && commits == 0 && rollbacks == 0
    {
      this.failing := failing;
      this.productIds := productIds;
      committed := [];
      pending := [];
      aborted := false;
      savepoint := 0;
      attempts := 0;
      commits := 0;
      rollbacks := 0;
    }

    /** `cursor.execute` of one insert: it either adds the row to the open
        transaction or raises, and raising leaves the transaction aborted. */
    method ExecuteInsert(row: PriceRow) returns (ok: bool)
      modifies this
      ensures ok <==> !old(aborted) && old(attempts) !in failing
      ensures aborted <==> !ok
      ensures attempts == old(attempts) + 1
      ensures pending == old(pending) + (if ok then [row] else [])
      ensures committed == old(committed) && savepoint == old(savepoint)
      ensures commits == old(commits) && rollbacks == old(rollbacks)
    {
      ok := !aborted && attempts !in failing;
      if ok {
        pending := pending + [row];
      }
      aborted := !ok;
      attempts := attempts + 1;
    }

    /** `conn.commit()`. On an aborted transaction PostgreSQL answers the
        COMMIT with a rollback and psycopg2 raises nothing. */
    method Commit()
      modifies this
      ensures committed == old(committed) + (if old(aborted) then [] else old(pending))
      ensures pending == [] && !aborted && savepoint == old(savepoint)
      ensures commits == old(commits) + 1
      ensures attempts == old(attempts) && rollbacks == old(rollbacks)
    {
      if !aborted {
        committed := committed + pending;
      }
      pending := [];
      aborted := false;
      commits := commits + 1;
    }

    method Rollback()
      modifies this
      ensures pending == [] && !aborted && committed == old(committed) && savepoint == old(savepoint)
      ensures rollbacks == old(rollbacks) + 1
      ensures attempts == old(attempts) && commits == old(commits)
    {
      pending := [];
      aborted := false;
      rollbacks := rollbacks + 1;
    }

    /** `SAVEPOINT`: remembers the rows inserted so far. It fails, changing
        nothing, on an aborted transaction. */
    method Savepoint() returns (ok: bool)
      modifies this
      ensures ok <==> !old(aborted)
      ensures savepoint == if ok then |old(pending)| else old(savepoint)
      ensures pending == old(pending) && aborted == old(aborted) && committed == old(committed)
      ensures attempts == old(attempts) && commits == old(commits) && rollbacks == old(rollbacks)
    {
      ok := !aborted;
      if ok {
        savepoint := |pending|;
      }
    }

    /** `ROLLBACK TO SAVEPOINT`: undoes the rows inserted since the
        savepoint and lifts the abort, keeping the transaction open. */
    method RollbackToSavepoint()
      modifies this
      ensures pending == old(pending)[..if old(savepoint) <= |old(pending)| then old(savepoint) else |old(pending)|]
      ensures !aborted && savepoint == old(savepoint) && committed == old(committed)
      ensures attempts == old(attempts) && commits == old(commits) && rollbacks == old(rollbacks)
    {
      pending := pending[..if savepoint <= |pending| then savepoint else |pending|];
      aborted := false;
    }
  }

  /** `insert_price_change`: one insert with the parameters in column
      order; `ok` is false when the statement raised. */
  method InsertPriceChange(conn: Connection, productId: int, price: real, timestamp: Timestamp) returns (ok: bool)
    modifies conn
    ensures ok <==> !old(conn.aborted) && old(conn.attempts) !in conn.failing
    ensures conn.aborted <==> !ok
    ensures conn.attempts == old(conn.attempts) + 1
    ensures conn.pending == old(conn.pending) + (if ok then [PriceRow(price, productId, timestamp)] else [])
    ensures conn.committed == old(conn.committed) && conn.savepoint == old(conn.savepoint)
    ensures conn.commits == old(conn.commits) && conn.rollbacks == old(conn.rollbacks)
  {
    ok := conn.ExecuteInsert(PriceRow(price, productId, timestamp));
  }

  /** `SELECT * FROM product WHERE product_id = id` followed by `fetchone()`:
      the position of the first row with that id, or None when no row has it. */
  function FetchFirst(productIds: seq<int>, productId: int): (r: Option<nat>)
    ensures r.Some? ==> r.value < |productIds| && productIds[r.value] == productId
    ensures r.Some? ==> forall k :: 0 <= k < r.value ==> productIds[k] != productId
    ensures r.None? ==> forall k :: 0 <= k < |productIds| ==> productIds[k] != productId
  {
    if |productIds| == 0 then None
    else if productIds[0] == productId then Some(0)
    else match FetchFirst(productIds[1..], productId)
      case None => None
      case Some(j) => Some(j + 1)
  }

  /** `product_id_exists`: true when the query fetches a row. The select
      raises, and nothing catches it, on an aborted transaction. */
  method ProductIdExists(conn: Connection, productId: int) returns (r: Outcome<bool>)
    ensures r.Raised? <==> conn.aborted
    ensures r.Raised? ==> r.error == DatabaseError
    ensures r.Returned? ==> (r.value <==> exists j :: 0 <= j < |conn.productIds| && conn.productIds[j] == productId)
  {
    if conn.aborted {
      return Raised(DatabaseError);
    }
    var row := FetchFirst(conn.productIds, productId);
    r := Returned(row.Some?);
  }

  /** A record handed to the loader; `None` is a key that is absent. */
  datatype LoadRecord = LoadRecord(productId: Option<int>, price: Option<real>, timestamp: Option<Timestamp>)

  /** The row of a record that has all three keys. */
  function RowOf(r: LoadRecord): (row: Option<PriceRow>)
    ensures row.Some? <==> r.productId.Some? && r.price.Some? && r.timestamp.Some?
    ensures row.Some? ==> row.value == PriceRow(r.price.value, r.productId.value, r.timestamp.value)
  {
    if r.productId.Some? && r.price.Some? && r.timestamp.Some? then
      Some(PriceRow(r.price.value, r.productId.value, r.timestamp.value))
    else None
  }

  /** The inserts the loop attempts: one per well-formed record, in order. */
  function Attempted(records: seq<LoadRecord>): (rows: seq<PriceRow>)
    ensures |rows| <= |records|
  {
    FilterMap(records, RowOf)
  }

  /** The rows of `rows`, the first being attempt number `start`, that the
      database accepts statement by statement: every row whose own insert
      is not rejected, in order. */
  function Accepted(rows: seq<PriceRow>, failing: set<nat>, start: nat): (acc: seq<PriceRow>)
    decreases |rows|
    ensures |acc| <= |rows|
  {
    if |rows| == 0 then []
    else
      var n := |rows| - 1;
      Accepted(rows[..n], failing, start) + (if start + n in failing then [] else [rows[n]])
  }

  /** How many of `n` attempts, the first being attempt number `start`, go
      in before the first one the database rejects: that one aborts the
      transaction, and every attempt after it fails as well. */
  function Passed(n: nat, failing: set<nat>, start: nat): (p: nat)
    decreases n
    ensures p <= n
    ensures forall k :: start <= k < start + p ==> k !in failing
    ensures p < n ==> start + p in failing
  {
    if n == 0 then 0
    else
      var q := Passed(n - 1, failing, start);
      if q == n - 1 && start + q !in failing then n else q
  }

  /** The rows that go into a transaction that is not aborted to begin
      with: the ones attempted before the first rejected insert. */
  function Inserted(rows: seq<PriceRow>, failing: set<nat>, start: nat): (ins: seq<PriceRow>)
    ensures ins <= rows
    ensures forall k :: start <= k < start + |ins| ==> k !in failing
    ensures |ins| < |rows| ==> start + |ins| in failing
  {
    rows[..Passed(|rows|, failing, start)]
  }

  /** What `load_price_changes` adds to the committed rows, given the rows
      of the open transaction and whether it is aborted: the commit keeps
      them and the batch only when the transaction was healthy and no
      insert of the batch was rejected. */
  function LoadCommitted(rows: seq<PriceRow>, failing: set<nat>, start: nat,
                         pending: seq<PriceRow>, aborted: bool): (c: seq<PriceRow>)
    ensures c == if !aborted && |rows| > 0 && (forall k :: start <= k < start + |rows| ==> k !in failing)
                 then pending + rows else []
  {
    var ins := if aborted then [] else Inserted(rows, failing, start);
    if |ins| > 0 && ins == rows then pending + rows else []
  }

  /** `LoadCommitted` in terms of how many attempts went in. */
  lemma LoadCommittedByPassed(rows: seq<PriceRow>, failing: set<nat>, start: nat,
                              pending: seq<PriceRow>, aborted: bool)
    ensures var p := Passed(|rows|, failing, start);
      && Inserted(rows, failing, start) == rows[..p]
      && LoadCommitted(rows, failing, start, pending, aborted)
         == if !aborted && 0 < p == |rows| then pending + rows else []
  {
    var p := Passed(|rows|, failing, start);
    assert p == |rows| ==> rows[..p] == rows;
  }

  /** One more attempt: it goes in exactly when every earlier one did and
      its own statement is not rejected. */
  lemma PassedSnoc(rows: seq<PriceRow>, r: PriceRow, failing: set<nat>, start: nat)
    ensures var p := Passed(|rows|, failing, start);
      var goesIn := p == |rows| && start + |rows| !in failing;
      && Passed(|rows| + 1, failing, start) == (if goesIn then |rows| + 1 else p)
      && (rows + [r])[..Passed(|rows| + 1, failing, start)] == if goesIn then rows[..p] + [r] else rows[..p]
  {
    var p := Passed(|rows|, failing, start);
    assert (rows + [r])[..p] == rows[..p];
    assert (rows + [r])[..|rows| + 1] == rows[..|rows|] + [r];
  }

  /** The part of a connection the inserts of one batch change: whether
      its transaction is aborted and the rows it holds. */
  datatype Tx = Tx(aborted: bool, pending: seq<PriceRow>)

  /** One insert, rejected or not, as `Connection.ExecuteInsert` performs
      it. */
  function AfterInsert(tx: Tx, r: PriceRow, rejected: bool): (t: Tx)
    ensures t.aborted <==> tx.aborted || rejected
  {
    if tx.aborted || rejected then Tx(true, tx.pending) else Tx(false, tx.pending + [r])
  }

  /** The inserts of `rows` one after the other, the first being attempt
      number `start`. */
  function AfterInserts(tx: Tx, rows: seq<PriceRow>, failing: set<nat>, start: nat): (t: Tx)
    decreases |rows|
  {
    if |rows| == 0 then tx
    else
      var n := |rows| - 1;
      AfterInsert(AfterInserts(tx, rows[..n], failing, start), rows[n], start + n in failing)
  }

  /** A run of inserts aborts the transaction exactly when one of them is
      rejected, and adds the rows attempted before the first rejection. */
  lemma {:induction false} AfterInsertsPassed(tx: Tx, rows: seq<PriceRow>, failing: set<nat>, start: nat)
    decreases |rows|
    ensures var p := Passed(|rows|, failing, start);
      AfterInserts(tx, rows, failing, start)
      == Tx(tx.aborted || p < |rows|, tx.pending + (if tx.aborted then [] else rows[..p]))
  {
    if |rows| > 0 {
      var n := |rows| - 1;
      AfterInsertsPassed(tx, rows[..n], failing, start);
      PassedSnoc(rows[..n], rows[n], failing, start);
      assert rows[..n] + [rows[n]] == rows;
    }
  }

  /** The inserts of `rows` and then of `r`. */
  lemma AfterInsertsSnoc(tx: Tx, rows: seq<PriceRow>, r: PriceRow, failing: set<nat>, start: nat)
    ensures AfterInserts(tx, rows + [r], failing, start)
         == AfterInsert(AfterInserts(tx, rows, failing, start), r, start + |rows| in failing)
  {
    assert (rows + [r])[..|rows|] == rows;
  }

  /** How the batch ends, read off the transaction its inserts leave: some
      row went in exactly when the inserted rows are not empty, and the
      commit then keeps what `LoadCommitted` says. */
  lemma LoadOutcome(tx: Tx, rows: seq<PriceRow>, failing: set<nat>, start: nat)
    ensures var t, ins := AfterInserts(tx, rows, failing, start),
                          if tx.aborted then [] else Inserted(rows, failing, start);
      && (|t.pending| > |tx.pending|) == (|ins| > 0)
      && (|ins| > 0 ==> (if t.aborted then [] else t.pending)
                        == LoadCommitted(rows, failing, start, tx.pending, tx.aborted))
      && (|ins| == 0 ==> LoadCommitted(rows, failing, start, tx.pending, tx.aborted) == [])
  {
    AfterInsertsPassed(tx, rows, failing, start);
    LoadCommittedByPassed(rows, failing, start, tx.pending, tx.aborted);
  }

  /** `load_price_changes`. Every well-formed record is attempted and a
      failed insert is absorbed. But the first rejected insert aborts the
      transaction: the later inserts fail as well, and the commit that the
      counted inserts lead to keeps nothing (`LoadCommitted`). */
  method LoadPriceChanges(records: seq<LoadRecord>, conn: Connection)
    modifies conn
    ensures conn.attempts == old(conn.attempts) + |Attempted(records)|
    ensures var ins := if old(conn.aborted) then [] else Inserted(Attempted(records), conn.failing, old(conn.attempts));
      if |ins| > 0 then conn.commits == old(conn.commits) + 1 && conn.rollbacks == old(conn.rollbacks)
      else conn.rollbacks == old(conn.rollbacks) + 1 && conn.commits == old(conn.commits)
    ensures conn.committed == old(conn.committed)
      + LoadCommitted(Attempted(records), conn.failing, old(conn.attempts), old(conn.pending), old(conn.aborted))
    ensures conn.pending == [] && !conn.aborted && conn.savepoint == old(conn.savepoint)
  {
    ghost var start, failing, tx0 := conn.attempts, conn.failing, Tx(conn.aborted, conn.pending);
    var inserted := 0;
    ghost var rows: seq<PriceRow> := [];
    var i := 0;
    while i < |records|
      invariant 0 <= i <= |records|
      invariant rows == Attempted(records[..i])
      invariant conn.attempts == start + |rows|
      invariant Tx(conn.aborted, conn.pending) == AfterInserts(tx0, rows, failing, start)
      invariant inserted + |tx0.pending| == |conn.pending|
      invariant conn.committed == old(conn.committed) && conn.savepoint == old(conn.savepoint)
      invariant conn.commits == old(conn.commits) && conn.rollbacks == old(conn.rollbacks)
    {
      FilterMapSnoc(records, i, RowOf);
      var product := records[i];
      if product.productId.Some? && product.price.Some? && product.timestamp.Some? {
        var ok := InsertPriceChange(conn, product.productId.value, product.price.value, product.timestamp.value);
        AfterInsertsSnoc(tx0, rows, RowOf(product).value, failing, start);
        rows := rows + [RowOf(product).value];
        if ok {
          inserted := inserted + 1;
        }
      }
      i := i + 1;
    }
    assert records[..i] == records;
    LoadOutcome(tx0, rows, failing, start);
    if inserted > 0 {
      conn.Commit();
    } else {
      conn.Rollback();
    }
  }

  /** The evidently intended `load_price_changes`: each insert runs under a
      savepoint and a rejected one is rolled back to it, so one bad row no
      longer aborts the batch, and the commit keeps every accepted row. */
  method LoadPriceChangesSavepoint(records: seq<LoadRecord>, conn: Connection)
    requires !conn.aborted
    modifies conn
    ensures conn.attempts == old(conn.attempts) + |Attempted(records)|
    ensures var acc := Accepted(Attempted(records), conn.failing, old(conn.attempts));
      if |acc| > 0 then
        && conn.commits == old(conn.commits) + 1 && conn.rollbacks == old(conn.rollbacks)
        && conn.committed == old(conn.committed) + old(conn.pending) + acc
      else
        && conn.rollbacks == old(conn.rollbacks) + 1 && conn.commits == old(conn.commits)
        && conn.committed == old(conn.committed)
    ensures conn.pending == [] && !conn.aborted
  {
    var inserted := 0;
    ghost var rows: seq<PriceRow> := [];
    var i := 0;
    while i < |records|
      invariant 0 <= i <= |records|
      invariant rows == Attempted(records[..i])
      invariant conn.attempts == old(conn.attempts) + |rows|
      invariant !conn.aborted
      invariant conn.pending == old(conn.pending) + Accepted(rows, conn.failing, old(conn.attempts))
      invariant inserted == |Accepted(rows, conn.failing, old(conn.attempts))|
      invariant conn.committed == old(conn.committed)
      invariant conn.commits == old(conn.commits) && conn.rollbacks == old(conn.rollbacks)
    {
      FilterMapSnoc(records, i, RowOf);
      var product := records[i];
      if product.productId.Some? && product.price.Some? && product.timestamp.Some? {
        var marked := conn.Savepoint();
        var ok := InsertPriceChange(conn, product.productId.value, product.price.value, product.timestamp.value);
        if ok {
          inserted := inserted + 1;
        } else {
          conn.RollbackToSavepoint();
        }
        assert (rows + [RowOf(product).value])[..|rows|] == rows;
        rows := rows + [RowOf(product).value];
      }
      i := i + 1;
    }
    assert records[..i] == records;
    if inserted > 0 {
      conn.Commit();
    } else {
      conn.Rollback();
    }
  }

  /** When no attempt fails, every attempted row is accepted. */
  lemma {:induction false} AcceptedNoFailures(rows: seq<PriceRow>, failing: set<nat>, start: nat)
    requires forall k :: start <= k < start + |rows| ==> k !in failing
    decreases |rows|
    ensures Accepted(rows, failing, start) == rows
  {
    if |rows| > 0 {
      var n := |rows| - 1;
      AcceptedNoFailures(rows[..n], failing, start);
      assert rows[..n] + [rows[n]] == rows;
    }
  }

  /** When every attempt fails, nothing is accepted. */
  lemma {:induction false} AcceptedAllFail(rows: seq<PriceRow>, failing: set<nat>, start: nat)
    requires forall k :: start <= k < start + |rows| ==> k in failing
    decreases |rows|
    ensures Accepted(rows, failing, start) == []
  {
    if |rows| > 0 {
      AcceptedAllFail(rows[..|rows| - 1], failing, start);
    }
  }

  /** What is accepted is a run of the attempted rows with the rejected ones
      removed: batches split anywhere add up. */
  lemma {:induction false} AcceptedAppend(a: seq<PriceRow>, b: seq<PriceRow>, failing: set<nat>, start: nat)
    decreases |b|
    ensures Accepted(a + b, failing, start) == Accepted(a, failing, start) + Accepted(b, failing, start + |a|)
  {
    if |b| == 0 {
      assert a + b == a;
    } else {
      var b' := b[..|b| - 1];
      assert (a + b)[..|a + b| - 1] == a + b';
      assert (a + b)[|a + b| - 1] == b[|b| - 1];
      AcceptedAppend(a, b', failing, start);
    }
  }

  /** What goes in as the code is written is an initial run of what the
      database would accept row by row: the accepted rows up to the first
      rejection. */
  lemma InsertedPrefixOfAccepted(rows: seq<PriceRow>, failing: set<nat>, start: nat)
    ensures Inserted(rows, failing, start) <= Accepted(rows, failing, start)
  {
    var p := Passed(|rows|, failing, start);
    var head, tail := rows[..p], rows[p..];
    assert head + tail == rows;
    AcceptedNoFailures(head, failing, start);
    AcceptedAppend(head, tail, failing, start);
    assert Inserted(rows, failing, start) == head;
  }

  /** Two well-formed records whose second insert is rejected: the first is
      counted, so the code commits and logs one row committed, yet the
      commit ends an aborted transaction and nothing is kept. With a
      savepoint per insert the first row is kept. */
  lemma LostBatchExample(r0: PriceRow, r1: PriceRow)
    ensures |Inserted([r0, r1], {1}, 0)| == 1
    ensures LoadCommitted([r0, r1], {1}, 0, [], false) == []
    ensures Accepted([r0, r1], {1}, 0) == [r0]
  {
    assert Passed(1, {1}, 0) == 1;
    assert Passed(2, {1}, 0) == 1;
    assert [r0, r1][..1] == [r0];
    assert [r0][..0] == [];
  }

  /** Exactly the well-formed records are attempted, in order. */
  lemma AttemptedOrigins(records: seq<LoadRecord>) returns (src: seq<nat>)
    ensures |src| == |Attempted(records)|
    ensures forall j :: 0 <= j < |src| ==> src[j] < |records| && RowOf(records[src[j]]) == Some(Attempted(records)[j])
    ensures forall j, k :: 0 <= j < k < |src| ==> src[j] < src[k]
    ensures forall i :: 0 <= i < |records| && RowOf(records[i]).Some? ==> exists j :: 0 <= j < |src| && src[j] == i
  {
    src := FilterMapOrigins(records, RowOf);
  }

  /** An empty batch attempts nothing, so it is rolled back and nothing
      new is committed. */
  lemma EmptyBatchInsertsNothing(failing: set<nat>, start: nat, pending: seq<PriceRow>, aborted: bool)
    ensures Attempted([]) == [] && Inserted(Attempted([]), failing, start) == []
    ensures LoadCommitted(Attempted([]), failing, start, pending, aborted) == []
  {
  }

  /** The two-record batch of the unit tests: the record without a price is
      skipped, the other one is the only insert. */
  lemma LoadExample()
    ensures Attempted([
      LoadRecord(Some(8), None, Some("2024-12-04 16:31:40")),
      LoadRecord(Some(9), Some(7.69), Some("2024-12-04 16:31:40"))])
      == [PriceRow(7.69, 9, "2024-12-04 16:31:40")]
  {
    var r0 := LoadRecord(Some(8), None, Some("2024-12-04 16:31:40"));
    var r1 := LoadRecord(Some(9), Some(7.69), Some("2024-12-04 16:31:40"));
    assert [r0, r1][..1] == [r0];
    assert [r0][..0] == [];
  }
}
