/** Removal of unsubscribed products: the product ids nobody subscribes to
    any more are found by a set difference, and their price changes, their
    product rows and then every website no remaining product points at are
    deleted in one transaction. */
module RemoveSubscribers {
  import opened Common
  import opened Load

  /** A row of `product`: the columns the cleanup reads. */
  datatype ProductRow = ProductRow(productId: int, websiteId: int)

  /** The tables the cleanup touches. A subscription row and a website row
      are represented by the one column that matters here: the subscribed
      `product_id` and the `website_id`. */
  datatype Tables = Tables(subscriptions: seq<int>, products: seq<ProductRow>,
                           priceChanges: seq<PriceRow>, websites: seq<int>)

  datatype TableName = Subscription | Product | PriceChanges | Website

  /** The `product_id` column of a table; `website` has none, so a query on
      it by product id is an error. */
  function ProductIdColumn(t: Tables, table: TableName): (col: Option<seq<int>>)
    ensures col.None? <==> table == Website
    ensures table == Subscription ==> col == Some(t.subscriptions)
    ensures table == Product ==> (col.Some? && |col.value| == |t.products|
      && forall i :: 0 <= i < |t.products| ==> col.value[i] == t.products[i].productId)
    ensures table == PriceChanges ==> (col.Some? && |col.value| == |t.priceChanges|
      && forall i :: 0 <= i < |t.priceChanges| ==> col.value[i] == t.priceChanges[i].productId)
  {
    match table
    case Subscription => Some(t.subscriptions)
    case Product => Some(seq(|t.products|, i requires 0 <= i < |t.products| => t.products[i].productId))
    case PriceChanges => Some(seq(|t.priceChanges|, i requires 0 <= i < |t.priceChanges| => t.priceChanges[i].productId))
    case Website => None
  }

  /** The values of a column with later repeats dropped: `SELECT DISTINCT`. */
  function Distinct(col: seq<int>): (r: seq<int>)
    decreases |col|
    ensures forall x :: x in r <==> x in col
    ensures forall i, j :: 0 <= i < j < |r| ==> r[i] != r[j]
  {
    if |col| == 0 then []
    else
      var n := |col| - 1;
      var init := Distinct(col[..n]);
      assert forall x :: x in col <==> x in col[..n] || x == col[n];
      if col[n] in init then init else init + [col[n]]
  }

  /** `{row[0] for row in rows}`: the set of the values, repeats collapsed. */
  function IdSet(col: seq<int>): (r: set<int>)
    decreases |col|
    ensures forall x :: x in r <==> x in col
    ensures |r| <= |col|
  {
    if |col| == 0 then {}
    else
      var n := |col| - 1;
      assert forall x :: x in col <==> x in col[..n] || x == col[n];
      IdSet(col[..n]) + {col[n]}
  }

  /** `DISTINCT` does not change the set the rows are collected into. */
  lemma IdSetDistinct(col: seq<int>)
    ensures IdSet(Distinct(col)) == IdSet(col)
  {
  }

  /** The website ids the product table points at:
      `SELECT DISTINCT website_id FROM product`. */
  function Referenced(products: seq<ProductRow>): (ids: set<int>)
    ensures forall w :: w in ids <==> exists i :: 0 <= i < |products| && products[i].websiteId == w
  {
    set i | 0 <= i < |products| :: products[i].websiteId
  }

  function ProductKept(ids: set<int>): ProductRow -> bool {
    (p: ProductRow) => p.productId !in ids
  }

  function PriceChangeKept(ids: set<int>): PriceRow -> bool {
    (c: PriceRow) => c.productId !in ids
  }

  function WebsiteUsed(used: set<int>): int -> bool {
    (w: int) => w in used
  }

  /** `DELETE FROM <table> WHERE product_id = ANY(ids)` on a table that has
      the column. */
  function DeleteRows(t: Tables, table: TableName, ids: set<int>): (r: Tables)
    requires table != Website
  {
    match table
    case Subscription => t.(subscriptions := Filter(t.subscriptions, (x: int) => x !in ids))
    case Product => t.(products := Filter(t.products, ProductKept(ids)))
    case PriceChanges => t.(priceChanges := Filter(t.priceChanges, PriceChangeKept(ids)))
  }

  /** A delete changes only the table it names, and that table only loses
      rows: none of the ids is left in it, and every other row stays. */
  lemma DeleteRowsMeaning(t: Tables, table: TableName, ids: set<int>)
    requires table != Website
    ensures var r := DeleteRows(t, table, ids);
      && r.websites == t.websites
      && (table != Subscription ==> r.subscriptions == t.subscriptions)
      && (table != Product ==> r.products == t.products)
      && (table != PriceChanges ==> r.priceChanges == t.priceChanges)
      && (table == Product ==>
            && (forall i :: 0 <= i < |r.products| ==> r.products[i].productId !in ids)
            && (forall i :: 0 <= i < |t.products| && t.products[i].productId !in ids ==> t.products[i] in r.products))
      && (table == PriceChanges ==>
            && (forall i :: 0 <= i < |r.priceChanges| ==> r.priceChanges[i].productId !in ids)
            && (forall i :: 0 <= i < |t.priceChanges| && t.priceChanges[i].productId !in ids ==> t.priceChanges[i] in r.priceChanges))
  {
  }

  /** `clean_websites`: the websites no product row references are deleted. */
  function CleanedWebsites(t: Tables): (r: Tables)
    ensures r.subscriptions == t.subscriptions && r.products == t.products && r.priceChanges == t.priceChanges
    ensures forall i :: 0 <= i < |r.websites| ==> r.websites[i] in Referenced(t.products)
    ensures forall i :: 0 <= i < |t.websites| && t.websites[i] in Referenced(t.products) ==> t.websites[i] in r.websites
  {
    t.(websites := Filter(t.websites, WebsiteUsed(Referenced(t.products))))
  }

  /** The three statements of `delete_unsubscribed_data`, in order;
      `DeletedMeaning` states what they leave. */
  function Deleted(t: Tables, ids: set<int>): (r: Tables)
    ensures r.subscriptions == t.subscriptions
  {
    CleanedWebsites(DeleteRows(DeleteRows(t, PriceChanges, ids), Product, ids))
  }

  /** `Deleted` table by table. */
  lemma DeletedTables(t: Tables, ids: set<int>)
    ensures Deleted(t, ids).products == Filter(t.products, ProductKept(ids))
    ensures Deleted(t, ids).priceChanges == Filter(t.priceChanges, PriceChangeKept(ids))
    ensures Deleted(t, ids).websites == Filter(t.websites, WebsiteUsed(Referenced(Deleted(t, ids).products)))
  {
    var t1 := DeleteRows(t, PriceChanges, ids);
    var t2 := DeleteRows(t1, Product, ids);
    assert t1.products == t.products;
    assert t2.priceChanges == t1.priceChanges;
    assert Deleted(t, ids) == CleanedWebsites(t2);
  }

  /** What the cleanup leaves: no price change and no product of the
      deleted ids, every other one, nothing new, and exactly the websites
      that a surviving product still references. */
  lemma DeletedMeaning(t: Tables, ids: set<int>)
    ensures forall i :: 0 <= i < |Deleted(t, ids).products| ==> Deleted(t, ids).products[i].productId !in ids
    ensures forall i :: 0 <= i < |Deleted(t, ids).priceChanges| ==> Deleted(t, ids).priceChanges[i].productId !in ids
    ensures forall i :: 0 <= i < |t.products| && t.products[i].productId !in ids ==> t.products[i] in Deleted(t, ids).products
    ensures forall i :: 0 <= i < |t.priceChanges| && t.priceChanges[i].productId !in ids ==> t.priceChanges[i] in Deleted(t, ids).priceChanges
    ensures multiset(Deleted(t, ids).products) <= multiset(t.products) && multiset(Deleted(t, ids).priceChanges) <= multiset(t.priceChanges)
    ensures multiset(Deleted(t, ids).websites) <= multiset(t.websites)
    ensures forall i :: 0 <= i < |Deleted(t, ids).websites| ==> Deleted(t, ids).websites[i] in Referenced(Deleted(t, ids).products)
    ensures forall i :: 0 <= i < |t.websites| && t.websites[i] in Referenced(Deleted(t, ids).products) ==> t.websites[i] in Deleted(t, ids).websites
  {
    DeletedTables(t, ids);
  }

  /** What a connection holds at one moment: the tables as committed and
      as the open transaction sees them, the statement and transaction
      counters, and whether the transaction is aborted. */
  datatype DbState = DbState(committed: Tables, working: Tables, executed: nat,
                             commits: nat, rollbacks: nat, aborted: bool)

  /** A database connection with one open transaction. `working` is what
      the transaction sees, `committed` what is durable. Which statements
      the database rejects is not decided by this model: `failing` holds
      their positions, counted over the connection's life. As in
      PostgreSQL, a rejected statement aborts the transaction: every later
      statement is rejected too until a rollback, and a commit of an
      aborted transaction keeps nothing of it. */
  class Database {
    var committed: Tables
    var working: Tables
    var executed: nat   // statements executed so far
    var commits: nat
    var rollbacks: nat
    var aborted: bool
    const failing: set<nat>

    constructor (tables: Tables, failing: set<nat>)
      ensures committed == tables && working == tables && this.failing == failing
      ensures executed == 0 && commits == 0 && rollbacks == 0 && !aborted
    {
      committed := tables;
      working := tables;
      executed := 0;
      commits := 0;
      rollbacks := 0;
      aborted := false;
      this.failing := failing;
    }

    function State(): DbState
      reads this
    {
      DbState(committed, working, executed, commits, rollbacks, aborted)
    }

    /** `SELECT [DISTINCT] product_id FROM <table>` and `fetchall`; None
        when the statement raised. */
    method SelectProductIds(table: TableName, distinct: bool) returns (rows: Option<seq<int>>)
      modifies this
      ensures rows.None? <==> old(aborted) || old(executed) in failing || table == Website
      ensures rows.Some? ==> rows.value == if distinct then Distinct(ProductIdColumn(working, table).value)
                                            else ProductIdColumn(working, table).value
      ensures aborted == rows.None?
      ensures executed == old(executed) + 1
      ensures working == old(working) && committed == old(committed)
      ensures commits == old(commits) && rollbacks == old(rollbacks)
    {
      var col := ProductIdColumn(working, table);
      if aborted || executed in failing || col.None? {
        rows := None;
      } else if distinct {
        rows := Some(Distinct(col.value));
      } else {
        rows := col;
      }
      aborted := rows.None?;
      executed := executed + 1;
    }

    /** `delete_from_table`: false when the statement raised. */
    method DeleteFromTable(table: TableName, ids: set<int>) returns (ok: bool)
      modifies this
      ensures ok <==> !old(aborted) && old(executed) !in failing && table != Website
      ensures working == if ok then DeleteRows(old(working), table, ids) else old(working)
      ensures aborted == !ok
      ensures executed == old(executed) + 1
      ensures committed == old(committed) && commits == old(commits) && rollbacks == old(rollbacks)
    {
      ok := !aborted && executed !in failing && table != Website;
      if ok {
        working := DeleteRows(working, table, ids);
      }
      aborted := !ok;
      executed := executed + 1;
    }

    /** `clean_websites`: false when the statement raised. */
    method CleanWebsites() returns (ok: bool)
      modifies this
      ensures ok <==> !old(aborted) && old(executed) !in failing
      ensures working == if ok then CleanedWebsites(old(working)) else old(working)
      ensures aborted == !ok
      ensures executed == old(executed) + 1
      ensures committed == old(committed) && commits == old(commits) && rollbacks == old(rollbacks)
    {
      ok := !aborted && executed !in failing;
      if ok {
        working := CleanedWebsites(working);
      }
      aborted := !ok;
      executed := executed + 1;
    }

    /** `commit`: the transaction becomes durable, unless it is aborted, in
        which case the server rolls it back instead; psycopg2 raises
        neither way. */
    method Commit()
      modifies this
      ensures committed == (if old(aborted) then old(committed) else old(working)) && working == committed
      ensures !aborted && commits == old(commits) + 1
      ensures executed == old(executed) && rollbacks == old(rollbacks)
    {
      if !aborted {
        committed := working;
      }
      working := committed;
      aborted := false;
      commits := commits + 1;
    }

    method Rollback()
      modifies this
      ensures working == old(committed) && committed == old(committed)
      ensures !aborted && rollbacks == old(rollbacks) + 1
      ensures executed == old(executed) && commits == old(commits)
    {
      working := committed;
      aborted := false;
      rollbacks := rollbacks + 1;
    }
  }

  /** The set `get_product_ids_from_table` returns from what the table
      holds: empty when the query raised. */
  function ReadIds(t: Tables, table: TableName, fails: bool): (ids: set<int>)
    ensures fails || table == Website ==> ids == {}
    ensures !fails && table != Website ==>
      forall x :: x in ids <==> x in ProductIdColumn(t, table).value
  {
    if fails || table == Website then {} else IdSet(ProductIdColumn(t, table).value)
  }

  /** `get_product_ids_from_table`. Any error gives the empty set and, the
      error being caught without a rollback, leaves the transaction
      aborted; with or without `DISTINCT` the set is the same. */
  method GetProductIdsFromTable(db: Database, table: TableName, distinct: bool) returns (ids: set<int>)
    modifies db
    ensures ids == ReadIds(old(db.working), table, old(db.aborted) || old(db.executed) in db.failing)
    ensures db.aborted <==> old(db.aborted) || old(db.executed) in db.failing || table == Website
    ensures db.executed == old(db.executed) + 1
    ensures db.working == old(db.working) && db.committed == old(db.committed)
    ensures db.commits == old(db.commits) && db.rollbacks == old(db.rollbacks)
  {
    var rows := db.SelectProductIds(table, distinct);
    if rows.None? {
      return {};
    }
    ids := IdSet(rows.value);
    if distinct {
      IdSetDistinct(ProductIdColumn(old(db.working), table).value);
    }
  }

  /** Whether the three statements starting at position `start` all go through. */
  predicate DeletesSucceed(failing: set<nat>, start: nat) {
    start !in failing && start + 1 !in failing && start + 2 !in failing
  }

  /** How many statements run before the first one that raises, of three. */
  function StatementsRun(failing: set<nat>, start: nat): (n: nat)
    ensures 1 <= n <= 3
    ensures n == 3 <== DeletesSucceed(failing, start)
  {
    if start in failing then 1 else if start + 1 in failing then 2 else 3
  }

  /** `delete_unsubscribed_data`. When all three deletes go through, the
      transaction with them is committed once; when any raises, which on
      an aborted transaction the first one does, the transaction is
      rolled back and nothing is committed. */
  method DeleteUnsubscribedData(db: Database, ids: set<int>)
    modifies db
    ensures db.executed == old(db.executed) + if old(db.aborted) then 1 else StatementsRun(db.failing, old(db.executed))
    ensures !db.aborted
    ensures !old(db.aborted) && DeletesSucceed(db.failing, old(db.executed)) ==>
      && db.committed == Deleted(old(db.working), ids) && db.working == db.committed
      && db.commits == old(db.commits) + 1 && db.rollbacks == old(db.rollbacks)
    ensures !(!old(db.aborted) && DeletesSucceed(db.failing, old(db.executed))) ==>
      && db.committed == old(db.committed) && db.working == old(db.committed)
      && db.rollbacks == old(db.rollbacks) + 1 && db.commits == old(db.commits)
  {
    var ok := db.DeleteFromTable(PriceChanges, ids);
    if ok {
      ok := db.DeleteFromTable(Product, ids);
      if ok {
        ok := db.CleanWebsites();
      }
    }
    if ok {
      db.Commit();
    } else {
      db.Rollback();
    }
  }

  /** The ids `main_remove_subscriptions` deletes: every product id without
      an active subscription, with each read failure counted as an empty
      set. */
  function Unsubscribed(t: Tables, subscriptionsFail: bool, productsFail: bool): (ids: set<int>)
    ensures !subscriptionsFail && !productsFail ==>
      forall x :: x in ids <==>
        (exists i :: 0 <= i < |t.products| && t.products[i].productId == x) && x !in t.subscriptions
    ensures productsFail ==> ids == {}
  {
    ReadIds(t, Product, productsFail) - ReadIds(t, Subscription, subscriptionsFail)
  }

  /** The state one run of `main_remove_subscriptions` leaves, from the
      state it starts in. The two selects run first; a failed one leaves
      the transaction aborted, so the product select fails whenever the
      subscription select did. No delete is issued when nothing is
      unsubscribed; otherwise the deletes of `delete_unsubscribed_data`
      follow from the third statement on. Leaving the `with` block commits
      once more, which keeps nothing of an aborted transaction. */
  function Removal(st: DbState, failing: set<nat>): (r: DbState)
    ensures !r.aborted && r.working == r.committed
    ensures r.executed >= st.executed + 2 && r.commits > st.commits
  {
    RemovalOf(st, failing, RemovalIds(st, failing))
  }

  /** A run that has read `ids` as the unsubscribed products. */
  function RemovalOf(st: DbState, failing: set<nat>, ids: set<int>): (r: DbState)
    ensures !r.aborted && r.working == r.committed
    ensures r.executed >= st.executed + 2 && r.commits > st.commits
  {
    var s := st.executed;
    if ids == {} then
      var kept := if ProductsReadFails(st, failing) then st.committed else st.working;
      DbState(kept, kept, s + 2, st.commits + 1, st.rollbacks, false)
    else if DeletesSucceed(failing, s + 2) then
      var d := Deleted(st.working, ids);
      DbState(d, d, s + 5, st.commits + 2, st.rollbacks, false)
    else
      DbState(st.committed, st.committed, s + 2 + StatementsRun(failing, s + 2),
              st.commits + 1, st.rollbacks + 1, false)
  }

  /** Whether the subscription select, the first statement of a run, fails. */
  predicate SubscriptionsReadFails(st: DbState, failing: set<nat>) {
    st.aborted || st.executed in failing
  }

  /** Whether the product select, the second statement, fails: it does
      whenever the first one did, the transaction being aborted then. */
  predicate ProductsReadFails(st: DbState, failing: set<nat>) {
    SubscriptionsReadFails(st, failing) || st.executed + 1 in failing
  }

  /** The ids a run deletes. */
  function RemovalIds(st: DbState, failing: set<nat>): (ids: set<int>)
  {
    Unsubscribed(st.working, SubscriptionsReadFails(st, failing), ProductsReadFails(st, failing))
  }

  /** `main_remove_subscriptions` on an open connection, up to and
      including the commit on leaving the `with` block. */
  method MainRemoveSubscriptions(db: Database)
    modifies db
    ensures db.State() == Removal(old(db.State()), db.failing)
  {
    ghost var st := db.State();
    var active := GetProductIdsFromTable(db, Subscription, true);
    assert db.aborted == SubscriptionsReadFails(st, db.failing);
    var all := GetProductIdsFromTable(db, Product, false);
    assert db.aborted == ProductsReadFails(st, db.failing);
    var unsubscribed := all - active;
    assert unsubscribed == RemovalIds(st, db.failing);
    if unsubscribed != {} {
      DeleteUnsubscribedData(db, unsubscribed);
    }
    db.Commit();
    assert db.State() == RemovalOf(st, db.failing, unsubscribed);
  }

  /** What `lambda_handler` returns. */
  datatype Response = Response(statusCode: int, message: string)

  const Success := Response(200, "Successfully removed subscribers.")
  const Failure := Response(500, "Execution of subscription removal process was not successful.")

  /** `lambda_handler`. The only failure `main_remove_subscriptions` lets
      escape in this model is the connection that cannot be opened, given
      as `connected`; then the tables are not touched. */
  method LambdaHandler(db: Database, connected: bool) returns (response: Response)
    modifies db
    ensures response == if connected then Success else Failure
    ensures connected ==> db.State() == Removal(old(db.State()), db.failing)
    ensures !connected ==> db.State() == old(db.State())
  {
    if !connected {
      return Failure;
    }
    MainRemoveSubscriptions(db);
    response := Success;
  }

  /** The tables point where they should: every price change at a product,
      every product at a website. */
  ghost predicate Integrity(t: Tables) {
    && (forall i :: 0 <= i < |t.priceChanges| ==> HasProduct(t.products, t.priceChanges[i].productId))
    && (forall j :: 0 <= j < |t.products| ==> t.products[j].websiteId in t.websites)
  }

  /** Some product row has the id. */
  ghost predicate HasProduct(products: seq<ProductRow>, id: int) {
    exists j :: 0 <= j < |products| && products[j].productId == id
  }

  /** The cleanup keeps the tables pointing where they should: a price
      change that survives belongs to a product that survives, and a
      product that survives keeps its website. */
  lemma IntegrityPreserved(t: Tables, ids: set<int>)
    requires Integrity(t)
    ensures Integrity(Deleted(t, ids))
  {
    var r := Deleted(t, ids);
    forall i | 0 <= i < |r.priceChanges|
      ensures HasProduct(r.products, r.priceChanges[i].productId)
    {
      SurvivingPriceChange(t, ids, i);
    }
    forall j | 0 <= j < |r.products|
      ensures r.products[j].websiteId in r.websites
    {
      SurvivingProduct(t, ids, j);
    }
  }

  lemma SurvivingPriceChange(t: Tables, ids: set<int>, i: int)
    requires Integrity(t)
    requires 0 <= i < |Deleted(t, ids).priceChanges|
    ensures exists j :: (0 <= j < |Deleted(t, ids).products|
      && Deleted(t, ids).products[j].productId == Deleted(t, ids).priceChanges[i].productId)
  {
    DeletedTables(t, ids);
    KeptChangeKeepsProduct(t.products, t.priceChanges, ids, i);
  }

  /** A price change that is kept points at a product that is kept. */
  lemma KeptChangeKeepsProduct(products: seq<ProductRow>, changes: seq<PriceRow>, ids: set<int>, i: int)
    requires forall k :: 0 <= k < |changes| ==>
      exists j :: 0 <= j < |products| && products[j].productId == changes[k].productId
    requires 0 <= i < |Filter(changes, PriceChangeKept(ids))|
    ensures exists j :: (0 <= j < |Filter(products, ProductKept(ids))|
      && Filter(products, ProductKept(ids))[j].productId == Filter(changes, PriceChangeKept(ids))[i].productId)
  {
    var kept := Filter(products, ProductKept(ids));
    var c := Filter(changes, PriceChangeKept(ids))[i];
    assert PriceChangeKept(ids)(c);
    InSub(Filter(changes, PriceChangeKept(ids)), changes, i);
    var k :| 0 <= k < |changes| && changes[k] == c;
    var j :| 0 <= j < |products| && products[j].productId == c.productId;
    assert ProductKept(ids)(products[j]);
    var j' :| 0 <= j' < |kept| && kept[j'] == products[j];
  }

  lemma SurvivingProduct(t: Tables, ids: set<int>, j: int)
    requires Integrity(t)
    requires 0 <= j < |Deleted(t, ids).products|
    ensures Deleted(t, ids).products[j].websiteId in Deleted(t, ids).websites
  {
    DeletedTables(t, ids);
    var products := Filter(t.products, ProductKept(ids));
    var p := products[j];
    InSub(products, t.products, j);
    var k :| 0 <= k < |t.products| && t.products[k] == p;
    var w :| 0 <= w < |t.websites| && t.websites[w] == p.websiteId;
    assert WebsiteUsed(Referenced(products))(t.websites[w]);
  }

  /** Every product that survives the cleanup has an active subscription,
      and every product with one survives, when both reads succeed. */
  lemma SurvivorsAreSubscribed(t: Tables)
    ensures var r := Deleted(t, Unsubscribed(t, false, false));
      && (forall i :: 0 <= i < |r.products| ==> r.products[i].productId in t.subscriptions)
      && (forall i :: 0 <= i < |t.products| && t.products[i].productId in t.subscriptions ==> t.products[i] in r.products)
  {
    var ids := Unsubscribed(t, false, false);
    var r := Deleted(t, ids);
    forall i | 0 <= i < |r.products|
      ensures r.products[i].productId in t.subscriptions
    {
      InSub(r.products, t.products, i);
      var k :| 0 <= k < |t.products| && t.products[k] == r.products[i];
    }
  }

  /** When the subscription read fails, the transaction is aborted, so the
      product read fails as well and yields no ids: nothing is deleted,
      and the commit on leaving keeps the committed tables as they were. */
  lemma FailedSubscriptionReadDeletesNothing(st: DbState, failing: set<nat>)
    requires st.aborted || st.executed in failing
    ensures Removal(st, failing).committed == st.committed
    ensures Removal(st, failing).executed == st.executed + 2
    ensures Removal(st, failing).rollbacks == st.rollbacks
  {
    assert RemovalIds(st, failing) == {};
  }

  /** A run in which no statement fails and nothing is pending leaves
      committed exactly the products with an active subscription, and
      keeps the subscriptions. */
  lemma CleanRunKeepsExactlySubscribed(st: DbState, failing: set<nat>)
    requires !st.aborted && st.working == st.committed
    requires forall k :: st.executed <= k < st.executed + 5 ==> k !in failing
    ensures var r := Removal(st, failing).committed;
      && r.subscriptions == st.committed.subscriptions
      && (forall i :: 0 <= i < |r.products| ==> r.products[i].productId in st.committed.subscriptions)
      && (forall i :: 0 <= i < |st.committed.products| && st.committed.products[i].productId in st.committed.subscriptions
            ==> st.committed.products[i] in r.products)
  {
    var t := st.working;
    var s := st.executed;
    assert s <= s < s + 5 && s <= s + 1 < s + 5;
    assert !ProductsReadFails(st, failing);
    var ids := RemovalIds(st, failing);
    assert ids == Unsubscribed(t, false, false);
    var r := Removal(st, failing).committed;
    if ids == {} {
      assert r == t;
      forall i | 0 <= i < |t.products|
        ensures t.products[i].productId in t.subscriptions
      {
        var x := t.products[i].productId;
        assert x !in ids;
      }
    } else {
      assert DeletesSucceed(failing, s + 2) by {
        assert s <= s + 2 < s + 5 && s <= s + 3 < s + 5 && s <= s + 4 < s + 5;
      }
      assert r == Deleted(t, ids);
      SurvivorsAreSubscribed(t);
    }
  }

  /** The tables keep pointing where they should through a run: whatever
      is committed at its end is the committed tables, the working tables
      or the working tables after the cleanup. */
  lemma RemovalKeepsIntegrity(st: DbState, failing: set<nat>)
    requires Integrity(st.committed) && Integrity(st.working)
    ensures Integrity(Removal(st, failing).committed)
  {
    var ids := RemovalIds(st, failing);
    RemovalCommitted(st, failing);
    if ids != {} && DeletesSucceed(failing, st.executed + 2) {
      IntegrityPreserved(st.working, ids);
    }
  }

  /** What a run commits: the committed tables, the working tables, or the
      working tables after the cleanup of the ids it found. */
  lemma RemovalCommitted(st: DbState, failing: set<nat>)
    ensures var ids, r := RemovalIds(st, failing), Removal(st, failing).committed;
      if ids != {} && DeletesSucceed(failing, st.executed + 2) then r == Deleted(st.working, ids)
      else r == st.committed || r == st.working
  {
    RemovalOfCommitted(st, failing, RemovalIds(st, failing));
  }

  lemma RemovalOfCommitted(st: DbState, failing: set<nat>, ids: set<int>)
    ensures var r := RemovalOf(st, failing, ids).committed;
      if ids != {} && DeletesSucceed(failing, st.executed + 2) then r == Deleted(st.working, ids)
      else r == st.committed || r == st.working
  {
    var r := RemovalOf(st, failing, ids);
    if ids == {} {
      assert r.committed == if ProductsReadFails(st, failing) then st.committed else st.working;
    } else if DeletesSucceed(failing, st.executed + 2) {
      assert r.committed == Deleted(st.working, ids);
    } else {
      assert r.committed == st.committed;
    }
  }

  /** Deleting every product id empties the product table, and with it,
      when the tables point where they should, the price changes and the
      websites. */
  lemma DeletingEveryIdEmpties(t: Tables, ids: set<int>)
    requires Integrity(t)
    requires forall j :: 0 <= j < |t.products| ==> t.products[j].productId in ids
    ensures Deleted(t, ids).products == [] && Deleted(t, ids).priceChanges == [] && Deleted(t, ids).websites == []
  {
    DeletedTables(t, ids);
    FilterNone(t.products, ProductKept(ids));
    forall k | 0 <= k < |t.priceChanges|
      ensures !PriceChangeKept(ids)(t.priceChanges[k])
    {
      var j :| 0 <= j < |t.products| && t.products[j].productId == t.priceChanges[k].productId;
    }
    FilterNone(t.priceChanges, PriceChangeKept(ids));
    assert Referenced([]) == {};
    FilterNone(t.websites, WebsiteUsed({}));
  }

  /** With nothing to delete, price changes and products are untouched;
      only the unused websites go. */
  lemma DeleteNothing(t: Tables)
    ensures Deleted(t, {}).products == t.products && Deleted(t, {}).priceChanges == t.priceChanges
  {
    DeletedTables(t, {});
    FilterAll(t.products, ProductKept({}));
    FilterAll(t.priceChanges, PriceChangeKept({}));
  }

  /** The reads of the unit tests: product ids 2 and 3 against active
      subscriptions 1 and 2 leave product 3 to delete. */
  lemma UnsubscribedExample()
    ensures IdSet([2, 3]) - IdSet([1, 2]) == {3}
  {
  }

  /** Repeated ids in a plain select collapse. */
  lemma RepeatsCollapseExample()
    ensures IdSet([1, 2, 2, 3]) == {1, 2, 3}
  {
  }

  /** When every product is subscribed, nothing is unsubscribed. */
  lemma AllSubscribedExample()
    ensures IdSet([1, 2]) - IdSet([1, 2]) == {}
  {
  }
}
