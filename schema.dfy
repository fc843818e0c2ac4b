/**
 * The start-up schema reconciler `ensure_schema`.
 *
 * The SQLite catalog is modelled as a map from table name to the table's
 * ordered column list (name and declaration) and its table constraints.
 * `CREATE TABLE IF NOT EXISTS` inserts a table only when its name is
 * absent; `ALTER TABLE ... ADD COLUMN` appends one column; `PRAGMA
 * table_info` lists the column names in order.
 */
module Schema {

  datatype Column = Column(name: string, decl: string)

  datatype Table = Table(columns: seq<Column>, constraints: seq<string>)

  type Catalog = map<string, Table>

  /** The column names of a column list, in order (what `PRAGMA table_info` reports as `r[1]`). */
  function Names(cols: seq<Column>): seq<string>
  {
    seq(|cols|, i requires 0 <= i < |cols| => cols[i].name)
  }

  lemma NamesAppend(a: seq<Column>, b: seq<Column>)
    ensures Names(a + b) == Names(a) + Names(b)
  {
  }

  /** No two columns share a name. */
  ghost predicate DistinctNames(cols: seq<Column>)
  {
    forall i, j :: 0 <= i < j < |cols| ==> cols[i].name != cols[j].name
  }

  /** SQLite never holds a table with two columns of the same name. */
  ghost predicate WellFormed(c: Catalog)
  {
    forall t :: t in c ==> DistinctNames(c[t].columns)
  }

  // ------------------------------------------------------------------
  // The statements ensure_schema issues
  // ------------------------------------------------------------------

  const TicketsDdl: Table := Table([
    Column("id", "INTEGER PRIMARY KEY"),
    Column("title", "TEXT NOT NULL"),
    Column("content", "TEXT"),
    Column("requester", "TEXT NOT NULL"),
    Column("assignee", "TEXT"),
    Column("priority", "TEXT NOT NULL DEFAULT 'med'"),
    Column("status", "TEXT NOT NULL DEFAULT 'open'"),
    Column("created_at", "TEXT NOT NULL"),
    Column("updated_at", "TEXT NOT NULL")
  ], [])

  /** The columns added to a legacy `tickets` table when missing, in this order. */
  const NeedCols: seq<Column> := [
    Column("content", "TEXT"),
    Column("assignee", "TEXT"),
    Column("priority", "TEXT DEFAULT 'med'"),
    Column("status", "TEXT DEFAULT 'open'"),
    Column("created_at", "TEXT"),
    Column("updated_at", "TEXT")
  ]

  const ForeignKeyTickets := "FOREIGN KEY(ticket_id) REFERENCES tickets(id)"

  const CommentsDdl: Table := Table([
    Column("id", "INTEGER PRIMARY KEY"),
    Column("ticket_id", "INTEGER NOT NULL"),
    Column("author", "TEXT NOT NULL"),
    Column("body", "TEXT NOT NULL"),
    Column("created_at", "TEXT NOT NULL")
  ], [ForeignKeyTickets])

  const AttachmentsDdl: Table := Table([
    Column("id", "INTEGER PRIMARY KEY"),
    Column("ticket_id", "INTEGER NOT NULL"),
    Column("filename", "TEXT NOT NULL"),
    Column("stored_path", "TEXT NOT NULL"),
    Column("size", "INTEGER NOT NULL"),
    Column("created_at", "TEXT NOT NULL")
  ], [ForeignKeyTickets])

  const EventsDdl: Table := Table([
    Column("id", "INTEGER PRIMARY KEY"),
    Column("ticket_id", "INTEGER NOT NULL"),
    Column("actor", "TEXT NOT NULL"),
    Column("action", "TEXT NOT NULL"),
    Column("from_value", "TEXT"),
    Column("to_value", "TEXT"),
    Column("created_at", "TEXT NOT NULL")
  ], [ForeignKeyTickets])

  /** The four tables the application owns. */
  const AppTables: set<string> := {"tickets", "comments", "attachments", "events"}

  // ------------------------------------------------------------------
  // The specification of one run
  // ------------------------------------------------------------------

  /** The columns of `need` whose names are not in the snapshot `existing`, in `need`'s order. */
  function Missing(existing: seq<string>, need: seq<Column>): (r: seq<Column>)
    ensures |r| <= |need|
  {
    if need == [] then []
    else
      var last := need[|need| - 1];
      Missing(existing, need[..|need| - 1]) + (if last.name in existing then [] else [last])
  }

  /** A column is reported missing exactly when it is needed and its name is not in the snapshot. */
  lemma {:induction false} MissingMembers(existing: seq<string>, need: seq<Column>)
    ensures forall col :: col in Missing(existing, need) <==> col in need && col.name !in existing
  {
    if need != [] {
      var init := need[..|need| - 1];
      MissingMembers(existing, init);
      assert need == init + [need[|need| - 1]];
    }
  }

  /** When `need` has distinct names, so has the list of missing ones. */
  lemma {:induction false} MissingDistinct(existing: seq<string>, need: seq<Column>)
    requires DistinctNames(need)
    ensures DistinctNames(Missing(existing, need))
  {
    if need != [] {
      var init := need[..|need| - 1];
      var last := need[|need| - 1];
      var m := Missing(existing, init);
      MissingDistinct(existing, init);
      MissingMembers(existing, init);
      forall i | 0 <= i < |m| ensures m[i].name != last.name {
        assert m[i] in init;
        var k :| 0 <= k < |init| && init[k] == m[i];
        assert need[k] == m[i];
      }
    }
  }

  /** Nothing is missing when every needed name is in the snapshot. */
  lemma {:induction false} MissingNone(existing: seq<string>, need: seq<Column>)
    requires forall col :: col in need ==> col.name in existing
    ensures Missing(existing, need) == []
  {
    if need != [] {
      var init := need[..|need| - 1];
      assert forall col :: col in init ==> col in need;
      MissingNone(existing, init);
      assert need[|need| - 1] in need;
    }
  }

  /** Everything is missing when no needed name is in the snapshot. */
  lemma {:induction false} MissingAll(existing: seq<string>, need: seq<Column>)
    requires forall col :: col in need ==> col.name !in existing
    ensures Missing(existing, need) == need
  {
    if need != [] {
      var init := need[..|need| - 1];
      assert forall col :: col in init ==> col in need;
      MissingAll(existing, init);
      assert need[|need| - 1] in need;
      assert init + [need[|need| - 1]] == need;
    }
  }

  function CreateIfAbsent(c: Catalog, name: string, t: Table): (r: Catalog)
    ensures name in r && r.Keys == c.Keys + {name}
    ensures name in c ==> r == c
    ensures name !in c ==> r == c[name := t]
  {
    if name in c then c else c[name := t]
  }

  function AddColumns(t: Table, cols: seq<Column>): Table
  {
    Table(t.columns + cols, t.constraints)
  }

  /** Step 1 and the snapshot of step 2: the tickets table right after `CREATE TABLE IF NOT EXISTS tickets`. */
  function TicketsBase(c: Catalog): Table
  {
    if "tickets" in c then c["tickets"] else TicketsDdl
  }

  /** The `ALTER TABLE tickets ADD COLUMN` statements one run issues, in order. */
  function Alters(c: Catalog): (r: seq<Column>)
    ensures forall col {:trigger col in r} :: col in r <==> col in NeedCols && col.name !in Names(TicketsBase(c).columns)
  {
    MissingMembers(Names(TicketsBase(c).columns), NeedCols);
    Missing(Names(TicketsBase(c).columns), NeedCols)
  }

  /** The tables one run creates. */
  function Creates(c: Catalog): set<string>
  {
    AppTables - c.Keys
  }

  /** The catalog after one run of ensure_schema on `c`. */
  function Reconciled(c: Catalog): (r: Catalog)
    ensures r.Keys == c.Keys + AppTables
    ensures |TicketsBase(c).columns| <= |r["tickets"].columns|
    ensures r["tickets"].columns[..|TicketsBase(c).columns|] == TicketsBase(c).columns
  {
    var withTickets := c["tickets" := AddColumns(TicketsBase(c), Alters(c))];
    CreateIfAbsent(CreateIfAbsent(CreateIfAbsent(withTickets,
      "comments", CommentsDdl), "attachments", AttachmentsDdl), "events", EventsDdl)
  }

  // ------------------------------------------------------------------
  // Properties of one run
  // ------------------------------------------------------------------

  lemma NeedColsDistinct()
    ensures DistinctNames(NeedCols)
  {
  }

  /** Each CREATE TABLE statement declares distinct column names. */
  lemma DdlDistinct()
    ensures DistinctNames(TicketsDdl.columns)
    ensures DistinctNames(CommentsDdl.columns)
    ensures DistinctNames(AttachmentsDdl.columns)
    ensures DistinctNames(EventsDdl.columns)
  {
  }

  lemma NeedColsInTicketsDdl()
    ensures forall col :: col in NeedCols ==> col.name in Names(TicketsDdl.columns)
  {
    var ns := Names(TicketsDdl.columns);
    assert ns == ["id", "title", "content", "requester", "assignee", "priority", "status", "created_at", "updated_at"];
  }

  /** The tickets columns after a run are the snapshot's columns followed by the ALTERed ones. */
  lemma TicketsAfterRun(c: Catalog)
    ensures "tickets" in Reconciled(c)
    ensures Reconciled(c)["tickets"] == AddColumns(TicketsBase(c), Alters(c))
  {
  }

  /** On a store without a tickets table the full CREATE runs and no ALTER follows. */
  lemma FreshStoreCreatesFullTickets(c: Catalog)
    requires "tickets" !in c
    ensures Alters(c) == []
    ensures Reconciled(c)["tickets"] == TicketsDdl
  {
    NeedColsInTicketsDdl();
    MissingNone(Names(TicketsDdl.columns), NeedCols);
    assert TicketsDdl.columns + [] == TicketsDdl.columns;
  }

  /** Appending the missing columns of `need` to `base` leaves every needed name present. */
  lemma AppendMissingCovers(base: seq<Column>, need: seq<Column>)
    ensures forall col :: col in need ==> col.name in Names(base + Missing(Names(base), need))
  {
    var existing := Names(base);
    var added := Missing(existing, need);
    var ns := Names(base + added);
    MissingMembers(existing, need);
    forall col | col in need ensures col.name in ns {
      if col.name in existing {
        var k :| 0 <= k < |existing| && existing[k] == col.name;
        assert ns[k] == col.name;
      } else {
        assert col in added;
        var k :| 0 <= k < |added| && added[k] == col;
        assert ns[|base| + k] == col.name;
      }
    }
  }

  /** Appending the missing columns of a distinct-named `need` to a distinct-named `base` keeps names distinct. */
  lemma AppendMissingDistinct(base: seq<Column>, need: seq<Column>)
    requires DistinctNames(base) && DistinctNames(need)
    ensures DistinctNames(base + Missing(Names(base), need))
  {
    var existing := Names(base);
    var added := Missing(existing, need);
    var cols := base + added;
    MissingDistinct(existing, need);
    MissingMembers(existing, need);
    forall i, j | 0 <= i < j < |cols| ensures cols[i].name != cols[j].name {
      if i < |base| && j >= |base| {
        assert cols[j] == added[j - |base|];
        assert cols[j] in added;
        assert existing[i] == cols[i].name;
      }
    }
  }

  /** Every needed name is among the tickets columns after a run. */
  lemma NeededNamesPresent(c: Catalog)
    ensures forall col :: col in NeedCols ==> col.name in Names(Reconciled(c)["tickets"].columns)
  {
    TicketsAfterRun(c);
    AppendMissingCovers(TicketsBase(c).columns, NeedCols);
  }

  /**
   * After a run every column of `need_cols` is in the tickets table exactly
   * once: all names of the table are distinct and each needed name occurs.
   */
  lemma RequiredColumnsPresentOnce(c: Catalog)
    requires WellFormed(c)
    ensures "tickets" in Reconciled(c)
    ensures DistinctNames(Reconciled(c)["tickets"].columns)
    ensures forall col :: col in NeedCols ==> col.name in Names(Reconciled(c)["tickets"].columns)
  {
    TicketsAfterRun(c);
    NeededNamesPresent(c);
    DdlDistinct();
    assert DistinctNames(TicketsBase(c).columns);
    NeedColsDistinct();
    AppendMissingDistinct(TicketsBase(c).columns, NeedCols);
  }

  /**
   * A run adds exactly the four application tables (when absent) and
   * leaves every other table, and every existing comments, attachments or
   * events table, as it was.
   */
  lemma ReconcileKeepsOtherTables(c: Catalog)
    ensures Reconciled(c).Keys == c.Keys + AppTables
    ensures forall n :: n in c && n != "tickets" ==> Reconciled(c)[n] == c[n]
    ensures "comments" !in c ==> Reconciled(c)["comments"] == CommentsDdl
    ensures "attachments" !in c ==> Reconciled(c)["attachments"] == AttachmentsDdl
    ensures "events" !in c ==> Reconciled(c)["events"] == EventsDdl
    ensures Reconciled(c).Keys - c.Keys == Creates(c)
  {
  }

  /** A run keeps the existing tickets columns in place and only appends needed columns that were missing. */
  lemma ReconcileExtendsTickets(c: Catalog)
    requires "tickets" in c
    ensures
      var before := c["tickets"];
      var after := Reconciled(c)["tickets"];
      && after.constraints == before.constraints
      && |before.columns| <= |after.columns|
      && after.columns[..|before.columns|] == before.columns
      && forall col :: col in after.columns[|before.columns|..] ==>
           col in NeedCols && col.name !in Names(before.columns)
  {
    var before := c["tickets"];
    var after := Reconciled(c)["tickets"];
    TicketsAfterRun(c);
    assert after.columns[|before.columns|..] == Alters(c);
  }

  /** A run is additive: it changes no existing table but tickets, and only extends that one. */
  lemma ReconcileIsAdditive(c: Catalog)
    ensures Reconciled(c).Keys == c.Keys + AppTables
    ensures forall n :: n in c && n != "tickets" ==> Reconciled(c)[n] == c[n]
    ensures "comments" !in c ==> Reconciled(c)["comments"] == CommentsDdl
    ensures "attachments" !in c ==> Reconciled(c)["attachments"] == AttachmentsDdl
    ensures "events" !in c ==> Reconciled(c)["events"] == EventsDdl
    ensures "tickets" in c ==>
      var before := c["tickets"];
      var after := Reconciled(c)["tickets"];
      && after.constraints == before.constraints
      && |before.columns| <= |after.columns|
      && after.columns[..|before.columns|] == before.columns
      && forall col :: col in after.columns[|before.columns|..] ==>
           col in NeedCols && col.name !in Names(before.columns)
  {
    ReconcileKeepsOtherTables(c);
    if "tickets" in c {
      ReconcileExtendsTickets(c);
    }
  }

  /** After a run nothing is missing, so a second run issues no ALTER and creates no table. */
  lemma SecondRunIssuesNothing(c: Catalog)
    ensures Alters(Reconciled(c)) == []
    ensures Creates(Reconciled(c)) == {}
  {
    var r := Reconciled(c);
    NeededNamesPresent(c);
    assert TicketsBase(r) == r["tickets"];
    MissingNone(Names(r["tickets"].columns), NeedCols);
  }

  /** ensure_schema is idempotent: running it on its own output changes nothing. */
  lemma ReconcileIdempotent(c: Catalog)
    ensures Reconciled(Reconciled(c)) == Reconciled(c)
  {
    var r := Reconciled(c);
    SecondRunIssuesNothing(c);
    assert TicketsBase(r) == r["tickets"];
    assert r["tickets"].columns + [] == r["tickets"].columns;
    assert AddColumns(TicketsBase(r), Alters(r)) == r["tickets"];
    assert r["tickets" := r["tickets"]] == r;
  }

  /** A table other than tickets after a run is either untouched or one of the CREATE statements' tables. */
  lemma OtherTableWellFormed(c: Catalog, t: string)
    requires WellFormed(c)
    requires t in Reconciled(c) && t != "tickets"
    ensures DistinctNames(Reconciled(c)[t].columns)
  {
    ReconcileKeepsOtherTables(c);
    DdlDistinct();
    var r := Reconciled(c);
    if t in c {
      assert r[t] == c[t];
    } else if t == "comments" {
      assert r[t] == CommentsDdl;
    } else if t == "attachments" {
      assert r[t] == AttachmentsDdl;
    } else {
      assert t in AppTables;
      assert r[t] == EventsDdl;
    }
  }

  /** The run never produces a table with a repeated column name. */
  lemma ReconcilePreservesWellFormed(c: Catalog)
    requires WellFormed(c)
    ensures WellFormed(Reconciled(c))
  {
    RequiredColumnsPresentOnce(c);
    var r := Reconciled(c);
    forall t | t in r ensures DistinctNames(r[t].columns) {
      if t != "tickets" {
        OtherTableWellFormed(c, t);
      }
    }
  }

  /** A legacy tickets table holding only id, title and requester gets all six needed columns appended, in order, with their backfill declarations. */
  lemma LegacyTicketsBackfill(c: Catalog)
    requires "tickets" in c
    requires c["tickets"] == Table([
      Column("id", "INTEGER PRIMARY KEY"),
      Column("title", "TEXT NOT NULL"),
      Column("requester", "TEXT NOT NULL")], [])
    ensures Alters(c) == NeedCols
    ensures Reconciled(c)["tickets"].columns == c["tickets"].columns + NeedCols
  {
    assert Names(c["tickets"].columns) == ["id", "title", "requester"];
    MissingAll(Names(c["tickets"].columns), NeedCols);
  }

  // ------------------------------------------------------------------
  // The imperative run against a database handle
  // ------------------------------------------------------------------

  /** A SQLite connection, reduced to its catalog. */
  class Database {
    var tables: Catalog

    constructor (initial: Catalog)
      ensures tables == initial
    {
      tables := initial;
    }

    /** `CREATE TABLE IF NOT EXISTS name (...)`. */
    method CreateTableIfNotExists(name: string, t: Table) returns (created: bool)
      modifies this
      ensures created <==> name !in old(tables)
      ensures tables == CreateIfAbsent(old(tables), name, t)
    {
      created := name !in tables;
      if created {
        tables := tables[name := t];
      }
    }

    /** The names `PRAGMA table_info(name)` reports: none for a missing table. */
    method TableInfo(name: string) returns (cols: seq<string>)
      ensures name in tables ==> cols == Names(tables[name].columns)
      ensures name !in tables ==> cols == []
    {
      if name in tables {
        cols := Names(tables[name].columns);
      } else {
        cols := [];
      }
    }

    /**
     * `ALTER TABLE name ADD COLUMN col`: the engine rejects it (and changes
     * nothing) when the table is missing or already has a column of that
     * name. These are the only rejections the declarations ensure_schema
     * adds can meet: none of them is PRIMARY KEY, UNIQUE or NOT NULL.
     */
    method AddColumn(name: string, col: Column) returns (ok: bool)
      modifies this
      ensures ok <==> name in old(tables) && col.name !in Names(old(tables)[name].columns)
      ensures ok ==> tables == old(tables)[name := AddColumns(old(tables)[name], [col])]
      ensures !ok ==> tables == old(tables)
    {
      ok := name in tables && col.name !in Names(tables[name].columns);
      if ok {
        tables := tables[name := AddColumns(tables[name], [col])];
      }
    }
  }

  /**
   * ensure_schema: creates the tickets table if absent, takes the column
   * snapshot once, appends each needed column missing from the snapshot
   * (every ALTER is accepted by the engine), then creates the three
   * dependent tables if absent. Returns the columns it added.
   */
  method EnsureSchema(db: Database) returns (added: seq<Column>)
    modifies db
    ensures db.tables == Reconciled(old(db.tables))
    ensures added == Alters(old(db.tables))
  {
    ghost var c := db.tables;
    var _ := db.CreateTableIfNotExists("tickets", TicketsDdl);
    var existingCols := db.TableInfo("tickets");
    ghost var base := TicketsBase(c);
    added := [];
    assert base.columns + added == base.columns;
    for i := 0 to |NeedCols|
      invariant added == Missing(existingCols, NeedCols[..i])
      invariant db.tables == c["tickets" := AddColumns(base, added)]
    {
      var col := NeedCols[i];
      assert NeedCols[..i + 1] == NeedCols[..i] + [col];
      if col.name !in existingCols {
        AlterAccepted(base.columns, i);
        var ok := db.AddColumn("tickets", col);
        assert ok;
        assert (base.columns + added) + [col] == base.columns + (added + [col]);
        added := added + [col];
      }
    }
    assert NeedCols[..|NeedCols|] == NeedCols;
    var _ := db.CreateTableIfNotExists("comments", CommentsDdl);
    var _ := db.CreateTableIfNotExists("attachments", AttachmentsDdl);
    var _ := db.CreateTableIfNotExists("events", EventsDdl);
  }

  /**
   * The i-th needed column, absent from the snapshot, is also absent from
   * the table after the earlier ALTERs: the engine accepts its ALTER.
   */
  lemma AlterAccepted(base: seq<Column>, i: nat)
    requires i < |NeedCols| && NeedCols[i].name !in Names(base)
    ensures NeedCols[i].name !in Names(AddColumns(Table(base, []), Missing(Names(base), NeedCols[..i])).columns)
  {
    var added := Missing(Names(base), NeedCols[..i]);
    NeedColsDistinct();
    MissingMembers(Names(base), NeedCols[..i]);
    NamesAppend(base, added);
    forall k | 0 <= k < |added| ensures added[k].name != NeedCols[i].name {
      assert added[k] in NeedCols[..i];
      var j :| 0 <= j < i && NeedCols[j] == added[k];
    }
  }
}
