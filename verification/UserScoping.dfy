/**
 Migration 0032 itself: every row that was there is given to the first account, table by table,
 before the column is NOT NULL and the policies are on; and the way back.
 */
module UserScoping {
  import opened Options
  import opened UserIsolation

  const SCOPED_TABLES := [
    "sources", "memories", "memory_chunks", "ingestion_events", "entities", "entity_mentions", "entity_relationships",
    "decisions", "query_judgements", "chat_sessions", "chat_messages", "jobs", "patterns", "user_model_facets"]

  /** A row while its `user_id` may still be NULL, or does not exist. */
  datatype Unowned = Unowned(table: string, owner: Option<UserId>, refs: map<Column, Uuid>, cells: Cells)

  type Rows = map<Uuid, Unowned>

  predicate BeforeScoping(rows: Rows) {
    forall id :: id in rows ==> rows[id].owner.None? && rows[id].table in SCOPED_TABLES
  }

  predicate IsPopulated(rows: Rows, table: string) {
    exists id :: id in rows && rows[id].table == table
  }

  /** The rows of some tables given to an owner. */
  function GivenTo(rows: Rows, tables: set<string>, owner: Option<UserId>): Rows {
    map id | id in rows :: if rows[id].table in tables && owner.Some? then rows[id].(owner := owner) else rows[id]
  }

  /** The rows as the application will see them. */
  function AsScoped(rows: Rows): (db: Database)
    requires forall id :: id in rows ==> rows[id].owner.Some?
  {
    map id | id in rows :: Row(rows[id].table, rows[id].owner.value, rows[id].refs, rows[id].cells)
  }

  function First(n: nat): set<string>
    requires n <= |SCOPED_TABLES|
  {
    set k | 0 <= k < n :: SCOPED_TABLES[k]
  }

  class Tables {
    var rows: Rows
    var notNull: set<string>
    var secured: set<string>

    /** The RuntimeError's list: the tables with rows but no account to attribute them to. */
    method Populated() returns (names: seq<string>)
      ensures forall t :: t in names <==> t in SCOPED_TABLES && IsPopulated(rows, t)
    {
      names := [];
      for k := 0 to |SCOPED_TABLES|
        invariant forall t :: t in names <==> t in SCOPED_TABLES[..k] && IsPopulated(rows, t)
      {
        if IsPopulated(rows, SCOPED_TABLES[k]) {
          names := names + [SCOPED_TABLES[k]];
        }
      }
      assert SCOPED_TABLES[..|SCOPED_TABLES|] == SCOPED_TABLES;
    }

    /** The column on each table in turn: added, backfilled, then NOT NULL, which finds no NULL left. */
    method AddColumns(owner: Option<UserId>)
      requires owner.Some? || rows == map[]
      modifies this`rows, this`notNull
      ensures rows == GivenTo(old(rows), First(|SCOPED_TABLES|), owner) && notNull == First(|SCOPED_TABLES|)
    {
      ghost var before := rows;
      notNull := {};
      assert rows == GivenTo(before, First(0), owner);
      for k := 0 to |SCOPED_TABLES|
        invariant rows == GivenTo(before, First(k), owner) && notNull == First(k)
      {
        OneMoreTable(before, k, owner);
        if owner.Some? {
          rows := GivenTo(rows, {SCOPED_TABLES[k]}, owner);
        }
        assert forall id :: id in rows && rows[id].table == SCOPED_TABLES[k] ==> rows[id].owner.Some?;
        notNull := notNull + {SCOPED_TABLES[k]};
      }
    }

    method EnablePolicies()
      modifies this`secured
      ensures secured == First(|SCOPED_TABLES|)
    {
      secured := {};
      for k := 0 to |SCOPED_TABLES|
        invariant secured == First(k)
      {
        secured := secured + {SCOPED_TABLES[k]};
      }
    }

    /** `users` in order of creation. An error names the populated tables and changes nothing. */
    method Upgrade(users: seq<UserId>) returns (error: seq<string>)
      requires BeforeScoping(rows)
      modifies this
      ensures error == [] <==> users != [] || old(rows) == map[]
      ensures error != [] ==> unchanged(this) && forall t :: t in error <==> t in SCOPED_TABLES && IsPopulated(rows, t)
      ensures error == [] ==> notNull == secured == First(|SCOPED_TABLES|)
      ensures error == [] ==>
                rows == GivenTo(old(rows), First(|SCOPED_TABLES|), if users == [] then None else Some(users[0]))
      ensures error == [] ==> forall id :: id in rows ==> rows[id].owner.Some?
      ensures error == [] ==>
                && rows.Keys == old(rows).Keys
                && forall id :: id in rows ==>
                     users != [] && rows[id] == old(rows)[id].(owner := Some(users[0]))
      ensures error == [] ==>
                notNull == secured == {
                  "sources", "memories", "memory_chunks", "ingestion_events", "entities", "entity_mentions",
                  "entity_relationships", "decisions", "query_judgements", "chat_sessions", "chat_messages", "jobs",
                  "patterns", "user_model_facets"}
    {
      AllTables();
      var owner := if users == [] then None else Some(users[0]);
      error := [];
      if owner.None? {
        error := Populated();
        if error != [] {
          assert IsPopulated(rows, error[0]);
          return;
        }
        NoTableNoRow(rows);
      }
      EveryRowIsGiven(rows, owner);
      AddColumns(owner);
      EnablePolicies();
    }
  }

  lemma AllTables()
    ensures First(|SCOPED_TABLES|) == {
              "sources", "memories", "memory_chunks", "ingestion_events", "entities", "entity_mentions",
              "entity_relationships", "decisions", "query_judgements", "chat_sessions", "chat_messages", "jobs",
              "patterns", "user_model_facets"}
  {
    var names := SCOPED_TABLES;
    assert |names| == 14;
    forall t | t in First(14) ensures t in {
      "sources", "memories", "memory_chunks", "ingestion_events", "entities", "entity_mentions", "entity_relationships",
      "decisions", "query_judgements", "chat_sessions", "chat_messages", "jobs", "patterns", "user_model_facets"}
    {
      var k :| 0 <= k < 14 && t == names[k];
    }
    assert forall k :: 0 <= k < 14 ==> names[k] in First(14);
    assert names[0] == "sources" && names[1] == "memories" && names[2] == "memory_chunks";
    assert names[3] == "ingestion_events" && names[4] == "entities" && names[5] == "entity_mentions";
    assert names[6] == "entity_relationships" && names[7] == "decisions" && names[8] == "query_judgements";
    assert names[9] == "chat_sessions" && names[10] == "chat_messages" && names[11] == "jobs";
    assert names[12] == "patterns" && names[13] == "user_model_facets";
  }

  lemma OneMoreTable(rows: Rows, k: nat, owner: Option<UserId>)
    requires k < |SCOPED_TABLES|
    ensures First(k + 1) == First(k) + {SCOPED_TABLES[k]}
    ensures GivenTo(GivenTo(rows, First(k), owner), {SCOPED_TABLES[k]}, owner) == GivenTo(rows, First(k + 1), owner)
    ensures owner.None? ==> GivenTo(rows, First(k), owner) == GivenTo(rows, First(k + 1), owner)
  {
    assert First(k + 1) == First(k) + {SCOPED_TABLES[k]};
  }

  lemma EveryRowIsGiven(rows: Rows, owner: Option<UserId>)
    requires BeforeScoping(rows) && (owner.Some? || rows == map[])
    ensures forall id :: id in rows ==> GivenTo(rows, First(|SCOPED_TABLES|), owner)[id].owner.Some?
  {
    forall id | id in rows ensures rows[id].table in First(|SCOPED_TABLES|) {
      var k :| 0 <= k < |SCOPED_TABLES| && SCOPED_TABLES[k] == rows[id].table;
    }
  }

  lemma NoTableNoRow(rows: Rows)
    requires BeforeScoping(rows) && forall t :: t in SCOPED_TABLES ==> !IsPopulated(rows, t)
    ensures rows == map[]
  {
    if id :| id in rows {
      assert IsPopulated(rows, rows[id].table);
    }
  }

  // ---------------------------------------------------------------------------------------
  // Uniqueness, before and after
  // ---------------------------------------------------------------------------------------

  /** The indexes of 0032 stand. */
  ghost predicate Unique(schema: Schema, db: Database) {
    forall i, j :: i in db && j in db && i != j ==> !Clash(schema, db[i], db[j])
  }

  /** The clash of the indexes before 0032, and after its downgrade: no owner in them. */
  predicate LegacyClash(schema: Schema, r: Row, q: Row) {
    || OwnEntries(schema, r) * OwnEntries(schema, q) != {}
    || LeftEntries(schema, r) * LeftEntries(schema, q) != {}
  }

  ghost predicate LegacyUnique(schema: Schema, db: Database) {
    forall i, j :: i in db && j in db && i != j ==> !LegacyClash(schema, db[i], db[j])
  }

  predicate OwnedBy(db: Database, owner: UserId) {
    forall id :: id in db ==> db[id].owner == owner
  }

  /** Rebuilding the indexes over rows of one owner fails exactly where the old ones did. */
  lemma RebuiltIndexesFit(schema: Schema, db: Database, owner: UserId)
    requires OwnedBy(db, owner)
    ensures Unique(schema, db) <==> LegacyUnique(schema, db)
    ensures Visible(db, Some(owner)) == db
    ensures forall other :: other != owner ==> Visible(db, Some(other)) == map[]
  {
    forall i, j | i in db && j in db ensures Clash(schema, db[i], db[j]) <==> LegacyClash(schema, db[i], db[j]) {
    }
    if Unique(schema, db) {
      forall i, j | i in db && j in db && i != j ensures !LegacyClash(schema, db[i], db[j]) {
        assert !Clash(schema, db[i], db[j]);
      }
    }
    if LegacyUnique(schema, db) {
      forall i, j | i in db && j in db && i != j ensures !Clash(schema, db[i], db[j]) {
        assert !LegacyClash(schema, db[i], db[j]);
      }
    }
  }

  /** Two people who named the same thing the same way. */
  predicate SharedName(schema: Schema, r: Row, q: Row) {
    r.owner != q.owner && OwnEntries(schema, r) * OwnEntries(schema, q) != {}
  }

  /** The old indexes can be put back if and only if no two users hold rows with the same old key. */
  lemma DowngradeFitsIff(schema: Schema, db: Database)
    requires Unique(schema, db)
    ensures LegacyUnique(schema, db) <==> forall i, j :: i in db && j in db ==> !SharedName(schema, db[i], db[j])
  {
    if LegacyUnique(schema, db) {
      forall i, j | i in db && j in db ensures !SharedName(schema, db[i], db[j]) {
        assert i != j ==> !LegacyClash(schema, db[i], db[j]);
      }
    }
    if forall i, j :: i in db && j in db ==> !SharedName(schema, db[i], db[j]) {
      forall i, j | i in db && j in db && i != j ensures !LegacyClash(schema, db[i], db[j]) {
        assert !SharedName(schema, db[i], db[j]) && !Clash(schema, db[i], db[j]);
      }
    }
  }

  /** The column dropped again. */
  function Downgraded(db: Database): Rows {
    map id | id in db :: Unowned(db[id].table, None, db[id].refs, db[id].cells)
  }

  lemma UpgradeThenDowngrade(rows: Rows, owner: UserId)
    requires BeforeScoping(rows)
    ensures forall id :: id in GivenTo(rows, First(|SCOPED_TABLES|), Some(owner)) ==>
              GivenTo(rows, First(|SCOPED_TABLES|), Some(owner))[id].owner == Some(owner)
    ensures OwnedBy(AsScoped(GivenTo(rows, First(|SCOPED_TABLES|), Some(owner))), owner)
    ensures Downgraded(AsScoped(GivenTo(rows, First(|SCOPED_TABLES|), Some(owner)))) == rows
  {
    var given := GivenTo(rows, First(|SCOPED_TABLES|), Some(owner));
    forall id | id in rows ensures given[id].owner == Some(owner) {
      var k :| 0 <= k < |SCOPED_TABLES| && SCOPED_TABLES[k] == rows[id].table;
      assert rows[id].table in First(|SCOPED_TABLES|);
    }
    assert Downgraded(AsScoped(given)).Keys == rows.Keys;
  }

  // ---------------------------------------------------------------------------------------
  // The indexes stand in every run
  // ---------------------------------------------------------------------------------------

  lemma InsertKeepsUnique(schema: Schema, db: Database, user: Option<UserId>, id: Uuid, d: Draft)
    requires Unique(schema, db)
    ensures Unique(schema, RunInsert(schema, db, user, id, d).0)
  {
    var db' := RunInsert(schema, db, user, id, d).0;
    forall i, j | i in db' && j in db' && i != j ensures !Clash(schema, db'[i], db'[j]) {
      if i in db && j in db {
        assert db'[i] == db[i] && db'[j] == db[j] && !Clash(schema, db[i], db[j]);
      } else if i in db {
        assert !Clash(schema, db'[j], db[i]);
        ClashIsSymmetric(schema, db'[j], db[i]);
      }
    }
  }

  lemma ClashIsSymmetric(schema: Schema, r: Row, q: Row)
    ensures Clash(schema, r, q) <==> Clash(schema, q, r)
  {
    assert OwnEntries(schema, r) * OwnEntries(schema, q) == OwnEntries(schema, q) * OwnEntries(schema, r);
    assert LeftEntries(schema, r) * LeftEntries(schema, q) == LeftEntries(schema, q) * LeftEntries(schema, r);
  }

  lemma RewritingKeepsUnique(schema: Schema, db: Database, targets: set<Uuid>, rows: map<Uuid, Row>)
    requires Unique(schema, db) && targets <= rows.Keys && !Collides(schema, Rewritten(db, targets, rows), targets)
    ensures Unique(schema, Rewritten(db, targets, rows))
  {
    var db' := Rewritten(db, targets, rows);
    forall i, j | i in db' && j in db' && i != j ensures !Clash(schema, db'[i], db'[j]) {
      ClashIsSymmetric(schema, db'[i], db'[j]);
      if i !in targets && j !in targets {
        assert !Clash(schema, db[i], db[j]);
      }
    }
  }

  /** Whatever statement runs, the rebuilt indexes and the ones left alone stand. */
  lemma StepKeepsUnique(schema: Schema, db: Database, user: Option<UserId>, s: Statement)
    requires Unique(schema, db)
    ensures Unique(schema, Execute(schema, db, user, s).0)
  {
    var visible := Visible(db, user);
    match s
    case Select(_) =>
    case Insert(id, values) => InsertKeepsUnique(schema, db, user, id, WithDefault(values(visible), user));
    case Update(where, assign) =>
      var targets := Targets(db, where, user);
      UpdateKeepsUnique(schema, db, user, targets, map id | id in targets :: assign(visible, id));
    case Delete(where) => DeleteKeepsUnique(schema, db, Targets(db, where, user));
  }

  lemma DeleteKeepsUnique(schema: Schema, db: Database, targets: set<Uuid>)
    requires Unique(schema, db) && targets <= db.Keys
    ensures Unique(schema, RunDelete(schema, db, targets).0)
  {
    var gone, db' := Below(schema, db, targets), RunDelete(schema, db, targets).0;
    forall i, j | i in db' && j in db' && i != j ensures !Clash(schema, db'[i], db'[j]) {
      assert !Clash(schema, db[i], db[j]);
      if !IsHeld(schema, db, gone) {
        LoosenedRowsClashLess(schema, db[i], db[j], gone);
      }
    }
  }

  /** A nulled key takes a row out of indexes and puts it into none. */
  lemma LoosenedRowsClashLess(schema: Schema, r: Row, q: Row, gone: set<Uuid>)
    requires !Clash(schema, r, q)
    ensures !Clash(schema, Loosened(schema, r, gone), Loosened(schema, q, gone))
  {
    FewerEntries(schema, schema.own(r.table), r, gone);
    FewerEntries(schema, schema.own(q.table), q, gone);
    FewerEntries(schema, (set ix | ix in schema.left(r.table) && ix.columns != {}), r, gone);
    FewerEntries(schema, (set ix | ix in schema.left(q.table) && ix.columns != {}), q, gone);
  }

  lemma FewerEntries(schema: Schema, indexes: set<Index>, r: Row, gone: set<Uuid>)
    ensures Entries(schema, indexes, Loosened(schema, r, gone)) <= Entries(schema, indexes, r)
  {
    var r' := Loosened(schema, r, gone);
    forall e | e in Entries(schema, indexes, r') ensures e in Entries(schema, indexes, r) {
      var ix :| ix in indexes && ix.columns <= r'.refs.Keys && schema.tail(ix, r'.cells).Some?
                && e == Entry(ix, map c | c in ix.columns :: r'.refs[c], schema.tail(ix, r'.cells).value);
      assert (map c | c in ix.columns :: r'.refs[c]) == (map c | c in ix.columns :: r.refs[c]);
    }
  }

  lemma UpdateKeepsUnique(schema: Schema, db: Database, user: Option<UserId>, targets: set<Uuid>, drafts: map<Uuid,
        Draft>)
    requires Unique(schema, db) && drafts.Keys == targets
    ensures Unique(schema, RunUpdate(schema, db, user, targets, drafts).0)
  {
    if forall id :: id in targets ==> Checked(drafts[id], user) {
      var rows := StoredAll(drafts);
      if !Collides(schema, Rewritten(db, targets, rows), targets) {
        RewritingKeepsUnique(schema, db, targets, rows);
      }
    }
  }
}
