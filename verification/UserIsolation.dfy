/**
 Row-level security as migration 0032 sets it up: a policy and an owner default on every scoped
 table, and uniques that lead with the owner. Statements run as the user that `scoping.py` put in
 `app.current_user_id`, or as nobody.
 */
module UserIsolation {
  import opened Options

  type UserId = string
  type Uuid = string
  type Cells = map<string, string>

  type Column = string

  /** A row of a scoped table, under its primary key. `refs` holds its foreign keys that are not NULL. */
  datatype Row = Row(table: string, owner: UserId, refs: map<Column, Uuid>, cells: Cells)

  type Database = map<Uuid, Row>

  /** What a foreign key does when the row it names is deleted. */
  datatype OnDelete = Cascade | SetNull | NoAction

  /** A unique index: the foreign keys among its columns; `tail` of the schema stands for the others. */
  datatype Index = Index(name: string, columns: set<Column>)

  /**
   The unique indexes of each table. `own` lists the rebuilt ones, without the leading user_id; `left` the
   ones left alone, each keyed through some foreign key. `tail` is an entry's other columns; a partial
   index that does not cover a row, or a NULL, leaves no entry.
   */
  datatype Schema = Schema(
    own: string -> set<Index>,
    left: string -> set<Index>,
    tail: (Index, Cells) -> Option<string>,
    onDelete: (string, Column) -> OnDelete)

  datatype Entry = Entry(index: Index, keys: map<Column, Uuid>, tail: string)

  function Entries(schema: Schema, indexes: set<Index>, r: Row): set<Entry> {
    set ix | ix in indexes && ix.columns <= r.refs.Keys && schema.tail(ix, r.cells).Some? ::
      Entry(ix, map c | c in ix.columns :: r.refs[c], schema.tail(ix, r.cells).value)
  }

  function OwnEntries(schema: Schema, r: Row): set<Entry> {
    Entries(schema, schema.own(r.table), r)
  }

  function LeftEntries(schema: Schema, r: Row): set<Entry> {
    Entries(schema, (set ix | ix in schema.left(r.table) && ix.columns != {}), r)
  }

  /** A row as a statement supplies it. */
  datatype Draft = Draft(table: string, owner: Option<UserId>, refs: map<Column, Uuid>, cells: Cells)

  /**
   Statements. Conditions and values may depend on everything the policies let the statement see,
   subqueries included.
   */
  datatype Statement =
    | Select(where: (Database, Uuid) -> bool)
    | Insert(id: Uuid, values: Database -> Draft)
    | Update(where: (Database, Uuid) -> bool, assign: (Database, Uuid) -> Draft)
    | Delete(where: (Database, Uuid) -> bool)

  datatype Outcome =
    | Found(rows: Database)
    | Changed(count: nat)
    | NotYours
    | Duplicate
    | NoParent
    | StillReferenced

  /** USING: the rows the current user owns; none when no user is set. */
  function Visible(db: Database, user: Option<UserId>): Database {
    map id | id in db && Some(db[id].owner) == user :: db[id]
  }

  /** Two rows that some unique index does not let stand together. */
  predicate Clash(schema: Schema, r: Row, q: Row) {
    || (r.owner == q.owner && OwnEntries(schema, r) * OwnEntries(schema, q) != {})
    || LeftEntries(schema, r) * LeftEntries(schema, q) != {}
  }

  predicate Taken(schema: Schema, db: Database, row: Row) {
    exists other :: other in db && Clash(schema, row, db[other])
  }

  /** The owner default, `memos_current_user_id()`. */
  function WithDefault(d: Draft, user: Option<UserId>): Draft {
    if d.owner.None? then d.(owner := user) else d
  }

  /** WITH CHECK, which a NULL owner fails as well. */
  predicate Checked(d: Draft, user: Option<UserId>) {
    d.owner.Some? && d.owner == user
  }

  function Stored(d: Draft): Row
    requires d.owner.Some?
  {
    Row(d.table, d.owner.value, d.refs, d.cells)
  }

  /** A foreign key of the row names no row. */
  predicate Dangles(db: Database, r: Row) {
    exists c :: c in r.refs && r.refs[c] !in db
  }

  function RunInsert(schema: Schema, db: Database, user: Option<UserId>, id: Uuid, d: Draft): (Database, Outcome) {
    if !Checked(d, user) then (db, NotYours)
    else if id in db || Taken(schema, db, Stored(d)) then (db, Duplicate)
    else if Dangles(db[id := Stored(d)], Stored(d)) then (db, NoParent)
    else (db[id := Stored(d)], Changed(1))
  }

  function Targets(db: Database, where: (Database, Uuid) -> bool, user: Option<UserId>): set<Uuid> {
    set id | id in Visible(db, user) && where(Visible(db, user), id)
  }

  function Rewritten(db: Database, targets: set<Uuid>, rows: map<Uuid, Row>): Database
    requires targets <= rows.Keys
  {
    map id | id in db :: if id in targets then rows[id] else db[id]
  }

  predicate Collides(schema: Schema, db: Database, targets: set<Uuid>) {
    exists i, j :: i in targets && i in db && j in db && i != j && Clash(schema, db[i], db[j])
  }

  predicate Orphans(db: Database, targets: set<Uuid>) {
    exists i :: i in targets && i in db && Dangles(db, db[i])
  }

  function StoredAll(drafts: map<Uuid, Draft>): map<Uuid, Row>
    requires forall id :: id in drafts ==> drafts[id].owner.Some?
  {
    map id | id in drafts :: Stored(drafts[id])
  }

  function RunUpdate(schema: Schema, db: Database, user: Option<UserId>, targets: set<Uuid>, drafts: map<Uuid,
        Draft>): (Database, Outcome)
    requires drafts.Keys == targets
  {
    if exists id :: id in targets && !Checked(drafts[id], user) then (db, NotYours)
    else
      var after := Rewritten(db, targets, StoredAll(drafts));
      if Collides(schema, after, targets) then (db, Duplicate)
      else if Orphans(after, targets) then (db, NoParent)
      else (after, Changed(|targets|))
  }

  /** The row names one of `gone` through a foreign key that does `how` when that is deleted. */
  predicate HangsBy(schema: Schema, r: Row, gone: set<Uuid>, how: OnDelete) {
    exists c :: c in r.refs && r.refs[c] in gone && schema.onDelete(r.table, c) == how
  }

  function Falling(schema: Schema, db: Database, gone: set<Uuid>): set<Uuid> {
    set id | id in db && id !in gone && HangsBy(schema, db[id], gone, Cascade)
  }

  /** What a deletion takes along: cascades run whatever the policies say. */
  function Below(schema: Schema, db: Database, gone: set<Uuid>): (all: set<Uuid>)
    requires gone <= db.Keys
    ensures gone <= all <= db.Keys
    decreases |db.Keys - gone|
  {
    var more := Falling(schema, db, gone);
    if more == {} then gone
    else
      SomeFall(db, gone, more);
      Below(schema, db, gone + more)
  }

  lemma SomeFall(db: Database, gone: set<Uuid>, more: set<Uuid>)
    requires more != {} && more <= db.Keys - gone
    ensures |db.Keys - (gone + more)| < |db.Keys - gone|
  {
    assert db.Keys - (gone + more) == (db.Keys - gone) - more;
    assert |db.Keys - gone| == |(db.Keys - gone) - more| + |more| by {
      assert db.Keys - gone == ((db.Keys - gone) - more) + more;
    }
  }

  /** A remaining row without the keys that were to be nulled. */
  function Loosened(schema: Schema, r: Row, gone: set<Uuid>): Row {
    r.(refs := map c | c in r.refs && !(r.refs[c] in gone && schema.onDelete(r.table, c) == SetNull) :: r.refs[c])
  }

  predicate IsHeld(schema: Schema, db: Database, gone: set<Uuid>) {
    exists id :: id in db && id !in gone && HangsBy(schema, db[id], gone, NoAction)
  }

  function RunDelete(schema: Schema, db: Database, targets: set<Uuid>): (Database, Outcome)
    requires targets <= db.Keys
  {
    var gone := Below(schema, db, targets);
    if IsHeld(schema, db, gone) then (db, StillReferenced)
    else (map id | id in db && id !in gone :: Loosened(schema, db[id], gone), Changed(|targets|))
  }

  /** A policy filters what a statement reads and checks what it writes; indexes see every row. */
  function Execute(schema: Schema, db: Database, user: Option<UserId>, s: Statement): (Database, Outcome) {
    var visible := Visible(db, user);
    match s
    case Select(where) => (db, Found(map id | id in visible && where(visible, id) :: visible[id]))
    case Insert(id, values) => RunInsert(schema, db, user, id, WithDefault(values(visible), user))
    case Update(where, assign) =>
      var targets := Targets(db, where, user);
      RunUpdate(schema, db, user, targets, map id | id in targets :: assign(visible, id))
    case Delete(where) => RunDelete(schema, db, Targets(db, where, user))
  }

  // ---------------------------------------------------------------------------------------
  // Whose rows are whose
  // ---------------------------------------------------------------------------------------

  /** Ids are drawn apart: each belongs to the user whose statement drew it. */
  type Minter = Uuid -> UserId

  predicate RowIsSound(minter: Minter, id: Uuid, row: Row) {
    minter(id) == row.owner && forall c :: c in row.refs ==> minter(row.refs[c]) == row.owner
  }

  /** Every row, and every row it names, was minted by its owner. */
  ghost predicate Sound(minter: Minter, db: Database) {
    forall id :: id in db ==> RowIsSound(minter, id, db[id])
  }

  /** A statement that writes under its own ids, and only below rows of its own user. Nobody writes anything. */
  predicate IsHonest(minter: Minter, db: Database, user: Option<UserId>, s: Statement) {
    match s
    case Insert(id, values) =>
      var d := values(Visible(db, user));
      user.Some? ==> user == Some(minter(id)) && forall c :: c in d.refs ==> user == Some(minter(d.refs[c]))
    case Update(where, assign) =>
      forall id :: id in Targets(db, where, user) ==>
        var d := assign(Visible(db, user), id);
        forall c :: c in d.refs ==> user == Some(minter(d.refs[c]))
    case _ => true
  }

  /** What a statement does, seen by one user: its rows before, its rows after. */
  ghost predicate Local(schema: Schema, db: Database, user: UserId, s: Statement) {
    var mine := Visible(db, Some(user));
    && Execute(schema, db, Some(user), s).1 == Execute(schema, mine, Some(user), s).1
    && Visible(Execute(schema, db, Some(user), s).0, Some(user)) == Execute(schema, mine, Some(user), s).0
  }

  lemma VisibleTwice(db: Database, user: Option<UserId>)
    ensures Visible(Visible(db, user), user) == Visible(db, user)
  {
  }

  lemma ReadIsLocal(schema: Schema, db: Database, user: UserId, s: Statement)
    requires s.Select?
    ensures Local(schema, db, user, s)
  {
    VisibleTwice(db, Some(user));
  }

  /** Rows that share an entry of an index left alone name a row in common. */
  lemma LeftEntryNamesARow(schema: Schema, r: Row, q: Row) returns (c: Column)
    requires LeftEntries(schema, r) * LeftEntries(schema, q) != {}
    ensures c in r.refs && c in q.refs && r.refs[c] == q.refs[c]
  {
    var e :| e in LeftEntries(schema, r) * LeftEntries(schema, q);
    assert e.index.columns != {};
    c :| c in e.index.columns;
    assert e.keys[c] == r.refs[c] && e.keys[c] == q.refs[c];
  }

  lemma ClashingShareOwner(schema: Schema, minter: Minter, r: Row, q: Row)
    requires Clash(schema, r, q)
    requires forall c :: c in r.refs ==> minter(r.refs[c]) == r.owner
    requires forall c :: c in q.refs ==> minter(q.refs[c]) == q.owner
    ensures r.owner == q.owner
  {
    if LeftEntries(schema, r) * LeftEntries(schema, q) != {} {
      var c := LeftEntryNamesARow(schema, r, q);
    }
  }

  lemma InsertIsLocal(schema: Schema, minter: Minter, db: Database, user: UserId, s: Statement)
    requires Sound(minter, db) && s.Insert? && IsHonest(minter, db, Some(user), s)
    ensures Local(schema, db, user, s)
  {
    var mine := Visible(db, Some(user));
    VisibleTwice(db, Some(user));
    var d := WithDefault(s.values(mine), Some(user));
    if Checked(d, Some(user)) {
      var row := Stored(d);
      forall j | j in db && Clash(schema, row, db[j]) ensures j in mine {
        assert RowIsSound(minter, j, db[j]);
        ClashingShareOwner(schema, minter, row, db[j]);
      }
      TakenIsLocal(schema, db, mine, row);
      assert s.id in db <==> s.id in mine by {
        assert s.id in db ==> RowIsSound(minter, s.id, db[s.id]);
      }
      DanglesIsLocal(minter, db[s.id := row], mine[s.id := row], row, user);
    }
  }

  lemma TakenIsLocal(schema: Schema, db: Database, mine: Database, row: Row)
    requires forall j :: j in mine ==> j in db && db[j] == mine[j]
    requires forall j :: j in db && Clash(schema, row, db[j]) ==> j in mine
    ensures Taken(schema, db, row) <==> Taken(schema, mine, row)
  {
    if Taken(schema, db, row) {
      var j :| j in db && Clash(schema, row, db[j]);
      assert j in mine && Clash(schema, row, mine[j]);
    }
    if Taken(schema, mine, row) {
      var j :| j in mine && Clash(schema, row, mine[j]);
      assert j in db && Clash(schema, row, db[j]);
    }
  }

  lemma DanglesIsLocal(minter: Minter, db: Database, mine: Database, row: Row, user: UserId)
    requires forall i :: i in db && minter(i) == user ==> i in mine
    requires forall i :: i in mine ==> i in db
    requires forall c :: c in row.refs ==> minter(row.refs[c]) == user
    ensures Dangles(db, row) <==> Dangles(mine, row)
  {
  }

  /** An accepted update writes rows of the user's own, below rows of the user's own. */
  ghost predicate Writes(minter: Minter, db: Database, user: UserId, targets: set<Uuid>, rows: map<Uuid, Row>) {
    && rows.Keys == targets
    && forall i :: i in targets ==>
         i in db && db[i].owner == user && rows[i].owner == user && RowIsSound(minter, i, rows[i])
  }

  lemma RewrittenIsLocal(minter: Minter, db: Database, user: UserId, targets: set<Uuid>, rows: map<Uuid, Row>)
    requires Sound(minter, db) && Writes(minter, db, user, targets, rows)
    ensures Visible(Rewritten(db, targets, rows), Some(user)) == Rewritten(Visible(db, Some(user)), targets, rows)
    ensures Sound(minter, Rewritten(db, targets, rows))
  {
    var after := Rewritten(db, targets, rows);
    forall id | id in after ensures RowIsSound(minter, id, after[id]) {
      assert id in targets || RowIsSound(minter, id, db[id]);
    }
  }

  lemma CollisionsAreLocal(schema: Schema, minter: Minter, after: Database, user: UserId, targets: set<Uuid>)
    requires Sound(minter, after) && forall i :: i in targets && i in after ==> after[i].owner == user
    ensures Collides(schema, after, targets) <==> Collides(schema, Visible(after, Some(user)), targets)
    ensures Orphans(after, targets) <==> Orphans(Visible(after, Some(user)), targets)
  {
    var mine := Visible(after, Some(user));
    if Collides(schema, after, targets) {
      var i, j :| i in targets && i in after && j in after && i != j && Clash(schema, after[i], after[j]);
      assert RowIsSound(minter, i, after[i]) && RowIsSound(minter, j, after[j]);
      ClashingShareOwner(schema, minter, after[i], after[j]);
      assert i in mine && j in mine && Clash(schema, mine[i], mine[j]);
    }
    forall i | i in targets && i in after ensures Dangles(after, after[i]) <==> Dangles(mine, after[i]) {
      assert RowIsSound(minter, i, after[i]);
      forall k | k in after && minter(k) == user ensures k in mine {
        assert RowIsSound(minter, k, after[k]);
      }
      DanglesIsLocal(minter, after, mine, after[i], user);
    }
  }

  /** Drafts for rows of the user's own, below rows of the user's own. */
  predicate DraftsAreHonest(minter: Minter, db: Database, user: UserId, drafts: map<Uuid, Draft>) {
    forall id :: id in drafts ==>
      && id in db && db[id].owner == user
      && forall c :: c in drafts[id].refs ==> minter(drafts[id].refs[c]) == user
  }

  lemma DraftsAreSound(minter: Minter, db: Database, user: UserId, drafts: map<Uuid, Draft>, rows: map<Uuid, Row>)
    requires Sound(minter, db) && DraftsAreHonest(minter, db, user, drafts)
    requires forall id :: id in drafts ==> Checked(drafts[id], Some(user))
    requires rows.Keys == drafts.Keys
    requires forall id :: id in drafts ==> drafts[id].owner.Some? && rows[id] == Stored(drafts[id])
    ensures Writes(minter, db, user, drafts.Keys, rows)
  {
    forall i | i in drafts ensures RowIsSound(minter, i, rows[i]) {
      assert RowIsSound(minter, i, db[i]);
    }
  }

  lemma {:induction false} RunUpdateIsLocal(schema: Schema, minter: Minter, db: Database, user: UserId,
        drafts: map<Uuid, Draft>)
    requires Sound(minter, db) && DraftsAreHonest(minter, db, user, drafts)
    ensures var all := RunUpdate(schema, db, Some(user), drafts.Keys, drafts);
            var mine := RunUpdate(schema, Visible(db, Some(user)), Some(user), drafts.Keys, drafts);
            all.1 == mine.1 && Visible(all.0, Some(user)) == mine.0
  {
    if forall id :: id in drafts ==> Checked(drafts[id], Some(user)) {
      var rows := StoredAll(drafts);
      DraftsAreSound(minter, db, user, drafts, rows);
      WritesAreLocal(schema, minter, db, user, drafts.Keys, rows);
      CheckedUpdates(schema, db, Some(user), drafts);
      CheckedUpdates(schema, Visible(db, Some(user)), Some(user), drafts);
      VisibleTwice(db, Some(user));
    } else {
      VisibleTwice(db, Some(user));
    }
  }

  lemma CheckedUpdates(schema: Schema, db: Database, user: Option<UserId>, drafts: map<Uuid, Draft>)
    requires forall id :: id in drafts ==> Checked(drafts[id], user)
    ensures forall id :: id in drafts ==> drafts[id].owner.Some?
    ensures var after := Rewritten(db, drafts.Keys, StoredAll(drafts));
            RunUpdate(schema, db, user, drafts.Keys, drafts)
            == if Collides(schema, after, drafts.Keys) then (db, Duplicate)
               else if Orphans(after, drafts.Keys) then (db, NoParent)
               else (after, Changed(|drafts.Keys|))
  {
    assert forall id :: id in drafts ==> drafts[id].owner.Some?;
  }

  lemma WritesAreLocal(schema: Schema, minter: Minter, db: Database, user: UserId, targets: set<Uuid>, rows: map<Uuid,
        Row>)
    requires Sound(minter, db) && Writes(minter, db, user, targets, rows)
    ensures Visible(Rewritten(db, targets, rows), Some(user)) == Rewritten(Visible(db, Some(user)), targets, rows)
    ensures Collides(schema, Rewritten(db, targets, rows), targets)
       <==> Collides(schema, Rewritten(Visible(db, Some(user)), targets, rows), targets)
    ensures Orphans(Rewritten(db, targets, rows), targets)
       <==> Orphans(Rewritten(Visible(db, Some(user)), targets, rows), targets)
  {
    RewrittenIsLocal(minter, db, user, targets, rows);
    CollisionsAreLocal(schema, minter, Rewritten(db, targets, rows), user, targets);
  }

  lemma UpdateIsLocal(schema: Schema, minter: Minter, db: Database, user: UserId, s: Statement)
    requires Sound(minter, db) && s.Update? && IsHonest(minter, db, Some(user), s)
    ensures Local(schema, db, user, s)
  {
    var mine := Visible(db, Some(user));
    VisibleTwice(db, Some(user));
    var targets := Targets(db, s.where, Some(user));
    var drafts := map id | id in targets :: s.assign(mine, id);
    assert drafts.Keys == targets && Targets(mine, s.where, Some(user)) == targets;
    RunUpdateIsLocal(schema, minter, db, user, drafts);
  }

  lemma RewritingLeavesOthers(db: Database, targets: set<Uuid>, rows: map<Uuid, Row>, other: UserId)
    requires rows.Keys == targets
    requires forall id :: id in targets ==> id in db && db[id].owner != other && rows[id].owner != other
    ensures Visible(Rewritten(db, targets, rows), Some(other)) == Visible(db, Some(other))
  {
  }

  lemma UpdateLeavesOthers(schema: Schema, db: Database, user: Option<UserId>, targets: set<Uuid>, drafts: map<Uuid,
        Draft>, other: UserId)
    requires user != Some(other) && drafts.Keys == targets
    requires forall id :: id in targets ==> id in db && Some(db[id].owner) == user
    ensures Visible(RunUpdate(schema, db, user, targets, drafts).0, Some(other)) == Visible(db, Some(other))
  {
    if forall id :: id in targets ==> Checked(drafts[id], user) {
      RewritingLeavesOthers(db, targets, StoredAll(drafts), other);
    }
  }

  /**
   The policies alone: no read, insert or update, honest or not, changes a row of another user. A delete
   may, through the foreign keys.
   */
  lemma OthersRowsAreUntouched(schema: Schema, db: Database, user: Option<UserId>, s: Statement, other: UserId)
    requires user != Some(other)
    ensures s.Delete? || Visible(Execute(schema, db, user, s).0, Some(other)) == Visible(db, Some(other))
  {
    if s.Update? {
      var targets := Targets(db, s.where, user);
      UpdateLeavesOthers(schema, db, user, targets, map id | id in targets :: s.assign(Visible(db, user), id), other);
    }
  }

  // ---------------------------------------------------------------------------------------
  // Deletion among rows of one's own
  // ---------------------------------------------------------------------------------------

  /** Below rows of one user there are only rows of that user, if every row names rows of its owner. */
  lemma {:induction false} BelowIsLocal(schema: Schema, minter: Minter, db: Database, user: UserId, gone: set<Uuid>)
    requires Sound(minter, db) && gone <= Visible(db, Some(user)).Keys
    ensures Below(schema, db, gone) == Below(schema, Visible(db, Some(user)), gone)
    decreases |db.Keys - gone|
  {
    var mine := Visible(db, Some(user));
    HangingIsMine(schema, minter, db, user, gone);
    assert Falling(schema, db, gone) == Falling(schema, mine, gone);
    var more := Falling(schema, db, gone);
    if more != {} {
      SomeFall(db, gone, more);
      BelowIsLocal(schema, minter, db, user, gone + more);
    }
  }

  lemma HangingIsMine(schema: Schema, minter: Minter, db: Database, user: UserId, gone: set<Uuid>)
    requires Sound(minter, db) && gone <= Visible(db, Some(user)).Keys
    ensures forall id, c :: id in db && c in db[id].refs && db[id].refs[c] in gone ==> db[id].owner == user
  {
    forall id, c | id in db && c in db[id].refs && db[id].refs[c] in gone ensures db[id].owner == user {
      var p := db[id].refs[c];
      assert RowIsSound(minter, id, db[id]) && RowIsSound(minter, p, db[p]);
    }
  }

  lemma LoosenedAlone(schema: Schema, r: Row, gone: set<Uuid>)
    requires forall c :: c in r.refs ==> r.refs[c] !in gone
    ensures Loosened(schema, r, gone) == r
  {
    assert Loosened(schema, r, gone).refs == r.refs;
  }

  lemma DeleteIsLocal(schema: Schema, minter: Minter, db: Database, user: UserId, s: Statement)
    requires Sound(minter, db) && s.Delete?
    ensures Local(schema, db, user, s)
    ensures forall other :: other != user ==>
              Visible(Execute(schema, db, Some(user), s).0, Some(other)) == Visible(db, Some(other))
  {
    var mine, targets := Visible(db, Some(user)), Targets(db, s.where, Some(user));
    VisibleTwice(db, Some(user));
    assert Targets(mine, s.where, Some(user)) == targets;
    BelowIsLocal(schema, minter, db, user, targets);
    var gone := Below(schema, db, targets);
    HangingIsMine(schema, minter, db, user, gone);
    assert IsHeld(schema, db, gone) <==> IsHeld(schema, mine, gone) by {
      forall id | id in db && HangsBy(schema, db[id], gone, NoAction) ensures id in mine {
      }
    }
    var db' := RunDelete(schema, db, targets).0;
    assert Visible(db', Some(user)) == RunDelete(schema, mine, targets).0;
    forall other | other != user ensures Visible(db', Some(other)) == Visible(db, Some(other)) {
      OthersAreKept(schema, db, gone, db', other);
    }
  }

  lemma OthersAreKept(schema: Schema, db: Database, gone: set<Uuid>, db': Database, other: UserId)
    requires db' == db || db' == map id | id in db && id !in gone :: Loosened(schema, db[id], gone)
    requires forall id :: id in db && db[id].owner == other ==> id !in gone
    requires forall id, c :: id in db && db[id].owner == other && c in db[id].refs ==> db[id].refs[c] !in gone
    ensures Visible(db', Some(other)) == Visible(db, Some(other))
  {
    forall id | id in db && db[id].owner == other ensures id in db' && db'[id] == db[id] {
      LoosenedAlone(schema, db[id], gone);
    }
  }

  /** With no user set, reads are empty, inserts are refused and nothing changes. */
  lemma NobodyHasNothing(schema: Schema, db: Database, s: Statement)
    ensures Execute(schema, db, None, s).0 == db
    ensures Execute(schema, db, None, s).1 ==
              match s
              case Select(_) => Found(map[])
              case Insert(_, _) => NotYours
              case _ => Changed(0)
  {
    assert Visible(db, None) == map[];
    if s.Update? || s.Delete? {
      assert Targets(db, s.where, None) == {};
    }
    if s.Update? {
      var after := Rewritten(db, {}, map[]);
      assert after == db;
    }
    if s.Delete? {
      DeletingNothing(schema, db);
    }
  }

  lemma DeletingNothing(schema: Schema, db: Database)
    ensures RunDelete(schema, db, {}) == (db, Changed(0))
  {
    var gone: set<Uuid> := {};
    assert Falling(schema, db, gone) == {};
    forall id | id in db ensures Loosened(schema, db[id], gone) == db[id] {
      LoosenedAlone(schema, db[id], gone);
    }
    assert (map id | id in db && id !in gone :: Loosened(schema, db[id], gone)) == db;
  }

  /** Whoever runs a statement, the rows of the others stay as they are, if rows hang below their owner's. */
  lemma OthersAreSafe(schema: Schema, minter: Minter, db: Database, user: Option<UserId>, s: Statement, other: UserId)
    requires Sound(minter, db) && user != Some(other)
    ensures Visible(Execute(schema, db, user, s).0, Some(other)) == Visible(db, Some(other))
  {
    OthersRowsAreUntouched(schema, db, user, s, other);
    if user.None? {
      NobodyHasNothing(schema, db, s);
    } else if s.Delete? {
      DeleteIsLocal(schema, minter, db, user.value, s);
    }
  }

  /** Honest statements keep every row below rows of its owner. */
  lemma StepKeepsSound(schema: Schema, minter: Minter, db: Database, user: Option<UserId>, s: Statement)
    requires Sound(minter, db) && IsHonest(minter, db, user, s)
    ensures Sound(minter, Execute(schema, db, user, s).0)
  {
    if user.None? {
      NobodyHasNothing(schema, db, s);
    } else if s.Insert? {
      var d := WithDefault(s.values(Visible(db, user)), user);
      InsertKeepsSound(schema, minter, db, user.value, s.id, d);
    } else if s.Update? {
      HonestUpdateKeepsSound(schema, minter, db, user.value, s);
    } else if s.Delete? {
      DeleteKeepsSound(schema, minter, db, Targets(db, s.where, user));
    }
  }

  lemma HonestUpdateKeepsSound(schema: Schema, minter: Minter, db: Database, user: UserId, s: Statement)
    requires Sound(minter, db) && s.Update? && IsHonest(minter, db, Some(user), s)
    ensures Sound(minter, Execute(schema, db, Some(user), s).0)
  {
    var visible, targets := Visible(db, Some(user)), Targets(db, s.where, Some(user));
    var drafts := map id | id in targets :: s.assign(visible, id);
    assert drafts.Keys == targets;
    UpdateKeepsSound(schema, minter, db, user, drafts);
  }

  lemma InsertKeepsSound(schema: Schema, minter: Minter, db: Database, user: UserId, id: Uuid, d: Draft)
    requires Sound(minter, db) && minter(id) == user && forall c :: c in d.refs ==> minter(d.refs[c]) == user
    ensures Sound(minter, RunInsert(schema, db, Some(user), id, d).0)
  {
    var db' := RunInsert(schema, db, Some(user), id, d).0;
    forall j | j in db' ensures RowIsSound(minter, j, db'[j]) {
      assert j in db ==> RowIsSound(minter, j, db[j]);
    }
  }

  lemma UpdateKeepsSound(schema: Schema, minter: Minter, db: Database, user: UserId, drafts: map<Uuid, Draft>)
    requires Sound(minter, db) && DraftsAreHonest(minter, db, user, drafts)
    ensures Sound(minter, RunUpdate(schema, db, Some(user), drafts.Keys, drafts).0)
  {
    if forall id :: id in drafts ==> Checked(drafts[id], Some(user)) {
      DraftsAreSound(minter, db, user, drafts, StoredAll(drafts));
      RewrittenIsLocal(minter, db, user, drafts.Keys, StoredAll(drafts));
    }
  }

  lemma DeleteKeepsSound(schema: Schema, minter: Minter, db: Database, targets: set<Uuid>)
    requires Sound(minter, db) && targets <= db.Keys
    ensures Sound(minter, RunDelete(schema, db, targets).0)
  {
    var db' := RunDelete(schema, db, targets).0;
    forall id | id in db' ensures RowIsSound(minter, id, db'[id]) {
      assert RowIsSound(minter, id, db[id]);
    }
  }

  lemma HonestyIsLocal(minter: Minter, db: Database, db': Database, user: Option<UserId>, s: Statement)
    requires Visible(db, user) == Visible(db', user)
    ensures IsHonest(minter, db, user, s) <==> IsHonest(minter, db', user, s)
  {
    if s.Update? {
      assert Targets(db, s.where, user) == Targets(db', s.where, user);
    }
  }

  lemma StepIsLocal(schema: Schema, minter: Minter, db: Database, user: UserId, s: Statement)
    requires Sound(minter, db) && IsHonest(minter, db, Some(user), s)
    ensures Local(schema, db, user, s)
  {
    match s
    case Insert(_, _) => InsertIsLocal(schema, minter, db, user, s);
    case Update(_, _) => UpdateIsLocal(schema, minter, db, user, s);
    case Delete(_) => DeleteIsLocal(schema, minter, db, user, s);
    case Select(_) => ReadIsLocal(schema, db, user, s);
  }

  // ---------------------------------------------------------------------------------------
  // Non-interference
  // ---------------------------------------------------------------------------------------

  datatype Event = Event(user: Option<UserId>, statement: Statement)

  /** Everybody's statements, one after another: the database at the end and what one user was told. */
  function Play(schema: Schema, db: Database, events: seq<Event>, user: UserId): (Database, seq<Outcome>)
    decreases |events|
  {
    if events == [] then (db, [])
    else
      var step := Execute(schema, db, events[0].user, events[0].statement);
      var rest := Play(schema, step.0, events[1..], user);
      (rest.0, if events[0].user == Some(user) then [step.1] + rest.1 else rest.1)
  }

  function Only(events: seq<Event>, user: UserId): (own: seq<Event>)
    ensures forall e :: e in own <==> e in events && e.user == Some(user)
  {
    if events == [] then []
    else if events[0].user == Some(user) then [events[0]] + Only(events[1..], user)
    else Only(events[1..], user)
  }

  predicate HonestRun(schema: Schema, minter: Minter, db: Database, events: seq<Event>)
    decreases |events|
  {
    events == [] ||
    (IsHonest(minter, db, events[0].user, events[0].statement)
     && HonestRun(schema, minter, Execute(schema, db, events[0].user, events[0].statement).0, events[1..]))
  }

  lemma SameStep(schema: Schema, minter: Minter, db: Database, db': Database, user: UserId, s: Statement)
    requires Sound(minter, db) && Sound(minter, db') && Visible(db, Some(user)) == Visible(db', Some(user))
    requires IsHonest(minter, db, Some(user), s)
    ensures IsHonest(minter, db', Some(user), s)
    ensures Execute(schema, db, Some(user), s).1 == Execute(schema, db', Some(user), s).1
    ensures Visible(Execute(schema, db, Some(user), s).0, Some(user))
         == Visible(Execute(schema, db', Some(user), s).0, Some(user))
  {
    HonestyIsLocal(minter, db, db', Some(user), s);
    StepIsLocal(schema, minter, db, user, s);
    StepIsLocal(schema, minter, db', user, s);
  }

  /**
   Non-interference. What a user is told, refusals by unique indexes included, and the rows the user
   ends with are those of a run without anybody else's statements, started from any database with
   the same rows for that user.
   */
  lemma {:induction false} NonInterference(schema: Schema, minter: Minter, db: Database, db': Database,
        events: seq<Event>, user: UserId)
    requires Sound(minter, db) && Sound(minter, db') && Visible(db, Some(user)) == Visible(db', Some(user))
    requires HonestRun(schema, minter, db, events)
    ensures Play(schema, db, events, user).1 == Play(schema, db', Only(events, user), user).1
    ensures Visible(Play(schema, db, events, user).0, Some(user))
         == Visible(Play(schema, db', Only(events, user), user).0, Some(user))
    decreases |events|
  {
    if events != [] {
      var e := events[0];
      var next := Execute(schema, db, e.user, e.statement).0;
      StepKeepsSound(schema, minter, db, e.user, e.statement);
      if e.user == Some(user) {
        SameStep(schema, minter, db, db', user, e.statement);
        StepKeepsSound(schema, minter, db', e.user, e.statement);
        var next' := Execute(schema, db', e.user, e.statement).0;
        NonInterference(schema, minter, next, next', events[1..], user);
        assert Only(events, user)[1..] == Only(events[1..], user);
      } else {
        OthersAreSafe(schema, minter, db, e.user, e.statement, user);
        NonInterference(schema, minter, next, db', events[1..], user);
      }
    }
  }

  // ---------------------------------------------------------------------------------------
  // Where it ends: a child under somebody else's row
  // ---------------------------------------------------------------------------------------

  /**
   Foreign keys and the indexes keyed through one see rows that no policy shows. After user `a`'s
   accepted insert of `q`, an insert by another user that was accepted before is refused exactly when
   the two rows share an entry of an index left alone, and so name one and the same row.
   */
  lemma HiddenChildBlocksIff(schema: Schema, db: Database, a: UserId, k: Uuid, q: Draft, b: UserId, id: Uuid, d: Draft)
    requires a != b && id != k
    requires RunInsert(schema, db, Some(a), k, q).1 == Changed(1)
    requires RunInsert(schema, db, Some(b), id, d).1 == Changed(1)
    ensures var after := RunInsert(schema, db, Some(a), k, q).0;
            && Visible(after, Some(b)) == Visible(db, Some(b))
            && RunInsert(schema, after, Some(b), id, d).1
               == if LeftEntries(schema, Stored(q)) * LeftEntries(schema, Stored(d)) != {} then Duplicate
                  else Changed(1)
  {
    AcceptedInsert(schema, db, Some(a), k, q);
    AcceptedInsert(schema, db, Some(b), id, d);
    var row, hidden := Stored(d), Stored(q);
    var after := db[k := hidden];
    InsertIsHidden(db, k, hidden, b);
    OtherOwnersClashIff(schema, row, hidden);
    TakenByOneMore(schema, db, k, hidden, row);
    DanglesInFewer(db[id := row], after[id := row], row);
  }

  lemma AcceptedInsert(schema: Schema, db: Database, user: Option<UserId>, id: Uuid, d: Draft)
    requires RunInsert(schema, db, user, id, d).1 == Changed(1)
    ensures Checked(d, user) && id !in db && !Taken(schema, db, Stored(d)) && !Dangles(db[id := Stored(d)], Stored(d))
    ensures RunInsert(schema, db, user, id, d).0 == db[id := Stored(d)]
  {
  }

  lemma InsertIsHidden(db: Database, k: Uuid, row: Row, other: UserId)
    requires k !in db && row.owner != other
    ensures Visible(db[k := row], Some(other)) == Visible(db, Some(other))
  {
  }

  lemma OtherOwnersClashIff(schema: Schema, r: Row, q: Row)
    requires r.owner != q.owner
    ensures Clash(schema, r, q) <==> LeftEntries(schema, q) * LeftEntries(schema, r) != {}
  {
    assert LeftEntries(schema, q) * LeftEntries(schema, r) == LeftEntries(schema, r) * LeftEntries(schema, q);
  }

  lemma TakenByOneMore(schema: Schema, db: Database, k: Uuid, hidden: Row, row: Row)
    requires k !in db && !Taken(schema, db, row)
    ensures Taken(schema, db[k := hidden], row) <==> Clash(schema, row, hidden)
  {
    if Clash(schema, row, hidden) {
      assert Clash(schema, row, db[k := hidden][k]);
    }
    var more := db[k := hidden];
    if j :| j in more && Clash(schema, row, more[j]) {
      assert j in db ==> !Clash(schema, row, db[j]);
    }
  }

  lemma DanglesInFewer(db: Database, more: Database, row: Row)
    requires db.Keys <= more.Keys && !Dangles(db, row)
    ensures !Dangles(more, row)
  {
  }

  const ORDINAL_INDEX := Index("uq_memory_chunks_memory_ordinal", {"memory_id"})

  /** Chunks below memories, as the schema has them. */
  function ChunkSchema(): Schema {
    Schema(table => {},
           table => if table == "memory_chunks" then {ORDINAL_INDEX} else {},
           (index, cells) => if "ordinal" in cells then Some(cells["ordinal"]) else None,
           (table, column) => Cascade)
  }

  const B_MEMORY: Database := map["b0" := Row("memories", "b", map[], map[])]

  function ChunkOf(owner: UserId): Draft {
    Draft("memory_chunks", Some(owner), map["memory_id" := "b0"], map["ordinal" := "0"])
  }

  /** The policies accept such a child: here it takes ordinal 0 under another user's memory. */
  lemma ForeignParentIsAccepted()
    ensures Visible(B_MEMORY, Some("a")) == map[]
    ensures RunInsert(ChunkSchema(), B_MEMORY, Some("a"), "a1", ChunkOf("a")).1 == Changed(1)
    ensures RunInsert(ChunkSchema(), B_MEMORY, Some("b"), "b1", ChunkOf("b")).1 == Changed(1)
    ensures RunInsert(ChunkSchema(), RunInsert(ChunkSchema(), B_MEMORY, Some("a"), "a1", ChunkOf("a")).0, Some("b"),
                      "b1", ChunkOf("b")).1 == Duplicate
  {
    ChunkIsAccepted("a", "a1");
    ChunkIsAccepted("b", "b1");
    SharesTheEntry();
    HiddenChildBlocksIff(ChunkSchema(), B_MEMORY, "a", "a1", ChunkOf("a"), "b", "b1", ChunkOf("b"));
  }

  lemma ChunkIsAccepted(owner: UserId, id: Uuid)
    requires id != "b0"
    ensures RunInsert(ChunkSchema(), B_MEMORY, Some(owner), id, ChunkOf(owner))
         == (B_MEMORY[id := Stored(ChunkOf(owner))], Changed(1))
  {
    var row := Stored(ChunkOf(owner));
    assert !Clash(ChunkSchema(), row, B_MEMORY["b0"]);
    assert !Taken(ChunkSchema(), B_MEMORY, row) && !Dangles(B_MEMORY[id := row], row);
  }

  lemma SharesTheEntry()
    ensures LeftEntries(ChunkSchema(), Stored(ChunkOf("a"))) * LeftEntries(ChunkSchema(), Stored(ChunkOf("b"))) != {}
  {
    HasTheEntry("a");
    HasTheEntry("b");
    assert Entry(ORDINAL_INDEX, map["memory_id" := "b0"], "0")
        in LeftEntries(ChunkSchema(), Stored(ChunkOf("a"))) * LeftEntries(ChunkSchema(), Stored(ChunkOf("b")));
  }

  lemma HasTheEntry(owner: UserId)
    ensures Entry(ORDINAL_INDEX, map["memory_id" := "b0"], "0") in LeftEntries(ChunkSchema(), Stored(ChunkOf(owner)))
  {
    var r := Stored(ChunkOf(owner));
    assert ORDINAL_INDEX in ChunkSchema().left(r.table) && "memory_id" in ORDINAL_INDEX.columns;
    assert (map c | c in ORDINAL_INDEX.columns :: r.refs[c]) == map["memory_id" := "b0"];
  }
}
