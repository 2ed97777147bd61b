/**
 What a statement under the policies does and answers, told by the rows themselves: which it reads, which
 it writes and with what, when it is refused, and that it leaves the others.
 */
module StatementEffects {
  import opened Options
  import opened UserIsolation
  import opened RowDeletion

  /** The user's own rows: all that its statements are shown. */
  function Shown(db: Database, user: Option<UserId>): Database {
    map id | id in db && user == Some(db[id].owner) :: db[id]
  }

  /** The user's own rows that meet the condition. */
  function Met(db: Database, user: Option<UserId>, where: (Database, Uuid) -> bool): set<Uuid> {
    set id | id in db && user == Some(db[id].owner) && where(Shown(db, user), id)
  }

  lemma MetAreTargets(db: Database, user: Option<UserId>, where: (Database, Uuid) -> bool)
    ensures Visible(db, user) == Shown(db, user) && Targets(db, where, user) == Met(db, user, where)
  {
    assert Visible(db, user) == Shown(db, user);
  }

  // ---------------------------------------------------------------------------------------
  // Unique indexes and foreign keys
  // ---------------------------------------------------------------------------------------

  /** The index has one and the same entry for both rows. */
  predicate SameEntry(schema: Schema, ix: Index, r: Row, q: Row) {
    && (forall c :: c in ix.columns ==> c in r.refs && c in q.refs && r.refs[c] == q.refs[c])
    && schema.tail(ix, r.cells).Some? && schema.tail(ix, r.cells) == schema.tail(ix, q.cells)
  }

  /** A unique index forbids the two rows: one that leads with the owner, or one keyed through a parent. */
  ghost predicate Forbids(schema: Schema, r: Row, q: Row) {
    exists ix :: SameEntry(schema, ix, r, q) && IsOver(schema, ix, r, q)
  }

  predicate IsOver(schema: Schema, ix: Index, r: Row, q: Row) {
    || (r.owner == q.owner && ix in schema.own(r.table) && ix in schema.own(q.table))
    || (ix.columns != {} && ix in schema.left(r.table) && ix in schema.left(q.table))
  }

  lemma EntryIff(schema: Schema, indexes: set<Index>, indexes': set<Index>, r: Row, q: Row)
    ensures Entries(schema, indexes, r) * Entries(schema, indexes', q) != {}
       <==> exists ix :: ix in indexes && ix in indexes' && SameEntry(schema, ix, r, q)
  {
    if e :| e in Entries(schema, indexes, r) * Entries(schema, indexes', q) {
      EntryIsShared(schema, indexes, indexes', r, q, e);
    }
    if ix :| ix in indexes && ix in indexes' && SameEntry(schema, ix, r, q) {
      SharedIsEntry(schema, indexes, indexes', r, q, ix);
    }
  }

  lemma EntryIsShared(schema: Schema, indexes: set<Index>, indexes': set<Index>, r: Row, q: Row, e: Entry)
    requires e in Entries(schema, indexes, r) && e in Entries(schema, indexes', q)
    ensures e.index in indexes && e.index in indexes' && SameEntry(schema, e.index, r, q)
  {
    forall c | c in e.index.columns ensures c in r.refs && c in q.refs && r.refs[c] == q.refs[c] {
      assert e.keys[c] == r.refs[c] && e.keys[c] == q.refs[c];
    }
  }

  lemma SharedIsEntry(schema: Schema, indexes: set<Index>, indexes': set<Index>, r: Row, q: Row, ix: Index)
    requires ix in indexes && ix in indexes' && SameEntry(schema, ix, r, q)
    ensures Entries(schema, indexes, r) * Entries(schema, indexes', q) != {}
  {
    var keys := map c | c in ix.columns :: r.refs[c];
    assert keys == map c | c in ix.columns :: q.refs[c];
    var e := Entry(ix, keys, schema.tail(ix, r.cells).value);
    assert ix.columns <= r.refs.Keys && ix.columns <= q.refs.Keys;
    assert e in Entries(schema, indexes, r) * Entries(schema, indexes', q);
  }

  lemma ClashIff(schema: Schema, r: Row, q: Row)
    ensures Clash(schema, r, q) <==> Forbids(schema, r, q)
  {
    EntryIff(schema, schema.own(r.table), schema.own(q.table), r, q);
    var left, left' := set ix | ix in schema.left(r.table) && ix.columns != {},
                       set ix | ix in schema.left(q.table) && ix.columns != {};
    EntryIff(schema, left, left', r, q);
    if Clash(schema, r, q) {
      if r.owner == q.owner && OwnEntries(schema, r) * OwnEntries(schema, q) != {} {
        var ix :| ix in schema.own(r.table) && ix in schema.own(q.table) && SameEntry(schema, ix, r, q);
        assert IsOver(schema, ix, r, q);
      } else {
        var ix :| ix in left && ix in left' && SameEntry(schema, ix, r, q);
        assert IsOver(schema, ix, r, q);
      }
    }
    if ix :| SameEntry(schema, ix, r, q) && IsOver(schema, ix, r, q) {
      assert (ix in left && ix in left') || (ix in schema.own(r.table) && ix in schema.own(q.table));
    }
  }

  /** Some row named by the row's keys is not there. */
  predicate LacksAParent(ids: set<Uuid>, refs: map<Column, Uuid>) {
    exists c :: c in refs && refs[c] !in ids
  }

  // ---------------------------------------------------------------------------------------
  // Statements
  // ---------------------------------------------------------------------------------------

  /** A SELECT finds the user's own rows that meet the condition, as they are, and no others. */
  lemma SelectFinds(schema: Schema, db: Database, user: Option<UserId>, where: (Database, Uuid) -> bool)
    ensures var r := Execute(schema, db, user, Select(where));
            && r.0 == db && r.1.Found? && r.1.rows.Keys == Met(db, user, where)
            && forall id :: id in r.1.rows ==> id in db && r.1.rows[id] == db[id]
  {
    MetAreTargets(db, user, where);
  }

  /** The owner of the row that an insert offers: the one it names, or the user by default. */
  function OwnerOffered(d: Draft, user: Option<UserId>): Option<UserId> {
    if d.owner == None then user else d.owner
  }

  /**
   An INSERT under a new id, for the user, past every unique index and below rows that are there adds
   just that row. It is refused otherwise, for the first of these reasons, and changes nothing.
   */
  lemma InsertTakesEffect(schema: Schema, db: Database, user: Option<UserId>, id: Uuid, values: Database -> Draft)
    ensures var d := values(Shown(db, user));
            var r := Execute(schema, db, user, Insert(id, values));
            if user.None? || OwnerOffered(d, user) != user then r == (db, NotYours)
            else
              var row := Row(d.table, user.value, d.refs, d.cells);
              if id in db || exists j :: j in db && Forbids(schema, row, db[j]) then r == (db, Duplicate)
              else if LacksAParent(db.Keys + {id}, d.refs) then r == (db, NoParent)
              else r == (db[id := row], Changed(1))
  {
    MetAreTargets(db, user, (seen, other) => true);
    var d := values(Shown(db, user));
    if user.Some? && OwnerOffered(d, user) == user {
      var row := Row(d.table, user.value, d.refs, d.cells);
      forall j | j in db ensures Clash(schema, row, db[j]) <==> Forbids(schema, row, db[j]) {
        ClashIff(schema, row, db[j]);
      }
      assert Dangles(db[id := row], row) <==> LacksAParent(db.Keys + {id}, d.refs);
    }
  }

  /** The rows after an update: those that were met have what is assigned, the others are as they were. */
  ghost predicate IsUpdated(db: Database, after: Database, user: UserId, where: (Database, Uuid) -> bool,
    assign: (Database, Uuid) -> Draft)
  {
    && after.Keys == db.Keys
    && (forall id :: id in db && id !in Met(db, Some(user), where) ==> after[id] == db[id])
    && forall id :: id in Met(db, Some(user), where) ==> IsAssigned(after, id, user, assign(Shown(db, Some(user)), id))
  }

  predicate IsAssigned(after: Database, id: Uuid, user: UserId, d: Draft) {
    id in after && after[id] == Row(d.table, user, d.refs, d.cells)
  }

  /** Two rows of which one is met, that a unique index forbids after the update. */
  ghost predicate IsForbidden(schema: Schema, after: Database, met: set<Uuid>) {
    exists i, j :: i in met && i in after && j in after && i != j && Forbids(schema, after[i], after[j])
  }

  ghost predicate IsOrphaned(after: Database, met: set<Uuid>) {
    exists i :: i in met && i in after && LacksAParent(after.Keys, after[i].refs)
  }

  lemma ForbiddenIff(schema: Schema, after: Database, met: set<Uuid>)
    ensures Collides(schema, after, met) <==> IsForbidden(schema, after, met)
    ensures Orphans(after, met) <==> IsOrphaned(after, met)
  {
    if i, j :| i in met && i in after && j in after && i != j && Clash(schema, after[i], after[j]) {
      ClashIff(schema, after[i], after[j]);
    }
    if i, j :| i in met && i in after && j in after && i != j && Forbids(schema, after[i], after[j]) {
      ClashIff(schema, after[i], after[j]);
    }
    forall i | i in met && i in after ensures Dangles(after, after[i]) <==> LacksAParent(after.Keys, after[i].refs) {
    }
  }

  /**
   An UPDATE that would give away a row is refused. Otherwise the user's own rows that meet the condition,
   and no others, get what is assigned, and the answer is how many they are; unless that would break a
   unique index or a foreign key, when nothing changes.
   */
  lemma UpdateTakesEffect(schema: Schema, db: Database, user: UserId, where: (Database, Uuid) -> bool,
        assign: (Database, Uuid) -> Draft) returns (after: Database)
    ensures var met, r := Met(db, Some(user), where), Execute(schema, db, Some(user), Update(where, assign));
            if exists id :: id in met && assign(Shown(db, Some(user)), id).owner != Some(user) then r == (db, NotYours)
            else
              && IsUpdated(db, after, user, where, assign)
              && r == if IsForbidden(schema, after, met) then (db, Duplicate)
                      else if IsOrphaned(after, met) then (db, NoParent)
                      else (after, Changed(|met|))
  {
    MetAreTargets(db, Some(user), where);
    var met := Met(db, Some(user), where);
    var drafts := map id | id in met :: assign(Shown(db, Some(user)), id);
    assert drafts.Keys == met;
    after := db;
    if forall id :: id in met ==> drafts[id].owner == Some(user) {
      after := Rewritten(db, met, StoredAll(drafts));
      ForbiddenIff(schema, after, met);
      RewrittenIsUpdated(db, user, where, assign, drafts);
    }
  }

  lemma RewrittenIsUpdated(db: Database, user: UserId, where: (Database, Uuid) -> bool,
        assign: (Database, Uuid) -> Draft, drafts: map<Uuid, Draft>)
    requires drafts.Keys == Met(db, Some(user), where)
    requires forall id :: id in drafts ==>
               drafts[id] == assign(Shown(db, Some(user)), id) && drafts[id].owner == Some(user)
    ensures IsUpdated(db, Rewritten(db, drafts.Keys, StoredAll(drafts)), user, where, assign)
  {
  }

  /** A row that stays, without the keys that a falling row had and that are to be nulled. */
  ghost predicate IsWhatStays(schema: Schema, db: Database, gone: set<Uuid>, r: Row, r': Row) {
    && r'.table == r.table && r'.owner == r.owner && r'.cells == r.cells
    && (forall c :: c in r'.refs ==> c in r.refs && r'.refs[c] == r.refs[c])
    && forall c :: c in r.refs ==>
         (c !in r'.refs <==> HangsBelow(schema, db, r.refs[c], gone) && schema.onDelete(r.table, c) == SetNull)
  }

  /**
   A DELETE takes the user's own rows that meet the condition and all that hangs below them, frees the
   other rows of the keys that are to be nulled, and answers how many met it; or it is refused.
   */
  lemma DeleteTakesEffect(schema: Schema, db: Database, user: Option<UserId>, where: (Database, Uuid) -> bool)
    ensures var met, r := Met(db, user, where), Execute(schema, db, user, Delete(where));
            if IsRefused(schema, db, met) then r == (db, StillReferenced)
            else
              && r.1 == Changed(|met|) && r.0.Keys <= db.Keys
              && forall id :: id in db ==>
                   && (id !in r.0 <==> HangsBelow(schema, db, id, met))
                   && (id in r.0 ==> IsWhatStays(schema, db, met, db[id], r.0[id]))
  {
    MetAreTargets(db, user, where);
    var met, r := Met(db, user, where), Execute(schema, db, user, Delete(where));
    RefusedIff(schema, db, met);
    if !IsRefused(schema, db, met) {
      var gone := Below(schema, db, met);
      forall id | id in db
        ensures id !in r.0 <==> HangsBelow(schema, db, id, met)
        ensures id in r.0 ==> IsWhatStays(schema, db, met, db[id], r.0[id])
      {
        FallsIff(schema, db, met, id);
        WhatStays(schema, db, met, db[id]);
      }
    }
  }

  lemma WhatStays(schema: Schema, db: Database, met: set<Uuid>, r: Row)
    requires met <= db.Keys
    ensures IsWhatStays(schema, db, met, r, Loosened(schema, r, Below(schema, db, met)))
  {
    forall c | c in r.refs ensures r.refs[c] in Below(schema, db, met) <==> HangsBelow(schema, db, r.refs[c], met) {
      FallsIff(schema, db, met, r.refs[c]);
    }
  }
}
