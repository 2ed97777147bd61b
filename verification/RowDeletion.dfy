/**
 Deleting rows that others hang from. The foreign keys act below the policies: what a delete takes along
 is decided by chains of references, whoever owns the rows.
 */
module RowDeletion {
  import opened Options
  import opened UserIsolation

  // ---------------------------------------------------------------------------------------
  // What falls
  // ---------------------------------------------------------------------------------------

  predicate NamesBy(schema: Schema, r: Row, p: Uuid, how: OnDelete) {
    exists c :: c in r.refs && r.refs[c] == p && schema.onDelete(r.table, c) == how
  }

  /** A chain of cascading references, from a row through any number of others to one of the targets. */
  ghost predicate IsChain(schema: Schema, db: Database, path: seq<Uuid>, targets: set<Uuid>) {
    && path != [] && path[|path| - 1] in targets
    && (forall k :: 0 <= k < |path| ==> path[k] in db)
    && forall k :: 0 <= k < |path| - 1 ==> NamesBy(schema, db[path[k]], path[k + 1], Cascade)
  }

  ghost predicate HangsBelow(schema: Schema, db: Database, id: Uuid, targets: set<Uuid>) {
    exists path: seq<Uuid> :: IsChain(schema, db, path, targets) && path[0] == id
  }

  lemma LongerChain(schema: Schema, db: Database, id: Uuid, p: Uuid, targets: set<Uuid>)
    requires id in db && NamesBy(schema, db[id], p, Cascade) && HangsBelow(schema, db, p, targets)
    ensures HangsBelow(schema, db, id, targets)
  {
    var path: seq<Uuid> :| IsChain(schema, db, path, targets) && path[0] == p;
    var longer := [id] + path;
    forall k | 0 <= k < |longer| - 1 ensures NamesBy(schema, db[longer[k]], longer[k + 1], Cascade) {
      if k > 0 {
        assert longer[k] == path[k - 1] && longer[k + 1] == path[k];
      }
    }
    assert IsChain(schema, db, longer, targets);
  }

  lemma {:induction false} BelowHangs(schema: Schema, db: Database, gone: set<Uuid>, targets: set<Uuid>)
    requires gone <= db.Keys && forall id :: id in gone ==> HangsBelow(schema, db, id, targets)
    ensures forall id :: id in Below(schema, db, gone) ==> HangsBelow(schema, db, id, targets)
    decreases |db.Keys - gone|
  {
    var more := Falling(schema, db, gone);
    if more != {} {
      forall id | id in gone + more ensures HangsBelow(schema, db, id, targets) {
        if id in more {
          var c :| c in db[id].refs && db[id].refs[c] in gone && schema.onDelete(db[id].table, c) == Cascade;
          assert NamesBy(schema, db[id], db[id].refs[c], Cascade);
          LongerChain(schema, db, id, db[id].refs[c], targets);
        }
      }
      SomeFall(db, gone, more);
      BelowHangs(schema, db, gone + more, targets);
    }
  }

  /** Nothing cascades from what is left. */
  lemma {:induction false} BelowIsClosed(schema: Schema, db: Database, gone: set<Uuid>)
    requires gone <= db.Keys
    ensures Falling(schema, db, Below(schema, db, gone)) == {}
    decreases |db.Keys - gone|
  {
    var more := Falling(schema, db, gone);
    if more != {} {
      SomeFall(db, gone, more);
      BelowIsClosed(schema, db, gone + more);
    }
  }

  lemma {:induction false} ChainFalls(schema: Schema, db: Database, path: seq<Uuid>, targets: set<Uuid>)
    requires targets <= db.Keys && IsChain(schema, db, path, targets)
    ensures path[0] in Below(schema, db, targets)
    decreases |path|
  {
    if |path| > 1 {
      var rest := path[1..];
      forall k | 0 <= k < |rest| - 1 ensures NamesBy(schema, db[rest[k]], rest[k + 1], Cascade) {
        assert rest[k] == path[k + 1] && rest[k + 1] == path[k + 2];
      }
      ChainFalls(schema, db, rest, targets);
      BelowIsClosed(schema, db, targets);
      var gone := Below(schema, db, targets);
      assert NamesBy(schema, db[path[0]], path[1], Cascade);
      assert HangsBy(schema, db[path[0]], gone, Cascade);
      assert path[0] !in Falling(schema, db, gone);
    }
  }

  /** A row falls with the targets exactly when a chain of cascades leads from it to one of them. */
  lemma FallsIff(schema: Schema, db: Database, targets: set<Uuid>, id: Uuid)
    requires targets <= db.Keys
    ensures id in Below(schema, db, targets) <==> HangsBelow(schema, db, id, targets)
  {
    forall t | t in targets ensures HangsBelow(schema, db, t, targets) {
      assert IsChain(schema, db, [t], targets);
    }
    BelowHangs(schema, db, targets, targets);
    if path: seq<Uuid> :| IsChain(schema, db, path, targets) && path[0] == id {
      ChainFalls(schema, db, path, targets);
    }
  }

  // ---------------------------------------------------------------------------------------
  // Rows of other users
  // ---------------------------------------------------------------------------------------

  /** A key of the row is nulled when a row that falls with the targets goes. */
  ghost predicate LosesAKey(schema: Schema, db: Database, targets: set<Uuid>, r: Row) {
    exists p :: HangsBelow(schema, db, p, targets) && NamesBy(schema, r, p, SetNull)
  }

  /** Some row that stays, whoever owns it, refuses to have one of the falling rows deleted. */
  ghost predicate IsRefused(schema: Schema, db: Database, targets: set<Uuid>) {
    exists id, p :: id in db && !HangsBelow(schema, db, id, targets) && HangsBelow(schema, db, p, targets)
                    && NamesBy(schema, db[id], p, NoAction)
  }

  lemma RefusedIff(schema: Schema, db: Database, targets: set<Uuid>)
    requires targets <= db.Keys
    ensures IsHeld(schema, db, Below(schema, db, targets)) <==> IsRefused(schema, db, targets)
  {
    var gone := Below(schema, db, targets);
    if id :| id in db && id !in gone && HangsBy(schema, db[id], gone, NoAction) {
      var c :| c in db[id].refs && db[id].refs[c] in gone && schema.onDelete(db[id].table, c) == NoAction;
      FallsIff(schema, db, targets, id);
      FallsIff(schema, db, targets, db[id].refs[c]);
      assert NamesBy(schema, db[id], db[id].refs[c], NoAction);
    }
    if IsRefused(schema, db, targets) {
      var id, p :| id in db && !HangsBelow(schema, db, id, targets) && HangsBelow(schema, db, p, targets)
                   && NamesBy(schema, db[id], p, NoAction);
      FallsIff(schema, db, targets, id);
      FallsIff(schema, db, targets, p);
      assert HangsBy(schema, db[id], gone, NoAction);
    }
  }

  lemma LoosenedIff(schema: Schema, db: Database, targets: set<Uuid>, r: Row)
    requires targets <= db.Keys
    ensures Loosened(schema, r, Below(schema, db, targets)) == r <==> !LosesAKey(schema, db, targets, r)
  {
    var gone := Below(schema, db, targets);
    var r' := Loosened(schema, r, gone);
    if p :| HangsBelow(schema, db, p, targets) && NamesBy(schema, r, p, SetNull) {
      FallsIff(schema, db, targets, p);
      var c :| c in r.refs && r.refs[c] == p && schema.onDelete(r.table, c) == SetNull;
      assert c !in r'.refs;
    } else {
      forall c | c in r.refs ensures c in r'.refs {
        if r.refs[c] in gone && schema.onDelete(r.table, c) == SetNull {
          FallsIff(schema, db, targets, r.refs[c]);
          assert NamesBy(schema, r, r.refs[c], SetNull);
          assert false;
        }
      }
      assert r'.refs == r.refs;
    }
  }

  /**
   A delete is refused exactly when a row that stays refuses it. Otherwise a row goes, whoever owns it, if
   and only if it hangs, through any number of others, below a row that is deleted; and a row that
   stays is changed if and only if a key of it that names a falling row is to be nulled.
   */
  lemma DeletedIff(schema: Schema, db: Database, user: Option<UserId>, where: (Database, Uuid) -> bool, id: Uuid)
    requires id in db
    ensures var targets, r := Targets(db, where, user), Execute(schema, db, user, Delete(where));
            && r.1 == (if IsRefused(schema, db, targets) then StillReferenced else Changed(|targets|))
            && (id !in r.0 <==> !IsRefused(schema, db, targets) && HangsBelow(schema, db, id, targets))
            && (id in r.0 ==> (r.0[id] == db[id] <==>
                  IsRefused(schema, db, targets) || !LosesAKey(schema, db, targets, db[id])))
  {
    var targets := Targets(db, where, user);
    RefusedIff(schema, db, targets);
    FallsIff(schema, db, targets, id);
    LoosenedIff(schema, db, targets, db[id]);
  }

  ghost predicate IsTouched(schema: Schema, db: Database, targets: set<Uuid>, id: Uuid)
    requires id in db
  {
    HangsBelow(schema, db, id, targets) || LosesAKey(schema, db, targets, db[id])
  }

  /** So another user's rows are as they were exactly when none of them hangs there or loses a key. */
  lemma OthersAreUntouchedIff(schema: Schema, db: Database, user: Option<UserId>, where: (Database, Uuid) -> bool,
        other: UserId)
    requires user != Some(other)
    ensures Visible(Execute(schema, db, user, Delete(where)).0, Some(other)) == Visible(db, Some(other))
       <==> || IsRefused(schema, db, Targets(db, where, user))
            || forall id :: id in db && db[id].owner == other ==> !IsTouched(schema, db, Targets(db, where, user), id)
  {
    var targets, db' := Targets(db, where, user), Execute(schema, db, user, Delete(where)).0;
    forall id | id in db && db[id].owner == other
      ensures id in db' && db'[id] == db[id] <==> IsRefused(schema, db, targets) || !IsTouched(schema, db, targets, id)
    {
      DeletedIff(schema, db, user, where, id);
    }
    SameRowsIff(db, db', other);
  }

  lemma SameRowsIff(db: Database, db': Database, other: UserId)
    requires db'.Keys <= db.Keys && forall id :: id in db' ==> db'[id].owner == db[id].owner
    ensures Visible(db', Some(other)) == Visible(db, Some(other))
       <==> forall id :: id in db && db[id].owner == other ==> id in db' && db'[id] == db[id]
  {
    if Visible(db', Some(other)) == Visible(db, Some(other)) {
      forall id | id in db && db[id].owner == other ensures id in db' && db'[id] == db[id] {
        assert id in Visible(db, Some(other));
      }
    }
  }

  /** It happens: a chunk that the policies let `a` hang below `b`'s memory goes with that memory. */
  lemma ForeignChildGoesWithItsParent(where: (Database, Uuid) -> bool)
    requires forall seen, id :: where(seen, id) <==> id == "b0"
    ensures var db := RunInsert(ChunkSchema(), B_MEMORY, Some("a"), "a1", ChunkOf("a")).0;
            && "a1" in Visible(db, Some("a"))
            && "a1" !in Execute(ChunkSchema(), db, Some("b"), Delete(where)).0
  {
    ChunkIsAccepted("a", "a1");
    var schema, db := ChunkSchema(), RunInsert(ChunkSchema(), B_MEMORY, Some("a"), "a1", ChunkOf("a")).0;
    var targets := Targets(db, where, Some("b"));
    assert "b0" in targets && db["a1"].refs["memory_id"] == "b0";
    ChildIsBelow(db, targets);
    DeletedIff(schema, db, Some("b"), where, "a1");
  }

  lemma ChildIsBelow(db: Database, targets: set<Uuid>)
    requires "a1" in db && "b0" in db && "b0" in targets
    requires "memory_id" in db["a1"].refs && db["a1"].refs["memory_id"] == "b0"
    ensures HangsBelow(ChunkSchema(), db, "a1", targets) && !IsRefused(ChunkSchema(), db, targets)
  {
    assert NamesBy(ChunkSchema(), db["a1"], "b0", Cascade);
    assert IsChain(ChunkSchema(), db, ["a1", "b0"], targets);
  }

  // ---------------------------------------------------------------------------------------
  // No statement leaves an orphan
  // ---------------------------------------------------------------------------------------

  /** The foreign keys hold. */
  ghost predicate IsWhole(db: Database) {
    forall id :: id in db ==> !Dangles(db, db[id])
  }

  lemma DeleteKeepsWhole(schema: Schema, db: Database, targets: set<Uuid>)
    requires IsWhole(db) && targets <= db.Keys
    ensures IsWhole(RunDelete(schema, db, targets).0)
  {
    var gone, db' := Below(schema, db, targets), RunDelete(schema, db, targets).0;
    BelowIsClosed(schema, db, targets);
    if !IsHeld(schema, db, gone) {
      forall id, c | id in db' && c in db'[id].refs ensures db'[id].refs[c] in db' {
        assert !Dangles(db, db[id]) && id !in Falling(schema, db, gone);
        assert !HangsBy(schema, db[id], gone, Cascade) && !HangsBy(schema, db[id], gone, NoAction);
      }
    }
  }

  lemma UpdateKeepsWhole(schema: Schema, db: Database, user: Option<UserId>, targets: set<Uuid>,
        drafts: map<Uuid, Draft>)
    requires IsWhole(db) && targets <= db.Keys && drafts.Keys == targets
    ensures IsWhole(RunUpdate(schema, db, user, targets, drafts).0)
  {
    if forall id :: id in targets ==> Checked(drafts[id], user) {
      var after := Rewritten(db, targets, StoredAll(drafts));
      if !Orphans(after, targets) {
        forall id | id in after ensures !Dangles(after, after[id]) {
          if id !in targets {
            DanglesInFewer(db, after, db[id]);
          }
        }
      }
    }
  }

  /** Whatever statement runs, whoever runs it, every foreign key names a row. */
  lemma StepKeepsWhole(schema: Schema, db: Database, user: Option<UserId>, s: Statement)
    requires IsWhole(db)
    ensures IsWhole(Execute(schema, db, user, s).0)
  {
    match s
    case Select(_) =>
    case Insert(id, values) =>
      var d := WithDefault(values(Visible(db, user)), user);
      var db' := RunInsert(schema, db, user, id, d).0;
      forall j | j in db' ensures !Dangles(db', db'[j]) {
        if j in db {
          DanglesInFewer(db, db', db[j]);
        }
      }
    case Update(where, assign) =>
      var targets := Targets(db, where, user);
      UpdateKeepsWhole(schema, db, user, targets, map id | id in targets :: assign(Visible(db, user), id));
    case Delete(where) => DeleteKeepsWhole(schema, db, Targets(db, where, user));
  }

  /** An accepted insert is seen by its user at once, and deleting that row restores the database. */
  lemma DeletingUndoesInserting(schema: Schema, db: Database, user: UserId, id: Uuid, d: Draft,
        where: (Database, Uuid) -> bool)
    requires IsWhole(db) && RunInsert(schema, db, Some(user), id, d).1 == Changed(1)
    requires forall seen, other :: where(seen, other) <==> other == id
    ensures var after := RunInsert(schema, db, Some(user), id, d).0;
            && Visible(after, Some(user)) == Visible(db, Some(user))[id := Row(d.table, user, d.refs, d.cells)]
            && Execute(schema, after, Some(user), Delete(where)) == (db, Changed(1))
  {
    AcceptedInsert(schema, db, Some(user), id, d);
    var after := db[id := Stored(d)];
    InsertIsSeen(db, user, id, Stored(d));
    assert Targets(after, where, Some(user)) == {id};
    DeletingOneRow(schema, db, id, Stored(d));
  }

  lemma InsertIsSeen(db: Database, user: UserId, id: Uuid, row: Row)
    requires row.owner == user
    ensures Visible(db[id := row], Some(user)) == Visible(db, Some(user))[id := row]
  {
  }

  lemma DeletingOneRow(schema: Schema, db: Database, id: Uuid, row: Row)
    requires IsWhole(db) && id !in db
    ensures RunDelete(schema, db[id := row], {id}) == (db, Changed(1))
  {
    forall j, c | j in db && c in db[j].refs ensures db[j].refs[c] != id {
      assert !Dangles(db, db[j]);
    }
    var after := db[id := row];
    NothingElseFalls(schema, after, id);
    var gone := Below(schema, after, {id});
    forall j | j in db ensures Loosened(schema, after[j], gone) == db[j] {
      LoosenedAlone(schema, db[j], gone);
    }
    assert (map j | j in after && j !in gone :: Loosened(schema, after[j], gone)) == db;
  }

  lemma NothingElseFalls(schema: Schema, db: Database, id: Uuid)
    requires id in db && forall j, c :: j in db && j != id && c in db[j].refs ==> db[j].refs[c] != id
    ensures Below(schema, db, {id}) == {id} && !IsHeld(schema, db, {id})
  {
    assert Falling(schema, db, {id}) == {};
  }
}
