/**
The stored actions and the committed catalog they are resolved against. Every
write runs under one permission lock and commits or leaves everything as it was.
*/
module ActionTable {
  import opened Options
  import opened ResourceCatalog
  import opened Ordering
  import opened Grants
  import opened ActionConfig
  import opened ActionMigration
  import opened CatalogValidation

  datatype Action = Action(code: string, group: string, word: string, config: Config)

  datatype Id = Id(number: int)

  type Rows = map<Id, Action>

  predicate Older(a: Id, b: Id) {
    a.number <= b.number
  }

  lemma IdOrder()
    ensures TotalOrder(Older)
  {
    forall a, b ensures Comparable(Older, a, b) {}
    forall a, b ensures Antisymmetric(Older, a, b) {}
    forall a, b, c ensures Transitive(Older, a, b, c) {}
  }

  datatype Definitions = Definitions(scopes: seq<string>, catalog: Catalog, groups: set<string>)

  datatype Outcome = Committed | Invalid | NotFound | Conflict | Exhausted | VersionConflict | GroupNotEmpty

  /** The group is registered and the stored projection is what the catalog gives. */
  predicate Current(definitions: Definitions, action: Action) {
    && action.group in definitions.groups
    && UpToDate(definitions.catalog, action.word, action.config)
  }

  ghost predicate Consistent(definitions: Definitions, rows: Rows) {
    && (forall id :: id in rows ==> Current(definitions, rows[id]))
    && (forall i, j :: i in rows && j in rows && i != j ==>
                       rows[i].code != rows[j].code && rows[i].word != rows[j].word)
  }

  predicate CodeUsed(rows: Rows, code: string) {
    exists id :: id in rows && rows[id].code == code
  }

  predicate WordUsed(rows: Rows, word: string) {
    exists id :: id in rows && rows[id].word == word
  }

  // Group moves

  function MoveOne(rows: Rows, from: string, to: string): Rows {
    map id | id in rows :: if rows[id].group == from then rows[id].(group := to) else rows[id]
  }

  function MoveInOrder(rows: Rows, moves: Renames, keys: seq<string>): Rows
    requires forall key :: key in keys ==> key in moves
  {
    if keys == [] then rows else MoveInOrder(MoveOne(rows, keys[0], moves[keys[0]]), moves, keys[1..])
  }

  function MovedGroup(moves: Renames, group: string): string {
    if group in moves then moves[group] else group
  }

  /** All moves at once. */
  function MoveAll(rows: Rows, moves: Renames): Rows {
    map id | id in rows :: rows[id].(group := MovedGroup(moves, rows[id].group))
  }

  predicate ValidMoves(moves: Renames, previous: set<string>, current: set<string>) {
    ValidRenames(moves, previous, current)
  }

  /** No move leads to a group that is itself moved, so one update after the other equals one update. */
  lemma {:induction false} OneByOneIsAtOnce(rows: Rows, moves: Renames, keys: seq<string>)
    requires forall key :: key in keys ==> key in moves
    requires forall from :: from in moves ==> moves[from] !in moves
    ensures MoveInOrder(rows, moves, keys).Keys == rows.Keys
    ensures forall id :: id in rows ==>
              MoveInOrder(rows, moves, keys)[id]
              == rows[id].(group := if rows[id].group in keys then moves[rows[id].group] else rows[id].group)
    decreases keys
  {
    if keys != [] {
      var next := MoveOne(rows, keys[0], moves[keys[0]]);
      OneByOneIsAtOnce(next, moves, keys[1..]);
      assert keys == [keys[0]] + keys[1..];
      assert forall id :: id in rows ==> id in next;
    }
  }

  lemma SortedMovesAreSimultaneous(rows: Rows, moves: Renames, previous: set<string>, current: set<string>)
    requires ValidMoves(moves, previous, current)
    ensures MoveInOrder(rows, moves, SortedStrings(moves.Keys)) == MoveAll(rows, moves)
  {
    forall from | from in moves ensures moves[from] !in moves {
      assert ValidRename(moves, previous, current, from);
      assert moves[from] in moves ==> ValidRename(moves, previous, current, moves[from]);
    }
    var keys := SortedStrings(moves.Keys);
    OneByOneIsAtOnce(rows, moves, keys);
    var moved, all := MoveInOrder(rows, moves, keys), MoveAll(rows, moves);
    forall id | id in rows ensures moved[id] == all[id] {
      assert rows[id].group in keys <==> rows[id].group in moves;
    }
    assert moved.Keys == all.Keys;
  }

  function Removed(previous: set<string>, current: set<string>, moves: Renames): set<string> {
    set key | key in previous && key !in current && (key !in moves || moves[key] == "")
  }

  predicate GroupsUsed(rows: Rows, groups: set<string>) {
    exists id :: id in rows && rows[id].group in groups
  }

  /** What is left after valid moves and unused removals is registered. */
  lemma MovedGroupIsRegistered(rows: Rows, moves: Renames, previous: set<string>, current: set<string>, id: Id)
    requires ValidMoves(moves, previous, current)
    requires id in rows && rows[id].group in previous
    requires !GroupsUsed(MoveAll(rows, moves), Removed(previous, current, moves))
    ensures MovedGroup(moves, rows[id].group) in current
  {
    var group := rows[id].group;
    if group in moves {
      assert ValidRename(moves, previous, current, group);
    } else {
      assert MoveAll(rows, moves)[id].group == group;
      assert group !in Removed(previous, current, moves);
    }
  }

  // Catalog migration of the rows

  predicate StoredSelectionOk(catalog: Catalog, word: string, config: Config) {
    var bindings := ConfigBindings(config);
    && (bindings.Some? ==> BindingsResolve(catalog, Scope(word), bindings.value))
    && (config.builtin == "default" && config.resourceKeys.Some? ==>
          ResolveResources(catalog, Scope(word), config.resourceKeys.value, config.featureKeys, None).Some?)
  }

  predicate BindingsResolve(catalog: Catalog, scope: string, bindings: seq<ResourceBinding>) {
    forall i :: 0 <= i < |bindings| ==>
      ResolveBinding(catalog, scope, bindings[i].resourceKey, bindings[i].operation, bindings[i].featureKeys,
                     None).Some?
  }

  /** Identity, code, word and group stay; the selection follows the edit and the projection is renewed. */
  ghost predicate RowMigrated(edit: Edit, before: Action, after: Action) {
    && after.code == before.code
    && after.word == before.word
    && after.group == before.group
    && exists selection :: SelectionMigrated(edit, before.config, selection) && ReprojectedFrom(edit, after, selection)
  }

  ghost predicate ReprojectedFrom(edit: Edit, after: Action, selection: Config) {
    var projected := ResolveStored(edit.after, after.word, selection);
    projected.Some? && after.config == WithProjection(selection, projected.value)
  }

  ghost predicate RowRenewed(edit: Edit, before: Action, after: Action) {
    RowMigrated(edit, before, after) && UpToDate(edit.after, after.word, after.config)
  }

  predicate Projectable(catalog: Catalog, word: string, selection: Config) {
    StoredSelectionOk(catalog, word, selection) && ResolveStored(catalog, word, selection).Some?
  }

  /** The migrated selection names something the new catalog does not grant. */
  ghost predicate Stranded(edit: Edit, action: Action) {
    exists selection :: SelectionMigrated(edit, action.config, selection) &&
                        !Projectable(edit.after, action.word, selection)
  }

  method MigrateRow(edit: Edit, action: Action) returns (ok: bool, migrated: Action)
    ensures if ok then RowRenewed(edit, action, migrated) else Stranded(edit, action)
  {
    migrated := action;
    var selection := MigrateSelection(edit, action.config);
    if !StoredSelectionOk(edit.after, action.word, selection) {
      return false, migrated;
    }
    var projected := ResolveStored(edit.after, action.word, selection);
    if projected.None? {
      return false, migrated;
    }
    ProjectedIsUpToDate(edit.after, action.word, selection);
    migrated := action.(config := WithProjection(selection, projected.value));
    assert ReprojectedFrom(edit, migrated, selection);
    ok := true;
  }

  ghost predicate RowsRenewed(edit: Edit, before: Rows, after: Rows, ids: set<Id>) {
    && after.Keys == before.Keys
    && (forall id :: id in ids && id in before ==> RowRenewed(edit, before[id], after[id]))
    && (forall id :: id in before && id !in ids ==> after[id] == before[id])
  }

  lemma OneMoreRow(edit: Edit, before: Rows, after: Rows, ids: set<Id>, id: Id, row: Action)
    requires RowsRenewed(edit, before, after, ids) && id in before
    requires RowRenewed(edit, before[id], row)
    ensures RowsRenewed(edit, before, after[id := row], ids + {id})
  {
    hide RowRenewed;
  }

  ghost predicate SomeStranded(edit: Edit, rows: Rows) {
    exists id :: id in rows && Stranded(edit, rows[id])
  }

  method MigrateRows(edit: Edit, rows: Rows) returns (ok: bool, migrated: Rows)
    ensures if ok then RowsRenewed(edit, rows, migrated, rows.Keys) else SomeStranded(edit, rows)
  {
    hide RowRenewed, Stranded;
    migrated := rows;
    var remaining := rows.Keys;
    while remaining != {}
      invariant remaining <= rows.Keys
      invariant RowsRenewed(edit, rows, migrated, rows.Keys - remaining)
    {
      var id :| id in remaining;
      var row;
      ok, row := MigrateRow(edit, rows[id]);
      if !ok { return; }
      OneMoreRow(edit, rows, migrated, rows.Keys - remaining, id, row);
      migrated := migrated[id := row];
      remaining := remaining - {id};
      assert rows.Keys - remaining == rows.Keys - (remaining + {id}) + {id};
    }
    assert rows.Keys - remaining == rows.Keys;
    ok := true;
  }

  /** Nothing to migrate when no key was renamed and the resources are as they were. */
  predicate Unedited(edit: Edit) {
    edit.resources == map[] && edit.features == map[] && edit.before == edit.after
  }

  /** The new catalog passes validation and the renames are valid. */
  ghost predicate Acceptable(scopes: seq<string>, edit: Edit) {
    ScopesListed(scopes, edit.after) && Sound(edit.after) && !HasLoop(edit.after) && ValidEdit(edit)
  }

  ghost predicate RowsFollow(edit: Edit, before: Rows, after: Rows) {
    if Unedited(edit) then after == before else RowsRenewed(edit, before, after, before.Keys)
  }

  method ReconcileResources(scopes: seq<string>, edit: Edit, rows: Rows) returns (ok: bool, migrated: Rows)
    ensures ok ==> Acceptable(scopes, edit) && RowsFollow(edit, rows, migrated)
    ensures !ok ==> !Acceptable(scopes, edit) || (!Unedited(edit) && SomeStranded(edit, rows))
  {
    hide ScopesListed, Sound, HasLoop, RowsRenewed, SomeStranded;
    migrated := rows;
    ok := Validate(scopes, edit.after);
    if !ok || !ValidEdit(edit) { return false, rows; }
    if Unedited(edit) { return true, rows; }
    ok, migrated := MigrateRows(edit, rows);
  }

  method ReconcileGroups(rows: Rows, moves: Renames, previous: set<string>, current: set<string>)
    returns (outcome: Outcome, moved: Rows)
    ensures outcome == if !ValidMoves(moves, previous, current) then Invalid
                       else if GroupsUsed(MoveAll(rows, moves), Removed(previous, current, moves)) then GroupNotEmpty
                       else Committed
    ensures outcome.Committed? ==> moved == MoveAll(rows, moves)
  {
    moved := rows;
    if !ValidMoves(moves, previous, current) { return Invalid, rows; }
    hide ValidMoves, MoveInOrder, MoveOne, MoveAll, Removed, GroupsUsed;
    var keys := SortedStrings(moves.Keys);
    for n := 0 to |keys|
      invariant MoveInOrder(moved, moves, keys[n..]) == MoveInOrder(rows, moves, keys)
    {
      MoveNext(moved, moves, keys, n);
      moved := MoveOne(moved, keys[n], moves[keys[n]]);
    }
    NothingToMove(moved, moves);
    SortedMovesAreSimultaneous(rows, moves, previous, current);
    if GroupsUsed(moved, Removed(previous, current, moves)) { return GroupNotEmpty, moved; }
    outcome := Committed;
  }

  lemma MoveNext(rows: Rows, moves: Renames, keys: seq<string>, n: nat)
    requires n < |keys| && forall key :: key in keys ==> key in moves
    ensures MoveInOrder(rows, moves, keys[n..]) ==
        MoveInOrder(MoveOne(rows, keys[n], moves[keys[n]]), moves, keys[n + 1..])
  {
    assert keys[n..][1..] == keys[n + 1..];
  }

  lemma NothingToMove(rows: Rows, moves: Renames)
    ensures MoveInOrder(rows, moves, []) == rows
  {
  }
}
