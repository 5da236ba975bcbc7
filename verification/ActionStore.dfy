/**
The writes on stored actions and on the catalog. Each one starts and ends with
every action registered and up to date.
*/
module ActionStore {
  import opened Options
  import opened ResourceCatalog
  import opened Ordering
  import opened Words
  import opened ActionConfig
  import opened ActionMigration
  import opened ActionTable
  import opened ActionAssignment
  import opened CatalogValidation
  import opened PermissionGroups
  import ActionCodes

  function GroupForWord(word: string): string {
    var parts := Split(word, ':');
    if |parts| < 4 then "" else parts[0] + ":" + JoinWith(parts[2..], ':')
  }

  function GroupForConfig(word: string, config: Config): string {
    if config.bindings.Some? && config.bindings.value != [] then config.bindings.value[0].resourceKey
    else if config.resourceKey != "" then config.resourceKey
    else if config.builtin != "" then GroupForWord(word)
    else ""
  }

  predicate RegisteredDefinition(definitions: Definitions, word: string, group: string, config: Config) {
    group in definitions.groups && StoredSelectionOk(definitions.catalog, word, config)
  }

  /** What a definition needs to be written, apart from a free code and word. */
  predicate Writable(definitions: Definitions, word: string, group: string, config: Config) {
    && ValidIdentity(word, group)
    && ValidConfig(word, config)
    && RegisteredDefinition(definitions, word, group, config)
    && ResolveStored(definitions.catalog, word, config).Some?
  }

  datatype Change = Change(word: Option<string>, group: Option<string>, config: Option<Config>)

  function Changed(current: Action, change: Change): Action {
    current.(word := if change.word.Some? then change.word.value else current.word,
             group := if change.group.Some? then change.group.value else current.group,
             config := if change.config.Some? then change.config.value else current.config)
  }

  /** A field takes the value asked for, and without one it stays. */
  predicate Takes<T(==)>(asked: Option<T>, was: T, becomes: T) {
    && (asked.None? ==> becomes == was)
    && (asked.Some? ==> becomes == asked.value)
  }

  /** A change touches exactly the fields it names. */
  lemma ChangedFieldByField(current: Action, change: Change)
    ensures var next := Changed(current, change);
            && next.code == current.code
            && Takes(change.word, current.word, next.word)
            && Takes(change.group, current.group, next.group)
            && Takes(change.config, current.config, next.config)
  {
  }

  /** The group of a built-in action is its word without the operation. */
  lemma GroupOfWord(parts: seq<string>)
    requires parts != [] && forall part :: part in parts ==> ':' !in part
    ensures GroupForWord(JoinWith(parts, ':'))
         == if |parts| >= 4 then JoinWith([parts[0]] + parts[2..], ':') else ""
  {
    SplitOfJoin(parts, ':');
    if |parts| >= 4 {
      assert ([parts[0]] + parts[2..])[1..] == parts[2..];
    }
  }

  lemma ShorterWithoutSecond(parts: seq<string>)
    requires |parts| >= 4
    ensures |JoinWith([parts[0]] + parts[2..], ':')| <= |JoinWith(parts, ':')|
  {
    assert ([parts[0]] + parts[2..])[1..] == parts[2..] == parts[1..][1..];
  }

  /** It is a valid group for every valid word. */
  lemma GroupOfValidWord(word: string)
    requires ValidWord(word)
    ensures ValidIdentity(word, GroupForWord(word))
  {
    hide Split, JoinWith, SegmentOk;
    var parts := Split(word, ':');
    var kept := [parts[0]] + parts[2..];
    JoinOfSplit(word, ':');
    GroupOfWord(parts);
    ShorterWithoutSecond(parts);
    SplitOfJoin(kept, ':');
    assert forall i :: 0 <= i < |kept| ==> kept[i] == if i == 0 then parts[0] else parts[i + 1];
  }

  /** An action created without a group is filed under its first binding, or else its resource, or else its word. */
  lemma BlankGroup(word: string, config: Config, binding: ResourceBinding, rest: seq<ResourceBinding>)
    ensures GroupOf("", word, config.(bindings := Some([binding] + rest))) == binding.resourceKey
    ensures config.bindings in {None, Some([])} && config.resourceKey != "" ==>
              GroupOf("", word, config) == config.resourceKey
    ensures config.bindings in {None, Some([])} && config.resourceKey == "" ==>
              GroupOf("", word, config) == if config.builtin == "" then "" else GroupForWord(word)
    ensures forall group :: group != "" ==> GroupOf(group, word, config) == group
  {
  }

  /** How an update ends. A free word is one no other action has. */
  function Updated(definitions: Definitions, rows: Rows, id: Id, change: Change): Outcome {
    if id.number <= 0 || change == Change(None, None, None) then Invalid
    else if change.word.Some? && !ValidWord(change.word.value) then Invalid
    else if id !in rows then NotFound
    else
      var next := Changed(rows[id], change);
      if next.config.builtin != rows[id].config.builtin ||
         !Writable(definitions, next.word, next.group, next.config) then Invalid
      else if WordUsed(rows - {id}, next.word) then Conflict
      else Committed
  }

  function GroupOf(requested: string, word: string, config: Config): string {
    if requested == "" then GroupForConfig(word, config) else requested
  }

  /** One new action with the resolved configuration, under a free code. */
  ghost predicate CreatedAs(definitions: Definitions, before: Rows, after: Rows, id: Id, code: string, group: string,
                            word: string, config: Config)
  {
    var stored := ResolveStored(definitions.catalog, word, config);
    && stored.Some?
    && id !in before && !CodeUsed(before, code) && !WordUsed(before, word)
    && after == before[id := Action(code, group, word, stored.value)]
  }

  lemma NewRow(definitions: Definitions, before: Rows, after: Rows, id: Id, code: string, group: string, word: string,
               config: Config)
    requires ResolveStored(definitions.catalog, word, config).Some?
    requires id !in before && !CodeUsed(before, code) && !WordUsed(before, word)
    requires after == before[id := Action(code, group, word, ResolveStored(definitions.catalog, word, config).value)]
    ensures CreatedAs(definitions, before, after, id, code, group, word, config)
  {
  }

  predicate AllTaken(rows: Rows, codes: seq<string>) {
    forall code :: code in codes ==> CodeUsed(rows, code)
  }

  ghost predicate ValidCatalog(definitions: Definitions) {
    ScopesListed(definitions.scopes, definitions.catalog) && Sound(definitions.catalog) && !HasLoop(definitions.catalog)
  }

  function Lower(text: string): string {
    if text == "" then ""
    else [if 'A' <= text[0] <= 'Z' then text[0] - 'A' + 'a' else text[0]] + Lower(text[1..])
  }

  function WordOperation(binding: ResourceBinding): string {
    if binding.operation == "*" then "all" else binding.operation
  }

  function AssignedWord(binding: ResourceBinding, code: string): string {
    Scope(binding.resourceKey) + ":" + WordOperation(binding) + ":assigned:p" + Lower(code)
  }

  lemma {:induction false} LowerHasNoColon(text: string)
    requires ':' !in text
    ensures ':' !in Lower(text)
  {
    if text != "" {
      assert text[0] in text;
      LowerHasNoColon(text[1..]);
    }
  }

  predicate LetterOrDigit(c: char) {
    'a' <= c <= 'z' || 'A' <= c <= 'Z' || '0' <= c <= '9'
  }

  lemma {:induction false} LowerEach(text: string)
    requires forall i :: 0 <= i < |text| ==> LetterOrDigit(text[i])
    ensures |Lower(text)| == |text|
    ensures forall i :: 0 <= i < |text| ==>
              var c := Lower(text)[i]; LowerCase(c) || ('0' <= c <= '9' && c == text[i])
  {
    if text != "" {
      LowerEach(text[1..]);
    }
  }

  /** A code of letters and digits ends the word of a created action as a valid segment. */
  lemma CodeMakesASegment(code: string)
    requires forall i :: 0 <= i < |code| ==> LetterOrDigit(code[i])
    ensures SegmentOk("p" + Lower(code))
  {
    LowerEach(code);
  }

  lemma JoinFour(a: string, b: string, c: string, d: string)
    ensures JoinWith([a, b, c, d], ':') == a + ":" + b + ":" + c + ":" + d
  {
    assert JoinWith([c, d], ':') == c + ":" + d;
    assert JoinWith([b, c, d], ':') == b + ":" + (c + ":" + d);
  }

  lemma AssignedWordJoined(binding: ResourceBinding, code: string)
    ensures AssignedWord(binding, code)
         == JoinWith([Scope(binding.resourceKey), WordOperation(binding), "assigned", "p" + Lower(code)], ':')
  {
    hide JoinWith, Lower, Scope, WordOperation;
    JoinFour(Scope(binding.resourceKey), WordOperation(binding), "assigned", "p" + Lower(code));
    assert ":assigned:p" == ":" + "assigned" + ":" + "p";
  }

  /** The word of a created action: its scope, its operation and a mark that ends in the code. */
  lemma AssignedWordParts(binding: ResourceBinding, code: string)
    requires ValidOperation(binding.operation) && ':' !in code
    ensures Split(AssignedWord(binding, code), ':')
         == [Scope(binding.resourceKey), if binding.operation == "*" then "all" else binding.operation, "assigned",
             "p" + Lower(code)]
  {
    hide JoinWith, Split, Lower, Scope, AssignedWord, ValidOperation;
    ValidOperationsHaveNoColon(binding.operation);
    LowerHasNoColon(code);
    AssignedWordJoined(binding, code);
    SplitOfJoin([Scope(binding.resourceKey), WordOperation(binding), "assigned", "p" + Lower(code)], ':');
  }

  class Store {
    var definitions: Definitions
    var actions: Rows
    // Identifiers below this one have been handed out.
    var nextId: int

    ghost predicate Valid()
      reads this
    {
      && Consistent(definitions, actions)
      && ValidCatalog(definitions)
      && forall id :: id in actions ==> id.number < nextId
    }

    constructor (definitions: Definitions, actions: Rows, nextId: int)
      requires Consistent(definitions, actions) && ValidCatalog(definitions)
      requires forall id :: id in actions ==> id.number < nextId
      ensures Valid() && this.definitions == definitions && this.actions == actions && this.nextId == nextId
    {
      this.definitions := definitions;
      this.actions := actions;
      this.nextId := nextId;
    }

    /** Inserts under a new identifier unless the code or the word is taken. */
    method Insert(action: Action) returns (outcome: Outcome, id: Id)
      requires Valid() && Current(definitions, action)
      modifies this`actions, this`nextId
      ensures Valid() && nextId == old(nextId) + 1 && id == Id(old(nextId))
      ensures outcome == if CodeUsed(old(actions), action.code) then Exhausted
                         else if WordUsed(old(actions), action.word) then Conflict
                         else Committed
      ensures actions == if outcome.Committed? then old(actions)[id := action] else old(actions)
    {
      id := Id(nextId);
      nextId := nextId + 1;
      if CodeUsed(actions, action.code) { return Exhausted, id; }
      if WordUsed(actions, action.word) { return Conflict, id; }
      InsertKeepsConsistent(definitions, actions, id, action);
      actions := actions[id := action];
      outcome := Committed;
    }

    /** `draws` are the codes the generator yields. */
    method Create(word: string, requested: string, config: Config, draws: seq<string>)
      returns (outcome: Outcome, id: Id)
      requires Valid() && |draws| == 5
      modifies this`actions, this`nextId
      ensures Valid()
      ensures var group := GroupOf(requested, word, config);
              outcome == if config.builtin != "" || !Writable(definitions, word, group, config) then Invalid
                         else if AllTaken(old(actions), draws) then Exhausted
                         else if WordUsed(old(actions), word) then Conflict
                         else Committed
      ensures outcome.Committed? ==>
                exists code :: code in draws
                  && CreatedAs(definitions, old(actions), actions, id, code, GroupOf(requested, word, config), word,
                               config)
      ensures !outcome.Committed? ==> actions == old(actions)
    {
      hide Current, Writable, Consistent, ValidCatalog, GroupForConfig, ResolveStored, CreatedAs;
      var group := requested;
      if group == "" {
        group := GroupForConfig(word, config);
      }
      id := Id(nextId);
      if config.builtin != "" || !Writable(definitions, word, group, config) { return Invalid, id; }
      WritableIsCurrent(definitions, word, group, config);
      var stored := ResolveStored(definitions.catalog, word, config).value;
      for attempt := 0 to 5
        invariant Valid() && actions == old(actions) && nextId >= old(nextId)
        invariant AllTaken(actions, draws[..attempt])
      {
        var code := draws[attempt];
        assert draws[..attempt + 1] == draws[..attempt] + [code];
        outcome, id := Insert(Action(code, group, word, stored));
        if !outcome.Exhausted? {
          assert code in draws;
          if outcome.Committed? {
            NewRow(definitions, old(actions), actions, id, code, group, word, config);
          }
          return;
        }
      }
      assert draws[..5] == draws;
      outcome := Exhausted;
    }

    method Update(id: Id, change: Change) returns (outcome: Outcome)
      requires Valid()
      modifies this`actions
      ensures Valid()
      ensures outcome == Updated(definitions, old(actions), id, change)
      ensures actions == if outcome.Committed? then
                           var next := Changed(old(actions)[id], change);
                           old(actions)[id := next.(config :=
                                                    ResolveStored(definitions.catalog, next.word, next.config).value)]
                         else old(actions)
      ensures outcome.Committed? ==>
                && actions.Keys == old(actions).Keys
                && (forall other :: other in actions && other != id ==> actions[other] == old(actions)[other])
                && actions[id].code == old(actions)[id].code
                && Takes(change.word, old(actions)[id].word, actions[id].word)
                && Takes(change.group, old(actions)[id].group, actions[id].group)
    {
      hide Writable, Current, ValidCatalog, ValidWord, ResolveStored;
      if id.number <= 0 || change == Change(None, None, None) { return Invalid; }
      if change.word.Some? && !ValidWord(change.word.value) { return Invalid; }
      if id !in actions { return NotFound; }
      var current := actions[id];
      var next := Changed(current, change);
      if next.config.builtin != current.config.builtin || !Writable(definitions, next.word, next.group, next.config) {
        return Invalid;
      }
      WritableIsCurrent(definitions, next.word, next.group, next.config);
      var stored := ResolveStored(definitions.catalog, next.word, next.config).value;
      if WordUsed(actions - {id}, next.word) {
        return Conflict;
      }
      forall other | other in actions && other != id ensures actions[other].word != next.word {
        assert other in actions - {id};
      }
      UpdateKeepsConsistent(definitions, actions, id, next.(config := stored));
      actions := actions[id := next.(config := stored)];
      outcome := Committed;
    }

    method Delete(ids: seq<Id>) returns (outcome: Outcome)
      requires Valid()
      modifies this`actions
      ensures Valid()
      ensures outcome.Committed? ==> actions == old(actions) - set id | id in ids
      ensures !outcome.Committed? ==> actions == old(actions)
      ensures outcome == if |ids| == 0 || |ids| > 100 || exists i :: 0 <= i < |ids| && ids[i].number <= 0 then Invalid
                         else if exists i :: 0 <= i < |ids| && ids[i] in old(actions) then Committed
                         else NotFound
    {
      if |ids| == 0 || |ids| > 100 || exists i :: 0 <= i < |ids| && ids[i].number <= 0 { return Invalid; }
      if !(exists i :: 0 <= i < |ids| && ids[i] in actions) { return NotFound; }
      actions := actions - set id | id in ids;
      outcome := Committed;
    }

    /** One catalog edit: selections migrate, then groups move, and everything commits together. */
    method UpdateCatalog(next: Definitions, expected: Option<Definitions>, resources: Renames, features: Renames,
                         moves: Renames)
      returns (outcome: Outcome)
      requires Valid()
      modifies this`definitions, this`actions
      ensures Valid()
      ensures var edit := Edit(old(definitions).catalog, next.catalog, resources, features);
              var removed := Removed(old(definitions).groups, next.groups, moves);
              if (resources != map[] || features != map[] || moves != map[]) && expected.None? then outcome == Invalid
              else if expected.Some? && expected.value != old(definitions) then outcome == VersionConflict
              else
                && outcome in {Committed, Invalid, GroupNotEmpty}
                && (outcome.Committed? ==>
                      && Acceptable(next.scopes, edit) && ValidMoves(moves, old(definitions).groups, next.groups)
                      && !GroupsUsed(MoveAll(old(actions), moves), removed)
                      && definitions == next && CatalogEdited(edit, moves, old(actions), actions))
                && (outcome.GroupNotEmpty? ==> GroupsUsed(MoveAll(old(actions), moves), removed))
                && (outcome.Invalid? ==>
                      || !Acceptable(next.scopes, edit) || !ValidMoves(moves, old(definitions).groups, next.groups)
                      || (!Unedited(edit) && SomeStranded(edit, old(actions))))
      ensures !outcome.Committed? ==> definitions == old(definitions) && actions == old(actions)
    {
      hide Current, RowRenewed, Stranded, SomeStranded, Sound, HasLoop, ValidEdit, ValidMoves, RowsRenewed, GroupsUsed;
      if (resources != map[] || features != map[] || moves != map[]) && expected.None? { return Invalid; }
      if expected.Some? && expected.value != definitions { return VersionConflict; }
      var edit := Edit(definitions.catalog, next.catalog, resources, features);
      var ok, migrated := ReconcileResources(next.scopes, edit, actions);
      if !ok { return Invalid; }
      var moved;
      outcome, moved := ReconcileGroups(migrated, moves, definitions.groups, next.groups);
      FollowedGroups(edit, moves, actions, migrated, Removed(definitions.groups, next.groups, moves));
      if !outcome.Committed? { return; }
      CatalogUpdateKeepsConsistent(definitions, next, edit, moves, actions, migrated);
      definitions := next;
      actions := moved;
    }

    /** The nearest registered group on the way up from the resource, or the first of its scope. */
    method AssignmentGroup(binding: ResourceBinding) returns (group: Option<string>)
      ensures ChosenGroup(definitions, binding.resourceKey, group)
    {
      hide ChosenGroup, Climb, Unfiled;
      var from, key := binding.resourceKey, binding.resourceKey;
      var visited: set<Key> := {};
      ghost var chain := [];
      while key != "" && key !in visited
        invariant Climbed(definitions, from, chain, key)
        invariant forall k :: k in visited <==> k in chain
        decreases definitions.catalog.resources.Keys - visited, key != ""
      {
        visited := visited + {key};
        var known := key in definitions.catalog.resources;
        OneStepUp(definitions, from, chain, key);
        chain := chain + [key];
        if known && definitions.catalog.resources[key].permissionGroup in definitions.groups {
          NearestIsChosen(definitions, from, chain, definitions.catalog.resources[key].permissionGroup);
          return Some(definitions.catalog.resources[key].permissionGroup);
        }
        if key in definitions.groups {
          NearestIsChosen(definitions, from, chain, key);
          return Some(key);
        }
        UnfiledKey(definitions, key);
        key := if known then definitions.catalog.resources[key].parent else "";
      }
      ClimbIsOver(definitions, from, chain, key);
      var available := ScopedGroups(definitions, Scope(binding.resourceKey));
      group := if |available| == 0 then None else Some(available[0]);
      LeastIsChosen(definitions, from, group);
    }

    /** Adds one action that grants exactly this binding, under the first drawn code that is free with its word. */
    method CreateAssigned(signature: Signature, ghost from: ResourceBinding, binding: ResourceBinding,
                          draws: seq<string>)
      returns (outcome: Outcome, code: string)
      requires Valid() && Injective(signature) && Normalize(definitions.catalog, from) == Some(binding) && |draws| == 5
      modifies this`actions, this`nextId
      ensures Valid() && outcome in {Committed, Invalid, Exhausted}
      ensures !outcome.Committed? ==> actions == old(actions)
      ensures outcome.Committed? ==>
              Inserted(definitions, signature, old(actions), actions, draws, binding, code)
      ensures outcome.Invalid? ==> Unassignable(definitions, binding, draws)
      ensures outcome.Exhausted? ==> AllDrawsTaken(old(actions), binding, draws)
    {
      hide Unassignable, DrawTaken, Inserted, Consistent, ResolveStored, Normalize, Current, ChosenGroup, FirstFree;
      code := "";
      var group := AssignmentGroup(binding);
      if group.None? {
        NoGroupToChoose(definitions, binding, draws);
        return Invalid, code;
      }
      ChosenIsRegistered(definitions, binding.resourceKey, group.value);
      for attempt := 0 to 5
        invariant Valid() && actions == old(actions)
        invariant forall draw :: draw in draws[..attempt] ==> DrawTaken(actions, binding, draw)
      {
        code := draws[attempt];
        assert draws[..attempt + 1] == draws[..attempt] + [code];
        var word := AssignedWord(binding, code);
        var stored := ResolveStored(definitions.catalog, word, AssignedConfig(binding));
        if stored.None? {
          UnresolvableDraw(definitions, binding, draws, attempt);
          return Invalid, code;
        }
        AssignedIsCurrent(definitions, signature, from, binding, code, group.value);
        var row := Action(code, group.value, word, stored.value);
        var id;
        outcome, id := Insert(row);
        if outcome.Committed? {
          FirstFreeDraw(old(actions), binding, draws, attempt);
          InsertedRow(definitions, signature, old(actions), actions, draws, binding, id, row);
          return;
        }
        TakenDraw(actions, binding, code);
      }
      assert draws[..5] == draws;
      outcome := Exhausted;
    }

    /** The oldest matching code per selected binding, over the actions of the scopes asked for. */
    method FindMatches(signature: Signature, selected: seq<ResourceBinding>)
      returns (matching: map<ResourceBinding, string>)
      requires Valid() && Injective(signature)
      ensures forall binding :: binding in selected ==>
                MatchKnown(definitions.catalog, signature, actions, matching, binding)
    {
      var scopes := set binding | binding in selected :: Scope(binding.resourceKey);
      var rows := actions;
      var inScopes := (id: Id) => id in rows && Scope(rows[id].word) in scopes;
      matching := FirstMatches(definitions.catalog, signature, rows, Keep(inScopes, SortedIds(rows)));
      forall binding | binding in selected
        ensures MatchKnown(definitions.catalog, signature, actions, matching, binding) {
        ScopedLookup(definitions, signature, rows, scopes, inScopes, binding);
      }
    }

    /** Repeating a committed request inserts nothing, since every binding then has its match. */
    method ResolveAssignment(signature: Signature, bindings: seq<ResourceBinding>, draws: nat -> seq<string>)
      returns (outcome: Outcome, codes: seq<string>)
      requires Valid() && Injective(signature) && forall n :: |draws(n)| == 5
      modifies this`actions, this`nextId
      ensures Valid() && outcome in {Committed, Invalid, Exhausted}
      ensures !outcome.Committed? ==> actions == old(actions)
      ensures outcome.Committed? ==>
                && (forall i :: 0 <= i < |bindings| ==> bindings[i].featureKeys.Some?)
                && Normalized(definitions.catalog, signature, bindings).Some?
                && (exists found :: Assigned(definitions.catalog, signature, actions, bindings, found) &&
                                    codes == ActionCodes.NormalizedCodes(found))
                && (PlainCodes(actions) ==> Assigned(definitions.catalog, signature, actions, bindings, codes))
                && OnlyCreated(definitions, signature, old(actions), actions,
                               Normalized(definitions.catalog, signature, bindings).value, draws)
                && (AllMatched(definitions.catalog, signature, old(actions), bindings) ==> actions == old(actions))
      ensures outcome.Invalid? ==> RequestRefused(definitions, signature, bindings, draws)
      ensures outcome.Exhausted? ==>
                                    exists rows :: Extends(old(actions), rows) &&
                                                   DrawsExhausted(definitions, signature, rows, bindings, draws)
    {
      hide RequestRefused, DrawsExhausted, Unassignable, PlainCodes, ActionCodes.NormalizedCodes, Normalize;
      hide Current, Consistent, ValidCatalog, Normalized, Progress, Assigned, AllMatched, Inserted, OnlyCreated;
      codes := [];
      var normalized := NormalizeRequest(definitions.catalog, signature, bindings);
      if (exists i :: 0 <= i < |bindings| && bindings[i].featureKeys.None?) || normalized.None? {
        MalformedIsRefused(definitions, signature, bindings, draws);
        return Invalid, codes;
      }
      var selected := normalized.value;
      var before := actions;
      var matching := FindMatches(signature, selected);
      ProgressStarts(definitions.catalog, signature, actions, selected, matching);
      NothingCreated(definitions, signature, actions, selected, draws);
      for n := 0 to |selected|
        invariant Valid() && Extends(before, actions)
        invariant OnlyCreated(definitions, signature, before, actions, selected, draws)
        invariant Progress(definitions.catalog, signature, before, actions, selected, n, matching, codes)
      {
        var binding := selected[n];
        ghost var rows := actions;
        if binding !in matching {
          ghost var from := OnlyFromRequest(definitions.catalog, signature, bindings, binding);
          var code;
          outcome, code := CreateAssigned(signature, from, binding, draws(n));
          if !outcome.Committed? {
            if outcome.Invalid? {
              RefusedAt(definitions, signature, bindings, draws, n);
            } else {
              ExhaustedAt(definitions, signature, rows, bindings, draws, n);
            }
            actions := before;
            return outcome, [];
          }
          UnknownIsUnmatched(definitions.catalog, signature, before, rows, selected, n, matching, codes);
          OnlyCreatedByInsert(definitions, signature, before, rows, actions, selected, n, draws, code);
          ProgressByInsert(definitions, signature, before, rows, actions, selected, n, matching, codes, draws(n), code);
          matching := matching[binding := code];
        }
        ProgressByCode(definitions.catalog, signature, before, actions, selected, n, matching, codes);
        codes := codes + [matching[binding]];
      }
      AssignedTogether(definitions, signature, before, actions, bindings, matching, codes);
      PlainCodesAreKept(definitions.catalog, signature, actions, bindings, codes);
      codes := ActionCodes.NormalizeCodes(codes);
      outcome := Committed;
    }
  }

  /** No code has space around it, as for the codes the generator draws. */
  predicate PlainCodes(rows: Rows) {
    forall id :: id in rows ==> ActionCodes.Plain(rows[id].code)
  }

  lemma PlainCodesAreKept(catalog: Catalog, signature: Signature, rows: Rows, bindings: seq<ResourceBinding>,
                          codes: seq<string>)
    requires Injective(signature) && Assigned(catalog, signature, rows, bindings, codes)
    ensures PlainCodes(rows) ==> ActionCodes.NormalizedCodes(codes) == codes
  {
    hide Normalized;
    if PlainCodes(rows) {
      forall code | code in codes ensures ActionCodes.Plain(code) {
        var i :| 0 <= i < |codes| && codes[i] == code;
        var id := FirstIsASatisfyingRow(catalog, signature, rows, SortedIds(rows),
                                        Normalized(catalog, signature, bindings).value[i]);
      }
      ActionCodes.PlainCodesStay(codes);
    }
  }

  /** There is no group to file it under, or the definition under some drawn code is not valid. */
  ghost predicate Unassignable(definitions: Definitions, binding: ResourceBinding, draws: seq<string>) {
    || ChosenGroup(definitions, binding.resourceKey, None)
    || (exists draw :: draw in draws &&
                       ResolveStored(definitions.catalog, AssignedWord(binding, draw), AssignedConfig(binding)).None?)
  }

  predicate DrawTaken(rows: Rows, binding: ResourceBinding, draw: string) {
    CodeUsed(rows, draw) || WordUsed(rows, AssignedWord(binding, draw))
  }

  predicate AllDrawsTaken(rows: Rows, binding: ResourceBinding, draws: seq<string>) {
    forall draw :: draw in draws ==> DrawTaken(rows, binding, draw)
  }

  predicate Malformed(catalog: Catalog, signature: Signature, bindings: seq<ResourceBinding>)
    requires Injective(signature)
  {
    (exists i :: 0 <= i < |bindings| && bindings[i].featureKeys.None?) || Normalized(catalog, signature, bindings).None?
  }

  /** A request is refused for its own form, or because some missing definition cannot be created. */
  ghost predicate RequestRefused(definitions: Definitions, signature: Signature, bindings: seq<ResourceBinding>,
                                 draws: nat -> seq<string>)
    requires Injective(signature)
  {
    Malformed(definitions.catalog, signature, bindings)
    || exists n :: 0 <= n < |Normalized(definitions.catalog, signature, bindings).value|
                   && Unassignable(definitions, Normalized(definitions.catalog, signature, bindings).value[n], draws(n))
  }

  ghost predicate DrawsExhausted(definitions: Definitions, signature: Signature, rows: Rows,
                                 bindings: seq<ResourceBinding>, draws: nat -> seq<string>)
    requires Injective(signature)
  {
    && !Malformed(definitions.catalog, signature, bindings)
    && exists n :: 0 <= n < |Normalized(definitions.catalog, signature, bindings).value|
         && AllDrawsTaken(rows, Normalized(definitions.catalog, signature, bindings).value[n], draws(n))
  }

  lemma MalformedIsRefused(definitions: Definitions, signature: Signature, bindings: seq<ResourceBinding>,
                           draws: nat -> seq<string>)
    requires Injective(signature) && Malformed(definitions.catalog, signature, bindings)
    ensures RequestRefused(definitions, signature, bindings, draws)
  {
  }

  lemma RefusedAt(definitions: Definitions, signature: Signature, bindings: seq<ResourceBinding>,
                  draws: nat -> seq<string>, n: nat)
    requires Injective(signature) && Normalized(definitions.catalog, signature, bindings).Some?
    requires n < |Normalized(definitions.catalog, signature, bindings).value|
    requires Unassignable(definitions, Normalized(definitions.catalog, signature, bindings).value[n], draws(n))
    ensures RequestRefused(definitions, signature, bindings, draws)
  {
    hide Unassignable, Normalized;
  }

  lemma ExhaustedAt(definitions: Definitions, signature: Signature, rows: Rows, bindings: seq<ResourceBinding>,
                    draws: nat -> seq<string>, n: nat)
    requires Injective(signature) && !Malformed(definitions.catalog, signature, bindings)
    requires n < |Normalized(definitions.catalog, signature, bindings).value|
    requires AllDrawsTaken(rows, Normalized(definitions.catalog, signature, bindings).value[n], draws(n))
    ensures DrawsExhausted(definitions, signature, rows, bindings, draws)
  {
    hide Normalized, AllDrawsTaken;
  }

  lemma TakenDraw(rows: Rows, binding: ResourceBinding, draw: string)
    requires CodeUsed(rows, draw) || WordUsed(rows, AssignedWord(binding, draw))
    ensures DrawTaken(rows, binding, draw)
  {
  }

  lemma NoGroupToChoose(definitions: Definitions, binding: ResourceBinding, draws: seq<string>)
    requires ChosenGroup(definitions, binding.resourceKey, None)
    ensures Unassignable(definitions, binding, draws)
  {
  }

  lemma UnresolvableDraw(definitions: Definitions, binding: ResourceBinding, draws: seq<string>, n: nat)
    requires n < |draws|
    requires ResolveStored(definitions.catalog, AssignedWord(binding, draws[n]), AssignedConfig(binding)).None?
    ensures Unassignable(definitions, binding, draws)
  {
    assert draws[n] in draws;
  }

  lemma AssignedIsCurrent(definitions: Definitions, signature: Signature, from: ResourceBinding,
                          binding: ResourceBinding, code: string,
                          group: string)
    requires Injective(signature) && Normalize(definitions.catalog, from) == Some(binding) &&
             group in definitions.groups
    requires ResolveStored(definitions.catalog, AssignedWord(binding, code), AssignedConfig(binding)).Some?
    ensures var word := AssignedWord(binding, code);
            var stored := ResolveStored(definitions.catalog, word, AssignedConfig(binding)).value;
            && Current(definitions, Action(code, group, word, stored))
            && AssignmentBindings(definitions.catalog, signature, word, stored) == Some([binding])
  {
    var word := AssignedWord(binding, code);
    var stored := ResolveStored(definitions.catalog, word, AssignedConfig(binding)).value;
    ResolvedIsUpToDate(definitions.catalog, word, AssignedConfig(binding));
    hide ResolveStored, UpToDate, Normalize, AssignmentBindings;
    CreatedSatisfies(definitions.catalog, signature, word, from, binding, stored);
  }

  lemma FirstFreeDraw(rows: Rows, binding: ResourceBinding, draws: seq<string>, n: nat)
    requires n < |draws| && forall draw :: draw in draws[..n] ==> DrawTaken(rows, binding, draw)
    ensures FirstFree(rows, binding, draws, draws[n])
  {
    hide DrawTaken;
  }

  lemma InsertedRow(definitions: Definitions, signature: Signature, before: Rows, after: Rows, draws: seq<string>,
                    binding: ResourceBinding, id: Id, row: Action)
    requires Injective(signature) && InsertedAs(definitions, signature, before, after, draws, binding, id, row)
    ensures Inserted(definitions, signature, before, after, draws, binding, row.code)
  {
  }

  /** The map holds the first match of a binding, and nothing when there is none. */
  ghost predicate MatchKnown(catalog: Catalog, signature: Signature, rows: Rows,
                             matching: map<ResourceBinding, string>, binding: ResourceBinding)
    requires Injective(signature)
  {
    FirstMatch(catalog, signature, rows, binding) == if binding in matching then Some(matching[binding]) else None
  }

  ghost predicate Matched(catalog: Catalog, signature: Signature, rows: Rows, ids: seq<Id>,
                          matching: map<ResourceBinding, string>)
    requires Injective(signature) && forall id :: id in ids ==> id in rows
  {
    forall binding :: First(catalog, signature, rows, ids, binding) == if binding in matching
        then Some(matching[binding]) else None
  }

  method FirstMatches(catalog: Catalog, signature: Signature, rows: Rows, ids: seq<Id>)
    returns (matching: map<ResourceBinding, string>)
    requires Injective(signature) && forall id :: id in ids ==> id in rows
    ensures Matched(catalog, signature, rows, ids, matching)
  {
    matching := map[];
    for n := 0 to |ids|
      invariant Matched(catalog, signature, rows, ids[..n], matching)
    {
      assert ids[n] in ids && ids[..n + 1] == ids[..n] + [ids[n]];
      var row := rows[ids[n]];
      var known := AssignmentBindings(catalog, signature, row.word, row.config);
      OneMoreCandidate(catalog, signature, rows, ids[..n], ids[n], matching);
      if known.Some? && |known.value| == 1 && known.value[0] !in matching {
        matching := matching[known.value[0] := row.code];
      }
    }
    assert ids[..|ids|] == ids;
  }

  lemma OneMoreCandidate(catalog: Catalog, signature: Signature, rows: Rows, ids: seq<Id>, id: Id,
                         matching: map<ResourceBinding, string>)
    requires Injective(signature) && id in rows && forall listed :: listed in ids ==> listed in rows
    requires Matched(catalog, signature, rows, ids, matching)
    ensures var known := AssignmentBindings(catalog, signature, rows[id].word, rows[id].config);
            Matched(catalog, signature, rows, ids + [id],
                    if known.Some? && |known.value| == 1 && known.value[0] !in matching
                    then matching[known.value[0] := rows[id].code] else matching)
  {
    var known := AssignmentBindings(catalog, signature, rows[id].word, rows[id].config);
    var next := if known.Some? && |known.value| == 1 && known.value[0] !in matching
                then matching[known.value[0] := rows[id].code] else matching;
    forall binding
      ensures First(catalog, signature, rows, ids + [id], binding) == if binding in next then Some(next[binding])
          else None
    {
      FirstAppended(catalog, signature, rows, ids, id, binding);
      if known.Some? && |known.value| == 1 {
        assert known.value == [known.value[0]];
        assert [binding][0] == binding;
      }
    }
  }

  /** The definition stored for a binding that no action matched: its word, its resolved form and its group. */
  ghost predicate AssignedAction(definitions: Definitions, binding: ResourceBinding, draws: seq<string>, row: Action) {
    && row.code in draws
    && row.word == AssignedWord(binding, row.code)
    && ResolveStored(definitions.catalog, row.word, AssignedConfig(binding)) == Some(row.config)
    && ChosenGroup(definitions, binding.resourceKey, Some(row.group))
  }

  /** All draws ahead of the code were taken. */
  predicate FirstFree(rows: Rows, binding: ResourceBinding, draws: seq<string>, code: string) {
    exists k :: 0 <= k < |draws| && draws[k] == code && AllDrawsTaken(rows, binding, draws[..k])
  }

  ghost predicate InsertedAs(definitions: Definitions, signature: Signature, before: Rows, after: Rows,
                             draws: seq<string>, binding: ResourceBinding, id: Id, row: Action)
    requires Injective(signature)
  {
    && (forall known :: known in before ==> known.number < id.number)
    && after == before[id := row]
    && AssignedAction(definitions, binding, draws, row)
    && FirstFree(before, binding, draws, row.code)
    && AssignmentBindings(definitions.catalog, signature, row.word, row.config) == Some([binding])
  }

  ghost predicate Inserted(definitions: Definitions, signature: Signature, before: Rows, after: Rows,
                           draws: seq<string>, binding: ResourceBinding, code: string)
    requires Injective(signature)
  {
    exists id, row :: InsertedAs(definitions, signature, before, after, draws, binding, id, row) && row.code == code
  }

  lemma MatchesAfterInsert(definitions: Definitions, signature: Signature, before: Rows, after: Rows,
                           draws: seq<string>, binding: ResourceBinding, code: string, other: ResourceBinding)
    requires Injective(signature) && Inserted(definitions, signature, before, after, draws, binding, code)
    ensures var known := FirstMatch(definitions.catalog, signature, before, other);
            FirstMatch(definitions.catalog, signature, after, other)
            == if known.Some? then known else if other == binding then Some(code) else None
  {
    var id, row :| InsertedAs(definitions, signature, before, after, draws, binding, id, row) && row.code == code;
    MatchAfterInsert(definitions.catalog, signature, before, id, row, other);
    assert [binding][0] == binding && [other][0] == other;
  }

  lemma ScopedLookup(definitions: Definitions, signature: Signature, rows: Rows, scopes: set<string>,
                     inScopes: Id -> bool,
                     binding: ResourceBinding)
    requires Injective(signature) && Consistent(definitions, rows)
    requires forall id :: inScopes(id) <==> id in rows && Scope(rows[id].word) in scopes
    requires Scope(binding.resourceKey) in scopes
    ensures First(definitions.catalog, signature, rows, Keep(inScopes, SortedIds(rows)), binding)
         == FirstMatch(definitions.catalog, signature, rows, binding)
  {
    forall id | id in SortedIds(rows) && Satisfies(definitions.catalog, signature, rows[id], binding)
      ensures inScopes(id) {
      assert Current(definitions, rows[id]);
      SatisfiedInOwnScope(definitions.catalog, signature, rows[id], binding);
    }
    FirstAmongKept(definitions.catalog, signature, rows, SortedIds(rows), inScopes, binding);
  }

  ghost predicate Extends(before: Rows, after: Rows) {
    forall id :: id in before ==> id in after && after[id] == before[id]
  }

  /** The first n selected bindings have their codes, and rows were added only for bindings without a match. */
  ghost predicate Progress(catalog: Catalog, signature: Signature, before: Rows, rows: Rows,
                           selected: seq<ResourceBinding>, n: nat,
                           matching: map<ResourceBinding, string>, codes: seq<string>)
    requires Injective(signature) && n <= |selected|
  {
    && |codes| == n
    && (forall i :: 0 <= i < n ==> FirstMatch(catalog, signature, rows, selected[i]) == Some(codes[i]))
    && (forall i :: 0 <= i < |selected| ==> MatchKnown(catalog, signature, rows, matching, selected[i]))
    && ((forall i :: 0 <= i < |selected| ==> FirstMatch(catalog, signature, before, selected[i]).Some?) ==>
        rows == before)
  }

  lemma ProgressByInsert(definitions: Definitions, signature: Signature, before: Rows, rows: Rows, more: Rows,
                         selected: seq<ResourceBinding>, n: nat,
                         matching: map<ResourceBinding, string>, codes: seq<string>, draws: seq<string>, code: string)
    requires Injective(signature) && n < |selected|
    requires Progress(definitions.catalog, signature, before, rows, selected, n, matching, codes)
    requires selected[n] !in matching && Inserted(definitions, signature, rows, more, draws, selected[n], code)
    ensures Progress(definitions.catalog, signature, before, more, selected, n, matching[selected[n] := code], codes)
    ensures Extends(rows, more)
  {
    hide FirstMatch, AssignmentBindings, AssignedAction, FirstFree;
    var catalog := definitions.catalog;
    forall i | 0 <= i < |selected|
      ensures MatchKnown(catalog, signature, more, matching[selected[n] := code], selected[i]) {
      MatchesAfterInsert(definitions, signature, rows, more, draws, selected[n], code, selected[i]);
    }
    forall i | 0 <= i < n ensures FirstMatch(catalog, signature, more, selected[i]) == Some(codes[i]) {
      MatchesAfterInsert(definitions, signature, rows, more, draws, selected[n], code, selected[i]);
    }
    assert MatchKnown(catalog, signature, rows, matching, selected[n]);
    var id, row :| InsertedAs(definitions, signature, rows, more, draws, selected[n], id, row);
  }

  /** The row was created for the k-th selected binding, which no action matched, and now is its match. */
  ghost predicate CreatedFor(definitions: Definitions, signature: Signature, before: Rows, rows: Rows,
                             selected: seq<ResourceBinding>, k: nat, draws: nat -> seq<string>, row: Action)
    requires Injective(signature)
  {
    && k < |selected|
    && FirstMatch(definitions.catalog, signature, before, selected[k]).None?
    && FirstMatch(definitions.catalog, signature, rows, selected[k]) == Some(row.code)
    && AssignedAction(definitions, selected[k], draws(k), row)
  }

  /** Every added row was created for a selected binding, and every match there was stays. */
  ghost predicate OnlyCreated(definitions: Definitions, signature: Signature, before: Rows, rows: Rows,
                              selected: seq<ResourceBinding>, draws: nat -> seq<string>)
    requires Injective(signature)
  {
    && Extends(before, rows)
    && (forall id :: id in rows && id !in before ==>
          exists k :: CreatedFor(definitions, signature, before, rows, selected, k, draws, rows[id]))
    && forall binding :: FirstMatch(definitions.catalog, signature, before, binding).Some? ==>
         FirstMatch(definitions.catalog, signature, rows, binding) ==
         FirstMatch(definitions.catalog, signature, before, binding)
  }

  lemma NothingCreated(definitions: Definitions, signature: Signature, rows: Rows, selected: seq<ResourceBinding>,
                       draws: nat -> seq<string>)
    requires Injective(signature)
    ensures OnlyCreated(definitions, signature, rows, rows, selected, draws)
  {
  }

  lemma OnlyCreatedByInsert(definitions: Definitions, signature: Signature, before: Rows, rows: Rows, more: Rows,
                            selected: seq<ResourceBinding>, n: nat, draws: nat -> seq<string>, code: string)
    requires Injective(signature) && n < |selected|
    requires OnlyCreated(definitions, signature, before, rows, selected, draws)
    requires FirstMatch(definitions.catalog, signature, rows, selected[n]).None?
    requires Inserted(definitions, signature, rows, more, draws(n), selected[n], code)
    ensures OnlyCreated(definitions, signature, before, more, selected, draws)
  {
    hide FirstMatch, AssignmentBindings, AssignedAction, FirstFree;
    var catalog := definitions.catalog;
    forall binding
      ensures FirstMatch(catalog, signature, rows, binding).Some? ==>
                FirstMatch(catalog, signature, more, binding) == FirstMatch(catalog, signature, rows, binding) {
      MatchesAfterInsert(definitions, signature, rows, more, draws(n), selected[n], code, binding);
    }
    MatchesAfterInsert(definitions, signature, rows, more, draws(n), selected[n], code, selected[n]);
    var new_, row :| InsertedAs(definitions, signature, rows, more, draws(n), selected[n], new_, row) &&
                     row.code == code;
    assert forall id :: id in rows ==> id in more && more[id] == rows[id];
    forall id | id in more && id !in before
      ensures exists k :: CreatedFor(definitions, signature, before, more, selected, k, draws, more[id]) {
      if id in rows {
        var k :| CreatedFor(definitions, signature, before, rows, selected, k, draws, rows[id]);
        assert CreatedFor(definitions, signature, before, more, selected, k, draws, more[id]);
      } else {
        assert more[id] == row;
        assert CreatedFor(definitions, signature, before, more, selected, n, draws, row);
      }
    }
  }

  lemma UnknownIsUnmatched(catalog: Catalog, signature: Signature, before: Rows, rows: Rows,
                           selected: seq<ResourceBinding>, n: nat, matching: map<ResourceBinding, string>,
                           codes: seq<string>)
    requires Injective(signature) && n < |selected| && selected[n] !in matching
    requires Progress(catalog, signature, before, rows, selected, n, matching, codes)
    ensures FirstMatch(catalog, signature, rows, selected[n]).None?
  {
    hide FirstMatch;
    assert MatchKnown(catalog, signature, rows, matching, selected[n]);
  }

  /** One distinct code per requested binding, each the oldest action that grants exactly that binding. */
  ghost predicate Assigned(catalog: Catalog, signature: Signature, rows: Rows, bindings: seq<ResourceBinding>,
                           codes: seq<string>)
    requires Injective(signature)
  {
    var normalized := Normalized(catalog, signature, bindings);
    && normalized.Some?
    && |codes| == |bindings| == |normalized.value|
    && (forall i :: 0 <= i < |codes| ==> FirstMatch(catalog, signature, rows, normalized.value[i]) == Some(codes[i]))
    && (forall i, j :: 0 <= i < j < |codes| ==> codes[i] != codes[j])
  }

  ghost predicate AllMatched(catalog: Catalog, signature: Signature, rows: Rows, bindings: seq<ResourceBinding>)
    requires Injective(signature)
  {
    var normalized := Normalized(catalog, signature, bindings);
    normalized.Some? && forall i :: 0 <= i < |normalized.value| ==>
                                    FirstMatch(catalog, signature, rows, normalized.value[i]).Some?
  }

  lemma ProgressStarts(catalog: Catalog, signature: Signature, rows: Rows, selected: seq<ResourceBinding>,
                       matching: map<ResourceBinding, string>)
    requires Injective(signature)
    requires forall binding :: binding in selected ==> MatchKnown(catalog, signature, rows, matching, binding)
    ensures Progress(catalog, signature, rows, rows, selected, 0, matching, [])
  {
    hide FirstMatch;
  }

  lemma ProgressByCode(catalog: Catalog, signature: Signature, before: Rows, rows: Rows,
                       selected: seq<ResourceBinding>, n: nat,
                       matching: map<ResourceBinding, string>, codes: seq<string>)
    requires Injective(signature) && n < |selected| && selected[n] in matching
    requires Progress(catalog, signature, before, rows, selected, n, matching, codes)
    ensures Progress(catalog, signature, before, rows, selected, n + 1, matching, codes + [matching[selected[n]]])
  {
    hide FirstMatch;
    assert MatchKnown(catalog, signature, rows, matching, selected[n]);
  }

  lemma AssignedTogether(definitions: Definitions, signature: Signature, before: Rows, rows: Rows,
                         bindings: seq<ResourceBinding>,
                         matching: map<ResourceBinding, string>, codes: seq<string>)
    requires Injective(signature) && Consistent(definitions, rows)
    requires var selected := Normalized(definitions.catalog, signature, bindings);
             && selected.Some?
             && Progress(definitions.catalog, signature, before, rows, selected.value, |selected.value|, matching,
                         codes)
    ensures Assigned(definitions.catalog, signature, rows, bindings, codes)
    ensures AllMatched(definitions.catalog, signature, before, bindings) ==> rows == before
  {
    hide Current, FirstMatch;
    var selected := Normalized(definitions.catalog, signature, bindings).value;
    NormalizedCounts(definitions.catalog, signature, bindings);
    forall i, j | 0 <= i < j < |codes| ensures codes[i] != codes[j] {
      SignatureOrder(signature);
      SortedAscends(BySignature(signature), NormalSet(definitions.catalog, bindings), i, j);
      DifferentBindingsDifferentCodes(definitions.catalog, signature, rows, selected[i], selected[j]);
    }
  }

  /** A second request, in any order, finds every binding matched and is given the same codes. */
  lemma RepeatedAssignment(catalog: Catalog, signature: Signature, rows: Rows, first: seq<ResourceBinding>,
                           again: seq<ResourceBinding>,
                           codes: seq<string>, repeated: seq<string>)
    requires Injective(signature) && multiset(first) == multiset(again)
    requires Assigned(catalog, signature, rows, first, codes)
    ensures AllMatched(catalog, signature, rows, again)
    ensures Assigned(catalog, signature, rows, again, repeated) ==> repeated == codes
  {
    OrderDoesNotMatter(catalog, signature, first, again);
  }

  /** Rows are migrated by the resource edit and then moved all at once. */
  ghost predicate CatalogEdited(edit: Edit, moves: Renames, before: Rows, after: Rows) {
    exists migrated :: after == MoveAll(migrated, moves) && RowsFollow(edit, before, migrated)
  }

  lemma InsertKeepsConsistent(definitions: Definitions, rows: Rows, id: Id, action: Action)
    requires Consistent(definitions, rows) && Current(definitions, action) && id !in rows
    requires !CodeUsed(rows, action.code) && !WordUsed(rows, action.word)
    ensures Consistent(definitions, rows[id := action])
  {
    hide Current;
  }

  lemma UpdateKeepsConsistent(definitions: Definitions, rows: Rows, id: Id, action: Action)
    requires Consistent(definitions, rows) && Current(definitions, action) && id in rows
    requires action.code == rows[id].code
    requires forall other :: other in rows && other != id ==> rows[other].word != action.word
    ensures Consistent(definitions, rows[id := action])
  {
    hide Current;
  }

  lemma MigratedRow(before: Definitions, after: Definitions, edit: Edit, rows: Rows, migrated: Rows, id: Id)
    requires Consistent(before, rows) && edit.before == before.catalog && edit.after == after.catalog
    requires RowsFollow(edit, rows, migrated)
    requires id in rows
    ensures id in migrated && UpToDate(after.catalog, migrated[id].word, migrated[id].config)
    ensures migrated[id].code == rows[id].code && migrated[id].word == rows[id].word &&
            migrated[id].group == rows[id].group
  {
    assert Current(before, rows[id]);
    assert Unedited(edit) || RowRenewed(edit, rows[id], migrated[id]);
  }

  /** A migration keeps every group. */
  lemma FollowedGroups(edit: Edit, moves: Renames, rows: Rows, migrated: Rows, groups: set<string>)
    requires RowsFollow(edit, rows, migrated)
    ensures GroupsUsed(MoveAll(migrated, moves), groups) <==> GroupsUsed(MoveAll(rows, moves), groups)
  {
    forall id | id in rows ensures id in migrated &&
        MoveAll(migrated, moves)[id].group == MoveAll(rows, moves)[id].group {
      assert Unedited(edit) || RowRenewed(edit, rows[id], migrated[id]);
    }
  }

  lemma WritableIsCurrent(definitions: Definitions, word: string, group: string, config: Config)
    requires Writable(definitions, word, group, config)
    ensures ResolveStored(definitions.catalog, word, config).Some?
    ensures forall code :: Current(definitions,
                                   Action(code, group, word, ResolveStored(definitions.catalog, word, config).value))
  {
    ResolvedIsUpToDate(definitions.catalog, word, config);
  }

  lemma MovedRow(definitions: Definitions, moves: Renames, row: Action)
    requires UpToDate(definitions.catalog, row.word, row.config) && MovedGroup(moves, row.group) in definitions.groups
    ensures Current(definitions, row.(group := MovedGroup(moves, row.group)))
  {
  }

  /** After the migration every remaining action is current again. */
  lemma UpdatedRowIsCurrent(before: Definitions, after: Definitions, edit: Edit, moves: Renames, rows: Rows,
                            migrated: Rows, id: Id)
    requires Consistent(before, rows) && edit.before == before.catalog && edit.after == after.catalog
    requires RowsFollow(edit, rows, migrated)
    requires ValidMoves(moves, before.groups, after.groups)
    requires !GroupsUsed(MoveAll(migrated, moves), Removed(before.groups, after.groups, moves))
    requires id in rows
    ensures id in migrated && Current(after, MoveAll(migrated, moves)[id])
    ensures migrated[id].code == rows[id].code && migrated[id].word == rows[id].word
  {
    MigratedRow(before, after, edit, rows, migrated, id);
    assert Current(before, rows[id]);
    MovedGroupIsRegistered(migrated, moves, before.groups, after.groups, id);
    MovedRow(after, moves, migrated[id]);
  }

  lemma CatalogUpdateKeepsConsistent(before: Definitions, after: Definitions, edit: Edit, moves: Renames, rows: Rows,
                                     migrated: Rows)
    requires Consistent(before, rows) && edit.before == before.catalog && edit.after == after.catalog
    requires RowsFollow(edit, rows, migrated)
    requires ValidMoves(moves, before.groups, after.groups)
    requires !GroupsUsed(MoveAll(migrated, moves), Removed(before.groups, after.groups, moves))
    ensures Consistent(after, MoveAll(migrated, moves))
    ensures CatalogEdited(edit, moves, rows, MoveAll(migrated, moves))
    ensures MoveAll(migrated, moves).Keys == rows.Keys
  {
    hide Current, RowRenewed;
    forall id | id in rows
      ensures id in migrated && Current(after, MoveAll(migrated, moves)[id])
      ensures migrated[id].code == rows[id].code && migrated[id].word == rows[id].word
    {
      UpdatedRowIsCurrent(before, after, edit, moves, rows, migrated, id);
    }
  }
}
