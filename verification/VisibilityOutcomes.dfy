/**
  What the cached private flag is after any run, said by the actions of the run alone: the last
  override set for a project, the last rule set on each folder, the last automatic value.
 */
module VisibilityOutcomes {
  import opened Visibility

  // ---- the flag, read off the tables ----

  /** The rule on prefix is the longest of those on the project's name or on a folder above it. */
  ghost predicate Governs(folders: Folders, name: string, prefix: string) {
    && prefix in folders && OnOrAbove(prefix, name)
    && forall q :: q in folders && OnOrAbove(q, name) ==> |q| <= |prefix|
  }

  /** The folder is the name itself or leads up to one of its slashes. */
  predicate OnOrAbove(prefix: string, name: string) {
    prefix <= name && prefix != "" && (|prefix| == |name| || name[|prefix|] == '/')
  }

  lemma OnOrAboveCovers(prefix: string, name: string)
    ensures OnOrAbove(prefix, name) <==> prefix != "" && FolderCovers(prefix, name)
  {
    CoversIffCut(prefix, name);
  }

  lemma GovernsIsLongest(folders: Folders, name: string, prefix: string)
    requires Governs(folders, name, prefix) && "" !in folders
    ensures FolderMode(folders, name) == folders[prefix]
  {
    OnOrAboveCovers(prefix, name);
    LongestIs(folders, name, prefix);
    OnOrAboveCovers(Longest(folders, name), name);
  }

  lemma NoneGoverns(folders: Folders, name: string)
    requires forall q :: q in folders ==> !OnOrAbove(q, name)
    ensures FolderMode(folders, name) == Auto
  {
    LongestUpToIs(folders, name, |name|);
    OnOrAboveCovers(Longest(folders, name), name);
  }

  /**
    A project's own override decides; without one the governing folder rule decides; without that
    either, the automatic value. An override row that is not there yet reads as automatic.
   */
  ghost predicate Decided(s: State, id: int)
    requires id in s.projects
  {
    var p, row := s.projects[id], RowOf(s, id);
    && (row.mode == Private ==> p.isPrivate)
    && (row.mode == Public ==> !p.isPrivate)
    && (row.mode == Auto ==> forall f :: Governs(s.folders, p.name, f) ==>
            && (s.folders[f] == Private ==> p.isPrivate)
            && (s.folders[f] == Public ==> !p.isPrivate)
            && (s.folders[f] == Auto ==> p.isPrivate == row.autoPrivate))
    && (row.mode == Auto && (forall q :: q in s.folders ==> !OnOrAbove(q, p.name)) ==> p.isPrivate == row.autoPrivate)
  }

  lemma InvDecides(s: State, id: int)
    requires Inv(s) && id in s.projects
    ensures Decided(s, id)
  {
    assert Agrees(s, id);
    var p, row := s.projects[id], RowOf(s, id);
    if row.mode == Auto {
      forall f | Governs(s.folders, p.name, f)
        ensures FolderMode(s.folders, p.name) == s.folders[f]
      {
        GovernsIsLongest(s.folders, p.name, f);
      }
      if forall q :: q in s.folders ==> !OnOrAbove(q, p.name) {
        NoneGoverns(s.folders, p.name);
      }
    }
  }

  /** Over every run the cached flag is what the override, the folder rules and the automatic value decide. */
  lemma RunDecides(s: State, actions: seq<Action>, id: int)
    requires Migrated(s) && id in Run(s, actions).projects
    ensures Decided(Run(s, actions), id)
  {
    MigratedInv(s);
    RunKeeps(s, actions);
    InvDecides(Run(s, actions), id);
  }

  // ---- the tables, said by the actions ----

  predicate SetsMode(a: Action, id: int) {
    a.SetMode? && a.id == id
  }

  predicate Syncs(a: Action, id: int) {
    a.Sync? && a.id == id
  }

  predicate SetsFolder(a: Action, prefix: string) {
    a.SetFolder? && Trim(a.prefix) == prefix
  }

  /** The rules record each project's name and override row. */
  lemma RulesRecord(s: State, id: int)
    ensures id in RulesOf(s).names <==> id in s.projects
    ensures id in RulesOf(s).rows <==> id in s.projects
    ensures id in s.projects ==> RulesOf(s).names[id] == s.projects[id].name && RulesOf(s).rows[id] == RowOf(s, id)
  {
  }

  lemma RulesSay(r: Rules, a: Action, id: int)
    requires id in r.names && id in r.rows && id < r.next
    ensures id in NextRules(r, a).names && id in NextRules(r, a).rows && NextRules(r, a).names[id] == r.names[id]
    ensures NextRules(r, a).rows[id].mode == if SetsMode(a, id) then a.mode else r.rows[id].mode
    ensures NextRules(r, a).rows[id].autoPrivate == if Syncs(a, id) then a.autoPrivate else r.rows[id].autoPrivate
  {
  }

  /** What one action does to a project that is there. */
  lemma StepSays(s: State, a: Action, id: int)
    requires Inv(s) && id in s.projects
    ensures id in Next(s, a).projects && Next(s, a).projects[id].name == s.projects[id].name
    ensures RowOf(Next(s, a), id).mode == if SetsMode(a, id) then a.mode else RowOf(s, id).mode
    ensures RowOf(Next(s, a), id).autoPrivate == if Syncs(a, id) then a.autoPrivate else RowOf(s, id).autoPrivate
  {
    NextKeeps(s, a);
    RulesRecord(s, id);
    RulesSay(RulesOf(s), a, id);
    RulesRecord(Next(s, a), id);
  }

  lemma StepFolder(s: State, a: Action, f: string)
    requires Inv(s) && f != ""
    ensures SetsFolder(a, f) ==> (f in Next(s, a).folders <==> a.mode != Auto)
    ensures SetsFolder(a, f) && a.mode != Auto ==> Next(s, a).folders[f] == a.mode
    ensures !SetsFolder(a, f) ==> (f in Next(s, a).folders <==> f in s.folders)
    ensures !SetsFolder(a, f) && f in s.folders ==> Next(s, a).folders[f] == s.folders[f]
  {
    NextKeeps(s, a);
    assert RulesOf(Next(s, a)).folders == Next(s, a).folders;
  }

  /** A new project has no override, and the value it was created with as its automatic one. */
  lemma CreateSays(s: State, name: string, private: bool)
    requires Inv(s) && forall id :: id in s.projects ==> s.projects[id].name != name
    ensures var s' := Next(s, Create(name, private));
      s.next !in s.projects && s.next in s'.projects && s'.projects[s.next].name == name
          && RowOf(s', s.next) == Row(Auto, private)
  {
    NextKeeps(s, Create(name, private));
    var s' := Next(s, Create(name, private));
    assert forall id :: id in RulesOf(s).names ==> RulesOf(s).names[id] == s.projects[id].name;
    assert s.next in RulesOf(s').names;
    assert RulesOf(s').rows[s.next] == RowOf(s', s.next) && RulesOf(s').names[s.next] == s'.projects[s.next].name;
  }

  lemma RunSnoc(s: State, actions: seq<Action>, n: nat)
    requires n < |actions|
    ensures Run(s, actions[..n + 1]) == Next(Run(s, actions[..n]), actions[n])
  {
    assert actions[..n + 1][..n] == actions[..n];
  }

  lemma RunInv(s: State, actions: seq<Action>, n: nat)
    requires Migrated(s) && n <= |actions|
    ensures Inv(Run(s, actions[..n]))
  {
    MigratedInv(s);
    RunKeeps(s, actions[..n]);
  }

  /** A project that is there stays, under its name. */
  lemma {:induction false} StaysBetween(s: State, actions: seq<Action>, k: nat, n: nat, id: int)
    requires Migrated(s) && k <= n <= |actions| && id in Run(s, actions[..k]).projects
    ensures id in Run(s, actions[..n]).projects
    ensures Run(s, actions[..n]).projects[id].name == Run(s, actions[..k]).projects[id].name
    decreases n
  {
    if k < n {
      var m := n - 1;
      StaysBetween(s, actions, k, m, id);
      RunInv(s, actions, m);
      RunSnoc(s, actions, m);
      StepSays(Run(s, actions[..m]), actions[m], id);
    }
  }

  /** It keeps its override until an action sets another. */
  lemma {:induction false} ModeBetween(s: State, actions: seq<Action>, k: nat, n: nat, id: int)
    requires Migrated(s) && k <= n <= |actions| && id in Run(s, actions[..k]).projects
    requires forall j :: k <= j < n ==> !SetsMode(actions[j], id)
    ensures id in Run(s, actions[..n]).projects
    ensures RowOf(Run(s, actions[..n]), id).mode == RowOf(Run(s, actions[..k]), id).mode
    decreases n
  {
    if k < n {
      var m := n - 1;
      ModeBetween(s, actions, k, m, id);
      RunInv(s, actions, m);
      RunSnoc(s, actions, m);
      StepSays(Run(s, actions[..m]), actions[m], id);
    }
  }

  /** It keeps its automatic value until the source says otherwise. */
  lemma {:induction false} AutoBetween(s: State, actions: seq<Action>, k: nat, n: nat, id: int)
    requires Migrated(s) && k <= n <= |actions| && id in Run(s, actions[..k]).projects
    requires forall j :: k <= j < n ==> !Syncs(actions[j], id)
    ensures id in Run(s, actions[..n]).projects
    ensures RowOf(Run(s, actions[..n]), id).autoPrivate == RowOf(Run(s, actions[..k]), id).autoPrivate
    decreases n
  {
    if k < n {
      var m := n - 1;
      AutoBetween(s, actions, k, m, id);
      RunInv(s, actions, m);
      RunSnoc(s, actions, m);
      StepSays(Run(s, actions[..m]), actions[m], id);
    }
  }

  lemma {:induction false} FolderBetween(s: State, actions: seq<Action>, k: nat, n: nat, f: string)
    requires Migrated(s) && k <= n <= |actions| && f != ""
    requires forall j :: k <= j < n ==> !SetsFolder(actions[j], f)
    ensures f in Run(s, actions[..n]).folders <==> f in Run(s, actions[..k]).folders
    ensures f in Run(s, actions[..k]).folders ==>
              Run(s, actions[..n]).folders[f] == Run(s, actions[..k]).folders[f]
    decreases n
  {
    if k < n {
      var m := n - 1;
      FolderBetween(s, actions, k, m, f);
      RunInv(s, actions, m);
      RunSnoc(s, actions, m);
      StepFolder(Run(s, actions[..m]), actions[m], f);
    }
  }

  /** The last override set for a project decides its flag, whatever folders and source say. */
  lemma LastOverrideDecides(s: State, actions: seq<Action>, k: nat, id: int)
    requires Migrated(s) && k < |actions| && SetsMode(actions[k], id) && id in Run(s, actions[..k]).projects
    requires forall j :: k < j < |actions| ==> !SetsMode(actions[j], id)
    ensures id in Run(s, actions).projects
    ensures actions[k].mode == Private ==> Run(s, actions).projects[id].isPrivate
    ensures actions[k].mode == Public ==> !Run(s, actions).projects[id].isPrivate
    ensures RowOf(Run(s, actions), id).mode == actions[k].mode
  {
    RunInv(s, actions, k);
    RunSnoc(s, actions, k);
    StepSays(Run(s, actions[..k]), actions[k], id);
    ModeBetween(s, actions, k + 1, |actions|, id);
    assert actions[..|actions|] == actions;
    RunDecides(s, actions, id);
  }

  /** The last rule set on a folder is its rule; one set to automatic leaves none. */
  lemma LastRuleStands(s: State, actions: seq<Action>, k: nat, f: string)
    requires Migrated(s) && k < |actions| && f != "" && SetsFolder(actions[k], f)
    requires forall j :: k < j < |actions| ==> !SetsFolder(actions[j], f)
    ensures f in Run(s, actions).folders <==> actions[k].mode != Auto
    ensures actions[k].mode != Auto ==> Run(s, actions).folders[f] == actions[k].mode
  {
    RunInv(s, actions, k);
    RunSnoc(s, actions, k);
    StepFolder(Run(s, actions[..k]), actions[k], f);
    FolderBetween(s, actions, k + 1, |actions|, f);
    assert actions[..|actions|] == actions;
  }

  /** A folder no action set a rule on has none. */
  lemma NoRuleWithoutAction(s: State, actions: seq<Action>, f: string)
    requires Migrated(s) && f != "" && forall j :: 0 <= j < |actions| ==> !SetsFolder(actions[j], f)
    ensures f !in Run(s, actions).folders
  {
    FolderBetween(s, actions, 0, |actions|, f);
    assert actions[..|actions|] == actions && actions[..0] == [];
  }

  /** A project without an override, under no folder with a rule, is what its source last said. */
  lemma LastSyncDecides(s: State, actions: seq<Action>, k: nat, id: int)
    requires Migrated(s) && k < |actions| && Syncs(actions[k], id) && id in Run(s, actions[..k]).projects
    requires forall j :: k < j < |actions| ==> !Syncs(actions[j], id)
    ensures id in Run(s, actions).projects && RowOf(Run(s, actions), id).autoPrivate == actions[k].autoPrivate
    ensures Undecided(Run(s, actions), id) ==> Run(s, actions).projects[id].isPrivate == actions[k].autoPrivate
  {
    RunInv(s, actions, k);
    RunSnoc(s, actions, k);
    StepSays(Run(s, actions[..k]), actions[k], id);
    AutoBetween(s, actions, k + 1, |actions|, id);
    assert actions[..|actions|] == actions;
    RunDecides(s, actions, id);
  }

  /** Neither an override nor a folder rule speaks for the project. */
  ghost predicate Undecided(s: State, id: int)
    requires id in s.projects
  {
    RowOf(s, id).mode == Auto && forall q :: q in s.folders ==> !OnOrAbove(q, s.projects[id].name)
  }

  /** One that was there before the run, and was neither synced nor overridden, stays as it was. */
  lemma UntouchedStays(s: State, actions: seq<Action>, id: int)
    requires Migrated(s) && id in s.projects
    requires forall j :: 0 <= j < |actions| ==> !Syncs(actions[j], id) && !SetsMode(actions[j], id)
    ensures id in Run(s, actions).projects && RowOf(Run(s, actions), id) == Row(Auto, s.projects[id].isPrivate)
    ensures Undecided(Run(s, actions), id) ==> Run(s, actions).projects[id].isPrivate == s.projects[id].isPrivate
  {
    StaysBetween(s, actions, 0, |actions|, id);
    ModeBetween(s, actions, 0, |actions|, id);
    AutoBetween(s, actions, 0, |actions|, id);
    assert actions[..|actions|] == actions && actions[..0] == [];
    RunDecides(s, actions, id);
  }

  /** A project created in the run has no override and the requested value until an action says otherwise. */
  lemma CreatedStays(s: State, actions: seq<Action>, k: nat)
    requires Migrated(s) && k < |actions| && actions[k].Create?
    requires forall id :: id in Run(s, actions[..k]).projects ==>
               Run(s, actions[..k]).projects[id].name != actions[k].name
    requires var id := Run(s, actions[..k]).next;
      forall j :: k < j < |actions| ==> !Syncs(actions[j], id) && !SetsMode(actions[j], id)
    ensures var id, after := Run(s, actions[..k]).next, Run(s, actions);
      && id in after.projects && after.projects[id].name == actions[k].name
      && RowOf(after, id) == Row(Auto, actions[k].private)
      && (Undecided(after, id) ==> after.projects[id].isPrivate == actions[k].private)
  {
    var id := Run(s, actions[..k]).next;
    RunInv(s, actions, k);
    RunSnoc(s, actions, k);
    CreateSays(Run(s, actions[..k]), actions[k].name, actions[k].private);
    StaysBetween(s, actions, k + 1, |actions|, id);
    ModeBetween(s, actions, k + 1, |actions|, id);
    AutoBetween(s, actions, k + 1, |actions|, id);
    assert actions[..|actions|] == actions;
    RunDecides(s, actions, id);
  }
}
