// Subcommands that exclude each other.
module SubcommandExclusion {
  import opened Sequences

  class App {
    var excludeSubcommands: set<App>
    var needSubcommands: set<App>
    var subcommands: seq<App>

    constructor ()
      ensures excludeSubcommands == {} && needSubcommands == {} && subcommands == []
    {
      excludeSubcommands, needSubcommands, subcommands := {}, {}, [];
    }

    // Within `world`, exclusion is mutual and nobody excludes itself.
    static ghost predicate Mutual(world: set<App>)
      reads world
    {
      forall a | a in world ::
        && a.excludeSubcommands <= world
        && a !in a.excludeSubcommands
        && forall b | b in a.excludeSubcommands :: a in b.excludeSubcommands
    }

    // False stands for the OptionNotFound exception.
    method Excludes(app: App?, ghost world: set<App>) returns (ok: bool)
      requires Mutual(world) && this in world && (app != null ==> app in world)
      modifies this`excludeSubcommands, (if app == null then {} else {app})`excludeSubcommands
      ensures Mutual(world)
      ensures ok <==> app != null && app != this
      ensures !ok ==> forall a | a in world :: a.excludeSubcommands == old(a.excludeSubcommands)
      ensures ok ==> forall a | a in world ::
        a.excludeSubcommands
        == old(a.excludeSubcommands) + (if a == this then {app} else if a == app then {this} else {})
    {
      if app == null {
        return false;
      }
      if app == this {
        return false;
      }
      var inserted := app !in excludeSubcommands;
      excludeSubcommands := excludeSubcommands + {app};
      if inserted {
        app.excludeSubcommands := app.excludeSubcommands + {this};
      }
      ok := true;
    }

    // The calls back and forth end because each one that goes on has taken an entry away.
    method RemoveExcludes(app: App, ghost world: set<App>) returns (found: bool)
      modifies this`excludeSubcommands, app`excludeSubcommands
      ensures old(Mutual(world)) && this in world && app in world ==> Mutual(world)
      ensures found <==> app in old(excludeSubcommands)
      ensures found ==> excludeSubcommands == old(excludeSubcommands) - {app}
      ensures found ==> app.excludeSubcommands == old(app.excludeSubcommands) - {this} || app == this
      ensures !found ==> excludeSubcommands == old(excludeSubcommands)
      ensures !found ==> app.excludeSubcommands == old(app.excludeSubcommands)
      decreases (if app in excludeSubcommands then 1 else 0) + (if this in app.excludeSubcommands then 1 else 0)
    {
      if app !in excludeSubcommands {
        return false;
      }
      var otherApp := app;
      excludeSubcommands := excludeSubcommands - {app};
      var _ := otherApp.RemoveExcludes(this, world);
      found := true;
    }

    method RemoveNeeds(app: App) returns (found: bool)
      modifies this`needSubcommands
      ensures found <==> app in old(needSubcommands)
      ensures needSubcommands == old(needSubcommands) - {app}
    {
      if app !in needSubcommands {
        return false;
      }
      needSubcommands := needSubcommands - {app};
      found := true;
    }

    // What cutting all links between a subcommand and others takes from the exclusions of a.
    static function Cut(a: App, subcom: App, others: seq<App>): set<App> {
      if a == subcom then set s | s in others
      else if a in others then {subcom}
      else {}
    }

    method CutLinks(subcom: App, ghost world: set<App>)
      requires Mutual(world) && this in world && subcom in world
      requires forall s | s in subcommands :: s in world
      modifies world`excludeSubcommands, world`needSubcommands
      ensures Mutual(world)
      ensures forall a | a in world ::
        a.excludeSubcommands == old(a.excludeSubcommands) - Cut(a, subcom, subcommands)
      ensures forall a | a in world ::
        a.needSubcommands == old(a.needSubcommands) - (if a in subcommands then {subcom} else {})
    {
      for i := 0 to |subcommands|
        invariant Mutual(world)
        invariant forall a | a in world ::
          a.excludeSubcommands == old(a.excludeSubcommands) - Cut(a, subcom, subcommands[..i])
        invariant forall a | a in world ::
          a.needSubcommands == old(a.needSubcommands) - (if a in subcommands[..i] then {subcom} else {})
      {
        var sub := subcommands[i];
        assert subcommands[..i + 1] == subcommands[..i] + [sub];
        var _ := sub.RemoveExcludes(subcom, world);
        var _ := sub.RemoveNeeds(subcom);
      }
      assert subcommands[..|subcommands|] == subcommands;
    }

    // Cuts all links between the subcommand and its siblings, and drops it.
    method RemoveSubcommand(subcom: App, ghost world: set<App>) returns (found: bool)
      requires Mutual(world) && this in world && subcom in world
      requires forall s | s in subcommands :: s in world
      requires Distinct(subcommands)
      modifies this`subcommands, world`excludeSubcommands, world`needSubcommands
      ensures Mutual(world)
      ensures found <==> subcom in old(subcommands)
      ensures forall s :: s in subcommands <==> s in old(subcommands) && s != subcom
      ensures forall s | s in old(subcommands) ::
        subcom !in s.excludeSubcommands && subcom !in s.needSubcommands && s !in subcom.excludeSubcommands
      ensures forall a | a in world ::
        a.excludeSubcommands == old(a.excludeSubcommands) - Cut(a, subcom, old(subcommands))
      ensures forall a | a in world ::
        a.needSubcommands == old(a.needSubcommands) - (if a in old(subcommands) then {subcom} else {})
    {
      CutLinks(subcom, world);
      found := false;
      for i := 0 to |subcommands|
        invariant subcom !in subcommands[..i]
      {
        if subcommands[i] == subcom {
          Erased(subcommands, i);
          subcommands := subcommands[..i] + subcommands[i + 1..];
          return true;
        }
      }
    }
  }
}
