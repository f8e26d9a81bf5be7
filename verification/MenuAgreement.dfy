/** The menu checker (src/gui/menugenerator.cc) and the menu loader (src/gui/menu.cc) on one configuration. */
module MenuAgreement {
  import opened MenuGraph
  import opened MenuGenerator
  import opened MenuLoader

  /** The loader follows every edge that the checker does. */
  lemma EdgesOfChecker(cfg: Settings, n: string, m: string)
    requires m in Succ(CheckerGraph(cfg.items), n)
    ensures m in Succ(LoaderGraph(cfg), n)
  {
  }

  lemma CheckerReachesLess(cfg: Settings, root: string, x: string)
    requires Reachable(CheckerGraph(cfg.items), [root], x)
    ensures Reachable(LoaderGraph(cfg), [root], x)
  {
    var g, l := CheckerGraph(cfg.items), LoaderGraph(cfg);
    var p :| WalkTo(g, [root], p, x);
    hide CheckerGraph, LoaderGraph, Succ;
    forall i | 0 < i < |p|
      ensures p[i] in Succ(l, p[i - 1])
    {
      EdgesOfChecker(cfg, p[i - 1], p[i]);
    }
    assert WalkTo(l, [root], p, x);
  }

  /** A name the loader gets to and the checker does not look up: one that begins with '_', or one that only such names,
      or entries users have added, lead to. */
  ghost predicate Overlooked(cfg: Settings, root: string, x: string) {
    && Reachable(LoaderGraph(cfg), [root], x)
    && (Special(x) || !Reachable(CheckerGraph(cfg.items), [root], x))
  }

  /** A label is a definition for the checker and none for the loader. */
  ghost predicate LeadsToLabel(cfg: Settings, root: string, x: string) {
    Reachable(LoaderGraph(cfg), [root], x) && !IsSeparator(x) && cfg.Read(x).Label?
  }

  lemma SameDefinition(cfg: Settings, x: string)
    ensures Acceptable(cfg, x) && !Special(x) ==> WellFormed(Lookup(cfg.items, x))
    ensures WellFormed(Lookup(cfg.items, x)) && !cfg.Read(x).Label? ==> Acceptable(cfg, x)
    ensures Acceptable(cfg, x) && !IsSeparator(x) ==> !cfg.Read(x).Label?
  {
  }

  /** The loader accepts all it gets to exactly if the checker finds no fault, nothing overlooked is unacceptable, and
      no label is met. */
  lemma AcceptableIff(cfg: Settings, root: string)
    ensures AllAcceptable(cfg, root) <==>
      && !HasFault(cfg.items, [root])
      && (forall x :: Overlooked(cfg, root, x) ==> Acceptable(cfg, x))
      && (forall x :: !LeadsToLabel(cfg, root, x))
  {
    hide Reachable, CheckerGraph, LoaderGraph, Acceptable, WellFormed, Special, IsSeparator;
    if AllAcceptable(cfg, root) {
      forall x
        ensures !Faulty(cfg.items, [root], x) && !LeadsToLabel(cfg, root, x)
      {
        SameDefinition(cfg, x);
        if Reachable(CheckerGraph(cfg.items), [root], x) {
          CheckerReachesLess(cfg, root, x);
        }
      }
    }
    if !HasFault(cfg.items, [root]) && (forall x :: Overlooked(cfg, root, x) ==> Acceptable(cfg, x))
      && forall x :: !LeadsToLabel(cfg, root, x)
    {
      forall x | Reachable(LoaderGraph(cfg), [root], x)
        ensures Acceptable(cfg, x)
      {
        assert !Faulty(cfg.items, [root], x) && !LeadsToLabel(cfg, root, x);
        SameDefinition(cfg, x);
        SeparatorAccepted(cfg, x);
      }
    }
  }

  lemma SeparatorAccepted(cfg: Settings, x: string)
    ensures IsSeparator(x) ==> Acceptable(cfg, x)
  {
  }

  /** There is a fault below all roots exactly if there is one below some. */
  lemma FaultBelowSome(config: Config, toolbars: seq<string>, root: string)
    ensures HasFault(config, toolbars + [root]) <==> HasFault(config, toolbars) || HasFault(config, [root])
  {
    hide CheckerGraph, WellFormed, Special;
    var roots := toolbars + [root];
    if HasFault(config, roots) {
      var n :| Faulty(config, roots, n);
      var p :| WalkTo(CheckerGraph(config), roots, p, n);
      if p[0] in toolbars {
        assert WalkTo(CheckerGraph(config), toolbars, p, n);
        assert Faulty(config, toolbars, n);
      } else {
        assert WalkTo(CheckerGraph(config), [root], p, n);
        assert Faulty(config, [root], n);
      }
    }
    if HasFault(config, toolbars) {
      FaultBelowRoots(config, roots, toolbars);
    }
    if HasFault(config, [root]) {
      FaultBelowRoots(config, roots, [root]);
    }
  }

  /** A menu that loads passes the check of its root, so that with it only the toolbars decide about the check. */
  lemma LoadsSoPasses(odd: OddClass, cfg: Settings, toolbars: seq<string>, root: string)
    requires !IsSeparator(root) && UnfoldRoot(odd, cfg, root).Ok?
    ensures !HasFault(cfg.items, [root])
    ensures HasFault(cfg.items, toolbars + [root]) <==> HasFault(cfg.items, toolbars)
  {
    hide UnfoldRoot, HasFault, AllAcceptable;
    LoadsIffAcyclic(odd, cfg, root);
    AcceptableIff(cfg, root);
    FaultBelowSome(cfg.items, toolbars, root);
  }

  /** What a menu that passes the check needs besides to load: to be a list, without a cycle, without labels, and with
      nothing wrong in what the checker overlooks. */
  lemma LoadsIffPasses(odd: OddClass, cfg: Settings, root: string)
    requires !IsSeparator(root)
    ensures UnfoldRoot(odd, cfg, root).Ok? <==>
      && !HasFault(cfg.items, [root]) && cfg.Read(root).List? && Acyclic(LoaderGraph(cfg), root)
      && (forall x :: !LeadsToLabel(cfg, root, x))
      && (forall x :: Overlooked(cfg, root, x) ==> Acceptable(cfg, x))
  {
    hide UnfoldRoot, HasFault, AllAcceptable, Acyclic, LeadsToLabel, Overlooked;
    LoadsIffAcyclic(odd, cfg, root);
    AcceptableIff(cfg, root);
  }

  /** A main menu that names itself. */
  const SELF_NAMING := Settings(map["MainMenu" := List("menu", ["MainMenu"])], map[])

  /** It passes the check, and does not load. */
  lemma CyclePasses(odd: OddClass)
    ensures !HasFault(SELF_NAMING.items, ["MainMenu"]) && UnfoldRoot(odd, SELF_NAMING, "MainMenu").Err?
  {
    hide UnfoldRoot, UnfoldAll, UnfoldItem;
    var g, root := CheckerGraph(SELF_NAMING.items), "MainMenu";
    forall n | Reachable(g, [root], n)
      ensures n == root
    {
      var p :| WalkTo(g, [root], p, n);
      ClosedHoldsReachable(g, [root], m => true, {root}, p);
    }
    LoaderSuccessors(SELF_NAMING, root);
    assert Walk(LoaderGraph(SELF_NAMING), [root, root]) && !NoRepeats([root, root]) by {
      assert [root, root][0] == [root, root][1];
    }
    LoadsIffPasses(odd, SELF_NAMING, root);
  }
}
