/** src/gui/menugenerator.cc: the checker that counts references to every menu item. */
module MenuGenerator {
  import opened Helpers
  import opened MenuGraph

  /** One line for the translation header: a caption and the name it belongs to. */
  datatype TransLine = TransLine(caption: string, id: string)

  datatype ReportLine = ReportLine(item: string, refs: nat)

  /** Separators and names handled by built-in code; the checker never looks these up. */
  predicate Special(name: string) {
    name == "" || name == "-" || name[0] == '_'
  }

  /** What the checker accepts as a definition. */
  predicate WellFormed(entry: Entry) {
    match entry
    case List(_, _) => true
    case Label(_) => true
    case Item(_, params) => |params| >= 1
    case Malformed => false
  }

  /** The edges the checker follows. */
  function CheckerGraph(config: Config): (g: Graph) {
    map n | n in config && !Special(n) && config[n].List? :: config[n].children
  }

  lemma CheckerSuccessors(config: Config, name: string)
    requires !Special(name)
    ensures Succ(CheckerGraph(config), name)
         == if Lookup(config, name).List? then Lookup(config, name).children else []
  {
  }

  /** The names the checker never looks up: the empty one, the separator, and all that begin with '_'. */
  lemma SpecialNames(name: string)
    ensures Special(name) <==> name == "" || name == "-" || "_" <= name
  {
  }

  /** Edges lead from a configured list, if its name is looked up at all, to its children; from nothing else. */
  lemma EdgesChecked(config: Config, name: string, next: string)
    ensures next in Succ(CheckerGraph(config), name) <==>
      && name != "" && name != "-" && !("_" <= name)
      && name in config && config[name].List? && next in config[name].children
  {
  }

  /** Lines recorded for one name. */
  ghost function LinesOf(config: Config, name: string): seq<TransLine> {
    match Lookup(config, name)
    case List(caption, _) => if Special(caption) then [] else [TransLine(caption, name)]
    case Label(text) => [TransLine(text, name)]
    case Item(caption, _) => [TransLine(caption, name)]
    case Malformed => []
  }

  ghost function LinesOfAll(config: Config, names: seq<string>): seq<TransLine> {
    if names == [] then []
    else LinesOfAll(config, names[..|names| - 1]) + LinesOf(config, names[|names| - 1])
  }

  ghost predicate Faulty(config: Config, roots: seq<string>, name: string) {
    Reachable(CheckerGraph(config), roots, name) && !Special(name) && !WellFormed(Lookup(config, name))
  }

  ghost predicate HasFault(config: Config, roots: seq<string>) {
    exists n :: Faulty(config, roots, n)
  }

  /** What the check objects to: a name it looks up that is not configured, or not as a list, a label or an item with a
      field. */
  ghost predicate Objectionable(config: Config, name: string) {
    && name != "" && name != "-" && !("_" <= name)
    && (name !in config || config[name].Malformed? || (config[name].Item? && config[name].params == []))
  }

  /** There is a fault exactly if the checker gets to such a name. */
  lemma FaultIff(config: Config, roots: seq<string>)
    ensures HasFault(config, roots) <==>
      exists n :: Reachable(CheckerGraph(config), roots, n) && Objectionable(config, n)
  {
    hide Reachable, CheckerGraph;
    if n :| Faulty(config, roots, n) {
      SpecialNames(n);
    }
    if n :| Reachable(CheckerGraph(config), roots, n) && Objectionable(config, n) {
      SpecialNames(n);
      assert Faulty(config, roots, n);
    }
  }

  /** So a list or a label is never a fault of its own, nor is an item with a field. */
  lemma NoFaultOfItsOwn(config: Config, roots: seq<string>, name: string)
    requires name in config
    requires config[name].List? || config[name].Label? || (config[name].Item? && config[name].params != [])
    ensures !Faulty(config, roots, name)
  {
  }

  /** A configuration with a label in a toolbar, as the program comes with, passes. */
  lemma ToolbarWithLabel(caption: string, text: string)
    ensures var config := map["Bar" := List(caption, ["label", "_tool"]), "label" := Label(text),
                              "MainMenu" := List("", [])];
      !HasFault(config, ["Bar", "MainMenu"])
  {
    var config := map["Bar" := List(caption, ["label", "_tool"]), "label" := Label(text), "MainMenu" := List("", [])];
    var g, roots := CheckerGraph(config), ["Bar", "MainMenu"];
    forall n | Reachable(g, roots, n)
      ensures n in {"Bar", "MainMenu", "label", "_tool"}
    {
      var p :| WalkTo(g, roots, p, n);
      ClosedHoldsReachable(g, roots, m => true, {"Bar", "MainMenu", "label", "_tool"}, p);
    }
  }

  /** The lines recorded are exactly those of captions and labels: the caption of a list, unless it is special, and of
      an item, and the text of a label, each with the name it belongs to. */
  lemma {:induction false} LinesRecorded(config: Config, names: seq<string>, text: string, name: string)
    ensures TransLine(text, name) in LinesOfAll(config, names) <==>
      && name in names && name in config
      && match config[name]
         case List(caption, _) => text == caption && caption != "" && caption != "-" && !("_" <= caption)
         case Item(caption, _) => text == caption
         case Label(t) => text == t
         case Malformed => false
  {
    if names != [] {
      var front, last := names[..|names| - 1], names[|names| - 1];
      LinesRecorded(config, front, text, name);
      assert names == front + [last];
      assert TransLine(text, name) in LinesOfAll(config, names) <==>
        TransLine(text, name) in LinesOfAll(config, front) || TransLine(text, name) in LinesOf(config, last);
      SpecialNames(text);
    }
  }

  /** One line at most for each name read, in the order in which they were read. */
  lemma {:induction false} LinesInOrder(config: Config, names: seq<string>)
    ensures PickedBy(names, IdsOf(LinesOfAll(config, names)), (n: string) => LinesOf(config, n) != [])
  {
    hide PickedBy, LinesOf;
    if names == [] {
      PickedNone((n: string) => LinesOf(config, n) != []);
    } else {
      var front, last := names[..|names| - 1], names[|names| - 1];
      LinesInOrder(config, front);
      PickedNext(front, IdsOf(LinesOfAll(config, front)), (n: string) => LinesOf(config, n) != [], last);
      assert names == front + [last];
      OneLine(config, last);
      IdsConcat(LinesOfAll(config, front), LinesOf(config, last));
    }
  }

  ghost function IdsOf(lines: seq<TransLine>): (r: seq<string>)
    ensures |r| == |lines|
  {
    seq(|lines|, i requires 0 <= i < |lines| => lines[i].id)
  }

  lemma IdsConcat(a: seq<TransLine>, b: seq<TransLine>)
    ensures IdsOf(a + b) == IdsOf(a) + IdsOf(b)
  {
  }

  lemma OneLine(config: Config, name: string)
    ensures IdsOf(LinesOf(config, name)) == if LinesOf(config, name) != [] then [name] else []
  {
  }

  /** `order` lists exactly the names the checker has to look up, each once. */
  ghost predicate Enumerates(config: Config, roots: seq<string>, order: seq<string>) {
    && NoRepeats(order)
    && forall n :: n in order <==> !Special(n) && Reachable(CheckerGraph(config), roots, n)
  }

  /** The reference count promised for a name: its places among the roots and in reachable child lists. */
  ghost function RefCount(config: Config, roots: seq<string>, order: seq<string>, name: string): nat {
    multiset(roots)[name] + References(CheckerGraph(config), order)[name]
  }

  /** The count is the number of places where the name stands: among the roots, and in the child lists of the names
      read. */
  lemma RefCountPlaces(config: Config, roots: seq<string>, order: seq<string>, name: string)
    ensures RefCount(config, roots, order, name)
         == |Places(roots, name)| + |ChildPlaces(CheckerGraph(config), order, name)|
  {
    hide CheckerGraph;
    PlacesCounted(roots, name);
    ReferencesCounted(CheckerGraph(config), order, name);
  }

  /** Any two enumerations give the same counts, so RefCount does not depend on the traversal. */
  lemma RefCountIsUnique(config: Config, roots: seq<string>, a: seq<string>, b: seq<string>, name: string)
    requires Enumerates(config, roots, a) && Enumerates(config, roots, b)
    ensures RefCount(config, roots, a, name) == RefCount(config, roots, b, name)
  {
    SameElementsSameBag(a, b);
    ReferencesOrderFree(CheckerGraph(config), a, b);
  }

  /** Some reachable list names x, or x is a root, exactly when its count is not zero. */
  lemma RefCountZero(config: Config, roots: seq<string>, order: seq<string>, name: string)
    requires Enumerates(config, roots, order) && !Special(name)
    ensures RefCount(config, roots, order, name) == 0 <==> !Reachable(CheckerGraph(config), roots, name)
  {
    var g := CheckerGraph(config);
    if name in roots {
      RootReachable(g, roots, name);
      assert name in multiset(roots);
    } else {
      ReferencesPositive(g, order, name);
      if Reachable(g, roots, name) {
        var p :| WalkTo(g, roots, p, name);
        var n := p[|p| - 2];
        assert WalkTo(g, roots, p[..|p| - 1], n);
        assert n in order && name in Succ(g, n);
      }
      if n :| n in order && name in Succ(g, n) {
        ReachableStep(g, roots, n, name);
      }
    }
  }

  lemma {:induction false} ReferencesPositive(g: Graph, names: seq<string>, name: string)
    ensures References(g, names)[name] > 0 <==> exists n :: n in names && name in Succ(g, n)
  {
    if names != [] {
      ReferencesPositive(g, names[1..], name);
      assert name in multiset(Succ(g, names[0])) <==> name in Succ(g, names[0]);
      assert forall n :: n in names <==> n == names[0] || n in names[1..];
    }
  }

  /** A finished traversal has read every reachable definition and found it sound. */
  lemma ExploredIsComplete(config: Config, roots: seq<string>, order: seq<string>)
    requires NoRepeats(order) && Explored(config, roots, order, order)
    requires forall n :: n in order ==> !Special(n)
    requires forall r :: r in roots && !Special(r) ==> r in order
    ensures Enumerates(config, roots, order) && !HasFault(config, roots)
  {
    var g := CheckerGraph(config);
    var closed := set n | n in order;
    forall n | Reachable(g, roots, n) && !Special(n)
      ensures n in order && WellFormed(Lookup(config, n))
    {
      var p :| WalkTo(g, roots, p, n);
      forall a, b | a in closed && b in Succ(g, a) && !Special(b)
        ensures b in closed
      {
        assert ExploredOne(config, roots, a, order);
      }
      ClosedHoldsReachable(g, roots, m => !Special(m), closed, p);
      assert ExploredOne(config, roots, n, order);
    }
    forall n | n in order
      ensures Reachable(g, roots, n)
    {
      assert ExploredOne(config, roots, n, order);
    }
  }

  type Counts = map<string, nat>

  function CountIn(avail: Counts, name: string): nat {
    if name in avail then avail[name] else 0
  }

  /** Every ordinary name gained exactly its occurrences in `refs`. */
  ghost predicate Gained(before: Counts, after: Counts, refs: multiset<string>) {
    forall x :: !Special(x) ==> CountIn(after, x) == CountIn(before, x) + refs[x]
  }

  lemma GainedThen(a: Counts, b: Counts, c: Counts, r: multiset<string>, s: multiset<string>)
    requires Gained(a, b, r) && Gained(b, c, s)
    ensures Gained(a, c, r + s)
  {
  }

  lemma GainedNothing(g: Graph, a: Counts)
    ensures Gained(a, a, multiset([]) + References(g, []))
  {
  }

  /** The visits that walk no children. */
  lemma GainedLeaf(g: Graph, a: Counts, name: string)
    ensures Special(name) ==> Gained(a, a, multiset{name} + References(g, []))
    ensures !Special(name) ==> Gained(a, a[name := CountIn(a, name) + 1], multiset{name})
    ensures !Special(name) ==> Gained(a, a[name := CountIn(a, name) + 1], multiset{name} + References(g, []))
  {
  }

  /** One more name of a list counted. */
  lemma GainedNext(g: Graph, a: Counts, b: Counts, c: Counts, names: seq<string>, k: nat,
                   done: seq<string>, news: seq<string>)
    requires k < |names|
    requires Gained(a, b, multiset(names[..k]) + References(g, done))
    requires Gained(b, c, multiset{names[k]} + References(g, news))
    ensures Gained(a, c, multiset(names[..k + 1]) + References(g, done + news))
  {
    hide Gained, References;
    ReferencesConcat(g, done, news);
    PrefixNext(names, k);
    GainedThen(a, b, c, multiset(names[..k]) + References(g, done), multiset{names[k]} + References(g, news));
    BagRegroup(multiset(names[..k]), References(g, done), multiset{names[k]}, References(g, news));
  }

  lemma BagRegroup(a: multiset<string>, b: multiset<string>, c: multiset<string>, d: multiset<string>)
    ensures (a + b) + (c + d) == (a + c) + (b + d)
  {
  }

  /** A name that has been looked up: sound, reached from the roots, its children all accounted for. */
  ghost predicate ExploredOne(config: Config, roots: seq<string>, n: string, all: seq<string>) {
    && WellFormed(Lookup(config, n))
    && Reachable(CheckerGraph(config), roots, n)
    && forall m :: m in Succ(CheckerGraph(config), n) && !Special(m) ==> m in all
  }

  ghost predicate Explored(config: Config, roots: seq<string>, news: seq<string>, all: seq<string>) {
    forall n :: n in news ==> ExploredOne(config, roots, n, all)
  }

  lemma ExploredThen(config: Config, roots: seq<string>, root: string,
                     first: seq<string>, all: seq<string>, second: seq<string>, all': seq<string>)
    requires root in roots
    requires Explored(config, roots, first, all) && all <= all'
    requires Explored(config, [root], second, all')
    ensures Explored(config, roots, first + second, all')
  {
    forall n | n in first + second
      ensures ExploredOne(config, roots, n, all')
    {
      if n in first {
        assert ExploredOne(config, roots, n, all);
      } else {
        assert ExploredOne(config, [root], n, all');
        ReachableWiden(CheckerGraph(config), [root], roots, n);
      }
    }
  }

  lemma ExploredWiden(config: Config, some: seq<string>, roots: seq<string>, news: seq<string>, all: seq<string>)
    requires Explored(config, some, news, all) && forall r :: r in some ==> r in roots
    ensures Explored(config, roots, news, all)
  {
    hide Reachable;
    forall n | n in news
      ensures ExploredOne(config, roots, n, all)
    {
      assert ExploredOne(config, some, n, all);
      ReachableWiden(CheckerGraph(config), some, roots, n);
    }
  }

  lemma ExploredNothing(config: Config, roots: seq<string>, all: seq<string>)
    ensures Explored(config, roots, [], all)
  {
  }

  lemma FaultHere(config: Config, name: string)
    requires !Special(name) && !WellFormed(Lookup(config, name))
    ensures HasFault(config, [name])
  {
    RootReachable(CheckerGraph(config), [name], name);
    assert Faulty(config, [name], name);
  }

  lemma FaultBelowRoots(config: Config, roots: seq<string>, some: seq<string>)
    requires HasFault(config, some) && forall r :: r in some ==> r in roots
    ensures HasFault(config, roots)
  {
    var n :| Faulty(config, some, n);
    ReachableWiden(CheckerGraph(config), some, roots, n);
    assert Faulty(config, roots, n);
  }

  lemma FaultBelowList(config: Config, name: string)
    requires HasFault(config, Succ(CheckerGraph(config), name))
    ensures HasFault(config, [name])
  {
    var n :| Faulty(config, Succ(CheckerGraph(config), name), n);
    ReachableThroughSuccessors(CheckerGraph(config), name, n);
    assert Faulty(config, [name], n);
  }

  /** A name together with all that its children led to. */
  lemma NameDone(config: Config, name: string, news: seq<string>, all: seq<string>, a: Counts, b: Counts, c: Counts)
    requires !Special(name) && WellFormed(Lookup(config, name))
    requires var children := Succ(CheckerGraph(config), name);
             Explored(config, children, news, all) && forall m :: m in children && !Special(m) ==> m in all
    requires Gained(a, b, multiset{name})
    requires Gained(b, c, multiset(Succ(CheckerGraph(config), name)) + References(CheckerGraph(config), news))
    ensures Explored(config, [name], [name] + news, all)
    ensures Gained(a, c, multiset{name} + References(CheckerGraph(config), [name] + news))
  {
    GainedThen(a, b, c, multiset{name},
               multiset(Succ(CheckerGraph(config), name)) + References(CheckerGraph(config), news));
    RootReachable(CheckerGraph(config), [name], name);
    ReferencesCons(CheckerGraph(config), name, news);
    forall n | n in [name] + news
      ensures ExploredOne(config, [name], n, all)
    {
      if n != name {
        assert ExploredOne(config, Succ(CheckerGraph(config), name), n, all);
        ReachableThroughSuccessors(CheckerGraph(config), name, n);
      }
    }
  }

  /** The table holds the promised count of every ordinary name, and no other name. */
  ghost predicate CountsRight(config: Config, roots: seq<string>, order: seq<string>, avail: Counts) {
    forall x :: CountIn(avail, x) == if Special(x) then 0 else RefCount(config, roots, order, x)
  }

  lemma CountOfItem(config: Config, roots: seq<string>, order: seq<string>, avail: Counts, item: string)
    requires CountsRight(config, roots, order, avail) && Enumerates(config, roots, order)
    ensures CountIn(avail, item) == if Special(item) then 0 else RefCount(config, roots, order, item)
    ensures CountIn(avail, item) == 0 <==> Special(item) || !Reachable(CheckerGraph(config), roots, item)
  {
    hide Enumerates, RefCount, Reachable, CheckerGraph, CountIn;
    if !Special(item) {
      RefCountZero(config, roots, order, item);
    }
  }

  lemma CountsOfRoots(config: Config, roots: seq<string>, before: Counts, after: Counts, order: seq<string>)
    requires forall n :: n !in before
    requires Gained(before, after, multiset(roots) + References(CheckerGraph(config), order))
    requires forall n :: n in after ==> !Special(n)
    ensures CountsRight(config, roots, order, after)
  {
    hide References, CheckerGraph;
  }

  /** The reference table, the recorded lines and the names read so far agree. */
  ghost predicate Consistent(config: Config, avail: Counts, trans: seq<TransLine>, expanded: seq<string>) {
    && NoRepeats(expanded)
    && (forall n :: n in avail <==> n in expanded)
    && (forall n :: n in avail ==> avail[n] >= 1 && !Special(n))
    && trans == LinesOfAll(config, expanded)
  }

  lemma ConsistentEnter(config: Config, avail: Counts, trans: seq<TransLine>, expanded: seq<string>, name: string)
    requires Consistent(config, avail, trans, expanded) && !Special(name)
    ensures name in avail ==> name in expanded && avail[name] >= 1
    ensures name in avail ==> Consistent(config, avail[name := avail[name] + 1], trans, expanded)
    ensures name !in avail ==>
      Consistent(config, avail[name := 1], trans + LinesOf(config, name), expanded + [name])
  {
    assert (expanded + [name])[..|expanded|] == expanded;
  }

  class Generator {
    const config: Config
    const toolbars: seq<string>
    var avail: Counts
    var trans: seq<TransLine>
    /** Names whose definition has been read, in the order they were read. */
    ghost var expanded: seq<string>

    ghost predicate Valid()
      reads this
    {
      Consistent(config, avail, trans, expanded)
    }

    constructor (config: Config, toolbars: seq<string>)
      ensures Valid() && expanded == [] && this.config == config && this.toolbars == toolbars
    {
      this.config := config;
      this.toolbars := toolbars;
      avail, trans, expanded := map[], [], [];
    }

    method AddLocString(id: string, name: string)
      modifies this`trans
      ensures trans == old(trans) + [TransLine(name, id)]
    {
      trans := trans + [TransLine(name, id)];
    }

    /** Records one reference to `name` and, on the first one, reads its definition and visits its children.
        The result is false where the source ends the program on an invalid definition. */
    method SetAvail(name: string) returns (ok: bool, ghost news: seq<string>)
      requires Valid()
      modifies this
      ensures old(avail).Keys <= avail.Keys
      ensures ok ==> Valid() && expanded == old(expanded) + news && (Special(name) || name in expanded)
      ensures ok ==> Gained(old(avail), avail, multiset{name} + References(CheckerGraph(config), news))
      ensures ok ==> Explored(config, [name], news, expanded)
      ensures !ok ==> HasFault(config, [name])
      decreases config.Keys - avail.Keys, 0
    {
      hide Consistent, Gained, HasFault, References, CheckerGraph, Explored;
      news := [];
      ExploredNothing(config, [name], expanded);
      GainedLeaf(CheckerGraph(config), avail, name);
      if Special(name) {
        return true, [];
      }
      ConsistentEnter(config, avail, trans, expanded, name);
      avail := avail[name := CountIn(avail, name) + 1];
      if avail[name] >= 2 {
        return true, [];
      }
      if !WellFormed(Lookup(config, name)) {
        FaultHere(config, name);
      }
      expanded := expanded + [name];
      CheckerSuccessors(config, name);
      ghost var entered := avail;
      GainedNothing(CheckerGraph(config), avail);
      match Lookup(config, name) {
        case List(caption, children) =>
          assert trans + [] == trans;
          if !Special(caption) {
            AddLocString(name, caption);
          }
          ok, news := SetAvailAll(children);
          if !ok {
            FaultBelowList(config, name);
          }
        case Label(text) =>
          AddLocString(name, text);
          ok := true;
        case Item(caption, params) =>
          AddLocString(name, caption);
          ok := |params| >= 1;
        case Malformed =>
          ok := false;
      }
      if ok {
        NameDone(config, name, news, expanded, old(avail), entered, avail);
      }
      ConcatAssoc(old(expanded), [name], news);
      news := [name] + news;
    }

    /** Records a reference to every name of a list, in order. */
    method SetAvailAll(names: seq<string>) returns (ok: bool, ghost news: seq<string>)
      requires Valid()
      modifies this
      ensures old(avail).Keys <= avail.Keys
      ensures ok ==> Valid() && expanded == old(expanded) + news
      ensures ok ==> forall m :: m in names && !Special(m) ==> m in expanded
      ensures ok ==> Gained(old(avail), avail, multiset(names) + References(CheckerGraph(config), news))
      ensures ok ==> Explored(config, names, news, expanded)
      ensures !ok ==> HasFault(config, names)
      decreases config.Keys - avail.Keys, 1
    {
      hide LinesOfAll, Gained, HasFault, References, Consistent, CheckerGraph;
      GainedNothing(CheckerGraph(config), avail);
      news := [];
      for k := 0 to |names|
        invariant Valid() && expanded == old(expanded) + news && old(avail).Keys <= avail.Keys
        invariant forall m :: m in names[..k] && !Special(m) ==> m in expanded
        invariant Gained(old(avail), avail, multiset(names[..k]) + References(CheckerGraph(config), news))
        invariant Explored(config, names, news, expanded)
      {
        ghost var before, seen, done := avail, expanded, news;
        ok, news := SetAvail(names[k]);
        if !ok {
          FaultBelowRoots(config, names, [names[k]]);
          return;
        }
        ExploredThen(config, names, names[k], done, seen, news, expanded);
        GainedNext(CheckerGraph(config), old(avail), before, avail, names, k, done, news);
        news := done + news;
      }
      assert names[..|names|] == names;
      ok := true;
    }

    /** The toolbars, then the main menu. */
    function Roots(): seq<string> {
      toolbars + ["MainMenu"]
    }

    /** Visits all roots, then prints every configured name with its count. */
    method Check(items: seq<string>) returns (ok: bool, report: seq<ReportLine>)
      requires Valid() && expanded == []
      modifies this
      ensures ok <==> !HasFault(config, toolbars + ["MainMenu"])
      ensures ok ==> Enumerates(config, toolbars + ["MainMenu"], expanded) && trans == LinesOfAll(config, expanded)
      ensures ok ==> |report| == |items|
      ensures ok ==> forall i :: 0 <= i < |items| ==>
        && report[i].item == items[i]
        && report[i].refs == if items[i] == "" || items[i] == "-" || "_" <= items[i] then 0
                             else RefCount(config, toolbars + ["MainMenu"], expanded, items[i])
      ensures ok ==> forall i :: 0 <= i < |items| ==>
        (report[i].refs == 0 <==>
           || items[i] == "" || items[i] == "-" || "_" <= items[i]
           || !Reachable(CheckerGraph(config), toolbars + ["MainMenu"], items[i]))
    {
      hide Enumerates, RefCount, Reachable, CheckerGraph, LinesOfAll, CountsRight, CountIn, Consistent, Special;
      report := [];
      ok := VisitRoots();
      if !ok {
        return;
      }
      for i := 0 to |items|
        invariant |report| == i && Enumerates(config, Roots(), expanded) && trans == LinesOfAll(config, expanded)
        invariant CountsRight(config, Roots(), expanded, avail)
        invariant forall k :: 0 <= k < i ==>
          && report[k].item == items[k]
          && report[k].refs == if items[k] == "" || items[k] == "-" || "_" <= items[k] then 0
                               else RefCount(config, Roots(), expanded, items[k])
        invariant forall k :: 0 <= k < i ==>
          (report[k].refs == 0 <==>
             || items[k] == "" || items[k] == "-" || "_" <= items[k]
             || !Reachable(CheckerGraph(config), Roots(), items[k]))
      {
        CountOfItem(config, Roots(), expanded, avail, items[i]);
        SpecialNames(items[i]);
        report := report + [ReportLine(items[i], CountIn(avail, items[i]))];
      }
    }

    method VisitRoots() returns (ok: bool)
      requires Valid() && expanded == []
      modifies this
      ensures ok <==> !HasFault(config, Roots())
      ensures ok ==> Enumerates(config, Roots(), expanded) && trans == LinesOfAll(config, expanded)
      ensures ok ==> CountsRight(config, Roots(), expanded, avail)
    {
      hide References, Enumerates, HasFault, LinesOfAll, NoRepeats, Reachable, Explored, Gained, CheckerGraph;
      ghost var g, roots := CheckerGraph(config), Roots();
      ghost var news;
      assert roots[..|toolbars|] == toolbars && roots[..|toolbars| + 1] == roots;
      ok, news := SetAvailAll(toolbars);
      if !ok {
        FaultBelowRoots(config, roots, toolbars);
        return;
      }
      ghost var before, seen, done := avail, expanded, news;
      ok, news := SetAvail("MainMenu");
      if !ok {
        FaultBelowRoots(config, roots, ["MainMenu"]);
        return;
      }
      ExploredWiden(config, toolbars, roots, done, seen);
      ExploredThen(config, roots, "MainMenu", done, seen, news, expanded);
      GainedNext(g, old(avail), before, avail, roots, |toolbars|, done, news);
      assert expanded == done + news;
      ExploredIsComplete(config, roots, expanded);
      CountsOfRoots(config, roots, old(avail), avail, expanded);
    }
  }
}
