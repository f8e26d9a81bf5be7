/** src/gui/multitreewindow.cc: the window with one main tree and any number of secondary ones, in tabs. */
module MultiTree {

  class TreeWindow {
    constructor () {}
  }

  datatype TreeType = InvalidTree | MainTree | OperatorVector | Property | ContentStream

  datatype TreeKey = TreeKey(kind: TreeType, ptr: int)

  /** The one key for trees that show a selection. */
  const SELECTION_KEY := TreeKey(OperatorVector, 0)

  datatype TreeName = Current | Main | Select | Number(n: nat) | Other

  type Trees = map<TreeKey, TreeWindow>
  type Reverse = map<TreeWindow, TreeKey>

  ghost predicate Inverse(trees: Trees, reverse: Reverse) {
    && (forall k :: k in trees ==> trees[k] in reverse && reverse[trees[k]] == k)
    && (forall t :: t in reverse ==> reverse[t] in trees && trees[reverse[t]] == t)
  }

  /** Keys of secondary trees. */
  ghost predicate SecondaryKeys(trees: Trees) {
    forall k :: k in trees ==> k.kind != MainTree && k.kind != InvalidTree
  }

  ghost predicate Distinct(tabs: seq<TreeWindow>) {
    forall i, j :: 0 <= i < j < |tabs| ==> tabs[i] != tabs[j]
  }

  /** The first tab holds the main tree, the others exactly the secondary ones. */
  ghost predicate TabsMatch(tabs: seq<TreeWindow>, main: TreeWindow, secondary: set<TreeWindow>) {
    && |tabs| > 0 && tabs[0] == main && main !in secondary && Distinct(tabs)
    && (forall t :: t in tabs ==> t == main || t in secondary)
    && (forall t :: t in secondary ==> t in tabs)
  }

  /** One page is gone; the others stay in order. */
  ghost predicate OneGone(before: seq<TreeWindow>, after: seq<TreeWindow>, t: TreeWindow) {
    exists i :: 0 <= i < |before| && before[i] == t && after == before[..i] + before[i + 1..]
  }

  lemma EntryAdded(trees: Trees, reverse: Reverse, key: TreeKey, t: TreeWindow)
    requires Inverse(trees, reverse) && key !in trees && t !in reverse
    ensures Inverse(trees[key := t], reverse[t := key]) && reverse[t := key].Keys == reverse.Keys + {t}
  {
  }

  lemma EntryRemoved(trees: Trees, reverse: Reverse, t: TreeWindow)
    requires Inverse(trees, reverse) && t in reverse
    ensures reverse[t] in trees && trees[reverse[t]] == t
    ensures Inverse(trees - {reverse[t]}, reverse - {t}) && (reverse - {t}).Keys == reverse.Keys - {t}
    ensures SecondaryKeys(trees) ==> SecondaryKeys(trees - {reverse[t]})
  {
  }

  lemma TabAdded(tabs: seq<TreeWindow>, main: TreeWindow, secondary: set<TreeWindow>, t: TreeWindow)
    requires TabsMatch(tabs, main, secondary) && t !in tabs
    ensures TabsMatch(tabs + [t], main, secondary + {t})
  {
  }

  lemma TabRemoved(tabs: seq<TreeWindow>, main: TreeWindow, secondary: set<TreeWindow>, i: nat)
    requires TabsMatch(tabs, main, secondary) && i < |tabs| && tabs[i] != main
    ensures TabsMatch(tabs[..i] + tabs[i + 1..], main, secondary - {tabs[i]})
  {
    var t, rest := tabs[i], tabs[..i] + tabs[i + 1..];
    assert tabs == tabs[..i] + ([t] + tabs[i + 1..]);
    forall u
      ensures u in rest <==> u in tabs && u != t
    {
    }
  }

  lemma NoTrees()
    ensures Inverse(map[], map[]) && SecondaryKeys(map[])
  {
  }

  /** When all secondary trees are gone, only the first tab is left. */
  lemma OnlyMainTab(tabs: seq<TreeWindow>, main: TreeWindow)
    requires TabsMatch(tabs, main, {})
    ensures tabs == [main]
  {
    assert tabs[|tabs| - 1] in tabs;
  }

  class Window {
    const mainTree: TreeWindow
    var trees: map<TreeKey, TreeWindow>
    var treesReverse: map<TreeWindow, TreeKey>
    /** The pages of the tab widget, and the one it shows. */
    var tabs: seq<TreeWindow>
    var shown: TreeWindow
    var tree: TreeWindow
    var treeSelection: TreeWindow?

    ghost predicate Valid()
      reads this
    {
      && Inverse(trees, treesReverse) && SecondaryKeys(trees)
      && TabsMatch(tabs, mainTree, treesReverse.Keys)
      && tree == shown && tree in tabs
      && (treeSelection != null ==> treeSelection in tabs)
    }

    /** The main tree is neither a key nor a value, and what is current or selected is alive. */
    lemma NeverDangling()
      requires Valid()
      ensures forall k :: k in trees ==> trees[k] != mainTree
      ensures tree == mainTree || exists k :: k in trees && trees[k] == tree
      ensures treeSelection == null || treeSelection == mainTree || exists k :: k in trees && trees[k] == treeSelection
    {
    }

    constructor ()
      ensures Valid() && trees == map[] && tree == mainTree && treeSelection == null
    {
      var main := new TreeWindow();
      mainTree, trees, treesReverse := main, map[], map[];
      tabs, shown, tree, treeSelection := [main], main, main, null;
    }

    /** The tab widget shows another page. */
    method PageChange(page: TreeWindow)
      requires Valid() && page in tabs
      modifies this`shown, this`tree
      ensures Valid() && tree == page
    {
      shown, tree := page, page;
    }

    /** Shows the tree with the given key, if there is one. */
    method ActivateKey(key: TreeKey) returns (found: bool)
      requires Valid()
      modifies this`shown, this`tree
      ensures Valid() && (found <==> key.kind == MainTree || key in trees)
      ensures tree == if key.kind == MainTree then mainTree else if key in trees then trees[key] else old(tree)
    {
      if key.kind == MainTree {
        shown, tree := tabs[0], mainTree;
        return true;
      }
      if key in trees {
        tree := trees[key];
        shown := tree;
        return true;
      }
      return false;
    }

    /** Shows the tree with the given key, creating it first if need be. */
    method Activate(key: TreeKey)
      requires Valid() && key.kind != MainTree && key.kind != InvalidTree
      modifies this
      ensures Valid() && key in trees && tree == trees[key] && treeSelection == old(treeSelection)
      ensures trees - {key} == old(trees) - {key}
      ensures if key in old(trees) then tree == old(trees)[key] && tabs == old(tabs)
              else fresh(tree) && tabs == old(tabs) + [tree]
    {
      hide Inverse, SecondaryKeys, TabsMatch;
      var found := ActivateKey(key);
      if !found {
        CreatePage(key);
        found := ActivateKey(key);
      }
    }

    /** A new, empty tree in a tab of its own, entered in both mappings. */
    method CreatePage(key: TreeKey)
      requires Valid() && key !in trees && key.kind != MainTree && key.kind != InvalidTree
      modifies this`trees, this`treesReverse, this`tabs
      ensures Valid() && key in trees && fresh(trees[key])
      ensures trees == old(trees)[key := trees[key]] && tabs == old(tabs) + [trees[key]]
    {
      hide Inverse, TabsMatch;
      var t := new TreeWindow();
      EntryAdded(trees, treesReverse, key, t);
      TabAdded(tabs, mainTree, treesReverse.Keys, t);
      tabs := tabs + [t];
      trees := trees[key := t];
      treesReverse := treesReverse[t := key];
    }

    /** Removes a secondary tree. If it was shown, the tab widget goes to whatever page it likes of the others. */
    method DeleteWindow(t: TreeWindow, next: nat)
      requires Valid() && t in treesReverse
      modifies this
      ensures Valid() && t !in tabs && t !in treesReverse
      ensures trees == old(trees) - {old(treesReverse)[t]} && treesReverse == old(treesReverse) - {t}
      ensures old(tree) != t ==> tree == old(tree)
      ensures treeSelection == if old(treeSelection) == t then null else old(treeSelection)
      ensures OneGone(old(tabs), tabs, t)
    {
      hide Inverse, SecondaryKeys, TabsMatch, OneGone;
      if treeSelection == t {
        treeSelection := null;
      }
      var key := treesReverse[t];
      EntryRemoved(trees, treesReverse, t);
      ghost var secondary := treesReverse.Keys;
      trees, treesReverse := trees - {key}, treesReverse - {t};
      RemoveTab(t, next, secondary);
      tree := shown;
    }

    /** What the tab widget does when a page is destroyed. */
    method RemoveTab(t: TreeWindow, next: nat, ghost secondary: set<TreeWindow>)
      requires TabsMatch(tabs, mainTree, secondary) && t in secondary && shown in tabs
      modifies this`tabs, this`shown
      ensures TabsMatch(tabs, mainTree, secondary - {t})
      ensures shown in tabs && (old(shown) != t ==> shown == old(shown))
      ensures forall u :: u in tabs <==> u in old(tabs) && u != t
      ensures OneGone(old(tabs), tabs, t)
    {
      var i :| 0 <= i < |tabs| && tabs[i] == t;
      TabRemoved(tabs, mainTree, secondary, i);
      tabs := tabs[..i] + tabs[i + 1..];
      if shown == t {
        shown := tabs[next % |tabs|];
      }
    }

    method Deactivate(key: TreeKey, next: nat)
      requires Valid()
      modifies this
      ensures Valid() && trees == old(trees) - {key}
      ensures if key in old(trees) then OneGone(old(tabs), tabs, old(trees)[key]) else tabs == old(tabs)
      ensures tree == old(tree) || (key in old(trees) && old(tree) == old(trees)[key])
      ensures treeSelection ==
        if key in old(trees) && old(treeSelection) == old(trees)[key] then null else old(treeSelection)
    {
      hide OneGone;
      if key.kind == MainTree {
        return;
      }
      if key in trees {
        DeleteWindow(trees[key], next);
      }
    }

    /** Closes the current tree unless it is the main one. */
    method DeleteCurrent(next: nat)
      requires Valid()
      modifies this
      ensures Valid()
      ensures if old(tree) == mainTree then trees == old(trees) && tabs == old(tabs) && tree == mainTree
              else
                && old(tree) in old(treesReverse) && trees == old(trees) - {old(treesReverse)[old(tree)]}
                && OneGone(old(tabs), tabs, old(tree))
      ensures treeSelection == if old(treeSelection) == old(tree) != mainTree then null else old(treeSelection)
    {
      hide OneGone;
      if tree != mainTree {
        DeleteWindow(tree, next);
      }
    }

    /** Closes all secondary trees; the tab widget may show any page still there along the way. */
    method ClearSecondary(next: nat)
      requires Valid()
      modifies this
      ensures Valid() && tree == mainTree && trees == map[] && treesReverse == map[] && tabs == [mainTree]
      ensures treeSelection == if old(treeSelection) == mainTree then mainTree else null
    {
      hide Inverse, TabsMatch, SecondaryKeys, OneGone;
      NoTrees();
      if treeSelection != mainTree {
        treeSelection := null;
      }
      var copy := treesReverse.Keys;
      trees, treesReverse := map[], map[];
      while copy != {}
        invariant TabsMatch(tabs, mainTree, copy) && shown in tabs
        invariant treeSelection == if old(treeSelection) == mainTree then mainTree else null
        invariant trees == map[] && treesReverse == map[]
        decreases |copy|
      {
        var t :| t in copy;
        RemoveTab(t, next, copy);
        copy := copy - {t};
      }
      tree := shown;
      OnlyMainTab(tabs, mainTree);
      assert tabs == [mainTree] && treesReverse.Keys == {};
    }

    /** The tree with a given name, or null. */
    method GetTree(name: TreeName) returns (t: TreeWindow?)
      requires Valid()
      ensures t == null || t in tabs
      ensures name.Current? ==> t == tree
      ensures name.Main? ==> t == mainTree
      ensures name.Select? ==>
        t == if TreeKey(OperatorVector, 0) in trees then trees[TreeKey(OperatorVector, 0)] else null
      ensures name.Number? ==> t == if name.n < |tabs| then tabs[name.n] else null
      ensures name.Other? ==> t == null
    {
      match name {
        case Current => t := tree;
        case Main => t := mainTree;
        case Select => t := if SELECTION_KEY in trees then trees[SELECTION_KEY] else null;
        case Number(n) => t := if n < |tabs| then tabs[n] else null;
        case Other => t := null;
      }
    }

    /** Asks a tree for its selection, and remembers which one was asked. */
    method GetSelected(name: TreeName)
      requires Valid()
      modifies this`treeSelection
      ensures Valid()
      ensures name.Current? ==> treeSelection == tree
      ensures name.Main? ==> treeSelection == mainTree
      ensures name.Select? ==>
        treeSelection == if TreeKey(OperatorVector, 0) in trees then trees[TreeKey(OperatorVector, 0)] else null
      ensures name.Number? ==> treeSelection == if name.n < |tabs| then tabs[name.n] else null
      ensures name.Other? ==> treeSelection == null
    {
      treeSelection := GetTree(name);
    }

    /** Any run of public operations. */
    method Run(ops: seq<Op>)
      requires Valid()
      modifies this
      ensures Valid()
    {
      for i := 0 to |ops|
        invariant Valid()
      {
        match ops[i] {
          case Show(key) => if key.kind != MainTree && key.kind != InvalidTree { Activate(key); }
          case ShowMain => var _ := ActivateKey(TreeKey(MainTree, 0));
          case Close(key, next) => Deactivate(key, next);
          case CloseCurrent(next) => DeleteCurrent(next);
          case CloseAll(next) => ClearSecondary(next);
          case Switch(n) => if n < |tabs| { PageChange(tabs[n]); }
          case Ask(name) => GetSelected(name);
        }
      }
    }
  }

  datatype Op =
    | Show(key: TreeKey)
    | ShowMain
    | Close(key: TreeKey, next: nat)
    | CloseCurrent(next: nat)
    | CloseAll(next: nat)
    | Switch(n: nat)
    | Ask(name: TreeName)
}
