/** src/gui/basecore.cc and src/gui/basegui.cc: the registry of script wrappers around tree items. */
module WrapperRegistry {

  class TreeItem {
    constructor () {}
  }

  /** A script wrapper; it is enabled while it holds an item. */
  class Wrapper {
    var obj: TreeItem?

    constructor (item: TreeItem)
      ensures obj == item
    {
      obj := item;
    }

    method Disable()
      modifies this
      ensures obj == null
    {
      obj := null;
    }
  }

  type Wraps = map<TreeItem, set<Wrapper>>

  /** The enabled wrappers of an item. */
  ghost function EnabledFor(live: set<Wrapper>, item: TreeItem): set<Wrapper>
    reads live
  {
    set w | w in live && w.obj == item
  }

  class Registry {
    /** For every wrapped item, its wrappers. */
    var treeWrap: Wraps
    /** Wrappers that have been created and not destroyed. */
    var baseObjects: set<Wrapper>
    /** Items that have been deleted. */
    ghost var deleted: set<TreeItem>

    /** The registry holds exactly the enabled wrappers, under their items, and none of a deleted item. */
    ghost predicate Valid()
      reads this, baseObjects
    {
      && (forall item :: item in treeWrap ==>
            item !in deleted && treeWrap[item] != {} && treeWrap[item] == EnabledFor(baseObjects, item))
      && (forall w :: w in baseObjects && w.obj != null ==> w.obj in treeWrap)
    }

    constructor ()
      ensures Valid() && baseObjects == {} && deleted == {} && treeWrap == map[]
    {
      treeWrap, baseObjects, deleted := map[], {}, {};
    }

    method AddTreeItemToList(w: Wrapper)
      requires w.obj != null
      modifies this`treeWrap
      ensures treeWrap == old(treeWrap)[w.obj := (if w.obj in old(treeWrap) then old(treeWrap)[w.obj] else {}) + {w}]
    {
      var item := w.obj;
      if item !in treeWrap {
        treeWrap := treeWrap[item := {}];
      }
      treeWrap := treeWrap[item := treeWrap[item] + {w}];
    }

    /** The result tells whether both checks of the source pass: there is a dictionary, and the wrapper is in it. */
    method RemoveTreeItemFromList(w: Wrapper) returns (listed: bool)
      requires w.obj != null
      modifies this`treeWrap
      ensures listed <==> w.obj in old(treeWrap) && w in old(treeWrap)[w.obj]
      ensures !listed ==> treeWrap == old(treeWrap)
      ensures listed ==>
        treeWrap == if old(treeWrap)[w.obj] == {w} then old(treeWrap) - {w.obj}
                    else old(treeWrap)[w.obj := old(treeWrap)[w.obj] - {w}]
    {
      var item := w.obj;
      if item !in treeWrap || w !in treeWrap[item] {
        return false;
      }
      listed := true;
      treeWrap := treeWrap[item := treeWrap[item] - {w}];
      if treeWrap[item] == {} {
        treeWrap := treeWrap - {item};
      }
    }

    /** A script wraps an item. */
    method CreateWrapper(item: TreeItem) returns (w: Wrapper)
      requires Valid() && item !in deleted
      modifies this
      ensures Valid() && fresh(w) && w.obj == item && deleted == old(deleted)
      ensures baseObjects == old(baseObjects) + {w}
    {
      w := new Wrapper(item);
      baseObjects := baseObjects + {w};
      AddTreeItemToList(w);
      forall i | i in treeWrap
        ensures treeWrap[i] == EnabledFor(baseObjects, i) != {}
      {
        if i == item {
          assert item !in old(treeWrap) ==> old(EnabledFor(baseObjects, item)) == {};
          assert treeWrap[i] == old(EnabledFor(baseObjects, item)) + {w};
        } else {
          assert treeWrap[i] == old(EnabledFor(baseObjects, i));
        }
      }
    }

    /** A wrapper goes away; if it is enabled it takes itself off the list, where it always is. */
    method DestroyWrapper(w: Wrapper) returns (listed: bool)
      requires Valid() && w in baseObjects
      modifies this
      ensures Valid() && listed && baseObjects == old(baseObjects) - {w} && deleted == old(deleted)
    {
      listed := true;
      if w.obj != null {
        assert w in EnabledFor(baseObjects, w.obj);
        listed := RemoveTreeItemFromList(w);
      }
      baseObjects := baseObjects - {w};
      forall i | i in treeWrap
        ensures treeWrap[i] == EnabledFor(baseObjects, i) != {}
      {
        assert EnabledFor(baseObjects, i) == old(EnabledFor(baseObjects, i)) - {w};
        if i == w.obj {
          assert treeWrap[i] == old(treeWrap)[i] - {w};
          assert old(treeWrap)[i] == treeWrap[i] + {w};
        } else {
          assert w !in old(treeWrap)[i];
        }
      }
      forall v | v in baseObjects && v.obj != null
        ensures v.obj in treeWrap
      {
        assert v in old(treeWrap)[v.obj];
      }
    }

    /** An item goes away: its wrappers are disabled and forgotten. */
    method TreeItemDeleted(item: TreeItem)
      requires Valid()
      modifies this, baseObjects
      ensures Valid() && baseObjects == old(baseObjects) && deleted == old(deleted) + {item} && item !in treeWrap
      ensures forall w :: w in baseObjects ==> w.obj == if old(w.obj) == item then null else old(w.obj)
    {
      deleted := deleted + {item};
      if item in treeWrap {
        var todo := treeWrap[item];
        while todo != {}
          invariant todo <= old(treeWrap)[item] && todo <= baseObjects
          invariant treeWrap == old(treeWrap) && baseObjects == old(baseObjects) && deleted == old(deleted) + {item}
          invariant forall w :: w in baseObjects ==>
            w.obj == if old(w.obj) == item && w !in todo then null else old(w.obj)
          decreases |todo|
        {
          var w :| w in todo;
          w.Disable();
          todo := todo - {w};
        }
        treeWrap := treeWrap - {item};
      }
      forall i | i in treeWrap
        ensures treeWrap[i] == EnabledFor(baseObjects, i)
      {
        assert treeWrap[i] == old(EnabledFor(baseObjects, i));
      }
    }

    /** Destroys everything at the end. The registry is emptied first, so the checks of the destroyed wrappers pass
        exactly if none of them is still enabled. */
    method Cleanup() returns (listed: bool)
      requires Valid()
      modifies this
      ensures listed <==> forall w :: w in old(baseObjects) ==> w.obj == null
      ensures treeWrap == map[] && (listed ==> baseObjects == {})
    {
      treeWrap := map[];
      var todo := baseObjects;
      listed := true;
      while todo != {} && listed
        invariant todo <= baseObjects == old(baseObjects) && treeWrap == map[]
        invariant listed ==> forall w :: w in baseObjects && w !in todo ==> w.obj == null
        invariant !listed ==> exists w :: w in baseObjects && w.obj != null
        decreases |todo|, listed
      {
        var w :| w in todo;
        if w.obj != null {
          listed := RemoveTreeItemFromList(w);
        }
        todo := todo - {w};
      }
      if listed {
        baseObjects := {};
      }
    }

    /** Any run before the cleanup: the checks never fail, whatever is wrapped, destroyed and deleted. */
    method Run(items: seq<TreeItem>, steps: seq<Step>) returns (listed: bool)
      requires Valid() && baseObjects == {} && deleted == {}
      modifies this
      ensures Valid() && listed
      ensures forall w :: w in baseObjects && w.obj != null ==>
        w.obj !in deleted && w.obj in treeWrap && w in treeWrap[w.obj]
    {
      listed := true;
      var gone: set<TreeItem> := {};
      for k := 0 to |steps|
        invariant Valid() && listed && fresh(baseObjects) && gone == deleted
      {
        match steps[k] {
          case Wrap(i) =>
            if i < |items| && items[i] !in gone {
              var _ := CreateWrapper(items[i]);
            }
          case Destroy =>
            if baseObjects != {} {
              var w :| w in baseObjects;
              listed := DestroyWrapper(w);
            }
          case Delete(i) =>
            if i < |items| {
              TreeItemDeleted(items[i]);
              gone := gone + {items[i]};
            }
        }
      }
    }
  }

  datatype Step = Wrap(i: nat) | Destroy | Delete(i: nat)
}
