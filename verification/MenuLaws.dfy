/** src/gui/menu.cc: what a loaded menu is, said of the configuration lines and the captions in it. */
module MenuLaws {
  import opened Helpers
  import opened MenuGraph
  import opened Accelerators
  import opened MenuLoader

  // ----- definitions -----

  /** A definition is the configured one, with the children users have added behind those of a list. */
  lemma ReadSays(cfg: Settings, name: string)
    ensures
      if name !in cfg.items then cfg.Read(name) == Malformed
      else match cfg.items[name]
        case List(caption, children) =>
          cfg.Read(name) == List(caption, children + if name in cfg.additions then cfg.additions[name] else [])
        case entry => cfg.Read(name) == entry
  {
    if name in cfg.items && cfg.items[name].List? {
      assert cfg.items[name].children + [] == cfg.items[name].children;
    }
  }

  /** The loader's edges lead from lists to the children in the configuration and to those that users have added. */
  lemma EdgesLoaded(cfg: Settings, name: string, next: string)
    ensures next in Succ(LoaderGraph(cfg), name) <==>
      && name != "" && name != "-" && name in cfg.items && cfg.items[name].List?
      && (next in cfg.items[name].children || (name in cfg.additions && next in cfg.additions[name]))
  {
  }

  /** What the loader takes: a separator, a list, or an item with a field. */
  ghost predicate Takes(cfg: Settings, name: string) {
    name == "" || name == "-" ||
    (name in cfg.items && (cfg.items[name].List? || (cfg.items[name].Item? && cfg.items[name].params != [])))
  }

  lemma TakesAcceptable(cfg: Settings, name: string)
    ensures Acceptable(cfg, name) <==> Takes(cfg, name)
  {
  }

  /** Loading succeeds exactly if the root is a configured list, everything reached is taken, and no walk meets a name
      twice. */
  lemma LoadsIff(odd: OddClass, cfg: Settings, root: string)
    requires root != "" && root != "-"
    ensures UnfoldRoot(odd, cfg, root).Ok? <==>
      && root in cfg.items && cfg.items[root].List? && Acyclic(LoaderGraph(cfg), root)
      && forall x :: Reachable(LoaderGraph(cfg), [root], x) ==> Takes(cfg, x)
  {
    hide UnfoldRoot, Acyclic, LoaderGraph, Reachable, Takes, Acceptable;
    LoadsIffAcyclic(odd, cfg, root);
    ReadSays(cfg, root);
    forall x
      ensures Acceptable(cfg, x) <==> Takes(cfg, x)
    {
      TakesAcceptable(cfg, x);
    }
  }

  // ----- errors -----

  /** What an error says of the names that begin with the given ones: a walk that ends in a name it has met before, or
      one to a name that is not taken. */
  ghost predicate Explains(cfg: Settings, error: LoadError, front: seq<string>) {
    match error
    case Cycle(path) =>
      && front <= path && Walk(LoaderGraph(cfg), path)
      && NoRepeats(path[..|path| - 1]) && path[|path| - 1] in path[..|path| - 1]
    case BadItem(name) => !Takes(cfg, name) && exists p :: LeadsTo(cfg, front, p, name)
  }

  ghost predicate LeadsTo(cfg: Settings, front: seq<string>, p: seq<string>, name: string) {
    Walk(LoaderGraph(cfg), p) && front <= p && p[|p| - 1] == name
  }

  lemma ExplainsMore(cfg: Settings, error: LoadError, front: seq<string>, more: seq<string>)
    requires Explains(cfg, error, more) && front <= more
    ensures Explains(cfg, error, front)
  {
    hide Walk, NoRepeats, Takes;
    if error.BadItem? {
      var p :| LeadsTo(cfg, more, p, error.name);
      assert LeadsTo(cfg, front, p, error.name);
    }
  }

  lemma {:induction false} ItemErrorSays(odd: OddClass, cfg: Settings, name: string, prev: seq<string>)
    requires UnfoldItem(odd, cfg, name, prev).Err? && NoRepeats(prev) && Walk(LoaderGraph(cfg), prev + [name])
    ensures Explains(cfg, UnfoldItem(odd, cfg, name, prev).error, prev + [name])
    decreases cfg.items.Keys - Elems(prev)
  {
    hide UnfoldAll, LoaderGraph, NoRepeats, Takes;
    var p := prev + [name];
    ReadSays(cfg, name);
    TakesAcceptable(cfg, name);
    assert p[..|prev|] == prev;
    if name in prev {
    } else if !IsSeparator(name) && cfg.Read(name).List? {
      NewName(prev, name);
      var children := cfg.Read(name).children;
      var i := FailsAtOne(odd, cfg, children, p);
      assert name in cfg.items.Keys - Elems(prev) && name !in cfg.items.Keys - Elems(p);
      LoaderSuccessors(cfg, name);
      WalkOn(LoaderGraph(cfg), p, children[i]);
      ItemErrorSays(odd, cfg, children[i], p);
      ExplainsMore(cfg, UnfoldItem(odd, cfg, name, prev).error, p, p + [children[i]]);
    } else {
      assert LeadsTo(cfg, p, p, name);
    }
  }

  lemma NewName(prev: seq<string>, name: string)
    requires NoRepeats(prev) && name !in prev
    ensures NoRepeats(prev + [name])
  {
  }

  lemma WalkOn(g: Graph, p: seq<string>, next: string)
    requires Walk(g, p) && next in Succ(g, p[|p| - 1])
    ensures Walk(g, p + [next])
  {
  }

  /** A failure to load a menu bar names a cycle below one of its entries, or a name below one that is not taken; or
      else the root, which is no list then. */
  lemma ErrorSays(odd: OddClass, cfg: Settings, root: string) returns (entry: string)
    requires root != "" && root != "-" && UnfoldRoot(odd, cfg, root).Err?
    ensures if root in cfg.items && cfg.items[root].List? then
              entry in Succ(LoaderGraph(cfg), root) && Explains(cfg, UnfoldRoot(odd, cfg, root).error, [entry])
            else UnfoldRoot(odd, cfg, root).error == BadItem(root)
  {
    hide UnfoldAll, UnfoldItem, LoaderGraph, NoRepeats, Explains;
    ReadSays(cfg, root);
    entry := root;
    if cfg.Read(root).List? {
      var children := cfg.Read(root).children;
      var i := FailsAtOne(odd, cfg, children, []);
      entry := children[i];
      assert [] + [entry] == [entry];
      LoaderSuccessors(cfg, root);
      FirstName(LoaderGraph(cfg), entry);
      ItemErrorSays(odd, cfg, entry, []);
    }
  }

  lemma FirstName(g: Graph, name: string)
    ensures NoRepeats([]) && Walk(g, [name])
  {
  }

  // ----- accelerators, at every depth -----

  /** The captions of some names as the configuration has them, and which of them are commands. */
  ghost function CaptionsOf(cfg: Settings, names: seq<string>): (r: seq<Slot<bool>>)
    ensures |r| == |names|
  {
    seq(|names|, i requires 0 <= i < |names| => CaptionOf(cfg, names[i]))
  }

  ghost function CaptionOf(cfg: Settings, name: string): Slot<bool> {
    if name == "" || name == "-" then Separator
    else match cfg.Read(name)
      case List(caption, _) => Entry(caption, false)
      case Item(caption, _) => Entry(caption, true)
      case _ => Separator
  }

  /** Exactly the accelerators that commands have by their captions. */
  ghost predicate CommandAccels(captions: seq<Slot<bool>>, used: string) {
    forall c :: c in used <==>
      c != '\0' && exists i :: 0 <= i < |captions| && captions[i].Entry? && captions[i].target
                                && GetAccel(captions[i].text) == c
  }

  /** Every entry of a menu carries its caption as the pass over the captions leaves it, where the accelerators of the
      commands are used from the start. */
  ghost predicate FilledHere<T>(odd: OddClass, cfg: Settings, names: seq<string>, slots: seq<Slot<T>>) {
    exists used :: CommandAccels(CaptionsOf(cfg, names), used) && TextsOfPass(odd, CaptionsOf(cfg, names), used, slots)
  }

  /** So it is in a loaded menu and in all menus below. */
  ghost predicate Filled(odd: OddClass, cfg: Settings, names: seq<string>, slots: seq<Slot<Tree>>)
    decreases slots
  {
    && |slots| == |names| && FilledHere(odd, cfg, names, slots)
    && forall i :: 0 <= i < |slots| && slots[i].Entry? && slots[i].target.Menu? ==>
         cfg.Read(names[i]).List? && Filled(odd, cfg, cfg.Read(names[i]).children, slots[i].target.slots)
  }

  ghost predicate TextsOfPass<S, T>(odd: OddClass, captions: seq<Slot<S>>, used: string, slots: seq<Slot<T>>) {
    && |slots| == |captions|
    && forall i :: 0 <= i < |slots| ==>
         && (slots[i].Entry? <==> captions[i].Entry?)
         && (slots[i].Entry? ==>
              Optimize(odd, captions, used)[i].Entry? && slots[i].text == Optimize(odd, captions, used)[i].text)
  }

  /** What the pass makes of a caption: it stays if it has an accelerator, or if the class rejects all its letters; else
      the '&' comes in front of the first letter that the class accepts. */
  lemma TextSays<T>(odd: OddClass, captions: seq<Slot<T>>, used: string, i: nat)
    requires i < |captions| && captions[i].Entry?
    ensures var text, now, out := captions[i].text, UsedAt(odd, captions, used, i), Optimize(odd, captions, used)[i];
      && out.Entry?
      && if GetAccel(text) != '\0' || (forall k :: 0 <= k < |text| && IsLetter(text[k]) ==> !Usable(odd, now, text[k]))
         then out.text == text
         else
           exists k :: 0 <= k < |text| && IsLetter(text[k]) && Usable(odd, now, text[k]) && FirstOf(odd, text, now, k)
             && out.text == text[..k] + "&" + text[k..]
  {
    hide GetAccel, Usable, UsedAt;
    var text, now := captions[i].text, UsedAt(odd, captions, used, i);
    var k := Place(odd, text, now);
    if k < |text| {
      assert FirstOf(odd, text, now, k);
    }
  }

  ghost predicate FirstOf(odd: OddClass, text: string, now: string, k: nat) {
    k < |text| && forall j :: 0 <= j < k && IsLetter(text[j]) ==> !Usable(odd, now, text[j])
  }

  lemma {:induction false} RecordedSays(slots: seq<Slot<Tree>>, c: char)
    ensures c in Recorded(slots, "") <==>
      c != '\0' && exists i :: 0 <= i < |slots| && slots[i].Entry? && slots[i].target.Command?
                                && GetAccel(slots[i].text) == c
    decreases |slots|
  {
    hide GetAccel;
    if slots != [] {
      var front, last := slots[..|slots| - 1], slots[|slots| - 1];
      RecordedSays(front, c);
      assert slots == front + [last];
      if i :| 0 <= i < |slots| && slots[i].Entry? && slots[i].target.Command? && GetAccel(slots[i].text) == c {
        assert i < |front| ==> front[i] == slots[i];
      }
      if i :| 0 <= i < |front| && front[i].Entry? && front[i].target.Command? && GetAccel(front[i].text) == c {
        assert slots[i] == front[i];
      }
      if last.Entry? && last.target.Command? && GetAccel(last.text) == c {
        assert slots[|front|] == last;
      }
    }
  }

  /** Fresh entries show the captions, and know which of them are commands. */
  ghost predicate Fresh(captions: seq<Slot<bool>>, slots: seq<Slot<Tree>>) {
    && |captions| == |slots|
    && forall i :: 0 <= i < |slots| ==>
         && (captions[i].Entry? <==> slots[i].Entry?)
         && (slots[i].Entry? ==>
              captions[i].text == slots[i].text && (captions[i].target <==> slots[i].target.Command?))
  }

  lemma RecordedOfFresh(captions: seq<Slot<bool>>, slots: seq<Slot<Tree>>)
    requires Fresh(captions, slots)
    ensures CommandAccels(captions, Recorded(slots, ""))
  {
    hide GetAccel, Recorded;
    forall c
      ensures c in Recorded(slots, "") <==>
        c != '\0' && exists i :: 0 <= i < |captions| && captions[i].Entry? && captions[i].target
                                  && GetAccel(captions[i].text) == c
    {
      RecordedSays(slots, c);
      if i :| 0 <= i < |slots| && slots[i].Entry? && slots[i].target.Command? && GetAccel(slots[i].text) == c {
        assert captions[i].Entry? && captions[i].target;
      }
      if i :| 0 <= i < |captions| && captions[i].Entry? && captions[i].target && GetAccel(captions[i].text) == c {
        assert slots[i].Entry? && slots[i].target.Command?;
      }
    }
  }

  lemma PassOfFresh(odd: OddClass, captions: seq<Slot<bool>>, slots: seq<Slot<Tree>>, used: string)
    requires Fresh(captions, slots)
    ensures TextsOfPass(odd, captions, used, Optimize(odd, slots, used))
  {
    hide Place, UsedAt;
    forall i | 0 <= i < |slots|
      ensures var out := Optimize(odd, slots, used)[i];
        && (out.Entry? <==> captions[i].Entry?)
        && (out.Entry? ==> Optimize(odd, captions, used)[i].Entry? && out.text == Optimize(odd, captions, used)[i].text)
    {
      SameTextsSamePass(odd, slots, captions, used, i);
    }
  }

  lemma ItemFresh(odd: OddClass, cfg: Settings, name: string, prev: seq<string>)
    requires UnfoldItem(odd, cfg, name, prev).Ok?
    ensures Fresh([CaptionOf(cfg, name)], [UnfoldItem(odd, cfg, name, prev).value])
  {
    hide UnfoldAll;
  }

  /** The pass over one menu. */
  lemma HereFilled(odd: OddClass, cfg: Settings, names: seq<string>, prev: seq<string>)
    requires UnfoldAll(odd, cfg, names, prev).Ok?
    ensures FilledHere(odd, cfg, names, Finished(odd, UnfoldAll(odd, cfg, names, prev).value))
  {
    var slots, captions := UnfoldAll(odd, cfg, names, prev).value, CaptionsOf(cfg, names);
    hide Recorded, UsedAt, Place, TextsOfPass, CommandAccels, UnfoldItem, UnfoldAll, Optimize, Fresh;
    forall i | 0 <= i < |names|
      ensures Fresh([captions[i]], [slots[i]])
    {
      UnfoldsEach(odd, cfg, names, prev, i);
      ItemFresh(odd, cfg, names[i], prev);
    }
    FreshOneByOne(captions, slots);
    RecordedOfFresh(captions, slots);
    PassOfFresh(odd, captions, slots, Recorded(slots, ""));
  }

  lemma {:induction false} ItemFilled(odd: OddClass, cfg: Settings, name: string, prev: seq<string>)
    requires UnfoldItem(odd, cfg, name, prev).Ok?
    ensures var slot := UnfoldItem(odd, cfg, name, prev).value;
      slot.Entry? && slot.target.Menu? ==>
        cfg.Read(name).List? && Filled(odd, cfg, cfg.Read(name).children, slot.target.slots)
    decreases cfg.items.Keys - Elems(prev), 0
  {
    hide Filled, Finished, UnfoldAll;
    if name !in prev && !IsSeparator(name) && cfg.Read(name).List? {
      assert name in cfg.items.Keys - Elems(prev) && name !in cfg.items.Keys - Elems(prev + [name]);
      ListFilled(odd, cfg, cfg.Read(name).children, prev + [name]);
    }
  }

  lemma {:induction false} ListFilled(odd: OddClass, cfg: Settings, names: seq<string>, prev: seq<string>)
    requires UnfoldAll(odd, cfg, names, prev).Ok?
    ensures Filled(odd, cfg, names, Finished(odd, UnfoldAll(odd, cfg, names, prev).value))
    decreases cfg.items.Keys - Elems(prev), 1
  {
    HereFilled(odd, cfg, names, prev);
    var unfolded := UnfoldAll(odd, cfg, names, prev).value;
    var slots := Finished(odd, unfolded);
    hide Recorded, UsedAt, Place, FilledHere, UnfoldItem, UnfoldAll;
    forall i | 0 <= i < |slots| && slots[i].Entry? && slots[i].target.Menu?
      ensures cfg.Read(names[i]).List? && Filled(odd, cfg, cfg.Read(names[i]).children, slots[i].target.slots)
    {
      UnfoldsEach(odd, cfg, names, prev, i);
      ItemFilled(odd, cfg, names[i], prev);
      assert unfolded[i].Entry? && unfolded[i].target == slots[i].target;
    }
  }

  lemma FreshOneByOne(captions: seq<Slot<bool>>, slots: seq<Slot<Tree>>)
    requires |captions| == |slots| && forall i :: 0 <= i < |slots| ==> Fresh([captions[i]], [slots[i]])
    ensures Fresh(captions, slots)
  {
    forall i | 0 <= i < |slots|
      ensures captions[i].Entry? <==> slots[i].Entry?
      ensures slots[i].Entry? ==>
        captions[i].text == slots[i].text && (captions[i].target <==> slots[i].target.Command?)
    {
      assert [captions[i]][0] == captions[i] && [slots[i]][0] == slots[i];
    }
  }

  /** A menu bar that loads has its missing accelerators filled in, in the bar itself and in every menu below. */
  lemma LoadedIsFilled(odd: OddClass, cfg: Settings, root: string)
    requires UnfoldRoot(odd, cfg, root).Ok?
    ensures Filled(odd, cfg, cfg.Read(root).children, UnfoldRoot(odd, cfg, root).value)
  {
    hide Filled;
    ListFilled(odd, cfg, cfg.Read(root).children, []);
  }
}
