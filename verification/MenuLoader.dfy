/** src/gui/menu.cc: loading the menu bar from the configuration, with cycle detection. */
module MenuLoader {
  import opened Helpers
  import opened MenuGraph
  import opened Accelerators

  /** The two ways loading fails: a name below itself, or a definition that is missing or no menu entry. */
  datatype LoadError = Cycle(path: seq<string>) | BadItem(name: string)

  /** The finished menu structure: a submenu with its entries, or a command with its action. */
  datatype Tree = Menu(slots: seq<Slot<Tree>>) | Command(action: string)

  predicate IsSeparator(name: string) {
    name == "-" || name == ""
  }

  /** System items, and the children users append to system lists. */
  datatype Settings = Settings(items: Config, additions: map<string, seq<string>>) {
    /** A definition as the loader reads it. */
    function Read(name: string): Entry {
      var entry := Lookup(items, name);
      if entry.List? && name in additions then List(entry.caption, entry.children + additions[name]) else entry
    }
  }

  /** The edges the loader follows. */
  function LoaderGraph(cfg: Settings): Graph {
    map n | n in cfg.items && !IsSeparator(n) && cfg.items[n].List? :: cfg.Read(n).children
  }

  /** What the loader accepts as a menu entry. */
  predicate Acceptable(cfg: Settings, name: string) {
    IsSeparator(name) || cfg.Read(name).List? || (cfg.Read(name).Item? && |cfg.Read(name).params| >= 1)
  }

  ghost function Elems(s: seq<string>): set<string> {
    set n | n in s
  }

  type OddClass = (string, char) -> bool

  /** The letters recorded after an entry is added: only commands record theirs. */
  function RecordSlot(used: string, slot: Slot<Tree>): string {
    if slot.Entry? && slot.target.Command? then Record(used, GetAccel(slot.text)) else used
  }

  function Recorded(slots: seq<Slot<Tree>>, used: string): string {
    if slots == [] then used else RecordSlot(Recorded(slots[..|slots| - 1], used), slots[|slots| - 1])
  }

  /** A submenu once all its entries are there: letters are recorded, then missing ones filled in. */
  function Finished(odd: OddClass, slots: seq<Slot<Tree>>): seq<Slot<Tree>> {
    Optimize(odd, slots, Recorded(slots, ""))
  }

  /** The entry that loading `name` below the names in `prev` produces. */
  function UnfoldItem(odd: OddClass, cfg: Settings, name: string, prev: seq<string>): Result<Slot<Tree>, LoadError>
    decreases cfg.items.Keys - Elems(prev), 0, 0
  {
    if name in prev then Err(Cycle(prev + [name]))
    else if IsSeparator(name) then Ok(Separator)
    else match cfg.Read(name)
      case List(caption, children) =>
        assert name in cfg.items.Keys - Elems(prev) && name !in cfg.items.Keys - Elems(prev + [name]);
        (match UnfoldAll(odd, cfg, children, prev + [name])
         case Ok(slots) => Ok(Entry(caption, Menu(Finished(odd, slots))))
         case Err(e) => Err(e))
      case Item(caption, params) =>
        if |params| < 1 then Err(BadItem(name)) else Ok(Entry(caption, Command(params[0])))
      case _ => Err(BadItem(name))
  }

  function UnfoldAll(odd: OddClass, cfg: Settings, names: seq<string>, prev: seq<string>)
    : (r: Result<seq<Slot<Tree>>, LoadError>)
    ensures r.Ok? ==> |r.value| == |names|
    decreases cfg.items.Keys - Elems(prev), 1, |names|
  {
    if names == [] then Ok([])
    else match UnfoldAll(odd, cfg, names[..|names| - 1], prev)
      case Err(e) => Err(e)
      case Ok(slots) =>
        match UnfoldItem(odd, cfg, names[|names| - 1], prev)
        case Err(e) => Err(e)
        case Ok(slot) => Ok(slots + [slot])
  }

  /** The menu bar: the root has to be a list, and is not itself among the names checked for cycles. */
  function UnfoldRoot(odd: OddClass, cfg: Settings, root: string): Result<seq<Slot<Tree>>, LoadError> {
    match cfg.Read(root)
    case List(_, children) =>
      (match UnfoldAll(odd, cfg, children, [])
       case Ok(slots) => Ok(Finished(odd, slots))
       case Err(e) => Err(e))
    case _ => Err(BadItem(root))
  }

  // ----- success exactly on acyclic, well-formed configurations -----

  /** No name is met twice on any walk from the root. */
  ghost predicate Acyclic(g: Graph, root: string) {
    forall p :: Walk(g, p) && p[0] == root ==> NoRepeats(p)
  }

  ghost predicate AllAcceptable(cfg: Settings, root: string) {
    forall x :: Reachable(LoaderGraph(cfg), [root], x) ==> Acceptable(cfg, x)
  }

  lemma LoaderSuccessors(cfg: Settings, name: string)
    ensures Succ(LoaderGraph(cfg), name)
         == if !IsSeparator(name) && cfg.Read(name).List? then cfg.Read(name).children else []
  {
  }

  /** If all of a list unfolds, each of its names does. */
  lemma {:induction false} UnfoldsEach(odd: OddClass, cfg: Settings, names: seq<string>, prev: seq<string>, i: nat)
    requires UnfoldAll(odd, cfg, names, prev).Ok? && i < |names|
    ensures UnfoldItem(odd, cfg, names[i], prev) == Ok(UnfoldAll(odd, cfg, names, prev).value[i])
    decreases |names|
  {
    if i < |names| - 1 {
      UnfoldsEach(odd, cfg, names[..|names| - 1], prev, i);
    }
  }

  /** If a list does not unfold, one of its names does not, with the same error. */
  lemma {:induction false} FailsAtOne(odd: OddClass, cfg: Settings, names: seq<string>, prev: seq<string>)
    returns (i: nat)
    requires UnfoldAll(odd, cfg, names, prev).Err?
    ensures i < |names| && UnfoldItem(odd, cfg, names[i], prev).Err?
    ensures UnfoldItem(odd, cfg, names[i], prev).error == UnfoldAll(odd, cfg, names, prev).error
    decreases |names|
  {
    i := |names| - 1;
    if UnfoldAll(odd, cfg, names[..i], prev).Err? {
      i := FailsAtOne(odd, cfg, names[..i], prev);
    }
  }

  lemma ClearOf(prev: seq<string>, p: seq<string>)
    requires |p| > 0 && p[0] !in prev && NoRepeats(p[1..])
    requires forall i :: 0 <= i < |p| - 1 ==> p[1..][i] !in prev + [p[0]]
    ensures NoRepeats(p)
    ensures forall i :: 0 <= i < |p| ==> p[i] !in prev
  {
  }

  /** A name that unfolds starts only walks that stay clear of its ancestors, never repeat, and end well. */
  lemma {:induction false} GoodWalk(odd: OddClass, cfg: Settings, prev: seq<string>, p: seq<string>)
    requires Walk(LoaderGraph(cfg), p) && UnfoldItem(odd, cfg, p[0], prev).Ok?
    ensures NoRepeats(p) && Acceptable(cfg, p[|p| - 1])
    ensures forall i :: 0 <= i < |p| ==> p[i] !in prev
    decreases |p|
  {
    hide UnfoldAll;
    LoaderSuccessors(cfg, p[0]);
    if |p| > 1 {
      assert p[1] in Succ(LoaderGraph(cfg), p[0]);
      var children := cfg.Read(p[0]).children;
      var i :| 0 <= i < |children| && children[i] == p[1];
      UnfoldsEach(odd, cfg, children, prev + [p[0]], i);
      GoodWalk(odd, cfg, prev + [p[0]], p[1..]);
      ClearOf(prev, p);
    }
  }

  /** A failure below `prev` is a walk that repeats a name, or one that ends in an unacceptable name. */
  lemma {:induction false} BadWalk(odd: OddClass, cfg: Settings, prev: seq<string>, name: string)
    returns (p: seq<string>)
    requires UnfoldItem(odd, cfg, name, prev).Err?
    requires Walk(LoaderGraph(cfg), prev + [name])
    ensures Walk(LoaderGraph(cfg), p) && prev + [name] <= p
    ensures !NoRepeats(p) || !Acceptable(cfg, p[|p| - 1])
    decreases cfg.items.Keys - Elems(prev)
  {
    p := prev + [name];
    LoaderSuccessors(cfg, name);
    if name in prev {
      var i :| 0 <= i < |prev| && prev[i] == name;
      assert p[i] == p[|prev|];
    } else if cfg.Read(name).List? {
      var children := cfg.Read(name).children;
      var i := FailsAtOne(odd, cfg, children, p);
      assert name in cfg.items.Keys - Elems(prev) && name !in cfg.items.Keys - Elems(p);
      p := BadWalk(odd, cfg, p, children[i]);
    }
  }

  /** Although the root is never put among the names checked for cycles, loading it succeeds exactly when it is a
      list, everything it reaches is acceptable, and no cycle is reachable, one through the root included. */
  lemma LoadsIffAcyclic(odd: OddClass, cfg: Settings, root: string)
    requires !IsSeparator(root)
    ensures UnfoldRoot(odd, cfg, root).Ok? <==>
      cfg.Read(root).List? && AllAcceptable(cfg, root) && Acyclic(LoaderGraph(cfg), root)
  {
    LoaderSuccessors(cfg, root);
    if cfg.Read(root).List? {
      var children := cfg.Read(root).children;
      if UnfoldAll(odd, cfg, children, []).Ok? {
        forall p | Walk(LoaderGraph(cfg), p) && p[0] == root
          ensures NoRepeats(p) && Acceptable(cfg, p[|p| - 1])
        {
          RootWalk(odd, cfg, root, p);
        }
      } else {
        BadRootWalk(odd, cfg, root);
      }
    }
  }

  lemma BadRootWalk(odd: OddClass, cfg: Settings, root: string)
    requires !IsSeparator(root) && cfg.Read(root).List? && UnfoldAll(odd, cfg, cfg.Read(root).children, []).Err?
    ensures !AllAcceptable(cfg, root) || !Acyclic(LoaderGraph(cfg), root)
  {
    hide UnfoldAll;
    var g := LoaderGraph(cfg);
    LoaderSuccessors(cfg, root);
    var children := cfg.Read(root).children;
    var i := FailsAtOne(odd, cfg, children, []);
    var q := BadWalk(odd, cfg, [], children[i]);
    WalkPrepend(g, root, q);
    var p := [root] + q;
    if NoRepeats(p) {
      assert NoRepeats(q) by {
        forall a, b | 0 <= a < b < |q|
          ensures q[a] != q[b]
        {
          assert q[a] == p[a + 1] && q[b] == p[b + 1];
        }
      }
      assert WalkTo(g, [root], p, q[|q| - 1]);
    }
  }

  lemma RootWalk(odd: OddClass, cfg: Settings, root: string, p: seq<string>)
    requires !IsSeparator(root) && UnfoldRoot(odd, cfg, root).Ok?
    requires Walk(LoaderGraph(cfg), p) && p[0] == root
    ensures NoRepeats(p) && Acceptable(cfg, p[|p| - 1])
  {
    hide UnfoldAll, UnfoldItem, LoaderGraph;
    LoaderSuccessors(cfg, root);
    if |p| > 1 {
      var q := p[1..];
      assert q[0] in Succ(LoaderGraph(cfg), p[0]);
      ChildWalk(odd, cfg, root, q);
      if root in q {
        NoWayBack(odd, cfg, root, q);
      }
      assert p == [root] + q;
    }
  }

  /** A walk from a child does not come back to the root: going around once more would repeat a name. */
  lemma NoWayBack(odd: OddClass, cfg: Settings, root: string, q: seq<string>)
    requires !IsSeparator(root) && UnfoldRoot(odd, cfg, root).Ok?
    requires Walk(LoaderGraph(cfg), q) && q[0] in cfg.Read(root).children
    ensures root !in q
  {
    hide UnfoldAll, UnfoldItem, LoaderGraph, Acceptable;
    LoaderSuccessors(cfg, root);
    if root in q {
      var j :| 0 <= j < |q| && q[j] == root;
      var loop := q[..j + 1] + q;
      assert loop[0] == loop[j + 1];
      ChildWalk(odd, cfg, root, loop);
    }
  }

  lemma ChildWalk(odd: OddClass, cfg: Settings, root: string, q: seq<string>)
    requires UnfoldRoot(odd, cfg, root).Ok?
    requires Walk(LoaderGraph(cfg), q) && q[0] in cfg.Read(root).children
    ensures NoRepeats(q) && Acceptable(cfg, q[|q| - 1])
  {
    var children := cfg.Read(root).children;
    var i :| 0 <= i < |children| && children[i] == q[0];
    UnfoldsEach(odd, cfg, children, [], i);
    GoodWalk(odd, cfg, [], q);
  }

  // ----- what is built -----

  /** A text, or the same text with one '&' put in. */
  ghost predicate SameCaption(text: string, caption: string) {
    text == caption || exists k :: 0 <= k <= |caption| && text == Mark(caption, k)
  }

  /** The entry shows the definition of `name`, and recursively its children in order. */
  ghost predicate Shows(cfg: Settings, name: string, slot: Slot<Tree>)
    decreases slot
  {
    match slot
    case Separator => IsSeparator(name)
    case Entry(text, target) =>
      && !IsSeparator(name)
      && match target
         case Command(action) =>
           var def := cfg.Read(name);
           def.Item? && |def.params| >= 1 && SameCaption(text, def.caption) && action == def.params[0]
         case Menu(slots) =>
           && cfg.Read(name).List? && SameCaption(text, cfg.Read(name).caption)
           && ShowsAll(cfg, cfg.Read(name).children, slots)
  }

  ghost predicate ShowsAll(cfg: Settings, names: seq<string>, slots: seq<Slot<Tree>>)
    decreases slots
  {
    |slots| == |names| && forall i :: 0 <= i < |names| ==> Shows(cfg, names[i], slots[i])
  }

  /** An entry fresh from its definition carries the caption as written; the pass over its menu may mark it. */
  lemma FreshEntryShows(odd: OddClass, cfg: Settings, name: string, slot: Slot<Tree>, used: string)
    requires Shows(cfg, name, slot)
    requires slot.Entry? ==> (cfg.Read(name).List? || cfg.Read(name).Item?) && slot.text == cfg.Read(name).caption
    ensures Shows(cfg, name, Improve(odd, slot, used).0)
  {
  }

  lemma {:induction false} ItemShows(odd: OddClass, cfg: Settings, name: string, prev: seq<string>)
    requires UnfoldItem(odd, cfg, name, prev).Ok?
    ensures var slot := UnfoldItem(odd, cfg, name, prev).value;
      && Shows(cfg, name, slot)
      && (slot.Entry? ==> (cfg.Read(name).List? || cfg.Read(name).Item?) && slot.text == cfg.Read(name).caption)
    decreases cfg.items.Keys - Elems(prev), 0
  {
    if !IsSeparator(name) && cfg.Read(name).List? {
      assert name in cfg.items.Keys - Elems(prev) && name !in cfg.items.Keys - Elems(prev + [name]);
      ListShows(odd, cfg, cfg.Read(name).children, prev + [name]);
    }
  }

  lemma {:induction false} ListShows(odd: OddClass, cfg: Settings, names: seq<string>, prev: seq<string>)
    requires UnfoldAll(odd, cfg, names, prev).Ok?
    ensures ShowsAll(cfg, names, Finished(odd, UnfoldAll(odd, cfg, names, prev).value))
    decreases cfg.items.Keys - Elems(prev), 1
  {
    var slots := UnfoldAll(odd, cfg, names, prev).value;
    var used := Recorded(slots, "");
    forall i | 0 <= i < |names|
      ensures Shows(cfg, names[i], Finished(odd, slots)[i])
    {
      UnfoldsEach(odd, cfg, names, prev, i);
      ItemShows(odd, cfg, names[i], prev);
      FreshEntryShows(odd, cfg, names[i], slots[i], UsedAt(odd, slots, used, i));
    }
  }

  /** A loaded menu bar is exactly the unfolding of the graph from its root. */
  lemma LoadedIsUnfolding(odd: OddClass, cfg: Settings, root: string)
    requires UnfoldRoot(odd, cfg, root).Ok?
    ensures ShowsAll(cfg, cfg.Read(root).children, UnfoldRoot(odd, cfg, root).value)
  {
    ListShows(odd, cfg, cfg.Read(root).children, []);
  }

  lemma {:induction false} RecordedHoldsCommands(slots: seq<Slot<Tree>>, i: nat)
    requires i < |slots| && slots[i].Entry? && slots[i].target.Command? && GetAccel(slots[i].text) != NO_ACCEL
    ensures GetAccel(slots[i].text) in Recorded(slots, "")
    decreases |slots|
  {
    if i < |slots| - 1 {
      RecordedHoldsCommands(slots[..|slots| - 1], i);
    }
  }

  /** No command caption of the menu has an accelerator that is special inside a character class. */
  ghost predicate OrdinaryAccels(slots: seq<Slot<Tree>>) {
    forall i :: 0 <= i < |slots| && slots[i].Entry? && slots[i].target.Command? ==> !IsMeta(GetAccel(slots[i].text))
  }

  lemma {:induction false} RecordedIsPlain(slots: seq<Slot<Tree>>)
    requires OrdinaryAccels(slots)
    ensures Plain(Recorded(slots, ""))
  {
    if slots != [] {
      hide Find;
      var front := slots[..|slots| - 1];
      assert forall i :: 0 <= i < |front| ==> front[i] == slots[i];
      RecordedIsPlain(front);
      assert OrdinaryAccels(slots) ==> slots[|slots| - 1].Entry? && slots[|slots| - 1].target.Command? ==>
        !IsMeta(GetAccel(slots[|slots| - 1].text));
    }
  }

  /** In a menu with these entries, the letter filled in for entry i repeats the one of entry j. */
  ghost predicate Repeats(odd: OddClass, slots: seq<Slot<Tree>>, i: nat, j: nat) {
    && i < |slots| && j < |slots| && slots[j].Entry? && Changed(odd, slots, Recorded(slots, ""), i)
    && Letter(odd, slots, Recorded(slots, ""), i) == GetAccel(slots[j].text)
  }

  /** Within one menu, a filled-in letter differs from the letters of all its command captions, as far as the class it
      is chosen with rejects used letters; without accelerators that are special inside a class, it does. */
  lemma FilledLettersAvoidCommands(odd: OddClass, slots: seq<Slot<Tree>>, i: nat, j: nat)
    requires i < |slots| && j < |slots| && slots[j].Entry? && slots[j].target.Command?
    ensures Rejecting(odd, UsedAt(odd, slots, Recorded(slots, ""), i)) ==> !Repeats(odd, slots, i, j)
    ensures OrdinaryAccels(slots) ==> Rejecting(odd, UsedAt(odd, slots, Recorded(slots, ""), i))
  {
    hide Recorded, GetAccel, UsedAt, Place, Rejecting, Plain;
    LettersDistinct(odd, slots, Recorded(slots, ""));
    if OrdinaryAccels(slots) {
      RecordedIsPlain(slots);
    }
    if GetAccel(slots[j].text) != NO_ACCEL {
      RecordedHoldsCommands(slots, j);
    }
  }

  lemma RecordedPair(slots: seq<Slot<Tree>>)
    requires |slots| == 2 && slots[0].Entry? && slots[0].target.Menu?
    requires slots[1].Entry? && GetAccel(slots[1].text) == NO_ACCEL
    ensures Recorded(slots, "") == ""
  {
    assert slots[..1][..0] == [];
    assert Recorded(slots[..1], "") == "";
  }

  /** Letters of submenu captions are not recorded: each of them is repeated in a menu with the submenu and a command
      whose caption is that letter. */
  lemma SubmenuLetterRepeats(odd: OddClass, text: string, entries: seq<Slot<Tree>>)
    requires 'a' <= GetAccel(text) <= 'z'
    ensures var slots := [Entry(text, Menu(entries)), Entry([GetAccel(text)], Command("x"))];
      && OrdinaryAccels(slots) && Repeats(odd, slots, 1, 0)
      && GetAccel(Finished(odd, slots)[0].text) == GetAccel(Finished(odd, slots)[1].text) == GetAccel(text)
  {
    hide GetAccel, Recorded, Place;
    var c := GetAccel(text);
    var slots := [Entry(text, Menu(entries)), Entry([c], Command("x"))];
    PlainClass(odd, "");
    LoneLetter(odd, c, "");
    RecordedPair(slots);
    KeepsItsAccel(odd, slots[0], "");
    assert UsedAt(odd, slots, "", 1) == UsedAt(odd, slots, "", 0) == "";
    MarkedAccel([c], 0);
  }

  lemma KeepsItsAccel(odd: OddClass, slot: Slot<Tree>, used: string)
    requires slot.Entry? && GetAccel(slot.text) != NO_ACCEL
    ensures Improve(odd, slot, used) == (slot, used)
  {
  }

  /** Exactly which entries keep their letter to themselves in every menu, as far as used letters are rejected: the
      commands, and the entries whose accelerator is no letter. */
  lemma SafeIffCommand(odd: OddClass, entry: Slot<Tree>)
    requires entry.Entry?
    ensures (forall slots, i: nat, j: nat :: i < |slots| && j < |slots| && slots[j] == entry ==>
               Rejecting(odd, UsedAt(odd, slots, Recorded(slots, ""), i)) ==> !Repeats(odd, slots, i, j))
      <==> entry.target.Command? || !('a' <= GetAccel(entry.text) <= 'z')
  {
    hide GetAccel, OrdinaryAccels, Repeats, Rejecting, UsedAt, Recorded;
    forall slots, i: nat, j: nat | i < |slots| && j < |slots| && slots[j] == entry
      ensures entry.target.Command? && Rejecting(odd, UsedAt(odd, slots, Recorded(slots, ""), i)) ==>
        !Repeats(odd, slots, i, j)
      ensures !('a' <= GetAccel(entry.text) <= 'z') ==> !Repeats(odd, slots, i, j)
    {
      if entry.target.Command? {
        FilledLettersAvoidCommands(odd, slots, i, j);
      }
      if Repeats(odd, slots, i, j) {
        OnlyLettersFilledIn(odd, slots, i, j);
      }
    }
    if entry.target.Menu? && 'a' <= GetAccel(entry.text) <= 'z' {
      var c := GetAccel(entry.text);
      SubmenuLetterRepeats(odd, entry.text, entry.target.slots);
      var slots := [entry, Entry([c], Command("x"))];
      assert slots[0] == entry && Repeats(odd, slots, 1, 0);
      FilledLettersAvoidCommands(odd, slots, 1, 1);
    }
  }

  lemma OnlyLettersFilledIn(odd: OddClass, slots: seq<Slot<Tree>>, i: nat, j: nat)
    requires Repeats(odd, slots, i, j)
    ensures 'a' <= GetAccel(slots[j].text) <= 'z'
  {
  }

  /** In a menu with these entries, entry i has this text and gets a letter that is not the accelerator read from it
      afterwards. */
  ghost predicate LetterHidden(odd: OddClass, slots: seq<Slot<Tree>>, i: nat, text: string) {
    && i < |slots| && Changed(odd, slots, Recorded(slots, ""), i) && slots[i].text == text
    && Finished(odd, slots)[i].Entry?
    && GetAccel(Finished(odd, slots)[i].text) != Letter(odd, slots, Recorded(slots, ""), i)
  }

  /** Commands with the given letters as accelerators. */
  function CommandsFor(letters: string): (r: seq<Slot<Tree>>)
    ensures |r| == |letters|
    ensures forall i :: 0 <= i < |r| ==> r[i] == Entry(['&', letters[i]], Command("x"))
  {
    if letters == [] then []
    else CommandsFor(letters[..|letters| - 1]) + [Entry(['&', letters[|letters| - 1]], Command("x"))]
  }

  lemma MarkedLetter(c: char)
    requires 'a' <= c <= 'z'
    ensures GetAccel(['&', c]) == c
  {
    FindsAt(['&', c], '&', 0);
  }

  lemma {:induction false} RecordedFor(letters: string, c: char)
    requires AllLower(letters)
    ensures c in Recorded(CommandsFor(letters), "") <==> c in letters
  {
    if letters != [] {
      var front, last := letters[..|letters| - 1], letters[|letters| - 1];
      var entry := Entry(['&', last], Command("x"));
      assert CommandsFor(letters) == CommandsFor(front) + [entry];
      hide GetAccel, Recorded, CommandsFor;
      RecordedFor(front, c);
      MarkedLetter(last);
      RecordedMore(CommandsFor(front), entry);
      assert letters == front + [last];
    }
  }

  lemma {:induction false} UsedAfterMarked(odd: OddClass, slots: seq<Slot<Tree>>, used: string, i: nat)
    requires i <= |slots| && forall k :: 0 <= k < i ==> slots[k].Entry? && GetAccel(slots[k].text) != NO_ACCEL
    ensures UsedAt(odd, slots, used, i) == used
  {
    if i > 0 {
      hide GetAccel;
      UsedAfterMarked(odd, slots, used, i - 1);
      KeepsItsAccel(odd, slots[i - 1], used);
    }
  }

  /** The menu in which commands have all these letters, and an entry without accelerator follows. */
  lemma MenuOfCommands(odd: OddClass, letters: string, text: string)
    requires GetAccel(text) == NO_ACCEL && AllLower(letters)
    ensures var commands, slots := CommandsFor(letters), CommandsFor(letters) + [Entry(text, Command("x"))];
      && OrdinaryAccels(slots) && Recorded(slots, "") == Recorded(commands, "")
      && UsedAt(odd, slots, Recorded(slots, ""), |letters|) == Recorded(commands, "")
  {
    hide GetAccel, Recorded, UsedAt;
    var commands := CommandsFor(letters);
    var slots := commands + [Entry(text, Command("x"))];
    forall k | 0 <= k < |letters|
      ensures slots[k].Entry? && GetAccel(slots[k].text) != NO_ACCEL && !IsMeta(GetAccel(slots[k].text))
    {
      MarkedLetter(letters[k]);
    }
    RecordedMore(commands, Entry(text, Command("x")));
    UsedAfterMarked(odd, slots, Recorded(slots, ""), |letters|);
  }

  /** A caption with a letter behind an '&' has its letter hidden in the menu where commands use all letters before. */
  lemma HiddenBehindCommands(odd: OddClass, text: string, j: nat)
    requires GetAccel(text) == NO_ACCEL && LetterBehindMark(text, j)
    ensures var letters := LowerLetters(text[..j]);
      var slots := CommandsFor(letters) + [Entry(text, Command("x"))];
      OrdinaryAccels(slots) && LetterHidden(odd, slots, |letters|, text)
  {
    hide GetAccel, Recorded, Place, LowerLetters, CommandsFor, UsedAt, OrdinaryAccels;
    var letters := LowerLetters(text[..j]);
    var used := Recorded(CommandsFor(letters), "");
    forall c
      ensures c in used <==> c in letters
    {
      RecordedFor(letters, c);
    }
    MenuOfCommands(odd, letters, text);
    BehindMarkChosen(odd, text, j, used);
    MarkedAccel(text, j);
  }

  lemma RecordedMore(slots: seq<Slot<Tree>>, slot: Slot<Tree>)
    ensures Recorded(slots + [slot], "") == RecordSlot(Recorded(slots, ""), slot)
  {
    hide RecordSlot;
    assert (slots + [slot])[..|slots|] == slots;
  }

  /** Exactly which captions without accelerator can get, in some menu, a letter that is not read back. */
  lemma HiddenInMenuIff(odd: OddClass, text: string)
    requires GetAccel(text) == NO_ACCEL
    ensures (exists slots, i: nat :: OrdinaryAccels(slots) && LetterHidden(odd, slots, i, text))
      <==> exists j: nat :: LetterBehindMark(text, j)
  {
    hide GetAccel, OrdinaryAccels, Recorded, Place, UsedAt;
    if slots, i: nat :| OrdinaryAccels(slots) && LetterHidden(odd, slots, i, text) {
      RecordedIsPlain(slots);
      UsedGrows(odd, slots, Recorded(slots, ""), 0, i);
      HiddenIff(odd, text);
      assert HiddenFor(odd, text, UsedAt(odd, slots, Recorded(slots, ""), i));
    }
    if j: nat :| LetterBehindMark(text, j) {
      var letters := LowerLetters(text[..j]);
      var slots := CommandsFor(letters) + [Entry(text, Command("x"))];
      HiddenBehindCommands(odd, text, j);
      assert LetterHidden(odd, slots, |letters|, text);
    }
  }

  // ----- the loader itself: menus are objects, known by number -----

  /** What an entry of a menu object leads to. */
  datatype Target = Sub(menu: nat) | Act(action: string)

  type Menus = map<nat, seq<Slot<Target>>>

  /** Submenus are created after their parents. */
  ghost predicate Nested(menus: Menus, next: nat) {
    forall id :: id in menus ==> id < next && SlotsNested(menus, id, menus[id])
  }

  ghost predicate SlotsNested(menus: Menus, id: nat, slots: seq<Slot<Target>>) {
    forall i :: 0 <= i < |slots| ==> SlotNested(menus, id, slots[i])
  }

  ghost predicate SlotNested(menus: Menus, id: nat, slot: Slot<Target>) {
    slot.Entry? && slot.target.Sub? ==> id < slot.target.menu && slot.target.menu in menus
  }

  /** The structure hanging below a menu object. */
  ghost function View(menus: Menus, next: nat, id: nat): (r: seq<Slot<Tree>>)
    requires Nested(menus, next) && id in menus
    ensures |r| == |menus[id]|
    decreases next - id, 1
  {
    seq(|menus[id]|, i requires 0 <= i < |menus[id]| =>
      assert SlotNested(menus, id, menus[id][i]);
      ViewSlot(menus, next, id, menus[id][i]))
  }

  ghost function ViewSlot(menus: Menus, next: nat, id: nat, slot: Slot<Target>): Slot<Tree>
    requires Nested(menus, next) && id < next && SlotNested(menus, id, slot)
    decreases next - id, 0
  {
    match slot
    case Separator => Separator
    case Entry(text, Act(action)) => Entry(text, Command(action))
    case Entry(text, Sub(child)) => Entry(text, Menu(View(menus, next, child)))
  }

  /** All that lies above a number stays as it was. */
  ghost predicate SameFrom(menus: Menus, menus': Menus, id: nat) {
    forall j :: j in menus && id <= j ==> j in menus' && menus'[j] == menus[j]
  }

  lemma {:induction false} ViewStays(menus: Menus, next: nat, menus': Menus, next': nat, id: nat)
    requires Nested(menus, next) && Nested(menus', next') && id in menus && SameFrom(menus, menus', id)
    ensures View(menus', next', id) == View(menus, next, id)
    decreases next - id
  {
    forall i | 0 <= i < |menus[id]|
      ensures View(menus', next', id)[i] == View(menus, next, id)[i]
    {
      assert SlotNested(menus, id, menus[id][i]);
      ViewSlotStays(menus, next, menus', next', id, menus[id][i]);
    }
  }

  lemma {:induction false} ViewSlotStays(menus: Menus, next: nat, menus': Menus, next': nat,
                                          id: nat, slot: Slot<Target>)
    requires Nested(menus, next) && Nested(menus', next') && SlotNested(menus, id, slot)
    requires id < next && id < next' && SameFrom(menus, menus', id + 1)
    ensures SlotNested(menus', id, slot)
    ensures ViewSlot(menus', next', id, slot) == ViewSlot(menus, next, id, slot)
    decreases next - id, 0
  {
    if slot.Entry? && slot.target.Sub? {
      ViewStays(menus, next, menus', next', slot.target.menu);
    }
  }

  type Accels = map<nat, string>

  function AccelOf(accels: Accels, id: nat): string {
    if id in accels then accels[id] else ""
  }

  /** Of the menus there were, only the given one may have changed. */
  ghost predicate OthersKept(menus: Menus, accels: Accels, menus': Menus, accels': Accels, id: nat) {
    forall j :: j in menus && j != id ==>
      j in menus' && menus'[j] == menus[j] && AccelOf(accels', j) == AccelOf(accels, j)
  }

  /** The same object with one more entry, everything else as it was or new. */
  ghost predicate Appended(menus: Menus, menus': Menus, id: nat, slot: Slot<Target>) {
    && id in menus && id in menus' && menus'[id] == menus[id] + [slot]
    && forall j :: j in menus && j != id ==> j in menus' && menus'[j] == menus[j]
  }

  lemma ViewAppended(menus: Menus, next: nat, menus': Menus, next': nat, id: nat, slot: Slot<Target>)
    requires Nested(menus, next) && Nested(menus', next') && Appended(menus, menus', id, slot)
    ensures SlotNested(menus', id, slot)
    ensures View(menus', next', id) == View(menus, next, id) + [ViewSlot(menus', next', id, slot)]
  {
    var n := |menus[id]|;
    assert menus'[id][n] == slot && SlotNested(menus', id, menus'[id][n]);
    forall i | 0 <= i < n
      ensures View(menus', next', id)[i] == View(menus, next, id)[i]
    {
      assert menus'[id][i] == menus[id][i] && SlotNested(menus, id, menus[id][i]);
      ViewSlotStays(menus, next, menus', next', id, menus[id][i]);
    }
  }

  /** The pass over a menu only looks at texts, so it commutes with looking below the entries. */
  lemma {:induction false} SameTextsSamePass<S, T>(odd: OddClass, a: seq<Slot<S>>, b: seq<Slot<T>>,
                                                    used: string, i: nat)
    requires |a| == |b| && i <= |a|
    requires forall k :: 0 <= k < |a| ==> (a[k].Entry? <==> b[k].Entry?) && (a[k].Entry? ==> a[k].text == b[k].text)
    ensures UsedAt(odd, a, used, i) == UsedAt(odd, b, used, i)
  {
    if i > 0 {
      SameTextsSamePass(odd, a, b, used, i - 1);
    }
  }

  lemma ViewOptimized(odd: OddClass, menus: Menus, next: nat, id: nat, used: string)
    requires Nested(menus, next) && id in menus
    ensures var menus' := menus[id := Optimize(odd, menus[id], used)];
      Nested(menus', next) && View(menus', next, id) == Optimize(odd, View(menus, next, id), used)
  {
    var before, after := menus[id], Optimize(odd, menus[id], used);
    var menus' := menus[id := after];
    forall j, k | j in menus' && 0 <= k < |menus'[j]|
      ensures SlotNested(menus', j, menus'[j][k])
    {
      assert SlotNested(menus, j, menus[j][k]);
    }
    forall k | 0 <= k < |before|
      ensures SlotNested(menus, id, before[k])
      ensures View(menus, next, id)[k].Entry? <==> before[k].Entry?
      ensures before[k].Entry? ==> View(menus, next, id)[k].text == before[k].text
    {
    }
    forall i | 0 <= i < |before|
      ensures View(menus', next, id)[i] == Optimize(odd, View(menus, next, id), used)[i]
    {
      SameTextsSamePass(odd, before, View(menus, next, id), used, i);
      assert SlotNested(menus, id, before[i]) && SlotNested(menus', id, after[i]);
      ViewSlotStays(menus, next, menus', next, id, before[i]);
    }
  }

  lemma UnfoldNone(odd: OddClass, cfg: Settings, prev: seq<string>, used: string)
    ensures UnfoldAll(odd, cfg, [], prev) == Ok([]) && Recorded([], used) == used
  {
  }

  /** One more name of a list. */
  lemma UnfoldNext(odd: OddClass, cfg: Settings, names: seq<string>, prev: seq<string>, k: nat, used: string)
    requires k < |names| && UnfoldAll(odd, cfg, names[..k], prev).Ok?
    ensures var some, one := UnfoldAll(odd, cfg, names[..k], prev), UnfoldItem(odd, cfg, names[k], prev);
      var more := UnfoldAll(odd, cfg, names[..k + 1], prev);
      if one.Err? then more.Err? && more.error == one.error
      else
        && more == Ok(some.value + [one.value])
        && Recorded(more.value, used) == RecordSlot(Recorded(some.value, used), one.value)
  {
    hide UnfoldItem, RecordSlot;
    assert names[..k + 1][..k] == names[..k];
    var one := UnfoldItem(odd, cfg, names[k], prev);
    if one.Ok? {
      var some := UnfoldAll(odd, cfg, names[..k], prev).value;
      assert (some + [one.value])[..|some|] == some;
    }
  }

  lemma {:induction false} PrefixFails(odd: OddClass, cfg: Settings, names: seq<string>, prev: seq<string>, k: nat)
    requires k <= |names| && UnfoldAll(odd, cfg, names[..k], prev).Err?
    ensures UnfoldAll(odd, cfg, names, prev) == UnfoldAll(odd, cfg, names[..k], prev)
    decreases |names|
  {
    if k == |names| {
      assert names[..k] == names;
    } else {
      assert names[..|names| - 1][..k] == names[..k];
      PrefixFails(odd, cfg, names[..|names| - 1], prev, k);
    }
  }

  lemma NestedNew(menus: Menus, next: nat)
    requires Nested(menus, next)
    ensures Nested(menus[next := []], next + 1)
  {
  }

  lemma NestedAppend(menus: Menus, next: nat, id: nat, slot: Slot<Target>)
    requires Nested(menus, next) && id in menus && SlotNested(menus, id, slot)
    ensures Nested(menus[id := menus[id] + [slot]], next)
  {
  }

  lemma ViewSub(menus: Menus, next: nat, id: nat, caption: string, child: nat)
    requires Nested(menus, next) && id in menus && child in menus && id < child
    ensures ViewSlot(menus, next, id, Entry(caption, Sub(child))) == Entry(caption, Menu(View(menus, next, child)))
  {
  }

  lemma NewAncestor(cfg: Settings, name: string, prev: seq<string>)
    requires name !in prev && cfg.Read(name).List?
    ensures cfg.items.Keys - Elems(prev + [name]) < cfg.items.Keys - Elems(prev)
  {
    assert name in cfg.items.Keys - Elems(prev) && name !in cfg.items.Keys - Elems(prev + [name]);
  }

  /** A submenu unfolds as its children do, below one more ancestor. */
  lemma UnfoldSubmenu(odd: OddClass, cfg: Settings, name: string, prev: seq<string>)
    requires name !in prev && !IsSeparator(name) && cfg.Read(name).List?
    ensures var def, item := cfg.Read(name), UnfoldItem(odd, cfg, name, prev);
      match UnfoldAll(odd, cfg, def.children, prev + [name])
      case Ok(slots) => item == Ok(Entry(def.caption, Menu(Finished(odd, slots))))
      case Err(e) => item.Err? && item.error == e
  {
  }

  /** Filling a new menu leaves what hangs below the old ones. */
  lemma FilledAside(menus: Menus, accels: Accels, next: nat, filled: Menus, accels': Accels, next': nat, parent: nat)
    requires Nested(menus, next) && Nested(filled, next') && parent in menus
    requires OthersKept(menus[next := []], accels, filled, accels', next)
    ensures parent < next && parent in filled && AccelOf(accels', parent) == AccelOf(accels, parent)
    ensures View(filled, next', parent) == View(menus, next, parent)
  {
    hide View, AccelOf;
    ViewStays(menus, next, filled, next', parent);
  }

  /** Putting it into its parent then changes the parent alone. */
  lemma OnlyParent(menus: Menus, accels: Accels, next: nat, filled: Menus, accels': Accels, menus': Menus, parent: nat,
                   slot: Slot<Target>)
    requires Nested(menus, next) && OthersKept(menus[next := []], accels, filled, accels', next)
    requires Appended(filled, menus', parent, slot)
    ensures OthersKept(menus, accels, menus', accels', parent)
  {
    hide AccelOf;
  }

  lemma PutIntoParent(filled: Menus, menus: Menus, next: nat, parent: nat, caption: string, item: nat)
    requires Nested(filled, next) && Nested(menus, next) && item in filled && parent < item
    requires Appended(filled, menus, parent, Entry(caption, Sub(item)))
    ensures SlotNested(menus, parent, Entry(caption, Sub(item))) && parent < next
    ensures ViewSlot(menus, next, parent, Entry(caption, Sub(item))) == Entry(caption, Menu(View(filled, next, item)))
  {
    hide View, ViewSlot;
    ViewStays(filled, next, menus, next, item);
    ViewSub(menus, next, parent, caption, item);
  }

  datatype Outcome = Done | Failed(error: LoadError)

  class Loader {
    const cfg: Settings
    const odd: OddClass
    var menus: Menus
    /** Accelerators recorded for each menu. */
    var accels: Accels
    var next: nat

    ghost predicate Valid()
      reads this
    {
      Nested(menus, next) && forall id :: id in accels ==> id < next
    }

    function Accel(id: nat): string
      reads this`accels
    {
      AccelOf(accels, id)
    }

    constructor (cfg: Settings, odd: OddClass)
      ensures Valid() && menus == map[] && accels == map[] && next == 0 && this.cfg == cfg && this.odd == odd
    {
      this.cfg, this.odd := cfg, odd;
      menus, accels, next := map[], map[], 0;
    }

    /** One item of the pass: pick a letter in the filtered text, look it up in the full one. */
    method FillAccel(slot: Slot<Target>, used: string) returns (slot': Slot<Target>, used': string)
      ensures (slot', used') == Improve(odd, slot, used)
    {
      slot', used' := slot, used;
      if slot.Entry? && GetAccel(slot.text) == NO_ACCEL {
        var letters := Letters(slot.text);
        var idx := FirstUsable(odd, letters, used, 0);
        assert slot.text[0..] == slot.text;
        TwoSearches(odd, slot.text, used, 0);
        if idx < |letters| {
          var accel := Lower(letters[idx]);
          var pos := FindFold(slot.text, accel, 0);
          slot', used' := Entry(Mark(slot.text, pos), slot.target), used + [accel];
        }
      }
    }

    /** Fills in missing accelerators, item by item; the letters chosen are not recorded. */
    method OptimizeItems(menu: nat)
      requires menu in menus
      modifies this`menus
      ensures menus == old(menus)[menu := Optimize(odd, old(menus)[menu], Accel(menu))]
    {
      hide UsedAt, Improve, Optimize, OptimizedUpTo;
      ghost var items := menus[menu];
      var used := Accel(menu);
      OptimizedNone(odd, items, used);
      for i := 0 to |menus[menu]|
        invariant menu in menus && |menus[menu]| == |items|
        invariant menus == old(menus)[menu := menus[menu]]
        invariant used == UsedAt(odd, items, Accel(menu), i)
        invariant OptimizedUpTo(odd, items, menus[menu], Accel(menu), i)
      {
        OptimizedNext(odd, items, menus[menu], Accel(menu), i);
        var slot, used' := FillAccel(menus[menu][i], used);
        menus := menus[menu := menus[menu][i := slot]];
        used := used';
      }
      OptimizedAll(odd, items, menus[menu], Accel(menu));
    }

    /** A new, empty menu object. */
    method NewMenu() returns (id: nat)
      requires Valid()
      modifies this`menus, this`next
      ensures Valid() && id == old(next) && id !in old(menus)
      ensures menus == old(menus)[id := []] && next == id + 1
      ensures View(menus, next, id) == [] && Accel(id) == ""
    {
      id := next;
      menus, next := menus[id := []], next + 1;
      NestedNew(old(menus), id);
    }

    /** Puts an entry at the end of a menu. */
    method InsertItem(parent: nat, slot: Slot<Target>)
      requires Valid() && parent in menus && SlotNested(menus, parent, slot)
      modifies this`menus
      ensures Valid() && Appended(old(menus), menus, parent, slot)
      ensures View(menus, next, parent) == old(View(menus, next, parent)) + [ViewSlot(menus, next, parent, slot)]
    {
      menus := menus[parent := menus[parent] + [slot]];
      NestedAppend(old(menus), next, parent, slot);
      ViewAppended(old(menus), next, menus, next, parent, slot);
    }

    /** Adds a command, recording the accelerator of its caption. */
    method AddItem(caption: string, params: seq<string>, parent: nat, name: string) returns (r: Outcome)
      requires Valid() && parent in menus
      modifies this
      ensures r == if |params| < 1 then Failed(BadItem(name)) else Done
      ensures r.Done? ==>
        && Valid() && next == old(next)
        && Appended(old(menus), menus, parent, Entry(caption, Act(params[0])))
        && View(menus, next, parent) == old(View(menus, next, parent)) + [Entry(caption, Command(params[0]))]
        && Accel(parent) == Record(old(Accel(parent)), GetAccel(caption))
        && OthersKept(old(menus), old(accels), menus, accels, parent)
    {
      if |params| < 1 {
        return Failed(BadItem(name));
      }
      accels := accels[parent := Record(Accel(parent), GetAccel(caption))];
      InsertItem(parent, Entry(caption, Act(params[0])));
      r := Done;
    }

    /** The list branch of LoadItem: a new menu is filled, then put into the parent. */
    method LoadSubmenu(name: string, caption: string, children: seq<string>, parent: nat, prev: seq<string>)
      returns (r: Outcome)
      requires Valid() && parent in menus
      requires name !in prev && !IsSeparator(name) && cfg.Read(name) == List(caption, children)
      modifies this
      ensures r.Done? <==> UnfoldItem(odd, cfg, name, prev).Ok?
      ensures r.Failed? ==> r.error == UnfoldItem(odd, cfg, name, prev).error
      ensures r.Done? ==> Valid() && parent in menus && old(next) <= next
      ensures r.Done? ==> OthersKept(old(menus), old(accels), menus, accels, parent)
      ensures r.Done? ==>
        && View(menus, next, parent) == old(View(menus, next, parent)) + [UnfoldItem(odd, cfg, name, prev).value]
        && Accel(parent) == old(Accel(parent))
      decreases cfg.items.Keys - Elems(prev), 0
    {
      NewAncestor(cfg, name, prev);
      UnfoldSubmenu(odd, cfg, name, prev);
      hide Nested, View, Optimize, Recorded, ViewSlot, Elems, UnfoldItem, UnfoldAll, OthersKept, AccelOf, Appended;
      var item := NewMenu();
      r := LoadItemsDef(children, item, prev + [name]);
      if r.Done? {
        ghost var filled := menus;
        EmptyFirst(UnfoldAll(odd, cfg, children, prev + [name]).value);
        FilledAside(old(menus), old(accels), old(next), menus, accels, next, parent);
        InsertItem(parent, Entry(caption, Sub(item)));
        PutIntoParent(filled, menus, next, parent, caption, item);
        OnlyParent(old(menus), old(accels), old(next), filled, accels, menus, parent, Entry(caption, Sub(item)));
      }
    }

    /** Loads one entry and puts it into the parent menu. */
    method LoadItem(name: string, parent: nat, prev: seq<string>) returns (r: Outcome)
      requires Valid() && parent in menus
      modifies this
      ensures r.Done? <==> UnfoldItem(odd, cfg, name, prev).Ok?
      ensures r.Failed? ==> r.error == UnfoldItem(odd, cfg, name, prev).error
      ensures r.Done? ==> Valid() && parent in menus && old(next) <= next
      ensures r.Done? ==> OthersKept(old(menus), old(accels), menus, accels, parent)
      ensures r.Done? ==>
        && View(menus, next, parent) == old(View(menus, next, parent)) + [UnfoldItem(odd, cfg, name, prev).value]
        && Accel(parent) == RecordSlot(old(Accel(parent)), UnfoldItem(odd, cfg, name, prev).value)
      decreases cfg.items.Keys - Elems(prev), 1
    {
      hide Nested, View, Optimize, Recorded, UnfoldAll, Elems;
      if name in prev {
        return Failed(Cycle(prev + [name]));
      }
      if IsSeparator(name) {
        InsertItem(parent, Separator);
        return Done;
      }
      match cfg.Read(name) {
        case List(caption, children) =>
          r := LoadSubmenu(name, caption, children, parent, prev);
        case Item(caption, params) =>
          r := AddItem(caption, params, parent, name);
        case _ =>
          r := Failed(BadItem(name));
      }
    }

    /** The loop of LoadItemsDef. */
    method LoadEach(names: seq<string>, menu: nat, prev: seq<string>) returns (r: Outcome)
      requires Valid() && menu in menus
      modifies this
      ensures r.Done? <==> UnfoldAll(odd, cfg, names, prev).Ok?
      ensures r.Failed? ==> r.error == UnfoldAll(odd, cfg, names, prev).error
      ensures r.Done? ==> Valid() && menu in menus && old(next) <= next
      ensures r.Done? ==> OthersKept(old(menus), old(accels), menus, accels, menu)
      ensures r.Done? ==>
        && View(menus, next, menu) == old(View(menus, next, menu)) + UnfoldAll(odd, cfg, names, prev).value
        && Accel(menu) == Recorded(UnfoldAll(odd, cfg, names, prev).value, old(Accel(menu)))
      decreases cfg.items.Keys - Elems(prev), 2
    {
      hide Nested, View, ViewSlot, UnfoldItem, Elems, UnfoldAll, Recorded, RecordSlot;
      UnfoldNone(odd, cfg, prev, Accel(menu));
      assert names[..0] == [];
      for k := 0 to |names|
        invariant Valid() && menu in menus && old(next) <= next
        invariant OthersKept(old(menus), old(accels), menus, accels, menu)
        invariant UnfoldAll(odd, cfg, names[..k], prev).Ok?
        invariant View(menus, next, menu) == old(View(menus, next, menu)) + UnfoldAll(odd, cfg, names[..k], prev).value
        invariant Accel(menu) == Recorded(UnfoldAll(odd, cfg, names[..k], prev).value, old(Accel(menu)))
      {
        UnfoldNext(odd, cfg, names, prev, k, old(Accel(menu)));
        r := LoadItem(names[k], menu, prev);
        if r.Failed? {
          PrefixFails(odd, cfg, names, prev, k + 1);
          return;
        }
        ConcatAssoc(old(View(menus, next, menu)), UnfoldAll(odd, cfg, names[..k], prev).value,
                    [UnfoldItem(odd, cfg, names[k], prev).value]);
      }
      assert names[..|names|] == names;
      r := Done;
    }

    /** Loads a list of entries into a menu, then fills in its accelerators. */
    method LoadItemsDef(names: seq<string>, menu: nat, prev: seq<string>) returns (r: Outcome)
      requires Valid() && menu in menus
      modifies this
      ensures r.Done? <==> UnfoldAll(odd, cfg, names, prev).Ok?
      ensures r.Failed? ==> r.error == UnfoldAll(odd, cfg, names, prev).error
      ensures r.Done? ==> Valid() && menu in menus && old(next) <= next
      ensures r.Done? ==> OthersKept(old(menus), old(accels), menus, accels, menu)
      ensures r.Done? ==>
        var slots := UnfoldAll(odd, cfg, names, prev).value;
        View(menus, next, menu)
          == Optimize(odd, old(View(menus, next, menu)) + slots, Recorded(slots, old(Accel(menu))))
      decreases cfg.items.Keys - Elems(prev), 3
    {
      hide Nested, View, Optimize, ViewSlot, UnfoldAll, Recorded, Elems;
      r := LoadEach(names, menu, prev);
      if r.Done? {
        ViewOptimized(odd, menus, next, menu, Accel(menu));
        OptimizeItems(menu);
      }
    }

    /** Loads the menu bar. */
    method LoadItems(root: string) returns (menu: nat, r: Outcome)
      requires Valid()
      modifies this
      ensures r.Done? <==> UnfoldRoot(odd, cfg, root).Ok?
      ensures r.Failed? ==> r.error == UnfoldRoot(odd, cfg, root).error
      ensures r.Done? ==> Valid() && menu in menus && View(menus, next, menu) == UnfoldRoot(odd, cfg, root).value
    {
      hide Nested, View, Optimize, ViewSlot, UnfoldItem, UnfoldAll, Recorded, Elems;
      menu := NewMenu();
      match cfg.Read(root) {
        case List(_, children) =>
          r := LoadItemsDef(children, menu, []);
          if r.Done? {
            EmptyFirst(UnfoldAll(odd, cfg, children, []).value);
          }
        case _ =>
          r := Failed(BadItem(root));
      }
    }
  }
}
