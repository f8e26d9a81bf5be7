/** The menu configuration as a directed graph of names, shared by the menu checker and the menu loader. */
module MenuGraph {

  /** A parsed `gui/items/<name>` line. An Item holds its caption and the fields after it. */
  datatype Entry =
    | List(caption: string, children: seq<string>)
    | Item(caption: string, params: seq<string>)
    | Label(text: string)
    | Malformed

  type Config = map<string, Entry>

  /** A missing key reads as an empty line, which no branch accepts. */
  function Lookup(config: Config, name: string): Entry {
    if name in config then config[name] else Malformed
  }

  /** Successor lists; a name without a list has no successors. */
  type Graph = map<string, seq<string>>

  function Succ(g: Graph, name: string): seq<string> {
    if name in g then g[name] else []
  }

  /** A walk through the graph, at least one name long. Names may repeat. */
  ghost predicate Walk(g: Graph, p: seq<string>) {
    && |p| > 0
    && forall i :: 0 < i < |p| ==> p[i] in Succ(g, p[i - 1])
  }

  lemma WalkPrepend(g: Graph, name: string, p: seq<string>)
    requires Walk(g, p) && p[0] in Succ(g, name)
    ensures Walk(g, [name] + p)
  {
  }

  ghost predicate WalkTo(g: Graph, roots: seq<string>, p: seq<string>, name: string) {
    Walk(g, p) && p[0] in roots && p[|p| - 1] == name
  }

  ghost predicate Reachable(g: Graph, roots: seq<string>, name: string) {
    exists p :: WalkTo(g, roots, p, name)
  }

  lemma RootReachable(g: Graph, roots: seq<string>, name: string)
    requires name in roots
    ensures Reachable(g, roots, name)
  {
    assert WalkTo(g, roots, [name], name);
  }

  lemma ReachableStep(g: Graph, roots: seq<string>, name: string, next: string)
    requires Reachable(g, roots, name) && next in Succ(g, name)
    ensures Reachable(g, roots, next)
  {
    var p :| WalkTo(g, roots, p, name);
    assert WalkTo(g, roots, p + [next], next);
  }

  /** What the successors of `name` reach, `name` reaches. */
  lemma ReachableThroughSuccessors(g: Graph, name: string, x: string)
    requires Reachable(g, Succ(g, name), x)
    ensures Reachable(g, [name], x)
  {
    var p :| WalkTo(g, Succ(g, name), p, x);
    assert WalkTo(g, [name], [name] + p, x);
  }

  lemma ReachableWiden(g: Graph, some: seq<string>, roots: seq<string>, x: string)
    requires forall r :: r in some ==> r in roots
    requires Reachable(g, some, x)
    ensures Reachable(g, roots, x)
  {
    var p :| WalkTo(g, some, p, x);
    assert WalkTo(g, roots, p, x);
  }

  /** A set that holds every kept root and is closed under kept successors holds every kept reachable name,
      when names that are not kept have no successors. */
  lemma {:induction false} ClosedHoldsReachable(g: Graph, roots: seq<string>, keep: string -> bool,
                                                closed: set<string>, p: seq<string>)
    requires Walk(g, p) && p[0] in roots
    requires forall n :: n in g ==> keep(n)
    requires forall r :: r in roots && keep(r) ==> r in closed
    requires forall n, m :: n in closed && m in Succ(g, n) && keep(m) ==> m in closed
    ensures keep(p[|p| - 1]) ==> p[|p| - 1] in closed
    decreases |p|
  {
    if |p| > 1 {
      var front := p[..|p| - 1];
      ClosedHoldsReachable(g, roots, keep, closed, front);
      assert p[|p| - 1] in Succ(g, front[|front| - 1]);
    }
  }

  ghost predicate NoRepeats(s: seq<string>) {
    forall i, j :: 0 <= i < j < |s| ==> s[i] != s[j]
  }

  /** Occurrences of every name in the child lists of the given names. */
  ghost function References(g: Graph, names: seq<string>): multiset<string> {
    if names == [] then multiset{} else multiset(Succ(g, names[0])) + References(g, names[1..])
  }

  lemma {:induction false} ReferencesConcat(g: Graph, a: seq<string>, b: seq<string>)
    ensures References(g, a + b) == References(g, a) + References(g, b)
  {
    if a == [] {
      assert a + b == b;
    } else {
      assert (a + b)[1..] == a[1..] + b;
      ReferencesConcat(g, a[1..], b);
    }
  }

  /** Where a name stands in a list. */
  ghost function Places(s: seq<string>, name: string): set<int> {
    set i | 0 <= i < |s| && s[i] == name
  }

  lemma {:induction false} PlacesCounted(s: seq<string>, name: string)
    ensures multiset(s)[name] == |Places(s, name)|
  {
    if s != [] {
      var front, last := s[..|s| - 1], s[|s| - 1];
      PlacesCounted(front, name);
      assert s == front + [last];
      assert Places(s, name) == Places(front, name) + if last == name then {|front|} else {};
    }
  }

  /** Where it stands in the child lists of some names: which name, and where in its list. */
  ghost function ChildPlaces(g: Graph, names: seq<string>, name: string): set<(int, int)> {
    set k, i | 0 <= k < |names| && 0 <= i < |Succ(g, names[k])| && Succ(g, names[k])[i] == name :: (k, i)
  }

  ghost function Beside(k: int, places: set<int>): set<(int, int)> {
    set i | i in places :: (k, i)
  }

  lemma {:induction false} BesideCounted(k: int, s: seq<string>, name: string)
    ensures |Beside(k, Places(s, name))| == multiset(s)[name]
  {
    if s != [] {
      var front, last := s[..|s| - 1], s[|s| - 1];
      BesideCounted(k, front, name);
      assert s == front + [last];
      assert Beside(k, Places(s, name))
          == Beside(k, Places(front, name)) + if last == name then {(k, |front|)} else {};
    }
  }

  lemma {:induction false} ReferencesCounted(g: Graph, names: seq<string>, name: string)
    ensures References(g, names)[name] == |ChildPlaces(g, names, name)|
    decreases |names|
  {
    if names != [] {
      hide Succ;
      var front, last := names[..|names| - 1], names[|names| - 1];
      ReferencesCounted(g, front, name);
      ReferencesConcat(g, front, [last]);
      assert names == front + [last];
      BesideCounted(|front|, Succ(g, last), name);
      ChildPlacesNext(g, front, last, name);
    }
  }

  lemma ChildPlacesNext(g: Graph, front: seq<string>, last: string, name: string)
    ensures var before, here := ChildPlaces(g, front, name), Beside(|front|, Places(Succ(g, last), name));
      ChildPlaces(g, front + [last], name) == before + here && before !! here
  {
    hide Succ;
    var names := front + [last];
    assert forall k :: 0 <= k < |front| ==> names[k] == front[k];
    forall k, i
      ensures (k, i) in ChildPlaces(g, names, name) <==>
        (k, i) in ChildPlaces(g, front, name) || (k, i) in Beside(|front|, Places(Succ(g, last), name))
    {
      if 0 <= k < |front| {
        assert names[k] == front[k];
      }
    }
  }

  function Without(s: seq<string>, i: nat): seq<string>
    requires i < |s|
  {
    s[..i] + s[i + 1..]
  }

  lemma BagWithout(s: seq<string>, i: nat)
    requires i < |s|
    ensures multiset(Without(s, i)) == multiset(s) - multiset{s[i]}
  {
    assert s == s[..i] + ([s[i]] + s[i + 1..]);
  }

  lemma ReferencesCons(g: Graph, x: string, s: seq<string>)
    ensures References(g, [x] + s) == multiset(Succ(g, x)) + References(g, s)
  {
  }

  lemma BagSwap(a: multiset<string>, b: multiset<string>, c: multiset<string>)
    ensures a + (b + c) == b + (a + c)
  {
  }

  /** Taking one name out of the list takes its successors out of the counts. */
  lemma ReferencesWithout(g: Graph, s: seq<string>, i: nat)
    requires i < |s|
    ensures References(g, s) == multiset(Succ(g, s[i])) + References(g, Without(s, i))
  {
    hide References;
    var front, back := s[..i], s[i + 1..];
    ReferencesConcat(g, front, back);
    ReferencesConcat(g, front, [s[i]] + back);
    ReferencesCons(g, s[i], back);
    assert s == front + ([s[i]] + back);
    BagSwap(References(g, front), multiset(Succ(g, s[i])), References(g, back));
  }

  /** The order in which names are visited does not matter for the counts. */
  lemma {:induction false} ReferencesOrderFree(g: Graph, a: seq<string>, b: seq<string>)
    requires multiset(a) == multiset(b)
    ensures References(g, a) == References(g, b)
  {
    if a == [] {
      assert |multiset(b)| == 0;
    } else {
      assert a[0] in multiset(b);
      var i :| 0 <= i < |b| && b[i] == a[0];
      BagWithout(a, 0);
      BagWithout(b, i);
      assert Without(a, 0) == a[1..];
      ReferencesOrderFree(g, a[1..], Without(b, i));
      ReferencesWithout(g, b, i);
    }
  }

  lemma {:induction false} SameElementsSameBag(a: seq<string>, b: seq<string>)
    requires NoRepeats(a) && NoRepeats(b)
    requires forall x :: x in a <==> x in b
    ensures multiset(a) == multiset(b)
  {
    forall x
      ensures multiset(a)[x] == multiset(b)[x]
    {
      CountAtMostOnce(a, x);
      CountAtMostOnce(b, x);
    }
  }

  lemma {:induction false} CountAtMostOnce(s: seq<string>, x: string)
    requires NoRepeats(s)
    ensures multiset(s)[x] == if x in s then 1 else 0
  {
    if s != [] {
      assert s == [s[0]] + s[1..];
      CountAtMostOnce(s[1..], x);
    }
  }
}
