/** src/gui/pdfutil.cc: looking up a slash-separated path in a document, through references (section 7.3.10 of
    ISO 32000-1). */
module PathLookup {
  import opened Helpers

  /** A property. References lead into the document, possibly in circles. */
  datatype Prop =
    | Dict(entries: map<string, Prop>)
    | Array(items: seq<Prop>)
    | Reference(target: nat)
    | Simple(text: string)
    | Null

  /** The objects of a document that is open, and how a name is read as a number. */
  datatype Document = Document(objects: map<nat, Prop>, open: bool, toInt: string -> Option<int>)

  /** One level of reference is followed; a missing object, or one of a closed document, is null. */
  function Dereference(doc: Document, p: Prop): Prop {
    if !p.Reference? then p
    else if doc.open && p.target in doc.objects then doc.objects[p.target]
    else Null
  }

  predicate IsContainer(p: Prop) {
    p.Dict? || p.Array?
  }

  function GetProperty(doc: Document, p: Prop, name: string): Option<Prop>
    requires IsContainer(p)
  {
    match p
    case Dict(entries) => if name in entries then Some(entries[name]) else None
    case Array(items) =>
      match doc.toInt(name)
      case None => None
      case Some(i) => if 0 <= i < |items| then Some(items[i]) else None
  }

  /** The lookup of the source; None stands for the exception. */
  function RecursiveProperty(doc: Document, p: Prop, name: string): Option<Prop>
    requires IsContainer(p)
    decreases |name|
  {
    var n := IndexOf(name, '/');
    match GetProperty(doc, p, name[..n])
    case None => None
    case Some(found) =>
      var r := Dereference(doc, found);
      if n == |name| || n + 1 == |name| then Some(r)
      else if IsContainer(r) then RecursiveProperty(doc, r, name[n + 1..])
      else None
  }

  // ----- the same, component by component -----

  /** All parts of a name between slashes. */
  function Pieces(name: string): (r: seq<string>)
    ensures |r| >= 1
    decreases |name|
  {
    var n := IndexOf(name, '/');
    [name[..n]] + if n == |name| then [] else Pieces(name[n + 1..])
  }

  /** The parts that are looked up: nothing is looked up after a slash at the end. */
  function Components(name: string): (r: seq<string>)
    ensures |r| >= 1
    decreases |name|
  {
    var n := IndexOf(name, '/');
    [name[..n]] + if n == |name| || n + 1 == |name| then [] else Components(name[n + 1..])
  }

  /** One lookup, with its reference followed. */
  function Step(doc: Document, p: Prop, name: string): Option<Prop> {
    if !IsContainer(p) then None
    else match GetProperty(doc, p, name)
      case None => None
      case Some(found) => Some(Dereference(doc, found))
  }

  function Follow(doc: Document, p: Prop, names: seq<string>): Option<Prop>
    decreases |names|
  {
    if names == [] then Some(p)
    else match Step(doc, p, names[0])
      case None => None
      case Some(r) => Follow(doc, r, names[1..])
  }

  /** The lookup is a fold of single lookups over the components. */
  lemma {:induction false} LookupIsFold(doc: Document, p: Prop, name: string)
    requires IsContainer(p)
    ensures RecursiveProperty(doc, p, name) == Follow(doc, p, Components(name))
    decreases |name|
  {
    hide IndexOf;
    var n := IndexOf(name, '/');
    var step := Step(doc, p, name[..n]);
    assert Components(name)[0] == name[..n];
    if n == |name| || n + 1 == |name| {
      assert Components(name)[1..] == [];
    } else {
      assert Components(name)[1..] == Components(name[n + 1..]);
      if step.Some? && IsContainer(step.value) {
        LookupIsFold(doc, step.value, name[n + 1..]);
      }
    }
  }

  lemma {:induction false} FollowConcat(doc: Document, p: Prop, a: seq<string>, b: seq<string>)
    ensures Follow(doc, p, a + b) ==
      match Follow(doc, p, a)
      case None => None
      case Some(r) => Follow(doc, r, b)
    decreases |a|
  {
    if a == [] {
      assert a + b == b;
    } else {
      assert (a + b)[1..] == a[1..] + b;
      var step := Step(doc, p, a[0]);
      if step.Some? {
        FollowConcat(doc, step.value, a[1..], b);
      }
    }
  }

  /** Both ways of splitting, one slash further. */
  lemma PiecesOnce(p: string)
    requires IndexOf(p, '/') < |p|
    ensures Pieces(p) == [p[..IndexOf(p, '/')]] + Pieces(p[IndexOf(p, '/') + 1..])
  {
    hide IndexOf;
  }

  lemma ComponentsOnce(p: string)
    requires IndexOf(p, '/') < |p|
    ensures var rest := p[IndexOf(p, '/') + 1..];
      Components(p) == [p[..IndexOf(p, '/')]] + if rest == "" then [] else Components(rest)
  {
    hide IndexOf;
  }

  lemma PiecesLast(p: string)
    requires IndexOf(p, '/') == |p|
    ensures Pieces(p) == [p]
  {
    assert p[..|p|] == p;
  }

  /** Where p/q splits first: the rest of p/q is q, or what is left of p, slash, q. */
  lemma SplitJoin(p: string, q: string)
    ensures var name, n := p + ("/" + q), IndexOf(p, '/');
      && n < |name| && IndexOf(name, '/') == n && name[..n] == p[..n]
      && name[n + 1..] == if n == |p| then q else p[n + 1..] + ("/" + q)
  {
    hide IndexOf;
    var name, n := p + ("/" + q), IndexOf(p, '/');
    assert name[..n] == p[..n];
    IndexOfIs(name, '/', n);
  }

  /** The components of p/q: all parts of p, then the components of q. */
  lemma {:induction false} ComponentsOfJoin(p: string, q: string)
    ensures Components(p + ("/" + q)) == Pieces(p) + if q == "" then [] else Components(q)
    decreases |p|
  {
    hide IndexOf, Components, Pieces;
    SplitJoin(p, q);
    ComponentsOnce(p + ("/" + q));
    var n := IndexOf(p, '/');
    if n == |p| {
      PiecesLast(p);
      assert p[..n] == p;
    } else {
      PiecesOnce(p);
      ComponentsOfJoin(p[n + 1..], q);
      ConcatAssoc([p[..n]], Pieces(p[n + 1..]), if q == "" then [] else Components(q));
    }
  }

  predicate EndsInSlash(p: string) {
    p != "" && p[|p| - 1] == '/'
  }

  lemma EndOfRest(p: string, n: nat)
    requires n < |p| && p[n] == '/'
    ensures EndsInSlash(p) <==> p[n + 1..] == "" || EndsInSlash(p[n + 1..])
  {
  }

  /** All parts are looked up exactly if the name does not end in a slash. */
  lemma {:induction false} PiecesOf(p: string)
    ensures if EndsInSlash(p) then Pieces(p) == Components(p) + [""] else Pieces(p) == Components(p)
    decreases |p|
  {
    if IndexOf(p, '/') == |p| {
      assert p == p[..|p|];
      assert '/' !in p;
    } else {
      hide Pieces, Components, IndexOf, EndsInSlash;
      var first, rest := p[..IndexOf(p, '/')], p[IndexOf(p, '/') + 1..];
      PiecesOnce(p);
      ComponentsOnce(p);
      EndOfRest(p, |first|);
      if rest == "" {
        NoPieces();
        ConcatAssoc([first], [], [""]);
      } else {
        PiecesOf(rest);
        ConcatAssoc([first], Components(rest), [""]);
      }
    }
  }

  lemma NoPieces()
    ensures Pieces("") == [""] && Components("") == [""]
    ensures [""] == [] + [""]
  {
  }

  lemma ComponentsWithSlash(p: string)
    ensures Components(p + "/") == Components(p) + if EndsInSlash(p) then [""] else []
  {
    hide Components, Pieces, EndsInSlash;
    assert p + ("/" + "") == p + "/";
    ComponentsOfJoin(p, "");
    PiecesOf(p);
  }

  /** Looking up q in what p leads to. */
  function InTwoSteps(doc: Document, c: Prop, p: string, q: string): Option<Prop>
    requires IsContainer(c)
  {
    match RecursiveProperty(doc, c, p)
    case None => None
    case Some(r) => if IsContainer(r) then RecursiveProperty(doc, r, q) else None
  }

  /** A path can be taken apart at a slash, whatever the document, if the first part does not end in one. */
  lemma PathInTwoSteps(doc: Document, c: Prop, p: string, q: string)
    requires IsContainer(c) && !EndsInSlash(p) && q != ""
    ensures RecursiveProperty(doc, c, p + ("/" + q)) == InTwoSteps(doc, c, p, q)
  {
    hide RecursiveProperty, Components, Pieces;
    ComponentsOfJoin(p, q);
    PiecesOf(p);
    LookupIsFold(doc, c, p + ("/" + q));
    LookupIsFold(doc, c, p);
    FollowConcat(doc, c, Components(p), Components(q));
    var r := RecursiveProperty(doc, c, p);
    if r.Some? && IsContainer(r.value) {
      LookupIsFold(doc, r.value, q);
    }
  }

  /** Dictionaries inside each other, one for each name. */
  function Chain(names: seq<string>): (r: Prop)
    ensures names != [] ==> IsContainer(r)
  {
    if names == [] then Simple("") else Dict(map[names[0] := Chain(names[1..])])
  }

  lemma {:induction false} ChainLeads(doc: Document, a: seq<string>, b: seq<string>)
    ensures Follow(doc, Chain(a + b), a) == Some(Chain(b))
  {
    if a == [] {
      assert a + b == b;
    } else {
      assert (a + b)[1..] == a[1..] + b;
      ChainLeads(doc, a[1..], b);
    }
  }

  lemma {:induction false} ChainEnds(doc: Document, a: seq<string>, names: seq<string>)
    requires |names| > |a|
    ensures Follow(doc, Chain(a), names) == None
    decreases |a|
  {
    if a != [] {
      var step := Step(doc, Chain(a), names[0]);
      if step.Some? {
        ChainEnds(doc, a[1..], names[1..]);
      }
    }
  }

  /** One more slash at the end: exactly where there was none yet, it changes nothing in any container. */
  lemma TrailingSlash(doc: Document, p: string)
    ensures !EndsInSlash(p) <==>
      forall c :: IsContainer(c) ==> RecursiveProperty(doc, c, p + "/") == RecursiveProperty(doc, c, p)
  {
    hide RecursiveProperty, Components, Follow, Chain, EndsInSlash;
    var a := Components(p);
    ComponentsWithSlash(p);
    if EndsInSlash(p) {
      var c := Chain(a);
      assert a + [] == a;
      ChainLeads(doc, a, []);
      ChainEnds(doc, a, a + [""]);
      LookupIsFold(doc, c, p);
      LookupIsFold(doc, c, p + "/");
    } else {
      assert a + [] == a;
      forall c | IsContainer(c)
        ensures RecursiveProperty(doc, c, p + "/") == RecursiveProperty(doc, c, p)
      {
        LookupIsFold(doc, c, p + "/");
        LookupIsFold(doc, c, p);
      }
    }
  }

  /** A first part that ends in a slash cannot be taken off: there is a container in which both steps succeed and the
      whole path fails. */
  lemma TwoStepsDiffer(doc: Document, p: string, q: string) returns (c: Prop)
    requires EndsInSlash(p) && q != ""
    ensures IsContainer(c) && InTwoSteps(doc, c, p, q).Some? && RecursiveProperty(doc, c, p + ("/" + q)).None?
  {
    hide RecursiveProperty, Components, Pieces, Follow, Chain;
    var a, b := Components(p), Components(q);
    c := Chain(a + b);
    ChainLeads(doc, a, b);
    ChainLeads(doc, b, []);
    assert b + [] == b;
    LookupIsFold(doc, c, p);
    LookupIsFold(doc, Chain(b), q);
    PiecesOf(p);
    ComponentsOfJoin(p, q);
    LookupIsFold(doc, c, p + ("/" + q));
    assert a + [""] + b == a + ([""] + b);
    FollowConcat(doc, c, a, [""] + b);
    ChainEnds(doc, b, [""] + b);
  }

  /** The exact condition for taking a path apart. */
  lemma SplitsIff(doc: Document, p: string, q: string)
    requires q != ""
    ensures !EndsInSlash(p) <==>
      forall c :: IsContainer(c) ==> RecursiveProperty(doc, c, p + ("/" + q)) == InTwoSteps(doc, c, p, q)
  {
    if EndsInSlash(p) {
      var c := TwoStepsDiffer(doc, p, q);
    } else {
      forall c | IsContainer(c)
        ensures RecursiveProperty(doc, c, p + ("/" + q)) == InTwoSteps(doc, c, p, q)
      {
        PathInTwoSteps(doc, c, p, q);
      }
    }
  }

  /** A failure at any component fails the whole lookup. */
  lemma FailurePropagates(doc: Document, c: Prop, name: string, k: nat)
    requires IsContainer(c) && k <= |Components(name)| && Follow(doc, c, Components(name)[..k]).None?
    ensures RecursiveProperty(doc, c, name).None?
  {
    hide RecursiveProperty, Components, Follow;
    LookupIsFold(doc, c, name);
    assert Components(name) == Components(name)[..k] + Components(name)[k..];
    FollowConcat(doc, c, Components(name)[..k], Components(name)[k..]);
  }
}
