/** src/gui/pdfutil.cc: what a path finds in dictionaries and arrays, and behind references. */
module PathLaws {
  import opened Helpers
  import opened PathLookup

  /** What a value leads to: a reference to the object in the open document, one level deep, or to null; anything else
      to itself. */
  ghost predicate LeadsTo(doc: Document, value: Prop, target: Prop) {
    match value
    case Reference(n) => target == if doc.open && n in doc.objects then doc.objects[n] else Null
    case _ => target == value
  }

  /** A path of one component finds the target; a longer one goes on in it, if it is a dictionary or an array, and fails
      otherwise. */
  ghost predicate Finds(doc: Document, c: Prop, a: string, target: Prop)
    requires IsContainer(c)
  {
    && RecursiveProperty(doc, c, a) == Some(target)
    && forall q :: q != "" ==>
         RecursiveProperty(doc, c, a + ("/" + q)) ==
           if target.Dict? || target.Array? then RecursiveProperty(doc, target, q) else None
  }

  ghost predicate FindsNothing(doc: Document, c: Prop, a: string)
    requires IsContainer(c)
  {
    RecursiveProperty(doc, c, a) == None && forall q :: RecursiveProperty(doc, c, a + ("/" + q)) == None
  }

  lemma FirstComponent(a: string, q: string)
    requires '/' !in a
    ensures IndexOf(a, '/') == |a| && IndexOf(a + ("/" + q), '/') == |a|
    ensures (a + ("/" + q))[..|a|] == a && (a + ("/" + q))[|a| + 1..] == q && a[..|a|] == a
  {
    hide IndexOf;
    var name := a + ("/" + q);
    assert name[..|a|] == a;
    IndexOfIs(a, '/', |a|);
    IndexOfIs(name, '/', |a|);
  }

  lemma ValueFound(doc: Document, c: Prop, a: string, value: Prop, target: Prop)
    requires IsContainer(c) && '/' !in a && GetProperty(doc, c, a) == Some(value) && LeadsTo(doc, value, target)
    ensures Finds(doc, c, a, target)
  {
    hide IndexOf, GetProperty;
    FirstComponent(a, "");
    forall q | q != ""
      ensures RecursiveProperty(doc, c, a + ("/" + q)) ==
        if IsContainer(target) then RecursiveProperty(doc, target, q) else None
    {
      FirstComponent(a, q);
    }
  }

  lemma NothingFound(doc: Document, c: Prop, a: string)
    requires IsContainer(c) && '/' !in a && GetProperty(doc, c, a) == None
    ensures FindsNothing(doc, c, a)
  {
    hide IndexOf, GetProperty;
    FirstComponent(a, "");
    forall q
      ensures RecursiveProperty(doc, c, a + ("/" + q)) == None
    {
      FirstComponent(a, q);
    }
  }

  /** In a dictionary a component is a key. */
  lemma DictSays(doc: Document, entries: map<string, Prop>, a: string, target: Prop)
    requires '/' !in a
    ensures a in entries && LeadsTo(doc, entries[a], target) ==> Finds(doc, Dict(entries), a, target)
    ensures a !in entries ==> FindsNothing(doc, Dict(entries), a)
  {
    hide Finds, FindsNothing, LeadsTo;
    if a !in entries {
      NothingFound(doc, Dict(entries), a);
    } else if LeadsTo(doc, entries[a], target) {
      ValueFound(doc, Dict(entries), a, entries[a], target);
    }
  }

  /** In an array it is read as an index, which has to be in range. */
  lemma ArraySays(doc: Document, items: seq<Prop>, a: string, target: Prop)
    requires '/' !in a
    ensures match doc.toInt(a)
      case Some(i) =>
        if 0 <= i < |items| then LeadsTo(doc, items[i], target) ==> Finds(doc, Array(items), a, target)
        else FindsNothing(doc, Array(items), a)
      case None => FindsNothing(doc, Array(items), a)
  {
    hide Finds, FindsNothing, LeadsTo;
    if doc.toInt(a).Some? && 0 <= doc.toInt(a).value < |items| {
      if LeadsTo(doc, items[doc.toInt(a).value], target) {
        ValueFound(doc, Array(items), a, items[doc.toInt(a).value], target);
      }
    } else {
      NothingFound(doc, Array(items), a);
    }
  }

  /** A path goes through a reference as if the object stood in its place. */
  lemma ThroughReference(doc: Document, a: string, n: nat, q: string)
    requires '/' !in a && q != "" && doc.open && n in doc.objects
    ensures doc.objects[n].Dict? || doc.objects[n].Array? ==>
      RecursiveProperty(doc, Dict(map[a := Reference(n)]), a + ("/" + q)) == RecursiveProperty(doc, doc.objects[n], q)
    ensures RecursiveProperty(doc, Dict(map[a := Reference(n)]), a) == Some(doc.objects[n])
  {
    DictSays(doc, map[a := Reference(n)], a, doc.objects[n]);
  }

  /** A reference to an object that is not there, or in a document no longer open, is null, and no path goes through
      it. */
  lemma DeadReference(doc: Document, a: string, n: nat, q: string)
    requires '/' !in a && q != "" && (!doc.open || n !in doc.objects)
    ensures RecursiveProperty(doc, Dict(map[a := Reference(n)]), a) == Some(Null)
    ensures RecursiveProperty(doc, Dict(map[a := Reference(n)]), a + ("/" + q)) == None
  {
    DictSays(doc, map[a := Reference(n)], a, Null);
  }
}
