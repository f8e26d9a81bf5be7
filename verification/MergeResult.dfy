/** src/gui/mergeform.cc: encoding the outcome of the dialog as pages and positions. */
module MergeResult {
  import opened Helpers
  import opened MergeDialog

  datatype Placed = Placed(page: int, position: nat)

  /** How many original entries a list holds. */
  ghost function OriginalCount(list: seq<Page>): nat {
    |OriginalsOf(list)|
  }

  /** Each file page with the number of the original page it stands in front of. */
  ghost function Encode(list: seq<Page>): seq<Placed> {
    if list == [] then []
    else
      var front, last := list[..|list| - 1], list[|list| - 1];
      Encode(front) + if last.FromFile? then [Placed(last.position, OriginalCount(front) + 1)] else []
  }

  /** Puts a file page directly in front of an original page. */
  ghost function InsertBefore(list: seq<Page>, placed: Placed): seq<Page> {
    if list == [] then [FromFile(placed.page)]
    else if list[0] == Original(placed.position) then [FromFile(placed.page)] + list
    else [list[0]] + InsertBefore(list[1..], placed)
  }

  /** Carries out the insertions one after the other. */
  ghost function Decode(list: seq<Page>, placed: seq<Placed>): seq<Page> {
    if placed == [] then list else InsertBefore(Decode(list, placed[..|placed| - 1]), placed[|placed| - 1])
  }

  lemma {:induction false} InsertsBefore(a: seq<Page>, placed: Placed, b: seq<Page>)
    requires Original(placed.position) !in a && |b| > 0 && b[0] == Original(placed.position)
    ensures InsertBefore(a + b, placed) == a + [FromFile(placed.page)] + b
  {
    if a == [] {
      assert a + b == b;
    } else {
      assert (a + b)[1..] == a[1..] + b;
      InsertsBefore(a[1..], placed, b);
    }
  }

  /** The originals of a prefix are the first ones. */
  lemma OriginalsOfPrefix(list: seq<Page>, n: nat, k: nat)
    requires OriginalsOf(list) == Originals(1, n + 1) && k <= |list|
    ensures var c := OriginalCount(list[..k]);
      && c <= n + 1 && OriginalsOf(list[..k]) == Originals(1, c)
      && OriginalsOf(list[k..]) == Originals(c + 1, n + 1)
  {
    OriginalsOfConcat(list[..k], list[k..]);
    assert list == list[..k] + list[k..];
    var a, b := OriginalsOf(list[..k]), OriginalsOf(list[k..]);
    assert a == Originals(1, n + 1)[..|a|] && b == Originals(1, n + 1)[|a|..];
  }

  lemma EncodeSnoc(list: seq<Page>, k: nat)
    requires k < |list|
    ensures Encode(list[..k + 1]) == Encode(list[..k])
      + if list[k].FromFile? then [Placed(list[k].position, OriginalCount(list[..k]) + 1)] else []
    ensures OriginalCount(list[..k + 1]) == OriginalCount(list[..k]) + if list[k].Original? then 1 else 0
  {
    assert list[..k + 1][..k] == list[..k];
  }

  lemma DecodeSnoc(list: seq<Page>, placed: seq<Placed>, one: Placed)
    ensures Decode(list, placed + [one]) == InsertBefore(Decode(list, placed), one)
  {
  }

  /** The next original entry of the list is the next in number, and there is one as long as END is ahead. */
  lemma NextOriginal(list: seq<Page>, n: nat, k: nat)
    requires OriginalsOf(list) == Originals(1, n + 1) && |list| > 0 && list[|list| - 1] == Original(n + 1)
    requires k < |list|
    ensures var c := OriginalCount(list[..k]);
      && c + 1 <= n + 1 && Original(c + 1) !in list[..k]
      && (list[k].Original? ==> list[k] == Original(c + 1))
  {
    OriginalsOfPrefix(list, n, k);
    var c := OriginalCount(list[..k]);
    OriginalIsKept(list[k..], |list| - 1 - k);
    NotAmong(list[..k], c);
    if list[k].Original? {
      FirstOriginal(list[k..]);
    }
  }

  lemma NotAmong(list: seq<Page>, c: nat)
    requires OriginalsOf(list) == Originals(1, c)
    ensures Original(c + 1) !in list
  {
    forall j | 0 <= j < |list|
      ensures list[j] != Original(c + 1)
    {
      if list[j].Original? {
        OriginalIsKept(list, j);
      }
    }
  }

  lemma FirstOriginal(list: seq<Page>)
    requires |list| > 0 && list[0].Original?
    ensures |OriginalsOf(list)| > 0 && OriginalsOf(list)[0] == list[0]
  {
    OriginalsOfConcat([list[0]], list[1..]);
    assert list == [list[0]] + list[1..];
    assert [list[0]][..0] == [];
  }

  lemma OriginalsNext(lo: int, hi: int)
    requires lo <= hi
    ensures Originals(lo, hi) == [Original(lo)] + Originals(lo + 1, hi)
  {
  }

  lemma DecodeStep(list: seq<Page>, n: nat, k: nat)
    requires OriginalsOf(list) == Originals(1, n + 1) && |list| > 0 && list[|list| - 1] == Original(n + 1)
    requires k < |list|
    requires Decode(Originals(1, n + 1), Encode(list[..k]))
          == list[..k] + Originals(OriginalCount(list[..k]) + 1, n + 1)
    ensures Decode(Originals(1, n + 1), Encode(list[..k + 1]))
         == list[..k + 1] + Originals(OriginalCount(list[..k + 1]) + 1, n + 1)
  {
    hide Decode, Encode, InsertBefore, OriginalCount, Originals, OriginalsOf;
    var front, c := list[..k], OriginalCount(list[..k]);
    NextOriginal(list, n, k);
    EncodeSnoc(list, k);
    OriginalsNext(c + 1, n + 1);
    PrefixNext(list, k);
    if list[k].Original? {
      assert Encode(front) + [] == Encode(front);
      ConcatAssoc(front, [list[k]], Originals(c + 2, n + 1));
    } else {
      var one := Placed(list[k].position, c + 1);
      DecodeSnoc(Originals(1, n + 1), Encode(front), one);
      InsertsBefore(front, one, Originals(c + 1, n + 1));
    }
  }

  /** After the insertions for a prefix of the merge list, that prefix stands in front of the remaining originals. */
  lemma {:induction false} DecodePrefix(list: seq<Page>, n: nat, k: nat)
    requires OriginalsOf(list) == Originals(1, n + 1) && |list| > 0 && list[|list| - 1] == Original(n + 1)
    requires k <= |list|
    ensures Decode(Originals(1, n + 1), Encode(list[..k]))
         == list[..k] + Originals(OriginalCount(list[..k]) + 1, n + 1)
  {
    if k == 0 {
      assert list[..0] == [];
    } else {
      DecodePrefix(list, n, k - 1);
      DecodeStep(list, n, k - 1);
    }
  }

  /** Carrying out the result on the original pages rebuilds the merge list. */
  lemma ResultRebuildsList(mergeList: seq<Page>, fileList: seq<Page>, n: nat, m: nat)
    requires Consistent(mergeList, fileList, n, m)
    ensures Decode(Originals(1, n + 1), Encode(mergeList)) == mergeList
  {
    DecodePrefix(mergeList, n, |mergeList|);
    assert mergeList[..|mergeList|] == mergeList;
  }

  /** Positions never decrease and name an original page or the end. */
  lemma {:induction false} PositionsInOrder(list: seq<Page>, n: nat, k: nat)
    requires OriginalsOf(list) == Originals(1, n + 1) && |list| > 0 && list[|list| - 1] == Original(n + 1)
    requires k <= |list|
    ensures var placed := Encode(list[..k]);
      && (forall i :: 0 <= i < |placed| ==> 1 <= placed[i].position <= OriginalCount(list[..k]) + 1)
      && (forall i :: 0 <= i < |placed| ==> placed[i].position <= n + 1)
      && (forall i, j :: 0 <= i < j < |placed| ==> placed[i].position <= placed[j].position)
  {
    if k > 0 {
      PositionsInOrder(list, n, k - 1);
      EncodeSnoc(list, k - 1);
      NextOriginal(list, n, k - 1);
    }
  }

  /** The two arrays handed to the caller of the dialog. */
  method GetResult(mergeList: seq<Page>) returns (items: array<int>, positions: array<nat>)
    ensures items.Length == positions.Length == |Encode(mergeList)|
    ensures forall i :: 0 <= i < items.Length ==> Placed(items[i], positions[i]) == Encode(mergeList)[i]
  {
    var pages, places := new int[|mergeList|], new nat[|mergeList|];
    var length: nat, storePos: nat := 0, 1;
    for pos := 0 to |mergeList|
      invariant length <= pos && storePos == OriginalCount(mergeList[..pos]) + 1
      invariant length == |Encode(mergeList[..pos])|
      invariant forall i :: 0 <= i < length ==> Placed(pages[i], places[i]) == Encode(mergeList[..pos])[i]
    {
      EncodeSnoc(mergeList, pos);
      if mergeList[pos].Original? {
        storePos := storePos + 1;
        continue;
      }
      pages[length] := mergeList[pos].position;
      places[length] := storePos;
      length := length + 1;
    }
    assert mergeList[..|mergeList|] == mergeList;
    items := new int[length](i requires 0 <= i < length reads pages => pages[i]);
    positions := new nat[length](i requires 0 <= i < length reads places => places[i]);
  }
}
