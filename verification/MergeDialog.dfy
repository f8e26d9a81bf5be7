/** src/gui/mergeform.cc: the dialog that merges pages of another file into the open document. */
module MergeDialog {
  import opened Helpers

  /** An entry of either list. The END marker is the original entry after the last page. */
  datatype Page = Original(position: int) | FromFile(position: int)

  /** Original entries lo, lo+1, ..., hi. */
  ghost function Originals(lo: int, hi: int): (r: seq<Page>)
    ensures |r| == if lo <= hi then hi - lo + 1 else 0
    ensures forall i :: 0 <= i < |r| ==> r[i] == Original(lo + i)
    decreases hi - lo
  {
    if lo <= hi then [Original(lo)] + Originals(lo + 1, hi) else []
  }

  /** File pages 1, 2, ..., m. */
  ghost function FilePages(m: nat): (r: seq<Page>)
    ensures |r| == m && forall i :: 0 <= i < m ==> r[i] == FromFile(i + 1)
  {
    if m == 0 then [] else FilePages(m - 1) + [FromFile(m)]
  }

  /** The entries of a list that are (or are not) in a set, in order. */
  ghost function Keep(list: seq<Page>, s: set<Page>, inside: bool): seq<Page> {
    if list == [] then []
    else (if (list[0] in s) == inside then [list[0]] else []) + Keep(list[1..], s, inside)
  }

  ghost function OriginalsOf(list: seq<Page>): seq<Page> {
    if list == [] then []
    else OriginalsOf(list[..|list| - 1]) + (if list[|list| - 1].Original? then [list[|list| - 1]] else [])
  }

  lemma {:induction false} OriginalsOfConcat(a: seq<Page>, b: seq<Page>)
    ensures OriginalsOf(a + b) == OriginalsOf(a) + OriginalsOf(b)
  {
    if b == [] {
      assert a + b == a;
    } else {
      assert (a + b)[..|a + b| - 1] == a + b[..|b| - 1];
      OriginalsOfConcat(a, b[..|b| - 1]);
    }
  }

  lemma OriginalsOfSnoc(list: seq<Page>, p: Page)
    ensures OriginalsOf(list + [p]) == OriginalsOf(list) + if p.Original? then [p] else []
  {
  }

  /** A list box after an item is put in at a position, or taken out. */
  function Insert<T>(list: seq<T>, pos: nat, item: T): (r: seq<T>)
    requires pos <= |list|
    ensures |r| == |list| + 1
  {
    list[..pos] + [item] + list[pos..]
  }

  function Take<T>(list: seq<T>, pos: nat): (r: seq<T>)
    requires pos < |list|
    ensures |r| == |list| - 1
  {
    list[..pos] + list[pos + 1..]
  }

  /** Where each item stands afterwards. */
  lemma InsertSays<T>(list: seq<T>, pos: nat, item: T, k: nat)
    requires pos <= |list| && k <= |list|
    ensures Insert(list, pos, item)[k] == if k < pos then list[k] else if k == pos then item else list[k - 1]
  {
  }

  lemma TakeSays<T>(list: seq<T>, pos: nat, k: nat)
    requires pos < |list| && k < |list| - 1
    ensures Take(list, pos)[k] == if k < pos then list[k] else list[k + 1]
  {
  }

  lemma BagOfInsert<T>(list: seq<T>, pos: nat, item: T)
    requires pos <= |list|
    ensures multiset(Insert(list, pos, item)) == multiset(list) + multiset{item}
  {
    assert list == list[..pos] + list[pos..];
  }

  lemma BagOfTake<T>(list: seq<T>, pos: nat)
    requires pos < |list|
    ensures multiset(list) == multiset(Take(list, pos)) + multiset{list[pos]}
  {
    assert list == list[..pos] + ([list[pos]] + list[pos + 1..]);
  }

  lemma KeepFirst(list: seq<Page>, s: set<Page>, inside: bool)
    requires list != []
    ensures Keep(list, s, inside) == (if (list[0] in s) == inside then [list[0]] else []) + Keep(list[1..], s, inside)
  {
  }

  lemma {:induction false} KeepConcat(a: seq<Page>, b: seq<Page>, s: set<Page>, inside: bool)
    ensures Keep(a + b, s, inside) == Keep(a, s, inside) + Keep(b, s, inside)
  {
    if a == [] {
      assert a + b == b;
      EmptyFirst(Keep(b, s, inside));
    } else {
      hide Keep;
      assert (a + b)[1..] == a[1..] + b;
      KeepFirst(a, s, inside);
      KeepFirst(a + b, s, inside);
      KeepConcat(a[1..], b, s, inside);
      ConcatAssoc(if (a[0] in s) == inside then [a[0]] else [], Keep(a[1..], s, inside), Keep(b, s, inside));
    }
  }

  /** Exactly the entries in the set (or those that are not), in order. */
  lemma {:induction false} KeepSays(list: seq<Page>, s: set<Page>, inside: bool)
    ensures PickedBy(list, Keep(list, s, inside), (p: Page) => (p in s) == inside)
    ensures forall p :: p in Keep(list, s, inside) <==> p in list && (p in s) == inside
  {
    hide PickedBy;
    if list == [] {
      PickedNone((p: Page) => (p in s) == inside);
    } else {
      var front, last := list[..|list| - 1], list[|list| - 1];
      KeepSays(front, s, inside);
      KeepConcat(front, [last], s, inside);
      PickedNext(front, Keep(front, s, inside), (p: Page) => (p in s) == inside, last);
      assert list == front + [last];
      assert [last][1..] == [] && Keep([last], s, inside) == if (last in s) == inside then [last] else [];
    }
  }

  /** Exactly the original entries, in order. */
  lemma {:induction false} OriginalsSay(list: seq<Page>)
    ensures PickedBy(list, OriginalsOf(list), (p: Page) => p.Original?)
  {
    hide PickedBy;
    if list == [] {
      PickedNone((p: Page) => p.Original?);
    } else {
      var front, last := list[..|list| - 1], list[|list| - 1];
      OriginalsSay(front);
      PickedNext(front, OriginalsOf(front), (p: Page) => p.Original?, last);
      assert list == front + [last];
    }
  }

  ghost predicate Increasing(list: seq<Page>) {
    && (forall p :: p in list ==> p.FromFile?)
    && forall i, j :: 0 <= i < j < |list| ==> list[i].position < list[j].position
  }

  /** The state that every run keeps, for a document of n pages and a file of m pages. */
  ghost predicate Consistent(mergeList: seq<Page>, fileList: seq<Page>, n: nat, m: nat) {
    && OriginalsOf(mergeList) == Originals(1, n + 1)
    && |mergeList| > 0 && mergeList[|mergeList| - 1] == Original(n + 1)
    && Increasing(fileList)
    && multiset(mergeList) + multiset(fileList) == multiset(Originals(1, n + 1)) + multiset(FilePages(m))
  }

  /** Each file page is in exactly one of the lists, exactly once. */
  lemma EachPageOnce(mergeList: seq<Page>, fileList: seq<Page>, n: nat, m: nat, k: nat)
    requires Consistent(mergeList, fileList, n, m) && 1 <= k <= m
    ensures multiset(mergeList)[FromFile(k)] + multiset(fileList)[FromFile(k)] == 1
  {
    FilePageOnce(m, k);
    var p := FromFile(k);
    assert (multiset(mergeList) + multiset(fileList))[p] == multiset(mergeList)[p] + multiset(fileList)[p];
    NoFileAmongOriginals(1, n + 1, FromFile(k));
  }

  lemma {:induction false} FilePageOnce(m: nat, k: int)
    ensures multiset(FilePages(m))[FromFile(k)] == if 1 <= k <= m then 1 else 0
  {
    if m > 0 {
      FilePageOnce(m - 1, k);
    }
  }

  lemma NoFileAmongOriginals(lo: int, hi: int, p: Page)
    requires p.FromFile?
    ensures multiset(Originals(lo, hi))[p] == 0
  {
  }

  lemma OriginalsOfParts(a: seq<Page>, p: Page, b: seq<Page>)
    requires p.FromFile?
    ensures OriginalsOf(a + [p] + b) == OriginalsOf(a + b)
  {
    hide OriginalsOf;
    OriginalsOfConcat(a, b);
    OriginalsOfConcat(a + [p], b);
    OriginalsOfSnoc(a, p);
    assert OriginalsOf(a) + [] == OriginalsOf(a);
  }

  /** File pages can be put in and taken out without disturbing the original entries. */
  lemma OriginalsOfInsert(list: seq<Page>, pos: nat, p: Page)
    requires pos <= |list| && p.FromFile?
    ensures OriginalsOf(Insert(list, pos, p)) == OriginalsOf(list)
  {
    hide OriginalsOf;
    assert list == list[..pos] + list[pos..];
    OriginalsOfParts(list[..pos], p, list[pos..]);
  }

  lemma OriginalsOfTake(list: seq<Page>, pos: nat)
    requires pos < |list| && list[pos].FromFile?
    ensures OriginalsOf(Take(list, pos)) == OriginalsOf(list)
  {
    hide OriginalsOf;
    OriginalsOfInsert(Take(list, pos), pos, list[pos]);
    assert Insert(Take(list, pos), pos, list[pos]) == list;
  }

  lemma TakeHolds<T>(list: seq<T>, i: nat)
    requires i < |list|
    ensures forall p :: p in list && p != list[i] ==> p in Take(list, i)
  {
  }

  lemma IncreasingTake(list: seq<Page>, pos: nat)
    requires Increasing(list) && pos < |list|
    ensures Increasing(Take(list, pos))
  {
  }

  lemma IncreasingInsert(list: seq<Page>, pos: nat, p: Page)
    requires Increasing(list) && pos <= |list| && p.FromFile?
    requires forall k :: 0 <= k < pos ==> list[k].position < p.position
    requires forall k :: pos <= k < |list| ==> list[k].position > p.position
    ensures Increasing(Insert(list, pos, p))
  {
  }

  /** A file page moves in front of some entry of the merge list. */
  lemma AddKeeps(mergeList: seq<Page>, fileList: seq<Page>, n: nat, m: nat, i: nat, pos: nat)
    requires Consistent(mergeList, fileList, n, m) && i < |fileList| && pos < |mergeList|
    ensures Consistent(Insert(mergeList, pos, fileList[i]), Take(fileList, i), n, m)
    ensures fileList[i].FromFile? && Insert(mergeList, pos, fileList[i])[pos] == fileList[i]
    ensures forall p :: p in fileList && p != fileList[i] ==> p in Take(fileList, i)
  {
    hide OriginalsOf, Originals, FilePages;
    TakeHolds(fileList, i);
    BagOfTake(fileList, i);
    BagOfInsert(mergeList, pos, fileList[i]);
    OriginalsOfInsert(mergeList, pos, fileList[i]);
    IncreasingTake(fileList, i);
  }

  /** Taking a file page back keeps the state if it goes where the order wants it. */
  lemma RemoveKeeps(mergeList: seq<Page>, fileList: seq<Page>, n: nat, m: nat, c: nat, pos: nat)
    requires Consistent(mergeList, fileList, n, m) && c < |mergeList| && mergeList[c].FromFile? && pos <= |fileList|
    requires forall k :: 0 <= k < pos ==> fileList[k].position < mergeList[c].position
    requires forall k :: pos <= k < |fileList| ==> fileList[k].position > mergeList[c].position
    ensures Consistent(Take(mergeList, c), Insert(fileList, pos, mergeList[c]), n, m)
  {
    hide OriginalsOf, Originals, FilePages;
    BagOfTake(mergeList, c);
    BagOfInsert(fileList, pos, mergeList[c]);
    OriginalsOfTake(mergeList, c);
    IncreasingInsert(fileList, pos, mergeList[c]);
  }

  /** Moving a file page to another place in front of the END marker keeps the state. */
  lemma MoveKeeps(mergeList: seq<Page>, fileList: seq<Page>, n: nat, m: nat, c: nat, pos: nat)
    requires Consistent(mergeList, fileList, n, m) && c < |mergeList| && mergeList[c].FromFile? && pos < |mergeList| - 1
    ensures Consistent(Insert(Take(mergeList, c), pos, mergeList[c]), fileList, n, m)
  {
    hide OriginalsOf, Originals, FilePages;
    BagOfTake(mergeList, c);
    BagOfInsert(Take(mergeList, c), pos, mergeList[c]);
    OriginalsOfTake(mergeList, c);
    OriginalsOfInsert(Take(mergeList, c), pos, mergeList[c]);
  }

  /** When no file page is in the merge list, everything is back where it started. */
  lemma NothingAdded(mergeList: seq<Page>, fileList: seq<Page>, n: nat, m: nat)
    requires Consistent(mergeList, fileList, n, m)
    requires forall p :: p in mergeList ==> p.Original?
    ensures mergeList == Originals(1, n + 1) && fileList == FilePages(m)
  {
    hide OriginalsOf, Originals, FilePages, Increasing;
    OnlyOriginals(mergeList);
    BagCancel(multiset(mergeList), multiset(fileList), multiset(FilePages(m)));
    IncreasingUnique(fileList, m);
  }

  lemma BagCancel(a: multiset<Page>, b: multiset<Page>, c: multiset<Page>)
    requires a + b == a + c
    ensures b == c
  {
    forall p
      ensures b[p] == c[p]
    {
      assert (a + b)[p] == (a + c)[p];
    }
  }

  lemma BagOfSnoc(list: seq<Page>, p: Page)
    ensures multiset(list + [p]) == multiset{p} + multiset(list)
  {
  }

  lemma {:induction false} OnlyOriginals(list: seq<Page>)
    requires forall p :: p in list ==> p.Original?
    ensures OriginalsOf(list) == list
  {
    if list != [] {
      OnlyOriginals(list[..|list| - 1]);
    }
  }

  /** Only one increasing list holds the pages 1 to m. */
  lemma {:induction false} IncreasingUnique(list: seq<Page>, m: nat)
    requires Increasing(list) && multiset(list) == multiset(FilePages(m))
    ensures list == FilePages(m)
  {
    SizeOfBag(list, m);
    if m > 0 {
      LastIsGreatest(list, m);
      FrontOfBag(list, m);
      IncreasingUnique(list[..m - 1], m - 1);
      assert list == list[..m - 1] + [FromFile(m)];
    }
  }

  lemma SizeOfBag(list: seq<Page>, m: nat)
    requires multiset(list) == multiset(FilePages(m))
    ensures |list| == m
  {
    hide FilePages;
    assert |multiset(list)| == |list|;
  }

  lemma SameMembers(a: seq<Page>, b: seq<Page>, p: Page)
    requires multiset(a) == multiset(b) && p in a
    ensures p in b
  {
    assert p in multiset(a);
  }

  lemma LastIsGreatest(list: seq<Page>, m: nat)
    requires Increasing(list) && multiset(list) == multiset(FilePages(m)) && |list| == m > 0
    ensures list[m - 1] == FromFile(m)
  {
    hide FilePages;
    SameMembers(FilePages(m), list, FilePages(m)[m - 1]);
    SameMembers(list, FilePages(m), list[m - 1]);
    var i :| 0 <= i < m && list[i] == FromFile(m);
    var j :| 0 <= j < m && FilePages(m)[j] == list[m - 1];
  }

  lemma FrontOfBag(list: seq<Page>, m: nat)
    requires multiset(list) == multiset(FilePages(m)) && |list| == m > 0 && list[m - 1] == FromFile(m)
    ensures multiset(list[..m - 1]) == multiset(FilePages(m - 1))
  {
    var last := FromFile(m);
    assert list == list[..m - 1] + [last] && FilePages(m) == FilePages(m - 1) + [last];
    hide FilePages;
    BagOfSnoc(list[..m - 1], last);
    BagOfSnoc(FilePages(m - 1), last);
    BagCancel(multiset{last}, multiset(list[..m - 1]), multiset(FilePages(m - 1)));
  }

  /** An insertion inside the moved block widens the block. */
  lemma InsertIntoBlock(a: seq<Page>, block: seq<Page>, c: seq<Page>, k: nat, p: Page)
    requires k <= |block|
    ensures Insert(a + block + c, |a| + k, p) == a + Insert(block, k, p) + c
  {
  }

  lemma FilePagesDiffer(mergeList: seq<Page>, fileList: seq<Page>, n: nat, m: nat)
    requires Consistent(mergeList, fileList, n, m)
    ensures forall j, k :: 0 <= j < k < |fileList| ==> fileList[j] != fileList[k]
    ensures forall j :: 0 <= j < |fileList| ==> fileList[j].FromFile?
  {
  }

  lemma KeepEmpty(s: set<Page>)
    ensures Keep([], s, false) == Keep([], s, true) == []
  {
  }

  /** One step down the file list. */
  lemma KeepStep(list: seq<Page>, s: set<Page>, i: nat)
    requires i < |list|
    ensures Keep(list[i..], s, false) == (if list[i] in s then [] else [list[i]]) + Keep(list[i + 1..], s, false)
    ensures Keep(list[i..], s, true) == (if list[i] in s then [list[i]] else []) + Keep(list[i + 1..], s, true)
  {
  }

  /** Taking the last entry of the part not yet visited. */
  lemma TakeBefore(list: seq<Page>, i: nat, rest: seq<Page>)
    requires i < |list|
    ensures (list[..i + 1] + rest)[i] == list[i]
    ensures Take(list[..i + 1] + rest, i) == list[..i] + rest
    ensures list[..i + 1] + rest == list[..i] + ([list[i]] + rest)
  {
  }

  // The loop of the add button, gone down the file list as far as entry i.

  /** From there on only the pages not chosen are left in the file list. */
  ghost predicate FileFrom(list: seq<Page>, chosen: set<Page>, i: nat, file: seq<Page>) {
    i <= |list| && file == list[..i] + Keep(list[i..], chosen, false)
  }

  /** Nothing from there on is selected any more, and the selection below is as it was. */
  ghost predicate SelectedBelow(list: seq<Page>, chosen: set<Page>, i: nat, selected: set<Page>) {
    && i <= |list| && (forall k :: 0 <= k < i ==> (list[k] in selected <==> list[k] in chosen))
    && (forall p :: p in selected ==> p in list[..i])
  }

  /** The entry taken last is the chosen one that stands first from there on; it is at `item` in the merge list, and
      `next` is where the file list goes on behind it. Both are -1 before anything is taken. */
  ghost predicate TakenLast(list: seq<Page>, chosen: set<Page>, i: nat, low: nat, fileSize: nat, merge: seq<Page>,
                            item: int, next: int)
  {
    && i <= low <= |list| && (forall k :: i <= k < low ==> list[k] !in chosen)
    && if low == |list| then item == next == -1
       else
         && list[low] in chosen && 0 <= item < |merge| && merge[item] == list[low]
         && low <= fileSize && next == if low == fileSize then low - 1 else low
  }

  /** The chosen ones stand in a block between the two parts of the merge list. */
  ghost predicate BlockFrom(list: seq<Page>, chosen: set<Page>, i: nat,
                            merge: seq<Page>, front: seq<Page>, block: seq<Page>, back: seq<Page>)
  {
    i <= |list| && merge == front + block + back && multiset(block) == multiset(Keep(list[i..], chosen, true))
  }

  lemma AddStart(list: seq<Page>, chosen: set<Page>, merge: seq<Page>, at: nat)
    requires at <= |merge| && forall p :: p in chosen ==> p in list
    ensures FileFrom(list, chosen, |list|, list) && SelectedBelow(list, chosen, |list|, chosen)
    ensures BlockFrom(list, chosen, |list|, merge, merge[..at], [], merge[at..])
  {
    KeepEmpty(chosen);
    hide Keep;
    assert list[|list|..] == [] && list[..|list|] + [] == list == list[..|list|];
    assert merge[..at] + [] + merge[at..] == merge;
  }

  lemma AddEnd(list: seq<Page>, chosen: set<Page>, file: seq<Page>, selected: set<Page>,
               merge: seq<Page>, front: seq<Page>, block: seq<Page>, back: seq<Page>)
    requires FileFrom(list, chosen, 0, file) && BlockFrom(list, chosen, 0, merge, front, block, back)
    requires SelectedBelow(list, chosen, 0, selected) && forall p :: p in chosen ==> p in list
    ensures file == Keep(list, chosen, false) && multiset(block) == multiset(Keep(list, chosen, true))
    ensures merge == front + block + back && selected == {}
    ensures forall p :: p in block <==> p in chosen
    ensures forall p :: p in file <==> p in list && p !in chosen
  {
    hide Keep;
    assert list[0..] == list;
    EmptyFirst(Keep(list, chosen, false));
    KeepSays(list, chosen, true);
    KeepSays(list, chosen, false);
    forall p
      ensures p in block <==> p in Keep(list, chosen, true)
    {
      assert p in multiset(block) <==> p in multiset(Keep(list, chosen, true));
    }
  }

  lemma FileStep(list: seq<Page>, chosen: set<Page>, i: nat, file: seq<Page>)
    requires FileFrom(list, chosen, i + 1, file)
    ensures i < |file| && file[i] == list[i]
    ensures FileFrom(list, chosen, i, if list[i] in chosen then Take(file, i) else file)
  {
    hide Keep;
    KeepStep(list, chosen, i);
    TakeBefore(list, i, Keep(list[i + 1..], chosen, false));
    EmptyFirst(Keep(list[i + 1..], chosen, false));
  }

  lemma SelectedStep(list: seq<Page>, chosen: set<Page>, i: nat, selected: set<Page>)
    requires SelectedBelow(list, chosen, i + 1, selected) && forall j, k :: 0 <= j < k < |list| ==> list[j] != list[k]
    ensures list[i] in selected <==> list[i] in chosen
    ensures SelectedBelow(list, chosen, i, selected - {list[i]})
    ensures list[i] !in selected ==> selected - {list[i]} == selected
  {
    PrefixNext(list, i);
  }

  lemma TakenNone(list: seq<Page>, chosen: set<Page>, merge: seq<Page>)
    ensures TakenLast(list, chosen, |list|, |list|, |list|, merge, -1, -1)
  {
  }

  lemma TakenStep(list: seq<Page>, chosen: set<Page>, i: nat, low: nat, fileSize: nat, merge: seq<Page>,
                  item: int, next: int)
    requires TakenLast(list, chosen, i + 1, low, fileSize, merge, item, next)
    ensures list[i] !in chosen ==> TakenLast(list, chosen, i, low, fileSize, merge, item, next)
  {
  }

  lemma TakenNow(list: seq<Page>, chosen: set<Page>, i: nat, fileSize: nat, merge: seq<Page>, item: nat)
    requires i < |list| && i <= fileSize && list[i] in chosen && item < |merge| && merge[item] == list[i]
    ensures TakenLast(list, chosen, i, i, fileSize, merge, item, if i >= fileSize then i - 1 else i)
  {
  }

  lemma TakenEnd(list: seq<Page>, chosen: set<Page>, low: nat, fileSize: nat, merge: seq<Page>, item: int, next: int)
    requires TakenLast(list, chosen, 0, low, fileSize, merge, item, next)
    ensures forall k :: 0 <= k < low ==> list[k] !in chosen
    ensures -1 <= item < |merge| && -1 <= next < fileSize
    ensures item == -1 <==> low == |list|
    ensures if low < |list| then list[low] in chosen && merge[item] == list[low] && (next == -1 <==> fileSize == 0)
            else low == |list| && next == -1
    ensures low < |list| && fileSize > 0 ==> next == if low < fileSize then low else fileSize - 1
  {
  }

  lemma BlockStep(list: seq<Page>, chosen: set<Page>, i: nat,
                  merge: seq<Page>, front: seq<Page>, block: seq<Page>, back: seq<Page>, pos: nat)
    requires BlockFrom(list, chosen, i + 1, merge, front, block, back) && |front| <= pos <= |front| + |block|
    ensures |merge| == |front| + |block| + |back|
    ensures if list[i] in chosen then
        var block' := Insert(block, pos - |front|, list[i]);
        BlockFrom(list, chosen, i, Insert(merge, pos, list[i]), front, block', back)
      else BlockFrom(list, chosen, i, merge, front, block, back)
  {
    hide Keep, Insert;
    KeepStep(list, chosen, i);
    if list[i] in chosen {
      InsertIntoBlock(front, block, back, pos - |front|, list[i]);
      BagOfInsert(block, pos - |front|, list[i]);
      BagOfFirst(list[i], Keep(list[i + 1..], chosen, true));
    } else {
      EmptyFirst(Keep(list[i + 1..], chosen, true));
    }
  }

  lemma BagOfFirst(p: Page, list: seq<Page>)
    ensures multiset([p] + list) == multiset(list) + multiset{p}
  {
  }

  /** A page in the merge list is not in the file list. */
  lemma NotInBoth(mergeList: seq<Page>, fileList: seq<Page>, n: nat, m: nat, c: nat)
    requires Consistent(mergeList, fileList, n, m) && c < |mergeList| && mergeList[c].FromFile?
    ensures mergeList[c] !in fileList
    ensures forall k :: 0 <= k < |fileList| ==> fileList[k].position != mergeList[c].position
  {
    var p := mergeList[c];
    FilePageOnce(m, p.position);
    NoFileAmongOriginals(1, n + 1, p);
    assert (multiset(mergeList) + multiset(fileList))[p] <= 1;
    assert p in multiset(mergeList);
    assert p !in multiset(fileList);
    forall k | 0 <= k < |fileList|
      ensures fileList[k].position != p.position
    {
      assert fileList[k] in fileList;
    }
  }

  /** The first place with a greater page behind it is where the file list's order wants the page. */
  lemma FoundPlace(mergeList: seq<Page>, fileList: seq<Page>, n: nat, m: nat, c: nat, pos: nat)
    requires Consistent(mergeList, fileList, n, m) && c < |mergeList| && mergeList[c].FromFile? && pos <= |fileList|
    requires forall k :: 0 <= k < pos ==> fileList[k].position <= mergeList[c].position
    requires pos < |fileList| ==> fileList[pos].position > mergeList[c].position
    ensures Consistent(Take(mergeList, c), Insert(fileList, pos, mergeList[c]), n, m)
    ensures c < |mergeList| - 1
  {
    NotInBoth(mergeList, fileList, n, m, c);
    RemoveKeeps(mergeList, fileList, n, m, c, pos);
  }

  lemma NoPages()
    ensures Originals(1, 0) == [] == FilePages(0)
  {
  }

  lemma OriginalsLast(lo: int, hi: int)
    requires lo <= hi
    ensures Originals(lo, hi) == Originals(lo, hi - 1) + [Original(hi)]
  {
  }

  lemma FilePagesLast(m: nat)
    requires m > 0
    ensures FilePages(m) == FilePages(m - 1) + [FromFile(m)]
  {
  }

  lemma ConsistentAtFirst(n: nat, m: nat)
    ensures Consistent(Originals(1, n + 1), FilePages(m), n, m)
  {
    hide OriginalsOf, Originals, FilePages;
    OnlyOriginals(Originals(1, n + 1));
  }

  /** The END marker is nowhere but at the end. */
  lemma EndOnlyLast(mergeList: seq<Page>, fileList: seq<Page>, n: nat, m: nat, k: nat)
    requires Consistent(mergeList, fileList, n, m) && k < |mergeList|
    ensures mergeList[k] == Original(n + 1) <==> k == |mergeList| - 1
  {
    if k < |mergeList| - 1 {
      var front := mergeList[..|mergeList| - 1];
      OriginalsOfSnoc(front, Original(n + 1));
      assert mergeList == front + [Original(n + 1)];
      assert OriginalsOf(front) == Originals(1, n + 1)[..n];
      assert forall p :: p in OriginalsOf(front) ==> p != Original(n + 1);
      if mergeList[k].Original? {
        OriginalIsKept(front, k);
      }
    }
  }

  lemma {:induction false} OriginalIsKept(list: seq<Page>, k: nat)
    requires k < |list| && list[k].Original?
    ensures list[k] in OriginalsOf(list)
  {
    if k < |list| - 1 {
      OriginalIsKept(list[..|list| - 1], k);
    }
  }

  /** The list with entries c and c + 1 exchanged. */
  function Exchange(list: seq<Page>, c: nat): seq<Page>
    requires c + 1 < |list|
  {
    list[c := list[c + 1]][c + 1 := list[c]]
  }

  /** Taking an item out and putting it in one place further is an exchange with its neighbour. */
  lemma ShiftIsSwap(list: seq<Page>, c: nat)
    requires c + 1 < |list|
    ensures Insert(Take(list, c), c + 1, list[c]) == Exchange(list, c)
    ensures Insert(Take(list, c + 1), c, list[c + 1]) == Exchange(list, c)
  {
  }

  lemma InsertHolds(list: seq<Page>, pos: nat, item: Page)
    requires pos <= |list|
    ensures forall p :: p in list ==> p in Insert(list, pos, item)
  {
  }

  datatype Op = Select(pages: set<Page>) | SetCurrent(index: int) | Add(focused: bool) | Remove | Up | Down

  class Dialog {
    /** Page counts of the open document and of the file. */
    const n: nat
    const m: nat
    var mergeList: seq<Page>
    var fileList: seq<Page>
    var pageCount: int
    /** Index of the current item of the merge list, or -1. */
    var mergeCurrent: int
    var fileSelected: set<Page>

    ghost predicate Valid()
      reads this
    {
      && Consistent(mergeList, fileList, n, m)
      && |mergeList| == pageCount + 1
      && -1 <= mergeCurrent < |mergeList|
      && forall p :: p in fileSelected ==> p in fileList
    }

    /** Fills both lists. */
    constructor (n: nat, m: nat)
      ensures Valid() && this.n == n && this.m == m && fileSelected == {} && mergeCurrent == -1
      ensures mergeList == Originals(1, n + 1) && fileList == FilePages(m)
    {
      hide Consistent, Originals, FilePages;
      NoPages();
      this.n, this.m := n, m;
      pageCount, mergeCurrent, fileSelected := n, -1, {};
      var merge, file := [], [];
      for i := 1 to n + 1
        invariant merge == Originals(1, i - 1)
      {
        OriginalsLast(1, i);
        merge := merge + [Original(i)];
      }
      OriginalsLast(1, n + 1);
      merge := merge + [Original(n + 1)];
      for i := 1 to m + 1
        invariant file == FilePages(i - 1)
      {
        FilePagesLast(i);
        file := file + [FromFile(i)];
      }
      mergeList, fileList := merge, file;
      new;
      ConsistentAtFirst(n, m);
    }

    /** Whether the current item of the merge list may be moved or taken out. */
    predicate CurrentIsFile()
      reads this
    {
      0 <= mergeCurrent < |mergeList| && mergeList[mergeCurrent].FromFile?
    }

    /** Where the next page goes: in front of the current item, or first if there is none. */
    function InsertPos(): nat
      reads this
      requires Valid()
    {
      if mergeCurrent < 0 then 0 else mergeCurrent
    }

    /** Moves one file page. The current item follows; when there is none, a focused list box makes its first item
        current. */
    method MoveToMergeList(i: nat, focused: bool)
      requires Valid() && i < |fileList|
      modifies this
      ensures Valid()
      ensures mergeList == Insert(old(mergeList), old(InsertPos()), old(fileList)[i])
      ensures fileList == Take(old(fileList), i) && fileSelected == old(fileSelected) - {old(fileList)[i]}
      ensures mergeCurrent == if old(mergeCurrent) >= 0 then old(mergeCurrent) + 1 else if focused then 0 else -1
      ensures mergeList[old(InsertPos())] == old(fileList)[i] && old(fileList)[i].FromFile?
      // the entry it goes in front of stays the current one
      ensures old(mergeCurrent) >= 0 ==> mergeList[mergeCurrent] == old(mergeList)[old(mergeCurrent)]
      ensures old(mergeCurrent) >= 0 ==> mergeList[mergeCurrent - 1] == old(fileList)[i]
      ensures old(mergeCurrent) < 0 ==> mergeList[0] == old(fileList)[i]
    {
      assert |mergeList| > 0;
      hide Consistent, Insert, Take;
      InsertSays(mergeList, InsertPos(), fileList[i], InsertPos());
      InsertSays(mergeList, InsertPos(), fileList[i], InsertPos() + 1);
      AddKeeps(mergeList, fileList, n, m, i, InsertPos());
      var item, pos := fileList[i], InsertPos();
      fileList, fileSelected := Take(fileList, i), fileSelected - {item};
      pageCount := pageCount + 1;
      mergeList := Insert(mergeList, pos, item);
      if mergeCurrent >= 0 {
        mergeCurrent := mergeCurrent + 1;
      } else if focused {
        mergeCurrent := 0;
      }
    }

    /** Moves every selected file page in front of the current item of the merge list, going down the file list
        while it shrinks. Nothing is said about the order inside the moved block. The page moved last, which was the
        first one selected, becomes current, and the page that has come to its place in the file list, or else the one
        before, is selected next. */
    method AddBtnClicked(focused: bool) returns (ghost block: seq<Page>, ghost low: nat)
      requires Valid()
      modifies this
      ensures Valid()
      ensures mergeList == old(mergeList)[..old(InsertPos())] + block + old(mergeList)[old(InsertPos())..]
      ensures multiset(block) == multiset(Keep(old(fileList), old(fileSelected), true))
      ensures fileList == Keep(old(fileList), old(fileSelected), false)
      ensures forall p :: p in block <==> p in old(fileSelected)
      ensures forall p :: p in fileList <==> p in old(fileList) && p !in old(fileSelected)
      ensures block == [] ==> mergeCurrent == old(mergeCurrent) && fileSelected == {}
      ensures block != [] ==>
        && low < |old(fileList)| && old(fileList)[low] in old(fileSelected)
        && (forall k :: 0 <= k < low ==> old(fileList)[k] !in old(fileSelected))
        && CurrentIsFile() && mergeList[mergeCurrent] == old(fileList)[low]
        && fileSelected == (if fileList == [] then {}
                            else if low < |fileList| then {fileList[low]}
                            else {fileList[|fileList| - 1]})
    {
      hide Consistent, Keep, Insert, Take, FileFrom, SelectedBelow, BlockFrom, TakenLast;
      block := [];
      ghost var at, list, chosen := InsertPos(), fileList, fileSelected;
      ghost var front, back := mergeList[..at], mergeList[at..];
      var oldPos: int, oldItem: int := -1, -1;
      var i := |fileList|;
      low := |list|;
      AddStart(list, chosen, mergeList, at);
      FilePagesDiffer(mergeList, fileList, n, m);
      TakenNone(list, chosen, mergeList);
      while i > 0
        invariant Valid() && 0 <= i <= |list|
        invariant FileFrom(list, chosen, i, fileList) && SelectedBelow(list, chosen, i, fileSelected)
        invariant BlockFrom(list, chosen, i, mergeList, front, block, back)
        invariant (mergeCurrent == -1 && at == 0) || at <= mergeCurrent <= at + |block|
        invariant TakenLast(list, chosen, i, low, |fileList|, mergeList, oldItem, oldPos)
        invariant (oldItem == -1 <==> block == []) && (block == [] ==> mergeCurrent == old(mergeCurrent))
      {
        i := i - 1;
        FileStep(list, chosen, i, fileList);
        SelectedStep(list, chosen, i, fileSelected);
        BlockStep(list, chosen, i, mergeList, front, block, back, InsertPos());
        TakenStep(list, chosen, i, low, |fileList|, mergeList, oldItem, oldPos);
        if fileList[i] !in fileSelected {
          continue;
        }
        oldItem := InsertPos();
        low := i;
        block := Insert(block, InsertPos() - at, list[i]);
        MoveToMergeList(i, focused);
        oldPos := if i >= |fileList| then i - 1 else i;
        TakenNow(list, chosen, i, |fileList|, mergeList, oldItem);
      }
      TakenEnd(list, chosen, low, |fileList|, mergeList, oldItem, oldPos);
      AddEnd(list, chosen, fileList, fileSelected, mergeList, front, block, back);
      if oldItem >= 0 {
        mergeCurrent := oldItem;
      }
      if |fileList| > 0 && oldPos >= 0 {
        fileSelected := fileSelected + {fileList[oldPos]};
      }
    }

    /** Takes the current page back out and puts it where the file list's order wants it. */
    method RemoveBtnClicked() returns (pos: nat)
      requires Valid() && CurrentIsFile()
      modifies this
      ensures Valid() && mergeCurrent == old(mergeCurrent) && fileSelected == old(fileSelected)
      ensures mergeList == Take(old(mergeList), old(mergeCurrent))
      ensures pos <= |old(fileList)| && fileList == Insert(old(fileList), pos, old(mergeList)[old(mergeCurrent)])
    {
      hide Consistent, Take, Insert;
      var item := mergeList[mergeCurrent];
      pos := 0;
      while pos < |fileList|
        invariant 0 <= pos <= |fileList|
        invariant forall k :: 0 <= k < pos ==> fileList[k].position <= item.position
      {
        if fileList[pos].position > item.position {
          break;
        }
        pos := pos + 1;
      }
      FoundPlace(mergeList, fileList, n, m, mergeCurrent, pos);
      mergeList := Take(mergeList, mergeCurrent);
      pageCount := pageCount - 1;
      InsertHolds(fileList, pos, item);
      fileList := Insert(fileList, pos, item);
    }

    /** Exchanges the current page with the entry before it. */
    method UpBtnClicked()
      requires Valid() && CurrentIsFile()
      modifies this
      ensures Valid() && fileList == old(fileList)
      ensures var c := old(mergeCurrent);
        if c > 0 then
          && mergeList == Exchange(old(mergeList), c - 1)
          && mergeCurrent == c - 1
        else mergeList == old(mergeList) && mergeCurrent == c
    {
      hide Consistent, Insert, Take, Exchange;
      var pos := mergeCurrent;
      if pos > 0 {
        var item := mergeList[pos];
        MoveKeeps(mergeList, fileList, n, m, pos, pos - 1);
        ShiftIsSwap(mergeList, pos - 1);
        mergeList := Take(mergeList, pos);
        mergeList := Insert(mergeList, pos - 1, item);
        mergeCurrent := pos - 1;
      }
    }

    /** Exchanges the current page with the entry after it, unless that is the END marker. */
    method DownBtnClicked()
      requires Valid() && CurrentIsFile()
      modifies this
      ensures Valid() && fileList == old(fileList)
      ensures var c := old(mergeCurrent);
        if old(mergeList)[c + 1] != Original(n + 1) then
          && mergeList == Exchange(old(mergeList), c)
          && mergeCurrent == c + 1
        else mergeList == old(mergeList) && mergeCurrent == c
    {
      hide Consistent, Insert, Take, Exchange;
      var pos := mergeCurrent;
      EndOnlyLast(mergeList, fileList, n, m, pos);
      EndOnlyLast(mergeList, fileList, n, m, pos + 1);
      if pos + 1 < pageCount {
        var item := mergeList[pos];
        MoveKeeps(mergeList, fileList, n, m, pos, pos + 1);
        ShiftIsSwap(mergeList, pos);
        mergeList := Take(mergeList, pos);
        mergeList := Insert(mergeList, pos + 1, item);
        mergeCurrent := pos + 1;
      }
    }

    /** Any run of the dialog; a button that is not enabled does nothing. */
    method Run(ops: seq<Op>)
      requires Valid()
      modifies this
      ensures Valid()
    {
      for i := 0 to |ops|
        invariant Valid()
      {
        match ops[i] {
          case Select(pages) => fileSelected := set p | p in fileList && p in pages;
          case SetCurrent(index) => if 0 <= index < |mergeList| { mergeCurrent := index; }
          case Add(focused) => ghost var _, _ := AddBtnClicked(focused);
          case Remove => if CurrentIsFile() { var _ := RemoveBtnClicked(); }
          case Up => if CurrentIsFile() { UpBtnClicked(); }
          case Down => if CurrentIsFile() { DownBtnClicked(); }
        }
      }
    }
  }
}
