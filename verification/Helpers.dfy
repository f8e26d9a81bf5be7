/** What several modules share: optional values, results and the first position of an item, entries picked in
    order, and some facts about concatenation. */
module Helpers {

  datatype Option<+T> = None | Some(value: T)

  datatype Result<+T, +E> = Ok(value: T) | Err(error: E)

  /** First position of an item, or the length of the sequence. */
  function IndexOf<T(==)>(s: seq<T>, x: T): (n: nat)
    ensures n <= |s| && x !in s[..n] && (n < |s| ==> s[n] == x)
  {
    if s == [] || s[0] == x then 0
    else
      var n := IndexOf(s[1..], x);
      assert s[..n + 1] == [s[0]] + s[1..][..n];
      n + 1
  }

  lemma {:induction false} IndexOfIs<T>(s: seq<T>, x: T, n: nat)
    requires n <= |s| && x !in s[..n] && (n < |s| ==> s[n] == x)
    ensures IndexOf(s, x) == n
  {
    hide IndexOf;
  }

  /** Entries of a sequence, taken at the given indices in order. */
  ghost predicate Picked<T>(s: seq<T>, t: seq<T>, idx: seq<nat>) {
    && |idx| == |t|
    && (forall k :: 0 <= k < |idx| ==> idx[k] < |s| && t[k] == s[idx[k]])
    && (forall j, k :: 0 <= j < k < |idx| ==> idx[j] < idx[k])
  }

  /** Exactly the entries of one kind, in order, each as often as it is there. */
  ghost predicate PickedBy<T>(s: seq<T>, t: seq<T>, kind: T -> bool) {
    exists idx: seq<nat> :: Picked(s, t, idx) && IndicesOf(s, kind, idx)
  }

  ghost predicate IndicesOf<T>(s: seq<T>, kind: T -> bool, idx: seq<nat>) {
    forall i: nat :: i in idx <==> i < |s| && kind(s[i])
  }

  lemma PickedNone<T>(kind: T -> bool)
    ensures PickedBy([], [], kind)
  {
    var none: seq<nat> := [];
    assert Picked<T>([], [], none) && IndicesOf([], kind, none);
  }

  lemma PickedNext<T>(s: seq<T>, t: seq<T>, kind: T -> bool, x: T)
    requires PickedBy(s, t, kind)
    ensures PickedBy(s + [x], t + (if kind(x) then [x] else []), kind)
  {
    hide Picked, IndicesOf;
    var idx: seq<nat> :| Picked(s, t, idx) && IndicesOf(s, kind, idx);
    if kind(x) {
      var more: seq<nat> := idx + [|s|];
      PickedTake(s, t, kind, idx, x);
      assert Picked(s + [x], t + [x], more) && IndicesOf(s + [x], kind, more);
    } else {
      PickedSkip(s, t, kind, idx, x);
      assert t + [] == t;
    }
  }

  lemma PickedTake<T>(s: seq<T>, t: seq<T>, kind: T -> bool, idx: seq<nat>, x: T)
    requires Picked(s, t, idx) && IndicesOf(s, kind, idx) && kind(x)
    ensures Picked(s + [x], t + [x], idx + [|s|]) && IndicesOf(s + [x], kind, idx + [|s|])
  {
    forall i: nat
      ensures i in idx + [|s|] <==> i < |s + [x]| && kind((s + [x])[i])
    {
      assert i in idx + [|s|] <==> i in idx || i == |s|;
    }
  }

  lemma PickedSkip<T>(s: seq<T>, t: seq<T>, kind: T -> bool, idx: seq<nat>, x: T)
    requires Picked(s, t, idx) && IndicesOf(s, kind, idx) && !kind(x)
    ensures Picked(s + [x], t, idx) && IndicesOf(s + [x], kind, idx)
  {
  }

  lemma ConcatAssoc<T>(a: seq<T>, b: seq<T>, c: seq<T>)
    ensures (a + b) + c == a + (b + c)
  {
  }

  lemma PrefixNext<T>(s: seq<T>, k: nat)
    requires k < |s|
    ensures s[..k + 1] == s[..k] + [s[k]]
  {
  }

  lemma EmptyFirst<T>(s: seq<T>)
    ensures [] + s == s
  {
  }
}
