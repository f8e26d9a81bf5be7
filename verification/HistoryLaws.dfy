/** src/gui/commandwindow.cc: history files that were not written by the program, or not to their end. */
module HistoryLaws {
  import opened Helpers
  import opened History

  /** A text whose end was never written: not empty, and at its end neither a newline nor the separator. */
  predicate Unfinished(t: string, sep: string) {
    t != "" && t[|t| - 1] != '\n' && !EndsWith(t, sep)
  }

  /** A last item whose end was never written is loaded all the same. */
  lemma {:induction false} CollectUnfinished(item: string, t: string, sep: string)
    requires GoodSeparator(sep) && Unfinished(t, sep)
    ensures var s := Escape(t); s != "" && Collect(item, Line(s), Rest(s), sep) == (Resume(item, t), "")
    decreases |t|
  {
    hide IndexOf, Escape, Line, Rest, EndsWith, Unspace, GoodSeparator, Unfinished;
    if IndexOf(t, '\n') < |t| {
      FirstLineUnfinished(t, sep);
      SpacedLineGoesOn(Line(t), sep);
      CollectUnfinished(Join(item, Line(t)), Rest(t), sep);
    } else {
      OnlyLineUnfinished(t, sep);
    }
  }

  lemma FirstLineUnfinished(t: string, sep: string)
    requires GoodSeparator(sep) && Unfinished(t, sep) && IndexOf(t, '\n') < |t|
    ensures Unfinished(Rest(t), sep) && |Rest(t)| < |t|
    ensures var s := Escape(t); s != "" && Line(s) == Line(t) + " " && Rest(s) == Escape(Rest(t)) != ""
  {
    hide IndexOf, EndsWith, GoodSeparator;
    var l, r := Line(t), Rest(t);
    EscapeSplit(t);
    LineSplit(t);
    LineOfConcat(l + " ", Escape(r));
    assert t == (l + "\n") + r;
    EndOfText(l + "\n", r, sep);
  }

  lemma OnlyLineUnfinished(t: string, sep: string)
    requires Unfinished(t, sep) && IndexOf(t, '\n') == |t|
    ensures Escape(t) == t != "" && Line(t) == t && Rest(t) == "" && !EndsWith(t, sep)
  {
    hide IndexOf;
    assert t == t[..|t|];
    EscapePlain(t);
  }

  /** A separator without newline ends a text exactly if it ends its last line. */
  lemma EndOfText(front: string, r: string, sep: string)
    requires GoodSeparator(sep) && front != "" && front[|front| - 1] == '\n'
    ensures EndsWith(front + r, sep) <==> EndsWith(r, sep)
    ensures r != "" ==> (front + r)[|front + r| - 1] == r[|r| - 1]
    ensures r == "" ==> (front + r)[|front + r| - 1] == '\n'
  {
    var s := front + r;
    if |r| < |sep| <= |s| {
      assert s[|s| - |sep|..][|sep| - |r| - 1] == s[|front| - 1];
    } else if |sep| <= |r| {
      assert s[|s| - |sep|..] == r[|r| - |sep|..];
    }
  }

  /** A file cut off inside its last item: the items before it as ever, and what was written of the last one. */
  lemma {:induction false} LoadsUnfinished(items: seq<string>, t: string, sep: string)
    requires GoodSeparator(sep) && Unfinished(t, sep)
    ensures LoadItems(Save(items, sep) + Escape(t), sep) == RestoreAll(items) + [Trimmed(t)]
  {
    hide Escape, Collect, Line, Rest, Resume, Trimmed, Unfinished, GoodSeparator;
    if items == [] {
      assert Save(items, sep) + Escape(t) == Escape(t);
      CollectUnfinished("", t, sep);
      RestoreSays(t);
    } else {
      var tail := Save(items[1..], sep) + Escape(t);
      assert Save(items, sep) + Escape(t) == Printed(items[0], sep, tail);
      CollectPrinted("", items[0], sep, tail);
      LoadsUnfinished(items[1..], t, sep);
    }
  }

  /** Lines of a text, but for the last, that end in neither a space nor the separator. */
  predicate InnerLinesPlain(t: string, sep: string)
    decreases |t|
  {
    IndexOf(t, '\n') < |t| ==>
      Unspace(Line(t)) == Line(t) && !EndsWith(Line(t), sep) && InnerLinesPlain(Rest(t), sep)
  }

  /** An item whose newlines have no space in front is loaded just as if they had. */
  lemma {:induction false} CollectUnescaped(item: string, t: string, sep: string, tail: string)
    requires GoodSeparator(sep) && InnerLinesPlain(t, sep)
    ensures var s := t + (sep + ("\n" + tail)); Collect(item, Line(s), Rest(s), sep) == (Resume(item, t), tail)
    decreases |t|
  {
    hide IndexOf, EndsWith, Unspace, GoodSeparator;
    if IndexOf(t, '\n') < |t| {
      var l, r := Line(t), Rest(t);
      var end := sep + ("\n" + tail);
      LineSplit(t);
      ConcatAssoc(l, "\n" + r, end);
      ConcatAssoc("\n", r, end);
      LineOfConcat(l, r + end);
      assert r + end != "";
      CollectUnescaped(Join(item, l), r, sep, tail);
    } else {
      LastLineUnescaped(item, t, sep, tail);
    }
  }

  lemma LastLineUnescaped(item: string, t: string, sep: string, tail: string)
    requires GoodSeparator(sep) && IndexOf(t, '\n') == |t|
    ensures var s := t + (sep + ("\n" + tail));
      Collect(item, Line(s), Rest(s), sep) == (JoinLast(item, Unspace(t)), tail)
  {
    assert t == t[..IndexOf(t, '\n')];
    EscapePlain(t);
    LastLinePrinted(item, t, sep, tail);
  }
}
