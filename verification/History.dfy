/** src/gui/commandwindow.cc: the command history file, its printer and its parser. */
module History {
  import opened Helpers

  predicate EndsWith(s: string, t: string) {
    |t| <= |s| && s[|s| - |t|..] == t
  }

  /** The next line of a stream, and what is left after it. */
  function Line(s: string): string {
    s[..IndexOf(s, '\n')]
  }

  function Rest(s: string): (r: string)
    ensures s != "" ==> |r| < |s|
  {
    if IndexOf(s, '\n') < |s| then s[IndexOf(s, '\n') + 1..] else ""
  }

  /** Drops one space at the end. */
  function Unspace(s: string): string {
    if s != "" && s[|s| - 1] == ' ' then s[..|s| - 1] else s
  }

  // ----- printing -----

  /** A space before every newline. */
  function Escape(s: string): string {
    if s == "" then "" else (if s[0] == '\n' then " \n" else [s[0]]) + Escape(s[1..])
  }

  function Save(items: seq<string>, sep: string): string {
    if items == [] then "" else Escape(items[0]) + sep + "\n" + Save(items[1..], sep)
  }

  // ----- parsing -----

  /** An interior line joins the item read so far; no newline is put in front while the item is empty. */
  function Join(item: string, line: string): string {
    (if item != "" then item + "\n" else item) + line
  }

  /** The last line joins only if neither part is empty. */
  function JoinLast(item: string, line: string): string {
    if item != "" && line != "" then item + "\n" + line else item + line
  }

  /** Reads lines until one ends with the separator; gives the item and the rest of the stream. */
  function Collect(item: string, line: string, rest: string, sep: string): (r: (string, string))
    ensures |r.1| <= |rest|
    decreases |rest|
  {
    if rest != "" && !EndsWith(line, sep) then Collect(Join(item, Unspace(line)), Line(rest), Rest(rest), sep)
    else
      var last := if EndsWith(line, sep) then line[..|line| - |sep|] else line;
      (JoinLast(item, Unspace(last)), rest)
  }

  function LoadItems(s: string, sep: string): seq<string>
    decreases |s|
  {
    if s == "" then []
    else
      var (item, rest) := Collect("", Line(s), Rest(s), sep);
      [item] + LoadItems(rest, sep)
  }

  /** The loaded list always starts with the empty command. */
  function WithEmptyFirst(items: seq<string>): seq<string> {
    if items == [] || items[0] != "" then [""] + items else items
  }

  // ----- what comes back -----

  /** What the rest `t` of an item adds to the part `item` already read. */
  function Resume(item: string, t: string): string
    decreases |t|
  {
    if IndexOf(t, '\n') < |t| then Resume(Join(item, Line(t)), Rest(t)) else JoinLast(item, Unspace(t))
  }

  function Restore(item: string): string {
    Resume("", item)
  }

  function RestoreAll(items: seq<string>): (r: seq<string>)
    ensures |r| == |items| && forall i :: 0 <= i < |items| ==> r[i] == Restore(items[i])
  {
    if items == [] then [] else [Restore(items[0])] + RestoreAll(items[1..])
  }

  /** Items that survive: empty, or starting with no newline and ending with neither newline nor space. */
  predicate Stable(item: string) {
    item == "" || (item[0] != '\n' && EndsClean(item))
  }

  predicate EndsClean(t: string) {
    t != "" && t[|t| - 1] != '\n' && t[|t| - 1] != ' '
  }

  predicate GoodSeparator(sep: string) {
    sep != "" && '\n' !in sep && sep[|sep| - 1] != ' '
  }

  /** A text with a newline: its first line, and a rest that ends as the text does. */
  lemma LineSplit(t: string)
    requires IndexOf(t, '\n') < |t|
    ensures t == Line(t) + ("\n" + Rest(t)) && |t| == |Line(t)| + 1 + |Rest(t)|
    ensures EndsClean(t) <==> EndsClean(Rest(t))
  {
    hide IndexOf, EndsClean;
    var n := IndexOf(t, '\n');
    assert t == t[..n] + ([t[n]] + t[n + 1..]);
    EndOfRest(t, n);
  }

  lemma EndOfRest(t: string, n: nat)
    requires n < |t| && t[n] == '\n'
    ensures EndsClean(t) <==> EndsClean(t[n + 1..])
  {
  }

  /** A text without the newlines at its start. */
  function WithoutStart(t: string): (r: string)
    ensures |r| <= |t|
  {
    if t != "" && t[0] == '\n' then WithoutStart(t[1..]) else t
  }

  /** A text without a certain character at its end, one at most. */
  function WithoutLast(t: string, c: char): (r: string)
    ensures |r| <= |t|
  {
    if t != "" && t[|t| - 1] == c then t[..|t| - 1] else t
  }

  /** What is left of an item: newlines at the start go, then one space at the end, then one newline at the end. */
  function Trimmed(item: string): string {
    WithoutLast(WithoutLast(WithoutStart(item), ' '), '\n')
  }

  /** With something already read, the rest comes back behind it and a newline, cut at the end as any item is. */
  lemma {:induction false} ResumeNonEmpty(item: string, t: string)
    requires item != ""
    ensures Resume(item, t) == WithoutLast(WithoutLast(item + ("\n" + t), ' '), '\n')
    decreases |t|
  {
    hide IndexOf, EndsClean, Line, Rest, WithoutLast;
    if IndexOf(t, '\n') < |t| {
      LineSplit(t);
      var l, r := Line(t), Rest(t);
      ResumeNonEmpty(Join(item, l), r);
      assert item + "\n" + l + ("\n" + r) == item + ("\n" + (l + ("\n" + r)));
    } else {
      LastLineNonEmpty(item, t);
    }
  }

  lemma LastOfConcat(a: string, t: string, c: char)
    requires t != ""
    ensures WithoutLast(a + t, c) == a + WithoutLast(t, c)
  {
  }

  lemma LastLineNonEmpty(item: string, t: string)
    requires item != "" && IndexOf(t, '\n') == |t|
    ensures JoinLast(item, Unspace(t)) == WithoutLast(WithoutLast(item + ("\n" + t), ' '), '\n')
  {
    var u := Unspace(t);
    assert u == WithoutLast(t, ' ');
    NoNewlineIn(t);
    hide *;
    if t != "" {
      LastOfConcat("\n", t, ' ');
    }
    LastOfConcat(item, "\n" + t, ' ');
    if u != "" {
      LastOfConcat("\n", u, '\n');
    }
    LastOfConcat(item, "\n" + u, '\n');
    JoinLastSays(item, u);
    NewlineAlone();
  }

  lemma NoNewlineIn(t: string)
    requires IndexOf(t, '\n') == |t|
    ensures WithoutLast(WithoutLast(t, ' '), '\n') == WithoutLast(t, ' ')
  {
    hide IndexOf;
    assert t == t[..|t|];
    var u := WithoutLast(t, ' ');
    if u != "" {
      assert u[|u| - 1] == t[|u| - 1] && t[|u| - 1] in t[..|t|];
    }
  }

  lemma JoinLastSays(item: string, u: string)
    requires item != ""
    ensures JoinLast(item, u) == if u == "" then item + "" else item + ("\n" + u)
  {
    assert item + "\n" + u == item + ("\n" + u);
  }

  lemma NewlineAlone()
    ensures WithoutLast("\n" + "", ' ') == "\n" + "" && WithoutLast("\n" + "", '\n') == ""
    ensures WithoutLast("", ' ') == ""
  {
  }

  /** What comes back of any item. */
  lemma {:induction false} RestoreSays(item: string)
    ensures Restore(item) == Trimmed(item)
    decreases |item|
  {
    if IndexOf(item, '\n') == |item| {
      RestoreLastLine(item);
    } else if IndexOf(item, '\n') == 0 {
      RestoreSays(item[1..]);
      RestoreSkips(item);
    } else {
      RestoreGoesOn(item);
    }
  }

  lemma RestoreLastLine(item: string)
    requires IndexOf(item, '\n') == |item|
    ensures Restore(item) == Trimmed(item)
  {
    hide WithoutLast, WithoutStart, Restore;
    NothingInFront(item);
    NoNewlineIn(item);
    LastLineAlone(item);
  }

  lemma NothingInFront(item: string)
    requires IndexOf(item, '\n') == |item|
    ensures WithoutStart(item) == item
  {
    hide IndexOf;
    assert item == item[..|item|];
    assert item != "" ==> item[0] in item[..|item|];
  }

  lemma LastLineAlone(item: string)
    requires IndexOf(item, '\n') == |item|
    ensures Restore(item) == WithoutLast(item, ' ')
  {
    hide IndexOf, Line, Rest, Join;
    var u := Unspace(item);
    assert "" + u == u;
    assert JoinLast("", u) == u;
    assert Resume("", item) == JoinLast("", u);
  }

  /** Newlines at the start are lost. */
  lemma RestoreSkips(item: string)
    requires item != "" && IndexOf(item, '\n') == 0
    ensures Restore(item) == Restore(item[1..]) && WithoutStart(item) == WithoutStart(item[1..])
  {
    assert item[0] == '\n';
    hide IndexOf;
    assert Line(item) == "" && Join("", "") == "" && Rest(item) == item[1..];
  }

  lemma RestoreGoesOn(item: string)
    requires 0 < IndexOf(item, '\n') < |item|
    ensures Restore(item) == Trimmed(item)
  {
    hide IndexOf, EndsClean, WithoutLast;
    LineSplit(item);
    assert item[0] in item[..IndexOf(item, '\n')];
    assert Join("", Line(item)) == Line(item);
    ResumeNonEmpty(Line(item), Rest(item));
  }

  /** An item comes back unchanged exactly if it is stable, and strictly shorter otherwise. */
  lemma RestoreExact(item: string)
    ensures if Stable(item) then Restore(item) == item else |Restore(item)| < |item|
  {
    hide Restore;
    RestoreSays(item);
  }

  /** A stable item comes back also with a newline, a space or both behind it, and with newlines in front. */
  lemma {:induction false} StrayEndsGo(t: string, n: nat)
    requires t != "" && Stable(t)
    ensures Restore(Newlines(n) + t) == Restore(Newlines(n) + t + "\n") == t
    ensures Restore(Newlines(n) + t + " ") == Restore(Newlines(n) + t + "\n ") == t
  {
    hide Restore;
    forall tail | tail in ["", "\n", " ", "\n "]
      ensures Restore(Newlines(n) + t + tail) == t
    {
      RestoreSays(Newlines(n) + t + tail);
      StartGoes(n, t, tail);
      EndGoes(t, tail);
    }
    assert Newlines(n) + t + "" == Newlines(n) + t;
  }

  function Newlines(n: nat): string {
    if n == 0 then "" else ['\n'] + Newlines(n - 1)
  }

  lemma {:induction false} StartGoes(n: nat, t: string, tail: string)
    requires t != "" && t[0] != '\n'
    ensures WithoutStart(Newlines(n) + t + tail) == t + tail
  {
    if n == 0 {
      assert Newlines(n) + t + tail == t + tail;
    } else {
      StartGoes(n - 1, t, tail);
      assert (Newlines(n) + t + tail)[1..] == Newlines(n - 1) + t + tail;
    }
  }

  lemma EndGoes(t: string, tail: string)
    requires EndsClean(t) && tail in ["", "\n", " ", "\n "]
    ensures WithoutLast(WithoutLast(t + tail, ' '), '\n') == t
  {
    if tail == "" {
      assert t + tail == t;
    } else if tail == "\n " {
      assert (t + tail)[..|t| + 1] == t + "\n" && (t + "\n")[..|t|] == t;
    } else {
      assert (t + tail)[..|t|] == t;
    }
  }

  lemma LineOfConcat(l: string, r: string)
    requires '\n' !in l
    ensures Line(l + ("\n" + r)) == l && Rest(l + ("\n" + r)) == r
  {
    hide IndexOf;
    var s := l + ("\n" + r);
    assert s[..|l|] == l;
    IndexOfIs(s, '\n', |l|);
  }

  lemma {:induction false} EscapePlain(s: string)
    requires '\n' !in s
    ensures Escape(s) == s
  {
    if s != "" {
      EscapePlain(s[1..]);
    }
  }

  lemma {:induction false} EscapeConcat(a: string, b: string)
    ensures Escape(a + b) == Escape(a) + Escape(b)
  {
    if a == "" {
      assert a + b == b;
    } else {
      assert (a + b)[1..] == a[1..] + b;
      EscapeConcat(a[1..], b);
    }
  }

  lemma SpaceInFront(l: string, e: string)
    ensures l + (" \n" + e) == (l + " ") + ("\n" + e)
  {
  }

  lemma EscapeOfLine(l: string, r: string)
    requires '\n' !in l
    ensures Escape(l + ("\n" + r)) == (l + " ") + ("\n" + Escape(r))
  {
    hide Escape;
    EscapeConcat(l, "\n" + r);
    EscapeConcat("\n", r);
    EscapePlain(l);
    EscapeNewline();
    SpaceInFront(l, Escape(r));
  }

  /** The escape of a text, first line apart. */
  lemma EscapeSplit(t: string)
    requires IndexOf(t, '\n') < |t|
    ensures Escape(t) == (Line(t) + " ") + ("\n" + Escape(Rest(t)))
  {
    hide Escape, IndexOf;
    LineSplit(t);
    EscapeOfLine(Line(t), Rest(t));
  }

  lemma EscapeNewline()
    ensures Escape("\n") == " \n"
  {
  }

  /** An escaped line never looks like the end of an item. */
  lemma SpacedLineGoesOn(l: string, sep: string)
    requires GoodSeparator(sep)
    ensures !EndsWith(l + " ", sep) && Unspace(l + " ") == l
  {
  }

  /** What is printed for one item, in front of the rest of the file. */
  function Printed(t: string, sep: string, tail: string): string {
    Escape(t) + (sep + ("\n" + tail))
  }

  lemma LastLinePrinted(item: string, t: string, sep: string, tail: string)
    requires GoodSeparator(sep) && IndexOf(t, '\n') == |t|
    ensures var s := Printed(t, sep, tail); Collect(item, Line(s), Rest(s), sep) == (JoinLast(item, Unspace(t)), tail)
  {
    assert t == t[..IndexOf(t, '\n')];
    EscapePlain(t);
    var s, l := Printed(t, sep, tail), t + sep;
    assert s == l + ("\n" + tail);
    LineOfConcat(l, tail);
    assert l[|l| - |sep|..] == sep && l[..|l| - |sep|] == t;
  }

  lemma FirstLinePrinted(t: string, sep: string, tail: string)
    requires GoodSeparator(sep) && IndexOf(t, '\n') < |t|
    ensures var s := Printed(t, sep, tail); Line(s) == Line(t) + " " && Rest(s) == Printed(Rest(t), sep, tail) != ""
  {
    hide Escape, IndexOf;
    EscapeSplit(t);
    LineSplit(t);
    var l, e := Line(t) + " ", Escape(Rest(t));
    ConcatAssoc(l, "\n" + e, sep + ("\n" + tail));
    ConcatAssoc("\n", e, sep + ("\n" + tail));
    LineOfConcat(l, e + (sep + ("\n" + tail)));
  }

  /** Parsing the print of an item gives back what Resume says, and stops right behind it. */
  lemma {:induction false} CollectPrinted(item: string, t: string, sep: string, tail: string)
    requires GoodSeparator(sep)
    ensures var s := Printed(t, sep, tail); Collect(item, Line(s), Rest(s), sep) == (Resume(item, t), tail)
    decreases |t|
  {
    hide Printed, IndexOf, EndsWith, Unspace, GoodSeparator;
    if IndexOf(t, '\n') < |t| {
      FirstLinePrinted(t, sep, tail);
      SpacedLineGoesOn(Line(t), sep);
      LineSplit(t);
      CollectPrinted(Join(item, Line(t)), Rest(t), sep, tail);
    } else {
      LastLinePrinted(item, t, sep, tail);
    }
  }

  /** The file splits into exactly the printed items, whatever their text, each restored on its own. */
  lemma {:induction false} LoadsWhatWasSaved(items: seq<string>, sep: string)
    requires GoodSeparator(sep)
    ensures LoadItems(Save(items, sep), sep) == RestoreAll(items)
    ensures forall i :: 0 <= i < |items| ==> RestoreAll(items)[i] == Trimmed(items[i])
  {
    hide Escape, Collect, Line, Rest, Resume, Trimmed;
    if items != [] {
      RestoreSays(items[0]);
      var tail := Save(items[1..], sep);
      assert Save(items, sep) == Printed(items[0], sep, tail);
      CollectPrinted("", items[0], sep, tail);
      LoadsWhatWasSaved(items[1..], sep);
    }
  }

  /** An empty separator ends an item at every line. */
  lemma EmptySeparatorSplits()
    ensures |LoadItems(Save(["\n"], ""), "")| == 2
  {
    hide Escape, Line, Rest;
    EscapeNewline();
    assert Save(["\n"], "") == " " + ("\n" + "\n");
    LineOfConcat(" ", "\n");
    LineOfConcat("", "");
    assert "" + ("\n" + "") == "\n";
  }

  /** A separator with a newline in it is never found. */
  lemma NewlineSeparatorJoins(sep: string)
    requires '\n' in sep
    ensures |LoadItems(Save(["", ""], sep), sep)| == 1
  {
    hide Collect;
    var s := Save(["", ""], sep);
    assert s != "" by { assert s == Escape("") + sep + "\n" + Save(["", ""][1..], sep); }
    SwallowsAll("", Line(s), Rest(s), sep);
    assert LoadItems("", sep) == [];
  }

  /** A separator that ends in a space is found where an escaped newline follows its front part. */
  lemma SpaceSeparatorSplits(front: string)
    requires '\n' !in front
    ensures var sep := front + " "; |LoadItems(Save([front + "\n"], sep), sep)| >= 2
  {
    hide Escape, IndexOf;
    var sep, item := front + " ", front + "\n";
    var rest := sep + ("\n" + "");
    EscapeConcat(front, "\n");
    EscapePlain(front);
    EscapeNewline();
    var s := Save([item], sep);
    assert s == sep + ("\n" + rest) by {
      assert [item][1..] == [] && Save([], sep) == "";
    }
    LineOfConcat(sep, rest);
    assert EndsWith(sep, sep);
    assert Collect("", sep, rest, sep).1 == rest != "";
  }

  /** For any other separator some list of items comes back split differently. */
  lemma BadSeparatorSplits(sep: string) returns (items: seq<string>)
    requires !GoodSeparator(sep)
    ensures |LoadItems(Save(items, sep), sep)| != |items|
  {
    hide LoadItems, Save;
    if '\n' in sep {
      items := ["", ""];
      NewlineSeparatorJoins(sep);
    } else if sep == "" {
      items := ["\n"];
      EmptySeparatorSplits();
    } else {
      var front := sep[..|sep| - 1];
      items := [front + "\n"];
      assert sep == front + " ";
      SpaceSeparatorSplits(front);
    }
  }

  /** No line ends with a separator that has a newline in it, so one item takes the whole stream. */
  lemma {:induction false} SwallowsAll(item: string, line: string, rest: string, sep: string)
    requires '\n' in sep && '\n' !in line
    ensures Collect(item, line, rest, sep).1 == ""
    decreases |rest|
  {
    var i :| 0 <= i < |sep| && sep[i] == '\n';
    if |sep| <= |line| {
      assert line[|line| - |sep|..][i] == line[|line| - |sep| + i];
    }
    if rest != "" {
      SwallowsAll(Join(item, Unspace(line)), Line(rest), Rest(rest), sep);
    }
  }

  /** The exact condition on the separator. */
  lemma SplitsExactly(sep: string)
    ensures GoodSeparator(sep) <==> forall items :: LoadItems(Save(items, sep), sep) == RestoreAll(items)
  {
    if GoodSeparator(sep) {
      forall items
        ensures LoadItems(Save(items, sep), sep) == RestoreAll(items)
      {
        LoadsWhatWasSaved(items, sep);
      }
    } else {
      var items := BadSeparatorSplits(sep);
      assert |RestoreAll(items)| == |items|;
    }
  }

  lemma NothingToLoad(sep: string)
    ensures LoadItems("", sep) == []
  {
  }

  lemma LoadItemsNext(s: string, sep: string)
    requires s != ""
    ensures var (item, rest) := Collect("", Line(s), Rest(s), sep);
      LoadItems(s, sep) == [item] + LoadItems(rest, sep) && |rest| < |s|
  {
    hide Collect, Line;
  }

  class CommandHistory {
    const separator: string
    var items: seq<string>

    constructor (separator: string)
      ensures this.separator == separator && items == []
    {
      this.separator := separator;
      items := [];
    }

    /** Reads lines up to one that ends an item. */
    method ReadItem(text: string) returns (line: string, stream: string)
      requires text != ""
      ensures (line, stream) == Collect("", Line(text), Rest(text), separator)
      // of a printed item, exactly its trimmed text is read
      ensures forall t, tail :: GoodSeparator(separator) && text == Printed(t, separator, tail) ==>
        line == Trimmed(t) && stream == tail
    {
      forall t, tail | GoodSeparator(separator) && text == Printed(t, separator, tail)
        ensures Collect("", Line(text), Rest(text), separator) == (Trimmed(t), tail)
      {
        CollectPrinted("", t, separator, tail);
        RestoreSays(t);
      }
      hide Printed, Trimmed, GoodSeparator;
      line := "";
      var hLine := Line(text);
      stream := Rest(text);
      while stream != "" && !EndsWith(hLine, separator)
        invariant Collect("", Line(text), Rest(text), separator) == Collect(line, hLine, stream, separator)
        decreases |stream|
      {
        hLine := Unspace(hLine);
        if line != "" {
          line := line + "\n";
        }
        line := line + hLine;
        hLine := Line(stream);
        stream := Rest(stream);
      }
      if EndsWith(hLine, separator) {
        hLine := hLine[..|hLine| - |separator|];
      }
      hLine := Unspace(hLine);
      assert line + "" == line;
      if line != "" && hLine != "" {
        line := line + "\n";
      }
      if hLine != "" {
        line := line + hLine;
      }
    }

    /** Replaces the list by the items of a file. */
    method LoadHistory(text: string)
      modifies this
      ensures items == WithEmptyFirst(LoadItems(text, separator))
      ensures items[0] == "" && items in {LoadItems(text, separator), [""] + LoadItems(text, separator)}
      ensures items == [""] + LoadItems(text, separator) ==>
        LoadItems(text, separator) == [] || LoadItems(text, separator)[0] != ""
      // of a saved file, exactly the trimmed items are loaded
      ensures forall saved :: GoodSeparator(separator) && text == Save(saved, separator) ==>
        && |LoadItems(text, separator)| == |saved|
        && forall i :: 0 <= i < |saved| ==> LoadItems(text, separator)[i] == Trimmed(saved[i])
    {
      forall saved | GoodSeparator(separator) && text == Save(saved, separator)
        ensures |LoadItems(text, separator)| == |saved|
        ensures forall i :: 0 <= i < |saved| ==> LoadItems(text, separator)[i] == Trimmed(saved[i])
      {
        LoadsWhatWasSaved(saved, separator);
      }
      hide Save, Trimmed, GoodSeparator;
      hide Collect, Line, Rest, LoadItems;
      NothingToLoad(separator);
      items := [];
      var stream := text;
      while stream != ""
        invariant items + LoadItems(stream, separator) == LoadItems(text, separator)
        decreases |stream|
      {
        LoadItemsNext(stream, separator);
        var line;
        line, stream := ReadItem(stream);
        ConcatAssoc(items, [line], LoadItems(stream, separator));
        items := items + [line];
      }
      assert items + [] == items;
      if items == [] || items[0] != "" {
        items := [""] + items;
      }
    }

    /** Writes all items. */
    method SaveHistory() returns (text: string)
      ensures text == Save(items, separator)
    {
      text := "";
      for i := 0 to |items|
        invariant text + Save(items[i..], separator) == Save(items, separator)
      {
        text := text + (Escape(items[i]) + separator + "\n");
        assert items[i..][1..] == items[i + 1..];
      }
      assert items[|items|..] == [] && text + "" == text;
    }

    /** A new command goes right behind the first entry. */
    method Execute(command: string)
      modifies this
      ensures items == if |old(items)| < 1 then [command] else [old(items)[0], command] + old(items)[1..]
    {
      var at := if |items| < 1 then |items| else 1;
      items := items[..at] + [command] + items[at..];
    }
  }

  /** Saving and loading again, in one session and the next: nothing is added, lost or split. */
  method NextSession(h: CommandHistory)
    requires GoodSeparator(h.separator) && h.items != [] && h.items[0] == ""
    modifies h
    ensures h.items == RestoreAll(old(h.items)) && h.items[0] == ""
    ensures forall i :: 0 <= i < |h.items| ==> h.items[i] == Trimmed(old(h.items)[i])
    ensures forall i :: 0 <= i < |h.items| ==>
      (h.items[i] == old(h.items)[i] <==> Stable(old(h.items)[i]))
  {
    hide Trimmed;
    var text := h.SaveHistory();
    LoadsWhatWasSaved(h.items, h.separator);
    forall i | 0 <= i < |h.items|
      ensures if Stable(h.items[i]) then Restore(h.items[i]) == h.items[i] else |Restore(h.items[i])| < |h.items[i]|
    {
      RestoreExact(h.items[i]);
    }
    h.LoadHistory(text);
  }

  /** What some sessions make of an item. */
  function RestoreTimes(item: string, n: nat): string {
    if n == 0 then item else Restore(RestoreTimes(item, n - 1))
  }

  /** An item that is not stable by then has lost a character in every session. */
  lemma {:induction false} ShrinksUntilStable(item: string, n: nat)
    ensures Stable(RestoreTimes(item, n)) || |RestoreTimes(item, n)| + n <= |item|
  {
    if n > 0 {
      hide Restore, Stable;
      ShrinksUntilStable(item, n - 1);
      RestoreExact(RestoreTimes(item, n - 1));
    }
  }

  /** Every item settles: after as many sessions as it has characters at most, it is stable and stays as it is. */
  lemma Settles(item: string, n: nat)
    requires n >= |item|
    ensures Stable(RestoreTimes(item, n)) && RestoreTimes(item, n + 1) == RestoreTimes(item, n)
  {
    hide Restore;
    ShrinksUntilStable(item, n);
    RestoreExact(RestoreTimes(item, n));
  }

  /** Any number of sessions: each item goes its own way, and the whole history is stable in the end. */
  method Sessions(h: CommandHistory, n: nat)
    requires GoodSeparator(h.separator) && h.items != [] && h.items[0] == ""
    modifies h
    ensures |h.items| == |old(h.items)| && h.items[0] == ""
    ensures forall i :: 0 <= i < |h.items| ==> h.items[i] == RestoreTimes(old(h.items)[i], n)
    ensures forall i :: 0 <= i < |h.items| && |old(h.items)[i]| <= n ==> Stable(h.items[i])
  {
    hide Restore, Stable, GoodSeparator;
    for k := 0 to n
      invariant |h.items| == |old(h.items)| && h.items[0] == ""
      invariant forall i :: 0 <= i < |h.items| ==> h.items[i] == RestoreTimes(old(h.items)[i], k)
    {
      NextSession(h);
    }
    forall i | 0 <= i < |h.items| && |old(h.items)[i]| <= n
      ensures Stable(h.items[i])
    {
      Settles(old(h.items)[i], n);
    }
  }
}
