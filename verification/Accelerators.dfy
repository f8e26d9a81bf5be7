/** Keyboard accelerators of menu items (src/gui/menu.cc): reading them and filling in the missing ones. */
module Accelerators {
  import opened Helpers

  const NO_ACCEL: char := '\0'

  /** An entry of a menu: a separator, or a text that leads somewhere. */
  datatype Slot<+T> = Separator | Entry(text: string, target: T)

  predicate IsLetter(c: char) {
    'a' <= c <= 'z' || 'A' <= c <= 'Z'
  }

  /** Lower case of the ASCII letters; other characters are left alone. */
  function Lower(c: char): char {
    if 'A' <= c <= 'Z' then (c as int - 'A' as int + 'a' as int) as char else c
  }

  /** Characters outside Latin-1 convert to the null character. */
  function Latin1(c: char): char {
    if c as int < 256 then c else NO_ACCEL
  }

  /** First position of a character, or -1. */
  function Find(s: string, c: char): (pos: int)
    ensures -1 <= pos < |s|
    ensures pos >= 0 ==> s[pos] == c && c !in s[..pos]
    ensures pos == -1 <==> c !in s
  {
    if IndexOf(s, c) == |s| then -1 else IndexOf(s, c)
  }

  function GetAccel(text: string): char {
    var pos := Find(text, '&');
    if pos == -1 || pos + 1 == |text| then NO_ACCEL else Latin1(Lower(text[pos + 1]))
  }

  /** Letters are those of the alphabet in either case, and differ from their lower case by 32 if at all. */
  lemma CharsSay(c: char)
    ensures IsLetter(c) <==> 'a' <= Lower(c) <= 'z'
    ensures Lower(c) as int == c as int + if 'A' <= c <= 'Z' then 32 else 0
  {
  }

  /** The accelerator is the character behind the first '&', a letter in lower case; a character outside Latin-1 is
      none. */
  lemma AccelBehindMark(front: string, c: char, rest: string)
    requires '&' !in front
    ensures GetAccel(front + ['&', c] + rest) ==
      if 'A' <= c <= 'Z' then (c as int + 32) as char else if c as int < 256 then c else '\0'
  {
    hide Find;
    var text := front + ['&', c] + rest;
    assert text[..|front|] == front;
    FindsAt(text, '&', |front|);
  }

  /** Without an '&', or with the first one at the end, there is none. */
  lemma NoAccel(text: string)
    ensures '&' !in text ==> GetAccel(text) == '\0' && GetAccel(text + "&") == '\0'
  {
    hide Find;
    if '&' !in text {
      assert (text + "&")[..|text|] == text;
      FindsAt(text + "&", '&', |text|);
    }
  }

  /** Characters that do not stand for themselves inside a character class. */
  predicate IsMeta(c: char) {
    c == ']' || c == '\\' || c == '-'
  }

  /** Accelerators in lower case, as they are read, that stand for themselves inside a character class. */
  predicate Plain(used: string) {
    forall c :: c in used ==> !IsMeta(c) && Lower(c) == c
  }

  lemma PlainSays(used: string)
    ensures Plain(used) <==> forall c :: c in used ==> c !in "]\\-" && !('A' <= c <= 'Z')
  {
    forall c
      ensures !IsMeta(c) && Lower(c) == c <==> c !in "]\\-" && !('A' <= c <= 'Z')
    {
    }
  }

  /** Whether the class "[^used0]", matched without regard to case, accepts a letter. What a class with one of the
      other characters in it accepts is left to the parameter. */
  predicate Usable(odd: (string, char) -> bool, used: string, c: char) {
    if Plain(used) then Lower(c) !in used else odd(used, Lower(c))
  }

  /** The class accepts no letter that is used. */
  ghost predicate Rejecting(odd: (string, char) -> bool, used: string) {
    forall c :: IsLetter(c) && Usable(odd, used, c) ==> Lower(c) !in used
  }

  /** The class accepts every letter that is not used. */
  ghost predicate Accepting(odd: (string, char) -> bool, used: string) {
    forall c :: IsLetter(c) && !Usable(odd, used, c) ==> Lower(c) in used
  }

  /** A class of characters that stand for themselves does both. */
  lemma PlainClass(odd: (string, char) -> bool, used: string)
    requires Plain(used)
    ensures Rejecting(odd, used) && Accepting(odd, used)
  {
  }

  /** First usable letter of a text at or after k, or the length of the text. */
  function FirstUsable(odd: (string, char) -> bool, text: string, used: string, k: nat): (r: nat)
    requires k <= |text|
    ensures k <= r <= |text|
    ensures forall j :: k <= j < r && IsLetter(text[j]) ==> !Usable(odd, used, text[j])
    ensures r < |text| ==> IsLetter(text[r]) && Usable(odd, used, text[r])
    decreases |text| - k
  {
    if k == |text| || (IsLetter(text[k]) && Usable(odd, used, text[k])) then k
    else FirstUsable(odd, text, used, k + 1)
  }

  /** The text with everything but letters removed. */
  function Letters(text: string): string {
    if text == [] then []
    else (if IsLetter(text[0]) then [text[0]] else []) + Letters(text[1..])
  }

  /** First position holding the letter c in either case, or the length of the text. */
  function FindFold(text: string, c: char, k: nat): (r: nat)
    requires k <= |text|
    ensures k <= r <= |text|
    ensures forall j :: k <= j < r ==> Lower(text[j]) != c
    ensures r < |text| ==> Lower(text[r]) == c
    decreases |text| - k
  {
    if k == |text| || Lower(text[k]) == c then k else FindFold(text, c, k + 1)
  }

  /** Choosing a letter in the filtered text and looking it up in the full text finds the first usable letter. */
  lemma {:induction false} TwoSearches(odd: (string, char) -> bool, text: string, used: string, k: nat)
    requires k <= |text|
    ensures var letters := Letters(text[k..]);
      var j, first := FirstUsable(odd, letters, used, 0), FirstUsable(odd, text, used, k);
      && (j == |letters| <==> first == |text|)
      && (j < |letters| ==> FindFold(text, Lower(letters[j]), k) == first)
    decreases |text| - k
  {
    if k < |text| {
      TwoSearches(odd, text, used, k + 1);
      var rest := Letters(text[k + 1..]);
      assert text[k..][1..] == text[k + 1..];
      if IsLetter(text[k]) {
        assert Letters(text[k..]) == [text[k]] + rest;
        FirstUsableShift(odd, text[k], rest, used);
      } else {
        assert Letters(text[k..]) == rest;
        var j := FirstUsable(odd, rest, used, 0);
        if j < |rest| {
          assert IsLetter(rest[j]);
        }
      }
    }
  }

  lemma FirstUsableIs(odd: (string, char) -> bool, text: string, used: string, r: nat)
    requires r <= |text|
    requires forall j :: 0 <= j < r ==> !IsLetter(text[j]) || !Usable(odd, used, text[j])
    requires r < |text| ==> IsLetter(text[r]) && Usable(odd, used, text[r])
    ensures FirstUsable(odd, text, used, 0) == r
  {
  }

  lemma FirstUsableShift(odd: (string, char) -> bool, c: char, rest: string, used: string)
    requires IsLetter(c)
    ensures FirstUsable(odd, [c] + rest, used, 0)
         == if Usable(odd, used, c) then 0 else 1 + FirstUsable(odd, rest, used, 0)
  {
    var text := [c] + rest;
    var i := FirstUsable(odd, rest, used, 0);
    if !Usable(odd, used, c) {
      assert forall n :: 0 <= n < |rest| ==> text[n + 1] == rest[n];
      FirstUsableIs(odd, text, used, i + 1);
    }
  }

  /** Where an accelerator goes; the length of the text if none is put in. */
  function Place(odd: (string, char) -> bool, text: string, used: string): (r: nat)
    ensures r <= |text| && (GetAccel(text) != NO_ACCEL ==> r == |text|)
    ensures GetAccel(text) == NO_ACCEL ==>
      && (forall j :: 0 <= j < r && IsLetter(text[j]) ==> !Usable(odd, used, text[j]))
      && (r < |text| ==> IsLetter(text[r]) && Usable(odd, used, text[r]))
  {
    if GetAccel(text) != NO_ACCEL then |text| else FirstUsable(odd, text, used, 0)
  }

  function Mark(text: string, k: nat): string
    requires k <= |text|
  {
    text[..k] + "&" + text[k..]
  }

  /** One item of the pass: its new text and the letters used from then on. */
  function Improve<T>(odd: (string, char) -> bool, slot: Slot<T>, used: string): (r: (Slot<T>, string)) {
    if slot.Separator? then (slot, used)
    else
      var k := Place(odd, slot.text, used);
      if k == |slot.text| then (slot, used)
      else (Entry(Mark(slot.text, k), slot.target), used + [Lower(slot.text[k])])
  }

  /** The letters used when item i is reached. */
  function UsedAt<T>(odd: (string, char) -> bool, slots: seq<Slot<T>>, used: string, i: nat): string
    requires i <= |slots|
  {
    if i == 0 then used else Improve(odd, slots[i - 1], UsedAt(odd, slots, used, i - 1)).1
  }

  /** The whole pass. */
  function Optimize<T>(odd: (string, char) -> bool, slots: seq<Slot<T>>, used: string): (r: seq<Slot<T>>)
    ensures |r| == |slots|
  {
    seq(|slots|, i requires 0 <= i < |slots| => Improve(odd, slots[i], UsedAt(odd, slots, used, i)).0)
  }

  /** The pass has been over the first i items, and not over the others. */
  ghost predicate OptimizedUpTo<T>(odd: (string, char) -> bool, items: seq<Slot<T>>, now: seq<Slot<T>>,
                                   used: string, i: nat)
    requires i <= |items|
  {
    && |now| == |items|
    && (forall k :: 0 <= k < i ==> now[k] == Improve(odd, items[k], UsedAt(odd, items, used, k)).0)
    && (forall k :: i <= k < |items| ==> now[k] == items[k])
  }

  lemma OptimizedNone<T>(odd: (string, char) -> bool, items: seq<Slot<T>>, used: string)
    ensures OptimizedUpTo(odd, items, items, used, 0) && UsedAt(odd, items, used, 0) == used
  {
  }

  lemma OptimizedNext<T>(odd: (string, char) -> bool, items: seq<Slot<T>>, now: seq<Slot<T>>, used: string, i: nat)
    requires i < |items| && OptimizedUpTo(odd, items, now, used, i)
    ensures |now| == |items| && now[i] == items[i]
    ensures var next := Improve(odd, items[i], UsedAt(odd, items, used, i));
      && OptimizedUpTo(odd, items, now[i := next.0], used, i + 1)
      && UsedAt(odd, items, used, i + 1) == next.1
  {
    hide Improve;
  }

  lemma OptimizedAll<T>(odd: (string, char) -> bool, items: seq<Slot<T>>, now: seq<Slot<T>>, used: string)
    requires OptimizedUpTo(odd, items, now, used, |items|)
    ensures now == Optimize(odd, items, used)
  {
    hide Improve, UsedAt;
  }

  /** Item i got an accelerator in the pass. */
  predicate Changed<T>(odd: (string, char) -> bool, slots: seq<Slot<T>>, used: string, i: nat)
    requires i < |slots|
  {
    slots[i].Entry? && Place(odd, slots[i].text, UsedAt(odd, slots, used, i)) < |slots[i].text|
  }

  /** The letter item i got. */
  function Letter<T>(odd: (string, char) -> bool, slots: seq<Slot<T>>, used: string, i: nat): char
    requires i < |slots| && Changed(odd, slots, used, i)
  {
    Lower(slots[i].text[Place(odd, slots[i].text, UsedAt(odd, slots, used, i))])
  }

  /** The used letters only grow, and hold the letter of every earlier changed item. */
  lemma {:induction false} UsedGrows<T>(odd: (string, char) -> bool, slots: seq<Slot<T>>, used: string, i: nat, j: nat)
    requires i <= j <= |slots|
    ensures UsedAt(odd, slots, used, i) <= UsedAt(odd, slots, used, j)
    ensures i < j && Changed(odd, slots, used, i) ==>
      Letter(odd, slots, used, i) in UsedAt(odd, slots, used, j)
    ensures Plain(used) ==> Plain(UsedAt(odd, slots, used, j))
    decreases j
  {
    hide Place, Plain;
    if j == 0 {
    } else if i == j {
      UsedGrows(odd, slots, used, i - 1, j - 1);
      PlainStep(odd, slots[j - 1], UsedAt(odd, slots, used, j - 1));
    } else {
      UsedGrows(odd, slots, used, i, j - 1);
      assert UsedAt(odd, slots, used, j - 1) <= UsedAt(odd, slots, used, j);
      PlainStep(odd, slots[j - 1], UsedAt(odd, slots, used, j - 1));
    }
  }

  /** Used at an item are the recorded letters and those given to items before it, and no others. */
  lemma {:induction false} UsedSays<T>(odd: (string, char) -> bool, slots: seq<Slot<T>>, used: string, i: nat, c: char)
    requires i <= |slots|
    ensures c in UsedAt(odd, slots, used, i) <==>
      c in used || exists k :: 0 <= k < i && Changed(odd, slots, used, k) && Letter(odd, slots, used, k) == c
  {
    hide Place;
    if i > 0 {
      UsedSays(odd, slots, used, i - 1, c);
      var now, next := UsedAt(odd, slots, used, i - 1), UsedAt(odd, slots, used, i);
      assert c in next <==> c in now || (Changed(odd, slots, used, i - 1) && Letter(odd, slots, used, i - 1) == c);
    }
  }

  lemma PlainStep<T>(odd: (string, char) -> bool, slot: Slot<T>, used: string)
    ensures Plain(used) ==> Plain(Improve(odd, slot, used).1)
  {
  }

  /** A pass gives every changed item a letter that differs from all recorded ones and from those given before, as far
      as the class it is chosen with rejects used letters; without recorded accelerators that are special inside a
      class, every class of the pass does. */
  lemma LettersDistinct<T>(odd: (string, char) -> bool, slots: seq<Slot<T>>, used: string)
    ensures forall i :: 0 <= i < |slots| && Changed(odd, slots, used, i) ==>
      'a' <= Letter(odd, slots, used, i) <= 'z'
    ensures forall i :: 0 <= i < |slots| && Changed(odd, slots, used, i) ==>
      Rejecting(odd, UsedAt(odd, slots, used, i)) ==> Letter(odd, slots, used, i) !in used
    ensures forall i, j :: 0 <= i < j < |slots| && Changed(odd, slots, used, i) && Changed(odd, slots, used, j) ==>
      Rejecting(odd, UsedAt(odd, slots, used, j)) ==> Letter(odd, slots, used, i) != Letter(odd, slots, used, j)
    ensures Plain(used) ==> forall i :: 0 <= i < |slots| ==> Rejecting(odd, UsedAt(odd, slots, used, i))
  {
    hide Rejecting, Plain, Usable, UsedAt, GetAccel;
    forall i | 0 <= i < |slots| && Changed(odd, slots, used, i)
      ensures 'a' <= Letter(odd, slots, used, i) <= 'z'
      ensures Rejecting(odd, UsedAt(odd, slots, used, i)) ==>
        Letter(odd, slots, used, i) !in UsedAt(odd, slots, used, i) && Letter(odd, slots, used, i) !in used
    {
      UsedGrows(odd, slots, used, 0, i);
      UsedAtFirst(odd, slots, used);
      LetterChosen(odd, slots, used, i);
    }
    forall i, j | 0 <= i < j < |slots| && Changed(odd, slots, used, i) && Changed(odd, slots, used, j)
      ensures Rejecting(odd, UsedAt(odd, slots, used, j)) ==> Letter(odd, slots, used, i) != Letter(odd, slots, used, j)
    {
      UsedGrows(odd, slots, used, i, j);
      LetterChosen(odd, slots, used, j);
    }
    if Plain(used) {
      forall i | 0 <= i < |slots|
        ensures Rejecting(odd, UsedAt(odd, slots, used, i))
      {
        UsedGrows(odd, slots, used, 0, i);
        PlainClass(odd, UsedAt(odd, slots, used, i));
      }
    }
  }

  lemma UsedAtFirst<T>(odd: (string, char) -> bool, slots: seq<Slot<T>>, used: string)
    ensures UsedAt(odd, slots, used, 0) == used
  {
  }

  lemma LetterChosen<T>(odd: (string, char) -> bool, slots: seq<Slot<T>>, used: string, i: nat)
    requires i < |slots| && Changed(odd, slots, used, i)
    ensures 'a' <= Letter(odd, slots, used, i) <= 'z'
    ensures Rejecting(odd, UsedAt(odd, slots, used, i)) ==>
      Letter(odd, slots, used, i) !in UsedAt(odd, slots, used, i)
  {
    hide Usable, UsedAt, Plain;
  }

  /** For recorded accelerators of any kind: no caption gets a letter that is used exactly if the class rejects them. */
  lemma UnusedIffRejecting(odd: (string, char) -> bool, used: string)
    ensures Rejecting(odd, used) <==>
      forall text :: Place(odd, text, used) < |text| ==> Lower(text[Place(odd, text, used)]) !in used
  {
    hide Usable;
    if c :| IsLetter(c) && Usable(odd, used, c) && Lower(c) in used {
      hide Place;
      LoneLetter(odd, c, used);
      assert Place(odd, [c], used) < |[c]|;
    }
  }

  /** A caption of a single letter gets it exactly if the class accepts it. */
  lemma LoneLetter(odd: (string, char) -> bool, c: char, used: string)
    requires IsLetter(c)
    ensures GetAccel([c]) == NO_ACCEL && Place(odd, [c], used) == if Usable(odd, used, c) then 0 else 1
  {
    hide Find, Usable;
    assert '&' !in [c];
  }

  /** An item without accelerator is passed over exactly if the class rejects all its letters; where the class rejects
      and accepts as it should, that is exactly if all its letters are used at that point. */
  lemma SkippedOnlyWhenExhausted<T>(odd: (string, char) -> bool, slots: seq<Slot<T>>, used: string, i: nat)
    requires i < |slots| && slots[i].Entry? && GetAccel(slots[i].text) == NO_ACCEL
    ensures var text, now := slots[i].text, UsedAt(odd, slots, used, i);
      var exhausted := forall k :: 0 <= k < |text| && IsLetter(text[k]) ==> Lower(text[k]) in now;
      && (!Changed(odd, slots, used, i) <==>
            forall k :: 0 <= k < |text| && IsLetter(text[k]) ==> !Usable(odd, now, text[k]))
      && (Rejecting(odd, now) && exhausted ==> !Changed(odd, slots, used, i))
      && (Accepting(odd, now) && !Changed(odd, slots, used, i) ==> exhausted)
      && (Plain(used) ==> Rejecting(odd, now) && Accepting(odd, now))
  {
    hide GetAccel, Usable, UsedAt, Plain;
    UsedGrows(odd, slots, used, 0, i);
    if Plain(used) {
      PlainClass(odd, UsedAt(odd, slots, used, i));
    }
  }

  /** What the pass does to one item: nothing, or one '&' put in front of the chosen letter. */
  lemma PassEffect<T>(odd: (string, char) -> bool, slots: seq<Slot<T>>, used: string, i: nat)
    requires i < |slots|
    ensures var out := Optimize(odd, slots, used)[i];
      if !Changed(odd, slots, used, i) then out == slots[i]
      else
        var k := Place(odd, slots[i].text, UsedAt(odd, slots, used, i));
        && out.Entry? && out.target == slots[i].target && GetAccel(slots[i].text) == NO_ACCEL
        && out.text[k] == '&' && out.text[..k] + out.text[k + 1..] == slots[i].text
        && Lower(out.text[k + 1]) == Letter(odd, slots, used, i)
        && (GetAccel(out.text) == Letter(odd, slots, used, i) <==> '&' !in slots[i].text[..k])
  {
    if Changed(odd, slots, used, i) {
      var k := Place(odd, slots[i].text, UsedAt(odd, slots, used, i));
      MarkedAccel(slots[i].text, k);
    }
  }

  /** An accelerator put into a text that had none is the one found later, unless an earlier '&' hides it. */
  lemma MarkedAccel(text: string, k: nat)
    requires GetAccel(text) == NO_ACCEL && k < |text| && IsLetter(text[k])
    ensures GetAccel(Mark(text, k)) == Lower(text[k]) <==> '&' !in text[..k]
    ensures Mark(text, k)[k] == '&' && Mark(text, k)[k + 1] == text[k]
    ensures Mark(text, k)[..k] + Mark(text, k)[k + 1..] == text
  {
    hide Find;
    var marked, q := Mark(text, k), Find(text, '&');
    assert marked[..k] == text[..k];
    if '&' in text[..k] {
      FindsFirst(text, '&', k);
      assert marked[..q] == text[..q];
      FindsAt(marked, '&', q);
    } else {
      FindsAt(marked, '&', k);
    }
  }

  lemma FindsAt(s: string, c: char, p: nat)
    requires p < |s| && s[p] == c && c !in s[..p]
    ensures Find(s, c) == p
  {
    IndexOfIs(s, c, p);
  }

  lemma FindsFirst(s: string, c: char, k: nat)
    requires k <= |s| && c in s[..k]
    ensures 0 <= Find(s, c) < k
  {
    hide Find;
    var i :| 0 <= i < k && s[..k][i] == c;
    assert s[i] == c;
  }

  /** A text where an earlier '&' before a character outside Latin-1 hides the inserted one. */
  lemma HiddenAccelerator(odd: (string, char) -> bool)
    ensures var text := "&\U{0436}ab";
      && GetAccel(text) == NO_ACCEL
      && Place(odd, text, "") == 2
      && GetAccel(Mark(text, 2)) == NO_ACCEL
  {
  }

  /** A letter stands behind an '&' and has not come before: what can be seen of a caption whose letter may be
      hidden. */
  ghost predicate LetterBehindMark(text: string, j: nat) {
    && j < |text| && IsLetter(text[j]) && '&' in text[..j]
    && forall i :: 0 <= i < j && IsLetter(text[i]) ==> Lower(text[i]) != Lower(text[j])
  }

  /** The letter put into a caption is not the accelerator read from it afterwards. */
  ghost predicate HiddenFor(odd: (string, char) -> bool, text: string, used: string) {
    var k := Place(odd, text, used);
    k < |text| && GetAccel(Mark(text, k)) != Lower(text[k])
  }

  predicate AllLower(letters: string) {
    forall k :: 0 <= k < |letters| ==> 'a' <= letters[k] <= 'z'
  }

  /** The letters of a text in lower case. */
  function LowerLetters(text: string): (r: string)
    ensures AllLower(r)
    ensures forall c :: c in r <==> exists i :: 0 <= i < |text| && IsLetter(text[i]) && Lower(text[i]) == c
  {
    if text == [] then []
    else
      var last := text[|text| - 1];
      LowerLetters(text[..|text| - 1]) + if IsLetter(last) then [Lower(last)] else []
  }

  /** Exactly which captions without accelerator can get a letter that is not read back, for some accelerators recorded
      before: those with a letter behind an '&' that has not come before. */
  lemma HiddenIff(odd: (string, char) -> bool, text: string)
    requires GetAccel(text) == NO_ACCEL
    ensures (exists used :: Plain(used) && HiddenFor(odd, text, used))
      <==> exists j: nat :: LetterBehindMark(text, j)
  {
    hide GetAccel, Mark, Plain, Usable;
    if used :| Plain(used) && HiddenFor(odd, text, used) {
      var k := Place(odd, text, used);
      MarkedAccel(text, k);
      PlainClass(odd, used);
      assert LetterBehindMark(text, k);
    }
    if j: nat :| LetterBehindMark(text, j) {
      var used := LowerLetters(text[..j]);
      BehindMarkChosen(odd, text, j, used);
      MarkedAccel(text, j);
      assert HiddenFor(odd, text, used);
    }
  }

  lemma BehindMarkChosen(odd: (string, char) -> bool, text: string, j: nat, used: string)
    requires GetAccel(text) == NO_ACCEL && LetterBehindMark(text, j)
    requires forall c :: c in used <==> c in LowerLetters(text[..j])
    ensures Plain(used) && Place(odd, text, used) == j
  {
    hide GetAccel;
    var front := text[..j];
    forall i | 0 <= i < j && IsLetter(text[i])
      ensures Lower(text[i]) in used
    {
      assert front[i] == text[i];
    }
    FirstUsableIs(odd, text, used, j);
  }

  /** What adding a command item records for its menu. */
  function Record(used: string, accel: char): (r: string)
    ensures forall c :: c in r <==> c in used || (c == accel && c != '\0')
    ensures accel in used ==> r == used
  {
    if accel == NO_ACCEL || accel in used then used else used + [accel]
  }
}
