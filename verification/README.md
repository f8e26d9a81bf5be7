# Verification of the PDFedit GUI logic

PDFedit's graphical half hides a number of algorithms and state machines behind its widgets. This project models
them in Dafny 4.11 and proves what they promise. `dafny verify dfyconfig.toml` checks all of it.

| file | what it models |
|---|---|
| `MenuGraph.dfy` | the menu configuration as a graph of names: walks, reachability, reference counts |
| `MenuGenerator.dfy` | the menu checker, a reference-counting traversal of that graph |
| `MenuLoader.dfy` | the menu loader, which unfolds the graph into menu objects and rejects cycles |
| `MenuLaws.dfy` | loaded menus, their errors and captions, said of the configuration |
| `MenuAgreement.dfy` | the checker and the loader on the same configuration |
| `Accelerators.dfy` | reading accelerators and filling in the missing ones |
| `MergeDialog.dfy`, `MergeResult.dfy` | the two lists of the merge dialog and the encoding of its outcome |
| `History.dfy` | the command history file: printer, line parser, round trip |
| `HistoryLaws.dfy` | history files not written by the program, or not to their end |
| `HitCycle.dfy` | cycling through the operators under the mouse |
| `ViewGeometry.dfy` | regions, bounding rectangles and resizing zones |
| `PageViewSpec.dfy` | what each mouse and selection event does to a page view, and what runs of them report |
| `PageViewLaws.dfy` | the same events, said of points, operators and coordinates |
| `PageViewMode.dfy` | the page view itself, with its fields and handlers, refining that |
| `Args.dfy` | the command line parser |
| `ArgsLaws.dfy` | what a command line comes to, argument by argument |
| `WrapperRegistry.dfy` | the registry of script wrappers around tree items |
| `MultiTree.dfy` | the tree window with its tabs |
| `Matrices.dfy` | transformation matrices in exact arithmetic |
| `PathLookup.dfy` | path lookup through references |
| `PathLaws.dfy` | what a path finds in dictionaries and arrays, and behind references |
| `Helpers.dfy` | optional values, results, first positions and facts about concatenation |

Code that changes things step by step is a class or a method with the source's own loops, proved against
specification functions; laws about those functions are lemmas. Whole runs are methods that dispatch any sequence of
operations (`Run`, `Drag`, `ClickRepeatedly`, `NextSession`).

## What the proofs show about the code

- The checker treats every name that begins with `_` as special, so such a configured name is always reported
  unreachable, also where a reachable list names it (`SpecialNames`, `FaultIff`).
- The loader notices a cycle through the root although it never records the root as an ancestor: one turn later.
- A letter put in as accelerator can be hidden by an earlier `&` in front of a character outside Latin-1
  (`HiddenAccelerator`), in exactly the captions that have a letter behind an `&` which has not come before
  (`HiddenInMenuIff`), and can repeat the letter of a submenu caption: exactly commands are safe from that
  (`SafeIffCommand`).
- Of a history item newlines at the start go, then one space at the end, then one newline at the end (`RestoreSays`).
  Items survive exactly if they are empty, or start with no newline and end in neither newline nor space; the
  others get shorter with every session until they do (`Settles`).
- A comment in the option setup forbids one option to begin another, but `-s` begins `-script`, so a file joined to
  `-script` is given to `-s` (`ScriptCannotBeJoined`).
- The cleanup empties the wrapper registry before it destroys the wrappers, so the checks of a wrapper that is still
  enabled then fail (`Cleanup`).
- The matrix quotient solves required * old = new; its comment has the factors the other way round, which holds exactly
  for matrices that commute (`OtherOrderIff`). The comment says that nothing is returned if no solution exists; nothing
  is returned for any singular old matrix, also where there is one, which the numerators tell (`SingularSolvableIff`).
- The deltas of a resize are right for every non-empty bounding rectangle, also one a single pixel wide or high, where
  corners coincide.
- A path is not always the lookup of its second part in what the first part leads to: exactly a first part that ends in
  a slash adds an empty component (`SplitsIff`), and for the same reason a second slash at the end is not ignored as
  the first one is (`TrailingSlash`).
- Clearing the work operators is the one change of an area that leaves a move or resize under way
  (`OnlyClearWorkLeavesDrags`).
- The base mode calls its release script with the positions that the last resize left, or with zeros, as it never
  records where an ordinary press or release was: the first click of a view is told as zeros wherever it is
  (`FirstClickInBaseMode`), and `ScriptBeforeResizes` and `ScriptAfterResize` say exactly which presses and releases
  are told as they are.
- A menu can pass the checker and not load, as one that names itself does (`CyclePasses`); `LoadsIffPasses` says exactly
  what else it needs. Every menu that loads passes (`LoadsSoPasses`).

## Model

| member | source | states |
|---|---|---|
| MenuGenerator.Generator.SetAvail | src/gui/menugenerator.cc:76-106 | One visit of the reference-counting traversal, cyclic graphs included: every name gains exactly one reference for this visit plus its occurrences in the child lists of the names newly read; each of those is sound, reachable from this one, and has all its children counted; failure happens only if a reachable definition is invalid |
| MenuGenerator.Generator.Check | src/gui/menugenerator.cc:112-137 | The whole check succeeds exactly if no reachable definition is invalid; it then has read each reachable ordinary name exactly once, and reports for every configured name its occurrences among the roots and in the child lists of reachable lists; a name is reported unreachable exactly if no path from a root leads to it, or its name is one the checker never looks up |
| MenuGenerator.FaultIff | src/gui/menugenerator.cc:76-106 | There is a fault exactly if the checker gets to a name other than the empty one, - and those that begin with _ which is not configured, or malformed, or an item without a field |
| MenuGenerator.NoFaultOfItsOwn | src/gui/menugenerator.cc:82-103 | A configured list or label is never a fault of its own, wherever it is reached, nor is an item with a field |
| MenuGenerator.ToolbarWithLabel | src/gui/menugenerator.cc:96-98 | A configuration with a label and a built-in tool in a toolbar, as in the settings the program comes with, has no fault |
| MenuGenerator.EdgesChecked | src/gui/menugenerator.cc:76-95 | The checker goes from a configured list that it looks up to the children in its definition, and from nothing else |
| MenuGenerator.LinesRecorded | src/gui/menugenerator.cc:82-103 | The caption of a list that is not special, the caption of an item and the text of a label are recorded with the name they belong to, and nothing else is |
| MenuGenerator.LinesInOrder | src/gui/menugenerator.cc:82-103 | One line at most is recorded for each name read, in the order in which the names were read |
| MenuGenerator.RefCountPlaces | src/gui/menugenerator.cc:76-125 | The count of a name is the number of places where it stands: among the roots, and in the child lists of the names read |
| MenuGenerator.RefCountIsUnique | src/gui/menugenerator.cc:76-106 | The promised counts do not depend on the order in which the graph is walked |
| MenuGenerator.RefCountZero | src/gui/menugenerator.cc:131-133 | A count is zero exactly if no path from a root leads to the name |
| MenuGenerator.ExploredIsComplete | src/gui/menugenerator.cc:76-125 | When the traversal of all roots is finished, the names read are exactly the reachable ordinary ones and all of them are sound |
| MenuLoader.LoadsIffAcyclic | src/gui/menu.cc:234-291 | Loading a menu bar terminates on every configuration and succeeds exactly if the root is a list, every name it reaches is a separator or acceptable, and no walk from the root meets a name twice, although the root itself is never put among the names checked for cycles |
| MenuLoader.LoadedIsUnfolding | src/gui/menu.cc:151-159 | What is built is exactly the unfolding of the configuration graph: same order, same nesting, same actions, captions with at most one & put in |
| MenuLaws.EdgesLoaded | src/gui/menu.cc:117-135 | The loader goes from a configured list to the children in its definition and to those that users have added to it |
| MenuLaws.LoadsIff | src/gui/menu.cc:234-291 | Loading succeeds exactly if the root is a configured list, every name reached is a separator, a configured list or an item with a field, and no walk meets a name twice |
| MenuLaws.ErrorSays | src/gui/menu.cc:234-291 | The error says why: it holds a walk from an entry of the menu bar that ends in a name met before, or a name reached by a walk that cannot be loaded; or the root if that is no list |
| MenuLaws.LoadedIsFilled | src/gui/menu.cc:151-199 | In a loaded menu bar and in every menu below it, at any depth, each entry carries its configured caption as the accelerator pass leaves it, where the accelerators of the commands of that menu are used from the start |
| MenuLaws.TextSays | src/gui/menu.cc:170-197 | The pass leaves a caption alone if it has an accelerator or the class rejects all its letters, and else puts the & in front of the first letter that the class accepts |
| MenuLoader.GoodWalk | src/gui/menu.cc:250-256 | A name that loads below given ancestors starts only walks that avoid the ancestors, never repeat a name and end in acceptable ones |
| MenuLoader.BadWalk | src/gui/menu.cc:250-256 | A name that fails to load has a walk from it that repeats a name or ends in an unacceptable one |
| MenuAgreement.LoadsSoPasses | src/gui/menu.cc:234-291 | A menu that loads has no fault for the checker, so that only the toolbars can still make the whole check fail |
| MenuAgreement.LoadsIffPasses | src/gui/menugenerator.cc:76-125 | A menu without fault for the checker loads exactly if its root is a list, no cycle and no label is reached, and what the checker overlooks, names that begin with _ and what only they or added entries lead to, is acceptable |
| MenuAgreement.CyclePasses | src/gui/menugenerator.cc:76-125 | A main menu that names itself passes the check and does not load |
| MenuLoader.Loader.LoadItem | src/gui/menu.cc:250-291 | Building on menu objects: fails exactly when the unfolding does and with the same error, else appends exactly the unfolded entry to the parent, records its accelerator and leaves every other menu alone |
| MenuLoader.Loader.LoadItemsDef | src/gui/menu.cc:151-159 | Fills a menu with the unfolded entries in order and then applies the accelerator pass to all of it |
| MenuLoader.Loader.LoadItems | src/gui/menu.cc:234-242 | The menu bar object shows exactly the unfolding of the root, or the same error is raised |
| MenuLoader.Loader.OptimizeItems | src/gui/menu.cc:165-199 | The pass over the menu object, with its filtered text and its two searches, changes this menu as the specified pass does and no other one |
| MenuLoader.Loader.AddItem | src/gui/menu.cc:379-447 | A command definition needs two fields; the command goes to the end of its menu and its accelerator is recorded once |
| MenuLoader.FilledLettersAvoidCommands | src/gui/menu.cc:165-199 | A filled-in letter differs from the accelerators of all command captions of its menu wherever the character class built from the used letters rejects them, and it does unless a command has the accelerator ], \ or - |
| MenuLoader.SubmenuLetterRepeats | src/gui/menu.cc:269-279 | Whatever the caption of a submenu, if its accelerator is a letter there is a menu in which a filled-in letter repeats it: accelerators of submenus are never recorded |
| MenuLoader.SafeIffCommand | src/gui/menu.cc:165-199 | Over all menus in which the class built from the used letters rejects them: exactly the commands, and the entries whose accelerator is no letter, keep their accelerator to themselves |
| Accelerators.LettersDistinct | src/gui/menu.cc:165-199 | In one pass the letters given out are letters, and each differs from all recorded ones and from those given before wherever the class it is chosen with rejects used letters, as all classes of the pass do unless a recorded accelerator is special inside a class |
| Accelerators.UnusedIffRejecting | src/gui/menu.cc:179-188 | Whatever is recorded, no caption gets a used letter exactly if the class built from the recorded ones rejects them |
| Accelerators.SkippedOnlyWhenExhausted | src/gui/menu.cc:179-186 | An item without accelerator is passed over exactly if the class rejects all its letters, that is, exactly if all of them are used wherever the class rejects used letters and accepts the others, as it does unless a recorded accelerator is special inside a class |
| Accelerators.PassEffect | src/gui/menu.cc:187-197 | An item is left alone or gets one & in front of the chosen letter; taking that & out restores the text; the letter is the accelerator read back exactly if the text before it holds no other & |
| Accelerators.HiddenAccelerator | src/gui/menu.cc:298-302 | A text in which an earlier & before a character outside Latin-1 hides the inserted one, so that the chosen letter is not the accelerator |
| Accelerators.HiddenIff | src/gui/menu.cc:176-197 | A caption without accelerator can get a letter that is not the accelerator read back, for some letters used before, exactly if one of its letters stands behind an & and has not come before it |
| MenuLoader.HiddenInMenuIff | src/gui/menu.cc:165-199 | The same condition is exact for whole menus: with it there is a menu whose commands make the letter put into the caption unreadable, without it there is none |
| Accelerators.TwoSearches | src/gui/menu.cc:176-190 | Choosing a letter in the filtered text and searching it in the full one finds the first usable letter of the full text |
| Accelerators.AccelBehindMark | src/gui/menu.cc:298-302 | The accelerator of a caption is whatever stands behind its first &, letters in lower case, digits and signs as they are; a character outside Latin-1 is none |
| Accelerators.NoAccel | src/gui/menu.cc:298-302 | A caption without &, or with the only one at its end, has no accelerator |
| Accelerators.CharsSay | src/gui/menu.cc:176-180 | Letters are those of the alphabet in either case; folding changes upper-case ones only, to the lower-case letter 32 places on |
| Accelerators.UsedSays | src/gui/menu.cc:165-199 | Used at an item are exactly the accelerators recorded before the pass and the letters given out to the items in front of it |
| Accelerators.PlainSays | src/gui/menu.cc:179-182 | The class built from the used characters is read as meant unless there is ], \ or - or an upper-case letter among them |
| MergeDialog.Dialog.AddBtnClicked | src/gui/mergeform.cc:159-215 | The downward loop over the shrinking file list moves exactly the pages selected at entry, once each, as one block in front of the current item; the other file pages stay in order; the first of the pages moved becomes current, and the file page that comes to its place, or the last one, is selected next |
| MergeDialog.Dialog.MoveToMergeList | src/gui/mergeform.cc:164-191 | One page leaves the file list and enters the merge list in front of the current item, or first if there is none; the current item keeps being current |
| MergeDialog.Dialog.RemoveBtnClicked | src/gui/mergeform.cc:218-260 | The current page leaves the merge list and enters the file list at the place that keeps it increasing |
| MergeDialog.Dialog.UpBtnClicked | src/gui/mergeform.cc:266-277 | The current page is exchanged with the entry before it, if there is one |
| MergeDialog.Dialog.DownBtnClicked | src/gui/mergeform.cc:280-288 | The current page is exchanged with the entry after it, unless that is the END marker |
| MergeDialog.Dialog.Run | src/gui/mergeform.cc:120-288 | Every run of selections and buttons keeps the original pages in order with END last, the page count, the increasing file list, and each page in one of the lists |
| MergeDialog.EachPageOnce | src/gui/mergeform.cc:159-263 | Each file page is in exactly one of the two lists, exactly once |
| MergeDialog.NothingAdded | src/gui/mergeform.cc:233-253 | Whenever no file page is left in the merge list, both lists are what they were at the start |
| MergeDialog.KeepSays | src/gui/mergeform.cc:159-215 | The pages moved, and those that stay, are exactly the ones selected, and not selected, in their order in the file list |
| MergeDialog.OriginalsSay | src/gui/mergeform.cc:280-363 | What every run keeps is exactly the original pages of the merge list, in their order in it |
| MergeDialog.TakeSays | src/gui/mergeform.cc:218-260 | Taking out one entry leaves those before it where they are and moves those behind it up by one |
| MergeDialog.EndOnlyLast | src/gui/mergeform.cc:354-363 | The END marker is at the end of the merge list and nowhere else |
| MergeResult.GetResult | src/gui/mergeform.cc:322-348 | The two arrays hold, for every file page of the merge list in order, its number and the number of the original page it stands in front of |
| MergeResult.ResultRebuildsList | src/gui/mergeform.cc:322-348 | Inserting each page of the result, in order, in front of the original page at its position rebuilds exactly the merge list |
| MergeResult.PositionsInOrder | src/gui/mergeform.cc:326-341 | Positions never decrease and lie between 1 and the number of original pages plus one |
| History.LoadsWhatWasSaved | src/gui/commandwindow.cc:246-301 | A saved file splits into exactly the saved items, even where lines inside them end with the separator, each coming back as its own text determines |
| History.RestoreExact | src/gui/commandwindow.cc:255-275 | An item comes back unchanged exactly if it is empty, or starts with no newline and ends with neither newline nor space; any other comes back strictly shorter |
| History.RestoreSays | src/gui/commandwindow.cc:255-275 | What comes back of any item: newlines at its start go, then one space at its end, then one newline at its end |
| History.StrayEndsGo | src/gui/commandwindow.cc:255-275 | A stable text comes back also with a newline, a space or both behind it and any number of newlines in front |
| HistoryLaws.LoadsUnfinished | src/gui/commandwindow.cc:254-275 | A file that breaks off inside its last item loads the items before it as ever and what was written of the last one |
| HistoryLaws.CollectUnescaped | src/gui/commandwindow.cc:255-275 | An item written without spaces in front of its newlines is read just as if it had them, unless a line of it ends in a space or the separator |
| History.SplitsExactly | src/gui/commandwindow.cc:246-301 | The round trip splits correctly for all items exactly if the separator is not empty, has no newline and does not end in a space |
| History.CollectPrinted | src/gui/commandwindow.cc:255-275 | The line parser, started anywhere inside a printed item, reads the rest of that item and stops right behind it |
| History.CommandHistory.LoadHistory | src/gui/commandwindow.cc:246-284 | Of a saved file exactly the trimmed items are loaded, one for each saved one; the list starts with the empty command, put first only if it is not there; any other text loads as the specified parse says |
| History.CommandHistory.ReadItem | src/gui/commandwindow.cc:255-275 | The inner loop reads lines up to one that ends with the separator or the end of the stream; of a printed item it reads the trimmed text and stops right behind it |
| History.CommandHistory.SaveHistory | src/gui/commandwindow.cc:286-301 | The writing loop prints every item with its newlines escaped, the separator and a newline |
| History.CommandHistory.Execute | src/gui/commandwindow.cc:314-326 | A new command goes right behind the first entry |
| History.NextSession | src/gui/commandwindow.cc:246-301 | Saving and loading in the next session gives as many items as before, each trimmed, unchanged exactly where the text is stable |
| History.Sessions | src/gui/commandwindow.cc:246-301 | After any number of sessions each item is what as many single restorations make of it, and stable once there were as many sessions as it has characters |
| History.Settles | src/gui/commandwindow.cc:246-301 | Every item is stable after as many sessions as it has characters, and never changes again |
| HitCycle.FindPrevOperator | src/gui/pageviewmode.cc:1197-1229 | The backward search with wrap-around succeeds exactly if some operator contains the point; the iterator ends at the cyclically previous one, or where the search gave up |
| HitCycle.EachVisitedOnce | src/gui/pageviewmode.cc:1197-1229 | With m operators under the point, any m successive calls visit each of them, and no two calls among them the same one |
| HitCycle.StepsRank | src/gui/pageviewmode.cc:1197-1229 | Successive calls go down through the operators under the point and around from the lowest to the topmost |
| HitCycle.FirstIsTopmost | src/gui/pageviewmode.cc:1220-1227 | A search begun at the end finds the topmost operator |
| ViewGeometry.ModeByZones | src/gui/pageviewmode.cc:748-820 | For every non-empty region, one pixel wide or high included: a side follows the mouse exactly if the point is in its zone; the selection is moved exactly if the point is in no zone and on the region |
| ViewGeometry.ModeShape | src/gui/pageviewmode.cc:806-818 | The mode never names two opposite sides, except all four together |
| ViewGeometry.ZonesApart | src/gui/pageviewmode.cc:765-780 | The two edge zones of an axis never overlap, whatever zone width is set, so the order in which they are asked does not matter |
| ViewGeometry.BoundsShift | src/gui/pageviewmode.cc:261-267 | A displaced region has the displaced bounding rectangle |
| ViewGeometry.BoundsLeast | src/gui/pageviewmode.cc:755 | The bounding rectangle is the least one holding the region: a rectangle encloses it exactly if it holds every point |
| ViewGeometry.ShapeKept | src/gui/pageviewmode.cc:266-267 | A displaced region is the same set of points, displaced |
| PageViewMode.DeltasAreRight | src/gui/pageviewmode.cc:344-387 | Whichever corner is recognised, also where corners coincide, the four deltas are the distances of the sides of the mode and zero for all others |
| PageViewMode.PageView.BeginPress | src/gui/pageviewmode.cc:400-417 | A press begins a move, a resize or neither, as the zones of the selection say |
| PageViewMode.PageView.MousePress | src/gui/pageviewmode.cc:389-427 | A press while the button is down changes nothing; any other one begins what the zones of the selection say, as the specified press does |
| PageViewMode.PageView.MouseMove | src/gui/pageviewmode.cc:475-489 | During a move the region is displaced by exactly the way of the mouse since the press, during a resize the corner follows; the selection and the commands stay |
| PageViewMode.PageView.MouseRelease | src/gui/pageviewmode.cc:428-463 | A release ends whatever the press began, as the specified release does: a move, a resize, or what is left to the mode |
| PageViewMode.PageView.EndMove | src/gui/pageviewmode.cc:1268-1285 | A move that has not moved the region is a click in the selecting mode, any other one is reported |
| PageViewMode.PageView.EndResize | src/gui/pageviewmode.cc:1294-1310 | A resize released at its press is a click in the selecting mode, any other one is reported |
| PageViewMode.PageView.MoveSelectedObjects | src/gui/pageviewmode.cc:240-272 | The first call takes the region along, later ones bring it to the mouse |
| PageViewMode.PageView.MovedSelectedObjects | src/gui/pageviewmode.cc:273-287 | The end of a move reports release minus press, and nothing if that is zero |
| PageViewMode.PageView.ResizeSelectedObjects | src/gui/pageviewmode.cc:288-343 | The first call anchors the sides that stay and marks the corner that follows; later ones move that corner along the axes of the mode only |
| PageViewMode.PageView.ResizedSelectedObjects | src/gui/pageviewmode.cc:344-388 | The end of a resize reports the four deltas for the selection of the press |
| PageViewMode.PageView.SetSelectedRegion | src/gui/pageviewmode.cc:664-670 | The base mode takes the region; the selecting mode selects, in order, the operators inside it; a drag under way ends |
| PageViewMode.PageView.ActualizeSelection | src/gui/pageviewmode.cc:617-641 | The selection keeps, in order, exactly the operators still among the work operators, the area becomes the union of their boxes, and a drag under way ends |
| PageViewMode.PageView.AddSelectedOperators | src/gui/pageviewmode.cc:605-615 | Operators and their boxes are added, and a drag under way ends |
| PageViewMode.PageView.SelectPrevious | src/gui/pageviewmode.cc:1271-1281 | A click on the selection selects the next operator below where the last search ended, and the next search begins where this one ends |
| PageViewMode.PageView.MouseReleaseLeftButton | src/gui/pageviewmode.cc:1239-1267 | A release elsewhere selects the operators inside the rectangle dragged out, in the order of the page, or the topmost operator clicked, and calls the release script |
| PageViewMode.PageView.KeyRelease | src/gui/pageviewmode.cc:526-547 | Escape gives up a press, or else the selection; Delete gives up a press |
| PageViewMode.FindOperators | src/gui/pageviewmode.cc:1184-1195 | The loop finds exactly the operators whose boxes lie inside the region, each place once and in the order of the page |
| PageViewMode.KeepPresent | src/gui/pageviewmode.cc:626-634 | The nested loops keep exactly the selected operators that are among the work operators, in the order of the selection |
| PageViewSpec.CoveredByRect | src/gui/pageviewmode.cc:1188-1193 | Against a rectangle, lying inside is a matter of the four sides |
| PageViewSpec.AreaIsUnion | src/gui/pageviewmode.cc:650-659 | The area kept for some operators is the union of their boxes |
| PageViewSpec.InsideInOrder | src/gui/pageviewmode.cc:1184-1195 | The operators inside a region stand at strictly increasing places of the page, and every place whose box is covered is among those |
| PageViewSpec.StillThereInOrder | src/gui/pageviewmode.cc:626-634 | The operators kept stand at strictly increasing places of the selection, and every place whose operator is still there is among those |
| PageViewLaws.ClickSays | src/gui/pageviewmode.cc:1197-1229 | A click selects alone the highest operator under it below the last one, or the highest of all if there is none below, and the next search goes on from it; where no operator is, it selects nothing |
| PageViewLaws.DisplacementSays | src/gui/pageviewmode.cc:273-287 | The displacement reported leads from the press to the release |
| PageViewLaws.DeltasSay | src/gui/pageviewmode.cc:344-388 | The distances reported lead from the sides of the mode to the release and are zero for all others |
| PageViewLaws.PressByZones | src/gui/pageviewmode.cc:400-417 | A press begins nothing outside the bounding rectangle, a resize of the sides whose zones it is in, or else a move exactly if it is on the region |
| PageViewLaws.PressSays | src/gui/pageviewmode.cc:389-427 | A press changes nothing while the button is down; else it keeps the corner opposite to the sides that follow and leads the other one, or begins a rectangle, and changes nothing but that |
| PageViewLaws.MoveSays | src/gui/pageviewmode.cc:475-489 | A mouse move leads the corner of a resize along the axes of its sides, or the end of a rectangle in the selecting mode, and changes nothing else |
| PageViewLaws.SearchAfterRelease | src/gui/pageviewmode.cc:1239-1310 | Where the next search for an operator begins after every kind of release |
| PageViewLaws.RectangleSays | src/gui/pageviewmode.cc:1249-1260 | A rectangle dragged out selects, in the order of the page, the operators it encloses, edges included, and the area becomes the union of their boxes |
| PageViewLaws.OtherEventKeeps | src/gui/pageviewmode.cc:526-670 | Events other than those of the mouse touch neither reports nor positions; loading and clearing set the operators and where the next search begins; all but clearing them end a drag |
| PageViewLaws.OtherEventSelects | src/gui/pageviewmode.cc:526-670 | What is selected after each of those events, the order of the operators included |
| PageViewLaws.OtherEventArea | src/gui/pageviewmode.cc:526-670 | The area after each of those events, point by point: the union of the boxes selected, the old one enlarged by the boxes added, the region set, or the old one |
| PageViewMode.Drag | src/gui/pageviewmode.cc:240-490 | A whole drag in every case of either mode, whatever the path: a move reports release minus press, a resize the distances of the sides of the zone at the press, a click moves the selection on; a drag elsewhere selects what is inside its rectangle in the selecting mode and nothing in the base mode; the release script is called exactly where neither was begun |
| PageViewMode.ClickRepeatedly | src/gui/pageviewmode.h:935-937 | Clicking k times at one point selects the operator k steps down the circle of operators under it, beginning with the topmost |
| PageViewMode.Handle | src/gui/pageviewmode.cc:571-670 | Each event changes the view as its specified step does; of all events but presses and mouse moves, exactly the clearing of the work operators leaves a move or resize under way |
| PageViewMode.Run | src/gui/pageviewmode.cc:389-670 | Over every run of events in either mode: the view is in the state the events determine, its commands answer presses among the events, each a press of its own, and are no more than those; the areas kept are those of the operators |
| PageViewSpec.CommandsAnswered | src/gui/pageviewmode.cc:389-463 | In every run each command belongs to two events, a press and a release after it, and all of that comes before the press of the next command; a move carries their distance, a resize the distances of the sides from the release in the area at the press, with no key and no change of the selection in between; a script call has a press outside the zones of the selection |
| PageViewSpec.DragIsReported | src/gui/pageviewmode.cc:240-463 | Conversely, every press that begins a move or resize is answered by the next release as that press and release say, or is a click, if nothing in between ends the drag |
| PageViewSpec.ElsewhereIsReported | src/gui/pageviewmode.cc:1232-1267 | Every press that begins neither is answered by the next release unless a key gives it up, whatever is selected or loaded in between |
| PageViewSpec.AtMostOnePerPress | src/gui/pageviewmode.cc:389-463 | In every run there are no more commands than presses, one less while the button is held |
| PageViewSpec.OnlyClearWorkLeavesDrags | src/gui/pageviewmode.cc:571-670 | Every change of the selection or of the areas ends a move or resize under way, except clearing the work operators |
| PageViewSpec.AreaOfSelection | src/gui/pageviewmode.cc:589-670 | In the selecting mode the area kept is the area of the selected operators after every run |
| PageViewSpec.PositionsOfStart | src/gui/pageviewmode.cc:214-238 | In every run of the base mode in which no press has begun a resize, the two positions are still zero |
| PageViewSpec.PositionsOfLastResize | src/gui/pageviewmode.cc:288-388 | In every run of the base mode the two positions are the corner that stayed in the last resize begun and the place where it left the other one |
| PageViewSpec.ScriptBeforeResizes | src/gui/pageviewmode.cc:216-226 | As long as no resize was begun, the release script of the base mode is told zeros, so it is told an ordinary press and its release exactly if both are zero |
| PageViewSpec.ScriptAfterResize | src/gui/pageviewmode.cc:216-226 | Afterwards it is told what the last resize left, so it is told an ordinary press and its release exactly if these are the corner that stayed and the place the other one was led to |
| PageViewSpec.FirstClickInBaseMode | src/gui/pageviewmode.cc:216-226 | The first press and release of a view in the base mode, wherever they are, are told to the script as zeros |
| Args.ParseAfterRender | src/gui/args.cc:154-234 | A command line written from flags, values in the next argument, joined values and positionals parses to the same parts exactly if each is readable where it stands |
| Args.RenderAfterParse | src/gui/args.cc:195-234 | For every command line that parses, the parts written out again are the command line: each argument is consumed exactly once |
| Args.PartReadBack | src/gui/args.cc:154-180 | One part is read back as itself exactly if it is readable, whatever arguments follow |
| Args.JoinedInPrefixFree | src/gui/args.cc:167-179 | Where no valued option begins another, a joined value only has to be non-empty and not complete the name of an option |
| Args.ScriptCannotBeJoined | src/gui/main.cc:225-240 | In the table of the program -s begins -script, so a file joined to -script always goes to -s |
| Args.Parser.HandleParams | src/gui/args.cc:214-234 | The loop over argIndex, which handlers advance too, makes the calls and returns the positionals of the specified parse, or its error |
| Args.Parser.HandleOption | src/gui/args.cc:154-180 | Handles the option at argIndex as specified and leaves argIndex at the last argument the option took |
| Args.Parser.NextParam | src/gui/args.cc:195-204 | Moves the loop on by one argument, or fails at the end of the line |
| ArgsLaws.StopSays | src/gui/args.cc:116-118 | An option that ends the options, whatever follows it: its handler is called and all the rest are positionals, options or not |
| ArgsLaws.FlagSays | src/gui/args.cc:154-165 | Any other option without value calls its handler by its name, and options go on behind it |
| ArgsLaws.NextValueSays | src/gui/args.cc:154-165 | An option with a value calls its handler with the next argument, whatever that looks like, and options go on behind it |
| ArgsLaws.JoinedValueSays | src/gui/args.cc:167-179 | A value joined to an option, the shortest name that fits, is what the handler of that option gets, and options go on behind it |
| ArgsLaws.PositionalSays | src/gui/args.cc:221-229 | An argument that does not begin with - is a positional, and options go on behind it |
| ArgsLaws.MissingSays | src/gui/args.cc:195-204 | An option that needs a value, at the end of the line, is an error that names it |
| ArgsLaws.UnknownSays | src/gui/args.cc:167-180 | An option that is not registered and that no registered one with a value begins is an error that names it |
| ArgsLaws.EveryArgument | src/gui/args.cc:154-180 | These are all the ways in which an argument can be read |
| ArgsLaws.ProgramSays | src/gui/main.cc:225-240 | What each option of the program calls: help, version and console without value, the others with the next argument, and -- ends the options |
| ArgsLaws.NoArguments | src/gui/args.cc:214-234 | An empty command line makes no calls and has no positionals |
| ArgsLaws.HandleLine | src/gui/args.cc:214-234 | The parser on a whole command line, the name of the program first, makes exactly these calls and returns exactly these positionals |
| WrapperRegistry.Registry.CreateWrapper | src/gui/basecore.cc:409-428 | A new wrapper is entered under its item and nothing else changes |
| WrapperRegistry.Registry.DestroyWrapper | src/gui/qstreeitem.cc:255-260 | Before the cleanup the checks that a wrapper is listed never fail, and the registry keeps holding exactly the enabled wrappers |
| WrapperRegistry.Registry.RemoveTreeItemFromList | src/gui/basecore.cc:434-453 | The checks pass exactly if the wrapper is listed under its item; it is taken out, with the item if it was the last one |
| WrapperRegistry.Registry.TreeItemDeleted | src/gui/basegui.cc:266-290 | Exactly the wrappers of the deleted item are disabled and forgotten |
| WrapperRegistry.Registry.Cleanup | src/gui/basecore.cc:456-473 | The registry is emptied before the wrappers are destroyed, so their checks pass exactly if none of them is still enabled |
| WrapperRegistry.Registry.Run | src/gui/basecore.cc:409-453 | Over every run of creating, destroying and deleting the checks never fail and no enabled wrapper refers to a deleted item |
| MultiTree.Window.NeverDangling | src/gui/multitreewindow.cc:427-598 | The main tree is not among the secondary ones; the current tree and the one asked for its selection are the main tree or a live secondary one |
| MultiTree.Window.Activate | src/gui/multitreewindow.cc:427-531 | The tree with the key is shown, created in a tab of its own if it was not there; other trees stay |
| MultiTree.Window.ActivateKey | src/gui/multitreewindow.cc:427-440 | Shows the main tree or the tree with the key, and tells whether there is one |
| MultiTree.Window.DeleteWindow | src/gui/multitreewindow.cc:575-598 | Exactly one tree goes from both mappings and from the tabs, whose others stay in order, whatever tab is shown then; a selection asked of it is forgotten, and no other |
| MultiTree.Window.DeleteCurrent | src/gui/multitreewindow.cc:138-144 | Closes exactly the current tree unless it is the main one |
| MultiTree.Window.ClearSecondary | src/gui/multitreewindow.cc:334-355 | Only the main tree is left, and it is current; a selection asked of it is all that is remembered |
| MultiTree.Window.GetTree | src/gui/multitreewindow.cc:252-278 | The tree found by each kind of name: the main, the current or the selection tree, the tab with a number, or none; never one that is not among the tabs |
| MultiTree.Window.Run | src/gui/multitreewindow.cc:138-598 | Every run of public operations keeps the mappings inverse and leaves nothing dangling |
| Matrices.MulAssociative | src/gui/base.cc:130-155 | The product of matrices is associative |
| Matrices.ApplyProduct | src/gui/base.cc:144-174 | Applying a product to a vector is applying its factors one after the other |
| Matrices.ApplySays | src/gui/base.cc:144-155 | A vector is multiplied by the linear part and then displaced by the offsets; the identity leaves it alone |
| Matrices.OffsetsApplied | src/gui/base.cc:130-155 | The offsets of a product are those of the left factor with the right one applied, and the identity is neutral on both sides |
| Matrices.MulListsSays | src/gui/base.cc:130-172 | Exactly lists of two or of six numbers and more can be multiplied; numbers missing on the right are zeros and further ones are not looked at |
| Matrices.DivUnique | src/gui/base.cc:180-199 | For a regular old matrix the quotient is the one and only matrix whose product with the old one, on its left, is the new one |
| Matrices.MulAfterDiv | src/gui/base.cc:180-199 | Multiplying the quotient by the old matrix gives the new one |
| Matrices.DivAfterMul | src/gui/base.cc:180-199 | Dividing a product by its right factor gives the left one |
| Matrices.ListsMulAfterDiv | src/gui/base.cc:130-199 | On lists of any length: there is a quotient exactly for a regular old matrix, and it solves the equation for the lists padded to six numbers |
| Matrices.OtherOrderIff | src/gui/base.cc:174-199 | For a regular old matrix the quotient solves the equation as the comment writes it exactly if the old and the new matrix commute |
| Matrices.OtherOrderFails | src/gui/base.cc:174-179 | An old and a new matrix that do not commute, so that the equation as the comment writes it does not hold |
| Matrices.SingularMayBeSolvable | src/gui/base.cc:176-189 | Nothing is returned for a singular old matrix even where the equation has a solution |
| Matrices.SingularSolvableIff | src/gui/base.cc:184-199 | For a singular old matrix, where nothing is returned, the equation has a solution exactly if all six numerators are zero and, for an old matrix of zeros, the new one has zeros and the same offsets |
| PathLookup.LookupIsFold | src/gui/pdfutil.cc:331-351 | The recursive lookup, which ends on every object graph, is the fold of single dereferenced lookups over the components of the path |
| PathLookup.PathInTwoSteps | src/gui/pdfutil.cc:331-351 | Looking up p/q is looking up q in the container found at p, if p does not end in a slash |
| PathLookup.SplitsIff | src/gui/pdfutil.cc:331-351 | A path can be taken apart at a slash for all containers exactly if its first part does not end in one |
| PathLookup.TrailingSlash | src/gui/pdfutil.cc:338-339 | One more slash at the end of a path changes nothing in any container exactly if the path does not end in a slash yet |
| PathLookup.FailurePropagates | src/gui/pdfutil.cc:346-350 | A failure at any component fails the whole lookup |
| PathLaws.DictSays | src/gui/pdfutil.cc:331-375 | In a dictionary a component is a key: the path of it alone finds what its value leads to, through one reference; a longer path goes on there if that is a dictionary or an array and fails if not; a missing key fails both |
| PathLaws.ArraySays | src/gui/pdfutil.cc:331-392 | In an array a component is read as an index: in range it finds what that entry leads to and goes on there; out of range, or no number, it fails |
| PathLaws.ThroughReference | src/gui/pdfutil.cc:261-273 | In an open document a path goes through a reference as if the object stood in its place, and the path that ends there finds the object itself |
| PathLaws.DeadReference | src/gui/pdfutil.cc:261-273 | A reference to a missing object, or in a closed document, is found as null, and no path goes through it |

## Left out

- Widgets, layout, painting, cursors, repaint signals, captions' translation, icons and logging: no algorithmic content.
- Splitting configuration lines into fields (`explode`, `getUntil`): definitions are given parsed, as a list, an item, a
  label or malformed; an empty or missing line counts as malformed.
- Case folding, Latin-1 conversion of upper case and regular expressions beyond ASCII letters: `Lower` folds ASCII only.
- Menu identifiers, the maps from names to widgets, keyboard shortcuts, icons, toolbars, the disabled menu cache, and
  loading an item without a parent menu.
- Loader: the state after an error, which the source abandons.
- Dialog: opening files, and the enabling of buttons as such; the buttons act on the current item, which has to be a
  file page, as the enabling makes sure, and the selected item of the merge list is its current one.
- AddBtnClicked: does not state the order inside the block of added pages, which depends on the list box.
- History: the file system, carriage returns, encodings and the limit on the number of entries.
- PageView: operator boxes are given and fixed; a region is kept as the list of rectangles it was built from; other
  modes (text selection, text marking, annotations, new objects, graphical operators) and other keys.
- PageView: global mouse positions, which scripts get too, and changing the width of the resizing zones while a view
  lives.
- Accelerators: what the character class built from recorded accelerators accepts when `]`, `\` or `-` is among them is
  a parameter; properties of letters are stated for whatever it accepts.
- Parser: help texts, and what handlers do other than ending option processing.
- Registry: script objects other than tree item wrappers, and copies of wrappers.
- Window: what trees contain, signals sent while tabs are being removed, and the tab switching popup.
- Matrices: rounding; numbers are exact.
- PathLookup: how a name reads as a number and what an object of the kernel holds are given.
