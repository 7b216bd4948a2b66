# Models of seven programs

Most of this repository is configuration and small experiments. Seven of its files keep state
or transform data in ways that are hard to get right. This project models them in Dafny 4.11 and
proves what they are meant to do. `dafny verify dfyconfig.toml` checks everything.

- **`perftools/05/JSON.lua`** (`LuaText`, `Utf8`, `Lexicographic`, `JsonGrammar`, `JsonDecoder`,
  `JsonCompleteness`, `JsonSoundness`, `JsonDecoding`, `JsonPrinter`, `JsonPrinting`,
  `JsonSeparators`, `JsonEncoder`, `JsonCycles`, `JsonOrder`, `JsonRoundTrip`, `JsonStored`). The
  grammar of RFC 8259 is written down as syntax trees with their text and their meaning. The
  `grok_*` loops are methods proved against recursive functions, and those against the grammar in
  both directions. The encoder walks a graph of tables with the mutable `parents` table; its text
  is the print of the unfolded tree. Bytes are characters, Lua's index `i` is `i - 1`, numbers are
  the lexemes of number objects, and null is the `null` placeholder option.
- **`debian_config_files/emacs.d/setnu.el`** (`SetnuLines`, `Setnu`). The buffer with its overlays
  is a class; deletions and insertions run the hooks as Emacs would. The chain of extents always
  equals the full scan.
- **`perftools/X/drm-howto/modeset-vsync.c`** (`ModesetDevice`, `Modeset`). Devices, kernel and
  program are classes. Everything the program cannot foresee (which call fails, which identifier
  is given out, how many vertical blanks happen between two steps, how many events a read
  returns) is a nondeterministic choice, so the contracts hold for every behaviour. What must
  not happen is recorded as a fault. `Modeset.Program.Run` records none unless a read of the
  cleanup fails, and then at most a handler on freed memory, at which the run ends.
- **`debian_config_files/emacs.d/tabbar.el`** (`TabSets`, `TabGrouping`, `TabStore`, `TabCycle`,
  `TabLine`, `TabGroupCycle`). Tabs are objects compared by identity, tab sets have a selection, a scroll index and a
  cached rendering, and the store keeps one for each buffer group. `TabLine` puts updating, choosing
  and rendering together and runs them in any order.
- **`debian_config_files/emacs.d/tags-tree.el`** (`TagsTree`, `TagsTreeOrder`, `TagsTreeFiles`).
  The merge is a function; its leaves are a multiset, its siblings stay apart when files are sorted.
- **`debian_config_files/emacs.d/windata.el`** (`WindowShapes`, `WindowLayout`, `WindowSizes`,
  `Windata`). A frame is a class with a tree of windows and their areas; saving, replaying and
  following the path are compared with the same on values.
- **`perftools/linux/elf/binary_dump.c`** (`BinaryDump`). The loops with their trailer array are
  proved against a layout of rows, and the layout is read back.

`Optional` holds the datatype for missing values.

Six properties turned out not to hold of the code. The project gives an input for each and
says when they do hold:

- A reachable cycle does not always give "child of itself": a table with the keys 1 and "1" fails
  for its keys first (`JsonCycles.ConflictHidesCycle`). `JsonCycles.FailsExactlyOnCycles` covers
  every graph, and has the equivalence where no table with such keys is reachable;
  `JsonOrder.FirstReasonDecides` says which of two possible errors it is.
- A handler can run on a freed device: when a read of the cleanup fails, the device is freed while
  the kernel still owes it an event, and the wait for the next device may read that event
  (`Modeset.MeetsFreedDevice`). `Modeset.Program.PageFlipEvent` says exactly when, and
  `Modeset.Program.Run` that it needs a failed read.
- The deletion hook of setnu.el relies on the overlay rule of its time. A later rule of
  `overlays-in` can find the empty last line instead (`Setnu.DeletionGoesWrong`);
  `Setnu.DeletionSafeExactly` gives the exact condition and `Legal`, the
  precondition of `Setnu.Buffer.Run`, is that condition.
- In tabbar.el deleting the last tab of a tab set leaves it selected, and a deleted tab can be
  selected again (`TabSets.LosesSelection`). `TabSets.Bar.AddTab` and `TabSets.Bar.SelectTab` say exactly when the
  selection is one of the tabs; `TabSets.TrackingEnds` shows that the display loop ends only then.
  Groups updated from the buffer list never get into that state.
- `tabbar-scroll` on an empty tab set makes the index -1 (`TabSets.ScrollStaysInside`).
- A saved window tree does not come back when a combination lies in one of its own direction
  (`WindowShapes.NestedIsJoined`, and `WindowShapes.RestoredExactly` for the condition), and sizes
  may shrink by one (`WindowSizes.SevenLinesBecomeSix`, and `WindowSizes.SizesComeBackExactly`).

Where the code and its own comments differ the code is followed: JSON.lua leaves `/` unescaped
although its version history says that it is escaped, and a backslash before a 4-byte character
is always an error when not strict, because the test at line 1068 repeats the one before it.

## Model

| member | source | states |
|---|---|---|
| JsonDecoding.AcceptsExactlyTheGrammar | perftools/05/JSON.lua:1233-1355 | with `strictParsing`, `decode` accepts a text if and only if it is in the grammar of RFC 8259, sections 2, 6 and 7, with string bytes only required to be lead/continuation groups |
| JsonDecoding.DecodesTexts | perftools/05/JSON.lua:1233-1355 | strict decoding of a text of the grammar gives the value the text denotes, the last of equal keys winning |
| JsonDecoding.AcceptsOnlyTexts | perftools/05/JSON.lua:1233-1355 | every text that strict decoding accepts has a derivation in the grammar |
| JsonDecoding.TextsDenoteOneValue | perftools/05/JSON.lua:1233-1355 | the grammar is unambiguous: two derivations of a text denote one value |
| JsonDecoding.LenientAgrees | perftools/05/JSON.lua:1233-1355 | without `strictParsing` every text of the grammar still decodes to the same value |
| JsonDecoding.EscapesDecodeToUtf8 | perftools/05/JSON.lua:1031-1048 | any sequence of `\uXXXX` escapes, with hexadecimal digits in either case, decodes to the RFC 3629 text of the code points its units spell, surrogates paired as section 7 of RFC 8259 says, with "?" for each unpaired one; six bytes are consumed for each unit |
| Utf8.EncodesScalars | perftools/05/JSON.lua:757-818 | a scalar value is encoded as RFC 3629 says, its first byte announces the true length, and a surrogate becomes "?" |
| Utf8.EncodingIsInverse | perftools/05/JSON.lua:757-818 | every well-formed character is the encoding of its own value, so the encoding is a bijection |
| Utf8.ByteCountIsExact | perftools/05/JSON.lua:739-755 | the byte count is that of the RFC 3629 characters beginning with the byte, and 0 exactly when there are none |
| Utf8.Utf8CharIsGroup | perftools/05/JSON.lua:976-996 | well-formed characters pass the weaker lead/continuation test of the parser |
| LuaText.SkipsExactly | perftools/05/JSON.lua:1089-1097 | whitespace is skipped to its end and no further |
| JsonDecoder.OneAt | perftools/05/JSON.lua:1197-1231 | every success of `grok_one` moves the index forward and stays inside the text, by which the mutual recursion ends |
| JsonDecoder.GrokNumber | perftools/05/JSON.lua:859-903 | a number object keeps the lexeme exactly as it stands in the text, and the index moves past it |
| JsonDecoder.GrokString | perftools/05/JSON.lua:963-1087 | the loop over `i` and `VALUE` returns what the recursive reading of the string returns, with the same first error |
| JsonDecoder.GrokObject | perftools/05/JSON.lua:1101-1153 | the loop that fills `VALUE` by key returns what the recursive reading returns, with the same first error; the index advances, so the mutual recursion ends |
| JsonDecoder.GrokArray | perftools/05/JSON.lua:1155-1194 | the same for arrays and `VALUE_INDEX` |
| JsonDecoder.GrokOne | perftools/05/JSON.lua:1197-1231 | the dispatch on the first character |
| JsonDecoder.Decode | perftools/05/JSON.lua:1233-1355 | the checks for blank, HTML and non-UTF-8 text, the value, and the test for trailing garbage, tied to the function that the grammar theorems are about |
| JsonCompleteness.NumberComplete | perftools/05/JSON.lua:859-888 | a number of section 6 of RFC 8259 is read whole where it ends |
| JsonCompleteness.StringComplete | perftools/05/JSON.lua:963-1087 | a string of section 7 is read to its closing quote and gives the bytes it denotes |
| JsonCompleteness.OneComplete | perftools/05/JSON.lua:1197-1231 | a value of the grammar is read from its first byte to its end and gives what it denotes |
| JsonCompleteness.ElementsComplete | perftools/05/JSON.lua:1170-1191 | the elements of an array, with whitespace anywhere the grammar allows it |
| JsonCompleteness.MembersComplete | perftools/05/JSON.lua:1113-1149 | the members of an object, a later member replacing an earlier one of the same key |
| JsonSoundness.NumberSound | perftools/05/JSON.lua:859-888 | what is read as a number is one of section 6 |
| JsonSoundness.StringSound | perftools/05/JSON.lua:963-1087 | what is read as a string is one of section 7, with group bytes |
| JsonSoundness.OneSound | perftools/05/JSON.lua:1197-1231 | what is read as a value has a derivation that spans it and denotes the result |
| JsonSoundness.ElementsSound | perftools/05/JSON.lua:1170-1191 | the same for the elements of an array |
| JsonSoundness.MembersSound | perftools/05/JSON.lua:1113-1149 | the same for the members of an object |
| JsonPrinting.LiteralDenotes | perftools/05/JSON.lua:1383-1395 | the literal written for a string of whole groups is a JSON string that denotes it, with `stringsAreUtf8` on or off |
| JsonPrinting.Printed | perftools/05/JSON.lua:1587-1659 | every layout prints a tree as a text of the grammar that denotes its value |
| JsonSeparators.ReplaceAllFrees | perftools/05/JSON.lua:1392 | replacing all occurrences removes the pattern everywhere and brings in no other one |
| JsonSeparators.LiteralHasNoSeparators | perftools/05/JSON.lua:1383-1395 | with `stringsAreUtf8` no literal holds a raw U+2028 or U+2029, whatever bytes the string has |
| JsonSeparators.PrintIsTidy | perftools/05/JSON.lua:1587-1659 | no raw separator in a whole text, nor one formed where parts of it meet |
| JsonEncoder.ObjectOrArray | perftools/05/JSON.lua:1397-1481 | the loop over the keys in any order classifies a table as the specification does |
| JsonCycles.ConvertibleExactly | perftools/05/JSON.lua:1443-1480 | a table is rejected if and only if it mixes string and number keys and either that is forbidden or a number and a string are written alike |
| JsonCycles.ShapeCovers | perftools/05/JSON.lua:1397-1481 | the array bound or the object keys cover every entry of the table, and nothing else is looked up |
| JsonEncoder.EncodeValue | perftools/05/JSON.lua:1507-1661 | it ends on every graph of tables, returns the text of the unfolded tree or the first error, and takes every mark off `parents` again |
| JsonEncoder.EncodeTable | perftools/05/JSON.lua:1569-1660 | at every call `parents` is true exactly for the tables on the path from the top to the value; the result is that of the unfolding below that path, and the marks are as before when the table is done |
| JsonEncoder.EncodeItems | perftools/05/JSON.lua:1597-1600 | the items 1 to the greatest index, in order |
| JsonEncoder.EncodeKeys | perftools/05/JSON.lua:1620-1628 | every key is written as its own literal, and `parents` is left alone |
| JsonEncoder.EncodeEntries | perftools/05/JSON.lua:1618-1651 | the entries in key order, in both layouts |
| JsonEncoder.Encode | perftools/05/JSON.lua:1663-1686 | the result for an empty `parents` |
| JsonCycles.FailsExactlyOnCycles | perftools/05/JSON.lua:1397-1481 | on every graph encoding fails if and only if a cycle or a table with keys that cannot be written is reachable; "child of itself" is only said of a cycle and the other errors only of such a table; with no such table reachable "child of itself" is said if and only if a cycle is reachable; shared subtables never fail |
| JsonCycles.ConflictHidesCycle | perftools/05/JSON.lua:1443-1480 | a table with the keys 1 and "1" that contains itself fails for its keys, so a reachable cycle alone does not give "child of itself" |
| JsonOrder.FirstReasonDecides | perftools/05/JSON.lua:1507-1661 | encoding fails with an error if and only if that is the reason at the first place, in a depth-first descent in the order of items and keys, that is either a table descended through already or one with keys that cannot be written; so it also says which error results when both are reachable |
| JsonRoundTrip.PrintedDecodes | perftools/05/JSON.lua:1507-1661 | the printed text of a tree decodes to its value, whatever whitespace is around it |
| JsonRoundTrip.EncodedDecodes | perftools/05/JSON.lua:1507-1661 | whatever `encode` returns for a graph of tables, strict `decode` gives the unfolded value back |
| JsonRoundTrip.RepresentsOneValue | perftools/05/JSON.lua:626-634 | a table graph stores at most one value |
| JsonRoundTrip.RoundTrip | perftools/05/JSON.lua:1507-1661 | `decode(encode(v))` is `v` and consumes the whole text, for every graph that stores `v` however parts are shared, every layout with a whitespace indent, and `stringsAreUtf8` on or off |
| JsonStored.Store | perftools/05/JSON.lua:626-634 | any graph of tables can be extended by tables that store a given value |
| JsonStored.EveryValueComesBack | perftools/05/JSON.lua:1507-1661 | every value of group strings and JSON numbers is written by `encode` for some graph, and every text that `encode` writes for it decodes to it |
| SetnuLines.ScanFindsLines | debian_config_files/emacs.d/setnu.el:180-195 | the full scan finds exactly the lines of the text, defined by where newlines are |
| SetnuLines.NewlineSeparates | debian_config_files/emacs.d/setnu.el:213 | a search finds a newline between two positions exactly when they are on different lines |
| SetnuLines.DeletionLines | debian_config_files/emacs.d/setnu.el:213-226 | merging the lines of both ends and dropping those between gives the lines of the text that is left |
| SetnuLines.InsertionLines | debian_config_files/emacs.d/setnu.el:286-298 | splitting the line at the inserted newlines gives the lines of the new text |
| Setnu.Buffer.ModeOn | debian_config_files/emacs.d/setnu.el:165-196 | a chain for the full scan: spans, order, links both ways, numbers from 1, no other extent |
| Setnu.Buffer.ModeOff | debian_config_files/emacs.d/setnu.el:150-163 | no extent is left |
| Setnu.Buffer.ExtentAt | debian_config_files/emacs.d/setnu.el:342-353 | some extent that the overlay rule finds at the position, or none if there is none |
| Setnu.Buffer.ExtentAtCreate | debian_config_files/emacs.d/setnu.el:394-445 | only the branch that widens the extent of the line is ever taken; the branches that make an extent are dead |
| Setnu.CopyNumbersBack | debian_config_files/emacs.d/setnu.el:229-240 | each number is read before it is overwritten, however many lines are removed and remain |
| Setnu.CopyNumbersForth | debian_config_files/emacs.d/setnu.el:302-321 | the same for an insertion, the last lines counting on |
| Setnu.Renumber | debian_config_files/emacs.d/setnu.el:227-246 | after a deletion all numbers are consecutive and the first remaining line is linked back |
| Setnu.Relink | debian_config_files/emacs.d/setnu.el:215-246 | endpoints, links and numbers describe the chain without the lines in between |
| Setnu.Buffer.DeleteExtents | debian_config_files/emacs.d/setnu.el:247-251 | exactly the dropped extents leave the buffer |
| Setnu.Buffer.BeforeChange | debian_config_files/emacs.d/setnu.el:198-252 | before text goes, the lines of both ends are one line and the lines between are gone |
| Setnu.Buffer.Delete | debian_config_files/emacs.d/setnu.el:198-252 | after hook and removal the chain is what the full scan of the new text would build |
| Setnu.Buffer.MakePieces | debian_config_files/emacs.d/setnu.el:284-293 | the search for newlines cuts the line into the lines of the inserted text |
| Setnu.LinkPieces | debian_config_files/emacs.d/setnu.el:294-301 | the pieces are linked into the chain in the place of the line |
| Setnu.Buffer.AfterChange | debian_config_files/emacs.d/setnu.el:254-322 | the extent takes the text in, is split, linked and renumbered |
| Setnu.Buffer.Insert | debian_config_files/emacs.d/setnu.el:254-322 | after insertion and hook the chain is what the full scan of the new text would build |
| Setnu.Buffer.Run | debian_config_files/emacs.d/setnu.el:198-322 | any run of insertions and deletions keeps the chain equal to a full scan, without stray extents |
| Setnu.WrongMergeFails | debian_config_files/emacs.d/setnu.el:213-226 | merging any other number of lines does not give the lines of the new text |
| Setnu.DeletionSafeExactly | debian_config_files/emacs.d/setnu.el:213-226 | under the overlay rule of the time every deletion is right; under the later rule, which also finds an empty overlay at the end of the buffer, a deletion of a newline is right if and only if neither end is just before a newline that ends the buffer |
| Setnu.DeletionGoesWrong | debian_config_files/emacs.d/setnu.el:213-226 | an input at which the later rule goes wrong: the first of two newlines deleted |
| ModesetDevice.FirstFreeExactly | perftools/X/drm-howto/modeset-vsync.c:249-324 | nothing is chosen exactly when no candidate is free, and what is chosen is the first free candidate |
| ModesetDevice.Claim | perftools/X/drm-howto/modeset-vsync.c:265-271 | the search of the list: the identifier, or negative if it is in use or does not fit 31 bits |
| ModesetDevice.FindForEncoder | perftools/X/drm-howto/modeset-vsync.c:295-317 | the first free CRTC among those that work with the encoder, or none of them is free |
| ModesetDevice.FindCrtc | perftools/X/drm-howto/modeset-vsync.c:249-324 | the first free CRTC, the current one before those of each retrievable encoder; `-ENOENT` exactly when none is free |
| ModesetDevice.Kernel.CreateFb | perftools/X/drm-howto/modeset-vsync.c:330-395 | a dumb buffer, a framebuffer over it and a mapping, or a negative result and nothing taken, for every pattern of failing calls |
| ModesetDevice.Kernel.DestroyFb | perftools/X/drm-howto/modeset-vsync.c:401-415 | all three are given back |
| ModesetDevice.SetupDev | perftools/X/drm-howto/modeset-vsync.c:188-243 | the errors in their order, and two buffers and a free CRTC on success; every failure leaves the kernel as it was |
| Modeset.TwoEach | perftools/X/drm-howto/modeset-vsync.c:80-121 | if each device owns two of the identifiers and there are no others, their number is twice that of the devices |
| Modeset.Program.DumbsInPairs | perftools/X/drm-howto/modeset-vsync.c:129-182 | two dumb buffers for each device |
| Modeset.Program.FbsInPairs | perftools/X/drm-howto/modeset-vsync.c:129-182 | two framebuffers for each device |
| Modeset.Program.Link | perftools/X/drm-howto/modeset-vsync.c:173-177 | a device that was set up joins the list with everything it holds, on a CRTC of its own |
| Modeset.Program.Prepare | perftools/X/drm-howto/modeset-vsync.c:129-182 | exactly two dumb buffers, framebuffers and mappings for each listed device, whatever fails |
| Modeset.Program.SetModes | perftools/X/drm-howto/modeset-vsync.c:446-455 | each device's front buffer is asked for on its CRTC, in list order, and what the CRTC showed before is kept for the cleanup; it is never one of the program's buffers |
| Modeset.Program.BackIsHidden | perftools/X/drm-howto/modeset-vsync.c:651-679 | with no flip pending the back buffer is neither scanned out nor queued, and a CRTC that was set shows the front buffer |
| Modeset.Program.FlipDev | perftools/X/drm-howto/modeset-vsync.c:670-678 | the flag and `front_buf` change exactly when the kernel takes the flip, and all devices stay in step |
| Modeset.Program.DrawDev | perftools/X/drm-howto/modeset-vsync.c:651-679 | no pixel is written to a visible buffer, with vertical blanks between any two pixels; the painted buffer is the one queued |
| Modeset.Program.Vblank | perftools/X/drm-howto/modeset-vsync.c:618-649 | the kernel's step keeps all devices in step: the queued buffer is shown and one event is due |
| Modeset.Program.PageFlipEvent | perftools/X/drm-howto/modeset-vsync.c:485-494 | a handler runs on freed memory exactly when the event is for a freed device; otherwise a device under cleanup asks for no flip, any other for exactly one, to its back buffer |
| Modeset.Program.HandleEvent | perftools/X/drm-howto/modeset-vsync.c:579-593 | reading and dispatching any number of events keeps the invariant unless a freed device is met; a failing read changes no flag |
| Modeset.Program.DrawAll | perftools/X/drm-howto/modeset-vsync.c:567-575 | one flip request for each listed device, in list order, to its back buffer |
| Modeset.Program.PendingIsOutstanding | perftools/X/drm-howto/modeset-vsync.c:694-719 | the pending flag is true exactly while the kernel owes a flip or an event for the device |
| Modeset.Program.Retire | perftools/X/drm-howto/modeset-vsync.c:719-737 | when a device is freed something is outstanding for it if and only if the wait was given up; its two buffers are returned in both cases, and its saved framebuffer is asked for again in the other one |
| Modeset.Program.Cleanup | perftools/X/drm-howto/modeset-vsync.c:694-738 | a handler meets a freed device only after a `drmHandleEvent` of the cleanup has failed; a cleanup that ends has returned every dumb buffer, framebuffer and mapping, failed reads or not, and the kernel still owes a flip or an event exactly if a read has failed |
| Modeset.Program.Run | perftools/X/drm-howto/modeset-vsync.c:421-475 | the whole program, for every behaviour of the kernel and on past failed reads: no write to a visible buffer, no flip for a device under cleanup, and no handler on a freed device unless a read of the cleanup has failed, which ends the run; otherwise the end is that of the cleanup |
| Modeset.MeetsFreedDevice | perftools/X/drm-howto/modeset-vsync.c:694-738 | two devices are shown and drawn once, both blanks come, the read for the first device fails and it is freed, and the read for the second runs the handler of the first on freed memory |
| Modeset.Start | perftools/X/drm-howto/modeset-vsync.c:123-135 | a program that has just opened the device satisfies the invariant that its run keeps |
| TabSets.Bar.SelectTab | debian_config_files/emacs.d/tabbar.el:470-478 | the selection changes for members only, where a deleted tab of the tab set still counts; the invariant that the selection is one of the tabs is lost exactly then |
| TabSets.Bar.SelectTabValue | debian_config_files/emacs.d/tabbar.el:480-484 | a tab with the value is selected if there is one, and nothing changes otherwise; a change drops the rendering and asks for tracking |
| TabSets.Bar.AddTab | debian_config_files/emacs.d/tabbar.el:495-507 | the value is there once, at the asked end; the selection stays one of the tabs if and only if it was one of them before |
| TabSets.Bar.DeleteTab | debian_config_files/emacs.d/tabbar.el:509-520 | the tab is gone, and if it was selected the next one is, or else the last; the cached rendering is dropped |
| TabSets.Bar.Scroll | debian_config_files/emacs.d/tabbar.el:522-530 | the index moves within the tabs and the cached rendering is dropped exactly when it does |
| TabSets.ScrollStaysInside | debian_config_files/emacs.d/tabbar.el:526-527 | the index is a proper one if and only if there is a tab; on an empty tab set it becomes -1 |
| TabSets.Bar.LineFormat | debian_config_files/emacs.d/tabbar.el:1135-1196 | the loops end for any answers about what fits; with tracking the selected tab is in view; the cached rendering lists exactly the view |
| TabSets.Bar.ScrollToSelected | debian_config_files/emacs.d/tabbar.el:1152-1154 | the first loop stops at the selected tab, or where it began if that tab was in view |
| TabSets.Bar.Fit | debian_config_files/emacs.d/tabbar.el:1162-1180 | the third loop keeps the collected tabs equal to the view and never drops the selected one |
| TabSets.TrackingEnds | debian_config_files/emacs.d/tabbar.el:1152-1154 | the search for the selected tab ends if and only if it is one of the tabs |
| TabSets.LosesSelection | debian_config_files/emacs.d/tabbar.el:509-520 | deleting the only tab and adding another leaves the deleted one selected |
| TabGrouping.UpdateIsRegrouping | debian_config_files/emacs.d/tabbar.el:1743-1774 | adding and then deleting tabs is the same as keeping what stays, in order, and appending the newcomers |
| TabGrouping.SameAsFromScratch | debian_config_files/emacs.d/tabbar.el:1743-1774 | from whatever the group held, the result has the buffers that grouping from scratch gives, once each |
| TabGrouping.SettledStays | debian_config_files/emacs.d/tabbar.el:1743 | an unchanged list leaves every group as it is |
| TabStore.Store.MakeTabset | debian_config_files/emacs.d/tabbar.el:404-414 | a tab set with one selected tab, and no other changed |
| TabStore.Store.AddAll | debian_config_files/emacs.d/tabbar.el:1744-1758 | every group grows by the buffers that the list adds to it |
| TabStore.Store.PruneTabs | debian_config_files/emacs.d/tabbar.el:1764-1769 | exactly the tabs that belong stay, in order, with the selection repaired |
| TabStore.Store.PruneAll | debian_config_files/emacs.d/tabbar.el:1761-1772 | the same for all tab sets; the empty ones are reported |
| TabStore.Store.UpdateGroups | debian_config_files/emacs.d/tabbar.el:1724-1774 | every group holds what stays followed by the newcomers, no tab set is empty, and every selection is one of the tabs |
| TabStore.Store.GroupsAreFromScratch | debian_config_files/emacs.d/tabbar.el:1724-1774 | a tab set exists exactly for the groups in use and holds exactly the buffers whose list of groups has it, without duplicates |
| TabStore.Store.BufferTabs | debian_config_files/emacs.d/tabbar.el:1788-1791 | the tab set of the current buffer's first group, an old one or new, with the current buffer selected |
| TabStore.Store.SelectedTabs | debian_config_files/emacs.d/tabbar.el:552-557 | the selected tab of every tab set, in the order of the store |
| TabLine.Display.BufferTabs | debian_config_files/emacs.d/tabbar.el:1788-1795 | the tabs of the first group or, when groups are shown, one tab for each group; the current buffer is the selected one in both |
| TabLine.Display.Format | debian_config_files/emacs.d/tabbar.el:1135-1196 | the rendering of the tab set is up to date, and with tracking the selected tab is in view |
| TabLine.Display.Line | debian_config_files/emacs.d/tabbar.el:1198-1209 | the header line is the rendering of the tab set as it is now, cached or not, and highlights the current buffer; with auto-scroll a tab that was not highlighted in its tab set before is in the line, whatever has become of the list of buffers |
| TabLine.Display.Run | debian_config_files/emacs.d/tabbar.el:1198-1209 | over any run of redisplays, updates, scrolls and switches between tabs and groups every line highlights the buffer current at that time and the store stays sound |
| TabCycle.Navigator.TabNext | debian_config_files/emacs.d/tabbar.el:532-540 | the neighbour on the asked side, or nil |
| TabCycle.Navigator.Cycle | debian_config_files/emacs.d/tabbar.el:1226-1280 | in each scope the neighbour in the ring of visible tabs, of groups, or of all tabs of all groups |
| TabCycle.TurnOutside | debian_config_files/emacs.d/tabbar.el:1264-1278 | leaving a group is a turn of the ring of all tabs |
| TabCycle.TurnedBack | debian_config_files/emacs.d/tabbar.el:1226-1280 | a turn back undoes a turn |
| TabCycle.Navigator.RingIsExact | debian_config_files/emacs.d/tabbar.el:1264-1278 | with one group for each buffer, every buffer has exactly one place in the ring |
| TabCycle.Navigator.Step | debian_config_files/emacs.d/tabbar.el:1282-1294 | a step moves the current buffer to the neighbour in the ring and leaves the ring as it is |
| TabCycle.Navigator.Tour | debian_config_files/emacs.d/tabbar.el:1282-1294 | stepping until the first buffer returns visits every buffer exactly once |
| TabCycle.Navigator.BackAndForth | debian_config_files/emacs.d/tabbar.el:1282-1294 | `tabbar-backward` undoes `tabbar-forward` and the other way round |
| TabGroupCycle.GroupNavigator.CycleShown | debian_config_files/emacs.d/tabbar.el:1226-1280 | with the groups shown every scope gives the neighbour in the list of groups, and closing the ring in the default scope the first or last tab of the group it comes to |
| TabGroupCycle.GroupNavigator.Step | debian_config_files/emacs.d/tabbar.el:1226-1280 | a step with the groups shown, or through groups only, goes to a buffer of the neighbouring group, its selected one unless the default scope closes the ring; no group loses its selected buffer, and tabs are shown again |
| TabGroupCycle.GroupNavigator.TourGroups | debian_config_files/emacs.d/tabbar.el:1296-1308 | stepping from group to group, whether tabs or groups are shown before each step, visits the selected buffer of every group exactly once before it is back |
| TabGroupCycle.GroupNavigator.GroupsBackAndForth | debian_config_files/emacs.d/tabbar.el:1296-1308 | `tabbar-backward-group` undoes `tabbar-forward-group` and the other way round |
| TagsTree.CommonString | debian_config_files/emacs.d/tags-tree.el:128-137 | the loop finds the longest common prefix |
| TagsTree.MergeAddsOne | debian_config_files/emacs.d/tags-tree.el:144-171 | in any order of files a merge adds exactly the leaf of the file |
| TagsTreeOrder.RestsDiffer | debian_config_files/emacs.d/tags-tree.el:139-142 | behind the common path the names share no first component |
| TagsTreeOrder.SharesFirst | debian_config_files/emacs.d/tags-tree.el:139-142 | two names have a common path exactly when they share a first component |
| TagsTreeOrder.Contiguous | debian_config_files/emacs.d/tags-tree.el:187-192 | in sorted order the names with a given prefix are next to each other |
| TagsTreeOrder.OnlyFirstMayShare | debian_config_files/emacs.d/tags-tree.el:158-167 | only the first child can be the directory of a file that comes after all others |
| TagsTreeOrder.MergeStaysOrdered | debian_config_files/emacs.d/tags-tree.el:152-171 | a file that comes after all others is merged without splitting any directory over two siblings, although only the first child is examined |
| TagsTreeFiles.Build | debian_config_files/emacs.d/tags-tree.el:187-192 | sorted files give a tree with exactly their paths and no split directory |
| TagsTreeFiles.Rearrange | debian_config_files/emacs.d/tags-tree.el:180-185 | any rearrangement of siblings keeps the paths and the siblings apart |
| TagsTreeFiles.MarkFileName | debian_config_files/emacs.d/tags-tree.el:173-185 | every leaf carries the full name that its place gives it |
| TagsTreeFiles.GroupFileByName | debian_config_files/emacs.d/tags-tree.el:187-198 | the leaves carry exactly the input files, no directory is split, and an empty list is an error |
| TagsTreeFiles.OutOfOrderSplits | debian_config_files/emacs.d/tags-tree.el:152-171 | three files out of order split a directory, so the order is needed |
| WindowShapes.ReplayJoins | debian_config_files/emacs.d/windata.el:87-110 | replaying a script of a tree gives the tree with combinations of one direction joined, whatever the shares |
| WindowShapes.RestoredExactly | debian_config_files/emacs.d/windata.el:87-110 | the same tree comes back if and only if nested combinations alternate in direction |
| WindowShapes.NestedIsJoined | debian_config_files/emacs.d/windata.el:87-110 | a tree that does not come back: two windows one below the other in the lower half of a frame |
| WindowShapes.WindowsKeepOrder | debian_config_files/emacs.d/windata.el:87-110 | whatever is joined, the windows come back in order |
| WindowLayout.GraftedTwice | debian_config_files/emacs.d/windata.el:101-110 | replaying inside what was just split is one replacement of the original window |
| WindowLayout.BuiltShapes | debian_config_files/emacs.d/windata.el:101-110 | the windows a replay builds have the shape that the replay on values gives |
| WindowSizes.SizeComesBack | debian_config_files/emacs.d/windata.el:59-78 | a size comes back as it was if and only if its share has four decimals, and one less otherwise |
| WindowSizes.SavedIsScript | debian_config_files/emacs.d/windata.el:87-99 | what is saved has the splits and windows of the tree |
| WindowSizes.GraftFills | debian_config_files/emacs.d/windata.el:103-106 | windows that fill the place of one leave the whole tree tiled and as big as it was |
| WindowSizes.ReplayFillsTheWindow | debian_config_files/emacs.d/windata.el:101-110 | for every script that fits, the windows of the replay have as many columns times lines, all together, as the window they replace |
| WindowSizes.NoneLosesMore | debian_config_files/emacs.d/windata.el:73-110 | replayed in a place of the old size or one less, no window loses more than one column and one line, the last of a combination included, which takes the remainder |
| WindowSizes.BiggerFits | debian_config_files/emacs.d/windata.el:101-106 | no split of the replay fails when every window is bigger than the least one |
| WindowSizes.SizesComeBackExactly | debian_config_files/emacs.d/windata.el:73-110 | every window measures what it did if and only if the place is as big as before and all shares used have four decimals |
| WindowSizes.SevenLinesBecomeSix | debian_config_files/emacs.d/windata.el:73-110 | sizes that do not come back: 7 and 17 lines of 24 |
| Windata.Frame.SplitWindow | debian_config_files/emacs.d/windata.el:103-106 | the new window joins a combination of the direction of the split, or makes one, and gets what the size leaves; it fails exactly when a half would be too small, and the windows still tile the frame |
| Windata.Frame.Replay | debian_config_files/emacs.d/windata.el:101-110 | splits, selections and buffers put what the script describes in the place of the selected window, with the areas of the replay on values; it fails exactly when a split does |
| Windata.WindowPath | debian_config_files/emacs.d/windata.el:112-125 | a path to the window, or none if it is not in the tree |
| Windata.Frame.CurrentWinconf | debian_config_files/emacs.d/windata.el:127-132 | the script of the frame with its shares and a path to the selected window |
| Windata.Frame.RestoreWinconf | debian_config_files/emacs.d/windata.el:134-156 | the frame has the shape and the areas of the replay, and the selected window is the one the path reaches, if it reaches one |
| Windata.SamePlaces | debian_config_files/emacs.d/windata.el:152-156 | a path to a window of one tree reaches a window in every tree of the same shape |
| Windata.SaveAndRestore | debian_config_files/emacs.d/windata.el:127-156 | between two frames, unless there is no room for a split, the windows keep their order; shape and the place of the selected window come back if nested combinations alternate, and the shape only then; between frames of one size no window loses more than one column and one line, and all sizes come back if and only if the shares have four decimals |
| BinaryDump.HexReadsBack | perftools/linux/elf/binary_dump.c:138-157 | hexadecimal digits read back to the number |
| BinaryDump.ColumnHolds | perftools/linux/elf/binary_dump.c:137-174 | each column of each row holds the digits and the character of the one byte that belongs there, or blanks |
| BinaryDump.AddressHolds | perftools/linux/elf/binary_dump.c:138-151 | the address before a row is that of its first column |
| BinaryDump.DumpReadsBack | perftools/linux/elf/binary_dump.c:103-176 | the dump reads back to the bytes, and each byte is marked in the trailer of its row and column |
| BinaryDump.PutByte | perftools/linux/elf/binary_dump.c:144-160 | one round of the loop, with the trailer reset for each row |
| BinaryDump.BinaryDumpWithChar | perftools/linux/elf/binary_dump.c:103-176 | the printed text is that of the layout for every offset, size and buffer without overflow; nothing is printed for no bytes or no buffer |

## Left out

- JSON.lua: floats, NaN and infinity, stringification lengths, `unsupportedTypeEncoder`, the `etc` argument, and error handlers that return instead of aborting; errors are kinds, without the byte position in the message.
- JSON.lua: boolean keys, whose values are lost by the lookup under the written key, and `align_keys`, which depends on width limits of `string.format`.
- JSON.lua: `table.sort` is taken in the C locale, `tostring` of a positive integer as its decimal digits, and `%0s` in the pretty layout as accepted, as in Lua up to 5.3.
- JSON.lua: other types of text argument than a string, and `decode` of nil.
- setnu.el: the XEmacs branches, glyphs, faces, the older variants of `setnu-extent-at`, and formatting of line numbers, which are kept as numbers. Point is at the end of inserted text when the hook runs, and the buffer's only overlays are those of the mode.
- modeset-vsync.c: colours, `select` and its timeout, strides, sizes and offsets of buffers. A round of waiting or handling events may be repeated any number of times.
- modeset-vsync.c: `drmModeGetCrtc` is taken to succeed (the code does not test it), and `res->count_crtcs` to be at most 32, the width of the mask it is shifted in.
- Modeset.Program.Cleanup: ends at the first handler that runs on a freed device, since what it does to freed memory is undefined.
- Modeset.Program.Cleanup: that the wait for a flip ends is not claimed, since it depends on the kernel.
- modeset-atomic.c and the other modeset programs: not part of this model.
- tabbar.el: faces, images, keymaps, mouse events, label texts, and inhibit functions. Only what a rendering lists, highlights and enables is modelled.
- TabStore.Store.UpdateGroups: takes the list of buffers as it is after the sort by name; nothing depends on that order but the order of newcomers.
- TabStore.Store.BufferTabs: the current buffer is in the list and has a group, as the default functions see to.
- TabLine.Display.Run: one displayed tab set, as with one window; `tabbar-current-tabset` is local to each buffer.
- TabGroupCycle.GroupNavigator.TourGroups: every buffer has one group, there is more than one group, and the current buffer is the selected one of its group, as after a display.
- TabCycle.Navigator.Tour: every buffer has one group and the store is unchanged, as with the default grouping function.
- tags-tree.el: widgets, tags parsing, the option `icase`, and the predicate of the display sort, which is not defined for a directory and a file; the sort is any rearrangement.
- windata.el: showing buffers that no longer exist, and restoring inside one window. Shares and sizes are floors of exact quotients instead of floats, and a window's width is that between its edges, without what fringes, scroll bars or a separator take of it.
- Windata.SaveAndRestore: the statements about sizes are for frames of the same size with at most 10000 columns and lines, where four decimals lose less than one.
- binary_dump.c: the variants with comments and strings, `bin_printf`, and output to stderr, which is a string here.
- BinaryDump.BinaryDumpWithChar: offset and size such that the loop index and the row addresses do not wrap around.
