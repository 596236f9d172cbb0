# Terminal notes browser, modelled in Dafny

`main.py` is a Tk note browser (`TerminalNotesApp`). A directory of `.txt`
notes is shown as a menu: favorites first, then the other notes grouped by
modification day, newest first, with the selected line in brackets and a
preview of the selected note beside it. The keys move the selection, toggle
a favorite, create, rename and delete notes (delete behind a two-button
confirmation panel), and open a note in an editor that saves itself 500 ms
after the last key release and when the user goes back to the menu.

This project models that state machine and proves what it promises.

- `NoteText` (`note_text.dfy`): the `.txt` filter of the directory listing,
  the display name `note.replace(".txt", "")`, Python's `strip`, `rstrip`
  and `split`, the 800-character preview and its truncation test, and the
  checks of the rename dialog.
- `NoteStore` (`note_store.dfy`): the directory as a map from file name to
  text and modification time, with the writes, the save and the rename the
  browser performs.
- `NoteNaming` (`note_naming.dfy`): the names `note_<ts>.txt`,
  `note_<ts>_1.txt`, ... and the loop of `create_new_note` that picks the
  first free one.
- `Ordering` (`ordering.dfy`): the stable newest-first sort of
  `get_menu_text`, the grouping by day, and the visual order
  (`visual_to_index`) as functions. It also proves that the visual order is
  a permutation, favorites first, and that the rest is in list order.
- `Cursor` (`cursor.dfy`): `get_visual_position`, `move_up` and `move_down`
  as functions on the visual order.
- `MenuView` (`menu_view.dfy`): the lines of the menu pane and the preview
  pane. Exactly one line is bracketed when there is a selection.
- `MenuBuilder` (`menu_builder.dfy`): the loops of `get_menu_text` as
  methods, each proved to compute the function of `Ordering` or `MenuView`
  that specifies it.
- `NotesApp` (`app.dfy`): the class `App`, whose fields are those of
  `TerminalNotesApp`. Its methods are the key handlers, the dialogs and the
  save timer. `Valid()` is the invariant every handler keeps:
  - the list holds each note file of the directory once;
  - a selection exists exactly when there are notes;
  - at most one save is pending, and it is the one `save_job` names;
  - in the menu, the list is newest first and both panes show what
    `get_menu_text` and `load_menu` make of the state. In the editor a save
    changes a modification time, so the list may be out of order until the
    menu is rebuilt.

The clock, the timestamp string, the day of a modification time and its
label, the directory listing at start-up and the favorites read from disk
are parameters. So is the outcome of every file operation that can fail.

Some predicates of `NotesApp` state their heavy facts behind the always-true
trigger `Probe(k)`: the sorted list, the drawn menu and the preview. The
class lemmas `SortedList`, `SortedStays` and `ShownOnce` bring those facts
into a proof where one needs them. This keeps the verifier from expanding
the sort and the renderers inside every handler. It changes no contract.

## Model

| member | source | states |
|---|---|---|
| NoteText.TxtNotes | main.py:141 | a name is kept exactly when it is in the listing and ends with ".txt"; the result is no longer than the listing |
| NoteText.DisplayName | main.py:417 | the display name is the file name shortened by a multiple of four characters, and equals it when ".txt" does not occur |
| NoteText.DisplayNameOfStem | main.py:451 | a stem without ".txt" followed by the extension displays as the stem |
| NoteText.DisplayNameRemovesEveryOccurrence | main.py:417 | "a.txt.txt" displays as "a": every occurrence is removed, not only the suffix |
| NoteText.DisplayNameMayStillContainTxt | main.py:451 | ".t.txtxt" displays as ".txt": removing occurrences can form a new one |
| NoteText.RStrip | main.py:293 | the longest prefix that does not end in whitespace; everything cut off is whitespace |
| NoteText.LStrip | main.py:1009 | the longest suffix that does not start with whitespace; everything cut off is whitespace |
| NoteText.StripTrims | main.py:1009-1014 | the stripped name starts and ends with a non-whitespace character, and is empty exactly when the typed text is all whitespace |
| NoteText.TakeWord | main.py:296 | the longest whitespace-free prefix, followed by whitespace or the end |
| NoteText.Words | main.py:296 | every word of `split()` is non-empty and holds no whitespace |
| NoteText.WordsCoverNonSpace | main.py:296 | the words glued together are exactly the non-whitespace characters, in order |
| NoteText.WordCountIsWordStarts | main.py:296-297 | the word count equals the number of positions where a non-whitespace character starts the text or follows whitespace |
| NoteText.WordCountBounds | main.py:293-297 | no words exactly when the text is all whitespace; never more words than non-whitespace characters |
| NoteText.WordsAtMostChars | main.py:293-297 | the word count never exceeds the character count `len(content.rstrip())` |
| NoteText.Preview | main.py:493 | the preview is a prefix of the note of at most 800 characters, and the whole note when shorter |
| NoteText.TruncationMarkerExactly | main.py:508 | the marker is shown exactly for notes of 800 characters or more, so also for a note of exactly 800 that the preview shows in full |
| NoteText.ValidateRename | main.py:1009-1027 | the name is refused as empty, as holding `/ \ : * ? " < > \|`, or as taken by another note, each exactly in its case and in that order; otherwise the file name is the stripped name plus ".txt" |
| NoteText.AcceptedNameIsFresh | main.py:1024-1027 | an accepted file name ends in ".txt", names no other listed note, starts with no whitespace and holds no refused character |
| NoteStore.Write | main.py:626-627 | the file exists with the given text and the current time; every other file is unchanged |
| NoteStore.SaveAttempt | main.py:1229-1237 | after a save the note exists; it holds the text at the current time when the write succeeds, and what the failure left otherwise; no other file changes |
| NoteStore.Rename | main.py:1034 | the file moves to the new name with its text and time; every other file is unchanged |
| NoteNaming.NatToString | main.py:620 | the decimal text of the counter is a non-empty string of digits |
| NoteNaming.ParseNatToString | main.py:620 | reading back the decimal text of the counter gives the counter |
| NoteNaming.CandidateInjective | main.py:615-620 | two attempts of the creation loop try the same name only if they are the same attempt |
| NoteNaming.FreshNoteName | main.py:614-622 | the loop ends, returns a name not in the directory, and every earlier attempt was taken |
| Ordering.EnumerateSet | main.py:412 | the iteration of the favorite set lists each favorite exactly once |
| Ordering.IndexOf | main.py:416 | `list.index`: the first position of the element, or -1 exactly when it is absent |
| Ordering.RemoveFirstSlices | main.py:1114 | `list.remove` drops the first occurrence and keeps the rest in order |
| Ordering.RemoveFirstMultiset | main.py:1114 | `list.remove` takes away exactly one occurrence |
| Ordering.SortByMtime | main.py:390-394 | the sort keeps every element the same number of times |
| Ordering.SortIsSorted | main.py:390-394 | the sorted list is newest first and a permutation of the list |
| Ordering.SortKeepsSortedList | main.py:390-399 | sorting a list that is already newest first leaves it as it is |
| Ordering.NewestFirstIffSorted | main.py:390-394 | the sort leaves a list unchanged exactly when the list is newest first |
| Ordering.SortIdempotent | main.py:390-394 | sorting the sorted list changes nothing: a rebuild with no time changed leaves the list where the last rebuild put it |
| Ordering.NewestComesFirst | main.py:390-394 | a note strictly newer than all the others comes first |
| Ordering.SortIsStable | main.py:390-394 | notes with the same time keep their relative order |
| Ordering.SortKeepsNoDup | main.py:390-396 | the sort of a list without duplicates has none |
| Ordering.SortedAfterRemoval | main.py:1114 | removing an entry keeps the list newest first |
| Ordering.DayKeys | main.py:433-437 | the days in order of first appearance, as the `defaultdict` keeps them |
| Ordering.DayKeysNoDup | main.py:433-437 | each day is one group |
| Ordering.DayGroup | main.py:433-437 | a day's group holds exactly the indices of the notes of that day |
| Ordering.DayGroupIncreasing | main.py:433-437 | a day's group lists its notes in list order |
| Ordering.NonFavorites | main.py:445-446 | a group without its favorites keeps exactly its non-favorite indices |
| Ordering.NonFavoritesIncreasing | main.py:445-446 | skipping favorites keeps list order |
| Ordering.Rest | main.py:439-457 | after the favorites come exactly the non-favorite notes of the listed days |
| Ordering.RestNoDup | main.py:439-457 | no note is shown twice after the favorites |
| Ordering.ValidFavorites | main.py:412 | the favorites still listed, in iteration order |
| Ordering.ValidFavoritesNoDup | main.py:412 | no favorite is listed twice |
| Ordering.FavoriteIndices | main.py:415-419 | each shown favorite maps to its index in the list |
| Ordering.FavoriteIndicesNoDup | main.py:415-419 | no index appears twice among the favorites |
| Ordering.FavoriteIndicesCover | main.py:412-419 | every listed favorite is shown |
| Ordering.VisualOrderNoDup | main.py:379-457 | the visual order shows no index twice |
| Ordering.VisualOrderCovers | main.py:379-457 | the visual order shows every index of the list |
| Ordering.VisualOrderFavoritesFirst | main.py:408-457 | the first entries are exactly the shown favorites, the rest are not favorites |
| Ordering.VisualOrderIsPermutation | main.py:379-457 | `visual_to_index` is a permutation of the indices, favorites first |
| Ordering.DayKeysNewestFirst | main.py:433-440 | on a newest-first list with a monotone day function, the day groups come newest day first |
| Ordering.RestIncreasing | main.py:439-457 | with newest-day-first groups, the notes after the favorites are in list order |
| Ordering.NonFavoritesInListOrder | main.py:390-457 | with a monotone day function, the non-favorite part of `visual_to_index` is increasing |
| Cursor.VisualPosition | main.py:528-537 | the position shows the selection and is its first occurrence; it is -1 exactly when there is no note, no selection, or it is not shown |
| Cursor.PositionOfShownNote | main.py:528-537 | in a permutation, the note shown at position p is found at p |
| Cursor.SelectionIsShown | main.py:528-537 | a selection is on screen exactly when it is an index of the list |
| Cursor.MoveUpStep | main.py:539-554 | move up keeps a selection at the top or off screen; otherwise it selects a listed note one line higher |
| Cursor.MoveDownStep | main.py:556-571 | move down keeps a selection at the bottom or off screen; otherwise it selects a listed note one line lower |
| Cursor.MovesAreInverse | main.py:539-571 | down after a move up, and up after a move down, return to the same note |
| MenuView.NoteLines | main.py:415-427 | one line per shown index, bracketed exactly when it is the selection |
| MenuView.NoteLinesSelected | main.py:421-456 | a block brackets as many lines as the selection occurs in its indices |
| MenuView.GroupLinesSelected | main.py:439-457 | the day blocks bracket as many lines as the selection occurs among the non-favorites |
| MenuView.FavoriteLinesSelected | main.py:408-431 | the favorites block brackets as many lines as the selection occurs among the shown favorites |
| MenuView.NoValidFavorites | main.py:408-412 | with no favorites no favorite line is shown |
| MenuView.MenuLinesShape | main.py:376-457 | the menu of a non-empty list is the title, a blank line, the favorites block, then the day blocks |
| MenuView.MenuSelectedLines | main.py:376-457 | the menu brackets as many lines as the selection occurs in the visual order |
| MenuView.MenuHighlightsSelection | main.py:376-457 | exactly one line is bracketed when the selection is an index of the list, none otherwise |
| MenuView.ReadErrorTextIsReadError | main.py:512 | the text of a failed read is recognisable as one |
| MenuView.PreviewPaneShows | main.py:491-510 | the preview is the header and the note, "[ Note vide ]" when empty, and the first 800 characters and the marker when 800 or longer |
| MenuBuilder.CollectValidFavorites | main.py:412 | the loop computes the favorites still listed |
| MenuBuilder.ListFavorites | main.py:415-427 | the loop appends each shown favorite's index and its line |
| MenuBuilder.GroupByDay | main.py:433-437 | the loop builds the day keys in first-appearance order and each day's group |
| MenuBuilder.ListDay | main.py:443-457 | the loop skips favorites and appends the other indices and their lines |
| MenuBuilder.ListDayGroups | main.py:439-460 | the loop over the days produces the non-favorite order and the day blocks |
| MenuBuilder.SortedSelection | main.py:389-405 | the list is sorted newest first and the selection keeps its index |
| MenuBuilder.MenuLayout | main.py:374-466 | the visual order and the menu lines are those the specification functions define |
| NotesApp.Toggle | main.py:599-602 | the note's membership flips and no other changes |
| NotesApp.ToggleTwice | main.py:592-603 | toggling twice restores the favorites |
| NotesApp.MoveButton | main.py:834-837 | the highlighted button stays 0 or 1, and an arrow always changes it |
| NotesApp.ConfirmAfterOddMoves | main.py:783-858 | after any arrows the button is 0 or 1, and it is the starting one exactly after an even number of presses |
| NotesApp.ClampSelection | main.py:1122-1125 | -1 for an empty list, the last index when past the end, the same index otherwise |
| NotesApp.CancelTimer | main.py:1222-1223 | `after_cancel` drops exactly the timer with that id |
| NotesApp.TextStatistics | main.py:289-297 | the word count never exceeds the character count, which never exceeds the text; no words exactly when the text is all whitespace |
| NotesApp.CandidateIsNote | main.py:615-620 | every name the creation loop tries ends in ".txt" |
| NotesApp.TxtNotesNoDup | main.py:141 | the filtered listing has no duplicates |
| NotesApp.ListingNotes | main.py:141 | the start-up list holds each note file of the directory once |
| NotesApp.SavedNoteFiles | main.py:1229-1237 | a save, failed or not, keeps the set of note files |
| NotesApp.CreatedNoteFiles | main.py:626-630 | the created file is listed once, at the head |
| NotesApp.RenamedNoteFiles | main.py:1034-1038 | the renamed file takes the old entry's place, and the list stays newest first |
| NotesApp.RemovedNoteFiles | main.py:1114-1115 | the removed file leaves the list, which stays newest first |
| NotesApp.RenameStaysSorted | main.py:1034-1038 | a rename keeps the time, so the list stays newest first |
| NotesApp.RemovalStaysSorted | main.py:1114-1115 | a removal keeps the list newest first |
| NotesApp.SortedListing | main.py:390-399 | the sorted list holds the same note files and is newest first |
| NotesApp.SelectionFollowsPosition | main.py:401-405 | editing the second of two notes and going back moves it to the head, so index 1 now holds the other note |
| NotesApp.MenuIsPermutation | main.py:379-457 | the visual order of a list of distinct files is a permutation of its indices |
| NotesApp.LayOutMenu | main.py:374-466 | the visual order is a permutation and the pane is the rendering of the list |
| NotesApp.App.constructor | main.py:139-154 | the list is the listing's note files sorted newest first; the first note is selected when there is one; the saved favorites are loaded; the menu is shown |
| NotesApp.App.GetMenuText | main.py:374-466 | the list is re-sorted newest first, the selection keeps its index, and the pane and visual order are drawn from it |
| NotesApp.App.SortNotes | main.py:389-405 | the list becomes its newest-first sort and the selection keeps its index |
| NotesApp.App.DrawMenu | main.py:407-457 | the favorites are iterated in some order and the pane and visual order are drawn from the list |
| NotesApp.App.ShowPreview | main.py:490-515 | the preview shows the selected note or, only when a note is selected, the read error; without a selection it shows the no-selection text |
| NotesApp.App.LoadMenu | main.py:469-525 | menu mode; the list is the newest-first sort of the old one; the selection keeps its index; the menu keys are live unless an overlay is open |
| NotesApp.App.MoveUp | main.py:539-554 | the selection becomes the move-up target, one visual line higher when there was one; the list is unchanged; at the top or off screen nothing the menu shows changes |
| NotesApp.App.MoveDown | main.py:556-571 | the selection becomes the move-down target, one visual line lower when there was one; the list is unchanged; at the bottom or off screen nothing the menu shows changes |
| NotesApp.App.ToggleFavorite | main.py:592-609 | without a selection nothing the menu shows changes, panes and favorite order included; otherwise exactly the selected note's membership flips |
| NotesApp.App.CreateNewNote | main.py:611-634 | the first free candidate name, an empty file, at the head of the list, selected and opened in the editor, which shows the empty text or the read error |
| NotesApp.App.AddNote | main.py:626-631 | the empty file is written and put at the head of the list, where the selection moves |
| NotesApp.App.OpenNote | main.py:1137-1187 | without notes nothing changes; otherwise the editor opens on the selected note with its text or the read error |
| NotesApp.App.EnterEditor | main.py:1141-1183 | editor mode on the selected note with its text or the read error, taken as the last saved text; nothing pending |
| NotesApp.App.RenameNote | main.py:896-912 | the dialog opens on the selected note, or nothing happens without a selection |
| NotesApp.App.ProcessRename | main.py:1008-1055 | a refused name or a failed rename shows its error and changes nothing else; an accepted one renames in place, selects it, keeps it a favorite and closes the dialog |
| NotesApp.App.AcceptRename | main.py:1030-1050 | the file and its entry are renamed, the dialog closes and the menu is rebuilt |
| NotesApp.App.ShowRenameError | main.py:1012-1027 | the dialog stays on the same note with the error, and nothing else changes |
| NotesApp.App.ApplyRename | main.py:1030-1044 | only the entry of the renamed note changes, the selection moves to it, a favorite is re-keyed |
| NotesApp.App.CancelRename | main.py:1058-1066 | the dialog closes and nothing else changes |
| NotesApp.App.DeleteNote | main.py:1102-1135 | the panel opens on the selected note with "Annuler" highlighted, or nothing happens without a selection |
| NotesApp.App.ConfirmMove | main.py:834-837 | the highlighted button moves by the arrow, modulo 2 |
| NotesApp.App.ConfirmEscape | main.py:891 | the panel closes and nothing is deleted |
| NotesApp.App.ConfirmReturn | main.py:852-858 | the panel closes; the note is deleted only when "Confirmer" is highlighted, and otherwise nothing else changes |
| NotesApp.App.DoDelete | main.py:1111-1129 | a failed removal changes nothing; otherwise the note leaves the directory, the list and the favorites, and the selection is clamped in list order |
| NotesApp.App.RemoveNote | main.py:1112-1125 | the file and its entry go, the favorite goes, the index is clamped |
| NotesApp.App.EditorStatistics | main.py:284-298 | counts exist only in the editor, and are those of the edited text |
| NotesApp.App.DeferSave | main.py:1220-1227 | the pending save is cancelled and exactly one is scheduled 500 ms later |
| NotesApp.App.EditText | main.py:1168 | Tk's Text bindings (a key going down, a paste) set the editor text and schedule nothing |
| NotesApp.App.KeyReleased | main.py:1180 | a key release in the editor leaves exactly one save pending, the new one |
| NotesApp.App.SaveNow | main.py:1229-1237 | one write of the text and its newline is attempted, and the job is cleared whether it fails or not |
| NotesApp.App.SaveTimerFires | main.py:1225 | the due save runs once and nothing is left pending |
| NotesApp.App.BackToMenu | main.py:1189-1218 | exactly one save, nothing pending, then the menu with the re-sorted list and the same selection index |
| NotesApp.App.FlushEditor | main.py:1193-1199 | the pending save is cancelled and the text is saved once |
| NotesApp.App.QuitApp | main.py:1239-1249 | the window closes; the text is saved once exactly when a save was pending in the editor |
| NotesApp.DebounceScenario | main.py:1220-1237 | two key releases within the delay lead to one save, of the last text |
| NotesApp.QuitLosesUnreleasedEdit | main.py:1239-1245 | an edit with no key release after it, once the autosave has run, is not saved when the window closes: nothing is written and the editor text differs from the last one saved |

## Left out

- Tk widgets, layout, colours, the header and subtitle texts, the window
  icon, the help panel (`show_help_popup`) and the help and status texts
  that depend on the window width. They are presentation only.
- The reading-time text of the status bar. It uses float division.
- Key bindings are not modelled as data. Each handler instead requires the
  mode in which its key is bound. The saving and restoring of bindings in
  `prev_bindings` is not modelled.
- NotesApp.App.MoveUp requires `MenuReady()`, so no dialog is open. The source leaves Up bound while the confirmation panel is open (main.py:778-780).
- NotesApp.App.MoveDown requires `MenuReady()`. The source leaves Down bound while the confirmation panel is open (main.py:778-780).
- NotesApp.App.ToggleFavorite requires `MenuReady()`. The source leaves `f` bound while the confirmation panel or the rename dialog is open (main.py:778-780, 910-912).
- NotesApp.App.RenameNote requires `MenuReady()`. The source leaves `r` bound while the confirmation panel is open (main.py:778-780).
- NotesApp.App.LoadMenu is only reached with no dialog open. In the source, any of the keys above calls `load_menu` under an open dialog, and `load_menu` then rebinds every menu key, Return included (main.py:338-346, 525). The model treats both dialogs as modal and does not cover these interleavings.
- NotesApp.App.OpenNote, NotesApp.App.DeleteNote and NotesApp.App.CreateNewNote also require `MenuReady()`. After such a rebinding, Return, `d` and `n` would reach them under an open dialog.
- Favorites persistence (`load_favorites` and `save_favorites`,
  main.py:573-590). The constructor takes the favorites read from disk as a
  parameter. Writes of the favorites file are not modelled, and their errors
  are ignored by the source.
- Changes to the notes directory made outside the browser. The store
  changes only through the browser's own operations.
- The clock and the timestamp. `now`, the `strftime` timestamp of
  `create_new_note` and the day of a modification time are parameters.
  Modification times are integers.
- Ordering.Days groups notes by a day function and NotesApp.App.DrawMenu
  labels a group with `dayLabel`. The source groups by the formatted string
  `"%d/%m/%Y"` (main.py:434). The two agree when the label of a day is
  unique to it, which holds for that format.
- NotesApp.App.CreateNewNote does not model the exception that the unguarded
  `open(base_path, "w")` of `create_new_note` (main.py:626) would raise. The
  write is taken to succeed.
- The outcome of each file operation is a parameter: `removeFails`,
  `renameFails`, the preview read of `load_menu` and the `readError` of
  `open_note`. NotesApp.App.ShowPreview chooses the read outcome and its
  error text freely.
- NotesApp.App.SaveNow and NoteStore.SaveAttempt take a failed save's effect
  on the file as a parameter (`failure`). The file may have been truncated
  by `open(..., "w")` or partly written. The model does not say which.
- The text of the exception a failed rename shows (main.py:1054). The model
  records `RenameFailed`.
- The newline that `Text.get("1.0", END)` appends is added on every save.
  The editor text is taken to be what the user typed, without that newline.
- When a note cannot be read, `open_note` puts the error text in the editor,
  and `back_to_menu` saves that text over the note (main.py:1177-1178,
  1193-1199). The model reproduces this and proves nothing against it.
- Set iteration order of CPython. The favorites come out in an arbitrary
  enumeration (Ordering.EnumerateSet), chosen again at every rebuild.
- The quit flush follows the code: `quit_app` saves only in the editor with
  a save pending (main.py:1243-1245), not always. An edit made after the
  last autosave without a key release (a paste, or a key still held) is
  lost when the window closes (NotesApp.QuitLosesUnreleasedEdit).
