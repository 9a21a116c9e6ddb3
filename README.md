# File-drop settings of the CotEditor preferences pane, in Dafny

CotEditor's "File Drop" preferences pane holds a list of file-drop settings.
Each setting is a string dictionary with an `extensions` list, a syntax
`scope` and an insertion format. Together they say what text is inserted when
a file is dropped into a document. The pane controller does four things with
this list:

- it cleans what the user types as extensions (the sanitiser);
- it writes the list to the user defaults, leaving out rows with neither an extension nor a scope;
- it reads the list back from the user defaults;
- it appends a row, and deletes a row once the user confirms.

The model has three modules:

- `ExtensionSanitizer` (`sanitizer.dfy`) is the pure sanitiser. It cuts the
  text at the eight characters comma, space, period, slash, backslash, tab,
  CR and LF. The constant `TrimSet` holds these; it is the character set of
  `FileDropPaneController.swift` line 221. The sanitiser drops the empty
  pieces and joins the rest with `", "`. Splitting is modelled as `Components`. Two partners check it: `Weave`, its
  inverse, and `Scan`, a single-pass reference definition of the maximal runs
  of non-trim characters.
- `FileDropSettings` (`settings.dfy`) holds settings as `map<string,string>`.
  `Value` is the source's `setting[key] ?? ""` (line 195): a missing key
  reads as `""`. `IsKept` is the filter closure of line 195: a setting is
  saved when its extensions or its scope is non-empty. The module has the
  save filter (`IsKept` and `SavedList`)
  and the removal of one row (`RemoveAt`). The saved list is proved to be the one
  and only subsequence of the rows that keeps every row with an extension or
  a scope and drops every other row.
- `FileDropPane` (`controller.dfy`) has the class `FileDropPaneController`.
  It has two fields: `content`, the rows of the array controller, and
  `stored`, the user-defaults entry. `stored` has the datatype
  `DefaultsValue`, which gives the three outcomes of reading the entry with
  `as? [[String: String]]` at line 209. `Missing` is an absent entry.
  `Malformed` is a value of another type. `SettingList` is a list of string
  dictionaries. Its methods are the controller's own:
  save, load (a loop copying each stored setting), add, delete, remove, and
  the editing and view-lifecycle hooks that call them. The user's answer to
  the delete confirmation sheet is a boolean parameter. The table's selected
  row is an integer parameter, where `-1` means no selection.

## Model

| member | source | states |
|---|---|---|
| `ExtensionSanitizer.Components` | CotEditor/Sources/FileDropPaneController.swift:224 | Splitting at the trim set gives one piece more than the input has trim characters. No piece contains a trim character, and the pieces together spell the input with its trim characters removed |
| `ExtensionSanitizer.WeaveComponents` | CotEditor/Sources/FileDropPaneController.swift:224 | Putting the pieces back together with the input's own separator characters gives the input back |
| `ExtensionSanitizer.ComponentsOfWeave` | CotEditor/Sources/FileDropPaneController.swift:224 | The other direction: splitting trim-free pieces woven with trim characters gives those pieces back |
| `ExtensionSanitizer.ComponentsAtSeparator` | CotEditor/Sources/FileDropPaneController.swift:224 | Splitting `x + [c] + y` at a trim character `c` gives the pieces of `x` followed by the pieces of `y` |
| `ExtensionSanitizer.NonEmpty` | CotEditor/Sources/FileDropPaneController.swift:225 | The filter keeps only non-empty pieces and loses no character |
| `ExtensionSanitizer.NonEmptyAppend` | CotEditor/Sources/FileDropPaneController.swift:225 | Filtering a concatenation is the concatenation of the filtered parts |
| `ExtensionSanitizer.StripEmpty` | CotEditor/Sources/FileDropPaneController.swift:224-225 | Removing the trim characters leaves nothing exactly when every character is a trim character |
| `ExtensionSanitizer.Tokens` | CotEditor/Sources/FileDropPaneController.swift:223-225 | The pieces kept after splitting and filtering are exactly the maximal runs of non-trim characters, in input order, as the single-pass scanner defines them. All are non-empty and trim-free, and together they are the input without its trim characters |
| `ExtensionSanitizer.Join` | CotEditor/Sources/FileDropPaneController.swift:226 | Joining no pieces gives `""`, and one piece gives that piece. No piece is longer than the result. `SplitJoin` and `ComponentsOfJoin` below state that the pieces are recovered from the result |
| `ExtensionSanitizer.JoinShape` | CotEditor/Sources/FileDropPaneController.swift:226 | Joining tokens with `", "` gives `""` exactly for no tokens. Otherwise the result starts and ends with a non-trim character, every comma is followed by a space, and every space follows a comma |
| `ExtensionSanitizer.ComponentsOfJoin` | CotEditor/Sources/FileDropPaneController.swift:223-226 | Splitting and filtering a `", "`-joined token list gives the token list back |
| `ExtensionSanitizer.SplitJoin` | CotEditor/Sources/FileDropPaneController.swift:226 | Splitting a `", "`-joined non-empty token list at `", "` gives the token list back |
| `ExtensionSanitizer.Sanitize` | CotEditor/Sources/FileDropPaneController.swift:219-227 | The output is the maximal runs of non-trim characters of the input, as the independent scanner finds them, joined with `", "` |
| `ExtensionSanitizer.SanitizeShape` | CotEditor/Sources/FileDropPaneController.swift:221-226 | The output contains no `.`, `/`, `\`, tab, CR or LF. Commas and spaces occur only as the two halves of `", "`. A non-empty output neither starts nor ends with a trim character |
| `ExtensionSanitizer.SanitizeEmpty` | CotEditor/Sources/FileDropPaneController.swift:224-226 | The output is empty exactly when every character of the input is a trim character, the empty input included |
| `ExtensionSanitizer.SanitizeSplit` | CotEditor/Sources/FileDropPaneController.swift:223-226 | Splitting a non-empty output at `", "` gives exactly the maximal runs of non-trim characters of the input, in order |
| `ExtensionSanitizer.SanitizeIdempotent` | CotEditor/Sources/FileDropPaneController.swift:219-227 | Sanitising twice gives the same result as sanitising once |
| `ExtensionSanitizer.SanitizeCrLf` | CotEditor/Sources/FileDropPaneController.swift:221-226 | `"a\r\nb"` sanitises to `"a, b"`: CR and LF are two separate trim characters and the empty piece between them is dropped |
| `ExtensionSanitizer.SanitizePathFragment` | CotEditor/Sources/FileDropPaneController.swift:221-226 | `" .txt, md "` sanitises to `"txt, md"`: leading and trailing spaces and periods are dropped |
| `FileDropSettings.IsKeptIgnoresOtherKeys` | CotEditor/Sources/FileDropPaneController.swift:195 | Changing any entry other than `extensions` and `scope`, for example the insertion format, does not change whether the setting is saved |
| `FileDropSettings.SavedListAppendEmptyRow` | CotEditor/Sources/FileDropPaneController.swift:195 | An empty dictionary is not saved, so appending one to the rows leaves the saved list as it was |
| `FileDropSettings.SavedList` | CotEditor/Sources/FileDropPaneController.swift:194-196 | Every saved setting has a non-empty extensions or scope. Every such row of the content is saved. Nothing is saved that is not in the content |
| `FileDropSettings.SavedListIsSubsequence` | CotEditor/Sources/FileDropPaneController.swift:194-196 | The saved list is a subsequence of the content, in order, with as many elements as the content has rows with an extension or a scope |
| `FileDropSettings.KeptSubsequenceBound` | CotEditor/Sources/FileDropPaneController.swift:194-196 | A subsequence made only of such rows has no more elements than the content has such rows |
| `FileDropSettings.SavedListUnique` | CotEditor/Sources/FileDropPaneController.swift:194-196 | Any subsequence of the content that has only such rows, and as many as the content has, is the saved list |
| `FileDropSettings.SavedListAppend` | CotEditor/Sources/FileDropPaneController.swift:194-196 | Filtering a concatenation is the concatenation of the filtered parts |
| `FileDropSettings.SavedListOfKept` | CotEditor/Sources/FileDropPaneController.swift:194-196 | Content where every row has an extension or a scope is saved unchanged |
| `FileDropSettings.SavedListIdempotent` | CotEditor/Sources/FileDropPaneController.swift:194-196 | Filtering the saved list again changes nothing |
| `FileDropSettings.RemoveAt` | CotEditor/Sources/FileDropPaneController.swift:255 | Removing row `r` shortens the list by one. Rows before `r` stay where they were, rows after it move up by one, and the multiset loses exactly the removed setting |
| `FileDropSettings.RemoveAtInverse` | CotEditor/Sources/FileDropPaneController.swift:255 | Inserting the removed setting back at its row restores the list |
| `FileDropSettings.SavedListAfterRemove` | CotEditor/Sources/FileDropPaneController.swift:255-256 | Deleting a row that would not be saved leaves the saved list as it was. Deleting a row that would be saved removes exactly its entry from the saved list |
| `FileDropPane.FileDropPaneController.SaveSetting` | CotEditor/Sources/FileDropPaneController.swift:190-197 | The defaults entry becomes the filtered list of the current rows. Only `stored` changes |
| `FileDropPane.FileDropPaneController.LoadSetting` | CotEditor/Sources/FileDropPaneController.swift:201-215 | The rows become the stored list element for element. An absent or ill-typed entry gives no rows. Only `content` changes |
| `FileDropPane.FileDropPaneController.ViewDidAppear` | CotEditor/Sources/FileDropPaneController.swift:82-87 | Appearing reloads the rows from the defaults |
| `FileDropPane.FileDropPaneController.ViewWillDisappear` | CotEditor/Sources/FileDropPaneController.swift:91-97 | Disappearing saves the rows |
| `FileDropPane.FileDropPaneController.AddSetting` | CotEditor/Sources/FileDropPaneController.swift:166-171 | A new empty setting is appended, and the saved list of the rows is unchanged by it. Nothing is saved |
| `FileDropPane.FileDropPaneController.DeleteSetting` | CotEditor/Sources/FileDropPaneController.swift:231-258 | Returns the extensions shown in the confirmation, or `""` when the row has none. A confirmed delete removes exactly row `r` and then saves, so deleting a row that would not be saved leaves the saved list as before. A cancelled delete changes nothing |
| `FileDropPane.FileDropPaneController.RemoveSetting` | CotEditor/Sources/FileDropPaneController.swift:175-183 | With no selection (`-1`) nothing is asked and nothing changes. Otherwise it acts as a delete of the selected row |
| `FileDropPane.FileDropPaneController.ControlTextShouldEndEditing` | CotEditor/Sources/FileDropPaneController.swift:104-116 | For the extensions field the text becomes its sanitised form and the rows are saved. Other fields are left alone. Editing may always end |
| `FileDropPane.FileDropPaneController.TextDidEndEditing` | CotEditor/Sources/FileDropPaneController.swift:137-142 | Only the insertion-format text view saves the rows |
| `FileDropPane.CloseAndReopen` | CotEditor/Sources/FileDropPaneController.swift:82-97 | Closing and reopening the pane leaves exactly the saved list as rows. Those rows all have an extension or a scope, and the defaults hold them |

## Left out

- `CotEditor/Sources/HexColorTransformer.swift` is not part of this model. It is a wrapper around colour-code conversion calls whose code is not available, working on floating-point colour components.
- `Tests/ThemeTests.swift` is not part of this model. It tests a theme type whose code is not available, through JSON files, bundle lookup and floating-point colour comparisons.
- The user defaults are the `stored` field, not real persistent storage. The array controller is the `content` field. Its arranged objects are taken to be the content in the same order, with no sorting or filtering.
- The confirmation sheet is the `confirmed` parameter, and the deletion happens at once rather than in the sheet's later completion handler. Hiding the swipe actions on cancel is table-view state and is not modelled.
- Menu construction, variable insertion into the format text view, swipe row actions, `deinit` and localised strings are user-interface plumbing with nothing to verify.
- `endEditing()`, which commits an edit in progress before add, remove and disappear, is not modelled.
- After `ControlTextShouldEndEditing` returns, the table binding writes the sanitised text into the edited row. That binding is not modelled, so the rows saved by this hook are the rows as they were before the edit.
- The optional outlets are taken to be connected. The type checks `as? [[String: String]]` of the rows in save and delete always succeed, because `content` has that type.
- The key strings `"extensions"` and `"scope"` are defined in `FileDropComposer`, which is not part of this model. The model takes those two literals. A row added by the array controller is taken to be an empty dictionary.
- Splitting works on Dafny characters, not on the UTF-16 units that `components(separatedBy:)` uses. Each of the eight trim characters is a single unit, so the model cuts at the same places as the source. A CR LF pair counts as two separators, as it does in the source. Grapheme clusters and Unicode normalisation are not modelled.
- `FileDropPane.FileDropPaneController.ControlTextShouldEndEditing`: the field editor's text is taken to be present. The source skips sanitising when `fieldEditor.string` is nil.
- `FileDropPane.FileDropPaneController.DeleteSetting`: indexing `objects[row]` with a row out of range traps at run time. This is modelled as the precondition `row < |content|`. Both callers pass a valid row: the current selection, and the row of a swipe action.
