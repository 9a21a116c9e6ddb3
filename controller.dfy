/**
 Model of the file-drop preferences pane controller.

 The controller keeps the rows shown in the settings table (the array
 controller's content) and writes them back to, and reads them from, one
 user-defaults entry.  Both are fields of the class; the table, its
 selection and the confirmation sheet enter as parameters.
 */
module FileDropPane {
  import opened FileDropSettings
  import ExtensionSanitizer

  /** What the user defaults hold under the file-drop key: nothing, a value
      that is not a list of string dictionaries, or such a list. */
  datatype DefaultsValue = Missing | Malformed | SettingList(settings: seq<Setting>)

  class FileDropPaneController {
    /** The rows of the settings table, in order. */
    var content: seq<Setting>
    /** The user-defaults entry holding the saved settings. */
    var stored: DefaultsValue

    /** A pane over the given defaults, before its view has appeared. */
    constructor (defaults: DefaultsValue)
      ensures content == [] && stored == defaults
    {
      content := [];
      stored := defaults;
    }

    /** Writes the rows that have an extension or a scope back to the user
        defaults, in order; rows with neither are not saved. */
    method SaveSetting()
      modifies this`stored
      ensures stored == SettingList(SavedList(content))
    {
      stored := SettingList(SavedList(content));
    }

    /** Replaces the rows by a copy of the saved list, element by element;
        a missing or ill-typed defaults value gives no rows. */
    method LoadSetting()
      modifies this`content
      ensures stored.SettingList? ==> content == stored.settings
      ensures !stored.SettingList? ==> content == []
    {
      var loaded: seq<Setting> := [];
      if stored.SettingList? {
        var settings := stored.settings;
        var i := 0;
        while i < |settings|
          invariant 0 <= i <= |settings|
          invariant loaded == settings[..i]
        {
          loaded := loaded + [settings[i]];
          i := i + 1;
        }
        assert settings[..|settings|] == settings;
      }
      content := loaded;
    }

    /** The view appeared: the rows are reloaded from the defaults. */
    method ViewDidAppear()
      modifies this`content
      ensures stored.SettingList? ==> content == stored.settings
      ensures !stored.SettingList? ==> content == []
    {
      LoadSetting();
    }

    /** The view is about to disappear: the rows are saved. */
    method ViewWillDisappear()
      modifies this`stored
      ensures stored == SettingList(SavedList(content))
    {
      SaveSetting();
    }

    /** Appends a new, empty setting row; the new row would not be saved. */
    method AddSetting()
      modifies this`content
      ensures content == old(content) + [map[]]
      ensures SavedList(content) == SavedList(old(content))
    {
      SavedListAppendEmptyRow(content);
      content := content + [map[]];
    }

    /** Asks whether the setting at `row` should be deleted, showing its
        extensions; when the user confirms, removes exactly that row and saves
        the rest, otherwise changes nothing. */
    method DeleteSetting(row: nat, confirmed: bool) returns (shownExtensions: string)
      requires row < |content|
      modifies this
      ensures shownExtensions == Value(old(content)[row], ExtensionsKey)
      ensures confirmed ==> content == RemoveAt(old(content), row)
      ensures confirmed ==> stored == SettingList(SavedList(content))
      ensures confirmed && !IsKept(old(content)[row]) ==> stored == SettingList(SavedList(old(content)))
      ensures !confirmed ==> content == old(content) && stored == old(stored)
    {
      shownExtensions := Value(content[row], ExtensionsKey);
      if confirmed {
        SavedListAfterRemove(content, row);
        content := RemoveAt(content, row);
        SaveSetting();
      }
    }

    /** Deletes the selected row once the user confirms; with no selection
        (row -1) nothing happens and nothing is asked. */
    method RemoveSetting(selectedRow: int, confirmed: bool) returns (asked: bool)
      requires -1 <= selectedRow < |content|
      modifies this
      ensures asked <==> selectedRow != -1
      ensures selectedRow == -1 ==> content == old(content) && stored == old(stored)
      ensures selectedRow != -1 && confirmed ==> content == RemoveAt(old(content), selectedRow)
      ensures selectedRow != -1 && confirmed ==> stored == SettingList(SavedList(content))
      ensures !confirmed ==> content == old(content) && stored == old(stored)
    {
      if selectedRow == -1 {
        return false;
      }
      var _ := DeleteSetting(selectedRow, confirmed);
      asked := true;
    }

    /** A text field is about to end editing.  For the extensions column the
        typed text is replaced by its sanitised form and the rows are saved;
        any other field is left alone.  Editing may always end. */
    method ControlTextShouldEndEditing(isExtensionsField: bool, text: string)
      returns (newText: string, shouldEnd: bool)
      modifies this`stored
      ensures shouldEnd
      ensures isExtensionsField ==> newText == ExtensionSanitizer.Sanitize(text)
      ensures isExtensionsField ==> stored == SettingList(SavedList(content))
      ensures !isExtensionsField ==> newText == text && stored == old(stored)
    {
      if !isExtensionsField {
        return text, true;
      }
      newText := ExtensionSanitizer.Sanitize(text);
      SaveSetting();
      shouldEnd := true;
    }

    /** A text view ended editing; only the insertion-format view saves. */
    method TextDidEndEditing(isFormatTextView: bool)
      modifies this`stored
      ensures isFormatTextView ==> stored == SettingList(SavedList(content))
      ensures !isFormatTextView ==> stored == old(stored)
    {
      if isFormatTextView {
        SaveSetting();
      }
    }
  }

  /** Closing and reopening the pane drops exactly the rows with neither an
      extension nor a scope: the rows shown afterwards are the saved list of
      those shown before, and saving them again would store the same list. */
  method CloseAndReopen(pane: FileDropPaneController)
    modifies pane
    ensures pane.content == SavedList(old(pane.content))
    ensures pane.stored == SettingList(pane.content)
    ensures SavedList(pane.content) == pane.content
  {
    pane.ViewWillDisappear();
    pane.ViewDidAppear();
    SavedListIdempotent(old(pane.content));
  }
}
