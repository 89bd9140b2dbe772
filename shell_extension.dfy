/** The Explorer context-menu extension `CropperContextMenuExtension`: it
    caches the selection handed over by `IShellExtInit.Initialize`, adds one
    menu item, recognises its own verb, answers command-string queries, and
    launches `cropper.exe` on the first selected file.

    COM, `InsertMenu`, `DragQueryFile`, `GetDisplayName` and `Process.Start`
    are not modelled; what they report is a parameter (the display names of
    the selected items, the names in a drop handle, whether the insertion
    succeeded, the message of a failed process start). */
module ShellExtension {
  import opened Wrappers
  import opened NativeMethods
  import opened AsciiCase

  const MenuText := "Crop with PyCropper"
  const HelpText := "Crop selected file with PyCropper"
  const CropperExecutable := "cropper.exe"
  const Verb := "pycropper"
  const DialogCaption := "PyCropper Shell Extension"
  const InsertMenuFailedMessage := "Failed to insert the PyCropper context menu item."

  // ---------------------------------------------------------------------
  // .NET string predicates

  /** `Char.IsWhiteSpace`: the Unicode space, line and paragraph separators,
      plus U+0009..U+000D and U+0085. */
  predicate IsWhiteSpace(c: char) {
    var n := c as int;
    (0x09 <= n <= 0x0D) || n == 0x20 || n == 0x85 || n == 0xA0 || n == 0x1680 ||
    (0x2000 <= n <= 0x200A) || n == 0x2028 || n == 0x2029 || n == 0x202F ||
    n == 0x205F || n == 0x3000
  }

  /** `string.IsNullOrWhiteSpace`: null, empty, or nothing but white space. */
  predicate IsNullOrWhiteSpace(s: Option<string>) {
    s.None? || forall i :: 0 <= i < |s.value| ==> IsWhiteSpace(s.value[i])
  }

  /** `string.Equals(a, b, StringComparison.OrdinalIgnoreCase)` for a
      non-null `b`: a null `a` never matches. */
  predicate EqualsOrdinalIgnoreCase(a: Option<string>, b: string) {
    a.Some? && |a.value| == |b| &&
    forall i :: 0 <= i < |b| ==> UpperAscii(a.value[i]) == UpperAscii(b[i])
  }

  /** The verb is matched ignoring case: exactly the strings that lower-case
      to `pycropper`. */
  lemma MatchesVerbIffLowersToVerb(s: string)
    ensures EqualsOrdinalIgnoreCase(Some(s), Verb) <==> ToLowerAscii(s) == Verb
  {
    if EqualsOrdinalIgnoreCase(Some(s), Verb) {
      forall i | 0 <= i < |Verb| ensures ToLowerAscii(s)[i] == Verb[i] {
        assert UpperAscii(s[i]) == UpperAscii(Verb[i]);
      }
    }
    if ToLowerAscii(s) == Verb {
      forall i | 0 <= i < |Verb| ensures UpperAscii(s[i]) == UpperAscii(Verb[i]) {
        assert LowerAscii(s[i]) == Verb[i];
      }
    }
  }

  // ---------------------------------------------------------------------
  // Selection filtering

  /** A selected item is kept when it has a path that is not blank. */
  function Kept(item: Option<string>): (kept: seq<string>)
    ensures |kept| <= 1
    ensures kept != [] <==> !IsNullOrWhiteSpace(item)
    ensures kept != [] ==> item == Some(kept[0])
  {
    if IsNullOrWhiteSpace(item) then [] else [item.value]
  }

  /** The paths of `items` that are neither null nor blank, in their order. */
  function NonBlankPaths(items: seq<Option<string>>): (paths: seq<string>)
    ensures |paths| <= |items|
    ensures forall k :: 0 <= k < |paths| ==> !IsNullOrWhiteSpace(Some(paths[k]))
    decreases |items|
  {
    if items == [] then []
    else NonBlankPaths(items[..|items| - 1]) + Kept(items[|items| - 1])
  }

  /** Filtering distributes over concatenation: with the single-item case
      `Kept`, this pins the filter down as "keep the non-blank paths, in
      order". */
  lemma {:induction false} NonBlankPathsAppend(a: seq<Option<string>>, b: seq<Option<string>>)
    ensures NonBlankPaths(a + b) == NonBlankPaths(a) + NonBlankPaths(b)
    decreases |b|
  {
    if b == [] {
      assert a + b == a;
    } else {
      var b' := b[..|b| - 1];
      assert (a + b)[..|a + b| - 1] == a + b';
      assert (a + b)[|a + b| - 1] == b[|b| - 1];
      NonBlankPathsAppend(a, b');
    }
  }

  /** Membership: a path survives iff some item carries it and it is not
      blank. */
  lemma {:induction false} NonBlankPathsMembership(items: seq<Option<string>>, p: string)
    ensures p in NonBlankPaths(items) <==> Some(p) in items && !IsNullOrWhiteSpace(Some(p))
    decreases |items|
  {
    if items != [] {
      var init := items[..|items| - 1];
      assert items == init + [items[|items| - 1]];
      NonBlankPathsMembership(init, p);
    }
  }

  lemma NonBlankPathsCons(item: Option<string>, rest: seq<Option<string>>)
    ensures NonBlankPaths([item] + rest) == Kept(item) + NonBlankPaths(rest)
  {
    NonBlankPathsAppend([item], rest);
    assert [item][..0] == [];
  }

  /** The filtered list is empty iff every item is blank. */
  lemma {:induction false} NonBlankPathsEmpty(items: seq<Option<string>>)
    ensures NonBlankPaths(items) == [] <==> forall i :: 0 <= i < |items| ==> IsNullOrWhiteSpace(items[i])
    decreases |items|
  {
    if items != [] {
      var init := items[..|items| - 1];
      NonBlankPathsEmpty(init);
      assert NonBlankPaths(items) == NonBlankPaths(init) + Kept(items[|items| - 1]);
      assert forall i :: 0 <= i < |init| ==> init[i] == items[i];
    }
  }

  /** A non-empty filtered list starts with the first non-blank item; all
      earlier items are blank. */
  lemma {:induction false} NonBlankPathsHead(items: seq<Option<string>>)
    requires NonBlankPaths(items) != []
    ensures exists i :: 0 <= i < |items| && items[i] == Some(NonBlankPaths(items)[0]) &&
                        forall j :: 0 <= j < i ==> IsNullOrWhiteSpace(items[j])
    decreases |items|
  {
    var rest := items[1..];
    assert items == [items[0]] + rest;
    NonBlankPathsCons(items[0], rest);
    if IsNullOrWhiteSpace(items[0]) {
      NonBlankPathsHead(rest);
      var i :| 0 <= i < |rest| && rest[i] == Some(NonBlankPaths(rest)[0]) &&
               forall j :: 0 <= j < i ==> IsNullOrWhiteSpace(rest[j]);
      assert items[i + 1] == rest[i];
      assert forall j :: 1 <= j < i + 1 ==> items[j] == rest[j - 1];
    } else {
      assert items[0] == Some(NonBlankPaths(items)[0]);
    }
  }

  /** Filtering an already filtered selection changes nothing. */
  lemma {:induction false} NonBlankPathsIdempotent(paths: seq<string>)
    requires forall k :: 0 <= k < |paths| ==> !IsNullOrWhiteSpace(Some(paths[k]))
    ensures NonBlankPaths(seq(|paths|, k requires 0 <= k < |paths| => Some(paths[k]))) == paths
    decreases |paths|
  {
    if paths != [] {
      var init := paths[..|paths| - 1];
      var items := seq(|paths|, k requires 0 <= k < |paths| => Some(paths[k]));
      assert items[..|items| - 1] == seq(|init|, k requires 0 <= k < |init| => Some(init[k]));
      NonBlankPathsIdempotent(init);
      assert paths == init + [paths[|paths| - 1]];
    }
  }

  /** What `ExtractFilePaths(IShellItemArray)` yields: a null array gives
      nothing; otherwise the display name of each item (None when
      `GetDisplayName` hands back a null string) is filtered. */
  function ItemPaths(items: Option<seq<Option<string>>>): (paths: seq<string>)
    ensures items.Some? ==> |paths| <= |items.value|
    ensures paths == [] <==>
              items.None? || forall i :: 0 <= i < |items.value| ==> IsNullOrWhiteSpace(items.value[i])
  {
    if items.None? then []
    else NonBlankPathsEmpty(items.value); NonBlankPaths(items.value)
  }

  // ---------------------------------------------------------------------
  // The drag-and-drop handle behind `IShellExtInit.Initialize`

  datatype Tymed = TYMED_NULL | TYMED_HGLOBAL | OtherTymed

  /** The storage medium `IDataObject.GetData` hands back for `CF_HDROP`;
      `files` are the full names the drop handle holds. */
  datatype StorageMedium = StorageMedium(tymed: Tymed, unionmember: Ptr, files: seq<string>)

  /** A data object; `getData` is None when `GetData` throws a
      `COMException`. */
  datatype DataObject = DataObject(getData: Option<StorageMedium>)

  /** `DragQueryFile(h, i, buffer, MaxPath)`: at most `MaxPath - 1`
      characters are copied; a zero count means "skip this file". */
  function DragQueryFile(name: string): (copied: Option<string>)
    ensures copied.None? <==> name == []
    ensures copied.Some? ==> |copied.value| < MaxPath && copied.value <= name
    ensures 0 < |name| < MaxPath ==> copied == Some(name)
    ensures |name| >= MaxPath ==> copied == Some(name[..MaxPath - 1])
  {
    var chars := if |name| < MaxPath then |name| else MaxPath - 1;
    assert name[..|name|] == name;
    if chars == 0 then None else Some(name[..chars])
  }

  function DragQueryAll(files: seq<string>): (copied: seq<Option<string>>)
    ensures |copied| == |files|
    ensures forall i :: 0 <= i < |files| ==> copied[i] == DragQueryFile(files[i])
  {
    seq(|files|, i requires 0 <= i < |files| => DragQueryFile(files[i]))
  }

  /** What `ExtractFilePaths(IDataObject)` yields: nothing for a null data
      object, a COM failure, a medium that is not a global-memory handle or a
      null handle; otherwise the non-blank names the handle reports. */
  function DropPaths(dataObject: Option<DataObject>): (paths: seq<string>)
    ensures dataObject.None? || dataObject.value.getData.None? ==> paths == []
    ensures dataObject.Some? && dataObject.value.getData.Some? ==>
              var medium := dataObject.value.getData.value;
              (medium.tymed != TYMED_HGLOBAL || medium.unionmember == Null ==> paths == []) &&
              |paths| <= |medium.files|
  {
    if dataObject.None? || dataObject.value.getData.None? then []
    else
      var medium := dataObject.value.getData.value;
      if medium.tymed != TYMED_HGLOBAL || medium.unionmember == Null then []
      else NonBlankPaths(DragQueryAll(medium.files))
  }

  /** Every path taken from a drop handle is a non-blank prefix, shorter than
      `MaxPath`, of one of the dropped names. */
  lemma DropPathsComeFromHandle(dataObject: Option<DataObject>, p: string)
    requires p in DropPaths(dataObject)
    ensures !IsNullOrWhiteSpace(Some(p)) && |p| < MaxPath
    ensures dataObject.Some? && dataObject.value.getData.Some?
    ensures exists f :: f in dataObject.value.getData.value.files && p <= f
  {
    var medium := dataObject.value.getData.value;
    var copied := DragQueryAll(medium.files);
    NonBlankPathsMembership(copied, p);
    var i :| 0 <= i < |copied| && copied[i] == Some(p);
    assert medium.files[i] in medium.files;
  }

  /** Filtering depends only on what each item keeps. */
  lemma {:induction false} NonBlankPathsSameKept(a: seq<Option<string>>, b: seq<Option<string>>)
    requires |a| == |b|
    requires forall i :: 0 <= i < |a| ==> Kept(a[i]) == Kept(b[i])
    ensures NonBlankPaths(a) == NonBlankPaths(b)
    decreases |a|
  {
    if a != [] {
      var n := |a| - 1;
      NonBlankPathsSameKept(a[..n], b[..n]);
    }
  }

  /** Conversely, every non-blank dropped name shorter than `MaxPath` is
      extracted whole from a usable handle. */
  lemma DropPathsIncludeHandleNames(dataObject: Option<DataObject>, f: string)
    requires dataObject.Some? && dataObject.value.getData.Some?
    requires dataObject.value.getData.value.tymed == TYMED_HGLOBAL
    requires dataObject.value.getData.value.unionmember != Null
    requires f in dataObject.value.getData.value.files
    requires |f| < MaxPath && !IsNullOrWhiteSpace(Some(f))
    ensures f in DropPaths(dataObject)
  {
    var files := dataObject.value.getData.value.files;
    var copied := DragQueryAll(files);
    var i :| 0 <= i < |files| && files[i] == f;
    assert copied[i] == Some(f);
    NonBlankPathsMembership(copied, f);
  }

  /** When every dropped name fits in `MaxPath`, the extracted paths are
      exactly the non-blank names, in the handle's order. */
  lemma DropPathsOfShortNames(dataObject: Option<DataObject>)
    requires dataObject.Some? && dataObject.value.getData.Some?
    requires dataObject.value.getData.value.tymed == TYMED_HGLOBAL
    requires dataObject.value.getData.value.unionmember != Null
    requires forall f :: f in dataObject.value.getData.value.files ==> |f| < MaxPath
    ensures var files := dataObject.value.getData.value.files;
            DropPaths(dataObject) == NonBlankPaths(seq(|files|, i requires 0 <= i < |files| => Some(files[i])))
  {
    var files := dataObject.value.getData.value.files;
    var names := seq(|files|, i requires 0 <= i < |files| => Some(files[i]));
    var copied := DragQueryAll(files);
    forall i | 0 <= i < |files| ensures Kept(copied[i]) == Kept(names[i]) {
      assert files[i] in files;
    }
    NonBlankPathsSameKept(copied, names);
  }

  // ---------------------------------------------------------------------
  // The values the extension hands to its host

  datatype MenuItem = MenuItem(position: nat, flags: bv32, id: nat, text: string)

  datatype LaunchRequest = LaunchRequest(fileName: string, arguments: seq<string>, useShellExecute: bool)

  datatype ErrorDialog = ErrorDialog(text: string, caption: string)

  /** What one `LaunchCropper` call does: nothing, a started process, or a
      start that failed and was reported in a message box. */
  datatype LaunchOutcome =
    | NoLaunch
    | Launched(request: LaunchRequest)
    | LaunchFailed(request: LaunchRequest, dialog: ErrorDialog)

  datatype CommandState = ECS_ENABLED | ECS_HIDDEN

  const ECF_DEFAULT: bv32 := 0x0000_0000
  const ECF_HASSUBCOMMANDS: bv32 := 0x0000_0001
  const ECF_ALWAYS_SHOW: bv32 := 0x0000_0040

  /** The message-box text for a failed start; it names the executable and
      ends with the exception's message. */
  function LaunchFailureText(message: string): (text: string)
    ensures |text| >= 18 + |CropperExecutable| + |message|
    ensures text[18..18 + |CropperExecutable|] == CropperExecutable
    ensures text[|text| - |message|..] == message
  {
    var opening := "Unable to launch '";
    var text := opening + CropperExecutable + "'. Ensure it is installed and available on PATH.\n" + message;
    assert |opening| == 18;
    assert text[18..18 + |CropperExecutable|] == (opening + CropperExecutable)[18..];
    text
  }

  /** The caller-supplied `StringBuilder` of `GetCommandString`. */
  class StringBuilder {
    var text: string

    constructor (initial: string)
      ensures text == initial
    {
      text := initial;
    }
  }

  class CropperContextMenuExtension {
    /** `_selectedFiles`: the selection cached by `Initialize`. */
    var selectedFiles: seq<string>

    constructor ()
      ensures selectedFiles == []
    {
      selectedFiles := [];
    }

    /** `IShellExtInit.Initialize`: cache the dropped files. */
    method Initialize(dataObject: Option<DataObject>)
      modifies this
      ensures selectedFiles == DropPaths(dataObject)
      ensures forall k :: 0 <= k < |selectedFiles| ==> !IsNullOrWhiteSpace(Some(selectedFiles[k]))
    {
      selectedFiles := ExtractDropFilePaths(dataObject);
    }

    /** `IContextMenu.QueryContextMenu`: contribute no item when nothing is
        cached or the host wants default items only; else insert one item at
        `indexMenu` with id `idCmdFirst`. `insertRequest` is the item
        handed to `InsertMenu`; a failed insertion throws. */
    method QueryContextMenu(indexMenu: nat, idCmdFirst: nat, uFlags: bv32, insertSucceeds: bool)
      returns (hr: Result<nat, string>, insertRequest: Option<MenuItem>)
      ensures hr.Success? ==> hr.value <= 1 && (hr.value == 1 <==> insertRequest.Some?)
      ensures (selectedFiles == [] || uFlags & CMF_DEFAULTONLY != 0) <==> insertRequest.None?
      ensures insertRequest.None? ==> hr == Success(0)
      ensures insertRequest.Some? ==>
                insertRequest.value == MenuItem(indexMenu, MF_BYPOSITION, idCmdFirst, MenuText) &&
                hr == (if insertSucceeds then Success(1) else Failure(InsertMenuFailedMessage))
    {
      if |selectedFiles| == 0 || uFlags & CMF_DEFAULTONLY != 0 {
        return Success(0), None;
      }
      insertRequest := Some(MenuItem(indexMenu, MF_BYPOSITION, idCmdFirst, MenuText));
      if !insertSucceeds {
        return Failure(InsertMenuFailedMessage), insertRequest;
      }
      hr := Success(1);
    }

    /** `IContextMenu.InvokeCommand`: a record at least as large as
        `CMINVOKECOMMANDINFOEX` is read with its Unicode verb; a smaller one
        as the basic record. Our verb launches on the cached selection. */
    method InvokeCommand(info: InvokeCommandInfo, spawnError: Option<string>)
      returns (outcome: LaunchOutcome)
      ensures !Recognized(info) ==> outcome == NoLaunch
      ensures Recognized(info) ==> outcome == LaunchCropper(None, selectedFiles, spawnError)
      ensures outcome != NoLaunch ==> outcome.request.arguments == [selectedFiles[0]]
    {
      if info.cbSize >= InvokeCommandInfoExSize {
        if IsOurCommandEx(info) {
          outcome := LaunchCropper(None, selectedFiles, spawnError);
        } else {
          outcome := NoLaunch;
        }
        return;
      }
      if IsOurCommand(info) {
        outcome := LaunchCropper(None, selectedFiles, spawnError);
      } else {
        outcome := NoLaunch;
      }
    }

    /** `IExplorerCommand.Invoke`: launch on the passed items. The cached
        selection is never consulted, even when the items yield nothing. */
    method Invoke(items: Option<seq<Option<string>>>, spawnError: Option<string>)
      returns (outcome: LaunchOutcome)
      ensures outcome == LaunchCropper(Some(ItemPaths(items)), selectedFiles, spawnError)
      ensures outcome == NoLaunch <==>
                items.None? || forall i :: 0 <= i < |items.value| ==> IsNullOrWhiteSpace(items.value[i])
    {
      var selection := ExtractItemPaths(items);
      outcome := LaunchCropper(Some(selection), selectedFiles, spawnError);
    }

    /** `IContextMenu.GetCommandString`: only command offset 0 with a buffer
        of non-zero capacity is answered; the buffer then holds the help text
        or the verb, cut so that it fits with its terminator. */
    static method GetCommandString(idCmd: nat, uFlags: bv32, pszName: StringBuilder?, cchMax: nat)
      modifies pszName
      ensures idCmd != 0 || pszName == null || cchMax == 0 ==>
                pszName == null || pszName.text == old(pszName.text)
      ensures idCmd == 0 && pszName != null && cchMax != 0 ==>
                pszName.text == CommandString(uFlags, cchMax)
    {
      if idCmd != 0 || pszName == null || cchMax == 0 {
        return;
      }
      var text := if uFlags & GCS_HELPTEXTW == GCS_HELPTEXTW then HelpText else Verb;
      if |text| + 1 > cchMax {
        text := text[..cchMax - 1];
      }
      pszName.text := [];
      pszName.text := pszName.text + text;
    }

    /** The text `GetCommandString` stores: the longest prefix of the help
        text (all `GCS_HELPTEXTW` bits set) or of the verb that leaves room
        for the terminator. */
    static function CommandString(uFlags: bv32, cchMax: nat): (text: string)
      requires cchMax > 0
      ensures var full := if uFlags & GCS_HELPTEXTW == GCS_HELPTEXTW then HelpText else Verb;
              text <= full && |text| + 1 <= cchMax && (text == full || |text| + 1 == cchMax)
    {
      var full := if uFlags & GCS_HELPTEXTW == GCS_HELPTEXTW then HelpText else Verb;
      if |full| + 1 > cchMax then full[..cchMax - 1] else full
    }

    /** `IExplorerCommand.GetState` through `HasSelection`. */
    static function GetState(items: Option<seq<Option<string>>>): (state: CommandState)
      ensures state == ECS_ENABLED <==> items.Some? && |items.value| > 0
    {
      if HasSelection(items) then ECS_ENABLED else ECS_HIDDEN
    }

    /** `HasSelection`: a non-null array with a positive count. Without a
        selection there is nothing to extract. */
    static predicate HasSelection(items: Option<seq<Option<string>>>): (selected: bool)
      ensures !selected ==> ItemPaths(items) == []
    {
      items.Some? && |items.value| > 0
    }

    /** `IExplorerCommand.GetTitle`, `GetToolTip`, `GetFlags` and
        `EnumSubCommands` (null: there is no submenu). */
    static function GetTitle(): string { MenuText }
    static function GetToolTip(): string { HelpText }

    static function GetFlags(): (flags: bv32)
      ensures flags & ECF_ALWAYS_SHOW == ECF_ALWAYS_SHOW
      ensures flags & ECF_HASSUBCOMMANDS == 0
    {
      ECF_DEFAULT | ECF_ALWAYS_SHOW
    }

    static function EnumSubCommands(): (subCommands: Option<seq<MenuItem>>)
      ensures subCommands.None?
    {
      None
    }

    /** The flags and the enumerator agree: sub-commands are advertised
        exactly when an enumerator is handed out, which never happens. The
        command shows the menu text and the help text. */
    static lemma NoSubmenu()
      ensures (GetFlags() & ECF_HASSUBCOMMANDS != 0) <==> EnumSubCommands().Some?
      ensures GetTitle() == MenuText && GetToolTip() == HelpText
    {
    }

    /** A hidden command has nothing to launch on: `Invoke` with the same
        items does nothing. (An enabled one may still launch nothing, when
        no item has a usable path.) */
    static lemma HiddenCommandLaunchesNothing(items: Option<seq<Option<string>>>, cached: seq<string>, spawnError: Option<string>)
      requires GetState(items) == ECS_HIDDEN
      ensures LaunchCropper(Some(ItemPaths(items)), cached, spawnError) == NoLaunch
    {
    }

    /** An item whose display name comes back null still enables the
        command, but invoking it launches nothing. */
    static lemma EnabledWithoutPathLaunchesNothing(cached: seq<string>, spawnError: Option<string>)
      ensures GetState(Some([None])) == ECS_ENABLED
      ensures LaunchCropper(Some(ItemPaths(Some([None]))), cached, spawnError) == NoLaunch
    {
      var items: seq<Option<string>> := [None];
      assert items[..0] == [];
    }

    /** `IsOurCommand(CMINVOKECOMMANDINFO)`: an integer verb must be offset
        0; a string verb must equal `pycropper` ignoring case. So an integer
        verb is ours exactly when the low 32 bits of the address are zero, and
        a string verb exactly when it lower-cases to `pycropper`. */
    static predicate IsOurCommand(info: InvokeCommandInfo): (ours: bool)
      ensures IsVerbIdentifier(info.lpVerb) ==> (ours <==> info.lpVerb % 0x1_0000_0000 == 0)
      ensures !IsVerbIdentifier(info.lpVerb) ==> (ours <==> ToLowerAscii(info.ansiVerb) == Verb)
    {
      WordsMakeLow32Bits(info.lpVerb);
      MatchesVerbIffLowersToVerb(info.ansiVerb);
      if IsVerbIdentifier(info.lpVerb) then LowWord(info.lpVerb) == 0
      else EqualsOrdinalIgnoreCase(Some(info.ansiVerb), Verb)
    }

    /** `IsOurCommand(CMINVOKECOMMANDINFOEX)`: as above, with the string
        verb chosen by `ResolveVerb`, so a flagged, present Unicode verb is
        the one compared. */
    static predicate IsOurCommandEx(info: InvokeCommandInfo): (ours: bool)
      ensures IsVerbIdentifier(info.lpVerb) ==> (ours <==> info.lpVerb % 0x1_0000_0000 == 0)
      ensures !IsVerbIdentifier(info.lpVerb) ==>
                (ours <==> ToLowerAscii(if info.fMask & CMIC_MASK_UNICODE != 0 && info.lpVerbW != Null
                                        then info.unicodeVerb else info.ansiVerb) == Verb)
    {
      WordsMakeLow32Bits(info.lpVerb);
      MatchesVerbIffLowersToVerb(info.ansiVerb);
      MatchesVerbIffLowersToVerb(info.unicodeVerb);
      if IsVerbIdentifier(info.lpVerb) then LowWord(info.lpVerb) == 0
      else EqualsOrdinalIgnoreCase(ResolveVerb(info), Verb)
    }

    /** Which overload `InvokeCommand` uses, chosen by `cbSize`. Either way a
        command is recognised only for offset 0 or for a verb field that
        spells `pycropper`. */
    static predicate Recognized(info: InvokeCommandInfo): (recognized: bool)
      ensures recognized ==>
                info.lpVerb % 0x1_0000_0000 == 0 ||
                ToLowerAscii(info.ansiVerb) == Verb || ToLowerAscii(info.unicodeVerb) == Verb
    {
      if info.cbSize >= InvokeCommandInfoExSize then IsOurCommandEx(info) else IsOurCommand(info)
    }

    /** Without the Unicode flag both overloads agree, so the record size
        does not matter. */
    static lemma OverloadsAgreeWithoutUnicode(info: InvokeCommandInfo)
      requires info.fMask & CMIC_MASK_UNICODE == 0
      ensures IsOurCommandEx(info) == IsOurCommand(info)
    {
    }

    /** A record smaller than `CMINVOKECOMMANDINFOEX` is decided on its basic
        fields only: the Unicode fields are never read. */
    static lemma BasicRecordIgnoresUnicodeFields(info: InvokeCommandInfo, lpVerbW: Ptr, unicodeVerb: string)
      requires info.cbSize < InvokeCommandInfoExSize
      ensures Recognized(info.(lpVerbW := lpVerbW, unicodeVerb := unicodeVerb)) == Recognized(info)
    {
    }

    /** `LaunchCropper(selection)`: the candidates are the passed selection,
        or the cached one when none is passed; only the first candidate is
        looked at, and nothing happens when it is missing or blank. Otherwise
        `cropper.exe` is started with that path as its only argument; a
        start failure is shown in a message box and goes no further. */
    static function LaunchCropper(selection: Option<seq<string>>, selectedFiles: seq<string>, spawnError: Option<string>): (outcome: LaunchOutcome)
      ensures var candidates := selection.GetOr(selectedFiles);
              && (outcome == NoLaunch <==> candidates == [] || IsNullOrWhiteSpace(Some(candidates[0])))
              && (outcome != NoLaunch ==>
                    outcome.request == LaunchRequest(CropperExecutable, [candidates[0]], false))
              && (outcome.LaunchFailed? <==> outcome != NoLaunch && spawnError.Some?)
              && (outcome.LaunchFailed? ==>
                    outcome.dialog == ErrorDialog(LaunchFailureText(spawnError.value), DialogCaption))
    {
      var candidates := selection.GetOr(selectedFiles);
      if candidates == [] || IsNullOrWhiteSpace(Some(candidates[0])) then NoLaunch
      else
        var request := LaunchRequest(CropperExecutable, [candidates[0]], false);
        match spawnError
        case None => Launched(request)
        case Some(message) => LaunchFailed(request, ErrorDialog(LaunchFailureText(message), DialogCaption))
    }

    /** `Invoke` on raw shell items launches iff some item has a non-blank
        path, and then on the first such path. */
    static lemma LaunchTargetsFirstNonBlankItem(items: seq<Option<string>>, cached: seq<string>, spawnError: Option<string>)
      ensures var outcome := LaunchCropper(Some(NonBlankPaths(items)), cached, spawnError);
              && (outcome == NoLaunch <==> forall i :: 0 <= i < |items| ==> IsNullOrWhiteSpace(items[i]))
              && (outcome != NoLaunch ==>
                    exists i :: 0 <= i < |items| && items[i] == Some(outcome.request.arguments[0]) &&
                                forall j :: 0 <= j < i ==> IsNullOrWhiteSpace(items[j]))
    {
      NonBlankPathsEmpty(items);
      if NonBlankPaths(items) != [] {
        NonBlankPathsHead(items);
      }
    }

    /** `ExtractFilePaths(IShellItemArray)`. */
    static method ExtractItemPaths(items: Option<seq<Option<string>>>) returns (paths: seq<string>)
      ensures paths == ItemPaths(items)
    {
      if items.None? {
        return [];
      }
      var count := |items.value|;
      if count == 0 {
        return [];
      }
      var results := [];
      var i := 0;
      while i < count
        invariant 0 <= i <= count
        invariant results == NonBlankPaths(items.value[..i])
      {
        var path := items.value[i];
        assert items.value[..i + 1][..i] == items.value[..i];
        if !IsNullOrWhiteSpace(path) {
          results := results + [path.value];
        }
        i := i + 1;
      }
      assert items.value[..count] == items.value;
      paths := results;
    }

    /** `ExtractFilePaths(IDataObject)`. */
    static method ExtractDropFilePaths(dataObject: Option<DataObject>) returns (paths: seq<string>)
      ensures paths == DropPaths(dataObject)
    {
      if dataObject.None? || dataObject.value.getData.None? {
        return [];
      }
      var medium := dataObject.value.getData.value;
      if medium.tymed != TYMED_HGLOBAL || medium.unionmember == Null {
        return [];
      }
      var fileCount := |medium.files|;
      if fileCount == 0 {
        return [];
      }
      var results := [];
      var i := 0;
      while i < fileCount
        invariant 0 <= i <= fileCount
        invariant results == NonBlankPaths(DragQueryAll(medium.files)[..i])
      {
        var copied := DragQueryFile(medium.files[i]);
        assert DragQueryAll(medium.files)[..i + 1][..i] == DragQueryAll(medium.files)[..i];
        if copied.Some? && !IsNullOrWhiteSpace(copied) {
          results := results + [copied.value];
        }
        i := i + 1;
      }
      assert DragQueryAll(medium.files)[..fileCount] == DragQueryAll(medium.files);
      paths := results;
    }
  }
}
