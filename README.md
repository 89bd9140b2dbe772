# PyCropper: shell extension and auto-crop decisions, in Dafny

PyCropper adds a "Crop with PyCropper" entry to the Windows Explorer context
menu and ships a small command-line cropper. This project models the logic in
two places:

- **The shell extension** (`CropperContextMenuExtension`, modules
  `NativeMethods` and `ShellExtension`). It covers the following:
  - how the selection is turned into a list of non-blank paths, from a shell
    item array or from a drag-and-drop handle;
  - the cached selection that `Initialize` sets and `InvokeCommand` reads;
  - whether `QueryContextMenu` contributes its one menu item;
  - the Enabled/Hidden state;
  - how a verb is recognised. An integer verb must have a zero low word. A
    string verb must be `pycropper`, ignoring case. A flagged Unicode verb
    takes precedence over the ANSI verb;
  - the truncated copy into the caller's `StringBuilder`;
  - the launch of `cropper.exe` on the first candidate path.

  The class keeps its `selectedFiles` field, and `Initialize` reassigns it.
  Both path extractors are loops that append to a list, proved against the
  filter function `NonBlankPaths`.
- **The cropper** (`cropper.py`, modules `CropperMask` and `Cropper`). It
  covers the following:
  - the clamped tolerance and the limit `255 - tolerance`;
  - the 0/255 threshold mask and the bounding box of its non-zero pixels;
  - the three outcomes of `auto_crop`: it raises, writes nothing, or writes
    the image cropped to the box;
  - the default destination `<stem>-cropped<suffix>`;
  - the sorted listing of supported image files;
  - the option rules of the `crop` command.

Side effects are inputs or outputs of the model:
- The display names `GetDisplayName` hands back (None for a null string),
  the names in a drop handle, whether `InsertMenu` succeeded and the message
  of a failed `Process.Start` are parameters.
- A launch is returned as a `LaunchOutcome` value: no launch, a launch
  request, or a failed request with the error dialog to show.
- The decoded image and the directory listing are parameters.
- `crop_command` returns a plan of `auto_crop` jobs instead of running them.

The extension offers no submenu and passes only the path to the cropper:
- `EnumSubCommands` yields null (`CropperContextMenuExtension.cs:124-127`).
- Only the path is added to `ArgumentList` (`:333`).

`NoSubmenu` and `LaunchCropper` state this.

Pillow's `getbbox` is not part of the repository. `GetBBox` models it by
Pillow's documented contract: the smallest half-open `(left, upper, right,
lower)` box holding every non-zero pixel, or None when there is none. This is
an assumption about the library. It is not taken from its code.

The help text of `--tolerance` (`cropper.py:111`) says that higher
tolerances keep more border. The code does the opposite, because the limit is
`255 - tolerance` and only pixels darker than the limit count as foreground.
A higher tolerance therefore treats more near-white pixels as background and
gives a box no larger than before. The docstring of `auto_crop` (lines 33-34)
agrees with the code. This model follows the code, and `ToleranceMonotone`
states the direction.

`IsVerbIdentifier` looks only at bits 16..31 of the address, as the source
does. In a 64-bit process, an address whose bits 16..31 are clear counts as an
integer verb whatever its upper bits are. The contract of `IsVerbIdentifier`
states this exactly.

## Model

| member | source | states |
|---|---|---|
| `NativeMethods.LowWord` | dotnet/CropperShellExtension/CropperContextMenuExtension.cs:521 | the low word is below 2^16 |
| `NativeMethods.HighWord` | dotnet/CropperShellExtension/CropperContextMenuExtension.cs:523 | the high word (bits 16..31) is below 2^16 |
| `NativeMethods.WordsMakeLow32Bits` | dotnet/CropperShellExtension/CropperContextMenuExtension.cs:521-523 | high word * 2^16 + low word is exactly the low 32 bits of the address |
| `NativeMethods.IsVerbIdentifier` | dotnet/CropperShellExtension/CropperContextMenuExtension.cs:519 | a verb is an identifier iff bits 16..31 are all zero, that is iff its low 32 bits are below 2^16; bits 32..63 play no part |
| `NativeMethods.ResolveVerb` | dotnet/CropperShellExtension/CropperContextMenuExtension.cs:525-538 | a flagged, non-null `lpVerbW` gives the Unicode verb; otherwise a non-null `lpVerb` gives the ANSI verb; otherwise null |
| `NativeMethods.UnicodeVerbTakesPrecedence` | dotnet/CropperShellExtension/CropperContextMenuExtension.cs:527-530 | with `CMIC_MASK_UNICODE` and a non-null `lpVerbW` the Unicode verb is returned, whatever the ANSI fields hold |
| `NativeMethods.AnsiVerbWithoutUnicode` | dotnet/CropperShellExtension/CropperContextMenuExtension.cs:532-537 | without the Unicode flag, or with a null `lpVerbW`, the result is the ANSI verb when `lpVerb` is non-null, else null |
| `NativeMethods.UnicodeFieldsIgnoredWithoutFlag` | dotnet/CropperShellExtension/CropperContextMenuExtension.cs:527 | without `CMIC_MASK_UNICODE` the Unicode fields never change the result |
| `ShellExtension.MatchesVerbIffLowersToVerb` | dotnet/CropperShellExtension/CropperContextMenuExtension.cs:302 | ordinal case-insensitive equality with `pycropper` holds iff the string lower-cases to `pycropper` |
| `ShellExtension.Kept` | dotnet/CropperShellExtension/CropperContextMenuExtension.cs:165-169 | an item is kept iff its path is neither null nor white space, and then it is kept unchanged |
| `ShellExtension.NonBlankPaths` | dotnet/CropperShellExtension/CropperContextMenuExtension.cs:158-180 | the result is no longer than the items and holds no blank path |
| `ShellExtension.NonBlankPathsAppend` | dotnet/CropperShellExtension/CropperContextMenuExtension.cs:160-178 | filtering distributes over concatenation (order is preserved) |
| `ShellExtension.NonBlankPathsMembership` | dotnet/CropperShellExtension/CropperContextMenuExtension.cs:164-169 | a path is in the result iff some item carries it and it is not blank |
| `ShellExtension.NonBlankPathsEmpty` | dotnet/CropperShellExtension/CropperContextMenuExtension.cs:158-180 | the result is empty iff every item is null or blank |
| `ShellExtension.NonBlankPathsHead` | dotnet/CropperShellExtension/CropperContextMenuExtension.cs:158-180 | a non-empty result starts with the first non-blank item, and every earlier item is blank |
| `ShellExtension.NonBlankPathsIdempotent` | dotnet/CropperShellExtension/CropperContextMenuExtension.cs:166-169 | filtering an already filtered list changes nothing |
| `ShellExtension.ItemPaths` | dotnet/CropperShellExtension/CropperContextMenuExtension.cs:145-181 | a null array gives nothing; the result is no longer than the array, and empty iff every display name is null or blank |
| `ShellExtension.DragQueryFile` | dotnet/CropperShellExtension/CropperContextMenuExtension.cs:263-270 | a file is skipped iff its name is empty; a name shorter than `MaxPath` is copied whole, a longer one cut to `MaxPath - 1` characters |
| `ShellExtension.DropPaths` | dotnet/CropperShellExtension/CropperContextMenuExtension.cs:228-292 | nothing for a null object, a failed `GetData`, a medium that is not `TYMED_HGLOBAL` or a null handle; never more paths than dropped names |
| `ShellExtension.DropPathsComeFromHandle` | dotnet/CropperShellExtension/CropperContextMenuExtension.cs:228-292 | every extracted path is non-blank, shorter than `MaxPath`, and a prefix of a dropped name from a data object that delivered a medium |
| `ShellExtension.DropPathsIncludeHandleNames` | dotnet/CropperShellExtension/CropperContextMenuExtension.cs:263-276 | conversely, every non-blank dropped name shorter than `MaxPath` in a usable handle is extracted whole |
| `ShellExtension.DropPathsOfShortNames` | dotnet/CropperShellExtension/CropperContextMenuExtension.cs:260-283 | when every dropped name fits in `MaxPath`, the result is exactly the non-blank names in the handle's order |
| `ShellExtension.NonBlankPathsSameKept` | dotnet/CropperShellExtension/CropperContextMenuExtension.cs:166-169 | two item lists that keep the same paths item by item filter to the same result |
| `ShellExtension.LaunchFailureText` | dotnet/CropperShellExtension/CropperContextMenuExtension.cs:338-339 | the dialog text names `cropper.exe` and ends with the exception message |
| `ShellExtension.CropperContextMenuExtension.constructor` | dotnet/CropperShellExtension/CropperContextMenuExtension.cs:27 | the cached selection starts empty |
| `ShellExtension.CropperContextMenuExtension.Initialize` | dotnet/CropperShellExtension/CropperContextMenuExtension.cs:29-32 | the cache becomes the paths extracted from the data object, all non-blank |
| `ShellExtension.CropperContextMenuExtension.QueryContextMenu` | dotnet/CropperShellExtension/CropperContextMenuExtension.cs:34-47 | no item is requested and the result is 0 iff the cache is empty or `CMF_DEFAULTONLY` is set; otherwise one item is requested at `indexMenu` with id `idCmdFirst`, and the result is 1, or a thrown error when the insertion fails |
| `ShellExtension.CropperContextMenuExtension.InvokeCommand` | dotnet/CropperShellExtension/CropperContextMenuExtension.cs:49-68 | an unrecognised verb launches nothing; a recognised one (EX record read when `cbSize` is large enough) does what `LaunchCropper` does on the cache, so an empty or blank cache still launches nothing; a launch passes the first cached path |
| `ShellExtension.CropperContextMenuExtension.Invoke` | dotnet/CropperShellExtension/CropperContextMenuExtension.cs:113-117 | launches on the passed items only, never the cache; nothing is launched iff the array is null or every item is blank |
| `ShellExtension.CropperContextMenuExtension.GetCommandString` | dotnet/CropperShellExtension/CropperContextMenuExtension.cs:70-86 | the buffer is untouched when `idCmd != 0`, there is no buffer, or `cchMax == 0`; otherwise it holds `CommandString` |
| `ShellExtension.CropperContextMenuExtension.CommandString` | dotnet/CropperShellExtension/CropperContextMenuExtension.cs:77-82 | the longest prefix of the help text (all `GCS_HELPTEXTW` bits set) or of the verb with length + 1 <= `cchMax` |
| `ShellExtension.CropperContextMenuExtension.GetState` | dotnet/CropperShellExtension/CropperContextMenuExtension.cs:108-111 | Enabled iff the item array is non-null with a positive count, Hidden otherwise |
| `ShellExtension.CropperContextMenuExtension.HasSelection` | dotnet/CropperShellExtension/CropperContextMenuExtension.cs:134-143 | without a non-null array of positive count, no path can be extracted |
| `ShellExtension.CropperContextMenuExtension.GetFlags` | dotnet/CropperShellExtension/CropperContextMenuExtension.cs:119-122 | the flags include `ECF_ALWAYS_SHOW` and exclude `ECF_HASSUBCOMMANDS` |
| `ShellExtension.CropperContextMenuExtension.EnumSubCommands` | dotnet/CropperShellExtension/CropperContextMenuExtension.cs:124-127 | there is no sub-command enumerator |
| `ShellExtension.CropperContextMenuExtension.NoSubmenu` | dotnet/CropperShellExtension/CropperContextMenuExtension.cs:88-127 | sub-commands are advertised iff an enumerator is handed out (never); title and tool tip are the menu and help texts |
| `ShellExtension.CropperContextMenuExtension.HiddenCommandLaunchesNothing` | dotnet/CropperShellExtension/CropperContextMenuExtension.cs:108-117 | for items that make the command hidden, invoking it launches nothing |
| `ShellExtension.CropperContextMenuExtension.EnabledWithoutPathLaunchesNothing` | dotnet/CropperShellExtension/CropperContextMenuExtension.cs:183-189 | an item whose display name comes back null enables the command, but invoking it launches nothing |
| `ShellExtension.CropperContextMenuExtension.IsOurCommand` | dotnet/CropperShellExtension/CropperContextMenuExtension.cs:294-303 | an integer verb is ours iff the low 32 bits of the address are zero; a string verb iff the ANSI text lower-cases to `pycropper` |
| `ShellExtension.CropperContextMenuExtension.IsOurCommandEx` | dotnet/CropperShellExtension/CropperContextMenuExtension.cs:305-314 | an integer verb is ours iff the low 32 bits of the address are zero; a string verb iff the flagged, present Unicode text, else the ANSI text, lower-cases to `pycropper` |
| `ShellExtension.CropperContextMenuExtension.Recognized` | dotnet/CropperShellExtension/CropperContextMenuExtension.cs:51-67 | a command is recognised only for offset 0 or when a verb field spells `pycropper`, ignoring case |
| `ShellExtension.CropperContextMenuExtension.OverloadsAgreeWithoutUnicode` | dotnet/CropperShellExtension/CropperContextMenuExtension.cs:294-314 | without `CMIC_MASK_UNICODE` both `IsOurCommand` overloads decide alike |
| `ShellExtension.CropperContextMenuExtension.BasicRecordIgnoresUnicodeFields` | dotnet/CropperShellExtension/CropperContextMenuExtension.cs:51-67 | a record smaller than `CMINVOKECOMMANDINFOEX` is decided without its Unicode fields |
| `ShellExtension.CropperContextMenuExtension.LaunchCropper` | dotnet/CropperShellExtension/CropperContextMenuExtension.cs:316-344 | nothing happens iff the first candidate (the passed selection, else the cache) is missing or blank; otherwise `cropper.exe` is requested with the argument list exactly `[first candidate]`, without shell execute; a start failure becomes the error dialog and nothing more |
| `ShellExtension.CropperContextMenuExtension.LaunchTargetsFirstNonBlankItem` | dotnet/CropperShellExtension/CropperContextMenuExtension.cs:113-117 | invoking on raw items launches iff some item is non-blank, and the target is the first non-blank item |
| `ShellExtension.CropperContextMenuExtension.ExtractItemPaths` | dotnet/CropperShellExtension/CropperContextMenuExtension.cs:145-181 | the loop returns the non-blank item paths in order; a null array gives an empty result |
| `ShellExtension.CropperContextMenuExtension.ExtractDropFilePaths` | dotnet/CropperShellExtension/CropperContextMenuExtension.cs:228-292 | the loop returns the non-blank dropped names; a null object, a COM failure, a non-HGLOBAL or null medium, or an empty drop gives an empty result |
| `CropperMask.EffectiveTolerance` | cropper.py:60 | the tolerance clamped into 0..255 |
| `CropperMask.Limit` | cropper.py:61 | the limit lies in 0..255 and equals 255 minus the clamped tolerance |
| `CropperMask.Threshold` | cropper.py:63-64 | the value is 0 or 255, and 255 iff the pixel is below the limit |
| `CropperMask.Grayscale` | cropper.py:59 | the gray image has the same size, and each pixel is `luma` of the original pixel |
| `CropperMask.PointThreshold` | cropper.py:66 | the mask has the same size, and each pixel is the threshold of the gray pixel |
| `CropperMask.ThresholdMask` | cropper.py:55-67 | every mask pixel is 0 or 255, and 255 iff the gray value is below the limit; the box is the mask's bounding box |
| `CropperMask.GetBBox` | cropper.py:67 | None iff the mask is all zero; otherwise the box holds every non-zero pixel and each of its edges touches one |
| `CropperMask.BBoxIsSmallest` | cropper.py:67 | any box holding every non-zero pixel contains the reported box |
| `CropperMask.MaxToleranceMasksNothing` | cropper.py:60-66 | with tolerance >= 255 the limit is 0 and there is no bounding box |
| `CropperMask.ForegroundShrinks` | cropper.py:60-66 | a higher tolerance marks a subset of the pixels |
| `CropperMask.ToleranceMonotone` | cropper.py:60-67 | a higher tolerance gives a bounding box inside the lower tolerance's box, so it crops at least as much and keeps no more border |
| `CropperMask.NoBoxIffNoForeground` | cropper.py:63-67 | there is no bounding box iff no pixel is darker than the limit |
| `CropperMask.FullBoxIffTouchesAllEdges` | cropper.py:47 | the box is the whole image iff the foreground reaches all four edges |
| `CropperMask.ForegroundInBox` | cropper.py:67 | every foreground pixel lies in the bounding box |
| `CropperMask.BBoxEdgesTouchForeground` | cropper.py:67 | each of the four edge rows and columns of the bounding box holds a foreground pixel |
| `Cropper.Suffix` | cropper.py:41 | the suffix is empty or is a final `.x...` with no other dot, ending the name |
| `Cropper.Stem` | cropper.py:41 | the stem followed by the suffix is the name |
| `Cropper.DefaultDestination` | cropper.py:41 | the default destination is in the source's directory, and its name is longer by `-cropped` |
| `Cropper.Destination` | cropper.py:41 | an explicit destination is used as given; an omitted one is the default destination, in the same directory under a different name |
| `Cropper.DefaultDestinationKeepsSuffix` | cropper.py:41 | when the source has a suffix, the default keeps it and its stem is `<stem>-cropped` |
| `Cropper.Crop` | cropper.py:50 | the cropped image has the box's size and holds the original pixels at the box's offset |
| `Cropper.AutoCrop` | cropper.py:22-52 | raises (the uniform-image message) iff there is no bounding box; writes nothing iff the box is the whole image; otherwise writes, to the chosen destination, the image cropped to exactly the mask's bounding box |
| `Cropper.AutoCropFailsIffNoForeground` | cropper.py:43-45 | `auto_crop` raises iff no pixel is darker than the limit |
| `Cropper.AutoCropMaxToleranceFails` | cropper.py:43-45 | with tolerance >= 255, `auto_crop` always raises |
| `Cropper.AutoCropSkipsIffNoBorder` | cropper.py:47-48 | nothing is written iff the foreground reaches all four edges |
| `Cropper.AutoCropRemovesOnlyBackground` | cropper.py:50-52 | every pixel that a written crop removes is background |
| `Cropper.AutoCropBoxTouchesForeground` | cropper.py:50-52 | each edge row and column of a written crop holds foreground, so no narrower crop keeps all of it |
| `Cropper.IsImageFile` | cropper.py:74 | only a regular file with a suffix can qualify |
| `Cropper.ImageFilesIn` | cropper.py:72-75 | exactly the regular files of the directory whose lower-cased suffix is a supported extension |
| `Cropper.SortByName` | cropper.py:71 | the result is sorted and is a permutation of the input |
| `Cropper.ListImageFiles` | cropper.py:70-75 | the listing is sorted and is a permutation of the qualifying files |
| `Cropper.ListImageFilesMembership` | cropper.py:11-19 | a path is listed iff it is in the directory and names a regular file whose lower-cased suffix is in `IMAGE_EXTENSIONS` |
| `Cropper.CropCommand` | cropper.py:105-134 | an omitted tolerance is 200; the command is refused iff the tolerance is outside 0..255 or `--output` comes with `--include-siblings`; an empty sibling listing exits with code 1; every other command runs, every job with the tolerance, and a single run crops the source to `--output` |
| `Cropper.SiblingJobsAreSortedImages` | cropper.py:117-124 | with siblings, the jobs are the sorted listed images, each written to its default destination |

## Left out

- COM interface declarations, GUIDs, struct layouts and `Marshal` conversions. They are a fixed host ABI with no logic. The size of `CMINVOKECOMMANDINFOEX` is taken as its 64-bit value (104 bytes).
- Registry registration and unregistration (`Register`, `Unregister`, `context_menu.py`), and the `.reg` rendering script. They are pure registry and file I/O.
- `GetIcon` and `GetCanonicalName`. They return a constant null icon and the class GUID.
- `InsertMenu`, `DragQueryFile`, `GetDisplayName` and `IDataObject.GetData` are taken as results given as inputs.
- `DragQueryFile` is assumed to copy at most `MaxPath - 1` characters and report the count. This is its documented contract, not code from this repository.
- Releasing COM objects, storage media and CoTaskMem strings is not modelled. It has no effect on the results.
- COM exceptions from `GetCount`, `GetItemAt` and `GetDisplayName` are not modelled. They propagate out of `ExtractFilePaths(IShellItemArray)` unhandled, so `Invoke` throws and launches nothing. An item without a file-system path makes `GetDisplayName` fail in this way. The model only covers a display name that comes back as a null string.
- `Process.Start` and `MessageBox.Show` are returned as a launch request and an error dialog. The process itself is not modelled.
- Case-insensitive comparison (.NET) and `str.lower` (Python) are modelled on ASCII letters only. This is exact for the fixed comparands `pycropper` and the extension set: no non-ASCII character folds onto their letters.
- Addresses are modelled for a 64-bit process.
- Pillow's grayscale weights are taken as the parameter `luma`.
- `getbbox` is modelled by its documented contract.
- Image decoding and saving are not modelled.
- `iterdir` and `is_file` are given as a listing of names with a regular-file flag.
- Sorting follows POSIX path order (code points). On Windows, pathlib compares case-folded paths, and that order is not modelled.
- `stem` and `suffix` follow pathlib before Python 3.14. A trailing dot is not a suffix there.
- typer parsing, path validation (`exists`, `dir_okay`, `readable`, `resolve_path`) and click's error texts are left out. An out-of-range tolerance is reported as `ToleranceOutOfRange`.
- The reporting loop of the `crop` command (`cropper.py:122-131`) is left out. It catches and echoes each job's result. The model stops at the list of jobs.
