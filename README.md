# gflags — a Dafny model of the global-flags editor's core

The global-flags editor edits a 32-bit word of debugging flags ("global
flags") kept in three places: the boot-time registry value, the running
kernel, and a per-executable ("image") registry value. This project models
the part of the tool that is logic rather than operating-system plumbing:

- **Flag definitions** (`flagdefs.dfy`, module `FlagDefs`, from `gflags.h`):
  the 32 `FLG_*` bits, the `DEST_*` destination bits and the `FlagInfo`
  record. DWORD is `bv32`, WORD is `bv16`.
- **Flag table and valid masks** (`gflags.dfy`, module `GFlags`, from
  `gflags.cpp`): the constant table `g_Flags` (31 entries, in source order),
  the valid mask of each destination as the OR of the bits of the entries
  that list it, `UpdateValidFlags` as a method of a class holding the four
  globals, and the decision logic of the three storage reads. The OS calls
  are inputs: whether the debug privilege was enabled, what the key open and
  value query returned, what `NtQuerySystemInformation` returned, and the OS
  version.
- **C runtime pieces** (`cruntime.dfy`, module `CRuntime`): `_wcsicmp`
  equality, `wcstoul(s, NULL, 16)` following section 7.22.1.4 of ISO C11
  (white space, optional sign, optional `0x` prefix, longest hex-digit run,
  0 when there are no digits, saturation to 0xFFFFFFFF, `-` negating modulo
  2^32), `printf("%08x")` and `StringCchCopy` truncation.
- **Command line** (`console.dfy`, module `Console`, from `console.cpp`):
  `IsCommandlineOption`, `MaskFlags`, the token grammar of `ParseFlags`, the
  entry selection of `PrintFlags`, and `ParseCommandline`. The latter is a
  method of a class holding `g_ActiveDest`, `g_ActiveFlags` and
  `g_ImageName`, proved equal to a recursive specification (`Scan`) about
  which the usage-error, display and ordering lemmas are stated. Printing
  and `exit()` become an `Outcome` (usage / read failure → exit 1, display →
  exit 0, fall through to the dialog).
- **Dialog** (`dialog.dfy`, module `Dialog`, from `dialog.cpp`): the
  checkboxes of a property page as an array of `(visible, checked, enabled)`
  states, `UpdateDialogFromFlags` and `FlagsFromDialog` as loops over it, and
  the three page procedures as methods of a `Sheet` class holding
  `g_RegistrySettings`, `g_KernelSettings`, `g_ImageSettings`, the image-name
  text and whether `PSM_CHANGED` was sent. What a write returned and what a
  read found are inputs.

Behaviour of the code that the model keeps, where a reader might expect
otherwise:

- The command line reads the destination's flags as soon as it meets the
  destination option, so `-r -k` reads the registry before it reports the
  usage error, and a failed read ends the run (exit 1) before later
  arguments are looked at.
- The command line displays the unmasked value, edits included, and exits
  0; `MaskFlags` is computed but its result is not used, and nothing is
  written.
- `UpdateImagePage` ignores whether the image read succeeded: a failed read
  leaves whatever the read wrote, or the previous image's value, in
  `g_ImageSettings`, and the page is drawn from it.
- A failed write on a dialog page does not roll back: the masked value stays
  stored and the page is redrawn from it.
- Hidden checkboxes keep their check state and are read back like the
  others; the apply handlers then drop the bits the page's destination does
  not accept.

## Model

| member | source | states |
|---|---|---|
| FlagDefs.HeaderFlagIsBit | gflags.h:27-58 | the k-th `FLG_*` constant equals 1 << k and is a single set bit |
| FlagDefs.HeaderFlagsDistinct | gflags.h:27-58 | the 32 `FLG_*` constants are pairwise distinct (a later one is larger) |
| FlagDefs.HeaderFlagsCoverAllBits | gflags.h:27-58 | the OR of the 32 `FLG_*` constants is 0xFFFFFFFF |
| FlagDefs.DestBitsAreDistinctSingleBits | gflags.h:69-71 | `DEST_REGISTRY`, `DEST_KERNEL`, `DEST_IMAGE` are the distinct single bits 1, 2, 4 |
| FlagDefs.DestCombinationIndependent | gflags.h:65-71 | any combination of destination bits fits in the WORD `wDest` (at most 7) and testing one bit does not depend on the other two |
| GFlags.FlagEntryBit | gflags.cpp:47-82 | the table has 31 entries and entry i carries the i-th `FLG_*` bit, skipping 0x200 |
| GFlags.FlagsWellFormed | gflags.cpp:47-82 | every entry's flag is a single bit, no bit appears twice, and the bits increase in table order |
| GFlags.SilentProcessExitAbsent | gflags.cpp:58 | no entry carries `FLG_MONITOR_SILENT_PROCESS_EXIT` (0x200) |
| GFlags.TableBitsOfFlags | gflags.cpp:58 | 0x200 is not among the bits of the table |
| GFlags.AbbreviationsDistinctIgnoringCase | gflags.cpp:49-81 | no two entries have abbreviations equal ignoring ASCII case |
| GFlags.LookupMatchesAtMostOne | gflags.cpp:49-81 | a token equal ignoring case to the abbreviations of entries i and j forces i == j |
| GFlags.FlagsWellFormedTable | gflags.cpp:47-82 | the table is well formed: single bits, pairwise disjoint, abbreviations distinct ignoring case |
| GFlags.MaskOverExact | gflags.cpp:143-147 | when no other entry shares entry i's bit, that bit is in the mask of d iff entry i's `wDest` contains d |
| GFlags.MaskOverWithinTable | gflags.cpp:143-147 | a destination mask has no bit outside the table's bits |
| GFlags.ValidMaskHasEntry | gflags.cpp:143-147 | for the tool's table, entry i's bit is in the valid mask of d iff the entry lists d |
| GFlags.SilentProcessExitInNoMask | gflags.cpp:58 | no valid mask contains 0x200 |
| GFlags.StopOnHungGuiIsKernelOnly | gflags.cpp:52 | shg (0x8) is in the kernel mask and in neither the registry nor the image mask |
| GFlags.DisableStackExtensionIsImageOnly | gflags.cpp:65 | dse (0x10000) is in the image mask only |
| GFlags.DebugInitialCommandIsRegistryOnly | gflags.cpp:51 | dic (0x4) is in the registry mask only |
| GFlags.ValidFlags.constructor | gflags.cpp:91-94 | the three masks and the pool-tagging flag start at 0 |
| GFlags.ValidFlags.UpdateValidFlags | gflags.cpp:138-159 | each mask ends as the OR over the entries listing its destination, whatever it held before and whether or not the ntdll lookup succeeded; pool tagging becomes 1 iff the lookup succeeded and the version is above 5 or 5.2 and later, and is otherwise unchanged |
| GFlags.EmptyImageNameReadsZero | gflags.cpp:216-220 | an empty image name reads as (0, TRUE) whatever the registry would return |
| GFlags.MissingImageKeyReadsZero | gflags.cpp:234-238 | a key open failing with `ERROR_FILE_NOT_FOUND` reads as (0, TRUE) |
| GFlags.RegistryReadSucceedsIff | gflags.cpp:183-196 | the registry read succeeds with v iff the privilege is on, the key opens and the value is a REG_DWORD v |
| GFlags.KernelReadSucceedsIff | gflags.cpp:262-276 | the kernel read succeeds with v iff ntdll was resolved and the query succeeded with a full-size answer holding v |
| GFlags.ImageReadMatchesRegistryRead | gflags.cpp:212-241 | for a non-empty name the image read is the registry read except that a missing key reads as 0 |
| CRuntime.EqualsIgnoreCaseIffFoldsEqual | console.cpp:107 | `_wcsicmp` equality holds iff the ASCII-folded strings are equal |
| CRuntime.SkipSpaceDropsLeadingSpace | console.cpp:123 | the parse starts after exactly the leading white space |
| CRuntime.HexRunIsLongestDigitPrefix | console.cpp:123 | the digits read are the longest run of hex digits at that point |
| CRuntime.Wcstoul16OfDigits | console.cpp:123 | a hex-digit string whose value fits in 32 bits parses to that value |
| CRuntime.Wcstoul16Saturates | console.cpp:123 | a hex-digit string whose value exceeds 32 bits parses to 0xFFFFFFFF |
| CRuntime.Wcstoul16Negates | console.cpp:127-131 | a leading `-` negates an in-range value modulo 2^32 |
| CRuntime.Wcstoul16NoDigits | console.cpp:123 | a string starting with no space, sign or hex digit parses to 0 |
| CRuntime.HexRunStopsAt | console.cpp:123 | the digit run ends at the first character that is not a hex digit |
| CRuntime.Wcstoul16IgnoresTrailing | console.cpp:123 | characters after the digits (other than an `x` that would form a `0x` prefix) do not change the value |
| CRuntime.Wcstoul16SkipsHexPrefix | console.cpp:123 | a `0x` or `0X` prefix before hex digits is skipped, and what follows the digits is ignored |
| CRuntime.Wcstoul16BarePrefix | console.cpp:123 | `0x` not followed by a hex digit reads as 0 (only the `0` is consumed) |
| CRuntime.Wcstoul16ExampleHex | console.cpp:123 | `0x1F` reads 0x1F |
| CRuntime.Wcstoul16ExampleStops | console.cpp:123 | `1g2` reads 1 |
| CRuntime.Wcstoul16ExampleBarePrefix | console.cpp:123 | `0xg` reads 0 |
| CRuntime.Wcstoul16OfFormatHex08 | console.cpp:63 | what `%08x` prints, the base-16 parse reads back unchanged |
| CRuntime.CopyTruncated | console.cpp:157 | copying into a 128-character buffer keeps the first min(len, 127) characters |
| Console.IsCommandlineOption | console.cpp:78-81 | an argument is an option iff it is `/` or `-` followed by exactly the option text, case-sensitively |
| Console.OptionsAreExact | console.cpp:78-81 | `/k` and `-k` are the kernel option; `-K`, `-kk`, `k` and the empty argument are not |
| Console.MaskForPrecedence | console.cpp:86-91 | the image mask wins over the kernel mask, which wins over the registry mask, also used for 0 |
| Console.MaskFlagsPartitions | console.cpp:83-95 | applied and ignored halves OR to the value, share no bit, and lie inside and outside the mask |
| Console.MaskFlagsIdempotent | console.cpp:93-94 | masking the applied half again applies all of it and ignores nothing |
| Console.MaskFlagsImageExample | console.cpp:83-95 | for the image destination 0x9 splits into applied 0x1 and ignored 0x8 |
| Console.FindAbbreviation | console.cpp:105-119 | the lookup returns an entry whose abbreviation matches ignoring case, or None only when no entry from the start point matches |
| Console.LookupFinds | console.cpp:105-119 | in a well-formed table the lookup finds entry i iff the name equals i's abbreviation ignoring case |
| Console.LookupMisses | console.cpp:105-119 | a name whose folded form is no abbreviation is not found |
| Console.ShortNameMisses | console.cpp:105-119 | a name whose length is not 3 matches no abbreviation of the tool's table |
| Console.SignedAbbreviationSetsOrClearsBit | console.cpp:103-118 | `+abbr` ORs in and `-abbr` AND-NOTs out exactly the bit of the entry abbr names |
| Console.SetTouchesOnlyBit | console.cpp:111 | setting bit b leaves b set and every other bit as it was |
| Console.ClearTouchesOnlyBit | console.cpp:115 | clearing bit b leaves b clear and every other bit as it was |
| Console.SetThenClearRestores | console.cpp:103-118 | `+abbr` then `-abbr` gives back a value that lacked the bit, 0 in particular |
| Console.UnsignedTokenReplaces | console.cpp:121-124 | an unsigned token's result is its base-16 parse, independent of the old value |
| Console.SignedHexDelta | console.cpp:125-132 | a signed token naming no abbreviation ORs in or AND-NOTs out the parse of the rest |
| Console.BareHexResets | console.cpp:121-124 | `10` applied to 0xFF gives 0x10 |
| Console.SignedHexSets | console.cpp:125-128 | `+20` applied to 0x10 gives 0x30 |
| Console.SignedHexClears | console.cpp:129-132 | `-10` applied to 0x30 gives 0x20 |
| Console.AbbreviationBeforeHex | console.cpp:103-124 | `+d32` sets 0x20000 (the abbreviation), not 0xD32 |
| Console.UnsignedIsAlwaysHex | console.cpp:121-124 | unsigned `d32` replaces the value by 0xD32 |
| Console.TokenIgnoresCase | console.cpp:107 | a signed token naming an entry has the same effect whatever the case of the name (`+SOE` is `+soe`) |
| Console.DigitlessDeltaKeeps | console.cpp:125-132 | a signed token whose rest is neither an abbreviation nor a number leaves the value unchanged (`-zzz`) |
| Console.DigitlessTokenResets | console.cpp:121-124 | an unsigned token that is not a number resets the value to 0 (`zzz`) |
| Console.HeaderNames | console.cpp:61-62 | the header names "Boot Registry" for -r, "Running Kernel" for -k and nothing for -i |
| Console.ListedIncreasing | console.cpp:64-70 | the listed entries are in table order, none twice |
| Console.ListedExactly | console.cpp:64-70 | an entry is listed iff its bit is set in the value |
| Console.ListSetFlags | console.cpp:64-70 | the loop lists exactly the selection of Listed |
| Console.PrintFlags | console.cpp:59-71 | the header name, the `%08x` text of the value and the listed entries |
| Console.ExitCode | console.cpp:206-221 | usage and read failures exit 1, a display exits 0, and only the dialog case returns |
| Console.SecondDestinationIsUsage | console.cpp:144-151 | a destination option after a destination is a usage error |
| Console.MissingImageNameIsUsage | console.cpp:152-164 | `-i` as the last argument is a usage error |
| Console.UnexpectedArgumentIsUsage | console.cpp:194-203 | before a destination, an argument that is neither an option nor a license request is a usage error |
| Console.EditTokensApplyInOrder | console.cpp:139-204 | after a destination, edit tokens are applied left to right and nothing else changes |
| Console.ScanKeepsOneDest | console.cpp:144-189 | the destination is always 0 or exactly one `DEST_*` bit |
| Console.NoArgumentsShowUI | console.cpp:135-222 | with no arguments ParseCommandline returns and the dialog is shown |
| Console.RegistryOnlyDisplays | console.cpp:171-220 | `-r` alone displays the registry value read and exits 0 |
| Console.RegistryReadFailureExits | console.cpp:171-179 | a registry read that fails, for any reason, ends `-r` with exit 1 |
| Console.KernelReadFailureExits | console.cpp:180-188 | a kernel query that fails ends `-k` with exit 1 |
| Console.ImageReadFailureExits | console.cpp:152-169 | an image read that fails ends `-i <name>` with exit 1 |
| Console.TwoDestinationsIsUsage | console.cpp:144-151 | `-r -k` is a usage error |
| Console.ImageWithoutNameIsUsage | console.cpp:152-164 | `-i` without a name is a usage error |
| Console.ImageDisplayIsUnmasked | console.cpp:152-220 | `-i name tokens…` on a missing image key displays the tokens applied to 0, unmasked |
| Console.ImageOptionSelects | console.cpp:152-165 | `-i name` stores the name truncated to 127 characters, selects the image destination and continues after the name |
| Console.DicIsShownForImages | console.cpp:211-220 | `+dic` is displayed for an image although dic is not valid for images |
| Console.Console.constructor | console.cpp:97-99 | the statics start zeroed over the tool's table, which is well formed |
| Console.Console.FindFlag | console.cpp:105-119 | the loop finds what the lookup specifies |
| Console.Console.ParseFlags | console.cpp:101-133 | one token changes `g_ActiveFlags` as the token grammar says |
| Console.Console.SelectDest | console.cpp:152-188 | selecting a destination stores it and the read's effect on `g_ActiveFlags` |
| Console.Console.Step | console.cpp:139-204 | one turn of the loop: either the loop goes on at a later argument with the specification's remaining result unchanged, or it stops with the specification's result |
| Console.Console.ParseCommandline | console.cpp:135-222 | the loop and the final decision give the outcome and state of the recursive specification |
| Dialog.FlagsFromDialogIffChecked | dialog.cpp:52-63 | in a well-formed table entry i's bit is in the value read iff box i is checked |
| Dialog.CheckedFlagsWithinTable | dialog.cpp:52-63 | the value read has no bit outside the table's bits |
| Dialog.BoxDrawn | dialog.cpp:40-49 | box k is checked iff entry k's bit is in the value, shown iff entry k lists the page's destination, and enabled as asked |
| Dialog.ReadBackDrawn | dialog.cpp:40-63 | reading a page drawn from v gives v restricted to the table's bits, hidden boxes included |
| Dialog.AppliedBit | dialog.cpp:92 | in the stored value entry i's bit is set iff box i was checked and entry i lists the destination |
| Dialog.ApplyRedrawKeepsValidChecks | dialog.cpp:92-97 | after apply and redraw, box i is checked iff it was checked and entry i lists the destination |
| Dialog.Applied | dialog.cpp:92 | what an apply stores, the checked flags masked to the destination's valid flags, has no bit outside that mask and none outside the table |
| Dialog.CheckboxCommandIgnoresHighWord | dialog.cpp:68 | the changed test depends only on the control id in the low word |
| Dialog.Page.constructor | dialog.cpp:44 | a page's boxes start in the state the dialog resource gives them |
| Dialog.Page.UpdateDialogFromFlags | dialog.cpp:39-49 | every box is set to its drawn state |
| Dialog.Page.FlagsFromDialog | dialog.cpp:51-63 | the loop returns the OR of the bits of exactly the checked boxes |
| Dialog.Sheet.constructor | dialog.cpp:35-37 | the three settings start at 0; the sheet is valid: one well-formed table behind three separate sets of boxes, and masks equal to the valid mask of each destination over that table |
| Dialog.Sheet.HandleWMCommand | dialog.cpp:65-73 | the sheet is marked changed iff the command's id is in [IDC_CHECK1, IDC_CHECK31] (or it already was) |
| Dialog.Sheet.RegistryInit | dialog.cpp:79-84 | the registry settings become the value read, or 0 when the read fails |
| Dialog.Sheet.RegistryApply | dialog.cpp:91-98 | the settings become `Applied` for the registry (so no bit outside the registry mask), kept even when the write fails; the page is redrawn from them and the other two pages are untouched |
| Dialog.Sheet.RegistrySetActive | dialog.cpp:99-101 | the page is drawn from the stored settings, enabled |
| Dialog.Sheet.KernelInit | dialog.cpp:112-117 | the kernel settings become the value queried, or 0 when the query fails |
| Dialog.Sheet.KernelApply | dialog.cpp:124-131 | as for the registry page, with `Applied` for the kernel and the kernel mask |
| Dialog.Sheet.KernelSetActive | dialog.cpp:132-134 | the page is drawn from the stored settings, enabled |
| Dialog.Sheet.ImageInit | dialog.cpp:168-170 | the image settings start at 0 |
| Dialog.Sheet.ImageName | dialog.cpp:144-145 | the name read from the edit control is the whole text when it is shorter than 128 characters, and otherwise its first 127 |
| Dialog.Sheet.UpdateImagePage | dialog.cpp:141-148 | the settings take the read's effect whether or not it succeeded; boxes are enabled iff the name is non-empty |
| Dialog.Sheet.StoreImageFlags | dialog.cpp:150-162 | the settings become `Applied` for the image (so no bit outside the image mask); a failed write shows an error |
| Dialog.Sheet.ImageApply | dialog.cpp:181-184 | the settings become the masked checked flags, then take the re-read's effect; a failed write shows an error; the page is redrawn from the result |
| Dialog.Sheet.ImageCommand | dialog.cpp:171-177 | a checkbox click marks the sheet changed; the name box losing the focus re-reads and redraws, and nothing else does |
| Dialog.Sheet.ImageSetActive | dialog.cpp:185-187 | the settings take the re-read's effect and the page is redrawn from them, enabled iff the name is non-empty |

## Left out

- Registry and NT system-information transport (`RegOpenKeyExW`, `RegQueryValueExW`, `RegSetValueExW`, `RegCreateKeyExW`, `NtQuerySystemInformation`, `NtSetSystemInformation`): these are OS calls; the reads take what they returned as inputs, and the three write functions (gflags.cpp:198-210, 243-260, 278-287) are represented only by the BOOL they returned, an input of the dialog methods.
- `EnableDebug`, `InitFunctionPointers`, `RtlGetVersion` and the `AutoClose` wrappers: OS side effects; their results are the inputs `debugEnabled`, `functionsResolved` and the version pair.
- Building the registry key path with `StringCchPrintfW` into 260 characters: part of the transport.
- Window and property-sheet machinery (`ShowDialog`, `HandleWMSize`, `ReadmeProc`, `UpdateReadmePage`, `ShowWindow`, `SendMessage`, `MessageBoxW`): checkbox state is an array of `(visible, checked, enabled)` records, a message box is a returned `errorShown`, `PSM_CHANGED` is a boolean field.
- The values of `IDC_CHECK1`, `IDC_CHECK31` and `IDC_EDIT_IMAGENAME`: `resource.h` is not part of this model, so they are fields of the sheet.
- License and usage texts and `fwprintf` formatting: the license option is counted, usage is an outcome, and `PrintFlags` is modelled as its header name, the `%08x` text of the value and the selected entries.
- `exit()`: `ParseCommandline` returns an outcome with its exit code instead.
- The empty "set it" branch of `ParseCommandline` (console.cpp:215-218): the code never writes, so no write is modelled.
- Character model: strings are sequences of Unicode scalar values, and only the ASCII repertoire is modelled. The code works on WCHAR, UTF-16 code units, so the truncation to 127 units by `StringCchCopyW` (console.cpp:157) and `WM_GETTEXT` (dialog.cpp:144, 152) counts a non-BMP character as two units and can split its surrogate pair; CRuntime.CopyTruncated and Dialog.Sheet.ImageName count characters instead. The non-ASCII decimal digits the Microsoft runtime's `wcstoul` accepts through `_wchartodigit` (console.cpp:123, 127, 131) are not digits in CRuntime.Wcstoul16.
- CRuntime.EqualsIgnoreCase: `_wcsicmp` folds only ASCII letters in the model; locale-dependent folding of other characters is not modelled.
- A NULL image name is not modelled separately: it reads like the empty name, as the code treats both alike.
- The data a failed `RegQueryValueExW` may leave in the out-pointer is modelled only for a value of the wrong type; a query that fails writes nothing in the model.
- CRuntime.IsSpace: `iswspace` is modelled for the ASCII white-space characters of the "C" locale only.
