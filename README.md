# Auto-delete empty untitled notes — a Dafny model

The Obsidian plugin `AutoDeleteEmptyUntitledPlugin` (src/main.ts) tracks which notes are open in
the workspace. When a note's last tab closes, it trashes the note if both of these hold:

- the note still has Obsidian's default name (`Untitled`, `Untitled 1`, …);
- the note is blank.

This project models that plugin and proves properties of it:

- the tracker map `openFiles` and its three writers: load-time seeding, the `file-open` handler and
  the `layout-change` handler;
- the name test `isUntitledFile`;
- the close policy `handleFileClosed`.

The host is replaced by values passed in as parameters:

- the vault is a map from path to entry: a file (its name and text) or a folder;
- the workspace is a sequence of leaves, each showing `Some(file)` or `None`;
- `Host.FileByPath` stands for `getAbstractFileByPath` followed by `instanceof TFile`: a handle
  when a file (not a folder) is at the path; `Host.Read` stands for `vault.read` and
  `Host.Trash` for `fileManager.trashFile`, each yielding `None` where the call throws;
- host I/O failures are an oracle `Faults(readFails, trashFails)`, the paths whose
  `vault.read` or `trashFile` call throws.

Modules:

- `Host`: file handles, vault entries, and the lookups, read and trash the plugin calls.
- `UntitledName`: `isUntitledFile` and the language it accepts.
- `JsTrim`: `String.prototype.trim`, using the ECMAScript WhiteSpace and LineTerminator code points.
- `Policy`: what one `handleFileClosed` call, and one batch of them, does to the vault.
- `Tracker`: how the handlers transform `openFiles`, as functions on maps.
- `Plugin`: the class `AutoDeleteEmptyUntitledPlugin`. Its methods update `openFiles` in place and
  are proved against `Policy` and `Tracker`.
- `Scenarios`: client methods that open, close and externally delete notes.

The handler's comment "Update the open files map" (src/main.ts:37) suggests that after a layout
change the tracked paths are exactly the shown paths. The code gives something weaker (see
`Tracker.ReconcileProperties`):

- every tracked path is shown;
- every shown path that resolves to a vault file is tracked;
- a shown path that resolves to nothing, or to a folder, is not added;
- a tracked path whose file vanished while its tab stayed open stays tracked.

When every shown path resolves to a file, the keys equal the shown set (`Tracker.ReconcileConverges`).
More precisely, the keys equal the shown set exactly when every shown path was already tracked or
resolves to a file (`Tracker.ReconcileKeysExact`).

## Model

| member | source | states |
|---|---|---|
| `UntitledName.StripExtension` | src/main.ts:62 | removes one trailing ".md" when the name ends with it (the result plus ".md" is the name), otherwise returns the name unchanged |
| `UntitledName.MatchesPatternLanguage` | src/main.ts:65-66 | `^Untitled( \d+)?$` matches exactly "Untitled" and "Untitled " followed by one or more ASCII digits |
| `UntitledName.LanguageHasNoExtension` | src/main.ts:62-66 | no name the pattern accepts ends in ".md", so accepted names are never stripped a second time |
| `UntitledName.AppendedExtension` | src/main.ts:62 | a name ending in ".md" is recognised as such, and stripping gives back the base |
| `UntitledName.IsUntitledFileLanguage` | src/main.ts:60-67 | `isUntitledFile` accepts a name exactly when it is in the untitled language, either as is or followed by one ".md" |
| `UntitledName.RejectedNames` | src/main.ts:60-67 | "Untitled1.md", "untitled.md", "My Untitled.md", "Untitled 1 2.md", "Untitled.md.md" and "Untitled .md" are rejected |
| `UntitledName.AcceptedNames` | src/main.ts:57-66 | "Untitled.md", "Untitled 1.md", "Untitled 42.md" and "Untitled" are accepted |
| `JsTrim.TrimStart` | src/main.ts:87 | the result is the suffix left after a run of leading white space, and it does not start with white space |
| `JsTrim.TrimEnd` | src/main.ts:87 | the result is the prefix left before a run of trailing white space, and it does not end with white space |
| `JsTrim.TrimEmptyIffBlank` | src/main.ts:87 | `content.trim().length > 0` is false exactly when every character is white space |
| `JsTrim.TrimExamples` | src/main.ts:87 | "   \n\t  " trims to empty; "x" does not |
| `Policy.VanishedIsNoOp` | src/main.ts:75-78 | when the path no longer exists, the policy leaves the vault unchanged, however many times it runs |
| `Policy.NamedFileUntouched` | src/main.ts:81-83 | a file whose name fails the untitled test is never deleted, whatever its content and whatever the I/O faults |
| `Policy.AfterCloseEffect` | src/main.ts:75-90 | for an existing path, the path leaves the vault iff: the name is untitled, a file is there, its text is blank, and neither read nor trash faults; no other path changes and nothing is added |
| `Policy.AfterCloseIdempotent` | src/main.ts:72-94 | with the same faults on both calls, running the policy twice on one file has the effect of running it once |
| `Policy.TrashesIsLocal` | src/main.ts:75-90 | the trash decision depends only on the vault entry at the file's own path |
| `Policy.FoldCloseAnyOrder` | src/main.ts:29-35 | handling the tracked handles one after another gives the same vault in any order, even with repeats under the same faults: each path is decided on its own |
| `Policy.FaultIsolation` | src/main.ts:91-93 | whether a closed path survives a batch depends only on the faults at that path, never on another document's read or trash throwing |
| `Tracker.Upsert` | src/main.ts:9-13 | a present file is stored under its path; a null file changes nothing; every other key keeps its handle; keying by path is kept |
| `Tracker.ShownPathsStep` | src/main.ts:20-26 | the paths shown by a sequence of leaves are those shown before its last leaf, plus that leaf's path if it shows a file |
| `Tracker.SeedKeys` | src/main.ts:48-53 | seeding adds exactly the paths of leaves that show a file and keeps every handle under its own path |
| `Tracker.LastShowingIndex` | src/main.ts:48-53 | for a shown path, the index of a leaf showing a file at that path, with no later leaf showing that path |
| `Tracker.SeedShown` | src/main.ts:48-53 | after seeding, a shown path is tracked and holds the file of the last leaf showing it (later `set` calls overwrite earlier ones) |
| `Tracker.SeedUnshown` | src/main.ts:48-53 | after seeding, an entry for a path that no leaf shows keeps its old handle |
| `Tracker.ReconcileProperties` | src/main.ts:29-43 | after a layout change the keys are the still-shown old keys plus the shown paths that resolve to a file; so they lie between the resolving shown paths and all shown paths; old entries are never overwritten; new entries are the vault's handles; keying by path is kept |
| `Tracker.ReconcileConverges` | src/main.ts:38-43 | when every shown path resolves to a file, the tracked keys are exactly the shown paths |
| `Tracker.ReconcileKeysExact` | src/main.ts:29-43 | the tracked keys equal the shown paths if and only if every shown path was already tracked or resolves to a vault file |
| `Plugin.AutoDeleteEmptyUntitledPlugin.constructor` | src/main.ts:4 | the plugin starts with an empty map |
| `Plugin.AutoDeleteEmptyUntitledPlugin.OnLoad` | src/main.ts:47-53 | the map becomes the seeding of the old map by the leaves, and its keys gain exactly the shown paths |
| `Plugin.AutoDeleteEmptyUntitledPlugin.OnFileOpen` | src/main.ts:9-13 | a non-null file is upserted under its path; a null file leaves the map unchanged |
| `Plugin.AutoDeleteEmptyUntitledPlugin.CurrentlyOpenPaths` | src/main.ts:20-26 | the loop over the leaves collects exactly the paths of leaves showing a file |
| `Plugin.AutoDeleteEmptyUntitledPlugin.HandleFileClosed` | src/main.ts:72-94 | the call performs the guard chain; the result is the policy's vault (unchanged, or the file's path removed); the content is read exactly when the path exists and the name is untitled; no error escapes |
| `Plugin.AutoDeleteEmptyUntitledPlugin.CloseUnshown` | src/main.ts:29-35 | each tracked path no longer shown is handed to the close handler exactly once and is removed whether or not it was trashed; entries of shown paths are untouched; the vault is the batch result |
| `Plugin.AutoDeleteEmptyUntitledPlugin.AddResolving` | src/main.ts:38-43 | each shown path that resolves to a file and is not yet tracked is added; nothing is overwritten |
| `Plugin.AutoDeleteEmptyUntitledPlugin.OnLayoutChange` | src/main.ts:18-44 | the closed paths are handled once each, in a recorded order whose result is order-independent; the new map is the reconciliation of the old one; resolving shown paths ⊆ keys ⊆ shown paths; still-shown entries keep their handles |
| `Scenarios.OpenThenClose` | src/main.ts:9-35 | opening "Untitled 3.md" and closing its only tab applies the policy to it and leaves nothing tracked |
| `Scenarios.ThreeClosesOutcome` | src/main.ts:72-94 | three untitled notes close together and the second's read throws: the first (empty) is trashed; the second and the third (with text) are kept |

## Left out

- Obsidian API plumbing is not modelled. That covers `registerEvent`, `workspace.on`, `iterateAllLeaves`,
  `getAbstractFileByPath`, `vault.read` and `fileManager.trashFile`. They are replaced by the leaf
  sequence, the vault map and the fault oracle passed as parameters.
- The user's trash-versus-delete preference is a host setting. Both outcomes are modelled as the
  path leaving the vault.
- The runtime probes `'file' in leaf.view` and `instanceof TFile` become an `Option` of a handle per
  leaf and per lookup.
- The `console.error` logging in the catch block is left out. Only "the call returns normally" is kept.
- Async suspension and re-entrancy are left out. Each handler runs to completion; another
  `layout-change` arriving during an awaited read or trash is not modelled.
- The iteration order of the JavaScript `Map` and `Set` is not modelled. The loops pick keys in an
  arbitrary order from the key set captured when they start. `Policy.FoldCloseAnyOrder` shows the
  order does not matter.
- Strings are sequences of Unicode code points, not UTF-16 code units. This makes no difference to
  `trim` or to the pattern, which only involve BMP characters.
- File handles are immutable values. In Obsidian a `TFile` is a shared object whose `path` changes in
  place when the note is renamed or moved. That aliasing is not modelled: `Valid()` keeps every handle
  under its own path. What this hides: a tracked note renamed or moved while open keeps its old key,
  which is no longer shown at the next `layout-change` (src/main.ts:30). `handleFileClosed` then runs
  on the live handle at its new path, and the source trashes the still-open note when its new name
  is untitled and its text is blank (src/main.ts:75-90).
- Faults are fixed per path for one handler run: a read or trash that throws for a path throws on
  every call in that run. Transient failures and retries are not modelled, so
  `Policy.AfterCloseIdempotent` and the repeats in `Policy.FoldCloseAnyOrder` hold only under the
  same faults; in the source a trash that threw once can succeed on a later call. Within one
  `layout-change` each path is handled at most once, so the handler contracts do not depend on this.
- `Host.Trash` assumes a trash call that throws leaves the vault unchanged. Partial failures inside
  the host are not modelled.
- Plugin unload is not modelled: the source defines no `onunload`.
