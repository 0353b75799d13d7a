/**
 * The host (an Obsidian vault and workspace) reduced to the values the plugin
 * observes: file handles, the vault as a map from path to entry, the leaves of
 * the workspace, and an oracle saying which host I/O calls throw.
 */
module Host {
  import opened Wrappers

  /** A file handle: its vault path and its base name (with extension). */
  datatype TFile = TFile(path: string, name: string)

  /** What the vault holds at a path: a file with its text, or a folder. */
  datatype Entry = FileEntry(name: string, content: string) | FolderEntry

  type Vault = map<string, Entry>

  /** A workspace leaf: the file its view shows, if the view shows one. */
  type Leaf = Option<TFile>

  /** The paths whose content read, or whose trashing, throws. */
  datatype Faults = Faults(readFails: set<string>, trashFails: set<string>)

  /** `getAbstractFileByPath(path)` is non-null: a file or a folder is there. */
  predicate Exists(vault: Vault, path: string) {
    path in vault
  }

  /** `getAbstractFileByPath(path)` followed by `instanceof TFile`. */
  function FileByPath(vault: Vault, path: string): (r: Option<TFile>)
  {
    if path in vault && vault[path].FileEntry? then Some(TFile(path, vault[path].name)) else None
  }

  /** `vault.read(file)`: None when it throws (an I/O fault, or no file at that path). */
  function Read(vault: Vault, file: TFile, faults: Faults): (r: Option<string>)
    ensures r.Some? <==> FileByPath(vault, file.path).Some? && file.path !in faults.readFails
    ensures r.Some? ==> r.value == vault[file.path].content
  {
    if file.path in vault && vault[file.path].FileEntry? && file.path !in faults.readFails
    then Some(vault[file.path].content)
    else None
  }

  /** `fileManager.trashFile(file)`: the path leaves the vault, or None when it throws. */
  function Trash(vault: Vault, file: TFile, faults: Faults): (r: Option<Vault>)
  {
    if file.path in faults.trashFails then None else Some(vault - {file.path})
  }

  /** Every handle in a path-keyed map is stored under its own path. */
  predicate KeyedByPath(files: map<string, TFile>) {
    forall p :: p in files ==> files[p].path == p
  }
}
