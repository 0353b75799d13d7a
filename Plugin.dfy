/**
 * The plugin object: the `openFiles` map it owns and its handlers for load,
 * `file-open` and `layout-change`, with the close handler they call. Host
 * state arrives as parameters: the leaves currently in the workspace, the
 * vault, and which host I/O calls throw.
 */
module Plugin {
  import opened Wrappers
  import opened Host
  import opened UntitledName
  import opened JsTrim
  import opened Policy
  import opened Tracker

  class AutoDeleteEmptyUntitledPlugin {
    /** Tracked open documents, keyed by path. */
    var openFiles: map<string, TFile>

    /** Every tracked handle sits under its own path. */
    ghost predicate Valid()
      reads this
    {
      KeyedByPath(openFiles)
    }

    constructor ()
      ensures Valid() && openFiles == map[]
    {
      openFiles := map[];
    }

    /** Load-time seeding: each leaf whose view shows a file puts that file under its path. */
    method OnLoad(leaves: seq<Leaf>)
      requires Valid()
      modifies this
      ensures Valid()
      ensures openFiles == Seed(old(openFiles), leaves)
      ensures openFiles.Keys == old(openFiles).Keys + ShownPaths(leaves)
    {
      ghost var start := openFiles;
      for i := 0 to |leaves|
        invariant openFiles == Seed(start, leaves[..i])
      {
        assert leaves[..i + 1][..i] == leaves[..i];
        openFiles := Upsert(openFiles, leaves[i]);
      }
      assert leaves[..|leaves|] == leaves;
      SeedKeys(start, leaves);
    }

    /** The `file-open` handler: a present file is upserted under its path; nothing else changes. */
    method OnFileOpen(file: Option<TFile>)
      requires Valid()
      modifies this
      ensures Valid()
      ensures openFiles == Upsert(old(openFiles), file)
    {
      openFiles := Upsert(openFiles, file);
    }

    /** The set of paths shown by the leaves, built by iterating over them. */
    method CurrentlyOpenPaths(leaves: seq<Leaf>) returns (paths: set<string>)
      ensures paths == ShownPaths(leaves)
    {
      paths := {};
      for i := 0 to |leaves|
        invariant paths == ShownPaths(leaves[..i])
      {
        ShownPathsStep(leaves[..i + 1]);
        assert leaves[..i + 1][..i] == leaves[..i];
        if leaves[i].Some? {
          paths := paths + {leaves[i].value.path};
        }
      }
      assert leaves[..|leaves|] == leaves;
    }

    /**
     * `handleFileClosed`: return if the path no longer exists, return if the
     * name is not untitled, read the content, trash the file if the trimmed
     * content is empty. A read or trash that throws ends the call quietly.
     * `didRead` records whether the content was read.
     */
    method HandleFileClosed(vault: Vault, file: TFile, faults: Faults) returns (vault': Vault, ghost didRead: bool)
      ensures vault' == AfterClose(vault, file, faults)
      ensures vault' == vault || vault' == vault - {file.path}
      ensures didRead <==> Exists(vault, file.path) && IsUntitledFile(file.name)
    {
      vault', didRead := vault, false;
      var fileExists := Exists(vault, file.path);
      if !fileExists {
        return;
      }
      if !IsUntitledFile(file.name) {
        return;
      }
      didRead := true;
      var content := Read(vault, file, faults);
      if content.None? {
        return;
      }
      var hasContent := |Trim(content.value)| > 0;
      TrimEmptyIffBlank(content.value);
      if !hasContent {
        var trashed := Trash(vault, file, faults);
        if trashed.Some? {
          vault' := trashed.value;
        }
      }
    }

    /**
     * The `layout-change` handler: every tracked path not shown any more is
     * handed to the close handler once and dropped from the map; then every
     * shown path that resolves to a vault file and is not yet tracked is
     * added. `handled` records the order in which closed paths were handled.
     */
    method OnLayoutChange(leaves: seq<Leaf>, vault: Vault, faults: Faults) returns (vault': Vault, ghost handled: seq<string>)
      requires Valid()
      modifies this
      ensures Valid()
      ensures Elements(handled) == old(openFiles).Keys - ShownPaths(leaves)
      ensures forall i, j :: 0 <= i < j < |handled| ==> handled[i] != handled[j]
      ensures vault' == FoldClose(vault, old(openFiles), handled, faults)
      ensures vault' == AfterCloseAll(vault, old(openFiles), old(openFiles).Keys - ShownPaths(leaves), faults)
      ensures openFiles == Reconcile(old(openFiles), ShownPaths(leaves), vault')
      ensures Resolving(ShownPaths(leaves), vault') <= openFiles.Keys <= ShownPaths(leaves)
      ensures forall p :: p in old(openFiles) && p in ShownPaths(leaves) ==> openFiles[p] == old(openFiles)[p]
    {
      var currentlyOpen := CurrentlyOpenPaths(leaves);
      ghost var tracked := openFiles;
      vault', handled := CloseUnshown(currentlyOpen, vault, faults);
      AddResolving(currentlyOpen, vault');
      ReconcileProperties(tracked, currentlyOpen, vault');
    }

    /**
     * The close-detection loop of `layout-change`, over the keys present when
     * it starts: a key not in `currentlyOpen` goes to the close handler and is
     * then removed, whether or not its file was trashed.
     */
    method CloseUnshown(currentlyOpen: set<string>, vault: Vault, faults: Faults) returns (vault': Vault, ghost handled: seq<string>)
      requires Valid()
      modifies this
      ensures Valid()
      ensures openFiles == Retain(old(openFiles), currentlyOpen)
      ensures Elements(handled) == old(openFiles).Keys - currentlyOpen
      ensures forall i, j :: 0 <= i < j < |handled| ==> handled[i] != handled[j]
      ensures vault' == FoldClose(vault, old(openFiles), handled, faults)
      ensures vault' == AfterCloseAll(vault, old(openFiles), old(openFiles).Keys - currentlyOpen, faults)
    {
      ghost var tracked := openFiles;
      vault', handled := vault, [];
      var pending := openFiles.Keys;
      while pending != {}
        invariant pending <= tracked.Keys
        invariant openFiles == map p | p in tracked && (p in pending || p in currentlyOpen) :: tracked[p]
        invariant Elements(handled) == (tracked.Keys - pending) - currentlyOpen
        invariant forall i, j :: 0 <= i < j < |handled| ==> handled[i] != handled[j]
        invariant vault' == FoldClose(vault, tracked, handled, faults)
        decreases pending
      {
        var path :| path in pending;
        pending := pending - {path};
        if path !in currentlyOpen {
          ghost var ignored;
          vault', ignored := HandleFileClosed(vault', openFiles[path], faults);
          openFiles := openFiles - {path};
          assert Elements(handled + [path]) == Elements(handled) + {path};
          assert (handled + [path])[..|handled|] == handled;
          handled := handled + [path];
        }
      }
      FoldCloseAnyOrder(vault, tracked, handled, faults);
    }

    /**
     * The top-up loop of `layout-change`: each path of `currentlyOpen` that
     * resolves to a vault file and is not yet a key is added; existing
     * entries are never overwritten.
     */
    method AddResolving(currentlyOpen: set<string>, vault: Vault)
      requires Valid()
      modifies this
      ensures Valid()
      ensures openFiles == TopUp(old(openFiles), currentlyOpen, vault)
    {
      ghost var retained := openFiles;
      var toVisit := currentlyOpen;
      while toVisit != {}
        invariant toVisit <= currentlyOpen
        invariant openFiles == TopUp(retained, currentlyOpen - toVisit, vault)
        decreases toVisit
      {
        var path :| path in toVisit;
        toVisit := toVisit - {path};
        var file := FileByPath(vault, path);
        if file.Some? && path !in openFiles {
          openFiles := openFiles[path := file.value];
        }
      }
    }
  }
}
