/**
 * The `openFiles` map as values: how `file-open`, load-time seeding and the
 * layout-change reconciliation transform it.
 */
module Tracker {
  import opened Wrappers
  import opened Host

  type OpenFiles = map<string, TFile>

  /** `if (file) openFiles.set(file.path, file)`. */
  function Upsert(m: OpenFiles, file: Option<TFile>): (r: OpenFiles)
    ensures file.None? ==> r == m
    ensures file.Some? ==> r.Keys == m.Keys + {file.value.path} && r[file.value.path] == file.value
    ensures forall p :: p in m && !(file.Some? && p == file.value.path) ==> r[p] == m[p]
    ensures KeyedByPath(m) ==> KeyedByPath(r)
  {
    if file.Some? then m[file.value.path := file.value] else m
  }

  /** The paths of the leaves whose view shows a file. */
  function ShownPaths(leaves: seq<Leaf>): set<string> {
    set i | 0 <= i < |leaves| && leaves[i].Some? :: leaves[i].value.path
  }

  /** The map after `openFiles.set(...)` for each leaf showing a file, first leaf to last. */
  function Seed(m: OpenFiles, leaves: seq<Leaf>): OpenFiles {
    if leaves == [] then m
    else Upsert(Seed(m, leaves[..|leaves| - 1]), leaves[|leaves| - 1])
  }

  /** The index of the last leaf showing a file at `p`. */
  predicate LastShowing(leaves: seq<Leaf>, i: int, p: string) {
    && 0 <= i < |leaves|
    && leaves[i].Some? && leaves[i].value.path == p
    && forall j :: i < j < |leaves| && leaves[j].Some? ==> leaves[j].value.path != p
  }

  lemma ShownPathsStep(leaves: seq<Leaf>)
    requires leaves != []
    ensures ShownPaths(leaves) == ShownPaths(leaves[..|leaves| - 1]) +
      (if leaves[|leaves| - 1].Some? then {leaves[|leaves| - 1].value.path} else {})
  {
  }

  /** Seeding adds exactly the shown paths and keeps every handle under its own path. */
  lemma {:induction false} SeedKeys(m: OpenFiles, leaves: seq<Leaf>)
    ensures Seed(m, leaves).Keys == m.Keys + ShownPaths(leaves)
    ensures KeyedByPath(m) ==> KeyedByPath(Seed(m, leaves))
  {
    if leaves != [] {
      SeedKeys(m, leaves[..|leaves| - 1]);
      ShownPathsStep(leaves);
    }
  }

  /** The index of the last leaf that shows a file at the shown path `p`. */
  function LastShowingIndex(leaves: seq<Leaf>, p: string): (i: int)
    requires p in ShownPaths(leaves)
    ensures LastShowing(leaves, i, p)
  {
    var n := |leaves| - 1;
    if leaves[n].Some? && leaves[n].value.path == p then n
    else
      ShownPathsStep(leaves);
      var i := LastShowingIndex(leaves[..n], p);
      assert leaves[i] == leaves[..n][i];
      i
  }

  /** A shown path holds the file of the last leaf showing it. */
  lemma {:induction false} SeedShown(m: OpenFiles, leaves: seq<Leaf>, p: string)
    requires p in ShownPaths(leaves)
    ensures p in Seed(m, leaves) && Seed(m, leaves)[p] == leaves[LastShowingIndex(leaves, p)].value
  {
    var n := |leaves| - 1;
    var prefix := leaves[..n];
    assert Seed(m, leaves) == Upsert(Seed(m, prefix), leaves[n]);
    if !(leaves[n].Some? && leaves[n].value.path == p) {
      ShownPathsStep(leaves);
      SeedShown(m, prefix, p);
      assert LastShowingIndex(leaves, p) == LastShowingIndex(prefix, p);
    }
  }

  /** An entry for a path that no leaf shows keeps its old handle. */
  lemma {:induction false} SeedUnshown(m: OpenFiles, leaves: seq<Leaf>, p: string)
    requires p in m && p !in ShownPaths(leaves)
    ensures p in Seed(m, leaves) && Seed(m, leaves)[p] == m[p]
  {
    if leaves != [] {
      var n := |leaves| - 1;
      ShownPathsStep(leaves);
      SeedUnshown(m, leaves[..n], p);
    }
  }

  /** What survives the close loop: the entries whose path is still shown. */
  function Retain(m: OpenFiles, current: set<string>): OpenFiles {
    map p | p in m && p in current :: m[p]
  }

  /** The shown paths that resolve to a vault file. */
  function Resolving(current: set<string>, vault: Vault): set<string> {
    set p | p in current && FileByPath(vault, p).Some?
  }

  /** The top-up loop over `paths`: add each path that resolves to a file and is not yet a key. */
  function TopUp(m: OpenFiles, paths: set<string>, vault: Vault): OpenFiles {
    map p | p in m.Keys + Resolving(paths, vault) :: if p in m then m[p] else FileByPath(vault, p).value
  }

  /** The map after a layout change that shows `current`, given the vault after the closes. */
  function Reconcile(m: OpenFiles, current: set<string>, vault: Vault): OpenFiles {
    TopUp(Retain(m, current), current, vault)
  }

  /**
   * After a layout change the keys lie between the shown paths that resolve to
   * a file and all shown paths; entries of still-shown paths are not
   * overwritten; new entries are the vault's handles.
   */
  lemma ReconcileProperties(m: OpenFiles, current: set<string>, vault: Vault)
    ensures Reconcile(m, current, vault).Keys == (m.Keys * current) + Resolving(current, vault)
    ensures Resolving(current, vault) <= Reconcile(m, current, vault).Keys <= current
    ensures forall p :: p in m && p in current ==> Reconcile(m, current, vault)[p] == m[p]
    ensures forall p :: p in Reconcile(m, current, vault) && p !in m ==>
      Some(Reconcile(m, current, vault)[p]) == FileByPath(vault, p)
    ensures KeyedByPath(m) ==> KeyedByPath(Reconcile(m, current, vault))
  {
  }

  /** When every shown path resolves to a file, the keys are exactly the shown paths. */
  lemma ReconcileConverges(m: OpenFiles, current: set<string>, vault: Vault)
    requires forall p :: p in current ==> FileByPath(vault, p).Some?
    ensures Reconcile(m, current, vault).Keys == current
  {
  }

  /**
   * The keys equal the shown paths exactly when every shown path was already
   * tracked or resolves to a vault file.
   */
  lemma ReconcileKeysExact(m: OpenFiles, current: set<string>, vault: Vault)
    ensures Reconcile(m, current, vault).Keys == current <==>
      forall p :: p in current ==> p in m || FileByPath(vault, p).Some?
  {
  }
}
