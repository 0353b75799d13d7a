/**
 * The deletion policy of `handleFileClosed` as functions of the vault: what one
 * call does, and what a batch of calls during one layout change does.
 */
module Policy {
  import opened Host
  import opened UntitledName
  import opened JsTrim

  /** The deletion condition: the path still exists, holds a file with an untitled name, and its text is blank. */
  predicate Qualifies(vault: Vault, file: TFile) {
    && Exists(vault, file.path)
    && IsUntitledFile(file.name)
    && vault[file.path].FileEntry?
    && AllWhitespace(vault[file.path].content)
  }

  /** The call trashes the file: it qualifies, and neither the read nor the trash throws. */
  predicate Trashes(vault: Vault, file: TFile, faults: Faults) {
    Qualifies(vault, file) && file.path !in faults.readFails && file.path !in faults.trashFails
  }

  /** The vault after one `handleFileClosed(file)`. */
  function AfterClose(vault: Vault, file: TFile, faults: Faults): Vault {
    if Trashes(vault, file, faults) then vault - {file.path} else vault
  }

  /** A vanished path is left alone, however often the policy runs on it. */
  lemma VanishedIsNoOp(vault: Vault, file: TFile, faults: Faults)
    requires !Exists(vault, file.path)
    ensures AfterClose(vault, file, faults) == vault
    ensures AfterClose(AfterClose(vault, file, faults), file, faults) == vault
  {
  }

  /** A file whose name is not untitled is never deleted, and what I/O would do to it does not matter. */
  lemma NamedFileUntouched(vault: Vault, file: TFile, faults: Faults)
    requires !IsUntitledFile(file.name)
    ensures AfterClose(vault, file, faults) == vault
  {
  }

  /**
   * One call removes `file.path` exactly when the file exists, is untitled,
   * is blank and no I/O fails; no other path changes and nothing is added.
   */
  lemma AfterCloseEffect(vault: Vault, file: TFile, faults: Faults)
    ensures AfterClose(vault, file, faults).Keys ==
      if Trashes(vault, file, faults) then vault.Keys - {file.path} else vault.Keys
    ensures forall q :: q in AfterClose(vault, file, faults) ==> AfterClose(vault, file, faults)[q] == vault[q]
    ensures file.path in vault ==>
      (file.path !in AfterClose(vault, file, faults) <==>
        && IsUntitledFile(file.name)
        && vault[file.path].FileEntry?
        && AllWhitespace(vault[file.path].content)
        && file.path !in faults.readFails
        && file.path !in faults.trashFails)
  {
  }

  /** Running the policy twice on the same file is the same as running it once. */
  lemma AfterCloseIdempotent(vault: Vault, file: TFile, faults: Faults)
    ensures AfterClose(AfterClose(vault, file, faults), file, faults) == AfterClose(vault, file, faults)
  {
  }

  /** The decision for a file depends only on the vault entry at its own path. */
  lemma TrashesIsLocal(v1: Vault, v2: Vault, file: TFile, faults: Faults)
    requires file.path in v1 <==> file.path in v2
    requires file.path in v1 ==> v1[file.path] == v2[file.path]
    ensures Trashes(v1, file, faults) == Trashes(v2, file, faults)
  {
  }

  /** The vault after every path of `closed` has had the policy applied to its tracked handle. */
  function AfterCloseAll(vault: Vault, files: map<string, TFile>, closed: set<string>, faults: Faults): Vault {
    map p | p in vault && !(p in closed && p in files && Trashes(vault, files[p], faults)) :: vault[p]
  }

  function Elements(order: seq<string>): set<string> {
    set x | x in order
  }

  /** The vault after the policy has run on the tracked handles of `order`, first to last. */
  function FoldClose(vault: Vault, files: map<string, TFile>, order: seq<string>, faults: Faults): Vault
    requires Elements(order) <= files.Keys
  {
    if order == [] then vault
    else
      var last := order[|order| - 1];
      AfterClose(FoldClose(vault, files, order[..|order| - 1], faults), files[last], faults)
  }

  /**
   * Closing tracked documents one after another, in any order and even with
   * repetitions, has the effect of deciding each document on its own.
   */
  lemma {:induction false} FoldCloseAnyOrder(vault: Vault, files: map<string, TFile>, order: seq<string>, faults: Faults)
    requires KeyedByPath(files)
    requires Elements(order) <= files.Keys
    ensures FoldClose(vault, files, order, faults) == AfterCloseAll(vault, files, Elements(order), faults)
  {
    if order == [] {
      assert AfterCloseAll(vault, files, {}, faults) == vault;
    } else {
      var prefix := order[..|order| - 1];
      var last := order[|order| - 1];
      assert Elements(order) == Elements(prefix) + {last} by {
        assert order == prefix + [last];
      }
      FoldCloseAnyOrder(vault, files, prefix, faults);
      var mid := AfterCloseAll(vault, files, Elements(prefix), faults);
      var lhs := AfterClose(mid, files[last], faults);
      var rhs := AfterCloseAll(vault, files, Elements(order), faults);
      if last in Elements(prefix) {
        // Already decided: either gone from `mid`, or kept because it does not qualify.
        assert lhs == mid;
      } else {
        TrashesIsLocal(mid, vault, files[last], faults);
        assert lhs.Keys == rhs.Keys;
      }
      assert lhs == rhs;
    }
  }

  /**
   * Isolation: whether a closed path survives depends on the faults at that
   * path only, never on a read or trash failing for another document.
   */
  lemma FaultIsolation(vault: Vault, files: map<string, TFile>, closed: set<string>, f1: Faults, f2: Faults, p: string)
    requires KeyedByPath(files)
    requires p in f1.readFails <==> p in f2.readFails
    requires p in f1.trashFails <==> p in f2.trashFails
    ensures p in AfterCloseAll(vault, files, closed, f1) <==> p in AfterCloseAll(vault, files, closed, f2)
  {
  }
}
