/**
 * Clients of the plugin that drive it through open, close and external
 * deletion, and check the outcome from the handlers' contracts alone.
 */
module Scenarios {
  import opened Wrappers
  import opened Host
  import opened UntitledName
  import opened JsTrim
  import opened Policy
  import opened Tracker
  import opened Plugin

  const NoFaults := Faults({}, {})

  /** Open "Untitled 3.md" with the given content, then close its only tab. */
  method OpenThenClose(content: string) returns (file: TFile, vault': Vault, plugin: AutoDeleteEmptyUntitledPlugin)
    ensures file == TFile("Untitled 3.md", "Untitled 3.md")
    ensures plugin.openFiles == map[]
    ensures vault' == AfterClose(map[file.path := FileEntry(file.name, content)], file, NoFaults)
  {
    file := TFile("Untitled 3.md", "Untitled 3.md");
    var vault: Vault := map[file.path := FileEntry(file.name, content)];
    plugin := new AutoDeleteEmptyUntitledPlugin();
    plugin.OnLoad([]);
    plugin.OnFileOpen(Some(file));
    ghost var handled;
    vault', handled := plugin.OnLayoutChange([None], vault, NoFaults);
    assert ShownPaths([None]) == {};
  }

  /** An empty untitled note is trashed once its tab closes. */
  method EmptyUntitledIsTrashed() {
    var file, vault', plugin := OpenThenClose("");
    assert StripExtension(file.name) == "Untitled 3";
    assert IsUntitledFile(file.name);
    assert file.path !in vault';
  }

  /** An untitled note with text in it is kept. */
  method EditedUntitledIsKept() {
    var file, vault', plugin := OpenThenClose("hello");
    assert !AllWhitespace("hello") by {
      assert !IsWhitespace("hello"[0]);
    }
    assert !Qualifies(map[file.path := FileEntry(file.name, "hello")], file);
    assert file.path in vault';
  }

  /** A note with its own name is kept even when empty. */
  method NamedNoteIsKept() {
    var file := TFile("notes/My Draft.md", "My Draft.md");
    var vault: Vault := map[file.path := FileEntry(file.name, "")];
    var plugin := new AutoDeleteEmptyUntitledPlugin();
    plugin.OnLoad([Some(file)]);
    assert ShownPaths([Some(file)]) == {file.path};
    assert StripExtension(file.name) == "My Draft";
    assert "My Draft"[..|Stem|] != Stem by { assert "My Draft"[0] != Stem[0]; }
    ghost var handled;
    var vault';
    vault', handled := plugin.OnLayoutChange([], vault, NoFaults);
    assert vault' == vault;
    assert plugin.openFiles == map[];
  }

  /** A tracked note deleted behind the plugin's back: closing it raises nothing and it is untracked. */
  method ExternallyDeletedIsForgotten() {
    var file := TFile("Untitled.md", "Untitled.md");
    var plugin := new AutoDeleteEmptyUntitledPlugin();
    plugin.OnLoad([Some(file)]);
    assert ShownPaths([Some(file)]) == {file.path};
    var empty: Vault := map[];
    ghost var handled;
    var vault';
    vault', handled := plugin.OnLayoutChange([], empty, NoFaults);
    assert vault' == empty;
    assert file.path !in plugin.openFiles;
  }

  const First := TFile("Untitled.md", "Untitled.md")
  const Second := TFile("Untitled 1.md", "Untitled 1.md")
  const Third := TFile("Untitled 2.md", "Untitled 2.md")

  /** Closing all three of `First` (empty), `Second` (empty, read throws) and `Third` (text) trashes only `First`. */
  lemma ThreeClosesOutcome(vault: Vault, files: map<string, TFile>, faults: Faults)
    requires vault == map[First.path := FileEntry(First.name, ""), Second.path := FileEntry(Second.name, ""),
                          Third.path := FileEntry(Third.name, "x")]
    requires files == map[First.path := First][Second.path := Second][Third.path := Third]
    requires faults == Faults({Second.path}, {})
    ensures AfterCloseAll(vault, files, files.Keys, faults) == vault - {First.path}
  {
    assert StripExtension(First.name) == "Untitled";
    assert Trashes(vault, First, faults);
    assert !Trashes(vault, Second, faults);
    TrimEmptyIffBlank("x");
    assert !IsWhitespace("x"[0]);
    assert !Trashes(vault, Third, faults);
  }

  /** Three notes close together and reading the second throws: the first and third are still decided. */
  method ReadFailureIsIsolated() {
    var vault: Vault := map[First.path := FileEntry(First.name, ""), Second.path := FileEntry(Second.name, ""),
                            Third.path := FileEntry(Third.name, "x")];
    var plugin := new AutoDeleteEmptyUntitledPlugin();
    plugin.OnFileOpen(Some(First));
    plugin.OnFileOpen(Some(Second));
    plugin.OnFileOpen(Some(Third));
    ghost var files := plugin.openFiles;
    assert files == map[First.path := First][Second.path := Second][Third.path := Third];
    var faults := Faults({Second.path}, {});
    ThreeClosesOutcome(vault, files, faults);
    ghost var handled;
    var vault';
    assert ShownPaths([]) == {};
    vault', handled := plugin.OnLayoutChange([], vault, faults);
    assert vault' == vault - {First.path};
    assert plugin.openFiles == map[];
  }
}
