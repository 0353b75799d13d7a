/**
 * The name test `isUntitledFile`: drop one trailing ".md", then match the
 * regular expression `^Untitled( \d+)?$` (case-sensitive; `\d` is an ASCII digit).
 */
module UntitledName {

  const Extension: string := ".md"
  const Stem: string := "Untitled"

  predicate EndsWithExtension(name: string) {
    |name| >= |Extension| && name[|name| - |Extension|..] == Extension
  }

  /** `fileName.replace(/\.md$/, '')`: one trailing ".md" is removed, if present. */
  function StripExtension(name: string): (base: string)
    ensures EndsWithExtension(name) ==> base + Extension == name
    ensures !EndsWithExtension(name) ==> base == name
  {
    if EndsWithExtension(name) then name[..|name| - |Extension|] else name
  }

  predicate IsAsciiDigit(c: char) {
    '0' <= c <= '9'
  }

  /** One or more ASCII digits: the `\d+` of the pattern. */
  predicate IsDigits(s: string) {
    |s| > 0 && forall i :: 0 <= i < |s| ==> IsAsciiDigit(s[i])
  }

  /** `/^Untitled( \d+)?$/.test(s)`, read left to right. */
  predicate MatchesPattern(s: string) {
    && |s| >= |Stem|
    && s[..|Stem|] == Stem
    && (|s| == |Stem| || (s[|Stem|] == ' ' && IsDigits(s[|Stem| + 1..])))
  }

  predicate IsUntitledFile(fileName: string) {
    MatchesPattern(StripExtension(fileName))
  }

  /** The names the pattern matches, given as a language. */
  ghost predicate InUntitledLanguage(s: string) {
    s == Stem || exists d :: IsDigits(d) && s == Stem + " " + d
  }

  lemma MatchesPatternLanguage(s: string)
    ensures MatchesPattern(s) <==> InUntitledLanguage(s)
  {
  }

  /** No name of the language ends with ".md": each ends with "led" or with a digit. */
  lemma LanguageHasNoExtension(s: string)
    requires InUntitledLanguage(s)
    ensures !EndsWithExtension(s)
  {
    if s != Stem {
      var d :| IsDigits(d) && s == Stem + " " + d;
      assert s[|s| - 1] == d[|d| - 1];
      assert s[|s| - |Extension|..][2] == s[|s| - 1];
    }
  }

  lemma AppendedExtension(base: string)
    ensures EndsWithExtension(base + Extension)
    ensures StripExtension(base + Extension) == base
  {
  }

  /**
   * `isUntitledFile` accepts exactly "Untitled" and "Untitled N" (N one or
   * more ASCII digits), each with or without one ".md" suffix.
   */
  lemma {:induction false} IsUntitledFileLanguage(fileName: string)
    ensures IsUntitledFile(fileName) <==>
      (InUntitledLanguage(fileName) || exists base :: InUntitledLanguage(base) && fileName == base + Extension)
  {
    var stripped := StripExtension(fileName);
    MatchesPatternLanguage(stripped);
    forall x | InUntitledLanguage(x)
      ensures !EndsWithExtension(x)
    {
      LanguageHasNoExtension(x);
    }
    forall b | fileName == b + Extension
      ensures EndsWithExtension(fileName) && b == stripped
    {
      AppendedExtension(b);
    }
    if EndsWithExtension(fileName) {
      assert fileName == stripped + Extension;
    }
  }

  /** Case, spacing and suffix variants that the pattern rejects. */
  lemma RejectedNames()
    ensures !IsUntitledFile("Untitled1.md")
    ensures !IsUntitledFile("untitled.md")
    ensures !IsUntitledFile("My Untitled.md")
    ensures !IsUntitledFile("Untitled 1 2.md")
    ensures !IsUntitledFile("Untitled.md.md")
    ensures !IsUntitledFile("Untitled .md")
  {
    assert StripExtension("Untitled1.md") == "Untitled1";
    assert StripExtension("untitled.md") == "untitled";
    assert "untitled"[..|Stem|][0] != Stem[0];
    assert StripExtension("My Untitled.md") == "My Untitled";
    assert StripExtension("Untitled 1 2.md") == "Untitled 1 2";
    assert "Untitled 1 2"[|Stem| + 1..][1] == ' ';
    assert StripExtension("Untitled.md.md") == "Untitled.md";
    assert StripExtension("Untitled .md") == "Untitled ";
  }

  /** Names the pattern accepts. */
  lemma AcceptedNames()
    ensures IsUntitledFile("Untitled.md")
    ensures IsUntitledFile("Untitled 1.md")
    ensures IsUntitledFile("Untitled 42.md")
    ensures IsUntitledFile("Untitled")
  {
  }
}
