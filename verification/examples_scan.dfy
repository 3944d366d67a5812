/** Worked examples of the scanner on concrete texts. */
module ScanExamples {
  import opened LspTypes
  import opened Scanner

  /** `exec` moves past an offset where the pattern does not match. */
  lemma ExecSkips(s: string, k: nat)
    requires k < |s| && MatchAt(s, k) == None
    ensures ExecFrom(s, k) == ExecFrom(s, k + 1)
  {
  }

  /** `exec` stops at an offset where the pattern matches. */
  lemma ExecHits(s: string, k: nat, e: nat)
    requires k < |s| && MatchAt(s, k) == Some(e) && k <= e <= |s|
    ensures ExecFrom(s, k) == Some(RegexMatch(k, s[k..e]))
  {
  }

  /** A name declared twice is found twice. */
  lemma RepeatedDeclaration()
    ensures DeclaredNames("A: A: ") == ["A", "A"]
  {
    var s := "A: A: ";
    assert ExecFrom(s, 0) == Some(RegexMatch(0, "A: ")) by {
      assert MatchAt(s, 0) == Some(3) by { assert LetterRunEnd(s, 0) == 1; }
      ExecHits(s, 0, 3);
      assert s[0..3] == "A: ";
    }
    assert ExecFrom(s, 3) == Some(RegexMatch(3, "A: ")) by {
      assert MatchAt(s, 3) == Some(6) by { assert LetterRunEnd(s, 3) == 4; }
      ExecHits(s, 3, 6);
      assert s[3..6] == "A: ";
    }
    assert MatchAll(s, 6) == [];
    assert MatchAll(s, 3) == [RegexMatch(3, "A: ")];
    assert MatchAll(s, 0) == [RegexMatch(0, "A: "), RegexMatch(3, "A: ")];
    assert MatchName(RegexMatch(0, "A: ")) == "A";
    assert MatchName(RegexMatch(3, "A: ")) == "A";
  }

  /** An underscore is a word character, so a name right after one is not
      a declaration. */
  lemma UnderscoreBlocksDeclaration()
    ensures DeclaredNames("_A: ") == []
  {
  }

  /** A hyphen is not a word character, so a name right after one is a
      declaration. */
  lemma HyphenAllowsDeclaration()
    ensures DeclaredNames("-A: ") == ["A"]
  {
    var s := "-A: ";
    assert ExecFrom(s, 0) == Some(RegexMatch(1, "A: ")) by {
      assert MatchAt(s, 0) == None by { assert LetterRunEnd(s, 0) == 0; }
      ExecSkips(s, 0);
      assert MatchAt(s, 1) == Some(4) by { assert LetterRunEnd(s, 1) == 2; }
      ExecHits(s, 1, 4);
      assert s[1..4] == "A: ";
    }
    assert MatchAll(s, 4) == [];
    assert MatchName(RegexMatch(1, "A: ")) == "A";
  }
}
