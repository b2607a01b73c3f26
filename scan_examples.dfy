/** Worked instances of the scan, small enough to follow by hand. */
module ScanExamples {
  import Decimal
  import opened MutationNotation
  import opened Mut2Pep

  /** Two differing positions give two substitutions in window order,
      written "A1G; C2T" for the window at offset 0. */
  lemma TwoSubstitutions()
    ensures Mismatches("AC", "GT") == [Mismatch(0, 'A', 'G'), Mismatch(1, 'C', 'T')]
    ensures MutationString(0, Mismatches("AC", "GT")) == "A1G; C2T"
  {
    assert MismatchesBelow("AC", "GT", 1) == [Mismatch(0, 'A', 'G')];
    var subs := Substitutions(0, [Mismatch(0, 'A', 'G'), Mismatch(1, 'C', 'T')]);
    assert subs == [Substitution('A', 1, 'G'), Substitution('C', 2, 'T')];
    assert Decimal.FromNat(1) == "1" && Decimal.FromNat(2) == "2";
    RenderCons(subs);
    assert subs[1..] == [Substitution('C', 2, 'T')];
    assert Notation(subs[0]) == "A1G";
    assert Notation(subs[1]) == "C2T";
    assert Notations(subs[1..]) == ["C2T"];
    assert Render(subs[1..]) == "C2T";
  }

  /** The same two mismatches exceed a budget of one and fit a budget of
      two, where the whole protein is the one row. */
  lemma BudgetExample()
    ensures ScanSpec("GT", 1, [Record("P1", "P1 test", "AC")]) == []
    ensures ScanSpec("GT", 2, [Record("P1", "P1 test", "AC")])
            == [MatchRow("GT", "P1", "P1 test", 1, 2, "AC", 2, "A1G; C2T")]
  {
    var rec := Record("P1", "P1 test", "AC");
    assert Window(rec.sequence, 2, 0) == "AC";
    TwoSubstitutions();
    assert RecordRows("GT", 1, rec) == [];
    assert RecordRows("GT", 2, rec) == [MatchRow("GT", "P1", "P1 test", 1, 2, "AC", 2, "A1G; C2T")];
    assert [rec][..0] == [];
  }

  /** A single substitution at the last position of the window at offset 1:
      the wild-type residue 'B' at protein position 5. */
  lemma OneSubstitution()
    ensures Mismatches("AAAB", "AAAA") == [Mismatch(3, 'B', 'A')]
    ensures MutationString(1, [Mismatch(3, 'B', 'A')]) == "B5A"
  {
    assert MismatchesBelow("AAAB", "AAAA", 3) == [];
    assert Substitutions(1, [Mismatch(3, 'B', 'A')]) == [Substitution('B', 5, 'A')];
    assert Decimal.FromNat(5) == "5";
    assert Notation(Substitution('B', 5, 'A')) == "B5A";
    assert Notations([Substitution('B', 5, 'A')]) == ["B5A"];
  }

  /** Peptide "AAAA" with budget 1 against "AAAAB": the exact match at
      offset 0 is not reported, the one-mismatch window at offset 1 is,
      as Match_Start 2 and Match_End 5. */
  lemma OneRowExample()
    ensures ScanSpec("AAAA", 1, [Record("P1", "P1 test", "AAAAB")])
            == [MatchRow("AAAA", "P1", "P1 test", 2, 5, "AAAB", 1, "B5A")]
  {
    var rec := Record("P1", "P1 test", "AAAAB");
    assert Window(rec.sequence, 4, 0) == "AAAA";
    assert Window(rec.sequence, 4, 1) == "AAAB";
    MismatchesExact("AAAA", "AAAA", Mismatches("AAAA", "AAAA"));
    OneSubstitution();
    assert RecordRowsBelow("AAAA", 1, rec, 1) == [];
    assert RecordRows("AAAA", 1, rec) == [MatchRow("AAAA", "P1", "P1 test", 2, 5, "AAAB", 1, "B5A")];
    assert [rec][..0] == [];
  }

  /** A peptide residue that is itself a digit still reads back: the entry
      "A12" is 'A' at position 1 replaced by '2'. */
  lemma DigitResidue()
    ensures Render([Substitution('A', 1, '2')]) == "A12"
    ensures Parse("A12") == Some([Substitution('A', 1, '2')])
  {
    RenderOne(Substitution('A', 1, '2'));
    assert Decimal.FromNat(1) == "1";
    ParseRender([Substitution('A', 1, '2')]);
  }
}
