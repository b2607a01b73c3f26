/** The approximate-match scanner: a mutant peptide is slid along every
    protein sequence, and each window that differs from the peptide in at
    least one and at most `maxMismatches` positions is reported with its
    1-based coordinates and the substitutions that turn the wild-type window
    into the peptide. */
module Mut2Pep {
  import opened MutationNotation

  /** A protein as the sequence reader yields it. */
  datatype Record = Record(id: string, description: string, sequence: string)

  /** A differing position of a window: its 0-based offset in the window, the
      wild-type residue there and the peptide's residue there. */
  datatype Mismatch = Mismatch(pos: nat, ref: char, mut: char)

  /** One row of the report. */
  datatype MatchRow = MatchRow(
    peptide: string,
    proteinId: string,
    proteinDescription: string,
    matchStart: nat,
    matchEnd: nat,
    wildtypeWindow: string,
    numMismatches: nat,
    mutations: string)

  // ---------------------------------------------------------------------------
  // Mismatches of one window

  /** The mismatches among the first `n` positions, in ascending position. */
  function MismatchesBelow(window: string, peptide: string, n: nat): seq<Mismatch>
    requires |window| == |peptide| && n <= |peptide|
  {
    if n == 0 then []
    else
      var p := n - 1;
      MismatchesBelow(window, peptide, p)
      + if window[p] != peptide[p] then [Mismatch(p, window[p], peptide[p])] else []
  }

  /** The list comprehension `[(pos, window[pos], peptide[pos]) for pos in
      range(len(peptide)) if window[pos] != peptide[pos]]`. */
  function Mismatches(window: string, peptide: string): seq<Mismatch>
    requires |window| == |peptide|
  {
    MismatchesBelow(window, peptide, |peptide|)
  }

  /** Some entry of `ms` is at window position `p`. */
  predicate ListsPosition(ms: seq<Mismatch>, p: nat) {
    exists k :: 0 <= k < |ms| && ms[k].pos == p
  }

  /** Each entry below `n` is a differing position with the window's and the
      peptide's residues there, and the entries ascend. */
  lemma {:induction false} MismatchesBelowSound(window: string, peptide: string, n: nat, ms: seq<Mismatch>)
    requires |window| == |peptide| && n <= |peptide| && ms == MismatchesBelow(window, peptide, n)
    ensures |ms| <= n
    ensures forall k :: 0 <= k < |ms| ==>
      ms[k].pos < n && ms[k].ref == window[ms[k].pos] && ms[k].mut == peptide[ms[k].pos] && ms[k].ref != ms[k].mut
    ensures forall k, l :: 0 <= k < l < |ms| ==> ms[k].pos < ms[l].pos
    decreases n
  {
    if n > 0 {
      var p := n - 1;
      var prev := MismatchesBelow(window, peptide, p);
      MismatchesBelowSound(window, peptide, p, prev);
      if window[p] != peptide[p] {
        assert ms == prev + [Mismatch(p, window[p], peptide[p])];
      } else {
        assert ms == prev;
      }
    }
  }

  /** Every differing position below `n` has an entry. */
  lemma {:induction false} MismatchesBelowComplete(window: string, peptide: string, n: nat, ms: seq<Mismatch>)
    requires |window| == |peptide| && n <= |peptide| && ms == MismatchesBelow(window, peptide, n)
    ensures forall p :: 0 <= p < n && window[p] != peptide[p] ==> ListsPosition(ms, p)
    decreases n
  {
    if n > 0 {
      var p := n - 1;
      var prev := MismatchesBelow(window, peptide, p);
      MismatchesBelowComplete(window, peptide, p, prev);
      var extra := if window[p] != peptide[p] then [Mismatch(p, window[p], peptide[p])] else [];
      assert ms == prev + extra;
      forall q | 0 <= q < n && window[q] != peptide[q]
        ensures ListsPosition(ms, q)
      {
        if q < p {
          var k :| 0 <= k < |prev| && prev[k].pos == q;
          assert ms[k] == prev[k];
        } else {
          assert ms[|prev|].pos == q;
        }
      }
    }
  }

  /** The mismatch list names exactly the positions where the window and the
      peptide differ, each once and in ascending order, with the window's
      residue as `ref` and the peptide's as `mut`; so it is never longer than
      the peptide, and it is empty exactly when the window is the peptide. */
  lemma MismatchesExact(window: string, peptide: string, ms: seq<Mismatch>)
    requires |window| == |peptide| && ms == Mismatches(window, peptide)
    ensures |ms| <= |peptide|
    ensures forall k :: 0 <= k < |ms| ==>
      ms[k].pos < |peptide| && ms[k].ref == window[ms[k].pos] && ms[k].mut == peptide[ms[k].pos] && ms[k].ref != ms[k].mut
    ensures forall k, l :: 0 <= k < l < |ms| ==> ms[k].pos < ms[l].pos
    ensures forall p :: 0 <= p < |peptide| && window[p] != peptide[p] ==> ListsPosition(ms, p)
    ensures ms == [] <==> window == peptide
  {
    MismatchesBelowSound(window, peptide, |peptide|, ms);
    MismatchesBelowComplete(window, peptide, |peptide|, ms);
    if ms == [] {
      assert forall p :: 0 <= p < |peptide| ==> window[p] == peptide[p];
    } else {
      assert window[ms[0].pos] != peptide[ms[0].pos];
    }
  }

  // ---------------------------------------------------------------------------
  // Mutation text

  /** The mismatches of the window at 0-based `offset`, placed at their 1-based
      position in the protein. */
  function Substitutions(offset: nat, ms: seq<Mismatch>): seq<Substitution> {
    seq(|ms|, k requires 0 <= k < |ms| => Substitution(ms[k].ref, offset + ms[k].pos + 1, ms[k].mut))
  }

  /** The "Mutations" column: "{ref}{offset+pos+1}{mut}" per mismatch, joined by "; ". */
  function MutationString(offset: nat, ms: seq<Mismatch>): string {
    Render(Substitutions(offset, ms))
  }

  // ---------------------------------------------------------------------------
  // Windows and rows

  /** Python's `range(n - len + 1)` over window offsets, as a count. */
  function WindowCount(n: nat, len: nat): nat {
    if len <= n then n - len + 1 else 0
  }

  /** The offsets scanned are exactly those whose window fits in the
      sequence, so a sequence shorter than the peptide has none. */
  lemma WindowOffsets(n: nat, len: nat, i: nat)
    ensures i < WindowCount(n, len) <==> i + len <= n
    ensures WindowCount(n, len) == 0 <==> n < len
  {
  }

  /** The window `s[i:i+len]`. */
  function Window(s: string, len: nat, i: nat): string
    requires i < WindowCount(|s|, len)
  {
    s[i..i + len]
  }

  /** The acceptance filter `0 < len(mismatches) <= maxMismatches`. */
  predicate Reported(peptide: string, maxMismatches: int, s: string, i: nat)
    requires i < WindowCount(|s|, |peptide|)
  {
    0 < |Mismatches(Window(s, |peptide|, i), peptide)| <= maxMismatches
  }

  /** The report row for the window of `rec` at 0-based offset `i`. */
  function Row(peptide: string, rec: Record, i: nat): MatchRow
    requires i < WindowCount(|rec.sequence|, |peptide|)
  {
    var window := Window(rec.sequence, |peptide|, i);
    var ms := Mismatches(window, peptide);
    MatchRow(peptide, rec.id, rec.description, i + 1, i + |peptide|, window, |ms|, MutationString(i, ms))
  }

  /** A row's coordinates are 1-based and inclusive: they span the peptide's
      length, lie inside the protein and delimit the reported window; the
      peptide, id and description are copied; the mismatch count is at most
      the peptide's length and is zero exactly when the window is the
      peptide. */
  lemma RowFacts(peptide: string, rec: Record, i: nat, row: MatchRow)
    requires i < WindowCount(|rec.sequence|, |peptide|) && row == Row(peptide, rec, i)
    ensures 1 <= row.matchStart && row.matchEnd <= |rec.sequence|
    ensures row.matchEnd - row.matchStart + 1 == |peptide|
    ensures row.wildtypeWindow == rec.sequence[row.matchStart - 1..row.matchEnd]
    ensures row.numMismatches <= |peptide|
    ensures row.numMismatches == 0 <==> row.wildtypeWindow == peptide
    ensures row.peptide == peptide && row.proteinId == rec.id && row.proteinDescription == rec.description
  {
    var window := Window(rec.sequence, |peptide|, i);
    MismatchesExact(window, peptide, Mismatches(window, peptide));
  }

  // ---------------------------------------------------------------------------
  // The specification of the scan

  /** The rows of `rec` for the offsets below `n`, in ascending offset. */
  function RecordRowsBelow(peptide: string, maxMismatches: int, rec: Record, n: nat): seq<MatchRow>
    requires n <= WindowCount(|rec.sequence|, |peptide|)
  {
    if n == 0 then []
    else
      RecordRowsBelow(peptide, maxMismatches, rec, n - 1)
      + if Reported(peptide, maxMismatches, rec.sequence, n - 1) then [Row(peptide, rec, n - 1)] else []
  }

  /** All rows of one protein. */
  function RecordRows(peptide: string, maxMismatches: int, rec: Record): seq<MatchRow> {
    RecordRowsBelow(peptide, maxMismatches, rec, WindowCount(|rec.sequence|, |peptide|))
  }

  /** All rows of the scan: protein by protein in input order. */
  function ScanSpec(peptide: string, maxMismatches: int, records: seq<Record>): seq<MatchRow>
    decreases |records|
  {
    if records == [] then []
    else
      ScanSpec(peptide, maxMismatches, records[..|records| - 1])
      + RecordRows(peptide, maxMismatches, records[|records| - 1])
  }

  // ---------------------------------------------------------------------------
  // The scan itself

  /** The loops over proteins and window offsets, appending a row for every
      window that passes the filter. */
  method Scan(peptide: string, maxMismatches: int, records: seq<Record>) returns (results: seq<MatchRow>)
    ensures results == ScanSpec(peptide, maxMismatches, records)
  {
    results := [];
    for j := 0 to |records|
      invariant results == ScanSpec(peptide, maxMismatches, records[..j])
    {
      results := ScanProtein(peptide, maxMismatches, records[j], results);
      ScanSpecStep(peptide, maxMismatches, records, j);
    }
    assert records[..|records|] == records;
  }

  /** The body of the loop over proteins: slides the window along `record`
      and appends to `results` the row of every window that passes the
      filter. */
  method ScanProtein(peptide: string, maxMismatches: int, record: Record, results: seq<MatchRow>)
    returns (extended: seq<MatchRow>)
    ensures extended == results + RecordRows(peptide, maxMismatches, record)
  {
    extended := results;
    var proteinSeq := record.sequence;
    var pepLen := |peptide|;
    for i := 0 to WindowCount(|proteinSeq|, pepLen)
      invariant extended == results + RecordRowsBelow(peptide, maxMismatches, record, i)
    {
      var window := proteinSeq[i..i + pepLen];
      var mismatches := Mismatches(window, peptide);
      RecordRowsStep(peptide, maxMismatches, record, i, window, mismatches);
      if 0 < |mismatches| <= maxMismatches {
        var row := MatchRow(
          peptide, record.id, record.description,
          i + 1, i + pepLen, window, |mismatches|,
          MutationString(i, mismatches));
        assert extended + [row] == results + RecordRowsBelow(peptide, maxMismatches, record, i + 1);
        extended := extended + [row];
      } else {
        assert RecordRowsBelow(peptide, maxMismatches, record, i + 1) == RecordRowsBelow(peptide, maxMismatches, record, i);
      }
    }
  }

  /** One more protein adds its rows after those already scanned. */
  lemma ScanSpecStep(peptide: string, maxMismatches: int, records: seq<Record>, j: nat)
    requires j < |records|
    ensures ScanSpec(peptide, maxMismatches, records[..j + 1])
            == ScanSpec(peptide, maxMismatches, records[..j]) + RecordRows(peptide, maxMismatches, records[j])
  {
    assert records[..j + 1][..j] == records[..j];
  }

  /** One more offset adds the row the source builds for it, when the window
      passes the filter. */
  lemma RecordRowsStep(peptide: string, maxMismatches: int, rec: Record, i: nat, window: string, ms: seq<Mismatch>)
    requires i < WindowCount(|rec.sequence|, |peptide|)
    requires window == rec.sequence[i..i + |peptide|] && ms == Mismatches(window, peptide)
    ensures RecordRowsBelow(peptide, maxMismatches, rec, i + 1)
            == RecordRowsBelow(peptide, maxMismatches, rec, i)
               + if 0 < |ms| <= maxMismatches
                 then [MatchRow(peptide, rec.id, rec.description, i + 1, i + |peptide|, window, |ms|, MutationString(i, ms))]
                 else []
  {
  }
}
