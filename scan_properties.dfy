/** What the scan promises about its report: which windows produce rows, in
    what order, how many, and what each row's columns say about the protein
    and the peptide. */
module ScanProperties {
  import opened MutationNotation
  import opened Mut2Pep

  // ---------------------------------------------------------------------------
  // One protein

  /** `r` is the row the scan builds for a window of `rec` that passes the
      filter; the window is the one starting at `r.matchStart`. */
  predicate ReportedRow(peptide: string, maxMismatches: int, rec: Record, r: MatchRow) {
    && 1 <= r.matchStart
    && r.matchStart - 1 < WindowCount(|rec.sequence|, |peptide|)
    && Reported(peptide, maxMismatches, rec.sequence, r.matchStart - 1)
    && r == Row(peptide, rec, r.matchStart - 1)
  }

  /** A row of one protein for the offsets below `n` is a reported row
      starting at or before `n`. */
  lemma {:induction false} RecordRowsBelowSoundAt(peptide: string, maxMismatches: int, rec: Record, n: nat, r: MatchRow)
    requires n <= WindowCount(|rec.sequence|, |peptide|)
    requires r in RecordRowsBelow(peptide, maxMismatches, rec, n)
    ensures r.matchStart <= n && ReportedRow(peptide, maxMismatches, rec, r)
    decreases n
  {
    var prev := RecordRowsBelow(peptide, maxMismatches, rec, n - 1);
    if r in prev {
      RecordRowsBelowSoundAt(peptide, maxMismatches, rec, n - 1, r);
    } else {
      RowOfReportedOffset(peptide, maxMismatches, rec, n - 1);
    }
  }

  /** Every row of one protein for the offsets below `n` is a reported row
      starting at or before `n`. */
  lemma RecordRowsBelowSound(peptide: string, maxMismatches: int, rec: Record, n: nat)
    requires n <= WindowCount(|rec.sequence|, |peptide|)
    ensures forall r :: r in RecordRowsBelow(peptide, maxMismatches, rec, n) ==>
      r.matchStart <= n && ReportedRow(peptide, maxMismatches, rec, r)
  {
    forall r | r in RecordRowsBelow(peptide, maxMismatches, rec, n)
      ensures r.matchStart <= n && ReportedRow(peptide, maxMismatches, rec, r)
    {
      RecordRowsBelowSoundAt(peptide, maxMismatches, rec, n, r);
    }
  }

  /** The row built for an offset whose window passes the filter is a
      reported row starting one past that offset. */
  lemma RowOfReportedOffset(peptide: string, maxMismatches: int, rec: Record, i: nat)
    requires i < WindowCount(|rec.sequence|, |peptide|)
    requires Reported(peptide, maxMismatches, rec.sequence, i)
    ensures Row(peptide, rec, i).matchStart == i + 1
    ensures ReportedRow(peptide, maxMismatches, rec, Row(peptide, rec, i))
  {
  }

  /** Every offset below `n` whose window passes the filter has its row among
      the rows for the offsets below `n`. */
  lemma {:induction false} RecordRowsBelowComplete(peptide: string, maxMismatches: int, rec: Record, n: nat)
    requires n <= WindowCount(|rec.sequence|, |peptide|)
    ensures forall i: nat :: i < n && Reported(peptide, maxMismatches, rec.sequence, i) ==>
      Row(peptide, rec, i) in RecordRowsBelow(peptide, maxMismatches, rec, n)
    decreases n
  {
    if n > 0 {
      RecordRowsBelowComplete(peptide, maxMismatches, rec, n - 1);
    }
  }

  /** The rows come in strictly ascending start coordinate. */
  predicate StartsAscending(rows: seq<MatchRow>) {
    forall a, b :: 0 <= a < b < |rows| ==> rows[a].matchStart < rows[b].matchStart
  }

  /** The rows for the offsets below `n` extend those below `n - 1` by at
      most the row of offset `n - 1`, when that window passes the filter. */
  lemma RecordRowsBelowExtend(peptide: string, maxMismatches: int, rec: Record, n: nat)
    requires 0 < n <= WindowCount(|rec.sequence|, |peptide|)
    ensures var prev := RecordRowsBelow(peptide, maxMismatches, rec, n - 1);
            var rows := RecordRowsBelow(peptide, maxMismatches, rec, n);
            && |prev| <= |rows| <= |prev| + 1
            && rows[..|prev|] == prev
            && (|rows| == |prev| + 1 ==> rows[|prev|].matchStart == n)
  {
    var prev := RecordRowsBelow(peptide, maxMismatches, rec, n - 1);
    var rows := RecordRowsBelow(peptide, maxMismatches, rec, n);
    if Reported(peptide, maxMismatches, rec.sequence, n - 1) {
      assert rows == prev + [Row(peptide, rec, n - 1)];
    } else {
      assert rows == prev;
    }
  }

  /** Of two rows of one protein for the offsets below `n`, the earlier
      starts first. */
  lemma {:induction false} RecordRowsBelowAscendingAt(peptide: string, maxMismatches: int, rec: Record, n: nat, a: nat, b: nat)
    requires n <= WindowCount(|rec.sequence|, |peptide|)
    requires a < b < |RecordRowsBelow(peptide, maxMismatches, rec, n)|
    ensures RecordRowsBelow(peptide, maxMismatches, rec, n)[a].matchStart
            < RecordRowsBelow(peptide, maxMismatches, rec, n)[b].matchStart
    decreases n
  {
    var prev := RecordRowsBelow(peptide, maxMismatches, rec, n - 1);
    var rows := RecordRowsBelow(peptide, maxMismatches, rec, n);
    RecordRowsBelowExtend(peptide, maxMismatches, rec, n);
    assert rows[a] == rows[..|prev|][a] == prev[a];
    if b < |prev| {
      assert rows[b] == rows[..|prev|][b] == prev[b];
      RecordRowsBelowAscendingAt(peptide, maxMismatches, rec, n - 1, a, b);
    } else {
      RecordRowsBelowSoundAt(peptide, maxMismatches, rec, n - 1, prev[a]);
    }
  }

  /** The rows of one protein for the offsets below `n` come in strictly
      ascending start. */
  lemma RecordRowsBelowAscending(peptide: string, maxMismatches: int, rec: Record, n: nat)
    requires n <= WindowCount(|rec.sequence|, |peptide|)
    ensures StartsAscending(RecordRowsBelow(peptide, maxMismatches, rec, n))
  {
    var rows := RecordRowsBelow(peptide, maxMismatches, rec, n);
    forall a, b | 0 <= a < b < |rows|
      ensures rows[a].matchStart < rows[b].matchStart
    {
      RecordRowsBelowAscendingAt(peptide, maxMismatches, rec, n, a, b);
    }
  }

  /** The offsets of one protein whose window passes the filter. */
  function ReportedOffsets(peptide: string, maxMismatches: int, s: string, n: nat): set<nat>
    requires n <= WindowCount(|s|, |peptide|)
  {
    set i: nat | i < n && Reported(peptide, maxMismatches, s, i)
  }

  lemma {:induction false} RecordRowsBelowCount(peptide: string, maxMismatches: int, rec: Record, n: nat)
    requires n <= WindowCount(|rec.sequence|, |peptide|)
    ensures |RecordRowsBelow(peptide, maxMismatches, rec, n)| == |ReportedOffsets(peptide, maxMismatches, rec.sequence, n)|
    decreases n
  {
    var s := rec.sequence;
    if n == 0 {
      assert ReportedOffsets(peptide, maxMismatches, s, 0) == {};
    } else {
      RecordRowsBelowCount(peptide, maxMismatches, rec, n - 1);
      var prev := ReportedOffsets(peptide, maxMismatches, s, n - 1);
      var now := ReportedOffsets(peptide, maxMismatches, s, n);
      var rows := RecordRowsBelow(peptide, maxMismatches, rec, n);
      var prevRows := RecordRowsBelow(peptide, maxMismatches, rec, n - 1);
      assert n - 1 !in prev;
      if Reported(peptide, maxMismatches, s, n - 1) {
        assert now == prev + {n - 1};
        assert |rows| == |prevRows| + 1;
      } else {
        assert now == prev;
        assert |rows| == |prevRows|;
      }
    }
  }

  /** A protein yields exactly as many rows as it has offsets `i` in
      `0 .. len(seq) - len(peptide)` with `1 <= mismatches <= maxMismatches`. */
  lemma RecordRowsCount(peptide: string, maxMismatches: int, rec: Record)
    ensures |RecordRows(peptide, maxMismatches, rec)|
            == |ReportedOffsets(peptide, maxMismatches, rec.sequence, WindowCount(|rec.sequence|, |peptide|))|
  {
    RecordRowsBelowCount(peptide, maxMismatches, rec, WindowCount(|rec.sequence|, |peptide|));
  }

  /** The rows of one protein are exactly its reported rows, in strictly
      ascending offset. */
  lemma RecordRowsExact(peptide: string, maxMismatches: int, rec: Record)
    ensures StartsAscending(RecordRows(peptide, maxMismatches, rec))
    ensures forall r :: r in RecordRows(peptide, maxMismatches, rec) <==> ReportedRow(peptide, maxMismatches, rec, r)
  {
    var n := WindowCount(|rec.sequence|, |peptide|);
    RecordRowsBelowSound(peptide, maxMismatches, rec, n);
    RecordRowsBelowComplete(peptide, maxMismatches, rec, n);
    RecordRowsBelowAscending(peptide, maxMismatches, rec, n);
  }

  // ---------------------------------------------------------------------------
  // All proteins

  /** The report of two batches of proteins is the first batch's report
      followed by the second's. */
  lemma {:induction false} ScanSpecAppend(peptide: string, maxMismatches: int, first: seq<Record>, second: seq<Record>)
    ensures ScanSpec(peptide, maxMismatches, first + second)
            == ScanSpec(peptide, maxMismatches, first) + ScanSpec(peptide, maxMismatches, second)
    decreases |second|
  {
    if second == [] {
      assert first + second == first;
    } else {
      var all := first + second;
      var init := second[..|second| - 1];
      var lastRows := RecordRows(peptide, maxMismatches, second[|second| - 1]);
      assert all[..|all| - 1] == first + init;
      assert all[|all| - 1] == second[|second| - 1];
      assert ScanSpec(peptide, maxMismatches, all) == ScanSpec(peptide, maxMismatches, first + init) + lastRows;
      assert ScanSpec(peptide, maxMismatches, second) == ScanSpec(peptide, maxMismatches, init) + lastRows;
      ScanSpecAppend(peptide, maxMismatches, first, init);
    }
  }

  /** Record order: the rows of protein `j` come after those of every earlier
      protein and before those of every later one. */
  lemma ScanSpecOrder(peptide: string, maxMismatches: int, records: seq<Record>, j: nat)
    requires j < |records|
    ensures ScanSpec(peptide, maxMismatches, records)
            == ScanSpec(peptide, maxMismatches, records[..j])
               + RecordRows(peptide, maxMismatches, records[j])
               + ScanSpec(peptide, maxMismatches, records[j + 1..])
  {
    assert records == records[..j + 1] + records[j + 1..];
    ScanSpecAppend(peptide, maxMismatches, records[..j + 1], records[j + 1..]);
    assert records[..j + 1][..j] == records[..j];
  }

  /** Every row of the report is a reported row of one of the proteins. */
  lemma {:induction false} ScanSpecSound(peptide: string, maxMismatches: int, records: seq<Record>, r: MatchRow)
    requires r in ScanSpec(peptide, maxMismatches, records)
    ensures exists j :: 0 <= j < |records| && ReportedRow(peptide, maxMismatches, records[j], r)
    decreases |records|
  {
    var last := |records| - 1;
    var init := records[..last];
    var lastRows := RecordRows(peptide, maxMismatches, records[last]);
    assert ScanSpec(peptide, maxMismatches, records) == ScanSpec(peptide, maxMismatches, init) + lastRows;
    if r in lastRows {
      RecordRowsExact(peptide, maxMismatches, records[last]);
      assert ReportedRow(peptide, maxMismatches, records[last], r);
    } else {
      ScanSpecSound(peptide, maxMismatches, init, r);
      var j :| 0 <= j < |init| && ReportedRow(peptide, maxMismatches, init[j], r);
      assert init[j] == records[j];
    }
  }

  /** Every reported row of every protein is in the report. */
  lemma {:induction false} ScanSpecComplete(peptide: string, maxMismatches: int, records: seq<Record>, j: nat, r: MatchRow)
    requires j < |records| && ReportedRow(peptide, maxMismatches, records[j], r)
    ensures r in ScanSpec(peptide, maxMismatches, records)
    decreases |records|
  {
    var last := |records| - 1;
    var init := records[..last];
    var lastRows := RecordRows(peptide, maxMismatches, records[last]);
    assert ScanSpec(peptide, maxMismatches, records) == ScanSpec(peptide, maxMismatches, init) + lastRows;
    if j == last {
      RecordRowsExact(peptide, maxMismatches, records[last]);
    } else {
      assert init[j] == records[j];
      ScanSpecComplete(peptide, maxMismatches, init, j, r);
    }
  }

  /** A row is in the report exactly when it is a reported row of one of
      the proteins. */
  lemma ScanSpecMembership(peptide: string, maxMismatches: int, records: seq<Record>, r: MatchRow)
    ensures r in ScanSpec(peptide, maxMismatches, records) <==>
      exists j :: 0 <= j < |records| && ReportedRow(peptide, maxMismatches, records[j], r)
  {
    if r in ScanSpec(peptide, maxMismatches, records) {
      ScanSpecSound(peptide, maxMismatches, records, r);
    } else if j :| 0 <= j < |records| && ReportedRow(peptide, maxMismatches, records[j], r) {
      ScanSpecComplete(peptide, maxMismatches, records, j, r);
    }
  }

  /** The report is empty, and the caller prints "No matches found.", exactly
      when no window of any protein passes the filter. */
  lemma ScanSpecEmpty(peptide: string, maxMismatches: int, records: seq<Record>)
    ensures ScanSpec(peptide, maxMismatches, records) == [] <==>
      forall j: nat, i: nat :: j < |records| && i < WindowCount(|records[j].sequence|, |peptide|) ==>
        !Reported(peptide, maxMismatches, records[j].sequence, i)
  {
    var rows := ScanSpec(peptide, maxMismatches, records);
    if rows != [] {
      ScanSpecMembership(peptide, maxMismatches, records, rows[0]);
    } else {
      forall j: nat, i: nat | j < |records| && i < WindowCount(|records[j].sequence|, |peptide|)
        ensures !Reported(peptide, maxMismatches, records[j].sequence, i)
      {
        var r := Row(peptide, records[j], i);
        if Reported(peptide, maxMismatches, records[j].sequence, i) {
          assert ReportedRow(peptide, maxMismatches, records[j], r);
          ScanSpecMembership(peptide, maxMismatches, records, r);
        }
      }
    }
  }

  /** With a budget of zero (or less) no window can pass the filter, since an
      identical window has no mismatch: nothing is ever reported. */
  lemma NoBudgetNoRows(peptide: string, maxMismatches: int, records: seq<Record>)
    requires maxMismatches <= 0
    ensures ScanSpec(peptide, maxMismatches, records) == []
  {
    ScanSpecEmpty(peptide, maxMismatches, records);
  }

  /** With a budget of at least the peptide's length the filter keeps
      exactly the windows that are not the peptide itself. */
  lemma WideBudgetReportsEveryVariant(peptide: string, maxMismatches: int, s: string, i: nat)
    requires |peptide| <= maxMismatches
    requires i < WindowCount(|s|, |peptide|)
    ensures Reported(peptide, maxMismatches, s, i) <==> Window(s, |peptide|, i) != peptide
  {
    var window := Window(s, |peptide|, i);
    MismatchesExact(window, peptide, Mismatches(window, peptide));
  }

  /** Every row describes a window of one of the proteins, copies that
      protein's id and description and the peptide, has 1-based inclusive
      coordinates spanning the peptide's length inside the protein, and
      counts between 1 and `maxMismatches` (and at most the peptide's length)
      mismatches, so a window identical to the peptide is never a row. */
  lemma ScanRowFacts(peptide: string, maxMismatches: int, records: seq<Record>, r: MatchRow)
    requires r in ScanSpec(peptide, maxMismatches, records)
    ensures r.peptide == peptide
    ensures 1 <= r.matchStart && r.matchEnd - r.matchStart + 1 == |peptide|
    ensures 0 < r.numMismatches <= maxMismatches && r.numMismatches <= |peptide|
    ensures r.wildtypeWindow != peptide
    ensures exists j :: 0 <= j < |records| && RowOf(records[j], r)
  {
    ScanSpecMembership(peptide, maxMismatches, records, r);
    var j :| 0 <= j < |records| && ReportedRow(peptide, maxMismatches, records[j], r);
    var i := r.matchStart - 1;
    RowFacts(peptide, records[j], i, r);
    assert RowOf(records[j], r);
  }

  /** `r` copies the id and description of `rec` and its window lies inside
      `rec`'s sequence at its 1-based coordinates. */
  predicate RowOf(rec: Record, r: MatchRow) {
    && r.proteinId == rec.id
    && r.proteinDescription == rec.description
    && 1 <= r.matchStart
    && r.matchStart - 1 <= r.matchEnd <= |rec.sequence|
    && r.wildtypeWindow == rec.sequence[r.matchStart - 1..r.matchEnd]
  }

  // ---------------------------------------------------------------------------
  // The mutation column

  /** The substitutions behind a row: one per mismatch, and the row's
      mutation text is their notation joined by "; ". */
  lemma RowMutationText(peptide: string, rec: Record, i: nat, subs: seq<Substitution>)
    requires i < WindowCount(|rec.sequence|, |peptide|)
    requires subs == Substitutions(i, Mismatches(Window(rec.sequence, |peptide|, i), peptide))
    ensures |subs| == Row(peptide, rec, i).numMismatches
    ensures Row(peptide, rec, i).mutations == Render(subs)
  {
  }

  /** Each substitution of a window sits at a 1-based protein position inside
      the window's [matchStart, matchEnd] = [i + 1, i + len(peptide)], with
      the protein's residue there as `ref` and the peptide's residue at the
      same window position as `mut`, and they come in strictly ascending
      position. */
  lemma SubstitutionsPlaced(peptide: string, s: string, i: nat, subs: seq<Substitution>)
    requires i < WindowCount(|s|, |peptide|)
    requires subs == Substitutions(i, Mismatches(Window(s, |peptide|, i), peptide))
    ensures forall k :: 0 <= k < |subs| ==>
      && i + 1 <= subs[k].position <= i + |peptide|
      && subs[k].ref == s[subs[k].position - 1]
      && subs[k].mut == peptide[subs[k].position - i - 1]
      && subs[k].ref != subs[k].mut
    ensures forall k, l :: 0 <= k < l < |subs| ==> subs[k].position < subs[l].position
  {
    var window := Window(s, |peptide|, i);
    var ms := Mismatches(window, peptide);
    MismatchesExact(window, peptide, ms);
    forall k | 0 <= k < |subs|
      ensures subs[k].ref == s[subs[k].position - 1]
    {
      assert window[ms[k].pos] == s[i + ms[k].pos];
    }
  }

  /** Every position where the window at `i` and the peptide differ appears
      among the window's substitutions, at its 1-based protein position. */
  lemma SubstitutionsCover(peptide: string, s: string, i: nat, subs: seq<Substitution>)
    requires i < WindowCount(|s|, |peptide|)
    requires subs == Substitutions(i, Mismatches(Window(s, |peptide|, i), peptide))
    ensures forall p :: 0 <= p < |peptide| && s[i + p] != peptide[p] ==> Covers(subs, i + 1 + p)
  {
    var window := Window(s, |peptide|, i);
    var ms := Mismatches(window, peptide);
    MismatchesExact(window, peptide, ms);
    forall p | 0 <= p < |peptide| && s[i + p] != peptide[p]
      ensures Covers(subs, i + 1 + p)
    {
      assert window[p] == s[i + p];
      assert ListsPosition(ms, p);
      var k :| 0 <= k < |ms| && ms[k].pos == p;
      assert subs[k].position == i + 1 + p;
    }
  }

  /** Some substitution in `subs` is at protein position `q`. */
  predicate Covers(subs: seq<Substitution>, q: nat) {
    exists k :: 0 <= k < |subs| && subs[k].position == q
  }

  /** A row's mutation text reads back as exactly its substitutions, in
      order. */
  lemma RowMutationsReadBack(peptide: string, rec: Record, i: nat)
    requires i < WindowCount(|rec.sequence|, |peptide|)
    ensures Parse(Row(peptide, rec, i).mutations)
            == Some(Substitutions(i, Mismatches(Window(rec.sequence, |peptide|, i), peptide)))
  {
    var window := Window(rec.sequence, |peptide|, i);
    ParseRender(Substitutions(i, Mismatches(window, peptide)));
  }

  /** Row `r` spans the peptide's length from a 1-based start, and its
      window is that long. */
  predicate RowShape(peptide: string, r: MatchRow) {
    1 <= r.matchStart && |r.wildtypeWindow| == |peptide| == r.matchEnd - r.matchStart + 1
  }

  /** Each of `subs` sits between `Match_Start` and `Match_End` of `r`, with
      the window's residue there as `ref` and the peptide's as `mut`. */
  predicate EntriesInWindow(peptide: string, r: MatchRow, subs: seq<Substitution>)
    requires RowShape(peptide, r)
  {
    forall k :: 0 <= k < |subs| ==>
      && r.matchStart <= subs[k].position <= r.matchEnd
      && subs[k].ref == r.wildtypeWindow[subs[k].position - r.matchStart]
      && subs[k].mut == peptide[subs[k].position - r.matchStart]
      && subs[k].ref != subs[k].mut
  }

  /** Every position where the window of `r` and the peptide differ has an
      entry in `subs`. */
  predicate EntriesCover(peptide: string, r: MatchRow, subs: seq<Substitution>)
    requires RowShape(peptide, r)
  {
    forall p :: 0 <= p < |peptide| && r.wildtypeWindow[p] != peptide[p] ==> Covers(subs, r.matchStart + p)
  }

  /** `subs` are what row `r` of `peptide` says about its window, in the row's
      own columns: its `Mutations` text is theirs, `Num_Mismatches` counts
      them, each sits in the window with the window's and the peptide's
      residues, they ascend, and every differing position has one. */
  predicate DescribesMutations(peptide: string, r: MatchRow, subs: seq<Substitution>) {
    && RowShape(peptide, r)
    && r.mutations == Render(subs)
    && |subs| == r.numMismatches
    && EntriesInWindow(peptide, r, subs)
    && (forall k, l :: 0 <= k < l < |subs| ==> subs[k].position < subs[l].position)
    && EntriesCover(peptide, r, subs)
  }

  lemma RowEntriesInWindow(peptide: string, rec: Record, i: nat, subs: seq<Substitution>)
    requires i < WindowCount(|rec.sequence|, |peptide|)
    requires subs == Substitutions(i, Mismatches(Window(rec.sequence, |peptide|, i), peptide))
    ensures RowShape(peptide, Row(peptide, rec, i))
    ensures EntriesInWindow(peptide, Row(peptide, rec, i), subs)
  {
    var s := rec.sequence;
    var window := Window(s, |peptide|, i);
    var r := Row(peptide, rec, i);
    assert r.wildtypeWindow == window && r.matchStart == i + 1;
    SubstitutionsPlaced(peptide, s, i, subs);
    forall k | 0 <= k < |subs|
      ensures subs[k].ref == window[subs[k].position - (i + 1)]
    {
      assert window[subs[k].position - i - 1] == s[subs[k].position - 1];
    }
  }

  lemma RowEntriesCover(peptide: string, rec: Record, i: nat, subs: seq<Substitution>)
    requires i < WindowCount(|rec.sequence|, |peptide|)
    requires subs == Substitutions(i, Mismatches(Window(rec.sequence, |peptide|, i), peptide))
    ensures RowShape(peptide, Row(peptide, rec, i))
    ensures EntriesCover(peptide, Row(peptide, rec, i), subs)
  {
    var s := rec.sequence;
    var window := Window(s, |peptide|, i);
    var r := Row(peptide, rec, i);
    assert r.wildtypeWindow == window && r.matchStart == i + 1;
    SubstitutionsCover(peptide, s, i, subs);
    forall p | 0 <= p < |peptide| && window[p] != peptide[p]
      ensures Covers(subs, i + 1 + p)
    {
      assert window[p] == s[i + p];
    }
  }

  /** The row built for the window at offset `i` is described by that
      window's substitutions. */
  lemma RowMutationsDescribed(peptide: string, rec: Record, i: nat)
    requires i < WindowCount(|rec.sequence|, |peptide|)
    ensures DescribesMutations(peptide, Row(peptide, rec, i),
                               Substitutions(i, Mismatches(Window(rec.sequence, |peptide|, i), peptide)))
  {
    var subs := Substitutions(i, Mismatches(Window(rec.sequence, |peptide|, i), peptide));
    RowMutationText(peptide, rec, i, subs);
    SubstitutionsPlaced(peptide, rec.sequence, i, subs);
    RowEntriesInWindow(peptide, rec, i, subs);
    RowEntriesCover(peptide, rec, i, subs);
  }

  /** Every row of the report has a `Mutations` text that parses, and what
      it parses to is exactly the row's substitutions. */
  lemma ScanRowMutations(peptide: string, maxMismatches: int, records: seq<Record>, r: MatchRow)
    requires r in ScanSpec(peptide, maxMismatches, records)
    ensures Parse(r.mutations).Some?
    ensures DescribesMutations(peptide, r, Parse(r.mutations).value)
  {
    ScanSpecSound(peptide, maxMismatches, records, r);
    var j :| 0 <= j < |records| && ReportedRow(peptide, maxMismatches, records[j], r);
    var i := r.matchStart - 1;
    RowMutationsReadBack(peptide, records[j], i);
    RowMutationsDescribed(peptide, records[j], i);
  }
}
