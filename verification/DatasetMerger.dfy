/** `load_clean_merge_dataset`: left-join the cleaned admissions with the kept
    discharge summaries on (subject, admission), refuse a join that adds rows,
    and drop newborn admissions. */
module DatasetMerger {
  import opened Wrappers
  import opened Integrity
  import opened AdmissionsCleaner
  import opened NotesSelector

  const Newborn: string := "NEWBORN"

  /** One row of the merged table: the projected admission columns and TEXT. */
  datatype Merged = Merged(
    subject: int,
    hadm: int,
    admitTime: Option<int>,
    dischTime: Option<int>,
    daysNextAdmit: Option<real>,
    nextTime: Option<int>,
    admType: string,
    deathTime: Option<int>,
    text: Option<string>)

  /** The admission columns the merge keeps, with the given TEXT. */
  function MergedOf(c: CleanAdmission, text: Option<string>): Merged {
    var a := c.row.adm;
    Merged(a.subject, a.hadm, a.admitTime, a.dischTime, c.daysNextAdmit,
           c.row.nextTime, a.admType, a.deathTime, text)
  }

  /** The note belongs to the admission of the cleaned row. */
  predicate Joins(c: CleanAdmission, n: Note) {
    n.subject == c.row.adm.subject && n.hadm == c.row.adm.hadm
  }

  /** The notes that join with `c`, in note order. */
  function Matches(c: CleanAdmission, notes: seq<Note>): (r: seq<Note>)
    ensures |r| <= |notes|
  {
    if notes == [] then []
    else
      var rest := Matches(c, notes[1..]);
      if Joins(c, notes[0]) then [notes[0]] + rest else rest
  }

  /** The rows a left join makes of one admission: one per matching note, or a
      single row without text when no note matches. */
  function RowsFor(c: CleanAdmission, m: seq<Note>): (r: seq<Merged>)
    ensures |r| == if m == [] then 1 else |m|
  {
    if m == [] then [MergedOf(c, None)]
    else seq(|m|, k requires 0 <= k < |m| => MergedOf(c, Some(m[k].text)))
  }

  /** `pd.merge(..., on=['SUBJECT_ID', 'HADM_ID'], how='left')`. */
  function LeftJoin(adms: seq<CleanAdmission>, notes: seq<Note>): (r: seq<Merged>)
    ensures |r| >= |adms|
  {
    if adms == [] then []
    else RowsFor(adms[0], Matches(adms[0], notes)) + LeftJoin(adms[1..], notes)
  }

  /** `df.loc[df.ADMISSION_TYPE != 'NEWBORN']`. */
  function DropNewborn(rows: seq<Merged>): (r: seq<Merged>)
    ensures |r| <= |rows|
  {
    if rows == [] then []
    else
      var rest := DropNewborn(rows[1..]);
      if rows[0].admType != Newborn then [rows[0]] + rest else rest
  }

  /** The merge with its row-count assertion, then the newborn filter. */
  function MergeAdmissionsNotes(adms: seq<CleanAdmission>, notes: seq<Note>): (r: Result<seq<Merged>, IntegrityError>)
    ensures r.Failure? ==> r.error == RowsIncreased
    ensures r.Success? ==> |r.value| <= |adms|
  {
    var joined := LeftJoin(adms, notes);
    if |adms| != |joined| then Failure(RowsIncreased)
    else Success(DropNewborn(joined))
  }

  /** `load_clean_merge_dataset` after both files are read. */
  function LoadCleanMergeDataset(adms: seq<Admission>, notes: seq<Note>): (r: Result<seq<Merged>, IntegrityError>)
    ensures r.Success? ==> |r.value| <= |adms|
  {
    var cleanAdms := LoadCleanAdm(adms);
    var cleanNotes :- LoadCleanNotes(notes);
    MergeAdmissionsNotes(cleanAdms, cleanNotes)
  }

  // ---------------------------------------------------------------------------
  // Proofs

  /** A left join never loses an admission, and keeps the row count exactly
      when no admission matches two notes. */
  lemma {:induction false} LeftJoinLength(adms: seq<CleanAdmission>, notes: seq<Note>)
    ensures |LeftJoin(adms, notes)| >= |adms|
    ensures |LeftJoin(adms, notes)| == |adms| <==> forall i :: 0 <= i < |adms| ==> |Matches(adms[i], notes)| <= 1
  {
    if adms != [] {
      LeftJoinLength(adms[1..], notes);
      assert forall i :: 0 < i < |adms| ==> adms[i] == adms[1..][i - 1];
    }
  }

  /** Matching commutes with concatenation, so every joining note appears once
      per copy in the notes, in note order. */
  lemma {:induction false} MatchesAppend(c: CleanAdmission, a: seq<Note>, b: seq<Note>)
    ensures Matches(c, a + b) == Matches(c, a) + Matches(c, b)
  {
    if a == [] {
      assert a + b == b;
    } else {
      var head := if Joins(c, a[0]) then [a[0]] else [];
      var x := Matches(c, a[1..]);
      var y := Matches(c, b);
      calc {
        Matches(c, a + b);
        { assert a + b == [a[0]] + (a[1..] + b); MatchesCons(c, a[0], a[1..] + b); }
        head + Matches(c, a[1..] + b);
        { MatchesAppend(c, a[1..], b); }
        head + (x + y);
        (head + x) + y;
        { assert a == [a[0]] + a[1..]; MatchesCons(c, a[0], a[1..]); }
        Matches(c, a) + y;
      }
    }
  }

  /** The notes that join with `c` are exactly the input notes of its admission. */
  lemma {:induction false} MatchesMembers(c: CleanAdmission, notes: seq<Note>)
    ensures forall n :: n in Matches(c, notes) <==> n in notes && Joins(c, n)
  {
    if notes != [] {
      MatchesMembers(c, notes[1..]);
      assert forall n :: n in notes <==> n == notes[0] || n in notes[1..] by {
        assert notes == [notes[0]] + notes[1..];
      }
    }
  }

  /** The matches of a table with a first row. */
  lemma MatchesCons(c: CleanAdmission, n: Note, s: seq<Note>)
    ensures Matches(c, [n] + s) == (if Joins(c, n) then [n] else []) + Matches(c, s)
  {
    assert ([n] + s)[1..] == s;
  }

  /** With at most one note per (subject, admission), an admission matches at most one note. */
  lemma {:induction false} MatchesAtMostOne(c: CleanAdmission, notes: seq<Note>)
    requires KeysUnique(notes)
    ensures |Matches(c, notes)| <= 1
  {
    if notes != [] {
      var tail := notes[1..];
      assert KeysUnique(tail) by {
        forall i, j | 0 <= i < j < |tail| ensures !SameAdmission(tail[i], tail[j]) {
          assert tail[i] == notes[i + 1] && tail[j] == notes[j + 1];
        }
      }
      MatchesAtMostOne(c, tail);
      if Joins(c, notes[0]) {
        forall n | n in tail ensures !Joins(c, n) {
          var k :| 0 <= k < |tail| && tail[k] == n;
          assert !SameAdmission(notes[0], notes[k + 1]);
        }
        NoMatches(c, tail);
      }
    }
  }

  /** An admission no note joins with has no matches. */
  lemma {:induction false} NoMatches(c: CleanAdmission, notes: seq<Note>)
    requires forall n :: n in notes ==> !Joins(c, n)
    ensures Matches(c, notes) == []
  {
    if notes != [] {
      assert notes[0] in notes;
      assert forall n :: n in notes[1..] ==> n in notes;
      NoMatches(c, notes[1..]);
    }
  }

  /** A row survives the newborn filter exactly when it is not a newborn admission. */
  lemma {:induction false} DropNewbornMembers(rows: seq<Merged>)
    ensures forall m :: m in DropNewborn(rows) <==> m in rows && m.admType != Newborn
  {
    if rows != [] {
      DropNewbornMembers(rows[1..]);
      assert forall m :: m in rows <==> m == rows[0] || m in rows[1..] by {
        assert rows == [rows[0]] + rows[1..];
      }
    }
  }

  /** Without newborn admissions the filter changes nothing. */
  lemma {:induction false} DropNewbornNoNewborns(rows: seq<Merged>)
    requires forall i :: 0 <= i < |rows| ==> rows[i].admType != Newborn
    ensures DropNewborn(rows) == rows
  {
    if rows != [] {
      DropNewbornNoNewborns(rows[1..]);
      assert rows == [rows[0]] + rows[1..];
    }
  }

  /** When no admission matches two notes, row `i` of the join is admission
      `i` with the text of its note, or without text when it has none. */
  lemma {:induction false} LeftJoinRow(adms: seq<CleanAdmission>, notes: seq<Note>, i: int)
    requires forall k :: 0 <= k < |adms| ==> |Matches(adms[k], notes)| <= 1
    requires 0 <= i < |adms|
    ensures |LeftJoin(adms, notes)| == |adms|
    ensures LeftJoin(adms, notes)[i].(text := None) == MergedOf(adms[i], None)
    ensures LeftJoin(adms, notes)[i].text.None? <==> forall n :: n in notes ==> !Joins(adms[i], n)
    ensures LeftJoin(adms, notes)[i].text.Some? ==>
              exists n :: n in notes && Joins(adms[i], n) && LeftJoin(adms, notes)[i].text == Some(n.text)
    decreases i
  {
    LeftJoinLength(adms, notes);
    var head := RowsFor(adms[0], Matches(adms[0], notes));
    assert LeftJoin(adms, notes) == head + LeftJoin(adms[1..], notes);
    assert |head| == 1;
    if i == 0 {
      var m := Matches(adms[0], notes);
      MatchesMembers(adms[0], notes);
      if m != [] {
        assert m[0] in m;
      }
    } else {
      assert forall k :: 0 <= k < |adms[1..]| ==> adms[1..][k] == adms[k + 1];
      LeftJoinRow(adms[1..], notes, i - 1);
    }
  }

  /** Dropping newborns commutes with concatenation, so it keeps row order. */
  lemma {:induction false} DropNewbornAppend(x: seq<Merged>, y: seq<Merged>)
    ensures DropNewborn(x + y) == DropNewborn(x) + DropNewborn(y)
  {
    if x != [] {
      DropNewbornAppend(x[1..], y);
      var xy := x + y;
      assert xy[0] == x[0] && xy[1..] == x[1..] + y;
      var head := if x[0].admType != Newborn then [x[0]] else [];
      assert DropNewborn(xy) == head + DropNewborn(x[1..] + y);
      assert DropNewborn(x) == head + DropNewborn(x[1..]);
      assert head + (DropNewborn(x[1..]) + DropNewborn(y)) == (head + DropNewborn(x[1..])) + DropNewborn(y);
    } else {
      assert x + y == y;
    }
  }

  /** The merge fails exactly when some admission matches two notes, and then
      with the row-count error. */
  lemma MergeAdmissionsNotesFails(adms: seq<CleanAdmission>, notes: seq<Note>)
    ensures MergeAdmissionsNotes(adms, notes).Failure? <==>
              exists i :: 0 <= i < |adms| && |Matches(adms[i], notes)| > 1
    ensures MergeAdmissionsNotes(adms, notes).Failure? ==>
              MergeAdmissionsNotes(adms, notes).error == RowsIncreased
  {
    LeftJoinLength(adms, notes);
  }

  /** Notes that are unique per (subject, admission) never make the merge fail,
      and then no row of the result is a newborn admission. */
  lemma MergeUniqueNotesSucceeds(adms: seq<CleanAdmission>, notes: seq<Note>)
    requires KeysUnique(notes)
    ensures MergeAdmissionsNotes(adms, notes).Success?
    ensures |LeftJoin(adms, notes)| == |adms|
    ensures forall m :: m in MergeAdmissionsNotes(adms, notes).value ==> m.admType != Newborn
  {
    forall i | 0 <= i < |adms| ensures |Matches(adms[i], notes)| <= 1 {
      MatchesAtMostOne(adms[i], notes);
    }
    LeftJoinLength(adms, notes);
    DropNewbornMembers(LeftJoin(adms, notes));
  }

  /** End to end: the pipeline fails exactly when two subjects' discharge
      summaries share an admission id, always with the duplicate-summary error
      (never the row-count one); otherwise it returns the newborn-free join, in
      which every admission appears exactly once. */
  lemma LoadCleanMergeDatasetResult(adms: seq<Admission>, notes: seq<Note>)
    ensures LoadCleanMergeDataset(adms, notes).Failure? <==> ConflictingSummaries(notes)
    ensures LoadCleanMergeDataset(adms, notes).Failure? ==>
              LoadCleanMergeDataset(adms, notes).error == MultipleDischargeSummaries
    ensures LoadCleanMergeDataset(adms, notes).Success? ==>
              var joined := LeftJoin(LoadCleanAdm(adms), LoadCleanNotes(notes).value);
              && |joined| == |adms|
              && LoadCleanMergeDataset(adms, notes).value == DropNewborn(joined)
              && forall m :: m in LoadCleanMergeDataset(adms, notes).value ==> m.admType != Newborn
  {
    LoadCleanNotesFails(notes);
    if LoadCleanNotes(notes).Success? {
      LoadCleanNotesSucceeds(notes);
      MergeUniqueNotesSucceeds(LoadCleanAdm(adms), LoadCleanNotes(notes).value);
      AddNextAdmOrder(adms);
    }
  }

  /** End to end, row by row: before the newborn filter, row `i` is cleaned
      admission `i`; its text is missing exactly when the admission has no
      discharge summary, and otherwise is the text of the last discharge
      summary of that admission in the notes table. */
  lemma LoadCleanMergeDatasetRow(adms: seq<Admission>, notes: seq<Note>, i: int)
    requires LoadCleanNotes(notes).Success?
    requires 0 <= i < |adms|
    ensures var c := LoadCleanAdm(adms)[i];
            var ds := DischargeSummaries(notes);
            var joined := LeftJoin(LoadCleanAdm(adms), LoadCleanNotes(notes).value);
      && |joined| == |adms|
      && joined[i].(text := None) == MergedOf(c, None)
      && (joined[i].text.None? <==> !KeyOccurs(ds, c.row.adm.subject, c.row.adm.hadm))
      && (joined[i].text.Some? ==>
            exists p :: IsLastSummary(notes, p) && Joins(c, notes[p]) && joined[i].text == Some(notes[p].text))
  {
    var cleanAdms := LoadCleanAdm(adms);
    var kept := LoadCleanNotes(notes).value;
    var ds := DischargeSummaries(notes);
    var c := cleanAdms[i];
    LoadCleanNotesSucceeds(notes);
    MergeUniqueNotesSucceeds(cleanAdms, kept);
    forall k | 0 <= k < |cleanAdms| ensures |Matches(cleanAdms[k], kept)| <= 1 {
      MatchesAtMostOne(cleanAdms[k], kept);
    }
    LeftJoinRow(cleanAdms, kept, i);
    var joined := LeftJoin(cleanAdms, kept);
    if joined[i].text.None? {
      assert !KeyOccurs(kept, c.row.adm.subject, c.row.adm.hadm);
    } else {
      var n :| n in kept && Joins(c, n) && joined[i].text == Some(n.text);
      assert KeyOccurs(kept, c.row.adm.subject, c.row.adm.hadm);
      var p :| IsLastSummary(notes, p) && notes[p] == n;
    }
  }
}
