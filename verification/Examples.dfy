/** Worked cases of the pipeline, over symbolic subjects, times and texts.
    Times are seconds. */
module Examples {
  import opened Wrappers
  import opened Integrity
  import opened StableSort
  import opened AdmissionsCleaner
  import opened NotesSelector
  import opened DatasetMerger

  const Day: int := 86400

  /** An input already in (subject, admit time) order is the table the links
      are computed on. */
  lemma SortedInputKeepsOrder(adms: seq<Admission>)
    requires Sorted(adms, AdmKey)
    ensures Adms(AddNextAdm(adms)) == adms
  {
    AddNextAdmOrder(adms);
    SortBySortedIsIdentity(adms, AdmKey);
  }

  /** One subject admitted at t1 < t2 < t3, the second stay elective, the
      third not: the first stay links past the elective one to the third; so
      does the elective stay itself; the last stay has no link. */
  lemma ElectiveAdmissionIsSkipped(t: seq<Admission>, t1: int, t2: int, t3: int)
    requires |t| == 3 && t[0].subject == t[1].subject == t[2].subject
    requires t[0].admitTime == Some(t1) && t[1].admitTime == Some(t2) && t[2].admitTime == Some(t3)
    requires t1 < t2 < t3
    requires t[1].admType == Elective && t[2].admType != Elective
    ensures var r := AddNextAdm(t);
      && |r| == 3
      && r[0].nextTime == Some(t3) && r[0].nextType == Some(t[2].admType)
      && r[1].nextTime == Some(t3) && r[1].nextType == Some(t[2].admType)
      && r[2].nextTime == None && r[2].nextType == None
  {
    assert Sorted(t, AdmKey);
    SortedInputKeepsOrder(t);
    assert forall a :: a in t ==> a.admitTime.Some?;
    assert IsNextUnplanned(t, 0, 2) && IsNextUnplanned(t, 1, 2);
    AddNextAdmLinksTo(t, 0, 2);
    AddNextAdmLinksTo(t, 1, 2);
    AddNextAdmLastIsNull(t, 2);
  }

  /** Two unplanned stays of one subject, the second admitted fifteen days
      after the first is discharged. */
  ghost predicate TwoStays(t: seq<Admission>, d: int) {
    && |t| == 2 && t[0].subject == t[1].subject
    && t[0].hadm == 10 && t[1].hadm == 11
    && t[0].admitTime.Some? && t[0].admitTime.value <= d
    && t[0].dischTime == Some(d) && t[1].admitTime == Some(d + 15 * Day)
    && t[0].admType == t[1].admType == "EMERGENCY"
  }

  /** A next admission fifteen days after discharge is 15.0 days away. */
  lemma FifteenDays(d: int)
    ensures DaysBetween(Some(d), Some(d + 15 * Day)) == Some(15.0)
  {
    assert (d + 15 * Day - d) as real == 15.0 * SecondsPerDay as real;
  }

  /** The cleaned admissions: A is 15.0 days from B, B has no next stay. */
  lemma TwoStaysCleaned(t: seq<Admission>, d: int)
    requires TwoStays(t, d)
    ensures var c := LoadCleanAdm(t);
      && |c| == 2
      && c[0].row.adm == t[0] && c[0].row.nextTime == Some(d + 15 * Day)
      && c[0].daysNextAdmit == Some(15.0)
      && c[1].row.adm == t[1] && c[1].row.nextTime == None && c[1].daysNextAdmit == None
  {
    assert Sorted(t, AdmKey);
    SortedInputKeepsOrder(t);
    assert forall a :: a in t ==> a.admitTime.Some?;
    assert IsNextUnplanned(t, 0, 1);
    AddNextAdmLinksTo(t, 0, 1);
    AddNextAdmLastIsNull(t, 1);
    LoadCleanAdmRow(t, 0);
    LoadCleanAdmRow(t, 1);
    FifteenDays(d);
  }

  /** A nursing note and two discharge summaries of stay A, the last one `last`. */
  ghost predicate TwoStaysNotes(notes: seq<Note>, s: int, last: string) {
    && |notes| == 3
    && notes[0] == Note(s, 10, "Nursing", notes[0].text)
    && notes[1] == Note(s, 10, DischargeSummary, notes[1].text)
    && notes[2] == Note(s, 10, DischargeSummary, last)
  }

  /** Only the two summaries pass the category filter. */
  lemma TwoStaysSummaries(notes: seq<Note>, s: int, last: string)
    requires TwoStaysNotes(notes, s, last)
    ensures DischargeSummaries(notes) == notes[1..]
  {
    assert notes[0].category != DischargeSummary by {
      assert |notes[0].category| != |DischargeSummary|;
    }
    assert notes[3..] == [];
    assert DischargeSummaries(notes[2..]) == [notes[2]] + DischargeSummaries(notes[3..]);
    assert DischargeSummaries(notes[1..]) == [notes[1]] + DischargeSummaries(notes[1..][1..]);
    assert notes[1..][1..] == notes[2..];
    assert notes[1..] == [notes[1], notes[2]];
  }

  /** The notes side: no conflict, A has discharge summaries and B has none. */
  lemma TwoStaysNotesSelected(notes: seq<Note>, s: int, last: string)
    requires TwoStaysNotes(notes, s, last)
    ensures var ds := DischargeSummaries(notes);
      && LoadCleanNotes(notes).Success?
      && KeyOccurs(ds, s, 10) && !KeyOccurs(ds, s, 11)
  {
    assert !ConflictingSummaries(notes) by {
      assert forall n :: n in notes ==> n.subject == s;
    }
    LoadCleanNotesFails(notes);
    TwoStaysSummaries(notes, s, last);
    var ds := DischargeSummaries(notes);
    assert ds[0] in ds;
    assert forall n :: n in ds ==> n.hadm == 10 by {
      assert ds == [notes[1], notes[2]];
    }
  }

  /** The last discharge summary of stay A in the notes table is `last`. */
  lemma TwoStaysLastSummary(notes: seq<Note>, s: int, last: string)
    requires TwoStaysNotes(notes, s, last)
    ensures forall p :: IsLastSummary(notes, p) && notes[p].subject == s && notes[p].hadm == 10 ==> notes[p].text == last
  {
    assert !IsLastSummary(notes, 0) by {
      assert |notes[0].category| != |DischargeSummary|;
    }
    assert !IsLastSummary(notes, 1) by {
      assert SameAdmission(notes[2], notes[1]);
    }
  }

  /** The join before the newborn filter: one row per stay, A with `last`. */
  lemma TwoStaysJoined(adms: seq<Admission>, notes: seq<Note>, d: int, last: string)
    requires TwoStays(adms, d) && TwoStaysNotes(notes, adms[0].subject, last)
    ensures LoadCleanNotes(notes).Success?
    ensures var c := LoadCleanAdm(adms); var j := LeftJoin(c, LoadCleanNotes(notes).value);
      && |j| == 2
      && j[0] == MergedOf(c[0], Some(last)) && j[1] == MergedOf(c[1], None)
  {
    TwoStaysNotesSelected(notes, adms[0].subject, last);
    TwoStaysLastSummary(notes, adms[0].subject, last);
    TwoStaysCleaned(adms, d);
    LoadCleanMergeDatasetRow(adms, notes, 0);
    LoadCleanMergeDatasetRow(adms, notes, 1);
  }

  /** End to end: A links to B fifteen days after discharge and carries its
      last discharge summary; B has no link and no text; no row is dropped. */
  lemma TwoStaysMerged(adms: seq<Admission>, notes: seq<Note>, d: int, last: string)
    requires TwoStays(adms, d) && TwoStaysNotes(notes, adms[0].subject, last)
    ensures var r := LoadCleanMergeDataset(adms, notes);
      && r.Success? && |r.value| == 2
      && r.value[0].hadm == 10 && r.value[0].nextTime == Some(d + 15 * Day)
      && r.value[0].daysNextAdmit == Some(15.0) && r.value[0].text == Some(last)
      && r.value[1].hadm == 11 && r.value[1].nextTime == None
      && r.value[1].daysNextAdmit == None && r.value[1].text == None
  {
    TwoStaysJoined(adms, notes, d, last);
    TwoStaysCleaned(adms, d);
    LoadCleanMergeDatasetResult(adms, notes);
    DropNewbornNoNewborns(LeftJoin(LoadCleanAdm(adms), LoadCleanNotes(notes).value));
  }

  /** Two subjects' discharge summaries under one admission id stop the pipeline. */
  lemma SharedAdmissionIdFails(adms: seq<Admission>, s1: int, s2: int, h: int, x: string, y: string)
    requires s1 != s2
    ensures LoadCleanMergeDataset(adms, [Note(s1, h, DischargeSummary, x), Note(s2, h, DischargeSummary, y)])
         == Failure(MultipleDischargeSummaries)
  {
    var notes := [Note(s1, h, DischargeSummary, x), Note(s2, h, DischargeSummary, y)];
    assert notes[0] in notes && notes[1] in notes;
    LoadCleanMergeDatasetResult(adms, notes);
  }
}
