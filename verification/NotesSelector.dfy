/** The notes side of the pipeline, `load_clean_notes`: keep the discharge
    summaries, keep the last one per (subject, admission), and refuse the
    table when an admission id still occurs twice. */
module NotesSelector {
  import opened Wrappers
  import opened Integrity

  const DischargeSummary: string := "Discharge summary"

  /** One row of the notes table. */
  datatype Note = Note(subject: int, hadm: int, category: string, text: string)

  predicate SameAdmission(a: Note, b: Note) {
    a.subject == b.subject && a.hadm == b.hadm
  }

  /** Some note of `ns` belongs to admission `hadm` of `subject`. */
  predicate KeyOccurs(ns: seq<Note>, subject: int, hadm: int) {
    exists n :: n in ns && n.subject == subject && n.hadm == hadm
  }

  /** `df_notes.loc[df_notes.CATEGORY == 'Discharge summary']`. */
  function DischargeSummaries(notes: seq<Note>): (r: seq<Note>)
    ensures |r| <= |notes|
    ensures forall n :: n in r <==> n in notes && n.category == DischargeSummary
  {
    if notes == [] then []
    else
      var rest := DischargeSummaries(notes[1..]);
      assert forall n :: n in notes <==> n == notes[0] || n in notes[1..] by {
        assert notes == [notes[0]] + notes[1..];
      }
      if notes[0].category == DischargeSummary then [notes[0]] + rest else rest
  }

  /** Row `p` of `notes` is a discharge summary and no later discharge summary
      belongs to the same (subject, admission). */
  ghost predicate IsLastSummary(notes: seq<Note>, p: int) {
    && 0 <= p < |notes|
    && notes[p].category == DischargeSummary
    && forall q :: p < q < |notes| && notes[q].category == DischargeSummary ==> !SameAdmission(notes[q], notes[p])
  }

  /** `groupby(['SUBJECT_ID', 'HADM_ID']).nth(-1)`: a note is kept when no later
      note belongs to the same admission; kept notes stay in input order. */
  function LastPerAdmission(ns: seq<Note>): (r: seq<Note>)
    ensures |r| <= |ns|
  {
    if ns == [] then []
    else
      var rest := LastPerAdmission(ns[1..]);
      if KeyOccurs(ns[1..], ns[0].subject, ns[0].hadm) then rest else [ns[0]] + rest
  }

  /** Row `i` of `ns` is the last note of its admission. */
  ghost predicate IsLastOfAdmission(ns: seq<Note>, i: int) {
    0 <= i < |ns| && forall j :: i < j < |ns| ==> !SameAdmission(ns[j], ns[i])
  }

  /** No two rows belong to the same (subject, admission). */
  ghost predicate KeysUnique(ns: seq<Note>) {
    forall i, j :: 0 <= i < j < |ns| ==> !SameAdmission(ns[i], ns[j])
  }

  /** No two rows carry the same admission id. */
  ghost predicate HadmsUnique(ns: seq<Note>) {
    forall i, j :: 0 <= i < j < |ns| ==> ns[i].hadm != ns[j].hadm
  }

  /** Row `i` repeats the admission id of an earlier row (`duplicated`, keep='first'). */
  predicate DuplicatedAt(ns: seq<Note>, i: int)
    requires 0 <= i < |ns|
  {
    exists j :: 0 <= j < i && ns[j].hadm == ns[i].hadm
  }

  /** `duplicated(['HADM_ID'])`, keep='first': one left-to-right pass that
      marks a row when its admission id is among the ids seen so far. */
  function Duplicated(ns: seq<Note>): (f: seq<bool>)
    ensures |f| == |ns|
    ensures forall i :: 0 <= i < |ns| ==> f[i] == DuplicatedAt(ns, i)
  {
    DuplicatedPassMarks(ns, {});
    DuplicatedPass(ns, {})
  }

  /** The pass itself, started with the admission ids `seen` of earlier rows. */
  function DuplicatedPass(ns: seq<Note>, seen: set<int>): (f: seq<bool>)
    ensures |f| == |ns|
  {
    if ns == [] then []
    else [ns[0].hadm in seen] + DuplicatedPass(ns[1..], seen + {ns[0].hadm})
  }

  /** The pass marks a row exactly when its id was seen before the pass
      started or occurs in an earlier row. */
  lemma {:induction false} DuplicatedPassMarks(ns: seq<Note>, seen: set<int>)
    ensures forall i :: 0 <= i < |ns| ==>
              DuplicatedPass(ns, seen)[i] == (ns[i].hadm in seen || DuplicatedAt(ns, i))
  {
    if ns != [] {
      var tail := ns[1..];
      var seen' := seen + {ns[0].hadm};
      DuplicatedPassMarks(tail, seen');
      forall i | 0 <= i < |ns|
        ensures DuplicatedPass(ns, seen)[i] == (ns[i].hadm in seen || DuplicatedAt(ns, i))
      {
        if i > 0 {
          assert DuplicatedPass(ns, seen)[i] == DuplicatedPass(tail, seen')[i - 1];
          assert tail[i - 1] == ns[i];
          if DuplicatedAt(tail, i - 1) {
            var j :| 0 <= j < i - 1 && tail[j].hadm == tail[i - 1].hadm;
            assert ns[j + 1].hadm == ns[i].hadm;
          }
          if DuplicatedAt(ns, i) {
            var j :| 0 <= j < i && ns[j].hadm == ns[i].hadm;
            if j > 0 {
              assert tail[j - 1].hadm == tail[i - 1].hadm;
            }
          }
        }
      }
    }
  }

  /** `sum()` of a boolean column. */
  function CountTrue(f: seq<bool>): (r: nat)
    ensures r <= |f|
  {
    if f == [] then 0 else (if f[0] then 1 else 0) + CountTrue(f[1..])
  }

  /** `load_clean_notes` after reading the file. */
  function LoadCleanNotes(notes: seq<Note>): (r: Result<seq<Note>, IntegrityError>)
    ensures r.Failure? ==> r.error == MultipleDischargeSummaries
    ensures r.Success? ==> |r.value| <= |notes|
  {
    var last := LastPerAdmission(DischargeSummaries(notes));
    if CountTrue(Duplicated(last)) != 0 then Failure(MultipleDischargeSummaries)
    else Success(last)
  }

  // ---------------------------------------------------------------------------
  // Proofs

  /** The count of a boolean column is zero exactly when no entry is true. */
  lemma {:induction false} CountTrueZero(f: seq<bool>)
    ensures CountTrue(f) == 0 <==> forall i :: 0 <= i < |f| ==> !f[i]
  {
    if f != [] {
      CountTrueZero(f[1..]);
      assert forall i :: 0 < i < |f| ==> f[i] == f[1..][i - 1];
    }
  }

  /** The duplicate count is zero exactly when admission ids are unique. */
  lemma NoDuplicatedIffHadmsUnique(ns: seq<Note>)
    ensures CountTrue(Duplicated(ns)) == 0 <==> HadmsUnique(ns)
  {
    CountTrueZero(Duplicated(ns));
    if !HadmsUnique(ns) {
      var i, j :| 0 <= i < j < |ns| && ns[i].hadm == ns[j].hadm;
      assert Duplicated(ns)[j];
    }
  }

  /** The category filter commutes with concatenation, so it keeps the input
      order and the number of copies of every summary. */
  lemma {:induction false} DischargeSummariesAppend(a: seq<Note>, b: seq<Note>)
    ensures DischargeSummaries(a + b) == DischargeSummaries(a) + DischargeSummaries(b)
  {
    if a == [] {
      assert a + b == b;
    } else {
      var head := if a[0].category == DischargeSummary then [a[0]] else [];
      var x := DischargeSummaries(a[1..]);
      var y := DischargeSummaries(b);
      calc {
        DischargeSummaries(a + b);
        { assert a + b == [a[0]] + (a[1..] + b); DischargeSummariesCons(a[0], a[1..] + b); }
        head + DischargeSummaries(a[1..] + b);
        { DischargeSummariesAppend(a[1..], b); }
        head + (x + y);
        (head + x) + y;
        { assert a == [a[0]] + a[1..]; DischargeSummariesCons(a[0], a[1..]); }
        DischargeSummaries(a) + y;
      }
    }
  }

  /** The filter on a table with a first row. */
  lemma DischargeSummariesCons(x: Note, s: seq<Note>)
    ensures DischargeSummaries([x] + s) == (if x.category == DischargeSummary then [x] else []) + DischargeSummaries(s)
  {
    assert ([x] + s)[1..] == s;
  }

  /** A note is kept exactly when it is the last note of its admission. */
  lemma {:induction false} LastPerAdmissionMembers(ns: seq<Note>, n: Note)
    ensures n in LastPerAdmission(ns) <==> exists i :: IsLastOfAdmission(ns, i) && ns[i] == n
  {
    if ns != [] {
      var tail := ns[1..];
      LastPerAdmissionMembers(tail, n);
      forall i | 0 <= i < |tail| ensures IsLastOfAdmission(ns, i + 1) <==> IsLastOfAdmission(tail, i) {
        assert forall j :: i + 1 < j < |ns| ==> ns[j] == tail[j - 1];
      }
      assert IsLastOfAdmission(ns, 0) <==> !KeyOccurs(tail, ns[0].subject, ns[0].hadm) by {
        if KeyOccurs(tail, ns[0].subject, ns[0].hadm) {
          var m :| m in tail && m.subject == ns[0].subject && m.hadm == ns[0].hadm;
          var k :| 0 <= k < |tail| && tail[k] == m;
          assert ns[k + 1] == m;
        } else {
          forall j | 0 < j < |ns| ensures !SameAdmission(ns[j], ns[0]) {
            assert ns[j] in tail;
          }
        }
      }
      if exists i :: IsLastOfAdmission(ns, i) && ns[i] == n {
        var i :| IsLastOfAdmission(ns, i) && ns[i] == n;
        if i > 0 {
          assert IsLastOfAdmission(tail, i - 1) && tail[i - 1] == n;
        }
      }
      if exists i :: IsLastOfAdmission(tail, i) && tail[i] == n {
        var i :| IsLastOfAdmission(tail, i) && tail[i] == n;
        assert IsLastOfAdmission(ns, i + 1) && ns[i + 1] == n;
      }
    }
  }

  /** Keeping the last note of each admission loses no admission. */
  lemma {:induction false} LastPerAdmissionKeys(ns: seq<Note>, subject: int, hadm: int)
    ensures KeyOccurs(LastPerAdmission(ns), subject, hadm) <==> KeyOccurs(ns, subject, hadm)
  {
    if ns != [] {
      var tail := ns[1..];
      LastPerAdmissionKeys(tail, subject, hadm);
      LastPerAdmissionSubset(tail);
      assert ns == [ns[0]] + tail;
      if KeyOccurs(tail, ns[0].subject, ns[0].hadm) && ns[0].subject == subject && ns[0].hadm == hadm {
        assert KeyOccurs(tail, subject, hadm);
      }
    }
  }

  /** Every kept note is a note of the input. */
  lemma {:induction false} LastPerAdmissionSubset(ns: seq<Note>)
    ensures forall n :: n in LastPerAdmission(ns) ==> n in ns
  {
    if ns != [] {
      LastPerAdmissionSubset(ns[1..]);
    }
  }

  /** No two kept notes belong to the same admission. */
  lemma {:induction false} LastPerAdmissionKeysUnique(ns: seq<Note>)
    ensures KeysUnique(LastPerAdmission(ns))
  {
    if ns != [] {
      var tail := ns[1..];
      var rest := LastPerAdmission(tail);
      LastPerAdmissionKeysUnique(tail);
      if !KeyOccurs(tail, ns[0].subject, ns[0].hadm) {
        LastPerAdmissionSubset(tail);
        var r := [ns[0]] + rest;
        forall i, j | 0 <= i < j < |r| ensures !SameAdmission(r[i], r[j]) {
          if i == 0 {
            assert r[j] == rest[j - 1] && r[j] in tail;
          } else {
            assert r[i] == rest[i - 1] && r[j] == rest[j - 1];
          }
        }
      }
    }
  }

  /** Over the unfiltered notes: a note survives the filter and `nth(-1)`
      exactly when it is a discharge summary that no later discharge summary of
      the same (subject, admission) follows. */
  lemma {:induction false} LastSummaryMembers(notes: seq<Note>, n: Note)
    ensures n in LastPerAdmission(DischargeSummaries(notes)) <==>
              exists p :: IsLastSummary(notes, p) && notes[p] == n
  {
    if notes != [] {
      var tail := notes[1..];
      var dt := DischargeSummaries(tail);
      LastSummaryMembers(tail, n);
      LastSummaryTail(notes, n);
      DischargeSummariesCons(notes[0], tail);
      assert notes == [notes[0]] + tail;
      if notes[0].category == DischargeSummary {
        assert ([notes[0]] + dt)[1..] == dt;
        LastSummaryHead(notes);
      }
    }
  }

  /** Past the first row, the last summaries of a table are those of its tail. */
  lemma LastSummaryTail(notes: seq<Note>, n: Note)
    requires notes != []
    ensures (exists p :: IsLastSummary(notes, p) && notes[p] == n) <==>
            (IsLastSummary(notes, 0) && notes[0] == n) || (exists p :: IsLastSummary(notes[1..], p) && notes[1..][p] == n)
  {
    var tail := notes[1..];
    forall p | 0 <= p < |tail| ensures IsLastSummary(notes, p + 1) <==> IsLastSummary(tail, p) {
      assert forall q :: p + 1 < q < |notes| ==> notes[q] == tail[q - 1];
    }
    if exists p :: IsLastSummary(notes, p) && notes[p] == n {
      var p :| IsLastSummary(notes, p) && notes[p] == n;
      if p > 0 {
        assert IsLastSummary(tail, p - 1) && tail[p - 1] == n;
      }
    }
    if exists p :: IsLastSummary(tail, p) && tail[p] == n {
      var p :| IsLastSummary(tail, p) && tail[p] == n;
      assert IsLastSummary(notes, p + 1) && notes[p + 1] == n;
    }
  }

  /** A first-row summary is the last of its admission exactly when no summary
      of the tail belongs to the same admission. */
  lemma LastSummaryHead(notes: seq<Note>)
    requires notes != [] && notes[0].category == DischargeSummary
    ensures IsLastSummary(notes, 0) <==> !KeyOccurs(DischargeSummaries(notes[1..]), notes[0].subject, notes[0].hadm)
  {
    var tail := notes[1..];
    var dt := DischargeSummaries(tail);
    if KeyOccurs(dt, notes[0].subject, notes[0].hadm) {
      var m :| m in dt && m.subject == notes[0].subject && m.hadm == notes[0].hadm;
      var k :| 0 <= k < |tail| && tail[k] == m;
      assert notes[k + 1] == m;
    } else {
      forall q | 0 < q < |notes| && notes[q].category == DischargeSummary
        ensures !SameAdmission(notes[q], notes[0])
      {
        assert notes[q] in tail;
      }
    }
  }

  /** Two discharge summaries that share an admission id but not a subject. */
  ghost predicate ConflictingSummaries(notes: seq<Note>) {
    exists a, b :: a in notes && b in notes
      && a.category == DischargeSummary && b.category == DischargeSummary
      && a.hadm == b.hadm && a.subject != b.subject
  }

  /** A repeated admission id among the kept notes comes from two subjects. */
  lemma RepeatedHadmConflicts(notes: seq<Note>)
    requires !HadmsUnique(LastPerAdmission(DischargeSummaries(notes)))
    ensures ConflictingSummaries(notes)
  {
    var ds := DischargeSummaries(notes);
    var last := LastPerAdmission(ds);
    LastPerAdmissionKeysUnique(ds);
    LastPerAdmissionSubset(ds);
    var i, j :| 0 <= i < j < |last| && last[i].hadm == last[j].hadm;
    assert last[i] in ds && last[j] in ds;
    assert !SameAdmission(last[i], last[j]);
  }

  /** Two subjects' summaries with one admission id both survive, so the id repeats. */
  lemma ConflictRepeatsHadm(notes: seq<Note>)
    requires ConflictingSummaries(notes)
    ensures !HadmsUnique(LastPerAdmission(DischargeSummaries(notes)))
  {
    var ds := DischargeSummaries(notes);
    var last := LastPerAdmission(ds);
    var a, b :| a in notes && b in notes
      && a.category == DischargeSummary && b.category == DischargeSummary
      && a.hadm == b.hadm && a.subject != b.subject;
    assert KeyOccurs(ds, a.subject, a.hadm) by { assert a in ds; }
    assert KeyOccurs(ds, b.subject, b.hadm) by { assert b in ds; }
    LastPerAdmissionKeys(ds, a.subject, a.hadm);
    LastPerAdmissionKeys(ds, b.subject, b.hadm);
    var x :| x in last && x.subject == a.subject && x.hadm == a.hadm;
    var y :| y in last && y.subject == b.subject && y.hadm == b.hadm;
    var i :| 0 <= i < |last| && last[i] == x;
    var j :| 0 <= j < |last| && last[j] == y;
    assert i != j;
    if i > j {
      assert last[j].hadm == last[i].hadm;
    }
  }

  /** Once notes are unique per (subject, admission), an admission id repeats
      only across two different subjects. */
  lemma KeptHadmsUnique(notes: seq<Note>)
    ensures HadmsUnique(LastPerAdmission(DischargeSummaries(notes))) <==> !ConflictingSummaries(notes)
  {
    if !HadmsUnique(LastPerAdmission(DischargeSummaries(notes))) {
      RepeatedHadmConflicts(notes);
    }
    if ConflictingSummaries(notes) {
      ConflictRepeatsHadm(notes);
    }
  }

  /** `load_clean_notes` fails exactly when two subjects' discharge summaries
      carry the same admission id, and then with the duplicate-summary error. */
  lemma LoadCleanNotesFails(notes: seq<Note>)
    ensures LoadCleanNotes(notes).Failure? <==> ConflictingSummaries(notes)
    ensures LoadCleanNotes(notes).Failure? ==> LoadCleanNotes(notes).error == MultipleDischargeSummaries
  {
    KeptHadmsUnique(notes);
    NoDuplicatedIffHadmsUnique(LastPerAdmission(DischargeSummaries(notes)));
  }

  /** On success every kept note is a discharge summary of the input, admission
      ids are unique, every summarised admission keeps exactly its last summary. */
  lemma LoadCleanNotesSucceeds(notes: seq<Note>)
    requires LoadCleanNotes(notes).Success?
    ensures var r := LoadCleanNotes(notes).value; var ds := DischargeSummaries(notes);
      && (forall n :: n in r ==> n in notes && n.category == DischargeSummary)
      && HadmsUnique(r)
      && KeysUnique(r)
      && (forall n :: n in r <==> exists i :: IsLastOfAdmission(ds, i) && ds[i] == n)
      && (forall s, h :: KeyOccurs(r, s, h) <==> KeyOccurs(ds, s, h))
      && (forall n :: n in r <==> exists p :: IsLastSummary(notes, p) && notes[p] == n)
  {
    var ds := DischargeSummaries(notes);
    var r := LastPerAdmission(ds);
    NoDuplicatedIffHadmsUnique(r);
    LastPerAdmissionKeysUnique(ds);
    LastPerAdmissionSubset(ds);
    forall n ensures n in r <==> exists i :: IsLastOfAdmission(ds, i) && ds[i] == n {
      LastPerAdmissionMembers(ds, n);
    }
    forall s, h ensures KeyOccurs(r, s, h) <==> KeyOccurs(ds, s, h) {
      LastPerAdmissionKeys(ds, s, h);
    }
    forall n ensures n in r <==> exists p :: IsLastSummary(notes, p) && notes[p] == n {
      LastSummaryMembers(notes, n);
    }
  }
}
