/** The admissions side of the pipeline: `add_next_adm` and the day gap of
    `load_clean_adm`.  Every admission gets the admit time and type of the next
    unplanned (non-elective) admission of the same subject, or nothing. */
module AdmissionsCleaner {
  import opened Wrappers
  import opened StableSort
  import opened GroupScan

  const Elective: string := "ELECTIVE"

  /** One row of the admissions table; times are seconds, `None` is NaT. */
  datatype Admission = Admission(
    subject: int,
    hadm: int,
    admitTime: Option<int>,
    dischTime: Option<int>,
    deathTime: Option<int>,
    admType: string)

  /** An admission with its NEXT_ADMITTIME and NEXT_ADMISSION_TYPE columns. */
  datatype Linked = Linked(adm: Admission, nextTime: Option<int>, nextType: Option<string>)

  /** A cleaned admission: the linked row and DAYS_NEXT_ADMIT. */
  datatype CleanAdmission = CleanAdmission(row: Linked, daysNextAdmit: Option<real>)

  const SecondsPerDay: int := 24 * 60 * 60

  function AdmKey(a: Admission): SortKey {
    SortKey(a.subject, a.admitTime)
  }

  function LinkedKey(l: Linked): SortKey {
    AdmKey(l.adm)
  }

  // ---------------------------------------------------------------------------
  // Columns of a table

  function Subjects(t: seq<Admission>): (r: seq<int>)
    ensures |r| == |t|
    ensures forall i :: 0 <= i < |t| ==> r[i] == t[i].subject
  {
    seq(|t|, i requires 0 <= i < |t| => t[i].subject)
  }

  function AdmitTimes(t: seq<Admission>): (r: seq<Option<int>>)
    ensures |r| == |t|
    ensures forall i :: 0 <= i < |t| ==> r[i] == t[i].admitTime
  {
    seq(|t|, i requires 0 <= i < |t| => t[i].admitTime)
  }

  function AdmTypes(t: seq<Admission>): (r: seq<Option<string>>)
    ensures |r| == |t|
    ensures forall i :: 0 <= i < |t| ==> r[i] == Some(t[i].admType)
  {
    seq(|t|, i requires 0 <= i < |t| => Some(t[i].admType))
  }

  function Adms(l: seq<Linked>): (r: seq<Admission>)
    ensures |r| == |l|
    ensures forall i :: 0 <= i < |l| ==> r[i] == l[i].adm
  {
    seq(|l|, i requires 0 <= i < |l| => l[i].adm)
  }

  function NextTimes(l: seq<Linked>): (r: seq<Option<int>>)
    ensures |r| == |l|
    ensures forall i :: 0 <= i < |l| ==> r[i] == l[i].nextTime
  {
    seq(|l|, i requires 0 <= i < |l| => l[i].nextTime)
  }

  function NextTypes(l: seq<Linked>): (r: seq<Option<string>>)
    ensures |r| == |l|
    ensures forall i :: 0 <= i < |l| ==> r[i] == l[i].nextType
  {
    seq(|l|, i requires 0 <= i < |l| => l[i].nextType)
  }

  // ---------------------------------------------------------------------------
  // The steps of add_next_adm

  /** `sort_values(['SUBJECT_ID', 'ADMITTIME'])` of the admissions. */
  function SortAdmissions(adms: seq<Admission>): (r: seq<Admission>)
    ensures |r| == |adms| && multiset(r) == multiset(adms) && Sorted(r, AdmKey)
  {
    SortBy(adms, AdmKey)
  }

  /** The grouped `shift(-1)` of ADMITTIME and ADMISSION_TYPE. */
  function LinkNext(t: seq<Admission>): (r: seq<Linked>)
    ensures |r| == |t|
    ensures forall i :: 0 <= i < |t| ==> r[i].adm == t[i]
  {
    var g := Subjects(t);
    var nt := Shift(g, AdmitTimes(t));
    var ny := Shift(g, AdmTypes(t));
    seq(|t|, i requires 0 <= i < |t| => Linked(t[i], nt[i], ny[i]))
  }

  /** Blanks both next columns of a row whose next type is ELECTIVE. */
  function ClearIfElective(l: Linked): Linked {
    if l.nextType == Some(Elective) then l.(nextTime := None, nextType := None) else l
  }

  function ClearElective(l: seq<Linked>): (r: seq<Linked>)
    ensures |r| == |l|
    ensures forall i :: 0 <= i < |l| ==> r[i].adm == l[i].adm && r[i].nextType != Some(Elective)
    ensures forall i :: 0 <= i < |l| && l[i].nextType != Some(Elective) ==> r[i] == l[i]
    ensures forall i :: 0 <= i < |l| && l[i].nextType == Some(Elective) ==>
              r[i].adm == l[i].adm && r[i].nextTime.None? && r[i].nextType.None?
  {
    seq(|l|, i requires 0 <= i < |l| => ClearIfElective(l[i]))
  }

  /** The second `sort_values`, taken right before the fill. */
  function SortLinked(l: seq<Linked>): (r: seq<Linked>)
    ensures |r| == |l| && multiset(r) == multiset(l) && Sorted(r, LinkedKey)
  {
    SortBy(l, LinkedKey)
  }

  /** The grouped backward fill, applied to each next column on its own. */
  function FillBack(l: seq<Linked>): (r: seq<Linked>)
    ensures |r| == |l|
    ensures forall i :: 0 <= i < |l| ==> r[i].adm == l[i].adm
  {
    var g := Subjects(Adms(l));
    var ft := Backfill(g, NextTimes(l));
    var fy := Backfill(g, NextTypes(l));
    seq(|l|, i requires 0 <= i < |l| => l[i].(nextTime := ft[i], nextType := fy[i]))
  }

  /** `add_next_adm`. */
  function AddNextAdm(adms: seq<Admission>): (r: seq<Linked>)
    ensures |r| == |adms|
  {
    FillBack(SortLinked(ClearElective(LinkNext(SortAdmissions(adms)))))
  }

  /** NEXT_ADMITTIME - DISCHTIME in days, exactly; missing when either side is. */
  function DaysBetween(disch: Option<int>, next: Option<int>): (r: Option<real>)
    ensures r.Some? <==> next.Some? && disch.Some?
    ensures r.Some? ==> disch.value as real + r.value * SecondsPerDay as real == next.value as real
  {
    if next.Some? && disch.Some? then Some((next.value - disch.value) as real / SecondsPerDay as real) else None
  }

  /** `days` days of 86400 seconds lead from second `from` to second `to`. */
  ghost predicate DaysApart(from: int, days: real, to: int) {
    from as real + days * SecondsPerDay as real == to as real
  }

  /** `load_clean_adm` after parsing: link every admission, then add the gap. */
  function LoadCleanAdm(adms: seq<Admission>): (r: seq<CleanAdmission>)
    ensures |r| == |adms|
  {
    var l := AddNextAdm(adms);
    seq(|l|, i requires 0 <= i < |l| => CleanAdmission(l[i], DaysBetween(l[i].adm.dischTime, l[i].nextTime)))
  }

  // ---------------------------------------------------------------------------
  // Specification of the result

  /** `j` is the first unplanned admission of `t[i]`'s subject after row `i`. */
  ghost predicate IsNextUnplanned(t: seq<Admission>, i: int, j: int) {
    && 0 <= i < j < |t|
    && t[j].subject == t[i].subject
    && t[j].admType != Elective
    && forall k :: i < k < j && t[k].subject == t[i].subject ==> t[k].admType == Elective
  }

  /** `t[i]`'s subject has no unplanned admission after row `i`. */
  ghost predicate NoLaterUnplanned(t: seq<Admission>, i: int) {
    0 <= i < |t| &&
    forall j :: i < j < |t| && t[j].subject == t[i].subject ==> t[j].admType == Elective
  }

  /** `j` is the first unplanned admission after row `i` with a known admit time. */
  ghost predicate IsNextTimedUnplanned(t: seq<Admission>, i: int, j: int) {
    && 0 <= i < j < |t|
    && t[j].subject == t[i].subject
    && t[j].admType != Elective
    && t[j].admitTime.Some?
    && forall k :: i < k < j && t[k].subject == t[i].subject ==>
         t[k].admType == Elective || t[k].admitTime.None?
  }

  ghost predicate NoLaterTimedUnplanned(t: seq<Admission>, i: int) {
    0 <= i < |t| &&
    forall j :: i < j < |t| && t[j].subject == t[i].subject ==>
      t[j].admType == Elective || t[j].admitTime.None?
  }

  /** The type column with elective admissions blanked. */
  function UnplannedTypes(t: seq<Admission>): (r: seq<Option<string>>)
    ensures |r| == |t|
    ensures forall k :: 0 <= k < |t| ==>
              r[k] == if t[k].admType == Elective then None else Some(t[k].admType)
  {
    seq(|t|, k requires 0 <= k < |t| => if t[k].admType == Elective then None else Some(t[k].admType))
  }

  /** The admit-time column with elective admissions blanked. */
  function UnplannedTimes(t: seq<Admission>): (r: seq<Option<int>>)
    ensures |r| == |t|
    ensures forall k :: 0 <= k < |t| ==>
              r[k] == if t[k].admType == Elective then None else t[k].admitTime
  {
    seq(|t|, k requires 0 <= k < |t| => if t[k].admType == Elective then None else t[k].admitTime)
  }

  // ---------------------------------------------------------------------------
  // Proofs

  /** Clearing the links to elective admissions after the shift is the same as
      shifting columns in which elective admissions were blanked beforehand. */
  lemma ClearedLinksAreShiftedUnplanned(t: seq<Admission>)
    ensures Adms(ClearElective(LinkNext(t))) == t
    ensures NextTypes(ClearElective(LinkNext(t))) == Shift(Subjects(t), UnplannedTypes(t))
    ensures NextTimes(ClearElective(LinkNext(t))) == Shift(Subjects(t), UnplannedTimes(t))
  {
    var g := Subjects(t);
    var l := LinkNext(t);
    var c := ClearElective(l);
    forall k | 0 <= k < |t|
      ensures c[k].adm == t[k]
      ensures c[k].nextType == Shift(g, UnplannedTypes(t))[k]
      ensures c[k].nextTime == Shift(g, UnplannedTimes(t))[k]
    {
      var n := FindNext(g, g[k], k + 1);
      assert l[k].nextType == ShiftCell(g, AdmTypes(t), k) == CellAt(AdmTypes(t), n);
      assert l[k].nextTime == ShiftCell(g, AdmitTimes(t), k) == CellAt(AdmitTimes(t), n);
      assert Shift(g, UnplannedTypes(t))[k] == CellAt(UnplannedTypes(t), n);
      assert Shift(g, UnplannedTimes(t))[k] == CellAt(UnplannedTimes(t), n);
    }
  }

  /** The first sort leaves the table sorted by key; clearing links keeps every
      admission in place, so the second sort changes nothing. */
  lemma ResortIsNoOp(adms: seq<Admission>)
    ensures SortLinked(ClearElective(LinkNext(SortAdmissions(adms))))
         == ClearElective(LinkNext(SortAdmissions(adms)))
  {
    var t := SortAdmissions(adms);
    var c := ClearElective(LinkNext(t));
    ClearedLinksAreShiftedUnplanned(t);
    assert forall k :: 0 <= k < |c| ==> c[k].adm == t[k] by {
      assert Adms(c) == t;
    }
    assert Sorted(c, LinkedKey) by {
      forall i, j | 0 <= i < j < |c| ensures KeyLe(LinkedKey(c[i]), LinkedKey(c[j])) {
        assert KeyLe(AdmKey(t[i]), AdmKey(t[j]));
      }
    }
    SortBySortedIsIdentity(c, LinkedKey);
  }

  /** The admissions of the result are the sorted input, row for row. */
  lemma AddNextAdmOrder(adms: seq<Admission>)
    ensures |AddNextAdm(adms)| == |adms|
    ensures Adms(AddNextAdm(adms)) == SortAdmissions(adms)
  {
    var t := SortAdmissions(adms);
    var c := ClearElective(LinkNext(t));
    ResortIsNoOp(adms);
    ClearedLinksAreShiftedUnplanned(t);
    var r := AddNextAdm(adms);
    assert r == FillBack(c);
    forall k | 0 <= k < |r| ensures r[k].adm == t[k] {
      assert Adms(c)[k] == t[k];
    }
  }

  /** `add_next_adm` keeps exactly the input admissions, electives included,
      in (subject, admit time) order, stably, and changes only the next columns. */
  lemma AddNextAdmRows(adms: seq<Admission>)
    ensures |AddNextAdm(adms)| == |adms|
    ensures multiset(Adms(AddNextAdm(adms))) == multiset(adms)
    ensures Sorted(Adms(AddNextAdm(adms)), AdmKey)
    ensures forall k :: WithKey(Adms(AddNextAdm(adms)), AdmKey, k) == WithKey(adms, AdmKey, k)
  {
    AddNextAdmOrder(adms);
    forall k ensures WithKey(SortAdmissions(adms), AdmKey, k) == WithKey(adms, AdmKey, k) {
      SortByStable(adms, AdmKey, k);
    }
  }

  /** The row, the column and its search behind one next column of the result. */
  lemma FilledColumns(adms: seq<Admission>, i: int)
    requires 0 <= i < |adms|
    ensures var t := SortAdmissions(adms); var g := Subjects(t);
      && AddNextAdm(adms)[i].nextType == CellAt(UnplannedTypes(t), FindFilled(g, UnplannedTypes(t), g[i], i + 1))
      && AddNextAdm(adms)[i].nextTime == CellAt(UnplannedTimes(t), FindFilled(g, UnplannedTimes(t), g[i], i + 1))
  {
    var t := SortAdmissions(adms);
    var g := Subjects(t);
    var c := ClearElective(LinkNext(t));
    ResortIsNoOp(adms);
    ClearedLinksAreShiftedUnplanned(t);
    var r := AddNextAdm(adms);
    assert r == FillBack(c);
    assert Subjects(Adms(c)) == g;
    BackfillOfShift(g, UnplannedTypes(t), i);
    BackfillOfShift(g, UnplannedTimes(t), i);
  }

  /** NEXT_ADMISSION_TYPE names the first later non-elective admission of the
      same subject, or is missing when every later admission is elective. */
  lemma {:induction false} AddNextAdmNextType(adms: seq<Admission>, i: int)
    requires 0 <= i < |adms|
    ensures var t := Adms(AddNextAdm(adms)); var r := AddNextAdm(adms)[i];
      || (exists j :: IsNextUnplanned(t, i, j) && r.nextType == Some(t[j].admType))
      || (NoLaterUnplanned(t, i) && r.nextType.None?)
  {
    AddNextAdmOrder(adms);
    FilledColumns(adms, i);
    FilledType(SortAdmissions(adms), i);
  }

  /** The back-filled search over the blanked type column finds the first
      later non-elective admission of the subject. */
  lemma FilledType(t: seq<Admission>, i: int)
    requires 0 <= i < |t|
    ensures var g := Subjects(t); var w := UnplannedTypes(t);
            var x := CellAt(w, FindFilled(g, w, g[i], i + 1));
      || (exists j :: IsNextUnplanned(t, i, j) && x == Some(t[j].admType))
      || (NoLaterUnplanned(t, i) && x.None?)
  {
    var g := Subjects(t);
    var w := UnplannedTypes(t);
    var f := FindFilled(g, w, g[i], i + 1);
    if f.Some? {
      var j := f.value;
      assert HasCell(g, w, g[i], j);
      forall k | i < k < j && t[k].subject == t[i].subject ensures t[k].admType == Elective {
        assert !HasCell(g, w, g[i], k);
      }
      assert IsNextUnplanned(t, i, j);
    } else {
      forall j | i < j < |t| && t[j].subject == t[i].subject ensures t[j].admType == Elective {
        assert !HasCell(g, w, g[i], j);
      }
    }
  }

  /** NEXT_ADMITTIME is the admit time of the first later non-elective admission
      of the same subject whose admit time is known, or missing. */
  lemma {:induction false} AddNextAdmNextTime(adms: seq<Admission>, i: int)
    requires 0 <= i < |adms|
    ensures var t := Adms(AddNextAdm(adms)); var r := AddNextAdm(adms)[i];
      || (exists j :: IsNextTimedUnplanned(t, i, j) && r.nextTime == t[j].admitTime)
      || (NoLaterTimedUnplanned(t, i) && r.nextTime.None?)
  {
    AddNextAdmOrder(adms);
    FilledColumns(adms, i);
    FilledTime(SortAdmissions(adms), i);
  }

  /** The back-filled search over the blanked time column finds the first
      later non-elective admission of the subject with a known admit time. */
  lemma FilledTime(t: seq<Admission>, i: int)
    requires 0 <= i < |t|
    ensures var g := Subjects(t); var w := UnplannedTimes(t);
            var x := CellAt(w, FindFilled(g, w, g[i], i + 1));
      || (exists j :: IsNextTimedUnplanned(t, i, j) && x == t[j].admitTime)
      || (NoLaterTimedUnplanned(t, i) && x.None?)
  {
    var g := Subjects(t);
    var w := UnplannedTimes(t);
    var f := FindFilled(g, w, g[i], i + 1);
    if f.Some? {
      var j := f.value;
      assert HasCell(g, w, g[i], j);
      forall k | i < k < j && t[k].subject == t[i].subject
        ensures t[k].admType == Elective || t[k].admitTime.None?
      {
        assert !HasCell(g, w, g[i], k);
      }
      assert IsNextTimedUnplanned(t, i, j);
    } else {
      forall j | i < j < |t| && t[j].subject == t[i].subject
        ensures t[j].admType == Elective || t[j].admitTime.None?
      {
        assert !HasCell(g, w, g[i], j);
      }
    }
  }

  /** With every admit time known, both next columns come from the same row:
      the first later non-elective admission of the subject, or both are missing. */
  lemma AddNextAdmNextUnplanned(adms: seq<Admission>, i: int)
    requires 0 <= i < |adms|
    requires forall a :: a in adms ==> a.admitTime.Some?
    ensures var t := Adms(AddNextAdm(adms)); var r := AddNextAdm(adms)[i];
      || (exists j :: IsNextUnplanned(t, i, j)
                    && r.nextTime == t[j].admitTime && r.nextType == Some(t[j].admType))
      || (NoLaterUnplanned(t, i) && r.nextTime.None? && r.nextType.None?)
  {
    AddNextAdmOrder(adms);
    AddNextAdmNextType(adms, i);
    AddNextAdmNextTime(adms, i);
    var t := Adms(AddNextAdm(adms));
    var r := AddNextAdm(adms)[i];
    if r.nextType.Some? {
      var j :| IsNextUnplanned(t, i, j) && r.nextType == Some(t[j].admType);
      assert t[j] in multiset(adms);
      if j2 :| IsNextTimedUnplanned(t, i, j2) && r.nextTime == t[j2].admitTime {
        NextUnplannedUnique(t, i, j, j2);
      }
    }
  }

  /** The first unplanned admission with a known time is the first unplanned
      admission when that one has a known time. */
  lemma NextUnplannedUnique(t: seq<Admission>, i: int, j: int, j2: int)
    requires IsNextUnplanned(t, i, j) && IsNextTimedUnplanned(t, i, j2)
    requires t[j].admitTime.Some?
    ensures j == j2
  {
  }

  /** There is at most one first later unplanned admission. */
  lemma NextUnplannedIsUnique(t: seq<Admission>, i: int, j: int, j2: int)
    requires IsNextUnplanned(t, i, j) && IsNextUnplanned(t, i, j2)
    ensures j == j2
  {
  }

  /** With every admit time known, an admission whose first later unplanned
      admission is row `j` takes its admit time and type. */
  lemma AddNextAdmLinksTo(adms: seq<Admission>, i: int, j: int)
    requires forall a :: a in adms ==> a.admitTime.Some?
    requires 0 <= i < |adms|
    requires IsNextUnplanned(Adms(AddNextAdm(adms)), i, j)
    ensures AddNextAdm(adms)[i].nextTime == Adms(AddNextAdm(adms))[j].admitTime
    ensures AddNextAdm(adms)[i].nextType == Some(Adms(AddNextAdm(adms))[j].admType)
  {
    var t := Adms(AddNextAdm(adms));
    AddNextAdmNextUnplanned(adms, i);
    if j2 :| IsNextUnplanned(t, i, j2)
             && AddNextAdm(adms)[i].nextTime == t[j2].admitTime
             && AddNextAdm(adms)[i].nextType == Some(t[j2].admType) {
      NextUnplannedIsUnique(t, i, j, j2);
    }
  }

  /** No admission is ever linked to an elective admission. */
  lemma AddNextAdmNeverElective(adms: seq<Admission>)
    ensures forall i :: 0 <= i < |AddNextAdm(adms)| ==> AddNextAdm(adms)[i].nextType != Some(Elective)
  {
    AddNextAdmOrder(adms);
    forall i | 0 <= i < |AddNextAdm(adms)| ensures AddNextAdm(adms)[i].nextType != Some(Elective) {
      AddNextAdmNextType(adms, i);
    }
  }

  /** A present link always comes from a strictly later admission of the same
      subject, whose admit time is not before this admission's. */
  lemma AddNextAdmLinksLater(adms: seq<Admission>, i: int)
    requires 0 <= i < |adms|
    ensures var t := Adms(AddNextAdm(adms)); var r := AddNextAdm(adms)[i];
      && (r.nextType.Some? ==>
            exists j :: i < j < |t| && t[j].subject == t[i].subject && r.nextType == Some(t[j].admType))
      && (r.nextTime.Some? ==>
            exists j :: i < j < |t| && t[j].subject == t[i].subject && r.nextTime == t[j].admitTime
                        && TimeLe(t[i].admitTime, t[j].admitTime))
  {
    AddNextAdmOrder(adms);
    AddNextAdmNextType(adms, i);
    AddNextAdmNextTime(adms, i);
    var t := Adms(AddNextAdm(adms));
    if AddNextAdm(adms)[i].nextTime.Some? {
      var j :| IsNextTimedUnplanned(t, i, j) && AddNextAdm(adms)[i].nextTime == t[j].admitTime;
      assert KeyLe(AdmKey(t[i]), AdmKey(t[j]));
    }
  }

  /** When the first later unplanned admission has no admit time,
      NEXT_ADMISSION_TYPE names it and NEXT_ADMITTIME is missing: a missing
      admit time sorts after every known one of the subject, so no later
      unplanned admission has a known time either. */
  lemma NullNextTimeMeansNoTime(adms: seq<Admission>, i: int, j: int)
    requires 0 <= i < |adms|
    requires IsNextUnplanned(Adms(AddNextAdm(adms)), i, j)
    requires Adms(AddNextAdm(adms))[j].admitTime.None?
    ensures AddNextAdm(adms)[i].nextTime.None?
    ensures AddNextAdm(adms)[i].nextType == Some(Adms(AddNextAdm(adms))[j].admType)
  {
    AddNextAdmRows(adms);
    var t := Adms(AddNextAdm(adms));
    UntimedStaysLast(t, i, j);
    AddNextAdmNextType(adms, i);
    AddNextAdmNextTime(adms, i);
    if j2 :| IsNextUnplanned(t, i, j2) && AddNextAdm(adms)[i].nextType == Some(t[j2].admType) {
      NextUnplannedIsUnique(t, i, j, j2);
    }
  }

  /** In a sorted table, no unplanned admission with a known time follows an
      untimed first later unplanned admission. */
  lemma UntimedStaysLast(t: seq<Admission>, i: int, j: int)
    requires Sorted(t, AdmKey)
    requires IsNextUnplanned(t, i, j) && t[j].admitTime.None?
    ensures NoLaterTimedUnplanned(t, i)
  {
    forall k | i < k < |t| && t[k].subject == t[i].subject
      ensures t[k].admType == Elective || t[k].admitTime.None?
    {
      if k > j {
        assert KeyLe(AdmKey(t[j]), AdmKey(t[k]));
      }
    }
  }

  /** The last admission of every subject gets no link. */
  lemma AddNextAdmLastIsNull(adms: seq<Admission>, i: int)
    requires 0 <= i < |adms|
    requires forall j :: i < j < |adms| ==> Adms(AddNextAdm(adms))[j].subject != Adms(AddNextAdm(adms))[i].subject
    ensures AddNextAdm(adms)[i].nextTime.None? && AddNextAdm(adms)[i].nextType.None?
  {
    AddNextAdmOrder(adms);
    AddNextAdmNextType(adms, i);
    AddNextAdmNextTime(adms, i);
  }

  /** Row `i` of `load_clean_adm` is row `i` of `add_next_adm` with its
      DAYS_NEXT_ADMIT column. */
  lemma LoadCleanAdmRow(adms: seq<Admission>, i: int)
    requires 0 <= i < |adms|
    ensures var c := LoadCleanAdm(adms)[i];
      && c.row == AddNextAdm(adms)[i]
      && c.daysNextAdmit == DaysBetween(c.row.adm.dischTime, c.row.nextTime)
  {
    var l := AddNextAdm(adms);
    assert LoadCleanAdm(adms)[i] == CleanAdmission(l[i], DaysBetween(l[i].adm.dischTime, l[i].nextTime));
  }

  /** DAYS_NEXT_ADMIT of admission `i` is the time from its discharge to the
      first later unplanned admission of its subject with a known admit time,
      in days; it is missing exactly when the discharge time is missing or the
      subject has no such later admission. */
  lemma LoadCleanAdmGap(adms: seq<Admission>, i: int)
    requires 0 <= i < |adms|
    ensures var t := Adms(AddNextAdm(adms)); var c := LoadCleanAdm(adms)[i];
      && c.row.adm == t[i]
      && (c.daysNextAdmit.Some? ==>
            exists j :: IsNextTimedUnplanned(t, i, j)
              && DaysApart(t[i].dischTime.value, c.daysNextAdmit.value, t[j].admitTime.value))
      && (c.daysNextAdmit.None? <==> t[i].dischTime.None? || NoLaterTimedUnplanned(t, i))
  {
    LoadCleanAdmRow(adms, i);
    AddNextAdmNextTime(adms, i);
    var t := Adms(AddNextAdm(adms));
    var c := LoadCleanAdm(adms)[i];
    assert c.row.adm.dischTime == t[i].dischTime;
    GapFromNextTime(t, i, c.row.nextTime, c.daysNextAdmit);
  }

  /** The day gap computed from a NEXT_ADMITTIME that `AddNextAdmNextTime`
      describes. */
  lemma GapFromNextTime(t: seq<Admission>, i: int, next: Option<int>, days: Option<real>)
    requires 0 <= i < |t|
    requires || (exists j :: IsNextTimedUnplanned(t, i, j) && next == t[j].admitTime)
             || (NoLaterTimedUnplanned(t, i) && next.None?)
    requires days == DaysBetween(t[i].dischTime, next)
    ensures days.Some? ==>
              exists j :: IsNextTimedUnplanned(t, i, j)
                && DaysApart(t[i].dischTime.value, days.value, t[j].admitTime.value)
    ensures days.None? <==> t[i].dischTime.None? || NoLaterTimedUnplanned(t, i)
  {
  }
}
