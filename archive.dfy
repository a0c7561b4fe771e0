// The archive screen: the archived students, the selection of their check
// boxes with the header box that selects them all, and the two actions on
// the selection, restoring the students to the active list and deleting them
// for good.

module ArchiveScreen {
  import opened Base
  import opened Types
  import opened Sorting
  import opened GroupsScreen
  import opened StudentsScreen

  // ---------------------------------------------------------------------
  // The list and its selection.

  predicate IsArchived(s: Student) {
    s.status == Archived
  }

  /** archivedStudents: the students whose status is archived, in store order. */
  function ArchivedStudents(students: seq<Student>): seq<Student> {
    Filter(students, IsArchived)
  }

  /** The ids of the archived students, in list order. */
  function ArchivedIds(students: seq<Student>): (ids: seq<string>)
    ensures |ids| == |ArchivedStudents(students)|
    ensures forall i :: 0 <= i < |ids| ==> ids[i] == ArchivedStudents(students)[i].id
  {
    var a := ArchivedStudents(students);
    seq(|a|, i requires 0 <= i < |a| => a[i].id)
  }

  /** An id is listed exactly when an archived student carries it. */
  lemma ArchivedIdsRules(students: seq<Student>, id: string)
    ensures id in ArchivedIds(students) <==> exists s :: s in students && IsArchived(s) && s.id == id
  {
    var a := ArchivedStudents(students);
    if id in ArchivedIds(students) {
      var i :| 0 <= i < |a| && ArchivedIds(students)[i] == id;
      FilterMembers(students, IsArchived, a[i]);
    }
    if s :| s in students && IsArchived(s) && s.id == id {
      FilterMembers(students, IsArchived, s);
      var i :| 0 <= i < |a| && a[i] == s;
      assert ArchivedIds(students)[i] == id;
    }
  }

  /** handleSelectStudent: a selected id is filtered out, an unselected one appended. */
  function ToggleSelect(sel: seq<string>, id: string): seq<string> {
    if id in sel then RemoveId(sel, id) else sel + [id]
  }

  /**
   * A toggle flips the id and no other; it keeps a selection free of
   * repeats; and a second toggle of the same id gives back the same
   * selection, in the same order when the id was not selected and up to
   * order when it was.
   */
  lemma ToggleRules(sel: seq<string>, id: string)
    ensures id in ToggleSelect(sel, id) <==> id !in sel
    ensures forall x :: x != id ==> (x in ToggleSelect(sel, id) <==> x in sel)
    ensures Distinct(sel) ==> Distinct(ToggleSelect(sel, id))
    ensures id !in sel ==> ToggleSelect(ToggleSelect(sel, id), id) == sel
    ensures Distinct(sel) ==> multiset(ToggleSelect(ToggleSelect(sel, id), id)) == multiset(sel)
  {
    DistinctMultiset(sel);
    var t := ToggleSelect(sel, id);
    if id in sel {
      RemoveIdCounts(sel, id);
      assert multiset(t)[id] == 0;
      forall x | x != id ensures x in t <==> x in sel {
        assert x in t <==> multiset(t)[x] > 0;
        assert x in sel <==> multiset(sel)[x] > 0;
      }
      if Distinct(sel) {
        DistinctMultiset(t);
        assert multiset(sel)[id] == 1;
        assert multiset(t + [id]) == multiset(sel);
      }
    } else {
      RemoveAbsent(sel, id);
      assert RemoveId(sel + [id], id) == RemoveId(sel, id);
      if Distinct(sel) {
        DistinctMultiset(t);
        assert multiset(t) == multiset(sel) + multiset{id};
      }
    }
  }

  /** handleSelectAll: checking selects every archived student, unchecking selects none. */
  function SelectAll(students: seq<Student>, checked: bool): seq<string> {
    if checked then ArchivedIds(students) else []
  }

  /** The header box is checked when something is selected and as many ids as there are archived students. */
  predicate HeaderChecked(sel: seq<string>, students: seq<Student>) {
    |sel| > 0 && |sel| == |ArchivedStudents(students)|
  }

  /** The ids of a sequence without repeats are as many as its length. */
  lemma {:induction false} DistinctCard(s: seq<string>)
    requires Distinct(s)
    ensures |set x | x in s| == |s|
  {
    if s != [] {
      var init, last := s[..|s| - 1], s[|s| - 1];
      assert Distinct(init);
      DistinctCard(init);
      assert last !in init;
      assert (set x | x in s) == (set x | x in init) + {last};
    }
  }

  /** A subset as large as its superset is all of it. */
  lemma {:induction false} SubsetCard(a: set<string>, b: set<string>)
    requires a <= b && |a| == |b|
    ensures a == b
  {
    if a != b {
      var y :| y in b && y !in a;
      assert a <= b - {y};
      assert |b - {y}| == |b| - 1;
      SubsetSmaller(a, b - {y});
    }
  }

  lemma {:induction false} SubsetSmaller(a: set<string>, b: set<string>)
    requires a <= b
    ensures |a| <= |b|
    decreases b
  {
    if a != {} {
      var x :| x in a;
      SubsetSmaller(a - {x}, b - {x});
    }
  }

  /**
   * With unique student ids and a selection made only of archived ids
   * without repeats, the header box is checked exactly when every archived
   * student is selected and there is at least one.
   */
  lemma HeaderCheckedRules(sel: seq<string>, students: seq<Student>)
    requires Distinct(ArchivedIds(students))
    requires Distinct(sel) && forall x :: x in sel ==> x in ArchivedIds(students)
    ensures HeaderChecked(sel, students) <==>
      |sel| > 0 && forall x :: x in ArchivedIds(students) ==> x in sel
  {
    var ids := ArchivedIds(students);
    var a, b := set x | x in sel, set x | x in ids;
    DistinctCard(sel);
    DistinctCard(ids);
    assert a <= b;
    if HeaderChecked(sel, students) {
      SubsetCard(a, b);
      forall x | x in ids ensures x in sel {
        assert x in b;
      }
    }
    if |sel| > 0 && forall x :: x in ids ==> x in sel {
      assert b <= a;
      assert a == b;
    }
  }

  /**
   * Checking the header selects exactly the archived ids, and leaves the box
   * checked when there is any archived student; unchecking empties the
   * selection and the box.
   */
  lemma SelectAllRules(students: seq<Student>)
    ensures forall x :: x in SelectAll(students, true) <==> x in ArchivedIds(students)
    ensures HeaderChecked(SelectAll(students, true), students) <==> |ArchivedStudents(students)| > 0
    ensures SelectAll(students, false) == [] && !HeaderChecked(SelectAll(students, false), students)
  {
  }

  // ---------------------------------------------------------------------
  // Restoring and deleting.

  /** handleRestore's calls: none for an empty selection, else one update per selected id. */
  function RestoreClick(sel: seq<string>): (r: Option<seq<string>>)
    ensures r.None? <==> |sel| == 0
    ensures r.Some? ==> r.value == sel
  {
    if |sel| == 0 then None else Some(sel)
  }

  /** `update({ status: 'active', archived_date: null })` on one student. */
  function Restore(s: Student): Student {
    s.(status := Active, archivedDate := None)
  }

  /**
   * The students after the restore: each selected id whose update the store
   * accepts (is not in `failed`) is active again with no archive date.
   */
  function RestoreSelected(students: seq<Student>, sel: seq<string>, failed: set<string>): (r: seq<Student>)
    ensures |r| == |students|
    ensures forall i :: 0 <= i < |students| ==>
      r[i] == if students[i].id in sel && students[i].id !in failed then Restore(students[i]) else students[i]
  {
    if RestoreClick(sel).None? then students
    else
      seq(|students|, i requires 0 <= i < |students| =>
        if students[i].id in sel && students[i].id !in failed then Restore(students[i]) else students[i])
  }

  /**
   * A restored student is active with no archive date and otherwise the
   * same; it leaves the archived list, and every other archived student
   * stays on it.
   */
  lemma RestoreRules(students: seq<Student>, sel: seq<string>, failed: set<string>, s: Student)
    ensures var r := RestoreSelected(students, sel, failed);
      forall i :: 0 <= i < |students| && students[i].id in sel && students[i].id !in failed ==>
        r[i].status == Active && r[i].archivedDate.None?
        && r[i] == students[i].(status := Active, archivedDate := None)
    ensures s in ArchivedStudents(RestoreSelected(students, sel, failed)) <==>
      s in ArchivedStudents(students) && (s.id !in sel || s.id in failed)
  {
    var r := RestoreSelected(students, sel, failed);
    FilterMembers(r, IsArchived, s);
    FilterMembers(students, IsArchived, s);
    if s in r && IsArchived(s) {
      var i :| 0 <= i < |r| && r[i] == s;
      assert students[i] == s;
    }
    if s in students && IsArchived(s) && (s.id !in sel || s.id in failed) {
      var i :| 0 <= i < |students| && students[i] == s;
      assert r[i] == s;
    }
  }

  /** handleDeletePermanently: the confirmation opens only with something selected. */
  function DeleteOpensConfirmation(sel: seq<string>): bool {
    |sel| > 0
  }

  /** executeDelete: the store table and the selection after the delete; `ok` is the store's answer. */
  function ExecuteDelete(students: seq<Student>, sel: seq<string>, ok: bool): (seq<Student>, seq<string>) {
    if |sel| == 0 || !ok then (students, sel)
    else (Filter(students, (s: Student) => s.id !in sel), [])
  }

  /**
   * An accepted delete of a selection removes exactly the selected students
   * and clears the selection; an empty selection or a refused delete changes
   * nothing.
   */
  lemma DeleteRules(students: seq<Student>, sel: seq<string>, ok: bool, s: Student)
    ensures DeleteOpensConfirmation(sel) <==> |sel| > 0
    ensures |sel| == 0 || !ok ==> ExecuteDelete(students, sel, ok) == (students, sel)
    ensures |sel| > 0 && ok ==>
      ExecuteDelete(students, sel, ok).1 == []
      && (s in ExecuteDelete(students, sel, ok).0 <==> s in students && s.id !in sel)
  {
    FilterMembers(students, (s: Student) => s.id !in sel, s);
  }
}
