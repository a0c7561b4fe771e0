// The groups screen: the display list with the "no group" pseudo-group last,
// the bucketing of active students by group, deleting a group (students are
// detached first), adding and removing one student, renaming, and the
// add-student suggestions.

module GroupsScreen {
  import opened Base
  import opened Types
  import opened Sorting

  const UnassignedId: string := "unassigned_students_group"
  const Unassigned: Group := Group(UnassignedId, "Без группы")

  function GroupName(g: Group): string { g.name }

  function StudentName(s: Student): string { s.name }

  predicate IsActive(s: Student) { s.status == Active }

  // ---------------------------------------------------------------------
  // The display list.

  /** allGroupsForDisplay: the groups by name, then the pseudo-group. */
  function DisplayGroups(groups: seq<Group>): seq<Group> {
    SortByText(groups, GroupName) + [Unassigned]
  }

  /** The display list holds the same groups in name order, with the pseudo-group appended last. */
  lemma DisplayGroupsRules(groups: seq<Group>)
    ensures |DisplayGroups(groups)| == |groups| + 1
    ensures DisplayGroups(groups)[|groups|] == Unassigned
    ensures multiset(DisplayGroups(groups)[..|groups|]) == multiset(groups)
    ensures forall i, j :: 0 <= i < j < |groups| ==>
      TextLe(DisplayGroups(groups)[i].name, DisplayGroups(groups)[j].name)
  {
    var sorted := SortByText(groups, GroupName);
    assert DisplayGroups(groups)[..|groups|] == sorted;
    SortByTextSorted(groups, GroupName);
  }

  // ---------------------------------------------------------------------
  // Bucketing students by group.

  function Ids(gs: seq<Group>): set<string> {
    set i | 0 <= i < |gs| :: gs[i].id
  }

  /** How often id occurs in ids. */
  function Count(ids: seq<string>, id: string): nat {
    if ids == [] then 0 else Count(ids[..|ids| - 1], id) + (if ids[|ids| - 1] == id then 1 else 0)
  }

  function Repeat(s: Student, n: nat): (r: seq<Student>)
    ensures |r| == n && forall i :: 0 <= i < n ==> r[i] == s
  {
    if n == 0 then [] else Repeat(s, n - 1) + [s]
  }

  /**
   * What the fill loop pushes into group id's list for one student: the
   * student once per occurrence of id in its group ids, or, with no group ids
   * at all, once into the pseudo-group.
   */
  function Pushes(s: Student, id: string): seq<Student> {
    if |s.groupIds| > 0 then Repeat(s, Count(s.groupIds, id))
    else if id == UnassignedId then [s]
    else []
  }

  /** The list of group id before sorting: the pushes of every student, in order. */
  function Bucket(students: seq<Student>, id: string): seq<Student> {
    if students == [] then []
    else Bucket(students[..|students| - 1], id) + Pushes(students[|students| - 1], id)
  }

  function ActiveStudents(students: seq<Student>): seq<Student> {
    Filter(students, IsActive)
  }

  /**
   * studentsByGroup: an empty list per displayed group, the active students
   * pushed into the lists of their known groups (or the pseudo-group), and
   * each list then sorted by name.
   */
  method StudentsByGroup(groups: seq<Group>, students: seq<Student>) returns (buckets: map<string, seq<Student>>)
    ensures buckets.Keys == Ids(DisplayGroups(groups))
    ensures forall id :: id in buckets ==>
      buckets[id] == SortByText(Bucket(ActiveStudents(students), id), StudentName)
  {
    var display := DisplayGroups(groups);
    var active := ActiveStudents(students);
    buckets := EmptyBuckets(display);
    ghost var keys := buckets.Keys;
    assert UnassignedId in keys by {
      assert display[|display| - 1] == Unassigned;
    }
    for i := 0 to |active|
      invariant buckets.Keys == keys
      invariant forall id :: id in buckets ==> buckets[id] == Bucket(active[..i], id)
    {
      BucketStep(active, i);
      buckets := PushStudent(buckets, active[i]);
    }
    assert active[..|active|] == active;
    buckets := SortBuckets(buckets);
  }

  /** `allGroupsForDisplay.forEach(group => map.set(group.id, []))`. */
  method EmptyBuckets(display: seq<Group>) returns (buckets: map<string, seq<Student>>)
    ensures buckets.Keys == Ids(display)
    ensures forall id :: id in buckets ==> buckets[id] == []
  {
    buckets := map[];
    for i := 0 to |display|
      invariant buckets.Keys == Ids(display[..i])
      invariant forall id :: id in buckets ==> buckets[id] == []
    {
      assert Ids(display[..i + 1]) == Ids(display[..i]) + {display[i].id};
      buckets := buckets[display[i].id := []];
    }
    assert display[..|display|] == display;
  }

  /** Sorting every list of the map by name. */
  method SortBuckets(filled: map<string, seq<Student>>) returns (buckets: map<string, seq<Student>>)
    ensures buckets.Keys == filled.Keys
    ensures forall id :: id in buckets ==> buckets[id] == SortByText(filled[id], StudentName)
  {
    buckets := filled;
    var todo := buckets.Keys;
    while todo != {}
      invariant todo <= filled.Keys && buckets.Keys == filled.Keys
      invariant forall id :: id in buckets ==>
        buckets[id] == if id in todo then filled[id] else SortByText(filled[id], StudentName)
      decreases todo
    {
      var id :| id in todo;
      buckets := buckets[id := SortByText(buckets[id], StudentName)];
      todo := todo - {id};
    }
  }

  lemma BucketStep(students: seq<Student>, i: int)
    requires 0 <= i < |students|
    ensures forall id :: Bucket(students[..i + 1], id) == Bucket(students[..i], id) + Pushes(students[i], id)
  {
    assert students[..i + 1][..i] == students[..i];
  }

  /** One student's turn of the fill loop: its pushes appended to the lists that exist. */
  method PushStudent(buckets: map<string, seq<Student>>, s: Student) returns (r: map<string, seq<Student>>)
    requires UnassignedId in buckets
    ensures r.Keys == buckets.Keys
    ensures forall id :: id in r ==> r[id] == buckets[id] + Pushes(s, id)
  {
    r := buckets;
    if |s.groupIds| > 0 {
      for j := 0 to |s.groupIds|
        invariant r.Keys == buckets.Keys
        invariant forall id :: id in r ==> r[id] == buckets[id] + Repeat(s, Count(s.groupIds[..j], id))
      {
        PushStep(s, j);
        var id := s.groupIds[j];
        if id in r {
          r := PushOnce(r, id, s, buckets, Count(s.groupIds[..j], id));
        }
      }
      assert s.groupIds[..|s.groupIds|] == s.groupIds;
    } else {
      r := r[UnassignedId := r[UnassignedId] + [s]];
    }
  }

  /** `buckets[id].push(s)` on a list that holds the student n times after its start. */
  function PushOnce(r: map<string, seq<Student>>, id: string, s: Student,
                    start: map<string, seq<Student>>, n: nat): (r': map<string, seq<Student>>)
    requires id in r && id in start && r[id] == start[id] + Repeat(s, n)
    ensures r'.Keys == r.Keys
    ensures r'[id] == start[id] + Repeat(s, n) + [s]
    ensures forall x :: x in r && x != id ==> r'[x] == r[x]
  {
    r[id := r[id] + [s]]
  }

  /** Handling group id j of the student pushes it once more into that group's list and nowhere else. */
  lemma PushStep(s: Student, j: int)
    requires 0 <= j < |s.groupIds|
    ensures forall id ::
      Repeat(s, Count(s.groupIds[..j + 1], id)) ==
      Repeat(s, Count(s.groupIds[..j], id)) + (if s.groupIds[j] == id then [s] else [])
  {
    assert s.groupIds[..j + 1][..j] == s.groupIds[..j];
  }

  lemma {:induction false} CountPositive(ids: seq<string>, id: string)
    ensures Count(ids, id) > 0 <==> id in ids
  {
    if ids != [] {
      CountPositive(ids[..|ids| - 1], id);
      assert ids == ids[..|ids| - 1] + [ids[|ids| - 1]];
    }
  }

  /**
   * A student is in group id's list exactly when it is one of the students
   * and either lists id among its groups or lists no group at all and id is
   * the pseudo-group.
   */
  lemma {:induction false} BucketMembers(students: seq<Student>, id: string, s: Student)
    ensures s in Bucket(students, id) <==>
      s in students && (id in s.groupIds || (s.groupIds == [] && id == UnassignedId))
  {
    if students != [] {
      var init, last := students[..|students| - 1], students[|students| - 1];
      BucketMembers(init, id, s);
      CountPositive(last.groupIds, id);
      assert students == init + [last];
    }
  }

  /**
   * Each list holds only active students, exactly those of its group (ids of
   * unknown groups lead nowhere, since only displayed groups have a list),
   * ordered by name.
   */
  lemma BucketRules(students: seq<Student>, id: string)
    ensures var b := SortByText(Bucket(ActiveStudents(students), id), StudentName);
      (forall s :: s in b <==>
        s in students && IsActive(s) && (id in s.groupIds || (s.groupIds == [] && id == UnassignedId)))
      && forall i, j :: 0 <= i < j < |b| ==> TextLe(b[i].name, b[j].name)
  {
    var active := ActiveStudents(students);
    var b := SortByText(Bucket(active, id), StudentName);
    forall s
      ensures s in b <==> s in students && IsActive(s) && (id in s.groupIds || (s.groupIds == [] && id == UnassignedId))
    {
      assert s in b <==> s in multiset(b);
      assert s in Bucket(active, id) <==> s in multiset(Bucket(active, id));
      BucketMembers(active, id, s);
      if s in students && IsActive(s) {
        var k :| 0 <= k < |students| && students[k] == s;
      }
    }
    SortByTextSorted(Bucket(active, id), StudentName);
  }

  // ---------------------------------------------------------------------
  // Group membership edits.

  /** `filter(id => id !== groupId)`. */
  function RemoveId(ids: seq<string>, id: string): seq<string> {
    Filter(ids, (x: string) => x != id)
  }

  /** Removing drops every occurrence of the id and keeps every other id as often as before. */
  lemma {:induction false} RemoveIdCounts(ids: seq<string>, id: string)
    ensures multiset(RemoveId(ids, id)) == multiset(ids)[id := 0]
  {
    if ids != [] {
      var init, last := ids[..|ids| - 1], ids[|ids| - 1];
      RemoveIdCounts(init, id);
      assert ids == init + [last];
    }
  }

  /** Without the id, removing it changes nothing. */
  lemma {:induction false} RemoveAbsent(ids: seq<string>, id: string)
    requires id !in ids
    ensures RemoveId(ids, id) == ids
  {
    if ids != [] {
      RemoveAbsent(ids[..|ids| - 1], id);
      assert ids == ids[..|ids| - 1] + [ids[|ids| - 1]];
    }
  }

  /** handleAddStudentToGroup: the group id appended. */
  function AddToGroup(s: Student, groupId: string): seq<string> {
    s.groupIds + [groupId]
  }

  /** handleRemoveStudentFromGroup: every occurrence of the group id filtered out. */
  function RemoveFromGroup(s: Student, groupId: string): seq<string> {
    RemoveId(s.groupIds, groupId)
  }

  /** Removing a student just added to a group it was not in restores its group ids. */
  lemma AddThenRemove(s: Student, groupId: string)
    requires groupId !in s.groupIds
    ensures RemoveId(AddToGroup(s, groupId), groupId) == s.groupIds
  {
    RemoveAbsent(s.groupIds, groupId);
    assert AddToGroup(s, groupId)[..|s.groupIds|] == s.groupIds;
  }

  /** Adding puts the group among the ids; removing takes it out entirely and keeps the rest. */
  lemma MembershipEdits(s: Student, groupId: string)
    ensures groupId in AddToGroup(s, groupId) && AddToGroup(s, groupId)[..|s.groupIds|] == s.groupIds
    ensures groupId !in RemoveFromGroup(s, groupId)
    ensures forall x :: x != groupId ==> (x in RemoveFromGroup(s, groupId) <==> x in s.groupIds)
  {
    assert AddToGroup(s, groupId)[|s.groupIds|] == groupId;
    RemoveIdCounts(s.groupIds, groupId);
    forall x
      ensures x in RemoveFromGroup(s, groupId) <==> x in multiset(RemoveFromGroup(s, groupId))
      ensures x in s.groupIds <==> x in multiset(s.groupIds)
    {
    }
  }

  // ---------------------------------------------------------------------
  // Deleting a group.

  /**
   * executeDelete: every student listing the group is written back without it
   * (a write in `failed` is lost: the results of the updates are not checked),
   * then the group row is deleted whatever became of those writes.  Student
   * ids are taken to be unique, so an update by id touches that student only.
   */
  function DetachStudents(students: seq<Student>, groupId: string, failed: set<string>): (r: seq<Student>)
    ensures |r| == |students|
  {
    seq(|students|, i requires 0 <= i < |students| =>
      var s := students[i];
      if groupId in s.groupIds && s.id !in failed then s.(groupIds := RemoveId(s.groupIds, groupId)) else s)
  }

  /** deleteGroup: `delete().eq('id', id)`, which a refused call leaves undone. */
  function DeleteGroupRow(groups: seq<Group>, groupId: string, failDelete: bool): seq<Group> {
    if failDelete then groups else Filter(groups, (g: Group) => g.id != groupId)
  }

  /** The tables after executeDelete, and whether its success notice is shown. */
  datatype DeleteOutcome = DeleteOutcome(students: seq<Student>, groups: seq<Group>, notified: bool)

  function ExecuteDelete(students: seq<Student>, groups: seq<Group>, groupId: string,
                         failed: set<string>, failDelete: bool): DeleteOutcome {
    DeleteOutcome(DetachStudents(students, groupId, failed), DeleteGroupRow(groups, groupId, failDelete), !failDelete)
  }

  /**
   * An accepted delete leaves no group row with the id and shows the notice;
   * a refused one keeps the groups table as it was and shows nothing.  Either
   * way the student writes have already gone out: each student whose write
   * went through has lost exactly that id, and every other field, and every
   * other student, is unchanged.
   */
  lemma DeleteGroupRules(students: seq<Student>, groups: seq<Group>, groupId: string,
                         failed: set<string>, failDelete: bool)
    ensures var o := ExecuteDelete(students, groups, groupId, failed, failDelete);
      (o.notified <==> !failDelete)
      && (failDelete ==> o.groups == groups)
      && (!failDelete ==> forall g :: g in o.groups <==> g in groups && g.id != groupId)
      && |o.students| == |students|
    ensures forall i :: 0 <= i < |students| ==>
      var before, after := students[i], ExecuteDelete(students, groups, groupId, failed, failDelete).students[i];
      after == before.(groupIds := after.groupIds)
      && (before.id !in failed ==> multiset(after.groupIds) == multiset(before.groupIds)[groupId := 0])
      && (before.id in failed || groupId !in before.groupIds ==> after == before)
  {
    forall i | 0 <= i < |students|
      ensures var before, after := students[i], DetachStudents(students, groupId, failed)[i];
        before.id !in failed ==> multiset(after.groupIds) == multiset(before.groupIds)[groupId := 0]
    {
      var before := students[i];
      RemoveIdCounts(before.groupIds, groupId);
      if groupId !in before.groupIds {
        assert multiset(before.groupIds)[groupId] == 0;
        assert multiset(before.groupIds)[groupId := 0] == multiset(before.groupIds);
      }
    }
    if !failDelete {
      forall g ensures g in DeleteGroupRow(groups, groupId, false) <==> g in groups && g.id != groupId {
        if g in groups && g.id != groupId {
          var k :| 0 <= k < |groups| && groups[k] == g;
        }
      }
    }
  }

  // ---------------------------------------------------------------------
  // Renaming.

  /** What handleFinishEdit does: nothing while no group is edited, else close the editor, maybe after writing. */
  datatype RenameOutcome = NotEditing | Closed(write: Option<string>)

  /** `groups.find(g => g.id === id)` */
  function FindGroupById(groups: seq<Group>, id: string): Option<Group> {
    FindBy(groups, (g: Group) => g.id, id)
  }

  /** Group ids are the table's primary key. */
  predicate GroupIdsUnique(groups: seq<Group>) {
    forall i, j :: 0 <= i < j < |groups| ==> groups[i].id != groups[j].id
  }

  /** handleFinishEdit: a blank name cancels; the trimmed name is written only when it differs from the stored one. */
  function FinishEdit(editingId: Option<string>, editingName: string, groups: seq<Group>): RenameOutcome {
    if !Truthy(editingId) then NotEditing
    else
      var trimmed := Trim(editingName);
      var original := FindGroupById(groups, editingId.value);
      if trimmed == "" then Closed(None)
      else if original.Some? && original.value.name != trimmed then Closed(Some(trimmed))
      else Closed(None)
  }

  /**
   * A rename writes exactly when the trimmed name is non-empty, the group
   * exists and its name differs; what it writes is the trimmed name.
   */
  lemma FinishEditRules(editingId: Option<string>, editingName: string, groups: seq<Group>)
    requires GroupIdsUnique(groups)
    ensures Truthy(editingId) ==> FinishEdit(editingId, editingName, groups).Closed?
    ensures FinishEdit(editingId, editingName, groups).Closed? &&
            FinishEdit(editingId, editingName, groups).write.Some? <==>
      Truthy(editingId) && Trim(editingName) != ""
      && exists g :: g in groups && g.id == editingId.value && g.name != Trim(editingName)
    ensures FinishEdit(editingId, editingName, groups).Closed? &&
            FinishEdit(editingId, editingName, groups).write.Some? ==>
      FinishEdit(editingId, editingName, groups).write.value == Trim(editingName)
    ensures AllSpace(editingName) ==> FinishEdit(editingId, editingName, groups) != Closed(Some(Trim(editingName)))
  {
    TrimEmpty(editingName);
    if Truthy(editingId) && Trim(editingName) != "" {
      var original := FindGroupById(groups, editingId.value);
      if exists g :: g in groups && g.id == editingId.value && g.name != Trim(editingName) {
        var g :| g in groups && g.id == editingId.value && g.name != Trim(editingName);
        FirstMatchFound(groups, editingId.value, g);
      }
    }
  }

  /** The first group with an id is the one found; the screen renames that one. */
  lemma {:induction false} FirstMatchFound(groups: seq<Group>, id: string, g: Group)
    requires g in groups && g.id == id
    requires GroupIdsUnique(groups)
    ensures FindGroupById(groups, id) == Some(g)
  {
    if groups[0].id != id {
      FirstMatchFound(groups[1..], id, g);
    }
  }

  // ---------------------------------------------------------------------
  // Suggestions.

  /** An active student outside the group whose name contains the query, ignoring case. */
  predicate Addable(s: Student, query: string, groupId: string) {
    IsActive(s) && groupId !in s.groupIds && ContainsFolded(s.name, query)
  }

  /** The filter of availableStudents over the active students, before the slice. */
  function AddableOf(query: string, active: seq<Student>, groupId: string): seq<Student> {
    Filter(active, (s: Student) => Addable(s, query, groupId))
  }

  /** availableStudents: with a query, up to ten active students outside the group whose name contains it. */
  function AvailableStudents(query: string, active: seq<Student>, groupId: string): seq<Student> {
    if query == "" then [] else TakeFirst(AddableOf(query, active, groupId), 10)
  }

  /**
   * Without a query there is nothing to suggest.  With one, the suggestions
   * are the first ten addable active students in list order (all of them when
   * there are at most ten), and a student is addable exactly when it is
   * active, outside the group and its name contains the query.
   */
  lemma AvailableStudentsRules(query: string, students: seq<Student>, groupId: string)
    ensures var r := AvailableStudents(query, ActiveStudents(students), groupId);
      |r| <= 10 && (query == "" ==> r == [])
      && forall i :: 0 <= i < |r| ==> r[i] in students && Addable(r[i], query, groupId)
    ensures query != "" ==>
      var all := AddableOf(query, ActiveStudents(students), groupId);
      var r := AvailableStudents(query, ActiveStudents(students), groupId);
      r == all[..|r|]
      && |r| == (if |all| < 10 then |all| else 10)
      && (forall s :: s in all <==> s in students && Addable(s, query, groupId))
      && (|all| <= 10 ==> forall s :: s in students && Addable(s, query, groupId) ==> s in r)
  {
    var active := ActiveStudents(students);
    var r := AvailableStudents(query, active, groupId);
    if query != "" {
      var all := AddableOf(query, active, groupId);
      forall s ensures s in all <==> s in students && Addable(s, query, groupId) {
        FilterMembers(active, (s: Student) => Addable(s, query, groupId), s);
        FilterMembers(students, IsActive, s);
      }
      forall i | 0 <= i < |r| ensures r[i] in students && Addable(r[i], query, groupId) {
        assert r[i] == all[i];
        assert all[i] in all;
      }
    }
  }
}
