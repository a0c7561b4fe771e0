// The students screen: the filtered and sorted list of active students, its
// grouping by group (with the students without a group apart), and the
// record a save sends to the store.

module StudentsScreen {
  import opened Base
  import opened Types
  import opened Sorting
  import opened GroupsScreen

  // ---------------------------------------------------------------------
  // The list.

  /** A group filter is on unless it is empty or 'all'. */
  predicate GroupFilterOn(filterGroupId: string) {
    filterGroupId != "" && filterGroupId != "all"
  }

  predicate MatchesQuery(s: Student, query: string) {
    ContainsFolded(s.name, query) || ContainsFolded(s.parentName, query)
  }

  /** filteredAndSortedStudents: active students, maybe of one group, maybe matching the query, by name. */
  function FilteredAndSorted(students: seq<Student>, filterGroupId: string, query: string): seq<Student> {
    var active := ActiveStudents(students);
    var inGroup := if GroupFilterOn(filterGroupId) then Filter(active, (s: Student) => filterGroupId in s.groupIds) else active;
    var found := if query != "" then Filter(inGroup, (s: Student) => MatchesQuery(s, query)) else inGroup;
    SortByText(found, StudentName)
  }

  /**
   * A student is listed exactly when it is active, in the filtered group when
   * a filter is on, and its name or parent's name contains the query
   * (ignoring case) when there is one; the list is in name order.
   */
  lemma FilteredAndSortedRules(students: seq<Student>, filterGroupId: string, query: string)
    ensures forall s :: s in FilteredAndSorted(students, filterGroupId, query) <==>
      s in students && IsActive(s)
      && (GroupFilterOn(filterGroupId) ==> filterGroupId in s.groupIds)
      && (query != "" ==> MatchesQuery(s, query))
    ensures var r := FilteredAndSorted(students, filterGroupId, query);
      forall i, j :: 0 <= i < j < |r| ==> TextLe(r[i].name, r[j].name)
  {
    var active := ActiveStudents(students);
    var inGroup := if GroupFilterOn(filterGroupId) then Filter(active, (s: Student) => filterGroupId in s.groupIds) else active;
    var found := if query != "" then Filter(inGroup, (s: Student) => MatchesQuery(s, query)) else inGroup;
    forall s
      ensures s in FilteredAndSorted(students, filterGroupId, query) <==>
        s in students && IsActive(s)
        && (GroupFilterOn(filterGroupId) ==> filterGroupId in s.groupIds)
        && (query != "" ==> MatchesQuery(s, query))
    {
      SortByTextMembers(found, StudentName, s);
      FilterMembers(students, IsActive, s);
      FilterMembers(active, (s: Student) => filterGroupId in s.groupIds, s);
      FilterMembers(inGroup, (s: Student) => MatchesQuery(s, query), s);
    }
    SortByTextSorted(found, StudentName);
  }

  // ---------------------------------------------------------------------
  // Grouping the list.

  /** The list of group id: each student of the list once per occurrence of id in its group ids, in list order. */
  function Listed(list: seq<Student>, id: string): seq<Student> {
    if list == [] then []
    else Listed(list[..|list| - 1], id) + Repeat(list[|list| - 1], Count(list[|list| - 1].groupIds, id))
  }

  predicate NoGroups(s: Student) { |s.groupIds| == 0 }

  /** `groupMap.get(id) || ''`: the name of the last group row with the id (a Map keeps the last), or empty. */
  function GroupLabel(groups: seq<Group>, id: string): string {
    if groups == [] then ""
    else if groups[|groups| - 1].id == id then groups[|groups| - 1].name
    else GroupLabel(groups[..|groups| - 1], id)
  }

  predicate Distinct(ids: seq<string>) {
    forall i, j :: 0 <= i < j < |ids| ==> ids[i] != ids[j]
  }

  /** The group lists of the screen: keys in label order, one list per key, and the students without a group. */
  datatype Grouped = Grouped(order: seq<string>, byGroup: map<string, seq<Student>>, unassigned: seq<Student>)

  /**
   * groupedStudentsForDisplay: each student of the list is pushed into the
   * list of every group id it has (a list is created at the first push), or
   * into `unassigned` when it has none; the group ids are then ordered by
   * their names, and `unassigned` is emptied while a group filter is on.
   */
  method GroupedForDisplay(list: seq<Student>, groups: seq<Group>, filterGroupId: string) returns (g: Grouped)
    ensures forall id :: id in g.byGroup <==> Listed(list, id) != []
    ensures forall id :: id in g.byGroup ==> g.byGroup[id] == Listed(list, id)
    ensures Distinct(g.order) && forall id :: id in g.order <==> id in g.byGroup
    ensures forall i, j :: 0 <= i < j < |g.order| ==> TextLe(GroupLabel(groups, g.order[i]), GroupLabel(groups, g.order[j]))
    ensures g.unassigned == if GroupFilterOn(filterGroupId) then [] else Filter(list, NoGroups)
  {
    var byGroup: map<string, seq<Student>> := map[];
    var keys: seq<string> := [];
    var unassigned: seq<Student> := [];
    for i := 0 to |list|
      invariant forall id :: id in byGroup ==> byGroup[id] == Listed(list[..i], id) && byGroup[id] != []
      invariant forall id :: id !in byGroup ==> Listed(list[..i], id) == []
      invariant Distinct(keys) && forall id :: id in keys <==> id in byGroup
      invariant unassigned == Filter(list[..i], NoGroups)
    {
      var s := list[i];
      ListedStep(list, i);
      if |s.groupIds| == 0 {
        unassigned := unassigned + [s];
        forall id ensures Count(s.groupIds, id) == 0 { }
      } else {
        byGroup, keys := PushIntoGroups(byGroup, keys, s);
        forall id | id !in byGroup ensures Count(s.groupIds, id) == 0 {
          CountPositive(s.groupIds, id);
        }
      }
    }
    assert list[..|list|] == list;
    var order := SortByText(keys, (id: string) => GroupLabel(groups, id));
    SortedKeys(keys, groups);
    g := Grouped(order, byGroup, if GroupFilterOn(filterGroupId) then [] else unassigned);
  }

  lemma ListedStep(list: seq<Student>, i: int)
    requires 0 <= i < |list|
    ensures forall id :: Listed(list[..i + 1], id) == Listed(list[..i], id) + Repeat(list[i], Count(list[i].groupIds, id))
    ensures Filter(list[..i + 1], NoGroups) == Filter(list[..i], NoGroups) + (if NoGroups(list[i]) then [list[i]] else [])
  {
    assert list[..i + 1][..i] == list[..i];
  }

  /** Sorting the keys by label keeps them distinct and the same, in label order. */
  lemma SortedKeys(keys: seq<string>, groups: seq<Group>)
    requires Distinct(keys)
    ensures var order := SortByText(keys, (id: string) => GroupLabel(groups, id));
      Distinct(order) && (forall id :: id in order <==> id in keys)
      && forall i, j :: 0 <= i < j < |order| ==> TextLe(GroupLabel(groups, order[i]), GroupLabel(groups, order[j]))
  {
    var byLabel := (id: string) => GroupLabel(groups, id);
    var order := SortByText(keys, byLabel);
    forall id ensures id in order <==> id in keys {
      assert id in order <==> id in multiset(order);
      assert id in keys <==> id in multiset(keys);
    }
    DistinctMultiset(keys);
    DistinctMultiset(order);
    SortByTextSorted(keys, byLabel);
  }

  /** A sequence is distinct exactly when no element occurs twice in its multiset. */
  lemma {:induction false} DistinctMultiset(ids: seq<string>)
    ensures Distinct(ids) <==> forall x :: multiset(ids)[x] <= 1
  {
    if ids != [] {
      var init, last := ids[..|ids| - 1], ids[|ids| - 1];
      DistinctMultiset(init);
      assert ids == init + [last];
      if Distinct(ids) {
        assert last !in init;
        assert multiset(init)[last] == 0;
      } else {
        var i, j :| 0 <= i < j < |ids| && ids[i] == ids[j];
        if j < |ids| - 1 {
          assert init[i] == init[j];
          var x :| multiset(init)[x] > 1;
          assert multiset(ids)[x] >= multiset(init)[x];
        } else {
          assert ids[i] in init;
          assert multiset(ids)[last] == multiset(init)[last] + 1;
        }
      }
    }
  }

  /** One student's turn: pushed into the list of each of its group ids, creating missing lists in order. */
  method PushIntoGroups(byGroup: map<string, seq<Student>>, keys: seq<string>, s: Student)
    returns (r: map<string, seq<Student>>, rkeys: seq<string>)
    requires Distinct(keys) && forall id :: id in keys <==> id in byGroup
    requires forall id :: id in byGroup ==> byGroup[id] != []
    ensures Distinct(rkeys) && forall id :: id in rkeys <==> id in r
    ensures forall id :: id in r ==> r[id] != []
    ensures forall id :: id in r <==> id in byGroup || id in s.groupIds
    ensures forall id :: id in r ==>
      r[id] == (if id in byGroup then byGroup[id] else []) + Repeat(s, Count(s.groupIds, id))
  {
    r, rkeys := byGroup, keys;
    for j := 0 to |s.groupIds|
      invariant PushedSoFar(byGroup, r, rkeys, s, j)
    {
      var id := s.groupIds[j];
      if id in r {
        PushAgain(byGroup, r, rkeys, s, j);
        r := r[id := r[id] + [s]];
      } else {
        PushFirst(byGroup, r, rkeys, s, j);
        r := r[id := [s]];
        rkeys := rkeys + [id];
      }
    }
    assert s.groupIds[..|s.groupIds|] == s.groupIds;
  }

  /** The state after the first j group ids of s were handled. */
  ghost predicate PushedSoFar(byGroup: map<string, seq<Student>>, r: map<string, seq<Student>>, rkeys: seq<string>,
                        s: Student, j: int)
  {
    0 <= j <= |s.groupIds|
    && Distinct(rkeys) && (forall id :: id in rkeys <==> id in r)
    && (forall id :: id in r ==> r[id] != [])
    && (forall id :: id in r <==> id in byGroup || id in s.groupIds[..j])
    && (forall id :: id in r ==>
          r[id] == (if id in byGroup then byGroup[id] else []) + Repeat(s, Count(s.groupIds[..j], id)))
  }

  lemma PushAgain(byGroup: map<string, seq<Student>>, r: map<string, seq<Student>>, rkeys: seq<string>,
                  s: Student, j: int)
    requires j < |s.groupIds| && PushedSoFar(byGroup, r, rkeys, s, j) && s.groupIds[j] in r
    ensures PushedSoFar(byGroup, r[s.groupIds[j] := r[s.groupIds[j]] + [s]], rkeys, s, j + 1)
  {
    PushStep(s, j);
  }

  lemma PushFirst(byGroup: map<string, seq<Student>>, r: map<string, seq<Student>>, rkeys: seq<string>,
                  s: Student, j: int)
    requires j < |s.groupIds| && PushedSoFar(byGroup, r, rkeys, s, j) && s.groupIds[j] !in r
    ensures PushedSoFar(byGroup, r[s.groupIds[j] := [s]], rkeys + [s.groupIds[j]], s, j + 1)
  {
    var id := s.groupIds[j];
    PushStep(s, j);
    CountPositive(s.groupIds[..j], id);
    assert s.groupIds[..j + 1] == s.groupIds[..j] + [id];
  }

  /** A student is under group id exactly when it is in the list and has that id. */
  lemma {:induction false} ListedMembers(list: seq<Student>, id: string, s: Student)
    ensures s in Listed(list, id) <==> s in list && id in s.groupIds
  {
    if list != [] {
      var init, last := list[..|list| - 1], list[|list| - 1];
      ListedMembers(init, id, s);
      CountPositive(last.groupIds, id);
      assert list == init + [last];
    }
  }

  /**
   * Every listed student with groups appears under each of its group ids and
   * nowhere else; a student without groups appears only among the unassigned,
   * and only while no group filter is on.
   */
  lemma GroupingRules(list: seq<Student>, filterGroupId: string, s: Student, id: string)
    ensures s in Listed(list, id) <==> s in list && id in s.groupIds
    ensures s in list && NoGroups(s) && !GroupFilterOn(filterGroupId) ==> s in Filter(list, NoGroups)
    ensures s in Filter(list, NoGroups) ==> s in list && NoGroups(s)
  {
    ListedMembers(list, id, s);
    if s in list && NoGroups(s) {
      var k :| 0 <= k < |list| && list[k] == s;
    }
  }

  // ---------------------------------------------------------------------
  // Saving.

  /** The form's fields (the second phone is not part of this model). */
  datatype StudentForm = StudentForm(name: string, birthDate: string, parentName: string, parentPhone1: string,
                                     groupIds: seq<string>)

  /** The fields an update writes; balance, status and archive date are not among them. */
  datatype StudentUpdate = StudentUpdate(name: string, birthDate: Option<string>, parentName: string,
                                         parentPhone1: string, groupIds: seq<string>)

  datatype SaveCall = CreateStudent(draft: StudentDraft) | UpdateStudent(id: string, update: StudentUpdate)

  /** handleSave: without an id a new active student with balance 0, else an update of the form's fields. */
  function SaveStudent(id: Option<string>, f: StudentForm): SaveCall {
    var birth := if f.birthDate == "" then None else Some(f.birthDate);
    if !Truthy(id) then CreateStudent(StudentDraft(f.name, birth, f.parentName, f.parentPhone1, 0.0, Active, f.groupIds))
    else UpdateStudent(id.value, StudentUpdate(f.name, birth, f.parentName, f.parentPhone1, f.groupIds))
  }

  /**
   * A new student always starts active with a zero balance; an empty birth
   * date is stored as null and any other is kept; the other fields are the form's.
   */
  lemma SaveStudentRules(id: Option<string>, f: StudentForm)
    ensures SaveStudent(id, f).CreateStudent? <==> !Truthy(id)
    ensures var c := SaveStudent(id, f);
      c.CreateStudent? ==>
        c.draft.balance == 0.0 && c.draft.status == Active && c.draft.name == f.name && c.draft.groupIds == f.groupIds
        && (c.draft.birthDate.None? <==> f.birthDate == "")
        && (c.draft.birthDate.Some? ==> c.draft.birthDate.value == f.birthDate)
        && c.draft.parentName == f.parentName && c.draft.parentPhone1 == f.parentPhone1
    ensures var c := SaveStudent(id, f);
      c.UpdateStudent? ==>
        c.id == id.value && c.update.name == f.name && c.update.groupIds == f.groupIds
        && (c.update.birthDate.None? <==> f.birthDate == "")
        && (c.update.birthDate.Some? ==> c.update.birthDate.value == f.birthDate)
        && c.update.parentName == f.parentName && c.update.parentPhone1 == f.parentPhone1
  {
  }
}
