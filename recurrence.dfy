// allVisibleEvents: every stored event becomes its own display instance,
// and a weekly event also yields 52 generated occurrences, each seven
// calendar days after the previous one and each joined to its exception
// (if any) through the occurrence key.

module Recurrence {
  import opened Base
  import opened Calendar
  import opened Types
  import opened OccurrenceKey

  /** Number of weekly occurrences generated after the stored one (one year). */
  const Horizon: nat := 52

  /** The text the exceptions map is keyed by: `${original_event_id}-${original_start_time}`. */
  function ExceptionMapKey(ex: ScheduleEventException): string {
    ex.originalEventId + "-" + ex.originalStartTime
  }

  /** The text an occurrence is looked up by: `${event.id}-${occurrenceKey}`. */
  function LookupKey(eventId: string, occurrenceKey: string): string {
    eventId + "-" + occurrenceKey
  }

  /**
   * `new Map(exceptions.map(ex => [key(ex), ex])).get(k)`: when several exceptions
   * share a key the last one wins.
   */
  function LookupException(exs: seq<ScheduleEventException>, k: string): (r: Option<ScheduleEventException>)
    ensures r.None? <==> forall i :: 0 <= i < |exs| ==> ExceptionMapKey(exs[i]) != k
    ensures r.Some? ==> r.value in exs && ExceptionMapKey(r.value) == k
  {
    if exs == [] then None
    else if ExceptionMapKey(exs[|exs| - 1]) == k then Some(exs[|exs| - 1])
    else LookupException(exs[..|exs| - 1], k)
  }

  predicate HasValidTimes(ev: ScheduleEvent) {
    ev.start.At? && ev.end.At?
  }

  // The expansion is written for any occurrence-key function keyOf; the
  // screens use KeyOf (getOccurrenceKey), which separates minutes
  // (OccurrenceKey.KeyOfSeparatesMinutes), and that is all the properties
  // below need of it.

  /** The stored event itself, as the calendar shows it. */
  function BaseInstance(ev: ScheduleEvent, keyOf: int -> string): DisplayEvent
    requires HasValidTimes(ev)
  {
    DisplayEvent(ev.id, ev.title, ev.groupId, ev.start.ms, ev.end.ms, ev.isRecurring,
                 ev.id, false, keyOf(ev.start.ms), None)
  }

  /** Where occurrence i would start without an exception: i weeks after the stored start. */
  function OccurrenceStart(ev: ScheduleEvent, i: int): int
    requires HasValidTimes(ev)
  {
    ev.start.ms + i * WeekMs
  }

  /** `${event.id}-recur-${i}` */
  function OccurrenceId(eventId: string, i: nat): string {
    eventId + "-recur-" + NatString(i)
  }

  /**
   * The display instance of a generated occurrence, given its index, its planned
   * start and the exception found for it: None when the exception deletes it or
   * its final start or end is unreadable.
   */
  function Instance(ev: ScheduleEvent, i: nat, planned: int, key: string, ex: Option<ScheduleEventException>): Option<DisplayEvent>
    requires HasValidTimes(ev)
  {
    if ex.Some? && ex.value.isDeleted then None
    else
      var finalStart := if ex.Some? && ex.value.newStartTime.Some? then ex.value.newStartTime.value else At(planned);
      if finalStart.InvalidDate? then None
      else
        var finalEnd :=
          if ex.Some? && ex.value.newEndTime.Some? then ex.value.newEndTime.value
          else At(finalStart.ms + (ev.end.ms - ev.start.ms));
        if finalEnd.InvalidDate? then None
        else Some(DisplayEvent(
          OccurrenceId(ev.id, i),
          if ex.Some? && Truthy(ex.value.newTitle) then ex.value.newTitle.value else ev.title,
          if ex.Some? && ex.value.newGroupId.Some? then ex.value.newGroupId.value else ev.groupId,
          finalStart.ms, finalEnd.ms, ev.isRecurring, ev.id, true, key, ex))
  }

  /** Occurrence i of a weekly event, joined to its exception through its key; None when suppressed. */
  function Occurrence(ev: ScheduleEvent, exs: seq<ScheduleEventException>, i: nat, keyOf: int -> string): Option<DisplayEvent>
    requires HasValidTimes(ev)
  {
    var planned := OccurrenceStart(ev, i);
    var key := keyOf(planned);
    Instance(ev, i, planned, key, LookupException(exs, LookupKey(ev.id, key)))
  }

  function AsSeq(o: Option<DisplayEvent>): seq<DisplayEvent> {
    if o.Some? then [o.value] else []
  }

  /** Occurrences 1..n of a weekly event, in order, suppressed ones left out. */
  function Occurrences(ev: ScheduleEvent, exs: seq<ScheduleEventException>, n: nat, keyOf: int -> string): seq<DisplayEvent>
    requires HasValidTimes(ev)
  {
    if n == 0 then [] else Occurrences(ev, exs, n - 1, keyOf) + AsSeq(Occurrence(ev, exs, n, keyOf))
  }

  /** The display instances of one stored event. */
  function Expand(ev: ScheduleEvent, exs: seq<ScheduleEventException>, keyOf: int -> string): seq<DisplayEvent> {
    if !HasValidTimes(ev) then []
    else [BaseInstance(ev, keyOf)] + (if ev.isRecurring then Occurrences(ev, exs, Horizon, keyOf) else [])
  }

  /** The display instances of all stored events, event by event. */
  function AllVisible(events: seq<ScheduleEvent>, exs: seq<ScheduleEventException>, keyOf: int -> string): seq<DisplayEvent> {
    if events == [] then []
    else AllVisible(events[..|events| - 1], exs, keyOf) + Expand(events[|events| - 1], exs, keyOf)
  }

  /** Builds the exceptions map: each key holds the last exception with that key. */
  method BuildExceptionMap(exs: seq<ScheduleEventException>) returns (m: map<string, ScheduleEventException>)
    ensures forall k :: LookupException(exs, k) == (if k in m then Some(m[k]) else None)
  {
    m := map[];
    var j := 0;
    while j < |exs|
      invariant 0 <= j <= |exs|
      invariant forall k :: LookupException(exs[..j], k) == (if k in m then Some(m[k]) else None)
    {
      assert exs[..j + 1][..j] == exs[..j];
      m := m[ExceptionMapKey(exs[j]) := exs[j]];
      j := j + 1;
    }
    assert exs[..j] == exs;
  }

  /**
   * The 52 weekly occurrences of one readable recurring event, as the loop of
   * allVisibleEvents builds them (keyOf is getOccurrenceKey).
   */
  method WeeklyOccurrences(event: ScheduleEvent, exs: seq<ScheduleEventException>,
                           exceptionsMap: map<string, ScheduleEventException>, keyOf: int -> string)
    returns (occ: seq<DisplayEvent>)
    requires HasValidTimes(event)
    requires forall k :: LookupException(exs, k) == (if k in exceptionsMap then Some(exceptionsMap[k]) else None)
    ensures occ == Occurrences(event, exs, Horizon, keyOf)
  {
    var startMs := event.start.ms;
    var duration := event.end.ms - startMs;
    var nextDate := startMs;
    occ := [];
    var i := 1;
    while i <= Horizon
      invariant 1 <= i <= Horizon + 1
      invariant nextDate == OccurrenceStart(event, i - 1)
      invariant occ == Occurrences(event, exs, i - 1, keyOf)
    {
      nextDate := nextDate + WeekMs;
      var occurrenceKey := keyOf(nextDate);
      var lookup := LookupKey(event.id, occurrenceKey);
      var exception := if lookup in exceptionsMap then Some(exceptionsMap[lookup]) else None;
      ghost var expected := Instance(event, i, nextDate, occurrenceKey, exception);
      assert Occurrences(event, exs, i, keyOf) == occ + AsSeq(expected) by {
        assert exception == LookupException(exs, lookup);
        assert nextDate == OccurrenceStart(event, i);
      }
      if exception.Some? && exception.value.isDeleted {
        assert expected == None;
        i := i + 1;
        continue;
      }
      var finalStart := if exception.Some? && exception.value.newStartTime.Some?
                        then exception.value.newStartTime.value else At(nextDate);
      if finalStart.InvalidDate? {
        assert expected == None;
        i := i + 1;
        continue;
      }
      var finalEnd := if exception.Some? && exception.value.newEndTime.Some?
                      then exception.value.newEndTime.value else At(finalStart.ms + duration);
      if finalEnd.InvalidDate? {
        assert expected == None;
        i := i + 1;
        continue;
      }
      var title := if exception.Some? && Truthy(exception.value.newTitle) then exception.value.newTitle.value else event.title;
      var groupId := if exception.Some? && exception.value.newGroupId.Some? then exception.value.newGroupId.value else event.groupId;
      var instance := DisplayEvent(OccurrenceId(event.id, i), title, groupId,
        finalStart.ms, finalEnd.ms, event.isRecurring, event.id, true, occurrenceKey, exception);
      InstanceShown(event, i, nextDate, occurrenceKey, exception, finalStart, finalEnd);
      occ := occ + [instance];
      i := i + 1;
    }
  }

  /** An occurrence that is not deleted and whose final start and end are readable is shown with them. */
  lemma InstanceShown(ev: ScheduleEvent, i: nat, planned: int, key: string, ex: Option<ScheduleEventException>,
                      finalStart: DateValue, finalEnd: DateValue)
    requires HasValidTimes(ev)
    requires !(ex.Some? && ex.value.isDeleted)
    requires finalStart == if ex.Some? && ex.value.newStartTime.Some? then ex.value.newStartTime.value else At(planned)
    requires finalStart.At?
    requires finalEnd == if ex.Some? && ex.value.newEndTime.Some? then ex.value.newEndTime.value
                         else At(finalStart.ms + (ev.end.ms - ev.start.ms))
    requires finalEnd.At?
    ensures Instance(ev, i, planned, key, ex) == Some(DisplayEvent(
      OccurrenceId(ev.id, i),
      if ex.Some? && Truthy(ex.value.newTitle) then ex.value.newTitle.value else ev.title,
      if ex.Some? && ex.value.newGroupId.Some? then ex.value.newGroupId.value else ev.groupId,
      finalStart.ms, finalEnd.ms, ev.isRecurring, ev.id, true, key, ex))
  {
  }

  /** The display instances of one stored event, as one pass of the forEach of allVisibleEvents builds them. */
  method EventInstances(event: ScheduleEvent, exs: seq<ScheduleEventException>,
                        exceptionsMap: map<string, ScheduleEventException>, keyOf: int -> string)
    returns (instances: seq<DisplayEvent>)
    requires forall k :: LookupException(exs, k) == (if k in exceptionsMap then Some(exceptionsMap[k]) else None)
    ensures instances == Expand(event, exs, keyOf)
  {
    instances := [];
    if event.start.InvalidDate? || event.end.InvalidDate? {
      return;
    }
    instances := [BaseInstance(event, keyOf)];
    if event.isRecurring {
      var occ := WeeklyOccurrences(event, exs, exceptionsMap, keyOf);
      instances := instances + occ;
    }
  }

  /** allVisibleEvents: every readable stored event, each followed by its weekly occurrences when recurring. */
  method AllVisibleEvents(events: seq<ScheduleEvent>, exs: seq<ScheduleEventException>)
    returns (all: seq<DisplayEvent>)
    ensures all == AllVisible(events, exs, KeyOf)
  {
    var exceptionsMap := BuildExceptionMap(exs);
    all := [];
    var k := 0;
    while k < |events|
      invariant 0 <= k <= |events|
      invariant all == AllVisible(events[..k], exs, KeyOf)
    {
      assert events[..k + 1][..k] == events[..k];
      var instances := EventInstances(events[k], exs, exceptionsMap, KeyOf);
      all := all + instances;
      k := k + 1;
    }
    assert events[..k] == events;
  }

  // ---------------------------------------------------------------------
  // Properties.

  lemma {:induction false} OccurrencesShape(ev: ScheduleEvent, exs: seq<ScheduleEventException>, n: nat, keyOf: int -> string)
    requires HasValidTimes(ev)
    ensures |Occurrences(ev, exs, n, keyOf)| <= n
    ensures forall d :: d in Occurrences(ev, exs, n, keyOf) ==> d.isVirtual && d.originalId == ev.id
    decreases n
  {
    if n > 0 {
      OccurrencesShape(ev, exs, n - 1, keyOf);
    }
  }

  /**
   * An event with a missing or unreadable start or end shows nothing; a readable
   * one shows itself first, unchanged by any exception, then at most 52 generated
   * occurrences, and none when it is not recurring.
   */
  lemma ExpandShape(ev: ScheduleEvent, exs: seq<ScheduleEventException>, keyOf: int -> string)
    ensures !HasValidTimes(ev) ==> Expand(ev, exs, keyOf) == []
    ensures HasValidTimes(ev) ==>
      var r := Expand(ev, exs, keyOf);
      1 <= |r| <= Horizon + 1
      && r[0] == BaseInstance(ev, keyOf) && !r[0].isVirtual && r[0].originalId == ev.id
      && r[0].occurrenceKey == keyOf(ev.start.ms)
      && (forall k :: 1 <= k < |r| ==> r[k].isVirtual && r[k].originalId == ev.id)
      && (!ev.isRecurring ==> |r| == 1)
  {
    if HasValidTimes(ev) && ev.isRecurring {
      OccurrencesShape(ev, exs, Horizon, keyOf);
      var r := Expand(ev, exs, keyOf);
      forall k | 1 <= k < |r| ensures r[k].isVirtual && r[k].originalId == ev.id {
        assert r[k] in Occurrences(ev, exs, Horizon, keyOf);
      }
    }
  }

  /** The occurrence that no exception touches. */
  function PlainOccurrence(ev: ScheduleEvent, i: nat, keyOf: int -> string): DisplayEvent
    requires HasValidTimes(ev)
  {
    DisplayEvent(OccurrenceId(ev.id, i), ev.title, ev.groupId,
                 OccurrenceStart(ev, i), OccurrenceStart(ev, i) + (ev.end.ms - ev.start.ms),
                 ev.isRecurring, ev.id, true, keyOf(OccurrenceStart(ev, i)), None)
  }

  lemma {:induction false} OccurrencesWithoutExceptions(ev: ScheduleEvent, n: nat, keyOf: int -> string)
    requires HasValidTimes(ev)
    ensures |Occurrences(ev, [], n, keyOf)| == n
    ensures forall i :: 0 <= i < n ==> Occurrences(ev, [], n, keyOf)[i] == PlainOccurrence(ev, i + 1, keyOf)
    decreases n
  {
    if n > 0 {
      OccurrencesWithoutExceptions(ev, n - 1, keyOf);
    }
  }

  /**
   * With no exceptions a recurring event shows 53 instances: itself, then for
   * i = 1..52 the occurrence `${id}-recur-${i}` starting i weeks later with the
   * same duration, keyed by its own start.
   */
  lemma RecurringWithoutExceptions(ev: ScheduleEvent, keyOf: int -> string)
    requires HasValidTimes(ev) && ev.isRecurring
    ensures |Expand(ev, [], keyOf)| == Horizon + 1
    ensures forall i :: 1 <= i <= Horizon ==>
      var d := Expand(ev, [], keyOf)[i];
      d.id == OccurrenceId(ev.id, i) && d.start == ev.start.ms + i * WeekMs
      && d.end - d.start == ev.end.ms - ev.start.ms && d.isVirtual
      && d.occurrenceKey == keyOf(d.start) && d.title == ev.title && d.groupId == ev.groupId
  {
    var plain := Occurrences(ev, [], Horizon, keyOf);
    OccurrencesWithoutExceptions(ev, Horizon, keyOf);
    assert Expand(ev, [], keyOf) == [BaseInstance(ev, keyOf)] + plain;
    forall i | 1 <= i <= Horizon
      ensures Expand(ev, [], keyOf)[i] == PlainOccurrence(ev, i, keyOf)
    {
      assert Expand(ev, [], keyOf)[i] == plain[i - 1];
    }
  }

  /** Occurrences of one series fall in different minutes, so their keys differ. */
  lemma OccurrenceKeysDistinct(ev: ScheduleEvent, i: nat, j: nat, keyOf: int -> string)
    requires HasValidTimes(ev) && i != j
    requires SeparatesMinutes(keyOf)
    ensures keyOf(OccurrenceStart(ev, i)) != keyOf(OccurrenceStart(ev, j))
  {
    var s := ev.start.ms;
    assert MinuteNumber(s + i * WeekMs) == MinuteNumber(s) + i * 10080;
    assert MinuteNumber(s + j * WeekMs) == MinuteNumber(s) + j * 10080;
  }

  /** The occurrence ids of one series are distinct. */
  lemma OccurrenceIdsDistinct(eventId: string, i: nat, j: nat)
    requires i != j
    ensures OccurrenceId(eventId, i) != OccurrenceId(eventId, j)
  {
    if OccurrenceId(eventId, i) == OccurrenceId(eventId, j) {
      var p := eventId + "-recur-";
      assert NatString(i) == OccurrenceId(eventId, i)[|p|..];
      assert NatString(j) == OccurrenceId(eventId, j)[|p|..];
      NatStringInjective(i, j);
    }
  }

  /** The exception that deletes the occurrence starting at `planned`. */
  function DeletionAt(ev: ScheduleEvent, planned: int, keyOf: int -> string): ScheduleEventException {
    ScheduleEventException(ev.id, keyOf(planned), None, None, None, None, true)
  }

  lemma LookupAppended(exs: seq<ScheduleEventException>, ex: ScheduleEventException, k: string)
    ensures LookupException(exs + [ex], k) ==
      if ExceptionMapKey(ex) == k then Some(ex) else LookupException(exs, k)
  {
    assert (exs + [ex])[..|exs|] == exs;
  }

  /** An exception for occurrence k of a series is not found under the key of another occurrence j. */
  lemma OtherOccurrenceKey(ev: ScheduleEvent, ex: ScheduleEventException, k: nat, j: nat, keyOf: int -> string)
    requires HasValidTimes(ev) && SeparatesMinutes(keyOf) && j != k
    requires ex.originalEventId == ev.id && ex.originalStartTime == keyOf(OccurrenceStart(ev, k))
    ensures ExceptionMapKey(ex) != LookupKey(ev.id, keyOf(OccurrenceStart(ev, j)))
  {
    OccurrenceKeysDistinct(ev, j, k, keyOf);
    ConcatCancel(ev.id + "-", keyOf(OccurrenceStart(ev, k)), keyOf(OccurrenceStart(ev, j)));
  }

  /**
   * Adding the deletion exception of occurrence k suppresses occurrence k and
   * leaves every other occurrence exactly as it was.
   */
  lemma DeletionSuppressesOnlyItsOccurrence(ev: ScheduleEvent, exs: seq<ScheduleEventException>, k: nat, j: nat,
                                            keyOf: int -> string)
    requires HasValidTimes(ev) && SeparatesMinutes(keyOf)
    ensures Occurrence(ev, exs + [DeletionAt(ev, OccurrenceStart(ev, k), keyOf)], j, keyOf) ==
      if j == k then None else Occurrence(ev, exs, j, keyOf)
  {
    var del := DeletionAt(ev, OccurrenceStart(ev, k), keyOf);
    LookupAppended(exs, del, LookupKey(ev.id, keyOf(OccurrenceStart(ev, j))));
    if j != k {
      OtherOccurrenceKey(ev, del, k, j, keyOf);
    }
  }

  lemma {:induction false} OccurrencesAfterDeletion(ev: ScheduleEvent, k: nat, n: nat, keyOf: int -> string)
    requires HasValidTimes(ev) && SeparatesMinutes(keyOf) && 1 <= k
    ensures |Occurrences(ev, [], n, keyOf)| == n
    ensures Occurrences(ev, [DeletionAt(ev, OccurrenceStart(ev, k), keyOf)], n, keyOf) ==
      if n < k then Occurrences(ev, [], n, keyOf)
      else Occurrences(ev, [], n, keyOf)[..k - 1] + Occurrences(ev, [], n, keyOf)[k..]
    decreases n
  {
    var del := DeletionAt(ev, OccurrenceStart(ev, k), keyOf);
    PlainOccurrencesLength(ev, n, keyOf);
    if n > 0 {
      var prev := Occurrences(ev, [], n - 1, keyOf);
      var last := AsSeq(Occurrence(ev, [], n, keyOf));
      assert Occurrences(ev, [del], n, keyOf)
        == Occurrences(ev, [del], n - 1, keyOf) + (if n == k then [] else last) by {
        DeletionSuppressesOnlyItsOccurrence(ev, [], k, n, keyOf);
        assert [] + [del] == [del];
      }
      assert |last| == 1 by {
        assert Occurrence(ev, [], n, keyOf).Some?;
      }
      OccurrencesAfterDeletion(ev, k, n - 1, keyOf);
      if n >= k {
        DropAppended(prev, last, k);
      }
    }
  }

  lemma {:induction false} PlainOccurrencesLength(ev: ScheduleEvent, n: nat, keyOf: int -> string)
    requires HasValidTimes(ev)
    ensures |Occurrences(ev, [], n, keyOf)| == n
    decreases n
  {
    if n > 0 {
      PlainOccurrencesLength(ev, n - 1, keyOf);
      assert Occurrence(ev, [], n, keyOf).Some?;
    }
  }

  /** Dropping element k - 1 of a sequence grown by `last`, when the old one had k - 1 elements or more. */
  lemma DropAppended<T>(prev: seq<T>, last: seq<T>, k: nat)
    requires |last| == 1 && 1 <= k <= |prev| + 1
    ensures (prev + last)[..k - 1] + (prev + last)[k..]
      == if k == |prev| + 1 then prev else prev[..k - 1] + prev[k..] + last
  {
    if k <= |prev| {
      assert (prev + last)[..k - 1] == prev[..k - 1];
      assert (prev + last)[k..] == prev[k..] + last;
    } else {
      assert (prev + last)[..k - 1] == prev;
    }
  }

  /**
   * A weekly event with only the deletion exception of occurrence k (1..52)
   * shows the same instances as without it, minus occurrence k.
   */
  lemma DeletionRemovesExactlyOne(ev: ScheduleEvent, k: nat, keyOf: int -> string)
    requires HasValidTimes(ev) && ev.isRecurring && SeparatesMinutes(keyOf) && 1 <= k <= Horizon
    ensures |Expand(ev, [], keyOf)| == Horizon + 1
    ensures Expand(ev, [DeletionAt(ev, OccurrenceStart(ev, k), keyOf)], keyOf) ==
      Expand(ev, [], keyOf)[..k] + Expand(ev, [], keyOf)[k + 1..]
  {
    OccurrencesAfterDeletion(ev, k, Horizon, keyOf);
    var plain := Occurrences(ev, [], Horizon, keyOf);
    var e := Expand(ev, [], keyOf);
    assert e == [BaseInstance(ev, keyOf)] + plain;
    assert e[..k] == [BaseInstance(ev, keyOf)] + plain[..k - 1];
    assert e[k + 1..] == plain[k..];
  }

  /**
   * An override exception for occurrence k: the title is replaced only by a
   * non-empty new title, the group whenever the new group is given (null
   * included), the start by the new start, and the end by the new end or else
   * by the new start plus the series' duration.  Other occurrences are untouched.
   */
  lemma OverrideRules(ev: ScheduleEvent, exs: seq<ScheduleEventException>, k: nat, ex: ScheduleEventException, j: nat,
                      keyOf: int -> string)
    requires HasValidTimes(ev) && SeparatesMinutes(keyOf)
    requires ex.originalEventId == ev.id && ex.originalStartTime == keyOf(OccurrenceStart(ev, k))
    requires !ex.isDeleted
    requires ex.newStartTime.Some? ==> ex.newStartTime.value.At?
    requires ex.newEndTime.Some? ==> ex.newEndTime.value.At?
    ensures j != k ==> Occurrence(ev, exs + [ex], j, keyOf) == Occurrence(ev, exs, j, keyOf)
    ensures j == k ==>
      var start := if ex.newStartTime.Some? then ex.newStartTime.value.ms else OccurrenceStart(ev, k);
      Occurrence(ev, exs + [ex], j, keyOf) == Some(DisplayEvent(
        OccurrenceId(ev.id, k),
        if Truthy(ex.newTitle) then ex.newTitle.value else ev.title,
        if ex.newGroupId.Some? then ex.newGroupId.value else ev.groupId,
        start,
        if ex.newEndTime.Some? then ex.newEndTime.value.ms else start + (ev.end.ms - ev.start.ms),
        ev.isRecurring, ev.id, true, keyOf(OccurrenceStart(ev, k)), Some(ex)))
  {
    LookupAppended(exs, ex, LookupKey(ev.id, keyOf(OccurrenceStart(ev, j))));
    if j != k {
      OtherOccurrenceKey(ev, ex, k, j, keyOf);
    }
  }
}
