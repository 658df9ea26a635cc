/** Meetings as the scheduler sees them (Scheduler.DAL/Entities/Meeting.cs),
    the overlap test of the suggester and the participant query that both
    slot searches in Scheduler.BLL/Services/MeetingService.cs start from. */
module Meetings {

  /** A stored meeting: the half-open interval [start, end) in minutes and
      the user ids of its `MeetingParticipants`. */
  datatype Meeting = Meeting(start: int, end: int, participants: seq<int>)

  /** Minute `t` lies in the half-open interval [lo, hi). */
  predicate Within(t: int, lo: int, hi: int)
  {
    lo <= t < hi
  }

  /** The overlap test of lines 145-147: the window [slot, slot + duration)
      overlaps meeting `m`. For a non-empty window and meeting this is
      sharing a minute, so windows that only touch at an end point do not
      overlap. */
  predicate Overlaps(slot: int, duration: int, m: Meeting)
    ensures duration > 0 && m.start < m.end ==>
              (Overlaps(slot, duration, m) <==>
               exists t :: Within(t, slot, slot + duration) && Within(t, m.start, m.end))
  {
    var shared := if slot < m.start then m.start else slot;
    assert duration > 0 && m.start < m.end && slot < m.end && slot + duration > m.start ==>
             Within(shared, slot, slot + duration) && Within(shared, m.start, m.end);
    slot < m.end && slot + duration > m.start
  }

  /** No meeting of `meetings` overlaps [slot, slot + duration). */
  predicate Free(meetings: seq<Meeting>, slot: int, duration: int)
  {
    forall i :: 0 <= i < |meetings| ==> !Overlaps(slot, duration, meetings[i])
  }

  /** `m.MeetingParticipants.Any(mp => ids.Contains(mp.UserId))`: some user
      of the meeting is one of the requested ids. */
  predicate Involves(m: Meeting, ids: seq<int>)
  {
    exists j :: 0 <= j < |m.participants| && m.participants[j] in ids
  }

  /** The `Where` clause of the meeting query: the stored meetings that have
      at least one requested participant, in store order. */
  function FilterInvolving(store: seq<Meeting>, ids: seq<int>): (selected: seq<Meeting>)
    ensures forall m :: m in selected <==> m in store && Involves(m, ids)
    ensures |selected| <= |store|
  {
    if store == [] then []
    else
      var rest := FilterInvolving(store[1..], ids);
      assert forall m :: m in store <==> m == store[0] || m in store[1..];
      if Involves(store[0], ids) then [store[0]] + rest else rest
  }

  /** Every meeting starts no later than the meetings after it. */
  predicate SortedByStart(meetings: seq<Meeting>)
  {
    forall i, j :: 0 <= i < j < |meetings| ==> meetings[i].start <= meetings[j].start
  }

  /** Inserts `m` before the first meeting that starts at or after it. */
  function InsertByStart(m: Meeting, sorted: seq<Meeting>): (r: seq<Meeting>)
    requires SortedByStart(sorted)
    ensures SortedByStart(r)
    ensures multiset(r) == multiset(sorted) + multiset{m}
    ensures |r| == |sorted| + 1
    ensures r[0] == m || (sorted != [] && r[0] == sorted[0])
  {
    if sorted == [] || m.start <= sorted[0].start then
      [m] + sorted
    else
      var rest := InsertByStart(m, sorted[1..]);
      assert sorted[0].start <= rest[0].start;
      assert sorted == [sorted[0]] + sorted[1..];
      [sorted[0]] + rest
  }

  /** `OrderBy(m => m.StartTime)`: a sort on start time. Which of two
      meetings with the same start comes first is left unstated; neither
      scan depends on it. */
  function SortByStart(meetings: seq<Meeting>): (r: seq<Meeting>)
    ensures SortedByStart(r)
    ensures multiset(r) == multiset(meetings)
  {
    if meetings == [] then []
    else
      assert meetings == [meetings[0]] + meetings[1..];
      InsertByStart(meetings[0], SortByStart(meetings[1..]))
  }

  /** The meeting query of lines 31-34 and 135-138: the meetings with a
      requested participant, ordered by start. */
  function Selected(store: seq<Meeting>, ids: seq<int>): (selected: seq<Meeting>)
    ensures SortedByStart(selected)
    ensures forall m :: m in selected <==> m in store && Involves(m, ids)
  {
    var filtered := FilterInvolving(store, ids);
    var sorted := SortByStart(filtered);
    assert forall m :: m in sorted <==> m in multiset(filtered);
    sorted
  }

  /** Being free of the selected meetings is being free of every stored
      meeting that shares a participant with the request. */
  lemma FreeOfSelected(store: seq<Meeting>, ids: seq<int>, slot: int, duration: int)
    ensures Free(Selected(store, ids), slot, duration)
        <==> forall m :: m in store && Involves(m, ids) ==> !Overlaps(slot, duration, m)
  {
    var selected := Selected(store, ids);
    if Free(selected, slot, duration) {
      forall m | m in store && Involves(m, ids) ensures !Overlaps(slot, duration, m) {
        assert m in selected;
        var i :| 0 <= i < |selected| && selected[i] == m;
      }
    } else {
      var i :| 0 <= i < |selected| && Overlaps(slot, duration, selected[i]);
      assert selected[i] in store && Involves(selected[i], ids);
    }
  }

  /** With no requested participant nothing is selected. */
  lemma {:induction false} NothingSelectedWithoutParticipants(store: seq<Meeting>)
    ensures FilterInvolving(store, []) == []
    ensures Selected(store, []) == []
  {
    if store != [] {
      NothingSelectedWithoutParticipants(store[1..]);
    }
  }
}
