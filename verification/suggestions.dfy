/** The loop of `SuggestAvailableSlotsAsync`
    (Scheduler.BLL/Services/MeetingService.cs:140-157): a cursor steps from
    EarliestStart by DurationMinutes, keeping every position whose window
    overlaps no selected meeting, until the window is left or enough
    suggestions are found. On a conflict the cursor still advances by one
    duration step. */
module SlotSuggestions {
  import opened Wrappers
  import opened Meetings
  import EarliestSlot

  /** `t` is one of the positions earliestStart, earliestStart + step, ... */
  predicate OnGrid(t: int, origin: int, step: int)
    requires step > 0
  {
    origin <= t && (t - origin) % step == 0
  }

  /** A position the loop would accept: on the grid, ending by `latestEnd`
      and overlapping no meeting. */
  predicate IsCandidate(meetings: seq<Meeting>, earliestStart: int, duration: int, latestEnd: int, t: int)
    requires duration > 0
  {
    OnGrid(t, earliestStart, duration) && t + duration <= latestEnd && Free(meetings, t, duration)
  }

  /** What the loop returns, stated without the loop: at most
      `maxSuggestions` candidates, in increasing order with windows that do
      not overlap one another, and no candidate skipped, neither below the
      last suggestion nor at all when fewer than `maxSuggestions` were
      found. */
  ghost predicate IsSuggestionList(meetings: seq<Meeting>, earliestStart: int, duration: int, latestEnd: int,
                                   maxSuggestions: int, suggestions: seq<int>)
    requires duration > 0
  {
    && |suggestions| <= (if maxSuggestions < 0 then 0 else maxSuggestions)
    && (forall i :: 0 <= i < |suggestions| ==> IsCandidate(meetings, earliestStart, duration, latestEnd, suggestions[i]))
    && (forall i, j :: 0 <= i < j < |suggestions| ==> suggestions[i] + duration <= suggestions[j])
    && (forall t :: IsCandidate(meetings, earliestStart, duration, latestEnd, t)
          && (|suggestions| < maxSuggestions || (suggestions != [] && t < suggestions[|suggestions| - 1]))
          ==> t in suggestions)
  }

  /** The sign of a product with a positive factor. */
  lemma MulSign(k: int, step: int)
    requires step > 0
    ensures k >= 1 ==> step * k >= step
    ensures k <= -1 ==> step * k <= -step
  {
  }

  /** Multiples of `step` leave no remainder. */
  lemma MulMod(k: int, step: int)
    requires step > 0
    ensures (step * k) % step == 0
  {
    var x := step * k;
    var e := k - x / step;
    assert x == step * (x / step) + x % step;
    assert step * e == x % step;
    MulSign(e, step);
  }

  /** Two grid positions less than one step apart are the same position. */
  lemma GridSpacing(origin: int, step: int, a: int, b: int)
    requires step > 0
    requires OnGrid(a, origin, step) && OnGrid(b, origin, step)
    requires a <= b < a + step
    ensures a == b
  {
    var qa, qb := (a - origin) / step, (b - origin) / step;
    assert a - origin == step * qa;
    assert b - origin == step * qb;
    assert b - a == step * (qb - qa);
    MulSign(qb - qa, step);
  }

  /** One step from a grid position is a grid position. */
  lemma GridStep(origin: int, step: int, a: int)
    requires step > 0
    requires OnGrid(a, origin, step)
    ensures OnGrid(a + step, origin, step)
  {
    var q := (a - origin) / step;
    assert a - origin == step * q;
    assert a + step - origin == step * (q + 1);
    MulMod(q + 1, step);
  }

  /** Lines 140-157. `meetings` are the selected meetings; their order does
      not matter here. The source's loop only terminates for a positive
      duration. */
  method ScanSuggestions(meetings: seq<Meeting>, earliestStart: int, duration: int, latestEnd: int,
                         maxSuggestions: int)
    returns (suggestions: seq<int>)
    requires duration > 0
    ensures IsSuggestionList(meetings, earliestStart, duration, latestEnd, maxSuggestions, suggestions)
  {
    suggestions := [];
    var cursor := earliestStart;
    assert (cursor - earliestStart) % duration == 0;
    while cursor + duration <= latestEnd && |suggestions| < maxSuggestions
      invariant OnGrid(cursor, earliestStart, duration)
      invariant |suggestions| <= (if maxSuggestions < 0 then 0 else maxSuggestions)
      invariant forall i :: 0 <= i < |suggestions| ==> IsCandidate(meetings, earliestStart, duration, latestEnd, suggestions[i])
      invariant forall i, j :: 0 <= i < j < |suggestions| ==> suggestions[i] + duration <= suggestions[j]
      // every suggestion's window ends by the cursor
      invariant forall i :: 0 <= i < |suggestions| ==> suggestions[i] + duration <= cursor
      // every candidate before the cursor has been kept
      invariant forall t :: IsCandidate(meetings, earliestStart, duration, latestEnd, t) && t < cursor ==> t in suggestions
      decreases latestEnd - cursor
    {
      var isOverlapping := !Free(meetings, cursor, duration);
      if !isOverlapping {
        suggestions := suggestions + [cursor];
      }
      forall t | IsCandidate(meetings, earliestStart, duration, latestEnd, t) && t < cursor + duration
        ensures t in suggestions
      {
        if cursor <= t {
          GridSpacing(earliestStart, duration, cursor, t);
        }
      }
      GridStep(earliestStart, duration, cursor);
      cursor := cursor + duration;
    }
  }

  /** The list is strictly increasing and every suggestion lies inside
      [earliestStart, latestEnd]. */
  lemma SuggestionsIncreaseInsideWindow(meetings: seq<Meeting>, earliestStart: int, duration: int, latestEnd: int,
                                        maxSuggestions: int, suggestions: seq<int>)
    requires duration > 0
    requires IsSuggestionList(meetings, earliestStart, duration, latestEnd, maxSuggestions, suggestions)
    ensures forall i, j :: 0 <= i < j < |suggestions| ==> suggestions[i] < suggestions[j]
    ensures forall i :: 0 <= i < |suggestions| ==>
              earliestStart <= suggestions[i] && suggestions[i] + duration <= latestEnd
  {
  }

  /** A meeting that covers the whole window leaves no suggestion. */
  lemma CoveredWindowHasNoSuggestions(meetings: seq<Meeting>, earliestStart: int, duration: int, latestEnd: int,
                                      maxSuggestions: int, suggestions: seq<int>, k: int)
    requires duration > 0
    requires IsSuggestionList(meetings, earliestStart, duration, latestEnd, maxSuggestions, suggestions)
    requires 0 <= k < |meetings| && meetings[k].start <= earliestStart && latestEnd <= meetings[k].end
    ensures suggestions == []
  {
    assert suggestions != [] ==> IsCandidate(meetings, earliestStart, duration, latestEnd, suggestions[0]);
    forall t ensures !IsCandidate(meetings, earliestStart, duration, latestEnd, t) {
      if OnGrid(t, earliestStart, duration) && t + duration <= latestEnd {
        assert Overlaps(t, duration, meetings[k]);
      }
    }
  }

  /** Suggestions are free windows inside [earliestStart, latestEnd], so when
      the earliest-slot sweep finds nothing the suggester finds nothing
      either, and otherwise no suggestion precedes the earliest slot. */
  lemma SuggestionsFollowEarliestSlot(meetings: seq<Meeting>, earliestStart: int, duration: int, latestEnd: int,
                                      maxSuggestions: int, suggestions: seq<int>, slot: Option<int>)
    requires duration > 0
    requires IsSuggestionList(meetings, earliestStart, duration, latestEnd, maxSuggestions, suggestions)
    requires EarliestSlot.IsEarliestSlot(meetings, earliestStart, duration, latestEnd, slot)
    ensures slot.None? ==> suggestions == []
    ensures slot.Some? ==> forall i :: 0 <= i < |suggestions| ==> slot.value <= suggestions[i]
  {
    forall i | 0 <= i < |suggestions| ensures slot.Some? && slot.value <= suggestions[i] {
      EarliestSlot.FreeWindowIsFound(meetings, earliestStart, duration, latestEnd, slot, suggestions[i]);
    }
    if suggestions != [] {
      EarliestSlot.FreeWindowIsFound(meetings, earliestStart, duration, latestEnd, slot, suggestions[0]);
    }
  }

  /** A busy 09:00-10:00, a 09:00-12:00 window, 60 minutes and at most two
      suggestions give 10:00 and 11:00. */
  lemma TwoSuggestionsAfterBusyHour(suggestions: seq<int>)
    requires IsSuggestionList([Meeting(540, 600, [1])], 540, 60, 720, 2, suggestions)
    ensures suggestions == [600, 660]
  {
    var meetings := [Meeting(540, 600, [1])];
    assert IsCandidate(meetings, 540, 60, 720, 600);
    assert IsCandidate(meetings, 540, 60, 720, 660);
    forall i | 0 <= i < |suggestions| ensures suggestions[i] == 600 || suggestions[i] == 660 {
      var s := suggestions[i];
      assert IsCandidate(meetings, 540, 60, 720, s);
      assert !Overlaps(s, 60, meetings[0]);
      assert 600 <= s <= 660;
      if s < 660 {
        GridSpacing(540, 60, 600, s);
      }
    }
    assert 600 in suggestions;
    assert 660 in suggestions by {
      if |suggestions| == 2 {
        assert suggestions[0] + 60 <= suggestions[1];
      }
    }
    var i :| 0 <= i < |suggestions| && suggestions[i] == 600;
    var j :| 0 <= j < |suggestions| && suggestions[j] == 660;
    assert |suggestions| == 2;
    assert suggestions[0] + 60 <= suggestions[1];
  }
}
