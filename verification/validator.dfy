/** `ScheduleRequestValidator` (Scheduler.BLL/Validators/ScheduleRequestValidator.cs):
    seven independent rules run in `CascadeMode.Continue`, so every rule is
    evaluated and every failure is reported, in the order the rules are
    declared. */
module ScheduleRequestValidator {
  import opened Wrappers
  import opened ScheduleRequests

  /** One failure per rule. FluentValidation reports it as a
      `ValidationFailure` with a property name and a message, given by
      `PropertyName` and `ErrorMessage`. */
  datatype ValidationFailure =
    | ParticipantsRequired
    | DuplicateParticipants
    | DurationNotPositive
    | StartsBeforeNine
    | EndsAfterFive
    | EndNotAfterStart
    | WindowTooShort
  {
    /** The request property the failure is reported against; the last two
        rules override theirs (lines 46 and 51). */
    function PropertyName(): (name: string)
      ensures name in ["ParticipantIds", "DurationMinutes", "EarliestStart", "LatestEnd"]
      ensures this == EndNotAfterStart ==> name == "LatestEnd"
      ensures this == WindowTooShort ==> name == "DurationMinutes"
    {
      match this
      case ParticipantsRequired | DuplicateParticipants => "ParticipantIds"
      case DurationNotPositive | WindowTooShort => "DurationMinutes"
      case StartsBeforeNine => "EarliestStart"
      case EndsAfterFive | EndNotAfterStart => "LatestEnd"
    }

    /** The message the rule reports; each one is a full sentence. */
    function ErrorMessage(): (message: string)
      ensures message != [] && message[|message| - 1] == '.'
    {
      match this
      case ParticipantsRequired => "At least one participant is required."
      case DuplicateParticipants => "ParticipantIds must not contain duplicates."
      case DurationNotPositive => "Duration must be greater than 0."
      case StartsBeforeNine => "EarliestStart must be at or after 09:00 UTC."
      case EndsAfterFive => "LatestEnd must be at or before 17:00 UTC."
      case EndNotAfterStart => "LatestEnd must be after EarliestStart."
      case WindowTooShort => "Time window must be long enough to fit the meeting duration."
    }

    /** Position of the rule in declaration order. */
    function RuleIndex(): nat
    {
      match this
      case ParticipantsRequired => 0
      case DuplicateParticipants => 1
      case DurationNotPositive => 2
      case StartsBeforeNine => 3
      case EndsAfterFive => 4
      case EndNotAfterStart => 5
      case WindowTooShort => 6
    }
  }

  const NineOClock: int := 9 * 60
  const FiveOClock: int := 17 * 60

  // ---------------------------------------------------------------------
  // LINQ's Distinct().Count() and what it means

  /** `Enumerable.Distinct`: the list with later repeats removed, first
      occurrences kept in order. */
  function Distinct(ids: seq<int>): (d: seq<int>)
    ensures |d| <= |ids|
    ensures forall x :: x in d <==> x in ids
  {
    if ids == [] then []
    else
      var rest := Distinct(ids[..|ids| - 1]);
      var last := ids[|ids| - 1];
      if last in rest then rest else rest + [last]
  }

  /** Some id occurs at two different positions. */
  ghost predicate HasDuplicates(ids: seq<int>)
  {
    exists i, j :: 0 <= i < j < |ids| && ids[i] == ids[j]
  }

  /** `Distinct` never repeats an id. */
  lemma {:induction false} DistinctHasNoDuplicates(ids: seq<int>)
    ensures !HasDuplicates(Distinct(ids))
  {
    if ids != [] {
      DistinctHasNoDuplicates(ids[..|ids| - 1]);
    }
  }

  /** The duplicates rule's test `Distinct().Count() == Count` holds exactly
      when no id is repeated. */
  lemma {:induction false} DistinctCountDetectsDuplicates(ids: seq<int>)
    ensures |Distinct(ids)| == |ids| <==> !HasDuplicates(ids)
  {
    if ids != [] {
      var prefix := ids[..|ids| - 1];
      var last := ids[|ids| - 1];
      DistinctCountDetectsDuplicates(prefix);
      if last in prefix {
        var i :| 0 <= i < |prefix| && prefix[i] == last;
        assert ids[i] == ids[|ids| - 1];
      } else if HasDuplicates(ids) {
        var i, j :| 0 <= i < j < |ids| && ids[i] == ids[j];
        if j < |ids| - 1 {
          assert prefix[i] == prefix[j];
        }
      } else {
        forall i, j | 0 <= i < j < |prefix| ensures prefix[i] != prefix[j] {
          assert ids[i] == prefix[i] && ids[j] == prefix[j];
        }
      }
    }
  }

  // ---------------------------------------------------------------------
  // The seven rules

  /** The rules in declaration order. */
  const DeclaredRules: seq<ValidationFailure> :=
    [ParticipantsRequired, DuplicateParticipants, DurationNotPositive, StartsBeforeNine,
     EndsAfterFive, EndNotAfterStart, WindowTooShort]

  /** Failures listed in the order their rules are declared, each at most once. */
  predicate InRuleOrder(fs: seq<ValidationFailure>)
  {
    forall i, j :: 0 <= i < j < |fs| ==> fs[i].RuleIndex() < fs[j].RuleIndex()
  }

  /** Whether the rule that reports `rule` fails on `r`. The duplicates
      rule fires exactly when a non-null list repeats an id; the two
      business-hour rules compare against 09:00 and 17:00 of the start's and
      the end's own day. */
  predicate Violates(r: ScheduleRequest, rule: ValidationFailure)
    ensures rule == DuplicateParticipants ==>
              (Violates(r, rule) <==> r.participantIds.Some? && HasDuplicates(r.participantIds.value))
    ensures rule == StartsBeforeNine ==>
              (Violates(r, rule) <==> r.earliestStart < DayStart(r.earliestStart) + NineOClock)
    ensures rule == EndsAfterFive ==>
              (Violates(r, rule) <==> r.latestEnd > DayStart(r.latestEnd) + FiveOClock)
  {
    match rule
    // NotEmpty(): a null or an empty list fails
    case ParticipantsRequired => r.participantIds.None? || r.participantIds.value == []
    // Must(list == null || list.Distinct().Count() == list.Count)
    case DuplicateParticipants =>
      r.participantIds.Some? &&
      (DistinctCountDetectsDuplicates(r.participantIds.value);
       |Distinct(r.participantIds.value)| != |r.participantIds.value|)
    // GreaterThan(0)
    case DurationNotPositive => !(r.durationMinutes > 0)
    // TimeOfDay < 09:00 fails
    case StartsBeforeNine => TimeOfDay(r.earliestStart) < NineOClock
    // TimeOfDay > 17:00 fails
    case EndsAfterFive => TimeOfDay(r.latestEnd) > FiveOClock
    // Must(LatestEnd > EarliestStart)
    case EndNotAfterStart => !(r.latestEnd > r.earliestStart)
    // (LatestEnd - EarliestStart) GreaterThanOrEqualTo DurationMinutes
    case WindowTooShort => !(r.latestEnd - r.earliestStart >= r.durationMinutes)
  }

  /** Runs every rule of `rules` in order and keeps the failures; no rule's
      failure stops the later ones (`CascadeMode.Continue`). */
  function RunRules(rules: seq<ValidationFailure>, r: ScheduleRequest): (failures: seq<ValidationFailure>)
    requires InRuleOrder(rules)
    ensures forall f :: f in failures <==> f in rules && Violates(r, f)
    ensures InRuleOrder(failures)
  {
    if rules == [] then []
    else
      var rest := RunRules(rules[1..], r);
      var head := if Violates(r, rules[0]) then [rules[0]] else [];
      assert forall k :: 0 <= k < |rest| ==> rules[0].RuleIndex() < rest[k].RuleIndex() by {
        forall k | 0 <= k < |rest| ensures rules[0].RuleIndex() < rest[k].RuleIndex() {
          assert rest[k] in rules[1..];
        }
      }
      head + rest
  }

  /** A request every rule accepts, stated rule by rule without the
      failure list. */
  ghost predicate IsValidRequest(r: ScheduleRequest)
  {
    && r.participantIds.Some?
    && |r.participantIds.value| > 0
    && !HasDuplicates(r.participantIds.value)
    && r.durationMinutes > 0
    && NineOClock <= TimeOfDay(r.earliestStart)
    && TimeOfDay(r.latestEnd) <= FiveOClock
    && r.earliestStart < r.latestEnd
    && r.latestEnd - r.earliestStart >= r.durationMinutes
  }

  /** `Validate`: every rule runs and the failures come out in declaration
      order; a failure is reported exactly when its rule is violated. */
  function Validate(r: ScheduleRequest): (failures: seq<ValidationFailure>)
    ensures forall f :: f in failures <==> Violates(r, f)
    ensures InRuleOrder(failures)
  {
    assert forall f: ValidationFailure :: f in DeclaredRules by {
      forall f: ValidationFailure ensures f in DeclaredRules {
        assert DeclaredRules[f.RuleIndex()] == f;
      }
    }
    RunRules(DeclaredRules, r)
  }

  /** What each reported failure means, rule by rule, in terms of the
      request's fields. */
  lemma FailureMeaning(r: ScheduleRequest)
    ensures ParticipantsRequired in Validate(r) <==> r.participantIds.None? || r.participantIds.value == []
    ensures DuplicateParticipants in Validate(r) <==> r.participantIds.Some? && HasDuplicates(r.participantIds.value)
    ensures DurationNotPositive in Validate(r) <==> r.durationMinutes <= 0
    ensures StartsBeforeNine in Validate(r) <==> TimeOfDay(r.earliestStart) < NineOClock
    ensures EndsAfterFive in Validate(r) <==> TimeOfDay(r.latestEnd) > FiveOClock
    ensures EndNotAfterStart in Validate(r) <==> r.latestEnd <= r.earliestStart
    ensures WindowTooShort in Validate(r) <==> r.latestEnd - r.earliestStart < r.durationMinutes
  {
  }

  /** The request is valid exactly when no failure is reported. */
  lemma ValidIffNoFailures(r: ScheduleRequest)
    ensures Validate(r) == [] <==> IsValidRequest(r)
  {
    var failures := Validate(r);
    if failures != [] {
      assert Violates(r, failures[0]);
    } else {
      assert !Violates(r, ParticipantsRequired) by { assert ParticipantsRequired !in failures; }
      assert !Violates(r, DuplicateParticipants) by { assert DuplicateParticipants !in failures; }
      assert !Violates(r, DurationNotPositive) by { assert DurationNotPositive !in failures; }
      assert !Violates(r, StartsBeforeNine) by { assert StartsBeforeNine !in failures; }
      assert !Violates(r, EndsAfterFive) by { assert EndsAfterFive !in failures; }
      assert !Violates(r, EndNotAfterStart) by { assert EndNotAfterStart !in failures; }
      assert !Violates(r, WindowTooShort) by { assert WindowTooShort !in failures; }
    }
  }

  /** Two failure lists in rule order with the same members are the same
      list: which rules fail determines the whole report. */
  lemma {:induction false} ReportDeterminedByFailingRules(a: seq<ValidationFailure>, b: seq<ValidationFailure>)
    requires InRuleOrder(a) && InRuleOrder(b)
    requires forall f :: f in a <==> f in b
    ensures a == b
  {
    if b != [] {
      assert b[0] in a;
    }
    if a != [] {
      assert a[0] in b;
      var k :| 0 <= k < |b| && b[k] == a[0];
      var m :| 0 <= m < |a| && a[m] == b[0];
      assert a[0].RuleIndex() <= a[m].RuleIndex() && b[0].RuleIndex() <= b[k].RuleIndex();
      assert a[0] == b[0];
      forall f ensures f in a[1..] <==> f in b[1..] {
        if f in a[1..] {
          var i :| 0 <= i < |a[1..]| && a[1..][i] == f;
          assert a[i + 1] == f && f != a[0];
          assert f in b;
          var j :| 0 <= j < |b| && b[j] == f;
          assert j != 0;
          assert b[1..][j - 1] == f;
        }
        if f in b[1..] {
          var j :| 0 <= j < |b[1..]| && b[1..][j] == f;
          assert b[j + 1] == f && f != b[0];
          assert f in a;
          var i :| 0 <= i < |a| && a[i] == f;
          assert i != 0;
          assert a[1..][i - 1] == f;
        }
      }
      ReportDeterminedByFailingRules(a[1..], b[1..]);
      assert a == [a[0]] + a[1..] && b == [b[0]] + b[1..];
    }
  }

  /** Rule indices that strictly increase along a list grow at least as fast
      as the positions. */
  lemma {:induction false} IndexGap(fs: seq<ValidationFailure>, i: nat, j: nat)
    requires InRuleOrder(fs)
    requires i <= j < |fs|
    ensures fs[j].RuleIndex() - fs[i].RuleIndex() >= j - i
    decreases j - i
  {
    if i < j {
      IndexGap(fs, i + 1, j);
    }
  }

  /** The empty-list rule and the duplicates rule never fire together, so at
      most six failures are ever reported. */
  lemma AtMostSixFailures(r: ScheduleRequest)
    ensures |Validate(r)| <= 6
  {
    var fs := Validate(r);
    var n := |fs|;
    if n > 1 {
      if ParticipantsRequired !in fs {
        assert fs[0] != ParticipantsRequired;
        IndexGap(fs, 0, n - 1);
      } else {
        assert DuplicateParticipants !in fs;
        assert fs[1] != DuplicateParticipants && fs[1] != ParticipantsRequired;
        IndexGap(fs, 1, n - 1);
      }
    }
  }

  // ---------------------------------------------------------------------
  // Concrete requests from the validator's tests and boundaries

  /** Exactly 09:00 passes the start rule and 08:59 does not; exactly 17:00
      passes the end rule and 17:01 does not. */
  lemma BusinessHourBoundaries(day: int, r: ScheduleRequest)
    requires day >= 0
    ensures StartsBeforeNine !in Validate(r.(earliestStart := day * MinutesPerDay + 9 * 60))
    ensures StartsBeforeNine in Validate(r.(earliestStart := day * MinutesPerDay + 9 * 60 - 1))
    ensures EndsAfterFive !in Validate(r.(latestEnd := day * MinutesPerDay + 17 * 60))
    ensures EndsAfterFive in Validate(r.(latestEnd := day * MinutesPerDay + 17 * 60 + 1))
  {
    var nine := day * MinutesPerDay + 9 * 60;
    var five := day * MinutesPerDay + 17 * 60;
    assert TimeOfDay(nine) == 540 && TimeOfDay(nine - 1) == 539;
    assert TimeOfDay(five) == 1020 && TimeOfDay(five + 1) == 1021;
  }

  /** A request that breaks every rule it can (no participant list, no
      duration, a window running backwards from midnight to 23:59 the day
      before): all six failures are reported, in declaration order, none of
      them masking another. */
  lemma AllRulesAreEvaluated(day: int)
    requires day >= 1
    ensures Validate(ScheduleRequest(None, 0, day * MinutesPerDay, day * MinutesPerDay - 1))
         == [ParticipantsRequired, DurationNotPositive, StartsBeforeNine, EndsAfterFive,
             EndNotAfterStart, WindowTooShort]
  {
    var midnight := day * MinutesPerDay;
    var r := ScheduleRequest(None, 0, midnight, midnight - 1);
    var expected := [ParticipantsRequired, DurationNotPositive, StartsBeforeNine, EndsAfterFive,
                     EndNotAfterStart, WindowTooShort];
    assert TimeOfDay(midnight) == 0 && TimeOfDay(midnight - 1) == 1439;
    forall f ensures f in expected <==> Violates(r, f) {
      if f.DuplicateParticipants? {
        assert !Violates(r, f);
        assert expected[0] != f && expected[1] != f && expected[2] != f;
        assert expected[3] != f && expected[4] != f && expected[5] != f;
      } else {
        assert Violates(r, f);
        assert expected[if f.RuleIndex() == 0 then 0 else f.RuleIndex() - 1] == f;
      }
    }
    ReportDeterminedByFailingRules(Validate(r), expected);
  }

  /** A 61-minute meeting in a 60-minute window fails the window rule, and
      only that rule. */
  lemma WindowShorterThanDuration(day: int)
    requires day >= 0
    ensures Validate(ScheduleRequest(Some([1]), 61, day * MinutesPerDay + 600, day * MinutesPerDay + 660))
         == [WindowTooShort]
  {
    var start := day * MinutesPerDay + 600;
    var r := ScheduleRequest(Some([1]), 61, start, start + 60);
    assert TimeOfDay(start) == 600 && TimeOfDay(start + 60) == 660;
    assert Distinct([1]) == [1];
    ReportDeterminedByFailingRules(Validate(r), [WindowTooShort]);
  }
}
