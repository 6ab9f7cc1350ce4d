/** The lateness rule of `find_late_matches`: which open matches have gone
    unchanged for longer than the timeout, and by how many minutes. */
module Lateness {
  import opened Results
  import opened Timing

  const TIMEOUT_IN_MINS := 10
  const OPEN_STATE := "open"

  /** `updated_at` after `datetime.strptime` with the service's date format:
      the instant in microseconds since the epoch, or the text it rejected. */
  datatype Timestamp = Parsed(micros: int) | Unparsable(text: string)

  /** The fields of a match record that the checker reads. */
  datatype Match = Match(id: int, state: string, player1Id: int, player2Id: int, updatedAt: Timestamp)

  /** The `LateMatch` record: both players and the rounded lateness in minutes. */
  datatype LateMatch = LateMatch(p1Id: int, p2Id: int, lateMins: int)

  predicate IsOpen(m: Match)
  {
    m.state == OPEN_STATE
  }

  /** The comprehension `[m for m in matches if m['state'] == "open"]`. */
  function OpenMatches(ms: seq<Match>): (r: seq<Match>)
    ensures |r| <= |ms|
    ensures forall m :: m in r <==> m in ms && IsOpen(m)
  {
    if ms == [] then []
    else
      var m := ms[|ms| - 1];
      assert ms == ms[..|ms| - 1] + [m];
      OpenMatches(ms[..|ms| - 1]) + (if IsOpen(m) then [m] else [])
  }

  /** The filter keeps every open match as often as the input holds it, and
      no other match. */
  lemma {:induction false} OpenMatchesMultiplicity(ms: seq<Match>, m: Match)
    ensures multiset(OpenMatches(ms))[m] == if IsOpen(m) then multiset(ms)[m] else 0
  {
    if ms != [] {
      var n := |ms| - 1;
      var last := ms[n];
      assert ms == ms[..n] + [last];
      OpenMatchesMultiplicity(ms[..n], m);
      assert OpenMatches(ms) == OpenMatches(ms[..n]) + (if IsOpen(last) then [last] else []);
    }
  }

  /** The filter keeps input order: it works piecewise on a split list. */
  lemma {:induction false} OpenMatchesAppend(a: seq<Match>, b: seq<Match>)
    ensures OpenMatches(a + b) == OpenMatches(a) + OpenMatches(b)
  {
    if b == [] {
      assert a + b == a;
    } else {
      var n := |b| - 1;
      var last := b[n];
      var tail := if IsOpen(last) then [last] else [];
      assert (a + b)[..|a + b| - 1] == a + b[..n];
      assert (a + b)[|a + b| - 1] == last;
      assert OpenMatches(a + b) == OpenMatches(a + b[..n]) + tail;
      assert OpenMatches(b) == OpenMatches(b[..n]) + tail;
      OpenMatchesAppend(a, b[..n]);
      assert OpenMatches(a) + OpenMatches(b[..n]) + tail == OpenMatches(a) + (OpenMatches(b[..n]) + tail);
    }
  }

  /** An open match whose timestamp parses and whose `.seconds` of elapsed
      time exceed the timeout. */
  predicate Reported(m: Match, now: int)
  {
    IsOpen(m) && m.updatedAt.Parsed?
    && ElapsedSeconds(now, m.updatedAt.micros) > TIMEOUT_IN_MINS * 60
  }

  /** The record reported for a match: its own players and the rounded minutes. */
  function Report(m: Match, now: int): LateMatch
    requires m.updatedAt.Parsed?
  {
    LateMatch(m.player1Id, m.player2Id, RoundedMinutes(ElapsedSeconds(now, m.updatedAt.micros)))
  }

  /** What the reporting loop yields after the matches `ms`, one at a time:
      non-open matches are passed over, the first open match whose timestamp
      does not parse aborts, and every reported match appends its record. */
  function LateOf(ms: seq<Match>, now: int): Result<seq<LateMatch>>
  {
    if ms == [] then Success([])
    else
      var m := ms[|ms| - 1];
      match LateOf(ms[..|ms| - 1], now)
      case Failure(e) => Failure(e)
      case Success(late) =>
        if !IsOpen(m) then Success(late)
        else match m.updatedAt
          case Unparsable(t) => Failure(BadTimestamp(t))
          case Parsed(_) => Success(if Reported(m, now) then late + [Report(m, now)] else late)
  }

  /** Once a prefix has failed, the rest of the list is not looked at. */
  lemma {:induction false} FailureSticks(ms: seq<Match>, i: nat, now: int)
    requires i <= |ms| && LateOf(ms[..i], now).Failure?
    ensures LateOf(ms, now) == LateOf(ms[..i], now)
  {
    if i < |ms| {
      assert ms[..|ms| - 1][..i] == ms[..i];
      FailureSticks(ms[..|ms| - 1], i, now);
    } else {
      assert ms[..i] == ms;
    }
  }

  /** Filtering out the non-open matches first does not change the outcome. */
  lemma {:induction false} LateOfOpenMatches(ms: seq<Match>, now: int)
    ensures LateOf(OpenMatches(ms), now) == LateOf(ms, now)
  {
    if ms != [] {
      var m := ms[|ms| - 1];
      var o := OpenMatches(ms[..|ms| - 1]);
      LateOfOpenMatches(ms[..|ms| - 1], now);
      if IsOpen(m) {
        assert OpenMatches(ms)[..|OpenMatches(ms)| - 1] == o;
      } else {
        assert OpenMatches(ms) == o;
      }
    }
  }

  /** The outcome depends on the open matches alone, so neither the closed
      matches nor the by-id dictionary built from all of them affect it. */
  lemma OnlyOpenMatchesMatter(a: seq<Match>, b: seq<Match>, now: int)
    requires OpenMatches(a) == OpenMatches(b)
    ensures LateOf(a, now) == LateOf(b, now)
  {
    LateOfOpenMatches(a, now);
    LateOfOpenMatches(b, now);
  }

  /** `find_late_matches(matches)` with the clock reading `now`. */
  method FindLateMatches(matches: seq<Match>, now: int) returns (r: Result<seq<LateMatch>>)
    ensures r == LateOf(matches, now)
  {
    // "Sort matches by ID": built, never read.
    var matchById: map<int, Match> := map[];
    for i := 0 to |matches|
      invariant matchById.Keys == set j | 0 <= j < i :: matches[j].id
    {
      matchById := matchById[matches[i].id := matches[i]];
    }

    var openMatches := OpenMatches(matches);
    LateOfOpenMatches(matches, now);

    var late: seq<LateMatch> := [];
    for i := 0 to |openMatches|
      invariant LateOf(openMatches[..i], now) == Success(late)
    {
      var m := openMatches[i];
      ghost var upTo := openMatches[..i + 1];
      assert upTo[..i] == openMatches[..i] && upTo[i] == m;
      assert IsOpen(m) by { assert m in openMatches; }
      match m.updatedAt {
        case Unparsable(t) =>
          assert LateOf(upTo, now) == Failure(BadTimestamp(t));
          FailureSticks(openMatches, i + 1, now);
          return Failure(BadTimestamp(t));
        case Parsed(updated) =>
          var elapsedSecs := ElapsedSeconds(now, updated);
          if elapsedSecs > TIMEOUT_IN_MINS * 60 {
            late := late + [LateMatch(m.player1Id, m.player2Id, RoundedMinutes(elapsedSecs))];
          }
          assert LateOf(upTo, now) == Success(late);
      }
    }
    assert openMatches[..|openMatches|] == openMatches;
    return Success(late);
  }

  /** The positions in `ms` of the matches that are reported, in increasing order. */
  function ReportedIndices(ms: seq<Match>, now: int): (idx: seq<int>)
    ensures forall k :: 0 <= k < |idx| ==> 0 <= idx[k] < |ms| && Reported(ms[idx[k]], now)
    ensures forall k, l :: 0 <= k < l < |idx| ==> idx[k] < idx[l]
    ensures forall i :: 0 <= i < |ms| && Reported(ms[i], now) ==> i in idx
  {
    if ms == [] then []
    else
      ReportedIndices(ms[..|ms| - 1], now)
      + (if Reported(ms[|ms| - 1], now) then [|ms| - 1] else [])
  }

  /** The loop succeeds exactly when every open match has a parsable timestamp. */
  lemma {:induction false} LateOfSucceedsIff(ms: seq<Match>, now: int)
    ensures LateOf(ms, now).Success?
        <==> forall i :: 0 <= i < |ms| && IsOpen(ms[i]) ==> ms[i].updatedAt.Parsed?
  {
    if ms != [] {
      LateOfSucceedsIff(ms[..|ms| - 1], now);
      assert forall i :: 0 <= i < |ms| - 1 ==> ms[..|ms| - 1][i] == ms[i];
    }
  }

  /** A failure names the text of the first open match whose timestamp does not parse. */
  lemma {:induction false} LateOfFailsAtFirstBadTimestamp(ms: seq<Match>, now: int)
    requires LateOf(ms, now).Failure?
    ensures exists i :: (0 <= i < |ms| && IsOpen(ms[i]) && ms[i].updatedAt.Unparsable?
      && LateOf(ms, now) == Failure(BadTimestamp(ms[i].updatedAt.text))
      && (forall j :: 0 <= j < i ==> !(IsOpen(ms[j]) && ms[j].updatedAt.Unparsable?)))
  {
    var n := |ms| - 1;
    var prefix := ms[..n];
    var i: int;
    if LateOf(prefix, now).Failure? {
      assert LateOf(ms, now) == LateOf(prefix, now);
      LateOfFailsAtFirstBadTimestamp(prefix, now);
      i :| 0 <= i < |prefix| && IsOpen(prefix[i]) && prefix[i].updatedAt.Unparsable?
        && LateOf(prefix, now) == Failure(BadTimestamp(prefix[i].updatedAt.text))
        && (forall j :: 0 <= j < i ==> !(IsOpen(prefix[j]) && prefix[j].updatedAt.Unparsable?));
    } else {
      assert IsOpen(ms[n]) && ms[n].updatedAt.Unparsable?;
      LateOfSucceedsIff(prefix, now);
      i := n;
    }
    assert forall j :: 0 <= j < i ==> ms[j] == prefix[j];
  }

  /** On success the result holds one record per reported match, in input
      order, each built from that match's own players and elapsed time. */
  lemma {:induction false} LateOfReportsInOrder(ms: seq<Match>, now: int)
    requires LateOf(ms, now).Success?
    ensures |LateOf(ms, now).value| == |ReportedIndices(ms, now)|
    ensures forall k :: 0 <= k < |ReportedIndices(ms, now)| ==>
      var i := ReportedIndices(ms, now)[k];
      LateOf(ms, now).value[k] == Report(ms[i], now)
  {
    if ms != [] {
      var prefix := ms[..|ms| - 1];
      LateOfReportsInOrder(prefix, now);
      assert forall i :: 0 <= i < |prefix| ==> prefix[i] == ms[i];
    }
  }

  /** Every reported lateness is between 10 and 1440 minutes. */
  lemma LateMinsInRange(ms: seq<Match>, now: int)
    requires LateOf(ms, now).Success?
    ensures forall l :: l in LateOf(ms, now).value ==> TIMEOUT_IN_MINS <= l.lateMins <= 1440
  {
    LateOfReportsInOrder(ms, now);
    var late, idx := LateOf(ms, now).value, ReportedIndices(ms, now);
    forall l | l in late
      ensures TIMEOUT_IN_MINS <= l.lateMins <= 1440
    {
      var k :| 0 <= k < |late| && late[k] == l;
      assert Reported(ms[idx[k]], now);
    }
  }

  /** With no open match nothing is reported, however old or malformed the timestamps. */
  lemma NoOpenMatchNoReport(ms: seq<Match>, now: int)
    requires forall i :: 0 <= i < |ms| ==> !IsOpen(ms[i])
    ensures LateOf(ms, now) == Success([])
  {
    LateOfOpenMatches(ms, now);
    assert OpenMatches(ms) == [];
  }

  /** The timeout is strict and elapsed time is truncated to whole seconds:
      anything under 601 seconds is not late. */
  lemma NotLateUpToTimeout(m: Match, now: int)
    requires m.updatedAt.Parsed? && 0 <= now - m.updatedAt.micros < 601 * MICROS_PER_SECOND
    ensures !Reported(m, now)
  {
    ElapsedWithinDay(now, m.updatedAt.micros);
  }

  /** An open match idle between 601 seconds and a day is reported with its
      elapsed whole seconds rounded to minutes. */
  lemma LateWithinDay(m: Match, now: int)
    requires IsOpen(m) && m.updatedAt.Parsed?
    requires 601 * MICROS_PER_SECOND <= now - m.updatedAt.micros < MICROS_PER_DAY
    ensures Reported(m, now)
    ensures Report(m, now).lateMins == RoundedMinutes((now - m.updatedAt.micros) / MICROS_PER_SECOND)
  {
    ElapsedWithinDay(now, m.updatedAt.micros);
  }

  /** One day and five minutes of idleness count as five minutes: not late. */
  lemma DayAndFiveMinutesNotLate(m: Match, now: int)
    requires m.updatedAt == Parsed(now - MICROS_PER_DAY - 300 * MICROS_PER_SECOND)
    ensures ElapsedSeconds(now, m.updatedAt.micros) == 300
    ensures !Reported(m, now)
  {
    var u := m.updatedAt.micros;
    WholeDaysDiscarded(now - MICROS_PER_DAY, u, 1);
    ElapsedWithinDay(now - MICROS_PER_DAY, u);
  }

  /** A timestamp up to one second in the future wraps to 86399 seconds and
      is reported as 1440 minutes late. */
  lemma FutureTimestampReported(m: Match, now: int)
    requires IsOpen(m) && m.updatedAt.Parsed?
    requires now < m.updatedAt.micros <= now + MICROS_PER_SECOND
    ensures ElapsedSeconds(now, m.updatedAt.micros) == 86_399
    ensures Reported(m, now) && Report(m, now).lateMins == 1440
  {
    FutureWraps(now, m.updatedAt.micros);
  }

  /** An open match last updated fifteen minutes ago is reported as fifteen
      minutes late, with its own two players. */
  lemma FifteenMinutesScenario(now: int)
    ensures LateOf([Match(1, OPEN_STATE, 7, 8, Parsed(now - 900 * MICROS_PER_SECOND))], now)
         == Success([LateMatch(7, 8, 15)])
  {
    var m := Match(1, OPEN_STATE, 7, 8, Parsed(now - 900 * MICROS_PER_SECOND));
    ElapsedWithinDay(now, now - 900 * MICROS_PER_SECOND);
    assert ElapsedSeconds(now, m.updatedAt.micros) == 900;
    assert RoundedMinutes(900) == 15;
    assert Reported(m, now);
    assert [m][..0] == [];
    assert LateOf([m][..0], now) == Success([]);
    assert Report(m, now) == LateMatch(7, 8, 15);
    assert LateOf([m], now) == Success([] + [Report(m, now)]);
    assert [] + [Report(m, now)] == [LateMatch(7, 8, 15)];
  }
}
