# Late-match checker for a tournament bracket service, in Dafny

The checker polls the bracket service (Challonge) for a tournament's matches and reports every match that has been
`open` for longer than `TIMEOUT_IN_MINS` (10) minutes, by how many minutes. This project models its three
deterministic pieces, with the wall clock and the network turned into parameters:

- **the lateness rule** of `find_late_matches` (module `Lateness`, arithmetic in `Timing`). Timestamps are integer
  microseconds since the epoch. The elapsed time is Python's `timedelta.seconds`, which holds only the sub-day
  seconds of the difference. Whole days and microseconds are dropped: `secs = ((now - updated) div 10^6) mod 86400`.
  A match is late iff `secs > 600`. Its lateness is `round(secs / 60)`, the nearest minute with ties going to the
  even neighbour. Because of `.seconds`, a match idle one day and five minutes counts as five minutes and is not
  reported. A timestamp slightly in the future gives a negative difference, which wraps to about 1440 minutes and
  is reported. Both quirks are proved as lemmas; the model keeps them, as the code does.
- **the response unwrapping** of `get_players_by_id` and `get_matches` (module `Fetch`). The service wraps each
  record in a one-key record (`{"participant": {...}}`, `{"match": {...}}`). Players become a map keyed by id, in
  which a later record with the same id overwrites an earlier one. Matches become a flat list. A wrapper without
  its key makes the whole call fail (`MissingKey`, Python's `KeyError`).
- **the URL construction** of `make_request` (module `Request`). The `first_item` flag is never cleared, so every
  parameter is appended as `?name=value` and the `&` branch cannot run. The unreachable `&` branch (main.py:104)
  shows that later parameters were meant to be joined with `&`. The model follows the code, and the discrepancy
  is logged under "Findings". Values are inserted without percent-encoding.

Failures are values (`Results.Result`): `MissingKey` for a wrapper without its key, and `BadTimestamp` for an open
match whose `updated_at` does not parse. `strptime` is only applied to open matches. A malformed timestamp on a
closed match is therefore never seen, and the first malformed one on an open match aborts the whole call.

## Model

| member | source | states |
|---|---|---|
| `Timing.TimedeltaOf` | main.py:58 | the difference is split into whole days, seconds in 0..86399 and microseconds in 0..999999 that sum back to it, as `timedelta` normalises |
| `Timing.TimedeltaUnique` | main.py:58 | any normalised days/seconds/microseconds triple that sums to the difference is the one `TimedeltaOf` gives |
| `Timing.ElapsedSeconds` | main.py:58 | `.seconds` of `now - updated` lies in 0..86399 |
| `Timing.WholeDaysDiscarded` | main.py:58 | adding any number of whole days to the difference leaves `.seconds` unchanged |
| `Timing.ElapsedWithinDay` | main.py:58 | for a difference of 0 up to one day, `.seconds` is the difference truncated to whole seconds |
| `Timing.FutureWraps` | main.py:58 | for a timestamp up to a day in the future, `.seconds` is 86400 plus the floored negative seconds |
| `Timing.RoundedMinutes` | main.py:62 | `round(secs / 60)`: the result is within 30 seconds of `secs`, and even when `secs` is exactly halfway |
| `Timing.RoundedMinutesUnique` | main.py:62 | nearest-minute with ties to even admits only the minute count `RoundedMinutes` gives |
| `Lateness.OpenMatches` | main.py:51 | the filtered list contains an element iff the input contains it and it is open, and is no longer than the input |
| `Lateness.OpenMatchesMultiplicity` | main.py:51 | the filtered list holds each open match exactly as many times as the input does, and no closed match |
| `Lateness.OpenMatchesAppend` | main.py:51 | filtering a concatenation is concatenating the filtered parts, so the filter keeps input order |
| `Lateness.FindLateMatches` | main.py:44-64 | the method returns `LateOf(matches, now)`: the outcome of the reporting loop over the matches |
| `Lateness.FailureSticks` | main.py:55-57 | once a prefix has hit an unparsable timestamp, later matches do not change the outcome |
| `Lateness.LateOfOpenMatches` | main.py:51-55 | running the loop over the open matches only gives the same outcome as over all matches |
| `Lateness.OnlyOpenMatchesMatter` | main.py:46-51 | two match lists with the same open matches give the same outcome; the unused by-id dictionary has no influence |
| `Lateness.ReportedIndices` | main.py:54-64 | the positions of reported matches (open, parsable, more than 600 s): in range, strictly increasing, and every such position is included |
| `Lateness.LateOfSucceedsIff` | main.py:55-57 | the call succeeds iff every open match's timestamp parses |
| `Lateness.LateOfFailsAtFirstBadTimestamp` | main.py:55-57 | a failure carries the text of the first open match whose timestamp does not parse |
| `Lateness.LateOfReportsInOrder` | main.py:54-64 | on success the records correspond one-to-one, in input order, to the reported matches, each with that match's own `player1_id`, `player2_id` and rounded minutes |
| `Lateness.LateMinsInRange` | main.py:58-62 | every reported lateness is between 10 and 1440 minutes |
| `Lateness.NoOpenMatchNoReport` | main.py:51-55 | with no open match the result is empty, whatever the timestamps |
| `Lateness.NotLateUpToTimeout` | main.py:58-60 | a match idle for less than 601 seconds (exactly 600 s or 600.9 s included) is not reported |
| `Lateness.LateWithinDay` | main.py:58-62 | an open match idle from 601 seconds up to a day is reported, with its truncated seconds rounded to minutes |
| `Lateness.DayAndFiveMinutesNotLate` | main.py:58-60 | an idle time of one day plus five minutes gives 300 seconds and is not reported |
| `Lateness.FutureTimestampReported` | main.py:58-62 | a timestamp up to one second in the future gives 86399 seconds and is reported as 1440 minutes late |
| `Lateness.FifteenMinutesScenario` | main.py:44-64 | one open match of players 7 and 8, updated fifteen minutes ago, yields exactly one record `(7, 8, 15)` |
| `Request.MakeRequestUrl` | main.py:97-104 | the URL loop as written yields `base + path` followed by `?name=value` for each parameter in order |
| `Request.BuildRequestUrl` | main.py:97-104 | the corrected loop yields `base + path`, `?` before the first parameter and `&` before each later one |
| `Request.AsWrittenHasNoAmpersand` | main.py:98-104 | as written, no `&` appears in the query unless a name or value carries one |
| `Request.AsWrittenQuestionMarks` | main.py:98-102 | as written, the query holds one `?` per parameter |
| `Request.IntendedQuestionMarks` | main.py:97-104 | the corrected query holds exactly one `?` when there is any parameter |
| `Request.IntendedAmpersands` | main.py:97-104 | the corrected query holds one `&` fewer than there are parameters |
| `Request.TwoParamsRepeatQuestionMark` | main.py:98-104 | for `a=1, b=2` the loop as written gives `?a=1?b=2` where `?a=1&b=2` was meant |
| `Request.SingleParamAgrees` | main.py:97-104 | with one parameter both loops give `?name=value`, the value unencoded |
| `Fetch.Unwrapped` | main.py:87-89 | unwrapping succeeds iff every wrapper has the key; then it keeps the length and element i is `raw[i][key]`; otherwise the error is `MissingKey(key)` |
| `Fetch.UnwrapWrap` | main.py:71-76 | unwrapping the wrapped records gives back exactly those records |
| `Fetch.IndexById` | main.py:73-76 | the key set of the players map is the set of ids among the records |
| `Fetch.IndexByIdLastWins` | main.py:73-76 | an id maps to the record carrying it when no later record shares that id |
| `Fetch.IndexByIdValues` | main.py:73-76 | every id maps to a record of the list with that id, after which no record carries the id |
| `Fetch.GetPlayersById` | main.py:67-78 | requests `https://api.challonge.com/v1/tournaments/{id}/participants.json?api_key={key}` and returns the participants unwrapped and indexed by id, or `MissingKey` |
| `Fetch.GetMatches` | main.py:81-91 | requests `https://api.challonge.com/v1/tournaments/{id}/matches.json?api_key={key}` and returns the unwrapped match list, or `MissingKey` |
| `Fetch.SingleParticipantScenario` | main.py:73-78 | the response `[{"participant": {7, "Alice"}}]` yields `{7: {7, "Alice"}}` |

## Left out

- The polling loop of `main` (main.py:26-41): reading `API_KEY` and `TOURNAMENT_ID` from the environment, the player-name lookups, `print` and `time.sleep`. It is I/O around an infinite loop.
- `urllib.request.urlopen`, reading and UTF-8 decoding the body, and `json.loads` (main.py:106-110). These are network and library calls. The fetchers return the URL they would request and take the decoded response as a parameter.
- `datetime.strptime` with the service's date format (main.py:15, main.py:56-57). A timestamp is given already parsed, as microseconds since the epoch, or as the text it rejects. The fixed `-07:00` offset of `now` does not affect a difference of timezone-aware datetimes.
- Lateness.FindLateMatches: takes one clock reading `now` for the whole call. The code calls `datetime.now` again for each open match, so in the code successive matches may see slightly later clocks.
- Float division and `round` (main.py:58, main.py:62) are replaced by exact integer arithmetic. For whole seconds `secs`, `secs / 60 > 10` iff `secs > 600`, and a tie of `secs / 60` occurs exactly when `secs mod 60 == 30`, so the float behaviour is matched.
- Records are typed: a match has its id, state, both player ids and `updated_at`, and a participant has its id and display name. The `KeyError` a record without one of these fields would raise is not modelled. The dead `match_by_id` loop reads `m['id']` of every match, so in the code a match without an id would still fail. The model does not capture that.
- Player ids are integers. The service's `null` player id of a match not yet paired is not modelled.
- Idempotence of the checker needs no lemma: every modelled operation is a function or a method without state.

## Findings

| source | as written | input that shows it | evidently intended | confidence | as-written member | corrected member |
|---|---|---|---|---|---|---|
| main.py:98-104 | `first_item` is never set to `False`, so every parameter is introduced by `?` and the `&` branch cannot run | parameters `{'a': '1', 'b': '2'}` give the query `?a=1?b=2` | `?a=1&b=2`: `?` before the first parameter, `&` before each later one | high; not executed | `Request.TwoParamsRepeatQuestionMark` (over `Request.MakeRequestUrl`) | `Request.BuildRequestUrl` (with `Request.IntendedQuestionMarks`, `Request.IntendedAmpersands`) |

The fetchers use the corrected `Request.BuildRequestUrl`. They pass only the `api_key` parameter, and
`Request.SingleParamAgrees` proves that both loops build the same URL there. So the modelled requests are the ones
the code sends.
