/** The resource fetchers `get_players_by_id` and `get_matches`: they name the
    request to send and unwrap the service's one-key wrapper records. The
    decoded JSON response is a parameter. */
module Fetch {
  import opened Results
  import opened Request
  import opened Lateness

  const PARTICIPANT_KEY := "participant"
  const MATCH_KEY := "match"

  /** A wrapper record of the response, `{"participant": {...}}` or `{"match": {...}}`. */
  type Wrapper<T> = map<string, T>

  /** The fields of a participant record that the checker reads. */
  datatype Participant = Participant(id: int, displayName: string)

  /** The response shape: each record inside a one-key wrapper. */
  function Wrap<T>(xs: seq<T>, key: string): (raw: seq<Wrapper<T>>)
    ensures |raw| == |xs|
    ensures forall i :: 0 <= i < |xs| ==> raw[i] == map[key := xs[i]]
  {
    seq(|xs|, i requires 0 <= i < |xs| => map[key := xs[i]])
  }

  /** The records inside the wrappers, in order; `MissingKey` when a wrapper
      lacks the key. */
  function Unwrapped<T>(raw: seq<Wrapper<T>>, key: string): (r: Result<seq<T>>)
    ensures r.Success? <==> forall i :: 0 <= i < |raw| ==> key in raw[i]
    ensures r.Success? ==> |r.value| == |raw| && forall i :: 0 <= i < |raw| ==> r.value[i] == raw[i][key]
    ensures r.Failure? ==> r.error == MissingKey(key)
  {
    if forall i :: 0 <= i < |raw| ==> key in raw[i]
    then Success(seq(|raw|, i requires 0 <= i < |raw| => raw[i][key]))
    else Failure(MissingKey(key))
  }

  /** Unwrapping recovers exactly the wrapped records. */
  lemma UnwrapWrap<T>(xs: seq<T>, key: string)
    ensures Unwrapped(Wrap(xs, key), key) == Success(xs)
  {
    var raw := Wrap(xs, key);
    assert forall i :: 0 <= i < |raw| ==> key in raw[i];
    assert Unwrapped(raw, key).value == xs;
  }

  /** The dictionary `players[player["id"]] = player` builds, one record at a time. */
  function IndexById(ps: seq<Participant>): (m: map<int, Participant>)
    ensures m.Keys == set i | 0 <= i < |ps| :: ps[i].id
  {
    if ps == [] then map[]
    else
      var p := ps[|ps| - 1];
      var m := IndexById(ps[..|ps| - 1]);
      assert forall i :: 0 <= i < |ps| - 1 ==> ps[..|ps| - 1][i] == ps[i];
      m[p.id := p]
  }

  /** A record no later record shares an id with is the one its id maps to. */
  lemma {:induction false} IndexByIdLastWins(ps: seq<Participant>, i: int)
    requires 0 <= i < |ps|
    requires forall j :: i < j < |ps| ==> ps[j].id != ps[i].id
    ensures IndexById(ps)[ps[i].id] == ps[i]
  {
    if i < |ps| - 1 {
      var prefix := ps[..|ps| - 1];
      assert forall j :: i < j < |prefix| ==> prefix[j] == ps[j];
      IndexByIdLastWins(prefix, i);
    }
  }

  /** Every id maps to a record of the list carrying that id, and no later
      record carries it. */
  lemma {:induction false} IndexByIdValues(ps: seq<Participant>, id: int)
    requires id in IndexById(ps)
    ensures exists i :: (0 <= i < |ps| && ps[i] == IndexById(ps)[id] && ps[i].id == id
      && forall j :: i < j < |ps| ==> ps[j].id != id)
  {
    var n := |ps| - 1;
    var prefix := ps[..n];
    assert IndexById(ps) == IndexById(prefix)[ps[n].id := ps[n]];
    if ps[n].id == id {
      assert ps[n] == IndexById(ps)[id];
    } else {
      IndexByIdValues(prefix, id);
      var i :| 0 <= i < |prefix| && prefix[i] == IndexById(prefix)[id] && prefix[i].id == id
        && forall j :: i < j < |prefix| ==> prefix[j].id != id;
      assert ps[i] == prefix[i] && IndexById(ps)[id] == IndexById(prefix)[id];
      assert forall j :: i < j < |ps| ==> ps[j].id != id by {
        forall j | i < j < |ps| ensures ps[j].id != id {
          if j < n { assert ps[j] == prefix[j]; }
        }
      }
    }
  }

  /** The result of `get_players_by_id` for the decoded response `raw`. */
  function PlayersById(raw: seq<Wrapper<Participant>>): Result<map<int, Participant>>
  {
    match Unwrapped(raw, PARTICIPANT_KEY)
    case Success(ps) => Success(IndexById(ps))
    case Failure(e) => Failure(e)
  }

  /** The participants path of the bracket service for a tournament. */
  function ParticipantsPath(tourneyId: string): string
  {
    "/tournaments/" + tourneyId + "/participants.json"
  }

  /** The matches path of the bracket service for a tournament. */
  function MatchesPath(tourneyId: string): string
  {
    "/tournaments/" + tourneyId + "/matches.json"
  }

  /** `get_players_by_id(key, tourney_id)`: the URL it requests, and what it
      returns once the response `raw` has been decoded. */
  method GetPlayersById(key: string, tourneyId: string, raw: seq<Wrapper<Participant>>)
    returns (url: string, r: Result<map<int, Participant>>)
    ensures url == CHALLONGE_API + ParticipantsPath(tourneyId) + "?api_key=" + key
    ensures r == PlayersById(raw)
  {
    url := BuildRequestUrl(CHALLONGE_API, ParticipantsPath(tourneyId), [("api_key", key)]);
    SingleParamAgrees("api_key", key);

    var players: map<int, Participant> := map[];
    ghost var seen: seq<Participant> := [];
    for i := 0 to |raw|
      invariant forall j :: 0 <= j < i ==> PARTICIPANT_KEY in raw[j]
      invariant |seen| == i && forall j :: 0 <= j < i ==> seen[j] == raw[j][PARTICIPANT_KEY]
      invariant players == IndexById(seen)
    {
      if PARTICIPANT_KEY !in raw[i] {
        return url, Failure(MissingKey(PARTICIPANT_KEY));
      }
      var player := raw[i][PARTICIPANT_KEY];
      assert (seen + [player])[..i] == seen;
      seen := seen + [player];
      players := players[player.id := player];
    }
    assert seen == Unwrapped(raw, PARTICIPANT_KEY).value;
    return url, Success(players);
  }

  /** `get_matches(key, tourney_id)`: the URL it requests, and what it returns
      once the response `raw` has been decoded. */
  method GetMatches(key: string, tourneyId: string, raw: seq<Wrapper<Match>>)
    returns (url: string, r: Result<seq<Match>>)
    ensures url == CHALLONGE_API + MatchesPath(tourneyId) + "?api_key=" + key
    ensures r == Unwrapped(raw, MATCH_KEY)
  {
    url := BuildRequestUrl(CHALLONGE_API, MatchesPath(tourneyId), [("api_key", key)]);
    SingleParamAgrees("api_key", key);

    var matches: seq<Match> := [];
    for i := 0 to |raw|
      invariant forall j :: 0 <= j < i ==> MATCH_KEY in raw[j]
      invariant |matches| == i && forall j :: 0 <= j < i ==> matches[j] == raw[j][MATCH_KEY]
    {
      if MATCH_KEY !in raw[i] {
        return url, Failure(MissingKey(MATCH_KEY));
      }
      matches := matches + [raw[i][MATCH_KEY]];
    }
    assert matches == Unwrapped(raw, MATCH_KEY).value;
    return url, Success(matches);
  }

  /** One participant record wrapped as the service sends it is recovered
      under its own id. */
  lemma SingleParticipantScenario()
    ensures PlayersById([map[PARTICIPANT_KEY := Participant(7, "Alice")]])
         == Success(map[7 := Participant(7, "Alice")])
  {
    var ps := [Participant(7, "Alice")];
    UnwrapWrap(ps, PARTICIPANT_KEY);
    assert Wrap(ps, PARTICIPANT_KEY) == [map[PARTICIPANT_KEY := Participant(7, "Alice")]];
    assert ps[..0] == [];
  }
}
