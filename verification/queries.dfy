/** The read queries getGameEvents and getGameHistory: the rows of a game
    (or all archive rows), newest first, at most 50 (20). The index order is
    (gameId, timestamp), resp. completedAt; here the rows are kept in
    insertion order and the query reverses them, which is the index order
    whenever the clock never goes backwards (EventsFeedNewestFirst). */
module Queries {
  import opened Schema
  import opened Engine

  const EventsLimit: nat := 50
  const HistoryLimit: nat := 20

  /** The events of one game, in the order they were logged. */
  function EventsOf(events: seq<GameEvent>, id: GameId): (r: seq<GameEvent>)
    ensures |r| <= |events|
    ensures forall i :: 0 <= i < |r| ==> r[i].gameId == id
    ensures forall e :: e in r <==> e in events && e.gameId == id
  {
    if events == [] then []
    else
      var last := events[|events| - 1];
      EventsOf(events[..|events| - 1], id) + (if last.gameId == id then [last] else [])
  }

  lemma {:induction false} EventsOfAppend(events: seq<GameEvent>, more: seq<GameEvent>, id: GameId)
    ensures EventsOf(events + more, id) == EventsOf(events, id) + EventsOf(more, id)
    decreases |more|
  {
    if more == [] {
      assert events + more == events;
    } else {
      assert (events + more)[..|events + more| - 1] == events + more[..|more| - 1];
      EventsOfAppend(events, more[..|more| - 1], id);
    }
  }

  function Reverse<T>(s: seq<T>): (r: seq<T>)
    ensures |r| == |s|
    ensures forall i :: 0 <= i < |s| ==> r[i] == s[|s| - 1 - i]
  {
    seq(|s|, i requires 0 <= i < |s| => s[|s| - 1 - i])
  }

  function Take<T>(s: seq<T>, n: nat): (r: seq<T>)
    ensures |r| == if |s| < n then |s| else n
    ensures forall i :: 0 <= i < |r| ==> r[i] == s[i]
  {
    if |s| <= n then s else s[..n]
  }

  /** getGameEvents: the last 50 events of the game, newest first. */
  function GameEventsQuery(events: seq<GameEvent>, id: GameId): (r: seq<GameEvent>)
    ensures var mine := EventsOf(events, id);
            && |r| == (if |mine| < EventsLimit then |mine| else EventsLimit)
            && forall i :: 0 <= i < |r| ==> r[i] == mine[|mine| - 1 - i]
  {
    Take(Reverse(EventsOf(events, id)), EventsLimit)
  }

  /** getGameHistory: the last 20 archive rows, newest first. */
  function GameHistoryQuery(history: seq<HistoryRecord>): (r: seq<HistoryRecord>)
    ensures |r| == (if |history| < HistoryLimit then |history| else HistoryLimit)
    ensures forall i :: 0 <= i < |r| ==> r[i] == history[|history| - 1 - i]
  {
    Take(Reverse(history), HistoryLimit)
  }

  predicate TimestampsNonDecreasing(events: seq<GameEvent>) {
    forall i, j :: 0 <= i < j < |events| ==> events[i].timestamp <= events[j].timestamp
  }

  /** When a game's events were logged with a clock that never went back, the
      feed is ordered newest first by timestamp, as the index orders it. */
  lemma EventsFeedNewestFirst(events: seq<GameEvent>, id: GameId)
    requires TimestampsNonDecreasing(EventsOf(events, id))
    ensures var r := GameEventsQuery(events, id);
            forall i, j :: 0 <= i < j < |r| ==> r[i].timestamp >= r[j].timestamp
  {
    var mine := EventsOf(events, id);
    var r := GameEventsQuery(events, id);
    forall i, j | 0 <= i < j < |r| ensures r[i].timestamp >= r[j].timestamp {
      assert r[i] == mine[|mine| - 1 - i] && r[j] == mine[|mine| - 1 - j];
    }
  }

  /** The last elements of a sequence come first once it is reversed. */
  lemma ReverseOfAppend<T>(before: seq<T>, added: seq<T>, i: nat)
    requires i < |added|
    ensures Reverse(before + added)[i] == added[|added| - 1 - i]
  {
    var s := before + added;
    var k := |s| - 1 - i;
    assert |before| <= k < |s|;
    assert Reverse(s)[i] == s[k];
    assert s[k] == added[k - |before|];
  }

  /** Events just appended for the game head its feed, newest first. */
  lemma FeedStartsWithAppended(events: seq<GameEvent>, added: seq<GameEvent>, id: GameId)
    requires |added| <= EventsLimit
    requires forall i :: 0 <= i < |added| ==> added[i].gameId == id
    ensures var feed := GameEventsQuery(events + added, id);
            |feed| >= |added| && forall i :: 0 <= i < |added| ==> feed[i] == added[|added| - 1 - i]
  {
    EventsOfAppend(events, added, id);
    EventsOfAll(added, id);
    var before := EventsOf(events, id);
    assert EventsOf(events + added, id) == before + added;
    var feed := GameEventsQuery(events + added, id);
    assert feed == Take(Reverse(before + added), EventsLimit);
    forall i | 0 <= i < |added| ensures feed[i] == added[|added| - 1 - i] {
      ReverseOfAppend(before, added, i);
    }
  }

  lemma {:induction false} EventsOfAll(events: seq<GameEvent>, id: GameId)
    requires forall i :: 0 <= i < |events| ==> events[i].gameId == id
    ensures EventsOf(events, id) == events
    decreases |events|
  {
    if events != [] {
      EventsOfAll(events[..|events| - 1], id);
    }
  }

  /** Right after an accepted move the game's feed starts with the move event;
      after a winning move the game_end event comes next, and the history
      feed starts with the new archive row. */
  lemma FeedsAfterMove(t: Tables, id: GameId, newPosition: int, moveType: Option<MoveType>, now: int)
    requires Playable(t, id)
    ensures var after := MoveStep(t, id, newPosition, moveType, now).after;
            var g := t.games[id];
            var kind := moveType.GetOr(Normal);
            var feed := GameEventsQuery(after.events, id);
            && |feed| >= 1
            && feed[0] == MoveEvent(id, g, newPosition, kind, now)
            && (newPosition >= WinningPosition ==>
                  && |feed| >= 2 && feed[1] == EndEvent(id, g, newPosition, now)
                  && GameHistoryQuery(after.history)[0] == WinRecord(id, g, now))
  {
    var g := t.games[id];
    var kind := moveType.GetOr(Normal);
    var added := MoveEvents(id, g, newPosition, kind, now);
    FeedStartsWithAppended(t.events, added, id);
  }
}
