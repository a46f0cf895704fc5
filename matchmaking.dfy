/** The matchmaking and score-exchange state of the game server, as values:
    the waiting queue of player IDs, the table of player records keyed by
    player ID, and the current round's flag list. Each request handler is a
    function from the state before the request to the state after it and the
    reply. Request arguments that the client may leave out are `Option`s;
    Python's truthiness test on an integer argument fails for `None` and 0. */
module Matchmaking {
  import opened Wrappers
  import FlagList

  /** One row of the `Datastorage` table, without its key. */
  datatype Record = Record(playerScore: int, matchedPlayer: Option<int>, gameFinished: bool)

  /** The server's state: `player_queue`, the `Datastorage` rows by
      `playerID`, and `final_flags`. */
  datatype State = State(queue: seq<int>, records: map<int, Record>, flags: seq<string>)

  /** The state of a server started on an empty database: empty queue, no
      rows, no flags. */
  const Initial: State := State([], map[], [])

  /** The state of a server restarted on the rows persisted by an earlier
      run: the table survives in the database file, while the queue and the
      flag list live in memory and start empty again. */
  function Restarted(rows: map<int, Record>): State
  {
    State([], rows, [])
  }

  /** The record a player gets when joining: score 0, not finished. */
  function NewRecord(opponent: Option<int>): Record
  {
    Record(0, opponent, false)
  }

  /** The invariant every reachable state keeps:
      - the record keys are exactly 1..(number of records);
      - at most one player waits (a join either enqueues into an empty
        queue or dequeues);
      - a queued ID either has a record without an opponent, or is the ID
        the next join will get: the ID left queued by a join whose
        `create_flag_list` raised after the ID was enqueued;
      - pairing is mutual (a player paired with itself is its own opponent);
      - the flag list is either the initial empty list or a full round. */
  ghost predicate Inv(s: State)
  {
    && (forall id :: id in s.records <==> 1 <= id <= |s.records|)
    && |s.queue| <= 1
    && (forall i :: 0 <= i < |s.queue| ==> Waiting(s, s.queue[i]))
    && (forall id :: id in s.records && s.records[id].matchedPlayer.Some? ==> Paired(s, id, s.records[id].matchedPlayer.value))
    && (|s.flags| == 0 || |s.flags| == FlagList.FlagCount)
  }

  /** A queued `id` is a registered player without an opponent, or the
      unregistered ID that `getID` will hand out next. */
  ghost predicate Waiting(s: State, id: int)
  {
    if id in s.records then s.records[id].matchedPlayer == None else id == |s.records| + 1
  }

  /** `id`'s opponent `other` has a record whose opponent is `id`. */
  ghost predicate Paired(s: State, id: int, other: int)
  {
    && other in s.records
    && s.records[other].matchedPlayer == Some(id)
  }

  /** The state of a run in which every `create_flag_list` call returned:
      every queued ID has a record, and nobody is paired with itself. */
  ghost predicate Clean(s: State)
  {
    && (forall i :: 0 <= i < |s.queue| ==> s.queue[i] in s.records)
    && (forall id :: id in s.records ==> s.records[id].matchedPlayer != Some(id))
  }

  lemma InitialInv()
    ensures Inv(Initial) && Clean(Initial)
  {
  }

  /** Restarting keeps the invariant: the persisted rows of any reachable
      state, with an empty queue and no flags, satisfy it again. */
  lemma RestartKeepsInv(s: State)
    requires Inv(s)
    ensures Inv(Restarted(s.records))
    ensures Clean(s) ==> Clean(Restarted(s.records))
  {
  }

  // ---------------------------------------------------------------- getID

  /** `Matchmaking.getID`: the number of records plus one. In a state that
      keeps the invariant this ID is positive, larger than every key, and so
      collides with no existing record. */
  function NextID(s: State): (id: int)
    ensures Inv(s) ==> id >= 1 && id !in s.records
    ensures Inv(s) ==> forall k :: k in s.records ==> k < id
  {
    |s.records| + 1
  }

  // ---------------------------------------------------------------- join

  /** The answer to a join: `started_matchmaking` and the caller's new ID
      with HTTP 200, or the HTTP 500 of an exception raised in
      `create_flag_list`. */
  datatype JoinReply = Joined(startedMatchmaking: bool, playerID: int) | InternalError {
    function Code(): int { if Joined? then 200 else 500 }
  }

  /** `Matchmaking.put`. With no one waiting, a new ID is enqueued; then
      `create_flag_list` runs, with outcome `drawn`. If it raised, the
      handler stops there: the ID stays queued, no record is written and
      the flags stay. Otherwise the flag list is replaced and a record is
      created for the ID. With someone waiting, the head of the queue is
      dequeued, a record for the new ID is created with the head as its
      opponent, and the head's record (if found) gets the new ID as its
      opponent; the flag list stays. */
  function JoinNext(s: State, drawn: FlagList.FlagDraw): (State, JoinReply)
  {
    var id := NextID(s);
    if s.queue == [] then
      if drawn.Raised? then (s.(queue := s.queue + [id]), InternalError)
      else (State(s.queue + [id], s.records[id := NewRecord(None)], drawn.flags), Joined(false, id))
    else
      var head := s.queue[0];
      var added := s.records[id := NewRecord(Some(head))];
      var patched := if head in added then added[head := added[head].(matchedPlayer := Some(id))] else added;
      (State(s.queue[1..], patched, s.flags), Joined(true, id))
  }

  /** Join with nobody waiting, when the flag list is drawn: exactly one
      record is added, under the next ID, with score 0, no opponent and not
      finished; the queue becomes that ID alone; the flags are replaced; the
      reply is "not started" with the new ID. */
  lemma JoinWhenQueueEmpty(s: State, flags: seq<string>)
    requires Inv(s) && s.queue == []
    ensures var (t, r) := JoinNext(s, FlagList.Drawn(flags));
      && r == Joined(false, |s.records| + 1)
      && r.playerID !in s.records
      && t.records == s.records[r.playerID := Record(0, None, false)]
      && |t.records| == |s.records| + 1
      && t.queue == [r.playerID]
      && t.flags == flags
  {
  }

  /** Join with nobody waiting, when `create_flag_list` raises: the reply is
      500, the next ID is left queued without a record, and the table and
      the flags are unchanged. */
  lemma JoinWhenFlagListRaises(s: State)
    requires Inv(s) && s.queue == []
    ensures var (t, r) := JoinNext(s, FlagList.Raised);
      && r == InternalError && r.Code() == 500
      && t.queue == [|s.records| + 1]
      && |s.records| + 1 !in t.records
      && t.records == s.records
      && t.flags == s.flags
      && StatusOf(t, Some(|s.records| + 1)) == NotRegistered
  {
  }

  /** Join with a player waiting: exactly the head leaves the queue, the
      rest keeps its order, the flags stay; the reply is "started" with the
      new ID, whose record names the head as opponent. If the head has a
      record, that record names the new player and no other record changes;
      the new player is then never the head. If the head is the ID left
      queued by a failed join, it is the new ID itself, and the only new
      record is that player paired with itself. */
  lemma JoinWhenPlayerWaits(s: State, drawn: FlagList.FlagDraw)
    requires Inv(s) && s.queue != []
    ensures var (t, r) := JoinNext(s, drawn);
      var head := s.queue[0];
      && r == Joined(true, |s.records| + 1)
      && t.queue == s.queue[1..]
      && t.flags == s.flags
      && t.records.Keys == s.records.Keys + {r.playerID}
      && t.records[r.playerID] == Record(0, Some(head), false)
      && (r.playerID != head <==> head in s.records)
      && (head in s.records ==>
            && t.records[head] == s.records[head].(matchedPlayer := Some(r.playerID))
            && forall k :: k in s.records && k != head ==> t.records[k] == s.records[k])
      && (head !in s.records ==> t.records == s.records[head := Record(0, Some(head), false)])
  {
  }

  /** A failed join followed by another join pairs the second joiner with
      itself: both `getID` calls give the ID left in the queue, which is
      then popped as the opponent, and the reply is "started". */
  lemma FailedJoinThenJoinSelfPairs(s: State, drawn: FlagList.FlagDraw)
    requires Inv(s) && s.queue == []
    ensures var (t1, _) := JoinNext(s, FlagList.Raised);
      var (t2, r2) := JoinNext(t1, drawn);
      var id := |s.records| + 1;
      && r2 == Joined(true, id)
      && t2.queue == []
      && t2.records == s.records[id := Record(0, Some(id), false)]
  {
  }

  /** Join keeps the invariant when the flags it installs are a full round. */
  lemma JoinPreservesInv(s: State, drawn: FlagList.FlagDraw)
    requires Inv(s) && (s.queue == [] && drawn.Drawn? ==> |drawn.flags| == FlagList.FlagCount)
    ensures Inv(JoinNext(s, drawn).0)
  {
    var id := NextID(s);
    var t := JoinNext(s, drawn).0;
    if s.queue == [] {
      if drawn.Drawn? {
        assert t.records == s.records[id := NewRecord(None)];
        forall k | k in t.records && t.records[k].matchedPlayer.Some?
          ensures Paired(t, k, t.records[k].matchedPlayer.value)
        {
          assert Paired(s, k, s.records[k].matchedPlayer.value);
        }
      }
    } else {
      var head := s.queue[0];
      assert |t.records| == |s.records| + 1;
      forall k | k in t.records && t.records[k].matchedPlayer.Some?
        ensures Paired(t, k, t.records[k].matchedPlayer.value)
      {
        if k != id && k != head {
          assert Paired(s, k, s.records[k].matchedPlayer.value);
        }
      }
    }
  }

  /** In a run where `create_flag_list` returns, join keeps every queued ID
      registered and pairs nobody with itself. */
  lemma JoinKeepsClean(s: State, drawn: FlagList.FlagDraw)
    requires Inv(s) && Clean(s) && (s.queue == [] ==> drawn.Drawn?)
    ensures Clean(JoinNext(s, drawn).0)
  {
  }

  // ---------------------------------------------------------------- status

  /** The answer to a status request. */
  datatype StatusReply = Status(startedMatchmaking: bool) | NotRegistered {
    function Code(): int { if Status? then 200 else 401 }
  }

  /** `Matchmaking.post`: a player without a record is "not registered";
      a registered one is told matchmaking has started iff the queue is
      empty. Nothing changes. */
  function StatusOf(s: State, playerID: Option<int>): StatusReply
  {
    if playerID.Some? && playerID.value in s.records then Status(s.queue == [])
    else NotRegistered
  }

  /** Status answers 401 exactly for unknown or missing IDs, and otherwise
      reports whether the queue is empty, not whether this player has an
      opponent. */
  lemma StatusMeaning(s: State, playerID: Option<int>)
    ensures StatusOf(s, playerID).Code() == 401 <==> playerID.None? || playerID.value !in s.records
    ensures StatusOf(s, playerID).Status? ==> StatusOf(s, playerID).startedMatchmaking == (s.queue == [])
  {
  }

  // ---------------------------------------------------------------- leave

  /** `deque.remove(x)`: the queue without the first occurrence of `x`. */
  function RemoveFirst(q: seq<int>, x: int): (r: seq<int>)
    requires x in q
    ensures |r| == |q| - 1
  {
    if q[0] == x then q[1..] else [q[0]] + RemoveFirst(q[1..], x)
  }

  /** The position of the first occurrence of `x` in `q`. */
  function FirstIndex(q: seq<int>, x: int): (i: nat)
    requires x in q
    ensures i < |q| && q[i] == x && x !in q[..i]
  {
    if q[0] == x then 0 else 1 + FirstIndex(q[1..], x)
  }

  /** Removing the first occurrence keeps everything before it and
      everything after it, in order. */
  lemma {:induction false} RemoveFirstKeepsOrder(q: seq<int>, x: int)
    requires x in q
    ensures RemoveFirst(q, x) == q[..FirstIndex(q, x)] + q[FirstIndex(q, x) + 1..]
  {
    if q[0] != x {
      var i := FirstIndex(q[1..], x);
      RemoveFirstKeepsOrder(q[1..], x);
      calc {
        RemoveFirst(q, x);
        [q[0]] + RemoveFirst(q[1..], x);
        [q[0]] + (q[1..][..i] + q[1..][i + 1..]);
        { assert q[1..][..i] == q[1..i + 1]; assert q[1..][i + 1..] == q[i + 2..]; }
        ([q[0]] + q[1..i + 1]) + q[i + 2..];
        { assert [q[0]] + q[1..i + 1] == q[..i + 1]; }
        q[..i + 1] + q[i + 2..];
      }
    }
  }

  /** Removing the first occurrence takes exactly one copy of `x` out of
      the queue and keeps every other ID. */
  lemma RemoveFirstMultiset(q: seq<int>, x: int)
    requires x in q
    ensures multiset(RemoveFirst(q, x)) == multiset(q) - multiset{x}
  {
    var i := FirstIndex(q, x);
    RemoveFirstKeepsOrder(q, x);
    var before, after := q[..i], q[i + 1..];
    assert q == before + ([x] + after);
    assert multiset(q) == multiset(before) + (multiset{x} + multiset(after));
    assert multiset(RemoveFirst(q, x)) == multiset(before) + multiset(after);
  }

  /** The answer to a leave request. */
  datatype LeaveReply = Removed | NotInQueue {
    function Code(): int { if Removed? then 200 else 400 }
  }

  /** `Matchmaking.patch`: removes the first occurrence of the ID from the
      queue (200), or reports that it is not queued (400). Records are not
      touched. */
  function LeaveNext(s: State, playerID: Option<int>): (State, LeaveReply)
  {
    if playerID.Some? && playerID.value in s.queue then
      (s.(queue := RemoveFirst(s.queue, playerID.value)), Removed)
    else (s, NotInQueue)
  }

  /** Leave removes a queued ID's first occurrence and keeps the rest in
      order; an absent ID leaves the queue alone. Records and flags never
      change. */
  lemma LeaveEffect(s: State, playerID: Option<int>)
    ensures var (t, r) := LeaveNext(s, playerID);
      && t.records == s.records && t.flags == s.flags
      && (r == Removed <==> playerID.Some? && playerID.value in s.queue)
      && (r == Removed ==>
            var i := FirstIndex(s.queue, playerID.value);
            t.queue == s.queue[..i] + s.queue[i + 1..])
      && (r == NotInQueue ==> t.queue == s.queue)
  {
    if playerID.Some? && playerID.value in s.queue {
      RemoveFirstKeepsOrder(s.queue, playerID.value);
    }
  }

  lemma LeavePreservesInv(s: State, playerID: Option<int>)
    requires Inv(s)
    ensures Inv(LeaveNext(s, playerID).0)
  {
  }

  // ---------------------------------------------------------------- score report

  /** What a score report tells about the opponent. */
  datatype OpponentView = OpponentView(score: int, gameFinished: bool)

  /** Python truthiness of an optional integer argument or column. */
  predicate Truthy(v: Option<int>)
  {
    v.Some? && v.value != 0
  }

  /** `CommunicationAPI.patch`: for a present, known ID the caller's score
      is overwritten when the supplied score is truthy; then, if the
      caller's opponent is set and has a record, the opponent's score and
      finished flag come back. Otherwise there is no result. */
  function ReportScoreNext(s: State, playerID: Option<int>, score: Option<int>): (State, Option<OpponentView>)
  {
    if !Truthy(playerID) || playerID.value !in s.records then (s, None)
    else
      var id := playerID.value;
      var t := if Truthy(score) then s.(records := s.records[id := s.records[id].(playerScore := score.value)]) else s;
      var opponent := t.records[id].matchedPlayer;
      if Truthy(opponent) && opponent.value in t.records then
        (t, Some(OpponentView(t.records[opponent.value].playerScore, t.records[opponent.value].gameFinished)))
      else (t, None)
  }

  /** A score report changes at most the caller's score, and only to a
      supplied nonzero score; it answers with the opponent's current score
      and finished flag exactly when the caller is known and has an
      opponent on record. */
  lemma ReportScoreEffect(s: State, playerID: Option<int>, score: Option<int>)
    requires Inv(s)
    ensures var (t, r) := ReportScoreNext(s, playerID, score);
      && t.queue == s.queue && t.flags == s.flags
      && t.records.Keys == s.records.Keys
      && (forall k :: k in s.records ==>
            t.records[k] == if Truthy(playerID) && k == playerID.value && Truthy(score)
                            then s.records[k].(playerScore := score.value)
                            else s.records[k])
      && (r.Some? <==> Truthy(playerID) && playerID.value in s.records && s.records[playerID.value].matchedPlayer.Some?)
      && (r.Some? ==>
            var o := s.records[playerID.value].matchedPlayer.value;
            && r.value == OpponentView(t.records[o].playerScore, t.records[o].gameFinished)
            && (o != playerID.value ==> r.value == OpponentView(s.records[o].playerScore, s.records[o].gameFinished)))
  {
  }

  lemma ReportScorePreservesInv(s: State, playerID: Option<int>, score: Option<int>)
    requires Inv(s)
    ensures Inv(ReportScoreNext(s, playerID, score).0)
  {
  }

  // ---------------------------------------------------------------- mark finished

  /** The answer to a finish request. */
  datatype FinishReply = StateSet | PlayerNotFound | NotIdentified {
    function Code(): int { if StateSet? then 200 else if PlayerNotFound? then 500 else 400 }
  }

  /** `CommunicationAPI.post`: a known ID's record is marked finished,
      whatever `gameFinished` value the client sent (200); an unknown ID is
      "not found" (500); a missing or 0 ID is rejected (400). */
  function FinishNext(s: State, playerID: Option<int>, sentFinished: Option<bool>): (State, FinishReply)
  {
    if !Truthy(playerID) then (s, NotIdentified)
    else if playerID.value !in s.records then (s, PlayerNotFound)
    else (s.(records := s.records[playerID.value := s.records[playerID.value].(gameFinished := true)]), StateSet)
  }

  /** Finishing sets only the caller's flag, to true, and changes nothing on
      any error path. */
  lemma FinishEffect(s: State, playerID: Option<int>, sentFinished: Option<bool>)
    ensures var (t, r) := FinishNext(s, playerID, sentFinished);
      && t.queue == s.queue && t.flags == s.flags
      && t.records.Keys == s.records.Keys
      && (r == NotIdentified <==> !Truthy(playerID))
      && (r == PlayerNotFound <==> Truthy(playerID) && playerID.value !in s.records)
      && (r != StateSet ==> t == s)
      && (r == StateSet ==>
            && t.records[playerID.value] == s.records[playerID.value].(gameFinished := true)
            && forall k :: k in s.records && k != playerID.value ==> t.records[k] == s.records[k])
  {
  }

  lemma FinishPreservesInv(s: State, playerID: Option<int>, sentFinished: Option<bool>)
    requires Inv(s)
    ensures Inv(FinishNext(s, playerID, sentFinished).0)
  {
  }

  // ---------------------------------------------------------------- cross-player

  /** Once a player marks itself finished, its opponent's next score report
      sees `gameFinished` true, with the player's current score (unless the
      player is its own opponent and that report overwrites the score). */
  lemma FinishVisibleToOpponent(s: State, p: int, sentFinished: Option<bool>, score: Option<int>)
    requires Inv(s)
    requires p in s.records && s.records[p].matchedPlayer.Some?
    ensures var t := FinishNext(s, Some(p), sentFinished).0;
      var q := s.records[p].matchedPlayer.value;
      var r := ReportScoreNext(t, Some(q), score).1;
      && r.Some? && r.value.gameFinished
      && (q != p || !Truthy(score) ==> r.value.score == s.records[p].playerScore)
  {
  }

  /** Leave, score reports and finishing keep a clean run clean. */
  lemma OtherRequestsKeepClean(s: State, playerID: Option<int>, score: Option<int>, sentFinished: Option<bool>)
    requires Inv(s) && Clean(s)
    ensures Clean(LeaveNext(s, playerID).0)
    ensures Clean(ReportScoreNext(s, playerID, score).0)
    ensures Clean(FinishNext(s, playerID, sentFinished).0)
  {
  }

  /** Arrival-order pairing from a fresh server: A joins and waits, B joins
      and is paired with A; both records point at each other, A's status is
      then "started", and A's score report returns B's score 0, not
      finished. */
  lemma TwoPlayerScenario(drawn: seq<string>, other: FlagList.FlagDraw, score: Option<int>)
    ensures var (s1, r1) := JoinNext(Initial, FlagList.Drawn(drawn));
      var (s2, r2) := JoinNext(s1, other);
      && r1 == Joined(false, 1)
      && r2 == Joined(true, 2)
      && s2.queue == []
      && s2.records[1].matchedPlayer == Some(2)
      && s2.records[2].matchedPlayer == Some(1)
      && StatusOf(s2, Some(1)) == Status(true)
      && ReportScoreNext(s2, Some(1), score).1 == Some(OpponentView(0, false))
  {
  }

  /** Status is a proxy for "the queue is empty": a player who joined and
      then left the queue, without ever getting an opponent, is told
      matchmaking has started. */
  lemma StatusAfterLeave(drawn: seq<string>)
    ensures var (s1, r1) := JoinNext(Initial, FlagList.Drawn(drawn));
      var (s2, _) := LeaveNext(s1, Some(r1.playerID));
      && s2.records[r1.playerID].matchedPlayer == None
      && StatusOf(s2, Some(r1.playerID)) == Status(true)
  {
  }

  /** After a player leaves the queue, the next joiner waits instead of
      being paired with the one who left. */
  lemma LeaveThenJoin(drawn: seq<string>, other: seq<string>)
    ensures var (s1, r1) := JoinNext(Initial, FlagList.Drawn(drawn));
      var (s2, _) := LeaveNext(s1, Some(r1.playerID));
      var (s3, r3) := JoinNext(s2, FlagList.Drawn(other));
      && r3 == Joined(false, 2)
      && s3.records[2].matchedPlayer == None
      && s3.records[1] == s1.records[1]
  {
  }
}
