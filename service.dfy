/** The server's global state and its request handlers, updated in place:
    `player_queue`, the `Datastorage` table (as a map from `playerID` to the
    row) and `final_flags`. Each handler is proved against the transition
    function of the `Matchmaking` module and keeps that module's invariant. */
module Service {
  import opened Wrappers
  import opened Matchmaking
  import FlagList
  import CountryNames

  class Server {
    var queue: seq<int>
    var records: map<int, Record>
    var finalFlags: seq<string>

    /** The value the fields currently hold. */
    function Abstract(): State
      reads this
    {
      State(queue, records, finalFlags)
    }

    ghost predicate Valid()
      reads this
    {
      Inv(Abstract())
    }

    /** First start, on an empty database: empty queue, empty table, empty
        `final_flags`. */
    constructor ()
      ensures Valid() && Abstract() == Initial
    {
      queue, records, finalFlags := [], map[], [];
    }

    /** Start on the rows an earlier run left in the database file
        (`db.create_all()` keeps them): the table is those rows, while
        `player_queue` and `final_flags` start empty. */
    constructor Restart(rows: map<int, Record>)
      requires Inv(Restarted(rows))
      ensures Valid() && Abstract() == Restarted(rows)
    {
      queue, records, finalFlags := [], rows, [];
    }

    /** `Matchmaking.put`. `content` is the country name file as read by
        `create_flag_list`, and `draws` the positions `random.choice` picks
        there, one draw per nested call the interpreter's recursion limit
        admits. When nobody was waiting and the flag list was drawn, the
        flags are a full round of names from the file; when nobody was
        waiting and fewer than 20 distinct names are in the file, the flag
        list always raises and the join answers 500. */
    method Join(content: string, draws: seq<seq<nat>>) returns (reply: JoinReply)
      requires Valid()
      requires FlagList.ValidDraws(draws, |CountryNames.ParseNames(content)|)
      modifies this
      ensures Valid()
      ensures (Abstract(), reply) == JoinNext(old(Abstract()), FlagList.Outcome(CountryNames.ParseNames(content), draws))
      ensures old(queue) == [] && reply.Joined? ==> FlagList.IsFlagList(finalFlags, CountryNames.ParseNames(content))
      ensures old(queue) == [] && |set n | n in CountryNames.ParseNames(content)| < FlagList.FlagCount ==> reply == InternalError
    {
      ghost var before := Abstract();
      if queue == [] {
        var playerID := NextID(Abstract());
        queue := queue + [playerID];
        var drawn := FlagList.CreateFlagList(content, draws);
        if drawn.Raised? {
          // The exception leaves `put` before the record is written.
          reply := InternalError;
        } else {
          finalFlags := drawn.flags;
          records := records[playerID := NewRecord(None)];
          reply := Joined(false, playerID);
        }
        JoinPreservesInv(before, drawn);
      } else {
        var player2 := NextID(Abstract());
        var player1 := queue[0];
        queue := queue[1..];
        records := records[NextID(Abstract()) := NewRecord(Some(player1))];
        if player1 in records {
          records := records[player1 := records[player1].(matchedPlayer := Some(player2))];
        }
        reply := Joined(true, player2);
        JoinPreservesInv(before, FlagList.Outcome(CountryNames.ParseNames(content), draws));
      }
    }

    /** `Matchmaking.post`. Reads the state and changes nothing. */
    method Status(playerID: Option<int>) returns (reply: StatusReply)
      ensures reply == StatusOf(Abstract(), playerID)
      ensures reply.Code() == 200 <==> playerID.Some? && playerID.value in records
    {
      var found := playerID.Some? && playerID.value in records;
      if found && queue != [] {
        reply := Matchmaking.Status(false);
      } else if found && queue == [] {
        reply := Matchmaking.Status(true);
      } else {
        reply := NotRegistered;
      }
    }

    /** `Matchmaking.patch`: removes the first occurrence of the ID from the queue. */
    method Leave(playerID: Option<int>) returns (reply: LeaveReply)
      requires Valid()
      modifies this
      ensures Valid()
      ensures (Abstract(), reply) == LeaveNext(old(Abstract()), playerID)
    {
      LeavePreservesInv(Abstract(), playerID);
      if playerID.Some? && playerID.value in queue {
        queue := RemoveFirst(queue, playerID.value);
        reply := Removed;
      } else {
        reply := NotInQueue;
      }
    }

    /** `CommunicationAPI.get`: the current round's flags, which are either
        the initial empty list or a full round. */
    function FinalFlags(): (flags: seq<string>)
      reads this
      requires Valid()
      ensures flags == [] || |flags| == FlagList.FlagCount
    {
      finalFlags
    }

    /** `CommunicationAPI.patch`: writes the caller's score when the
        supplied score is truthy, then reads the opponent's record. */
    method ReportScore(playerID: Option<int>, score: Option<int>) returns (opponent: Option<OpponentView>)
      requires Valid()
      modifies this
      ensures Valid()
      ensures (Abstract(), opponent) == ReportScoreNext(old(Abstract()), playerID, score)
    {
      ReportScorePreservesInv(Abstract(), playerID, score);
      opponent := None;
      if Truthy(playerID) && playerID.value in records {
        var id := playerID.value;
        if Truthy(score) {
          records := records[id := records[id].(playerScore := score.value)];
        }
        var secPlayerID := records[id].matchedPlayer;
        if Truthy(secPlayerID) && secPlayerID.value in records {
          var secPlayer := records[secPlayerID.value];
          opponent := Some(OpponentView(secPlayer.playerScore, secPlayer.gameFinished));
        }
      }
    }

    /** `CommunicationAPI.post`: marks the caller's game finished; the
        `gameFinished` value sent by the client is parsed but not used. */
    method MarkFinished(playerID: Option<int>, sentFinished: Option<bool>) returns (reply: FinishReply)
      requires Valid()
      modifies this
      ensures Valid()
      ensures (Abstract(), reply) == FinishNext(old(Abstract()), playerID, sentFinished)
    {
      FinishPreservesInv(Abstract(), playerID, sentFinished);
      if Truthy(playerID) {
        if playerID.value in records {
          records := records[playerID.value := records[playerID.value].(gameFinished := true)];
          reply := StateSet;
        } else {
          reply := PlayerNotFound;
        }
      } else {
        reply := NotIdentified;
      }
    }
  }
}
