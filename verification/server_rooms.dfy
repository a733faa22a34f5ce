/**
 * The rooms of server.js as objects updated in place: a `Room` per room record and a `Registry`
 * for the `rooms` Map. Every method is proved against the function of module RoomRules for the
 * same handler, and the registry keeps each room filed under its own code and well-formed.
 */
module ServerRooms {
  import opened Common
  import opened Text
  import opened Draws
  import Dict
  import Words
  import opened RoomRules

  /**
   * generateCode, with each `Math.floor(10000 + Math.random() * 90000)` given as a draw: the code
   * is the first drawn one that no room holds, and it has five digits.
   */
  method GenerateCode(inUse: set<string>, draws: seq<nat>) returns (code: string)
    requires forall j :: 0 <= j < |draws| ==> 10000 <= draws[j] <= 99999
    requires exists j :: 0 <= j < |draws| && DecimalString(draws[j]) !in inUse
    ensures code !in inUse && |code| == 5 && code[0] != '0'
    ensures exists k :: 0 <= k < |draws| && code == DecimalString(draws[k]) &&
              forall j :: 0 <= j < k ==> DecimalString(draws[j]) in inUse
  {
    var k := 0;
    code := DecimalString(draws[0]);
    while code in inUse
      invariant 0 <= k < |draws| && code == DecimalString(draws[k])
      invariant forall j :: 0 <= j < k ==> DecimalString(draws[j]) in inUse
      invariant exists j :: k <= j < |draws| && DecimalString(draws[j]) !in inUse
      decreases |draws| - k
    {
      k := k + 1;
      code := DecimalString(draws[k]);
    }
    FiveDigitCode(draws[k]);
  }

  /** The scan of resolveOnlineRound over `Object.entries(gs.votes)`, from 0 votes and no name. */
  method FindMostVoted(votes: seq<Dict.Entry<nat>>) returns (mostVoted: string)
    ensures mostVoted == MostVoted(votes)
  {
    var maxVotes: nat := 0;
    mostVoted := "";
    var i := 0;
    while i < |votes|
      invariant 0 <= i <= |votes|
      invariant mostVoted == MostVoted(votes[..i])
      invariant maxVotes == Tally.ScanBest(Counts(votes[..i]), 0)
    {
      assert votes[..i + 1][..i] == votes[..i];
      assert Counts(votes[..i + 1])[..i] == Counts(votes[..i]);
      if votes[i].val > maxVotes {
        maxVotes := votes[i].val;
        mostVoted := votes[i].key;
      }
      i := i + 1;
    }
    assert votes[..i] == votes;
  }

  /**
   * The question-mode loop of startOnlineRound: for each player in turn, draw until the index is
   * not its own and record that player's name as its target.
   */
  method PickTargets(ps: seq<Player>, targetDraws: seq<seq<nat>>) returns (qs: seq<Player>)
    requires TargetDrawsFit(|ps|, targetDraws)
    ensures qs == AssignTargets(ps, ChosenTargets(|ps|, targetDraws))
  {
    ghost var t := ChosenTargets(|ps|, targetDraws);
    ghost var want := AssignTargets(ps, t);
    qs := ps;
    for idx := 0 to |ps|
      invariant |qs| == |ps|
      invariant forall j :: 0 <= j < idx ==> qs[j] == want[j]
      invariant forall j :: idx <= j < |qs| ==> qs[j] == ps[j]
      invariant forall j :: 0 <= j < |qs| ==> qs[j].name == ps[j].name
    {
      var k := DrawUntilOther(targetDraws[idx], idx);
      var targetIdx := targetDraws[idx][k];
      assert targetIdx == t[idx];
      qs := qs[idx := qs[idx].(askedTarget := Some(qs[targetIdx].name))];
    }
  }

  /** The other mode's loop: every player's target is cleared. */
  method ClearAllTargets(ps: seq<Player>) returns (qs: seq<Player>)
    ensures qs == ClearTargets(ps)
  {
    qs := ps;
    for idx := 0 to |ps|
      invariant |qs| == |ps|
      invariant forall j :: 0 <= j < idx ==> qs[j] == ps[j].(askedTarget := None)
      invariant forall j :: idx <= j < |qs| ==> qs[j] == ps[j]
    {
      qs := qs[idx := qs[idx].(askedTarget := None)];
    }
  }

  /** The scoring loop of finalizeOnlineResults when the spy was caught and guessed wrong. */
  method AwardEachInsider(ps: seq<Player>, spyId: string) returns (qs: seq<Player>)
    ensures qs == AwardInsiders(ps, spyId)
  {
    qs := ps;
    for i := 0 to |ps|
      invariant |qs| == |ps|
      invariant forall j :: 0 <= j < i ==> qs[j] == AwardInsiders(ps, spyId)[j]
      invariant forall j :: i <= j < |qs| ==> qs[j] == ps[j]
    {
      if qs[i].id != spyId {
        qs := qs[i := qs[i].(score := qs[i].score + 2)];
      }
    }
  }

  /** One room record of server.js. */
  class Room {
    const code: string
    var hostId: string
    var players: seq<Player>
    var settings: Settings
    var gameState: Option<Round>
    var currentRound: nat

    /** The room as a value, the state the rules speak of. */
    function Value(): RoomValue
      reads this
    {
      RoomValue(code, hostId, players, settings, gameState, currentRound)
    }

    /** createRoom's record for an already chosen code. */
    constructor (code: string, hostId: string, hostName: string)
      ensures Value() == NewRoom(code, hostId, hostName)
    {
      this.code := code;
      this.hostId := hostId;
      players := [Player(hostId, hostName, Avatars[0], 0, true, true, None)];
      settings := DefaultSettings;
      gameState := None;
      currentRound := 0;
    }

    /** join-room once the code is found; `suffix` is the random number for a taken name. */
    method Join(id: string, name: string, suffix: nat) returns (error: Option<RoomError>)
      modifies this
      ensures RoomRules.Join(old(Value()), id, name, suffix).Joined? ==>
        error.None? && Value() == RoomRules.Join(old(Value()), id, name, suffix).room
      ensures RoomRules.Join(old(Value()), id, name, suffix).Rejected? ==>
        error == Some(RoomRules.Join(old(Value()), id, name, suffix).error) && Value() == old(Value())
    {
      if |players| >= MaxPlayers {
        return Some(RoomFull);
      }
      if gameState.Some? {
        return Some(GameInProgress);
      }
      var playerName := name;
      if NameTaken(players, name) {
        playerName := name + " " + DecimalString(suffix);
      }
      players := players + [Player(id, playerName, Avatars[|players| % |Avatars|], 0, false, false, None)];
      error := None;
    }

    method ToggleReady(id: string)
      modifies this
      ensures Value() == RoomRules.ToggleReady(old(Value()), id)
    {
      match PlayerIndex(players, id)
      case Some(i) =>
        players := players[i := players[i].(ready := !players[i].ready)];
      case None =>
    }

    method UpdateSettings(sender: string, patch: SettingsPatch)
      modifies this
      ensures Value() == RoomRules.UpdateSettings(old(Value()), sender, patch)
    {
      if hostId == sender {
        settings := Merge(settings, patch);
      }
    }

    /**
     * startOnlineRound, with the random choices given: the word getRandomWord drew, `spyIndex` into
     * the players, and `targetDraws[i]` listing player i's draws for its question target.
     */
    method StartRound(word: string, spyIndex: nat, targetDraws: seq<seq<nat>>)
      requires spyIndex < |players|
      requires QuestionMode(settings) ==> TargetDrawsFit(|players|, targetDraws)
      modifies this
      ensures Value() == RoomRules.StartRound(old(Value()), word, spyIndex,
          if QuestionMode(old(settings)) then ChosenTargets(|old(players)|, targetDraws) else [])
    {
      currentRound := currentRound + 1;
      gameState := Some(FreshRound(word, players[spyIndex]));
      if QuestionMode(settings) {
        players := PickTargets(players, targetDraws);
      } else {
        players := ClearAllTargets(players);
      }
    }

    /** The hints-phase timeout of startOnlineRound firing. */
    method HintsTimerFired()
      modifies this
      ensures Value() == HintsTimer(old(Value()))
    {
      if gameState.Some? {
        gameState := Some(gameState.value.(phase := Hints));
      }
    }

    method SubmitHint(id: string, hint: string)
      modifies this
      ensures Value() == RoomRules.SubmitHint(old(Value()), id, hint)
    {
      if gameState.None? {
        return;
      }
      match PlayerIndex(players, id)
      case None =>
      case Some(i) =>
        var player := players[i];
        var hintText := hint;
        if QuestionMode(settings) {
          hintText := QuestionText(player.askedTarget);
        }
        var gs := gameState.value;
        gs := gs.(hints := gs.hints + [Hint(player.name, player.avatar, hintText)]);
        gs := gs.(hintsReceived := gs.hintsReceived + 1);
        if gs.hintsReceived >= |players| {
          gs := gs.(phase := Voting);
        }
        gameState := Some(gs);
    }

    /** finalizeOnlineResults. */
    method Finalize(caught: bool, correct: bool)
      modifies this
      ensures Value() == RoomRules.Finalize(old(Value()), caught, correct)
    {
      if gameState.None? {
        return;
      }
      var gs := gameState.value;
      gameState := Some(gs.(phase := Results));
      if caught && !correct {
        players := AwardEachInsider(players, gs.spyId);
      } else {
        match PlayerIndex(players, gs.spyId)
        case Some(k) =>
          players := players[k := players[k].(score := players[k].score + 3)];
        case None =>
      }
    }

    /** resolveOnlineRound; the result says whether the spy's guessing window opened. */
    method Resolve() returns (spyChance: bool)
      requires gameState.Some?
      modifies this
      ensures Value() == RoomRules.Resolve(old(Value())).room
      ensures spyChance == RoomRules.Resolve(old(Value())).spyChance
    {
      var mostVoted := FindMostVoted(gameState.value.votes);
      spyChance := mostVoted == gameState.value.spyName;
      if !spyChance {
        Finalize(false, false);
      }
    }

    method SubmitVote(voter: string, candidate: string) returns (spyChance: bool)
      modifies this
      ensures Value() == RoomRules.SubmitVote(old(Value()), voter, candidate).room
      ensures spyChance == RoomRules.SubmitVote(old(Value()), voter, candidate).spyChance
    {
      spyChance := false;
      if gameState.None? || voter in gameState.value.votedPlayers {
        return;
      }
      var gs := gameState.value;
      gs := gs.(votedPlayers := gs.votedPlayers + {voter});
      gs := gs.(votes := Dict.Increment(gs.votes, candidate));
      gameState := Some(gs);
      if |gs.votedPlayers| >= |players| {
        spyChance := Resolve();
      }
    }

    method SpyGuess(guess: string)
      modifies this
      ensures Value() == RoomRules.SpyGuess(old(Value()), guess)
    {
      if gameState.Some? {
        Finalize(true, guess == gameState.value.word);
      }
    }

    /** The 15-second timeout of the spy's guessing window firing. */
    method SpyChanceTimerFired()
      modifies this
      ensures Value() == SpyChanceTimer(old(Value()))
    {
      if gameState.Some? && gameState.value.phase == Voting {
        Finalize(true, false);
      }
    }

    /** The game-over branch of next-round. */
    method EndGame()
      modifies this
      ensures Value() == RoomRules.EndGame(old(Value()))
    {
      gameState := None;
      currentRound := 0;
    }

    /** handleLeave once the room is found; an emptied room keeps no players. */
    method Leave(id: string) returns (outcome: LeaveOutcome)
      modifies this
      ensures outcome == RoomRules.Leave(old(Value()), id)
      ensures outcome == NotMember ==> Value() == old(Value())
      ensures outcome == Emptied ==> Value() == old(Value()).(players := [])
      ensures outcome.Stayed? ==> Value() == outcome.room
    {
      match PlayerIndex(players, id)
      case None =>
        return NotMember;
      case Some(i) =>
        var leaving := players[i];
        players := players[..i] + players[i + 1..];
        if |players| == 0 {
          return Emptied;
        }
        if leaving.isHost {
          players := players[0 := players[0].(isHost := true)];
          hostId := players[0].id;
        }
        var spyChance := false;
        if gameState.Some? {
          var gs := gameState.value;
          if leaving.id == gs.spyId {
            gameState := None;
          } else if gs.phase == Hints {
            if gs.hintsReceived >= |players| {
              gameState := Some(gs.(phase := Voting));
            }
          } else if gs.phase == Voting {
            if |gs.votedPlayers| >= |players| {
              spyChance := Resolve();
            }
          }
        }
        outcome := Stayed(Value(), spyChance);
    }
  }

  /** The server's state: the `rooms` Map of codes to room records, and the WORDS lists. */
  class Registry {
    var rooms: map<string, Room>
    const words: seq<Words.Category>

    /** Every room is filed under its own code and satisfies the room invariant; the word lists are usable. */
    ghost predicate Valid()
      reads this, rooms.Values
    {
      && Words.ServerTable(words)
      && (forall c :: c in rooms ==> rooms[c].code == c)
      && (forall c {:trigger RoomInv(rooms[c].Value())} :: c in rooms ==> RoomInv(rooms[c].Value()))
    }

    /** The server starts with no rooms and its word lists; ServerWords.Table is such a list. */
    constructor (table: seq<Words.Category>)
      requires Words.ServerTable(table)
      ensures Valid() && rooms == map[] && words == table
    {
      rooms := map[];
      words := table;
    }

    /** create-room: a fresh room under a fresh code; no other room changes. */
    method CreateRoom(hostId: string, hostName: string, codeDraws: seq<nat>) returns (code: string)
      requires Valid()
      requires forall j :: 0 <= j < |codeDraws| ==> 10000 <= codeDraws[j] <= 99999
      requires exists j :: 0 <= j < |codeDraws| && DecimalString(codeDraws[j]) !in rooms
      modifies this
      ensures Valid()
      ensures code !in old(rooms) && |code| == 5 && rooms.Keys == old(rooms).Keys + {code}
      ensures forall c :: c in old(rooms) ==> rooms[c] == old(rooms[c])
      ensures fresh(rooms[code]) && rooms[code].Value() == NewRoom(code, hostId, hostName)
    {
      code := GenerateCode(rooms.Keys, codeDraws);
      var room := new Room(code, hostId, hostName);
      rooms := rooms[code := room];
    }

    method JoinRoom(code: string, id: string, name: string, suffix: nat) returns (error: Option<RoomError>)
      requires Valid()
      modifies rooms.Values
      ensures Valid() && rooms == old(rooms)
      ensures code !in rooms ==> error == Some(RoomNotFound)
      ensures code in rooms ==> var o := RoomRules.Join(old(rooms[code].Value()), id, name, suffix);
        (o.Joined? ==> error.None? && rooms[code].Value() == o.room) &&
        (o.Rejected? ==> error == Some(o.error) && rooms[code].Value() == old(rooms[code].Value()))
      ensures forall c :: c in rooms && c != code ==> rooms[c].Value() == old(rooms[c].Value())
    {
      if code !in rooms {
        return Some(RoomNotFound);
      }
      var room := rooms[code];
      JoinRules(room.Value(), id, name, suffix);
      error := room.Join(id, name, suffix);
    }

    method ToggleReady(code: string, id: string)
      requires Valid()
      modifies rooms.Values
      ensures Valid() && rooms == old(rooms)
      ensures code in rooms ==> rooms[code].Value() == RoomRules.ToggleReady(old(rooms[code].Value()), id)
      ensures forall c :: c in rooms && c != code ==> rooms[c].Value() == old(rooms[c].Value())
    {
      if code in rooms {
        var room := rooms[code];
        ToggleReadyTwice(room.Value(), id);
        room.ToggleReady(id);
      }
    }

    method UpdateSettings(code: string, sender: string, patch: SettingsPatch)
      requires Valid()
      modifies rooms.Values
      ensures Valid() && rooms == old(rooms)
      ensures code in rooms ==> rooms[code].Value() == RoomRules.UpdateSettings(old(rooms[code].Value()), sender, patch)
      ensures forall c :: c in rooms && c != code ==> rooms[c].Value() == old(rooms[c].Value())
    {
      if code in rooms {
        var room := rooms[code];
        UpdateSettingsRules(room.Value(), sender, patch);
        room.UpdateSettings(sender, patch);
      }
    }

    /** start-game: host only and at least three players, then startOnlineRound. */
    method StartGame(code: string, sender: string, pick: nat, spyIndex: nat, targetDraws: seq<seq<nat>>) returns (started: bool)
      requires Valid()
      requires code in rooms && sender == rooms[code].hostId && |rooms[code].players| >= MinPlayers ==>
        pick < |Words.ServerPool(words, rooms[code].settings.category)| && spyIndex < |rooms[code].players| &&
        (QuestionMode(rooms[code].settings) ==> TargetDrawsFit(|rooms[code].players|, targetDraws))
      modifies rooms.Values
      ensures Valid() && rooms == old(rooms)
      ensures started <==> code in rooms && old(rooms[code].hostId) == sender && |old(rooms[code].players)| >= MinPlayers
      ensures code in rooms && !started ==> rooms[code].Value() == old(rooms[code].Value())
      ensures started ==> rooms[code].Value() == RoomRules.StartRound(old(rooms[code].Value()),
        Words.GetRandomWord(words, old(rooms[code].settings).category, pick), spyIndex,
        if QuestionMode(old(rooms[code].settings)) then ChosenTargets(|old(rooms[code].players)|, targetDraws) else [])
      ensures forall c :: c in rooms && c != code ==> rooms[c].Value() == old(rooms[c].Value())
    {
      if code !in rooms {
        return false;
      }
      var room := rooms[code];
      if room.hostId != sender || |room.players| < MinPlayers {
        return false;
      }
      var word := Words.GetRandomWord(words, room.settings.category, pick);
      StartRoundKeepsInv(room.Value(), word, spyIndex,
        if QuestionMode(room.settings) then ChosenTargets(|room.players|, targetDraws) else []);
      room.StartRound(word, spyIndex, targetDraws);
      started := true;
    }

    method SubmitHint(code: string, id: string, hint: string)
      requires Valid()
      modifies rooms.Values
      ensures Valid() && rooms == old(rooms)
      ensures code in rooms ==> rooms[code].Value() == RoomRules.SubmitHint(old(rooms[code].Value()), id, hint)
      ensures forall c :: c in rooms && c != code ==> rooms[c].Value() == old(rooms[c].Value())
    {
      if code in rooms {
        var room := rooms[code];
        SubmitHintRules(room.Value(), id, hint);
        room.SubmitHint(id, hint);
      }
    }

    method SubmitVote(code: string, voter: string, candidate: string) returns (spyChance: bool)
      requires Valid()
      modifies rooms.Values
      ensures Valid() && rooms == old(rooms)
      ensures code !in rooms ==> !spyChance
      ensures code in rooms ==> (rooms[code].Value() == RoomRules.SubmitVote(old(rooms[code].Value()), voter, candidate).room
        && spyChance == RoomRules.SubmitVote(old(rooms[code].Value()), voter, candidate).spyChance)
      ensures forall c :: c in rooms && c != code ==> rooms[c].Value() == old(rooms[c].Value())
    {
      spyChance := false;
      if code in rooms {
        var room := rooms[code];
        SubmitVoteKeepsInv(room.Value(), voter, candidate);
        spyChance := room.SubmitVote(voter, candidate);
      }
    }

    method SpyGuess(code: string, guess: string)
      requires Valid()
      modifies rooms.Values
      ensures Valid() && rooms == old(rooms)
      ensures code in rooms ==> rooms[code].Value() == RoomRules.SpyGuess(old(rooms[code].Value()), guess)
      ensures forall c :: c in rooms && c != code ==> rooms[c].Value() == old(rooms[c].Value())
    {
      if code in rooms {
        var room := rooms[code];
        if room.gameState.Some? {
          FinalizeScoring(room.Value(), true, guess == room.gameState.value.word);
        }
        room.SpyGuess(guess);
      }
    }

    /**
     * next-round, with the player minimum that start-game enforces (see NextRoundDecision): game over
     * resets the room to the lobby, otherwise startOnlineRound runs.
     */
    method NextRound(code: string, sender: string, pick: nat, spyIndex: nat, targetDraws: seq<seq<nat>>) returns (d: Option<NextDecision>)
      requires Valid()
      requires code in rooms && NextRoundDecision(rooms[code].Value(), sender) == NewRound ==>
        pick < |Words.ServerPool(words, rooms[code].settings.category)| && spyIndex < |rooms[code].players| &&
        (QuestionMode(rooms[code].settings) ==> TargetDrawsFit(|rooms[code].players|, targetDraws))
      modifies rooms.Values
      ensures Valid() && rooms == old(rooms)
      ensures code !in rooms <==> d.None?
      ensures code in rooms ==> d == Some(NextRoundDecision(old(rooms[code].Value()), sender))
      ensures d == Some(GameOver) ==> rooms[code].Value() == EndGame(old(rooms[code].Value()))
      ensures d == Some(NotHost) || d == Some(TooFewPlayers) ==> rooms[code].Value() == old(rooms[code].Value())
      ensures d == Some(NewRound) ==> rooms[code].Value() == RoomRules.StartRound(old(rooms[code].Value()),
        Words.GetRandomWord(words, old(rooms[code].settings).category, pick), spyIndex,
        if QuestionMode(old(rooms[code].settings)) then ChosenTargets(|old(rooms[code].players)|, targetDraws) else [])
      ensures forall c :: c in rooms && c != code ==> rooms[c].Value() == old(rooms[c].Value())
    {
      if code !in rooms {
        return None;
      }
      var room := rooms[code];
      var decision := NextRoundDecision(room.Value(), sender);
      if decision == GameOver {
        room.EndGame();
      } else if decision == NewRound {
        var word := Words.GetRandomWord(words, room.settings.category, pick);
        StartRoundKeepsInv(room.Value(), word, spyIndex,
          if QuestionMode(room.settings) then ChosenTargets(|room.players|, targetDraws) else []);
        room.StartRound(word, spyIndex, targetDraws);
      }
      d := Some(decision);
    }

    /** leave-room, and handleLeave for one room: an emptied room's code is deleted. */
    method LeaveRoom(code: string, id: string) returns (outcome: LeaveOutcome)
      requires Valid()
      modifies this, rooms.Values
      ensures Valid()
      ensures code !in old(rooms) ==> outcome == NotMember && rooms == old(rooms)
      ensures code in old(rooms) ==> outcome == RoomRules.Leave(old(rooms[code].Value()), id)
      ensures outcome == Emptied ==> rooms == old(rooms) - {code}
      ensures outcome != Emptied ==> rooms == old(rooms)
      ensures code in old(rooms) && outcome != Emptied ==> rooms[code].Value() == LeftRoom(old(rooms[code].Value()), id)
      ensures forall c :: c in rooms && c != code ==> rooms[c].Value() == old(rooms[c].Value())
    {
      if code !in rooms {
        return NotMember;
      }
      var room := rooms[code];
      LeaveMembers(room.Value(), id);
      outcome := room.Leave(id);
      if outcome == Emptied {
        rooms := rooms - {code};
      }
    }

    /**
     * Where disconnect stands once the codes outside `todo` are visited: `rooms0` and `before` are
     * the map and the room values it started from, and `chances` holds the visited codes whose
     * spy-guess window opened.
     */
    ghost predicate Visited(id: string, rooms0: map<string, Room>, before: map<string, RoomValue>,
                            todo: set<string>, chances: set<string>)
      reads this, rooms.Values
    {
      && Valid()
      && (forall c :: c in rooms ==> c in rooms0 && rooms[c] == rooms0[c])
      && (forall c :: c in rooms0 ==> c in before)
      && (forall c :: c in todo ==> c in rooms && rooms[c].Value() == before[c])
      && (forall c :: c in rooms0 && c !in todo ==> (c in rooms <==> RoomRules.Leave(before[c], id) != Emptied))
      && (forall c :: c in rooms && c !in todo ==> rooms[c].Value() == LeftRoom(before[c], id))
      && (forall c :: c in chances <==> c in rooms0 && c !in todo && OpensSpyChance(RoomRules.Leave(before[c], id)))
    }

    /** One visit of disconnect: handleLeave on some code still to visit. */
    method LeaveNext(id: string, ghost rooms0: map<string, Room>, ghost before: map<string, RoomValue>,
                     todo: set<string>, chances: set<string>)
      returns (todo': set<string>, chances': set<string>)
      requires Visited(id, rooms0, before, todo, chances) && todo != {}
      modifies this, rooms.Values
      ensures Visited(id, rooms0, before, todo', chances') && todo' < todo
    {
      var c :| c in todo;
      var outcome := LeaveRoom(c, id);
      chances' := if OpensSpyChance(outcome) then chances + {c} else chances;
      todo' := todo - {c};
    }

    /**
     * disconnect: handleLeave on every room. Rooms are independent, so the order of the visits does
     * not matter: a room is deleted exactly when the departure empties it, every other room holds
     * what handleLeave leaves in it, and the codes whose spy-guess window opened are returned.
     */
    method Disconnect(id: string) returns (chances: set<string>)
      requires Valid()
      modifies this, rooms.Values
      ensures Valid()
      ensures forall c :: c in rooms <==> c in old(rooms) && RoomRules.Leave(old(rooms[c].Value()), id) != Emptied
      ensures forall c :: c in rooms ==> rooms[c] == old(rooms[c]) && rooms[c].Value() == LeftRoom(old(rooms[c].Value()), id)
      ensures forall c :: c in chances <==> c in old(rooms) && OpensSpyChance(RoomRules.Leave(old(rooms[c].Value()), id))
    {
      ghost var rooms0 := rooms;
      ghost var before := map c | c in rooms :: rooms[c].Value();
      var todo := rooms.Keys;
      chances := {};
      while todo != {}
        invariant Visited(id, rooms0, before, todo, chances)
        decreases todo
      {
        assert rooms.Values <= rooms0.Values;
        todo, chances := LeaveNext(id, rooms0, before, todo, chances);
      }
    }

    /** A room's hints timer firing; the room need not be filed any more. */
    method HintsTimerFired(room: Room)
      requires Valid()
      modifies room
      ensures Valid()
      ensures room.Value() == HintsTimer(old(room.Value()))
    {
      HintsTimerRules(room.Value());
      room.HintsTimerFired();
    }

    /** A room's spy-guess timeout firing; the room need not be filed any more. */
    method SpyChanceTimerFired(room: Room)
      requires Valid()
      modifies room
      ensures Valid()
      ensures room.Value() == SpyChanceTimer(old(room.Value()))
    {
      if room.gameState.Some? {
        FinalizeScoring(room.Value(), true, false);
      }
      room.SpyChanceTimerFired();
    }
  }
}
