/**
 * The single-device engine of game.js as it runs: the global `GameState` record is an object
 * whose fields each engine function updates in place. Every method is proved to take the record
 * to what the matching function of LocalRules says; the loops of game.js are methods of their own,
 * proved against the functions they compute.
 */
module LocalGame {
  import opened Common
  import opened Text
  import opened Draws
  import opened Tally
  import Dict
  import Words
  import opened LocalRules

  // ---------------------------------------------------------------- loops

  /** The name-field loop of startGame. */
  method BuildPlayers(inputs: seq<string>, leaderboard: map<string, nat>, avatars: seq<string>)
    returns (ps: seq<LocalPlayer>)
    requires |avatars| > 0
    ensures ps == NewPlayers(inputs, leaderboard, avatars)
  {
    ghost var want := NewPlayers(inputs, leaderboard, avatars);
    ps := [];
    for i := 0 to |inputs|
      invariant ps == want[..i]
    {
      var name := PlayerName(inputs[i], i);
      ps := ps + [LocalPlayer(name, StoredScore(leaderboard, name), false, avatars[i % |avatars|], None)];
    }
  }

  /** Round 1 of startGame: `sessionStats = {}` and a zeroed entry written for every player. */
  method FreshStats(ps: seq<LocalPlayer>) returns (stats: seq<Dict.Entry<Stats>>)
    ensures stats == AddMissingStats([], ps)
  {
    stats := [];
    for i := 0 to |ps|
      invariant stats == AddMissingStats([], ps[..i])
      invariant forall j :: 0 <= j < |stats| ==> stats[j].val == NoStats
    {
      assert ps[..i + 1][..i] == ps[..i];
      var f := Dict.Find(stats, ps[i].name);
      if f.Some? {
        assert stats[f.value] == Dict.Entry(ps[i].name, NoStats);
        assert stats[f.value := Dict.Entry(ps[i].name, NoStats)] == stats;
      }
      stats := Dict.Put(stats, ps[i].name, NoStats);
    }
    assert ps[..|ps|] == ps;
  }

  /** Later rounds of startGame: a zeroed entry for every player who has none. */
  method FillMissingStats(stats0: seq<Dict.Entry<Stats>>, ps: seq<LocalPlayer>) returns (stats: seq<Dict.Entry<Stats>>)
    ensures stats == AddMissingStats(stats0, ps)
  {
    stats := stats0;
    for i := 0 to |ps|
      invariant stats == AddMissingStats(stats0, ps[..i])
    {
      assert ps[..i + 1][..i] == ps[..i];
      if Dict.Get(stats, ps[i].name).None? {
        stats := Dict.Put(stats, ps[i].name, NoStats);
      }
    }
    assert ps[..|ps|] == ps;
  }

  /**
   * The tie list after the tallies below `i`: exactly the positive tallies equal to `m`, in
   * increasing index order.
   */
  ghost predicate TiesSoFar(votes: seq<nat>, i: nat, m: nat, ties: seq<nat>)
  {
    && (forall j :: j in ties <==> 0 <= j < i && j < |votes| && votes[j] > 0 && votes[j] == m)
    && (forall a, b :: 0 <= a < b < |ties| ==> ties[a] < ties[b])
    && (forall a :: 0 <= a < |ties| ==> ties[a] < i)
  }

  /** One tally more: a larger one starts the list over, an equal positive one joins it. */
  lemma TiesStep(votes: seq<nat>, i: nat, m: nat, ties: seq<nat>)
    requires i < |votes| && m == MaxCount(votes[..i]) && TiesSoFar(votes, i, m, ties)
    ensures MaxCount(votes[..i + 1]) == if votes[i] > m then votes[i] else m
    ensures votes[i] > m ==> TiesSoFar(votes, i + 1, votes[i], [i])
    ensures votes[i] == m && m > 0 ==> TiesSoFar(votes, i + 1, m, ties + [i])
    ensures votes[i] < m || (votes[i] == m && m == 0) ==> TiesSoFar(votes, i + 1, m, ties)
  {
    assert votes[..i + 1][..i] == votes[..i];
    if votes[i] > m {
      forall j | 0 <= j < i ensures votes[j] < votes[i] {
        assert votes[..i][j] == votes[j];
      }
    }
  }

  /** After the last tally, the list holds exactly the indices InTies accepts. */
  lemma TiesAtEnd(votes: seq<nat>, m: nat, ties: seq<nat>)
    requires m == MaxCount(votes[..|votes|]) && TiesSoFar(votes, |votes|, m, ties)
    ensures m == MaxCount(votes)
    ensures forall i :: i in ties <==> InTies(votes, i)
  {
    assert votes[..|votes|] == votes;
  }

  /**
   * revealVotes' scan over the tallies in index order: the largest tally, and the indices that hold
   * it when it is positive, in increasing order.
   */
  method RevealTies(votes: seq<nat>) returns (maxVotes: nat, ties: seq<nat>)
    ensures maxVotes == MaxCount(votes)
    ensures forall i :: i in ties <==> InTies(votes, i)
    ensures forall a, b :: 0 <= a < b < |ties| ==> ties[a] < ties[b]
  {
    maxVotes := 0;
    ties := [];
    for i := 0 to |votes|
      invariant maxVotes == MaxCount(votes[..i]) && TiesSoFar(votes, i, maxVotes, ties)
    {
      TiesStep(votes, i, maxVotes, ties);
      if votes[i] > maxVotes {
        maxVotes := votes[i];
        ties := [i];
      } else if votes[i] == maxVotes && maxVotes > 0 {
        ties := ties + [i];
      }
    }
    TiesAtEnd(votes, maxVotes, ties);
  }

  /** The scoring loops of showResults. */
  method AwardPoints(ps: seq<LocalPlayer>, spy: nat, caught: bool, correct: bool) returns (qs: seq<LocalPlayer>)
    requires spy < |ps|
    ensures qs == LocalAward(ps, spy, caught, correct)
  {
    qs := ps;
    if caught && !correct {
      for i := 0 to |qs|
        invariant |qs| == |ps|
        invariant forall j :: 0 <= j < i ==> qs[j] == LocalAward(ps, spy, caught, correct)[j]
        invariant forall j :: i <= j < |qs| ==> qs[j] == ps[j]
      {
        if i != spy {
          qs := qs[i := qs[i].(score := qs[i].score + 2)];
        }
      }
    } else {
      qs := qs[spy := qs[spy].(score := qs[spy].score + 3)];
    }
  }

  /** The leaderboard loop of showResults. */
  method RecordLeaderboard(lb0: map<string, nat>, ps: seq<LocalPlayer>) returns (lb: map<string, nat>)
    ensures lb == RecordScores(lb0, ps)
  {
    lb := lb0;
    for i := 0 to |ps|
      invariant lb == RecordScores(lb0, ps[..i])
    {
      assert ps[..i + 1][..i] == ps[..i];
      lb := lb[ps[i].name := ps[i].score];
    }
    assert ps[..|ps|] == ps;
  }

  /** The vote loop of updateSessionStats. */
  method TallyVotes(stats0: seq<Dict.Entry<Stats>>, ps: seq<LocalPlayer>, votes: seq<nat>)
    returns (stats: seq<Dict.Entry<Stats>>)
    ensures stats == AddVotes(stats0, ps, votes)
  {
    stats := stats0;
    for t := 0 to |votes|
      invariant stats == AddVotes(stats0, ps, votes[..t])
    {
      assert votes[..t + 1][..t] == votes[..t];
      var count := votes[t];
      if t < |ps| {
        var target := ps[t];
        var entry := Dict.Get(stats, target.name);
        if entry.Some? {
          var s := entry.value.(totalVotesReceived := entry.value.totalVotesReceived + count);
          if target.isSpy {
            s := s.(votesReceivedAsSpy := s.votesReceivedAsSpy + count);
          } else {
            s := s.(votesReceivedAsInnocent := s.votesReceivedAsInnocent + count);
          }
          stats := Dict.Put(stats, target.name, s);
        }
      }
    }
    assert votes[..|votes|] == votes;
  }

  /** updateSessionStats: the vote loop, then the spy's rounds and wins. */
  method RecordSessionStats(stats0: seq<Dict.Entry<Stats>>, ps: seq<LocalPlayer>, votes: seq<nat>, spy: int,
                            caught: bool, correct: bool) returns (stats: seq<Dict.Entry<Stats>>)
    ensures stats == UpdateSessionStats(stats0, ps, votes, spy, caught, correct)
  {
    stats := TallyVotes(stats0, ps, votes);
    if 0 <= spy < |ps| {
      var entry := Dict.Get(stats, ps[spy].name);
      if entry.Some? {
        var s := entry.value.(timesSpy := entry.value.timesSpy + 1);
        if !caught || correct {
          s := s.(spyWins := s.spyWins + 1);
        }
        stats := Dict.Put(stats, ps[spy].name, s);
      }
    }
  }

  /** The per-player reset loop of nextRound. */
  method ClearRound(ps: seq<LocalPlayer>) returns (qs: seq<LocalPlayer>)
    ensures qs == ClearSpies(ps)
  {
    qs := ps;
    for i := 0 to |qs|
      invariant |qs| == |ps|
      invariant forall j :: 0 <= j < i ==> qs[j] == ps[j].(isSpy := false)
      invariant forall j :: i <= j < |qs| ==> qs[j] == ps[j]
    {
      qs := qs[i := qs[i].(isSpy := false)];
    }
  }

  /** The score loop of resetScores. */
  method ClearScores(ps: seq<LocalPlayer>) returns (qs: seq<LocalPlayer>)
    ensures qs == ZeroScores(ps)
  {
    qs := ps;
    for i := 0 to |qs|
      invariant |qs| == |ps|
      invariant forall j :: 0 <= j < i ==> qs[j] == ps[j].(score := 0)
      invariant forall j :: i <= j < |qs| ==> qs[j] == ps[j]
    {
      qs := qs[i := qs[i].(score := 0)];
    }
  }

  /**
   * The running winner of one award after `i` entries: none yet, with `best` still at its start
   * value, or the scan's winner so far, with its value in `best`.
   */
  ghost predicate Leads(stats: seq<Dict.Entry<Stats>>, vs: seq<int>, floor: int, start: int, i: nat,
                        best: int, name: Option<string>)
    requires i <= |vs| == |stats|
  {
    var r := FirstMaxAbove(vs[..i], floor);
    && (r.None? ==> name.None? && best == start)
    && (r.Some? ==> r.value < i && name == Some(stats[r.value].key) && best == vs[r.value])
  }

  /** One entry more: it takes the award when it beats both the running best and the floor. */
  lemma LeadsStep(stats: seq<Dict.Entry<Stats>>, vs: seq<int>, floor: int, start: int, i: nat,
                  best: int, name: Option<string>)
    requires i < |vs| == |stats| && start <= floor
    requires Leads(stats, vs, floor, start, i, best, name)
    ensures best >= start
    ensures var wins := vs[i] > best && vs[i] > floor;
      Leads(stats, vs, floor, start, i + 1, if wins then vs[i] else best, if wins then Some(stats[i].key) else name)
  {
    ScanStep(vs, floor, i);
    FirstMaxAboveIs(vs[..i], floor);
  }

  /** After the last entry the running winner is the scan's winner, shown when its name is not empty. */
  lemma LeadsAtEnd(stats: seq<Dict.Entry<Stats>>, vs: seq<int>, floor: int, start: int, best: int, name: Option<string>)
    requires |vs| == |stats| && Leads(stats, vs, floor, start, |stats|, best, name)
    ensures var r := FirstMaxAbove(vs, floor);
      && (r.Some? <==> name.Some?)
      && (r.Some? ==> r.value < |vs| && best == vs[r.value])
      && WinnerName(stats, r) == if name.Some? && name.value != "" then name else None
  {
    assert vs[..|stats|] == vs;
  }

  /** The three winners at the end of the scan are the awards, each shown when its name is not empty. */
  lemma AwardsOfLeaders(stats: seq<Dict.Entry<Stats>>, maxInnocentVotes: int, victimName: Option<string>,
                        maxSpyWins: int, mastermindName: Option<string>, minVotes: int, ghostName: Option<string>)
    requires Leads(stats, InnocentVotes(stats), 0, -1, |stats|, maxInnocentVotes, victimName)
    requires Leads(stats, SpyWins(stats), 0, -1, |stats|, maxSpyWins, mastermindName)
    requires Leads(stats, NegatedTotals(stats), -GhostStart, -GhostStart, |stats|, -minVotes, ghostName)
    ensures SelectAwards(stats) ==
      Awards(if victimName.Some? && victimName.value != "" then victimName else None,
             if mastermindName.Some? && mastermindName.value != "" then mastermindName else None,
             if ghostName.Some? && ghostName.value != "" && minVotes == 0 then ghostName else None)
  {
    LeadsAtEnd(stats, InnocentVotes(stats), 0, -1, maxInnocentVotes, victimName);
    LeadsAtEnd(stats, SpyWins(stats), 0, -1, maxSpyWins, mastermindName);
    LeadsAtEnd(stats, NegatedTotals(stats), -GhostStart, -GhostStart, -minVotes, ghostName);
  }

  /** The scan of renderAwards: one pass over the statistics in key order, three running winners. */
  method ChooseAwards(stats: seq<Dict.Entry<Stats>>) returns (a: Awards)
    ensures a == SelectAwards(stats)
  {
    ghost var inn := InnocentVotes(stats);
    ghost var wins := SpyWins(stats);
    ghost var neg := NegatedTotals(stats);
    var maxInnocentVotes: int := -1;
    var victimName: Option<string> := None;
    var maxSpyWins: int := -1;
    var mastermindName: Option<string> := None;
    var minVotes: int := GhostStart;
    var ghostName: Option<string> := None;
    for i := 0 to |stats|
      invariant Leads(stats, inn, 0, -1, i, maxInnocentVotes, victimName)
      invariant Leads(stats, wins, 0, -1, i, maxSpyWins, mastermindName)
      invariant Leads(stats, neg, -GhostStart, -GhostStart, i, -minVotes, ghostName)
    {
      LeadsStep(stats, inn, 0, -1, i, maxInnocentVotes, victimName);
      LeadsStep(stats, wins, 0, -1, i, maxSpyWins, mastermindName);
      LeadsStep(stats, neg, -GhostStart, -GhostStart, i, -minVotes, ghostName);
      var s := stats[i].val;
      if s.votesReceivedAsInnocent > maxInnocentVotes && s.votesReceivedAsInnocent > 0 {
        maxInnocentVotes := s.votesReceivedAsInnocent;
        victimName := Some(stats[i].key);
      }
      if s.spyWins > maxSpyWins && s.spyWins > 0 {
        maxSpyWins := s.spyWins;
        mastermindName := Some(stats[i].key);
      }
      if s.totalVotesReceived < minVotes {
        minVotes := s.totalVotesReceived;
        ghostName := Some(stats[i].key);
      }
    }
    AwardsOfLeaders(stats, maxInnocentVotes, victimName, maxSpyWins, mastermindName, minVotes, ghostName);
    a := Awards(if victimName.Some? && victimName.value != "" then victimName else None,
                if mastermindName.Some? && mastermindName.value != "" then mastermindName else None,
                if ghostName.Some? && ghostName.value != "" && minVotes == 0 then ghostName else None);
  }

  // ---------------------------------------------------------------- the engine

  /** The settings part of `GameState`, with the player count. */
  datatype Settings = Settings(mode: string, category: string, totalRounds: int, currentRound: nat, playerCount: int)

  /**
   * The state of the round in progress: whose turn it is, the spy, the word, the hint log, the
   * tallies, the voting counter and the phase.
   */
  datatype Round = Round(currentPlayerIndex: nat, spyIndex: int, currentWord: Option<string>, hints: seq<Hint>,
                         votes: seq<nat>, votingComplete: bool, allPlayersRevealed: bool,
                         currentVotingPlayer: nat, phase: Phase)

  /**
   * `GameState`, with the word table and avatar list of the page. Its fields are kept in four
   * groups: the settings, the players, the round in progress, and what outlives a game (custom
   * words, leaderboard, session statistics).
   */
  class Game {
    const table: seq<Words.Category>
    const avatars: seq<string>

    var settings: Settings
    var players: seq<LocalPlayer>
    var round: Round
    var customWords: seq<string>
    var leaderboard: map<string, nat>
    var sessionStats: seq<Dict.Entry<Stats>>

    function Value(): GameValue
      reads this
    {
      GameValue(settings.mode, settings.category, settings.totalRounds, settings.currentRound, settings.playerCount,
                players, round.currentPlayerIndex, round.spyIndex, round.currentWord, round.hints, round.votes,
                round.votingComplete, round.allPlayersRevealed, round.currentVotingPlayer, round.phase,
                customWords, leaderboard, sessionStats)
    }

    /** The page loads with the stored custom words and leaderboard. */
    constructor (table: seq<Words.Category>, avatars: seq<string>, customWords: seq<string>, leaderboard: map<string, nat>)
      requires |avatars| > 0
      ensures Value() == InitialGame(customWords, leaderboard)
      ensures this.table == table && this.avatars == avatars
    {
      this.table := table;
      this.avatars := avatars;
      settings := Settings(QuestionsMode, Words.RandomId, 3, 1, 4);
      players := [];
      round := Round(0, -1, Some(""), [], [], false, false, 0, Setup);
      this.customWords := customWords;
      this.leaderboard := leaderboard;
      sessionStats := [];
    }

    method ChangePlayerCount(delta: int)
      modifies this
      ensures Value() == old(Value()).(playerCount := LocalRules.ChangePlayerCount(old(settings.playerCount), delta))
    {
      var newCount := settings.playerCount + delta;
      if newCount >= MinPlayers && newCount <= MaxPlayers {
        settings := settings.(playerCount := newCount);
      }
    }

    method SelectCategory(id: string)
      modifies this
      ensures Value() == old(Value()).(category := id)
    {
      settings := settings.(category := id);
    }

    method SelectMode(m: string)
      modifies this
      ensures Value() == old(Value()).(mode := m)
    {
      settings := settings.(mode := m);
    }

    method SelectRounds(rounds: int)
      modifies this
      ensures Value() == old(Value()).(totalRounds := rounds)
    {
      settings := settings.(totalRounds := rounds);
    }

    /** startQuickPlay: the default settings, from round 1. */
    method StartQuickPlay()
      modifies this
      ensures Value() == old(Value()).(playerCount := 4, mode := QuestionsMode, category := Words.RandomId,
                                       totalRounds := 3, currentRound := 1)
    {
      settings := settings.(playerCount := 4);
      settings := settings.(mode := QuestionsMode);
      settings := settings.(category := Words.RandomId);
      settings := settings.(totalRounds := 3);
      settings := settings.(currentRound := 1);
    }

    /** backToMenu: the next game starts from round 1. */
    method BackToMenu()
      modifies this
      ensures Value() == old(Value()).(currentRound := 1, currentVotingPlayer := 0)
    {
      settings := settings.(currentRound := 1);
      round := round.(currentVotingPlayer := 0);
    }

    /** startGame, with the random word position `pick` and the random spy index `spy`. */
    method StartGame(inputs: seq<string>, pick: nat, spy: nat)
      requires |inputs| == settings.playerCount && |avatars| > 0 && spy < |inputs|
      requires Words.PickFits(pick, |Words.LocalPool(table, settings.category, customWords)|)
      modifies this
      ensures Value() == LocalRules.StartGame(old(Value()), inputs, avatars, table, pick, spy)
    {
      var built := BuildPlayers(inputs, leaderboard, avatars);
      var word := Words.ChooseWord(table, settings.category, customWords, pick);
      var seated := built[spy := built[spy].(isSpy := true)];
      var stats;
      if settings.currentRound == 1 {
        stats := FreshStats(seated);
      } else {
        stats := FillMissingStats(sessionStats, seated);
      }
      players := seated;
      round := Round(0, spy, word, [], NoVotes(|seated|), false, false, round.currentVotingPlayer, Reveal);
      sessionStats := stats;
    }

    /** showCurrentHintPlayer, with the target draws of its retry loop. */
    method ShowCurrentHintPlayer(draws: seq<nat>)
      requires round.currentPlayerIndex < |players|
      requires settings.mode == QuestionsMode ==> TargetDrawsFit(draws, |players|, round.currentPlayerIndex)
      modifies this
      ensures Value() == LocalRules.ShowCurrentHintPlayer(old(Value()), draws)
    {
      if settings.mode == QuestionsMode {
        var sourceIndex := round.currentPlayerIndex;
        var k := DrawUntilOther(draws, sourceIndex);
        var targetIndex := draws[k];
        players := players[sourceIndex := players[sourceIndex].(askedTarget := Some(players[targetIndex].name))];
      }
    }

    method StartHintPhase(draws: seq<nat>)
      requires |players| > 0
      requires settings.mode == QuestionsMode ==> TargetDrawsFit(draws, |players|, 0)
      modifies this
      ensures Value() == LocalRules.StartHintPhase(old(Value()), draws)
    {
      round := round.(phase := Hints, currentPlayerIndex := 0, hints := []);
      ShowCurrentHintPlayer(draws);
    }

    method NextPlayer(draws: seq<nat>)
      requires Seated(Value())
      requires round.currentPlayerIndex + 1 >= settings.playerCount ==>
                 |players| > 0 && (settings.mode == QuestionsMode ==> TargetDrawsFit(draws, |players|, 0))
      modifies this
      ensures Value() == LocalRules.NextPlayer(old(Value()), draws)
    {
      var nextIndex := round.currentPlayerIndex + 1;
      if nextIndex < settings.playerCount {
        round := round.(currentPlayerIndex := nextIndex);
      } else {
        round := round.(allPlayersRevealed := true);
        StartHintPhase(draws);
      }
    }

    method StartVotingPhase()
      modifies this
      ensures Value() == LocalRules.StartVotingPhase(old(Value()))
    {
      round := round.(phase := Voting, votes := NoVotes(|players|), votingComplete := false, currentVotingPlayer := 0);
    }

    /** submitHint, with the hint field's text and the target draws for the next player. */
    method SubmitHint(input: string, draws: seq<nat>)
      requires HintTurnFits(Value(), draws)
      modifies this
      ensures Value() == LocalRules.SubmitHint(old(Value()), input, draws)
    {
      var player := players[round.currentPlayerIndex];
      var hintText := HintText(settings.mode, input, player.askedTarget);
      round := round.(hints := round.hints + [Hint(player.name, player.avatar, hintText)]);
      round := round.(currentPlayerIndex := round.currentPlayerIndex + 1);
      if round.currentPlayerIndex < settings.playerCount {
        ShowCurrentHintPlayer(draws);
      } else {
        StartVotingPhase();
      }
    }

    /** The turn timer reaching 0: autoSubmitHint. */
    method TurnTimerExpired(input: string, draws: seq<nat>)
      requires HintTurnFits(Value(), draws)
      modifies this
      ensures Value() == LocalRules.TurnTimerExpired(old(Value()), input, draws)
    {
      var filled := input;
      if Trim(input) == "" {
        filled := if settings.mode == QuestionsMode then NoQuestion else NoHint;
      }
      SubmitHint(filled, draws);
    }

    /** revealVotes: voting closes, and the spy is caught when tied for the most votes. */
    method RevealVotes() returns (spyCaught: bool)
      modifies this
      ensures Value() == old(Value()).(votingComplete := true)
      ensures spyCaught == SpyCaught(old(Value()))
    {
      round := round.(votingComplete := true);
      var maxVotes, ties := RevealTies(round.votes);
      spyCaught := 0 <= round.spyIndex && round.spyIndex as nat in ties;
    }

    /**
     * castVote. When this vote completes the voting, `caught` says whether the spy was caught;
     * it is None otherwise.
     */
    method CastVote(votedForIndex: nat) returns (caught: Option<bool>)
      requires votedForIndex < |round.votes|
      modifies this
      ensures Value() == LocalRules.CastVote(old(Value()), votedForIndex)
      ensures caught.Some? <==> !old(round.votingComplete) && round.votingComplete
      ensures caught.Some? ==> (caught.value <==> SpyCaught(Value()))
    {
      if round.votingComplete {
        return None;
      }
      round := round.(votes := round.votes[votedForIndex := round.votes[votedForIndex] + 1]);
      round := round.(currentVotingPlayer := round.currentVotingPlayer + 1);
      if round.currentVotingPlayer >= settings.playerCount {
        var spyCaught := RevealVotes();
        caught := Some(spyCaught);
      } else {
        caught := None;
      }
    }

    /** showResults: scores, leaderboard and session statistics. */
    method ShowResults(spyCaught: bool, spyGuessedCorrectly: bool)
      requires 0 <= round.spyIndex < |players|
      modifies this
      ensures Value() == LocalRules.ShowResults(old(Value()), spyCaught, spyGuessedCorrectly)
    {
      round := round.(phase := Results);
      players := AwardPoints(players, round.spyIndex, spyCaught, spyGuessedCorrectly);
      leaderboard := RecordLeaderboard(leaderboard, players);
      sessionStats := RecordSessionStats(sessionStats, players, round.votes, round.spyIndex, spyCaught, spyGuessedCorrectly);
    }

    /** The timer revealVotes starts when the spy escaped. */
    method EscapeTimerFired()
      requires 0 <= round.spyIndex < |players|
      modifies this
      ensures Value() == LocalRules.ShowResults(old(Value()), false, false)
    {
      ShowResults(false, false);
    }

    method SubmitSpyGuess(guessInput: string)
      requires 0 <= round.spyIndex < |players|
      modifies this
      ensures Value() == LocalRules.SubmitSpyGuess(old(Value()), guessInput)
    {
      var guess := Trim(guessInput);
      var correct := round.currentWord == Some(guess);
      ShowResults(true, correct);
    }

    /** nextRound, with the random word position `pick` and the random spy index `spy`. */
    method NextRound(pick: nat, spy: nat)
      requires NextRoundFits(Value(), table, pick, spy)
      modifies this
      ensures Value() == LocalRules.NextRound(old(Value()), table, pick, spy)
    {
      if settings.currentRound >= settings.totalRounds {
        return;
      }
      settings := settings.(currentRound := settings.currentRound + 1);
      players := ClearRound(players);
      round := round.(currentPlayerIndex := 0, hints := [], votes := NoVotes(|players|), votingComplete := false,
                      allPlayersRevealed := false, currentVotingPlayer := 0);
      round := round.(currentWord := Words.ChooseWord(table, settings.category, customWords, pick));
      round := round.(spyIndex := spy);
      players := players[spy := players[spy].(isSpy := true)];
      round := round.(phase := Reveal);
    }

    /** resetScores, with the answer to its confirmation dialog. */
    method ResetScores(confirmed: bool)
      modifies this
      ensures Value() == LocalRules.ResetScores(old(Value()), confirmed)
    {
      if confirmed {
        leaderboard := map[];
        players := ClearScores(players);
      }
    }

    method AddCustomWord(input: string)
      modifies this
      ensures Value() == old(Value()).(customWords := LocalRules.AddCustomWord(old(customWords), input))
    {
      var word := Trim(input);
      if word != "" && word !in customWords {
        customWords := customWords + [word];
      }
    }

    method RemoveCustomWord(word: string)
      modifies this
      ensures Value() == old(Value()).(customWords := LocalRules.RemoveCustomWord(old(customWords), word))
    {
      customWords := LocalRules.RemoveCustomWord(customWords, word);
    }

    /** The awards renderAwards shows for this session. */
    method Awards() returns (a: LocalRules.Awards)
      ensures a == SelectAwards(sessionStats)
    {
      a := ChooseAwards(sessionStats);
    }
  }
}
