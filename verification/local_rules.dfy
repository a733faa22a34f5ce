/**
 * The rules of the single-device ("pass the phone") engine of game.js, stated as functions on a
 * value of the global `GameState` record. Each engine function becomes a function from the record
 * before to the record after; class LocalGame.Game carries out the same steps in place.
 */
module LocalRules {
  import opened Common
  import opened Text
  import opened Draws
  import opened Tally
  import Dict
  import Words

  const MinPlayers: int := 3
  const MaxPlayers: int := 12
  const QuestionsMode: string := "questions"

  /** Recorded for a hint turn with an empty hint: "gave no hint". */
  const NoHint: string := "لم يلمّح"

  /** What the turn timer fills in for a question turn: "asked nobody". */
  const NoQuestion: string := "لم يسأل"

  /** Start of the name a player gets when the name field is left empty: "player ". */
  const DefaultNamePrefix: string := "لاعب "

  /** The `minVotes` a ghost-award scan starts from. */
  const GhostStart: int := 999

  datatype Phase = Setup | Reveal | Hints | Voting | Results

  datatype LocalPlayer = LocalPlayer(name: string, score: nat, isSpy: bool, avatar: string,
                                     askedTarget: Option<string>)

  /** One entry of `sessionStats`, kept per player name for the end-of-game awards. */
  datatype Stats = Stats(votesReceivedAsInnocent: nat, votesReceivedAsSpy: nat, totalVotesReceived: nat,
                         timesSpy: nat, spyWins: nat)

  const NoStats: Stats := Stats(0, 0, 0, 0, 0)

  /**
   * The engine's part of `GameState`. `votes` holds the tally of each player index, 0 for an index
   * nobody voted for: a JavaScript object with integer keys enumerates them in ascending order,
   * and an absent key and a zero tally have the same effect on every reader.
   * `currentVotingPlayer` is the module-level counter of game.js.
   */
  datatype GameValue = GameValue(
    mode: string, category: string, totalRounds: int, currentRound: nat, playerCount: int,
    players: seq<LocalPlayer>, currentPlayerIndex: nat, spyIndex: int, currentWord: Option<string>,
    hints: seq<Hint>, votes: seq<nat>, votingComplete: bool, allPlayersRevealed: bool,
    currentVotingPlayer: nat, phase: Phase, customWords: seq<string>, leaderboard: map<string, nat>,
    sessionStats: seq<Dict.Entry<Stats>>)

  predicate QuestionMode(g: GameValue)
  {
    g.mode == QuestionsMode
  }

  /** The round's players are the ones the current player count was set up for. */
  predicate Seated(g: GameValue)
  {
    |g.players| == g.playerCount
  }

  /** The record as game.js declares it, with the stored custom words and leaderboard. */
  function InitialGame(customWords: seq<string>, leaderboard: map<string, nat>): (g: GameValue)
    ensures g.playerCount == 4 && g.currentRound == 1 && g.phase == Setup && g.spyIndex == -1
    ensures g.customWords == customWords && g.leaderboard == leaderboard && g.players == []
  {
    GameValue(QuestionsMode, Words.RandomId, 3, 1, 4, [], 0, -1, Some(""), [], [], false, false, 0, Setup,
              customWords, leaderboard, [])
  }

  // ---------------------------------------------------------------- changePlayerCount

  /** The new player count: the step is taken only when it stays within 3..12. */
  function ChangePlayerCount(count: int, delta: int): (r: int)
    ensures MinPlayers <= count + delta <= MaxPlayers ==> r == count + delta
    ensures !(MinPlayers <= count + delta <= MaxPlayers) ==> r == count
  {
    var n := count + delta;
    if MinPlayers <= n <= MaxPlayers then n else count
  }

  /** The count never leaves 3..12 once inside it. */
  lemma ChangePlayerCountBounds(count: int, delta: int)
    requires MinPlayers <= count <= MaxPlayers
    ensures MinPlayers <= ChangePlayerCount(count, delta) <= MaxPlayers
    ensures ChangePlayerCount(count, delta) == count <==> delta == 0 || !(MinPlayers <= count + delta <= MaxPlayers)
  {
  }

  // ---------------------------------------------------------------- startGame

  /** `` `لاعب ${i + 1}` ``. */
  function DefaultName(i: nat): string
  {
    DefaultNamePrefix + DecimalString(i + 1)
  }

  /** `input.value.trim() || DefaultName(i)`; a missing name field reads as "". */
  function PlayerName(input: string, i: nat): (name: string)
    ensures name != ""
    ensures Trim(input) != "" ==> name == Trim(input)
  {
    var t := Trim(input);
    if t != "" then t else DefaultName(i)
  }

  /** `leaderboard[name] || 0`. */
  function StoredScore(leaderboard: map<string, nat>, name: string): nat
  {
    if name in leaderboard then leaderboard[name] else 0
  }

  /** The players startGame builds from the name fields, before the spy is marked. */
  function NewPlayers(inputs: seq<string>, leaderboard: map<string, nat>, avatars: seq<string>): (ps: seq<LocalPlayer>)
    requires |avatars| > 0
    ensures |ps| == |inputs|
    ensures forall i :: 0 <= i < |ps| ==>
      && ps[i].name == PlayerName(inputs[i], i) && ps[i].score == StoredScore(leaderboard, ps[i].name)
      && !ps[i].isSpy && ps[i].avatar == avatars[i % |avatars|] && ps[i].askedTarget == None
  {
    seq(|inputs|, i requires 0 <= i < |inputs| =>
      var name := PlayerName(inputs[i], i);
      LocalPlayer(name, StoredScore(leaderboard, name), false, avatars[i % |avatars|], None))
  }

  /** The players' names, in order. */
  function Names(ps: seq<LocalPlayer>): (ns: seq<string>)
    ensures |ns| == |ps| && forall i :: 0 <= i < |ps| ==> ns[i] == ps[i].name
  {
    seq(|ps|, i requires 0 <= i < |ps| => ps[i].name)
  }

  /** Every player has a statistics entry. */
  predicate StatsCover(stats: seq<Dict.Entry<Stats>>, ps: seq<LocalPlayer>)
  {
    forall i :: 0 <= i < |ps| ==> Dict.Get(stats, ps[i].name).Some?
  }

  /** Gives every player without a statistics entry a zeroed one, in player order. */
  function AddMissingStats(stats: seq<Dict.Entry<Stats>>, ps: seq<LocalPlayer>): (filled: seq<Dict.Entry<Stats>>)
  {
    if ps == [] then stats
    else
      var s := AddMissingStats(stats, ps[..|ps| - 1]);
      var name := ps[|ps| - 1].name;
      if Dict.Get(s, name).None? then Dict.Put(s, name, NoStats) else s
  }

  /**
   * Adding the missing entries keeps every entry there was and adds a zeroed entry for exactly the
   * players' names that had none; so afterwards every player has an entry.
   */
  lemma {:induction false} AddMissingStatsGet(stats: seq<Dict.Entry<Stats>>, ps: seq<LocalPlayer>, k: string)
    ensures Dict.Get(AddMissingStats(stats, ps), k) ==
      if Dict.Get(stats, k).Some? then Dict.Get(stats, k) else if k in Names(ps) then Some(NoStats) else None
  {
    if ps != [] {
      var front := ps[..|ps| - 1];
      var s := AddMissingStats(stats, front);
      var name := ps[|ps| - 1].name;
      AddMissingStatsGet(stats, front, k);
      assert Names(ps) == Names(front) + [name];
      if Dict.Get(s, name).None? {
        Dict.PutGet(s, name, NoStats, k);
      }
    }
  }

  lemma AddMissingStatsCover(stats: seq<Dict.Entry<Stats>>, ps: seq<LocalPlayer>)
    ensures StatsCover(AddMissingStats(stats, ps), ps)
  {
    forall i | 0 <= i < |ps|
      ensures Dict.Get(AddMissingStats(stats, ps), ps[i].name).Some?
    {
      AddMissingStatsGet(stats, ps, ps[i].name);
    }
  }

  /** The keys stay unique. */
  lemma {:induction false} AddMissingStatsDistinct(stats: seq<Dict.Entry<Stats>>, ps: seq<LocalPlayer>)
    requires Dict.DistinctKeys(stats)
    ensures Dict.DistinctKeys(AddMissingStats(stats, ps))
  {
    if ps != [] {
      var s := AddMissingStats(stats, ps[..|ps| - 1]);
      AddMissingStatsDistinct(stats, ps[..|ps| - 1]);
      Dict.PutKeys(s, ps[|ps| - 1].name, NoStats);
    }
  }

  /** chooseWord on the current category and custom words. */
  function ChosenWord(g: GameValue, table: seq<Words.Category>, pick: nat): Option<string>
    requires Words.PickFits(pick, |Words.LocalPool(table, g.category, g.customWords)|)
  {
    Words.ChooseWord(table, g.category, g.customWords, pick)
  }

  /**
   * startGame with its random choices made: the players from the name fields, a fresh round with
   * the word and the spy, statistics started over in round 1 and completed otherwise, and the phone
   * passed to player 0.
   */
  function StartGame(g: GameValue, inputs: seq<string>, avatars: seq<string>, table: seq<Words.Category>,
                     pick: nat, spyIndex: nat): (w: GameValue)
    requires |inputs| == g.playerCount && |avatars| > 0 && spyIndex < |inputs|
    requires Words.PickFits(pick, |Words.LocalPool(table, g.category, g.customWords)|)
  {
    var ps := NewPlayers(inputs, g.leaderboard, avatars);
    var qs := ps[spyIndex := ps[spyIndex].(isSpy := true)];
    var stats := if g.currentRound == 1 then [] else g.sessionStats;
    g.(players := qs, currentPlayerIndex := 0, hints := [], votes := NoVotes(|ps|), votingComplete := false,
       allPlayersRevealed := false, currentWord := ChosenWord(g, table, pick), spyIndex := spyIndex,
       phase := Reveal, sessionStats := AddMissingStats(stats, qs))
  }

  /** `isSpy` marks exactly the player at `spy`. */
  predicate OnlySpy(ps: seq<LocalPlayer>, spy: int)
  {
    forall i :: 0 <= i < |ps| ==> (ps[i].isSpy <==> i == spy)
  }

  /**
   * After startGame exactly one player, the chosen one, is the spy; there is one player per name
   * field, named after its trimmed text or numbered, and scored from the leaderboard.
   */
  lemma StartGamePlayers(g: GameValue, inputs: seq<string>, avatars: seq<string>, table: seq<Words.Category>,
                         pick: nat, spyIndex: nat)
    requires |inputs| == g.playerCount && |avatars| > 0 && spyIndex < |inputs|
    requires Words.PickFits(pick, |Words.LocalPool(table, g.category, g.customWords)|)
    ensures var ps := StartGame(g, inputs, avatars, table, pick, spyIndex).players;
      && |ps| == g.playerCount && OnlySpy(ps, spyIndex)
      && forall i :: 0 <= i < |ps| ==> ps[i].name == PlayerName(inputs[i], i) && ps[i].score == StoredScore(g.leaderboard, ps[i].name)
  {
    var ps := NewPlayers(inputs, g.leaderboard, avatars);
    var qs := ps[spyIndex := ps[spyIndex].(isSpy := true)];
    assert StartGame(g, inputs, avatars, table, pick, spyIndex).players == qs;
    forall i | 0 <= i < |qs|
      ensures qs[i].name == ps[i].name && qs[i].score == ps[i].score && (qs[i].isSpy <==> i == spyIndex)
    {
    }
  }

  /**
   * startGame opens a round in `reveal` at player 0 with no hints and no votes, and every player
   * has a statistics entry; there is a word unless the pool is empty.
   */
  lemma StartGameRound(g: GameValue, inputs: seq<string>, avatars: seq<string>, table: seq<Words.Category>,
                       pick: nat, spyIndex: nat)
    requires |inputs| == g.playerCount && |avatars| > 0 && spyIndex < |inputs|
    requires Words.PickFits(pick, |Words.LocalPool(table, g.category, g.customWords)|)
    ensures var w := StartGame(g, inputs, avatars, table, pick, spyIndex);
      && w.phase == Reveal && w.currentPlayerIndex == 0 && w.hints == [] && w.votes == NoVotes(g.playerCount)
      && !w.votingComplete && w.spyIndex == spyIndex && StatsCover(w.sessionStats, w.players)
      && (w.currentWord.None? <==> Words.LocalPool(table, g.category, g.customWords) == [])
  {
    var stats := if g.currentRound == 1 then [] else g.sessionStats;
    AddMissingStatsCover(stats, StartGame(g, inputs, avatars, table, pick, spyIndex).players);
  }

  // ---------------------------------------------------------------- reveal and hints

  /** The target retry loop stops on these draws, and every draw is a player index. */
  predicate TargetDrawsFit(draws: seq<nat>, n: nat, avoid: nat)
  {
    (forall j :: 0 <= j < |draws| ==> draws[j] < n) && StopsAvoiding(draws, avoid)
  }

  /**
   * showCurrentHintPlayer: in question mode the current player is given the name of the first drawn
   * player other than themself to ask.
   */
  function ShowCurrentHintPlayer(g: GameValue, draws: seq<nat>): (w: GameValue)
    requires g.currentPlayerIndex < |g.players|
    requires QuestionMode(g) ==> TargetDrawsFit(draws, |g.players|, g.currentPlayerIndex)
  {
    if QuestionMode(g) then
      var cur := g.currentPlayerIndex;
      var t := draws[FirstOther(draws, cur)];
      g.(players := g.players[cur := g.players[cur].(askedTarget := Some(g.players[t].name))])
    else g
  }

  /**
   * In question mode the current player's target is another player's name, drawn by index; no
   * other player and nothing else changes. In hint mode nothing changes.
   */
  lemma ShowCurrentHintPlayerRules(g: GameValue, draws: seq<nat>)
    requires g.currentPlayerIndex < |g.players|
    requires QuestionMode(g) ==> TargetDrawsFit(draws, |g.players|, g.currentPlayerIndex)
    ensures var w := ShowCurrentHintPlayer(g, draws);
      var cur := g.currentPlayerIndex;
      && w == g.(players := w.players) && |w.players| == |g.players|
      && (forall i :: 0 <= i < |g.players| && i != cur ==> w.players[i] == g.players[i])
      && w.players[cur] == g.players[cur].(askedTarget := w.players[cur].askedTarget)
      && (QuestionMode(g) ==> exists t :: 0 <= t < |g.players| && t != cur && w.players[cur].askedTarget == Some(g.players[t].name))
      && (!QuestionMode(g) ==> w == g)
  {
    if QuestionMode(g) {
      var t := draws[FirstOther(draws, g.currentPlayerIndex)];
      assert t != g.currentPlayerIndex;
    }
  }

  /** startHintPhase: the hints phase from player 0 with an empty log. */
  function StartHintPhase(g: GameValue, draws: seq<nat>): (w: GameValue)
    requires |g.players| > 0
    requires QuestionMode(g) ==> TargetDrawsFit(draws, |g.players|, 0)
  {
    ShowCurrentHintPlayer(g.(phase := Hints, currentPlayerIndex := 0, hints := []), draws)
  }

  /** nextPlayer: the phone passes on, and after the last player the hints phase starts. */
  function NextPlayer(g: GameValue, draws: seq<nat>): (w: GameValue)
    requires Seated(g)
    requires g.currentPlayerIndex + 1 >= g.playerCount ==> |g.players| > 0 && (QuestionMode(g) ==> TargetDrawsFit(draws, |g.players|, 0))
  {
    var next := g.currentPlayerIndex + 1;
    if next < g.playerCount then g.(currentPlayerIndex := next)
    else StartHintPhase(g.(allPlayersRevealed := true), draws)
  }

  /**
   * nextPlayer before the last player only passes the phone on. After the last player every player
   * has seen the card, the hints phase starts at player 0 with an empty log, and in question mode
   * player 0 is given another player's name to ask; nothing else changes.
   */
  lemma NextPlayerRules(g: GameValue, draws: seq<nat>)
    requires Seated(g)
    requires g.currentPlayerIndex + 1 >= g.playerCount ==> |g.players| > 0 && (QuestionMode(g) ==> TargetDrawsFit(draws, |g.players|, 0))
    ensures var w := NextPlayer(g, draws);
      && (g.currentPlayerIndex + 1 < g.playerCount ==> w == g.(currentPlayerIndex := g.currentPlayerIndex + 1))
      && (g.currentPlayerIndex + 1 >= g.playerCount ==>
            && w == g.(phase := Hints, allPlayersRevealed := true, currentPlayerIndex := 0, hints := [], players := w.players)
            && |w.players| == |g.players|
            && (forall i :: 0 < i < |g.players| ==> w.players[i] == g.players[i])
            && w.players[0] == g.players[0].(askedTarget := w.players[0].askedTarget)
            && (QuestionMode(g) ==> exists t :: 0 < t < |g.players| && w.players[0].askedTarget == Some(g.players[t].name)))
  {
    if g.currentPlayerIndex + 1 >= g.playerCount {
      ShowCurrentHintPlayerRules(g.(allPlayersRevealed := true).(phase := Hints, currentPlayerIndex := 0, hints := []), draws);
    }
  }

  /** The hint text submitHint records. */
  function HintText(mode: string, input: string, target: Option<string>): (text: string)
    ensures text != ""
    ensures mode == QuestionsMode ==> text == QuestionText(target)
    ensures mode != QuestionsMode && Trim(input) != "" ==> text == Trim(input)
    ensures mode != QuestionsMode && Trim(input) == "" ==> text == NoHint
  {
    if mode == QuestionsMode then QuestionText(target)
    else
      var t := Trim(input);
      if t != "" then t else NoHint
  }

  /** startVotingPhase: a voting phase with no tallies and the first voter. */
  function StartVotingPhase(g: GameValue): (w: GameValue)
  {
    g.(phase := Voting, votes := NoVotes(|g.players|), votingComplete := false, currentVotingPlayer := 0)
  }

  /** What submitHint needs: a current player, and draws for the next one in question mode. */
  predicate HintTurnFits(g: GameValue, draws: seq<nat>)
  {
    && Seated(g) && g.currentPlayerIndex < |g.players|
    && (g.currentPlayerIndex + 1 < |g.players| && QuestionMode(g) ==>
          TargetDrawsFit(draws, |g.players|, g.currentPlayerIndex + 1))
  }

  /**
   * submitHint: the current player's hint is logged, the turn passes on, and voting starts after
   * the last player.
   */
  function SubmitHint(g: GameValue, input: string, draws: seq<nat>): (w: GameValue)
    requires HintTurnFits(g, draws)
  {
    var cur := g.currentPlayerIndex;
    var p := g.players[cur];
    var g1 := g.(hints := g.hints + [Hint(p.name, p.avatar, HintText(g.mode, input, p.askedTarget))],
                 currentPlayerIndex := cur + 1);
    if cur + 1 < g.playerCount then ShowCurrentHintPlayer(g1, draws) else StartVotingPhase(g1)
  }

  /**
   * A hint turn logs exactly one entry, by the current player, with the trimmed text (or the
   * placeholder) in hint mode and "asked <target>" in question mode; the turn index rises by one,
   * and the game moves to voting exactly when it reaches the player count.
   */
  lemma SubmitHintRules(g: GameValue, input: string, draws: seq<nat>)
    requires HintTurnFits(g, draws)
    ensures var w := SubmitHint(g, input, draws);
      var p := g.players[g.currentPlayerIndex];
      && w.hints == g.hints + [Hint(p.name, p.avatar, HintText(g.mode, input, p.askedTarget))]
      && w.currentPlayerIndex == g.currentPlayerIndex + 1
      && (w.phase == Voting <==> w.currentPlayerIndex == g.playerCount || g.phase == Voting)
      && (w.currentPlayerIndex == g.playerCount ==> w.votes == NoVotes(|g.players|) && !w.votingComplete && w.currentVotingPlayer == 0)
      && (w.currentPlayerIndex < g.playerCount ==> w.phase == g.phase && w.votes == g.votes)
      && |w.players| == |g.players|
  {
    var cur := g.currentPlayerIndex;
    var p := g.players[cur];
    var g1 := g.(hints := g.hints + [Hint(p.name, p.avatar, HintText(g.mode, input, p.askedTarget))],
                 currentPlayerIndex := cur + 1);
    if cur + 1 < g.playerCount {
      ShowCurrentHintPlayerRules(g1, draws);
    }
  }

  /** What autoSubmitHint puts into an empty hint field before submitting. */
  function TimeoutInput(mode: string, input: string): (typed: string)
  {
    if Trim(input) == "" then (if mode == QuestionsMode then NoQuestion else NoHint) else input
  }

  /** The turn timer running out: autoSubmitHint. */
  function TurnTimerExpired(g: GameValue, input: string, draws: seq<nat>): (w: GameValue)
    requires HintTurnFits(g, draws)
  {
    SubmitHint(g, TimeoutInput(g.mode, input), draws)
  }

  lemma NoHintIsTrimmed()
    ensures Trim(NoHint) == NoHint
  {
    assert !IsJsSpace(NoHint[0]) && !IsJsSpace(NoHint[|NoHint| - 1]);
    TrimOfTrimmed(NoHint);
  }

  /**
   * The timer's filling-in is invisible: running out of time logs the same entry as submitting the
   * field as it is, so the turn ends as if the player had pressed submit.
   */
  lemma TurnTimerIsSubmit(g: GameValue, input: string, draws: seq<nat>)
    requires HintTurnFits(g, draws)
    ensures TurnTimerExpired(g, input, draws) == SubmitHint(g, input, draws)
  {
    var p := g.players[g.currentPlayerIndex];
    if !QuestionMode(g) && Trim(input) == "" {
      NoHintIsTrimmed();
    }
    assert HintText(g.mode, TimeoutInput(g.mode, input), p.askedTarget) == HintText(g.mode, input, p.askedTarget);
  }

  // ---------------------------------------------------------------- castVote, revealVotes

  /** `votes = {}` for `n` players: every tally 0. */
  function NoVotes(n: nat): (r: seq<nat>)
    ensures |r| == n && forall i :: 0 <= i < n ==> r[i] == 0
  {
    seq(n, i => 0)
  }

  function SumOf(vs: seq<nat>): nat
  {
    if vs == [] then 0 else SumOf(vs[..|vs| - 1]) + vs[|vs| - 1]
  }

  lemma {:induction false} SumOfUpdate(vs: seq<nat>, i: nat, x: nat)
    requires i < |vs|
    ensures SumOf(vs[i := x]) == SumOf(vs) - vs[i] + x
  {
    if i < |vs| - 1 {
      SumOfUpdate(vs[..|vs| - 1], i, x);
      assert vs[i := x][..|vs| - 1] == vs[..|vs| - 1][i := x];
    } else {
      assert vs[i := x][..|vs| - 1] == vs[..|vs| - 1];
    }
  }

  /** castVote: ignored once voting is complete; otherwise one tally and the voter count rise. */
  function CastVote(g: GameValue, votedFor: nat): (w: GameValue)
    requires votedFor < |g.votes|
  {
    if g.votingComplete then g
    else
      var g1 := g.(votes := g.votes[votedFor := g.votes[votedFor] + 1], currentVotingPlayer := g.currentVotingPlayer + 1);
      if g1.currentVotingPlayer >= g.playerCount then g1.(votingComplete := true) else g1
  }

  /**
   * A vote after voting completed changes nothing. Otherwise exactly the chosen tally rises by one,
   * so the votes cast grow by one, the voter count rises by one, and the votes are revealed exactly
   * when the voter count reaches the player count.
   */
  lemma CastVoteRules(g: GameValue, votedFor: nat)
    requires votedFor < |g.votes|
    ensures g.votingComplete ==> CastVote(g, votedFor) == g
    ensures !g.votingComplete ==>
      var w := CastVote(g, votedFor);
      && |w.votes| == |g.votes| && w.votes[votedFor] == g.votes[votedFor] + 1
      && (forall i :: 0 <= i < |g.votes| && i != votedFor ==> w.votes[i] == g.votes[i])
      && SumOf(w.votes) == SumOf(g.votes) + 1
      && w.currentVotingPlayer == g.currentVotingPlayer + 1
      && (w.votingComplete <==> w.currentVotingPlayer >= g.playerCount)
      && w == g.(votes := w.votes, currentVotingPlayer := w.currentVotingPlayer, votingComplete := w.votingComplete)
  {
    if !g.votingComplete {
      SumOfUpdate(g.votes, votedFor, g.votes[votedFor] + 1);
    }
  }

  /** The largest tally, 0 when there is none. */
  function MaxCount(vs: seq<nat>): (m: nat)
    ensures forall i :: 0 <= i < |vs| ==> vs[i] <= m
    ensures m == 0 || exists i :: 0 <= i < |vs| && vs[i] == m
  {
    if vs == [] then 0
    else
      var m := MaxCount(vs[..|vs| - 1]);
      assert forall i :: 0 <= i < |vs| - 1 ==> vs[..|vs| - 1][i] == vs[i];
      if vs[|vs| - 1] > m then vs[|vs| - 1] else m
  }

  /** revealVotes' tie list as a set: the indices holding the largest tally, if it is positive. */
  predicate InTies(vs: seq<nat>, i: int)
  {
    0 <= i < |vs| && vs[i] > 0 && vs[i] == MaxCount(vs)
  }

  /** `ties.includes(spyIndex)`: the spy is caught when tied for the most votes. */
  predicate SpyCaught(g: GameValue)
  {
    InTies(g.votes, g.spyIndex)
  }

  /**
   * Unlike the server, a tie is enough to catch the spy: with one vote each for players 0 and 1 and
   * the spy at 1, the device catches the spy while the server's first-maximum rule would name
   * player 0.
   */
  lemma TieCatchesSpy()
    ensures InTies([1, 1], 1)
    ensures FirstMaxAbove([1, 1], 0) == Some(0)
  {
    var vs: seq<nat> := [1, 1];
    assert MaxCount(vs) == 1 by {
      assert vs[..1] == [1];
      assert MaxCount(vs[..1]) == 1;
    }
    FirstMaxUnique([1, 1], 0, 0);
  }

  // ---------------------------------------------------------------- showResults

  /** showResults scoring: caught with a wrong guess gives 2 to every other index, else the spy gains 3. */
  function LocalAward(ps: seq<LocalPlayer>, spy: nat, caught: bool, correct: bool): (qs: seq<LocalPlayer>)
    requires spy < |ps|
    ensures |qs| == |ps|
  {
    if caught && !correct then
      seq(|ps|, i requires 0 <= i < |ps| => if i != spy then ps[i].(score := ps[i].score + 2) else ps[i])
    else ps[spy := ps[spy].(score := ps[spy].score + 3)]
  }

  function TotalScore(ps: seq<LocalPlayer>): (total: nat)
  {
    if ps == [] then 0 else TotalScore(ps[..|ps| - 1]) + ps[|ps| - 1].score
  }

  /** Raising the score of every player other than `spy` by 2 raises the total by 2 per such player. */
  lemma {:induction false} AwardOthersTotal(ps: seq<LocalPlayer>, qs: seq<LocalPlayer>, spy: nat)
    requires |qs| == |ps|
    requires forall i :: 0 <= i < |ps| ==> qs[i].score == ps[i].score + (if i != spy then 2 else 0)
    ensures TotalScore(qs) == TotalScore(ps) + 2 * (if spy < |ps| then |ps| - 1 else |ps|)
  {
    if ps != [] {
      AwardOthersTotal(ps[..|ps| - 1], qs[..|qs| - 1], spy);
    }
  }

  lemma {:induction false} AwardOneTotal(ps: seq<LocalPlayer>, i: nat, p: LocalPlayer)
    requires i < |ps|
    ensures TotalScore(ps[i := p]) == TotalScore(ps) - ps[i].score + p.score
  {
    if i < |ps| - 1 {
      AwardOneTotal(ps[..|ps| - 1], i, p);
      assert ps[i := p][..|ps| - 1] == ps[..|ps| - 1][i := p];
    } else {
      assert ps[i := p][..|ps| - 1] == ps[..|ps| - 1];
    }
  }

  /**
   * Scoring by index: caught with a wrong guess, every index except the spy's gains 2 and the spy
   * nothing, 2 × (players − 1) in all; otherwise the spy alone gains 3. Only scores change.
   */
  lemma LocalAwardRules(ps: seq<LocalPlayer>, spy: nat, caught: bool, correct: bool)
    requires spy < |ps|
    ensures var qs := LocalAward(ps, spy, caught, correct);
      && (forall i :: 0 <= i < |ps| ==> qs[i] == ps[i].(score := qs[i].score))
      && (caught && !correct ==> forall i :: 0 <= i < |ps| ==> qs[i].score == ps[i].score + (if i != spy then 2 else 0))
      && (!(caught && !correct) ==> forall i :: 0 <= i < |ps| ==> qs[i].score == ps[i].score + (if i == spy then 3 else 0))
      && TotalScore(qs) == TotalScore(ps) + (if caught && !correct then 2 * (|ps| - 1) else 3)
  {
    var qs := LocalAward(ps, spy, caught, correct);
    if caught && !correct {
      AwardOthersTotal(ps, qs, spy);
    } else {
      AwardOneTotal(ps, spy, ps[spy].(score := ps[spy].score + 3));
    }
  }

  /** `players.forEach(p => leaderboard[p.name] = p.score)`. */
  function RecordScores(lb: map<string, nat>, ps: seq<LocalPlayer>): (recorded: map<string, nat>)
  {
    if ps == [] then lb else RecordScores(lb, ps[..|ps| - 1])[ps[|ps| - 1].name := ps[|ps| - 1].score]
  }

  /** Names of no player keep their leaderboard entry, or their absence. */
  lemma {:induction false} RecordScoresOthers(lb: map<string, nat>, ps: seq<LocalPlayer>, name: string)
    requires name !in Names(ps)
    ensures (name in RecordScores(lb, ps) <==> name in lb)
    ensures name in lb ==> RecordScores(lb, ps)[name] == lb[name]
  {
    if ps != [] {
      assert Names(ps) == Names(ps[..|ps| - 1]) + [ps[|ps| - 1].name];
      RecordScoresOthers(lb, ps[..|ps| - 1], name);
    }
  }

  /** A player's name records the score of the last player with that name. */
  lemma {:induction false} RecordScoresLast(lb: map<string, nat>, ps: seq<LocalPlayer>, i: nat)
    requires i < |ps| && forall j :: i < j < |ps| ==> ps[j].name != ps[i].name
    ensures ps[i].name in RecordScores(lb, ps) && RecordScores(lb, ps)[ps[i].name] == ps[i].score
  {
    if i < |ps| - 1 {
      var front := ps[..|ps| - 1];
      RecordScoresLast(lb, front, i);
    }
  }

  /**
   * Crediting `all` votes, `spy` of them cast while the player was the spy: the total grows by all
   * of them, the spy count by `spy` and the innocent count by the rest.
   */
  function Credited(s: Stats, all: nat, spy: nat): (r: Stats)
    requires spy <= all
    ensures r.totalVotesReceived == s.totalVotesReceived + all
    ensures r.votesReceivedAsSpy == s.votesReceivedAsSpy + spy
    ensures r.votesReceivedAsInnocent == s.votesReceivedAsInnocent + (all - spy)
    ensures r.timesSpy == s.timesSpy && r.spyWins == s.spyWins
  {
    s.(totalVotesReceived := s.totalVotesReceived + all, votesReceivedAsSpy := s.votesReceivedAsSpy + spy,
       votesReceivedAsInnocent := s.votesReceivedAsInnocent + (all - spy))
  }

  /**
   * Adds one tally to the statistics of the player it was cast for, if that player has an entry:
   * to the spy votes when the player is the spy, to the innocent votes otherwise.
   */
  function AddVote(stats: seq<Dict.Entry<Stats>>, ps: seq<LocalPlayer>, target: nat, count: nat): (credited: seq<Dict.Entry<Stats>>)
  {
    if target < |ps| && Dict.Get(stats, ps[target].name).Some? then
      Dict.Put(stats, ps[target].name,
               Credited(Dict.Get(stats, ps[target].name).value, count, if ps[target].isSpy then count else 0))
    else stats
  }

  /** The vote loop of updateSessionStats, over the tallies in index order. */
  function AddVotes(stats: seq<Dict.Entry<Stats>>, ps: seq<LocalPlayer>, votes: seq<nat>): (tallied: seq<Dict.Entry<Stats>>)
  {
    if votes == [] then stats else AddVote(AddVotes(stats, ps, votes[..|votes| - 1]), ps, |votes| - 1, votes[|votes| - 1])
  }

  /** The tallies cast for players called `name`, or only for those of them who were the spy. */
  function VotesFor(ps: seq<LocalPlayer>, votes: seq<nat>, name: string, spiesOnly: bool): nat
  {
    if votes == [] then 0
    else
      var k := |votes| - 1;
      VotesFor(ps, votes[..k], name, spiesOnly) +
        (if k < |ps| && ps[k].name == name && (!spiesOnly || ps[k].isSpy) then votes[k] else 0)
  }

  lemma {:induction false} VotesForSpiesBound(ps: seq<LocalPlayer>, votes: seq<nat>, name: string)
    ensures VotesFor(ps, votes, name, true) <= VotesFor(ps, votes, name, false)
  {
    if votes != [] {
      VotesForSpiesBound(ps, votes[..|votes| - 1], name);
    }
  }

  lemma CreditedTwice(s: Stats, a1: nat, s1: nat, a2: nat, s2: nat)
    requires s1 <= a1 && s2 <= a2
    ensures Credited(Credited(s, a1, s1), a2, s2) == Credited(s, a1 + a2, s1 + s2)
  {
  }

  /** One step of the vote loop changes only the entry of the player the tally was cast for. */
  lemma AddVoteGet(stats: seq<Dict.Entry<Stats>>, ps: seq<LocalPlayer>, target: nat, count: nat, name: string)
    ensures Dict.Get(AddVote(stats, ps, target, count), name) ==
      if target < |ps| && ps[target].name == name && Dict.Get(stats, name).Some?
      then Some(Credited(Dict.Get(stats, name).value, count, if ps[target].isSpy then count else 0))
      else Dict.Get(stats, name)
  {
    if target < |ps| && Dict.Get(stats, ps[target].name).Some? {
      var s := Dict.Get(stats, ps[target].name).value;
      Dict.PutGet(stats, ps[target].name, Credited(s, count, if ps[target].isSpy then count else 0), name);
    }
  }

  /** What the vote loop makes of one entry: the tallies for `name`, credited one at a time. */
  function CreditEach(ps: seq<LocalPlayer>, votes: seq<nat>, name: string, s: Stats): Stats
  {
    if votes == [] then s
    else
      var k := |votes| - 1;
      var mine := k < |ps| && ps[k].name == name;
      Credited(CreditEach(ps, votes[..k], name, s), if mine then votes[k] else 0, if mine && ps[k].isSpy then votes[k] else 0)
  }

  /** Crediting one at a time is crediting the sums. */
  lemma {:induction false} CreditEachSums(ps: seq<LocalPlayer>, votes: seq<nat>, name: string, s: Stats)
    ensures VotesFor(ps, votes, name, true) <= VotesFor(ps, votes, name, false)
    ensures CreditEach(ps, votes, name, s) == Credited(s, VotesFor(ps, votes, name, false), VotesFor(ps, votes, name, true))
  {
    VotesForSpiesBound(ps, votes, name);
    if votes != [] {
      var k := |votes| - 1;
      var front := votes[..k];
      var mine := k < |ps| && ps[k].name == name;
      CreditEachSums(ps, front, name, s);
      CreditedTwice(s, VotesFor(ps, front, name, false), VotesFor(ps, front, name, true),
                    if mine then votes[k] else 0, if mine && ps[k].isSpy then votes[k] else 0);
    } else {
      assert Credited(s, 0, 0) == s;
    }
  }

  /** The vote loop touches each entry as CreditEach says, and creates none. */
  lemma {:induction false} AddVotesCredits(stats: seq<Dict.Entry<Stats>>, ps: seq<LocalPlayer>, votes: seq<nat>, name: string)
    ensures Dict.Get(AddVotes(stats, ps, votes), name) ==
      if Dict.Get(stats, name).Some? then Some(CreditEach(ps, votes, name, Dict.Get(stats, name).value)) else None
  {
    if votes != [] {
      var k := |votes| - 1;
      AddVotesCredits(stats, ps, votes[..k], name);
      AddVoteGet(AddVotes(stats, ps, votes[..k]), ps, k, votes[k], name);
    }
  }

  /**
   * The vote loop credits the entry of each name with the tallies cast for players of that name,
   * those cast for the spy as spy votes; names without an entry get none.
   */
  lemma AddVotesGet(stats: seq<Dict.Entry<Stats>>, ps: seq<LocalPlayer>, votes: seq<nat>, name: string)
    ensures VotesFor(ps, votes, name, true) <= VotesFor(ps, votes, name, false)
    ensures Dict.Get(stats, name).None? ==> Dict.Get(AddVotes(stats, ps, votes), name).None?
    ensures Dict.Get(stats, name).Some? ==>
              Dict.Get(AddVotes(stats, ps, votes), name) ==
              Some(Credited(Dict.Get(stats, name).value, VotesFor(ps, votes, name, false), VotesFor(ps, votes, name, true)))
  {
    VotesForSpiesBound(ps, votes, name);
    AddVotesCredits(stats, ps, votes, name);
    if Dict.Get(stats, name).Some? {
      CreditEachSums(ps, votes, name, Dict.Get(stats, name).value);
    }
  }

  /** The vote loop adds no key and removes none. */
  lemma {:induction false} AddVotesKeys(stats: seq<Dict.Entry<Stats>>, ps: seq<LocalPlayer>, votes: seq<nat>, k: string)
    ensures Dict.Find(AddVotes(stats, ps, votes), k).Some? <==> Dict.Find(stats, k).Some?
  {
    if votes != [] {
      var front := AddVotes(stats, ps, votes[..|votes| - 1]);
      AddVotesKeys(stats, ps, votes[..|votes| - 1], k);
      var t := |votes| - 1;
      if t < |ps| && Dict.Get(front, ps[t].name).Some? {
        var s := Dict.Get(front, ps[t].name).value;
        Dict.PutGet(front, ps[t].name, Credited(s, votes[t], if ps[t].isSpy then votes[t] else 0), k);
      }
    }
  }

  /** The spy's statistics: one more round as spy, and one more win unless caught with a wrong guess. */
  function AddSpyRound(stats: seq<Dict.Entry<Stats>>, ps: seq<LocalPlayer>, spy: int, caught: bool, correct: bool): (counted: seq<Dict.Entry<Stats>>)
  {
    if 0 <= spy < |ps| then
      match Dict.Get(stats, ps[spy].name)
      case None => stats
      case Some(s) => Dict.Put(stats, ps[spy].name, SpyRound(s, caught, correct))
    else stats
  }

  function SpyRound(s: Stats, caught: bool, correct: bool): (r: Stats)
    ensures r.timesSpy == s.timesSpy + 1
    ensures r.spyWins == s.spyWins + (if !caught || correct then 1 else 0)
    ensures r == s.(timesSpy := r.timesSpy, spyWins := r.spyWins)
  {
    s.(timesSpy := s.timesSpy + 1, spyWins := s.spyWins + (if !caught || correct then 1 else 0))
  }

  /** updateSessionStats. */
  function UpdateSessionStats(stats: seq<Dict.Entry<Stats>>, ps: seq<LocalPlayer>, votes: seq<nat>, spy: int,
                              caught: bool, correct: bool): (updated: seq<Dict.Entry<Stats>>)
  {
    AddSpyRound(AddVotes(stats, ps, votes), ps, spy, caught, correct)
  }

  /**
   * With unique names, each player's entry gains the tally cast for that player, as spy votes for
   * the spy and as innocent votes for the others; the spy's entry records one more spy round, and
   * one more spy win exactly when the spy was not caught or guessed the word.
   */
  lemma UpdateSessionStatsRules(stats: seq<Dict.Entry<Stats>>, ps: seq<LocalPlayer>, votes: seq<nat>, spy: nat,
                                caught: bool, correct: bool, j: nat)
    requires |votes| == |ps| && j < |ps| && spy < |ps| && OnlySpy(ps, spy)
    requires forall a, b :: 0 <= a < b < |ps| ==> ps[a].name != ps[b].name
    requires Dict.Get(stats, ps[j].name).Some?
    ensures var s := Dict.Get(stats, ps[j].name).value;
      var n := votes[j];
      Dict.Get(UpdateSessionStats(stats, ps, votes, spy, caught, correct), ps[j].name) ==
        Some(if j == spy then SpyRound(Credited(s, n, n), caught, correct) else Credited(s, n, 0))
  {
    var name := ps[j].name;
    VotesForUnique(ps, votes, j, false);
    VotesForUnique(ps, votes, j, true);
    AddVotesGet(stats, ps, votes, name);
    var mid := AddVotes(stats, ps, votes);
    var sp := Dict.Get(mid, ps[spy].name);
    if sp.Some? {
      Dict.PutGet(mid, ps[spy].name, SpyRound(sp.value, caught, correct), name);
    }
  }

  /** With unique names, the tallies cast for the name of player `j` are exactly player `j`'s. */
  lemma {:induction false} VotesForUnique(ps: seq<LocalPlayer>, votes: seq<nat>, j: nat, spiesOnly: bool)
    requires |votes| <= |ps| && j < |ps|
    requires forall a, b :: 0 <= a < b < |ps| ==> ps[a].name != ps[b].name
    ensures VotesFor(ps, votes, ps[j].name, spiesOnly) == if j < |votes| && (!spiesOnly || ps[j].isSpy) then votes[j] else 0
  {
    if votes != [] {
      VotesForUnique(ps, votes[..|votes| - 1], j, spiesOnly);
      assert |votes| - 1 != j ==> ps[|votes| - 1].name != ps[j].name;
    }
  }

  /** showResults: the `results` phase, the scores, the leaderboard and the session statistics. */
  function ShowResults(g: GameValue, caught: bool, correct: bool): (w: GameValue)
    requires 0 <= g.spyIndex < |g.players|
  {
    var ps := LocalAward(g.players, g.spyIndex, caught, correct);
    g.(phase := Results, players := ps, leaderboard := RecordScores(g.leaderboard, ps),
       sessionStats := UpdateSessionStats(g.sessionStats, ps, g.votes, g.spyIndex, caught, correct))
  }

  /** submitSpyGuess: the spy is caught, and right exactly when the trimmed guess is the word. */
  function SubmitSpyGuess(g: GameValue, guess: string): (w: GameValue)
    requires 0 <= g.spyIndex < |g.players|
  {
    ShowResults(g, true, g.currentWord == Some(Trim(guess)))
  }

  /** A correct guess, even after being caught, scores the spy 3, the same as not being caught. */
  lemma SpyGuessRules(g: GameValue, guess: string)
    requires 0 <= g.spyIndex < |g.players|
    ensures g.currentWord == Some(Trim(guess)) ==> SubmitSpyGuess(g, guess).players == ShowResults(g, false, false).players
    ensures g.currentWord != Some(Trim(guess)) ==>
      forall i :: 0 <= i < |g.players| ==>
        SubmitSpyGuess(g, guess).players[i].score == g.players[i].score + (if i != g.spyIndex then 2 else 0)
  {
    LocalAwardRules(g.players, g.spyIndex, true, g.currentWord == Some(Trim(guess)));
  }

  // ---------------------------------------------------------------- nextRound

  function ClearSpies(ps: seq<LocalPlayer>): (qs: seq<LocalPlayer>)
    ensures |qs| == |ps| && forall i :: 0 <= i < |ps| ==> qs[i] == ps[i].(isSpy := false)
  {
    seq(|ps|, i requires 0 <= i < |ps| => ps[i].(isSpy := false))
  }

  /** What nextRound needs when a round follows: the draws are in range. */
  predicate NextRoundFits(g: GameValue, table: seq<Words.Category>, pick: nat, spyIndex: nat)
  {
    g.currentRound < g.totalRounds ==>
      spyIndex < |g.players| && Words.PickFits(pick, |Words.LocalPool(table, g.category, g.customWords)|)
  }

  /**
   * nextRound: after the last round nothing changes (the final leaderboard is shown); otherwise the
   * round counter rises, the round is cleared and a new word and spy are drawn.
   */
  function NextRound(g: GameValue, table: seq<Words.Category>, pick: nat, spyIndex: nat): (w: GameValue)
    requires NextRoundFits(g, table, pick, spyIndex)
  {
    if g.currentRound >= g.totalRounds then g
    else
      var ps := ClearSpies(g.players);
      g.(currentRound := g.currentRound + 1, players := ps[spyIndex := ps[spyIndex].(isSpy := true)],
         currentPlayerIndex := 0, hints := [], votes := NoVotes(|ps|), votingComplete := false,
         allPlayersRevealed := false, currentVotingPlayer := 0, currentWord := ChosenWord(g, table, pick),
         spyIndex := spyIndex, phase := Reveal)
  }

  /**
   * After the last round nextRound changes nothing. Otherwise the round counter rises by one,
   * hints and votes are cleared, exactly one player, the drawn one, is the spy, and names, scores,
   * avatars and question targets stay.
   */
  lemma NextRoundRules(g: GameValue, table: seq<Words.Category>, pick: nat, spyIndex: nat)
    requires NextRoundFits(g, table, pick, spyIndex)
    ensures g.currentRound >= g.totalRounds ==> NextRound(g, table, pick, spyIndex) == g
    ensures g.currentRound < g.totalRounds ==>
      var w := NextRound(g, table, pick, spyIndex);
      && w.currentRound == g.currentRound + 1 && w.hints == [] && w.votes == NoVotes(|g.players|)
      && !w.votingComplete && w.phase == Reveal && w.currentPlayerIndex == 0
      && OnlySpy(w.players, spyIndex) && w.spyIndex == spyIndex && |w.players| == |g.players|
      && (forall i :: 0 <= i < |g.players| ==> w.players[i] == g.players[i].(isSpy := w.players[i].isSpy))
  {
  }

  // ---------------------------------------------------------------- resetScores

  function ZeroScores(ps: seq<LocalPlayer>): (qs: seq<LocalPlayer>)
    ensures |qs| == |ps| && forall i :: 0 <= i < |ps| ==> qs[i] == ps[i].(score := 0)
  {
    seq(|ps|, i requires 0 <= i < |ps| => ps[i].(score := 0))
  }

  /** resetScores, with the answer to its confirmation dialog as `confirmed`. */
  function ResetScores(g: GameValue, confirmed: bool): (w: GameValue)
  {
    if confirmed then g.(leaderboard := map[], players := ZeroScores(g.players)) else g
  }

  /** A confirmed reset leaves every score at 0 and the total at 0; a declined one changes nothing. */
  lemma {:induction false} ResetScoresRules(g: GameValue, confirmed: bool)
    ensures !confirmed ==> ResetScores(g, confirmed) == g
    ensures confirmed ==> TotalScore(ResetScores(g, confirmed).players) == 0 && ResetScores(g, confirmed).leaderboard == map[]
  {
    if confirmed {
      ZeroTotal(ZeroScores(g.players));
    }
  }

  lemma {:induction false} ZeroTotal(ps: seq<LocalPlayer>)
    requires forall i :: 0 <= i < |ps| ==> ps[i].score == 0
    ensures TotalScore(ps) == 0
  {
    if ps != [] {
      ZeroTotal(ps[..|ps| - 1]);
    }
  }

  // ---------------------------------------------------------------- custom words

  predicate NoDuplicates(ws: seq<string>)
  {
    forall i, j :: 0 <= i < j < |ws| ==> ws[i] != ws[j]
  }

  /** addCustomWord: the trimmed word is appended when it is not empty and not there yet. */
  function AddCustomWord(ws: seq<string>, input: string): (r: seq<string>)
    ensures Trim(input) != "" && Trim(input) !in ws ==> r == ws + [Trim(input)]
    ensures Trim(input) == "" || Trim(input) in ws ==> r == ws
    ensures NoDuplicates(ws) ==> NoDuplicates(r)
  {
    var w := Trim(input);
    if w != "" && w !in ws then ws + [w] else ws
  }

  /** removeCustomWord: `customWords.filter(w => w !== word)`. */
  function RemoveCustomWord(ws: seq<string>, word: string): (r: seq<string>)
    ensures forall w :: w in r <==> w in ws && w != word
    ensures |r| <= |ws|
  {
    if ws == [] then []
    else
      var r := RemoveCustomWord(ws[..|ws| - 1], word);
      assert forall w :: w in ws <==> w in ws[..|ws| - 1] || w == ws[|ws| - 1];
      if ws[|ws| - 1] != word then r + [ws[|ws| - 1]] else r
  }

  /** Filtering keeps the other words in their order: it distributes over concatenation. */
  lemma {:induction false} RemoveCustomWordSplits(a: seq<string>, b: seq<string>, word: string)
    ensures RemoveCustomWord(a + b, word) == RemoveCustomWord(a, word) + RemoveCustomWord(b, word)
  {
    if b != [] {
      RemoveCustomWordSplits(a, b[..|b| - 1], word);
      assert (a + b)[..|a + b| - 1] == a + b[..|b| - 1];
    } else {
      assert a + b == a;
    }
  }

  /** Removing a word keeps the list duplicate-free, and removing an absent word changes nothing. */
  lemma {:induction false} RemoveCustomWordRules(ws: seq<string>, word: string)
    ensures NoDuplicates(ws) ==> NoDuplicates(RemoveCustomWord(ws, word))
    ensures word !in ws ==> RemoveCustomWord(ws, word) == ws
  {
    if ws != [] {
      var front := ws[..|ws| - 1];
      RemoveCustomWordRules(front, word);
      assert ws == front + [ws[|ws| - 1]];
      if NoDuplicates(ws) {
        assert NoDuplicates(front);
        assert ws[|ws| - 1] !in front;
      }
    }
  }

  // ---------------------------------------------------------------- renderAwards

  /** The three awards of the final leaderboard, by player name. */
  datatype Awards = Awards(victimName: Option<string>, mastermindName: Option<string>, ghostName: Option<string>)

  /** A winning name is shown only when it is truthy, which in JavaScript excludes "". */
  function Shown(name: string): Option<string>
  {
    if name == "" then None else Some(name)
  }

  function InnocentVotes(stats: seq<Dict.Entry<Stats>>): (vs: seq<int>)
    ensures |vs| == |stats| && forall i :: 0 <= i < |stats| ==> vs[i] == stats[i].val.votesReceivedAsInnocent
  {
    seq(|stats|, i requires 0 <= i < |stats| => stats[i].val.votesReceivedAsInnocent as int)
  }

  function SpyWins(stats: seq<Dict.Entry<Stats>>): (vs: seq<int>)
    ensures |vs| == |stats| && forall i :: 0 <= i < |stats| ==> vs[i] == stats[i].val.spyWins
  {
    seq(|stats|, i requires 0 <= i < |stats| => stats[i].val.spyWins as int)
  }

  /** The fewest-votes scan is a most-so-far scan on negated totals. */
  function NegatedTotals(stats: seq<Dict.Entry<Stats>>): (vs: seq<int>)
    ensures |vs| == |stats| && forall i :: 0 <= i < |stats| ==> vs[i] == -(stats[i].val.totalVotesReceived as int)
  {
    seq(|stats|, i requires 0 <= i < |stats| => -(stats[i].val.totalVotesReceived as int))
  }

  function WinnerName(stats: seq<Dict.Entry<Stats>>, r: Option<nat>): Option<string>
    requires r.Some? ==> r.value < |stats|
  {
    match r
    case None => None
    case Some(k) => Shown(stats[k].key)
  }

  /**
   * The selection of renderAwards over the statistics in key order: the scapegoat has the most
   * innocent votes and the mastermind the most spy wins (the first such, and only when positive);
   * the ghost is the entry with the fewest votes, shown only when that is none at all.
   */
  function SelectAwards(stats: seq<Dict.Entry<Stats>>): (a: Awards)
  {
    var fewest := FirstMaxAbove(NegatedTotals(stats), -GhostStart);
    Awards(WinnerName(stats, FirstMaxAbove(InnocentVotes(stats), 0)),
           WinnerName(stats, FirstMaxAbove(SpyWins(stats), 0)),
           if fewest.Some? && stats[fewest.value].val.totalVotesReceived == 0 then WinnerName(stats, fewest) else None)
  }

  /**
   * The ghost award goes to the first entry that received no vote at all, and there is none when
   * every entry received a vote (or the first such entry's name is empty).
   */
  lemma GhostIsFirstUnvoted(stats: seq<Dict.Entry<Stats>>)
    ensures (forall i :: 0 <= i < |stats| ==> stats[i].val.totalVotesReceived > 0) ==> SelectAwards(stats).ghostName.None?
    ensures forall k :: 0 <= k < |stats| && stats[k].val.totalVotesReceived == 0 &&
                        (forall i :: 0 <= i < k ==> stats[i].val.totalVotesReceived > 0) ==>
                        SelectAwards(stats).ghostName == Shown(stats[k].key)
  {
    var vs := NegatedTotals(stats);
    FirstMaxAboveIs(vs, -GhostStart);
    forall k | 0 <= k < |stats| && stats[k].val.totalVotesReceived == 0 &&
               (forall i :: 0 <= i < k ==> stats[i].val.totalVotesReceived > 0)
      ensures SelectAwards(stats).ghostName == Shown(stats[k].key)
    {
      FirstMaxUnique(vs, -GhostStart, k);
    }
  }

  /**
   * The scapegoat is the first entry holding the most innocent votes, and exists exactly when some
   * entry has an innocent vote (and a name).
   */
  lemma VictimIsFirstMostAccused(stats: seq<Dict.Entry<Stats>>)
    ensures (forall i :: 0 <= i < |stats| ==> stats[i].val.votesReceivedAsInnocent == 0) ==> SelectAwards(stats).victimName.None?
    ensures forall k :: 0 <= k < |stats| && stats[k].val.votesReceivedAsInnocent > 0 &&
                        (forall i :: 0 <= i < |stats| ==> stats[i].val.votesReceivedAsInnocent <= stats[k].val.votesReceivedAsInnocent) &&
                        (forall i :: 0 <= i < k ==> stats[i].val.votesReceivedAsInnocent < stats[k].val.votesReceivedAsInnocent) ==>
                        SelectAwards(stats).victimName == Shown(stats[k].key)
  {
    var vs := InnocentVotes(stats);
    FirstMaxAboveIs(vs, 0);
    forall k | 0 <= k < |stats| && stats[k].val.votesReceivedAsInnocent > 0 &&
               (forall i :: 0 <= i < |stats| ==> stats[i].val.votesReceivedAsInnocent <= stats[k].val.votesReceivedAsInnocent) &&
               (forall i :: 0 <= i < k ==> stats[i].val.votesReceivedAsInnocent < stats[k].val.votesReceivedAsInnocent)
      ensures SelectAwards(stats).victimName == Shown(stats[k].key)
    {
      FirstMaxUnique(vs, 0, k);
    }
  }

  /**
   * The mastermind is the first entry holding the most spy wins, and exists exactly when some
   * entry won a round as the spy (and has a name).
   */
  lemma MastermindIsFirstTopSpy(stats: seq<Dict.Entry<Stats>>)
    ensures (forall i :: 0 <= i < |stats| ==> stats[i].val.spyWins == 0) ==> SelectAwards(stats).mastermindName.None?
    ensures forall k :: 0 <= k < |stats| && stats[k].val.spyWins > 0 &&
                        (forall i :: 0 <= i < |stats| ==> stats[i].val.spyWins <= stats[k].val.spyWins) &&
                        (forall i :: 0 <= i < k ==> stats[i].val.spyWins < stats[k].val.spyWins) ==>
                        SelectAwards(stats).mastermindName == Shown(stats[k].key)
  {
    var vs := SpyWins(stats);
    FirstMaxAboveIs(vs, 0);
    forall k | 0 <= k < |stats| && stats[k].val.spyWins > 0 &&
               (forall i :: 0 <= i < |stats| ==> stats[i].val.spyWins <= stats[k].val.spyWins) &&
               (forall i :: 0 <= i < k ==> stats[i].val.spyWins < stats[k].val.spyWins)
      ensures SelectAwards(stats).mastermindName == Shown(stats[k].key)
    {
      FirstMaxUnique(vs, 0, k);
    }
  }
}
