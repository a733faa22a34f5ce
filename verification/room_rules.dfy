/**
 * The rules of the online rooms of server.js, stated as functions on room values. Every socket
 * handler and timer becomes a function from the room before to the room after; the classes in
 * server_rooms.dfy carry out the same steps in place and are proved against these functions.
 */
module RoomRules {
  import opened Common
  import opened Text
  import opened Draws
  import opened Tally
  import Dict
  import Words

  const MaxPlayers: nat := 12
  const MinPlayers: nat := 3
  const QuestionsMode: string := "questions"

  /** AVATARS of server.js; a new room's host gets the first one. */
  const Avatars: seq<string> := ["\U{1F60E}", "\U{1F920}", "\U{1F608}", "\U{1F913}", "\U{1F63A}", "\U{1F98A}",
                                 "\U{1F435}", "\U{1F981}", "\U{1F42F}", "\U{1F43B}", "\U{1F43C}", "\U{1F438}"]

  datatype Player = Player(id: string, name: string, avatar: string, score: nat, ready: bool,
                           isHost: bool, askedTarget: Option<string>)

  datatype Settings = Settings(mode: string, category: string, turnTime: int, totalRounds: int)

  /** The fields an `update-settings` message may carry; absent ones keep their value. */
  datatype SettingsPatch = SettingsPatch(mode: Option<string>, category: Option<string>,
                                         turnTime: Option<int>, totalRounds: Option<int>)

  datatype Phase = Reveal | Hints | Voting | Results

  /** A room's `gameState`: present exactly while a round is on. `votes` maps names to tallies. */
  datatype Round = Round(word: string, spyId: string, spyName: string, phase: Phase, hints: seq<Hint>,
                         hintsReceived: nat, votes: seq<Dict.Entry<nat>>, votedPlayers: set<string>)

  datatype RoomValue = RoomValue(code: string, hostId: string, players: seq<Player>, settings: Settings,
                                 gameState: Option<Round>, currentRound: nat)

  datatype RoomError = RoomNotFound | RoomFull | GameInProgress | NotEnoughPlayers

  predicate QuestionMode(s: Settings)
  {
    s.mode == QuestionsMode
  }

  // ---------------------------------------------------------------- membership

  /** `players.findIndex(p => p.id === id)`. */
  function PlayerIndex(ps: seq<Player>, id: string): (r: Option<nat>)
    ensures r.None? <==> forall i :: 0 <= i < |ps| ==> ps[i].id != id
    ensures r.Some? ==> r.value < |ps| && ps[r.value].id == id
    ensures r.Some? ==> forall i :: 0 <= i < r.value ==> ps[i].id != id
  {
    if ps == [] then None
    else if ps[0].id == id then Some(0)
    else match PlayerIndex(ps[1..], id)
      case None => None
      case Some(i) => Some(i + 1)
  }

  function Ids(ps: seq<Player>): (r: seq<string>)
    ensures |r| == |ps| && forall i :: 0 <= i < |ps| ==> r[i] == ps[i].id
  {
    seq(|ps|, i requires 0 <= i < |ps| => ps[i].id)
  }

  /** `PlayerIndex` reads only the ids, so sequences with equal ids agree on it. */
  lemma PlayerIndexByIds(ps: seq<Player>, qs: seq<Player>, id: string)
    requires Ids(ps) == Ids(qs)
    ensures PlayerIndex(ps, id) == PlayerIndex(qs, id)
  {
    assert |ps| == |Ids(ps)| == |Ids(qs)| == |qs|;
    assert forall i :: 0 <= i < |ps| ==> ps[i].id == Ids(ps)[i] == Ids(qs)[i] == qs[i].id;
    var a, b := PlayerIndex(ps, id), PlayerIndex(qs, id);
    if a.Some? && b.Some? {
      assert !(a.value < b.value) && !(b.value < a.value);
    }
  }

  predicate DistinctIds(ps: seq<Player>)
  {
    forall i, j :: 0 <= i < j < |ps| ==> ps[i].id != ps[j].id
  }

  function HostCount(ps: seq<Player>): nat
  {
    if ps == [] then 0 else (if ps[0].isHost then 1 else 0) + HostCount(ps[1..])
  }

  /**
   * The room invariant on members: between one and twelve players, the first one (the earliest
   * joined) is the host, `hostId` is its id, and nobody else has the host flag.
   */
  predicate WellFormed(v: RoomValue)
  {
    && 1 <= |v.players| <= MaxPlayers
    && v.players[0].isHost && v.players[0].id == v.hostId
    && forall i :: 1 <= i < |v.players| ==> !v.players[i].isHost
  }

  lemma {:induction false} NoHostCount(ps: seq<Player>)
    requires forall i :: 0 <= i < |ps| ==> !ps[i].isHost
    ensures HostCount(ps) == 0
  {
    if ps != [] {
      NoHostCount(ps[1..]);
    }
  }

  /** In a well-formed room exactly one player is host, and its id is `hostId`. */
  lemma ExactlyOneHost(v: RoomValue)
    requires WellFormed(v)
    ensures HostCount(v.players) == 1
    ensures forall i :: 0 <= i < |v.players| && v.players[i].isHost ==> v.players[i].id == v.hostId
  {
    NoHostCount(v.players[1..]);
  }

  /** The round invariant: one hint per received count, one tally per distinct voter, unique names. */
  predicate RoundConsistent(v: RoomValue)
  {
    v.gameState.Some? ==>
      var gs := v.gameState.value;
      |gs.hints| == gs.hintsReceived && Dict.Total(gs.votes) == |gs.votedPlayers| && Dict.DistinctKeys(gs.votes)
  }

  predicate RoomInv(v: RoomValue)
  {
    WellFormed(v) && RoundConsistent(v)
  }

  // ---------------------------------------------------------------- createRoom

  const DefaultSettings: Settings := Settings(QuestionsMode, Words.RandomId, 15, 3)

  /** createRoom: one ready host, default settings, no round, round counter at 0. */
  function NewRoom(code: string, hostId: string, hostName: string): (v: RoomValue)
    ensures RoomInv(v) && Ids(v.players) == [hostId] && v.hostId == hostId
    ensures v.players[0].ready && v.players[0].isHost && v.players[0].score == 0 && v.players[0].name == hostName
    ensures v.gameState.None? && v.currentRound == 0 && v.code == code
  {
    RoomValue(code, hostId, [Player(hostId, hostName, Avatars[0], 0, true, true, None)], DefaultSettings, None, 0)
  }

  // ---------------------------------------------------------------- join-room

  predicate NameTaken(ps: seq<Player>, name: string)
  {
    exists i :: 0 <= i < |ps| && ps[i].name == name
  }

  /** A taken name gets one space and the random suffix appended, once. */
  function JoinName(ps: seq<Player>, name: string, suffix: nat): string
  {
    if NameTaken(ps, name) then name + " " + DecimalString(suffix) else name
  }

  datatype JoinOutcome = Joined(room: RoomValue) | Rejected(error: RoomError)

  /** The checks of join-room after the code lookup, and the appended player. */
  function Join(v: RoomValue, id: string, name: string, suffix: nat): (outcome: JoinOutcome)
  {
    if |v.players| >= MaxPlayers then Rejected(RoomFull)
    else if v.gameState.Some? then Rejected(GameInProgress)
    else
      var p := Player(id, JoinName(v.players, name, suffix), Avatars[|v.players| % |Avatars|], 0, false, false, None);
      Joined(v.(players := v.players + [p]))
  }

  /**
   * Join is refused exactly for a full room or a round in progress. Otherwise exactly one player is
   * appended: non-host, not ready, score 0, the next avatar, the requested name when it was free;
   * everything else stays, and the invariant holds again.
   */
  lemma JoinRules(v: RoomValue, id: string, name: string, suffix: nat)
    ensures Join(v, id, name, suffix) == Rejected(RoomFull) <==> |v.players| >= MaxPlayers
    ensures Join(v, id, name, suffix) == Rejected(GameInProgress) <==> |v.players| < MaxPlayers && v.gameState.Some?
    ensures Join(v, id, name, suffix).Joined? ==>
      var w := Join(v, id, name, suffix).room;
      && |w.players| == |v.players| + 1 && w.players[..|v.players|] == v.players
      && w == v.(players := w.players)
      && var p := w.players[|v.players|];
         p.id == id && !p.isHost && !p.ready && p.score == 0 && p.avatar == Avatars[|v.players| % 12]
         && (!NameTaken(v.players, name) ==> p.name == name)
         && (NameTaken(v.players, name) ==> p.name == name + " " + DecimalString(suffix))
    ensures RoomInv(v) && Join(v, id, name, suffix).Joined? ==> RoomInv(Join(v, id, name, suffix).room)
  {
    if Join(v, id, name, suffix).Joined? {
      var w := Join(v, id, name, suffix).room;
      assert w.players[..|v.players|] == v.players;
    }
  }

  /** One suffix is not enough to make names unique: "x" joining next to "x" and "x 5" with suffix 5. */
  lemma JoinNameMayRepeat()
    ensures
      var host := Player("h", "x", Avatars[0], 0, true, true, None);
      var other := Player("o", "x 5", Avatars[1], 0, false, false, None);
      var v := RoomValue("12345", "h", [host, other], DefaultSettings, None, 0);
      var o := Join(v, "n", "x", 5);
      o.Joined? && o.room.players[2].name == o.room.players[1].name
  {
    var host := Player("h", "x", Avatars[0], 0, true, true, None);
    var other := Player("o", "x 5", Avatars[1], 0, false, false, None);
    assert [host, other][0].name == "x";
    assert DecimalString(5) == "5";
  }

  // ---------------------------------------------------------------- toggle-ready, update-settings

  /** toggle-ready flips the ready flag of the first player with that id; unknown ids change nothing. */
  function ToggleReady(v: RoomValue, id: string): (w: RoomValue)
  {
    match PlayerIndex(v.players, id)
    case None => v
    case Some(i) => v.(players := v.players[i := v.players[i].(ready := !v.players[i].ready)])
  }

  /** Toggling twice restores the room, and toggling keeps the invariant. */
  lemma ToggleReadyTwice(v: RoomValue, id: string)
    ensures ToggleReady(ToggleReady(v, id), id) == v
    ensures RoomInv(v) ==> RoomInv(ToggleReady(v, id))
  {
    var w := ToggleReady(v, id);
    PlayerIndexByIds(v.players, w.players, id);
    if PlayerIndex(v.players, id).Some? {
      var i := PlayerIndex(v.players, id).value;
      assert w.players[i := w.players[i].(ready := !w.players[i].ready)] == v.players;
    }
  }

  /** `{ ...settings, ...patch }`. */
  function Merge(s: Settings, p: SettingsPatch): (merged: Settings)
  {
    Settings(
      if p.mode.Some? then p.mode.value else s.mode,
      if p.category.Some? then p.category.value else s.category,
      if p.turnTime.Some? then p.turnTime.value else s.turnTime,
      if p.totalRounds.Some? then p.totalRounds.value else s.totalRounds)
  }

  /** update-settings: only the host's message is applied. */
  function UpdateSettings(v: RoomValue, sender: string, p: SettingsPatch): (w: RoomValue)
  {
    if v.hostId != sender then v else v.(settings := Merge(v.settings, p))
  }

  /** A non-host changes nothing; applying a patch twice is applying it once; only settings change. */
  lemma UpdateSettingsRules(v: RoomValue, sender: string, p: SettingsPatch)
    ensures sender != v.hostId ==> UpdateSettings(v, sender, p) == v
    ensures UpdateSettings(UpdateSettings(v, sender, p), sender, p) == UpdateSettings(v, sender, p)
    ensures UpdateSettings(v, sender, p) == v.(settings := UpdateSettings(v, sender, p).settings)
    ensures RoomInv(v) ==> RoomInv(UpdateSettings(v, sender, p))
  {
  }

  // ---------------------------------------------------------------- startOnlineRound

  /** Draws for the question-target loops: values below n, and each loop stops on its own draws. */
  predicate TargetDrawsFit(n: nat, draws: seq<seq<nat>>)
  {
    |draws| == n &&
    forall i :: 0 <= i < n ==>
      (forall j :: 0 <= j < |draws[i]| ==> draws[i][j] < n) && StopsAvoiding(draws[i], i)
  }

  /** Question targets by player index: in range and never the player itself. */
  predicate TargetsFit(n: nat, t: seq<nat>)
  {
    |t| == n && forall i :: 0 <= i < n ==> t[i] < n && t[i] != i
  }

  /** The target each loop settles on. */
  function ChosenTargets(n: nat, draws: seq<seq<nat>>): (t: seq<nat>)
    requires TargetDrawsFit(n, draws)
    ensures TargetsFit(n, t)
  {
    seq(n, i requires 0 <= i < n => draws[i][FirstOther(draws[i], i)])
  }

  function AssignTargets(ps: seq<Player>, t: seq<nat>): seq<Player>
    requires TargetsFit(|ps|, t)
  {
    seq(|ps|, i requires 0 <= i < |ps| => ps[i].(askedTarget := Some(ps[t[i]].name)))
  }

  function ClearTargets(ps: seq<Player>): seq<Player>
  {
    seq(|ps|, i requires 0 <= i < |ps| => ps[i].(askedTarget := None))
  }

  function FreshRound(word: string, spy: Player): Round
  {
    Round(word, spy.id, spy.name, Reveal, [], 0, [], {})
  }

  /** startOnlineRound with its random choices made: the word, the spy's index and the targets. */
  function StartRound(v: RoomValue, word: string, spyIndex: nat, t: seq<nat>): (w: RoomValue)
    requires spyIndex < |v.players|
    requires QuestionMode(v.settings) ==> TargetsFit(|v.players|, t)
  {
    v.(currentRound := v.currentRound + 1,
       gameState := Some(FreshRound(word, v.players[spyIndex])),
       players := if QuestionMode(v.settings) then AssignTargets(v.players, t) else ClearTargets(v.players))
  }

  /**
   * A round starts in `reveal` with no hints and no votes, the spy being the player at `spyIndex`,
   * the round counter one higher; among the players only the question targets change.
   */
  lemma StartRoundRules(v: RoomValue, word: string, spyIndex: nat, t: seq<nat>)
    requires spyIndex < |v.players|
    requires QuestionMode(v.settings) ==> TargetsFit(|v.players|, t)
    ensures
      var w := StartRound(v, word, spyIndex, t);
      && w.gameState == Some(Round(word, v.players[spyIndex].id, v.players[spyIndex].name, Reveal, [], 0, [], {}))
      && w == v.(gameState := w.gameState, currentRound := v.currentRound + 1, players := w.players)
      && |w.players| == |v.players|
      && forall i :: 0 <= i < |v.players| ==> w.players[i] == v.players[i].(askedTarget := w.players[i].askedTarget)
  {
  }

  /**
   * In question mode every player is given the name of another player (by position) to question;
   * in the other mode nobody has a target.
   */
  lemma StartRoundTargets(v: RoomValue, word: string, spyIndex: nat, t: seq<nat>)
    requires spyIndex < |v.players|
    requires QuestionMode(v.settings) ==> TargetsFit(|v.players|, t)
    ensures
      var w := StartRound(v, word, spyIndex, t);
      && (QuestionMode(v.settings) ==> forall i :: 0 <= i < |v.players| ==>
            exists j :: 0 <= j < |v.players| && j != i && w.players[i].askedTarget == Some(v.players[j].name))
      && (!QuestionMode(v.settings) ==> forall i :: 0 <= i < |v.players| ==> w.players[i].askedTarget.None?)
  {
    var w := StartRound(v, word, spyIndex, t);
    if QuestionMode(v.settings) {
      forall i | 0 <= i < |v.players|
        ensures exists j :: 0 <= j < |v.players| && j != i && w.players[i].askedTarget == Some(v.players[j].name)
      {
        assert w.players[i].askedTarget == Some(v.players[t[i]].name);
      }
    }
  }

  lemma StartRoundKeepsInv(v: RoomValue, word: string, spyIndex: nat, t: seq<nat>)
    requires spyIndex < |v.players|
    requires QuestionMode(v.settings) ==> TargetsFit(|v.players|, t)
    requires RoomInv(v)
    ensures RoomInv(StartRound(v, word, spyIndex, t))
  {
    var w := StartRound(v, word, spyIndex, t);
    assert forall i :: 0 <= i < |v.players| ==> w.players[i].isHost == v.players[i].isHost;
  }

  datatype Role = SpyRole | NormalRole
  datatype RosterEntry = RosterEntry(name: string, avatar: string)

  /** The private `round-start` message one player receives. */
  datatype RoundStartMsg = RoundStartMsg(round: nat, totalRounds: int, role: Role, word: Option<string>,
                                         category: string, turnTime: int, mode: string, roster: seq<RosterEntry>)

  function Roster(ps: seq<Player>): seq<RosterEntry>
  {
    seq(|ps|, i requires 0 <= i < |ps| => RosterEntry(ps[i].name, ps[i].avatar))
  }

  /** The message sent to player `i` when a round of room `v` starts (the round counter already raised). */
  function RoundStartMessage(v: RoomValue, word: string, spyIndex: nat, i: nat): RoundStartMsg
  {
    var isSpy := i == spyIndex;
    RoundStartMsg(v.currentRound + 1, v.settings.totalRounds, if isSpy then SpyRole else NormalRole,
                  if isSpy then None else Some(word), v.settings.category, v.settings.turnTime,
                  v.settings.mode, Roster(v.players))
  }

  function RoundStartMessages(v: RoomValue, word: string, spyIndex: nat): (ms: seq<RoundStartMsg>)
    ensures |ms| == |v.players|
  {
    seq(|v.players|, i requires 0 <= i < |v.players| => RoundStartMessage(v, word, spyIndex, i))
  }

  /**
   * Role secrecy: only the player at `spyIndex` is told "spy", and that message is the same whatever
   * the word; every other player gets the word, and their message is the same whoever the spy is.
   */
  lemma RoundStartSecrecy(v: RoomValue, word: string, word2: string, spyIndex: nat, spy2: nat, i: nat)
    requires spyIndex < |v.players| && i < |v.players|
    ensures var ms := RoundStartMessages(v, word, spyIndex);
      (ms[i].role == SpyRole <==> i == spyIndex) && (i != spyIndex ==> ms[i].word == Some(word))
    ensures RoundStartMessage(v, word, spyIndex, spyIndex) == RoundStartMessage(v, word2, spyIndex, spyIndex)
    ensures i != spyIndex && i != spy2 ==> RoundStartMessage(v, word, spyIndex, i) == RoundStartMessage(v, word, spy2, i)
  {
  }

  // ---------------------------------------------------------------- timers

  /** The timer set by startOnlineRound: it checks only that some round is on, not which one. */
  function HintsTimer(v: RoomValue): (w: RoomValue)
  {
    match v.gameState
    case None => v
    case Some(gs) => v.(gameState := Some(gs.(phase := Hints)))
  }

  /**
   * The timer changes nothing but the phase of a round that is on. Left over from an earlier round,
   * or firing late, it puts a round that reached `voting` back to `hints`.
   */
  lemma HintsTimerRules(v: RoomValue)
    ensures v.gameState.None? ==> HintsTimer(v) == v
    ensures v.gameState.Some? ==> HintsTimer(v) == v.(gameState := Some(v.gameState.value.(phase := Hints)))
    ensures v.gameState.Some? && v.gameState.value.phase == Voting ==> HintsTimer(v).gameState.value.phase == Hints
    ensures RoomInv(v) ==> RoomInv(HintsTimer(v))
  {
  }

  /** The spy-chance timer: finalizes as caught-without-a-correct-guess, if the round is still in `voting`. */
  function SpyChanceTimer(v: RoomValue): (w: RoomValue)
  {
    if v.gameState.Some? && v.gameState.value.phase == Voting then Finalize(v, true, false) else v
  }

  // ---------------------------------------------------------------- submit-hint

  /** submit-hint: any member's hint is logged whenever a round is on, in whatever phase. */
  function SubmitHint(v: RoomValue, id: string, hint: string): (w: RoomValue)
  {
    if v.gameState.None? then v
    else match PlayerIndex(v.players, id)
      case None => v
      case Some(i) =>
        var p := v.players[i];
        var gs := v.gameState.value;
        var text := if QuestionMode(v.settings) then QuestionText(p.askedTarget) else hint;
        var received := gs.hintsReceived + 1;
        var gs1 := gs.(hints := gs.hints + [Hint(p.name, p.avatar, text)], hintsReceived := received);
        v.(gameState := Some(if received >= |v.players| then gs1.(phase := Voting) else gs1))
  }

  /**
   * An accepted hint appends one entry (the question text in question mode, the hint as sent
   * otherwise) and raises the counter by one; the phase becomes `voting` once the counter reaches the
   * player count. Nothing stops one player from counting twice.
   */
  lemma SubmitHintRules(v: RoomValue, id: string, hint: string)
    ensures v.gameState.None? || PlayerIndex(v.players, id).None? ==> SubmitHint(v, id, hint) == v
    ensures v.gameState.Some? && PlayerIndex(v.players, id).Some? ==>
      var p := v.players[PlayerIndex(v.players, id).value];
      var gs := v.gameState.value;
      var gs2 := SubmitHint(v, id, hint).gameState.value;
      && SubmitHint(v, id, hint) == v.(gameState := Some(gs2))
      && gs2.hints == gs.hints + [Hint(p.name, p.avatar, if QuestionMode(v.settings) then QuestionText(p.askedTarget) else hint)]
      && gs2.hintsReceived == gs.hintsReceived + 1
      && gs2.votes == gs.votes && gs2.votedPlayers == gs.votedPlayers
      && (gs2.phase == Voting <==> gs.hintsReceived + 1 >= |v.players| || gs.phase == Voting)
      && (gs.hintsReceived + 1 < |v.players| ==> gs2.phase == gs.phase)
    ensures RoomInv(v) ==> RoomInv(SubmitHint(v, id, hint))
  {
  }

  /** The same member sending twice is counted twice. */
  lemma SubmitHintTwiceCountsTwice(v: RoomValue, id: string, hint: string)
    requires v.gameState.Some? && PlayerIndex(v.players, id).Some?
    ensures SubmitHint(SubmitHint(v, id, hint), id, hint).gameState.value.hintsReceived == v.gameState.value.hintsReceived + 2
  {
    var w := SubmitHint(v, id, hint);
    assert w.players == v.players;
  }

  // ---------------------------------------------------------------- resolution and scoring

  function Counts(votes: seq<Dict.Entry<nat>>): (c: seq<int>)
    ensures |c| == |votes| && forall i :: 0 <= i < |votes| ==> c[i] == votes[i].val
  {
    seq(|votes|, i requires 0 <= i < |votes| => votes[i].val as int)
  }

  /** resolveOnlineRound's `mostVoted`: the scan starts at 0 votes and the empty name. */
  function MostVoted(votes: seq<Dict.Entry<nat>>): (name: string)
  {
    match FirstMaxAbove(Counts(votes), 0)
    case None => ""
    case Some(k) => votes[k].key
  }

  /**
   * The most-voted name is the first-enumerated candidate holding the largest tally: its tally is
   * not below any other and strictly above every earlier one. With no positive tally it is "".
   */
  lemma MostVotedIsFirstMax(votes: seq<Dict.Entry<nat>>)
    ensures (forall i :: 0 <= i < |votes| ==> votes[i].val == 0) ==> MostVoted(votes) == ""
    ensures (exists i :: 0 <= i < |votes| && votes[i].val > 0) ==>
      exists k :: 0 <= k < |votes| && MostVoted(votes) == votes[k].key && votes[k].val > 0 &&
        (forall i :: 0 <= i < |votes| ==> votes[i].val <= votes[k].val) &&
        (forall i :: 0 <= i < k ==> votes[i].val < votes[k].val)
  {
    var c := Counts(votes);
    FirstMaxAboveIs(c, 0);
    if exists i :: 0 <= i < |votes| && votes[i].val > 0 {
      var i :| 0 <= i < |votes| && votes[i].val > 0;
      assert c[i] > 0;
      var k := FirstMaxAbove(c, 0).value;
      assert MostVoted(votes) == votes[k].key;
    }
  }

  /** Non-spies gain 2 each. */
  function AwardInsiders(ps: seq<Player>, spyId: string): (r: seq<Player>)
    ensures |r| == |ps|
  {
    seq(|ps|, i requires 0 <= i < |ps| => if ps[i].id != spyId then ps[i].(score := ps[i].score + 2) else ps[i])
  }

  /** The first player with the spy's id gains 3, if there is one. */
  function AwardSpy(ps: seq<Player>, spyId: string): (r: seq<Player>)
    ensures |r| == |ps|
  {
    match PlayerIndex(ps, spyId)
    case None => ps
    case Some(i) => ps[i := ps[i].(score := ps[i].score + 3)]
  }

  /** finalizeOnlineResults: `results` phase and scores; nothing when no round is on. */
  function Finalize(v: RoomValue, caught: bool, correct: bool): (w: RoomValue)
  {
    match v.gameState
    case None => v
    case Some(gs) =>
      v.(gameState := Some(gs.(phase := Results)),
         players := if caught && !correct then AwardInsiders(v.players, gs.spyId) else AwardSpy(v.players, gs.spyId))
  }

  /** A step of the round engine and whether it opened the spy's 15-second guessing window. */
  datatype Step = Step(room: RoomValue, spyChance: bool)

  /** resolveOnlineRound: a caught spy gets the guessing window, an escaped spy is scored at once. */
  function Resolve(v: RoomValue): (step: Step)
    requires v.gameState.Some?
  {
    var gs := v.gameState.value;
    if MostVoted(gs.votes) == gs.spyName then Step(v, true) else Step(Finalize(v, false, false), false)
  }

  function TotalScore(ps: seq<Player>): (total: nat)
  {
    if ps == [] then 0 else ps[0].score + TotalScore(ps[1..])
  }

  /** Number of players whose id is not the spy's. */
  function CountOthers(ps: seq<Player>, spyId: string): nat
  {
    if ps == [] then 0 else (if ps[0].id != spyId then 1 else 0) + CountOthers(ps[1..], spyId)
  }

  lemma {:induction false} AwardInsidersTotal(ps: seq<Player>, spyId: string)
    ensures TotalScore(AwardInsiders(ps, spyId)) == TotalScore(ps) + 2 * CountOthers(ps, spyId)
  {
    if ps != [] {
      AwardInsidersTotal(ps[1..], spyId);
      assert AwardInsiders(ps, spyId)[1..] == AwardInsiders(ps[1..], spyId);
    }
  }

  lemma {:induction false} TotalScoreUpdate(ps: seq<Player>, i: nat, p: Player)
    requires i < |ps|
    ensures TotalScore(ps[i := p]) == TotalScore(ps) - ps[i].score + p.score
  {
    if i > 0 {
      TotalScoreUpdate(ps[1..], i - 1, p);
      assert ps[i := p][1..] == ps[1..][i - 1 := p];
    } else {
      assert ps[i := p][1..] == ps[1..];
    }
  }

  lemma {:induction false} CountOthersDistinct(ps: seq<Player>, spyId: string)
    requires DistinctIds(ps) && PlayerIndex(ps, spyId).Some?
    ensures CountOthers(ps, spyId) == |ps| - 1
  {
    if ps[0].id == spyId {
      forall i | 0 <= i < |ps| - 1 ensures ps[1..][i].id != spyId {
        assert ps[1..][i] == ps[i + 1];
      }
      CountAllOthers(ps[1..], spyId);
    } else {
      var k := PlayerIndex(ps, spyId).value;
      assert ps[1..][k - 1].id == spyId;
      CountOthersDistinct(ps[1..], spyId);
    }
  }

  lemma {:induction false} CountAllOthers(ps: seq<Player>, spyId: string)
    requires forall i :: 0 <= i < |ps| ==> ps[i].id != spyId
    ensures CountOthers(ps, spyId) == |ps|
  {
    if ps != [] {
      CountAllOthers(ps[1..], spyId);
    }
  }

  /** Scoring changes only scores and the phase: ids, names, flags, targets and the round stay. */
  lemma FinalizeShape(v: RoomValue, caught: bool, correct: bool)
    requires v.gameState.Some?
    ensures
      var gs := v.gameState.value;
      var w := Finalize(v, caught, correct);
      && w == v.(players := w.players, gameState := Some(gs.(phase := Results)))
      && |w.players| == |v.players|
      && (forall i :: 0 <= i < |v.players| ==> w.players[i] == v.players[i].(score := w.players[i].score))
  {
  }

  /**
   * Points handed out: caught with a wrong guess gives 2 to every player whose id is not the spy's,
   * any other outcome gives 3 to the spy alone. With unique ids and the spy present, they total
   * 2 × (players − 1), or 3.
   */
  lemma FinalizePoints(v: RoomValue, caught: bool, correct: bool)
    requires v.gameState.Some?
    ensures
      var gs := v.gameState.value;
      var w := Finalize(v, caught, correct);
      && |w.players| == |v.players|
      && (caught && !correct ==> forall i :: 0 <= i < |v.players| ==>
            w.players[i].score == v.players[i].score + (if v.players[i].id != gs.spyId then 2 else 0))
      && (!(caught && !correct) ==> forall i :: 0 <= i < |v.players| ==>
            w.players[i].score == v.players[i].score + (if PlayerIndex(v.players, gs.spyId) == Some(i) then 3 else 0))
    ensures
      var gs := v.gameState.value;
      var w := Finalize(v, caught, correct);
      DistinctIds(v.players) && PlayerIndex(v.players, gs.spyId).Some? ==>
        TotalScore(w.players) == TotalScore(v.players) + (if caught && !correct then 2 * (|v.players| - 1) else 3)
  {
    var gs := v.gameState.value;
    if caught && !correct {
      AwardInsidersTotal(v.players, gs.spyId);
      if DistinctIds(v.players) && PlayerIndex(v.players, gs.spyId).Some? {
        CountOthersDistinct(v.players, gs.spyId);
      }
    } else if PlayerIndex(v.players, gs.spyId).Some? {
      var i := PlayerIndex(v.players, gs.spyId).value;
      TotalScoreUpdate(v.players, i, v.players[i].(score := v.players[i].score + 3));
    }
  }

  /** Scoring keeps the room invariant. */
  lemma FinalizeKeepsInv(v: RoomValue, caught: bool, correct: bool)
    requires v.gameState.Some?
    ensures RoomInv(v) ==> RoomInv(Finalize(v, caught, correct))
  {
    FinalizeShape(v, caught, correct);
  }

  /** Shape and invariant of scoring together, for the callers that need both. */
  lemma FinalizeScoring(v: RoomValue, caught: bool, correct: bool)
    requires v.gameState.Some?
    ensures
      var gs := v.gameState.value;
      var w := Finalize(v, caught, correct);
      && w == v.(players := w.players, gameState := Some(gs.(phase := Results)))
      && |w.players| == |v.players|
      && (forall i :: 0 <= i < |v.players| ==> w.players[i] == v.players[i].(score := w.players[i].score))
    ensures RoomInv(v) ==> RoomInv(Finalize(v, caught, correct))
  {
    FinalizeShape(v, caught, correct);
    FinalizeKeepsInv(v, caught, correct);
  }

  /** Resolution scores at once exactly when the most-voted name is not the spy's; votes stay. */
  lemma ResolveRules(v: RoomValue)
    requires v.gameState.Some?
    ensures Resolve(v).spyChance <==> MostVoted(v.gameState.value.votes) == v.gameState.value.spyName
    ensures Resolve(v).spyChance ==> Resolve(v).room == v
    ensures !Resolve(v).spyChance ==> Resolve(v).room == Finalize(v, false, false)
    ensures RoomInv(v) ==> RoomInv(Resolve(v).room)
  {
    FinalizeScoring(v, false, false);
  }

  // ---------------------------------------------------------------- submit-vote, spy-guess

  /** submit-vote: one vote per socket id while any round is on; resolution once all players voted. */
  function SubmitVote(v: RoomValue, voter: string, candidate: string): (step: Step)
  {
    if v.gameState.None? then Step(v, false)
    else
      var gs := v.gameState.value;
      if voter in gs.votedPlayers then Step(v, false)
      else
        var gs1 := gs.(votedPlayers := gs.votedPlayers + {voter}, votes := Dict.Increment(gs.votes, candidate));
        var v1 := v.(gameState := Some(gs1));
        if |gs1.votedPlayers| >= |v.players| then Resolve(v1) else Step(v1, false)
  }

  /** The room right after the tally of a vote, before any resolution. */
  function Tallied(v: RoomValue, voter: string, candidate: string): (w: RoomValue)
    requires v.gameState.Some?
  {
    var gs := v.gameState.value;
    v.(gameState := Some(gs.(votedPlayers := gs.votedPlayers + {voter}, votes := Dict.Increment(gs.votes, candidate))))
  }

  /**
   * A repeated voter changes nothing. A new voter raises exactly the candidate's tally by one and
   * joins the voted set; resolution runs exactly when the voted set reaches the player count.
   */
  lemma SubmitVoteRules(v: RoomValue, voter: string, candidate: string, other: string)
    ensures v.gameState.None? ==> SubmitVote(v, voter, candidate) == Step(v, false)
    ensures v.gameState.Some? && voter in v.gameState.value.votedPlayers ==> SubmitVote(v, voter, candidate) == Step(v, false)
    ensures v.gameState.Some? && voter !in v.gameState.value.votedPlayers ==>
      var gs := v.gameState.value;
      var t := Tallied(v, voter, candidate);
      && t.gameState.value.votedPlayers == gs.votedPlayers + {voter}
      && Dict.Get(t.gameState.value.votes, candidate) == Some(match Dict.Get(gs.votes, candidate) case None => 1 case Some(n) => n + 1)
      && (other != candidate ==> Dict.Get(t.gameState.value.votes, other) == Dict.Get(gs.votes, other))
      && Dict.Total(t.gameState.value.votes) == Dict.Total(gs.votes) + 1
      && SubmitVote(v, voter, candidate) ==
           if |gs.votedPlayers| + 1 >= |v.players| then Resolve(t) else Step(t, false)
  {
    if v.gameState.Some? && voter !in v.gameState.value.votedPlayers {
      Dict.IncrementCounts(v.gameState.value.votes, candidate, other);
    }
  }

  /** Votes keep the tally total equal to the number of distinct voters, and the room invariant. */
  lemma SubmitVoteKeepsInv(v: RoomValue, voter: string, candidate: string)
    requires RoomInv(v)
    ensures RoomInv(SubmitVote(v, voter, candidate).room)
  {
    if v.gameState.Some? && voter !in v.gameState.value.votedPlayers {
      var gs := v.gameState.value;
      Dict.IncrementCounts(gs.votes, candidate, candidate);
      var t := Tallied(v, voter, candidate);
      assert |gs.votedPlayers + {voter}| == |gs.votedPlayers| + 1;
      assert RoundConsistent(t);
      if |gs.votedPlayers| + 1 >= |v.players| {
        ResolveRules(t);
      }
    }
  }

  /** spy-guess: from anyone, in any phase of a round; it finalizes as caught. */
  function SpyGuess(v: RoomValue, guess: string): (w: RoomValue)
  {
    match v.gameState
    case None => v
    case Some(gs) => Finalize(v, true, guess == gs.word)
  }

  /** A second spy-guess scores the round a second time: the spy gains 3 twice for the right word. */
  lemma SpyGuessScoresTwice(v: RoomValue)
    requires v.gameState.Some? && PlayerIndex(v.players, v.gameState.value.spyId).Some?
    ensures var w := v.gameState.value.word;
      var k := PlayerIndex(v.players, v.gameState.value.spyId).value;
      SpyGuess(SpyGuess(v, w), w).players[k].score == v.players[k].score + 6
  {
    var gs := v.gameState.value;
    var k := PlayerIndex(v.players, gs.spyId).value;
    var w1 := SpyGuess(v, gs.word);
    FinalizeScoring(v, true, true);
    PlayerIndexByIds(v.players, w1.players, gs.spyId);
    FinalizeScoring(w1, true, true);
  }

  // ---------------------------------------------------------------- next-round

  datatype NextDecision = NotHost | GameOver | TooFewPlayers | NewRound

  /** next-round exactly as server.js decides it: host check, then the round limit. */
  function NextRoundDecisionAsWritten(v: RoomValue, sender: string): (decision: NextDecision)
  {
    if v.hostId != sender then NotHost
    else if v.currentRound >= v.settings.totalRounds then GameOver
    else NewRound
  }

  /** next-round with the minimum that start-game enforces, so the target loops always stop. */
  function NextRoundDecision(v: RoomValue, sender: string): (decision: NextDecision)
  {
    if v.hostId != sender then NotHost
    else if v.currentRound >= v.settings.totalRounds then GameOver
    else if |v.players| < MinPlayers then TooFewPlayers
    else NewRound
  }

  /** Game over: back to the lobby, round counter reset. */
  function EndGame(v: RoomValue): (w: RoomValue)
    ensures w.gameState.None? && w.currentRound == 0 && w.players == v.players && w.hostId == v.hostId
    ensures RoomInv(v) ==> RoomInv(w)
  {
    v.(gameState := None, currentRound := 0)
  }

  /** A one-player question-mode room after two departures, in its first of three rounds. */
  function LoneHostRoom(): RoomValue
  {
    var host := Player("h", "x", Avatars[0], 0, true, true, None);
    RoomValue("12345", "h", [host], DefaultSettings, Some(FreshRound("w", host).(phase := Results)), 1)
  }

  /**
   * As written, next-round starts a round in the lone host's question-mode room, and the loop that
   * picks the host's question target stops on no draw sequence at all: the server never returns.
   */
  lemma NextRoundAsWrittenHangs()
    ensures NextRoundDecisionAsWritten(LoneHostRoom(), "h") == NewRound
    ensures WellFormed(LoneHostRoom()) && QuestionMode(LoneHostRoom().settings) && |LoneHostRoom().players| == 1
    ensures forall draws: seq<nat> | (forall j :: 0 <= j < |draws| ==> draws[j] < 1) :: !StopsAvoiding(draws, 0)
  {
  }

  /** Draws on which every target loop stops at once: player i draws i + 1 (mod n). */
  function StoppingDraws(n: nat): seq<seq<nat>>
    requires n >= 1
  {
    seq(n, i requires 0 <= i < n => [(i + 1) % n])
  }

  /** With the minimum enforced, every round next-round starts has target draws on which all loops stop. */
  lemma NextRoundCanAlwaysStart(v: RoomValue, sender: string)
    requires WellFormed(v) && NextRoundDecision(v, sender) == NewRound
    ensures |v.players| >= MinPlayers
    ensures TargetDrawsFit(|v.players|, StoppingDraws(|v.players|))
  {
    var n := |v.players|;
    var d := StoppingDraws(n);
    forall i | 0 <= i < n
      ensures (forall j :: 0 <= j < |d[i]| ==> d[i][j] < n) && StopsAvoiding(d[i], i)
    {
      TwoCandidatesCanStop(n, i);
    }
  }

  /** The two versions differ only where the as-written one would start a round with too few players. */
  lemma NextRoundCorrection(v: RoomValue, sender: string)
    ensures NextRoundDecision(v, sender) != NextRoundDecisionAsWritten(v, sender) <==>
      NextRoundDecisionAsWritten(v, sender) == NewRound && |v.players| < MinPlayers
  {
  }

  // ---------------------------------------------------------------- handleLeave

  function RemoveAt<T>(s: seq<T>, i: nat): (r: seq<T>)
    requires i < |s|
    ensures |r| == |s| - 1
    ensures forall j :: 0 <= j < i ==> r[j] == s[j]
    ensures forall j :: i <= j < |r| ==> r[j] == s[j + 1]
  {
    s[..i] + s[i + 1..]
  }

  datatype LeaveOutcome = NotMember | Emptied | Stayed(room: RoomValue, spyChance: bool)

  /** Departure recovery of handleLeave, once the player is gone and a host is in place. */
  function Recover(v: RoomValue, leftId: string): (step: Step)
  {
    match v.gameState
    case None => Step(v, false)
    case Some(gs) =>
      if leftId == gs.spyId then Step(v.(gameState := None), false)
      else if gs.phase == Hints then
        if gs.hintsReceived >= |v.players| then Step(v.(gameState := Some(gs.(phase := Voting))), false)
        else Step(v, false)
      else if gs.phase == Voting then
        if |gs.votedPlayers| >= |v.players| then Resolve(v) else Step(v, false)
      else Step(v, false)
  }

  /** The members after the first player with the id has left, the first remaining one promoted. */
  function Promote(rest: seq<Player>): seq<Player>
    requires rest != []
  {
    rest[0 := rest[0].(isHost := true)]
  }

  /** The room once the member at `i` is gone and, if it was the host, the earliest remaining one promoted. */
  function Depart(v: RoomValue, i: nat): (w: RoomValue)
    requires i < |v.players| && |v.players| > 1
  {
    var rest := RemoveAt(v.players, i);
    if v.players[i].isHost then v.(players := Promote(rest), hostId := rest[0].id) else v.(players := rest)
  }

  /** handleLeave for one room. */
  function Leave(v: RoomValue, id: string): (outcome: LeaveOutcome)
  {
    match PlayerIndex(v.players, id)
    case None => NotMember
    case Some(i) =>
      if |v.players| == 1 then Emptied
      else
        var s := Recover(Depart(v, i), v.players[i].id);
        Stayed(s.room, s.spyChance)
  }

  /** The room's value after handleLeave when the room survives (unchanged for a non-member). */
  function LeftRoom(v: RoomValue, id: string): (w: RoomValue)
  {
    match Leave(v, id)
    case Stayed(w, _) => w
    case _ => v
  }

  /** The departure opened the spy's guessing window. */
  predicate OpensSpyChance(o: LeaveOutcome)
  {
    o.Stayed? && o.spyChance
  }

  /** Recovery leaves the members' ids alone and keeps the invariant. */
  lemma RecoverRules(v: RoomValue, leftId: string)
    ensures Ids(Recover(v, leftId).room.players) == Ids(v.players)
    ensures Recover(v, leftId).room.hostId == v.hostId
    ensures RoomInv(v) ==> RoomInv(Recover(v, leftId).room)
  {
    if v.gameState.Some? && leftId != v.gameState.value.spyId && v.gameState.value.phase == Voting
       && |v.gameState.value.votedPlayers| >= |v.players| {
      ResolveRules(v);
      FinalizeScoring(v, false, false);
      assert Ids(Recover(v, leftId).room.players) == Ids(v.players);
    }
  }

  /**
   * handleLeave: an unknown id changes nothing; the last member leaving empties the room; otherwise
   * exactly that member is removed and the others keep their order, the earliest remaining member
   * becomes host when the host left, and the invariant holds again.
   */
  lemma LeaveMembers(v: RoomValue, id: string)
    requires RoomInv(v)
    ensures Leave(v, id) == NotMember <==> forall i :: 0 <= i < |v.players| ==> v.players[i].id != id
    ensures Leave(v, id) == Emptied <==> |v.players| == 1 && v.players[0].id == id
    ensures Leave(v, id).Stayed? ==>
      var i := PlayerIndex(v.players, id).value;
      var w := Leave(v, id).room;
      && Ids(w.players) == RemoveAt(Ids(v.players), i)
      && RoomInv(w)
      && (i == 0 ==> w.hostId == v.players[1].id && w.players[0].isHost)
      && (i != 0 ==> w.hostId == v.hostId)
  {
    if PlayerIndex(v.players, id).Some? && |v.players| > 1 {
      var i := PlayerIndex(v.players, id).value;
      var u := Depart(v, i);
      assert Ids(u.players) == RemoveAt(Ids(v.players), i);
      assert RoomInv(u);
      RecoverRules(u, id);
    }
  }

  /**
   * Departure during a round: if the spy left the round is dropped and no score changes; otherwise
   * a round in `hints` moves to `voting` exactly when the hints received reach the new player
   * count, a round in `voting` is resolved exactly when the voters reach it, and nothing else moves.
   */
  lemma LeaveRecovery(v: RoomValue, id: string)
    requires v.gameState.Some? && Leave(v, id).Stayed?
    ensures
      var gs := v.gameState.value;
      var u := Depart(v, PlayerIndex(v.players, id).value);
      var n := |u.players|;
      var w := Leave(v, id).room;
      && n == |v.players| - 1 && u.gameState == v.gameState
      && (id == gs.spyId ==> w == u.(gameState := None))
      && (id != gs.spyId && gs.phase == Hints ==>
            w == u.(gameState := Some(gs.(phase := if gs.hintsReceived >= n then Voting else Hints))))
      && (id != gs.spyId && gs.phase == Voting ==>
            Leave(v, id) == if |gs.votedPlayers| >= n then Stayed(Resolve(u).room, Resolve(u).spyChance) else Stayed(u, false))
      && (id != gs.spyId && gs.phase != Hints && gs.phase != Voting ==> w == u)
  {
  }

  // ---------------------------------------------------------------- sanitizeRoom

  /** What a room snapshot shows of a player: no question target. */
  datatype PlayerView = PlayerView(id: string, name: string, avatar: string, score: nat, ready: bool, isHost: bool)

  /** The snapshot sent to clients: the round itself is reduced to whether one is on. */
  datatype RoomSnapshot = RoomSnapshot(code: string, players: seq<PlayerView>, settings: Settings,
                                       currentRound: nat, isInGame: bool, hostId: string)

  function View(p: Player): PlayerView
  {
    PlayerView(p.id, p.name, p.avatar, p.score, p.ready, p.isHost)
  }

  /** sanitizeRoom. */
  function Sanitize(v: RoomValue): (s: RoomSnapshot)
    ensures s.isInGame <==> v.gameState.Some?
    ensures |s.players| == |v.players|
    ensures forall i :: 0 <= i < |v.players| ==> s.players[i].id == v.players[i].id && s.players[i].score == v.players[i].score
  {
    RoomSnapshot(v.code, seq(|v.players|, i requires 0 <= i < |v.players| => View(v.players[i])),
                 v.settings, v.currentRound, v.gameState.Some?, v.hostId)
  }

  /**
   * The snapshot does not leak the round: rooms that differ only in what their round holds (the
   * word, the spy, hints, votes, the phase) and in the players' question targets give the same
   * snapshot, as long as both or neither have a round on.
   */
  lemma SanitizeHidesRound(v: RoomValue, w: RoomValue)
    requires w == v.(gameState := w.gameState, players := w.players)
    requires v.gameState.Some? <==> w.gameState.Some?
    requires |w.players| == |v.players|
    requires forall i :: 0 <= i < |v.players| ==> w.players[i] == v.players[i].(askedTarget := w.players[i].askedTarget)
    ensures Sanitize(v) == Sanitize(w)
  {
  }

  /** In a well-formed room the snapshot shows exactly one host, first, with the room's `hostId`. */
  lemma SanitizeShowsHost(v: RoomValue)
    requires RoomInv(v)
    ensures var s := Sanitize(v);
      && s.players[0].isHost && s.players[0].id == s.hostId
      && forall i :: 1 <= i < |s.players| ==> !s.players[i].isHost
  {
  }
}
