# The hidden-one party game, modelled in Dafny

The game is an Arabic "who is the hidden one" word game. Every player but one, the spy, is shown a
secret word. The players take turns giving hints, or asking each other questions, and then vote
for whom they suspect. A spy who is voted out may still win by guessing the word.

There are two engines, and this project models both.

- **The online server** (`server.js`) keeps a registry of rooms, filed under 5-digit codes. Each
  room holds its players in join order, with exactly one host, and at most one round in progress.
  Socket messages drive the rounds: create and join a room, toggle ready, change settings, start,
  hint, vote, guess, next round, leave and disconnect. Two timers also act on rounds.
- **The single-device engine** (`game.js`) runs on a global `GameState` record while one phone is
  passed from player to player. It covers setup, the role reveal, hint turns, vote casting, the tie
  rule, scoring, session statistics for the end-of-game awards, and the custom word list.

## Modules

- `server_rooms.dfy` (`ServerRooms`) is the imperative server.
  - A `Room` class holds the fields that the handlers update in place.
  - A `Registry` class holds the code → room map.
  - It also has the loops of `generateCode`, the target picking, the vote scan and the scoring.
  - Every method is proved against a function of `room_rules.dfy` (`RoomRules`). That module states
    the rules of each handler on a `RoomValue` and proves them as lemmas.
- `local_game.dfy` (`LocalGame`) is the imperative single-device engine.
  - A `Game` class groups the fields of `GameState`.
  - The module also has the loops of `startGame`, `revealVotes`, `showResults`,
    `updateSessionStats`, `nextRound`, `resetScores` and `renderAwards`.
  - Each is proved against a function of `local_rules.dfy` (`LocalRules`), where the rules are
    proved.
- Shared pieces:
  - `words.dfy` (`Words`): word pools and the word choice.
  - `server_words.dfy` (`ServerWords`): the server's `WORDS` table.
  - `tally.dfy` (`Tally`): the "first strictly greater" scan.
  - `dict.dfy` (`Dict`): JavaScript objects used as string-keyed dictionaries.
  - `draws.dfy` (`Draws`): do-while retry loops over random draws.
  - `text.dfy` (`Text`): `String.prototype.trim` and decimal strings.
  - `common.dfy` (`Common`): the hint record and the question text.

## How the model stands in for the environment

- Randomness becomes parameters.
  - Each `Math.random` result is given as a parameter: a room-code draw sequence, a word index, a spy
    index, per-player target draw sequences, and a name suffix.
  - A `requires` on each parameter says only what the source's arithmetic guarantees. For example,
    code draws lie in 10000..99999, and target draws lie below the player count.
  - A retry loop needs a draw sequence on which it stops. When the caller supplies one, it is
    stated as a precondition.
- Timers become methods.
  - The hints-phase timer (`server.js:349-366`), the spy-chance timer (`server.js:391-395`), the
    local turn timer (`game.js:654-660`) and the local "spy escaped" delay (`game.js:868`) are
    explicit methods.
  - Each method carries exactly the guard the callback has.
- Socket emits and the DOM are not modelled. The one exception is the private `round-start`
  message, which is modelled as a value so that its secrecy can be stated.
- JavaScript objects used as dictionaries become `seq<Dict.Entry<V>>` in insertion order, so that
  "first seen" scans can be stated. The local vote tally becomes a `seq<nat>` indexed by player.
  Such a dictionary starts empty. Keys that name an inherited `Object.prototype` member
  (`toString`, `constructor`, `__proto__`, …) are not modelled (see "## Left out").

## Where the code is looser than the game's rules

The game's rules promise more than the code enforces. The model follows the code in each case.

- The rules promise unique names within a room, but names are not unique. A taken name gets one random suffix, and that suffixed name may itself be
  taken (`RoomRules.JoinNameMayRepeat`).
- The rules promise that actions are accepted only in their phase, but hints and votes are not checked against the phase. `submit-hint` and `submit-vote` only require
  that a round exists. One player may hint twice (`RoomRules.SubmitHintTwiceCountsTwice`).
- The rules promise that only the spy may guess, during the spy-chance window, but `spy-guess` checks neither the sender nor the phase, and a second guess scores again
  (`RoomRules.SpyGuessScoresTwice`).
- The rules promise that a timer of a discarded round is a no-op, but the timers are not scoped to their round.
  - The hints timer acts on whatever round exists when it fires, and can even move a voting round
    back to hints (`RoomRules.HintsTimerRules`).
  - The spy-chance timer only checks for a voting phase.
- The rules promise that every round starts with at least three players, but `next-round` does not re-check the three-player minimum that `start-game` enforces (see
  Findings).
- The local engine counts the spy as caught when the spy is anywhere in a tie for the most votes.
  The server takes the first name seen with the highest count (`LocalRules.TieCatchesSpy`).

## Model

| member | source | states |
|---|---|---|
| Common.TargetOrFallback | server.js:199 | The question target shown is never empty. It is the asked target when that is a non-empty name, and the "one of the players" stand-in when the target is missing or empty, as JavaScript's `\|\|` does |
| Common.QuestionTextNamesTarget | game.js:671 | A question-mode hint text is the "asked " prefix followed by the target (or its stand-in), and is longer than the prefix |
| Dict.Find | server.js:231 | Looking up a key in a JS object: absent exactly when no entry has the key, otherwise the position of the first entry with that key |
| Dict.PutGet | game.js:431-447 | After assigning `obj[k] = v` the key reads back `v`; every other key reads as before |
| Dict.PutKeys | game.js:431-447 | Assignment keeps the keys distinct; an existing key keeps its place and the key order, a new key is appended at the end |
| Dict.TotalUpdate | server.js:232 | Replacing one tally changes the sum of all tallies by exactly the difference |
| Dict.IncrementCounts | server.js:231-232 | `if (!votes[n]) votes[n] = 0; votes[n]++` raises the candidate's tally by one (from absent to 1), leaves every other tally alone, raises the sum by one and keeps keys distinct, for a candidate name that is not an inherited `Object.prototype` member |
| Draws.StopsAvoidingTail | server.js:339-341 | A retry loop that has to draw again after rejecting the first draw still stops on the remaining draws |
| Draws.FirstOther | server.js:339-341 | The draw a do-while "until different" loop stops on: the first one different from the excluded value, all earlier ones equal to it |
| Draws.DrawUntilOther | game.js:596-600 | The retry loop returns the position of the first draw that is not the current player, having rejected only draws equal to it |
| Draws.SingleCandidateNeverStops | server.js:339-341 | With a single player every draw is 0, which is the player's own index, so the target loop stops on no draw sequence |
| Draws.TwoCandidatesCanStop | server.js:339-341 | With two or more players the draw `(i + 1) mod n` lies in range and ends player i's target loop at once |
| Tally.FirstMaxAbove | server.js:373-380 | The result of a "strictly greater than the best so far" scan is an index of the scanned tallies when there is one |
| Tally.FirstMaxAboveIs | server.js:373-380 | The scan finds nothing exactly when no value exceeds the starting floor. Otherwise it finds a value above the floor that is at least every value and strictly greater than every earlier one: the first maximum |
| Tally.FirstMaxUnique | server.js:373-380 | Conversely, the first position holding a maximum above the floor is what the scan returns |
| Tally.ScanStep | server.js:376-379 | One loop iteration: the scan over one more element moves to the new index exactly when its value beats the best so far |
| Text.SkipSpaces | game.js:668 | Skipping leading white space stays within the string |
| Text.SkipSpacesStops | game.js:668 | Everything skipped is white space, and the first character kept is not |
| Text.SkipSpacesBack | game.js:668 | Skipping trailing white space stays within the bounds |
| Text.SkipSpacesBackStops | game.js:668 | Everything dropped at the end is white space, and the last character kept is not |
| Text.TrimStrips | game.js:668 | `trim()` returns a contiguous slice of the input with only white space cut away at both ends and no white space left at either end |
| Text.TrimOfTrimmed | game.js:1249 | A string without white space at its ends is its own trim |
| Text.TrimIdempotent | game.js:1249 | Trimming twice is trimming once, so a custom word stored trimmed is found again by its trimmed form |
| Text.TrimEmptyIff | game.js:656 | The trimmed input is empty exactly when the input is all white space (the falsy case of `!input.value.trim()`) |
| Text.DigitChar | server.js:53 | A decimal digit value is written as a digit character |
| Text.DigitValue | server.js:53 | A digit character denotes a value below ten |
| Text.DecimalString | server.js:53 | `Number.prototype.toString` on a natural number: at least one digit, only digits, no leading zero |
| Text.DecimalRoundTrip | server.js:53 | Reading the decimal string back gives the number, so distinct draws give distinct codes |
| Text.DecimalInjective | server.js:53-54 | Two numbers with the same decimal string are equal |
| Text.DecimalLength | server.js:53 | A number with k digits is written with exactly k characters |
| Text.FiveDigitCode | server.js:53 | Every draw in 10000..99999 is written as a 5-character code without a leading zero |
| Words.AllWordsHas | server.js:87 | The "random" pool, all categories concatenated, holds exactly the words of the categories |
| Words.LookupFinds | server.js:89 | `WORDS[category]` is undefined exactly when no category has that id, and otherwise is that category's list, for an id that is not an inherited `Object.prototype` member |
| Words.ServerPoolNonEmpty | server.js:84-92 | With the server's table the pool is never empty, so `pool[Math.floor(Math.random() * pool.length)]` is always a word, for a category that is not an inherited `Object.prototype` member |
| Words.GetRandomWord | server.js:84-92 | The word returned is from the category's pool |
| Words.GetRandomWordFrom | server.js:84-92 | "random" draws from any category; a known category draws from its own list; an unknown category falls back to the "random" list |
| Words.LocalPoolHas | game.js:457-473 | The local pool always includes every custom word. For "random" it holds only category words and custom words. For a known category it is that category's list followed by the custom words. For an unknown category it is the custom words alone |
| Words.ChooseWord | game.js:457-476 | The local word is missing (`undefined`) exactly when the pool is empty, and otherwise is from the pool |
| ServerWords.TableIsServerTable | server.js:61-74 | The server's word table has a "random" category, distinct ids and no empty list, so every `getRandomWord` succeeds |
| RoomRules.PlayerIndex | server.js:432 | `findIndex` by socket id: absent exactly when no player has the id, otherwise the first player with it |
| RoomRules.Ids | server.js:432 | The ids of the players, in order |
| RoomRules.PlayerIndexByIds | server.js:194 | Lookups by id depend only on the ids, so changing names, scores or flags never moves a player |
| RoomRules.NoHostCount | server.js:137 | A list of non-host players has no host |
| RoomRules.ExactlyOneHost | server.js:29-36 | A well-formed room has exactly one host, and it is the player whose id is `hostId` |
| RoomRules.NewRoom | server.js:24-48 | createRoom: one player, the host, ready, score 0, with the given name; default settings; no round; round counter 0; invariant established |
| RoomRules.JoinRules | server.js:107-138 | Join fails exactly when the room is full (12 or more players) or a round is on. Otherwise one non-host, non-ready, score-0 player is appended with avatar `AVATARS[old length % 12]`, under the requested name when it was free and the suffixed name when it was taken. Nothing else changes and the invariant is kept |
| RoomRules.JoinNameMayRepeat | server.js:126-128 | A concrete room where the suffixed name equals a name already present: names are not unique |
| RoomRules.ToggleReadyTwice | server.js:153-162 | Toggling ready twice restores the room, and toggling keeps the invariant |
| RoomRules.UpdateSettingsRules | server.js:165-172 | Only the host changes settings. A patch applied twice equals a patch applied once. Only the settings change, and the invariant is kept |
| RoomRules.ChosenTargets | server.js:336-343 | The targets picked for the players lie in range and are never the player's own index |
| RoomRules.StartRoundRules | server.js:304-318 | Starting a round increments the round counter and installs a fresh round in phase reveal, with the drawn spy's id and name, no hints, no votes and no voters. Only targets change on the players |
| RoomRules.StartRoundTargets | server.js:335-346 | In question mode every player is assigned another player's name, and otherwise every target is cleared |
| RoomRules.StartRoundKeepsInv | server.js:304-346 | Starting a round keeps the room invariant |
| RoomRules.RoundStartMessages | server.js:321-333 | One private `round-start` message per player |
| RoomRules.RoundStartSecrecy | server.js:321-333 | Only the spy's message says spy, and every other player gets the word. The spy's message does not depend on the word, and a non-spy's message does not depend on who the spy is |
| RoomRules.HintsTimerRules | server.js:349-366 | The hints timer does nothing without a round. Otherwise it sets the phase to hints, whatever the phase was (a voting round goes back to hints), changes nothing else, and keeps the invariant |
| RoomRules.SubmitHintRules | server.js:189-218 | Without a round or from an unknown id, nothing happens. Otherwise the hint (in question mode, the "asked" text) is appended with the player's name and avatar, and the counter rises by one. Voting begins exactly when the counter reaches the player count (or stays if it was on). Votes are untouched, and the invariant is kept |
| RoomRules.SubmitHintTwiceCountsTwice | server.js:202-203 | The same player hinting twice raises the counter by two |
| RoomRules.Counts | server.js:375 | The tallies of the vote object in enumeration order |
| RoomRules.MostVotedIsFirstMax | server.js:373-380 | With no positive tally the most-voted name is empty. Otherwise it is the name of the first entry holding the highest tally |
| RoomRules.AwardInsiders | server.js:408-410 | Awarding the non-spies keeps the player count |
| RoomRules.AwardSpy | server.js:412-413 | Awarding the spy keeps the player count |
| RoomRules.AwardInsidersTotal | server.js:408-410 | The +2 award raises the score total by twice the number of players whose id is not the spy's |
| RoomRules.TotalScoreUpdate | server.js:413 | Changing one player's score changes the total by the difference |
| RoomRules.CountOthersDistinct | server.js:409 | With distinct ids and the spy present, all but one player are non-spies |
| RoomRules.CountAllOthers | server.js:409 | When the spy has left, every player is a non-spy |
| RoomRules.FinalizeShape | server.js:401-414 | Finalizing changes only scores and sets the phase to results; ids, names, flags, targets and round data stay |
| RoomRules.FinalizePoints | server.js:407-414 | Caught with a wrong guess: +2 to each player whose id is not the spy's. Any other outcome: +3 to the spy only, if still present. With distinct ids and the spy present, the total rises by 2 × (players − 1), or by 3 |
| RoomRules.FinalizeKeepsInv | server.js:401-414 | Finalizing keeps the room invariant |
| RoomRules.FinalizeScoring | server.js:401-414 | The shape of finalizing together with the invariant it keeps |
| RoomRules.ResolveRules | server.js:369-399 | The spy-chance window opens exactly when the most-voted name is the spy's name, leaving the room unchanged. Otherwise the room is finalized as escaped. The invariant is kept |
| RoomRules.SubmitVoteRules | server.js:221-243 | Without a round, or from a voter who already voted, nothing changes. Otherwise the voter joins the voted set, the candidate's tally rises by one (absent counts as 0), every other tally stays, and the sum rises by one. Resolution runs exactly when the voted set reaches the player count |
| RoomRules.SubmitVoteKeepsInv | server.js:221-243 | A vote keeps the room invariant |
| RoomRules.SpyGuessScoresTwice | server.js:246-254 | Two correct guesses score the spy twice: +6 |
| RoomRules.EndGame | server.js:262-268 | Game over clears the round and the round counter and keeps the players, the host and the invariant |
| RoomRules.NextRoundAsWrittenHangs | server.js:257-272 | As written, next-round starts a round for a lone host in question mode, and the host's target loop then stops on no draw sequence |
| RoomRules.NextRoundCanAlwaysStart | server.js:179 | With the start-game minimum enforced, every round next-round starts has at least three players, and draws exist on which every target loop stops |
| RoomRules.NextRoundCorrection | server.js:257-272 | The corrected decision differs from the written one exactly where the written one would start a round with fewer than three players |
| RoomRules.RemoveAt | server.js:436 | `splice(i, 1)` removes exactly position i and keeps the others in order |
| RoomRules.RecoverRules | server.js:460-482 | Round recovery after a departure never changes who is in the room or who hosts, and keeps the invariant |
| RoomRules.LeaveMembers | server.js:428-452 | A non-member leaving changes nothing. The room empties exactly when its only player leaves. Otherwise exactly that player is removed and the others keep their order. When the host (the first player) leaves, the next player becomes host and `hostId` follows; otherwise the host stays. The invariant is kept |
| RoomRules.LeaveRecovery | server.js:459-482 | If the spy leaves, the round is dropped and no score changes. In hints, voting begins exactly when the hints received reach the new player count. In voting, resolution runs exactly when the voters reach it. Any other phase is left as it is |
| RoomRules.Sanitize | server.js:485-501 | The snapshot says a game is on exactly when a round exists, and lists every player with id and score |
| RoomRules.SanitizeHidesRound | server.js:485-501 | The snapshot does not depend on the round's contents (the word, the spy, votes) or on question targets: rooms differing only there give equal snapshots |
| RoomRules.SanitizeShowsHost | server.js:494-499 | In the snapshot the first player is the host, with the room's `hostId`, and no other player is |
| ServerRooms.GenerateCode | server.js:50-56 | The code is not in use, has five characters without a leading zero, and is the first draw whose code is free |
| ServerRooms.FindMostVoted | server.js:373-380 | The scan loop computes the most-voted name of the rules (the first highest tally) |
| ServerRooms.PickTargets | server.js:336-343 | The per-player retry loops assign the targets of the rules |
| ServerRooms.ClearAllTargets | server.js:345 | Hint mode clears every target |
| ServerRooms.AwardEachInsider | server.js:408-410 | The scoring loop gives the +2 award of the rules |
| ServerRooms.Room.constructor | server.js:24-48 | A new room is the createRoom value |
| ServerRooms.Room.Join | server.js:107-138 | In place: a refused join reports the error and leaves the room unchanged; a successful one installs the joined room |
| ServerRooms.Room.ToggleReady | server.js:153-162 | In place: the room becomes its toggled value |
| ServerRooms.Room.UpdateSettings | server.js:165-172 | In place: the room becomes its updated value |
| ServerRooms.Room.StartRound | server.js:304-346 | In place: the round starts with the drawn word and spy, and the targets picked from the draws (question mode only) |
| ServerRooms.Room.HintsTimerFired | server.js:349-366 | In place: the hints timer as the rules state it |
| ServerRooms.Room.SubmitHint | server.js:189-218 | In place: a hint as the rules state it |
| ServerRooms.Room.Finalize | server.js:401-414 | In place: scoring as the rules state it |
| ServerRooms.Room.Resolve | server.js:369-399 | In place: resolution, and whether the spy-chance window opens |
| ServerRooms.Room.SubmitVote | server.js:221-243 | In place: a vote, and whether the spy-chance window opens |
| ServerRooms.Room.SpyGuess | server.js:246-254 | In place: a guess is scored as caught, correct exactly when it equals the word |
| ServerRooms.Room.SpyChanceTimerFired | server.js:391-395 | In place: the spy-chance timer finalizes as caught with a wrong guess exactly when a round is in voting |
| ServerRooms.Room.EndGame | server.js:267-268 | In place: round and round counter cleared |
| ServerRooms.Room.Leave | server.js:428-483 | In place: a departure as the rules state it; the room is emptied exactly when its last player leaves |
| ServerRooms.Registry.constructor | server.js:21 | The registry starts with no rooms |
| ServerRooms.Registry.CreateRoom | server.js:24-56 | The code was not in use; exactly that key is added, holding a fresh createRoom value; every other room is untouched |
| ServerRooms.Registry.JoinRoom | server.js:107-150 | An unknown code is reported. Otherwise the room joins or refuses as the rules state, and other rooms are untouched |
| ServerRooms.Registry.ToggleReady | server.js:153-162 | An unknown code does nothing; otherwise only that room toggles |
| ServerRooms.Registry.UpdateSettings | server.js:165-172 | An unknown code does nothing; otherwise only that room's settings follow the rules |
| ServerRooms.Registry.StartGame | server.js:175-186 | A round starts exactly when the code is known, the sender is the host and there are at least three players; it then draws the word with getRandomWord. Otherwise nothing changes |
| ServerRooms.Registry.SubmitHint | server.js:189-218 | Only the addressed room takes the hint |
| ServerRooms.Registry.SubmitVote | server.js:221-243 | Only the addressed room takes the vote; the spy-chance window is reported |
| ServerRooms.Registry.SpyGuess | server.js:246-254 | Only the addressed room takes the guess |
| ServerRooms.Registry.NextRound | server.js:257-272 | The host's request ends the game at the round limit and otherwise starts a round with a drawn word and spy; a non-host changes nothing. It uses the corrected decision, which also refuses fewer than three players (see Findings) |
| ServerRooms.Registry.LeaveRoom | server.js:275-277 | The room follows the departure rules, and its key is deleted exactly when it empties; other rooms stay |
| ServerRooms.Registry.LeaveNext | server.js:283-285 | One step of the disconnect loop: one more room has had the player leave |
| ServerRooms.Registry.Disconnect | server.js:280-286 | The player leaves every room. Exactly the rooms it empties are deleted, each other room takes its departure value, and the spy-chance rooms are reported |
| ServerRooms.Registry.HintsTimerFired | server.js:349-366 | A hints timer on one room keeps the registry valid |
| ServerRooms.Registry.SpyChanceTimerFired | server.js:391-395 | A spy-chance timer on one room keeps the registry valid |
| LocalRules.InitialGame | game.js:6-44 | The initial `GameState`: 4 players, round 1, setup phase, no spy (-1), no players, with stored custom words and leaderboard |
| LocalRules.ChangePlayerCount | game.js:320-327 | The count moves by the delta when the result is within 3..12 and otherwise stays |
| LocalRules.ChangePlayerCountBounds | game.js:320-327 | From a count in 3..12 the count stays in 3..12, and it is unchanged exactly when the delta is 0 or leaves the range |
| LocalRules.PlayerName | game.js:396 | A player's name is never empty: the trimmed input, or "player i+1" when that is empty |
| LocalRules.NewPlayers | game.js:393-406 | One player per input, named as above, with the leaderboard score for the name (0 if none), not spy, avatar `AVATARS[i % length]` |
| LocalRules.Names | game.js:431 | The player names in seat order |
| LocalRules.AddMissingStatsGet | game.js:441-451 | Filling in statistics keeps every existing entry and gives each player name without one a zero entry; other names stay absent |
| LocalRules.AddMissingStatsCover | game.js:428-452 | After start every player has a statistics entry |
| LocalRules.AddMissingStatsDistinct | game.js:441-451 | Filling in statistics keeps names distinct |
| LocalRules.StartGamePlayers | game.js:391-422 | Start seats `playerCount` players with their names and stored scores, and exactly the drawn player is the spy |
| LocalRules.StartGameRound | game.js:408-455 | Start clears hints and votes, enters reveal with the first player, records the spy, covers every player with statistics, and has no word exactly when the pool is empty |
| LocalRules.NextPlayerRules | game.js:548-558 | Before the last player only the current index moves on. After the last, every player has seen the card, hints start at player 0 with an empty log, player 0 alone may get a target (another player's name in question mode), and nothing else changes |
| LocalRules.ShowCurrentHintPlayerRules | game.js:586-629 | Showing a hint turn changes only the current player's target. In question mode that target is another player's name; in hint mode nothing changes |
| LocalRules.HintText | game.js:662-673 | The recorded hint is never empty. Question mode records the "asked" text. Otherwise it is the trimmed input, or the "gave no hint" placeholder when that is empty |
| LocalRules.SubmitHintRules | game.js:662-710 | The hint log grows by exactly the current player's entry and the turn index rises by one. Voting begins exactly when it reaches the player count (fresh tallies, counter 0); before that the phase and the votes stay |
| LocalRules.NoHintIsTrimmed | game.js:656-658 | The placeholder the turn timer fills in survives `trim()` |
| LocalRules.TurnTimerIsSubmit | game.js:654-660 | The turn timer's auto-submit has the same effect as submitting the typed input |
| LocalRules.NoVotes | game.js:714 | An empty vote object: every player's tally is 0 |
| LocalRules.SumOfUpdate | game.js:800 | Changing one tally changes the sum by the difference |
| LocalRules.CastVoteRules | game.js:790-810 | Once voting is complete a vote does nothing. Otherwise the chosen tally rises by exactly one, all others stay, the sum rises by one, the counter rises by one, voting completes exactly when the counter reaches the player count, and nothing else changes |
| LocalRules.MaxCount | game.js:842-851 | The largest tally: at least every tally, and either 0 or one of them |
| LocalRules.TieCatchesSpy | game.js:854 | With tallies [1, 1] the second player is in the tie, so a spy there is caught, while the first-seen rule would pick the first player |
| LocalRules.LocalAward | game.js:893-921 | Scoring keeps the player count |
| LocalRules.AwardOthersTotal | game.js:900-904 | The +2 award to all but the spy raises the total by twice the number of others |
| LocalRules.AwardOneTotal | game.js:912 | Changing one score changes the total by the difference |
| LocalRules.LocalAwardRules | game.js:893-921 | Caught with a wrong guess: +2 to every index but the spy's. Otherwise: +3 to the spy only. Only scores change, and the total rises by 2 × (players − 1), or by 3 |
| LocalRules.RecordScoresOthers | game.js:924-926 | Recording the leaderboard leaves names of non-players as they were |
| LocalRules.RecordScoresLast | game.js:924-926 | A player's leaderboard entry is their current score (the last seat with that name wins) |
| LocalRules.Credited | game.js:959-964 | Crediting votes raises the total received by the count, the spy votes by the part received as spy and the innocent votes by the rest; spy wins and times as spy stay. The callers pass either the whole count or none as the spy part, so exactly one of the two rises |
| LocalRules.VotesForSpiesBound | game.js:956-966 | Votes received as spy never exceed votes received in total |
| LocalRules.CreditedTwice | game.js:956-966 | Crediting two counts in turn is crediting their sum |
| LocalRules.AddVoteGet | game.js:957-965 | A tally is credited to its player's statistics entry only when the player and the entry exist, as spy or innocent by the player's role; other entries stay |
| LocalRules.CreditEachSums | game.js:956-966 | Crediting every tally to one name sums the votes its seats received |
| LocalRules.AddVotesCredits | game.js:956-966 | After crediting all tallies an entry holds its own votes, and absent names stay absent |
| LocalRules.AddVotesGet | game.js:956-966 | The same, stated with the vote totals of each name |
| LocalRules.AddVotesKeys | game.js:956-966 | Crediting votes never adds or removes a statistics entry |
| LocalRules.SpyRound | game.js:970-974 | The spy's round raises `timesSpy` by one, and `spyWins` exactly when the spy was not caught or guessed right |
| LocalRules.UpdateSessionStatsRules | game.js:952-976 | With distinct names each player's entry gains that player's tally (as spy for the spy, as innocent otherwise), and the spy's entry also gains the spy round |
| LocalRules.VotesForUnique | game.js:956-966 | With distinct names a name's votes are exactly its own seat's tally |
| LocalRules.SpyGuessRules | game.js:872-879 | A trimmed guess equal to the word scores like an escaped spy (+3 to the spy); any other guess gives +2 to every non-spy |
| LocalRules.ClearSpies | game.js:1014-1019 | The new round clears every spy flag and nothing else |
| LocalRules.NextRoundRules | game.js:1001-1035 | At the round limit nothing changes. Otherwise the round counter rises by one; hints, votes and completion are cleared; reveal starts with the first player; and exactly the drawn player is the spy. Players otherwise keep their names and scores |
| LocalRules.ZeroScores | game.js:1237 | Every score becomes 0 and nothing else changes |
| LocalRules.ResetScoresRules | game.js:1233-1240 | Unconfirmed, nothing changes. Confirmed, the leaderboard is empty and the scores total 0 |
| LocalRules.ZeroTotal | game.js:1237 | Zero scores total 0 |
| LocalRules.AddCustomWord | game.js:1247-1258 | The trimmed word is appended exactly when it is non-empty and absent, and otherwise the list stays; a duplicate-free list stays duplicate-free |
| LocalRules.RemoveCustomWord | game.js:1260-1264 | Every occurrence of the word is removed and every other word kept |
| LocalRules.RemoveCustomWordSplits | game.js:1261 | Filtering works piecewise, so the remaining words keep their order |
| LocalRules.RemoveCustomWordRules | game.js:1260-1264 | Removal keeps the list duplicate-free, and an absent word leaves the list unchanged |
| LocalRules.InnocentVotes | game.js:1110 | The innocent-vote counts in key order |
| LocalRules.SpyWins | game.js:1116 | The spy-win counts in key order |
| LocalRules.NegatedTotals | game.js:1122 | The total-vote counts in key order, negated so that the fewest comes first |
| LocalRules.GhostIsFirstUnvoted | game.js:1121-1125 | The ghost award goes to the first entry with no vote at all, and there is none when every entry received a vote |
| LocalRules.VictimIsFirstMostAccused | game.js:1109-1113 | The scapegoat is the first entry with the most innocent votes, and there is none when nobody has one |
| LocalRules.MastermindIsFirstTopSpy | game.js:1115-1119 | The mastermind is the first entry with the most spy wins, and there is none when no spy has won |
| LocalGame.BuildPlayers | game.js:393-406 | The seating loop builds the players of the rules |
| LocalGame.FreshStats | game.js:428-438 | In round 1 the loop gives every player a zero statistics entry |
| LocalGame.FillMissingStats | game.js:441-451 | In later rounds the loop adds entries only for players without one |
| LocalGame.TiesStep | game.js:844-851 | One iteration of the tie loop: a larger tally restarts the tie list with its index, an equal positive tally joins it, anything else leaves it |
| LocalGame.TiesAtEnd | game.js:842-854 | After the loop the maximum is the largest tally and the list holds exactly the indices in the tie |
| LocalGame.RevealTies | game.js:842-854 | `maxVotes` is the largest tally. `ties` holds exactly the indices whose tally equals it when it is positive, in ascending order |
| LocalGame.AwardPoints | game.js:893-921 | The scoring loop gives the award of the rules |
| LocalGame.RecordLeaderboard | game.js:923-926 | The leaderboard loop records the rules' scores |
| LocalGame.TallyVotes | game.js:955-966 | The vote-credit loop credits the rules' counts |
| LocalGame.RecordSessionStats | game.js:952-976 | The statistics update of the rules |
| LocalGame.ClearRound | game.js:1014-1019 | The reset loop clears the spy flags |
| LocalGame.ClearScores | game.js:1237 | The reset loop zeroes the scores |
| LocalGame.LeadsStep | game.js:1108-1126 | One iteration of an award scan keeps the leader the scan specification names |
| LocalGame.LeadsAtEnd | game.js:1108-1126 | After the scan the leader is the first maximum above the floor, shown only when its name is truthy |
| LocalGame.AwardsOfLeaders | game.js:1135-1158 | The three leaders, shown under the truthiness and `minVotes === 0` guards, are the award selection |
| LocalGame.ChooseAwards | game.js:1094-1158 | The one scan over the statistics selects scapegoat, mastermind and ghost as the rules do |
| LocalGame.Game.constructor | game.js:6-44 | The initial `GameState` |
| LocalGame.Game.ChangePlayerCount | game.js:320-327 | In place: only the player count changes, within 3..12 |
| LocalGame.Game.SelectCategory | game.js:344-349 | In place: only the category changes |
| LocalGame.Game.SelectMode | game.js:351-361 | In place: only the mode changes |
| LocalGame.Game.SelectRounds | game.js:370-376 | In place: only the round limit changes |
| LocalGame.Game.StartQuickPlay | game.js:378-389 | In place: 4 players, question mode, random category, 3 rounds, round 1 |
| LocalGame.Game.BackToMenu | game.js:1037-1043 | In place: round 1 and the voting counter reset |
| LocalGame.Game.StartGame | game.js:391-455 | In place: the start of the rules with the drawn word and spy |
| LocalGame.Game.ShowCurrentHintPlayer | game.js:586-629 | In place: the current player's target is picked from the draws in question mode |
| LocalGame.Game.StartHintPhase | game.js:562-584 | In place: hints phase from the first player with an empty log |
| LocalGame.Game.NextPlayer | game.js:548-558 | In place: the reveal passes to the next player, or the hints phase starts after the last |
| LocalGame.Game.StartVotingPhase | game.js:712-719 | In place: voting with fresh tallies, counter 0 |
| LocalGame.Game.SubmitHint | game.js:662-710 | In place: a hint turn as the rules state it |
| LocalGame.Game.TurnTimerExpired | game.js:654-660 | In place: the auto-submit of an expired turn |
| LocalGame.Game.RevealVotes | game.js:812-870 | In place: voting is marked complete, and the spy counts as caught exactly when the spy is in the tie |
| LocalGame.Game.CastVote | game.js:790-810 | In place: a vote as the rules state it; the reveal happens exactly on the vote that completes voting, and reports whether the spy is caught |
| LocalGame.Game.ShowResults | game.js:881-950 | In place: results phase, scoring, leaderboard and statistics of the rules |
| LocalGame.Game.EscapeTimerFired | game.js:868 | In place: the delayed results of an escaped spy |
| LocalGame.Game.SubmitSpyGuess | game.js:872-879 | In place: the caught spy's trimmed guess is scored |
| LocalGame.Game.NextRound | game.js:1001-1035 | In place: the next round of the rules with the drawn word and spy |
| LocalGame.Game.ResetScores | game.js:1233-1240 | In place: the reset of the rules |
| LocalGame.Game.AddCustomWord | game.js:1247-1258 | In place: only the custom list changes, as the rules state |
| LocalGame.Game.RemoveCustomWord | game.js:1260-1264 | In place: only the custom list changes, as the rules state |
| LocalGame.Game.Awards | game.js:1094-1158 | The awards of the current statistics, as the rules select them |

## Left out

- online.js (the browser side of the online game) is not part of this model. It only wires sockets
  to the DOM.
- `AudioSystem` (Web Audio, speech synthesis), vibration, confetti, toasts, screens and all other
  DOM rendering are left out. They change no game state.
- Socket.IO transport is left out: emits, `socket.join`/`leave`, the `create-room` callback, chat
  relay, the 30-minute cleanup interval and `server.listen`. Only the private `round-start`
  message is modelled, as a value.
- `setTimeout`/`setInterval` scheduling and the per-second countdown are left out. A timer firing
  is an explicit method with the callback's guard.
- `localStorage` persistence is left out. The stored custom words and leaderboard are parameters
  of the local constructor.
- The `WORDS`, `CATEGORIES` and `AVATARS` data of the local engine live in a file that is not part
  of this model. They are parameters: a category table and a non-empty avatar list.
- `selectTimer` and the local `turnTime` are left out, because no modelled rule reads them. The
  server's `turnTime` is kept in the settings.
- The player fields `hint`, `voted` and `currentQuestion` of the local engine are left out,
  because no modelled rule reads them. The same goes for `timeRemaining` and `timerInterval`.
- Keys that name an inherited `Object.prototype` member are not modelled. Every dictionary in the
  model starts empty, whereas a plain JavaScript object already answers `toString`, `constructor`,
  `__proto__` and the other inherited names. This affects the server's vote tally
  (`server.js:231-232`), where such a candidate name is miscounted or vanishes, and then the vote
  sum no longer equals the number of voters. It affects the `WORDS` lookup (`server.js:89`), where
  `WORDS["constructor"]` yields no word. In the local engine it affects the leaderboard score
  (`game.js:399`) and the `sessionStats` reads (`game.js:442`, `game.js:958`, `game.js:969`). For
  such names the model's tallies, word pool, stored score and statistics differ from the code's.
- JavaScript enumerates integer-like object keys (such as a player named "7") before the other
  keys. The model enumerates every key in insertion order, so for such names the statistics and
  vote scans follow insertion order.
- The local engine's `currentVotingPlayer` is a module-level variable. It is kept as a field of the
  state.
- `RoomRules.JoinRules`: the name suffix is any natural number, whereas the source draws it below
  100. The contract holds for every suffix.
- `ServerRooms.Registry.HintsTimerFired`: the timer is applied to a room object, whether or not
  that room is still filed in the registry. The contract states the room's new value and the
  registry's validity, not which round the timer was started for, because the source does not
  track that either.
- `ServerRooms.Registry.SpyChanceTimerFired`: the same applies as for the hints timer.

## Findings

| source | as written | input that shows it | evidently intended | confidence | as-written member | corrected member |
|---|---|---|---|---|---|---|
| server.js:257-272 | `next-round` checks only the host and the round limit, so it starts a round with any number of players. With one player in question mode, the target loop at server.js:339-341 can only draw index 0, the player's own index, and never ends | Three players start a question-mode game of 3 rounds, two of them leave, and the host sends `next-round` after round 1 | The three-player minimum that `start-game` enforces (server.js:179), with the not-enough-players error | not executed | RoomRules.NextRoundAsWrittenHangs | RoomRules.NextRoundCanAlwaysStart |
