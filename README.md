# Hanabi_SPARTA core in Dafny

A model of the sequential core of Hanabi_SPARTA: a C++ engine for the
cooperative card game Hanabi (5 colours, values 1 to 5, 50 cards,
8 hint stones, 3 mulligans), the rule-based bots that play it, the belief
bookkeeping of the search bots, the Hanabi Learning Environment observation
encoder, and the logic of the web front end (Python websocket bridge and
React client).

The modules follow the source files:

- `Hanabi` (hanabi.dfy): `Card`, `Pile`, `CardIndices` and the constants of csrc/Hanabi.h; `Card::count`, `toString`, `Pile::increment_`.
- `HanabiServer` (server.dfy): class `Server`: the four moves with their guards, hint stones, mulligans, draws, the final countdown, deck setup, `portable_shuffle` and the turn loop of csrc/HanabiServer.cc.
- `BotUtils`, `MapKeys`, `TwoBits`, `BotBeliefs`, `BotSimulation` (bot_utils.dfy, map_keys.dfy, two_bit_array.dfy, bot_beliefs.dfy, bot_simulation.dfy): `Move` and its order, legal-move enumeration, deck composition, card and action indices, `TwoBitArray`, `FactorizedBeliefs`, the mock `SimulServer` (csrc/BotUtils.h, csrc/BotUtils.cc).
- `InfoContainers`, `InfoTables`, `InfoView`, `ModulusInfo`, `InfoBot` (info_*.dfy, modulus_information.dfy): fixed-capacity vector and set, card counts and possibility tables, `GameView` predicates, mixed-radix `ModulusInformation`, hint strategies and public-information updates of csrc/InfoBot.cc.
- `SmartKnowledge`, `SmartBot` (smart_bot.dfy): the `cantBe_` table and its derived answers, located counts, discard choice and entropy of csrc/SmartBot.cc.
- `HolmesKnowledge`, `HolmesBot` (holmes_bot.dfy): the knowledge fixpoint, located counts, discard choice and best hint of csrc/HolmesBot.cc.
- `SimpleBot` (simple_bot.dfy): knowledge, hint observations and move choice of csrc/SimpleBot.cc.
- `SearchBot` (search_bot.dfy): enumeration of drawable hands and their filtering by hints, draws and revealed cards (csrc/SearchBot.cc).
- `JointSearchBot` (joint_search_bot.dfy): belief frames, hand index maps and recursive pruning (csrc/JointSearchBot.cc).
- `HleUtils` (hle_utils.dfy): section lengths and the hand, board, discard and last-action encoders of csrc/HleUtils.h.
- `Text`, `JsValue`, `WebServer` (text.dfy, js_value.dfy, web_server.dfy): string helpers, JSON-like values, move formatting, command dispatch and game cycling of webapp/server.py.
- `BoardState`, `StateView`, `WebUtils` (board_state.dfy, state_view.dfy, web_utils.dfy): the client reducer and command strings, the view projection, and `throttle`/`debounce` with timer expiry as an explicit event (webapp/src).
- `Wrappers`, `SeqUtil`, `CppInt` (wrappers.dfy, seq_util.dfy, cpp_int.dfy): shared `Option`/`Result`, sequence helpers, C++ truncating division.

Mutable C++ objects (`Server`, `CardIndices`, `TwoBitArray`, `FactorizedBeliefs`,
`SimulServer`, the bots' hand-knowledge vectors, the fixed-capacity
containers, `ModulusInformation`, the JavaScript throttles) are classes
whose methods state their whole new state. Values copied by the source
(cards, moves, per-card knowledge, belief frames) are datatypes with pure
update functions. `HANABI_SERVER_ASSERT` throws are an `Outcome` with an
error. The C++ `assert`s are active in this build, so each one becomes a
`requires` or an error result, except for the few listed below.

## Model

| member | source | states |
|---|---|---|
| Hanabi.CardLessIsStrictTotalOrder | csrc/Hanabi.h:109-120 | card `<` (colour, then value) is irreflexive, transitive and asymmetric; two cards differ exactly when one is below the other, so `!=` is the negation of `==` |
| Hanabi.Count | csrc/HanabiServer.cc:115-124 | a card has one to three copies, and exactly one copy exactly when its value is 5 |
| Hanabi.CopiesPerColor | csrc/HanabiServer.cc:115-124 | the copies of the five values of one colour add up to ten cards |
| Hanabi.ColorName | csrc/HanabiServer.cc:96-108 | every colour name, the invalid colour's included, has an initial to take |
| Hanabi.CardToString | csrc/HanabiServer.cc:126-132 | a card's name is two characters, the first the digit of its value |
| Hanabi.CardToStringInjective | csrc/HanabiServer.cc:126-132 | distinct valid cards have distinct names |
| Hanabi.PileValuesPartition | csrc/Hanabi.h:130-134 | a pile contains exactly the values below size + 1, the next value is not on it, and it is empty exactly when it does not contain 1 |
| Hanabi.TopCard | csrc/HanabiServer.cc:134-139 | an empty pile fails; otherwise the top card has the pile's colour, is on the pile, and its successor is the next value to play |
| Hanabi.Increment | csrc/HanabiServer.cc:141-145 | the pile keeps its colour and afterwards contains exactly what it contained plus the value that was next |
| Hanabi.RankOrdersIndices | csrc/Hanabi.h:151-159 | two contained indices are ordered as their ranks are, so `operator[]` grows strictly with i |
| Hanabi.RankInjective | csrc/Hanabi.h:151-159 | two contained indices with the same rank are the same index |
| Hanabi.RankBelowTotal | csrc/Hanabi.h:151-159 | every contained index below 8 ranks below the number of contained indices |
| Hanabi.CardIndices.constructor | csrc/Hanabi.h:142 | no index is contained and the count is zero |
| Hanabi.CardIndices.Add | csrc/Hanabi.h:143-150 | the index joins the contained set and the count grows by one, even when the index was already present; afterwards contains(index) holds for an index below 8 and every other index answers as before |
| Hanabi.CardIndices.At | csrc/Hanabi.h:151-159 | `operator[](i)` returns a contained index with exactly i contained indices below it |
| HanabiServer.HandSize | csrc/HanabiServer.cc:326-329 | a set override is the hand size; otherwise the hand holds 5 cards exactly when there are at most three players, and 4 otherwise |
| HanabiServer.Nth | csrc/HanabiServer.cc:56-80 | position 0, and only position 0, is called "oldest" |
| HanabiServer.NthNamesPositions | csrc/HanabiServer.cc:56-80 | distinct positions of a hand of 1 to 5 cards get distinct names; the last position of a hand of 3 or more is "newest", and of a 2-card hand "middle" |
| HanabiServer.PositionsAt | csrc/Hanabi.h:151-159 | the contained index with i contained indices below it is the i-th entry of the ascending list of contained indices |
| HanabiServer.JoinNamesOf | csrc/HanabiServer.cc:82-94 | for any hand size whose positions nth() can name, one to four named positions are joined as "a", "a and b", "a, b, and c" or "a, b, c, and d" |
| HanabiServer.NthOfIndices | csrc/HanabiServer.cc:82-94 | for any hand size whose positions nth() can name, nth(CardIndices) names the hinted positions in ascending order and joins them as above |
| HanabiServer.EmptyPiles | csrc/HanabiServer.cc:236-240 | five well-formed piles, pile k of colour k, all empty |
| HanabiServer.PileTotalBounds | csrc/HanabiServer.cc:171-177 | the cards on the piles number between 0 and 5 per pile, and reach the maximum exactly when every pile is complete |
| HanabiServer.ScoreBounds | csrc/HanabiServer.cc:165-183 | the score lies in 0..25; with mulligans left it is the number of cards played; it is 25 exactly when every pile is complete and no bombing-out penalty applies |
| HanabiServer.GameOverCharacterised | csrc/HanabiServer.cc:153-163 | gameOver holds exactly when the deck is empty and the countdown reached numPlayers + 1, or no mulligan remains, or every pile is complete |
| HanabiServer.TurnGuard | csrc/HanabiServer.cc:432-433 | a move passes exactly when no move was made yet this turn; a second move fails with "bot attempted to move twice" |
| HanabiServer.PlayGuard | csrc/HanabiServer.cc:480-482 | the corrected guard of pleasePlay: passes exactly when no move was made and the index names a card of the hand |
| HanabiServer.PlayGuardAsWritten | csrc/HanabiServer.cc:480-482 | the guard of pleasePlay as written: passes exactly when no move was made and 0 <= index <= hand size |
| HanabiServer.AsWrittenGuardAdmitsMissingCard | csrc/HanabiServer.cc:434 | the index equal to the hand size passes the written guard, though the hand has no card there; the corrected guard rejects it as an invalid card index |
| HanabiServer.DiscardGuard | csrc/HanabiServer.cc:432-435 | pleaseDiscard's checks pass exactly when no move was made, the index names a card and a hint stone is spent; with all stones present it fails with "all hint stones are already available" |
| HanabiServer.HintGuard | csrc/HanabiServer.cc:545-550 | a hint's checks pass exactly when no move was made, the target is a player other than the active one, the colour or value is valid and a stone remains |
| HanabiServer.CollectColorMatches | csrc/HanabiServer.cc:552-557 | the hint indices are exactly the positions holding the colour, one add() per position |
| HanabiServer.CollectValueMatches | csrc/HanabiServer.cc:602-607 | the hint indices are exactly the positions holding the value, one add() per position |
| HanabiServer.FullDeckContents | csrc/HanabiServer.cc:250-257 | the unshuffled deck holds 50 valid cards, Card::count copies of each card and nothing else |
| HanabiServer.DeckCardIs | csrc/HanabiServer.cc:250-257 | position i of the unshuffled deck holds card c exactly when i is one of c's count() consecutive positions |
| HanabiServer.FullDeck | csrc/HanabiServer.cc:250-257 | the deck-building loops produce the unshuffled deck: colour by colour, value by value, count() copies each |
| HanabiServer.SwapStepPermutes | csrc/HanabiServer.cc:202-205 | one exchange of portable_shuffle keeps the deck's multiset of cards |
| HanabiServer.ShuffleSteps | csrc/HanabiServer.cc:199-206 | the first n steps of the shuffle, step i exchanging i with g() mod (i + 1), keep the length and the multiset |
| HanabiServer.Shuffled | csrc/HanabiServer.cc:196-207 | the whole shuffle is a permutation of its input |
| HanabiServer.Swap | csrc/HanabiServer.cc:202-205 | the array afterwards is the exchange step applied to its old contents |
| HanabiServer.PortableShuffle | csrc/HanabiServer.cc:196-207 | the array is shuffled in place into the shuffle of its old contents by the generator outputs |
| HanabiServer.DealtHandsAt | csrc/HanabiServer.cc:268-275 | player p's starting hand is the h cards drawn after the p * h cards dealt before it |
| HanabiServer.DealtHandsValid | csrc/HanabiServer.cc:268-275 | every dealt hand has h valid cards |
| HanabiServer.MakeInitialDeck | csrc/HanabiServer.cc:245-259 | a stacked deck is reversed so that its first card is drawn first; otherwise the full deck is shuffled; either way every card is valid |
| HanabiServer.Server.constructor | csrc/HanabiServer.cc:151 | a well-formed server with its scoring parameters and the placeholder active card (red 1) |
| HanabiServer.Server.HintStonesUsed | csrc/HanabiServer.cc:386-390 | the used stones lie in 0..8 and with the remaining ones make 8 |
| HanabiServer.Server.MulligansUsed | csrc/HanabiServer.cc:407-411 | the used mulligans lie in 0..3 and with the remaining ones make 3 |
| HanabiServer.Server.SizeOfHandOfPlayer | csrc/HanabiServer.cc:342-346 | fails exactly for a player index out of range; otherwise the player's hand size |
| HanabiServer.Server.HandOfPlayer | csrc/HanabiServer.cc:348-353 | fails for the observing player ("cannot observe own hand") and for an index out of range; otherwise the hand |
| HanabiServer.Server.ActiveCard | csrc/HanabiServer.cc:368-372 | the active card exactly while it is observable, an error otherwise |
| HanabiServer.Server.PileOf | csrc/HanabiServer.cc:374-379 | fails exactly for an invalid colour; otherwise that colour's pile |
| HanabiServer.Server.Draw | csrc/HanabiServer.cc:670-676 | the card drawn is the last of the deck, and the deck loses exactly that card |
| HanabiServer.Server.RegainHintStoneIfPossible | csrc/HanabiServer.cc:642-653 | one more stone, never above 8 |
| HanabiServer.Server.LoseMulligan | csrc/HanabiServer.cc:655-658 | exactly one mulligan fewer |
| HanabiServer.Server.EndGameByBombingOut | csrc/HanabiServer.cc:317-319 | no mulligan remains and the game is over |
| HanabiServer.Server.ReplaceCard | csrc/HanabiServer.cc:460-470 | the card leaves the active hand, later cards shift down, and the last card of the deck is appended exactly when a mulligan remains and the deck is not empty |
| HanabiServer.Server.ResolvePlay | csrc/HanabiServer.cc:498-522 | a card that is its pile's next value grows that pile (a 5 regains a stone, capped at 8); any other card is discarded and costs exactly one mulligan; nothing else changes |
| HanabiServer.Server.PleaseDiscard | csrc/HanabiServer.cc:429-474 | fails, changing nothing, exactly as the corrected discard guard says; otherwise the card is appended to the discards, removed from the hand with a replacement drawn when a mulligan remains and the deck is not empty, one stone is regained and the move is counted |
| HanabiServer.Server.DiscardSelected | csrc/HanabiServer.cc:437-474 | the effect of a discard that passed its checks, as above |
| HanabiServer.Server.PleasePlay | csrc/HanabiServer.cc:476-539 | fails, changing nothing, exactly as the corrected play guard says; otherwise the card grows its pile when it is the next value (a 5 regains a stone) or is discarded at the cost of a mulligan, and is replaced from the deck as for a discard |
| HanabiServer.Server.PlaySelected | csrc/HanabiServer.cc:484-539 | the effect of a play that passed its checks, as above |
| HanabiServer.Server.PleaseGiveColorHint | csrc/HanabiServer.cc:541-589 | fails, changing nothing, when a check fails or no card matches; otherwise the reported indices are exactly the positions of that colour, one stone is spent and the move is counted |
| HanabiServer.Server.PleaseGiveValueHint | csrc/HanabiServer.cc:591-640 | as for a colour hint, with the positions of that value |
| HanabiServer.Server.DrawHand | csrc/HanabiServer.cc:272-274 | h draws take the last h cards of the deck, the last card first |
| HanabiServer.Server.DealHands | csrc/HanabiServer.cc:269-275 | each player in turn draws h cards; the deck loses players * h cards from its end |
| HanabiServer.Server.Setup | csrc/HanabiServer.cc:232-280 | empty piles and discards, three mulligans, eight stones, countdown 0, player 0 to move, and the starting hands dealt from the prepared deck |
| HanabiServer.Server.ResetTable | csrc/HanabiServer.cc:236-243 | the opening table: empty piles, three mulligans, eight stones, countdown 0, no discards, player 0 to move |
| HanabiServer.Server.Dispatch | csrc/HanabiServer.cc:298-303 | a bot that makes no move fails with "bot failed to respond"; a rejected move changes nothing; an accepted move draws from the deck, spends a stone, leaves an empty deck empty or loses the last mulligan |
| HanabiServer.Server.RunToCompletion | csrc/HanabiServer.cc:286-315 | the turn loop terminates; when it finishes without an engine error the game is over and the result is the current score |
| HanabiServer.Server.PassTurn | csrc/HanabiServer.cc:304-311 | the next player (mod numPlayers) becomes active, and the final countdown advances exactly when the deck is empty |
| HanabiServer.Server.RunGame | csrc/HanabiServer.cc:228-284 | a set-up game played to completion reports the final score of a finished game |
| BotUtils.TypeRank | csrc/BotUtils.h:18-20 | every move type has a rank below NUMMOVETYPES, its place in the declaration |
| BotUtils.TypeRankInjective | csrc/BotUtils.h:18 | two move types have the same rank exactly when they are the same type |
| BotUtils.MakeMove | csrc/BotUtils.h:29-32 | the constructor succeeds exactly when the move is a hint iff it has a target; the move then holds the given type, value and target |
| BotUtils.TwoArgumentMoves | csrc/BotUtils.h:30-32 | the two-argument constructor gives a play or a discard with target -1, and stops the program for a hint |
| BotUtils.MoveLessIsStrictTotalOrder | csrc/BotUtils.cc:80-94 | move `<` (type, value, target, lexicographically) is irreflexive, asymmetric and transitive, and any two moves are equal or ordered one way |
| BotUtils.Insert | csrc/BotUtils.cc:98-113 | std::set::insert keeps the moves strictly ordered and adds exactly the new move |
| BotUtils.PartnerHintsMember | csrc/BotUtils.cc:105-114 | the hints collected for the first n players are exactly the colour and value hints to a player other than me naming the colour or value of one of that player's cards |
| BotUtils.LegalMovesCharacterised | csrc/BotUtils.cc:97-116 | a move is legal exactly when it plays an own index, discards an own index while discarding is allowed, or (while a stone is left) hints another player about a colour or value in their hand |
| BotUtils.InsertOwnMoves | csrc/BotUtils.cc:99-104 | the first loop yields, in order, a play of every own index and a discard of each when discarding is allowed |
| BotUtils.InsertCardHints | csrc/BotUtils.cc:108-113 | one card adds its colour hint and its value hint, only while a stone is left |
| BotUtils.InsertHandHints | csrc/BotUtils.cc:107-113 | a partner's hand adds both hints for each of its cards, only while a stone is left |
| BotUtils.EnumerateLegalMoves | csrc/BotUtils.cc:97-116 | the result is strictly ordered (each move once) and holds exactly the legal moves of the observing player |
| BotUtils.AddedCounts | csrc/BotUtils.cc:129-133 | adding cards raises each card's count by its number of occurrences |
| BotUtils.RemovedCounts | csrc/BotUtils.cc:134-142 | removing cards lowers each card's count by its number of occurrences |
| BotUtils.RemoveThenAddRestores | csrc/BotUtils.cc:129-142 | removing cards and adding them back restores the composition exactly |
| BotUtils.AddToDeck | csrc/BotUtils.cc:129-133 | addToDeck's loop computes one more copy of every listed card |
| BotUtils.RemoveFromDeck | csrc/BotUtils.cc:134-142 | removeFromDeck's loop computes one copy fewer of every listed card, never passing below zero |
| BotUtils.FullComposition | csrc/BotUtils.cc:146-151 | the starting composition maps every valid card to its count() and holds nothing else |
| BotUtils.PileCards | csrc/BotUtils.cc:159-167 | the pile cards are valid and hold each card exactly once when its pile contains it, and never otherwise |
| BotUtils.DiscardsRemovable | csrc/BotUtils.cc:154 | when the cards are conserved, removing the discards never turns a count negative |
| BotUtils.RemovedHandsCounts | csrc/BotUtils.cc:155-158 | removing the other players' hands lowers each count by that card's copies in those hands |
| BotUtils.HandRemovable | csrc/BotUtils.cc:155-158 | one step of the player loop never turns a count negative |
| BotUtils.AllHandsRemovable | csrc/BotUtils.cc:155-158 | no step of the player loop turns a count negative |
| BotUtils.RemoveOtherHands | csrc/BotUtils.cc:155-158 | the player loop fails with "cannot observe own hand" exactly when it must read the observing player's hand; otherwise every hand but who's (none for who == -1) is removed |
| BotUtils.RemoveHandOf | csrc/BotUtils.cc:156-157 | a step is refused exactly for the observer's hand; otherwise the player's hand leaves the composition |
| BotUtils.PilesRemovable | csrc/BotUtils.cc:159-168 | removing the pile cards never turns a count negative, and leaves each valid card's count at its copies not yet seen |
| BotUtils.GetCurrentDeckComposition | csrc/BotUtils.cc:144-171 | fails exactly when the observing player's own hand would be read; otherwise every valid card maps to count() less its copies in the discards, on the piles and in the hands other than who's |
| BotUtils.CardToIndex | csrc/BotUtils.cc:211-213 | a valid card's index lies in 0..24 |
| BotUtils.IndexToCard | csrc/BotUtils.cc:215-217 | an index in 0..24 gives a valid card |
| BotUtils.CardIndexRoundTrip | csrc/BotUtils.cc:211-217 | indexToCard(cardToIndex(c)) == c for every valid card |
| BotUtils.IndexCardRoundTrip | csrc/BotUtils.cc:211-217 | cardToIndex(indexToCard(i)) == i for every int, with C++'s truncating division |
| BotUtils.TargetOffsetOfOther | csrc/BotUtils.cc:197 | the offset of another player lies in 1..numPlayers-1 and counts the seats after me |
| BotUtils.MoveToIndexRanges | csrc/BotUtils.cc:188-209 | discards, plays, colour hints and value hints each land in their own consecutive range of indices |
| BotUtils.MoveToIndexInjective | csrc/BotUtils.cc:188-209 | distinct moves the index is meant for get distinct indices |
| BotUtils.LegalMovesIndexable | csrc/BotUtils.cc:97-116 | every legal move has an index when the own hand is no larger than the hand size |
| BotSimulation.CallMove | csrc/BotUtils.cc:486-512 | the move a mocked call records: none exactly when the bot made no call, never the invalid move |
| BotSimulation.MoveCall | csrc/BotUtils.cc:173-186 | execute_: the server call a move stands for, failing exactly for the invalid move |
| BotSimulation.RecordThenExecute | csrc/BotUtils.cc:173-186 | executing the recorded move makes the same call the bot made |
| BotSimulation.ExecuteThenRecord | csrc/BotUtils.cc:486-512 | recording the call a well-formed move executes gives the move back |
| BotSimulation.SimulServer.constructor | csrc/BotUtils.cc:403-410 | a simulation over the server, not mocked, with no move recorded |
| BotSimulation.SimulServer.PleaseDiscard | csrc/BotUtils.cc:486-491 | mocked: the server is untouched; otherwise the real discard's outcome, and after an accepted discard the underlying server's hand, discards, hint stones, deck and active card are those Server.pleaseDiscard leaves; an accepted discard is recorded |
| BotSimulation.SimulServer.PleasePlay | csrc/BotUtils.cc:493-498 | mocked: the server is untouched; otherwise the real play's outcome, and after an accepted play the underlying server's hand, piles, discards, mulligans, hint stones, deck and active card are those Server.pleasePlay leaves; an accepted play is recorded |
| BotSimulation.SimulServer.PleaseGiveColorHint | csrc/BotUtils.cc:500-505 | mocked: the server is untouched; otherwise the outcome is the server's (rejected by the hint guard, rejected as touching no card, or accepted), and an accepted hint spends one hint stone and ends the move; an accepted hint is recorded with its colour and target |
| BotSimulation.SimulServer.PleaseGiveValueHint | csrc/BotUtils.cc:507-512 | mocked: the server is untouched; otherwise the outcome is the server's (rejected by the hint guard, rejected as touching no card, or accepted), and an accepted hint spends one hint stone and ends the move; an accepted hint is recorded with its value and target |
| BotSimulation.SimulServer.SimulatePlayerMove | csrc/BotUtils.cc:474-484 | the player becomes active and observing, the rest of the server is untouched, the mock flag and the recorded move are reset, and the result is the move the bot's call asks for (none for no call, where the source's assertion fails) |
| BotSimulation.SimulServer.MockDispatch | csrc/BotUtils.cc:486-512 | a call on the mocked server leaves the server alone and records the call's move |
| TwoBits.SlotWithSlotSame | csrc/BotUtils.h:116-124 | on the packed 64-bit word, set(i, v) makes get(i) == v |
| TwoBits.SlotWithSlotOther | csrc/BotUtils.h:116-124 | on the packed word, set(i, v) leaves every other cell's get unchanged |
| TwoBits.FieldSame | csrc/BotUtils.h:116-124 | for int indices 0..31 and values 0..3, set(i, v) makes get(i) == v |
| TwoBits.FieldOther | csrc/BotUtils.h:116-124 | for int indices, set(i, v) leaves get(j) unchanged for j != i |
| TwoBits.FieldUpdate | csrc/BotUtils.h:116-124 | after set(i, v) every cell j reads v when j == i and its old value otherwise |
| TwoBits.TwoBitArray.Get | csrc/BotUtils.h:116-119 | get returns a value in 0..3 |
| TwoBits.TwoBitArray.Set | csrc/BotUtils.h:120-124 | after set, the word is the updated word, get(index) == value and every other cell is unchanged |
| TwoBits.CellsWithField | csrc/BotUtils.h:120-124 | set(i, v) acts on the thirty-two cells as replacing cell i by v |
| MapKeys.LeastExists | csrc/BotUtils.h:255-262 | a non-empty key set under a strict total order has a least key, which the map's iteration visits first |
| MapKeys.CopyKeys | csrc/BotUtils.h:255-262 | copyKeys returns every key of the map exactly once, in ascending key order |
| CppInt.TruncDivRem | csrc/BotUtils.cc:215-217 | C++'s truncating quotient and remainder recombine to the dividend, the remainder taking the dividend's sign |
| CppInt.TruncByFive | csrc/BotUtils.cc:215-217 | for a non-negative card index, C++'s truncating / and % by five give back the colour and value it was built from |
| BotBeliefs.CheckSum | csrc/BotUtils.h:142-152 | checkSum holds exactly when the five cells of the slot sum to the expected value |
| BotBeliefs.RowSumOfSingle | csrc/BotUtils.cc:272-286 | a slot whose only non-zero cell is 1 sums to 1, which is what the checkSum assertions after a hint rely on |
| BotBeliefs.SetColumn | csrc/BotUtils.cc:240-245 | the innermost constructor loop writes the card's count into the hand's slots and 0 into the slots beyond, changing nothing else |
| BotBeliefs.CountsStep | csrc/BotUtils.cc:237-246 | one column written as the constructor does extends the counted prefix by one card |
| BotBeliefs.CountColor | csrc/BotUtils.cc:238-246 | the value loop for one colour counts that colour's five cards |
| BotBeliefs.InitialCounts | csrc/BotUtils.cc:235-246 | after the constructor's loops every slot in the hand counts each card's remaining copies and every other slot counts 0 |
| BotBeliefs.ZeroInconsistent | csrc/BotUtils.cc:259-268 | card j is zeroed in exactly those hand slots whose membership in the hint disagrees with whether j matches it |
| BotBeliefs.FilterCounts | csrc/BotUtils.cc:256-269 | the hint's count loops zero exactly the cards the hint rules out and keep every other cell |
| BotBeliefs.FilterColumn | csrc/BotUtils.cc:259-268 | one pass of the outer hint loop extends the zeroed prefix by one card and keeps the rest |
| BotBeliefs.RevealTouched | csrc/BotUtils.cc:270-286 | each touched slot gets its hinted colour or rank marked, nothing else changes, and each touched slot then sums to one as checkSum asserts |
| BotBeliefs.RevealSlot | csrc/BotUtils.cc:272-277 | one touched slot of that loop is marked and sums to one |
| BotBeliefs.SlotCellAfterUpdate | csrc/BotUtils.h:120-124 | writing one revealed cell leaves every other slot cell alone |
| BotBeliefs.SlotCellsAfterUpdate | csrc/BotUtils.h:116-124 | writing one revealed cell sets it and leaves every other slot cell alone |
| BotBeliefs.RowSumUnchanged | csrc/BotUtils.h:142-152 | a slot's checkSum depends only on that slot's five cells |
| BotBeliefs.ReduceColumn | csrc/BotUtils.cc:298-308 | the revealed-card loop leaves the counts equal to Reduced |
| BotBeliefs.CopyCells | csrc/BotUtils.cc:319-322 | copying the revealed words cell by cell yields the source word |
| BotBeliefs.ShiftSlot | csrc/BotUtils.cc:319-322 | slot i takes slot i+1's five revealed cells and every other slot is unchanged |
| BotBeliefs.ZeroSlot | csrc/BotUtils.cc:334-337 | slot i's five revealed cells become 0 and every other slot is unchanged |
| BotBeliefs.ZeroCells | csrc/BotUtils.cc:326-328 | the counts of the slot become all zero |
| BotBeliefs.SetDeckCells | csrc/BotUtils.cc:329-332 | each card of the deck gets its count; cards not in the deck keep the value they had |
| BotBeliefs.ShiftSlots | csrc/BotUtils.cc:315-323 | slots from..to-1 take the next slot's counts and revealed cells, every other slot is unchanged |
| BotBeliefs.ShiftOne | csrc/BotUtils.cc:315-323 | one pass of the shift loop extends the shifted prefix by one slot |
| BotBeliefs.ShiftCounts | csrc/BotUtils.cc:316-318 | the counts of one slot are shifted cell by cell |
| BotBeliefs.ShiftCells | csrc/BotUtils.cc:319-322 | the revealed cells of one slot are shifted cell by cell |
| BotBeliefs.ResetSlot | csrc/BotUtils.cc:324-351 | the last slot gets the new counts and nothing revealed, every other slot is unchanged |
| BotBeliefs.Filtered | csrc/BotUtils.cc:256-269 | a hint only removes possibilities; what a hand slot keeps agrees with the hint (touched iff the card matches); slots past the hand are untouched |
| BotBeliefs.Reduced | csrc/BotUtils.cc:290-309 | only the revealed card's cells change, and a slot rules the card out afterwards iff it did before or no copy remains |
| BotBeliefs.FactorizedBeliefs.constructor | csrc/BotUtils.cc:235-254 | every hand slot counts each card's copies not on the piles or in the discards, other slots 0, nothing revealed |
| BotBeliefs.FactorizedBeliefs.UpdateFromHint | csrc/BotUtils.cc:256-288 | the counts become Filtered, the hinted colour or rank is marked in each touched slot, the other word is unchanged |
| BotBeliefs.FactorizedBeliefs.UpdateFromRevealedCard | csrc/BotUtils.cc:290-309 | the lookup of the card in the deck fails and changes nothing when it is missing; otherwise the counts become Reduced with the copies left |
| BotBeliefs.FactorizedBeliefs.UpdateFromDraw | csrc/BotUtils.cc:311-352 | the counts become DrawnCounts, revealed cells above the removed card move down and the last slot has nothing revealed |
| BotBeliefs.HintKeepsTrueCards | csrc/BotUtils.cc:256-269 | after a truthful hint, every slot still admits its true card |
| BotBeliefs.RevealKeepsTrueCards | csrc/BotUtils.cc:290-309 | after a card is revealed, every slot still admits its true card when the player's own copies are among those that remain |
| BotBeliefs.DrawKeepsTrueCards | csrc/BotUtils.cc:311-352 | after a draw, the shifted beliefs still admit every true card of the hand the server keeps |
| InfoContainers.FixedCapacityVector.constructor | csrc/InfoBot.cc:39 | a new vector holds nothing |
| InfoContainers.FixedCapacityVector.Sized | csrc/InfoBot.cc:40-44 | the sized constructor holds n default elements, placed by emplace_back |
| InfoContainers.FixedCapacityVector.EmplaceBack | csrc/InfoBot.cc:69-74 | with a free slot (the source asserts one) the element is appended and nothing else changes |
| InfoContainers.FixedCapacityVector.Erase | csrc/InfoBot.cc:76-83 | erase removes exactly the element at the position, keeping the order of the others |
| InfoContainers.FixedCapacityVector.At | csrc/InfoBot.cc:85-86 | operator[] yields the element at that position |
| InfoContainers.FixedCapacityVector.Size | csrc/InfoBot.cc:93 | size() is the number of elements held |
| InfoContainers.InsertedProperties | csrc/InfoBot.cc:101-106 | insert keeps the elements distinct, adds exactly the new element, never reorders, and is idempotent |
| InfoContainers.DistinctBound | csrc/InfoBot.cc:97-106 | distinct indices below n number at most n, so a set of hand indices fits a capacity equal to the hand size |
| InfoContainers.FixedCapacitySet.constructor | csrc/InfoBot.cc:97-99 | a new set is empty |
| InfoContainers.FixedCapacitySet.Insert | csrc/InfoBot.cc:101-106 | an element already present leaves the set unchanged; otherwise it is appended |
| InfoContainers.FixedCapacitySet.Size | csrc/InfoBot.cc:111 | size() is the number of distinct elements |
| InfoTables.ZeroTable | csrc/InfoBot.cc:138-141 | a new CardCounts has every count zero |
| InfoTables.Increment | csrc/InfoBot.cc:142-144 | increment adds one to that card's count and leaves every other card's count alone |
| InfoTables.CountsOfOccurrences | csrc/InfoBot.cc:138-148 | counting a list of cards gives each card its number of occurrences, and remaining() is the card's copies minus those |
| InfoTables.FillRow | csrc/InfoBot.cc:285-288 | the value loop of from() fills one colour's row with the remaining copies |
| InfoTables.FromCounts | csrc/InfoBot.cc:283-291 | from(counts) holds every card's remaining copies |
| InfoTables.NewTable | csrc/InfoBot.cc:276-282 | the default table holds every card's full number of copies, the table of counts with nothing seen |
| InfoTables.MarkFalse | csrc/InfoBot.cc:292-294 | mark_false zeroes that card and leaves every other card alone |
| InfoTables.MarkedMeaning | csrc/InfoBot.cc:295-312 | after mark_color or mark_value a card is possible exactly when it was and the hint does not rule it out, and no count grows or turns negative |
| InfoTables.MarkRow | csrc/InfoBot.cc:297-301 | the value loop over one colour marks that colour's row only |
| InfoTables.MarkColor | csrc/InfoBot.cc:295-303 | mark_color rules out every card whose colour disagrees with the hint |
| InfoTables.MarkValue | csrc/InfoBot.cc:304-312 | mark_value rules out every card whose value disagrees with the hint |
| InfoTables.CanBeColor | csrc/InfoBot.cc:316-321 | can_be_color holds exactly when some value of that colour is still possible |
| InfoTables.CanBeValue | csrc/InfoBot.cc:322-327 | can_be_value holds exactly when some colour of that value is still possible |
| InfoTables.UntouchedColorCannotBe | csrc/InfoBot.cc:295-303 | after a colour hint that missed the slot no card of that colour is possible |
| InfoTables.DecrementWeightIfPossible | csrc/InfoBot.cc:328-331 | a positive count drops by one, a zero count stays zero, every other card is unchanged, and counts never go negative |
| InfoTables.ScanStep | csrc/InfoBot.cc:404-408 | one cell of the possibility scan counts the cell when it is possible and records the first such card |
| InfoTables.ScanRow | csrc/InfoBot.cc:404-408 | the scan over one colour keeps the count and first card of all cells scanned so far |
| InfoTables.Determined | csrc/InfoBot.cc:404-416 | is_determined with if_is_determined yields the card exactly when it is the only possible one, and nothing otherwise |
| InfoView.ViewOfServer | csrc/InfoBot.cc:165-183 | the view counts exactly the discarded cards, copies each pile's size and the deck, player, hint and life counters |
| InfoView.InitialView | csrc/InfoBot.cc:185-199 | before the deal every card has all its copies remaining and every firework is empty |
| InfoView.IsHigherThanHighestAttainable | csrc/InfoBot.cc:207-218 | for a card above its firework with a copy left (the source asserts both), the result holds exactly when some value in between has no copy left |
| InfoView.IsDead | csrc/InfoBot.cc:221-227 | is_dead holds exactly when the card is at or below its firework or above an unattainable value |
| InfoView.IsDispensable | csrc/InfoBot.cc:229-231 | is_dispensable holds exactly when the card is not the last copy or is dead |
| InfoView.PlayableIsNotDead | csrc/InfoBot.cc:201-227 | a playable card is never dead, and a card at or below its firework always is |
| InfoView.ViewRemaining | csrc/InfoBot.cc:165-172 | in the view of a server, a card's remaining copies are its copies less those in the discard pile |
| InfoView.DeadAboveFirework | csrc/InfoBot.cc:207-218 | a card above a value with no copy left is dead |
| InfoView.HasCard | csrc/InfoBot.cc:244-249 | has_card holds exactly when the hand contains the card |
| InfoView.CanSee | csrc/InfoBot.cc:251-257 | can_see holds exactly when a player other than me holds the card |
| InfoView.HandHasPlayable | csrc/InfoBot.cc:262-268 | the inner loop finds a playable card exactly when the hand has one |
| InfoView.SomeoneElseCanPlay | csrc/InfoBot.cc:259-271 | someone_else_can_play holds exactly when a player other than me holds a playable card |
| InfoBot.MakeHinted | csrc/InfoBot.cc:117-120 | a Hinted names the colour for a colour hint and the value for a value hint, the other field being -1 |
| InfoBot.FromHandTouches | csrc/InfoBot.cc:717-730 | every hint encode_hint offers names a colour or value of the hand, so it touches some card and the server accepts it |
| InfoBot.DecodeHint3 | csrc/InfoBot.cc:731-741 | the three-way decoding is 2 exactly when the chosen card is missed, and 0 exactly for a value hint that touches it |
| InfoBot.DecodeHint4 | csrc/InfoBot.cc:769-783 | the four-way decoding is below 2 exactly when the chosen card is touched, and even exactly for a value hint |
| InfoBot.OtherHints3 | csrc/InfoBot.cc:724-729 | the fallback hints are, card by card in hand order, the card's colour and then its value wherever they differ from the chosen card's; so every differing colour and value of the hand is offered, each comes from the hand, and none names the chosen card's |
| InfoBot.OtherCalls3Sound | csrc/InfoBot.cc:724-729 | every fallback hint (three-way) names a colour or value of the hand, and never the chosen card's |
| InfoBot.OtherCalls3Covers | csrc/InfoBot.cc:724-729 | every colour and every value of the hand that differs from the chosen card's is among the fallback hints (three-way) |
| InfoBot.EncodeHint3 | csrc/InfoBot.cc:717-730 | every hint offered for answer t decodes to t under the three-way decoding, so encode_hint and decode_hint round-trip |
| InfoBot.OtherHints4 | csrc/InfoBot.cc:759-767 | the fallback hints for answers 2 and 3 are, card by card in hand order, the values (or the colours) that differ from the chosen card's; all are of that kind, each comes from the hand, and every differing one is offered |
| InfoBot.OtherCalls4Sound | csrc/InfoBot.cc:759-767 | every fallback hint (four-way) is of the asked kind, names a feature of the hand, and never the chosen card's |
| InfoBot.OtherCalls4Covers | csrc/InfoBot.cc:759-767 | every value (or colour) of the hand differing from the chosen card's is among the fallback hints (four-way) |
| InfoBot.EncodeHint4 | csrc/InfoBot.cc:752-768 | every hint offered for answer t decodes to t under the four-way decoding |
| InfoBot.DeterminedIsDetOf | csrc/InfoBot.cc:409-416 | the outcome of if_is_determined is the one card a determined table names |
| InfoBot.RoomFor | csrc/InfoBot.cc:1145-1163 | a set of distinct slot indices lacking a further index below the hand size still has a free slot |
| InfoBot.InsertIndex | csrc/InfoBot.cc:1152-1158 | useless.insert adds the index and nothing else without exceeding the capacity the source asserts |
| InfoBot.Ascending | csrc/InfoBot.cc:1164-1169 | the sorted vector holds the set's members in strictly ascending order |
| InfoBot.VisitSlot | csrc/InfoBot.cc:1149-1162 | one iteration keeps the useless set and the map of seen cards exact for the slots visited |
| InfoBot.UsefulStep | csrc/InfoBot.cc:1154-1158 | a slot determined as the card of an earlier live slot makes exactly both slots useless |
| InfoBot.FindUselessCards | csrc/InfoBot.cc:1145-1171 | the result holds exactly the surely dead slots and the live slots determined as the same card as another live slot, ascending and without repetition |
| InfoBot.NewTableConsistent | csrc/InfoBot.cc:276-282 | a fresh table is consistent with nothing counted |
| InfoBot.MarkedConsistent | csrc/InfoBot.cc:1173-1187 | marking a table with a hint keeps it consistent with the public counts |
| InfoBot.DecrementConsistent | csrc/InfoBot.cc:1196-1204 | decrementing a card's weight and counting it keeps a table consistent |
| InfoBot.TableOfConsistent | csrc/InfoBot.cc:1194-1197 | the table pushed for a drawn card is consistent with the counts it is built from |
| InfoBot.TruthfulHintKeepsCards | csrc/InfoBot.cc:1173-1187 | marking the tables with the positions a hint really touches rules out no card that is actually there |
| InfoBot.NewHandInfo | csrc/InfoBot.cc:40-44 | HandInfo(handSize) holds handSize tables allowing every copy of every card |
| InfoBot.InfoBotImpl.constructor | csrc/InfoBot.cc:971-977 | each player starts with handSize full tables, nothing counted, and the initial view |
| InfoBot.InfoBotImpl.UpdatePublicInfoForHint | csrc/InfoBot.cc:1173-1187 | every table of the hinted player is marked with the hint, touched or not, and nothing else changes |
| InfoBot.InfoBotImpl.UpdatePublicInfoForDiscardOrPlay | csrc/InfoBot.cc:1189-1205 | the slot's table is erased; a table built from the counts before the card is pushed exactly when the last view's deck is not empty; every table loses one copy of the card, and the card is counted |
| InfoBot.ConsistentBeforeCount | csrc/InfoBot.cc:1189-1205 | a card some consistent table allows still has a copy left to count |
| InfoBot.CountsStayPossible | csrc/InfoBot.cc:1189-1205 | counting such a card keeps every count within the card's copies |
| InfoBot.MarkHand | csrc/InfoBot.cc:1176-1184 | the loop over one hand marks every table as MarkedHand says |
| InfoBot.DecrementHand | csrc/InfoBot.cc:1201-1203 | one hand's tables each lose a copy of the card where they have one |
| InfoBot.DecrementAll | csrc/InfoBot.cc:1200-1204 | every table of every player loses a copy of the card where it has one |
| ModulusInfo.NoInfo | csrc/InfoBot.cc:458-460 | none() is the pair with modulus 1 and value 0 |
| ModulusInfo.Combined | csrc/InfoBot.cc:462-465 | combine keeps the value below the product of the moduli |
| ModulusInfo.SplitRest | csrc/InfoBot.cc:467-478 | what split leaves is the modulus divided by m with a value below it |
| ModulusInfo.SplitDigit | csrc/InfoBot.cc:467-478 | what split returns has modulus m and a value clamped below m |
| ModulusInfo.SplitUndoesCombine | csrc/InfoBot.cc:462-478 | splitting by the modulus just combined in gives back both the digit and the earlier pair |
| ModulusInfo.CombineAllIs | csrc/InfoBot.cc:1053-1066 | combining answers in order multiplies the moduli and spells the answers as a mixed-radix number |
| ModulusInfo.SplitAllNumber | csrc/InfoBot.cc:1080-1110 | splitting such a number by the same moduli in the same order gives every answer back |
| ModulusInfo.CombineThenSplit | csrc/InfoBot.cc:1053-1110 | the hint protocol's round trip: answers combined from none() are split back, by the same moduli, into exactly those answers |
| ModulusInfo.Added | csrc/InfoBot.cc:492-495 | add keeps the shared modulus and a value below it |
| ModulusInfo.Subtracted | csrc/InfoBot.cc:497-500 | subtract keeps the shared modulus and a value below it |
| ModulusInfo.SubtractUndoesAdd | csrc/InfoBot.cc:492-500 | subtracting what was added gives the original pair back |
| ModulusInfo.AddUndoesSubtract | csrc/InfoBot.cc:492-500 | adding what was subtracted gives the original pair back |
| ModulusInfo.ModulusInformation.constructor | csrc/InfoBot.cc:454-456 | the pair holds the given modulus and a value below it, as the source asserts |
| ModulusInfo.ModulusInformation.Combine | csrc/InfoBot.cc:462-465 | the pair becomes the combination with the other as least significant digit |
| ModulusInfo.ModulusInformation.Split | csrc/InfoBot.cc:467-478 | the returned pair is the clamped most significant digit and the remaining pair is the rest |
| ModulusInfo.ModulusInformation.CastUp | csrc/InfoBot.cc:480-484 | the modulus becomes m and the value is kept |
| ModulusInfo.ModulusInformation.CastDown | csrc/InfoBot.cc:486-490 | the modulus becomes m and the value, already below m, is kept |
| ModulusInfo.ModulusInformation.Add | csrc/InfoBot.cc:492-495 | the pair becomes the sum modulo the shared modulus |
| ModulusInfo.ModulusInformation.Subtract | csrc/InfoBot.cc:497-500 | the pair becomes the difference modulo the shared modulus |
| SmartKnowledge.TablesEqual | csrc/SmartBot.h:75 | two cantBe tables with the same cells are the same table |
| SmartKnowledge.Fresh | csrc/SmartBot.cc:39-48 | a new CardKnowledge rules nothing out |
| SmartKnowledge.IsWorthless | csrc/SmartBot.cc:442-453 | isWorthless holds exactly when the card is below its pile's next value or some value between is all played or discarded |
| SmartKnowledge.IsValuable | csrc/SmartBot.cc:434-440 | isValuable holds exactly when all copies but one are gone and the card is not worthless |
| SmartKnowledge.PlayableNotWorthless | csrc/SmartBot.cc:428-453 | a playable card is never worthless |
| SmartKnowledge.Excluded | csrc/SmartBot.cc:111-241 | a setter only ever rules cards out |
| SmartKnowledge.ExcludedMeaning | csrc/SmartBot.cc:111-241 | after a setter a card is possible exactly when it was and the setter's rule spares it |
| SmartKnowledge.ExcludeRow | csrc/SmartBot.cc:111-241 | the value loop of a setter changes only the row of colour k |
| SmartKnowledge.Exclude | csrc/SmartBot.cc:111-241 | every setter's loops over the cells produce the table Excluded describes |
| SmartKnowledge.MustBeColorMeaning | csrc/SmartBot.cc:111-124 | setMustBe(color) rules out every other colour and keeps that colour's cells |
| SmartKnowledge.CannotBeColorMeaning | csrc/SmartBot.cc:156-167 | setCannotBe(color) rules out exactly that colour's five cards |
| SmartKnowledge.MustBeValueMeaning | csrc/SmartBot.cc:126-139 | setMustBe(value) rules out every other value and keeps that value's cells |
| SmartKnowledge.CannotBeValueMeaning | csrc/SmartBot.cc:169-180 | setCannotBe(value) rules out exactly that value's five cards |
| SmartKnowledge.SetMustBeCard | csrc/SmartBot.cc:141-154 | setMustBe(card) writes the table with every card but that one ruled out |
| SmartKnowledge.OnlyCardMeaning | csrc/SmartBot.cc:141-154 | after setMustBe(card) that card and no other is possible |
| SmartKnowledge.Identity | csrc/SmartBot.cc:243-265 | color() and value() are the feature every possible card shares, or -1 when they differ or nothing is possible |
| SmartKnowledge.KnownMeaning | csrc/SmartBot.cc:243-265 | a card is known exactly when a single card is possible, and that card is the one its colour and value name |
| SmartKnowledge.AccStep | csrc/SmartBot.cc:248-254 | one cell of computeIdentity's scan folds that cell's feature into the accumulator |
| SmartKnowledge.AccDone | csrc/SmartBot.cc:255-264 | after the whole scan the accumulator, with -2 read as -1, is the identity |
| SmartKnowledge.IdentityRow | csrc/SmartBot.cc:249-253 | the value loop over colour k keeps both accumulators exact |
| SmartKnowledge.ComputeIdentity | csrc/SmartBot.cc:243-265 | computeIdentity yields the shared colour and value, -1 for a confused table |
| SmartKnowledge.IsKnown | csrc/SmartBot.h:46 | known() holds exactly when both identities are set |
| SmartKnowledge.CannotBeColor | csrc/SmartBot.cc:71-78 | cannotBe(color) holds exactly when every card of the colour is ruled out |
| SmartKnowledge.CannotBeValue | csrc/SmartBot.cc:80-87 | cannotBe(value) holds exactly when every card of the value is ruled out |
| SmartKnowledge.CannotBeShortcut | csrc/SmartBot.cc:71-87 | with the colour or value cached, the shortcut answer agrees with the scan |
| SmartKnowledge.CountRow | csrc/SmartBot.cc:271-276 | the value loop of computePossibilities counts the possible cells scanned so far |
| SmartKnowledge.ComputePossibilities | csrc/SmartBot.cc:267-282 | computePossibilities is the number of possible cells, 10 for a confused table |
| SmartKnowledge.RefinedFewer | csrc/SmartBot.cc:865-872 | ruling more cells out never leaves more possible cards |
| SmartKnowledge.TriRow | csrc/SmartBot.cc:284-349 | the counting loop over one colour keeps the totals exact |
| SmartKnowledge.TriCell | csrc/SmartBot.cc:284-349 | one cell of the counting loop counts it when possible and when it has the property |
| SmartKnowledge.HasProperty | csrc/SmartBot.cc:428-453 | the property is the bot's isPlayable, isValuable or isWorthless |
| SmartKnowledge.ComputeTri | csrc/SmartBot.cc:284-349 | YES when every possible card has the property, NO when none has, MAYBE otherwise or when confused |
| SmartKnowledge.PlayableYesNotWorthless | csrc/SmartBot.cc:182-201 | a card known playable is known not worthless |
| SmartKnowledge.SetterDecides | csrc/SmartBot.cc:182-241 | after setIsPlayable, setIsValuable or setIsWorthless with b on a table that stays unconfused, that property's trivalue is b |
| SmartKnowledge.Update | csrc/SmartBot.cc:351-382 | update<false> leaves a known card alone and otherwise rules out every card whose copies are all played or located; recompute holds exactly when a cell changed |
| SmartBot.IncludesMatches | csrc/SmartBot.cc:398-404 | the positions a hint includes are exactly the server's touched set: the cards of that colour for a colour hint, those of that value for a value hint |
| SmartBot.ReductionInEntropy | csrc/SmartBot.cc:865-872 | reduction_in_entropy is the total of the possibilities each card loses |
| SmartBot.NarrowingReducesEntropy | csrc/SmartBot.cc:865-872 | a hint that only narrows the knowledge and confuses none never has a negative reduction |
| SmartBot.KnownCard | csrc/SmartBot.h:49 | a known knowledge names a valid card it allows |
| SmartBot.CountKnownHand | csrc/SmartBot.cc:524-530 | the inner loop of updateLocatedCount counts one hand's known cards |
| SmartBot.CountStepKnown | csrc/SmartBot.cc:527-529 | a known card adds one to its count |
| SmartBot.CountKnown | csrc/SmartBot.cc:519-531 | the new table counts the known cards of every hand |
| SmartBot.ExcludedIdempotent | csrc/SmartBot.cc:111-241 | applying a setter twice is the same as once |
| SmartBot.UpdatedStable | csrc/SmartBot.cc:351-382 | a table update<false> produced is left alone by another update with the same counts |
| SmartBot.UpdateHand | csrc/SmartBot.cc:597-601 | update<false> on every card of one hand; the flag holds only when a cell changed, and nothing changes otherwise |
| SmartBot.UpdateAll | csrc/SmartBot.cc:595-602 | update<false> on every card of every hand, with the same flag |
| SmartBot.UpdatedRefines | csrc/SmartBot.cc:351-382 | update<false> only rules cards out |
| SmartBot.RefinesShrinks | csrc/SmartBot.cc:594-603 | a round that rules a cell out strictly shrinks the possible cells, which bounds the fixpoint loop |
| SmartBot.FixpointStep | csrc/SmartBot.cc:594-603 | one round of the fixpoint loop narrows the tables, strictly when a cell changed, and leaves them stable under another round |
| SmartBot.RefinesTransitive | csrc/SmartBot.cc:594-603 | narrowing composes across rounds |
| SmartBot.SmartBotImpl.constructor | csrc/SmartBot.cc:418-426 | every player has handSize fresh knowledges and nothing is played or located |
| SmartBot.SmartBotImpl.InvalidateKnol | csrc/SmartBot.cc:474-486 | the knowledges above card_index move down one; the last becomes fresh when a card is drawn and is dropped otherwise |
| SmartBot.SmartBotImpl.SeePublicCard | csrc/SmartBot.cc:488-494 | the card's played count goes up by one and stays within its copies, as the source asserts |
| SmartBot.SmartBotImpl.UpdateLocatedCount | csrc/SmartBot.cc:519-537 | the located counts become the known cards of all hands, and the result says whether they changed |
| SmartBot.SmartBotImpl.LocateFixpoint | csrc/SmartBot.cc:591-603 | afterwards the located counts are exact, every table is stable under update<false> and only narrower than before |
| SmartBot.SmartBotImpl.NextDiscardIndex | csrc/SmartBot.cc:539-558 | -1 exactly when some card is known playable or worthless or every card is known valuable; otherwise the first card not known valuable with the greatest probability of being worthless |
| SmartBot.DiscardIndexOf | csrc/SmartBot.cc:541-557 | the loop of nextDiscardIndex over one hand, with the same result |
| SmartBot.Consider | csrc/SmartBot.cc:551-555 | one card replaces the best so far exactly when it is not known valuable and strictly fitter |
| SmartBot.Classify | csrc/SmartBot.cc:547-549 | the trivalues nextDiscardIndex reads: known playable or worthless, and known valuable |
| HolmesKnowledge.FreshKnol | csrc/HolmesBot.cc:26-34 | a new CardKnowledge knows no colour or value, has no flag set and rules nothing out |
| HolmesKnowledge.ExcludedNarrower | csrc/HolmesBot.cc:60-92 | every setter only rules cards out |
| HolmesKnowledge.KnolNarrowed | csrc/HolmesBot.cc:60-92 | narrowing the table keeps a knowledge consistent with its recorded colour and value |
| HolmesKnowledge.CannotBeColor | csrc/HolmesBot.cc:39-46 | cannotBe(color) is decided by the recorded colour when there is one, else by whether every card of the colour is ruled out |
| HolmesKnowledge.CannotBeValue | csrc/HolmesBot.cc:48-55 | cannotBe(value) is decided by the recorded value when there is one, else by the table |
| HolmesKnowledge.CannotBeShortcutSound | csrc/HolmesBot.cc:39-46 | with a colour recorded, the table really rules out every other colour |
| HolmesKnowledge.SetCannotBeColor | csrc/HolmesBot.cc:80-85 | setCannotBe(color) rules out exactly the cards of the colour |
| HolmesKnowledge.SetCannotBeValue | csrc/HolmesBot.cc:87-92 | setCannotBe(value) rules out exactly the cards of the value |
| HolmesKnowledge.SetMustBeColor | csrc/HolmesBot.cc:60-66 | setMustBe(color) rules out every other colour and records the colour |
| HolmesKnowledge.SetMustBeValue | csrc/HolmesBot.cc:68-78 | setMustBe(value) rules out every other value and records the value |
| HolmesKnowledge.MustBeColorDetermines | csrc/HolmesBot.cc:60-66 | after setMustBe(color) every possible card has that colour |
| HolmesKnowledge.SmartValuableIsHolmesValuable | csrc/HolmesBot.cc:225-231 | a card SmartBot calls valuable HolmesBot calls valuable too |
| HolmesKnowledge.EveryPossible | csrc/HolmesBot.cc:151-189 | the flag scans find whether every possible card has the property, stopping at the first that lacks it |
| HolmesKnowledge.Pruned | csrc/HolmesBot.cc:126-146 | one pass of the restart scan only rules cards out |
| HolmesKnowledge.PruneRow | csrc/HolmesBot.cc:129-143 | the values of one colour in a pass; the flag says whether the row changed |
| HolmesKnowledge.Prune | csrc/HolmesBot.cc:126-146 | the pass rules out the cells Pruned names and asks for a restart exactly when one changed |
| HolmesKnowledge.FindColor | csrc/HolmesBot.cc:101-108 | the colour loop finds the one colour left, or -1 when none or several are |
| HolmesKnowledge.FindValue | csrc/HolmesBot.cc:110-117 | the value loop finds the one value left, or -1 when none or several are |
| HolmesKnowledge.OpenShrinks | csrc/HolmesBot.cc:94-146 | narrowing and determining shrink the open cells and recorded features, strictly unless nothing changed, so the restart loop ends |
| HolmesKnowledge.Determine | csrc/HolmesBot.cc:99-117 | a colour or value is recorded only when it is the sole one left |
| HolmesKnowledge.UpdateRound | csrc/HolmesBot.cc:94-146 | a round that asks for a restart strictly shrinks the open cells; one that does not leaves the card at rest |
| HolmesKnowledge.Restart | csrc/HolmesBot.cc:94-146 | the restart loop ends with the card at rest |
| HolmesKnowledge.Update | csrc/HolmesBot.cc:94-193 | update() only narrows, keeps recorded features, leaves the card at rest and sets the flags the table implies |
| HolmesKnowledge.UpdatedFlagsAtRest | csrc/HolmesBot.cc:148-192 | the flags update() sets are a fixpoint: deriving them again from the same table gives the same flags |
| HolmesKnowledge.SetFlags | csrc/HolmesBot.cc:149-192 | the flag tail of update() changes only the flags, as Flags says |
| HolmesKnowledge.FlagsWorthless | csrc/HolmesBot.cc:149-163 | update() flags a card worthless only when it was already, or when no other flag was set and every possible card is on its pile |
| HolmesKnowledge.SettledPlayable | csrc/HolmesBot.cc:126-146 | at rest with the playable flag, every possible card is the next one on its pile |
| HolmesKnowledge.CouldBeValuable | csrc/HolmesBot.cc:233-243 | false outside 1..5; otherwise whether some possible colour of the value is valuable |
| HolmesBot.KnownIn | csrc/HolmesBot.cc:262-287 | the determined cards of one hand, never more than the hand |
| HolmesBot.LocatedOf | csrc/HolmesBot.cc:262-287 | the located counts updateLocatedCount computes |
| HolmesBot.CountKnownHand | csrc/HolmesBot.cc:262-287 | the inner loop counts one hand's determined cards |
| HolmesBot.CountKnown | csrc/HolmesBot.cc:262-287 | the new table counts the determined cards of every hand |
| HolmesBot.SettledRespects | csrc/HolmesBot.cc:126-146 | a card at rest never allows a card whose copies are all played or located |
| HolmesBot.UpdateHand | csrc/HolmesBot.cc:303-306 | each card of the hand ends as update() leaves it: narrower, recorded features kept, at rest against the counts, with the playable, valuable and worthless flags its table implies |
| HolmesBot.UpdateAll | csrc/HolmesBot.cc:301-308 | every card of every hand ends as update() leaves it, flags included |
| HolmesBot.UndeterminedShrinks | csrc/HolmesBot.cc:300-309 | narrowing never undetermines a card, and a change in the located counts means a card was determined, so the do-while loop ends |
| HolmesBot.Resized | csrc/HolmesBot.cc:294-298 | vector::resize keeps the first entries and pads with fresh knowledge |
| HolmesBot.ResizedAll | csrc/HolmesBot.cc:294-298 | every hand's knowledge resized to its hand |
| HolmesBot.HintValue | csrc/HolmesBot.cc:356-362 | the value a colour hint names is the pile's next value, clamped to 5 when permissive |
| HolmesBot.ColorHinted | csrc/HolmesBot.cc:364-374 | a touched card must be the colour, and the pile's next value unless its value is known or it is worthless; an untouched card cannot be the colour; flags are kept |
| HolmesBot.ColorHintHand | csrc/HolmesBot.cc:364-374 | the loop applies ColorHinted to each card of the hand |
| HolmesBot.FirstUnvaluable | csrc/HolmesBot.cc:384-387 | the first card not flagged valuable, or -1 when all are |
| HolmesBot.DiscardIndex | csrc/HolmesBot.cc:377-388 | -1 while some card is flagged playable or worthless; otherwise the first card not flagged valuable |
| HolmesBot.InfoOf | csrc/HolmesBot.cc:518-525 | the information content of a candidate hint is at most the number of cards looked at |
| HolmesBot.Score | csrc/HolmesBot.cc:518-528 | the inner loop finds whether the hint misleads and, when not, its information content |
| HolmesBot.Consider | csrc/HolmesBot.cc:529-533 | a candidate replaces the best so far only when strictly more informative |
| HolmesBot.Wiped | csrc/HolmesBot.cc:447-460 | a card loses its playable flag exactly when it was flagged playable, not valuable, and could be the played card |
| HolmesBot.WipedTable | csrc/HolmesBot.cc:447-460 | wipeOutPlayables applies Wiped to every card of every hand |
| HolmesBot.WipeHand | csrc/HolmesBot.cc:451-458 | the inner loop applies Wiped to one hand |
| HolmesBot.WipeAll | csrc/HolmesBot.cc:447-460 | the outer loop applies Wiped to every hand |
| HolmesBot.BestHint | csrc/HolmesBot.cc:500-571 | the hint is for the partner and is the first most informative non-misleading candidate, colours before values, skipping the value that would read as a warning |
| HolmesBot.NextDiscardIndex | csrc/HolmesBot.cc:377-388 | nextDiscardIndex is DiscardIndex of the hand's knowledge |
| HolmesBot.LowestPlayable | csrc/HolmesBot.cc:310-313 | the lowest value any pile wants next |
| HolmesBot.HolmesBotImpl.constructor | csrc/HolmesBot.cc:215-223 | every player has handSize fresh knowledges and nothing is played |
| HolmesBot.HolmesBotImpl.InvalidateKnol | csrc/HolmesBot.cc:245-253 | the knowledges above card_index move down one and the last becomes fresh |
| HolmesBot.HolmesBotImpl.SeePublicCard | csrc/HolmesBot.cc:255-260 | the card's played count goes up by one and stays within its copies, as the source asserts |
| HolmesBot.HolmesBotImpl.UpdateLocatedCount | csrc/HolmesBot.cc:262-287 | the located counts become the determined cards of all hands, and the result says whether they changed |
| HolmesBot.HolmesBotImpl.LocateFixpoint | csrc/HolmesBot.cc:300-309 | afterwards every knowledge is narrower and respects the counts, the located counts are exact, the last round was a full update() under those final counts, and every card's flags are at rest |
| HolmesBot.HolmesBotImpl.ObserveBeforeMove | csrc/HolmesBot.cc:289-316 | each hand's knowledge is resized to the hand and brought to the fixpoint (the last round a full update() under the final counts, flags at rest), and the lowest playable value recomputed |
| HolmesBot.HolmesBotImpl.WipeOutPlayables | csrc/HolmesBot.cc:447-460 | the knowledge becomes WipedTable and nothing else changes |
| HolmesBot.HolmesBotImpl.ObserveBeforeDiscard | csrc/HolmesBot.cc:318-323 | the card is counted and its knowledge dropped, the rest shifting down and a fresh one appended; nothing else changes |
| HolmesBot.HolmesBotImpl.ObserveBeforePlay | csrc/HolmesBot.cc:325-345 | a card that lands on its pile and is not valuable wipes out the playable flags it could explain; then the card is counted and its knowledge dropped |
| HolmesBot.HolmesBotImpl.ObserveColorHint | csrc/HolmesBot.cc:347-375 | the hinted player's knowledge becomes ColorHintedHand with the hint's value; nothing else changes |
| HolmesBot.HolmesBotImpl.NextDiscard | csrc/HolmesBot.cc:377-388 | nextDiscardIndex(to) is DiscardIndex of that player's knowledge |
| HolmesBot.HolmesBotImpl.BestHintForPlayer | csrc/HolmesBot.cc:500-571 | bestHintForPlayer returns the best hint for the partner as BestHint describes |
| SimpleBot.FirstYes | csrc/SimpleBot.cc:37-44 | the first value from v on that is YES, or -1 exactly when there is none |
| SimpleBot.ValueOf | csrc/SimpleBot.cc:37-44 | value() is a value 1..5, or -1 where the source's assertion fails |
| SimpleBot.KnownValue | csrc/SimpleBot.cc:37-44 | under the knowledge invariant a value marked YES is what value() reports |
| SimpleBot.FreshKnol | csrc/SimpleBot.cc:21-30 | a new CardKnowledge has every colour and value MAYBE and is not playable |
| SimpleBot.MustBeColor | csrc/SimpleBot.cc:46-52 | setMustBe(color), on a colour not ruled out, makes that colour YES and every other NO, values untouched |
| SimpleBot.MustBeValue | csrc/SimpleBot.cc:54-60 | setMustBe(value), on a value not ruled out, makes that value YES and every other NO, colours untouched |
| SimpleBot.MustBeValueKnown | csrc/SimpleBot.cc:37-60 | after setMustBe(value), value() reports that value |
| SimpleBot.MustBeColorKeepsValue | csrc/SimpleBot.cc:37-52 | setMustBe(color) leaves value() as it was |
| SimpleBot.MustBeKeepsOk | csrc/SimpleBot.cc:46-60 | both setters keep the knowledge invariant |
| SimpleBot.SetMustBeColor | csrc/SimpleBot.cc:46-52 | the loop of setMustBe(color) computes MustBeColor |
| SimpleBot.SetMustBeValue | csrc/SimpleBot.cc:54-60 | the loop of setMustBe(value) computes MustBeValue |
| SimpleBot.KnolValue | csrc/SimpleBot.cc:37-44 | the loop of value() computes ValueOf |
| SimpleBot.ColorHinted | csrc/SimpleBot.cc:112-117 | a card named by a colour hint must be that colour and the pile's next value, and is playable |
| SimpleBot.ValueHinted | csrc/SimpleBot.cc:138-142 | a card named by a value hint must be that value and is playable, its colours unchanged |
| SimpleBot.ColorHintedHand | csrc/SimpleBot.cc:112-117 | exactly the named cards of the hand are hinted, the rest unchanged |
| SimpleBot.ValueHintedHand | csrc/SimpleBot.cc:138-142 | exactly the named cards of the hand are hinted, the rest unchanged |
| SimpleBot.HintByColor | csrc/SimpleBot.cc:113-116 | the loop body for one named card computes ColorHinted |
| SimpleBot.HintByValue | csrc/SimpleBot.cc:139-141 | the loop body for one named card computes ValueHinted |
| SimpleBot.HintedStep | csrc/SimpleBot.cc:112-117 | visiting card_indices[i] extends the hinted prefix by one |
| SimpleBot.HintedAll | csrc/SimpleBot.cc:112-117 | once every index is visited, the hand is the hinted hand |
| SimpleBot.ApplyColorHint | csrc/SimpleBot.cc:112-117 | the colour-hint loop over card_indices yields ColorHintedHand |
| SimpleBot.ApplyValueHint | csrc/SimpleBot.cc:138-142 | the value-hint loop over card_indices yields ValueHintedHand |
| SimpleBot.RightOf | csrc/SimpleBot.cc:287-289 | the partner on the right is a seat of the table |
| SimpleBot.FallbackHintIsReclaim | csrc/SimpleBot.cc:129-132 | the fallback hint of pleaseMakeMove is exactly what receivers read as a hint-stone reclaim |
| SimpleBot.Wiped | csrc/SimpleBot.cc:154-161 | a playable flag survives only on a known 5 or on a card that cannot be the played colour or value |
| SimpleBot.WipedHand | csrc/SimpleBot.cc:153-162 | wipeOutPlayables applies Wiped to every card of a hand |
| SimpleBot.WipedAll | csrc/SimpleBot.cc:150-164 | wipeOutPlayables applies Wiped to every hand |
| SimpleBot.WipeHand | csrc/SimpleBot.cc:153-162 | the inner loop computes WipedHand |
| SimpleBot.WipeAll | csrc/SimpleBot.cc:150-164 | the outer loop computes WipedAll |
| SimpleBot.Lowest | csrc/SimpleBot.cc:166-187 | the scan's pick is -1 or a card among those scanned |
| SimpleBot.LowestIsFirstLowest | csrc/SimpleBot.cc:166-187 | the pick is the first card of least value among those flagged playable, -1 when none is |
| SimpleBot.FirstLowestStep | csrc/SimpleBot.cc:166-187 | one more card takes over exactly when it is flagged playable and strictly lower |
| SimpleBot.LowestPlayable | csrc/SimpleBot.cc:166-187 | the loop of maybePlayLowestPlayableCard computes Lowest |
| SimpleBot.InfoOf | csrc/SimpleBot.cc:211-222 | information content is at most the number of cards looked at |
| SimpleBot.InfoNamesNewPlayable | csrc/SimpleBot.cc:211-222 | positive information means the hint names a playable card not yet flagged |
| SimpleBot.Score | csrc/SimpleBot.cc:208-223 | the inner loop finds whether the hint misleads and, when not, its information content |
| SimpleBot.PartnerOf | csrc/SimpleBot.cc:198 | the i-th partner is a seat of the table |
| SimpleBot.PartnerIsOther | csrc/SimpleBot.cc:198-199 | a partner 1..numPlayers-1 seats away is not me, as the source asserts |
| SimpleBot.Consider | csrc/SimpleBot.cc:189-269 | one candidate replaces the best so far only when admissible and strictly more informative |
| SimpleBot.ConsiderPartner | csrc/SimpleBot.cc:197-260 | every candidate of one partner, colours then values |
| SimpleBot.HelpfulHint | csrc/SimpleBot.cc:189-269 | the search over every partner ends with the best admissible hint |
| SimpleBot.HintMove | csrc/SimpleBot.cc:262-268 | no move exactly when no hint carries information |
| SimpleBot.ChosenHintIsTruthful | csrc/SimpleBot.cc:189-269 | a chosen hint goes to another player, names only playable cards and names one not yet known playable |
| SimpleBot.ColorHintInferenceHolds | csrc/SimpleBot.cc:100-118 | a chosen colour hint names only the next card of that pile, so what receivers infer is true and the pile is not complete |
| SimpleBot.ValueHintInferenceHolds | csrc/SimpleBot.cc:120-143 | a chosen value hint names only cards whose pile is one below the value |
| SimpleBot.Invalidated | csrc/SimpleBot.cc:72-80 | invalidateKnol keeps every hand's size, the later entries moving down and fresh knowledge at the end |
| SimpleBot.SimpleBotImpl.constructor | csrc/SimpleBot.cc:63-70 | every player has handSize fresh knowledges |
| SimpleBot.SimpleBotImpl.InvalidateKnol | csrc/SimpleBot.cc:72-80 | the knowledge becomes Invalidated |
| SimpleBot.SimpleBotImpl.ObserveBeforeDiscard | csrc/SimpleBot.cc:87-91 | the discarded card's knowledge is dropped as invalidateKnol does |
| SimpleBot.SimpleBotImpl.WipeOutPlayables | csrc/SimpleBot.cc:150-164 | the knowledge becomes WipedAll |
| SimpleBot.SimpleBotImpl.ObserveBeforePlay | csrc/SimpleBot.cc:93-98 | the played card's knowledge is dropped, then the playable flags it could explain are wiped |
| SimpleBot.SimpleBotImpl.ObserveColorHint | csrc/SimpleBot.cc:100-118 | the hinted hand becomes ColorHintedHand with the pile's next value, which the source asserts is at most 5; nothing else changes |
| SimpleBot.SimpleBotImpl.ObserveValueHint | csrc/SimpleBot.cc:120-143 | a reclaim changes nothing; otherwise the hinted hand becomes ValueHintedHand |
| SimpleBot.SimpleBotImpl.MaybePlayLowestPlayableCard | csrc/SimpleBot.cc:166-187 | plays the first least-valued card flagged playable, whose value is known as the source asserts; no move when none is flagged |
| SimpleBot.SimpleBotImpl.MaybeGiveHelpfulHint | csrc/SimpleBot.cc:189-269 | no hint without stones; otherwise the move of the best hint found |
| SimpleBot.SimpleBotImpl.MakeMove | csrc/SimpleBot.cc:271-294 | play if a card is flagged playable, else a helpful hint, else discard the oldest card, or with every stone in the box hint the right partner about the oldest card |
| SearchBot.Drawn | csrc/SearchBot.cc:95-101 | drawing one copy of a card lowers its count by one and leaves every other count alone |
| SearchBot.DrawableWeightPositive | csrc/SearchBot.cc:82-106 | a hand that can be drawn from the deck receives a positive weight from a positive starting probability |
| SearchBot.DrawableIffFits | csrc/SearchBot.cc:95-104 | a hand can be drawn card by card exactly when its multiplicities fit within the deck composition |
| SearchBot.CompletesStep | csrc/SearchBot.cc:95-104 | the completions reached after drawing c next are exactly the completions of the shorter hand whose next card is c |
| SearchBot.WeightStep | csrc/SearchBot.cc:98-101 | the weight of a completion is the probability scaled by the count of its next card, carried over the rest of the draw |
| SearchBot.CompletesNext | csrc/SearchBot.cc:95-98 | every completion draws as its next card a deck entry with a positive count |
| SearchBot.CompletesFull | csrc/SearchBot.cc:88-94 | a hand already at full size completes only to itself |
| SearchBot.Populate | csrc/SearchBot.cc:82-106 | populateInitialHandDistribution_ inserts exactly the full hands drawable in order from the deck that extend the current hand, each weighted by the probability times its ordered draw counts, keeps earlier entries, and restores hand and deck |
| SearchBot.PopulateCard | csrc/SearchBot.cc:95-104 | one entry of the deck loop: the completions drawing that card next are added and hand and deck are restored |
| SearchBot.AddCardCompletions | csrc/SearchBot.cc:95-104 | adding the completions that draw one more card next extends the set of next cards already covered by that card |
| SearchBot.RelevantBits | csrc/SearchBot.cc:237-252 | a null relevant-indices pointer means no restriction and a non-null one restricts to its positions |
| SearchBot.KeepHand | csrc/SearchBot.cc:245-259 | the scan of one hand keeps it exactly when every relevant position agrees with the hint: named positions carry the hinted colour or value and the others do not |
| SearchBot.FilterHint | csrc/SearchBot.cc:237-266 | filterBeliefsConsistentWithHint_ erases exactly the hands inconsistent with the hint and keeps the others with unchanged weights |
| SearchBot.ServerHintIsConsistent | csrc/SearchBot.cc:245-259 | the positions the server reports for a hint never make the filter drop the hand the hint was given to |
| SearchBot.Origin | csrc/SearchBot.cc:346-398 | reading a new hand back, with the drawn card dropped and the played card put back at its index, gives a hand holding that card there |
| SearchBot.DrawsFromOrigin | csrc/SearchBot.cc:346-398 | every new hand produced by a draw comes from exactly one old hand, the one Origin reads back |
| SearchBot.MyDraw | csrc/SearchBot.cc:346-398 | updateBeliefsFromMyDraw_ keeps the hands holding the played card at its index, removes that card, extends full hands by every card still in the deck, and gives each new hand its old hand's weight |
| SearchBot.DrawAndRecord | csrc/SearchBot.cc:355-395 | one old hand of the loop adds its new hands to the partial result and the deck is restored |
| SearchBot.DrawnStep | csrc/SearchBot.cc:355-395 | adding the new hands of one more old hand extends the partial result to that hand |
| SearchBot.DrawOne | csrc/SearchBot.cc:359-395 | the new hands of one old hand are exactly its draws, each at the old hand's weight, and the deck is left as it was |
| SearchBot.ExtendedBy | csrc/SearchBot.cc:370-385 | the full-hand successors of a surviving hand are its base followed by one card of positive remaining count, and only those |
| SearchBot.CountCopies | csrc/SearchBot.cc:421-426 | the counting loop gives the number of relevant positions holding the revealed card |
| SearchBot.RevealCard | csrc/SearchBot.cc:407-440 | updateBeliefsFromRevealedCard_ leaves hands without the card untouched, rescales a hand holding k copies by (remaining - k) / remaining, and erases it when that is not positive |
| SearchBot.RevealSurvivor | csrc/SearchBot.cc:427-434 | a positive-weight hand holding k copies survives the reveal exactly when k is below the copies remaining before the draw, and its weight strictly decreases |
| SearchBot.CheckBeliefs | csrc/SearchBot.cc:446-470 | checkBeliefs_ passes exactly when the true hand is among the beliefs and throws otherwise |
| SearchBot.SearchBotImpl.constructor | csrc/SearchBot.cc:62-80 | a new bot knows its index, holds no beliefs and is not initialised |
| SearchBot.SearchBotImpl.ObserveBeforeMove | csrc/SearchBot.cc:114-130 | the first call fills the beliefs with every full hand the deck can supply, at weight its ordered draw count; later calls leave them unchanged |
| SearchBot.SearchBotImpl.ObserveHint | csrc/SearchBot.cc:223-235 | a hint to another player changes nothing; a hint to this player filters the beliefs and the check passes exactly when the true hand survives |
| SearchBot.SearchBotImpl.ObserveDraw | csrc/SearchBot.cc:334-344 | after its own play or discard the bot applies the my-draw update, after a full-handed partner's it reveals the partner's drawn card, otherwise nothing changes; then beliefs are checked against the true hand |
| JointSearchBot.NewFrame | csrc/JointSearchBot.cc:424-439 | a new frame records its index, move, previous move, true hand and a copy of the player's distribution, and its hand map is the identity over the hand size |
| JointSearchBot.IdentityMapOk | csrc/JointSearchBot.cc:430-432 | the identity hand map is well formed and maps every slot of the frame's hand |
| JointSearchBot.ShiftedMap | csrc/JointSearchBot.cc:88-90 | erasing the used entry of the hand map and appending -1 keeps its length |
| JointSearchBot.ShiftKeepsMapOk | csrc/JointSearchBot.cc:88-90 | after the shift the map is still well formed, the used card's slot is no longer mapped and every other mapped slot still is |
| JointSearchBot.PruneFrame | csrc/JointSearchBot.cc:76-90 | one frame keeps only the hands holding the played card in the used card's slot (all hands when that card was drawn after the frame) and its map is shifted |
| JointSearchBot.PruneHistory | csrc/JointSearchBot.cc:74-91 | every frame of the drawing player's history is pruned and shifted as PruneFrame says |
| JointSearchBot.MappedSlots | csrc/JointSearchBot.cc:96-99 | the relevant indices are exactly the slots the hand map maps to |
| JointSearchBot.SlotsSnoc | csrc/JointSearchBot.cc:96-99 | appending an entry to a hand map adds its slot to the mapped slots unless it is -1 |
| JointSearchBot.RevealFrames | csrc/JointSearchBot.cc:95-102 | each frame of one player counts the revealed card only at its mapped slots and is rescaled as updateBeliefsFromRevealedCard_ says |
| JointSearchBot.RevealToAll | csrc/JointSearchBot.cc:94-103 | every player's current distribution is revealed with no restriction, and every player's frames through their maps |
| JointSearchBot.TranslateHint | csrc/JointSearchBot.cc:115-124 | the hinted positions are translated through the hand map, unmapped positions skipped, and the relevant indices are the mapped slots |
| JointSearchBot.TranslatedSnoc | csrc/JointSearchBot.cc:117-122 | one more map entry adds its slot to the translated hint exactly when it is mapped and its position was hinted |
| JointSearchBot.TranslatedConsistency | csrc/JointSearchBot.cc:113-126 | a frame hand passes the translated filter exactly when, at every current position still mapped, its card there has the hinted attribute iff the hint named that position |
| JointSearchBot.FilterHistory | csrc/JointSearchBot.cc:113-131 | every frame of the hinted player is filtered with the translated hint and restricted to its mapped slots, and nothing else in the frame changes |
| JointSearchBot.ShrunkTrans | csrc/JointSearchBot.cc:243-268 | two successive prunings together only erase hands from the frames after the start frame |
| JointSearchBot.ShrunkKeepsDraws | csrc/JointSearchBot.cc:248-249 | erasing hands keeps every recorded move and so every draw index |
| JointSearchBot.EraseAndPropagate | csrc/JointSearchBot.cc:252-255 | a present successor is erased from the next distribution and pruned onwards; an absent one changes nothing |
| JointSearchBot.PropagatePrunedHand | csrc/JointSearchBot.cc:243-268 | propagatePrunedHand_ erases from the next distribution exactly the successors of the impossible hand, only erases hands in later frames, and changes nothing when no successor is present |
| JointSearchBot.SuccessorAt | csrc/JointSearchBot.cc:258-266 | the card loop covers, after index n, exactly the successors whose drawn card has index at most n |
| JointSearchBot.SuccessorAtOne | csrc/JointSearchBot.cc:258-266 | pointwise form of SuccessorAt for one hand |
| JointSearchBot.NewSuccessor | csrc/JointSearchBot.cc:260-261 | the hand with card n appended is a successor first reached at index n |
| JointSearchBot.SuccessorOfIndex | csrc/JointSearchBot.cc:258-266 | a successor whose last card has index n is the base hand with card n appended |
| JointSearchBot.SuccessorIndexed | csrc/JointSearchBot.cc:258-266 | after all 25 card indices the loop has covered every successor |
| JointSearchBot.JointSearchBotImpl.Init | csrc/JointSearchBot.cc:40-48 | a new bot has no distributions yet and an empty history for each player |
| JointSearchBot.JointSearchBotImpl.Create | csrc/JointSearchBot.cc:40-48 | construction fails (throws) exactly when there are more than two players, and otherwise gives an initial bot |
| JointSearchBot.JointSearchBotImpl.ObserveDraw | csrc/JointSearchBot.cc:69-104 | the drawing player's distribution follows the card used against the public deck, that player's frames are pruned and shifted, and then every distribution and frame reveals the played card |
| JointSearchBot.JointSearchBotImpl.ObserveHint | csrc/JointSearchBot.cc:108-133 | the hinted player's frames are filtered with the translated hint and its current distribution with the hint as given; other players are untouched |
| JointSearchBot.JointSearchBotImpl.PropagatePruned | csrc/JointSearchBot.cc:243-268 | on the given player's history the successors of the impossible hand are erased from the next distribution, later frames only lose hands, and other players are untouched |
| HleUtils.HandSizeFromRules | csrc/HleUtils.h:14-19 | five cards for fewer than four players and four otherwise |
| HleUtils.HandSizeMatchesServer | csrc/HleUtils.h:14-19 | the hand size the rules give agrees with the server's default hand size for every player count |
| HleUtils.NumberCardInstance | csrc/HleUtils.h:43-53 | three, two or one copies by rank within the 5 x 5 grid and zero outside it |
| HleUtils.InstancesMatchDeck | csrc/HleUtils.h:43-53 | the encoder's copy count agrees with the deck's copy count on every card |
| HleUtils.ColorInstances | csrc/HleUtils.h:58-61 | the copies of one colour's five cards add up to ten, and five colours to the 50 cards of the deck |
| HleUtils.NumMoves | csrc/HleUtils.h:121-124 | every discard, play, colour hint and value hint, plus one no-op |
| HleUtils.LayoutFor | csrc/HleUtils.h:96-105 | the layout takes the player count and the rules' hand size, and is well formed for two to five players |
| HleUtils.LayoutSizes | csrc/HleUtils.h:55-89 | each section length is the layout's product, the deal leaves 1 to 40 cards in the deck, and numMoves and the last-action length have their closed forms |
| HleUtils.SlotDecodes | csrc/HleUtils.h:152-154 | a one-hot field reads back as its position and an empty field as nothing |
| HleUtils.ThermometerDecodes | csrc/HleUtils.h:180-181 | a thermometer of k bits out of w reads back as min(k, w) |
| HleUtils.Put | csrc/HleUtils.h:153 | writing one value into the zero tail of a partly written vector leaves everything else as it was |
| HleUtils.SetBit | csrc/HleUtils.h:189-190 | setting bit k of the field at the head of the zero tail gives that one-hot field |
| HleUtils.FillThermometer | csrc/HleUtils.h:180-181 | std::fill of the first k bits of a w-bit field gives the thermometer of k |
| HleUtils.PlayerAtIsMod | csrc/HleUtils.h:149 | (offset + me) % numPlayers is the seat that many places after me |
| HleUtils.OtherPlayer | csrc/HleUtils.h:148-149 | offsets 1 to numPlayers - 1 never land on me |
| HleUtils.WriteHand | csrc/HleUtils.h:150-157 | one hand's block: one set bit at the card index in each card's 25-bit slot, then empty slots up to the hand size |
| HleUtils.WriteOthers | csrc/HleUtils.h:145-159 | the first loop leaves my block clear and writes the other players' blocks in seat order after me, ending at bitsPerHand times numPlayers |
| HleUtils.OthersStep | csrc/HleUtils.h:148-157 | one more player's block extends the section by one hand's worth of bits |
| HleUtils.WriteShortFlags | csrc/HleUtils.h:161-170 | the second loop sets each player's flag exactly when that hand is short |
| HleUtils.EncodeHands | csrc/HleUtils.h:142-172 | encodeHands returns the hands section: my block clear, the others' blocks in seat order, then the short-hand flags |
| HleUtils.DecodeCard | csrc/HleUtils.h:153-154 | a card read back from its slot is a valid card |
| HleUtils.HandCodeDecodes | csrc/HleUtils.h:150-157 | each card slot of a hand's block reads back as that card, and the slots past a short hand as nothing |
| HleUtils.OwnBlockClear | csrc/HleUtils.h:145-146 | my own block of the hands section is all clear |
| HleUtils.OthersCardsDecode | csrc/HleUtils.h:142-172 | slot s of the block at seat offset b reads back as card s of the player b seats after me, or nothing past the end of a short hand |
| HleUtils.ShortFlagDecodes | csrc/HleUtils.h:161-170 | the flag of the player o seats after me is set exactly when that player's hand is short |
| HleUtils.BoardSpec | csrc/HleUtils.h:174-205 | the board section has the layout's board length |
| HleUtils.EncodeBoard | csrc/HleUtils.h:174-205 | encodeBoard returns the deck thermometer, the piles' top cards one-hot, then the hint and life thermometers |
| HleUtils.WritePiles | csrc/HleUtils.h:183-192 | the pile loop writes each pile's top-card field in colour order |
| HleUtils.WritePileTop | csrc/HleUtils.h:184-191 | one pile's field has the bit of its top card's value, or nothing for an empty pile |
| HleUtils.BoardParts | csrc/HleUtils.h:174-205 | the board section is the deck thermometer, 25 pile bits, 8 hint bits and 3 life bits, in that order |
| HleUtils.BoardCountsDecode | csrc/HleUtils.h:178-203 | the deck, hint and life thermometers read back as the cards left, hint stones and lives |
| HleUtils.BoardPileDecodes | csrc/HleUtils.h:183-192 | pile i's field is clear exactly when the pile is empty, and otherwise names its top card |
| HleUtils.PileFieldDecodes | csrc/HleUtils.h:184-191 | a pile's field reads back as its top card, or empty |
| HleUtils.DiscardedIsMultiplicity | csrc/HleUtils.h:210-213 | the count at a card's index is how many copies of that card were discarded |
| HleUtils.CountDiscards | csrc/HleUtils.h:210-213 | the counting loop gives the discarded count of each of the 25 cards |
| HleUtils.WriteCopies | csrc/HleUtils.h:221-223 | bit i of a card's field is set exactly when i is below the discarded count |
| HleUtils.WriteColor | csrc/HleUtils.h:217-225 | the rank loop writes the fields of one colour's five cards after the earlier colours' |
| HleUtils.ColorCodeStep | csrc/HleUtils.h:217-225 | one more rank's field follows the fields already written |
| HleUtils.EncodeDiscard | csrc/HleUtils.h:207-229 | encodeDiscard returns the discard section: per card, colour-major, a thermometer of its discarded count over its copies |
| HleUtils.DiscardDecodes | csrc/HleUtils.h:207-229 | a card's field starts with min(discarded, copies) set bits |
| HleUtils.DiscardField | csrc/HleUtils.h:216-225 | a card's field in the discard section is the thermometer of its discarded count |
| HleUtils.PrevPlayer | csrc/HleUtils.h:245 | the previous active player is the seat whose next seat is the active one |
| HleUtils.RelativeSeat | csrc/HleUtils.h:247 | the relative index is the offset that leads from me to the player, zero exactly for me |
| HleUtils.SeatsAreMod | csrc/HleUtils.h:245-247 | the encoder's remainders are the previous seat and the relative seat |
| HleUtils.PreviousSeat | csrc/HleUtils.h:245 | computes the previous active player |
| HleUtils.SeatsAfter | csrc/HleUtils.h:247 | computes the relative index of a player |
| HleUtils.Mask | csrc/HleUtils.h:284-290 | bit i of the reveal outcome is set exactly when the hint touched card i |
| HleUtils.MarkIf | csrc/HleUtils.h:260-281 | a field gets its bit only when the move has that field |
| HleUtils.WriteMover | csrc/HleUtils.h:244-256 | the first two fields are the relative seat that moved and the move type |
| HleUtils.WriteHintFields | csrc/HleUtils.h:258-281 | the target, colour and value fields carry a hint's target, colour or value and stay clear otherwise |
| HleUtils.WriteReveal | csrc/HleUtils.h:284-291 | the reveal loop marks the positions the hint touched |
| HleUtils.WriteTail | csrc/HleUtils.h:284-316 | the last four fields are the reveal outcome, the position and card used, and the play outcomes |
| HleUtils.WriteOutcome | csrc/HleUtils.h:308-316 | a play sets the first bit when the score rose and the second when a hint stone came back; other moves leave both clear |
| HleUtils.EncodeLastAction | csrc/HleUtils.h:231-319 | encodeLastAction returns all clear before the first move and otherwise the mover, hint and tail fields of the previous move |
| HleUtils.HintCodeDecodes | csrc/HleUtils.h:258-281 | the hint fields read back as the hint's relative target, colour and value, and as nothing for other moves |
| HleUtils.RevealDecodes | csrc/HleUtils.h:284-291 | bit i of the reveal field is set exactly when a hint touched card i |
| HleUtils.TailDecodes | csrc/HleUtils.h:294-316 | the position and card fields read back as the card played or discarded, and the outcome bits as a scoring play and a returned hint stone |
| HleUtils.MoverDecodes | csrc/HleUtils.h:244-256 | the mover fields read back as the previous active player and the move type |
| HleUtils.LastActionRecoversMove | csrc/HleUtils.h:231-319 | the last-action section of a move reads back as that move, and the all-clear section as no move |
| HleUtils.MoveSectionDecodes | csrc/HleUtils.h:244-316 | the three parts of a move's section decode to the move |
| HleUtils.ClearSectionDecodes | csrc/HleUtils.h:239-242 | the all-clear section decodes to no move |
| HleUtils.AsReals | csrc/HleUtils.h:90-94 | the 0/1 features held as floats |
| HleUtils.SerializedMove.constructor | csrc/HleUtils.h:96-118 | the constructor fills each section with its encoder's result and keeps the given beliefs |
| HleUtils.SerializedMove.ToArray | csrc/HleUtils.h:414-426 | toArray is the sections in order, plus the last-action section again when greedy action is set, and its length is the sum of the sections |
| HleUtils.FeatureLengthFormula | csrc/HleUtils.h:414-426 | the feature vector's length in closed form from the player count and hand size |
| Text.Split | webapp/server.py:165 | splitting on a one-character separator gives at least one part, no part contains the separator, joining the parts gives the string back, and there is one part exactly when the separator is absent |
| Text.JoinOneSep | webapp/server.py:165 | a join contains the separator exactly when it has more than one part |
| Text.SplitJoin | webapp/server.py:165 | splitting undoes joining when no part contains the separator |
| Text.NatToString | webapp/src/BoardState.js:94 | the decimal form of a natural number is digits only, without leading zeros, and reads back as the number |
| Text.NatToStringInjective | webapp/src/BoardState.js:94 | distinct numbers print differently |
| Text.IntToString | webapp/src/BoardState.js:102 | an integer's decimal form is non-empty and has no space in it |
| Text.StripLeft | webapp/server.py:99 | leading white space is removed and nothing else |
| Text.StripRight | webapp/server.py:99 | trailing white space is removed and nothing else |
| Text.DropUnderscores | webapp/server.py:174 | removing the digit-group underscores leaves digits, and a string of digits unchanged |
| Text.PyInt | webapp/server.py:174 | int() accepts only a string that is not blank after stripping |
| Text.PyIntOfIntToString | webapp/server.py:174 | int() reads back every integer's decimal form |
| Text.StripKeeps | webapp/server.py:174 | a string without surrounding white space is its own strip |
| Text.NatDigitsParse | webapp/server.py:174 | a natural number's digits are one digit group with nothing to drop |
| Text.Upper | webapp/src/State.js:42 | upper-casing maps each character and keeps the length |
| Text.Lower | webapp/server.py:73 | lower-casing maps each character and keeps the length |
| Text.UpperIdempotent | webapp/src/State.js:42 | an upper-cased string has no lower-case letter left |
| Text.IndexOf | webapp/src/BoardState.js:113 | the first position of a character, or the length when it does not occur |
| Text.ReplaceFirst | webapp/src/BoardState.js:113-115 | replace with a one-character pattern changes only the first occurrence and keeps the length |
| JsValue.Get | webapp/src/State.js:52-84 | reading a property gives its value, or undefined when it is absent |
| JsValue.ToStr | webapp/src/BoardState.js:94-115 | string conversion prints numbers in decimal and keeps strings |
| JsValue.PlusOne | webapp/src/BoardState.js:37 | adding one increments a number and makes NaN of undefined |
| JsValue.IndexKeys | webapp/src/BoardState.js:55 | an array's own properties are exactly its indices, printed in decimal, with its elements |
| JsValue.SpreadObject | webapp/src/BoardState.js:27 | object spread copies an object's own fields and nothing from undefined or null |
| JsValue.SpreadArray | webapp/src/BoardState.js:58 | array spread gives an array's items or a string's characters and throws for every other value |
| JsValue.Index | webapp/src/State.js:57-63 | indexing throws exactly on undefined and null, answers an array's in-range indices and an object's fields |
| WebServer.Dispatch | webapp/server.py:165-200 | nothing is done with a command while the bot is not ready |
| WebServer.SplitFirst | webapp/server.py:165 | a first token without a space is split off unchanged |
| WebServer.SplitTwo | webapp/server.py:165 | two tokens without spaces are split off unchanged |
| WebServer.CommandVerbs | webapp/server.py:173-181 | the five command words are recognised as such |
| WebServer.EngineIntOfIntToString | webapp/server.py:174-180 | a number in the engine's 32-bit range, printed, reads back as itself |
| WebServer.DispatchSplit | webapp/server.py:165-200 | handling a command is handling its space-separated tokens |
| WebServer.DispatchOneArgument | webapp/server.py:173-176 | DISCARD or PLACE with one readable argument performs that move with no target |
| WebServer.DispatchTwoArguments | webapp/server.py:177-180 | HINT_COLOR or HINT_VALUE with two readable arguments performs the hint, except that a target of -1 fails the move constructor |
| WebServer.CardCommandParses | webapp/server.py:173-176 | a place or discard command for an index in range gives back its move |
| WebServer.HintCommandParses | webapp/server.py:177-180 | a hint command with a real target gives back its move |
| WebServer.HintWithoutTargetCrashes | webapp/server.py:177-180 | a hint whose target is -1 ends the loop |
| WebServer.MissingArgumentCrashes | webapp/server.py:173-185 | a command word without its arguments raises IndexError, which ends the loop |
| WebServer.ReplaySent | webapp/src/BoardState.js:111-117 | the replay command carries the seed's digits, or "-" for a falsy seed, then the bot name with its first space made a dash |
| WebServer.ReplayTokens | webapp/server.py:181-188 | the replay command's second token is the seed the server reads, or "-" |
| WebServer.DispatchInvertsCommands | webapp/server.py:165-200 | the server's handling inverts the browser's command builders: each button's command gives back the move it stands for, and replay the seed |
| WebServer.ReplaySeedZeroIsRandom | webapp/src/BoardState.js:111-117 | replaying seed 0 asks for a random seed, because 0 is falsy in the browser |
| WebServer.PlayerName | webapp/server.py:58-59 | "You" exactly for the human player |
| WebServer.PlayerPossession | webapp/server.py:61-62 | "your" exactly for the human player |
| WebServer.CardIndexName | webapp/server.py:64-70 | the positions 0 to 4 have names and every other index raises KeyError |
| WebServer.CardIndexNamesDistinct | webapp/server.py:64-70 | the five positions have five different names |
| WebServer.ColorEnumName | webapp/server.py:73 | a colour value outside 0 to 4 has no name |
| WebServer.FormatMove | webapp/server.py:56-81 | formatting fails exactly for a play or discard whose position has no name |
| WebServer.FormatMoveNamesMover | webapp/server.py:72-79 | a described move starts with "You" exactly when the human player made it |
| WebServer.FormatMoveNamesTarget | webapp/server.py:72-75 | a described hint ends with "you" exactly when it was given to the human player |
| WebServer.FormatMovePositions | webapp/server.py:76-79 | a play or discard is described by its position's name followed by "card" |
| WebServer.CyclingIsPeriodic | webapp/server.py:32-43 | with cycling on, the bot chosen repeats with the length of the sequence |
| WebServer.CyclingVisitsEveryBot | webapp/server.py:32-43 | any run of games as long as the sequence uses every bot of it |
| WebServer.GameCycler.constructor | webapp/server.py:19-30 | cycling is on exactly when $CYCLE_BOTS is set; the bot and name sequences are its comma-separated parts; the counter starts at zero |
| WebServer.GameCycler.NextGameInfo | webapp/server.py:32-43 | next_game_info picks $BOT, or the sequence entry at the counter when cycling, sets the search threshold from the cycle when there are thresholds, and advances the counter |
| WebServer.LabelNamesChosenBot | webapp/server.py:148 | the label shown is the name of the bot next_game_info chose for the current game |
| BoardState.Without | webapp/src/BoardState.js:46-52 | the rest pattern keeps every key but the named ones, with their values |
| BoardState.Merge | webapp/src/BoardState.js:53-56 | spreading b after a keeps every key of both, b's value winning |
| BoardState.KindOf | webapp/src/BoardState.js:21-82 | an action type falls to the default case exactly when no case names it |
| BoardState.Reduce | webapp/src/BoardState.js:21-83 | PLAY_AGAIN gives the initial state, START and unknown types keep the state |
| BoardState.KindsOfLiterals | webapp/src/BoardState.js:22-79 | each case label selects its own case |
| BoardState.ReduceIgnores | webapp/src/BoardState.js:30-31 | START and unknown action types leave the state unchanged |
| BoardState.ReduceActionSent | webapp/src/BoardState.js:25-29 | ACTION_SENT clears isPlayerTurn and changes nothing else |
| BoardState.ReduceInit | webapp/src/BoardState.js:33-39 | INIT replaces the state with exactly an empty history, no notes, the next game id and the payload's colours |
| BoardState.ReduceInitNeedsPayload | webapp/src/BoardState.js:38 | INIT without a payload throws |
| BoardState.ReduceServerError | webapp/src/BoardState.js:40-44 | SERVER_ERROR replaces the state with connected false and the message, the default text when the message is falsy |
| BoardState.ReduceUpdate | webapp/src/BoardState.js:45-66 | UPDATE merges every payload field but the four hint fields, sets isConnected, and appends exactly one history entry made from the hint fields |
| BoardState.ReduceDispatchesUpdate | webapp/src/BoardState.js:45 | an UPDATE action reaches the UPDATE case |
| BoardState.ReduceUpdateUnfolds | webapp/src/BoardState.js:45-66 | the UPDATE result is the state, then the payload without hint fields, then the two fixed fields |
| BoardState.UpdateMerge | webapp/src/BoardState.js:53-66 | the object UPDATE builds has the state's and payload's keys, the fixed fields, and the payload's values over the state's |
| BoardState.UpdateAfterServerErrorThrows | webapp/src/BoardState.js:40-71 | after SERVER_ERROR there is no history, so a following UPDATE or MOVE throws |
| BoardState.ReduceMove | webapp/src/BoardState.js:67-71 | MOVE appends exactly its payload to the history and changes nothing else |
| BoardState.ReduceUpdateNote | webapp/src/BoardState.js:72-79 | UPDATE_NOTE changes only the note of its card |
| BoardState.AddedLength | webapp/src/BoardState.js:45-71 | UPDATE and MOVE add one history entry and the other actions none |
| BoardState.HistoryStep | webapp/src/BoardState.js:21-83 | one action that keeps the history appends its entry to it |
| BoardState.HistoryOnlyGrows | webapp/src/BoardState.js:21-83 | within a game the history only grows: the old entries stay a prefix and each UPDATE or MOVE appends one entry in order |
| BoardState.Dispatched | webapp/src/BoardState.js:91-118 | every action but playAgain dispatches one reducer action, and the move buttons dispatch ACTION_SENT |
| BoardState.Sent | webapp/src/BoardState.js:91-118 | every action but updateNote sends a message on the socket |
| BoardState.Route | webapp/src/BoardState.js:150-159 | a message whose type is INIT is dispatched directly as INIT, every other one as a throttled UPDATE, with the message as payload |
| StateView.ConvertCard | webapp/src/State.js:40-47 | convertCard upper-cases a code and swaps its two characters, and gives undefined for a non-string |
| StateView.ConvertCardTwice | webapp/src/State.js:40-47 | converting a two-character upper-case code twice gives it back |
| StateView.ConvertCardOfCard | webapp/src/State.js:40-47 | the engine's card name becomes the colour initial then the value, and distinct cards stay distinct |
| StateView.ConvertCards | webapp/src/State.js:53 | map(convertCard) succeeds exactly on arrays and converts each element |
| StateView.SelfEntries | webapp/src/State.js:55-59 | the own hand's first n entries |
| StateView.PartnerEntries | webapp/src/State.js:60-64 | the partner hand's first n entries |
| StateView.MapSet | webapp/src/State.js:67-71 | setting a Map key overwrites an entry or appends a new one |
| StateView.PilePairs | webapp/src/State.js:68-70 | the first n colour and pile pairs |
| StateView.ConvertDisconnected | webapp/src/State.js:50 | a state that is not connected converts to the empty object |
| StateView.ConvertCounters | webapp/src/State.js:74-84 | the counters and logs copy the engine's mulligans, hint stones, cards left and histories |
| StateView.SelfEntriesAt | webapp/src/State.js:55-59 | own-hand entry idx takes index idx of the card ids, the cheat cards and the player's predictions |
| StateView.PartnerEntriesAt | webapp/src/State.js:60-64 | partner entry idx takes card idx and index idx of the ids and predictions |
| StateView.ConvertHands | webapp/src/State.js:54-65 | the own hand always has five entries and the partner's one per card, under the key "player" plus the partner id |
| StateView.MapSetFresh | webapp/src/State.js:67-71 | setting a key no entry has appends the pair |
| StateView.NewMapDistinct | webapp/src/State.js:67-71 | a Map built from pairs with distinct keys holds them in order |
| StateView.FromEntriesHas | webapp/src/State.js:66 | fromEntries maps each distinct key's string form to its value |
| StateView.FromEntriesOnly | webapp/src/State.js:66 | fromEntries has no key but the pairs' keys |
| StateView.PilePairsAt | webapp/src/State.js:68-70 | pile pair idx is the colour and the pile at idx |
| StateView.ConvertPlaced | webapp/src/State.js:66-72 | with five distinct colour names, placed maps colour i to pile i and has no other keys |
| StateView.PlacedOfPairs | webapp/src/State.js:66-72 | the object built from the five pile pairs with distinct colour names |
| StateView.PlacedFromPairs | webapp/src/State.js:66-72 | placed is built from the five pile pairs |
| StateView.ConvertSucceeds | webapp/src/State.js:49-86 | a well-shaped state always converts, to the empty object exactly when it is not connected |
| WebUtils.CallsOf | webapp/src/utils.js:58-64 | a run of calls only |
| WebUtils.ThrottleIdleCallRunsNow | webapp/src/utils.js:58-64 | a call while idle runs func at once and starts waiting |
| WebUtils.ThrottleExpireStep | webapp/src/utils.js:50-56 | a timer expiry runs the oldest queued call, or stops waiting when the queue is empty |
| WebUtils.ThrottleKeepsEveryCall | webapp/src/utils.js:40-65 | throttle never drops or reorders a call: what func received followed by the queue is every call made |
| WebUtils.ThrottleCallKeeps | webapp/src/utils.js:58-64 | a call adds its argument behind everything received or queued |
| WebUtils.ThrottleExpireKeeps | webapp/src/utils.js:50-56 | an expiry loses nothing |
| WebUtils.ThrottleDrains | webapp/src/utils.js:50-56 | expiries with no further calls release the queue one call each, then stop waiting |
| WebUtils.RunAppend | webapp/src/utils.js:40-65 | running two event runs in turn is running them together |
| WebUtils.Throttle.constructor | webapp/src/utils.js:41-42 | starts idle with an empty queue |
| WebUtils.Throttle.ExecuteFunc | webapp/src/utils.js:44-48 | executeFunc sets waiting, calls func and starts one timer |
| WebUtils.Throttle.Call | webapp/src/utils.js:58-64 | the returned function follows the throttle's call step |
| WebUtils.Throttle.Play | webapp/src/utils.js:50-56 | play follows the throttle's expiry step |
| WebUtils.DropDiscardsWithinWindow | webapp/src/utils.js:27-38 | every call inside the window is discarded |
| WebUtils.DropBurstRunsFirst | webapp/src/utils.js:27-38 | a burst of calls from idle runs only its first call |
| WebUtils.DropAtMostOnePerWindow | webapp/src/utils.js:27-38 | func runs at most once per window |
| WebUtils.DropRunAppend | webapp/src/utils.js:27-38 | running two event runs in turn is running them together |
| WebUtils.DropThrottle.constructor | webapp/src/utils.js:28 | starts outside any window |
| WebUtils.DropThrottle.Call | webapp/src/utils.js:29-37 | the returned function follows the drop step |
| WebUtils.DropThrottle.Reset | webapp/src/utils.js:35 | the timer callback reopens the window |
| WebUtils.DebounceBurst | webapp/src/utils.js:7-25 | during a burst the pending timeout carries the last arguments and func runs only for the first call in immediate mode |
| WebUtils.DebounceTrailing | webapp/src/utils.js:7-25 | in trailing mode a burst then quiet time calls func once with the last arguments |
| WebUtils.DebounceImmediate | webapp/src/utils.js:7-25 | in immediate mode a burst from idle then quiet time calls func once with the first arguments |
| WebUtils.Debounce.constructor | webapp/src/utils.js:7-8 | starts with no pending timeout |
| WebUtils.Debounce.Call | webapp/src/utils.js:10-24 | executedFunction follows the debounce call step |
| WebUtils.Debounce.Later | webapp/src/utils.js:14-17 | later follows the debounce expiry step |

## Left out

Contracts that differ from the source, member by member:

- SmartKnowledge.ComputeIdentity: on a confused table (no possible card left) the source asserts that the bot is permissive (csrc/SmartBot.cc:256, 260); the model always gives the permissive answer, -1, and keeps no permissive flag.
- SmartKnowledge.ComputePossibilities: the same for csrc/SmartBot.cc:277; a confused table gives 10 without the assert.
- SmartKnowledge.ComputeTri: the same for the playable, valuable and worthless answers (csrc/SmartBot.cc:298, 320, 342); a confused table gives MAYBE without the assert.
- SmartKnowledge.Update: the assert that played plus held copies never exceed the total unless permissive (csrc/SmartBot.cc:367) is not modelled.
- SmartKnowledge: the cached fields of `CardKnowledge` (possibilities, colour, value, the playable/valuable/worthless trivalues and their probabilities) are recomputed from the `cantBe_` table on every query rather than cached; the source's setMustBe writes colour and value directly (csrc/SmartBot.cc:111-154), the trivalues are sticky once set (csrc/SmartBot.cc:182-241), valuable survives befuddleByPlay (csrc/SmartBot.cc:98-109) and known() reads the cache (csrc/SmartBot.h:46), so on stale or confused knowledge the source's answers can differ from the model's.
- HolmesKnowledge.Update: the asserts on played plus held copies (csrc/HolmesBot.cc:134) and on a worthless card only in permissive mode (csrc/HolmesBot.cc:166) are not modelled.
- HolmesBot.HolmesBotImpl.ObserveBeforePlay: the asserts that the played card is not known worthless and is still valuable unless permissive (csrc/HolmesBot.cc:331, 334) are not modelled.
- HolmesBot.HolmesBotImpl.ObserveBeforeMove: the assert that every knowledge vector is at least as long as the hand (csrc/HolmesBot.cc:296) is not modelled; a shorter vector is grown with fresh knowledge.
- JointSearchBot.JointSearchBotImpl.ObserveDraw: the intermediate checkBeliefs_ calls that throw on an empty belief set (csrc/JointSearchBot.cc:73-104) are not modelled.
- JointSearchBot.JointSearchBotImpl.ObserveHint: the same for csrc/JointSearchBot.cc:108-133 and csrc/JointSearchBot.cc:229-236.
- InfoView.IsHigherThanHighestAttainable: the asserts of csrc/InfoBot.cc:208-209 are preconditions.
- InfoView.IsDead: reaches that scan only under the same asserts, stated as a precondition.
- InfoBot.InfoBotImpl.UpdatePublicInfoForDiscardOrPlay: the assert that the card is still possible unless permissive is a precondition.
- SimpleBot.SimpleBotImpl.ObserveColorHint: the assert `1 <= value <= 5` of csrc/SimpleBot.cc:110 and the asserts of setMustBe (csrc/SimpleBot.cc:48, 56) are preconditions.
- SimpleBot.ValueOf: returns -1 where csrc/SimpleBot.cc:42 asserts; the hand invariant guarantees that the value is known wherever it is asked for.
- HanabiServer.Server.PleasePlay: `mulligansRemaining > 0` stands for the assert inside loseMulligan_ (csrc/HanabiServer.cc:658).
- ModulusInfo.ModulusInformation.Split: requires `1 <= m <= modulus` even when permissive.
- Text.Upper: case folding covers ASCII letters only.
- Text.Lower: case folding covers ASCII letters only.
- Bot labels in webapp/server.py: `chr(65 + i)` is modelled for code points below the surrogate range only.
- SearchBot.Populate: hand weights are exact reals, not single-precision floats.
- InfoBot.FindUselessCards: whether a card is dead is an input (it comes from the probability tables).
- HleUtils.SerializedMove.constructor: the belief section (encodeBelief, csrc/HleUtils.h:323-353) is an input of the right length; only its length is modelled.

Operations not modelled:

- Bot callbacks: the server's calls into bots and the observer notifications (pleaseObserve*) are abstract; the active bot is a function from the view to a move.
- Randomness: `std::mt19937` is replaced by an input sequence of swap indices for `portable_shuffle`; seeds are not modelled.
- Logging and output: `log_`, `std::cerr`, `now()`, stats printing.
- Floating point: `UCBStats`, `canPruneMove`, `pdfToCdf`, `sampleFromCDF_`, InfoBot's `weighted_score`, `probability_*` and hint goodness, SmartBot's probability fields, `FactorizedBeliefs::get` normalisation.
- InfoBot `color_determined`/`value_determined` (csrc/InfoBot.cc:417-444), which return false on every path.
- HolmesBot pleaseObserveValueHint (csrc/HolmesBot.cc:390-440), the maybe* moves, pleaseMakeMove and Hint::give.
- SmartBot observers, maybe* moves and pleaseMakeMove beyond the knowledge and counting helpers.
- SearchBot doSearch_, oneSearchIter_, applyDelayedObservations, filterBeliefsConsistentWithAction_ and the simulation of sub-bots: parallel rollouts.
- JointSearchBot init_, updateFrames_, applyToAll, constructPrivateBeliefs_, and the simulated server and partner distribution held in a belief frame.
- SimulServer::applyToAll: parallel coordination.
- webapp/server.py: the websocket loop, file preloading, the state JSON, bot.wait, start_game/end_game, catching the engine's RuntimeError, next_game_info on REPLAY, and parsing `$CYCLE_THRESH` as floats (the thresholds are an input).
- webapp/src: tryConnect and the websocket handlers; JSON numbers are integers, whitespace is ASCII, and object properties are unordered.
- csrc/TorchBot.cc, csrc/PyBot.h, csrc/extension.cc, csrc/ThreadPool.h, csrc/Batcher.h, csrc/AsyncModelWrapper.h, the UI components, scripts and tests are not part of this model.

## Findings

| source | as written | input that shows it | evidently intended | confidence | as-written member | corrected member |
|---|---|---|---|---|---|---|
| csrc/HanabiServer.cc:434 | the index guard of pleaseDiscard (and of pleasePlay at :482) is `0 <= index && index <= size()` | index equal to the hand size: the guard passes and the hand is read one past its end | `index < size()` | not executed | HanabiServer.PlayGuardAsWritten, HanabiServer.AsWrittenGuardAdmitsMissingCard | HanabiServer.PlayGuard |
