# bankrupt: the game engine's rules, in Dafny

This project models the rule logic of the game engine of *bankrupt*, a
Monopoly-style board game in which automated and human players buy cells and
pay rent until one is left or a round limit is reached. The engine lives in
`Assets/GameManager.cs`. The model covers five parts of it:

- **Playing order.** `decideOrdemDePlayers` draws players one at a time from a
  pool. `selecionaMelhorPlayersNoDado` draws each one: every candidate rolls the
  die once, and the pass is repeated over the "best" list until that list holds
  exactly one player (`TurnOrder.dfy`, with the imperative version in
  `GameEngine.GameManager.SelectBest` and `DecideOrder`).
- **Round loop and stop rule.** `ExecutaJogoAteOFim` calls a hook and plays a
  turn while `deveEncerrarJogo` is false. `ExecutaJogada` counts the turn in
  `rodada` (`round` in the model; the limit `numeroMaximoRodadas` is `maxRounds`).
- **End of a turn.** `NotificaFimJogada` eliminates the current player if their
  balance is negative. Elimination releases the player's cells, then removes the
  player from the rotation. The turn then passes on, and the next turn starts.
- **Winner.** `GetVencedor` sorts the survivors by balance. When the two
  richest are level, it passes the live turn pointer on until the pointer
  reaches one of them.
- **Board file.** `obtemCasasTabuleiroDoArquivo` splits every line but the last
  at spaces and reads a price and a rent from each (`BoardFile.dfy`).

The engine's collaborators are represented by the state the engine relies on:

- the die by the rolls it will still produce (`dice`);
- the bank by a balance per player (`balances`);
- the board by the owner of each cell (`owners`);
- the manager of the current players by the playing order of those still in
  the game (`rotation`) and the position of the player whose turn it is
  (`current`).

In `GameManager.cs` the comparison value `maiorNumero` starts at 0 and is never
raised. So in a pass, a roll above 0 restarts the best list with the roller,
a roll of exactly 0 joins the list, and a negative roll is ignored. A running
maximum may have been meant, but the model follows the code as written and
proves what follows from it:

- with rolls that are all above 0, the last candidate always wins a pass;
- the playing order is then the roster reversed (`TurnOrder.OrderAllPositiveIsReverse`).

A pass where every roll is negative leaves the best list empty, and the source
then recurses forever. The model reports this as `Stalled`. Running out of
supplied rolls is reported as `OutOfRolls`.

The manager of the current players (`PlayersAtuaisManager`) is not part of
this model. It is assumed to behave as follows:

- `new PlayersAtuaisManager(order)` starts with the turn at the head of the
  order;
- `restaSomenteUm` holds when the rotation has one player;
- `PassaAVezParaProximo` moves to the next position, wrapping to the front;
- `EliminaPlayer` removes the player and, when it was that player's turn,
  leaves the pointer on the player who followed them.

`NotificaFimJogada` passes the turn right after such an elimination. So when
at least three players were in the rotation, the turn lands on the *second*
player after the eliminated one. `EndTurn` states this.

## Model

| member | source | states |
|---|---|---|
| TurnOrder.Consider | Assets/GameManager.cs:158-163 | one roll compared with 0: the list gains only the roller; a roll of 0 or more puts the roller last, a roll above 0 leaves the roller alone, a negative roll changes nothing |
| TurnOrder.Tied | Assets/GameManager.cs:154-164 | the best list of a pass holds only candidates of that pass, and no more players than the pass had; when nobody rolls above 0, it is exactly the candidates who rolled 0, in pass order |
| TurnOrder.TiedEmptyIffAllNegative | Assets/GameManager.cs:155-164 | since the comparison value stays 0, a pass ends with an empty best list exactly when every roll of the pass was negative |
| TurnOrder.TiedAfterPositive | Assets/GameManager.cs:158-163 | the best list is the last candidate who rolls above 0, followed by the later candidates who rolled exactly 0, in pass order |
| TurnOrder.TiedAllZero | Assets/GameManager.cs:158-159 | a pass in which every candidate rolls 0 keeps the whole list, in order |
| TurnOrder.Select | Assets/GameManager.cs:153-171 | a drawn player is always one of the candidates, and a drawing never uses more rolls than were supplied |
| TurnOrder.SelectAllPositive | Assets/GameManager.cs:155-169 | when every roll of the pass is above 0, the last candidate is drawn without another pass, and exactly one roll per candidate is used |
| TurnOrder.SelectAllNegative | Assets/GameManager.cs:166-167 | when every roll of the pass is negative, the drawing recurses on an empty list and never ends |
| TurnOrder.SelectAllZero | Assets/GameManager.cs:155-167 | when every roll is 0, two or more candidates are passed over again and again with the same list until the rolls run out, and no player is drawn |
| TurnOrder.OrderFrom | Assets/GameManager.cs:132-136 | a completed order loop keeps the players already placed as its prefix, places every player of the pool, and never uses more rolls than were supplied |
| TurnOrder.Order | Assets/GameManager.cs:129-138 | a completed playing order has one entry per player of the roster, and never uses more rolls than were supplied |
| TurnOrder.OrderFromPermutes | Assets/GameManager.cs:132-136 | each step of the order loop moves one player from the pool to the order, so a completed loop holds exactly the placed players plus the pool |
| TurnOrder.OrderIsPermutation | Assets/GameManager.cs:129-138 | a completed playing order is a permutation of the roster, and has no duplicates when the roster has none |
| TurnOrder.OrderFromAllPositive | Assets/GameManager.cs:132-136 | with rolls that are all above 0, the pool is appended back to front and Triangle(pool size) rolls are used |
| TurnOrder.OrderAllPositiveIsReverse | Assets/GameManager.cs:129-138 | with rolls that are all above 0, the playing order is the roster reversed |
| Basics.RemoveFirst | Assets/GameManager.cs:134 | `List.Remove` drops one occurrence of a present player (length one less, multiset minus that player) and leaves the list unchanged when the player is absent |
| Basics.RemoveFirstAt | Assets/GameManager.cs:134 | in a list without duplicates, removing a player cuts out exactly that player's position |
| Basics.DistinctPermutation | Assets/GameManager.cs:129-138 | a rearrangement of a duplicate-free list is duplicate-free |
| GameEngine.GameManager.Roll | Assets/GameManager.cs:157 | the die yields the next supplied roll and consumes it, or yields nothing when the rolls are used up |
| GameEngine.GameManager.SelectBest | Assets/GameManager.cs:153-171 | the loop over the candidates and the recursion on the best list yield exactly the drawing `Select` defines, leaving exactly the unused rolls |
| GameEngine.GameManager.DecideOrder | Assets/GameManager.cs:129-138 | the remove-and-append loop yields exactly the order `Order` defines, leaving exactly the unused rolls |
| GameEngine.OrderCoversRoster | Assets/GameManager.cs:54-56 | the drawn rotation has no duplicates, and every player in it has an account opened for the roster |
| GameEngine.GameManager.Start | Assets/GameManager.cs:38-57 | setup sets the turn count to 0, draws the rotation (a permutation of the roster), gives every cell no owner, opens every account with the starting balance and records the round limit; a drawing that does not complete leaves the rest of the state as it was |
| GameEngine.GameManager.ShouldEnd | Assets/GameManager.cs:99-101 | the game stops when one player is left or the round limit is reached, and a game that goes on has at least one turn left before the limit |
| GameEngine.GameManager.CurrentPlayer | Assets/GameManager.cs:60-62 | the current player is the rotation's player at the turn pointer, and there is none when the rotation is empty |
| GameEngine.GameManager.PlayTurn | Assets/GameManager.cs:113-118 | a turn raises the turn count by exactly 1 and is played by the current player |
| GameEngine.GameManager.RunToEnd | Assets/GameManager.cs:88-101 | the loop ends with the stop rule holding; the hook runs once per turn and sees turn counts that rise by 1; if the stop rule did not hold at the start, exactly `maxRounds - round` turns are played; the rotation is untouched |
| GameEngine.GameManager.PassTurn | Assets/GameManager.cs:145 | the turn pointer moves to the next position of the rotation, wrapping to the front |
| GameEngine.IndexOf | Assets/GameManager.cs:122 | the first position holding the player, for a player in the list |
| GameEngine.CutKeepsDistinct | Assets/GameManager.cs:122 | removing one position of a duplicate-free rotation keeps it duplicate-free and adds no player |
| GameEngine.GameManager.RemovePlayer | Assets/GameManager.cs:122 | the player leaves the rotation (exactly `List.Remove`); the pointer stays on the same player, or on the player after the removed one when it was the removed player's turn |
| GameEngine.Released | Assets/GameManager.cs:121 | every cell of the player becomes ownerless and every other cell keeps its owner |
| GameEngine.ReleasedProperties | Assets/GameManager.cs:121 | after the release the player owns no cell, other owners are unchanged, and releasing twice is the same as once |
| GameEngine.GameManager.Eliminate | Assets/GameManager.cs:120-123 | the player's cells are released, then the player leaves the rotation |
| GameEngine.PassAfterRemoval | Assets/GameManager.cs:143-145 | passing the turn right after the current player left a rotation of three or more reaches the second player after them in the old rotation |
| GameEngine.GameManager.EndTurn | Assets/GameManager.cs:140-147 | the current player is eliminated exactly when their balance is negative; otherwise the rotation and the board are unchanged and the turn goes to the next player; the turn is passed once and the next turn is counted, without the stop rule being consulted |
| GameEngine.SortByBalance | Assets/GameManager.cs:73 | the survivors end up ranked by balance from the highest down, as a permutation of what was there |
| GameEngine.Sink | Assets/GameManager.cs:73 | one insertion step extends the ranked prefix by one player and permutes the array |
| GameEngine.RankingHeadIsRichest | Assets/GameManager.cs:73-82 | the head of a ranking is a survivor whose balance no survivor exceeds |
| GameEngine.GameManager.PassUntilOneOf | Assets/GameManager.cs:75-79 | the turn is passed at least once and no more than once round the rotation, stopping on the first of the two players reached; no player passed on the way is either of them |
| GameEngine.GameManager.GetWinner | Assets/GameManager.cs:70-83 | there is no winner for an empty rotation; a single survivor wins; otherwise the winner is a survivor with the highest balance: the top of the ranking when the top two balances differ, else whichever of the two the turn pointer reaches first, with the pointer left on them |
| BoardFile.NonEmpty | Assets/GameManager.cs:178 | removing the empty entries keeps every non-empty piece and nothing else |
| BoardFile.NonEmptyAppend | Assets/GameManager.cs:178 | empty entries are removed piece by piece, so the kept pieces stay in their order |
| BoardFile.Tokens | Assets/GameManager.cs:178 | the values of a line are exactly its non-empty pieces between spaces, and none of them contains a space |
| BoardFile.FieldsSplit | Assets/GameManager.cs:178 | a space ends the piece before it: the pieces of a line are those before the space followed by those after it |
| BoardFile.TokensSplit | Assets/GameManager.cs:178 | the values of a line are the values before any space followed by the values after it |
| BoardFile.TokensAcrossSpaces | Assets/GameManager.cs:178 | a run of several spaces separates values exactly as one space does |
| BoardFile.TokensOfWord | Assets/GameManager.cs:178 | a non-empty word without spaces is read as one value |
| BoardFile.TokensOfSpaces | Assets/GameManager.cs:178 | a line of spaces only has no value |
| BoardFile.TokensPadLeft | Assets/GameManager.cs:178 | spaces in front of a line add no value |
| BoardFile.TokensPadRight | Assets/GameManager.cs:178 | spaces at the end of a line add no value |
| BoardFile.Trim | Assets/GameManager.cs:179-180 | the result is the slice of the text left after removing white space, and only white space, from both ends; it neither starts nor ends with white space |
| BoardFile.JoinFields | Assets/GameManager.cs:178 | splitting a line at spaces loses nothing: joining the pieces with spaces gives the line back |
| BoardFile.TokensOfTwoWords | Assets/GameManager.cs:178 | two space-free words separated by one or more spaces, with any spaces before and after, are read back as exactly those two values |
| BoardFile.ParseOfShow | Assets/GameManager.cs:184 | reading a decimal form gives its number, or the out-of-range error outside 32 bits |
| BoardFile.ParseShow | Assets/GameManager.cs:184 | every 32-bit integer is read back from its decimal form |
| BoardFile.ParseInt | Assets/GameManager.cs:184 | `int.Parse` refuses as badly formed exactly the text that is not an optional sign followed by one or more decimal digits; a value it yields is in the 32-bit range, and the value's sign follows the written sign |
| BoardFile.ParseOutOfRange | Assets/GameManager.cs:184 | a decimal value below or above the 32-bit range is refused, not wrapped |
| BoardFile.ShowIsWord | Assets/GameManager.cs:179-180 | a decimal number contains no space and is unchanged by trimming |
| BoardFile.ParseLine | Assets/GameManager.cs:178-184 | an error found on a line reports that line's number; the missing-value error is given exactly when the line has fewer than two values; a value refused as not an integer is not in integer form, and one refused as out of range is |
| BoardFile.ParseLineOk | Assets/GameManager.cs:178-184 | a line is read as a cell exactly when it has at least two values and the first two, trimmed, are 32-bit integers giving the price and the rent |
| BoardFile.ParseLineIgnoresRest | Assets/GameManager.cs:179-180 | values written after the first two do not change how a line is read |
| BoardFile.ParseLineBadPrice | Assets/GameManager.cs:179-184 | a line whose first value, trimmed, is not an optional sign followed by digits is refused as not an integer, with that text |
| BoardFile.ParseLineBadRent | Assets/GameManager.cs:180-184 | after a valid price, a line whose second value, trimmed, is not an optional sign followed by digits is refused as not an integer, with that text |
| BoardFile.ParseLineOfCell | Assets/GameManager.cs:178-184 | a line whose first two values are a price and a rent in decimal describes exactly that cell, whatever follows them |
| BoardFile.ParseLineOfPaddedCell | Assets/GameManager.cs:178-184 | a line holding a price and a rent in decimal, separated by one or more spaces and with any spaces before and after, describes exactly that cell |
| BoardFile.ParseLineNeedsTwoValues | Assets/GameManager.cs:178-180 | a line with fewer than two values is refused |
| BoardFile.ReadBoard | Assets/GameManager.cs:176-187 | the board is read when every line but the last describes a cell, and only then; it then holds one cell per such line, in order, and none when there are no lines; otherwise the error is that of the first line that fails |

## Left out

- Unity plumbing: the singleton in `Awake`, `GameObject.Instantiate` and `Resources.Load`, the cell objects' names, and the colours computed with floating point in `Start`. None of these has behaviour to state.
- Reading the file from disk: `ReadBoard` takes the lines already read. `Start` takes the roster, the cell count, the starting balance and the round limit as parameters; the configuration object and the board file read at the start of `Start` are not modelled there.
- The die's randomness. The die is the finite sequence of rolls it will produce. Running out of rolls (`OutOfRolls`) is a limit of the model, not something the game does.
- The five player strategies made by `PlayerFactory`, and the body of `Player.ExecutarJogada` (moving, paying rent, buying). `NotificaFimJogada` is private and nothing in `GameManager.cs` calls it, so the file does not show how the end of a turn is reached; `EndTurn` models it as an entry point of its own. `PlayTurn` counts the turn and names the player whose turn it is. So `RunToEnd` does not interleave eliminations with its turns.
- The human player's purchase prompt (`ApresentaCompraParaPlayer`) and the suspension of a turn while it waits. The unused listener lists are left out too.
- `Banco`, `TabuleiroManager` and `PlayersAtuaisManager` are not part of this model. Their effect on the engine is the state described above, under the assumed contract for the rotation stated at the top.
- The rotation of an empty game: `CurrentPlayer` and `PlayTurn` report no player where the source would fail on a missing player.
- RunToEnd: the hook of `ExecutaJogoAteOFim` is assumed not to change the engine's state. `rodada` is a public field, so a hook that writes it would change the number of turns played; the model only records the turn count the hook sees each time it runs.
- SortByBalance: `List.Sort` is unstable, so the source fixes no order among players with equal balances. The model uses an insertion sort and promises only a ranking by balance that is a permutation of the survivors. `GetWinner` is stated in terms of the ranking it produced.
- GetWinner: the survivors are assumed to be returned in rotation order as a fresh list. With an empty rotation the source fails on `vencedores[0]`; the model returns no winner.
- ParseInt: reads an optional sign and one or more decimal digits, and refuses values outside 32 bits. It does not model the culture-specific sign symbols `int.Parse` accepts.
- Trim: removes the ASCII white space characters only, not every Unicode white space character.
- ParseLine: where the source throws an exception (an index out of range for a missing value, a format or overflow exception from `int.Parse`), the model returns the matching error value.
