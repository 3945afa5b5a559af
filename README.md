# Fifteen puzzle with a top-five leaderboard

This project models the core of a browser 15-puzzle game in Dafny:

- **The board.** It is 4x4, stored row-major as 16 cells. The value 0 is the empty cell, and the solved board is `[1, 2, …, 15, 0]`.
- **Clicking a tile.** A click slides the tile into the empty cell when the two cells are Manhattan neighbours.
- **The shuffle.** The empty cell takes 1000 random steps from the solved board. If the walk ends on the solved board, one more slide moves the empty cell up.
- **The win check.** This also decides whether a new high score is announced.
- **The timer.** It ticks only while a game is in progress. The display is `MM:SS`.
- **The name form.** The name is trimmed. The score is ranked into the stored leaderboard: append, sort by moves then time, keep the first five.
- **The server endpoint.** It validates a posted score, appends it to the stored list, sorts the list in place and stores the first five.

Modules:

- `Wrappers`: `Option`.
- `Board`: the board, adjacency, slides, paths of the empty cell, and a value-level description of the shuffle. Proved: the shuffle deals a permutation of 0..15 that is not the solved board, is reached by legal slides only, and is solved by walking those slides back.
- `Ranking`: the `Score` record and the comparator. `Array.prototype.sort` is modelled as a stable insertion sort. Proved: it is sorted and a permutation, it is stable, and it is the only stable sort. Also proved: the top-five cut, and that the win-time high-score test agrees with the saved leaderboard.
- `Strings`: ECMAScript `trim`, non-negative `toString`, `padStart`, and the timer display. Proved: they round-trip and the display is injective.
- `Session`: the App component's state as the class `GameSession`, one method per event handler, and the array-based shuffle loop verified against `Board.Shuffled`.
- `LeaderboardApi`: the POST handler, which sorts with an in-place insertion sort over an array verified against `Ranking.SortScores`, and the GET handler's reading of the store.

Inputs from outside the program are parameters:

- `Math.random()` results are a sequence of reals in `[0, 1)`.
- What `localStorage` or the key-value store returned is passed in.
- The timer's ticks are calls of `Tick`.
- What is written to the key-value store is the result `written` of `Post`, which is `None` when `kv.set` is not called.

## Model

| member | source | states |
|---|---|---|
| Board.BoardSizeIsGridSquared | App.tsx:7-8 | the board has GRID_SIZE squared cells |
| Board.SolvedBoard | App.tsx:10 | the solved board has 16 cells, 1..15 in order in the first fifteen and the empty value last |
| Board.BoardHasEmpty | App.tsx:217 | every permutation of the solved board has 16 cells and contains the empty value, so indexOf finds it |
| Board.AdjacentIff | App.tsx:218-221 | Manhattan distance 1 holds exactly for the cell above, below, or beside in the same row: no diagonals, no wrap-around between rows |
| Board.AdjacentSymmetric | App.tsx:221 | adjacency is symmetric |
| Board.Neighbours | App.tsx:100-111 | the candidate moves are 2 to 4 cells, exactly the in-bounds cells adjacent to the empty cell |
| Board.NeighboursAdjacent | App.tsx:103-111 | the four guarded pushes produce exactly the adjacent in-bounds cells |
| Board.IndexOf | App.tsx:217 | indexOf returns -1 exactly when the value is absent, otherwise a position holding it with no earlier occurrence |
| Board.FindIndex | App.tsx:95 | the loop over the array returns what indexOf specifies |
| Board.IndexOfFirst | App.tsx:124 | a position holding v with no earlier v is the one indexOf returns |
| Board.Slide | App.tsx:223-226 | the swap exchanges two cells, leaves every other cell alone and keeps the multiset of tiles |
| Board.SlideTwice | App.tsx:225 | swapping the same two cells again restores the board |
| Board.ValidPathEnd | App.tsx:117 | the empty cell stays inside the board along a legal path |
| Board.ApplyPath | App.tsx:99-118 | sliding along a legal path keeps a 16-cell board |
| Board.ApplyPathKeepsBoard | App.tsx:99-118 | sliding along a legal path keeps a permutation of 0..15, and the empty value is where the path ends |
| Board.ValidPathConcat | App.tsx:99-118 | two legal paths joined end to start make a legal path |
| Board.ApplyPathConcat | App.tsx:99-118 | following two paths in turn is following their concatenation |
| Board.ApplyPathSnoc | App.tsx:116 | the last slide of a path is applied last |
| Board.Back | App.tsx:99-118 | the walk back has one step per step of the path |
| Board.ValidPathPrepend | App.tsx:99-118 | one legal step followed by a legal path is a legal path |
| Board.SingleStep | App.tsx:116-117 | a single adjacent step is a legal path ending at that cell |
| Board.ApplyPathSingle | App.tsx:116 | a one-step path is one swap |
| Board.BackUndoes | App.tsx:93-131 | every path the empty cell follows can be walked back legally, and walking back restores the board and the empty cell's position |
| Board.PickIndex | App.tsx:113 | Math.floor(Math.random() * n) is a valid index into n choices |
| Board.Step | App.tsx:100-113 | each shuffle step moves the empty cell to an in-bounds orthogonal neighbour |
| Board.WalkPath | App.tsx:98-118 | the shuffle loop makes one legal step per draw |
| Board.SolvedEmptyIndex | App.tsx:94-95 | indexOf finds the solved board's empty cell at index 15 |
| Board.SolvedEmptyOnlyLast | App.tsx:124-126 | the solved board has the empty value only in the last cell |
| Board.ShuffledIsBoard | App.tsx:93-131 | the shuffle deals a permutation of 0..15 |
| Board.ShuffledNotSolved | App.tsx:120-128 | the shuffle never deals the solved board |
| Board.RepairIsSlide | App.tsx:123-128 | the repair swap is a legal upward slide of the empty cell |
| Board.ShuffledReachable | App.tsx:93-131 | the dealt board is reached from the solved board by legal slides only, the repair included |
| Board.ShuffledSolvable | App.tsx:93-131 | walking the shuffle's slides back from the dealt board gives the solved board |
| Ranking.LeIsCompare | App.tsx:262-267 | "a may precede b" is exactly comparator(a, b) <= 0 |
| Ranking.CompareIsTotalPreorder | api/leaderboard.ts:63-66 | the comparator orders by moves then time: reflexive, total and transitive, and two scores tie exactly on equal moves and time |
| Ranking.Insert | App.tsx:261-267 | inserting one score grows the list by one and adds exactly that score |
| Ranking.InsertPos | App.tsx:261-267 | the insertion point is within the list |
| Ranking.InsertAt | App.tsx:261-267 | the insertion places x at its insertion point and keeps the rest in order |
| Ranking.InsertPosAfter | App.tsx:262-267 | everything after the insertion point sorts strictly after x, and x goes last exactly when the last entry does not sort after it |
| Ranking.InsertPosSorted | App.tsx:262-267 | in a sorted list everything before the insertion point may precede x |
| Ranking.InsertIndex | App.tsx:261-267 | the entry at each position after inserting x |
| Ranking.InsertSorted | App.tsx:261-267 | inserting into a sorted list keeps it sorted |
| Ranking.SortScores | App.tsx:261-267 | sorting keeps the length and the multiset of scores |
| Ranking.SortSorted | App.tsx:262-267 | the sorted leaderboard is ordered by moves, then time |
| Ranking.SortSortedIsIdentity | api/leaderboard.ts:63-66 | sorting an already sorted list leaves it unchanged |
| Ranking.TiesSingle | App.tsx:262-267 | the tie group of a one-entry list |
| Ranking.TiesConcat | App.tsx:262-267 | tie groups distribute over concatenation |
| Ranking.TiesInsert | App.tsx:262-267 | insertion puts x after the entries it ties with |
| Ranking.TiesSwap | App.tsx:262-267 | scores that do not tie never share a tie group |
| Ranking.SortStable | App.tsx:262-267 | the sort is stable: scores with equal moves and time keep their submission order |
| Ranking.TiesMembers | App.tsx:262-267 | a tie group consists of list entries tying with its key |
| Ranking.TiedBelowLast | App.tsx:262-267 | a score tying with an entry of a sorted list may precede its last entry |
| Ranking.LastEntriesTie | App.tsx:262-267 | two sorted lists with the same tie groups end in tying entries |
| Ranking.SortedTiesDetermine | App.tsx:262-267 | two sorted lists with the same tie groups are equal |
| Ranking.StableSortUnique | api/leaderboard.ts:63-66 | every sorted, stable rearrangement equals the model sort, so the result does not depend on which stable sort the engine uses |
| Ranking.Take | App.tsx:268 | slice(0, n) keeps the first min(n, length) entries |
| Ranking.SortAppend | App.tsx:261-267 | sorting the old list with a new score appended is inserting the score into the sorted old list |
| Ranking.MultisetPrefix | App.tsx:268 | a prefix holds no entries the list does not |
| Ranking.TopScoresSpec | App.tsx:261-268 | the new leaderboard is sorted, holds min(5, old + 1) entries, invents nothing and drops nothing while there was room |
| Ranking.SortedPrefix | App.tsx:268 | a prefix of a sorted list is sorted |
| Ranking.NewcomerAfterTies | App.tsx:261-267 | a new score is ranked after every older score with the same moves and time |
| Ranking.NewcomerDropped | api/leaderboard.ts:60-69 | when the fifth sorted old entry does not sort after the newcomer, the stored five are the old top five |
| Ranking.InsertBeyond | App.tsx:261-268 | inserting past the fifth entry leaves the first five unchanged |
| Ranking.InsertKeepsPrefix | App.tsx:261-268 | entries before the insertion point stay in place |
| Ranking.InsertDropsLast | App.tsx:261-268 | beating the last of five entries removes it and adds x |
| Ranking.QualifiesIffKept | App.tsx:196-199 | on a sorted list of at most five, the high-score test passes exactly when saving would add the score to the leaderboard, and otherwise saving leaves the leaderboard unchanged |
| Ranking.FullNotBeaten | App.tsx:196-199 | a full leaderboard whose last entry is not beaten is kept as it is |
| Ranking.FullBeaten | App.tsx:196-199 | a full leaderboard whose last entry is beaten gains the new score |
| Strings.SkipForward | App.tsx:255 | the first index at or after i that is not white space, with all white space before it |
| Strings.SkipBackward | App.tsx:255 | the start of the trailing white-space run |
| Strings.TrimSplits | App.tsx:255 | trim returns an infix with no white space at either end, surrounded by white space only |
| Strings.SkipForwardStops | App.tsx:255 | the forward scan stops at the first non-white-space character |
| Strings.SkipBackwardStops | App.tsx:255 | the backward scan stops after the last non-white-space character |
| Strings.TrimUnique | App.tsx:260 | white space, then a trimmed string, then white space, trims to that string |
| Strings.TrimBlank | App.tsx:255 | the name is rejected exactly when it is empty or white space only |
| Strings.DigitChar | App.tsx:36-37 | a digit character denotes its digit |
| Strings.NatToDecimal | App.tsx:36-37 | toString of a non-negative integer gives decimal digits with no leading zero that denote the number; one digit below 10, at most two below 100 |
| Strings.PadStart | App.tsx:36-37 | padStart reaches the target length, keeps the string as a suffix and fills the front |
| Strings.LeadingZeros | App.tsx:36-37 | leading zero padding does not change the value |
| Strings.ZerosAreZero | App.tsx:36-37 | a string of zeros denotes 0 |
| Strings.FormatTimeRoundTrip | App.tsx:35-39 | the display is at least two minute digits, ':' and exactly two second digits below 60; it reads back as the seconds; it has five characters exactly below 100 minutes |
| Strings.FieldValue | App.tsx:36-37 | each padded field denotes its number and has two characters exactly below 100 |
| Strings.JoinFields | App.tsx:38 | the template literal splits back into its two fields at the colon |
| Strings.PaddedValue | App.tsx:36-37 | padding with '0' to two characters keeps the number denoted |
| Strings.FormatTimeInjective | App.tsx:35-39 | different times are displayed differently |
| LeaderboardApi.ValidatePayload | api/leaderboard.ts:49-54 | a body is accepted exactly when it is an object whose name is a string and whose moves and time are numbers |
| LeaderboardApi.ScoreToJson | api/leaderboard.ts:49 | a score is sent as a JSON object |
| LeaderboardApi.ValidateOfScore | api/leaderboard.ts:49-54 | every score the client sends is accepted and read back unchanged |
| LeaderboardApi.ValidateIgnoresExtraFields | api/leaderboard.ts:52-54 | extra fields in the body neither block nor change the accepted score |
| LeaderboardApi.SortInPlace | api/leaderboard.ts:63-66 | the in-place sort leaves the array holding the stable sort of its old contents |
| LeaderboardApi.SortStep | api/leaderboard.ts:63-66 | after pass i, the first i + 1 entries are the sorted first i + 1 entries of the input, and the rest are untouched |
| LeaderboardApi.SortDone | api/leaderboard.ts:63-66 | after the last pass the whole array is sorted |
| LeaderboardApi.InsertInPlace | api/leaderboard.ts:63-66 | one pass inserts entry i into the sorted prefix and touches nothing after it |
| LeaderboardApi.InsertedSlice | api/leaderboard.ts:63-66 | the shifted array prefix read as a sequence is Insert of the old prefix |
| LeaderboardApi.Assemble | api/leaderboard.ts:63-66 | a pointwise description of the shifted prefix is the concatenation around x |
| LeaderboardApi.InsertAfterScan | api/leaderboard.ts:63-66 | the scan from the back stops where Insert places x |
| LeaderboardApi.ScanFindsInsertPos | api/leaderboard.ts:63-66 | the stopping index of the scan is the insertion point |
| LeaderboardApi.Post | api/leaderboard.ts:41-74 | status 400 exactly for an invalid body, with nothing stored; otherwise 201, and what is stored is the top five of the old list with the new score |
| LeaderboardApi.Get | api/leaderboard.ts:57 | a missing stored list reads as empty, a stored one as itself |
| LeaderboardApi.PostWrites | api/leaderboard.ts:57-72 | a valid POST stores a sorted list of min(5, old + 1) scores from the old list and the new score, dropping nothing while there was room |
| LeaderboardApi.GetAfterPosts | api/leaderboard.ts:28-31 | after any sequence of valid POSTs, GET reads at most five sorted scores |
| LeaderboardApi.Posted | api/leaderboard.ts:72 | after at least one valid POST the store holds a list |
| LeaderboardApi.FewerMovesLeads | api/leaderboard.ts:63-69 | two POSTs on an empty store: the score with fewer moves is first |
| Session.ShuffleBoard | App.tsx:93-131 | the array-level shuffle produces the board the value-level description gives, a permutation of 0..15 that is not solved |
| Session.RepairIfSolved | App.tsx:120-128 | a solved board gets the upward slide of its empty cell; any other board is left alone |
| Session.WalkEmptyCell | App.tsx:98-118 | the loop's swaps apply the walk the draws pick, and the empty cell ends where the walk does |
| Session.WalkStep | App.tsx:99-117 | one more draw extends the walk by the neighbour it picks and the board by that swap |
| Session.GameSession.constructor | App.tsx:61-77 | the initial state: no board, counters at zero, flags cleared, leaderboard from storage, empty name |
| Session.GameSession.InitialShuffle | App.tsx:144-146 | the first shuffle deals the shuffled board and keeps the state valid |
| Session.GameSession.Reset | App.tsx:133-142 | a fresh unsolved shuffled board, counters at zero, flags cleared, name emptied |
| Session.GameSession.Click | App.tsx:207-230 | a click on a solved game or on the empty cell changes nothing; otherwise the game starts, and an adjacent tile swaps with the empty cell and counts one move |
| Session.GameSession.CheckWin | App.tsx:184-201 | the game is marked solved exactly when a dealt board equals the solved one; solving stops the game and announces a high score exactly when the test passes; a second call changes nothing |
| Session.GameSession.Tick | App.tsx:148-155 | time counts up only while a game is started and unsolved |
| Session.GameSession.EnterName | App.tsx:395 | the name field holds what was typed |
| Session.GameSession.SaveScore | App.tsx:253-278 | a blank name changes nothing; otherwise the trimmed name with the moves and time is ranked into the stored list, the top five are written and shown, and the game resets |

## Left out

- Audio: music, sound effects, volume and the custom music URL are left out. They have no effect on the game's state.
- Rendering and the other components are left out: the board and list views, statistics, and the lottery. They only display state.
- The `userInteracted` flag is left out. It only gates audio.
- The name field's `maxLength={15}` is left out. It is a browser input limit, so `EnterName` accepts any string.
- Timer: `setInterval` and `clearInterval` are not modelled. Each elapsed second is a call of `Tick`.
- React's state: setter batching and effect scheduling are not modelled. Each handler updates the state at once. The effect that calls `checkWinCondition` after each change is left to the caller, who calls `CheckWin` after the handler.
- Randomness: `Math.random` is a parameter. Its distribution is not modelled.
- `getInitialHighScores` is not modelled: reading `localStorage`, `JSON.parse`, its shape check, and `removeItem` on a parse error. The list it returns is a parameter of the constructor and of `SaveScore`.
- Session.GameSession.SaveScore: does not model a failing `localStorage.setItem`. In that case the source still resets the game but keeps the old leaderboard on screen; the model always shows the new one.
- Environment and network parts of the server are left out: the missing `KV_URL` check, the 500 responses from `catch`, the response headers, GET's JSON response, and OPTIONS (CORS).
- LeaderboardApi.ValidatePayload:
  - JSON numbers are modelled as integers, so floating point values, `NaN` and `Infinity` are not modelled.
  - Extra fields are accepted but not stored, because `Score` holds only name, moves and time.
- Ranking.SortScores: models `Array.prototype.sort` as the stable insertion sort. `StableSortUnique` shows that any stable sort gives the same result. Comparator results that are not numbers (`NaN`) are out of scope because numbers are integers here.
- Board.ShuffledSolvable: states solvability as the existence of a legal walk back to the solved board (the reverse of the shuffle's slides). The source has no solvability test of its own.
- The `formatTime` copies inside the display components are not part of this model; `Strings.FormatTime` models the one in App.tsx.
