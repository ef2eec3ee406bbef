# Fitness Quest storage engine and game rules in Dafny

This project models the core of the Fitness Quest back end and proves properties of that model.

The main part is the persistent storage engine of `complete_database.h`. It has four layers:

- **Codec.** The length-prefixed binary codec writes strings and string lists with 8-byte headers. Its readers refuse implausible headers.
- **B-tree.** `CompleteBTree` is an order-3 B-tree. Nodes hold at most five pairs, and a full node is split before the descent enters it.
- **Record layouts.** These are the binary layouts of the seven record types the database stores.
- **Database.** `PersistentFitnessDatabase` keeps four trees and three vectors. Every mutation ends by re-encoding its state into its seven data files.

Next to it are the pure rule sets of the service:

- the gamification rules of `GameEngine.hpp`: login streak, level-up loop, achievements, quests, daily reward and fitness-data rewards;
- the token, validator and header helpers of `utils.hpp`;
- the fixed-window rate limiter of `middleware.hpp`;
- the `.env` reader of `config.hpp`;
- the enum conversions and workout validators of `shared-models.hpp`;
- the ability and reward tables of `services.hpp`.

State is immutable throughout. Each operation is a function from the old state to the new state (or to a `Result` carrying the C++ exception as an error value).

Several inputs become parameters of the model:

- the wall clock: `time(nullptr)` in seconds, and `getCurrentDate` as a day number;
- `rand()`;
- `std::hash` of a password;
- the base64 HMAC signature of a token;
- the `.env` file text and the process environment;
- the contents of the data files, as byte sequences, with `None` for a missing file.

Modules, one per file:

| module | file | models |
|---|---|---|
| Wrappers | wrappers.dfy | `Option`, `Result` and the error values that stand for the C++ exceptions |
| ByteStrings | bytestrings.dfy | bytes, and the lexicographic order of `std::string` keys |
| Text | text.dfy | character classes, lower-casing, searching, decimal rendering and `std::stoi` |
| Codec | codec.dfy | the scalar writes and the string and string-list codec |
| BTree | btree.dfy | `CompleteBTree`, branch for branch, plus the corrected upsert `Put` |
| BTreeProofs | btree_proofs.dfy | the shape, order, search, insert and range proofs, and the counterexamples |
| Records | records.dfy | the seven record types and their field layouts |
| TreeFile | treefile.dfy | `save_to_file`/`load_from_file` and the vector files |
| Store | store.dfy | the database state, `save_all_data` and `load_all_data` |
| Database | database.dfy | the operations of `PersistentFitnessDatabase` |
| GameEngine | game_engine.dfy | the rules of `GameEngine` |
| Utils | utils.dfy | `JWT`, `Validation` and `Request::extractToken` |
| Middleware | middleware.dfy | `RateLimiter` and `Authentication` |
| Config | config.dfy | `Environment` |
| SharedModels | shared_models.dfy | the enum conversions and `Validation::*` |
| Services | services.dfy | the integer parts of `GameService` and `RewardService` |

## Model

| member | source | states |
|---|---|---|
| ByteStrings.LessIsStrictTotalOrder | complete_database.h:130-137 | the key order the tree relies on is irreflexive, transitive and total |
| Codec.LittleEndianRoundTrip | complete_database.h:76-82 | reading back a fixed-width scalar write gives the number written, for every number that fits the width |
| Codec.U64RoundTrip | complete_database.h:76-93 | an 8-byte `size_t` header reads back as the count written, with the rest of the input untouched |
| Codec.ReadU64 | complete_database.h:84-87 | a header read succeeds exactly when 8 bytes remain, and consumes exactly those 8 bytes |
| Codec.I32RoundTrip | complete_database.h:411-435 | a 4-byte `int` field reads back as the value written, negatives included |
| Codec.I64RoundTrip | complete_database.h:455-479 | an 8-byte `time_t` field reads back as the value written |
| Codec.BoolRoundTrip | complete_database.h:497-519 | a one-byte `bool` field reads back as the value written |
| Codec.FloatRoundTrip | complete_database.h:539-559 | the 4-byte `float` block reads back unchanged |
| Codec.WriteString | complete_database.h:76-82 | a string is written as the 8-byte header of its length, then exactly its bytes |
| Codec.StringRoundTrip | complete_database.h:76-93 | `read_string` inverts `write_string` for every string shorter than 1,000,000 bytes and leaves the following bytes unread |
| Codec.LongStringReadsEmpty | complete_database.h:84-93 | a length of 1,000,000 or more reads as the empty string and consumes only the 8-byte header |
| Codec.StringListRoundTrip | complete_database.h:95-114 | `read_vector_string` inverts `write_vector_string` for fewer than 10,000 short strings |
| Codec.LongStringListReadsEmpty | complete_database.h:103-114 | a count of 10,000 or more reads as the empty list and consumes only the header |
| BTree.LowerBound | complete_database.h:130-137 | `find_key_position` is the first position whose key is not below the searched key |
| BTree.UpperBound | complete_database.h:194-198 | the descent index of `insert_non_full` has every key at or after it above the inserted key, and the key before it not above it |
| BTree.SplitChild | complete_database.h:165-186 | a split keeps the first two pairs in the left half and the last two in the new right sibling, moves the median into the parent at the child's position, and splits the children three and three |
| BTree.SplitChildShape | complete_database.h:165-186 | a split leaves the height unchanged and every child one level below the parent |
| BTree.Insert | complete_database.h:240-248 | `insert` grows the height by one exactly when the root was full |
| BTree.Clear | complete_database.h:380-382 | `clear` leaves a valid empty tree of height 1 |
| BTreeProofs.SplitPreserves | complete_database.h:165-186 | splitting a full child of a non-full node keeps node shape (at most five keys per node, keys+1 children for internal nodes, equal leaf depth) and keeps the in-order traversal |
| BTreeProofs.InsertNonFullCorrect | complete_database.h:188-211 | `insert_non_full` of a new key keeps node shape and adds the pair to the traversal at its sorted position |
| BTreeProofs.InsertCorrect | complete_database.h:240-248 | `insert` of a new key keeps the tree well formed and sorted, adds exactly that pair to the traversal, and grows `get_size` by one |
| BTreeProofs.SearchCorrect | complete_database.h:213-238 | `search_node` on a sorted tree finds exactly the value the in-order traversal holds for the key |
| BTreeProofs.SearchTree | complete_database.h:250-261 | `exists` holds exactly for the keys `get_all_keys` lists; `search` returns a stored key's value and throws for every other key |
| BTreeProofs.KeysAscending | complete_database.h:263-282 | `get_all_keys` of a sorted tree is strictly ascending, so it has no duplicates |
| BTreeProofs.InsertAllCorrect | complete_database.h:240-248 | inserting pairwise-distinct new keys one after another adds exactly those keys, grows the size by their number, and makes each of them search to its own value, leaving every other key's search unchanged |
| BTreeProofs.BuildFromEmpty | complete_database.h:188-299 | after inserting pairwise-distinct keys into an empty tree: `get_all_keys` is strictly ascending and is exactly the inserted keys, `get_size` is their number, `exists` holds exactly for them, and `search` returns each key's value and throws for any other key |
| BTreeProofs.RangeQueryCorrect | complete_database.h:301-322 | `range_query(lo, hi)` returns, as a multiset, exactly the values whose key lies between lo and hi inclusive (in node pre-order, not key order) |
| BTreeProofs.LookupInsertKey | complete_database.h:139-147 | after `insert_key` the pair list looks up the key to the new value and every other key as before |
| BTreeProofs.InsertKeySorted | complete_database.h:139-147 | `insert_key` keeps a strictly ascending pair list strictly ascending |
| BTreeProofs.ContentsInsertKey | complete_database.h:139-147 | the key-to-value map of the pair list after `insert_key` is the old map updated at the key |
| BTreeProofs.PutCorrect | complete_database.h:139-147 | the corrected upsert keeps the tree sorted and well formed, maps the key to the new value with every other key unchanged, and grows the size only for a new key |
| BTreeProofs.PutThenSearch | complete_database.h:250-256 | after an upsert, searching the key gives the new value and searching any other key gives what it gave before |
| BTreeProofs.PutAbsentIsInsert | complete_database.h:240-248 | for a key not yet stored, the corrected upsert is the class's own `insert` |
| BTreeProofs.InsertDuplicatesMedian | complete_database.h:200-206 | as written: with a root [10] over a full leaf [1..5] and a leaf [11, 12], inserting key 3 splits the leaf with 3 as median, `key > keys[i]` is false, and the descent stores a second 3 in the left half; the size grows, the order breaks and `search` returns the stale value |
| BTreeProofs.InsertDuplicatesAfterRootSplit | complete_database.h:240-248 | as written: inserting a key held by a full root leaf splits the root, the key moves up, and the descent past it stores a duplicate; the size grows, the order breaks and `search` returns the stale value |
| BTreeProofs.InsertDuplicatesInternalKey | complete_database.h:194-198 | as written: inserting a key stored in an internal node descends past it and stores a duplicate in a leaf, and `search` keeps returning the stale internal copy |
| Records.FieldsRoundTrip | complete_database.h:411-435 | reading a sequence of fields in their declared order inverts writing them, for strings and lists within the codec's bounds |
| Records.ExerciseRoundTrip | complete_database.h:411-435 | `Exercise::deserialize` restores every field `serialize` wrote |
| Records.UserRoundTrip | complete_database.h:455-479 | `User::deserialize` restores every field `serialize` wrote |
| Records.QuestRoundTrip | complete_database.h:497-519 | `Quest::deserialize` restores every field `serialize` wrote |
| Records.WorkoutRoundTrip | complete_database.h:539-559 | `WorkoutSession::deserialize` restores every field `serialize` wrote |
| Records.IndexEntryRoundTrip | complete_database.h:613-628 | a `HashTableEntry` reads back as written |
| Records.EdgeRoundTrip | complete_database.h:630-648 | a `GraphEdge` reads back as written |
| Records.QueueEntryRoundTrip | complete_database.h:650-666 | a `PriorityQueueEntry` reads back as written, the quest with its priority and timestamp |
| TreeFile.PairRoundTrip | complete_database.h:573-611 | reading a (key, record) pair back inverts the pair saver |
| TreeFile.SaveTreeLayout | complete_database.h:324-346 | `save_to_file` writes the key count, then every pair in ascending key order |
| TreeFile.LoadPairsRoundTrip | complete_database.h:348-378 | replaying the saved pairs in ascending order rebuilds the same traversal |
| TreeFile.SaveLoadTree | complete_database.h:324-378 | loading a saved tree into an empty tree gives the same pairs, the same keys, the same size and the same answer to every search |
| TreeFile.LoadTooManyPairs | complete_database.h:358-362 | a stored count above 1,000,000 loads nothing and leaves the tree unchanged |
| TreeFile.LoadTree | complete_database.h:348-378 | a missing file leaves the tree unchanged, a file too short for the header fails, and a successful load yields a sorted, well-formed tree |
| TreeFile.SaveLoadVector | complete_database.h:731-762 | a vector of fewer than 100,000 storable entries reloads element for element |
| TreeFile.LoadTooManyItems | complete_database.h:745-762 | a stored count of 100,000 or more keeps the old vector |
| Store.CodecsInvert | complete_database.h:573-666 | each of the seven record readers inverts its writer on storable records |
| Store.Load | complete_database.h:715-729 | loading keeps every tree sorted and well formed, and a directory with no files loads the empty state |
| Store.SaveLoad | complete_database.h:699-729 | loading the seven files `save_all_data` writes gives back the same content: the same pairs in every tree and the same three vectors |
| Database.Seed | complete_database.h:830-873 | seeding stores the admin user, push-ups, squats and the daily challenge quest (with the corrected upsert), and appends one index entry, one graph edge and one queue entry |
| Database.SeedIsInsert | complete_database.h:830-873 | on a state holding none of the sample ids, seeding stores exactly what the class's `insert` calls store |
| Database.SeedEmptyStats | complete_database.h:830-873 | seeding an empty database gives 2 exercises, 1 user, 0 workouts, 1 quest and one entry in each vector |
| Database.Open | complete_database.h:684-693 | the constructor succeeds exactly when loading does; it keeps the loaded state when it has a user and otherwise is the seeded loaded state, so the opened database always has a user |
| Database.CreateUser | complete_database.h:875-895 | `create_user` fails exactly when the email is already indexed; otherwise the user id searches to the new user (username, email, hashed password, time) stored under `USER_<time>_<rand % 10000>`, every other id searches as before, one index entry is appended, and nothing else changes |
| Database.CreateUserIsInsert | complete_database.h:875-895 | when the new id is not yet stored, the users tree is exactly what the class's `insert` gives |
| Database.CreateUserCorrect | complete_database.h:875-908 | after creating a user with an unindexed email, `get_user_by_email` returns that user, every other user id searches as before, and the index grows by one |
| Database.CreateUserStats | complete_database.h:1019-1032 | creating a user with a fresh id adds one user and one index entry to the statistics and no other count |
| Database.GetUser | complete_database.h:897-899 | `get_user` throws exactly for an id not stored and otherwise returns the stored user |
| Database.GetUserByEmail | complete_database.h:901-908 | an unindexed email throws; an indexed one looks up the user of its first index entry |
| Database.UpdateUser | complete_database.h:910-913 | with the corrected upsert, after `update_user` the user's id searches to the new record, other ids are unchanged, and the count grows only for a new id |
| Database.UpdateUserAsWritten | complete_database.h:910-913 | `update_user` with `insert` as written changes only the users tree, and for an id not yet stored equals the corrected operation |
| Database.UpdateUserKeepsStale | complete_database.h:910-913 | as written: on a users tree whose root holds the id, `update_user` grows the count, breaks the order, and `get_user` still returns the old record, where the corrected operation returns the new one |
| Database.PrerequisiteEdges | complete_database.h:915-923 | an exercise contributes one weight-1 edge from each prerequisite to itself, in prerequisite order |
| Database.AddExercise | complete_database.h:915-923 | `add_exercise` stores the exercise under its id (with the corrected upsert), leaves other exercises alone, and appends exactly its prerequisite edges to the graph |
| Database.AddExerciseIsInsert | complete_database.h:915-923 | for an exercise id not yet stored, the exercises tree is exactly what the class's `insert` gives |
| Database.GetExercise | complete_database.h:925-927 | `get_exercise` throws exactly for an id not stored and otherwise returns the stored exercise |
| Database.AllValuesInOrder | complete_database.h:929-938 | `get_all_exercises` (and `get_all_quests`) lists every stored value once, in ascending key order |
| Database.StartWorkout | complete_database.h:940-947 | `start_workout` stores a new session under `WORKOUT_<time>_<rand % 1000>` (the id of line 534, with the corrected upsert) and leaves other sessions alone |
| Database.StartWorkoutIsInsert | complete_database.h:940-947 | for a session id not yet stored, the workouts tree is exactly what the class's `insert` gives |
| Database.CompleteWorkout | complete_database.h:949-955 | with the corrected upsert, `complete_workout` throws exactly for an unknown id; otherwise it sets that session's end time to now and changes nothing else |
| Database.CompleteWorkoutAsWritten | complete_database.h:949-955 | `complete_workout` with `insert` as written throws exactly for an unknown id and changes only the workouts tree |
| Database.CompleteWorkoutKeepsStale | complete_database.h:949-955 | as written: on a workouts tree whose root holds the id, `complete_workout` grows the count and `get_workout` still shows the old end time, where the corrected operation shows the new one |
| Database.GetWorkout | complete_database.h:957-959 | `get_workout` throws exactly for an id not stored and otherwise returns the stored session |
| Database.InsertByPriority | complete_database.h:961-971 | inserting into a priority-ordered snapshot keeps it non-increasing by priority and adds exactly the new entry |
| Database.SortByPriority | complete_database.h:961-971 | the snapshot sort yields a permutation of its input, non-increasing by priority |
| Database.AddQuest | complete_database.h:961-971 | `add_quest` stores the quest (with the corrected upsert) and leaves the snapshot a permutation of the old entries plus the new one, ordered non-increasing by priority |
| Database.AddQuestIsInsert | complete_database.h:961-971 | for a quest id not yet stored, the quests tree is exactly what the class's `insert` gives |
| Database.GetNextQuest | complete_database.h:973-983 | `get_next_quest` throws exactly on an empty snapshot; otherwise it returns and removes the last entry and leaves every tree unchanged |
| Database.NextQuestIsLowest | complete_database.h:973-983 | on an ordered snapshot the removed entry has the lowest priority and the remainder stays ordered |
| Database.GetQuest | complete_database.h:985-987 | `get_quest` throws exactly for an id not stored and otherwise returns the stored quest |
| Database.ClearAllData | complete_database.h:1050-1073 | `clear_all_data` leaves the counts of a freshly seeded database (2 exercises, 1 user, no workouts, 1 quest, one entry in each vector), and the admin is found by email |
| Database.SeededAdminByEmail | complete_database.h:830-873 | in a freshly seeded database the admin's email finds the admin |
| Database.CreateUserFits | complete_database.h:875-895 | creating a user keeps every file within the loaders' bounds when the new record and counts fit |
| Database.ReopenSameLookups | complete_database.h:684-729 | opening a second database over the saved files answers every email lookup as the first one did |
| Database.TestPersistencePasses | complete_database.h:1034-1048 | `test_persistence` succeeds whenever the test email is not yet registered and the state fits the file bounds |
| Database.TestPersistenceFailsWhenRegistered | complete_database.h:1034-1048 | `test_persistence` fails once the test email has been registered, because `create_user` throws |
| GameEngine.NewPlayer | GameEngine.hpp:34-69 | a new player starts at level 1 with 0 experience, a threshold of 100, 100 gold, 100 energy and no quests |
| GameEngine.DefaultTablesDistinct | GameEngine.hpp:263-273 | the default quest and achievement tables have distinct ids |
| GameEngine.CheckAndUpdateStreak | GameEngine.hpp:276-304 | no last login gives streak 1; the same day changes nothing; the next day adds 1; a longer gap resets to 1; an earlier date keeps the streak; every other case records today |
| GameEngine.DailyLoginsExtendStreak | GameEngine.hpp:276-304 | n consecutive daily logins add n to the streak, and a repeat login the same day changes nothing |
| GameEngine.CheckAchievement | GameEngine.hpp:321-331 | an achievement check only appends ids, never duplicates one, never lowers the gems for non-negative rewards, and changes nothing else |
| GameEngine.CheckAchievementUnlocks | GameEngine.hpp:321-331 | an id is unlocked afterwards exactly when it was before or a matching achievement with that id has its condition met |
| GameEngine.AddedFresh | GameEngine.hpp:321-331 | every id a check appends was not unlocked before and belongs to a qualifying achievement |
| GameEngine.CheckAchievementGems | GameEngine.hpp:321-331 | the gems grow by exactly the rewards of the newly appended achievements |
| GameEngine.CheckAchievementIdempotent | GameEngine.hpp:321-331 | a second identical check changes nothing |
| GameEngine.NothingNew | GameEngine.hpp:321-331 | when every qualifying achievement is already unlocked the player is unchanged |
| GameEngine.Grow | GameEngine.hpp:314 | `int(n * 1.5)` is n + n/2 for non-negative n |
| GameEngine.LevelUp | GameEngine.hpp:306-319 | with a positive threshold the loop ends below the threshold; for the k levels gained the four stats grow by 2k/3k/k/k, the gold by 50 times the sum of the new levels and (for non-negative achievement rewards) the gems by at least that sum, the experience drops by the k successive thresholds, and the threshold is grown by half k times |
| GameEngine.LevelUpGuards | GameEngine.hpp:306-319 | every iteration the loop took was entered with the experience at or above the running threshold |
| GameEngine.LevelUpDivergesWithoutThreshold | GameEngine.hpp:306-319 | with a threshold of 0 or less (level 0 sets it to 0 at line 406) the loop guard stays true after any number of iterations, so the loop never ends |
| GameEngine.CheckQuests | GameEngine.hpp:333-386 | each awarded quest adds exactly its experience, gold, gems and items and appends its id, and nothing else changes |
| GameEngine.CheckQuestsAwards | GameEngine.hpp:333-386 | only eligible quests whose target is met are awarded, so a non-repeatable quest already completed is never awarded again |
| GameEngine.FindQuest | GameEngine.hpp:569-577 | the quest lookup returns a quest with that id, or reports that none has it |
| GameEngine.CompleteQuest | GameEngine.hpp:566-616 | an unknown player or quest fails, and so does a completed non-repeatable quest, with no change; otherwise the quest's gold, items and id are added, its experience is added and the k levels gained pay the k successive thresholds, the stats and threshold grow as for k levels, the gems grow by at least the quest's gems plus the new levels (for non-negative achievement rewards), and no other player changes |
| GameEngine.CompleteOneOffTwice | GameEngine.hpp:566-616 | completing the same non-repeatable quest a second time fails |
| GameEngine.ClaimDailyReward | GameEngine.hpp:640-676 | the claim fails exactly when the last login is today; otherwise it adds 50 + 10 x streak gold and 1 gem and records today |
| GameEngine.ClaimTwiceSameDay | GameEngine.hpp:640-676 | a second claim on the same day fails |
| GameEngine.Quot | GameEngine.hpp:461-462 | the division rounds toward zero, as C++ `int` division does |
| GameEngine.EarnedExpTwiceGold | GameEngine.hpp:461-462 | the experience earned is twice the gold earned, within the two rounding steps |
| GameEngine.Credited | GameEngine.hpp:453-465 | the totals grow by the batch; a workout counts only when its duration is positive; the experience and gold grow by the earned amounts |
| GameEngine.UpdateFromFitnessData | GameEngine.hpp:438-496 | the reported experience is steps/100 + calories/10 + 2 x duration and the gold is steps/200 + calories/20 + duration; the streak is untouched; only eligible quests are completed; a level-up is reported only when a quest paid experience |
| Utils.GenerateToken | utils.hpp:30-64 | a token starts with `userId:` and ends with the signature |
| Utils.VerifyToken | utils.hpp:67-107 | with the payload the text before the first '.': it fails for no '.', for no ':' in the payload, for an expiry after the first ':' that does not parse, and for a now past the expiry, each exactly in its case; it succeeds exactly when now is at most the expiry and then returns the payload's text before its first ':' |
| Utils.TokenRoundTrip | utils.hpp:30-107 | a generated token verifies to its user id until its expiry and fails as expired after it, whatever the signature |
| Utils.SignatureIgnored | utils.hpp:67-107 | verification never looks at the signature |
| Utils.ValidateEmail | utils.hpp:115-120 | true exactly for a non-empty local part, '@', a non-empty domain, '.', and a top-level part of two or more letters |
| Utils.ValidateUsername | utils.hpp:122-128 | true exactly for 3 to 20 characters, each a letter, digit or '_' |
| Utils.ValidatePassword | utils.hpp:130-132 | true exactly for six or more bytes |
| Utils.ExtractToken | utils.hpp:173-187 | with header names matched in any letter case: a missing Authorization header fails, a header without the `Bearer ` prefix fails, and otherwise the result is the text after the prefix |
| Utils.HeaderIgnoresCase | utils.hpp:173-187 | header names that differ only in letter case find the same header |
| Utils.LowerCaseAuthorization | utils.hpp:173-187 | a header named `authorization` in lower case carrying `Bearer <token>` yields the token |
| Utils.BearerRoundTrip | utils.hpp:173-187 | a `Bearer <token>` header yields the token |
| Middleware.NewLimiter | middleware.hpp:158-159 | a new limiter allows 100 requests per 60 seconds and has no entries |
| Middleware.CheckLimit | middleware.hpp:161-184 | an unseen client, or one whose window has passed, is admitted and recorded as {now, 1}; within a window the request is admitted and counted exactly when the count is below the maximum; a refusal changes nothing; other clients are unchanged |
| Middleware.CleanupExpired | middleware.hpp:187-198 | cleanup removes exactly the entries whose window has passed and leaves the others unchanged |
| Middleware.WindowBound | middleware.hpp:178-184 | within one window the limiter admits exactly as many requests as remain under the maximum |
| Middleware.FreshWindowBound | middleware.hpp:161-184 | a window opened by a reset admits at most the maximum number of requests in total |
| Middleware.GetClientId | middleware.hpp:200-209 | with header names matched in any letter case, the client id is X-Forwarded-For if present, else X-Real-IP, else "unknown" |
| Middleware.IsAuthenticated | middleware.hpp:217-243 | a request counts as authenticated exactly when its Authorization header, matched in any letter case, carries the `Bearer ` prefix |
| Config.Trim | config.hpp:55-58 | the result is a contiguous part of the input with only blanks before and after it, and it neither starts nor ends with a blank; an input without blank ends is kept |
| Config.TrimFramed | config.hpp:55-58 | trimming blanks + t + blanks gives t, for any t without blank ends |
| Config.Unquote | config.hpp:60-65 | a value wrapped in a matching pair of double or single quotes loses exactly that pair, and other values are kept |
| Config.ParseLine | config.hpp:48-58 | a line sets nothing exactly when it is empty, starts with '#' or has no '='; a key it sets contains no '=' (the trimmed key and unquoted value are stated by `Config.ParseSpacedLine`) |
| Config.ParseSpacedLine | config.hpp:48-65 | a line `b1 key b2 = b3 value b4` with blank runs b1..b4, a key without '=' and without blank ends, and a value without blank ends sets the key to the unquoted value |
| Config.ParseQuotedLine | config.hpp:48-67 | a `key="value"` line sets the key to the unquoted value |
| Config.AssignKeys | config.hpp:45-69 | a key is set after loading exactly when it was set before or some line sets it |
| Config.AssignLastWins | config.hpp:67 | when several lines set a key, the last one's value is kept |
| Config.AssignUntouched | config.hpp:45-69 | a key that no line sets keeps its old value |
| Config.Load | config.hpp:32-75 | loading happens once; a missing file leaves the variables unchanged; otherwise every line of the file is applied in order |
| Config.Get | config.hpp:77-89 | the file's variable wins, then the process environment, then the default |
| Config.GetInt | config.hpp:91-99 | an empty or unparseable value gives the default; otherwise the result is the parsed value, which lies in the `int` range |
| Config.GetIntReadsDecimal | config.hpp:91-99 | the decimal text of an `int` reads back as that number |
| Config.GetBool | config.hpp:101-109 | an empty value gives the default; otherwise the result is true exactly for "true", "1", "yes" or "on" in any letter case |
| Config.GetBoolIgnoresCase | config.hpp:101-109 | values that differ only in letter case read the same |
| Config.JwtExpirationHours | config.hpp:123-125 | the token lifetime defaults to 24 hours |
| Config.RateLimitWindow | config.hpp:131-133 | the rate-limit window defaults to 900 |
| Config.RateLimitMax | config.hpp:135-137 | the rate-limit maximum defaults to 100 |
| SharedModels.StringToWorkoutType | shared-models.hpp:54-62 | parsing succeeds only for one of the six upper-case names, whose rendering is the input; any other string is refused |
| SharedModels.WorkoutTypeRoundTrip | shared-models.hpp:54-77 | parsing the name of a workout type gives back that type |
| SharedModels.WorkoutTypeNamesDistinct | shared-models.hpp:66-77 | distinct workout types have distinct names |
| SharedModels.LowerCaseWorkoutTypeRefused | shared-models.hpp:54-62 | the match is case-sensitive: a lower-cased name is refused |
| SharedModels.QuestStatusNamesDistinct | shared-models.hpp:80-88 | distinct quest statuses have distinct names |
| SharedModels.ValidateWorkoutDuration | shared-models.hpp:439-446 | a `double` duration is accepted exactly when it is within 1 to 240 or NaN (which fails both comparisons); below 1 or minus infinity is DURATION_TOO_SHORT, above 240 or plus infinity DURATION_TOO_LONG |
| SharedModels.ValidateIntensity | shared-models.hpp:448-452 | an intensity is accepted exactly when it is within 1 to 10 or NaN |
| SharedModels.ValidateFormScore | shared-models.hpp:454-458 | a form score is accepted exactly when it is within 0 to 100 or NaN |
| SharedModels.ValidateWorkout | shared-models.hpp:460-466 | a workout is accepted exactly when its duration, its intensity and any present form score are each in range or NaN; the first failing check names the error |
| SharedModels.NaNWorkoutAccepted | shared-models.hpp:439-466 | a workout whose every field is NaN passes validation |
| Services.UnlockedCount | services.hpp:136-147 | ability i is unlocked exactly when its threshold 5 x (i + 1) is at most the level |
| Services.GetAbilitiesForLevel | services.hpp:136-147 | the abilities for a level are the prefix of the six names whose thresholds it reaches |
| Services.AbilitiesGrow | services.hpp:136-147 | the abilities of a lower level are a prefix of those of a higher level |
| Services.BuildCharacter | services.hpp:150-172 | a character has the user's level and experience, 50 x level gold, and each ability repeated once for every level from its threshold up to the user's level |
| Services.GetAchievementReward | services.hpp:323-344 | the reward records exactly the given id; the first tier named in the id ("legendary", "epic", "rare") sets experience and gold, and any other id gets 100 and 50 |
| Services.AchievementRewardShape | services.hpp:323-344 | every reward gives twice as much experience as gold, and gold between 50 and the legendary amount |
| Services.CheckAchievements | services.hpp:382-389 | "marathon_session" is appended exactly when the duration is at least 120, and nothing else changes |

## Left out

- **The filesystem.** This covers directory creation and the existence tests (complete_database.h:51-70), opening and closing streams, and the seven file paths. The file images are the `Store.Files` value, with `None` for a missing file.
- **Truncated files.** A short read leaves the C++ length or count unspecified, so the model's readers return `None` on truncated input and claim no particular recovery.
- **Scalar layout.** The byte layout of `size_t`, `time_t`, `int`, the enums and `float` is taken to be little-endian with widths 8, 8, 4, 4 and 4. A `float` is an opaque 4-byte block. A `bool` byte other than 0 or 1 is undefined behaviour in C++, and the model refuses it.
- **Clock, `rand()` and `std::hash`.** These are parameters, and so is `getCurrentDate`, given as a day number. `mktime`, and its daylight-saving effects on `diffDays`, are not modelled.
- **The HMAC-SHA256 signature and base64 encoding** in `generateToken` (utils.hpp:39-63). The signature is a parameter. Verification never reads it (`Utils.SignatureIgnored`).
- **JSON, HTTP and the process.** This covers the cpprest `toJson`/`fromJson` conversions, the controllers, the router, `main`, `Logger`, CORS and `ErrorHandler`. It also covers the `Request` body getters (utils.hpp:141-171) and `Response`.
- **Concurrency.** This covers the mutex wrapper `Config::Database` (config.hpp:161-341), the sync engine's worker thread and the logger's locks.
- **Floating-point reward and level arithmetic.** This covers `RewardCalculation`, `getXPForLevel`/`calculateLevelFromXP`, `applyMultipliers` and the derived combat stats. The one exception is `checkLevelUp`'s `int(n * 1.5)`, modelled exactly as n + n/2. The workout validators only compare a `double` with constants, so there a `double` is a finite real, an infinity or NaN (`SharedModels.Double`), with every comparison against NaN false; rounding is not modelled.
- **Views and stubs.** `GameEngine::initializePlayer` reads the database and the always-empty `getUserWorkouts` stub, and is left out. So are `getPlayerState`, `getAvailableQuests`, `getUnlockedAchievements`, `getLeaderboard`, `claimReward` and `getDailyLoginBonus`, which only format state as JSON.
- **`unordered_map` iteration order.** The engine's quest and achievement tables are sequences read in one fixed order. Every property stated over them holds for any order.
- **Integer width.** The counters of `GamePlayer` are unbounded integers, and 32-bit overflow of experience, gold or the threshold is not modelled. Likewise `generateToken` computes `getJWTExpiration() * 3600` in `int` (utils.hpp:32); the model's product is unbounded, so an hour count above 596,523 does not wrap as it would in C++.
- **Strings are bytes.** A `std::string` is modelled as a sequence of bytes, one `char` per byte, so `length()` and every character test count bytes. A multi-byte UTF-8 character is several chars here, as it is in C++.
- Database.SortByPriority: `std::sort` is not stable, so the model fixes one order for equal priorities (insertion order). The contract states only what holds for any such order: a permutation that is non-increasing by priority.
- Database.AllValuesInOrder: `get_all_exercises` and `get_all_quests` skip a key whose search throws. The property covers sorted trees, where no search throws.
- Database.GetExerciseGraph: `get_exercise_graph` returns the edge vector as stored. There is nothing further to state.
- Database.GetStats: `get_stats` returns the sizes of the four trees and three vectors. Its behaviour is stated through `Database.CreateUserStats`, `Database.SeedEmptyStats` and `Database.ClearAllData`.
- TreeFile.LoadTree: each loaded pair is stored with the corrected upsert `Put`, not with `insert`. The two agree on every file whose keys are distinct (`BTreeProofs.PutAbsentIsInsert`), which includes every file saved from a tree the corrected operations built. A tree the class itself built can hold a key twice (see Findings), and `save_to_file` then writes that key twice with the stale value; loading such a file is not claimed to match the class.
- Database.Seed: stores with the corrected upsert `Put`, where the class calls `insert`. They agree when the sample ids are not yet stored (`Database.SeedIsInsert`); for a sample id held in an internal node of a loaded tree the class keeps the old record (see Findings).
- Database.CreateUser: stores with the corrected upsert `Put`, where the class calls `insert`. They agree for a fresh id (`Database.CreateUserIsInsert`); if the random id is already held in an internal node, the class keeps the old user.
- Database.CreateUserCorrect: for a random id that is already taken it states an overwrite, which holds of the corrected upsert; the class's `insert` keeps returning the old user when that id sits in an internal node.
- Database.UpdateUser: the corrected upsert. The class's `insert` agrees for a new id (`Database.UpdateUserAsWritten`) and keeps the old record for an id held in an internal node (`Database.UpdateUserKeepsStale`).
- Database.AddExercise: stores with the corrected upsert `Put`; the class's `insert` agrees for a new id (`Database.AddExerciseIsInsert`) and keeps the old exercise for an id held in an internal node.
- Database.StartWorkout: stores with the corrected upsert `Put`; the class's `insert` agrees for a new id (`Database.StartWorkoutIsInsert`) and keeps the old session on an id collision in an internal node.
- Database.CompleteWorkout: the corrected upsert. The class's `insert` keeps the old end time for an id held in an internal node (`Database.CompleteWorkoutKeepsStale`).
- Database.AddQuest: stores with the corrected upsert `Put`; the class's `insert` agrees for a new id (`Database.AddQuestIsInsert`) and keeps the old quest for an id held in an internal node.
- Store.SaveLoad: the round trip restores the same pairs in every tree, not the same node layout. The reloaded tree is rebuilt by insertion, and every query answers alike (`Store.SameSearch`).
- Database.Open: the destructor's final `save_all_data` is not modelled separately. Each operation's result is already the state that gets saved.
- GameEngine.LevelUp: requires a positive threshold, or experience already below it. Otherwise the C++ loop never ends (`GameEngine.LevelUpDivergesWithoutThreshold`), so that case has no final state to describe.
- GameEngine.CompleteQuest: requires that the level-up loop which follows the reward terminates, for the same reason.
- GameEngine.UpdateFromFitnessData: requires that the level-up loop after crediting the batch terminates, for the same reason.
- Utils.TokenRoundTrip: requires the expiry to fit in a 64-bit `time_t`. The user id must contain no ':' or '.', because the parser splits on the first of each.
- Utils.ValidatePassword: counts bytes, as `length()` does, because strings are modelled as bytes (see "Strings are bytes").
- Utils.ExtractToken: the headers are a map keyed by the lower-cased name, which is how `http_headers` compares names; two headers whose names differ only in case are taken to be already merged into one. `Middleware.GetClientId` and `Middleware.IsAuthenticated` use the same lookup.
- Config.GetInt: `std::stoi` is modelled as optional blanks, an optional sign and a run of digits. A value outside the `int` range falls back to the default, as the `catch` does.

## Findings

| source | as written | input that shows it | evidently intended | confidence | as-written member | corrected member |
|---|---|---|---|---|---|---|
| complete_database.h:194-198 | `insert_non_full` skips past a key equal to the inserted one and descends into the child to its right, so a key stored in an internal node is never updated: a duplicate is stored in a leaf and `search` keeps finding the old internal copy | a root holding key 3 over leaves {1, 2} and {4, 5}; inserting (3, 9) | "update if exists, insert if new" (line 141), which `update_user` and `complete_workout` rely on | high; not executed | BTreeProofs.InsertDuplicatesInternalKey | BTreeProofs.PutCorrect |
| complete_database.h:200-206 | when the inserted key is the median that a split moves up, `key > median` is false and the descent goes into the left half, so a duplicate is stored there | a root holding key 10 over a full leaf with keys 1 to 5 and a leaf with keys 11 and 12; inserting (3, 9) | the same upsert: the existing pair's value is replaced | high; not executed | BTreeProofs.InsertDuplicatesMedian | BTreeProofs.PutCorrect |
| complete_database.h:240-248 | when the root is a full leaf holding the inserted key, the root split moves that key up as the median and the descent at lines 194-198 passes it, so a duplicate is stored in the right half | a root leaf with keys 1 to 5; inserting (3, 9) | the same upsert | high; not executed | BTreeProofs.InsertDuplicatesAfterRootSplit | BTreeProofs.PutCorrect |
| complete_database.h:910-913 | `update_user` re-stores the user with `insert`, so once the users tree has split and the id is held in an internal node, `get_user` keeps returning the old record and `get_size` grows | a users tree whose root holds the user's id over two leaves; updating that user | the user is replaced | high; not executed | Database.UpdateUserKeepsStale | Database.UpdateUser |
| complete_database.h:949-955 | `complete_workout` re-stores the session with `insert`, so for a session id held in an internal node `get_workout` keeps the old end time and the count grows | a workouts tree whose root holds the session's id over two leaves; completing that session | the session's end time is updated | high; not executed | Database.CompleteWorkoutKeepsStale | Database.CompleteWorkout |

The corrected operation is `BTree.Put`. It replaces the value in place when the key is stored and otherwise calls `insert`. All the database operations and the loaders use `Put`. For a key not yet stored `Put` is exactly `insert` (`BTreeProofs.PutAbsentIsInsert`).
