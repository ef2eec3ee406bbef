/** The operations of `PersistentFitnessDatabase` as pure transformations of
    its state.

    The wall clock (`time(nullptr)`), `rand()` and `std::hash` of the password
    are parameters. Every mutating operation of the class ends with
    `save_all_data`, which here is `Store.Save` applied to the returned state.
    The class stores every record with `insert`, which is meant as an upsert
    but is not one for a key held in an internal node (BTreeProofs,
    `InsertDuplicatesInternalKey`). The operations below store with the
    corrected upsert `Put`. For an id not yet stored the two agree, and a
    lemma per operation states that the result is then exactly what
    `insert` gives. `UpdateUserAsWritten` and `CompleteWorkoutAsWritten` are
    the two operations that re-store an existing id, modelled with
    `insert` as written, each with a state on which it keeps the old
    record. */
module Database {
  import opened Wrappers
  import opened ByteStrings
  import opened Codec
  import opened BTree
  import opened BTreeProofs
  import opened Records
  import opened TreeFile
  import opened Store
  import opened Text

  // ------------------------------------------------------------ seed data

  function EX001(): Bytes { Ascii("EX001") }
  function EX002(): Bytes { Ascii("EX002") }
  function ADMIN001(): Bytes { Ascii("ADMIN001") }
  function ADMIN_EMAIL(): Bytes { Ascii("admin@fitnessquest.com") }
  function Q001(): Bytes { Ascii("Q001") }

  /** An all-zero `float`, the default `form_score` of 0.0f. */
  const ZERO_FLOAT: Float32 := [0, 0, 0, 0]

  function PushUp(now: int64): Exercise
  {
    Exercise(EX001(), Ascii("Push-up"), STRENGTH, BEGINNER, [], [], 8, [], [EX002()], now)
  }

  function Squat(now: int64): Exercise
  {
    Exercise(EX002(), Ascii("Squat"), STRENGTH, BEGINNER, [], [], 7, [EX001()], [], now)
  }

  function Admin(now: int64): User
  {
    User(ADMIN001(), Ascii("Admin"), ADMIN_EMAIL(), Ascii("hashed_password"), 10, 0, [], [], now, now)
  }

  function DailyChallenge(): Quest
  {
    Quest(Q001(), Ascii("Daily Challenge"), Ascii("Complete basic exercises"), 1, 1,
          [EX001(), EX002()], [Ascii("100 XP")], 0, false)
  }

  lemma SeedKeysDistinct()
    ensures EX001() != EX002()
  {
    assert EX001()[4] != EX002()[4];
  }

  /** One upsert: the key is then stored with its value, and the size grows
      only when the key was new. */
  lemma PutOne<V>(t: Tree<V>, k: Key, v: V)
    requires Good(t)
    ensures Good(Put(t, k, v)) && Search(Put(t, k, v), k) == Success(v)
    ensures k in GetAllKeys(Put(t, k, v)) && GetSize(Put(t, k, v)) >= 1
    ensures GetSize(t) == 0 ==> GetSize(Put(t, k, v)) == 1
  {
    PutCorrect(t, k, v);
    PutThenSearch(t, k, v, k);
    SearchTree(Put(t, k, v), k);
  }

  /** Two upserts of distinct keys: both are then stored with their values. */
  lemma PutTwo<V>(t: Tree<V>, k1: Key, v1: V, k2: Key, v2: V)
    requires Good(t) && k1 != k2
    ensures Good(Put(t, k1, v1))
    ensures var r := Put(Put(t, k1, v1), k2, v2);
      && Good(r) && Search(r, k1) == Success(v1) && Search(r, k2) == Success(v2)
      && (GetSize(t) == 0 ==> GetSize(r) == 2)
  {
    PutOne(t, k1, v1);
    var t1 := Put(t, k1, v1);
    PutOne(t1, k2, v2);
    PutThenSearch(t1, k2, v2, k1);
    PutCorrect(t1, k2, v2);
    if GetSize(t) == 0 {
      assert GetAllKeys(t1) == [k1] by {
        PutCorrect(t, k1, v1);
        assert Entries(t.root) == [];
      }
    }
  }

  /** `initialize_sample_data`: two exercises, the admin user with its index
      entry, one prerequisite edge and one queued quest, added to whatever the
      state already holds. */
  function Seed(db: Db, now: int64): (r: Db)
    requires Inv(db)
    ensures Inv(r)
    ensures Search(r.users, ADMIN001()) == Success(Admin(now))
    ensures Search(r.exercises, EX001()) == Success(PushUp(now))
    ensures Search(r.exercises, EX002()) == Success(Squat(now))
    ensures Search(r.quests, Q001()) == Success(DailyChallenge())
    ensures r.workouts == db.workouts
    ensures r.emailIndex == db.emailIndex + [IndexEntry(ADMIN_EMAIL(), ADMIN001())]
    ensures r.graph == db.graph + [GraphEdge(EX001(), EX002(), 1)]
    ensures r.queue == db.queue + [QueueEntry(DailyChallenge(), 1, now)]
    ensures GetSize(r.users) >= 1
    ensures GetSize(db.exercises) == 0 ==> GetSize(r.exercises) == 2
    ensures GetSize(db.users) == 0 ==> GetSize(r.users) == 1
    ensures GetSize(db.quests) == 0 ==> GetSize(r.quests) == 1
  {
    SeedKeysDistinct();
    PutTwo(db.exercises, EX001(), PushUp(now), EX002(), Squat(now));
    PutOne(db.users, ADMIN001(), Admin(now));
    PutOne(db.quests, Q001(), DailyChallenge());
    Db(Put(Put(db.exercises, EX001(), PushUp(now)), EX002(), Squat(now)),
       Put(db.users, ADMIN001(), Admin(now)),
       db.workouts,
       Put(db.quests, Q001(), DailyChallenge()),
       db.emailIndex + [IndexEntry(ADMIN_EMAIL(), ADMIN001())],
       db.graph + [GraphEdge(EX001(), EX002(), 1)],
       db.queue + [QueueEntry(DailyChallenge(), 1, now)])
  }

  /** On a state that holds none of the sample ids, seeding stores exactly
      what the class's `insert` calls do. */
  lemma SeedIsInsert(db: Db, now: int64)
    requires Inv(db)
    requires EX001() !in GetAllKeys(db.exercises) && EX002() !in GetAllKeys(db.exercises)
    requires ADMIN001() !in GetAllKeys(db.users) && Q001() !in GetAllKeys(db.quests)
    ensures var r := Seed(db, now); var e1 := Insert(db.exercises, EX001(), PushUp(now));
      && Valid(e1) && r.exercises == Insert(e1, EX002(), Squat(now))
      && r.users == Insert(db.users, ADMIN001(), Admin(now))
      && r.quests == Insert(db.quests, Q001(), DailyChallenge())
  {
    SeedKeysDistinct();
    PutTwoAbsent(db.exercises, EX001(), PushUp(now), EX002(), Squat(now));
    PutAbsentIsInsert(db.users, ADMIN001(), Admin(now));
    PutAbsentIsInsert(db.quests, Q001(), DailyChallenge());
  }

  /** Two upserts of distinct new keys are two inserts. */
  lemma PutTwoAbsent<V>(t: Tree<V>, k1: Key, v1: V, k2: Key, v2: V)
    requires Good(t) && k1 != k2 && k1 !in GetAllKeys(t) && k2 !in GetAllKeys(t)
    ensures var t1 := Insert(t, k1, v1);
      Valid(t1) && Valid(Put(t, k1, v1)) && Put(Put(t, k1, v1), k2, v2) == Insert(t1, k2, v2)
  {
    PutAbsentIsInsert(t, k1, v1);
    var t1 := Put(t, k1, v1);
    PutCorrect(t, k1, v1);
    assert k2 !in Contents(Entries(t1.root));
    PutAbsentIsInsert(t1, k2, v2);
  }

  /** The constructor: load every file, and seed when no user was loaded. */
  function Open(f: Files, now: int64): (r: Option<Db>)
    ensures r.Some? <==> Load(f).Some?
    ensures r.Some? ==> Inv(r.value) && GetSize(r.value.users) > 0
    ensures r.Some? && GetSize(Load(f).value.users) > 0 ==> r.value == Load(f).value
    ensures r.Some? && GetSize(Load(f).value.users) == 0 ==> r.value == Seed(Load(f).value, now)
  {
    var db :- Load(f);
    if GetSize(db.users) == 0 then Some(Seed(db, now)) else Some(db)
  }

  // ------------------------------------------------------------ users

  /** An email already has an `email_index` entry. */
  predicate Indexed(ix: seq<IndexEntry>, email: Bytes)
  {
    exists i :: 0 <= i < |ix| && ix[i].key == email
  }

  /** Position of the first index entry for `email`, or `|ix|` when none. */
  function FirstEntry(ix: seq<IndexEntry>, email: Bytes): (r: nat)
    ensures r <= |ix|
    ensures forall j :: 0 <= j < r ==> ix[j].key != email
    ensures r < |ix| ==> ix[r].key == email
    ensures r == |ix| <==> !Indexed(ix, email)
  {
    if |ix| == 0 then 0
    else if ix[0].key == email then 0
    else
      var r := 1 + FirstEntry(ix[1..], email);
      assert forall j :: 1 <= j < |ix| ==> ix[j] == ix[1..][j - 1];
      r
  }

  /** `"USER_" + to_string(now) + "_" + to_string(rand() % 10000)`. */
  function UserId(now: int64, rnd: nat): (id: Bytes)
    ensures |id| > 6 && id[..5] == Ascii("USER_")
  {
    var id := Ascii("USER_") + Ascii(Show(now as int)) + Ascii("_") + Ascii(Show(rnd % 10000));
    assert id[..5] == Ascii("USER_");
    id
  }

  /** The user `create_user` builds: defaults from `User()` (level 1, no
      experience, created and last seen now), the password hash printed in
      decimal. */
  function NewUser(username: Bytes, email: Bytes, now: int64, rnd: nat, passwordHash: nat): User
  {
    User(UserId(now, rnd), username, email, Ascii(Show(passwordHash)), 1, 0, [], [], now, now)
  }

  /** `create_user`: refuses an email that is already indexed; otherwise
      stores the new user under a fresh id and indexes its email. */
  function CreateUser(db: Db, username: Bytes, email: Bytes, now: int64, rnd: nat, passwordHash: nat)
    : (r: Result<(Db, Bytes)>)
    requires Inv(db)
    ensures r.Failure? <==> Indexed(db.emailIndex, email)
    ensures r.Failure? ==> r.error == AlreadyExists
    ensures r.Success? ==>
      var (db', id) := r.value;
      && Inv(db')
      && id == UserId(now, rnd)
      && db'.emailIndex == db.emailIndex + [IndexEntry(email, id)]
      && db' == db.(users := db'.users, emailIndex := db'.emailIndex)
      && Search(db'.users, id) == Success(NewUser(username, email, now, rnd, passwordHash))
      && (forall k :: k != id ==> Search(db'.users, k) == Search(db.users, k))
  {
    if Indexed(db.emailIndex, email) then Failure(AlreadyExists)
    else
      var u := NewUser(username, email, now, rnd, passwordHash);
      PutCorrect(db.users, u.id, u);
      PutOne(db.users, u.id, u);
      forall k | k != u.id
        ensures Search(Put(db.users, u.id, u), k) == Search(db.users, k)
      {
        PutThenSearch(db.users, u.id, u, k);
      }
      Success((db.(users := Put(db.users, u.id, u), emailIndex := db.emailIndex + [IndexEntry(email, u.id)]), u.id))
  }

  /** For a generated id not yet stored, `create_user` stores the user
      exactly as the class's `insert` does. */
  lemma CreateUserIsInsert(db: Db, username: Bytes, email: Bytes, now: int64, rnd: nat, passwordHash: nat)
    requires Inv(db) && !Indexed(db.emailIndex, email) && UserId(now, rnd) !in GetAllKeys(db.users)
    ensures var u := NewUser(username, email, now, rnd, passwordHash);
      CreateUser(db, username, email, now, rnd, passwordHash)
        == Success((db.(users := Insert(db.users, u.id, u), emailIndex := db.emailIndex + [IndexEntry(email, u.id)]), u.id))
  {
    var u := NewUser(username, email, now, rnd, passwordHash);
    PutAbsentIsInsert(db.users, u.id, u);
  }

  /** `get_user`: throws when the id is not stored. */
  function GetUser(db: Db, id: Bytes): (r: Result<User>)
    requires Inv(db)
    ensures r.Failure? <==> id !in GetAllKeys(db.users)
    ensures r.Failure? ==> r.error == NotFound
    ensures r.Success? ==> r.value == Contents(Entries(db.users.root))[id]
  {
    SearchTree(db.users, id);
    Search(db.users, id)
  }

  /** `get_user_by_email`: the user the first index entry for `email` names;
      throws when no entry names it, or when that user is not stored. */
  function GetUserByEmail(db: Db, email: Bytes): (r: Result<User>)
    requires Inv(db)
    ensures !Indexed(db.emailIndex, email) ==> r == Failure(NotFound)
    ensures Indexed(db.emailIndex, email) ==>
      r == GetUser(db, db.emailIndex[FirstEntry(db.emailIndex, email)].value)
  {
    var i := FirstEntry(db.emailIndex, email);
    if i < |db.emailIndex| then GetUser(db, db.emailIndex[i].value) else Failure(NotFound)
  }

  /** After a successful `create_user`, looking its email up finds exactly
      the new user; every other stored user is as before, and the user count
      grows by one unless the generated id was already taken. */
  lemma CreateUserCorrect(db: Db, username: Bytes, email: Bytes, now: int64, rnd: nat, passwordHash: nat)
    requires Inv(db) && !Indexed(db.emailIndex, email)
    ensures CreateUser(db, username, email, now, rnd, passwordHash).Success?
    ensures var db' := CreateUser(db, username, email, now, rnd, passwordHash).value.0;
      && GetUserByEmail(db', email) == Success(NewUser(username, email, now, rnd, passwordHash))
      && (forall id :: id != UserId(now, rnd) ==> Search(db'.users, id) == Search(db.users, id))
      && GetSize(db'.users) == GetSize(db.users) + (if UserId(now, rnd) in GetAllKeys(db.users) then 0 else 1)
      && |db'.emailIndex| == |db.emailIndex| + 1
  {
    var u := NewUser(username, email, now, rnd, passwordHash);
    var db' := CreateUser(db, username, email, now, rnd, passwordHash).value.0;
    var up := UpdateUser(db, u);
    assert db'.users == up.users;
    FirstEntryAppended(db.emailIndex, email, u.id);
    assert GetUserByEmail(db', email) == GetUser(db', u.id);
  }

  /** An email not yet indexed is first found at the entry appended for it. */
  lemma FirstEntryAppended(ix: seq<IndexEntry>, email: Bytes, id: Bytes)
    requires !Indexed(ix, email)
    ensures FirstEntry(ix + [IndexEntry(email, id)], email) == |ix|
  {
    var ix' := ix + [IndexEntry(email, id)];
    assert ix'[|ix|].key == email;
    assert forall j :: 0 <= j < |ix| ==> ix'[j] == ix[j];
  }

  /** `update_user`: the user is stored under its id, replacing any earlier
      value. */
  function UpdateUser(db: Db, u: User): (r: Db)
    requires Inv(db)
    ensures Inv(r) && r == db.(users := r.users)
    ensures Search(r.users, u.id) == Success(u)
    ensures forall id :: id != u.id ==> Search(r.users, id) == Search(db.users, id)
    ensures GetSize(r.users) == GetSize(db.users) + (if u.id in GetAllKeys(db.users) then 0 else 1)
  {
    PutCorrect(db.users, u.id, u);
    forall id
      ensures Search(Put(db.users, u.id, u), id) == if id == u.id then Success(u) else Search(db.users, id)
    {
      PutThenSearch(db.users, u.id, u, id);
    }
    db.(users := Put(db.users, u.id, u))
  }

  /** `update_user` as written: `insert`, which for an id not yet stored is
      the upsert above. */
  function UpdateUserAsWritten(db: Db, u: User): (r: Db)
    requires Inv(db)
    ensures r == db.(users := r.users)
    ensures u.id !in GetAllKeys(db.users) ==> r == UpdateUser(db, u)
  {
    assert u.id !in GetAllKeys(db.users) ==> Insert(db.users, u.id, u) == Put(db.users, u.id, u) by {
      if u.id !in GetAllKeys(db.users) {
        PutAbsentIsInsert(db.users, u.id, u);
      }
    }
    db.(users := Insert(db.users, u.id, u))
  }

  /** A users tree whose root has split and holds the updated id: as written,
      `update_user` stores a second record, the user count grows, the order
      breaks, and `get_user` keeps returning the old record. The corrected
      `UpdateUser` returns the new one. */
  lemma UpdateUserKeepsStale(other: User, prior: User, u: User)
    requires prior.id == K(3) && u.id == K(3) && prior != u
    ensures var db := EmptyDb().(users := Tree(SplitRoot(other, prior)));
      && Inv(db) && GetUser(db, K(3)) == Success(prior)
      && Search(UpdateUserAsWritten(db, u).users, K(3)) == Success(prior)
      && GetSize(UpdateUserAsWritten(db, u).users) == GetSize(db.users) + 1
      && !Inv(UpdateUserAsWritten(db, u))
      && Search(UpdateUser(db, u).users, K(3)) == Success(u)
  {
    var db := EmptyDb().(users := Tree(SplitRoot(other, prior)));
    InsertDuplicatesInternalKey(other, prior, u);
    SearchTree(db.users, K(3));
  }

  // ------------------------------------------------------------ exercises

  /** One weight-1 edge from each prerequisite to the exercise, in order. */
  function PrerequisiteEdges(e: Exercise): (r: seq<GraphEdge>)
    ensures |r| == |e.prerequisites|
    ensures forall i :: 0 <= i < |r| ==> r[i].from == e.prerequisites[i] && r[i].to == e.id && r[i].weight == 1
  {
    seq(|e.prerequisites|, i requires 0 <= i < |e.prerequisites| => GraphEdge(e.prerequisites[i], e.id, 1))
  }

  /** `add_exercise`: stores the exercise and appends one edge per
      prerequisite to the graph. */
  function AddExercise(db: Db, e: Exercise): (r: Db)
    requires Inv(db)
    ensures Inv(r) && r == db.(exercises := r.exercises, graph := r.graph)
    ensures Search(r.exercises, e.id) == Success(e)
    ensures forall id :: id != e.id ==> Search(r.exercises, id) == Search(db.exercises, id)
    ensures |r.graph| == |db.graph| + |e.prerequisites| && r.graph[..|db.graph|] == db.graph
    ensures forall i :: 0 <= i < |e.prerequisites| ==>
      r.graph[|db.graph| + i] == GraphEdge(e.prerequisites[i], e.id, 1)
  {
    PutCorrect(db.exercises, e.id, e);
    forall id
      ensures Search(Put(db.exercises, e.id, e), id) == if id == e.id then Success(e) else Search(db.exercises, id)
    {
      PutThenSearch(db.exercises, e.id, e, id);
    }
    var g := db.graph + PrerequisiteEdges(e);
    assert g[..|db.graph|] == db.graph;
    db.(exercises := Put(db.exercises, e.id, e), graph := g)
  }

  /** For an exercise id not yet stored, `add_exercise` stores it exactly as
      the class's `insert` does. */
  lemma AddExerciseIsInsert(db: Db, e: Exercise)
    requires Inv(db) && e.id !in GetAllKeys(db.exercises)
    ensures AddExercise(db, e).exercises == Insert(db.exercises, e.id, e)
  {
    PutAbsentIsInsert(db.exercises, e.id, e);
  }

  function GetExercise(db: Db, id: Bytes): (r: Result<Exercise>)
    requires Inv(db)
    ensures r.Failure? <==> id !in GetAllKeys(db.exercises)
    ensures r.Failure? ==> r.error == NotFound
    ensures r.Success? ==> r.value == Contents(Entries(db.exercises.root))[id]
  {
    SearchTree(db.exercises, id);
    Search(db.exercises, id)
  }

  /** The loop of `get_all_exercises` and `get_all_quests`: search each key
      in turn, skipping a key whose search throws. */
  function ValuesAt<V>(t: Tree<V>, ks: seq<Key>): (r: seq<V>)
    ensures |r| <= |ks|
  {
    if |ks| == 0 then []
    else
      (match Search(t, ks[0]) case Success(v) => [v] case Failure(_) => [])
      + ValuesAt(t, ks[1..])
  }

  function AllValues<V>(t: Tree<V>): seq<V>
  {
    ValuesAt(t, GetAllKeys(t))
  }

  lemma {:induction false} ValuesAtEntries<V>(t: Tree<V>, es: seq<Entry<V>>)
    requires forall i :: 0 <= i < |es| ==> Search(t, es[i].0) == Success(es[i].1)
    ensures ValuesAt(t, KeysOf(es)) == seq(|es|, i requires 0 <= i < |es| => es[i].1)
  {
    if |es| > 0 {
      assert KeysOf(es)[1..] == KeysOf(es[1..]);
      ValuesAtEntries(t, es[1..]);
    }
  }

  /** On a sorted tree no search fails, so the listing holds every stored
      value once, in ascending key order. */
  lemma AllValuesInOrder<V>(t: Tree<V>)
    requires Good(t)
    ensures |AllValues(t)| == GetSize(t)
    ensures forall i :: 0 <= i < GetSize(t) ==> AllValues(t)[i] == Entries(t.root)[i].1
  {
    var es := Entries(t.root);
    forall i | 0 <= i < |es|
      ensures Search(t, es[i].0) == Success(es[i].1)
    {
      SearchCorrect(t.root, es[i].0, true);
      LookupSortedAt(es, i);
    }
    ValuesAtEntries(t, es);
  }

  function GetAllExercises(db: Db): seq<Exercise>
  {
    AllValues(db.exercises)
  }

  // ------------------------------------------------------------ workouts

  /** `"WORKOUT_" + to_string(now) + "_" + to_string(rand() % 1000)`. */
  function WorkoutId(now: int64, rnd: nat): (id: Bytes)
    ensures |id| > 9 && id[..8] == Ascii("WORKOUT_")
  {
    var id := Ascii("WORKOUT_") + Ascii(Show(now as int)) + Ascii("_") + Ascii(Show(rnd % 1000));
    assert id[..8] == Ascii("WORKOUT_");
    id
  }

  /** `WorkoutSession()`: started now, not ended, nothing recorded yet. */
  function NewSession(userId: Bytes, now: int64, rnd: nat): WorkoutSession
  {
    WorkoutSession(WorkoutId(now, rnd), userId, now, 0, [], 0, false, ZERO_FLOAT)
  }

  /** `start_workout`: stores a new open session for the user and returns its id. */
  function StartWorkout(db: Db, userId: Bytes, now: int64, rnd: nat): (r: (Db, Bytes))
    requires Inv(db)
    ensures Inv(r.0) && r.0 == db.(workouts := r.0.workouts)
    ensures r.1 == WorkoutId(now, rnd)
    ensures Search(r.0.workouts, r.1) == Success(NewSession(userId, now, rnd))
    ensures forall id :: id != r.1 ==> Search(r.0.workouts, id) == Search(db.workouts, id)
  {
    var s := NewSession(userId, now, rnd);
    PutCorrect(db.workouts, s.id, s);
    forall id
      ensures Search(Put(db.workouts, s.id, s), id) == if id == s.id then Success(s) else Search(db.workouts, id)
    {
      PutThenSearch(db.workouts, s.id, s, id);
    }
    (db.(workouts := Put(db.workouts, s.id, s)), s.id)
  }

  /** For a generated id not yet stored, `start_workout` stores the session
      exactly as the class's `insert` does. */
  lemma StartWorkoutIsInsert(db: Db, userId: Bytes, now: int64, rnd: nat)
    requires Inv(db) && WorkoutId(now, rnd) !in GetAllKeys(db.workouts)
    ensures StartWorkout(db, userId, now, rnd).0.workouts
      == Insert(db.workouts, WorkoutId(now, rnd), NewSession(userId, now, rnd))
  {
    PutAbsentIsInsert(db.workouts, WorkoutId(now, rnd), NewSession(userId, now, rnd));
  }

  /** `complete_workout`: throws for an unknown id; otherwise stamps the
      session's end time and stores it back under the same id. */
  function CompleteWorkout(db: Db, id: Bytes, now: int64): (r: Result<Db>)
    requires Inv(db)
    ensures r.Failure? <==> id !in GetAllKeys(db.workouts)
    ensures r.Failure? ==> r.error == NotFound
    ensures r.Success? ==> Inv(r.value) && r.value == db.(workouts := r.value.workouts)
    ensures r.Success? ==> Search(db.workouts, id).Success?
    ensures r.Success? ==> Search(r.value.workouts, id) == Success(Search(db.workouts, id).value.(endTime := now))
    ensures r.Success? ==> GetSize(r.value.workouts) == GetSize(db.workouts)
    ensures r.Success? ==> forall k :: k != id ==> Search(r.value.workouts, k) == Search(db.workouts, k)
  {
    SearchTree(db.workouts, id);
    var s :- Search(db.workouts, id);
    var s' := s.(endTime := now);
    PutCorrect(db.workouts, id, s');
    forall k
      ensures Search(Put(db.workouts, id, s'), k) == if k == id then Success(s') else Search(db.workouts, k)
    {
      PutThenSearch(db.workouts, id, s', k);
    }
    Success(db.(workouts := Put(db.workouts, id, s')))
  }

  /** `complete_workout` as written: the stamped session is stored back with
      `insert`. */
  function CompleteWorkoutAsWritten(db: Db, id: Bytes, now: int64): (r: Result<Db>)
    requires Inv(db)
    ensures r.Failure? <==> id !in GetAllKeys(db.workouts)
    ensures r.Failure? ==> r.error == NotFound
    ensures r.Success? ==> r.value == db.(workouts := r.value.workouts)
  {
    SearchTree(db.workouts, id);
    var s :- Search(db.workouts, id);
    Success(db.(workouts := Insert(db.workouts, id, s.(endTime := now))))
  }

  /** A workouts tree whose root has split and holds the completed id: as
      written, `complete_workout` stores a second session, the count grows,
      and `get_workout` still shows the old end time. The corrected
      `CompleteWorkout` shows the new one. */
  lemma CompleteWorkoutKeepsStale(other: WorkoutSession, s: WorkoutSession, now: int64)
    requires s.endTime != now
    ensures var db := EmptyDb().(workouts := Tree(SplitRoot(other, s)));
      && Inv(db) && GetWorkout(db, K(3)) == Success(s)
      && CompleteWorkoutAsWritten(db, K(3), now).Success?
      && Search(CompleteWorkoutAsWritten(db, K(3), now).value.workouts, K(3)) == Success(s)
      && GetSize(CompleteWorkoutAsWritten(db, K(3), now).value.workouts) == GetSize(db.workouts) + 1
      && Search(CompleteWorkout(db, K(3), now).value.workouts, K(3)) == Success(s.(endTime := now))
  {
    var db := EmptyDb().(workouts := Tree(SplitRoot(other, s)));
    InsertDuplicatesInternalKey(other, s, s.(endTime := now));
    SearchTree(db.workouts, K(3));
  }

  function GetWorkout(db: Db, id: Bytes): (r: Result<WorkoutSession>)
    requires Inv(db)
    ensures r.Failure? <==> id !in GetAllKeys(db.workouts)
    ensures r.Failure? ==> r.error == NotFound
    ensures r.Success? ==> r.value == Contents(Entries(db.workouts.root))[id]
  {
    SearchTree(db.workouts, id);
    Search(db.workouts, id)
  }

  // ------------------------------------------------------------ quests

  /** Priorities never increase along the snapshot. */
  ghost predicate ByPriority(q: seq<QueueEntry>)
  {
    forall i, j :: 0 <= i < j < |q| ==> q[i].priority >= q[j].priority
  }

  /** An entry of at least the first priority can go in front. */
  lemma ConsByPriority(h: QueueEntry, rest: seq<QueueEntry>)
    requires ByPriority(rest) && (|rest| > 0 ==> rest[0].priority <= h.priority)
    ensures ByPriority([h] + rest)
  {
    var r := [h] + rest;
    forall i, j | 0 <= i < j < |r|
      ensures r[i].priority >= r[j].priority
    {
      assert r[j] == rest[j - 1];
      if i > 0 {
        assert r[i] == rest[i - 1];
      } else if j > 1 {
        assert rest[0].priority >= rest[j - 1].priority;
      }
    }
  }

  /** Places `x` after every entry of at least its priority. */
  function InsertByPriority(x: QueueEntry, q: seq<QueueEntry>): (r: seq<QueueEntry>)
    requires ByPriority(q)
    ensures ByPriority(r)
    ensures multiset(r) == multiset(q) + multiset{x}
    ensures |r| == |q| + 1
    ensures r[0] == if |q| > 0 && q[0].priority >= x.priority then q[0] else x
  {
    if |q| == 0 then [x]
    else if q[0].priority >= x.priority then
      var rest := InsertByPriority(x, q[1..]);
      assert q == [q[0]] + q[1..];
      assert ByPriority(q[1..]) && (|q| > 1 ==> q[1].priority <= q[0].priority);
      ConsByPriority(q[0], rest);
      [q[0]] + rest
    else
      ConsByPriority(x, q);
      [x] + q
  }

  /** `std::sort` with `a.priority > b.priority`: some ordering of the entries
      with priorities non-increasing (the sort is not stable, so the order of
      equal priorities is not fixed; this one keeps insertion order). */
  function SortByPriority(q: seq<QueueEntry>): (r: seq<QueueEntry>)
    ensures ByPriority(r)
    ensures multiset(r) == multiset(q)
  {
    if |q| == 0 then []
    else
      assert q == [q[0]] + q[1..];
      InsertByPriority(q[0], SortByPriority(q[1..]))
  }

  /** `add_quest`: stores the quest, queues it with its priority and the
      current time, and re-sorts the snapshot. */
  function AddQuest(db: Db, q: Quest, now: int64): (r: Db)
    requires Inv(db)
    ensures Inv(r) && r == db.(quests := r.quests, queue := r.queue)
    ensures Search(r.quests, q.id) == Success(q)
    ensures forall id :: id != q.id ==> Search(r.quests, id) == Search(db.quests, id)
    ensures ByPriority(r.queue)
    ensures multiset(r.queue) == multiset(db.queue) + multiset{QueueEntry(q, q.priority, now)}
  {
    PutCorrect(db.quests, q.id, q);
    forall id
      ensures Search(Put(db.quests, q.id, q), id) == if id == q.id then Success(q) else Search(db.quests, id)
    {
      PutThenSearch(db.quests, q.id, q, id);
    }
    db.(quests := Put(db.quests, q.id, q), queue := SortByPriority(db.queue + [QueueEntry(q, q.priority, now)]))
  }

  /** For a quest id not yet stored, `add_quest` stores it exactly as the
      class's `insert` does. */
  lemma AddQuestIsInsert(db: Db, q: Quest, now: int64)
    requires Inv(db) && q.id !in GetAllKeys(db.quests)
    ensures AddQuest(db, q, now).quests == Insert(db.quests, q.id, q)
  {
    PutAbsentIsInsert(db.quests, q.id, q);
  }

  /** `get_next_quest`: throws on an empty snapshot; otherwise removes the
      last entry and returns its quest. The quest tree is not touched. */
  function GetNextQuest(db: Db): (r: Result<(Db, Quest)>)
    ensures r.Failure? <==> |db.queue| == 0
    ensures r.Failure? ==> r.error == NoQuests
    ensures r.Success? ==>
      && |r.value.0.queue| == |db.queue| - 1
      && db.queue == r.value.0.queue + [QueueEntry(r.value.1, db.queue[|db.queue| - 1].priority,
                                                   db.queue[|db.queue| - 1].timestamp)]
      && r.value.0 == db.(queue := r.value.0.queue)
  {
    if |db.queue| == 0 then Failure(NoQuests)
    else
      var last := |db.queue| - 1;
      assert db.queue == db.queue[..last] + [db.queue[last]];
      Success((db.(queue := db.queue[..last]), db.queue[last].quest))
  }

  /** On a snapshot kept by `add_quest`, the quest handed out has the lowest
      priority of all queued entries. */
  lemma NextQuestIsLowest(db: Db)
    requires ByPriority(db.queue) && |db.queue| > 0
    ensures var (db', quest) := GetNextQuest(db).value;
      && (forall e :: e in db.queue ==> e.priority >= db.queue[|db.queue| - 1].priority)
      && ByPriority(db'.queue)
  {
  }

  function GetQuest(db: Db, id: Bytes): (r: Result<Quest>)
    requires Inv(db)
    ensures r.Failure? <==> id !in GetAllKeys(db.quests)
    ensures r.Failure? ==> r.error == NotFound
    ensures r.Success? ==> r.value == Contents(Entries(db.quests.root))[id]
  {
    SearchTree(db.quests, id);
    Search(db.quests, id)
  }

  function GetAllQuests(db: Db): seq<Quest>
  {
    AllValues(db.quests)
  }

  function GetExerciseGraph(db: Db): seq<GraphEdge>
  {
    db.graph
  }

  // ------------------------------------------------------------ statistics

  datatype Stats = Stats(
    exerciseCount: nat, userCount: nat, workoutCount: nat, questCount: nat,
    emailIndexSize: nat, graphEdges: nat, priorityQueueSize: nat)

  /** `get_stats`: the size of every tree and vector. */
  function GetStats(db: Db): Stats
  {
    Stats(GetSize(db.exercises), GetSize(db.users), GetSize(db.workouts), GetSize(db.quests),
          |db.emailIndex|, |db.graph|, |db.queue|)
  }

  /** A new user with a fresh id adds one user and one index entry and
      changes no other count. */
  lemma CreateUserStats(db: Db, username: Bytes, email: Bytes, now: int64, rnd: nat, passwordHash: nat)
    requires Inv(db) && !Indexed(db.emailIndex, email) && UserId(now, rnd) !in GetAllKeys(db.users)
    ensures var s := GetStats(db);
      GetStats(CreateUser(db, username, email, now, rnd, passwordHash).value.0)
        == s.(userCount := s.userCount + 1, emailIndexSize := s.emailIndexSize + 1)
  {
    CreateUserCorrect(db, username, email, now, rnd, passwordHash);
  }

  /** Seeding an empty state leaves two exercises, one user, no workout, one
      quest and one entry in each vector. */
  lemma SeedEmptyStats(e: Db, now: int64)
    requires Inv(e) && GetStats(e) == Stats(0, 0, 0, 0, 0, 0, 0)
    ensures GetStats(Seed(e, now)) == Stats(2, 1, 0, 1, 1, 1, 1)
  {
  }

  /** `clear_all_data`: everything is dropped, the files are removed, and the
      sample data is seeded again, so the admin is found by email. */
  function ClearAllData(db: Db, now: int64): (r: Db)
    ensures Inv(r)
    ensures GetStats(r) == Stats(2, 1, 0, 1, 1, 1, 1)
    ensures GetUserByEmail(r, ADMIN_EMAIL()) == Success(Admin(now))
  {
    SeedEmptyStats(EmptyDb(), now);
    SeededAdminByEmail(now);
    Seed(EmptyDb(), now)
  }

  lemma SeededAdminByEmail(now: int64)
    ensures GetUserByEmail(Seed(EmptyDb(), now), ADMIN_EMAIL()) == Success(Admin(now))
  {
    var r := Seed(EmptyDb(), now);
    assert r.emailIndex == [IndexEntry(ADMIN_EMAIL(), ADMIN001())];
    assert FirstEntry(r.emailIndex, ADMIN_EMAIL()) == 0;
  }

  // ------------------------------------------------------------ persistence

  function TEST_USERNAME(): Bytes { Ascii("TestUser") }
  function TEST_EMAIL(): Bytes { Ascii("test@test.com") }

  /** `test_persistence`: create a test user, open a second database over the
      files just written, and look the user up there by email. `now2` is the
      clock reading of the second constructor. */
  function TestPersistence(db: Db, now: int64, rnd: nat, passwordHash: nat, now2: int64): bool
    requires Inv(db)
  {
    match CreateUser(db, TEST_USERNAME(), TEST_EMAIL(), now, rnd, passwordHash)
    case Failure(_) => false
    case Success(created) =>
      match Open(Save(created.0), now2)
      case None => false
      case Some(db2) =>
        match GetUserByEmail(db2, TEST_EMAIL())
        case Failure(_) => false
        case Success(u) => u.username == TEST_USERNAME()
  }

  /** A stored tree stays within the loader's bounds after one more `Put` of
      a storable value. */
  lemma PutFits<V(!new)>(t: Tree<V>, k: Key, v: V, c: ValueCodec<V>)
    requires Good(t) && TreeFits(t, c) && GetSize(t) < MAX_TREE_COUNT
    requires ShortString(k) && c.storable(v)
    ensures TreeFits(Put(t, k, v), c)
  {
    PutCorrect(t, k, v);
    var s := Entries(t.root);
    var p := LowerBound(s, k);
    var r := InsertKey(s, k, v);
    forall i | 0 <= i < |r|
      ensures ShortString(r[i].0) && c.storable(r[i].1)
    {
      if !(p < |s| && s[p].0 == k) {
        if i > p {
          assert r[i] == s[p..][i - p - 1] == s[i - 1];
        } else if i < p {
          assert r[i] == s[..p][i] == s[i];
        }
      }
    }
  }

  /** A state whose files read back still does after `create_user`, given
      room for one more user and index entry and a storable new user. */
  lemma CreateUserFits(db: Db, username: Bytes, email: Bytes, now: int64, rnd: nat, passwordHash: nat)
    requires Inv(db) && Fits(db) && !Indexed(db.emailIndex, email)
    requires GetSize(db.users) < MAX_TREE_COUNT && |db.emailIndex| + 1 < MAX_VECTOR_COUNT
    requires UserStorable(NewUser(username, email, now, rnd, passwordHash))
    ensures Fits(CreateUser(db, username, email, now, rnd, passwordHash).value.0)
  {
    var u := NewUser(username, email, now, rnd, passwordHash);
    CreatedState(db, username, email, now, rnd, passwordHash);
    UserFits(db, u, email);
  }

  /** The state `create_user` returns, spelled out. */
  lemma CreatedState(db: Db, username: Bytes, email: Bytes, now: int64, rnd: nat, passwordHash: nat)
    requires Inv(db) && !Indexed(db.emailIndex, email)
    ensures var u := NewUser(username, email, now, rnd, passwordHash);
      CreateUser(db, username, email, now, rnd, passwordHash).value.0
        == db.(users := Put(db.users, u.id, u), emailIndex := db.emailIndex + [IndexEntry(email, u.id)])
  {
  }

  lemma UserFits(db: Db, u: User, email: Bytes)
    requires Inv(db) && Fits(db) && UserStorable(u)
    requires GetSize(db.users) < MAX_TREE_COUNT && |db.emailIndex| + 1 < MAX_VECTOR_COUNT
    requires email == u.email
    ensures Fits(db.(users := Put(db.users, u.id, u), emailIndex := db.emailIndex + [IndexEntry(email, u.id)]))
  {
    assert Storable(UserFields(u)[0]) && Storable(UserFields(u)[2]);
    PutFits(db.users, u.id, u, USER_CODEC);
    assert IndexStorable(IndexEntry(email, u.id));
    AppendFits(db.emailIndex, IndexEntry(email, u.id), INDEX_CODEC);
  }

  /** A vector with room for one more storable element still fits. */
  lemma AppendFits<T(!new)>(xs: seq<T>, x: T, c: ValueCodec<T>)
    requires VectorFits(xs, c) && |xs| + 1 < MAX_VECTOR_COUNT && c.storable(x)
    ensures VectorFits(xs + [x], c)
  {
    forall i | 0 <= i < |xs| + 1
      ensures c.storable((xs + [x])[i])
    {
      if i < |xs| {
        assert (xs + [x])[i] == xs[i];
      }
    }
  }

  /** Reopening the files of a state that has a user gives a state that
      answers every email lookup as the original does. */
  lemma ReopenSameLookups(db: Db, now: int64, email: Bytes)
    requires Inv(db) && Fits(db) && GetSize(db.users) > 0
    ensures Open(Save(db), now).Some?
    ensures GetUserByEmail(Open(Save(db), now).value, email) == GetUserByEmail(db, email)
  {
    SaveLoad(db);
    var db2 := Load(Save(db)).value;
    assert db2.emailIndex == db.emailIndex;
    var i := FirstEntry(db.emailIndex, email);
    if i < |db.emailIndex| {
      SameSearch(db2.users, db.users, db.emailIndex[i].value);
    } else {
      SameSearch(db2.users, db.users, email);
    }
  }

  /** The persistence test passes on every state whose files read back, as
      long as the test email is not registered yet and the new user's strings
      are within the codec's bounds. */
  lemma TestPersistencePasses(db: Db, now: int64, rnd: nat, passwordHash: nat, now2: int64)
    requires Inv(db) && Fits(db) && !Indexed(db.emailIndex, TEST_EMAIL())
    requires GetSize(db.users) < MAX_TREE_COUNT && |db.emailIndex| + 1 < MAX_VECTOR_COUNT
    requires UserStorable(NewUser(TEST_USERNAME(), TEST_EMAIL(), now, rnd, passwordHash))
    ensures TestPersistence(db, now, rnd, passwordHash, now2)
  {
    CreateUserCorrect(db, TEST_USERNAME(), TEST_EMAIL(), now, rnd, passwordHash);
    CreateUserFits(db, TEST_USERNAME(), TEST_EMAIL(), now, rnd, passwordHash);
    var created := CreateUser(db, TEST_USERNAME(), TEST_EMAIL(), now, rnd, passwordHash).value;
    var db' := created.0;
    SearchTree(db'.users, UserId(now, rnd));
    ReopenSameLookups(db', now2, TEST_EMAIL());
    var db2 := Open(Save(db'), now2).value;
    assert GetUserByEmail(db2, TEST_EMAIL()) == Success(NewUser(TEST_USERNAME(), TEST_EMAIL(), now, rnd, passwordHash));
  }

  /** With the test email already registered, `create_user` throws and the
      test reports failure. */
  lemma TestPersistenceFailsWhenRegistered(db: Db, now: int64, rnd: nat, passwordHash: nat, now2: int64)
    requires Inv(db) && Indexed(db.emailIndex, TEST_EMAIL())
    ensures !TestPersistence(db, now, rnd, passwordHash, now2)
  {
    assert CreateUser(db, TEST_USERNAME(), TEST_EMAIL(), now, rnd, passwordHash).Failure?;
  }
}
