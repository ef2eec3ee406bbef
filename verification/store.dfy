/** The state of `PersistentFitnessDatabase` and its seven data files.

    The state is the four trees and the three vectors; `save_all_data` and
    `load_all_data` become `Save` and `Load` between that state and the file
    images, one `Option<Bytes>` per file (`None` for a file that does not
    exist). */
module Store {
  import opened Wrappers
  import opened ByteStrings
  import opened Codec
  import opened BTree
  import opened BTreeProofs
  import opened Records
  import opened TreeFile

  datatype Db = Db(
    exercises: Tree<Exercise>,
    users: Tree<User>,
    workouts: Tree<WorkoutSession>,
    quests: Tree<Quest>,
    emailIndex: seq<IndexEntry>,
    graph: seq<GraphEdge>,
    queue: seq<QueueEntry>)

  /** `exercises.dat`, `users.dat`, `workouts.dat`, `quests.dat`,
      `email_index.dat`, `graph.dat`, `priority_queue.dat`. */
  datatype Files = Files(
    exercises: Option<Bytes>,
    users: Option<Bytes>,
    workouts: Option<Bytes>,
    quests: Option<Bytes>,
    emailIndex: Option<Bytes>,
    graph: Option<Bytes>,
    queue: Option<Bytes>)

  /** The representation invariant: every tree well formed and sorted. */
  ghost predicate Inv(db: Db)
  {
    Good(db.exercises) && Good(db.users) && Good(db.workouts) && Good(db.quests)
  }

  function EmptyDb(): (db: Db)
    ensures Inv(db)
    ensures db.emailIndex == [] && db.graph == [] && db.queue == []
    ensures GetSize(db.users) == 0 && GetSize(db.exercises) == 0
    ensures GetSize(db.workouts) == 0 && GetSize(db.quests) == 0
  {
    EmptyGood<Exercise>();
    EmptyGood<User>();
    EmptyGood<WorkoutSession>();
    EmptyGood<Quest>();
    Db(Empty(), Empty(), Empty(), Empty(), [], [], [])
  }

  // ------------------------------------------------------------ value codecs

  predicate ExerciseStorable(e: Exercise) { AllStorable(ExerciseFields(e)) }
  predicate UserStorable(u: User) { AllStorable(UserFields(u)) }
  predicate WorkoutStorable(w: WorkoutSession) { AllStorable(WorkoutFields(w)) }
  predicate QuestStorable(q: Quest) { AllStorable(QuestFields(q)) }
  predicate IndexStorable(x: IndexEntry) { AllStorable(IndexFields(x)) }
  predicate EdgeStorable(x: GraphEdge) { AllStorable(EdgeFields(x)) }
  predicate QueueStorable(x: QueueEntry) { AllStorable(QueueFields(x)) }

  const EXERCISE_CODEC: ValueCodec<Exercise> := ValueCodec(EncodeExercise, DecodeExercise, ExerciseStorable)
  const USER_CODEC: ValueCodec<User> := ValueCodec(EncodeUser, DecodeUser, UserStorable)
  const WORKOUT_CODEC: ValueCodec<WorkoutSession> := ValueCodec(EncodeWorkout, DecodeWorkout, WorkoutStorable)
  const QUEST_CODEC: ValueCodec<Quest> := ValueCodec(EncodeQuest, DecodeQuest, QuestStorable)
  const INDEX_CODEC: ValueCodec<IndexEntry> := ValueCodec(EncodeIndexEntry, DecodeIndexEntry, IndexStorable)
  const EDGE_CODEC: ValueCodec<GraphEdge> := ValueCodec(EncodeEdge, DecodeEdge, EdgeStorable)
  const QUEUE_CODEC: ValueCodec<QueueEntry> := ValueCodec(EncodeQueueEntry, DecodeQueueEntry, QueueStorable)

  /** Each record reader inverts its writer on storable records. */
  lemma CodecsInvert()
    ensures Inverts(EXERCISE_CODEC) && Inverts(USER_CODEC) && Inverts(WORKOUT_CODEC)
    ensures Inverts(QUEST_CODEC) && Inverts(INDEX_CODEC) && Inverts(EDGE_CODEC) && Inverts(QUEUE_CODEC)
  {
    forall e: Exercise, rest: Bytes | ExerciseStorable(e)
      ensures DecodeExercise(EncodeExercise(e) + rest) == Some((e, rest))
    {
      ExerciseRoundTrip(e, rest);
    }
    forall u: User, rest: Bytes | UserStorable(u)
      ensures DecodeUser(EncodeUser(u) + rest) == Some((u, rest))
    {
      UserRoundTrip(u, rest);
    }
    forall w: WorkoutSession, rest: Bytes | WorkoutStorable(w)
      ensures DecodeWorkout(EncodeWorkout(w) + rest) == Some((w, rest))
    {
      WorkoutRoundTrip(w, rest);
    }
    forall q: Quest, rest: Bytes | QuestStorable(q)
      ensures DecodeQuest(EncodeQuest(q) + rest) == Some((q, rest))
    {
      QuestRoundTrip(q, rest);
    }
    forall x: IndexEntry, rest: Bytes | IndexStorable(x)
      ensures DecodeIndexEntry(EncodeIndexEntry(x) + rest) == Some((x, rest))
    {
      IndexEntryRoundTrip(x, rest);
    }
    forall x: GraphEdge, rest: Bytes | EdgeStorable(x)
      ensures DecodeEdge(EncodeEdge(x) + rest) == Some((x, rest))
    {
      EdgeRoundTrip(x, rest);
    }
    forall x: QueueEntry, rest: Bytes | QueueStorable(x)
      ensures DecodeQueueEntry(EncodeQueueEntry(x) + rest) == Some((x, rest))
    {
      QueueEntryRoundTrip(x, rest);
    }
  }

  // ------------------------------------------------------------ save and load

  /** `save_all_data`: every file is rewritten from the state. */
  function Save(db: Db): (f: Files)
    ensures f.exercises.Some? && f.users.Some? && f.workouts.Some? && f.quests.Some?
    ensures f.emailIndex.Some? && f.graph.Some? && f.queue.Some?
  {
    Files(
      Some(SaveTree(db.exercises, EXERCISE_CODEC)),
      Some(SaveTree(db.users, USER_CODEC)),
      Some(SaveTree(db.workouts, WORKOUT_CODEC)),
      Some(SaveTree(db.quests, QUEST_CODEC)),
      Some(SaveVector(db.emailIndex, INDEX_CODEC)),
      Some(SaveVector(db.graph, EDGE_CODEC)),
      Some(SaveVector(db.queue, QUEUE_CODEC)))
  }

  /** `load_all_data` into the state `db`: each tree loads into the tree it
      replaces, each vector file replaces its vector. A file that ends early
      has no defined result. */
  function LoadInto(db: Db, f: Files): (r: Option<Db>)
    requires Inv(db)
    ensures r.Some? ==> Inv(r.value)
  {
    var ex :- LoadTree(db.exercises, f.exercises, EXERCISE_CODEC);
    var us :- LoadTree(db.users, f.users, USER_CODEC);
    var wo :- LoadTree(db.workouts, f.workouts, WORKOUT_CODEC);
    var qu :- LoadTree(db.quests, f.quests, QUEST_CODEC);
    var ix :- LoadVector(db.emailIndex, f.emailIndex, INDEX_CODEC);
    var gr :- LoadVector(db.graph, f.graph, EDGE_CODEC);
    var pq :- LoadVector(db.queue, f.queue, QUEUE_CODEC);
    Some(Db(ex, us, wo, qu, ix, gr, pq))
  }

  /** The loads a fresh database object performs. */
  function Load(f: Files): (r: Option<Db>)
    ensures r.Some? ==> Inv(r.value)
    ensures f == Files(None, None, None, None, None, None, None) ==> r == Some(EmptyDb())
  {
    LoadInto(EmptyDb(), f)
  }

  /** A state whose files read back: every tree and vector within the
      loaders' bounds and every record within the codec's. */
  ghost predicate Fits(db: Db)
  {
    && TreeFits(db.exercises, EXERCISE_CODEC) && TreeFits(db.users, USER_CODEC)
    && TreeFits(db.workouts, WORKOUT_CODEC) && TreeFits(db.quests, QUEST_CODEC)
    && VectorFits(db.emailIndex, INDEX_CODEC) && VectorFits(db.graph, EDGE_CODEC)
    && VectorFits(db.queue, QUEUE_CODEC)
  }

  /** Two states that answer every query alike: the same traversal in each
      tree (the node layout may differ) and the same vectors. */
  ghost predicate SameContent(a: Db, b: Db)
  {
    && Entries(a.exercises.root) == Entries(b.exercises.root)
    && Entries(a.users.root) == Entries(b.users.root)
    && Entries(a.workouts.root) == Entries(b.workouts.root)
    && Entries(a.quests.root) == Entries(b.quests.root)
    && a.emailIndex == b.emailIndex && a.graph == b.graph && a.queue == b.queue
  }

  /** Searching equal traversals gives equal answers. */
  lemma SameSearch<V>(a: Tree<V>, b: Tree<V>, k: Key)
    requires Good(a) && Good(b) && Entries(a.root) == Entries(b.root)
    ensures Search(a, k) == Search(b, k)
    ensures GetAllKeys(a) == GetAllKeys(b) && GetSize(a) == GetSize(b)
  {
    SearchCorrect(a.root, k, true);
    SearchCorrect(b.root, k, true);
  }

  /** What `save_all_data` writes, a fresh object's `load_all_data` reads
      back: the same contents in every tree and the same vectors. */
  lemma SaveLoad(db: Db)
    requires Inv(db) && Fits(db)
    ensures Load(Save(db)).Some?
    ensures SameContent(Load(Save(db)).value, db)
  {
    CodecsInvert();
    var e := EmptyDb();
    TreeBack(e.exercises, db.exercises, EXERCISE_CODEC);
    TreeBack(e.users, db.users, USER_CODEC);
    TreeBack(e.workouts, db.workouts, WORKOUT_CODEC);
    TreeBack(e.quests, db.quests, QUEST_CODEC);
    SaveLoadVector([], db.emailIndex, INDEX_CODEC);
    SaveLoadVector([], db.graph, EDGE_CODEC);
    SaveLoadVector([], db.queue, QUEUE_CODEC);
  }

  /** The part of `SaveLoadTree` that `SaveLoad` needs, for a fresh tree. */
  lemma TreeBack<V(!new)>(t0: Tree<V>, t: Tree<V>, c: ValueCodec<V>)
    requires t0 == Empty() && Good(t) && Inverts(c) && TreeFits(t, c)
    ensures LoadTree(t0, Some(SaveTree(t, c)), c).Some?
    ensures Entries(LoadTree(t0, Some(SaveTree(t, c)), c).value.root) == Entries(t.root)
  {
    SaveLoadTree(t, c);
  }
}
