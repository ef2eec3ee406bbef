/** The records the database stores and their binary layouts.

    Every `serialize` member writes its fields one after the other with the
    codec's scalar and string writers, and `deserialize` reads them back in
    the same order. A record is modelled by the list of its fields in that
    order (`...Fields`), so the layout of each record is that list and one
    round-trip proof over field lists serves all of them. */
module Records {
  import opened Wrappers
  import opened ByteStrings
  import opened Codec

  // ------------------------------------------------------------ field lists

  datatype Kind = StrKind | ListKind | IntKind | TimeKind | BoolKind | FloatKind

  /** One serialized member: a string, a string vector, an `int` (or enum),
      a `time_t`, a `bool` or a `float`. */
  datatype Field =
    | Str(s: Bytes)
    | List(ss: seq<Bytes>)
    | Int(i: int32)
    | Time(t: int64)
    | Flag(b: bool)
    | Real(f: Float32)

  function KindOf(f: Field): Kind
  {
    match f
    case Str(_) => StrKind
    case List(_) => ListKind
    case Int(_) => IntKind
    case Time(_) => TimeKind
    case Flag(_) => BoolKind
    case Real(_) => FloatKind
  }

  /** `fs` has one field of each kind in `ks`, in order. */
  predicate Conforms(fs: seq<Field>, ks: seq<Kind>)
  {
    |fs| == |ks| && forall i :: 0 <= i < |fs| ==> KindOf(fs[i]) == ks[i]
  }

  /** A field the reader gives back unchanged: strings below 1000000 bytes,
      string vectors below 10000 elements. */
  predicate Storable(f: Field)
  {
    match f
    case Str(s) => ShortString(s)
    case List(ss) => ShortList(ss)
    case _ => true
  }

  predicate AllStorable(fs: seq<Field>)
  {
    forall i :: 0 <= i < |fs| ==> Storable(fs[i])
  }

  function WriteField(f: Field): Bytes
  {
    match f
    case Str(s) => WriteString(s)
    case List(ss) => WriteStringList(ss)
    case Int(i) => WriteI32(i)
    case Time(t) => WriteI64(t)
    case Flag(b) => WriteBool(b)
    case Real(x) => WriteFloat(x)
  }

  function ReadField(bs: Bytes, k: Kind): (r: Decoded<Field>)
    ensures r.Some? ==> KindOf(r.value.0) == k
  {
    match k
    case StrKind => var x :- ReadString(bs); Some((Str(x.0), x.1))
    case ListKind => var x :- ReadStringList(bs); Some((List(x.0), x.1))
    case IntKind => var x :- ReadI32(bs); Some((Int(x.0), x.1))
    case TimeKind => var x :- ReadI64(bs); Some((Time(x.0), x.1))
    case BoolKind => var x :- ReadBool(bs); Some((Flag(x.0), x.1))
    case FloatKind => var x :- ReadFloat(bs); Some((Real(x.0), x.1))
  }

  lemma FieldRoundTrip(f: Field, rest: Bytes)
    requires Storable(f)
    ensures ReadField(WriteField(f) + rest, KindOf(f)) == Some((f, rest))
  {
    match f
    case Str(s) => StringRoundTrip(s, rest);
    case List(ss) => StringListRoundTrip(ss, rest);
    case Int(i) => I32RoundTrip(i, rest);
    case Time(t) => I64RoundTrip(t, rest);
    case Flag(b) => BoolRoundTrip(b, rest);
    case Real(x) => FloatRoundTrip(x, rest);
  }

  function WriteFields(fs: seq<Field>): Bytes
  {
    if |fs| == 0 then [] else WriteField(fs[0]) + WriteFields(fs[1..])
  }

  /** Reads one field per kind, in order; fails as soon as one field fails. */
  function ReadFields(bs: Bytes, ks: seq<Kind>): (r: Decoded<seq<Field>>)
    ensures r.Some? ==> Conforms(r.value.0, ks)
    decreases |ks|
  {
    if |ks| == 0 then Some(([], bs))
    else
      var first :- ReadField(bs, ks[0]);
      var others :- ReadFields(first.1, ks[1..]);
      Some(([first.0] + others.0, others.1))
  }

  lemma {:induction false} FieldsRoundTrip(fs: seq<Field>, ks: seq<Kind>, rest: Bytes)
    requires AllStorable(fs) && Conforms(fs, ks)
    ensures ReadFields(WriteFields(fs) + rest, ks) == Some((fs, rest))
    decreases |fs|
  {
    if |fs| == 0 {
      assert WriteFields(fs) + rest == rest;
    } else {
      var tail := WriteFields(fs[1..]) + rest;
      assert WriteFields(fs) + rest == WriteField(fs[0]) + tail;
      FieldRoundTrip(fs[0], tail);
      FieldsRoundTrip(fs[1..], ks[1..], rest);
      assert [fs[0]] + fs[1..] == fs;
    }
  }

  // The stored value of a field of the expected kind.

  function Text(f: Field): Bytes
  {
    if f.Str? then f.s else []
  }

  function Texts(f: Field): seq<Bytes>
  {
    if f.List? then f.ss else []
  }

  function IntOf(f: Field): int32
  {
    if f.Int? then f.i else 0
  }

  function TimeOf(f: Field): int64
  {
    if f.Time? then f.t else 0
  }

  function FlagOf(f: Field): bool
  {
    f.Flag? && f.b
  }

  function RealOf(f: Field): Float32
  {
    if f.Real? then f.f else [0, 0, 0, 0]
  }

  // ------------------------------------------------------------ records

  /** `ExerciseType` and `ExerciseDifficulty` are stored as their 4-byte codes;
      the reader accepts any code, as the C++ does. */
  const STRENGTH: int32 := 0
  const CARDIO: int32 := 1
  const FLEXIBILITY: int32 := 2
  const BALANCE: int32 := 3
  const CORE: int32 := 4
  const BEGINNER: int32 := 0
  const INTERMEDIATE: int32 := 1
  const ADVANCED: int32 := 2
  const EXPERT: int32 := 3

  datatype Exercise = Exercise(
    id: Bytes,
    name: Bytes,
    exerciseType: int32,
    difficulty: int32,
    description: Bytes,
    targetMuscles: seq<Bytes>,
    caloriesPerMinute: int32,
    prerequisites: seq<Bytes>,
    nextExercises: seq<Bytes>,
    createdAt: int64)

  datatype User = User(
    id: Bytes,
    username: Bytes,
    email: Bytes,
    passwordHash: Bytes,
    fitnessLevel: int32,
    experiencePoints: int32,
    completedExercises: seq<Bytes>,
    achievements: seq<Bytes>,
    createdAt: int64,
    lastLogin: int64)

  datatype Quest = Quest(
    id: Bytes,
    title: Bytes,
    description: Bytes,
    priority: int32,
    difficulty: int32,
    requiredExercises: seq<Bytes>,
    rewards: seq<Bytes>,
    deadline: int64,
    completed: bool)

  datatype WorkoutSession = WorkoutSession(
    id: Bytes,
    userId: Bytes,
    startTime: int64,
    endTime: int64,
    exercises: seq<Bytes>,
    totalCalories: int32,
    validated: bool,
    formScore: Float32)

  /** An `email_index` entry: email to user id. */
  datatype IndexEntry = IndexEntry(key: Bytes, value: Bytes)

  /** An edge of the exercise graph (prerequisite to exercise). */
  datatype GraphEdge = GraphEdge(from: Bytes, to: Bytes, weight: int32)

  /** A quest queued with its priority and the time it was queued. */
  datatype QueueEntry = QueueEntry(quest: Quest, priority: int32, timestamp: int64)

  // ------------------------------------------------------------ layouts

  function ExerciseFields(e: Exercise): seq<Field>
  {
    [Str(e.id), Str(e.name), Int(e.exerciseType), Int(e.difficulty), Str(e.description),
     List(e.targetMuscles), Int(e.caloriesPerMinute), List(e.prerequisites),
     List(e.nextExercises), Time(e.createdAt)]
  }

  const EXERCISE_LAYOUT: seq<Kind> :=
    [StrKind, StrKind, IntKind, IntKind, StrKind, ListKind, IntKind, ListKind, ListKind, TimeKind]

  function UserFields(u: User): seq<Field>
  {
    [Str(u.id), Str(u.username), Str(u.email), Str(u.passwordHash), Int(u.fitnessLevel),
     Int(u.experiencePoints), List(u.completedExercises), List(u.achievements),
     Time(u.createdAt), Time(u.lastLogin)]
  }

  const USER_LAYOUT: seq<Kind> :=
    [StrKind, StrKind, StrKind, StrKind, IntKind, IntKind, ListKind, ListKind, TimeKind, TimeKind]

  function QuestFields(q: Quest): seq<Field>
  {
    [Str(q.id), Str(q.title), Str(q.description), Int(q.priority), Int(q.difficulty),
     List(q.requiredExercises), List(q.rewards), Time(q.deadline), Flag(q.completed)]
  }

  const QUEST_LAYOUT: seq<Kind> :=
    [StrKind, StrKind, StrKind, IntKind, IntKind, ListKind, ListKind, TimeKind, BoolKind]

  function WorkoutFields(w: WorkoutSession): seq<Field>
  {
    [Str(w.id), Str(w.userId), Time(w.startTime), Time(w.endTime), List(w.exercises),
     Int(w.totalCalories), Flag(w.validated), Real(w.formScore)]
  }

  const WORKOUT_LAYOUT: seq<Kind> :=
    [StrKind, StrKind, TimeKind, TimeKind, ListKind, IntKind, BoolKind, FloatKind]

  function IndexFields(x: IndexEntry): seq<Field>
  {
    [Str(x.key), Str(x.value)]
  }

  const INDEX_LAYOUT: seq<Kind> := [StrKind, StrKind]

  function EdgeFields(x: GraphEdge): seq<Field>
  {
    [Str(x.from), Str(x.to), Int(x.weight)]
  }

  const EDGE_LAYOUT: seq<Kind> := [StrKind, StrKind, IntKind]

  function QueueFields(x: QueueEntry): seq<Field>
  {
    QuestFields(x.quest) + [Int(x.priority), Time(x.timestamp)]
  }

  const QUEUE_LAYOUT: seq<Kind> := QUEST_LAYOUT + [IntKind, TimeKind]

  // ------------------------------------------------------------ encoders and decoders

  function EncodeExercise(e: Exercise): Bytes
  {
    WriteFields(ExerciseFields(e))
  }

  function DecodeExercise(bs: Bytes): Decoded<Exercise>
  {
    var x :- ReadFields(bs, EXERCISE_LAYOUT);
    var f := x.0;
    Some((Exercise(Text(f[0]), Text(f[1]), IntOf(f[2]), IntOf(f[3]), Text(f[4]), Texts(f[5]), IntOf(f[6]),
                   Texts(f[7]), Texts(f[8]), TimeOf(f[9])), x.1))
  }

  lemma ExerciseRoundTrip(e: Exercise, rest: Bytes)
    requires AllStorable(ExerciseFields(e))
    ensures DecodeExercise(EncodeExercise(e) + rest) == Some((e, rest))
  {
    FieldsRoundTrip(ExerciseFields(e), EXERCISE_LAYOUT, rest);
  }

  function EncodeUser(u: User): Bytes
  {
    WriteFields(UserFields(u))
  }

  function DecodeUser(bs: Bytes): Decoded<User>
  {
    var x :- ReadFields(bs, USER_LAYOUT);
    var f := x.0;
    Some((User(Text(f[0]), Text(f[1]), Text(f[2]), Text(f[3]), IntOf(f[4]), IntOf(f[5]), Texts(f[6]),
               Texts(f[7]), TimeOf(f[8]), TimeOf(f[9])), x.1))
  }

  lemma UserRoundTrip(u: User, rest: Bytes)
    requires AllStorable(UserFields(u))
    ensures DecodeUser(EncodeUser(u) + rest) == Some((u, rest))
  {
    FieldsRoundTrip(UserFields(u), USER_LAYOUT, rest);
  }

  function EncodeQuest(q: Quest): Bytes
  {
    WriteFields(QuestFields(q))
  }

  function QuestOf(f: seq<Field>): Quest
    requires |f| >= |QUEST_LAYOUT|
  {
    Quest(Text(f[0]), Text(f[1]), Text(f[2]), IntOf(f[3]), IntOf(f[4]), Texts(f[5]), Texts(f[6]),
          TimeOf(f[7]), FlagOf(f[8]))
  }

  function DecodeQuest(bs: Bytes): Decoded<Quest>
  {
    var x :- ReadFields(bs, QUEST_LAYOUT);
    Some((QuestOf(x.0), x.1))
  }

  lemma QuestRoundTrip(q: Quest, rest: Bytes)
    requires AllStorable(QuestFields(q))
    ensures DecodeQuest(EncodeQuest(q) + rest) == Some((q, rest))
  {
    FieldsRoundTrip(QuestFields(q), QUEST_LAYOUT, rest);
  }

  function EncodeWorkout(w: WorkoutSession): Bytes
  {
    WriteFields(WorkoutFields(w))
  }

  function DecodeWorkout(bs: Bytes): Decoded<WorkoutSession>
  {
    var x :- ReadFields(bs, WORKOUT_LAYOUT);
    var f := x.0;
    Some((WorkoutSession(Text(f[0]), Text(f[1]), TimeOf(f[2]), TimeOf(f[3]), Texts(f[4]), IntOf(f[5]),
                         FlagOf(f[6]), RealOf(f[7])), x.1))
  }

  lemma WorkoutRoundTrip(w: WorkoutSession, rest: Bytes)
    requires AllStorable(WorkoutFields(w))
    ensures DecodeWorkout(EncodeWorkout(w) + rest) == Some((w, rest))
  {
    FieldsRoundTrip(WorkoutFields(w), WORKOUT_LAYOUT, rest);
  }

  function EncodeIndexEntry(x: IndexEntry): Bytes
  {
    WriteFields(IndexFields(x))
  }

  function DecodeIndexEntry(bs: Bytes): Decoded<IndexEntry>
  {
    var x :- ReadFields(bs, INDEX_LAYOUT);
    Some((IndexEntry(Text(x.0[0]), Text(x.0[1])), x.1))
  }

  lemma IndexEntryRoundTrip(x: IndexEntry, rest: Bytes)
    requires AllStorable(IndexFields(x))
    ensures DecodeIndexEntry(EncodeIndexEntry(x) + rest) == Some((x, rest))
  {
    FieldsRoundTrip(IndexFields(x), INDEX_LAYOUT, rest);
  }

  function EncodeEdge(x: GraphEdge): Bytes
  {
    WriteFields(EdgeFields(x))
  }

  function DecodeEdge(bs: Bytes): Decoded<GraphEdge>
  {
    var x :- ReadFields(bs, EDGE_LAYOUT);
    Some((GraphEdge(Text(x.0[0]), Text(x.0[1]), IntOf(x.0[2])), x.1))
  }

  lemma EdgeRoundTrip(x: GraphEdge, rest: Bytes)
    requires AllStorable(EdgeFields(x))
    ensures DecodeEdge(EncodeEdge(x) + rest) == Some((x, rest))
  {
    FieldsRoundTrip(EdgeFields(x), EDGE_LAYOUT, rest);
  }

  function EncodeQueueEntry(x: QueueEntry): Bytes
  {
    WriteFields(QueueFields(x))
  }

  function DecodeQueueEntry(bs: Bytes): Decoded<QueueEntry>
  {
    var x :- ReadFields(bs, QUEUE_LAYOUT);
    var f := x.0;
    Some((QueueEntry(QuestOf(f), IntOf(f[9]), TimeOf(f[10])), x.1))
  }

  lemma QueueEntryRoundTrip(x: QueueEntry, rest: Bytes)
    requires AllStorable(QueueFields(x))
    ensures DecodeQueueEntry(EncodeQueueEntry(x) + rest) == Some((x, rest))
  {
    FieldsRoundTrip(QueueFields(x), QUEUE_LAYOUT, rest);
  }
}
