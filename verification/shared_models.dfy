/** The enumerations shared by the request handlers, their string forms, and
    the anti-cheat range checks a submitted workout must pass. */
module SharedModels {
  import opened Wrappers
  import opened Text

  datatype WorkoutType = STRENGTH | CARDIO | FLEXIBILITY | MEDITATION | BALANCE | CORE

  datatype QuestStatus = AVAILABLE | ACTIVE | COMPLETED | FAILED

  /** The name `workoutTypeToString` gives each workout type. */
  function WorkoutTypeToString(t: WorkoutType): (s: string)
    ensures |s| >= 4
    ensures forall i :: 0 <= i < |s| ==> 'A' <= s[i] <= 'Z'
  {
    match t
    case STRENGTH => "STRENGTH"
    case CARDIO => "CARDIO"
    case FLEXIBILITY => "FLEXIBILITY"
    case MEDITATION => "MEDITATION"
    case BALANCE => "BALANCE"
    case CORE => "CORE"
  }

  /** `stringToWorkoutType`: exact, case-sensitive comparison against the six
      names; anything else throws `std::invalid_argument`. */
  function StringToWorkoutType(s: string): (r: Result<WorkoutType>)
    ensures r.Success? ==> WorkoutTypeToString(r.value) == s
    ensures r.Failure? ==> r.error == InvalidArgument
    ensures r.Failure? ==> forall t :: WorkoutTypeToString(t) != s
  {
    if s == "STRENGTH" then Success(STRENGTH)
    else if s == "CARDIO" then Success(CARDIO)
    else if s == "FLEXIBILITY" then Success(FLEXIBILITY)
    else if s == "MEDITATION" then Success(MEDITATION)
    else if s == "BALANCE" then Success(BALANCE)
    else if s == "CORE" then Success(CORE)
    else Failure(InvalidArgument)
  }

  /** Parsing a workout type's name gives that type back. */
  lemma WorkoutTypeRoundTrip(t: WorkoutType)
    ensures StringToWorkoutType(WorkoutTypeToString(t)) == Success(t)
  {
  }

  /** Distinct workout types have distinct names. */
  lemma WorkoutTypeNamesDistinct(a: WorkoutType, b: WorkoutType)
    ensures WorkoutTypeToString(a) == WorkoutTypeToString(b) ==> a == b
  {
  }

  /** The comparison is case-sensitive: the lower-case spelling of any name
      is refused. */
  lemma LowerCaseWorkoutTypeRefused(t: WorkoutType)
    ensures StringToWorkoutType(Lower(WorkoutTypeToString(t))).Failure?
  {
    var s := WorkoutTypeToString(t);
    assert Lower(s)[0] == ToLower(s[0]);
    assert 'a' <= Lower(s)[0] <= 'z';
  }

  function QuestStatusToString(q: QuestStatus): (s: string)
    ensures |s| >= 6
  {
    match q
    case AVAILABLE => "AVAILABLE"
    case ACTIVE => "ACTIVE"
    case COMPLETED => "COMPLETED"
    case FAILED => "FAILED"
  }

  /** Distinct quest states have distinct names. */
  lemma QuestStatusNamesDistinct(a: QuestStatus, b: QuestStatus)
    ensures QuestStatusToString(a) == QuestStatusToString(b) ==> a == b
  {
  }

  // ------------------------------------------------------------ validation

  const MIN_DURATION_PER_WORKOUT: real := 1.0
  const MAX_DURATION_PER_WORKOUT: real := 240.0
  const MIN_INTENSITY: real := 1.0
  const MAX_INTENSITY: real := 10.0
  const FORM_SCORE_MIN: real := 0.0
  const FORM_SCORE_MAX: real := 100.0

  /** A C++ `double`: a finite value, an infinity, or NaN. Every ordered
      comparison with NaN is false. */
  datatype Double = Finite(value: real) | Infinity(negative: bool) | NaN

  /** `d < c` for a finite constant `c`, with IEEE 754 semantics. */
  predicate Below(d: Double, c: real)
  {
    match d
    case Finite(x) => x < c
    case Infinity(negative) => negative
    case NaN => false
  }

  /** `d > c` for a finite constant `c`, with IEEE 754 semantics. */
  predicate Above(d: Double, c: real)
  {
    match d
    case Finite(x) => x > c
    case Infinity(negative) => !negative
    case NaN => false
  }

  /** A finite value within `[lo, hi]`. */
  predicate Within(d: Double, lo: real, hi: real)
  {
    d.Finite? && lo <= d.value <= hi
  }

  /** The fields of a submitted workout that `validateWorkout` inspects. */
  datatype Workout = Workout(duration: Double, intensity: Double, formScore: Option<Double>)

  /** `validateWorkoutDuration`: too short is reported before too long. */
  function ValidateWorkoutDuration(d: Double): (r: Result<()>)
    ensures r.Success? <==> Within(d, 1.0, 240.0) || d.NaN?
    ensures (d.Finite? && d.value < 1.0) || d == Infinity(true) ==>
      r == Failure(Validation("duration", "DURATION_TOO_SHORT"))
    ensures (d.Finite? && d.value > 240.0) || d == Infinity(false) ==>
      r == Failure(Validation("duration", "DURATION_TOO_LONG"))
  {
    if Below(d, MIN_DURATION_PER_WORKOUT) then Failure(Validation("duration", "DURATION_TOO_SHORT"))
    else if Above(d, MAX_DURATION_PER_WORKOUT) then Failure(Validation("duration", "DURATION_TOO_LONG"))
    else Success(())
  }

  function ValidateIntensity(x: Double): (r: Result<()>)
    ensures r.Success? <==> Within(x, 1.0, 10.0) || x.NaN?
    ensures r.Failure? ==> r.error == Validation("intensity", "INVALID_INTENSITY")
  {
    if Below(x, MIN_INTENSITY) || Above(x, MAX_INTENSITY) then Failure(Validation("intensity", "INVALID_INTENSITY"))
    else Success(())
  }

  function ValidateFormScore(x: Double): (r: Result<()>)
    ensures r.Success? <==> Within(x, 0.0, 100.0) || x.NaN?
    ensures r.Failure? ==> r.error == Validation("formScore", "INVALID_FORM_SCORE")
  {
    if Below(x, FORM_SCORE_MIN) || Above(x, FORM_SCORE_MAX) then Failure(Validation("formScore", "INVALID_FORM_SCORE"))
    else Success(())
  }

  /** A field the validators accept: in range, or NaN, which passes both
      comparisons. */
  predicate Acceptable(d: Double, lo: real, hi: real)
  {
    Within(d, lo, hi) || d.NaN?
  }

  /** `validateWorkout`: duration, then intensity, then the form score when
      one was given; the first failing check is the one reported. */
  function ValidateWorkout(w: Workout): (r: Result<()>)
    ensures r.Success? <==>
      && Acceptable(w.duration, 1.0, 240.0)
      && Acceptable(w.intensity, 1.0, 10.0)
      && (w.formScore.Some? ==> Acceptable(w.formScore.value, 0.0, 100.0))
    ensures !Acceptable(w.duration, 1.0, 240.0) ==> r == ValidateWorkoutDuration(w.duration)
    ensures Acceptable(w.duration, 1.0, 240.0) && !Acceptable(w.intensity, 1.0, 10.0) ==>
      r == Failure(Validation("intensity", "INVALID_INTENSITY"))
    ensures r == Failure(Validation("formScore", "INVALID_FORM_SCORE")) ==> w.formScore.Some?
  {
    var _ :- ValidateWorkoutDuration(w.duration);
    var _ :- ValidateIntensity(w.intensity);
    if w.formScore.Some? then ValidateFormScore(w.formScore.value) else Success(())
  }

  /** NaN in every field passes every check: each comparison is false. */
  lemma NaNWorkoutAccepted()
    ensures ValidateWorkout(Workout(NaN, NaN, Some(NaN))) == Success(())
  {
  }
}
