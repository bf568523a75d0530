/** NextQuestion of internal/service/quiz_service.go: the three modes over one set's list. */
module NextQuestion {
  import opened QuizTables
  import opened QuizService
  import opened Srs
  import opened Wrappers
  import PickSrs
  import Sequential

  datatype Mode = SrsMode | SequentialMode | RandomMode | Unset | UnknownMode

  datatype Refusal = NoSuchSet | InvalidMode | ReadFailed

  datatype Answer = Show(question: Question) | Refuse(why: Refusal)

  function Ids(all: seq<Question>): (ids: seq<int>)
    ensures |ids| == |all| && forall i :: 0 <= i < |all| ==> ids[i] == all[i].id
  {
    seq(|all|, i requires 0 <= i < |all| => all[i].id)
  }

  /** This is the question last answered, if the read of the last attempt told which that is. */
  predicate Repeats(q: Question, got: PickSrs.Reads) {
    got.recent.Some? && got.recent.value.Some? && q.id == PickSrs.LastId(got)
  }

  /** `listed` is what ListBySet returned, in list order, lastInSet what LastQuestionIDInSet did; None is an error.
      Nothing is shown only for an empty set, an unknown mode or a failed read that the mode needs. Within a day of
      the last answer the SRS mode repeats its question only if the set holds nothing else; that is for every store
      reached by submits and full deletes (PickSrs.ReachedIsOrderly). */
  method Next(listed: Option<seq<Question>>, mode: Mode, lastInSet: Option<Option<int>>, got: PickSrs.Reads,
      r: PickSrs.Rand, ghost st: Store, ghost user: int, ghost now: Instant) returns (a: Answer)
    requires PickSrs.Snapshot(got, st, user, now)
    modifies r
    ensures listed.None? ==> a == Refuse(ReadFailed)
    ensures listed.Some? ==> (a == Refuse(NoSuchSet) <==> listed.value == [])
    ensures listed.Some? ==> (a == Refuse(InvalidMode) <==> listed.value != [] && mode.UnknownMode?)
    ensures listed.Some? ==>
              (a == Refuse(ReadFailed) <==>
                 listed.value != [] &&
                 ((mode.SequentialMode? && lastInSet.None?) || ((mode.SrsMode? || mode.Unset?) && got.due.None?)))
    ensures a.Show? ==> listed.Some?
    ensures a.Show? && (mode.RandomMode? || mode.SequentialMode?) ==> a.question in listed.value
    ensures a.Show? && mode.RandomMode? ==> a.question == listed.value[r.draws(old(r.used)) % |listed.value|]
    ensures a.Show? && (mode.SrsMode? || mode.Unset?) ==>
              got.due.Some? && a.question == PickSrs.SrsPick(listed.value, got, r.draws, r.fractions, old(r.used))
    ensures a.Show? && mode.SequentialMode? ==>
              a.question.id == Ids(listed.value)[Sequential.NextIndex(Ids(listed.value), lastInSet.value)]
    ensures a.Show? && (mode.SrsMode? || mode.Unset?) ==>
              a.question in listed.value || PickSrs.InPage(got.due.value, a.question.id)
    ensures a.Show? && (mode.SrsMode? || mode.Unset?) && Repeats(a.question, got) ==>
              || (|got.due.value| == 1 && got.due.value[0].questionId == PickSrs.LastId(got))
              || (forall x :: x in listed.value ==> x.id == PickSrs.LastId(got))
    ensures a.Show? && (mode.SrsMode? || mode.Unset?) && Repeats(a.question, got)
            && PickSrs.Orderly(st) && PickSrs.WithinADay(st, user, now) ==>
              forall x :: x in listed.value ==> x.id == PickSrs.LastId(got)
  {
    if listed.None? {
      return Refuse(ReadFailed);
    }
    var all := listed.value;
    if all == [] {
      return Refuse(NoSuchSet);
    }
    match mode {
      case RandomMode =>
        var i := r.IntN(|all|);
        return Show(all[i]);
      case SequentialMode =>
        if lastInSet.None? {
          return Refuse(ReadFailed);
        }
        var id := Sequential.PickSequential(Ids(all), lastInSet.value);
        var q := Find(all, id);
        return Show(q);
      case SrsMode | Unset =>
        var q := PickSrs.PickSrs(all, got, r, st, user, now);
        if q.Err? {
          return Refuse(ReadFailed);
        }
        if Repeats(q.value, got) && PickSrs.Orderly(st) && PickSrs.WithinADay(st, user, now) {
          PickSrs.DuePageOmitsLast(st, user, now, got.due.value);
        }
        return Show(q.value);
      case UnknownMode => return Refuse(InvalidMode);
    }
  }

  method Find(all: seq<Question>, id: int) returns (q: Question)
    requires id in Ids(all)
    ensures q in all && q.id == id
  {
    var i := Sequential.IndexOf(Ids(all), id);
    q := all[i];
  }
}
