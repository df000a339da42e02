/** The search policy the BIC, DIC and CV selectors share: try every state count of an
    inclusive range in ascending order, stop at the first exception, and keep a candidate
    only when its score is strictly better than the best so far. */
module ModelSearch {
  import opened Wrappers

  /** BIC keeps the lowest score, DIC and CV the highest. */
  datatype Goal = Lowest | Highest

  /** A candidate that produced a number: its score and the model that goes with it. */
  datatype Scored<M> = Scored(score: real, model: M)

  /** What evaluating one candidate gives: an exception, `Ok(None)` for a NaN score
      (numpy's mean of an empty list), which no comparison prefers, or a score. */
  type Rating<M> = Result<Option<Scored<M>>>

  /** A Python float best score: starts at `float("Inf")` or `float("-Inf")`, then holds a candidate's score. */
  datatype Bound = NegInf | Finite(r: real) | PosInf

  /** `s` is strictly better than `t` under the goal. */
  predicate Beats(goal: Goal, s: real, t: real) {
    if goal == Lowest then s < t else s > t
  }

  /** The comparison `score < best_score` (Lowest) or `score > best_score` (Highest) of the loops. */
  predicate Improves(goal: Goal, s: real, best: Bound) {
    match best
    case NegInf => goal == Highest
    case PosInf => goal == Lowest
    case Finite(t) => Beats(goal, s, t)
  }

  /** The initial `best_score`. */
  function Initial(goal: Goal): Bound {
    if goal == Lowest then PosInf else NegInf
  }

  /** One step of the loop: a rated candidate replaces the best so far when there is none yet
      or when it is strictly better; a NaN candidate never does. */
  function Keep<M>(goal: Goal, best: Option<Scored<M>>, r: Option<Scored<M>>): Option<Scored<M>> {
    match r
    case None => best
    case Some(c) => if best.None? || Beats(goal, c.score, best.value.score) then r else best
  }

  /** The whole loop over `lo..hi` (ascending, both ends included): the first exception ends it,
      otherwise the best candidate kept. The loops of the selectors are proved against this. */
  function Search<M>(goal: Goal, eval: int -> Rating<M>, lo: int, hi: int): Result<Option<Scored<M>>>
    decreases hi - lo
  {
    if hi < lo then Ok(None)
    else
      match Search(goal, eval, lo, hi - 1)
      case Err(e) => Err(e)
      case Ok(best) =>
        match eval(hi)
        case Err(e) => Err(e)
        case Ok(r) => Ok(Keep(goal, best, r))
  }

  /** Candidate `n` produced a number. */
  predicate Rated<M>(eval: int -> Rating<M>, n: int) {
    eval(n).Ok? && eval(n).value.Some?
  }

  function ScoreAt<M>(eval: int -> Rating<M>, n: int): real
    requires Rated(eval, n)
  {
    eval(n).value.value.score
  }

  /** Independent description of the winner: `k` is a rated candidate of `lo..hi` that no rated
      candidate beats, and that strictly beats every rated candidate before it (earliest on ties). */
  predicate IsFirstBest<M>(goal: Goal, eval: int -> Rating<M>, lo: int, hi: int, k: int) {
    && lo <= k <= hi
    && Rated(eval, k)
    && (forall n :: lo <= n <= hi && Rated(eval, n) ==> !Beats(goal, ScoreAt(eval, n), ScoreAt(eval, k)))
    && (forall n :: lo <= n < k && Rated(eval, n) ==> Beats(goal, ScoreAt(eval, k), ScoreAt(eval, n)))
  }

  /** The loop variables `best_score`, `best_model` hold what the search has kept so far. */
  ghost predicate Tracks<M>(goal: Goal, bestScore: Bound, bestModel: Option<M>, best: Option<Scored<M>>) {
    match best
    case None => bestScore == Initial(goal) && bestModel == None
    case Some(c) => bestScore == Finite(c.score) && bestModel == Some(c.model)
  }

  /** One more pass of the loop: the next candidate's rating is offered to `Keep`. */
  lemma SearchStep<M>(goal: Goal, eval: int -> Rating<M>, lo: int, hi: int, best: Option<Scored<M>>, r: Option<Scored<M>>)
    requires lo <= hi
    requires Search(goal, eval, lo, hi - 1) == Ok(best) && eval(hi) == Ok(r)
    ensures Search(goal, eval, lo, hi) == Ok(Keep(goal, best, r))
  {
  }

  /** The search raises exactly when some candidate of the range raises. */
  lemma {:induction false} SearchFailsIffSomeCandidateFails<M>(goal: Goal, eval: int -> Rating<M>, lo: int, hi: int)
    ensures Search(goal, eval, lo, hi).Err? <==> exists n :: lo <= n <= hi && eval(n).Err?
    decreases hi - lo
  {
    if lo <= hi {
      SearchFailsIffSomeCandidateFails(goal, eval, lo, hi - 1);
      if Search(goal, eval, lo, hi - 1).Err? {
        var n :| lo <= n <= hi - 1 && eval(n).Err?;
        assert lo <= n <= hi && eval(n).Err?;
      }
    }
  }

  /** Without exceptions, the search keeps the first best rated candidate, and keeps nothing
      exactly when no candidate is rated (the range is empty or every score is NaN). */
  lemma {:induction false} SearchFindsFirstBest<M>(goal: Goal, eval: int -> Rating<M>, lo: int, hi: int)
    requires forall n :: lo <= n <= hi ==> eval(n).Ok?
    ensures Search(goal, eval, lo, hi).Ok?
    ensures Search(goal, eval, lo, hi).value.None? <==> forall n :: lo <= n <= hi ==> !Rated(eval, n)
    ensures Search(goal, eval, lo, hi).value.Some? ==>
      exists k :: IsFirstBest(goal, eval, lo, hi, k) && Search(goal, eval, lo, hi).value.value == eval(k).value.value
    decreases hi - lo
  {
    if lo <= hi {
      SearchFindsFirstBest(goal, eval, lo, hi - 1);
      var best := Search(goal, eval, lo, hi - 1).value;
      if best.None? {
        if Rated(eval, hi) {
          FirstRatedIsFirstBest(goal, eval, lo, hi);
        }
      } else {
        var k :| IsFirstBest(goal, eval, lo, hi - 1, k) && best.value == eval(k).value.value;
        if Rated(eval, hi) && Beats(goal, ScoreAt(eval, hi), ScoreAt(eval, k)) {
          NewcomerBecomesFirstBest(goal, eval, lo, hi, k);
        } else {
          FirstBestSurvivesNewcomer(goal, eval, lo, hi, k);
        }
      }
    }
  }

  /** A rated candidate after only unrated ones is the first best so far. */
  lemma FirstRatedIsFirstBest<M>(goal: Goal, eval: int -> Rating<M>, lo: int, hi: int)
    requires lo <= hi && Rated(eval, hi)
    requires forall n :: lo <= n <= hi - 1 ==> !Rated(eval, n)
    ensures IsFirstBest(goal, eval, lo, hi, hi)
  {
  }

  /** A candidate strictly better than the first best so far becomes the first best. */
  lemma NewcomerBecomesFirstBest<M>(goal: Goal, eval: int -> Rating<M>, lo: int, hi: int, k: int)
    requires IsFirstBest(goal, eval, lo, hi - 1, k)
    requires Rated(eval, hi) && Beats(goal, ScoreAt(eval, hi), ScoreAt(eval, k))
    ensures IsFirstBest(goal, eval, lo, hi, hi)
  {
    forall n | lo <= n <= hi && Rated(eval, n)
      ensures !Beats(goal, ScoreAt(eval, n), ScoreAt(eval, hi))
    {
      if n < hi {
        assert !Beats(goal, ScoreAt(eval, n), ScoreAt(eval, k));
      }
    }
    forall n | lo <= n < hi && Rated(eval, n)
      ensures Beats(goal, ScoreAt(eval, hi), ScoreAt(eval, n))
    {
      assert !Beats(goal, ScoreAt(eval, n), ScoreAt(eval, k));
    }
  }

  /** A candidate that is unrated or not strictly better leaves the first best in place. */
  lemma FirstBestSurvivesNewcomer<M>(goal: Goal, eval: int -> Rating<M>, lo: int, hi: int, k: int)
    requires IsFirstBest(goal, eval, lo, hi - 1, k)
    requires !(Rated(eval, hi) && Beats(goal, ScoreAt(eval, hi), ScoreAt(eval, k)))
    ensures IsFirstBest(goal, eval, lo, hi, k)
  {
  }

  /** The independent description determines the search's result. */
  lemma FirstBestIsKept<M>(goal: Goal, eval: int -> Rating<M>, lo: int, hi: int, k: int)
    requires forall n :: lo <= n <= hi ==> eval(n).Ok?
    requires IsFirstBest(goal, eval, lo, hi, k)
    ensures Search(goal, eval, lo, hi) == Ok(Some(eval(k).value.value))
  {
    SearchFindsFirstBest(goal, eval, lo, hi);
    var k' :| IsFirstBest(goal, eval, lo, hi, k') && Search(goal, eval, lo, hi).value.value == eval(k').value.value;
    FirstBestIsUnique(goal, eval, lo, hi, k, k');
  }

  /** At most one candidate is the first best. */
  lemma FirstBestIsUnique<M>(goal: Goal, eval: int -> Rating<M>, lo: int, hi: int, k: int, k': int)
    requires IsFirstBest(goal, eval, lo, hi, k) && IsFirstBest(goal, eval, lo, hi, k')
    ensures k == k'
  {
  }
}
