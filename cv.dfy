/** The CV strategy: the highest average held-out log-likelihood over k folds of the word's
    own examples, for each state count of the range. */
module SelectorCV {
  import opened Wrappers
  import opened Hmm
  import opened ModelSearch
  import opened Criteria
  import opened ModelSelector

  /** One fold: fit a fresh `n`-state model on the training examples (an exception escapes,
      unlike in base_model) and score it on the held-out examples. */
  function FoldResult<M>(sel: Selector, o: Oracles<M>, n: int, f: Fold): Result<(real, M)> {
    match o.fit(o.combine(f.train, sel.sequences), n)
    case Err(e) => Err(e)
    case Ok(m) =>
      match o.score(m, o.combine(f.test, sel.sequences))
      case Err(e) => Err(e)
      case Ok(logL) => Ok((logL, m))
  }

  /** The inner loop over the folds: each fold's held-out score and trained model, in order;
      the first exception ends it. */
  function FoldResults<M>(sel: Selector, o: Oracles<M>, n: int, folds: seq<Fold>): Result<seq<(real, M)>> {
    if folds == [] then Ok([])
    else
      match FoldResults(sel, o, n, folds[..|folds| - 1])
      case Err(e) => Err(e)
      case Ok(rs) =>
        match FoldResult(sel, o, n, folds[|folds| - 1])
        case Err(e) => Err(e)
        case Ok(r) => Ok(rs + [r])
  }

  /** The `scores` list: the held-out log-likelihoods of the folds. */
  function HeldOut<M>(rs: seq<(real, M)>): (scores: seq<real>)
  {
    seq(|rs|, i requires 0 <= i < |rs| => rs[i].0)
  }

  /** The inner loop raises exactly when some fold raises, and otherwise gives one result per
      fold, in fold order. */
  lemma {:induction false} FoldResultsMeaning<M>(sel: Selector, o: Oracles<M>, n: int, folds: seq<Fold>)
    ensures FoldResults(sel, o, n, folds).Err? <==> exists i :: 0 <= i < |folds| && FoldResult(sel, o, n, folds[i]).Err?
    ensures FoldResults(sel, o, n, folds).Ok? ==>
      |FoldResults(sel, o, n, folds).value| == |folds| &&
      forall i :: 0 <= i < |folds| ==> Ok(FoldResults(sel, o, n, folds).value[i]) == FoldResult(sel, o, n, folds[i])
  {
    if folds != [] {
      var init := folds[..|folds| - 1];
      FoldResultsMeaning(sel, o, n, init);
      if FoldResults(sel, o, n, init).Err? {
        var i :| 0 <= i < |init| && FoldResult(sel, o, n, init[i]).Err?;
        assert folds[i] == init[i];
      }
      assert forall i :: 0 <= i < |init| ==> folds[i] == init[i];
    }
  }

  /** When no fold raises, the `scores` list holds, for each fold in order, the held-out
      log-likelihood of a fresh `n`-state model trained on that fold's training examples. */
  lemma HeldOutIsFoldScores<M>(sel: Selector, o: Oracles<M>, n: int, folds: seq<Fold>)
    requires FoldResults(sel, o, n, folds).Ok?
    ensures |HeldOut(FoldResults(sel, o, n, folds).value)| == |folds|
    ensures forall i :: 0 <= i < |folds| ==>
      && o.fit(o.combine(folds[i].train, sel.sequences), n).Ok?
      && o.score(o.fit(o.combine(folds[i].train, sel.sequences), n).value, o.combine(folds[i].test, sel.sequences))
         == Ok(HeldOut(FoldResults(sel, o, n, folds).value)[i])
  {
    FoldResultsMeaning(sel, o, n, folds);
  }

  /** The loop body for `n` states: `KFold(n_splits=min(3, len(sequences)))`, the folds, then
      `np.average(scores)`, NaN when no fold ran; the model kept is the one of the last fold. */
  function Candidate<M>(sel: Selector, o: Oracles<M>, n: int): Rating<M> {
    match o.split(FoldCount(|sel.sequences|), sel.sequences)
    case Err(e) => Err(e)
    case Ok(folds) =>
      match FoldResults(sel, o, n, folds)
      case Err(e) => Err(e)
      case Ok(rs) =>
        if rs == [] then Ok(None)
        else Ok(Some(Scored(Mean(HeldOut(rs)), rs[|rs| - 1].1)))
  }

  function Eval<M>(sel: Selector, o: Oracles<M>): int -> Rating<M> {
    n => Candidate(sel, o, n)
  }

  /** The model `SelectorCV.select` returns. */
  function Cv<M>(sel: Selector, o: Oracles<M>): Option<M> {
    Outcome(sel, o, Search(Highest, Eval(sel, o), sel.minN, sel.maxN))
  }

  /** One more fold that succeeds extends the results of the folds before it. */
  lemma FoldResultsStep<M>(sel: Selector, o: Oracles<M>, n: int, folds: seq<Fold>, j: int, rs: seq<(real, M)>)
    requires 0 <= j < |folds|
    requires FoldResults(sel, o, n, folds[..j]) == Ok(rs)
    requires FoldResult(sel, o, n, folds[j]).Ok?
    ensures FoldResults(sel, o, n, folds[..j + 1]) == Ok(rs + [FoldResult(sel, o, n, folds[j]).value])
  {
    assert folds[..j + 1][..j] == folds[..j];
  }

  /** The inner `for` loop over the folds: the `scores` list and the model of the last fold
      (`base_hmm`, `None` before the first fold), or an exception when some fold raises. */
  method RunFolds<M>(sel: Selector, o: Oracles<M>, n: int, folds: seq<Fold>) returns (r: Result<(seq<real>, Option<M>)>)
    ensures r.Err? <==> FoldResults(sel, o, n, folds).Err?
    ensures r.Ok? ==>
      var rs := FoldResults(sel, o, n, folds).value;
      r.value.0 == HeldOut(rs) && r.value.1 == (if rs == [] then None else Some(rs[|rs| - 1].1))
  {
    var scores: seq<real> := [];
    var hmm: Option<M> := None;
    ghost var rs: seq<(real, M)> := [];
    var j := 0;
    while j < |folds|
      invariant 0 <= j <= |folds|
      invariant FoldResults(sel, o, n, folds[..j]) == Ok(rs)
      invariant |rs| == j && scores == HeldOut(rs)
      invariant hmm == if j == 0 then None else Some(rs[j - 1].1)
    {
      var fold := folds[j];
      var trained := o.fit(o.combine(fold.train, sel.sequences), n);
      var logL := if trained.Err? then Err(trained.error)
                  else o.score(trained.value, o.combine(fold.test, sel.sequences));
      if logL.Err? {
        FoldResultsMeaning(sel, o, n, folds);
        assert FoldResult(sel, o, n, folds[j]).Err?;
        return Err(logL.error);
      }
      FoldResultsStep(sel, o, n, folds, j, rs);
      scores := scores + [logL.value];
      hmm := Some(trained.value);
      rs := rs + [(logL.value, trained.value)];
      j := j + 1;
    }
    assert folds[..j] == folds;
    return Ok((scores, hmm));
  }

  /** The candidate for `n` in terms of what the fold loop gave: an exception, or the mean of
      `scores` with the last fold's model (NaN when there was no fold). */
  lemma CandidateOfRun<M>(sel: Selector, o: Oracles<M>, n: int, folds: seq<Fold>, run: Result<(seq<real>, Option<M>)>)
    requires o.split(FoldCount(|sel.sequences|), sel.sequences) == Ok(folds)
    requires run.Err? <==> FoldResults(sel, o, n, folds).Err?
    requires run.Ok? ==>
      var rs := FoldResults(sel, o, n, folds).value;
      run.value.0 == HeldOut(rs) && run.value.1 == (if rs == [] then None else Some(rs[|rs| - 1].1))
    ensures run.Err? ==> Candidate(sel, o, n).Err?
    ensures run.Ok? && run.value.0 == [] ==> Candidate(sel, o, n) == Ok(None)
    ensures run.Ok? && run.value.0 != [] ==>
      run.value.1.Some? && Candidate(sel, o, n) == Ok(Some(Scored(Mean(run.value.0), run.value.1.value)))
  {
  }

  /** `SelectorCV.select`: best from -Inf, strict `>`, the whole loop inside one `try`. */
  method Select<M>(sel: Selector, o: Oracles<M>) returns (model: Option<M>)
    ensures model == Cv(sel, o)
  {
    var bestScore := NegInf;
    var bestModel: Option<M> := None;
    ghost var best: Option<Scored<M>> := None;
    var splits := FoldCount(|sel.sequences|);
    var n := sel.minN;
    while n <= sel.maxN
      invariant n == sel.minN || sel.minN <= n <= sel.maxN + 1
      invariant Search(Highest, Eval(sel, o), sel.minN, n - 1) == Ok(best)
      invariant Tracks(Highest, bestScore, bestModel, best)
    {
      var folds := o.split(splits, sel.sequences);
      if folds.Err? {
        assert Eval(sel, o)(n).Err?;
        FailureFallsBack(sel, o, Highest, Eval(sel, o), n);
        return SelectConstant(sel, o);
      }
      var run := RunFolds(sel, o, n, folds.value);
      CandidateOfRun(sel, o, n, folds.value, run);
      if run.Err? {
        assert Eval(sel, o)(n).Err?;
        FailureFallsBack(sel, o, Highest, Eval(sel, o), n);
        return SelectConstant(sel, o);
      }
      var scores, hmm := run.value.0, run.value.1;
      ghost var rating: Option<Scored<M>> := if scores == [] then None else Some(Scored(Mean(scores), hmm.value));
      assert Eval(sel, o)(n) == Ok(rating);
      SearchStep(Highest, Eval(sel, o), sel.minN, n, best, rating);
      if scores != [] {
        var score := Mean(scores);
        if Improves(Highest, score, bestScore) {
          bestScore := Finite(score);
          bestModel := hmm;
          best := Some(Scored(score, hmm.value));
        }
      }
      n := n + 1;
    }
    return bestModel;
  }

  /** A rated candidate's score is the mean of its folds' held-out log-likelihoods, and its
      model is the one trained on the last fold. */
  lemma CvScoreIsMeanHeldOut<M>(sel: Selector, o: Oracles<M>, n: int)
    requires Rated(Eval(sel, o), n)
    ensures o.split(FoldCount(|sel.sequences|), sel.sequences).Ok?
    ensures var folds := o.split(FoldCount(|sel.sequences|), sel.sequences).value;
      && |folds| > 0
      && (forall i :: 0 <= i < |folds| ==> FoldResult(sel, o, n, folds[i]).Ok?)
      && ScoreAt(Eval(sel, o), n) == Mean(seq(|folds|, i requires 0 <= i < |folds| => FoldResult(sel, o, n, folds[i]).value.0))
      && Eval(sel, o)(n).value.value.model == FoldResult(sel, o, n, folds[|folds| - 1]).value.1
  {
    var folds := o.split(FoldCount(|sel.sequences|), sel.sequences).value;
    FoldResultsMeaning(sel, o, n, folds);
    var rs := FoldResults(sel, o, n, folds).value;
    assert HeldOut(rs) == seq(|folds|, i requires 0 <= i < |folds| => FoldResult(sel, o, n, folds[i]).value.0);
  }

  /** The CV policy: no model for an empty range; the constant model when the split, a fit or a
      score raises; otherwise the model trained on the last fold for the first state count
      with the highest average held-out score. */
  lemma CvKeepsHighestAverage<M>(sel: Selector, o: Oracles<M>)
    ensures sel.minN > sel.maxN ==> Cv(sel, o) == None
    ensures sel.minN <= sel.maxN && o.split(FoldCount(|sel.sequences|), sel.sequences).Err? ==>
      Cv(sel, o) == SelectConstant(sel, o)
    ensures (exists n :: sel.minN <= n <= sel.maxN && Candidate(sel, o, n).Err?) ==>
      Cv(sel, o) == SelectConstant(sel, o)
    ensures forall k :: (forall n :: sel.minN <= n <= sel.maxN ==> Candidate(sel, o, n).Ok?) &&
                        IsFirstBest(Highest, Eval(sel, o), sel.minN, sel.maxN, k) ==>
      var folds := o.split(FoldCount(|sel.sequences|), sel.sequences).value;
      && |folds| > 0
      && Cv(sel, o) == Some(o.fit(o.combine(folds[|folds| - 1].train, sel.sequences), k).value)
  {
    var eval := Eval(sel, o);
    SearchOutcome(sel, o, Highest, eval);
    if sel.minN <= sel.maxN && o.split(FoldCount(|sel.sequences|), sel.sequences).Err? {
      assert eval(sel.minN).Err?;
    }
    if exists n :: sel.minN <= n <= sel.maxN && Candidate(sel, o, n).Err? {
      var n :| sel.minN <= n <= sel.maxN && Candidate(sel, o, n).Err?;
      assert eval(n).Err?;
    }
    forall k | (forall n :: sel.minN <= n <= sel.maxN ==> Candidate(sel, o, n).Ok?) &&
               IsFirstBest(Highest, eval, sel.minN, sel.maxN, k)
      ensures var folds := o.split(FoldCount(|sel.sequences|), sel.sequences).value;
        && |folds| > 0
        && Cv(sel, o) == Some(o.fit(o.combine(folds[|folds| - 1].train, sel.sequences), k).value)
    {
      assert forall n :: sel.minN <= n <= sel.maxN ==> eval(n).Ok?;
      CvScoreIsMeanHeldOut(sel, o, k);
    }
  }
}
