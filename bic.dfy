/** The BIC strategy: the lowest Bayesian Information Criterion over the range of state counts. */
module SelectorBIC {
  import opened Wrappers
  import opened Hmm
  import opened ModelSearch
  import opened Criteria
  import opened ModelSelector

  /** One pass of the loop body for `n` states: fit (base_model), score on the word's own frames
      (`.score` on `None` raises), `p` from the feature count of the first frame (`X[0]` raises
      on a word without frames), then `-2 * logL + p * log(N)` with N the number of frames. */
  function Candidate<M>(sel: Selector, o: Oracles<M>, n: int): Rating<M> {
    match BaseModel(sel, o, n)
    case None => Err(NoneHasNoScore)
    case Some(m) =>
      match o.score(m, sel.own)
      case Err(e) => Err(e)
      case Ok(logL) =>
        if |sel.own.x| == 0 then Err(NoFrames)
        else Ok(Some(Scored(BicScore(logL, FreeParameters(n, |sel.own.x[0]|), o.log(|sel.own.x|)), m)))
  }

  function Eval<M>(sel: Selector, o: Oracles<M>): int -> Rating<M> {
    n => Candidate(sel, o, n)
  }

  /** The model `SelectorBIC.select` returns. */
  function Bic<M>(sel: Selector, o: Oracles<M>): Option<M> {
    Outcome(sel, o, Search(Lowest, Eval(sel, o), sel.minN, sel.maxN))
  }

  /** `SelectorBIC.select`: the loop over `min_n_components..max_n_components`, keeping
      `best_score` (from +Inf) and `best_model`, with the whole loop inside one `try`. */
  method Select<M>(sel: Selector, o: Oracles<M>) returns (model: Option<M>)
    ensures model == Bic(sel, o)
  {
    var bestScore := PosInf;
    var bestModel: Option<M> := None;
    ghost var best: Option<Scored<M>> := None;
    var n := sel.minN;
    while n <= sel.maxN
      invariant n == sel.minN || sel.minN <= n <= sel.maxN + 1
      invariant Search(Lowest, Eval(sel, o), sel.minN, n - 1) == Ok(best)
      invariant Tracks(Lowest, bestScore, bestModel, best)
    {
      var hmm := BaseModel(sel, o, n);
      var logL := if hmm.None? then Err(NoneHasNoScore) else o.score(hmm.value, sel.own);
      if logL.Err? || |sel.own.x| == 0 {
        // `.score` on None, a failed score, or `X[0]` on no frames: the `except:` branch
        assert Eval(sel, o)(n).Err?;
        FailureFallsBack(sel, o, Lowest, Eval(sel, o), n);
        return SelectConstant(sel, o);
      }
      var logN := o.log(|sel.own.x|);
      var p := FreeParameters(n, |sel.own.x[0]|);
      var score := BicScore(logL.value, p, logN);
      if Improves(Lowest, score, bestScore) {
        bestScore := Finite(score);
        bestModel := hmm;
        best := Some(Scored(score, hmm.value));
      }
      n := n + 1;
    }
    return bestModel;
  }

  /** The BIC policy: no model for an empty range; the constant model as soon as one candidate
      raises; otherwise the model of the lowest score, the smallest `n` among equal scores. */
  lemma BicKeepsLowestScore<M>(sel: Selector, o: Oracles<M>)
    ensures sel.minN > sel.maxN ==> Bic(sel, o) == None
    ensures (exists n :: sel.minN <= n <= sel.maxN && Candidate(sel, o, n).Err?) ==>
      Bic(sel, o) == SelectConstant(sel, o)
    ensures sel.minN <= sel.maxN && (forall n :: sel.minN <= n <= sel.maxN ==> Candidate(sel, o, n).Ok?) ==>
      exists k :: IsFirstBest(Lowest, Eval(sel, o), sel.minN, sel.maxN, k) && Bic(sel, o) == BaseModel(sel, o, k)
  {
    var eval := Eval(sel, o);
    SearchOutcome(sel, o, Lowest, eval);
    if exists n :: sel.minN <= n <= sel.maxN && Candidate(sel, o, n).Err? {
      var n :| sel.minN <= n <= sel.maxN && Candidate(sel, o, n).Err?;
      assert eval(n).Err?;
    }
    if sel.minN <= sel.maxN && forall n :: sel.minN <= n <= sel.maxN ==> Candidate(sel, o, n).Ok? {
      assert forall n :: sel.minN <= n <= sel.maxN ==> eval(n).Ok?;
      SearchFindsFirstBest(Lowest, eval, sel.minN, sel.maxN);
      assert Rated(eval, sel.minN);
      var k :| IsFirstBest(Lowest, eval, sel.minN, sel.maxN, k);
      assert Bic(sel, o) == Some(eval(k).value.value.model);
    }
  }

  /** A fit that fails anywhere in a non-empty range, or a word without frames, makes BIC
      return the constant model. */
  lemma BicFailedFitFallsBack<M>(sel: Selector, o: Oracles<M>, n: int)
    requires sel.minN <= n <= sel.maxN
    requires o.fit(sel.own, n).Err? || |sel.own.x| == 0
    ensures Bic(sel, o) == SelectConstant(sel, o)
  {
    assert Candidate(sel, o, n).Err?;
    BicKeepsLowestScore(sel, o);
  }

  /** When only the `n_constant`-state fit succeeds, BIC over a non-empty range returns
      exactly the constant strategy's model. */
  lemma BicAgreesWithConstant<M>(sel: Selector, o: Oracles<M>)
    requires sel.minN <= sel.maxN
    requires forall n :: n != sel.nConstant ==> o.fit(sel.own, n).Err?
    ensures Bic(sel, o) == SelectConstant(sel, o)
  {
    BicKeepsLowestScore(sel, o);
    if sel.minN != sel.nConstant {
      BicFailedFitFallsBack(sel, o, sel.minN);
    } else if sel.maxN != sel.nConstant {
      BicFailedFitFallsBack(sel, o, sel.maxN);
    } else if Candidate(sel, o, sel.nConstant).Ok? {
      var k :| IsFirstBest(Lowest, Eval(sel, o), sel.minN, sel.maxN, k) && Bic(sel, o) == BaseModel(sel, o, k);
      assert k == sel.nConstant;
    } else {
      assert exists n :: sel.minN <= n <= sel.maxN && Candidate(sel, o, n).Err?;
    }
  }

  /** BIC never yields a NaN score, so over a non-empty range it returns a model whenever the
      constant fallback has one: `None` comes only from an empty range or a failed fallback. */
  lemma BicReturnsSomeModel<M>(sel: Selector, o: Oracles<M>)
    requires sel.minN <= sel.maxN
    requires SelectConstant(sel, o).Some?
    ensures Bic(sel, o).Some?
  {
    SearchOutcome(sel, o, Lowest, Eval(sel, o));
    if forall n :: sel.minN <= n <= sel.maxN ==> Eval(sel, o)(n).Ok? {
      assert Rated(Eval(sel, o), sel.minN);
    }
  }
}
