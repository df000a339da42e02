/** The DIC strategy: the highest Discriminative Information Criterion, own log-likelihood minus
    the mean log-likelihood of every other word, over the range of state counts. Both the code
    as written (which always raises) and the evidently intended code are modelled. */
module SelectorDIC {
  import opened Wrappers
  import opened Hmm
  import opened ModelSearch
  import opened Criteria
  import opened ModelSelector

  /** The words other than `me`, in the order of `words` (see `OthersConcat`). */
  function Others(words: seq<string>, me: string): (r: seq<string>)
    ensures forall w :: w in r <==> w in words && w != me
    ensures |r| <= |words|
  {
    if words == [] then []
    else Others(words[..|words| - 1], me) + (if words[|words| - 1] == me then [] else [words[|words| - 1]])
  }

  /** Each other word occurs in `Others` exactly as often as in `words`, and `me` not at all. */
  lemma {:induction false} OthersCounts(words: seq<string>, me: string)
    ensures multiset(Others(words, me)) == multiset(words)[me := 0]
  {
    if words != [] {
      var init, w := words[..|words| - 1], words[|words| - 1];
      OthersCounts(init, me);
      assert words == init + [w];
    }
  }

  /** Filtering keeps the order: the other words of `a + b` are those of `a`, then those of `b`. */
  lemma {:induction false} OthersConcat(a: seq<string>, b: seq<string>, me: string)
    ensures Others(a + b, me) == Others(a, me) + Others(b, me)
    decreases |b|
  {
    if b != [] {
      var init, w := b[..|b| - 1], b[|b| - 1];
      assert (a + b)[..|a + b| - 1] == a + init;
      OthersConcat(a, init, me);
    } else {
      assert a + b == a;
    }
  }

  /** When the words are the keys of a dictionary (each once), there are `M - 1` other words
      if `me` is one of the `M` keys, and `M` otherwise. */
  lemma {:induction false} OthersOfKeys(words: seq<string>, me: string)
    requires forall i, j :: 0 <= i < j < |words| ==> words[i] != words[j]
    ensures |Others(words, me)| == if me in words then |words| - 1 else |words|
  {
    if words != [] {
      var init, w := words[..|words| - 1], words[|words| - 1];
      OthersOfKeys(init, me);
      if w == me {
        assert me !in init by {
          forall i | 0 <= i < |init|
            ensures init[i] != me
          {
            assert words[i] != words[|words| - 1];
          }
        }
      }
    }
  }

  /** Word `w` can be scored: its data is in all_word_Xlengths and the model exists and scores it. */
  predicate Scorable<M>(sel: Selector, o: Oracles<M>, hmm: Option<M>, w: string) {
    w in sel.hwords && hmm.Some? && o.score(hmm.value, sel.hwords[w]).Ok?
  }

  /** The inner loop over `words` (a prefix of `self.words`): append the model's log-likelihood of
      every word other than `this_word`; a missing key, a `None` model or a failed score raises. */
  function OtherScores<M>(sel: Selector, o: Oracles<M>, hmm: Option<M>, words: seq<string>): Result<seq<real>> {
    if words == [] then Ok([])
    else
      match OtherScores(sel, o, hmm, words[..|words| - 1])
      case Err(e) => Err(e)
      case Ok(scores) =>
        var w := words[|words| - 1];
        if w == sel.thisWord then Ok(scores)
        else if w !in sel.hwords then Err(KeyMissing)
        else if hmm.None? then Err(NoneHasNoScore)
        else
          match o.score(hmm.value, sel.hwords[w])
          case Err(e) => Err(e)
          case Ok(s) => Ok(scores + [s])
  }

  /** The inner loop raises exactly when some other word cannot be scored; otherwise `scores`
      holds the log-likelihood of each other word, in order. */
  lemma {:induction false} OtherScoresMeaning<M>(sel: Selector, o: Oracles<M>, hmm: Option<M>, words: seq<string>)
    ensures OtherScores(sel, o, hmm, words).Err? <==>
      exists w :: w in Others(words, sel.thisWord) && !Scorable(sel, o, hmm, w)
    ensures OtherScores(sel, o, hmm, words).Ok? ==>
      |OtherScores(sel, o, hmm, words).value| == |Others(words, sel.thisWord)|
    ensures OtherScores(sel, o, hmm, words).Ok? ==> forall i :: 0 <= i < |Others(words, sel.thisWord)| ==>
      Scorable(sel, o, hmm, Others(words, sel.thisWord)[i]) &&
      o.score(hmm.value, sel.hwords[Others(words, sel.thisWord)[i]]) == Ok(OtherScores(sel, o, hmm, words).value[i])
  {
    if words != [] {
      var init, w := words[..|words| - 1], words[|words| - 1];
      OtherScoresMeaning(sel, o, hmm, init);
      assert Others(words, sel.thisWord) == Others(init, sel.thisWord) + (if w == sel.thisWord then [] else [w]);
      if w != sel.thisWord {
        assert w in Others(words, sel.thisWord);
      }
    }
  }

  /** Once a prefix of the words raises, the whole inner loop raises the same exception. */
  lemma {:induction false} OtherScoresFailPersists<M>(sel: Selector, o: Oracles<M>, hmm: Option<M>, words: seq<string>, i: nat)
    requires i <= |words|
    requires OtherScores(sel, o, hmm, words[..i]).Err?
    ensures OtherScores(sel, o, hmm, words) == OtherScores(sel, o, hmm, words[..i])
    decreases |words| - i
  {
    if i < |words| {
      assert words[..i + 1][..i] == words[..i];
      OtherScoresFailPersists(sel, o, hmm, words, i + 1);
    } else {
      assert words[..i] == words;
    }
  }

  /** The inner `for word in self.words` loop, building the `scores` list. */
  method ScoreOtherWords<M>(sel: Selector, o: Oracles<M>, hmm: Option<M>) returns (r: Result<seq<real>>)
    ensures r == OtherScores(sel, o, hmm, sel.words)
  {
    var scores: seq<real> := [];
    var i := 0;
    while i < |sel.words|
      invariant 0 <= i <= |sel.words|
      invariant OtherScores(sel, o, hmm, sel.words[..i]) == Ok(scores)
    {
      var word := sel.words[i];
      ghost var prefix := sel.words[..i + 1];
      assert prefix[..|prefix| - 1] == sel.words[..i] && prefix[|prefix| - 1] == word;
      if word != sel.thisWord {
        var logL := if word !in sel.hwords then Err(KeyMissing)
                    else if hmm.None? then Err(NoneHasNoScore)
                    else o.score(hmm.value, sel.hwords[word]);
        if logL.Err? {
          OtherScoresFailPersists(sel, o, hmm, sel.words, i + 1);
          return Err(logL.error);
        }
        scores := scores + [logL.value];
      }
      i := i + 1;
    }
    assert sel.words[..i] == sel.words;
    return Ok(scores);
  }

  /** Evidently intended loop body for `n` states: the own log-likelihood (the assignment to
      `score` as `base_hmm.score(self.X, self.lengths)`) minus the mean of `scores` (the
      `dic_score` line with `np.mean(scores)`); with no other word that mean is NaN, which is never kept. */
  function Candidate<M>(sel: Selector, o: Oracles<M>, n: int): Rating<M> {
    var hmm := BaseModel(sel, o, n);
    match hmm
    case None => Err(NoneHasNoScore)
    case Some(m) =>
      match o.score(m, sel.own)
      case Err(e) => Err(e)
      case Ok(own) =>
        match OtherScores(sel, o, hmm, sel.words)
        case Err(e) => Err(e)
        case Ok(scores) => if scores == [] then Ok(None) else Ok(Some(Scored(DicScore(own, scores), m)))
  }

  function Eval<M>(sel: Selector, o: Oracles<M>): int -> Rating<M> {
    n => Candidate(sel, o, n)
  }

  /** The model the evidently intended `SelectorDIC.select` returns. */
  function Dic<M>(sel: Selector, o: Oracles<M>): Option<M> {
    Outcome(sel, o, Search(Highest, Eval(sel, o), sel.minN, sel.maxN))
  }

  /** The loop body as written: `score` is bound to the model object itself, the other words
      are scored, and then `score - np.mean(base_hmm)` does arithmetic on a model object (or on
      `None`), which raises TypeError whatever the scores were. */
  function CandidateAsWritten<M>(sel: Selector, o: Oracles<M>, n: int): Rating<M> {
    var hmm := BaseModel(sel, o, n);
    match OtherScores(sel, o, hmm, sel.words)
    case Err(e) => Err(e)
    case Ok(_) => Err(NotANumber)
  }

  function EvalAsWritten<M>(sel: Selector, o: Oracles<M>): int -> Rating<M> {
    n => CandidateAsWritten(sel, o, n)
  }

  /** The model `SelectorDIC.select` as written returns. */
  function DicAsWritten<M>(sel: Selector, o: Oracles<M>): Option<M> {
    Outcome(sel, o, Search(Highest, EvalAsWritten(sel, o), sel.minN, sel.maxN))
  }

  /** `SelectorDIC.select` with the own-score assignment and the `dic_score` line corrected:
      best from -Inf, strict `>`. */
  method Select<M>(sel: Selector, o: Oracles<M>) returns (model: Option<M>)
    ensures model == Dic(sel, o)
  {
    var bestScore := NegInf;
    var bestModel: Option<M> := None;
    ghost var best: Option<Scored<M>> := None;
    var n := sel.minN;
    while n <= sel.maxN
      invariant n == sel.minN || sel.minN <= n <= sel.maxN + 1
      invariant Search(Highest, Eval(sel, o), sel.minN, n - 1) == Ok(best)
      invariant Tracks(Highest, bestScore, bestModel, best)
    {
      var hmm := BaseModel(sel, o, n);
      var own := if hmm.None? then Err(NoneHasNoScore) else o.score(hmm.value, sel.own);
      if own.Err? {
        assert Eval(sel, o)(n).Err?;
        FailureFallsBack(sel, o, Highest, Eval(sel, o), n);
        return SelectConstant(sel, o);
      }
      var scores := ScoreOtherWords(sel, o, hmm);
      if scores.Err? {
        assert Eval(sel, o)(n).Err?;
        FailureFallsBack(sel, o, Highest, Eval(sel, o), n);
        return SelectConstant(sel, o);
      }
      if scores.value != [] {
        var dicScore := DicScore(own.value, scores.value);
        if Improves(Highest, dicScore, bestScore) {
          bestScore := Finite(dicScore);
          bestModel := hmm;
          best := Some(Scored(dicScore, hmm.value));
        }
      }
      n := n + 1;
    }
    return bestModel;
  }

  /** `SelectorDIC.select` as written: the first pass of the loop always raises. */
  method SelectAsWritten<M>(sel: Selector, o: Oracles<M>) returns (model: Option<M>)
    ensures model == DicAsWritten(sel, o)
  {
    if sel.minN <= sel.maxN {
      // the first pass of the loop, for n = min_n_components, already raises
      var hmm := BaseModel(sel, o, sel.minN);
      var scores := ScoreOtherWords(sel, o, hmm);
      // `score - np.mean(base_hmm)` raises TypeError, so the `except:` branch runs
      assert EvalAsWritten(sel, o)(sel.minN).Err?;
      SearchOutcome(sel, o, Highest, EvalAsWritten(sel, o));
      return SelectConstant(sel, o);
    }
    return None;
  }

  /** The DIC policy: no model for an empty range; the constant model as soon as one candidate
      raises; otherwise the model of the highest score, the smallest `n` among equal scores. */
  lemma DicKeepsHighestScore<M>(sel: Selector, o: Oracles<M>)
    ensures sel.minN > sel.maxN ==> Dic(sel, o) == None
    ensures (exists n :: sel.minN <= n <= sel.maxN && Candidate(sel, o, n).Err?) ==>
      Dic(sel, o) == SelectConstant(sel, o)
    ensures forall k :: (forall n :: sel.minN <= n <= sel.maxN ==> Candidate(sel, o, n).Ok?) &&
                        IsFirstBest(Highest, Eval(sel, o), sel.minN, sel.maxN, k) ==>
      Dic(sel, o) == BaseModel(sel, o, k)
  {
    var eval := Eval(sel, o);
    SearchOutcome(sel, o, Highest, eval);
    if exists n :: sel.minN <= n <= sel.maxN && Candidate(sel, o, n).Err? {
      var n :| sel.minN <= n <= sel.maxN && Candidate(sel, o, n).Err?;
      assert eval(n).Err?;
    }
    if forall n :: sel.minN <= n <= sel.maxN ==> Candidate(sel, o, n).Ok? {
      assert forall n :: sel.minN <= n <= sel.maxN ==> eval(n).Ok?;
    }
  }

  /** With no word besides `this_word`, every candidate's DIC is NaN: unless a fit or a score
      raises, DIC returns no model. */
  lemma DicOneWordGivesNoModel<M>(sel: Selector, o: Oracles<M>)
    requires Others(sel.words, sel.thisWord) == []
    requires forall n :: sel.minN <= n <= sel.maxN ==>
      o.fit(sel.own, n).Ok? && o.score(o.fit(sel.own, n).value, sel.own).Ok?
    ensures Dic(sel, o) == None
  {
    var eval := Eval(sel, o);
    forall n | sel.minN <= n <= sel.maxN
      ensures eval(n).Ok? && !Rated(eval, n)
    {
      OtherScoresMeaning(sel, o, BaseModel(sel, o, n), sel.words);
    }
    SearchOutcome(sel, o, Highest, eval);
  }

  /** When only the `n_constant`-state fit succeeds and there is another word to compare
      with, DIC over a non-empty range returns exactly the constant strategy's model. */
  lemma DicAgreesWithConstant<M>(sel: Selector, o: Oracles<M>)
    requires sel.minN <= sel.maxN
    requires Others(sel.words, sel.thisWord) != []
    requires forall n :: n != sel.nConstant ==> o.fit(sel.own, n).Err?
    ensures Dic(sel, o) == SelectConstant(sel, o)
  {
    DicKeepsHighestScore(sel, o);
    if sel.minN != sel.nConstant {
      assert Candidate(sel, o, sel.minN).Err?;
    } else if sel.maxN != sel.nConstant {
      assert Candidate(sel, o, sel.maxN).Err?;
    } else if Candidate(sel, o, sel.nConstant).Ok? {
      OtherScoresMeaning(sel, o, BaseModel(sel, o, sel.nConstant), sel.words);
      assert IsFirstBest(Highest, Eval(sel, o), sel.minN, sel.maxN, sel.nConstant);
    } else {
      assert exists n :: sel.minN <= n <= sel.maxN && Candidate(sel, o, n).Err?;
    }
  }

  /** As written, DIC never selects by its criterion: a non-empty range always ends in the
      constant model, an empty one in no model. */
  lemma DicAsWrittenAlwaysFallsBack<M>(sel: Selector, o: Oracles<M>)
    ensures DicAsWritten(sel, o) == if sel.minN <= sel.maxN then SelectConstant(sel, o) else None
  {
    SearchOutcome(sel, o, Highest, EvalAsWritten(sel, o));
    if sel.minN <= sel.maxN {
      assert EvalAsWritten(sel, o)(sel.minN).Err?;
    }
  }

  /** A two-word corpus, the range 2..2 and fits that always succeed: the intended DIC returns
      the 2-state model, the code as written the 3-state constant model. */
  lemma DicAsWrittenDiffersFromIntended()
    ensures exists sel: Selector, o: Oracles<int> :: Dic(sel, o) == Some(2) && DicAsWritten(sel, o) == Some(3)
  {
    var data := Observations([[0.0]], [1]);
    var sel := Selector(["a", "b"], map["a" := data, "b" := data], "a", [[[0.0]]], data, 3, 2, 2);
    var o: Oracles<int> := Oracles((obs, n) => Ok(n), (m, obs) => Ok(0.0), x => 0.0,
                                    (k, s) => Err(SplitFailed), (idx, s) => data);
    assert sel.words[..1] == ["a"] && sel.words[..1][..0] == [];
    assert OtherScores(sel, o, Some(2), []) == Ok([]);
    assert OtherScores(sel, o, Some(2), ["a"]) == Ok([]);
    assert "b" != "a" && "b" in sel.hwords && o.score(2, sel.hwords["b"]) == Ok(0.0);
    assert sel.words[..|sel.words| - 1] == ["a"] && sel.words[|sel.words| - 1] == "b";
    assert [] + [0.0] == [0.0];
    assert OtherScores(sel, o, Some(2), sel.words) == Ok([0.0]);
    assert Candidate(sel, o, 2) == Ok(Some(Scored(DicScore(0.0, [0.0]), 2)));
    DicAsWrittenAlwaysFallsBack(sel, o);
    assert Dic(sel, o) == Some(2);
  }
}
