# HMM state-count selection, modelled in Dafny

This project models `P-4-Recognizer/my_model_selectors.py`, the part of an ASL word recognizer
that decides how many hidden states the Gaussian HMM of one word should have. A selector is
built for one word. Its `select()` tries the state counts `min_n_components..max_n_components`
(the constant strategy tries only `n_constant`) and returns one trained model, or `None`:

- `SelectorConstant` fits `n_constant` states and does no search.
- `SelectorBIC` keeps the lowest Bayesian Information Criterion.
- `SelectorDIC` keeps the highest Discriminative Information Criterion.
- `SelectorCV` keeps the highest average held-out log-likelihood over k folds.

All of them share `base_model`, which never raises and returns `None` when a fit fails.

Training, scoring, `np.log`, the k-fold split and `combine_sequences` are foreign code. They are
parameters of the model (`Hmm.Oracles`): a fit and a score that return a value or an
exception, a log function, a split into (train, test) index lists, and a combiner.

Modules:
- `Wrappers` holds `Option`, `Result` and the exception kinds.
- `Hmm` holds the observations, the folds and the oracles.
- `ModelSearch` is the search policy the three searching selectors share: ascending over an
  inclusive range, stop at the first exception, keep a candidate only when it is strictly better.
  `Search` is that policy as a function. `IsFirstBest` describes the winner independently.
- `Criteria` holds the parameter count, the BIC and DIC formulas over exact reals, the mean and
  the fold count.
- `ModelSelector` holds construction, `base_model`, the constant strategy, and how a search
  outcome becomes the returned model.
- `SelectorBIC`, `SelectorDIC` and `SelectorCV` each hold a `Select` method that runs the
  source's loops and is proved equal to a specification function (`Bic`, `Dic`, `Cv`), plus the
  lemmas about that function. `SelectorDIC.Select` runs the DIC loop with the own-score
  assignment and the `dic_score` line corrected; the code as written is
  `SelectorDIC.SelectAsWritten` (`DicAsWritten`), see Findings.
- `Selection` holds the strategy as a closed datatype and dispatches to it.

A candidate's evaluation has three outcomes. It can raise, which ends the search in the
`except:` branch. It can produce a number. Or its score can be NaN, because numpy's mean of an
empty list is NaN, and NaN never wins a `<` or `>` comparison.

## Model

| member | source | states |
|---|---|---|
| `ModelSelector.NewSelector` | P-4-Recognizer/my_model_selectors.py:16-29 | construction fails with KeyError exactly when `this_word` is missing from either dictionary; otherwise the selector holds the dictionary's keys (each once) as `words`, that word's sequences and `(X, lengths)`, and the given bounds, with defaults 3 and 2..10 |
| `ModelSelector.BaseModel` | P-4-Recognizer/my_model_selectors.py:34-47 | never raises: `None` exactly when the fit raises, otherwise the fitted model |
| `ModelSelector.SelectConstant` | P-4-Recognizer/my_model_selectors.py:55-61 | no search: the `n_constant`-state fit of the word's own frames, `None` exactly when that fit fails |
| `ModelSelector.SearchOutcome` | P-4-Recognizer/my_model_selectors.py:80-97 | for any candidate evaluation: an empty range returns the initial `None`, not the fallback; one raising candidate turns the whole result into the constant model; otherwise no model exactly when no candidate is rated, else the model of the first best candidate |
| `ModelSearch.SearchFailsIffSomeCandidateFails` | P-4-Recognizer/my_model_selectors.py:83-97 | the search loop raises exactly when some candidate of the inclusive range raises |
| `ModelSearch.SearchFindsFirstBest` | P-4-Recognizer/my_model_selectors.py:84-95 | without exceptions, the ascending loop with strict improvement keeps a candidate that no other beats and that strictly beats every earlier one, so the smallest n wins ties; it keeps nothing exactly when no candidate is rated |
| `ModelSearch.FirstBestIsUnique` | P-4-Recognizer/my_model_selectors.py:92-94 | at most one candidate of a range is the first best, so the winner is well defined |
| `ModelSearch.FirstBestIsKept` | P-4-Recognizer/my_model_selectors.py:92-94 | the independent first-best description determines what the loop keeps |
| `Criteria.FreeParametersByKind` | P-4-Recognizer/my_model_selectors.py:89 | `n*n + 2*n*d - 1` is the count of free transition, initial, mean and variance parameters |
| `Criteria.FreeParametersGrow` | P-4-Recognizer/my_model_selectors.py:89 | the parameter count strictly increases with the number of states |
| `Criteria.BicPenalizesStates` | P-4-Recognizer/my_model_selectors.py:86-90 | with equal log-likelihood and `log N > 0`, more states give a strictly higher (worse) BIC |
| `Criteria.BicLikelihoodRatio` | P-4-Recognizer/my_model_selectors.py:90-92 | one BIC is lower than another exactly when twice the log-likelihood gain exceeds the extra parameters times `log N` |
| `Criteria.MeanBetween` | P-4-Recognizer/my_model_selectors.py:159 | an average lies between any lower and upper bound of the averaged values |
| `Criteria.DicIsMeanMargin` | P-4-Recognizer/my_model_selectors.py:107 | own log-likelihood minus the mean of the others equals the mean of the per-word margins `own - other` |
| `Criteria.FoldCount` | P-4-Recognizer/my_model_selectors.py:146 | the fold count is three, or the number of examples when there are fewer |
| `Criteria.SumOfMargins` | P-4-Recognizer/my_model_selectors.py:107 | the margins against the other words sum to the count times the own log-likelihood, minus the sum of the others |
| `SelectorBIC.Select` | P-4-Recognizer/my_model_selectors.py:71-97 | the loop with `best_score` from +Inf and `best_model` from `None` returns exactly the BIC specification `Bic` |
| `SelectorBIC.BicKeepsLowestScore` | P-4-Recognizer/my_model_selectors.py:80-97 | an empty range gives `None`; a raising candidate gives the constant model; otherwise the returned model is `base_model(k)` for the first k of lowest BIC |
| `SelectorBIC.BicFailedFitFallsBack` | P-4-Recognizer/my_model_selectors.py:83-97 | a fit that fails at any n of a non-empty range (`.score` on `None`), or a word without frames (`X[0]`), gives the constant model |
| `SelectorBIC.BicAgreesWithConstant` | P-4-Recognizer/my_model_selectors.py:83-97 | when only the `n_constant` fit succeeds, BIC over a non-empty range returns the constant model |
| `SelectorBIC.BicReturnsSomeModel` | P-4-Recognizer/my_model_selectors.py:80-95 | over a non-empty range BIC returns a model whenever the constant fallback has one |
| `SelectorDIC.Others` | P-4-Recognizer/my_model_selectors.py:122-123 | the words compared against are exactly the words other than `this_word` |
| `SelectorDIC.OthersCounts` | P-4-Recognizer/my_model_selectors.py:122-123 | each other word is compared against as often as it occurs in `self.words`, and `this_word` never (as multisets, `words` with `this_word` removed) |
| `SelectorDIC.OthersConcat` | P-4-Recognizer/my_model_selectors.py:122-123 | the other words keep the iteration order of `self.words`: those of a prefix come before those of the rest |
| `SelectorDIC.OthersOfKeys` | P-4-Recognizer/my_model_selectors.py:107-123 | over a dictionary's keys, each once, there are `M - 1` other words when `this_word` is one of the `M` keys, the count the mean of the docstring formula divides by |
| `SelectorDIC.OtherScoresMeaning` | P-4-Recognizer/my_model_selectors.py:121-125 | the `scores` loop raises exactly when some other word has no data, the model is `None`, or scoring fails; otherwise `scores` holds each other word's log-likelihood, in order |
| `SelectorDIC.ScoreOtherWords` | P-4-Recognizer/my_model_selectors.py:121-125 | the inner loop builds exactly the `scores` list, or the first exception |
| `SelectorDIC.Select` | P-4-Recognizer/my_model_selectors.py:110-132 | with lines 120 and 126 corrected, the loop returns exactly the DIC specification `Dic` |
| `SelectorDIC.SelectAsWritten` | P-4-Recognizer/my_model_selectors.py:110-132 | the code as written returns exactly `DicAsWritten` |
| `SelectorDIC.DicKeepsHighestScore` | P-4-Recognizer/my_model_selectors.py:114-132 | an empty range gives `None`; a raising candidate gives the constant model; otherwise `base_model(k)` for the first k of highest DIC |
| `SelectorDIC.DicOneWordGivesNoModel` | P-4-Recognizer/my_model_selectors.py:121-129 | with no other word every DIC is NaN, so unless something raises, DIC returns no model |
| `SelectorDIC.DicAgreesWithConstant` | P-4-Recognizer/my_model_selectors.py:117-132 | when only the `n_constant` fit succeeds and another word exists, DIC over a non-empty range returns the constant model |
| `SelectorDIC.DicAsWrittenAlwaysFallsBack` | P-4-Recognizer/my_model_selectors.py:119-132 | as written, DIC returns the constant model for every non-empty range and `None` for an empty one |
| `SelectorDIC.DicAsWrittenDiffersFromIntended` | P-4-Recognizer/my_model_selectors.py:120-126 | on a two-word corpus with range 2..2, the intended DIC returns the 2-state model and the code as written returns the 3-state constant model |
| `SelectorCV.HeldOutIsFoldScores` | P-4-Recognizer/my_model_selectors.py:152-158 | when no fold raises, `scores` has one entry per fold, and entry i is the held-out log-likelihood of a model fitted on fold i's training examples, scored on its test examples |
| `SelectorCV.FoldResultsMeaning` | P-4-Recognizer/my_model_selectors.py:152-158 | the fold loop raises exactly when some fold's fit or score raises; otherwise it gives one result per fold, in order |
| `SelectorCV.RunFolds` | P-4-Recognizer/my_model_selectors.py:151-158 | the inner loop over the folds raises exactly when some fold raises; otherwise it gives the `scores` list and the last fold's `base_hmm` (none when there is no fold) |
| `SelectorCV.Select` | P-4-Recognizer/my_model_selectors.py:140-165 | the nested loops return exactly the CV specification `Cv` |
| `SelectorCV.CvScoreIsMeanHeldOut` | P-4-Recognizer/my_model_selectors.py:152-159 | a rated candidate's score is the mean of its folds' held-out log-likelihoods, and its model is the one trained on the last fold |
| `SelectorCV.CvKeepsHighestAverage` | P-4-Recognizer/my_model_selectors.py:144-165 | an empty range gives `None`; a failed split, fit or score gives the constant model; otherwise the last-fold model of the first k with the highest average |
| `Selection.Select` | P-4-Recognizer/my_model_selectors.py:11-14 | the strategy pattern as a closed choice: the `select()` result of Constant, BIC and CV, and of DIC corrected (`Dic`, not `DicAsWritten`) |
| `Selection.OnlyConstantFitsGivesConstantModel` | P-4-Recognizer/my_model_selectors.py:83-165 | when every fit with a state count other than `n_constant` fails, BIC, DIC corrected and CV end with the constant model (for DIC another word must exist; for CV the range must hold another count and the split must give a fold) |

## Left out

- The foreign code is left out: Gaussian HMM training by EM, its log-likelihood `score`, `np.log`, sklearn's `KFold` and `asl_utils.combine_sequences`. Each is a supplied function of `Hmm.Oracles`; the source of `combine_sequences` is not part of this model.
- `Hmm.Oracles.combine` is total, so an exception raised inside `combine_sequences` is not modelled.
- Floating point is left out. Scores are exact reals. A score oracle cannot return NaN or infinity. The only NaN modelled is numpy's mean of an empty list.
- `random_state`, `verbose` printing and `warnings.filterwarnings` are left out. They are a seed passed to the foreign fit, diagnostics, and global settings.
- The conditions under which `KFold` itself raises belong to the split oracle. For example, it raises when `n_splits` is below 2, which happens for a word with fewer than two examples.
- Fold disjointness is not modelled. Train and test indices not overlapping is a guarantee of `KFold`, and the source never checks it.
- `all_word_sequences` is a Python dict. The model represents it by its keys in iteration order (`Selector.words`, each key once, as `NewSelector` requires) together with its values.
- `Selection.Select`: its DIC branch is the corrected DIC (`SelectorDIC.Dic`), not what `SelectorDIC.select()` does as written (`SelectorDIC.DicAsWritten`, which always falls back to the constant model; see Findings).
- Apart from the DIC defect under Findings, where the code and the intended design disagree, the model follows the code:
  - One raising candidate abandons the whole search for the constant model. It is not skipped.
  - An empty range (`min > max`) returns `None`. It does not raise a configuration error.
  - With a single word, the corrected DIC has no other word to compare with. Its mean is NaN, so DIC returns no model.
- `SelectorCV.Select`: when the split gives no folds, `np.average([])` is NaN and the candidate is never kept. Python's `base_hmm` from an earlier iteration therefore never matters, and it is not modelled.

## Findings

| source | as written | input that shows it | evidently intended | confidence | as-written member | corrected member |
|---|---|---|---|---|---|---|
| P-4-Recognizer/my_model_selectors.py:120-126 | `score = base_hmm` binds the model object, and `score - np.mean(base_hmm)` does arithmetic on a model object (or `None`). This raises TypeError, so every non-empty range ends in the constant model | two words, range 2..2, every fit and score succeeding: the as-written code returns the 3-state constant model instead of the 2-state model | `score = base_hmm.score(self.X, self.lengths)` and `dic_score = score - np.mean(scores)`, as the docstring's formula (line 107) says | high (proved over the model; not executed) | `SelectorDIC.DicAsWrittenDiffersFromIntended` | `SelectorDIC.DicKeepsHighestScore` |
