/** What every selector shares: its construction, `base_model`, the constant strategy that is
    also everyone's fallback, and how the outcome of a search becomes the selected model. */
module ModelSelector {
  import opened Wrappers
  import opened Hmm
  import opened ModelSearch

  /** The state a selector is constructed with (the seed and the verbosity flag are left out). */
  datatype Selector = Selector(
    words: seq<string>,                 // the keys of all_word_sequences, in iteration order
    hwords: map<string, Observations>,  // all_word_Xlengths
    thisWord: string,
    sequences: seq<Sequence>,           // all_word_sequences[this_word]
    own: Observations,                  // all_word_Xlengths[this_word], the pair (X, lengths)
    nConstant: int,
    minN: int,
    maxN: int)

  /** The constructor: looking up `this_word` in both dictionaries raises KeyError when it is
      missing; the defaults are three states for the constant model and the range 2..10.
      `words` stands for the dictionary `all_word_sequences` itself, iterated: each of its keys
      exactly once. */
  function NewSelector(
    words: seq<string>, allSequences: map<string, seq<Sequence>>,
    allXLengths: map<string, Observations>, thisWord: string,
    nConstant: int := 3, minN: int := 2, maxN: int := 10): (r: Result<Selector>)
    requires forall w :: w in words <==> w in allSequences
    requires forall i, j :: 0 <= i < j < |words| ==> words[i] != words[j]
    ensures r.Ok? <==> thisWord in allSequences && thisWord in allXLengths
    ensures r.Err? ==> r.error == KeyMissing
    ensures r.Ok? ==> forall w :: w in r.value.words <==> w in allSequences
    ensures r.Ok? ==>
      && r.value.sequences == allSequences[thisWord]
      && r.value.own == allXLengths[thisWord]
      && r.value.words == words && r.value.hwords == allXLengths && r.value.thisWord == thisWord
      && r.value.nConstant == nConstant && r.value.minN == minN && r.value.maxN == maxN
  {
    if thisWord !in allSequences || thisWord !in allXLengths then Err(KeyMissing)
    else Ok(Selector(words, allXLengths, thisWord, allSequences[thisWord], allXLengths[thisWord],
                     nConstant, minN, maxN))
  }

  /** `base_model(n)`: fit an `n`-state model to the word's own frames; an exception never
      escapes, a failed fit gives `None`. */
  function BaseModel<M>(sel: Selector, o: Oracles<M>, n: int): (r: Option<M>)
    ensures r.None? <==> o.fit(sel.own, n).Err?
    ensures r.Some? ==> o.fit(sel.own, n) == Ok(r.value)
  {
    match o.fit(sel.own, n)
    case Ok(m) => Some(m)
    case Err(_) => None
  }

  /** The constant strategy: no search, no scoring; the model fitted with `n_constant` states,
      or `None` when that fit fails. */
  function SelectConstant<M>(sel: Selector, o: Oracles<M>): (r: Option<M>)
    ensures r.None? <==> o.fit(sel.own, sel.nConstant).Err?
    ensures r.Some? ==> o.fit(sel.own, sel.nConstant) == Ok(r.value)
  {
    BaseModel(sel, o, sel.nConstant)
  }

  /** What a searching `select` returns: the constant model when the search raised (the
      `except:` branch), else the initial `None` or the best model kept. */
  function Outcome<M>(sel: Selector, o: Oracles<M>, search: Result<Option<Scored<M>>>): Option<M> {
    match search
    case Err(_) => SelectConstant(sel, o)
    case Ok(None) => None
    case Ok(Some(c)) => Some(c.model)
  }

  /** A candidate of the range that raises sends the search to the `except:` branch. */
  lemma FailureFallsBack<M>(sel: Selector, o: Oracles<M>, goal: Goal, eval: int -> Rating<M>, n: int)
    requires sel.minN <= n <= sel.maxN && eval(n).Err?
    ensures Outcome(sel, o, Search(goal, eval, sel.minN, sel.maxN)) == SelectConstant(sel, o)
  {
    SearchFailsIffSomeCandidateFails(goal, eval, sel.minN, sel.maxN);
  }

  /** The selection policy of every searching strategy, stated over its candidate evaluation. */
  lemma SearchOutcome<M>(sel: Selector, o: Oracles<M>, goal: Goal, eval: int -> Rating<M>)
    // an empty range never runs the loop: the initial `None`, not the fallback
    ensures sel.minN > sel.maxN ==> Outcome(sel, o, Search(goal, eval, sel.minN, sel.maxN)) == None
    // one exception anywhere abandons the whole search for the constant model
    ensures (exists n :: sel.minN <= n <= sel.maxN && eval(n).Err?) ==>
      Outcome(sel, o, Search(goal, eval, sel.minN, sel.maxN)) == SelectConstant(sel, o)
    // otherwise: no model exactly when no candidate was rated ...
    ensures (forall n :: sel.minN <= n <= sel.maxN ==> eval(n).Ok?) ==>
      (Outcome(sel, o, Search(goal, eval, sel.minN, sel.maxN)) == None <==>
       forall n :: sel.minN <= n <= sel.maxN ==> !Rated(eval, n))
    // ... and the model of the first best candidate otherwise
    ensures forall k :: (forall n :: sel.minN <= n <= sel.maxN ==> eval(n).Ok?) &&
                        IsFirstBest(goal, eval, sel.minN, sel.maxN, k) ==>
      Outcome(sel, o, Search(goal, eval, sel.minN, sel.maxN)) == Some(eval(k).value.value.model)
  {
    SearchFailsIffSomeCandidateFails(goal, eval, sel.minN, sel.maxN);
    if forall n :: sel.minN <= n <= sel.maxN ==> eval(n).Ok? {
      SearchFindsFirstBest(goal, eval, sel.minN, sel.maxN);
      forall k | IsFirstBest(goal, eval, sel.minN, sel.maxN, k)
        ensures Outcome(sel, o, Search(goal, eval, sel.minN, sel.maxN)) == Some(eval(k).value.value.model)
      {
        FirstBestIsKept(goal, eval, sel.minN, sel.maxN, k);
      }
    }
  }
}
