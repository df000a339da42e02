/** The four strategies as one closed choice, and what holds of all of them together. */
module Selection {
  import opened Wrappers
  import opened Hmm
  import opened Criteria
  import opened ModelSelector
  import SelectorBIC
  import SelectorDIC
  import SelectorCV

  datatype Strategy = Constant | BIC | DIC | CV

  /** The model `select()` of the chosen strategy returns (DIC with its formula corrected). */
  function Selected<M>(strategy: Strategy, sel: Selector, o: Oracles<M>): Option<M> {
    match strategy
    case Constant => SelectConstant(sel, o)
    case BIC => SelectorBIC.Bic(sel, o)
    case DIC => SelectorDIC.Dic(sel, o)
    case CV => SelectorCV.Cv(sel, o)
  }

  method Select<M>(strategy: Strategy, sel: Selector, o: Oracles<M>) returns (model: Option<M>)
    ensures model == Selected(strategy, sel, o)
  {
    match strategy
    case Constant => model := SelectConstant(sel, o);
    case BIC => model := SelectorBIC.Select(sel, o);
    case DIC => model := SelectorDIC.Select(sel, o);
    case CV => model := SelectorCV.Select(sel, o);
  }

  /** When every fit with more or fewer states than `n_constant` fails, each searching strategy
      ends with the constant strategy's model: BIC over any non-empty range, DIC when there is
      another word to compare with, CV when the range holds another state count and the split
      gives at least one fold. */
  lemma OnlyConstantFitsGivesConstantModel<M>(strategy: Strategy, sel: Selector, o: Oracles<M>)
    requires sel.minN <= sel.maxN
    requires forall obs, n :: n != sel.nConstant ==> o.fit(obs, n).Err?
    requires strategy == DIC ==> SelectorDIC.Others(sel.words, sel.thisWord) != []
    requires strategy == CV ==>
      (sel.minN != sel.nConstant || sel.maxN != sel.nConstant) &&
      o.split(FoldCount(|sel.sequences|), sel.sequences) != Ok([])
    ensures Selected(strategy, sel, o) == Selected(Constant, sel, o)
  {
    match strategy
    case Constant =>
    case BIC => SelectorBIC.BicAgreesWithConstant(sel, o);
    case DIC => SelectorDIC.DicAgreesWithConstant(sel, o);
    case CV =>
      var n := if sel.minN != sel.nConstant then sel.minN else sel.maxN;
      var folds := o.split(FoldCount(|sel.sequences|), sel.sequences);
      if folds.Ok? {
        SelectorCV.FoldResultsMeaning(sel, o, n, folds.value);
        assert SelectorCV.FoldResult(sel, o, n, folds.value[0]).Err?;
      }
      assert SelectorCV.Candidate(sel, o, n).Err?;
      SelectorCV.CvKeepsHighestAverage(sel, o);
  }
}
