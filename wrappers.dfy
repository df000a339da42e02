/** Optional values and the outcome of a step that may raise a Python exception. */
module Wrappers {

  datatype Option<+T> = None | Some(value: T)

  /** The kinds of exception the selectors meet; every `except:` in them catches all kinds alike. */
  datatype Error =
    | FitFailed        // GaussianHMM.fit raised (no convergence, singular covariance, bad input)
    | ScoreFailed      // GaussianHMM.score raised (dimension mismatch, invalid model state)
    | SplitFailed      // KFold raised (too few sequences for the requested folds)
    | NoneHasNoScore   // AttributeError: `.score` called on the `None` that base_model returned
    | NoFrames         // IndexError: `self.X[0]` on a word without frames
    | KeyMissing       // KeyError: a word of all_word_sequences missing from all_word_Xlengths
    | NotANumber       // TypeError: arithmetic on a model object instead of on a number

  datatype Result<+T> = Ok(value: T) | Err(error: Error)
}
