/** The data a selector works on and the foreign code it calls (hmmlearn, numpy, sklearn, asl_utils),
    each foreign call as a total function supplied by the caller. */
module Hmm {
  import opened Wrappers

  /** One frame: the feature values observed at one time step. */
  type Frame = seq<real>

  /** One example of a word: its frames in order. */
  type Sequence = seq<Frame>

  /** The `(X, lengths)` pair hmmlearn trains and scores on: all frames concatenated,
      and the number of frames of each example. */
  datatype Observations = Observations(x: seq<Frame>, lengths: seq<int>)

  /** One cross-validation fold: indices of the training examples and of the held-out examples. */
  datatype Fold = Fold(train: seq<nat>, test: seq<nat>)

  /** The foreign calls, as supplied functions.
      - fit(obs, n): `GaussianHMM(n_components=n, covariance_type="diag", n_iter=1000,
        random_state=...).fit(X, lengths)`; `Err` when it raises.
      - score(m, obs): `m.score(X, lengths)`, the log-likelihood; `Err` when it raises.
      - log(N): `np.log(N)`.
      - split(k, sequences): the (train, test) pairs of `KFold(n_splits=k).split(sequences)`;
        `Err` when it raises.
      - combine(indices, sequences): `combine_sequences(indices, sequences)`. */
  datatype Oracles<!M> = Oracles(
    fit: (Observations, int) -> Result<M>,
    score: (M, Observations) -> Result<real>,
    log: nat -> real,
    split: (int, seq<Sequence>) -> Result<seq<Fold>>,
    combine: (seq<nat>, seq<Sequence>) -> Observations)
}
