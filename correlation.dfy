/** `Data.calc_spearman` (main.py:91-95, reader.py:91-95): Spearman's rank
    correlation is Pearson's correlation of the tie-averaged ranks. Pearson's
    formula itself is floating-point arithmetic with a square root and is kept
    opaque: it is passed in as `calcPearson`. */
module Correlation {
  import opened Ranking

  /** `calc_spearman(x, y)`: rank both inputs with `discrete_average_rank`,
      then correlate the ranks. */
  method CalcSpearman(calcPearson: (seq<real>, seq<real>) -> real, x: seq<real>, y: seq<real>)
    returns (rho: real)
    ensures rho == calcPearson(AverageRanks(x), AverageRanks(y))
  {
    var rx := DiscreteAverageRank(x);
    var ry := DiscreteAverageRank(y);
    rho := calcPearson(rx, ry);
  }

  /** Spearman's coefficient only sees ranks, so it is unchanged when either
      input is relabelled by a strictly increasing map. */
  lemma SpearmanInvariant(calcPearson: (seq<real>, seq<real>) -> real,
                          f: real -> real, g: real -> real, x: seq<real>, y: seq<real>)
    requires StrictlyIncreasing(f) && StrictlyIncreasing(g)
    ensures calcPearson(AverageRanks(Apply(f, x)), AverageRanks(Apply(g, y)))
         == calcPearson(AverageRanks(x), AverageRanks(y))
  {
    AverageRanksInvariant(f, x);
    AverageRanksInvariant(g, y);
  }
}
