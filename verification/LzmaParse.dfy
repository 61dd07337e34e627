/** What the match finder reports is what the encoder may emit. */
module LzmaParse {
  import opened Numbers
  import opened LzmaMachine
  import S = LzmaSymbols
  import R = LzmaRoundTrip
  import T = LzSuffixTree
  import F = LzFind

  /** Every pair the finder reports at a position is an admissible match symbol there, for a
      history as long as the dictionary and lengths up to 273. */
  lemma ReportsAdmissible(pr: Props, data: seq<byte>, at: nat, limit: nat, ds: seq<int>, r: Reps, k: nat)
    requires F.AreMatches(data, at, pr.dicSize + 1, limit, ds) && limit <= 273 && k < |ds| / 2
    ensures ds[2 * k] >= 0 && ds[2 * k + 1] >= 0
    ensures R.Admissible(pr, data, at, r, S.Match(ds[2 * k], ds[2 * k + 1]))
  {
    assert F.IsMatch(data, at, pr.dicSize + 1, limit, ds[2 * k], ds[2 * k + 1]);
    var len: nat, dist: nat := ds[2 * k], ds[2 * k + 1];
    var from := at - (dist + 1);
    forall i | at <= i < at + len ensures data[i] == data[i - (dist + 1)] {
      T.AgreeAt(data, from, at, len, i - at);
      assert from + (i - at) == i - (dist + 1);
    }
  }
}
