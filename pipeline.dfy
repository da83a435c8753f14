/**
 * The script's data path from the fetched `/v2/chains` list to the rows written
 * to the CSV file (lines 28-51), with every network response given as input.
 */
module ChainTvlPipeline {
  import opened CivilDate
  import opened ChainRanking
  import opened ChainHistory
  import opened RowTable

  /**
   * `chainsData` is the parsed `/v2/chains` response; `responses[i]` is what the
   * history request for the i-th selected chain returned.
   */
  method PullChainTvl(chainsData: seq<Chain>, responses: seq<Response>) returns (chainNames: seq<string>, rows: seq<Row>)
    requires |responses| == |TopChains(chainsData)|
    ensures chainNames == ChainNames(TopChains(chainsData))
    ensures rows == SortedItems(LastWins(AllRows(chainNames, responses)))
    ensures forall i :: 0 <= i < |rows| ==> rows[i].chain in chainNames && IsDayLabel(rows[i].day)
    ensures KeysAscending(rows)
  {
    var topChains := TopChains(chainsData);
    chainNames := ChainNames(topChains);
    var allRows := CollectRows(chainNames, responses);
    var dedup := Dedup(allRows);
    rows := SortedItems(dedup);
    AllRowsWellFormed(chainNames, responses);
    forall i | 0 <= i < |rows| ensures rows[i].chain in chainNames && IsDayLabel(rows[i].day) {
      assert KeyOf(rows[i]) in KeysOf(rows);
      LastWinsMeaning(allRows);
      var r :| r in allRows && KeyOf(r) == KeyOf(rows[i]);
    }
  }
}
