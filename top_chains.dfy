/**
 * Lines 29-30: the chains are sorted by `tvl`, largest first (a record without
 * `tvl` counts as 0), the first 30 are kept, and their names are lower-cased.
 * Python's `sorted` is stable, also with `reverse=True`, so chains with equal
 * `tvl` keep their input order.
 */
module ChainRanking {
  import opened Options
  import opened Strings

  /** One record of the `/v2/chains` response, reduced to the fields the script reads. */
  datatype Chain = Chain(name: string, tvl: Option<real>)

  const TopCount := 30

  /** The sort key `x.get("tvl", 0)`. */
  function SortKey(c: Chain): real
  {
    match c.tvl
    case Some(v) => v
    case None => 0.0
  }

  predicate NonIncreasing(s: seq<Chain>)
  {
    forall i, j :: 0 <= i < j < |s| ==> SortKey(s[i]) >= SortKey(s[j])
  }

  /** The chains of `s` whose key is `k`, in their order in `s`. */
  function WithKey(s: seq<Chain>, k: real): seq<Chain>
  {
    if s == [] then [] else (if SortKey(s[0]) == k then [s[0]] else []) + WithKey(s[1..], k)
  }

  /** A chain not below the head of a non-increasing sequence can be put in front of it. */
  lemma PrependKeepsOrder(h: Chain, t: seq<Chain>)
    requires NonIncreasing(t)
    requires t != [] ==> SortKey(t[0]) <= SortKey(h)
    ensures NonIncreasing([h] + t)
  {
    var r := [h] + t;
    forall i, j | 0 <= i < j < |r|
      ensures SortKey(r[i]) >= SortKey(r[j])
    {
      if i == 0 {
        assert r[j] == t[j - 1];
      } else {
        assert r[i] == t[i - 1] && r[j] == t[j - 1];
      }
    }
  }

  /**
   * Puts `c` in front of the first chain whose key is not larger than its own,
   * so `c` stays ahead of the chains with an equal key.
   */
  function Insert(c: Chain, s: seq<Chain>): (r: seq<Chain>)
    ensures multiset(r) == multiset(s) + multiset{c}
    ensures r[0] == c || (s != [] && r[0] == s[0])
  {
    if s == [] || SortKey(c) >= SortKey(s[0]) then
      [c] + s
    else
      assert s == [s[0]] + s[1..];
      [s[0]] + Insert(c, s[1..])
  }

  lemma {:induction false} InsertKeepsOrder(c: Chain, s: seq<Chain>)
    requires NonIncreasing(s)
    ensures NonIncreasing(Insert(c, s))
  {
    if s == [] || SortKey(c) >= SortKey(s[0]) {
      PrependKeepsOrder(c, s);
    } else {
      assert NonIncreasing(s[1..]) by {
        forall i, j | 0 <= i < j < |s[1..]| ensures SortKey(s[1..][i]) >= SortKey(s[1..][j]) {
          assert s[1..][i] == s[i + 1] && s[1..][j] == s[j + 1];
        }
      }
      InsertKeepsOrder(c, s[1..]);
      PrependKeepsOrder(s[0], Insert(c, s[1..]));
    }
  }

  /** `sorted(chains, key=SortKey, reverse=True)`, a stable sort. */
  function SortByTvl(chains: seq<Chain>): (r: seq<Chain>)
    ensures multiset(r) == multiset(chains)
    ensures NonIncreasing(r)
  {
    if chains == [] then []
    else
      assert chains == [chains[0]] + chains[1..];
      InsertKeepsOrder(chains[0], SortByTvl(chains[1..]));
      Insert(chains[0], SortByTvl(chains[1..]))
  }

  lemma WithKeyCons(h: Chain, t: seq<Chain>, k: real)
    ensures WithKey([h] + t, k) == (if SortKey(h) == k then [h] else []) + WithKey(t, k)
  {
    assert ([h] + t)[0] == h && ([h] + t)[1..] == t;
  }

  lemma {:induction false} InsertWithKey(c: Chain, s: seq<Chain>, k: real)
    ensures WithKey(Insert(c, s), k) == (if SortKey(c) == k then [c] else []) + WithKey(s, k)
  {
    if s == [] || SortKey(c) >= SortKey(s[0]) {
      WithKeyCons(c, s, k);
    } else {
      var t := s[1..];
      InsertWithKey(c, t, k);
      WithKeyCons(s[0], Insert(c, t), k);
      WithKeyCons(s[0], t, k);
      assert s == [s[0]] + t;
      if SortKey(c) == k {
        assert SortKey(s[0]) != k;
      }
    }
  }

  /** Stability: for every key, the chains with that key come out in their input order. */
  lemma {:induction false} SortByTvlStable(chains: seq<Chain>, k: real)
    ensures WithKey(SortByTvl(chains), k) == WithKey(chains, k)
  {
    if chains != [] {
      SortByTvlStable(chains[1..], k);
      InsertWithKey(chains[0], SortByTvl(chains[1..]), k);
    }
  }

  lemma {:induction false} WithKeyPrefix(s: seq<Chain>, n: nat, k: real)
    requires n <= |s|
    ensures WithKey(s[..n], k) <= WithKey(s, k)
  {
    if n > 0 {
      WithKeyPrefix(s[1..], n - 1, k);
      assert s[..n][1..] == s[1..][..n - 1];
    }
  }

  /** `sorted(...)[:30]`. */
  function TopChains(chains: seq<Chain>): (top: seq<Chain>)
    ensures |top| == if |chains| < TopCount then |chains| else TopCount
    ensures NonIncreasing(top)
    ensures multiset(top) <= multiset(chains)
  {
    var sorted := SortByTvl(chains);
    assert |sorted| == |multiset(sorted)| == |multiset(chains)| == |chains|;
    var n := if |sorted| < TopCount then |sorted| else TopCount;
    assert sorted == sorted[..n] + sorted[n..];
    sorted[..n]
  }

  /** No chain left out has a larger `tvl` than a chain selected. */
  lemma TopChainsDominate(chains: seq<Chain>)
    ensures forall x, y :: x in multiset(chains) - multiset(TopChains(chains)) && y in TopChains(chains) ==>
      SortKey(x) <= SortKey(y)
  {
    var sorted := SortByTvl(chains);
    var top := TopChains(chains);
    assert top == sorted[..|top|];
    var rest := sorted[|top|..];
    assert sorted == top + rest;
    LeftOver(top, rest);
    forall x, y | x in multiset(rest) && y in top
      ensures SortKey(x) <= SortKey(y)
    {
      RestBelowTop(sorted, |top|, x, y);
    }
  }

  lemma LeftOver(top: seq<Chain>, rest: seq<Chain>)
    ensures multiset(top + rest) - multiset(top) == multiset(rest)
  {
    assert multiset(top + rest) == multiset(top) + multiset(rest);
  }

  lemma RestBelowTop(sorted: seq<Chain>, n: nat, x: Chain, y: Chain)
    requires NonIncreasing(sorted) && n <= |sorted|
    requires x in sorted[n..] && y in sorted[..n]
    ensures SortKey(x) <= SortKey(y)
  {
    var i :| n <= i < |sorted| && sorted[i] == x;
    var j :| 0 <= j < n && sorted[j] == y;
  }

  /** Ties are cut in input order: the selected chains of each key are the first ones of that key in the input. */
  lemma TopChainsKeepTieOrder(chains: seq<Chain>, k: real)
    ensures WithKey(TopChains(chains), k) <= WithKey(chains, k)
  {
    var sorted := SortByTvl(chains);
    WithKeyPrefix(sorted, |TopChains(chains)|, k);
    SortByTvlStable(chains, k);
  }

  /** Line 30: the lower-cased name of every selected chain, in the same order. */
  function ChainNames(top: seq<Chain>): (names: seq<string>)
    ensures |names| == |top|
    ensures forall i :: 0 <= i < |top| ==> names[i] == Lower(top[i].name)
  {
    if top == [] then [] else [Lower(top[0].name)] + ChainNames(top[1..])
  }
}
