/** Query routing (`app/router.py`): a keyword-substring vote between the
    analytics ("data") route and the document-retrieval ("policy") route. */
module Router {
  import opened Text

  /** Phrases that point at computed inventory and sales metrics. */
  const DataKeywords: seq<string> := [
    "stockout", "out of stock", "oos", "trend", "kpi", "sales",
    "forecast", "inventory", "days of supply", "reorder", "top sku",
    "why did", "increase", "decrease", "shrink", "returns rate"
  ]

  /** Phrases that point at store procedures and policy documents. */
  const PolicyKeywords: seq<string> := [
    "policy", "sop", "procedure", "how do i", "process", "return", "refund",
    "coupon", "checklist", "workflow", "steps"
  ]

  /** How many keywords of `ks` occur in `s` as substrings; a keyword counts
      once however often it occurs. */
  function Score(s: string, ks: seq<string>): (n: nat)
    ensures n <= |ks|
    ensures n == 0 <==> forall j :: 0 <= j < |ks| ==> !Contains(s, ks[j])
    ensures n == |ks| <==> forall j :: 0 <= j < |ks| ==> Contains(s, ks[j])
  {
    if ks == [] then 0
    else (if Contains(s, ks[0]) then 1 else 0) + Score(s, ks[1..])
  }

  /** A list in which exactly one keyword occurs scores 1. */
  lemma {:induction false} ScoreSingle(s: string, ks: seq<string>, m: nat)
    requires m < |ks| && Contains(s, ks[m])
    requires forall j :: 0 <= j < |ks| && j != m ==> !Contains(s, ks[j])
    ensures Score(s, ks) == 1
    decreases m
  {
    if m == 0 {
      forall j | 0 <= j < |ks[1..]| ensures !Contains(s, ks[1..][j]) {
        assert ks[1..][j] == ks[j + 1];
      }
    } else {
      assert !Contains(s, ks[0]);
      forall j | 0 <= j < |ks[1..]| && j != m - 1 ensures !Contains(s, ks[1..][j]) {
        assert ks[1..][j] == ks[j + 1];
      }
      ScoreSingle(s, ks[1..], m - 1);
    }
  }

  /** The score can equally be summed from the back. */
  lemma {:induction false} ScoreSnoc(s: string, ks: seq<string>)
    requires ks != []
    ensures Score(s, ks) == Score(s, ks[..|ks| - 1]) + (if Contains(s, ks[|ks| - 1]) then 1 else 0)
    decreases |ks|
  {
    if |ks| > 1 {
      assert ks[1..][..|ks[1..]| - 1] == ks[..|ks| - 1][1..];
      ScoreSnoc(s, ks[1..]);
    }
  }

  /** The positions of the keywords of `ks` that occur in `s`. */
  ghost function Hits(s: string, ks: seq<string>): set<int> {
    set j | 0 <= j < |ks| && Contains(s, ks[j])
  }

  /** One more keyword adds its own position to the hits exactly when it occurs. */
  lemma HitsSnoc(s: string, ks: seq<string>)
    requires ks != []
    ensures var n := |ks| - 1;
      Hits(s, ks) == Hits(s, ks[..n]) + (if Contains(s, ks[n]) then {n} else {})
      && n !in Hits(s, ks[..n])
  {
    var n := |ks| - 1;
    var init := ks[..n];
    forall j | 0 <= j < n ensures ks[j] == init[j] { }
  }

  /** The score is the number of keywords of the list that occur in the
      text: `sum(1 for k in keywords if k in ql)`. */
  lemma {:induction false} ScoreCounts(s: string, ks: seq<string>)
    ensures Score(s, ks) == |Hits(s, ks)|
    decreases |ks|
  {
    if ks == [] {
      assert Hits(s, ks) == {};
    } else {
      ScoreSnoc(s, ks);
      ScoreCounts(s, ks[..|ks| - 1]);
      HitsSnoc(s, ks);
    }
  }

  function DataScore(q: string): nat {
    Score(Lower(q), DataKeywords)
  }

  function PolicyScore(q: string): nat {
    Score(Lower(q), PolicyKeywords)
  }

  /** `route_query`: "data" on a strict majority of data keywords, and the
      safer "policy" route otherwise, ties (0 to 0 included) among them. */
  function RouteQuery(q: string): (r: string)
    ensures r == "data" || r == "policy"
    ensures r == "data" <==> DataScore(q) > PolicyScore(q)
    ensures r == "policy" <==> DataScore(q) <= PolicyScore(q)
  {
    var ql := Lower(q);
    var dataScore := Score(ql, DataKeywords);
    var policyScore := Score(ql, PolicyKeywords);
    if dataScore > policyScore then "data" else "policy"
  }

  /** The scores are bounded by the keyword list lengths. */
  lemma ScoreBounds(q: string)
    ensures DataScore(q) <= 16 && PolicyScore(q) <= 11
  {
    assert |DataKeywords| == 16 && |PolicyKeywords| == 11;
  }

  /** A query mentioning no keyword at all goes to the policy route. */
  lemma NoKeywordRoutesToPolicy(q: string)
    requires forall j :: 0 <= j < |DataKeywords| ==> !Contains(Lower(q), DataKeywords[j])
    ensures RouteQuery(q) == "policy"
  {
  }

  /** Routing only looks at the lower-cased query. */
  lemma RouteCaseInsensitive(q: string)
    ensures RouteQuery(Lower(q)) == RouteQuery(q)
  {
    LowerIdempotent(q);
  }

  /** "returns rate" contains "return": any query that mentions it also
      scores a policy keyword. */
  lemma ReturnsRateAlsoVotesPolicy(q: string)
    requires Contains(Lower(q), "returns rate")
    ensures Contains(Lower(q), "return")
  {
    assert Contains("returns rate", "return");
    ContainsTransitive(Lower(q), "returns rate", "return");
  }

  /** Whatever else it says, a query whose only data keyword is "returns
      rate" scores exactly one data point and at least one policy point (for
      "return"), so the tie-break sends it to the policy route. */
  lemma ReturnsRateAloneRoutesToPolicy(q: string)
    requires Contains(Lower(q), "returns rate")
    requires forall j :: 0 <= j < |DataKeywords| - 1 ==> !Contains(Lower(q), DataKeywords[j])
    ensures DataScore(q) == 1 && PolicyScore(q) >= 1
    ensures RouteQuery(q) == "policy"
  {
    assert DataKeywords[15] == "returns rate" && |DataKeywords| == 16;
    ScoreSingle(Lower(q), DataKeywords, 15);
    ReturnsRateAlsoVotesPolicy(q);
    assert PolicyKeywords[5] == "return";
  }

  /** A query with some data keyword and no policy keyword is a data query. */
  lemma DataOnlyRoutesToData(q: string, j: nat)
    requires j < |DataKeywords| && Contains(Lower(q), DataKeywords[j])
    requires forall i :: 0 <= i < |PolicyKeywords| ==> !Contains(Lower(q), PolicyKeywords[i])
    ensures RouteQuery(q) == "data"
  {
  }
}
