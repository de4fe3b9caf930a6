/** The `/chat` dispatch (`app/main.py`): a blank query is refused, a medical
    request is redirected, and everything else is routed either to
    retrieval-augmented generation over the chunk store or to generation over
    the stockout-risk table. The FAISS search, the language model, the
    inventory query and the table rendering are parameters: the model says
    what is passed to them and how their answers are used. */
module App {
  import opened Wrappers
  import opened Text
  import opened Ingest
  import opened Rag
  import opened Router
  import opened Safety

  /** One row of the stockout-risk table; `cells` are the other columns,
      which only the renderer looks at. */
  datatype RiskRow = RiskRow(stockoutRisk: bool, cells: seq<string>)

  /** The collaborators `chat` calls and the model does not look inside. */
  datatype Services = Services(
    search: (string, nat) -> seq<int>,    // the index rows for a query and `top_k`
    generate: (string, string) -> string, // the language model, on (prompt, system)
    stockRisk: string -> seq<RiskRow>,    // the risk table of a store
    render: seq<RiskRow> -> string)       // the table printed without its index

  datatype Citation = Citation(source: string, chunkId: int)

  datatype ChatResponse = ChatResponse(route: string, answer: string, citations: seq<Citation>)

  const TopK: nat := 6
  const MaxChars: int := 4000
  const DefaultStore: string := "001"
  const TableRowLimit: nat := 10

  const SystemPolicy: string :=
    "You are a store operations assistant for a retail pharmacy store.\n"
    + "Rules:\n"
    + "1) No medical advice/diagnosis/medication guidance.\n"
    + "2) If using context sources, answer ONLY from the provided "
    + "sources.\n"
    + "3) If the answer is not in sources, say: 'Not found in the provided documents.'\n"
    + "4) Format: Summary, Steps/Actions, Sources (if any).\n"

  function PolicyPrompt(context: string, q: string): string {
    "CONTEXT:\n" + context + "\n\n"
    + "USER QUESTION:\n" + q + "\n\n"
    + "Answer with:\n"
    + "- Summary (1\U{2013}2 lines)\n"
    + "- Steps/Actions (bullets)\n"
    + "- Sources (list the SOURCE lines you used)\n"
  }

  function DataPrompt(q: string, table: string): string {
    "You are given computed inventory metrics (truth). Do not invent numbers.\n\n"
    + "QUESTION:\n" + q + "\n\n"
    + "COMPUTED DATA:\n" + table + "\n\n"
    + "Respond with:\n"
    + "- Summary\n"
    + "- Key drivers\n"
    + "- Actions for store associate (bullets)\n"
    + "- Callouts (assumptions/risks)\n"
  }

  /** `req.store_id or "001"`: a missing or empty store id means store 001. */
  function StoreOf(storeId: Option<string>): (s: string)
    ensures storeId.Some? && storeId.value != "" ==> s == storeId.value
    ensures storeId.None? || storeId.value == "" ==> s == DefaultStore
  {
    if storeId.None? || storeId.value == "" then DefaultStore else storeId.value
  }

  /** `df[df["stockout_risk"] == True]`: the rows flagged at risk, in table order. */
  function AtRisk(table: seq<RiskRow>): (r: seq<RiskRow>)
    ensures |r| <= |table|
  {
    if table == [] then []
    else (if table[0].stockoutRisk then [table[0]] else []) + AtRisk(table[1..])
  }

  /** The filter keeps exactly the at-risk rows, and is empty exactly when no
      row is at risk. */
  lemma {:induction false} AtRiskShape(table: seq<RiskRow>)
    ensures forall x :: x in AtRisk(table) <==> x in table && x.stockoutRisk
    ensures AtRisk(table) == [] <==> forall x :: x in table ==> !x.stockoutRisk
    decreases |table|
  {
    if table != [] {
      AtRiskShape(table[1..]);
      assert table == [table[0]] + table[1..];
    }
  }

  /** The filter keeps table order and multiplicity: filtering a table is
      filtering its parts and laying the results end to end. */
  lemma {:induction false} AtRiskAppend(a: seq<RiskRow>, b: seq<RiskRow>)
    ensures AtRisk(a + b) == AtRisk(a) + AtRisk(b)
    decreases |a|
  {
    if a == [] {
      assert a + b == b;
    } else {
      var ab := a + b;
      assert ab[0] == a[0] && ab[1..] == a[1..] + b;
      AtRiskAppend(a[1..], b);
      var head: seq<RiskRow> := if a[0].stockoutRisk then [a[0]] else [];
      assert AtRisk(ab) == head + AtRisk(a[1..] + b);
      assert AtRisk(a) == head + AtRisk(a[1..]);
    }
  }

  /** One row is kept exactly when it is at risk. */
  lemma AtRiskOne(x: RiskRow)
    ensures AtRisk([x]) == if x.stockoutRisk then [x] else []
  {
    assert [x][1..] == [];
  }

  /** `df.head(n)`. */
  function Head<T>(s: seq<T>, n: nat): seq<T> {
    s[..Min(n, |s|)]
  }

  /** The rows shown to the model: the first ten at-risk rows, or the first
      ten rows of the table when none is at risk. */
  function ShownRows(table: seq<RiskRow>): seq<RiskRow> {
    var risky := Head(AtRisk(table), TableRowLimit);
    if risky != [] then risky else Head(table, TableRowLimit)
  }

  function CitationsOf(kept: seq<Chunk>): seq<Citation> {
    seq(|kept|, i requires 0 <= i < |kept| => Citation(kept[i].source, kept[i].chunkId))
  }

  /** The index answers rows inside the chunk store wherever `chat` searches,
      which is on the policy route only. */
  predicate SearchInRange(query: string, chunks: seq<Chunk>, svc: Services) {
    var q := Strip(query);
    (q != [] && !IsMedicalAdviceRequest(q) && RouteQuery(q) == "policy") ==>
      RowsInRange(svc.search(q, TopK), |chunks|)
  }

  /** `chat`, with the request's query and store id. */
  function Chat(query: string, storeId: Option<string>, chunks: seq<Chunk>, svc: Services): ChatResponse
    requires SearchInRange(query, chunks, svc)
  {
    var q := Strip(query);
    if q == [] then
      ChatResponse("none", "Please enter a question.", [])
    else if IsMedicalAdviceRequest(q) then
      ChatResponse("safety", SafeRedirect, [])
    else if RouteQuery(q) == "policy" then PolicyAnswer(q, chunks, svc)
    else DataAnswer(q, StoreOf(storeId), svc)
  }

  /** The policy route: retrieve six chunks, pack them, ask the model with
      the packed context, and cite the chunks that were packed. */
  function PolicyAnswer(q: string, chunks: seq<Chunk>, svc: Services): ChatResponse
    requires RowsInRange(svc.search(q, TopK), |chunks|)
  {
    var retrieved := Retrieved(chunks, svc.search(q, TopK));
    var (context, kept) := ContextOf(retrieved, MaxChars);
    var answer := svc.generate(PolicyPrompt(context, q), SystemPolicy);
    ChatResponse("policy", answer, CitationsOf(kept))
  }

  /** The data route: ask the model over the risk table of `store`. */
  function DataAnswer(q: string, store: string, svc: Services): ChatResponse {
    var table := svc.render(ShownRows(svc.stockRisk(store)));
    var answer := svc.generate(DataPrompt(q, table), SystemPolicy);
    ChatResponse("data", answer, [])
  }

  /** A query that is empty once stripped, which is exactly a whitespace-only
      query, is refused before anything else, whatever the services do. */
  lemma BlankQueryRefused(query: string, storeId: Option<string>, chunks: seq<Chunk>, svc: Services)
    requires Strip(query) == []
    ensures AllSpace(query)
    ensures Chat(query, storeId, chunks, svc) == ChatResponse("none", "Please enter a question.", [])
  {
    StripEmptyIff(query);
  }

  /** A medical request is redirected before the router sees it, whatever
      keywords it holds and whatever the services do. */
  lemma MedicalRequestRedirected(query: string, storeId: Option<string>, chunks: seq<Chunk>, svc: Services)
    requires !AllSpace(query) && IsMedicalAdviceRequest(Strip(query))
    ensures Chat(query, storeId, chunks, svc) == ChatResponse("safety", SafeRedirect, [])
  {
    StripEmptyIff(query);
  }

  /** Every other query takes the router's route; the data route never
      cites anything. */
  lemma OtherQueriesRouted(query: string, storeId: Option<string>, chunks: seq<Chunk>, svc: Services)
    requires RowsInRange(svc.search(Strip(query), TopK), |chunks|)
    requires !AllSpace(query) && !IsMedicalAdviceRequest(Strip(query))
    ensures var r := Chat(query, storeId, chunks, svc);
      r.route == RouteQuery(Strip(query))
      && (r.route == "data" ==> r.citations == [])
  {
    StripEmptyIff(query);
  }

  /** Only four routes exist, and only the policy route cites sources. */
  lemma RoutesAndCitations(query: string, storeId: Option<string>, chunks: seq<Chunk>, svc: Services)
    requires RowsInRange(svc.search(Strip(query), TopK), |chunks|)
    ensures var r := Chat(query, storeId, chunks, svc);
      (r.route == "none" || r.route == "safety" || r.route == "policy" || r.route == "data")
      && (r.citations != [] ==> r.route == "policy")
  {
    var q := Strip(query);
    if q != [] && !IsMedicalAdviceRequest(q) {
      if RouteQuery(q) == "policy" {
        PolicyAnswerRoute(q, chunks, svc);
      } else {
        DataAnswerRoute(q, StoreOf(storeId), svc);
      }
    }
  }

  lemma PolicyAnswerRoute(q: string, chunks: seq<Chunk>, svc: Services)
    requires RowsInRange(svc.search(q, TopK), |chunks|)
    ensures PolicyAnswer(q, chunks, svc).route == "policy"
  { }

  lemma DataAnswerRoute(q: string, store: string, svc: Services)
    ensures DataAnswer(q, store, svc).route == "data" && DataAnswer(q, store, svc).citations == []
  { }

  /** The policy answer cites the `(source, chunk_id)` pairs of the kept
      chunks, in order: with an aligned chunk store the `i`-th citation
      names the `i`-th row the index returned and that row's source file,
      so there are never more citations than rows. */
  lemma PolicyCitationsNameRows(q: string, chunks: seq<Chunk>, svc: Services)
    requires RowsInRange(svc.search(q, TopK), |chunks|)
    requires Aligned(chunks)
    ensures var r := PolicyAnswer(q, chunks, svc);
      var valid := ValidRows(svc.search(q, TopK));
      r.route == "policy"
      && |r.citations| <= |valid| <= |svc.search(q, TopK)|
      && forall i :: 0 <= i < |r.citations| ==>
           r.citations[i].chunkId == valid[i]
           && 0 <= valid[i] < |chunks|
           && r.citations[i].source == chunks[valid[i]].source
  {
    var rows := svc.search(q, TopK);
    var retrieved := Retrieved(chunks, rows);
    KeptIsPrefix(retrieved, MaxChars);
    RetrievedIdsAreRows(chunks, rows);
  }

  /** End to end: when `chat` answers on the policy route and the index
      returns at most `top_k` rows, it cites at most six chunks, each one a
      row the index returned, in the index's order. */
  lemma ChatCitesRetrievedRows(query: string, storeId: Option<string>, chunks: seq<Chunk>, svc: Services)
    requires RowsInRange(svc.search(Strip(query), TopK), |chunks|)
    requires |svc.search(Strip(query), TopK)| <= TopK
    requires Aligned(chunks)
    requires Chat(query, storeId, chunks, svc).route == "policy"
    ensures var r := Chat(query, storeId, chunks, svc);
      var valid := ValidRows(svc.search(Strip(query), TopK));
      |r.citations| <= |valid| && |r.citations| <= TopK
      && forall i :: 0 <= i < |r.citations| ==>
           r.citations[i].chunkId == valid[i]
           && 0 <= valid[i] < |chunks|
           && r.citations[i].source == chunks[valid[i]].source
  {
    var q := Strip(query);
    assert Chat(query, storeId, chunks, svc) == PolicyAnswer(q, chunks, svc);
    PolicyCitationsNameRows(q, chunks, svc);
  }

  /** The store id only matters through `req.store_id or "001"`. */
  lemma ChatSeesStoreOf(query: string, s1: Option<string>, s2: Option<string>, chunks: seq<Chunk>, svc: Services)
    requires RowsInRange(svc.search(Strip(query), TopK), |chunks|)
    requires StoreOf(s1) == StoreOf(s2)
    ensures Chat(query, s1, chunks, svc) == Chat(query, s2, chunks, svc)
  {
  }

  /** A missing store id and an empty one give the same response. */
  lemma EmptyStoreIsDefault(query: string, chunks: seq<Chunk>, svc: Services)
    requires RowsInRange(svc.search(Strip(query), TopK), |chunks|)
    ensures Chat(query, None, chunks, svc) == Chat(query, Some(""), chunks, svc)
  {
    ChatSeesStoreOf(query, None, Some(""), chunks, svc);
  }

  /** A missing store id means store "001". */
  lemma MissingStoreIs001(query: string, chunks: seq<Chunk>, svc: Services)
    requires RowsInRange(svc.search(Strip(query), TopK), |chunks|)
    ensures Chat(query, None, chunks, svc) == Chat(query, Some(DefaultStore), chunks, svc)
  {
    ChatSeesStoreOf(query, None, Some(DefaultStore), chunks, svc);
  }

  /** At most ten rows reach the model; when any row is at risk they are all
      at-risk rows, and otherwise they are the head of the table. */
  lemma ShownRowsShape(table: seq<RiskRow>)
    ensures |ShownRows(table)| <= TableRowLimit
    ensures forall x :: x in ShownRows(table) ==> x in table
    ensures (exists x :: x in table && x.stockoutRisk) ==>
              ShownRows(table) != [] && forall x :: x in ShownRows(table) ==> x.stockoutRisk
    ensures (forall x :: x in table ==> !x.stockoutRisk) ==>
              ShownRows(table) == table[..Min(TableRowLimit, |table|)]
    ensures (exists x :: x in table && x.stockoutRisk) ==>
              ShownRows(table) == AtRisk(table)[..Min(TableRowLimit, |AtRisk(table)|)]
  {
    var risky := AtRisk(table);
    AtRiskShape(table);
    if exists x :: x in table && x.stockoutRisk {
      var x :| x in table && x.stockoutRisk;
      assert x in risky;
    }
    forall x | x in ShownRows(table) ensures x in table {
      if risky != [] {
        assert x in risky;
      }
    }
  }
}
