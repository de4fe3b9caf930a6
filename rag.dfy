/** Retrieval (`app/rag.py`): turning the rows a FAISS search returned into
    chunk records, and packing those records into the context block handed
    to the language model. The search itself (embedding the query, the inner
    product ranking) is outside the model: it arrives as its row list. */
module Rag {
  import opened Text
  import opened Ingest

  // =====================================================================
  // retrieve
  // =====================================================================

  /** What the index search promises: every row is `-1` padding or a row of
      the index, and the index has one row per chunk record. */
  predicate RowsInRange(rows: seq<int>, n: nat) {
    forall r :: r in rows ==> r == -1 || 0 <= r < n
  }

  lemma RowsInRangePrefix(rows: seq<int>, n: nat, m: nat)
    requires m <= |rows| && RowsInRange(rows, n)
    ensures RowsInRange(rows[..m], n)
  {
    forall r | r in rows[..m] ensures r == -1 || 0 <= r < n {
      var i :| 0 <= i < m && rows[..m][i] == r;
      assert rows[i] in rows;
    }
  }

  /** The rows with the `-1` padding dropped, in the order returned. */
  function ValidRows(rows: seq<int>): (v: seq<int>)
    ensures |v| <= |rows|
    ensures forall x :: x in v <==> x in rows && x != -1
    ensures forall k :: 0 <= k < |v| ==> v[k] != -1 && v[k] in rows
  {
    if rows == [] then []
    else
      var last := rows[|rows| - 1];
      assert rows == rows[..|rows| - 1] + [last];
      ValidRows(rows[..|rows| - 1]) + (if last == -1 then [] else [last])
  }

  /** Dropping the padding keeps the order of every row list: the valid
      rows of `a + b` are those of `a` followed by those of `b`. */
  lemma {:induction false} ValidRowsAppend(a: seq<int>, b: seq<int>)
    ensures ValidRows(a + b) == ValidRows(a) + ValidRows(b)
    decreases |b|
  {
    if b == [] {
      assert a + b == a;
    } else {
      var ab, init := a + b, b[..|b| - 1];
      assert ab[..|ab| - 1] == a + init && ab[|ab| - 1] == b[|b| - 1];
      ValidRowsAppend(a, init);
    }
  }

  /** The chunk list `retrieve` returns, built row by row as its loop does. */
  function Retrieved(chunks: seq<Chunk>, rows: seq<int>): (r: seq<Chunk>)
    requires RowsInRange(rows, |chunks|)
    ensures |r| == |ValidRows(rows)| <= |rows|
    ensures forall k :: 0 <= k < |r| ==> r[k] == chunks[ValidRows(rows)[k]]
  {
    if rows == [] then []
    else
      var last := rows[|rows| - 1];
      assert last in rows;
      RowsInRangePrefix(rows, |chunks|, |rows| - 1);
      Retrieved(chunks, rows[..|rows| - 1]) + (if last == -1 then [] else [chunks[last]])
  }

  /** `retrieve` after the search: skip each `-1`, map every other row `r`
      to `chunks[r]`. */
  method Retrieve(chunks: seq<Chunk>, rows: seq<int>) returns (results: seq<Chunk>)
    requires RowsInRange(rows, |chunks|)
    ensures results == Retrieved(chunks, rows)
  {
    results := [];
    RowsInRangePrefix(rows, |chunks|, 0);
    for i := 0 to |rows|
      invariant RowsInRange(rows[..i], |chunks|)
      invariant results == Retrieved(chunks, rows[..i])
    {
      assert rows[..i + 1][..i] == rows[..i];
      RowsInRangePrefix(rows, |chunks|, i);
      RowsInRangePrefix(rows, |chunks|, i + 1);
      var idx := rows[i];
      assert idx in rows;
      if idx == -1 {
        continue;
      }
      results := results + [chunks[idx]];
    }
    assert rows[..|rows|] == rows;
  }

  /** With an aligned chunk store every retrieved chunk carries, as its
      `chunk_id`, the row it was fetched for. */
  lemma RetrievedIdsAreRows(chunks: seq<Chunk>, rows: seq<int>)
    requires Aligned(chunks) && RowsInRange(rows, |chunks|)
    ensures var r := Retrieved(chunks, rows);
      forall k :: 0 <= k < |r| ==> r[k].chunkId == ValidRows(rows)[k] && r[k].chunkId in rows
  {
    var v := ValidRows(rows);
    forall k | 0 <= k < |v| ensures v[k] in rows {
      assert v[k] in v;
    }
  }

  /** The `-1` rows FAISS pads its answer with when it has fewer than `k`. */
  function Padding(n: nat): (p: seq<int>)
    ensures |p| == n && forall i :: 0 <= i < n ==> p[i] == -1
  {
    if n == 0 then [] else Padding(n - 1) + [-1]
  }

  /** Rows without padding pass through unchanged. */
  lemma {:induction false} ValidRowsOfValid(valid: seq<int>)
    requires -1 !in valid
    ensures ValidRows(valid) == valid
    decreases |valid|
  {
    if valid != [] {
      var init, last := valid[..|valid| - 1], valid[|valid| - 1];
      assert valid == init + [last];
      assert last in valid && -1 !in init;
      assert ValidRows(valid) == ValidRows(init) + [last];
      ValidRowsOfValid(init);
    }
  }

  /** Dropping the padding recovers the valid rows. */
  lemma {:induction false} ValidRowsOfPadding(valid: seq<int>, pad: nat)
    requires -1 !in valid
    ensures ValidRows(valid + Padding(pad)) == valid
    decreases pad
  {
    if pad == 0 {
      assert valid + Padding(0) == valid;
      ValidRowsOfValid(valid);
    } else {
      var rows := valid + Padding(pad);
      assert rows[..|rows| - 1] == valid + Padding(pad - 1);
      ValidRowsOfPadding(valid, pad - 1);
    }
  }

  /** A search for more rows than the index holds answers its valid rows and
      then `-1` padding; `retrieve` returns exactly the chunks of the valid
      rows, none of them padding. */
  lemma RetrievedOfPaddedSearch(chunks: seq<Chunk>, valid: seq<int>, pad: nat)
    requires -1 !in valid && RowsInRange(valid, |chunks|)
    ensures RowsInRange(valid + Padding(pad), |chunks|)
    ensures var r := Retrieved(chunks, valid + Padding(pad));
      |r| == |valid| && forall k :: 0 <= k < |valid| ==> 0 <= valid[k] < |chunks| && r[k] == chunks[valid[k]]
  {
    ValidRowsOfPadding(valid, pad);
  }

  // =====================================================================
  // build_context
  // =====================================================================

  /** The header line of a block: `[SOURCE: <source> | chunk_id=<id>]\n`. */
  function Header(source: string, id: string): string {
    "[SOURCE: " + source + " | chunk_id=" + id + "]\n"
  }

  lemma HeaderShape(source: string, id: string)
    ensures |Header(source, id)| == |source| + |id| + 23
    ensures Header(source, id)[..9] == "[SOURCE: "
  {
  }

  /** The block written for one chunk: the header, then the stripped text
      and a newline. */
  function Block(c: Chunk): string {
    Header(c.source, IntToString(c.chunkId)) + (Strip(c.text) + "\n")
  }

  /** A block opens with the `[SOURCE: ` tag, ends with a newline, and is 24
      characters longer than its source name, id and stripped text together. */
  lemma BlockShape(c: Chunk)
    ensures var b := Block(c);
      |b| == |c.source| + |IntToString(c.chunkId)| + |Strip(c.text)| + 24
      && b[..9] == "[SOURCE: " && b[|b| - 1] == '\n'
  {
    var h, t := Header(c.source, IntToString(c.chunkId)), Strip(c.text);
    assert Block(c) == h + (t + "\n");
    HeaderShape(c.source, IntToString(c.chunkId));
    LineShape(h, t);
  }

  /** A header followed by a body and a newline keeps the header's first
      nine characters and ends with the newline. */
  lemma LineShape(h: string, t: string)
    requires |h| >= 9
    ensures var b := h + (t + "\n");
      |b| == |h| + |t| + 1 && b[..9] == h[..9] && b[|b| - 1] == '\n'
  {
    PrefixOfConcat(h, t + "\n", 9);
  }

  lemma PrefixOfConcat(a: string, b: string, n: nat)
    requires n <= |a|
    ensures (a + b)[..n] == a[..n]
  {
  }

  /** The blocks of `cs`, in order. */
  function Blocks(cs: seq<Chunk>): (bs: seq<string>)
    ensures |bs| == |cs|
  {
    if cs == [] then [] else Blocks(cs[..|cs| - 1]) + [Block(cs[|cs| - 1])]
  }

  lemma {:induction false} BlocksIndex(cs: seq<Chunk>, i: nat)
    requires i < |cs|
    ensures Blocks(cs)[i] == Block(cs[i])
    decreases |cs|
  {
    if i < |cs| - 1 {
      BlocksIndex(cs[..|cs| - 1], i);
    }
  }

  lemma {:induction false} BlocksPrefix(cs: seq<Chunk>, k: nat)
    requires k <= |cs|
    ensures Blocks(cs[..k]) == Blocks(cs)[..k]
    decreases |cs|
  {
    if k < |cs| {
      assert cs[..|cs| - 1][..k] == cs[..k];
      BlocksPrefix(cs[..|cs| - 1], k);
    } else {
      assert cs[..k] == cs;
    }
  }

  /** Total length of the first `k` blocks. */
  function PrefixLen(bs: seq<string>, k: nat): nat
    requires k <= |bs|
  {
    TotalLen(bs[..k])
  }

  lemma PrefixLenSnoc(bs: seq<string>, k: nat)
    requires k < |bs|
    ensures PrefixLen(bs, k + 1) == PrefixLen(bs, k) + |bs[k]|
  {
    assert bs[..k + 1][..k] == bs[..k];
  }

  lemma {:induction false} PrefixLenMonotone(bs: seq<string>, a: nat, b: nat)
    requires a <= b <= |bs|
    ensures PrefixLen(bs, a) <= PrefixLen(bs, b)
    decreases b - a
  {
    if a < b {
      PrefixLenSnoc(bs, b - 1);
      PrefixLenMonotone(bs, a, b - 1);
    }
  }

  /** The greedy packer stops after `k` blocks: the first `k` fit the budget
      (or none was taken), and the next one would overflow it. */
  predicate StopsAt(bs: seq<string>, maxChars: int, k: nat) {
    k <= |bs|
    && (k == 0 || PrefixLen(bs, k) <= maxChars)
    && (k < |bs| ==> PrefixLen(bs, k + 1) > maxChars)
  }

  /** Lengths are non-negative, so there is only one place to stop. */
  lemma StopsAtUnique(bs: seq<string>, maxChars: int, k1: nat, k2: nat)
    requires StopsAt(bs, maxChars, k1) && StopsAt(bs, maxChars, k2)
    ensures k1 == k2
  {
    if k1 < k2 {
      PrefixLenMonotone(bs, k1 + 1, k2);
    } else if k2 < k1 {
      PrefixLenMonotone(bs, k2 + 1, k1);
    }
  }

  /** The greedy scan from block `i` on, with the first `i` already kept. */
  function KeptFrom(bs: seq<string>, maxChars: int, i: nat): (k: nat)
    requires i <= |bs| && (i == 0 || PrefixLen(bs, i) <= maxChars)
    ensures i <= k && StopsAt(bs, maxChars, k)
    decreases |bs| - i
  {
    if i == |bs| then i
    else
      PrefixLenSnoc(bs, i);
      if PrefixLen(bs, i) + |bs[i]| > maxChars then i
      else KeptFrom(bs, maxChars, i + 1)
  }

  /** How many blocks `build_context` keeps. */
  function KeptCount(bs: seq<string>, maxChars: int): (k: nat)
    ensures StopsAt(bs, maxChars, k)
  {
    KeptFrom(bs, maxChars, 0)
  }

  /** The pair `build_context` returns: the kept blocks joined by newlines,
      and the kept chunks. */
  function ContextOf(retrieved: seq<Chunk>, maxChars: int): (string, seq<Chunk>) {
    var bs := Blocks(retrieved);
    var k := KeptCount(bs, maxChars);
    (JoinWith(bs[..k], "\n"), retrieved[..k])
  }

  lemma SnocPrefix<T>(s: seq<T>, i: nat)
    requires i < |s|
    ensures s[..i] + [s[i]] == s[..i + 1]
  {
  }

  /** The block of chunk `i`, as `build_context` formats it. */
  method BlockAt(retrieved: seq<Chunk>, i: nat) returns (block: string)
    requires i < |retrieved|
    ensures block == Blocks(retrieved)[i]
  {
    block := Block(retrieved[i]);
    BlocksIndex(retrieved, i);
  }

  /** `build_context`: append blocks while the running total stays within
      `max_chars`, and stop at the first block that would overflow it. */
  method BuildContext(retrieved: seq<Chunk>, maxChars: int) returns (context: string, kept: seq<Chunk>)
    ensures (context, kept) == ContextOf(retrieved, maxChars)
  {
    ghost var bs := Blocks(retrieved);
    var parts: seq<string> := [];
    kept := [];
    var total := 0;
    var i := 0;
    var full := false;
    while i < |retrieved| && !full
      invariant i <= |retrieved| == |bs|
      invariant kept == retrieved[..i] && parts == bs[..i]
      invariant total == PrefixLen(bs, i)
      invariant i == 0 || total <= maxChars
      invariant full ==> i < |bs| && PrefixLen(bs, i + 1) > maxChars
      decreases |retrieved| - i, !full
    {
      var block := BlockAt(retrieved, i);
      PrefixLenSnoc(bs, i);
      if total + |block| > maxChars {
        full := true;  // the source's `break`
      } else {
        SnocPrefix(retrieved, i);
        SnocPrefix(bs, i);
        parts := parts + [block];
        kept := kept + [retrieved[i]];
        total := total + |block|;
        i := i + 1;
      }
    }
    ContextAtStop(retrieved, maxChars, i);
    context := JoinWith(parts, "\n");
  }

  /** Wherever the greedy scan stops, that is what `ContextOf` keeps. */
  lemma ContextAtStop(retrieved: seq<Chunk>, maxChars: int, k: nat)
    requires StopsAt(Blocks(retrieved), maxChars, k)
    ensures ContextOf(retrieved, maxChars) == (JoinWith(Blocks(retrieved)[..k], "\n"), retrieved[..k])
  {
    StopsAtUnique(Blocks(retrieved), maxChars, k, KeptCount(Blocks(retrieved), maxChars));
  }

  /** The kept chunks are the first ones retrieved, in order. */
  lemma KeptIsPrefix(retrieved: seq<Chunk>, maxChars: int)
    ensures var kept := ContextOf(retrieved, maxChars).1;
      |kept| <= |retrieved| && forall i :: 0 <= i < |kept| ==> kept[i] == retrieved[i]
  {
  }

  /** What `build_context` promises: `kept` is a prefix of `retrieved`; its
      blocks fit `max_chars` unless nothing was kept; when it stops short,
      the next block would have overflowed, and so would every longer
      prefix, however short a later chunk is. */
  lemma ContextKeepsFittingPrefix(retrieved: seq<Chunk>, maxChars: int)
    ensures var bs := Blocks(retrieved);
      var k := |ContextOf(retrieved, maxChars).1|;
      k <= |retrieved| && ContextOf(retrieved, maxChars).1 == retrieved[..k]
      && (k == 0 || TotalLen(bs[..k]) <= maxChars)
      && (k < |retrieved| ==> TotalLen(bs[..k]) + |Block(retrieved[k])| > maxChars)
      && forall j :: k < j <= |retrieved| ==> TotalLen(bs[..j]) > maxChars
  {
    PackedPrefix(Blocks(retrieved), maxChars);
    var k := |ContextOf(retrieved, maxChars).1|;
    if k < |retrieved| {
      BlocksIndex(retrieved, k);
    }
  }

  lemma PackedPrefix(bs: seq<string>, maxChars: int)
    ensures var k := KeptCount(bs, maxChars);
      (k == 0 || TotalLen(bs[..k]) <= maxChars)
      && (k < |bs| ==> TotalLen(bs[..k]) + |bs[k]| > maxChars)
      && forall j :: k < j <= |bs| ==> TotalLen(bs[..j]) > maxChars
  {
    var k := KeptCount(bs, maxChars);
    if k < |bs| {
      PrefixLenSnoc(bs, k);
      forall j | k < j <= |bs| ensures TotalLen(bs[..j]) > maxChars {
        PrefixLenMonotone(bs, k + 1, j);
      }
    }
  }

  /** The context is the kept blocks joined by "\n": empty when nothing was
      kept, otherwise the block total plus one separator per gap, which can
      exceed `max_chars`. */
  lemma ContextLength(retrieved: seq<Chunk>, maxChars: int)
    ensures var (context, kept) := ContextOf(retrieved, maxChars);
      (kept == [] ==> context == [])
      && (kept != [] ==> |context| == TotalLen(Blocks(kept)) + |kept| - 1)
  {
    var bs := Blocks(retrieved);
    var k := KeptCount(bs, maxChars);
    BlocksPrefix(retrieved, k);
    if k > 0 {
      JoinWithLength(bs[..k], "\n");
    }
  }
}
