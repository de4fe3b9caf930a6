/** Ingestion (`app/ingest.py`): the text normaliser `clean_text`, the
    sliding word window `chunk_text`, and the bookkeeping of
    `ingest_documents` that turns a batch of files into numbered chunk
    records. The file readers, the embedder and the FAISS index are outside
    the model: a file arrives with the text its reader extracted. */
module Ingest {
  import opened Wrappers
  import opened Text

  // =====================================================================
  // clean_text
  // =====================================================================

  /** Step 1 of `clean_text`: every NUL becomes a space. */
  function ReplaceNul(s: string): (r: string)
    ensures |r| == |s| && '\0' !in r
    ensures forall i :: 0 <= i < |s| && s[i] == '\0' ==> r[i] == ' '
    ensures forall i :: 0 <= i < |s| && s[i] != '\0' ==> r[i] == s[i]
  {
    seq(|s|, i requires 0 <= i < |s| => if s[i] == '\0' then ' ' else s[i])
  }

  /** The character class `[ \t]`. */
  predicate IsBlank(c: char) {
    c == ' ' || c == '\t'
  }

  /** Step 2 of `clean_text`, `re.sub(r"[ \t]+", " ", s)`, as a left-to-right
      scan: `inRun` is set while the scan is inside a run of blanks whose
      replacement space has already been written. */
  function CollapseBlanksFrom(s: string, inRun: bool): string
    decreases |s|
  {
    if s == [] then []
    else if IsBlank(s[0]) then
      if inRun then CollapseBlanksFrom(s[1..], true) else " " + CollapseBlanksFrom(s[1..], true)
    else [s[0]] + CollapseBlanksFrom(s[1..], false)
  }

  function CollapseBlanks(s: string): string {
    CollapseBlanksFrom(s, false)
  }

  /** Step 3 of `clean_text`, `re.sub(r"\n{3,}", "\n\n", s)`, as a scan:
      `run` counts the newlines of the current run already written, and a
      run keeps at most two of them. */
  function CollapseNewlinesFrom(s: string, run: nat): string
    decreases |s|
  {
    if s == [] then []
    else if s[0] == '\n' then
      if run >= 2 then CollapseNewlinesFrom(s[1..], run) else "\n" + CollapseNewlinesFrom(s[1..], run + 1)
    else [s[0]] + CollapseNewlinesFrom(s[1..], 0)
  }

  function CollapseNewlines(s: string): string {
    CollapseNewlinesFrom(s, 0)
  }

  /** `clean_text`: the four rewrites in the source's order, the last being `strip`. */
  function CleanText(s: string): string {
    Strip(CollapseNewlines(CollapseBlanks(ReplaceNul(s))))
  }

  /** Two spaces at `i` and `i + 1`. */
  predicate DoubleSpaceAt(s: string, i: int) {
    0 <= i < |s| - 1 && s[i] == ' ' && s[i + 1] == ' '
  }

  /** Three newlines at `i`, `i + 1` and `i + 2`. */
  predicate TripleNewlineAt(s: string, i: int) {
    0 <= i < |s| - 2 && s[i] == '\n' && s[i + 1] == '\n' && s[i + 2] == '\n'
  }

  predicate NoDoubleSpace(s: string) {
    forall i :: 0 <= i < |s| ==> !DoubleSpaceAt(s, i)
  }

  predicate NoTripleNewline(s: string) {
    forall i :: 0 <= i < |s| ==> !TripleNewlineAt(s, i)
  }

  /** The shape `clean_text` guarantees. */
  predicate IsClean(t: string) {
    '\0' !in t && '\t' !in t && NoDoubleSpace(t) && NoTripleNewline(t)
    && (t == [] || (!IsSpace(t[0]) && !IsSpace(t[|t| - 1])))
  }

  lemma NoDoubleSpaceCons(c: char, t: string)
    requires NoDoubleSpace(t)
    requires c != ' ' || t == [] || t[0] != ' '
    ensures NoDoubleSpace([c] + t)
  {
    var s := [c] + t;
    forall i ensures !DoubleSpaceAt(s, i) {
      if i > 0 { assert DoubleSpaceAt(s, i) ==> DoubleSpaceAt(t, i - 1); }
    }
  }

  lemma NoTripleNewlineCons(c: char, t: string)
    requires NoTripleNewline(t)
    requires c != '\n' || |t| < 2 || t[0] != '\n' || t[1] != '\n'
    ensures NoTripleNewline([c] + t)
  {
    var s := [c] + t;
    forall i ensures !TripleNewlineAt(s, i) {
      if i > 0 { assert TripleNewlineAt(s, i) ==> TripleNewlineAt(t, i - 1); }
    }
  }

  /** Dropping the first character keeps both absences. */
  lemma TailKeepsShape(s: string)
    requires s != []
    ensures NoDoubleSpace(s) ==> NoDoubleSpace(s[1..])
    ensures NoTripleNewline(s) ==> NoTripleNewline(s[1..])
  {
    forall i ensures DoubleSpaceAt(s[1..], i) ==> DoubleSpaceAt(s, i + 1) {}
    forall i ensures TripleNewlineAt(s[1..], i) ==> TripleNewlineAt(s, i + 1) {}
  }

  /** What the blank-collapsing scan produces: no tab, no two adjacent
      spaces, no NUL it was not given, and no leading space while in a run. */
  lemma {:induction false} CollapseBlanksShape(s: string, inRun: bool)
    ensures var o := CollapseBlanksFrom(s, inRun);
      '\t' !in o && NoDoubleSpace(o) && ('\0' !in s ==> '\0' !in o)
      && (inRun ==> o == [] || o[0] != ' ')
    decreases |s|
  {
    if s != [] {
      if IsBlank(s[0]) {
        CollapseBlanksShape(s[1..], true);
        if !inRun {
          NoDoubleSpaceCons(' ', CollapseBlanksFrom(s[1..], true));
        }
      } else {
        CollapseBlanksShape(s[1..], false);
        NoDoubleSpaceCons(s[0], CollapseBlanksFrom(s[1..], false));
      }
    }
  }

  /** The newline-collapsing scan passes the first character through when
      it is not a surplus newline. */
  lemma CollapseNewlinesHead(s: string, run: nat)
    requires s != [] && (s[0] != '\n' || run < 2)
    ensures var o := CollapseNewlinesFrom(s, run); o != [] && o[0] == s[0]
  {
  }

  /** The bound the newline scan keeps on the run it continues: with `run`
      newlines already written, at most `2 - run` more start the output. */
  predicate FitsRun(o: string, run: nat) {
    (run >= 2 ==> o == [] || o[0] != '\n')
    && (run == 1 ==> !(|o| >= 2 && o[0] == '\n' && o[1] == '\n'))
  }

  /** What the newline-collapsing scan produces: no three newlines in a row,
      only characters of its input, and no new pair of adjacent spaces. */
  lemma {:induction false} CollapseNewlinesShape(s: string, run: nat)
    requires run <= 2
    ensures var o := CollapseNewlinesFrom(s, run);
      NoTripleNewline(o) && FitsRun(o, run)
      && (forall c :: c in o ==> c in s)
      && (NoDoubleSpace(s) ==> NoDoubleSpace(o))
    decreases |s|
  {
    if s != [] {
      var o := CollapseNewlinesFrom(s, run);
      if s[0] == '\n' {
        if run >= 2 {
          CollapseNewlinesShape(s[1..], run);
        } else {
          var rest := CollapseNewlinesFrom(s[1..], run + 1);
          CollapseNewlinesShape(s[1..], run + 1);
          NoTripleNewlineCons('\n', rest);
          TailKeepsShape(s);
          if NoDoubleSpace(s) {
            NoDoubleSpaceCons('\n', rest);
          }
        }
        TailKeepsShape(s);
      } else {
        var rest := CollapseNewlinesFrom(s[1..], 0);
        CollapseNewlinesShape(s[1..], 0);
        NoTripleNewlineCons(s[0], rest);
        TailKeepsShape(s);
        if NoDoubleSpace(s) {
          if s[0] == ' ' && |s| > 1 {
            assert !DoubleSpaceAt(s, 0);
            CollapseNewlinesHead(s[1..], 0);
          }
          NoDoubleSpaceCons(s[0], rest);
        }
      }
    }
  }

  /** A slice keeps the absence of NULs, tabs, double spaces and triple newlines. */
  lemma SliceKeepsShape(s: string, a: nat, b: nat)
    requires a <= b <= |s|
    ensures '\0' !in s ==> '\0' !in s[a..b]
    ensures '\t' !in s ==> '\t' !in s[a..b]
    ensures NoDoubleSpace(s) ==> NoDoubleSpace(s[a..b])
    ensures NoTripleNewline(s) ==> NoTripleNewline(s[a..b])
  {
    var t := s[a..b];
    forall i ensures DoubleSpaceAt(t, i) ==> DoubleSpaceAt(s, a + i) {}
    forall i ensures TripleNewlineAt(t, i) ==> TripleNewlineAt(s, a + i) {}
    forall c | c in t ensures c in s {
      var i :| 0 <= i < |t| && t[i] == c;
      assert s[a + i] == c;
    }
  }

  /** The three rewrites before `strip` leave no NUL, no tab, no two spaces
      in a row and no three newlines in a row. */
  lemma CollapsedHasNoRuns(s: string)
    ensures var c := CollapseNewlines(CollapseBlanks(ReplaceNul(s)));
      '\0' !in c && '\t' !in c && NoDoubleSpace(c) && NoTripleNewline(c)
  {
    var n := ReplaceNul(s);
    CollapseBlanksShape(n, false);
    var b := CollapseBlanks(n);
    assert '\0' !in b && '\t' !in b && NoDoubleSpace(b);
    CollapseNewlinesShape(b, 0);
  }

  /** Stripping keeps the absence of runs and removes the edge whitespace. */
  lemma StripKeepsClean(c: string)
    requires '\0' !in c && '\t' !in c && NoDoubleSpace(c) && NoTripleNewline(c)
    ensures IsClean(Strip(c))
  {
    StripShape(c);
    SliceKeepsShape(c, LeadingSpace(c), LeadingSpace(c) + |Strip(c)|);
  }

  /** `clean_text` output contains no NUL and no tab, never two spaces in a
      row, never three newlines in a row, and no whitespace at either end. */
  lemma CleanTextIsClean(s: string)
    ensures IsClean(CleanText(s))
  {
    CollapsedHasNoRuns(s);
    StripKeepsClean(CollapseNewlines(CollapseBlanks(ReplaceNul(s))));
  }

  /** The blank-collapsing scan changes nothing in text without tabs or
      double spaces. */
  lemma {:induction false} CollapseBlanksUnchanged(t: string, inRun: bool)
    requires '\t' !in t && NoDoubleSpace(t)
    requires inRun ==> t == [] || t[0] != ' '
    ensures CollapseBlanksFrom(t, inRun) == t
    decreases |t|
  {
    if t != [] {
      TailKeepsShape(t);
      assert !DoubleSpaceAt(t, 0);
      CollapseBlanksUnchanged(t[1..], t[0] == ' ');
      assert [t[0]] + t[1..] == t;
    }
  }

  /** The newline-collapsing scan changes nothing in text without three
      newlines in a row, when its run count fits. */
  lemma {:induction false} CollapseNewlinesUnchanged(t: string, run: nat)
    requires run <= 2 && NoTripleNewline(t) && FitsRun(t, run)
    ensures CollapseNewlinesFrom(t, run) == t
    decreases |t|
  {
    if t != [] {
      TailKeepsShape(t);
      assert !TripleNewlineAt(t, 0);
      var next := if t[0] == '\n' then run + 1 else 0;
      CollapseNewlinesUnchanged(t[1..], next);
      assert [t[0]] + t[1..] == t;
    }
  }

  /** `clean_text` is idempotent: cleaning clean text changes nothing. */
  lemma CleanTextIdempotent(s: string)
    ensures CleanText(CleanText(s)) == CleanText(s)
  {
    var t := CleanText(s);
    CleanTextIsClean(s);
    assert ReplaceNul(t) == t;
    assert CollapseBlanks(t) == t by {
      CollapseBlanksUnchanged(t, false);
    }
    assert CollapseNewlines(t) == t by {
      CollapseNewlinesUnchanged(t, 0);
    }
    assert Strip(t) == t by {
      StripUnchanged(t);
    }
  }

  /** The blank collapse keeps the words: outside a run it also keeps
      whether the text starts with a word, and inside a run it may only drop
      leading blanks. */
  lemma {:induction false} CollapseBlanksKeepsWords(s: string, inRun: bool)
    ensures Words(CollapseBlanksFrom(s, inRun)) == Words(s)
    ensures !inRun ==> (StartsWord(CollapseBlanksFrom(s, inRun)) <==> StartsWord(s))
    decreases |s|
  {
    if s != [] {
      var o := CollapseBlanksFrom(s, inRun);
      WordsCons(s[0], s[1..]);
      assert [s[0]] + s[1..] == s;
      if IsBlank(s[0]) {
        CollapseBlanksKeepsWords(s[1..], true);
        if !inRun {
          WordsCons(' ', CollapseBlanksFrom(s[1..], true));
        }
      } else {
        CollapseBlanksKeepsWords(s[1..], false);
        WordsConsAgree(s[0], CollapseBlanksFrom(s[1..], false), s[1..]);
      }
    }
  }

  /** The newline collapse keeps the words, and before a run reaches two
      newlines it also keeps whether the text starts with a word. */
  lemma {:induction false} CollapseNewlinesKeepsWords(s: string, run: nat)
    ensures Words(CollapseNewlinesFrom(s, run)) == Words(s)
    ensures run < 2 ==> (StartsWord(CollapseNewlinesFrom(s, run)) <==> StartsWord(s))
    decreases |s|
  {
    if s != [] {
      WordsCons(s[0], s[1..]);
      assert [s[0]] + s[1..] == s;
      if s[0] == '\n' {
        if run >= 2 {
          CollapseNewlinesKeepsWords(s[1..], run);
        } else {
          CollapseNewlinesKeepsWords(s[1..], run + 1);
          WordsCons('\n', CollapseNewlinesFrom(s[1..], run + 1));
        }
      } else {
        CollapseNewlinesKeepsWords(s[1..], 0);
        WordsConsAgree(s[0], CollapseNewlinesFrom(s[1..], 0), s[1..]);
      }
    }
  }

  /** `clean_text` keeps every word of its input once NUL is read as a space:
      `clean_text(s).split() == s.replace("\x00", " ").split()`, so chunking
      sees the words of the document in order. */
  lemma CleanTextKeepsWords(s: string)
    ensures Words(CleanText(s)) == Words(ReplaceNul(s))
  {
    var n := ReplaceNul(s);
    CollapseBlanksKeepsWords(n, false);
    CollapseNewlinesKeepsWords(CollapseBlanks(n), 0);
    WordsOfStrip(CollapseNewlines(CollapseBlanks(n)));
  }

  // =====================================================================
  // chunk_text
  // =====================================================================

  function Min(a: int, b: int): int {
    if a <= b then a else b
  }

  /** The advance of the window, `max(1, chunk_size - overlap)`. */
  function Step(chunkSize: nat, overlap: int): (step: nat)
    ensures step >= 1
    ensures step == chunkSize - overlap || (step == 1 && chunkSize - overlap <= 1)
  {
    if chunkSize - overlap > 1 then chunkSize - overlap else 1
  }

  /** `ceil(n / d)`. */
  function CeilDiv(n: nat, d: nat): nat
    requires d >= 1
  {
    (n + d - 1) / d
  }

  /** The `k`-th window, `words[k*step : k*step + size]`, clamped at the end
      as a Python slice is. */
  function Window(words: seq<string>, k: nat, size: nat, step: nat): seq<string> {
    words[Min(|words|, k * step)..Min(|words|, k * step + size)]
  }

  /** The chunks `chunk_text` returns for the word list `words`: one per
      window start `0, step, 2*step, ...` below the word count, each the
      window's words joined by single spaces. */
  function ChunksOf(words: seq<string>, size: nat, overlap: int): seq<string> {
    var step := Step(size, overlap);
    seq(CeilDiv(|words|, step), k requires 0 <= k < CeilDiv(|words|, step) =>
      JoinWith(Window(words, k, size, step), " "))
  }

  lemma MulSign(x: int, d: int)
    requires d >= 1
    ensures x * d > 0 ==> x > 0
    ensures x * d < 0 ==> x < 0
  {
    if x <= 0 { assert x * d <= 0 * d; }
    if x >= 0 { assert x * d >= 0 * d; }
  }

  /** A count `c` of windows with `(c-1)*d < n <= c*d` is `ceil(n/d)`. */
  lemma CeilDivOfCount(n: nat, d: nat, c: nat)
    requires d >= 1
    requires n <= c * d
    requires c == 0 || (c - 1) * d < n
    ensures c == CeilDiv(n, d)
  {
    var m := n + d - 1;
    var q, r := m / d, m % d;
    assert m == q * d + r && 0 <= r < d;
    if c == 0 {
      assert m < d;
    } else {
      assert (q - c + 1) * d == q * d - c * d + d;
      assert (q - c - 1) * d == q * d - c * d - d;
      MulSign(q - c + 1, d);
      MulSign(q - c - 1, d);
    }
  }

  lemma WindowStartBelow(n: nat, d: nat, k: nat)
    requires d >= 1 && k < CeilDiv(n, d)
    ensures k * d < n
  {
    var m := n + d - 1;
    var q, r := m / d, m % d;
    assert m == q * d + r && 0 <= r;
    assert (q - 1 - k) * d == q * d - d - k * d;
    MulSign(q - 1 - k, d);
  }

  /** `chunk_text(text, chunk_size, overlap)`: the `while` loop that slices
      the word list at `i`, joins the slice, and advances `i` by
      `max(1, chunk_size - overlap)`; it terminates for every overlap. */
  method ChunkText(text: string, chunkSize: nat, overlap: int) returns (chunks: seq<string>)
    ensures chunks == ChunksOf(Words(text), chunkSize, overlap)
  {
    var words := Words(text);
    chunks := [];
    var i := 0;
    ghost var step := Step(chunkSize, overlap);
    while i < |words|
      invariant i == |chunks| * step
      invariant |chunks| == 0 || (|chunks| - 1) * step < |words|
      invariant forall k :: 0 <= k < |chunks| ==> chunks[k] == JoinWith(Window(words, k, chunkSize, step), " ")
      decreases |words| - i
    {
      var end := if i + chunkSize < |words| then i + chunkSize else |words|;
      chunks := chunks + [JoinWith(words[i..end], " ")];
      i := i + (if chunkSize - overlap > 1 then chunkSize - overlap else 1);
    }
    CeilDivOfCount(|words|, step, |chunks|);
  }

  /** Chunk count: none for text without words, otherwise `ceil(n/step)`,
      so at least one. */
  lemma ChunkCount(words: seq<string>, size: nat, overlap: int)
    ensures |ChunksOf(words, size, overlap)| == CeilDiv(|words|, Step(size, overlap))
    ensures ChunksOf(words, size, overlap) == [] <==> words == []
  {
    var step := Step(size, overlap);
    if words != [] {
      assert (|words| + step - 1) / step >= 1;
    }
  }

  /** With a positive chunk size every chunk is a window of 1 to `size`
      words, and splitting the chunk again gives back exactly those words. */
  lemma ChunkWords(words: seq<string>, size: nat, overlap: int, k: nat)
    requires size >= 1
    requires forall w :: w in words ==> IsWord(w)
    requires k < |ChunksOf(words, size, overlap)|
    ensures var w := Window(words, k, size, Step(size, overlap));
      1 <= |w| <= size && Words(ChunksOf(words, size, overlap)[k]) == w
  {
    var step := Step(size, overlap);
    WindowStartBelow(|words|, step, k);
    WordsOfJoin(Window(words, k, size, step));
  }

  /** Coverage: with a positive size and a non-negative overlap the windows
      leave no word out. */
  lemma ChunksCoverWords(words: seq<string>, size: nat, overlap: int, j: nat)
    requires size >= 1 && overlap >= 0
    requires j < |words|
    ensures var step := Step(size, overlap);
      exists k :: 0 <= k < |ChunksOf(words, size, overlap)|
        && Min(|words|, k * step) <= j < Min(|words|, k * step + size)
  {
    var step := Step(size, overlap);
    var k := j / step;
    WindowOfWord(|words|, step, j);
    assert |ChunksOf(words, size, overlap)| == CeilDiv(|words|, step);
    assert Min(|words|, k * step) <= j < Min(|words|, k * step + size);
  }

  /** Word `j` lies in window `j / d`, which is one of the `ceil(n / d)`. */
  lemma WindowOfWord(n: nat, d: nat, j: nat)
    requires d >= 1 && j < n
    ensures (j / d) * d <= j < (j / d) * d + d
    ensures j / d < CeilDiv(n, d)
  {
    var k, r := j / d, j % d;
    assert j == k * d + r && 0 <= r < d;
    var m := n + d - 1;
    var q, r' := m / d, m % d;
    assert m == q * d + r' && 0 <= r' < d;
    assert (q - k) * d == q * d - k * d;
    MulSign(q - k, d);
  }

  /** Consecutive chunks overlap as intended when `0 <= overlap < size`:
      window `k` minus its first `step` words is the start of window `k+1`,
      and that shared stretch is `min(overlap, n - (k+1)*step)` words long. */
  lemma ConsecutiveChunksOverlap(words: seq<string>, size: nat, overlap: int, k: nat)
    requires 0 <= overlap < size
    requires k + 1 < |ChunksOf(words, size, overlap)|
    ensures var step := Step(size, overlap);
      var w, v := Window(words, k, size, step), Window(words, k + 1, size, step);
      |w| >= step && |w| - step == Min(overlap, |words| - (k + 1) * step)
      && w[step..] == v[..|w| - step]
  {
    var step, n := Step(size, overlap), |words|;
    WindowStartBelow(n, step, k + 1);
    var s := k * step;
    assert (k + 1) * step == s + step;
    assert step == size - overlap;
    var w, v := Window(words, k, size, step), Window(words, k + 1, size, step);
    assert w == words[s..Min(n, s + size)];
    assert v == words[s + step..Min(n, s + step + size)];
    assert w[step..] == words[s + step..Min(n, s + size)];
    assert v[..|w| - step] == words[s + step..Min(n, s + size)];
  }

  /** The worked example: 600 words with size 500 and overlap 80 give exactly
      two chunks, `words[0:500]` and `words[420:600]`. */
  lemma SixHundredWords(words: seq<string>)
    requires |words| == 600
    ensures ChunksOf(words, 500, 80) == [JoinWith(words[0..500], " "), JoinWith(words[420..600], " ")]
  {
    assert CeilDiv(600, 420) == 2;
    var c := ChunksOf(words, 500, 80);
    assert Window(words, 0, 500, 420) == words[0..500];
    assert Window(words, 1, 500, 420) == words[420..600];
  }

  // =====================================================================
  // ingest_documents
  // =====================================================================

  /** A file of the document folder: its name and the text the reader for
      its suffix extracted (the readers are not part of the model). */
  datatype SourceFile = SourceFile(name: string, text: string)

  /** A chunk record of `chunks.jsonl`. */
  datatype Chunk = Chunk(chunkId: int, source: string, text: string)

  datatype IngestError = NoDocumentsFound | NoValidChunks

  /** Index of the last '.' in `s`, or -1. */
  function LastDot(s: string): (i: int)
    ensures -1 <= i < |s|
    ensures i >= 0 ==> s[i] == '.'
    ensures forall j :: i < j < |s| ==> s[j] != '.'
  {
    if s == [] then -1
    else if s[|s| - 1] == '.' then |s| - 1
    else LastDot(s[..|s| - 1])
  }

  /** `Path.suffix`: from the last dot on, provided that dot is neither the
      first nor the last character of the name; otherwise empty. */
  function Suffix(name: string): (r: string)
    ensures r == [] || (2 <= |r| < |name| && r == name[|name| - |r|..] && r[0] == '.' && '.' !in r[1..])
  {
    var i := LastDot(name);
    if 0 < i < |name| - 1 then name[i..] else []
  }

  /** The suffix is non-empty exactly when the name has a dot that is
      neither its first nor its last character and has no dot after it. */
  lemma SuffixNonEmptyIff(name: string)
    ensures Suffix(name) != [] <==>
      exists i :: 0 < i < |name| - 1 && name[i] == '.' && '.' !in name[i + 1..]
  {
    var d := LastDot(name);
    if Suffix(name) != [] {
      assert 0 < d < |name| - 1 && name[d] == '.';
      var tail := name[d + 1..];
      assert '.' !in tail by {
        forall j | 0 <= j < |tail| ensures tail[j] != '.' {
          assert tail[j] == name[d + 1 + j];
        }
      }
    }
    if exists i :: 0 < i < |name| - 1 && name[i] == '.' && '.' !in name[i + 1..] {
      var i :| 0 < i < |name| - 1 && name[i] == '.' && '.' !in name[i + 1..];
      assert d == i;
    }
  }

  /** The suffixes that have a reader: `.pdf`, `.docx`, `.txt`, in any case. */
  predicate Supported(name: string) {
    var suffix := Lower(Suffix(name));
    suffix == ".pdf" || suffix == ".docx" || suffix == ".txt"
  }

  /** The chunk texts one file contributes: none for an unsupported suffix or
      a text that is blank once cleaned, else `chunk_text` with 500/80. */
  function FileChunks(f: SourceFile): seq<string> {
    if !Supported(f.name) then []
    else
      var t := CleanText(f.text);
      if Strip(t) == [] then [] else ChunksOf(Words(t), 500, 80)
  }

  /** Records for `texts` from one file, numbered from `base`. */
  function Tag(base: int, source: string, texts: seq<string>): seq<Chunk> {
    seq(|texts|, j requires 0 <= j < |texts| => Chunk(base + j, source, texts[j]))
  }

  /** What one file hands to the record list: its name and its chunk texts. */
  datatype Contribution = Contribution(source: string, texts: seq<string>)

  function Contributions(files: seq<SourceFile>): seq<Contribution> {
    seq(|files|, i requires 0 <= i < |files| => Contribution(files[i].name, FileChunks(files[i])))
  }

  /** Contributions laid end to end, each record numbered by how many
      records precede it. */
  function Number(cs: seq<Contribution>): seq<Chunk> {
    if cs == [] then []
    else
      var prev := Number(cs[..|cs| - 1]);
      var c := cs[|cs| - 1];
      prev + Tag(|prev|, c.source, c.texts)
  }

  /** The record list ingestion builds: file by file, each file's chunks in
      order, each record numbered by its position. */
  function Records(files: seq<SourceFile>): seq<Chunk> {
    Number(Contributions(files))
  }

  /** Record `i` of the store has `chunk_id == i`: the link between FAISS row
      `i` and its chunk. */
  predicate Aligned(chunks: seq<Chunk>) {
    forall i :: 0 <= i < |chunks| ==> chunks[i].chunkId == i
  }

  lemma TagSnoc(base: int, source: string, texts: seq<string>, j: nat)
    requires j < |texts|
    ensures Tag(base, source, texts[..j + 1]) == Tag(base, source, texts[..j]) + [Chunk(base + j, source, texts[j])]
  {
  }

  /** The inner loop of `ingest_documents`: one record per chunk, each
      numbered `len(all_chunks)` at the moment it is appended. */
  method AppendRecords(all: seq<Chunk>, source: string, chunks: seq<string>) returns (out: seq<Chunk>)
    requires Aligned(all)
    ensures out == all + Tag(|all|, source, chunks)
    ensures Aligned(out)
  {
    out := all;
    for j := 0 to |chunks|
      invariant out == all + Tag(|all|, source, chunks[..j])
      invariant Aligned(out)
    {
      TagSnoc(|all|, source, chunks, j);
      out := out + [Chunk(|out|, source, chunks[j])];
    }
    assert chunks[..|chunks|] == chunks;
  }

  /** `ingest_documents` without the readers, the embedder and the writes:
      no files is an error, unsupported and blank files are skipped, every
      record gets `chunk_id = len(all_chunks)`, and no records at all is an
      error. */
  method IngestDocuments(files: seq<SourceFile>) returns (r: Result<seq<Chunk>, IngestError>)
    ensures files == [] ==> r == Err(NoDocumentsFound)
    ensures files != [] && Records(files) == [] ==> r == Err(NoValidChunks)
    ensures files != [] && Records(files) != [] ==> r == Ok(Records(files))
    ensures r.Ok? ==> r.value != [] && Aligned(r.value)
  {
    if files == [] {
      return Err(NoDocumentsFound);
    }
    ghost var cs := Contributions(files);
    var all: seq<Chunk> := [];
    for idx := 0 to |files|
      invariant all == Number(cs[..idx])
      invariant Aligned(all)
    {
      var f := files[idx];
      NumberSnoc(cs, idx);
      assert cs[idx] == Contribution(f.name, FileChunks(f));
      var suffix := Lower(Suffix(f.name));
      // the three readers differ; each is replaced by the text it extracted
      if suffix != ".pdf" && suffix != ".docx" && suffix != ".txt" {
        continue;
      }
      var raw := CleanText(f.text);
      if Strip(raw) == [] {
        continue;
      }
      var chunks := ChunkText(raw, 500, 80);
      all := AppendRecords(all, f.name, chunks);
    }
    assert cs[..|files|] == cs;
    if all == [] {
      return Err(NoValidChunks);
    }
    return Ok(all);
  }

  /** Numbering one more contribution appends its records, numbered on from
      the records before it. */
  lemma NumberSnoc(cs: seq<Contribution>, k: nat)
    requires k < |cs|
    ensures Number(cs[..k + 1]) == Number(cs[..k]) + Tag(|Number(cs[..k])|, cs[k].source, cs[k].texts)
  {
    assert cs[..k + 1][..k] == cs[..k];
  }

  /** Record `i` of any ingestion has `chunk_id == i`. */
  lemma {:induction false} NumberAligned(cs: seq<Contribution>)
    ensures Aligned(Number(cs))
    decreases |cs|
  {
    if cs != [] {
      NumberAligned(cs[..|cs| - 1]);
    }
  }

  lemma RecordsAligned(files: seq<SourceFile>)
    ensures Aligned(Records(files))
  {
    NumberAligned(Contributions(files));
  }

  /** Every record names the contribution it came from and carries one of
      its chunk texts. */
  lemma {:induction false} NumberSources(cs: seq<Contribution>)
    ensures forall r :: r in Number(cs) ==>
      exists i :: 0 <= i < |cs| && r.source == cs[i].source && r.text in cs[i].texts
    decreases |cs|
  {
    if cs != [] {
      var prefix := cs[..|cs| - 1];
      var c := cs[|cs| - 1];
      var prev := Number(prefix);
      NumberSources(prefix);
      forall r | r in Number(cs)
        ensures exists i :: 0 <= i < |cs| && r.source == cs[i].source && r.text in cs[i].texts
      {
        if r in prev {
          var i :| 0 <= i < |prefix| && r.source == prefix[i].source && r.text in prefix[i].texts;
          assert prefix[i] == cs[i];
        } else {
          var t := Tag(|prev|, c.source, c.texts);
          assert r in t;
          var j :| 0 <= j < |t| && t[j] == r;
          assert r.text == c.texts[j];
          assert r.source == cs[|cs| - 1].source;
        }
      }
    }
  }

  /** Every ingested record carries the name of the file it was cut from,
      and its text is one of that file's chunks. */
  lemma RecordsSources(files: seq<SourceFile>)
    ensures forall r :: r in Records(files) ==>
      exists i :: 0 <= i < |files| && r.source == files[i].name && r.text in FileChunks(files[i])
  {
    var cs := Contributions(files);
    NumberSources(cs);
    forall r | r in Records(files)
      ensures exists i :: 0 <= i < |files| && r.source == files[i].name && r.text in FileChunks(files[i])
    {
      var i :| 0 <= i < |cs| && r.source == cs[i].source && r.text in cs[i].texts;
      assert cs[i] == Contribution(files[i].name, FileChunks(files[i]));
    }
  }

  /** Records shifted by `offset` in their numbering. */
  function Renumber(chunks: seq<Chunk>, offset: int): seq<Chunk> {
    seq(|chunks|, i requires 0 <= i < |chunks| => chunks[i].(chunkId := chunks[i].chunkId + offset))
  }

  /** Renumbering distributes over concatenation. */
  lemma RenumberAppend(x: seq<Chunk>, y: seq<Chunk>, offset: int)
    ensures Renumber(x + y, offset) == Renumber(x, offset) + Renumber(y, offset)
  {
    var l, r := Renumber(x + y, offset), Renumber(x, offset) + Renumber(y, offset);
    forall i | 0 <= i < |l| ensures l[i] == r[i] {
      if i < |x| { assert (x + y)[i] == x[i]; } else { assert (x + y)[i] == y[i - |x|]; }
    }
  }

  /** Tagging from a later base is tagging and then renumbering. */
  lemma RenumberTag(base: int, source: string, texts: seq<string>, offset: int)
    ensures Tag(base + offset, source, texts) == Renumber(Tag(base, source, texts), offset)
  {
  }

  /** File order: the records of contributions `a + b` are those of `a`,
      then those of `b` numbered on from where `a` stopped. */
  lemma {:induction false} NumberAppend(a: seq<Contribution>, b: seq<Contribution>)
    ensures Number(a + b) == Number(a) + Renumber(Number(b), |Number(a)|)
    decreases |b|
  {
    if b == [] {
      assert a + b == a;
    } else {
      var b', c := b[..|b| - 1], b[|b| - 1];
      assert (a + b)[..|a + b| - 1] == a + b';
      NumberAppend(a, b');
      var na, nb' := Number(a), Number(b');
      var t := Tag(|nb'|, c.source, c.texts);
      assert Number(b) == nb' + t;
      RenumberTag(|nb'|, c.source, c.texts, |na|);
      RenumberAppend(nb', t, |na|);
    }
  }

  /** A supported file whose cleaned text is not blank contributes at least
      one chunk; any other file contributes none. */
  lemma FileChunksNonEmptyIff(f: SourceFile)
    ensures FileChunks(f) != [] <==> Supported(f.name) && Strip(CleanText(f.text)) != []
  {
    if Supported(f.name) && Strip(CleanText(f.text)) != [] {
      var t := CleanText(f.text);
      StripEmptyIff(t);
      WordsEmptyIff(t);
      ChunkCount(Words(t), 500, 80);
    }
  }

  lemma {:induction false} NumberEmptyIff(cs: seq<Contribution>)
    ensures Number(cs) == [] <==> forall i :: 0 <= i < |cs| ==> cs[i].texts == []
    decreases |cs|
  {
    if cs != [] {
      NumberEmptyIff(cs[..|cs| - 1]);
    }
  }

  /** Ingestion yields no records exactly when every file is unsupported or
      blank after cleaning (then `ingest_documents` raises). */
  lemma RecordsEmptyIff(files: seq<SourceFile>)
    ensures Records(files) == [] <==>
      forall i :: 0 <= i < |files| ==> !Supported(files[i].name) || Strip(CleanText(files[i].text)) == []
  {
    var cs := Contributions(files);
    NumberEmptyIff(cs);
    forall i | 0 <= i < |files|
      ensures cs[i].texts == [] <==> !Supported(files[i].name) || Strip(CleanText(files[i].text)) == []
    {
      FileChunksNonEmptyIff(files[i]);
    }
  }
}
