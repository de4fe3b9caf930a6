/** The Python string built-ins the assistant relies on, written out over
    `seq<char>`: `str.isspace`, `str.strip`, `str.lower` (ASCII letters only),
    the substring test `k in s`, `sep.join(parts)`, `str.split()` and `str(n)`. */
module Text {

  // ---------------------------------------------------------------------
  // Whitespace and strip
  // ---------------------------------------------------------------------

  /** Python's `str.isspace` on one code point: the ASCII controls 9-13 and
      28-31, the space, and the Unicode separators Python counts as
      whitespace. */
  predicate IsSpace(c: char) {
    c == ' ' || ('\t' <= c <= '\r') || ('\U{1C}' <= c <= '\U{1F}')
    || c == '\U{85}' || c == '\U{A0}' || c == '\U{1680}'
    || ('\U{2000}' <= c <= '\U{200A}') || c == '\U{2028}' || c == '\U{2029}'
    || c == '\U{202F}' || c == '\U{205F}' || c == '\U{3000}'
  }

  predicate AllSpace(s: string) {
    forall i :: 0 <= i < |s| ==> IsSpace(s[i])
  }

  /** `s.lstrip()`: drops the leading whitespace and nothing else. */
  function StripLeft(s: string): (r: string)
    ensures |r| <= |s| && r == s[|s| - |r|..]
    ensures r == [] || !IsSpace(r[0])
    ensures AllSpace(s[..|s| - |r|])
    decreases |s|
  {
    if s != [] && IsSpace(s[0]) then
      var r := StripLeft(s[1..]);
      assert s[..|s| - |r|] == [s[0]] + s[1..][..|s| - 1 - |r|];
      r
    else s
  }

  /** `s.rstrip()`: drops the trailing whitespace and nothing else. */
  function StripRight(s: string): (r: string)
    ensures |r| <= |s| && r == s[..|r|]
    ensures r == [] || !IsSpace(r[|r| - 1])
    ensures AllSpace(s[|r|..])
    decreases |s|
  {
    if s != [] && IsSpace(s[|s| - 1]) then
      var r := StripRight(s[..|s| - 1]);
      assert s[|r|..] == s[..|s| - 1][|r|..] + [s[|s| - 1]];
      r
    else s
  }

  /** Number of whitespace characters `s.strip()` removes at the front. */
  function LeadingSpace(s: string): nat {
    |s| - |StripLeft(s)|
  }

  /** `s.strip()`: `lstrip` then `rstrip`. The result starts and ends with a
      non-space; `StripShape` says which slice of `s` it is. */
  function Strip(s: string): (r: string)
    ensures r == [] || (!IsSpace(r[0]) && !IsSpace(r[|r| - 1]))
  {
    StripRight(StripLeft(s))
  }

  /** `s.strip()` is the slice of `s` left when the whitespace at both ends is
      removed: everything cut off on either side is whitespace. */
  lemma StripShape(s: string)
    ensures LeadingSpace(s) + |Strip(s)| <= |s|
    ensures Strip(s) == s[LeadingSpace(s)..LeadingSpace(s) + |Strip(s)|]
    ensures AllSpace(s[..LeadingSpace(s)]) && AllSpace(s[LeadingSpace(s) + |Strip(s)|..])
  {
    var l := StripLeft(s);
    var r := StripRight(l);
    assert s[|s| - |l| + |r|..] == l[|r|..];
  }

  /** `s.strip()` is empty exactly when `s` is all whitespace. */
  lemma StripEmptyIff(s: string)
    ensures Strip(s) == [] <==> AllSpace(s)
  {
    StripShape(s);
    var i, r := LeadingSpace(s), Strip(s);
    if r == [] {
      forall k | 0 <= k < |s| ensures IsSpace(s[k]) {
        assert s[k] == s[..i][k];
      }
    } else {
      assert s[i] == r[0];
    }
  }

  /** Strip leaves a string that already has no whitespace at its ends alone. */
  lemma StripUnchanged(t: string)
    requires t == [] || (!IsSpace(t[0]) && !IsSpace(t[|t| - 1]))
    ensures Strip(t) == t
  {
    StripShape(t);
  }

  // ---------------------------------------------------------------------
  // Lower case
  // ---------------------------------------------------------------------

  function LowerChar(c: char): char {
    if 'A' <= c <= 'Z' then (c as int + 32) as char else c
  }

  /** `s.lower()` restricted to ASCII: every upper-case letter A-Z becomes
      its lower-case form, every other character is kept. */
  function Lower(s: string): (r: string)
    ensures |r| == |s|
    ensures forall i :: 0 <= i < |s| ==> r[i] == LowerChar(s[i])
  {
    seq(|s|, i requires 0 <= i < |s| => LowerChar(s[i]))
  }

  /** Lowering is idempotent, the fact behind every case-insensitivity claim. */
  lemma LowerIdempotent(s: string)
    ensures Lower(Lower(s)) == Lower(s)
  {
  }

  // ---------------------------------------------------------------------
  // Substring test
  // ---------------------------------------------------------------------

  /** `k` occurs in `s` starting at index `i`. */
  predicate OccursAt(s: string, k: string, i: int) {
    0 <= i <= |s| - |k| && s[i..i + |k|] == k
  }

  ghost predicate Occurs(s: string, k: string) {
    exists i :: OccursAt(s, k, i)
  }

  /** Python's `k in s` on strings, as a left-to-right scan. */
  function Contains(s: string, k: string): bool
    decreases |s|
  {
    if |k| > |s| then false
    else if s[..|k|] == k then true
    else Contains(s[1..], k)
  }

  lemma TailSlice(s: string, i: nat, n: nat)
    requires 1 + i + n <= |s|
    ensures s[1..][i..i + n] == s[i + 1..i + 1 + n]
  {
    var a, b := s[1..][i..i + n], s[i + 1..i + 1 + n];
    assert forall m :: 0 <= m < n ==> a[m] == b[m];
  }

  /** The scan answers exactly the question "does `k` occur somewhere in `s`". */
  lemma {:induction false} ContainsIffOccurs(s: string, k: string)
    ensures Contains(s, k) <==> Occurs(s, k)
    decreases |s|
  {
    if |k| > |s| {
    } else if s[..|k|] == k {
      assert OccursAt(s, k, 0);
    } else {
      ContainsIffOccurs(s[1..], k);
      if Occurs(s[1..], k) {
        var i :| OccursAt(s[1..], k, i);
        TailSlice(s, i, |k|);
        assert OccursAt(s, k, i + 1);
      }
      if Occurs(s, k) {
        var i :| OccursAt(s, k, i);
        assert i != 0;
        TailSlice(s, i - 1, |k|);
        assert OccursAt(s[1..], k, i - 1);
      }
    }
  }

  /** A pattern holding a character the text lacks cannot occur in it. */
  lemma MissingCharNotContained(s: string, k: string, c: char)
    requires c in k && c !in s
    ensures !Contains(s, k)
  {
    ContainsIffOccurs(s, k);
  }

  /** An occurrence of `a` in `s`, and of `b` in `a`, is an occurrence of `b` in `s`. */
  lemma ContainsTransitive(s: string, a: string, b: string)
    requires Contains(s, a) && Contains(a, b)
    ensures Contains(s, b)
  {
    ContainsIffOccurs(s, a);
    ContainsIffOccurs(a, b);
    ContainsIffOccurs(s, b);
    var i :| OccursAt(s, a, i);
    var j :| OccursAt(a, b, j);
    forall t | 0 <= t < |b| ensures s[i + j + t] == b[t] {
      assert b[t] == a[j..j + |b|][t] == a[j + t];
      assert a[j + t] == s[i..i + |a|][j + t];
    }
    assert s[i + j..i + j + |b|] == b;
    assert OccursAt(s, b, i + j);
  }

  // ---------------------------------------------------------------------
  // join
  // ---------------------------------------------------------------------

  /** `sep.join(parts)`. */
  function JoinWith(parts: seq<string>, sep: string): string {
    if |parts| == 0 then []
    else if |parts| == 1 then parts[0]
    else parts[0] + sep + JoinWith(parts[1..], sep)
  }

  /** The summed length of the parts, accumulated left to right. */
  function TotalLen(parts: seq<string>): nat {
    if parts == [] then 0 else TotalLen(parts[..|parts| - 1]) + |parts[|parts| - 1]|
  }

  lemma {:induction false} TotalLenCons(p: string, parts: seq<string>)
    ensures TotalLen([p] + parts) == |p| + TotalLen(parts)
    decreases |parts|
  {
    if parts != [] {
      assert ([p] + parts)[..|parts|] == [p] + parts[..|parts| - 1];
      TotalLenCons(p, parts[..|parts| - 1]);
    }
  }

  /** A join is as long as its parts plus one separator between each pair. */
  lemma {:induction false} JoinWithLength(parts: seq<string>, sep: string)
    requires |parts| > 0
    ensures |JoinWith(parts, sep)| == TotalLen(parts) + (|parts| - 1) * |sep|
    decreases |parts|
  {
    if |parts| == 1 {
      assert parts == [] + [parts[0]];
    } else {
      JoinWithLength(parts[1..], sep);
      TotalLenCons(parts[0], parts[1..]);
      assert [parts[0]] + parts[1..] == parts;
    }
  }

  // ---------------------------------------------------------------------
  // split
  // ---------------------------------------------------------------------

  /** A token of `str.split()`: non-empty and free of whitespace. */
  predicate IsWord(w: string) {
    |w| > 0 && forall i :: 0 <= i < |w| ==> !IsSpace(w[i])
  }

  /** Length of the run of non-space characters at the front of `s`. */
  function TokenLen(s: string): (n: nat)
    ensures n <= |s|
    ensures forall i :: 0 <= i < n ==> !IsSpace(s[i])
    ensures n == |s| || IsSpace(s[n])
  {
    if s == [] || IsSpace(s[0]) then 0 else 1 + TokenLen(s[1..])
  }

  /** `s.split()`: the maximal whitespace-free runs of `s`, in order. */
  function Words(s: string): (ws: seq<string>)
    ensures forall w :: w in ws ==> IsWord(w)
    decreases |s|
  {
    if s == [] then []
    else if IsSpace(s[0]) then Words(s[1..])
    else
      var n := TokenLen(s);
      [s[..n]] + Words(s[n..])
  }

  /** `s.split()` is empty exactly when `s` is all whitespace. */
  lemma {:induction false} WordsEmptyIff(s: string)
    ensures Words(s) == [] <==> AllSpace(s)
    decreases |s|
  {
    if s != [] && IsSpace(s[0]) {
      WordsEmptyIff(s[1..]);
      assert forall i :: 1 <= i < |s| ==> s[i] == s[1..][i - 1];
    }
  }

  lemma {:induction false} TokenLenOfWord(w: string, t: string)
    requires IsWord(w) || w == []
    requires t == [] || IsSpace(t[0])
    ensures TokenLen(w + t) == |w|
    decreases |w|
  {
    if w != [] {
      assert (w + t)[1..] == w[1..] + t;
      TokenLenOfWord(w[1..], t);
    }
  }

  /** Splitting a word followed by whitespace (or by nothing) yields that word first. */
  lemma WordsOfWordThen(w: string, t: string)
    requires IsWord(w)
    requires t == [] || IsSpace(t[0])
    ensures Words(w + t) == [w] + Words(t)
  {
    TokenLenOfWord(w, t);
    assert (w + t)[..|w|] == w;
    assert (w + t)[|w|..] == t;
  }

  /** A single word splits to itself. */
  lemma WordsOfWord(w: string)
    requires IsWord(w)
    ensures Words(w) == [w]
  {
    WordsOfWordThen(w, []);
    assert w + [] == w;
  }

  /** Leading whitespace contributes no token. */
  lemma {:induction false} WordsAfterSpace(a: string, t: string)
    requires AllSpace(a)
    ensures Words(a + t) == Words(t)
    decreases |a|
  {
    if a != [] {
      assert (a + t)[0] == a[0] && (a + t)[1..] == a[1..] + t;
      assert AllSpace(a[1..]) by {
        forall i | 0 <= i < |a[1..]| ensures IsSpace(a[1..][i]) {
          assert a[1..][i] == a[i + 1];
        }
      }
      WordsAfterSpace(a[1..], t);
    } else {
      assert a + t == t;
    }
  }

  /** A run of non-space characters stops at the same place when more text
      follows a whitespace character. */
  lemma {:induction false} TokenLenOfPrefix(a: string, t: string)
    requires TokenLen(a) < |a| || t == [] || IsSpace(t[0])
    ensures TokenLen(a + t) == TokenLen(a)
    decreases |a|
  {
    if a != [] && !IsSpace(a[0]) {
      assert (a + t)[1..] == a[1..] + t;
      TokenLenOfPrefix(a[1..], t);
    }
  }

  /** `split()` cuts at every whitespace character: the tokens of
      `a + [c] + b` are those of `a` followed by those of `b`. Together with
      `WordsOfWord` and `WordsEmptyIff` this says the tokens are exactly the
      maximal whitespace-free runs, in order. */
  lemma {:induction false} WordsSplitAtSpace(a: string, c: char, b: string)
    requires IsSpace(c)
    ensures Words(a + [c] + b) == Words(a) + Words(b)
    decreases |a|
  {
    var s := a + [c] + b;
    if a == [] {
      assert s[1..] == b;
    } else if IsSpace(a[0]) {
      assert s[1..] == a[1..] + [c] + b;
      WordsSplitAtSpace(a[1..], c, b);
    } else {
      var m := TokenLen(a);
      TokenLenOfPrefix(a, [c] + b);
      assert s == a + ([c] + b);
      assert s[..m] == a[..m];
      assert s[m..] == a[m..] + [c] + b;
      WordsSplitAtSpace(a[m..], c, b);
    }
  }

  /** The text starts with a token. */
  predicate StartsWord(t: string) {
    t != [] && !IsSpace(t[0])
  }

  /** The tokens of `[c] + t` depend on `t` only through its tokens and
      whether it starts with one. */
  lemma WordsCons(c: char, t: string)
    ensures IsSpace(c) ==> Words([c] + t) == Words(t)
    ensures !IsSpace(c) && !StartsWord(t) ==> Words([c] + t) == [[c]] + Words(t)
    ensures !IsSpace(c) && StartsWord(t) ==>
      Words(t) != [] && Words([c] + t) == [[c] + Words(t)[0]] + Words(t)[1..]
  {
    var s := [c] + t;
    assert s[1..] == t;
    if !IsSpace(c) {
      if !StartsWord(t) {
        WordsOfWordThen([c], t);
      } else {
        var n := TokenLen(t);
        assert TokenLen(s) == 1 + n;
        assert s[..1 + n] == [c] + t[..n];
        assert s[1 + n..] == t[n..];
      }
    }
  }

  /** Two texts with the same tokens that agree on starting with one keep the
      same tokens when the same character is put in front of both. */
  lemma WordsConsAgree(c: char, t: string, u: string)
    requires Words(t) == Words(u) && StartsWord(t) == StartsWord(u)
    ensures Words([c] + t) == Words([c] + u)
  {
    WordsCons(c, t);
    WordsCons(c, u);
  }

  /** Trailing whitespace contributes no token. */
  lemma WordsBeforeSpace(m: string, b: string)
    requires AllSpace(b)
    ensures Words(m + b) == Words(m)
  {
    if b != [] {
      assert AllSpace(b[1..]) by {
        forall i | 0 <= i < |b[1..]| ensures IsSpace(b[1..][i]) {
          assert b[1..][i] == b[i + 1];
        }
      }
      WordsEmptyIff(b[1..]);
      assert m + b == m + [b[0]] + b[1..];
      WordsSplitAtSpace(m, b[0], b[1..]);
      assert Words(m) + [] == Words(m);
    } else {
      assert m + b == m;
    }
  }

  /** `strip()` drops no token: `s.strip().split() == s.split()`. */
  lemma WordsOfStrip(s: string)
    ensures Words(Strip(s)) == Words(s)
  {
    StripShape(s);
    var i, t := LeadingSpace(s), Strip(s);
    var j := i + |t|;
    var front, back := s[..i], s[j..];
    assert s == front + (t + back);
    WordsAfterSpace(front, t + back);
    WordsBeforeSpace(t, back);
  }

  /** Round trip: joining words with single spaces and splitting again gives
      back the same words. */
  lemma {:induction false} WordsOfJoin(ws: seq<string>)
    requires forall w :: w in ws ==> IsWord(w)
    ensures Words(JoinWith(ws, " ")) == ws
    decreases |ws|
  {
    if |ws| == 1 {
      WordsOfWordThen(ws[0], []);
      assert ws[0] + [] == ws[0];
    } else if |ws| > 1 {
      var rest := JoinWith(ws[1..], " ");
      assert JoinWith(ws, " ") == ws[0] + (" " + rest);
      WordsOfJoin(ws[1..]);
      assert (" " + rest)[1..] == rest;
      assert Words(" " + rest) == Words(rest);
      WordsOfWordThen(ws[0], " " + rest);
      assert [ws[0]] + ws[1..] == ws;
    }
  }

  // ---------------------------------------------------------------------
  // str(int)
  // ---------------------------------------------------------------------

  function DigitChar(d: nat): (c: char)
    requires d < 10
    ensures '0' <= c <= '9'
  {
    ('0' as int + d) as char
  }

  predicate IsDigits(s: string) {
    forall i :: 0 <= i < |s| ==> '0' <= s[i] <= '9'
  }

  /** `str(n)` for a non-negative integer: its decimal digits, most
      significant first, with no leading zero. */
  function NatToString(n: nat): (r: string)
    ensures |r| >= 1 && IsDigits(r)
    ensures |r| > 1 || n > 0 ==> r[0] != '0'
  {
    if n < 10 then [DigitChar(n)] else NatToString(n / 10) + [DigitChar(n % 10)]
  }

  /** The value of a string of decimal digits. */
  function DigitsValue(s: string): nat
    requires IsDigits(s)
  {
    if s == [] then 0 else DigitsValue(s[..|s| - 1]) * 10 + (s[|s| - 1] as int - '0' as int)
  }

  /** The decimal rendering reads back as the number it renders. */
  lemma {:induction false} NatToStringValue(n: nat)
    ensures DigitsValue(NatToString(n)) == n
  {
    if n >= 10 {
      NatToStringValue(n / 10);
      var s := NatToString(n);
      assert s[..|s| - 1] == NatToString(n / 10);
    }
  }

  /** `str(n)` for any integer: a minus sign in front of a negative one. */
  function IntToString(n: int): (r: string)
    ensures |r| >= 1
    ensures n >= 0 ==> IsDigits(r) && DigitsValue(r) == n
    ensures n < 0 ==> r[0] == '-' && IsDigits(r[1..]) && DigitsValue(r[1..]) == -n
    ensures n >= 0 && |r| > 1 ==> r[0] != '0'
    ensures n < 0 ==> |r| >= 2 && r[1] != '0'
  {
    NatToStringValue(if n < 0 then -n else n);
    if n < 0 then "-" + NatToString(-n) else NatToString(n)
  }
}
