/** The medical-request filter (`app/safety.py`). The seven regular
    expressions `\bdiagnos(e|is)\b`, `\bshould i take\b`, `\bwhat medicine\b`,
    `\bside effects\b`, `\bpregnan(t|cy)\b`, `\bsymptom(s)?\b` and
    `\bdosage\b` each match exactly one of a few literal phrases with a word
    boundary on both sides, so the model searches for those ten phrases. */
module Safety {
  import opened Text

  /** The characters of the regex class `\w`, restricted to ASCII. */
  predicate IsWordChar(c: char) {
    'a' <= c <= 'z' || 'A' <= c <= 'Z' || '0' <= c <= '9' || c == '_'
  }

  /** The phrases the patterns accept, in pattern order. */
  const MedicalPhrases: seq<string> := [
    "diagnose", "diagnosis", "should i take", "what medicine", "side effects",
    "pregnant", "pregnancy", "symptom", "symptoms", "dosage"
  ]

  /** `\b` at position `i`: a word character on exactly one side, the ends of
      the string counting as non-word. */
  predicate BoundaryAt(s: string, i: int)
    requires 0 <= i <= |s|
  {
    (i > 0 && IsWordChar(s[i - 1])) != (i < |s| && IsWordChar(s[i]))
  }

  /** `\b<p>\b` matches `s` at index `i`. */
  predicate MatchAt(s: string, p: string, i: int) {
    OccursAt(s, p, i) && BoundaryAt(s, i) && BoundaryAt(s, i + |p|)
  }

  /** `re.search` for `\b<p>\b`, trying start positions from `i` on. */
  function MatchFrom(s: string, p: string, i: nat): (b: bool)
    ensures b <==> exists j :: i <= j && MatchAt(s, p, j)
    decreases |s| - i
  {
    if i + |p| > |s| then false
    else MatchAt(s, p, i) || MatchFrom(s, p, i + 1)
  }

  function Search(s: string, p: string): (b: bool)
    ensures b <==> exists j :: MatchAt(s, p, j)
  {
    MatchFrom(s, p, 0)
  }

  /** `any(re.search(p, s) for p in ps)`, left to right. */
  function AnyPhrase(s: string, ps: seq<string>): (b: bool)
    ensures b <==> exists k :: 0 <= k < |ps| && Search(s, ps[k])
  {
    if ps == [] then false
    else
      assert forall k :: 1 <= k < |ps| ==> ps[k] == ps[1..][k - 1];
      Search(s, ps[0]) || AnyPhrase(s, ps[1..])
  }

  /** `is_medical_advice_request`: some phrase occurs in the lower-cased
      query with a word boundary on both sides. */
  function IsMedicalAdviceRequest(q: string): (b: bool)
    ensures b <==> exists k, j :: 0 <= k < |MedicalPhrases| && MatchAt(Lower(q), MedicalPhrases[k], j)
  {
    AnyPhrase(Lower(q), MedicalPhrases)
  }

  /** The redirect returned instead of an answer. */
  const SafeRedirect: string :=
    "I can help with **store/pharmacy operations, policies, and workflow guidance**. "
    + "I can\U{2019}t provide medical advice, diagnosis, or medication guidance. "
    + "For medical questions, please consult a licensed pharmacist or healthcare provider."

  /** The filter only looks at the lower-cased query. */
  lemma MedicalCaseInsensitive(q: string)
    ensures IsMedicalAdviceRequest(Lower(q)) == IsMedicalAdviceRequest(q)
  {
    LowerIdempotent(q);
  }

  /** A match is an occurrence: a query containing none of the phrases, even
      without regard to word boundaries, is not a medical request. */
  lemma NoPhraseNotMedical(q: string)
    requires forall k :: 0 <= k < |MedicalPhrases| ==> !Contains(Lower(q), MedicalPhrases[k])
    ensures !IsMedicalAdviceRequest(q)
  {
    if IsMedicalAdviceRequest(q) {
      var k, j :| 0 <= k < |MedicalPhrases| && MatchAt(Lower(q), MedicalPhrases[k], j);
      ContainsIffOccurs(Lower(q), MedicalPhrases[k]);
      assert false;
    }
  }

  /** The empty query is never flagged. */
  lemma EmptyNotMedical()
    ensures !IsMedicalAdviceRequest("")
  {
    forall k | 0 <= k < |MedicalPhrases| ensures !Contains(Lower(""), MedicalPhrases[k]) {
      assert |MedicalPhrases[k]| > 0;
    }
    NoPhraseNotMedical("");
  }

  /** Both forms of the symptom pattern are caught, whatever the case. */
  lemma SymptomsFlagged()
    ensures IsMedicalAdviceRequest("symptom")
    ensures IsMedicalAdviceRequest("Symptoms")
  {
    assert MatchAt(Lower("symptom"), MedicalPhrases[7], 0);
    assert MatchAt(Lower("Symptoms"), MedicalPhrases[8], 0);
  }

  /** A phrase holding a character the text lacks is never found in it. */
  lemma NotSearchedMissing(s: string, p: string, c: char)
    requires c in p && c !in s
    ensures !Search(s, p)
  {
    MissingCharNotContained(s, p, c);
    ContainsIffOccurs(s, p);
  }

  /** A phrase that could only start at `j0`, where one of its two word
      boundaries fails, is never matched. */
  lemma NotMatchedGlued(s: string, p: string, j0: nat)
    requires |p| > 0 && j0 + |p| <= |s|
    requires forall j :: 0 <= j <= |s| - |p| && j != j0 ==> s[j] != p[0]
    requires !BoundaryAt(s, j0) || !BoundaryAt(s, j0 + |p|)
    ensures forall j :: !MatchAt(s, p, j)
  {
    forall j | 0 <= j <= |s| - |p| && j != j0 ensures !OccursAt(s, p, j) {
      assert s[j..j + |p|][0] == s[j] != p[0];
    }
  }

  /** "dosage" occurs in "dosages", but with a word character after it. */
  lemma NoPhraseInDosages(s: string)
    requires s == "dosages"
    ensures forall k :: 0 <= k < |MedicalPhrases| ==> !Search(s, MedicalPhrases[k])
  {
    NotMatchedGlued(s, "dosage", 0);
    // Character `k` of "iihwippyy" is one that phrase `k` has and "dosages"
    // lacks: 'i' for diagnose, diagnosis and side effects, 'h' for should i
    // take, 'w' for what medicine, 'p' for pregnant and pregnancy, 'y' for
    // symptom and symptoms.
    forall k | 0 <= k <= 8 ensures !Search(s, MedicalPhrases[k]) {
      NotSearchedMissing(s, MedicalPhrases[k], "iihwippyy"[k]);
    }
  }

  /** The seven phrases not starting with 'd' each hold a character that
      neither "undiagnosed" nor "prediagnosis" has. */
  lemma NoOtherPhraseIn(s: string)
    requires s == "undiagnosed" || s == "prediagnosis"
    ensures forall k :: 2 <= k <= 8 ==> !Search(s, MedicalPhrases[k])
  {
    // Character `k` of each string below is one that phrase `k` has and the
    // text lacks; positions 0 and 1 (the `diagnos` phrases) are unused.
    //   should i take  what medicine  side effects  pregnant  pregnancy  symptom(s)
    //   'h'            'w'            ' '           'p' / 't' 'p' / 'c'  'y'
    // where "undiagnosed" lacks 'p' and "prediagnosis" lacks 't' and 'c'.
    if s == "undiagnosed" {
      forall k | 2 <= k <= 8 ensures !Search(s, MedicalPhrases[k]) {
        NotSearchedMissing(s, MedicalPhrases[k], "__hw ppyy"[k]);
      }
    } else {
      forall k | 2 <= k <= 8 ensures !Search(s, MedicalPhrases[k]) {
        NotSearchedMissing(s, MedicalPhrases[k], "__hw tcyy"[k]);
      }
    }
  }

  /** "diagnose" occurs in "undiagnosed", with word characters on both sides. */
  lemma NoPhraseInUndiagnosed(s: string)
    requires s == "undiagnosed"
    ensures forall k :: 0 <= k < |MedicalPhrases| ==> !Search(s, MedicalPhrases[k])
  {
    NotMatchedGlued(s, "diagnose", 2);
    NotMatchedGlued(s, "diagnosis", 2);
    NotMatchedGlued(s, "dosage", 2);
    NoOtherPhraseIn(s);
  }

  /** "diagnosis" occurs in "prediagnosis", with a word character before it. */
  lemma NoPhraseInPrediagnosis(s: string)
    requires s == "prediagnosis"
    ensures forall k :: 0 <= k < |MedicalPhrases| ==> !Search(s, MedicalPhrases[k])
  {
    NotMatchedGlued(s, "diagnose", 3);
    NotMatchedGlued(s, "diagnosis", 3);
    NotMatchedGlued(s, "dosage", 3);
    NoOtherPhraseIn(s);
  }

  /** The word boundaries reject a phrase glued to other letters. */
  lemma WordBoundaryRejects()
    ensures !IsMedicalAdviceRequest("dosages")
    ensures !IsMedicalAdviceRequest("undiagnosed")
    ensures !IsMedicalAdviceRequest("prediagnosis")
  {
    assert Lower("dosages") == "dosages";
    NoPhraseInDosages(Lower("dosages"));
    assert Lower("undiagnosed") == "undiagnosed";
    NoPhraseInUndiagnosed(Lower("undiagnosed"));
    assert Lower("prediagnosis") == "prediagnosis";
    NoPhraseInPrediagnosis(Lower("prediagnosis"));
  }
}
