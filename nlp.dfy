/// `tools/nlp.py`: the two text tools the chat agent calls, a summarizer that
/// hands its work to `textwrap.shorten` and a keyword-based sentiment
/// classifier.
module Nlp {
  import opened Wrappers
  import opened TextWrap

  /** The width `summarize_text` uses when the caller gives none. */
  const DefaultWidth: int := 100

  // ------------------------------------------------------------ summarize_text

  /** `text.replace("\n", " ")`: no newline is left, and every other character stays where
      it was. */
  function ReplaceNewlines(text: string): (r: string)
    ensures |r| == |text| && '\n' !in r
    ensures forall i | 0 <= i < |text| && text[i] != '\n' :: r[i] == text[i]
  {
    seq(|text|, i requires 0 <= i < |text| => if text[i] == '\n' then ' ' else text[i])
  }

  /** `summarize_text(text, width)`: `shorten` of the text with its newlines made spaces and
      the placeholder "…"; a width below one is textwrap's `ValueError`. */
  function SummarizeText(text: string, width: int): (r: Result<string, ShortenError>)
    ensures r.Failure? <==> width < 1
    ensures r.Success? ==> |r.value| <= width
  {
    Shorten(ReplaceNewlines(text), width)
  }

  /** Replacing newlines first changes nothing: `shorten` collapses them with all other
      whitespace. */
  lemma NewlinesAreCollapsedAnyway(text: string, width: int)
    ensures Collapse(ReplaceNewlines(text)) == Collapse(text)
    ensures SummarizeText(text, width) == Shorten(text, width)
  {
    SameWords(ReplaceNewlines(text), text);
  }

  /** What `summarize_text` returns: the textwrap error exactly when the width is below one;
      otherwise a summary no longer than the width, which is the whole collapsed text when
      that fits, and otherwise the collapsed text cut short at a chunk boundary (after a word
      or a hyphen break) or just after a hyphen in an over-long chunk, followed by "…". */
  lemma SummarizeSpec(text: string, width: int)
    ensures SummarizeText(text, width).Failure? <==> width < 1
    ensures SummarizeText(text, width).Failure? ==> SummarizeText(text, width).error == InvalidWidth(width)
    ensures 1 <= width ==> |SummarizeText(text, width).value| <= width
    ensures 1 <= width && |Collapse(text)| <= width ==> SummarizeText(text, width).value == Collapse(text)
    ensures 1 <= width < |Collapse(text)| ==> CutShort(SummarizeText(text, width).value, Collapse(text))
    ensures 1 <= width < |Collapse(text)| ==> CutAtBreak(SummarizeText(text, width).value, Split(Collapse(text)))
  {
    NewlinesAreCollapsedAnyway(text, width);
    if 1 <= width {
      var cs := Split(Collapse(text));
      SplitSpec(Collapse(text));
      ShortenChunksSpec(cs, width);
    }
  }

  /** Empty and whitespace-only texts summarize to the empty string, and only they do. */
  lemma SummarizeBlank(text: string, width: int)
    requires 1 <= width
    ensures SummarizeText(text, width) == Success("") <==> Blank(text)
  {
    SummarizeSpec(text, width);
    CollapseEmpty(text);
  }

  /** The summary keeps every run of leading chunks of the collapsed text (words and the
      hyphen-separated parts of words) that ends in a non-blank chunk and fits in the width
      together with "…". */
  lemma SummarizeKeepsWhatFits(text: string, width: int, m: nat)
    requires 1 <= width < |Collapse(text)|
    requires 0 < m <= |Split(Collapse(text))| && !Blank(Split(Collapse(text))[m - 1])
    requires |Concat(Split(Collapse(text))[..m])| + |Placeholder| <= width
    ensures Concat(Split(Collapse(text))[..m]) <= SummarizeText(text, width).value
  {
    NewlinesAreCollapsedAnyway(text, width);
    SplitSpec(Collapse(text));
    ShortenChunksKeepsWhatFits(Split(Collapse(text)), width, m);
  }

  /** At width one nothing but the placeholder fits, so a text that does not fit is
      summarized to "…" alone. */
  lemma SummarizeNarrowest(text: string)
    requires 1 < |Collapse(text)|
    ensures SummarizeText(text, 1) == Success(Placeholder)
  {
    SummarizeSpec(text, 1);
  }

  /** When the first word has no hyphen and does not fit together with "…", no word is kept
      and the summary is "…" alone. */
  lemma SummarizeNothingFits(text: string, width: int)
    requires 1 <= width < |Collapse(text)|
    requires Words(text) != [] && '-' !in Words(text)[0]
    requires width < |Words(text)[0]| + |Placeholder|
    ensures SummarizeText(text, width) == Success(Placeholder)
  {
    NewlinesAreCollapsedAnyway(text, width);
    SplitSpec(Collapse(text));
    FirstChunk(text);
    ShortenChunksNothingFits(Split(Collapse(text)), width);
  }

  // --------------------------------------------------------- analyze_sentiment

  const PositiveKeywords: set<string> := {"good", "great", "awesome", "love", "amazing", "fantastic"}
  const NegativeKeywords: set<string> := {"bad", "terrible", "hate", "awful", "worst"}

  const PositiveLabel: string := "Positive 😀"
  const NegativeLabel: string := "Negative 😞"
  const NeutralLabel: string := "Neutral 😐"

  /** `str.lower()` on one character, for the ASCII letters. */
  function LowerChar(c: char): char {
    if 'A' <= c <= 'Z' then (c as int - 'A' as int + 'a' as int) as char else c
  }

  /** `str.upper()` on one character, for the ASCII letters. */
  function UpperChar(c: char): char {
    if 'a' <= c <= 'z' then (c as int - 'a' as int + 'A' as int) as char else c
  }

  /** `s.lower()`: the same length, and no upper-case ASCII letter is left. */
  function Lower(s: string): (r: string)
    ensures |r| == |s|
    ensures forall i | 0 <= i < |r| :: !('A' <= r[i] <= 'Z')
  {
    seq(|s|, i requires 0 <= i < |s| => LowerChar(s[i]))
  }

  function Upper(s: string): string {
    seq(|s|, i requires 0 <= i < |s| => UpperChar(s[i]))
  }

  /** Python's `k in s` on strings: `k` occurs in `s` as a contiguous substring. */
  predicate Contains(s: string, k: string): (b: bool)
    ensures b ==> |k| <= |s|
  {
    OccursFrom(s, k, 0)
  }

  /** `k` occurs in `s` at index `i` or later. */
  predicate OccursFrom(s: string, k: string, i: nat)
    decreases |s| - i
  {
    i + |k| <= |s| && (MatchesAt(s, k, i, 0) || OccursFrom(s, k, i + 1))
  }

  /** The characters of `k` from index `j` on equal those of `s` from index `i + j` on. */
  predicate MatchesAt(s: string, k: string, i: nat, j: nat)
    requires i + |k| <= |s| && j <= |k|
    decreases |k| - j
  {
    j == |k| || (s[i + j] == k[j] && MatchesAt(s, k, i, j + 1))
  }

  /** The slice of `s` at `i` is `k`. */
  predicate OccursAt(s: string, k: string, i: nat) {
    i + |k| <= |s| && s[i..i + |k|] == k
  }

  lemma {:induction false} MatchesAtSlice(s: string, k: string, i: nat, j: nat)
    requires i + |k| <= |s| && j <= |k|
    ensures MatchesAt(s, k, i, j) <==> s[i + j..i + |k|] == k[j..]
    decreases |k| - j
  {
    if j < |k| {
      MatchesAtSlice(s, k, i, j + 1);
      assert s[i + j..i + |k|] == [s[i + j]] + s[i + j + 1..i + |k|];
      assert k[j..] == [k[j]] + k[j + 1..];
    }
  }

  lemma {:induction false} OccursFromSlice(s: string, k: string, i: nat)
    ensures OccursFrom(s, k, i) <==> exists n: nat | i <= n :: OccursAt(s, k, n)
    decreases |s| - i
  {
    if i + |k| <= |s| {
      MatchesAtSlice(s, k, i, 0);
      OccursFromSlice(s, k, i + 1);
      if OccursAt(s, k, i) {
        assert OccursFrom(s, k, i);
      }
      if n: nat :| i <= n && OccursAt(s, k, n) {
        if n == i {
          assert OccursFrom(s, k, i);
        } else {
          assert i + 1 <= n;
        }
      }
    } else {
      if n: nat :| i <= n && OccursAt(s, k, n) {
        assert false;
      }
    }
  }

  /** A match at a known index makes the text contain the keyword. */
  lemma {:induction false} ContainsAt(s: string, k: string, i: nat, n: nat)
    requires i <= n && n + |k| <= |s| && MatchesAt(s, k, n, 0)
    ensures OccursFrom(s, k, i)
    decreases n - i
  {
    if i < n {
      ContainsAt(s, k, i + 1, n);
    }
  }

  /** The character-by-character scan agrees with the slice definition of a substring. */
  lemma ContainsIsSubstring(s: string, k: string)
    ensures Contains(s, k) <==> exists n: nat :: OccursAt(s, k, n)
  {
    OccursFromSlice(s, k, 0);
  }

  /** `any(word in lowered for word in keywords)`. */
  predicate MentionsAny(lowered: string, keywords: set<string>) {
    exists k | k in keywords :: Contains(lowered, k)
  }

  /** `analyze_sentiment(text)`: one of three fixed labels. */
  function AnalyzeSentiment(text: string): (verdict: string)
    ensures verdict == PositiveLabel || verdict == NegativeLabel || verdict == NeutralLabel
  {
    var lowered := Lower(text);
    var pos := MentionsAny(lowered, PositiveKeywords);
    var neg := MentionsAny(lowered, NegativeKeywords);
    if pos && !neg then PositiveLabel
    else if neg && !pos then NegativeLabel
    else NeutralLabel
  }

  /** The decision rule: Positive exactly when some positive keyword and no negative one
      occurs in the lowercased text, Negative in the mirror case, and Neutral when both
      kinds occur or neither does. */
  lemma SentimentRule(text: string)
    ensures var pos := MentionsAny(Lower(text), PositiveKeywords);
            var neg := MentionsAny(Lower(text), NegativeKeywords);
            && (AnalyzeSentiment(text) == PositiveLabel <==> pos && !neg)
            && (AnalyzeSentiment(text) == NegativeLabel <==> neg && !pos)
            && (AnalyzeSentiment(text) == NeutralLabel <==> pos == neg)
  {
  }

  /** Lowercasing forgets case: the upper-cased text lowercases to the same string. */
  lemma LowerOfUpper(text: string)
    ensures Lower(Upper(text)) == Lower(text)
  {
    forall i | 0 <= i < |text| ensures Lower(Upper(text))[i] == Lower(text)[i] {
      var c := text[i];
      assert Upper(text)[i] == UpperChar(c);
    }
  }

  /** The classification is case-insensitive: it depends on the lowercased text only. */
  lemma SentimentIgnoresCase(text: string, other: string)
    requires Lower(other) == Lower(text)
    ensures AnalyzeSentiment(other) == AnalyzeSentiment(text)
    ensures AnalyzeSentiment(Upper(text)) == AnalyzeSentiment(text)
  {
    LowerOfUpper(text);
  }

  /** A keyword with a character the text lacks does not occur in the text. */
  lemma AbsentChar(s: string, k: string, c: char)
    requires c in k && c !in s
    ensures !Contains(s, k)
  {
    ContainsIsSubstring(s, k);
    if n: nat :| OccursAt(s, k, n) {
      assert false;
    }
  }

  /** A keyword does not occur in a text when the text holds the keyword's `j`-th character
      only at index `p`, and the keyword placed with that character on `p` disagrees with the
      text at the keyword's index `m`. */
  lemma SingleOccurrenceMismatch(s: string, k: string, j: nat, p: nat, m: nat)
    requires j < |k| && p <= |s|
    requires k[j] !in s[..p] && (p < |s| ==> k[j] !in s[p + 1..])
    requires j <= p && p - j + |k| <= |s| ==> m < |k| && s[p - j + m] != k[m]
    ensures !Contains(s, k)
  {
    ContainsIsSubstring(s, k);
    if n: nat :| OccursAt(s, k, n) {
      assert false;
    }
  }

  /** A lowercased text without the letters 'b', 'r', 'h' and 'u' mentions no negative keyword. */
  lemma NoNegativeLetters(lowered: string)
    requires 'b' !in lowered && 'r' !in lowered && 'h' !in lowered && 'u' !in lowered
    ensures !MentionsAny(lowered, NegativeKeywords)
  {
    AbsentChar(lowered, "bad", 'b');
    AbsentChar(lowered, "terrible", 'r');
    AbsentChar(lowered, "hate", 'h');
    AbsentChar(lowered, "awful", 'u');
    AbsentChar(lowered, "worst", 'r');
  }

  /** A lowercased text without the letters 'o', 'g' and 'c' mentions no positive keyword. */
  lemma NoPositiveLetters(lowered: string)
    requires 'o' !in lowered && 'g' !in lowered && 'c' !in lowered
    ensures !MentionsAny(lowered, PositiveKeywords)
  {
    AbsentChar(lowered, "good", 'o');
    AbsentChar(lowered, "great", 'g');
    AbsentChar(lowered, "awesome", 'o');
    AbsentChar(lowered, "love", 'o');
    AbsentChar(lowered, "amazing", 'g');
    AbsentChar(lowered, "fantastic", 'c');
  }

  /** Matching is on substrings, not words: "badger" holds "bad", in any casing. */
  lemma BadgerSightingIsNegative(text: string)
    requires Lower(text) == "badger sighting"
    ensures AnalyzeSentiment(text) == NegativeLabel
  {
    BadgerSightingLacksPositive(Lower(text));
    BadgerSightingMentionsNegative(Lower(text));
  }

  lemma BadgerSightingLacksPositive(lowered: string)
    requires lowered == "badger sighting"
    ensures !MentionsAny(lowered, PositiveKeywords)
  {
    BadgerSightingLacksGreat(lowered);
    BadgerSightingLacksOthers(lowered);
  }

  lemma BadgerSightingLacksOthers(lowered: string)
    requires lowered == "badger sighting"
    ensures !Contains(lowered, "good") && !Contains(lowered, "awesome") && !Contains(lowered, "love")
    ensures !Contains(lowered, "amazing") && !Contains(lowered, "fantastic")
  {
    assert 'o' !in lowered && 'w' !in lowered && 'l' !in lowered && 'm' !in lowered && 'f' !in lowered;
    AbsentChar(lowered, "good", 'o');
    AbsentChar(lowered, "awesome", 'w');
    AbsentChar(lowered, "love", 'l');
    AbsentChar(lowered, "amazing", 'm');
    AbsentChar(lowered, "fantastic", 'f');
  }

  lemma BadgerSightingLacksGreat(lowered: string)
    requires lowered == "badger sighting"
    ensures !Contains(lowered, "great")
  {
    SingleOccurrenceMismatch(lowered, "great", 1, 5, 0);
  }

  lemma BadgerSightingMentionsNegative(lowered: string)
    requires lowered == "badger sighting"
    ensures MentionsAny(lowered, NegativeKeywords)
  {
    ContainsAt(lowered, "bad", 0, 0);
  }

  /** A text with keywords of both kinds is Neutral. */
  lemma GreatAndTerribleIsNeutral(text: string)
    requires Lower(text) == "great and terrible"
    ensures AnalyzeSentiment(text) == NeutralLabel
  {
    GreatAndTerribleMentionsPositive(Lower(text));
    GreatAndTerribleMentionsNegative(Lower(text));
  }

  lemma GreatAndTerribleMentionsPositive(lowered: string)
    requires lowered == "great and terrible"
    ensures MentionsAny(lowered, PositiveKeywords)
  {
    ContainsAt(lowered, "great", 0, 0);
  }

  lemma GreatAndTerribleMentionsNegative(lowered: string)
    requires lowered == "great and terrible"
    ensures MentionsAny(lowered, NegativeKeywords)
  {
    ContainsAt(lowered, "terrible", 0, 10);
  }

  /** A text with a positive keyword only is Positive. */
  lemma FantasticIsPositive(text: string)
    requires Lower(text) == "a fantastic idea"
    ensures AnalyzeSentiment(text) == PositiveLabel
  {
    FantasticMentionsPositive(Lower(text));
    NoNegativeLetters(Lower(text));
  }

  lemma FantasticMentionsPositive(lowered: string)
    requires lowered == "a fantastic idea"
    ensures MentionsAny(lowered, PositiveKeywords)
  {
    ContainsAt(lowered, "fantastic", 0, 2);
  }

  /** A text with no keyword is Neutral. */
  lemma WeatherIsNeutral(text: string)
    requires Lower(text) == "the weather is fine"
    ensures AnalyzeSentiment(text) == NeutralLabel
  {
    NoPositiveLetters(Lower(text));
    WeatherLacksNegative(Lower(text));
  }

  lemma WeatherLacksNegative(lowered: string)
    requires lowered == "the weather is fine"
    ensures !MentionsAny(lowered, NegativeKeywords)
  {
    AbsentChar(lowered, "bad", 'b');
    AbsentChar(lowered, "terrible", 'b');
    WeatherLacksHate(lowered);
    AbsentChar(lowered, "awful", 'u');
    AbsentChar(lowered, "worst", 'o');
  }

  lemma WeatherLacksHate(lowered: string)
    requires lowered == "the weather is fine"
    ensures !Contains(lowered, "hate")
  {
    SingleOccurrenceMismatch(lowered, "hate", 1, 6, 0);
  }

  /** The capitalised spellings of the examples lowercase to the forms they are stated for. */
  lemma ExampleCasings()
    ensures Lower("The weather is fine") == "the weather is fine"
    ensures Lower("A fantastic idea") == "a fantastic idea"
  {
    assert LowerChar('T') == 't';
    assert LowerChar('A') == 'a';
  }
}
