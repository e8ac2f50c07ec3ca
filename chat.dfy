/// `agents/chat.py`: the chat agent's reply, the sentiment label and the summary of the
/// input framed by the agent's name.
module Chat {
  import opened TextWrap
  import opened Nlp

  /** The text before the sentiment label: the agent's name in brackets. */
  function Header(name: string): string {
    "[" + name + "] Sentiment="
  }

  /** The text between the sentiment label and the summary. */
  const Separator: string := " | Summary ➜ "

  /** `summarize_text(input_data)` at its default width, which is always a valid one. */
  function Summary(input: string): (summary: string)
    ensures |summary| <= DefaultWidth
    ensures |Collapse(input)| <= DefaultWidth ==> summary == Collapse(input)
    ensures DefaultWidth < |Collapse(input)| ==> CutShort(summary, Collapse(input))
    ensures DefaultWidth < |Collapse(input)| ==> CutAtBreak(summary, Split(Collapse(input)))
  {
    SummarizeSpec(input, DefaultWidth);
    SummarizeText(input, DefaultWidth).value
  }

  /** The f-string `f"[{name}] Sentiment={sentiment} | Summary ➜ {summary}"`. */
  function Format(name: string, sentiment: string, summary: string): string {
    Header(name) + sentiment + Separator + summary
  }

  /** `ChatAgent.act(input_data)` for an agent called `name`. */
  function Respond(name: string, input: string): (response: string)
    ensures Header(name) <= response
    ensures |response| <= |name| + 136
  {
    var sentiment := AnalyzeSentiment(input);
    var summary := Summary(input);
    assert |Header(name)| == |name| + 13 && |sentiment| <= 10 && |Separator| == 13;
    Format(name, sentiment, summary)
  }

  /** The first and third characters tell the three sentiment labels apart. */
  lemma LabelsPrefixFree(l1: string, l2: string, rest1: string, rest2: string)
    requires l1 == PositiveLabel || l1 == NegativeLabel || l1 == NeutralLabel
    requires l2 == PositiveLabel || l2 == NegativeLabel || l2 == NeutralLabel
    requires l1 + rest1 == l2 + rest2
    ensures l1 == l2 && rest1 == rest2
  {
    assert (l1 + rest1)[0] == l1[0] && (l1 + rest1)[2] == l1[2];
    assert (l2 + rest2)[0] == l2[0] && (l2 + rest2)[2] == l2[2];
    assert l1 == l2;
    assert rest1 == (l1 + rest1)[|l1|..];
  }

  lemma CancelLeft(a: string, b: string, c: string)
    requires a + b == a + c
    ensures b == c
  {
    assert b == (a + b)[|a|..];
  }

  lemma FormatParts(name: string, sentiment: string, summary: string)
    ensures Format(name, sentiment, summary) == Header(name) + (sentiment + (Separator + summary))
  {
  }

  /** A formatted reply determines its label and its summary, given the agent's name. */
  lemma FormatInjective(name: string, l1: string, s1: string, l2: string, s2: string)
    requires l1 == PositiveLabel || l1 == NegativeLabel || l1 == NeutralLabel
    requires l2 == PositiveLabel || l2 == NegativeLabel || l2 == NeutralLabel
    ensures Format(name, l1, s1) == Format(name, l2, s2) <==> l1 == l2 && s1 == s2
  {
    if Format(name, l1, s1) == Format(name, l2, s2) {
      FormatParts(name, l1, s1);
      FormatParts(name, l2, s2);
      CancelLeft(Header(name), l1 + (Separator + s1), l2 + (Separator + s2));
      LabelsPrefixFree(l1, l2, Separator + s1, Separator + s2);
      CancelLeft(Separator, s1, s2);
    }
  }

  /** The response of a given agent determines the sentiment and the summary: two inputs
      get the same response exactly when they get the same label and the same summary. */
  lemma RespondDeterminesParts(name: string, a: string, b: string)
    ensures Respond(name, a) == Respond(name, b)
        <==> AnalyzeSentiment(a) == AnalyzeSentiment(b) && Summary(a) == Summary(b)
  {
    FormatInjective(name, AnalyzeSentiment(a), Summary(a), AnalyzeSentiment(b), Summary(b));
  }

  /** The response ends with the summary: the whole collapsed input when it fits in 100
      characters, and otherwise a prefix of it cut at a chunk boundary or just after a
      hyphen, followed by "…". */
  lemma RespondEndsWithSummary(name: string, input: string)
    ensures var r := Respond(name, input);
            var s := r[|r| - |Summary(input)|..];
            && s == Summary(input)
            && (|Collapse(input)| <= DefaultWidth ==> s == Collapse(input))
            && (DefaultWidth < |Collapse(input)| ==> CutShort(s, Collapse(input)))
            && (DefaultWidth < |Collapse(input)| ==> CutAtBreak(s, Split(Collapse(input))))
  {
  }

  /** The response to a short, already collapsed input quotes the input in full. */
  lemma RespondQuotesShortInput(name: string, input: string)
    requires Collapsed(input) && |input| <= DefaultWidth
    ensures Respond(name, input) == Format(name, AnalyzeSentiment(input), input)
  {
    CollapseUnique(input, input);
  }

  /** An agent called "HelperBot" answers "Today is an awesome day!" with a positive label
      and the input itself as the summary. */
  lemma HelperBotExample(name: string, input: string)
    requires name == "HelperBot" && input == "Today is an awesome day!"
    ensures Respond(name, input)
         == "[HelperBot] Sentiment=Positive 😀 | Summary ➜ Today is an awesome day!"
  {
    HelperBotParts(name, input);
    HelperBotText(name, input);
  }

  lemma HelperBotParts(name: string, input: string)
    requires input == "Today is an awesome day!"
    ensures Respond(name, input) == Format(name, PositiveLabel, input)
  {
    AwesomeDayIsPositive(input);
    AwesomeDayIsCollapsed(input);
    RespondQuotesShortInput(name, input);
  }

  lemma HelperBotText(name: string, input: string)
    requires name == "HelperBot" && input == "Today is an awesome day!"
    ensures Format(name, PositiveLabel, input)
         == "[HelperBot] Sentiment=Positive 😀 | Summary ➜ Today is an awesome day!"
  {
    HelperBotLabelled(name);
    HelperBotSeparated(Header(name) + PositiveLabel);
    HelperBotWhole(Header(name) + PositiveLabel + Separator, input);
  }

  lemma HelperBotLabelled(name: string)
    requires name == "HelperBot"
    ensures Header(name) + PositiveLabel == "[HelperBot] Sentiment=Positive 😀"
  {
    assert Header(name) == "[HelperBot] Sentiment=";
  }

  lemma HelperBotSeparated(labelled: string)
    requires labelled == "[HelperBot] Sentiment=Positive 😀"
    ensures labelled + Separator == "[HelperBot] Sentiment=Positive 😀 | Summary ➜ "
  {
  }

  lemma HelperBotWhole(front: string, input: string)
    requires front == "[HelperBot] Sentiment=Positive 😀 | Summary ➜ "
    requires input == "Today is an awesome day!"
    ensures front + input
         == "[HelperBot] Sentiment=Positive 😀 | Summary ➜ Today is an awesome day!"
  {
  }

  lemma AwesomeDayIsPositive(input: string)
    requires input == "Today is an awesome day!"
    ensures AnalyzeSentiment(input) == PositiveLabel
  {
    AwesomeDayLowered(input);
    AwesomeDayPositive(Lower(input));
    NoNegativeLetters(Lower(input));
  }

  lemma AwesomeDayLowered(input: string)
    requires input == "Today is an awesome day!"
    ensures Lower(input) == "today is an awesome day!"
  {
    assert LowerChar('T') == 't';
  }

  lemma AwesomeDayPositive(lowered: string)
    requires lowered == "today is an awesome day!"
    ensures MentionsAny(lowered, PositiveKeywords)
  {
    ContainsAt(lowered, "awesome", 0, 12);
  }

  lemma AwesomeDayIsCollapsed(input: string)
    requires input == "Today is an awesome day!"
    ensures Collapsed(input)
  {
    var words := ["Today", "is", "an", "awesome", "day!"];
    AwesomeDayWordsProper(words);
    AwesomeDayWordsJoined(words);
    JoinCollapsed(words);
  }

  lemma AwesomeDayWordsProper(words: seq<string>)
    requires words == ["Today", "is", "an", "awesome", "day!"]
    ensures ProperWords(words)
  {
  }

  lemma AwesomeDayWordsJoined(words: seq<string>)
    requires words == ["Today", "is", "an", "awesome", "day!"]
    ensures Join(words) == "Today is an awesome day!"
  {
    assert words[4..] == ["day!"];
    assert Join(words[3..]) == "awesome day!";
    assert Join(words[2..]) == "an awesome day!";
    assert Join(words[1..]) == "is an awesome day!";
  }
}
