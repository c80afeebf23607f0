/** The reply annotator: the two regular-expression searches that pull a risk
    score and a privacy summary out of an assistant reply. */
module Annotation {
  import opened Wrappers
  import opened Text

  /** The literal part of the score pattern `\*\*Risk Score:\*\* (\d+)`. */
  const RiskMarker: string := "**Risk Score:** "

  /** The literal part of the summary pattern `\*\*Privacy Summary:\*\*\n(.*)`. */
  const SummaryMarker: string := "**Privacy Summary:**\n"

  /** What is derived from a reply for display; never stored. */
  datatype Annotation = Annotation(score: Option<nat>, summary: Option<string>)

  /** The score pattern matches at index `i`: the marker, then at least one digit. */
  predicate ScoreAt(s: string, i: nat) {
    OccursAt(s, RiskMarker, i) && i + |RiskMarker| < |s| && IsDigit(s[i + |RiskMarker|])
  }

  /** `i` is where `re.search` reports the score match: the leftmost one. */
  predicate FirstScoreAt(s: string, i: nat) {
    ScoreAt(s, i) && forall j: nat :: j < i ==> !ScoreAt(s, j)
  }

  /** The leftmost index at or after `from` where the score pattern matches.
      A marker not followed by a digit is skipped and the search goes on. */
  function ScoreIndex(s: string, from: nat): (r: Option<nat>)
    decreases |s| - from
    ensures r.Some? ==> from <= r.value && ScoreAt(s, r.value)
    ensures r.Some? ==> forall j: nat :: from <= j < r.value ==> !ScoreAt(s, j)
    ensures r.None? ==> forall j: nat :: from <= j ==> !ScoreAt(s, j)
  {
    match IndexOf(s, RiskMarker, from)
    case None => None
    case Some(i) =>
      if i + |RiskMarker| < |s| && IsDigit(s[i + |RiskMarker|]) then Some(i)
      else
        SkipMarker(s, from, i);
        ScoreIndex(s, i + 1)
  }

  /** A marker with no digit after it, and no marker before it, leaves no
      score match up to and including its own position. */
  lemma SkipMarker(s: string, from: nat, i: nat)
    requires LeftmostFrom(s, RiskMarker, from, i)
    requires !(i + |RiskMarker| < |s| && IsDigit(s[i + |RiskMarker|]))
    ensures forall j: nat :: from <= j <= i ==> !ScoreAt(s, j)
  {
  }

  /** `int(re.search(r"\*\*Risk Score:\*\* (\d+)", s).group(1))`, or None
      when there is no match. */
  function ExtractScore(s: string): (r: Option<nat>)
    ensures r.None? <==> forall j: nat :: !ScoreAt(s, j)
    ensures forall i: nat :: FirstScoreAt(s, i) ==> r == Some(ParseNat(DigitRun(s, i + |RiskMarker|)))
  {
    match ScoreIndex(s, 0)
    case None => None
    case Some(i) => Some(ParseNat(DigitRun(s, i + |RiskMarker|)))
  }

  /** `re.search(r"\*\*Privacy Summary:\*\*\n(.*)", s, re.DOTALL).group(1).strip()`,
      or None when there is no match: everything after the first marker, to
      the end of the text, stripped. */
  function ExtractSummary(s: string): (r: Option<string>)
    ensures r.None? <==> forall j: nat :: !OccursAt(s, SummaryMarker, j)
    ensures forall i: nat :: LeftmostFrom(s, SummaryMarker, 0, i) ==> r == Some(Strip(s[i + |SummaryMarker|..]))
  {
    match IndexOf(s, SummaryMarker, 0)
    case None => None
    case Some(i) => Some(Strip(s[i + |SummaryMarker|..]))
  }

  /** Both extractions, each of which reads the reply on its own. */
  function Annotate(reply: string): (a: Annotation)
    ensures a.score.None? <==> forall j: nat :: !ScoreAt(reply, j)
    ensures a.summary.None? <==> forall j: nat :: !OccursAt(reply, SummaryMarker, j)
  {
    Annotation(ExtractScore(reply), ExtractSummary(reply))
  }

  // ----- the reply format -----

  /** No score match can begin in text without one and run into a marker
      that follows it: the marker itself holds no digit. */
  lemma ScoreNotBefore(prefix: string, rest: string)
    requires forall j: nat :: !ScoreAt(prefix, j)
    ensures forall j: nat :: j < |prefix| ==> !ScoreAt(prefix + RiskMarker + rest, j)
  {
    var s := prefix + RiskMarker + rest;
    var p := |prefix|;
    var m := |RiskMarker|;
    forall j: nat | j < p
      ensures !ScoreAt(s, j)
    {
      if j + m < p {
        assert s[j..j + m] == prefix[j..j + m];
        assert s[j + m] == prefix[j + m];
        assert !ScoreAt(prefix, j);
      } else {
        assert s[j + m] == RiskMarker[j + m - p];
      }
    }
  }

  /** A score line after text that carries no score is found, and its number
      is read back: `int(str(n)) == n` through the marker. */
  lemma ScoreAfter(prefix: string, n: nat, rest: string)
    requires forall j: nat :: !ScoreAt(prefix, j)
    requires rest == [] || !IsDigit(rest[0])
    ensures ExtractScore(prefix + RiskMarker + Digits(n) + rest) == Some(n)
  {
    var s := prefix + RiskMarker + Digits(n) + rest;
    var p := |prefix|;
    var m := |RiskMarker|;
    assert s == prefix + RiskMarker + (Digits(n) + rest);
    ScoreNotBefore(prefix, Digits(n) + rest);
    assert s[p..p + m] == RiskMarker;
    assert s[p + m] == Digits(n)[0];
    assert FirstScoreAt(s, p);
    DigitRunOf(prefix + RiskMarker, Digits(n), rest);
    ParseDigits(n);
  }

  /** A summary block after text that carries no summary marker yields the
      stripped body. The marker ends in its only line feed, so no occurrence
      can begin in the prefix and run into the marker. */
  lemma SummaryAfter(prefix: string, body: string)
    requires forall j: nat :: !OccursAt(prefix, SummaryMarker, j)
    ensures ExtractSummary(prefix + SummaryMarker + body) == Some(Strip(body))
  {
    var s := prefix + SummaryMarker + body;
    var p := |prefix|;
    var m := |SummaryMarker|;
    assert s == prefix + (SummaryMarker + body);
    OccursInSuffix(prefix, SummaryMarker + body, SummaryMarker, p);
    assert (SummaryMarker + body)[..m] == SummaryMarker;
    forall j: nat | j < p
      ensures !OccursAt(s, SummaryMarker, j)
    {
      if j + m <= p {
        OccursInPrefix(prefix, SummaryMarker + body, SummaryMarker, j);
      } else {
        MarkerOverlap(prefix, body, j);
      }
    }
    assert LeftmostFrom(s, SummaryMarker, 0, p);
    assert s[p + m..] == body;
  }

  /** An occurrence starting in the prefix and running into the marker
      would end on a character of the marker before its line feed. */
  lemma MarkerOverlap(prefix: string, body: string, j: nat)
    requires j < |prefix| < j + |SummaryMarker|
    ensures !OccursAt(prefix + SummaryMarker + body, SummaryMarker, j)
  {
    var s := prefix + SummaryMarker + body;
    var p := |prefix|;
    var m := |SummaryMarker|;
    assert s[j + m - 1] == SummaryMarker[j + m - 1 - p];
    assert SummaryMarker[j + m - 1 - p] != '\n';
    assert s[j..j + m][m - 1] == s[j + m - 1];
  }

  /** The layout the prompt asks the model for, with the score written
      as `str(n)` and the marker lines exactly as the patterns spell them. */
  function FormattedReply(answer: string, n: nat, body: string): string {
    "**Reply:** " + answer + "\n\n" + RiskMarker + Digits(n) + "\n\n" + SummaryMarker + body
  }

  /** A reply in that layout is annotated with its own score and its stripped
      summary, provided the answer itself carries neither marker. */
  lemma AnnotateFormatted(answer: string, n: nat, body: string)
    requires forall j: nat :: !ScoreAt("**Reply:** " + answer + "\n\n", j)
    requires forall j: nat :: !OccursAt("**Reply:** " + answer + "\n\n" + RiskMarker + Digits(n) + "\n\n", SummaryMarker, j)
    ensures Annotate(FormattedReply(answer, n, body)) == Annotation(Some(n), Some(Strip(body)))
  {
    var head := "**Reply:** " + answer + "\n\n";
    var scored := head + RiskMarker + Digits(n) + "\n\n";
    assert FormattedReply(answer, n, body) == head + RiskMarker + Digits(n) + ("\n\n" + SummaryMarker + body);
    ScoreAfter(head, n, "\n\n" + SummaryMarker + body);
    assert FormattedReply(answer, n, body) == scored + SummaryMarker + body;
    SummaryAfter(scored, body);
  }

  /** The summary format line of the model's prompt, which has a space
      before its line feed. */
  const PromptSummaryLine: string := "**Privacy Summary:** \n"

  /** A reply that copies the prompt's summary line exactly, and has no
      summary marker before it or inside its body, gets no summary, however
      many lines its body has. */
  lemma PromptSummaryLineMissed(prefix: string, body: string)
    requires forall j: nat :: !OccursAt(prefix, SummaryMarker, j)
    requires forall j: nat :: !OccursAt(body, SummaryMarker, j)
    ensures ExtractSummary(prefix + PromptSummaryLine + body).None?
  {
    forall j: nat
      ensures !OccursAt(prefix + PromptSummaryLine + body, SummaryMarker, j)
    {
      if j + |SummaryMarker| <= |prefix| {
        MissedBefore(prefix, PromptSummaryLine, body, SummaryMarker, j);
      } else if |prefix| + |PromptSummaryLine| <= j {
        OccursInSuffix(prefix + PromptSummaryLine, body, SummaryMarker, j);
      } else if j + |SummaryMarker| <= |prefix + PromptSummaryLine + body| {
        PromptLineOverlap(prefix, body, j);
      }
    }
  }

  /** No occurrence of the marker can overlap the prompt's summary line: it
      either ends on the space before that line's line feed, or ends on
      another character that is no line feed, or holds that line feed
      before its own end. */
  lemma PromptLineOverlap(prefix: string, body: string, j: nat)
    requires |prefix| < j + |SummaryMarker| <= |prefix + PromptSummaryLine + body|
    requires j < |prefix| + |PromptSummaryLine|
    ensures !OccursAt(prefix + PromptSummaryLine + body, SummaryMarker, j)
  {
    var s := prefix + PromptSummaryLine + body;
    var p := |prefix|;
    var m := |SummaryMarker|;
    var l := |PromptSummaryLine|;
    assert l == 22 && m == 21;
    assert SummaryMarker[m - 2] == '*';
    assert forall k :: 0 <= k < m - 1 ==> SummaryMarker[k] != '\n';
    assert forall k :: 0 <= k < l - 1 ==> PromptSummaryLine[k] != '\n';
    if j + m - 1 < p + l - 1 {
      assert s[j + m - 1] == PromptSummaryLine[j + m - 1 - p];
      assert s[j..j + m][m - 1] == s[j + m - 1];
    } else if j + m - 1 == p + l - 1 {
      assert s[j + m - 2] == PromptSummaryLine[l - 2] == ' ';
      assert s[j..j + m][m - 2] == s[j + m - 2];
    } else {
      var o := p + l - 1 - j;
      assert s[p + l - 1] == PromptSummaryLine[l - 1] == '\n';
      assert s[j..j + m][o] == s[p + l - 1];
    }
  }

  /** The prompt's own layout, copied with a two-line tip list, shows no
      recommendations. */
  lemma PromptLayoutMissed()
    ensures ExtractSummary(RiskMarker + "85\n\n" + PromptSummaryLine + "- Tip 1\n- Tip 2").None?
  {
    var head := RiskMarker + "85\n\n";
    var body := "- Tip 1\n- Tip 2";
    forall j: nat ensures !OccursAt(head, SummaryMarker, j) {
      assert |head| < |SummaryMarker|;
    }
    forall j: nat ensures !OccursAt(body, SummaryMarker, j) {
      assert |body| < |SummaryMarker|;
    }
    PromptSummaryLineMissed(head, body);
  }

  // ----- worked examples -----

  /** The reply of the first worked example: `**Risk Score:** 85`, a blank
      line, then a two-item summary block. */
  const ExampleReply: string := RiskMarker + "85\n\n" + SummaryMarker + "- A\n- B"

  lemma ExampleScore()
    ensures ExtractScore(ExampleReply) == Some(85)
  {
    var rest := "\n\n" + SummaryMarker + "- A\n- B";
    assert Digits(85) == "85" by { assert Digits(8) == "8"; }
    assert ExampleReply == "" + RiskMarker + Digits(85) + rest;
    ScoreAfter("", 85, rest);
  }

  lemma ExampleSummary()
    ensures ExtractSummary(ExampleReply) == Some("- A\n- B")
  {
    ExampleHeadClear();
    SummaryAfter(RiskMarker + "85\n\n", "- A\n- B");
    ExampleBodyTrimmed();
  }

  /** The example's score line holds no summary marker. */
  lemma ExampleHeadClear()
    ensures forall j: nat :: !OccursAt(RiskMarker + "85\n\n", SummaryMarker, j)
  {
    var head := RiskMarker + "85\n\n";
    forall j: nat ensures !OccursAt(head, SummaryMarker, j) {
      assert |head| < |SummaryMarker|;
    }
  }

  /** The example's summary body has no whitespace to strip. */
  lemma ExampleBodyTrimmed()
    ensures Strip("- A\n- B") == "- A\n- B"
  {
    var body := "- A\n- B";
    assert body[0] == '-' && body[|body| - 1] == 'B';
    StripTrimmed(body);
  }

  /** The example reply is annotated with score 85 and the summary body. */
  lemma ExampleScoreAndSummary()
    ensures Annotate(ExampleReply) == Annotation(Some(85), Some("- A\n- B"))
  {
    ExampleScore();
    ExampleSummary();
  }

  /** A reply with neither marker carries no annotation. */
  lemma ExampleNoMarkers()
    ensures Annotate("no markers here") == Annotation(None, None)
  {
    var s := "no markers here";
    forall j: nat ensures !ScoreAt(s, j) && !OccursAt(s, SummaryMarker, j) {
      assert |s| < |RiskMarker|;
    }
  }
}
