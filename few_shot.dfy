/**
 * The curated few-shot examples shown to the verifier model, and the text
 * built from them: one example per block, numbered from 1, blocks separated
 * by a blank line.
 */
module FewShot {
  import opened PyStr

  /** One curated example: a redacted text, the analysis of it, and the verdict with its reason. */
  datatype Example = Example(text: string, analysis: string, leaked: bool, reason: string)

  /** `FEW_SHOT_EXAMPLES`, in order. */
  const FewShotExamples: seq<Example> := [
      Example("Contact [REDACTED_a1b2] at [REDACTED_c3d4] for more information.",
              "Scanning for PII: No email addresses, phone numbers, or names visible. All sensitive information replaced with redaction tokens.",
              false,
              "All PII properly redacted with placeholder tokens"),
      Example("Email john.doe@example.com for details",
              "Found unredacted email address 'john.doe@example.com' which is personally identifiable information.",
              true,
              "Email address john.doe@example.com not redacted"),
      Example("Employee ID EMP-12345 belongs to [REDACTED_xyz9]",
              "Found employee identifier 'EMP-12345' which can be used to identify an individual. Name is properly redacted.",
              true,
              "Employee identifier EMP-12345 leaked"),
      Example("The patient was treated by Dr. [REDACTED_m5n6] at [REDACTED_p7q8]",
              "All names and locations are properly redacted. Only generic terms 'patient' and 'Dr.' remain, which are not PII.",
              false,
              "All identifiable information redacted, only generic roles mentioned"),
      Example("Call 555-1234 to reach [REDACTED_k2l3]",
              "Phone number '555-1234' is exposed and not redacted. This is personally identifiable contact information.",
              true,
              "Phone number 555-1234 exposed"),
      Example("[REDACTED_b4c5] lives at [REDACTED_d6e7], [REDACTED_f8g9]",
              "Name and address components all properly redacted with tokens. No identifiable information visible.",
              false,
              "Complete redaction of name and address"),
      Example("SSN ending in 6789",
              "Partial SSN '6789' is revealed. While not a complete SSN, last 4 digits can still be identifying information.",
              true,
              "Partial SSN (last 4 digits: 6789) leaked")
    ]

  /** The examples that show a leak are the 2nd, 3rd, 5th and 7th. */
  lemma ExampleVerdicts()
    ensures |FewShotExamples| == 7
    ensures forall i :: 0 <= i < 7 ==> (FewShotExamples[i].leaked <==> i in {1, 2, 4, 6})
  {
  }

  /** Where Python's `xs[:stop]` stops in a list of `n` elements. */
  function SliceStop(stop: int, n: nat): (k: nat)
    ensures k <= n
    ensures 0 <= stop ==> k == if stop < n then stop else n
    ensures stop < 0 ==> k == if n + stop < 0 then 0 else n + stop
  {
    if stop >= 0 then (if stop < n then stop else n)
    else if n + stop < 0 then 0 else n + stop
  }

  /**
   * `get_few_shot_examples(count)`: `FEW_SHOT_EXAMPLES[:count]`, the leading
   * examples in order; a negative count drops that many from the end.
   */
  function GetFewShotExamples(count: int := 3): (examples: seq<Example>)
    ensures examples <= FewShotExamples
    ensures 0 <= count ==> |examples| == if count < 7 then count else 7
    ensures count < 0 ==> |examples| == if count < -7 then 0 else 7 + count
  {
    FewShotExamples[..SliceStop(count, |FewShotExamples|)]
  }

  function TextLine(example: Example): string {
    "Text: \"" + example.text + "\"\n"
  }

  function AnalysisLine(example: Example): string {
    "Analysis: " + example.analysis + "\n"
  }

  const VerdictLabel := "Result: {\"leaked\": "

  function ResultLine(example: Example): string {
    VerdictLabel + (if example.leaked then "true" else "false") + ", \"reason\": \"" + example.reason + "\"}"
  }

  /**
   * `format_example_for_prompt`: the quoted text line, the analysis line when
   * asked for, and the result line.
   */
  function FormatExampleForPrompt(example: Example, includeAnalysis: bool := true): string {
    TextLine(example) + (if includeAnalysis then AnalysisLine(example) else "") + ResultLine(example)
  }

  /**
   * A formatted example starts with its text line, has an analysis line
   * right after it exactly when one is asked for, and ends with its result line.
   */
  lemma FormatExampleLayout(example: Example, includeAnalysis: bool)
    ensures var result := FormatExampleForPrompt(example, includeAnalysis);
      && TextLine(example) <= result
      && (includeAnalysis <==> TextLine(example) + "Analysis: " <= result)
      && (includeAnalysis ==> TextLine(example) + AnalysisLine(example) <= result)
      && |ResultLine(example)| <= |result| && result[|result| - |ResultLine(example)|..] == ResultLine(example)
  {
    var head := TextLine(example) + if includeAnalysis then AnalysisLine(example) else "";
    var result := FormatExampleForPrompt(example, includeAnalysis);
    assert result == head + ResultLine(example);
    assert result[..|head|] == head;
    assert !includeAnalysis ==> result[|TextLine(example)|] == 'R';
    assert (TextLine(example) + "Analysis: ")[|TextLine(example)|] == 'A';
    assert result[|result| - |ResultLine(example)|..] == ResultLine(example);
  }

  /** The result line says `true` exactly when the example leaked, and ends with its quoted reason. */
  lemma ResultLineStatesVerdict(example: Example)
    ensures example.leaked <==> VerdictLabel + "true" <= ResultLine(example)
    ensures !example.leaked <==> VerdictLabel + "false" <= ResultLine(example)
    ensures var tail := ", \"reason\": \"" + example.reason + "\"}";
      |tail| <= |ResultLine(example)| && ResultLine(example)[|ResultLine(example)| - |tail|..] == tail
  {
    var r := ResultLine(example);
    var n := |VerdictLabel|;
    assert r[n] == if example.leaked then 't' else 'f';
    assert (VerdictLabel + "true")[n] == 't';
    assert (VerdictLabel + "false")[n] == 'f';
  }

  /** The heading of the i-th entry, counting from 0: `f"Example {i + 1}:\n"`. */
  function EntryHeader(i: nat): string {
    "Example " + NatToString(i + 1) + ":\n"
  }

  /** The i-th entry (counting from 0) of `get_formatted_examples`. */
  function Entry(i: nat, example: Example, includeAnalysis: bool): string {
    EntryHeader(i) + FormatExampleForPrompt(example, includeAnalysis)
  }

  /** The first entry is headed `Example 1:`. */
  lemma FirstEntryHeader()
    ensures EntryHeader(0) == "Example 1:\n"
  {
    assert NatToString(1) == "1";
  }

  function Entries(examples: seq<Example>, includeAnalysis: bool): seq<string> {
    seq(|examples|, i requires 0 <= i < |examples| => Entry(i, examples[i], includeAnalysis))
  }

  /** What `get_formatted_examples(count, include_analysis)` returns. */
  function FormattedExamples(count: int, includeAnalysis: bool): string {
    Join(Entries(GetFewShotExamples(count), includeAnalysis), "\n\n")
  }

  /** `get_formatted_examples`: numbers the chosen examples from 1 and joins them with blank lines. */
  method GetFormattedExamples(count: int := 3, includeAnalysis: bool := true) returns (text: string)
    ensures text == FormattedExamples(count, includeAnalysis)
  {
    var examples := GetFewShotExamples(count);
    var formatted: seq<string> := [];
    for i := 0 to |examples|
      invariant formatted == Entries(examples, includeAnalysis)[..i]
    {
      var entry := "Example " + NatToString(i + 1) + ":\n" + FormatExampleForPrompt(examples[i], includeAnalysis);
      EntriesStep(examples, includeAnalysis, i);
      formatted := formatted + [entry];
    }
    assert Entries(examples, includeAnalysis)[..|examples|] == Entries(examples, includeAnalysis);
    text := Join(formatted, "\n\n");
  }

  // ---------------------------------------------------------------------------
  // Properties of the formatted examples

  /** No examples, no text. */
  lemma FormattedExamplesOfNone(includeAnalysis: bool)
    ensures FormattedExamples(0, includeAnalysis) == ""
  {
  }

  /** One example is its entry alone, numbered 1. */
  lemma FormattedExamplesOfOne(includeAnalysis: bool)
    ensures FormattedExamples(1, includeAnalysis) ==
      "Example 1:\n" + FormatExampleForPrompt(FewShotExamples[0], includeAnalysis)
  {
    JoinOfOne(Entries(GetFewShotExamples(1), includeAnalysis), "\n\n");
    FirstEntryHeader();
  }

  /** Asking for one more example appends a blank line and the next numbered entry. */
  lemma FormattedExamplesGrow(count: nat, includeAnalysis: bool)
    requires 1 <= count < 7
    ensures FormattedExamples(count + 1, includeAnalysis) ==
      FormattedExamples(count, includeAnalysis) + "\n\n" + Entry(count, FewShotExamples[count], includeAnalysis)
  {
    var longer := GetFewShotExamples(count + 1);
    assert GetFewShotExamples(count) == longer[..count];
    EntriesStep(longer, includeAnalysis, count);
    assert Entries(longer, includeAnalysis)[..count + 1] == Entries(longer, includeAnalysis);
    JoinSnoc(Entries(longer[..count], includeAnalysis), Entry(count, longer[count], includeAnalysis), "\n\n");
  }

  /** The entries of a longer prefix: those of the shorter one, then the next entry. */
  lemma EntriesStep(examples: seq<Example>, includeAnalysis: bool, i: nat)
    requires i < |examples|
    ensures Entries(examples, includeAnalysis)[..i + 1] ==
      Entries(examples[..i], includeAnalysis) + [Entry(i, examples[i], includeAnalysis)]
    ensures Entries(examples[..i], includeAnalysis) == Entries(examples, includeAnalysis)[..i]
  {
    var all := Entries(examples, includeAnalysis);
    var prefix := Entries(examples[..i], includeAnalysis);
    forall j | 0 <= j < i ensures prefix[j] == all[j] {
      assert examples[..i][j] == examples[j];
    }
    assert prefix == all[..i];
    assert all[..i + 1] == all[..i] + [all[i]];
  }

  /** Every chosen example appears, under its number. */
  lemma FormattedExamplesContainEach(count: int, includeAnalysis: bool, k: nat)
    requires k < |GetFewShotExamples(count)|
    ensures IsInfix("Example " + NatToString(k + 1) + ":\n" + FormatExampleForPrompt(FewShotExamples[k], includeAnalysis),
                    FormattedExamples(count, includeAnalysis))
  {
    JoinContainsPart(Entries(GetFewShotExamples(count), includeAnalysis), "\n\n", k);
  }
}
