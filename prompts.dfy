/**
 * The prompt templates sent to the verifier model, four versions and the
 * dispatch between them. Versions 1 and 2 are `str.format` templates with a
 * single `{text}` field; versions 3 and 4 are f-strings, whose doubled braces
 * are already single in the program text and are written single here.
 */
module Prompts {
  import opened Wrappers
  import opened PyStr
  import opened FewShot

  // ---------------------------------------------------------------------------
  // `str.format(text=...)`

  const Field := "{text}"

  function Prepend(prefix: string, formatted: Option<string>): Option<string> {
    match formatted
    case None => None
    case Some(s) => Some(prefix + s)
  }

  /**
   * `template.format(text=text)`: `{{` and `}}` stand for single braces,
   * `{text}` for the argument, and any other brace is an error (a missing
   * key, a stray brace, or a conversion or format spec, none of which the
   * templates use). The argument itself is not scanned.
   */
  function FormatText(template: string, text: string): Option<string>
    decreases |template|
  {
    if |template| == 0 then Some("")
    else if template[0] == '{' then
      if |template| >= 2 && template[1] == '{' then Prepend("{", FormatText(template[2..], text))
      else if Field <= template then Prepend(text, FormatText(template[|Field|..], text))
      else None
    else if template[0] == '}' then
      if |template| >= 2 && template[1] == '}' then Prepend("}", FormatText(template[2..], text))
      else None
    else Prepend([template[0]], FormatText(template[1..], text))
  }

  /** How `str.format` template text writes one character: braces doubled. */
  function EscapeChar(c: char): string {
    if c == '{' then "{{" else if c == '}' then "}}" else [c]
  }

  /**
   * The template text that `str.format` turns into `s`: every brace doubled,
   * everything else as it is. For text without braces it is the text itself.
   */
  function Escape(s: string): (escaped: string)
    ensures '{' !in s && '}' !in s ==> escaped == s
    decreases |s|
  {
    if |s| == 0 then "" else EscapeChar(s[0]) + Escape(s[1..])
  }

  /** Prepending twice is prepending the concatenation. */
  lemma PrependTwice(a: string, b: string, formatted: Option<string>)
    ensures Prepend(a, Prepend(b, formatted)) == Prepend(a + b, formatted)
  {
    if formatted.Some? {
      assert a + (b + formatted.value) == a + b + formatted.value;
    }
  }

  /** An escaped character formats back to itself, and formatting goes on after it. */
  lemma FormatEscapedChar(c: char, rest: string, text: string)
    ensures FormatText(EscapeChar(c) + rest, text) == Prepend([c], FormatText(rest, text))
  {
    var t := EscapeChar(c) + rest;
    if c == '{' || c == '}' {
      assert t[1] == c && t[2..] == rest;
    } else {
      assert t[0] == c && t[1..] == rest;
    }
  }

  /** Escaped text formats back to the text it escapes, and formatting goes on after it. */
  lemma {:induction false} FormatEscaped(a: string, rest: string, text: string)
    ensures FormatText(Escape(a) + rest, text) == Prepend(a, FormatText(rest, text))
    decreases |a|
  {
    if |a| == 0 {
      assert Escape(a) + rest == rest;
      PrependTwice("", "", FormatText(rest, text));
      assert "" + "" == "";
      PrependNothing(FormatText(rest, text));
    } else {
      var tail := Escape(a[1..]) + rest;
      assert Escape(a) + rest == EscapeChar(a[0]) + tail;
      FormatEscapedChar(a[0], tail, text);
      FormatEscaped(a[1..], rest, text);
      PrependTwice([a[0]], a[1..], FormatText(rest, text));
      assert [a[0]] + a[1..] == a;
    }
  }

  lemma PrependNothing(formatted: Option<string>)
    ensures Prepend("", formatted) == formatted
  {
    if formatted.Some? {
      assert "" + formatted.value == formatted.value;
    }
  }

  /** Formatting undoes escaping, for any text. */
  lemma FormatOfEscape(a: string, text: string)
    ensures FormatText(Escape(a), text) == Some(a)
  {
    FormatEscaped(a, "", text);
    assert Escape(a) + "" == Escape(a);
    assert a + "" == a;
  }

  /** `{text}` becomes the argument, whatever it contains. */
  lemma FormatField(rest: string, text: string)
    ensures FormatText(Field + rest, text) == Prepend(text, FormatText(rest, text))
  {
    var t := Field + rest;
    assert t[0] == '{' && t[1] == 't';
    assert Field <= t && t[|Field|..] == rest;
  }

  /** `{{` and `}}` become single braces. */
  lemma FormatEscapes(rest: string, text: string)
    ensures FormatText("{{" + rest, text) == Prepend("{", FormatText(rest, text))
    ensures FormatText("}}" + rest, text) == Prepend("}", FormatText(rest, text))
  {
    assert ("{{" + rest)[2..] == rest;
    assert ("}}" + rest)[2..] == rest;
  }

  /** The argument lands between the fixed text before and after the field. */
  lemma FormatAroundField(head: string, tail: string, text: string)
    ensures FormatText(Escape(head) + Field + Escape(tail), text) == Some(head + text + tail)
  {
    FormatAroundFieldRight(head, tail, text);
    ConcatThree(Escape(head), Field, Escape(tail));
    ConcatThree(head, text, tail);
  }

  lemma FormatAroundFieldRight(head: string, tail: string, text: string)
    ensures FormatText(Escape(head) + (Field + Escape(tail)), text) == Some(head + (text + tail))
  {
    FormatField(Escape(tail), text);
    FormatOfEscape(tail, text);
    FormatEscaped(head, Field + Escape(tail), text);
  }

  lemma ConcatThree(a: string, b: string, c: string)
    ensures a + b + c == a + (b + c)
  {}

  // ---------------------------------------------------------------------------
  // Version 1: zero-shot

  const V1Head :=
    "You are a Privacy Security Auditor. Your job is to find any UNREDACTED\n"
    + "Personally Identifiable Information (PII) in the text below.\n"
    + "\n"
    + "PII includes: Names, Emails, SSNs, Phone Numbers, or ID numbers.\n"
    + "\n"
    + "Text to check: \""

  const V1Tail :=
    "\"\n"
    + "\n"
    + "Return ONLY a JSON object with:\n"
    + "\"leaked\": true/false,\n"
    + "\"reason\": \"explanation of what was missed\"\n"

  /** `BASIC_PROMPT_V1`: the fixed text (which has no brace) around the one field. */
  const BasicPromptV1 := Escape(V1Head) + Field + Escape(V1Tail)

  /** `BASIC_PROMPT_V1.format(text=text)`: the fixed prefix, the text, the fixed suffix. */
  function PromptV1(text: string): (prompt: string)
    ensures prompt == V1Head + text + V1Tail
  {
    FormatAroundField(V1Head, V1Tail, text);
    FormatText(BasicPromptV1, text).value
  }

  // ---------------------------------------------------------------------------
  // Version 2: chain of thought

  const V2Head :=
    "You are a Privacy Security Auditor analyzing redacted text for PII leaks.\n"
    + "\n"
    + "## Task\n"
    + "Identify ANY unredacted Personally Identifiable Information (PII) in the text below.\n"
    + "\n"
    + "## PII Categories to Check\n"
    + "- Names (full names, first names with last initial, nicknames)\n"
    + "- Email addresses\n"
    + "- Phone numbers (any format: (555) 123-4567, 555-123-4567, +1-555-123-4567)\n"
    + "- Social Security Numbers (SSNs, any format)\n"
    + "- Physical addresses\n"
    + "- ID numbers (employee IDs, customer IDs, account numbers, license plates)\n"
    + "- Dates of birth\n"
    + "- Medical record numbers\n"
    + "- IP addresses\n"
    + "- Partial identifiers (last 4 of SSN, partial credit card, etc.)\n"
    + "\n"
    + "## Analysis Process (Think Step-by-Step)\n"
    + "\n"
    + "**Text to analyze:**\n"
    + "\""

  const V2TailA :=
    "\"\n"
    + "\n"
    + "**Your Analysis:**\n"
    + "1. **Scan for names:** Look for proper nouns, titles (Dr., Mr., Mrs.), and personal names\n"
    + "2. **Check emails:** Look for name@domain.com patterns\n"
    + "3. **Find phone numbers:** Check for digit patterns that match phone formats\n"
    + "4. **Identify numbers:** Look for SSNs, IDs, account numbers\n"
    + "5. **Check addresses:** Look for street addresses, zip codes\n"
    + "6. **Verify redaction tokens:** Ensure [REDACTED_xxxx] tokens are used for sensitive data\n"
    + "\n"
    + "**Decision:**\n"
    + "Are there any PII values that are NOT redacted (not replaced with [REDACTED_xxxx] tokens)?\n"
    + "\n"
    + "## Output Format\n"
    + "Return ONLY valid JSON:\n"

  const V2TailB :=
    "\"leaked\": true/false, \"reason\": \"specific explanation of what leaked or why it's clean\""

  const V2TailC :=
    "\n"

  /** `CHAIN_OF_THOUGHT_PROMPT_V2`, whose closing JSON example is written with doubled braces. */
  const ChainOfThoughtPromptV2 :=
    Escape(V2Head) + (Field + (Escape(V2TailA) + ("{{" + (Escape(V2TailB) + ("}}" + Escape(V2TailC))))))

  /** `CHAIN_OF_THOUGHT_PROMPT_V2.format(text=text)`: the text in place, the doubled braces single. */
  function PromptV2(text: string): (prompt: string)
    ensures prompt == V2Head + (text + (V2TailA + ("{" + (V2TailB + ("}" + V2TailC)))))
  {
    FormatV2(text);
    FormatText(ChainOfThoughtPromptV2, text).value
  }

  lemma FormatV2(text: string)
    ensures FormatText(ChainOfThoughtPromptV2, text) == Some(V2Head + (text + (V2TailA + ("{" + (V2TailB + ("}" + V2TailC))))))
  {
    FormatAroundFieldAndBraces(V2Head, V2TailA, V2TailB, V2TailC, text);
  }

  /** A field, then an escaped `{`, then an escaped `}`: the layout of the version 2 template. */
  lemma FormatAroundFieldAndBraces(head: string, a: string, b: string, c: string, text: string)
    ensures FormatText(Escape(head) + (Field + (Escape(a) + ("{{" + (Escape(b) + ("}}" + Escape(c)))))), text)
            == Some(head + (text + (a + ("{" + (b + ("}" + c))))))
  {
    var s4 := "}}" + Escape(c);
    var s3 := Escape(b) + s4;
    var s2 := "{{" + s3;
    var s1 := Escape(a) + s2;
    var s0 := Field + s1;
    FormatOfEscape(c, text);
    FormatEscapes(Escape(c), text);
    FormatEscaped(b, s4, text);
    FormatEscapes(s3, text);
    FormatEscaped(a, s2, text);
    FormatField(s1, text);
    FormatEscaped(head, s0, text);
  }

  // ---------------------------------------------------------------------------
  // Version 3: few-shot

  const V3Head :=
    "You are a Privacy Security Auditor specialized in detecting PII leaks in redacted text.\n"
    + "\n"
    + "## Your Task\n"
    + "Analyze text to find ANY unredacted Personally Identifiable Information (PII).\n"
    + "Properly redacted text uses tokens like [REDACTED_xxxx].\n"
    + "\n"
    + "## PII Types\n"
    + "- Names, Emails, Phone Numbers, SSNs, Addresses, IDs, Dates of Birth, Medical Records, IP Addresses\n"
    + "\n"
    + "## Examples of Correct Analysis\n"
    + "\n"

  const V3Mid :=
    "\n"
    + "\n"
    + "## Now Analyze This Text\n"
    + "\n"
    + "Text: \""

  const V3Tail :=
    "\"\n"
    + "\n"
    + "Think through each PII category systematically. Are there any identifiers that are NOT redacted?\n"
    + "\n"
    + "Return ONLY valid JSON:\n"
    + "{\"leaked\": true/false, \"reason\": \"specific explanation\"}\n"

  /** `get_few_shot_prompt_v3(text, num_examples)`. */
  function PromptV3(text: string, numExamples: int := 3): string {
    V3Head + (FormattedExamples(numExamples, true) + (V3Mid + (text + V3Tail)))
  }

  /** Version 3 puts the numbered examples, with analysis, between its header and the text section. */
  lemma PromptV3Layout(text: string, numExamples: int)
    ensures var prompt := PromptV3(text, numExamples);
      var examples := FormattedExamples(numExamples, true);
      V3Head + examples <= prompt &&
      prompt[|V3Head| + |examples|..] == V3Mid + (text + V3Tail)
  {
    PrefixThenRest(V3Head, FormattedExamples(numExamples, true), V3Mid + (text + V3Tail));
  }

  lemma PrefixThenRest(a: string, b: string, c: string)
    ensures a + b <= a + (b + c) && (a + (b + c))[|a| + |b|..] == c
  {
    assert a + (b + c) == (a + b) + c;
  }

  // ---------------------------------------------------------------------------
  // Version 4: short few-shot

  const V4Head :=
    "You are a PII leak detector. Find unredacted PII (names, emails, phones, SSNs, IDs).\n"
    + "\n"
    + "Examples:\n"
    + "- \"[REDACTED_a1] at [REDACTED_b2]\" \U{2192} {\"leaked\": false, \"reason\": \"All PII redacted\"}\n"
    + "- \"Email john@test.com\" \U{2192} {\"leaked\": true, \"reason\": \"Email john@test.com exposed\"}\n"
    + "- \"Call 555-1234\" \U{2192} {\"leaked\": true, \"reason\": \"Phone 555-1234 exposed\"}\n"
    + "\n"
    + "Text: \""

  const V4Tail :=
    "\"\n"
    + "\n"
    + "JSON only:"

  /** `get_optimized_few_shot_prompt_v4(text)`. */
  function PromptV4(text: string): string {
    V4Head + text + V4Tail
  }

  /** Version 4 ends with `JSON only:`. */
  lemma PromptV4EndsWithJsonOnly(text: string)
    ensures var prompt := PromptV4(text);
      |prompt| >= 10 && prompt[|prompt| - 10..] == "JSON only:"
  {
  }

  // ---------------------------------------------------------------------------
  // Dispatch

  /**
   * `get_prompt(version, text, **kwargs)`. Of the keyword arguments only
   * `num_examples` is read, and only by version 3, which defaults it to 3;
   * an unknown version gets version 1.
   */
  function GetPrompt(version: string, text: string, numExamples: Option<int> := None): (prompt: string) {
    if version == "v1_basic" then PromptV1(text)
    else if version == "v2_cot" then PromptV2(text)
    else if version == "v3_few_shot" then PromptV3(text, if numExamples.Some? then numExamples.value else 3)
    else if version == "v4_optimized" then PromptV4(text)
    else PromptV1(text)
  }

  predicate IsKnownVersion(version: string) {
    version in ["v1_basic", "v2_cot", "v3_few_shot", "v4_optimized"]
  }

  /** An unknown version gets exactly the version 1 prompt. */
  lemma UnknownVersionIsBasic(version: string, text: string, numExamples: Option<int>)
    requires !IsKnownVersion(version)
    ensures GetPrompt(version, text, numExamples) == PromptV1(text) == V1Head + text + V1Tail
  {
  }

  /** Version 3 without `num_examples` is version 3 with `num_examples=3`. */
  lemma FewShotDefaultsToThree(version: string, text: string)
    requires version == "v3_few_shot"
    ensures GetPrompt(version, text) == GetPrompt(version, text, Some(3))
  {
  }

  /** Only version 3 reads `num_examples`. */
  lemma OnlyFewShotReadsNumExamples(version: string, text: string, n1: Option<int>, n2: Option<int>)
    requires version != "v3_few_shot"
    ensures GetPrompt(version, text, n1) == GetPrompt(version, text, n2)
  {
  }

  // Each version's prompt quotes the text to check.

  lemma PromptV1ContainsText(text: string)
    ensures IsInfix(text, PromptV1(text))
  {
    InfixAround(V1Head, text, V1Tail);
  }

  lemma PromptV2ContainsText(text: string)
    ensures IsInfix(text, PromptV2(text))
  {
    InfixAroundRight(V2Head, text, V2TailA + ("{" + (V2TailB + ("}" + V2TailC))));
  }

  lemma PromptV3ContainsText(text: string, numExamples: int)
    ensures IsInfix(text, PromptV3(text, numExamples))
  {
    var e := FormattedExamples(numExamples, true);
    InfixAroundRight(V3Head + (e + V3Mid), text, V3Tail);
    ConcatFourRight(V3Head, e, V3Mid, text + V3Tail);
  }

  lemma PromptV4ContainsText(text: string)
    ensures IsInfix(text, PromptV4(text))
  {
    InfixAround(V4Head, text, V4Tail);
  }

  lemma ConcatFourRight(a: string, b: string, c: string, d: string)
    ensures a + (b + c) + d == a + (b + (c + d))
  {
  }

  lemma InfixAroundRight(before: string, t: string, after: string)
    ensures IsInfix(t, before + (t + after))
  {
    var s := before + (t + after);
    assert s[|before|..|before| + |t|] == t;
    InfixAt(t, s, |before|);
  }

  lemma InfixAround(before: string, t: string, after: string)
    ensures IsInfix(t, before + t + after)
  {
    var s := before + t + after;
    assert s[|before|..|before| + |t|] == t;
    InfixAt(t, s, |before|);
  }
}
