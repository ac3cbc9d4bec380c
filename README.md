# PII redaction gateway: a verified model of its core

The gateway redacts personally identifiable information (PII) from text. It
also restores that text on request. The model covers six parts of it:

- **Policy engine** (`app/policies.py`). Named redaction policies, each with
  enabled and disabled entity types, an inclusive confidence threshold and a
  restoration flag. It also covers the three presets, request-level override
  merging, the stable filter over analyzer results, and the registry that
  loads, lists and registers policies.
- **Token vault and restore** (`app/service.py`).
  - Redaction mints `[REDACTED_` + 4 hex digits + `]` for each PII span,
    from the last span in the text to the first. It writes the span's text
    under that token in the key-value store and records the token in this
    call's key list.
  - Restoration with values for some of the tokens and none for others
    replaces the former and leaves the latter in place, for any number of
    tokens (`Service.RestoreSplice`).
  - Restoration finds the tokens with the pattern `\[REDACTED_[a-z0-9]+\]`:
    the leftmost, non-overlapping matches, in order. For each token whose
    stored value is non-empty, it replaces every occurrence of that token.
  - The store is a `map<string, string>` field of a `RedactorService` class.
- **Leak-audit purge and key hand-off** (`app/main.py`).
  - `redact_data` queues a background audit with exactly the keys minted for
    the request.
  - The audit cleans markdown fences from the verifier's answer, then reads its
    `leaked` flag. When the flag is truthy, it deletes exactly those keys. Any
    error leaves the store alone.
- **Audit record** (`app/audit.py`). The token count uses the same pattern as
  restoration. The record's fields are filled in from the arguments and from
  the caller's API-key record.
- **Few-shot examples** (`app/prompts/few_shot_examples.py`). The seven curated
  examples, the prefix slice, the formatting of one example, and the numbered
  list joined by blank lines.
- **Prompt templates** (`app/prompts/verification_prompts.py`).
  - Versions 1 and 2 are `str.format` templates. They are modelled as the
    escaped template text, and a model of `str.format` turns `{{`/`}}` into
    single braces and `{text}` into the argument.
  - Versions 3 and 4 are f-strings around the text.
  - `get_prompt` dispatches between the versions and falls back to version 1.

`pystr.dfy` holds models of the Python string built-ins the core calls:
`str.replace` (left to right, non-overlapping), `str.strip`, `str.join`,
`str(n)` and substring containment. `tokens.dfy` holds the token format and
the `re.findall` scanner that `app/service.py` and `app/audit.py` share.

The module layout is:

- `Wrappers`: `Option` and `Result`.
- `PyStr`: the string built-ins.
- `Tokens`: the token format and scanner.
- `Policies`: the policy engine.
- `Service`: the token vault and restore.
- `Gateway`: the request handlers in `app/main.py`.
- `Audit`: the audit record.
- `FewShot`: the few-shot examples.
- `Prompts`: the prompt templates.

Where the code and its tests or design notes disagree, the model follows the
code:

- **Token ids are 4 hex digits** (`app/service.py:20`), not the 16 that
  `tests/unit/test_service.py:188` expects.
- **Minting has no existence check.** An existing value is overwritten and
  nothing is retried. `Service.CollidingIdsOverwrite` shows the consequence.
- **`restore` returns a string.** `Service.RedactorService.Restore` also
  returns the found count and the missing-token list that the unit tests read.
- **`merge_policies` copies an override's `context` as given.** An unknown
  context is not rejected or ignored.

## Model

| member | source | states |
|---|---|---|
| Policies.RedactionPolicy.IsEntityAllowed | app/policies.py:38-46 | A disabled type is never allowed; with no enabled list every other type is; otherwise a type is allowed exactly when it is enabled and not disabled |
| Policies.RedactionPolicy.MeetsConfidenceThreshold | app/policies.py:58 | The threshold is inclusive: a score passes exactly when it is not below the threshold, so a score equal to it passes |
| Policies.PresetsAreFixed | app/policies.py:63-119 | General allows restoration at threshold 0.0; healthcare and finance forbid it, at 0.5 and 0.6; none disables any type |
| Policies.MergePolicies | app/policies.py:175-188 | An absent or empty override returns the base policy; otherwise every field is the override's when its key is present and the base's when absent |
| Policies.MergeIdempotent | app/policies.py:175-188 | Applying the same override a second time changes nothing |
| Policies.MergeKeepsThresholdInRange | app/policies.py:184 | A validated override keeps a threshold in [0, 1] within [0, 1] |
| Policies.FilteredAppend | app/policies.py:209-222 | The filter distributes over concatenation, so no result moves past another |
| Policies.FilteredIsStableFilter | app/policies.py:209-222 | The filtered list is a subsequence of the input, holds exactly the inputs the policy keeps, and keeps each as often as it occurs |
| Policies.FilteredIdempotent | app/policies.py:209-222 | Filtering twice with one policy is filtering once |
| Policies.PolicyEngine.constructor | app/policies.py:129-135 | The registry starts with the three presets under their own names, in the order general, healthcare, finance |
| Policies.PolicyEngine.LoadPolicy | app/policies.py:150-155 | Succeeds exactly for a registered context and returns its policy; otherwise fails with the context and the available names |
| Policies.PolicyEngine.LoadedPolicyHasItsContext | app/policies.py:129-155 | In a consistent registry a loaded policy carries the context it was loaded by |
| Policies.PolicyEngine.GetAvailableContexts | app/policies.py:240 | Lists each loadable context exactly once, and nothing else, in registration order: the presets first, then each new context as `RegisterPolicy` appends it |
| Policies.PolicyEngine.FilterEntities | app/policies.py:209-222 | The append loop computes the stable filter of the results by the policy |
| Policies.PolicyEngine.RegisterPolicy | app/policies.py:224-231 | The policy is stored under its own context and loads from there; every other context keeps its policy and its loadability; a new context is appended to the key order and the registry stays consistent |
| Tokens.MatchAt | app/service.py:41 | A match anchored at the front is a token-shaped prefix of the text |
| Tokens.MatchAtComplete | app/service.py:41 | Any token-shaped prefix is the match found at the front, because the alphanumeric run is greedy and stops at the closing bracket |
| Tokens.FindTokens | app/service.py:41 | Every extracted token matches the full token pattern |
| Tokens.FindTokensSkips | app/service.py:41 | Text without an opening bracket contributes no token and does not disturb the scan of what follows |
| Tokens.NoBracketNoTokens | app/service.py:41 | Text without an opening bracket has no tokens |
| Tokens.FindTokensFront | app/service.py:41 | A token at the front is extracted whole and scanning resumes right after it |
| Tokens.InfixTokenIsFound | app/service.py:41 | If any token-shaped substring occurs, at least one token is extracted |
| Tokens.FoundTokenIsInfix | app/service.py:41 | Conversely, the first extracted token is a token-shaped substring of the text |
| Tokens.TokenShapeHasOneBracket | app/service.py:41 | A string matching the token pattern has its only opening bracket at the front |
| Tokens.TokenNotPrefixOfOther | app/service.py:41 | No string matching the token pattern starts with another one, whatever follows it |
| Tokens.MakeToken | app/service.py:21 | A minted token is the prefix `[REDACTED_`, then the id, then the closing bracket |
| Tokens.MintedTokenIsFound | app/service.py:21 | A token minted from 4 hex digits matches the extraction pattern, is extracted whole from itself, and its only opening bracket is its first character |
| Tokens.MakeTokenInjective | app/service.py:21 | Distinct ids mint distinct tokens |
| Service.TokenIdOf | app/service.py:20 | The id is the first 4 lower-case hex digits of the random hex string |
| Service.MintedTokens | app/service.py:19-21 | The i-th minted token is the token of the i-th random id, one per id |
| Service.RedactorService.constructor | app/service.py:8-11 | The service starts with the given store |
| Service.RedactorService.StoreInRedis | app/service.py:19-26 | Returns the token of the id, writes the text under it and overwrites any value there, and grows the key list by exactly that token |
| Service.RedactorService.RedactAndStore | app/service.py:13-37 | The mint callback runs over the spans from the last to the first; the key list is exactly the tokens minted in this call, in minting order; the store holds the writes in that order, the i-th key getting the i-th span from the end; the redacted text has the span texts replaced by the key list reversed; there is one score per analyzer result, in order, each that result's score |
| Service.RedactWithoutPiiIsIdentity | tests/unit/test_service.py:89-108 | Text with no PII span comes back unchanged, mints nothing and leaves the store alone |
| Service.CollidingIdsOverwrite | app/service.py:20-24 | Two random ids that share their first 4 digits mint one token, and the later write replaces the earlier one; since minting runs from the last span back, the value left is that of the span earlier in the text |
| Service.Substitute | app/service.py:43-46 | No contract of its own: the sequential substitution that `Service.RedactorService.Restore` is proved to compute; `Service.SubstituteWithoutValues`, `Service.SubstituteSameValues` and `Service.SubstituteWalk` state its properties |
| Service.Restored | app/service.py:39-47 | No contract of its own: extraction, then substitution; `Service.RestoreSplice` states what it gives for any mix of stored and missing tokens |
| Service.RedactorService.Restore | app/service.py:39-47 | The loop computes the sequential substitution of the extracted tokens; it reports the tokens without a truthy value in order, counts the rest, and only reads the store |
| Service.MissingTokensAreThoseWithoutValue | app/service.py:44-46 | A token is reported missing exactly when it was extracted and the store has no truthy value for it |
| Service.SubstituteWithoutValues | app/service.py:43-46 | Tokens without a truthy value change nothing |
| Service.RestoreWithoutValuesIsIdentity | app/service.py:41-47 | A text none of whose tokens has a truthy value restores to itself, with every token missing |
| Service.RestoreWithoutTokensIsIdentity | app/service.py:41-47 | A text with no token-shaped substring has no tokens and restores to itself |
| Service.SubstituteSameValues | app/service.py:43-46 | Substitution depends only on the stored entries of the tokens substituted |
| Service.RestoreIgnoresOtherKeys | app/service.py:44 | Deleting keys that are not tokens of the text leaves its restoration and its missing list unchanged |
| Service.RestoreAfterPurgeIsIdentity | app/service.py:44-46 | Once every token of a text is deleted, the text restores to itself and all its tokens are missing |
| Service.ReplaceOtherToken | app/service.py:46 | Replacing a token walks over any other token-shaped string unchanged |
| Service.ReplaceInSplice | app/service.py:46 | Between bracket-free literals, with every slot bracket-free or token-shaped, replacing a token changes exactly the slots that hold it |
| Service.FindTokensInSplice | app/service.py:41 | Between bracket-free literals the scanner finds exactly the spliced tokens, in order |
| Service.StoredHolds | app/service.py:24 | With distinct keys each key holds the value written under it |
| Service.SubstituteWalk | app/service.py:43-46 | From the state after any number of loop steps, the remaining steps fill every slot: a token with a value becomes it, any other stays |
| Service.SlotsStep | app/service.py:43-46 | One loop step turns every slot still holding the current token into its value when it has one, and changes nothing when it has none |
| Service.RestoreSplice | app/service.py:39-47 | For bracket-free literals, token-shaped tokens and bracket-free stored values, restoring a text of any number of tokens replaces exactly the tokens with a truthy value, leaves every other token in place, and reports exactly those others missing, in order |
| Service.StoredReversedHolds | app/service.py:24-25 | Written over the values from last to first under distinct keys, the i-th key from the end holds the i-th value |
| Service.RestoreStoredReversed | app/service.py:13-47 | Distinct token-shaped keys written over bracket-free non-empty values in reverse restore the spliced text to the original, nothing missing |
| Service.MintedAreDistinctTokens | app/service.py:20-21 | Tokens minted from pairwise distinct ids are distinct, token-shaped, 15 characters long, with a single opening bracket |
| Service.RedactThenRestore | app/service.py:13-47 | Restoring the redacted text (the minted tokens in reverse minting order) against the store the redaction produced gives back the original text, with no token missing (for bracket-free literals and values, non-empty values and distinct ids) |
| Service.PartialRestoration | tests/unit/test_service.py:165-180 | With only the first of two tokens stored, the first is replaced, the second stays in place and is the only one missing |
| Service.RestoreFirstOfTwo | app/service.py:43-46 | Of two distinct tokens only the one with a value is substituted and the other is reported missing |
| Gateway.ReplaceLeavesNoFence | app/main.py:27 | Removing every triple backtick left to right leaves no triple backtick behind |
| Gateway.NoFenceAfterCleaning | app/main.py:27 | The cleaned verifier output contains no triple backtick |
| Gateway.CleaningUnfencedTextOnlyStrips | app/main.py:27 | Output without backticks is only trimmed |
| Gateway.CleaningUnwrapsCodeBlock | app/main.py:24-28 | A body without backticks wrapped in a json code block comes out as the trimmed body |
| Gateway.CleanFences | app/main.py:27 | No contract of its own: `Gateway.NoFenceAfterCleaning` proves no triple backtick survives, `Gateway.CleaningUnfencedTextOnlyStrips` and `Gateway.CleaningUnwrapsCodeBlock` what comes out |
| Gateway.LeakVerdict | app/main.py:25-32 | No contract of its own: `Gateway.VerdictParsesCleanedText` states each reply's verdict, and `Gateway.AuditRedactionTask` purges exactly when it is `Some(true)` |
| Gateway.VerdictParsesCleanedText | app/main.py:25-30 | A string reply is parsed only after cleaning, as fence-free text; a decoded object is used as it is; any other reply gives no verdict |
| Gateway.Purged | app/main.py:36-37 | A purge keeps exactly the keys outside the list, with their values |
| Gateway.AuditRedactionTask | app/main.py:16-41 | It purges exactly when the verdict is truthy, removing exactly the listed keys; on a false or missing flag or a raised error the store is unchanged |
| Gateway.PurgeUndoesStores | app/main.py:36-37 | Purging the keys a redaction wrote removes its writes completely |
| Gateway.PurgeIsScoped | app/main.py:36-37 | A key outside the purge list keeps its value |
| Gateway.RestoreAfterLeakPurge | app/main.py:32-37 | After a purge of a text's tokens, that text restores to itself with every token missing |
| Gateway.PurgeSparesOtherRequests | app/main.py:36-37 | A text none of whose tokens was purged restores exactly as before |
| Gateway.RedactData | app/main.py:43-61 | The queued audit gets exactly the keys this request minted and its redacted text; the store holds the request's writes; the response carries that text, the analyzer's scores one for one, and the status "queued" |
| Gateway.LeakPurgeRemovesOnlyThisRequest | app/main.py:46-50 | A purge after a leak removes every token of this request and keeps every older key with its old value |
| Audit.TokenCount | app/audit.py:42 | No contract of its own: the number of extracted tokens; `Audit.TokenCountOfSplice`, `Audit.TokenCountOfRedaction` and `Audit.TokenCountWithoutBrackets` state its value |
| Audit.TokenCountOfSplice | app/audit.py:42 | A text made of bracket-free pieces around token-shaped pieces counts exactly those tokens |
| Audit.TokenCountOfRedaction | app/audit.py:42 | A text this service redacted, which holds its minted tokens in reverse, counts exactly the tokens minted for it |
| Audit.TokenCountWithoutBrackets | app/audit.py:42 | A text with no opening bracket counts 0 |
| Audit.TokenCountThree | tests/unit/test_audit.py:52-64 | Three tokens separated by " and " count 3 |
| Audit.ThreeMintedTokens | app/audit.py:42 | Three minted tokens separated by bracket-free text count 3 |
| Audit.TwoTokensFound | app/audit.py:42 | Two tokens around a bracket-free separator are extracted as those two |
| Audit.TokenThenSeparator | app/audit.py:42 | A token and then a bracket-free separator contribute that token only |
| Audit.RestorationAuditLog.constructor | app/audit.py:44 | A fresh row has no restored text, error, address or agent yet |
| Audit.LogRestorationRequest | app/audit.py:13-62 | The new row has the fresh id and time; the request id, texts, success flag, error, address and agent as given; the key id and service name from the key record; and the token count of the redacted text |
| Audit.LogFailedRestoration | tests/unit/test_audit.py:34-50 | A failure logged without a restored text records none, the failure and its message |
| FewShot.ExampleVerdicts | app/prompts/few_shot_examples.py:8-51 | There are seven examples; the 2nd, 3rd, 5th and 7th are the leaks |
| FewShot.GetFewShotExamples | app/prompts/few_shot_examples.py:54-64 | A prefix of the example list holding `min(count, 7)` examples for a non-negative count; a negative count drops that many from the end |
| FewShot.FormatExampleForPrompt | app/prompts/few_shot_examples.py:67-85 | No contract of its own: `FewShot.FormatExampleLayout` and `FewShot.ResultLineStatesVerdict` state its layout and verdict |
| FewShot.FormatExampleLayout | app/prompts/few_shot_examples.py:67-85 | A formatted example starts with its quoted text line; an analysis line follows exactly when it is asked for; it ends with the result line |
| FewShot.ResultLineStatesVerdict | app/prompts/few_shot_examples.py:83 | The result line says true exactly when the example leaked and false exactly when not, and ends with the quoted reason |
| FewShot.FirstEntryHeader | app/prompts/few_shot_examples.py:102-103 | Numbering starts at 1 |
| FewShot.GetFormattedExamples | app/prompts/few_shot_examples.py:88-105 | The loop builds the numbered entries of the chosen examples, in order, joined by blank lines |
| FewShot.EntriesStep | app/prompts/few_shot_examples.py:102-103 | The entries of a longer prefix are those of the shorter one and then the next numbered entry |
| FewShot.FormattedExamplesOfNone | app/prompts/few_shot_examples.py:105 | No examples give the empty string |
| FewShot.FormattedExamplesOfOne | app/prompts/few_shot_examples.py:102-105 | One example gives its entry alone, headed "Example 1:" |
| FewShot.FormattedExamplesGrow | app/prompts/few_shot_examples.py:102-105 | One more example appends a blank line and the next numbered entry |
| FewShot.FormattedExamplesContainEach | app/prompts/few_shot_examples.py:102-105 | Every chosen example appears under its own number |
| Prompts.FormatText | app/prompts/verification_prompts.py:138-148 | No contract of its own: the model of `str.format`; `Prompts.FormatOfEscape`, `Prompts.FormatField`, `Prompts.FormatEscapes` and `Prompts.FormatAroundField` state what it does |
| Prompts.Escape | app/prompts/verification_prompts.py:10-20 | Template text without braces is written as it is |
| Prompts.FormatEscaped | app/prompts/verification_prompts.py:138 | Formatting turns escaped text back into the text it escapes, and formatting carries on after it |
| Prompts.FormatOfEscape | app/prompts/verification_prompts.py:138 | Formatting undoes escaping, for any text |
| Prompts.FormatField | app/prompts/verification_prompts.py:15 | The `{text}` field becomes the argument, whatever the argument contains |
| Prompts.FormatEscapes | app/prompts/verification_prompts.py:59 | Doubled braces become single braces |
| Prompts.FormatAroundField | app/prompts/verification_prompts.py:138 | A template holding only the field formats to the fixed text before it, the argument, and the fixed text after it |
| Prompts.PromptV1 | app/prompts/verification_prompts.py:10-20 | The version 1 prompt is its fixed head, the text, then its fixed tail |
| Prompts.FormatV2 | app/prompts/verification_prompts.py:140 | Formatting the version 2 template succeeds and puts the text in place |
| Prompts.FormatAroundFieldAndBraces | app/prompts/verification_prompts.py:59 | A head, the field, then text holding one doubled brace of each kind formats with the argument in place and the braces single |
| Prompts.PromptV2 | app/prompts/verification_prompts.py:24-60 | The version 2 prompt is its head, the text, and its tail with the JSON example's braces single |
| Prompts.PromptV3 | app/prompts/verification_prompts.py:64-98 | No contract of its own: `Prompts.PromptV3Layout` and `Prompts.PromptV3ContainsText` state its layout and that it holds the text |
| Prompts.PromptV3Layout | app/prompts/verification_prompts.py:75-98 | Version 3 puts the numbered examples, with analysis, right after its header and before the section holding the text |
| Prompts.PromptV4 | app/prompts/verification_prompts.py:102-122 | No contract of its own: `Prompts.PromptV4EndsWithJsonOnly` and `Prompts.PromptV4ContainsText` state how it ends and that it holds the text |
| Prompts.PromptV4EndsWithJsonOnly | app/prompts/verification_prompts.py:113-122 | The version 4 prompt ends with "JSON only:" |
| Prompts.GetPrompt | app/prompts/verification_prompts.py:125-148 | No contract of its own: `Prompts.UnknownVersionIsBasic`, `Prompts.FewShotDefaultsToThree` and `Prompts.OnlyFewShotReadsNumExamples` state the dispatch |
| Prompts.UnknownVersionIsBasic | app/prompts/verification_prompts.py:146-148 | Any unknown version gets exactly the version 1 prompt |
| Prompts.FewShotDefaultsToThree | app/prompts/verification_prompts.py:141-143 | Version 3 without `num_examples` is version 3 with `num_examples=3` |
| Prompts.OnlyFewShotReadsNumExamples | app/prompts/verification_prompts.py:125-148 | Every version other than 3 ignores `num_examples` |
| Prompts.PromptV1ContainsText | app/prompts/verification_prompts.py:15 | The version 1 prompt contains the text |
| Prompts.PromptV2ContainsText | app/prompts/verification_prompts.py:44 | The version 2 prompt contains the text |
| Prompts.PromptV3ContainsText | app/prompts/verification_prompts.py:92 | The version 3 prompt contains the text, whatever the number of examples |
| Prompts.PromptV4ContainsText | app/prompts/verification_prompts.py:120 | The version 4 prompt contains the text |
| PyStr.ReplaceSkips | app/service.py:46 | Text that cannot start the pattern passes through `str.replace` unchanged |
| PyStr.ReplaceFront | app/service.py:46 | An occurrence at the front is replaced and scanning resumes after it |
| PyStr.StripTrimsSpaces | app/main.py:27 | `strip` removes exactly the leading and trailing whitespace, and what is left neither starts nor ends with whitespace |
| PyStr.JoinSnoc | app/prompts/few_shot_examples.py:105 | Joining one more part puts the separator between the old result and it |
| PyStr.JoinPartAt | app/prompts/few_shot_examples.py:105 | Locates each part inside the joined string |
| PyStr.JoinContainsPart | app/prompts/few_shot_examples.py:105 | Every part appears in the joined string |
| PyStr.NatToString | app/prompts/few_shot_examples.py:103 | `str(n)` is a non-empty string of decimal digits, a single digit below 10 |

## Left out

- **Presidio analyzer and anonymizer** (`app/service.py:9-10`, `14`,
  `28-32`). These are a foreign library. The analyzer's results are an input.
  The anonymizer's choice of spans enters as the text already split into
  literal pieces and PII values. The anonymizer applies the spans by
  descending start offset, so the model mints one token per value from the
  last value back to the first, and the key list is in that order. Overlapping
  spans, and the skipping of a span inside one already replaced, are not
  modelled.
- **Redis** (`app/service.py:11`, `24`). The client, the connection and the
  24-hour expiry are not modelled. Expiry is the same as an outside delete,
  which `Service.RestoreIgnoresOtherKeys` and
  `Service.RestoreAfterPurgeIsIdentity` cover. A failing `set` or `delete` is
  not modelled.
- **`uuid.uuid4()`** is not modelled: its hex string is an input. The new id
  and the timestamp of an audit row are inputs too.
- **The verifier call**, an HTTP call to a local model in `app/verification.py`,
  is not part of this model. Its answer is the input `Gateway.VerifierReply`.
  Its error path answers with a dict whose flag is false, which is an
  `ObjectReply(false)`.
- **`json.loads(...).get("leaked")`** is a function parameter returning
  `Option<bool>`. `None` stands for every way it can raise. Python truthiness
  of the parsed value is folded into the parameter.
- **FastAPI, `BackgroundTasks`, Prometheus metrics, the alert prints and
  `/restore`**. These are not modelled. The background audit is a plain
  sequential method, run after `Gateway.RedactData` hands over its
  `AuditJob`.
- **The database session** in `app/audit.py:58-60`, `get_audit_logs`, and all
  of `app/auth.py` and `app/config.py` are SQL, I/O or foreign calls.
- **Scores and thresholds are reals.** Floating point is not modelled, and
  only `>=` is used on them.
- **Only the `text` keyword of the templates is modelled.** Any other
  placeholder, a conversion or a format spec in a `str.format` template is an
  error in `Prompts.FormatText`. The templates use none of them.
- **Versions 1 and 2 are written as escaped template text.** Their template
  constants are written as `Escape` of the fixed text around `{text}`, with
  the doubled braces of version 2 written out. That the fixed text holds no
  further braces is read off the source, not proved.
- **The `warnings` list of the restore result** in
  `tests/unit/test_service.py:121-142` is not modelled, because its message
  text is not in the code.
- **Service.RestoreSplice** requires the stored values of the text's tokens
  to contain no `[`. Without it the general statement is false: a substituted
  value can spell a later token, which the loop then replaces too.
- **Service.RedactThenRestore** is stated under three hypotheses: the literal
  text and the PII values contain no `[`, every value is non-empty, and the
  minted ids are pairwise distinct. Without them, a value or a neighbouring
  literal can form or swallow a token, and a collision overwrites a value
  (`Service.CollidingIdsOverwrite`).
- **Service.PartialRestoration** states the unit test with the stored value
  kept abstract. It requires the value to be non-empty; it does not require it
  to be `john@example.com`.
- **Service.RedactorService.StoreInRedis** says which token it returns, not
  that the scanner finds it. That fact is `Tokens.MintedTokenIsFound`, proved
  once for every id.
- **Prompts.GetPrompt** states no property as a whole. Each version's
  contents are proved separately: `Prompts.PromptV1ContainsText` through
  `Prompts.PromptV4ContainsText`, `Prompts.UnknownVersionIsBasic`,
  `Prompts.FewShotDefaultsToThree` and `Prompts.OnlyFewShotReadsNumExamples`.
- **`Replace` with an empty pattern** follows Python, which inserts the
  replacement before every character and at the end, so at both ends and
  between every pair of characters. The core never uses an empty
  pattern, and no lemma is stated about that case.
