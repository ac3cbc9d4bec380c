/**
 * The gateway's request handlers: `redact_data` hands the keys minted for one
 * request to a background audit, and the audit asks the verifier model about
 * the redacted text and, when it reports a leak, deletes exactly those keys.
 *
 * The verifier call and `json.loads` are foreign: the verifier's answer is an
 * input (`VerifierReply`) and the parser a function parameter whose `None`
 * stands for every way `json.loads(...).get("leaked")` can raise.
 */
module Gateway {
  import opened Wrappers
  import opened PyStr
  import opened Tokens
  import opened Service
  import Policies

  const Fence := "```"
  const JsonFence := "```json"

  // ---------------------------------------------------------------------------
  // Fence cleaning

  /** `raw.replace("```json", "").replace("```", "").strip()`. */
  function CleanFences(raw: string): string {
    Strip(Replace(Replace(raw, JsonFence, ""), Fence, ""))
  }

  predicate HasFenceAt(s: string, i: int) {
    0 <= i && i + 3 <= |s| && s[i] == '`' && s[i + 1] == '`' && s[i + 2] == '`'
  }

  /** After removing every fence, the text starts with a backtick only if the input did. */
  lemma StartsWithTick(v: string)
    ensures |Replace(v, Fence, "")| > 0 && Replace(v, Fence, "")[0] == '`' ==> |v| > 0 && v[0] == '`'
  {
  }

  /** ... and with two backticks only if the input did. */
  lemma StartsWithTwoTicks(u: string)
    ensures |Replace(u, Fence, "")| > 1 && Replace(u, Fence, "")[0] == '`' && Replace(u, Fence, "")[1] == '`'
            ==> |u| > 1 && u[0] == '`' && u[1] == '`'
  {
    if |u| >= 3 && !(Fence <= u) {
      assert Replace(u, Fence, "") == [u[0]] + Replace(u[1..], Fence, "");
      StartsWithTick(u[1..]);
    }
  }

  /**
   * Left-to-right, non-overlapping removal of "```" leaves no "```" behind:
   * backticks that survive cannot join up into a new fence, because a fence
   * formed at the front would have been removed first.
   */
  lemma {:induction false} ReplaceLeavesNoFence(t: string)
    ensures forall i :: !HasFenceAt(Replace(t, Fence, ""), i)
    decreases |t|
  {
    var r := Replace(t, Fence, "");
    if |t| < 3 {
    } else if Fence <= t {
      assert |Fence| == 3;
      ReplaceLeavesNoFence(t[3..]);
      assert r == "" + Replace(t[3..], Fence, "");
      assert r == Replace(t[3..], Fence, "");
    } else {
      var r1 := Replace(t[1..], Fence, "");
      ReplaceLeavesNoFence(t[1..]);
      assert r == [t[0]] + r1;
      forall i ensures !HasFenceAt(r, i) {
        if i == 0 {
          StartsWithTwoTicks(t[1..]);
        } else {
          assert HasFenceAt(r, i) == HasFenceAt(r1, i - 1);
        }
      }
    }
  }

  lemma NoFenceInSlice(x: string, a: nat, b: nat)
    requires a <= b <= |x|
    requires forall i :: !HasFenceAt(x, i)
    ensures forall i :: !HasFenceAt(x[a..b], i)
  {
    forall i ensures !HasFenceAt(x[a..b], i) {
      assert HasFenceAt(x[a..b], i) ==> HasFenceAt(x, a + i);
    }
  }

  lemma NoFenceIsNotInfix(s: string)
    requires forall i :: !HasFenceAt(s, i)
    ensures !IsInfix(Fence, s)
  {
    forall i | 0 <= i <= |s| - |Fence| ensures !(Fence <= s[i..]) {
      assert |Fence| == 3 && Fence[0] == Fence[1] == Fence[2] == '`';
      assert !HasFenceAt(s, i);
      assert s[i..][0] == s[i] && s[i..][1] == s[i + 1] && s[i..][2] == s[i + 2];
    }
  }

  /** The cleaned verifier output contains no "```" at all. */
  lemma NoFenceAfterCleaning(raw: string)
    ensures !IsInfix(Fence, CleanFences(raw))
  {
    var x := Replace(Replace(raw, JsonFence, ""), Fence, "");
    ReplaceLeavesNoFence(Replace(raw, JsonFence, ""));
    NoFenceInSlice(x, StripStart(x), StripEnd(x));
    NoFenceIsNotInfix(Strip(x));
  }

  /** Output with no backtick is only trimmed. */
  lemma CleaningUnfencedTextOnlyStrips(raw: string)
    requires '`' !in raw
    ensures CleanFences(raw) == Strip(raw)
  {
    ReplaceAbsent(raw, JsonFence, "");
    ReplaceAbsent(raw, Fence, "");
  }

  /** A JSON body wrapped in a markdown code block comes out as the trimmed body. */
  lemma CleaningUnwrapsCodeBlock(body: string)
    requires '`' !in body
    ensures CleanFences(JsonFence + body + Fence) == Strip(body)
  {
    var close := Fence;
    assert JsonFence + body + close == JsonFence + (body + close);
    ReplaceFront(body + close, JsonFence, "");
    ReplaceSkips(body, close, JsonFence, "");
    assert Replace(close, JsonFence, "") == close;
    assert "" + (body + close) == body + close;
    ReplaceSkips(body, close, Fence, "");
    assert close == close + "";
    ReplaceFront("", Fence, "");
    assert Replace(close, Fence, "") == "";
    assert body + "" == body;
  }

  // ---------------------------------------------------------------------------
  // The leak verdict

  /**
   * What `verifier.check_for_leaks` hands back: a string (usually JSON, maybe
   * fenced), an already-decoded dict whose `get("leaked")` has the given
   * truthiness (its own error path answers `leaked: False`), or any other
   * value, such as `None`, which has no `get`.
   */
  datatype VerifierReply = TextReply(raw: string) | ObjectReply(leaked: bool) | OtherReply

  /**
   * The truthiness of `result.get("leaked")`, or `None` when computing it
   * raises. Only a string reply is cleaned and parsed; an object is used as it
   * is.
   */
  function LeakVerdict(reply: VerifierReply, parse: string -> Option<bool>): (verdict: Option<bool>)
  {
    match reply
    case TextReply(raw) => parse(CleanFences(raw))
    case ObjectReply(leaked) => Some(leaked)
    case OtherReply => None
  }

  /**
   * The parser only ever sees fence-free text; a dict is used as it is, without
   * cleaning; any other value gives no verdict.
   */
  lemma VerdictParsesCleanedText(reply: VerifierReply, parse: string -> Option<bool>)
    ensures reply.TextReply? ==>
      exists clean :: !IsInfix(Fence, clean) && LeakVerdict(reply, parse) == parse(clean)
    ensures reply.ObjectReply? ==> LeakVerdict(reply, parse) == Some(reply.leaked)
    ensures reply.OtherReply? ==> LeakVerdict(reply, parse) == None
  {
    if reply.TextReply? {
      NoFenceAfterCleaning(reply.raw);
      var clean := CleanFences(reply.raw);
      assert !IsInfix(Fence, clean) && LeakVerdict(reply, parse) == parse(clean);
    }
  }

  /** The store left by a purge of `keys`. */
  function Purged(db: map<string, string>, keys: seq<string>): (r: map<string, string>)
    ensures forall k :: k in r <==> k in db && k !in keys
    ensures forall k :: k in r ==> r[k] == db[k]
  {
    db - (set k | k in keys)
  }

  /**
   * `audit_redaction_task`. When the verdict is truthy every key in
   * `tokenMappingKeys` is deleted (deleting an absent key is harmless); when it
   * is false, missing, or computing it raised, the store is left alone and the
   * error goes no further. `purged` says which happened.
   */
  method AuditRedactionTask(redactor: RedactorService, redactedText: string, tokenMappingKeys: seq<string>,
                            reply: VerifierReply, parse: string -> Option<bool>)
    returns (purged: bool)
    modifies redactor
    ensures purged <==> LeakVerdict(reply, parse) == Some(true)
    ensures purged ==> redactor.db == Purged(old(redactor.db), tokenMappingKeys)
    ensures !purged ==> redactor.db == old(redactor.db)
  {
    var result := LeakVerdict(reply, parse);
    purged := false;
    if result.Some? && result.value {
      for i := 0 to |tokenMappingKeys|
        invariant redactor.db == Purged(old(redactor.db), tokenMappingKeys[..i])
      {
        assert tokenMappingKeys[..i + 1] == tokenMappingKeys[..i] + [tokenMappingKeys[i]];
        redactor.db := redactor.db - {tokenMappingKeys[i]};
      }
      assert tokenMappingKeys[..|tokenMappingKeys|] == tokenMappingKeys;
      purged := true;
    }
  }

  // ---------------------------------------------------------------------------
  // Properties of the purge

  /** Purging the keys a redaction minted removes them, and with them every value that redaction wrote. */
  lemma {:induction false} PurgeUndoesStores(db: map<string, string>, keys: seq<string>, values: seq<string>, purgedKeys: seq<string>)
    requires |keys| == |values|
    requires forall i :: 0 <= i < |keys| ==> keys[i] in purgedKeys
    ensures Purged(Stored(db, keys, values), purgedKeys) == Purged(db, purgedKeys)
    decreases |keys|
  {
    if |keys| > 0 {
      var n := |keys| - 1;
      PurgeUndoesStores(db, keys[..n], values[..n], purgedKeys);
      assert Stored(db, keys, values) == Stored(db, keys[..n], values[..n])[keys[n] := values[n]];
    }
  }

  /** A purge keeps every key outside its list, with its value. */
  lemma PurgeIsScoped(db: map<string, string>, keys: seq<string>, k: string)
    requires k in db && k !in keys
    ensures k in Purged(db, keys) && Purged(db, keys)[k] == db[k]
  {
  }

  /** After a purge of the tokens of a text, restoring that text gives it back unchanged, every token missing. */
  lemma RestoreAfterLeakPurge(text: string, db: map<string, string>, keys: seq<string>)
    requires forall t :: t in FindTokens(text) ==> t in keys
    ensures Restored(text, Purged(db, keys)) == text
    ensures MissingTokens(FindTokens(text), Purged(db, keys)) == FindTokens(text)
  {
    RestoreAfterPurgeIsIdentity(text, db, set k | k in keys);
  }

  /** Another request's text, none of whose tokens is in the purged list, restores exactly as before the purge. */
  lemma PurgeSparesOtherRequests(text: string, db: map<string, string>, keys: seq<string>)
    requires forall t :: t in FindTokens(text) ==> t !in keys
    ensures Restored(text, Purged(db, keys)) == Restored(text, db)
  {
    RestoreIgnoresOtherKeys(text, db, set k | k in keys);
  }

  // ---------------------------------------------------------------------------
  // The key hand-off in `redact_data`

  /** The background task `redact_data` queues: the redacted text and this request's keys. */
  datatype AuditJob = AuditJob(redactedText: string, tokenMappingKeys: seq<string>)

  datatype RedactResponse = RedactResponse(redactedText: string, confidenceScores: seq<real>, auditStatus: string)

  /**
   * `redact_data`: redacts, queues the audit with exactly the keys
   * `redact_and_store` returned for this request, and answers "queued".
   */
  method RedactData(redactor: RedactorService, text: string, results: seq<Policies.EntitySpan>,
                    literals: seq<string>, piiValues: seq<string>, uuids: seq<string>)
    returns (response: RedactResponse, job: AuditJob)
    requires |literals| == |piiValues| + 1 && text == Splice(literals, piiValues)
    requires |uuids| == |piiValues| && forall i :: 0 <= i < |uuids| ==> IsUuidHex(uuids[i])
    modifies redactor
    ensures job.tokenMappingKeys == MintedTokens(uuids)
    ensures redactor.db == Stored(old(redactor.db), job.tokenMappingKeys, Reverse(piiValues))
    ensures job.redactedText == response.redactedText == Splice(literals, Reverse(job.tokenMappingKeys))
    ensures |response.confidenceScores| == |results|
    ensures forall i :: 0 <= i < |results| ==> response.confidenceScores[i] == results[i].score
    ensures response.auditStatus == "queued"
  {
    var cleanText, scores, keys := redactor.RedactAndStore(text, results, literals, piiValues, uuids);
    job := AuditJob(cleanText, keys);
    response := RedactResponse(cleanText, scores, "queued");
  }

  /**
   * A leak found in a request's redacted text purges that request's tokens
   * and no other key: the values it wrote are gone, every other key keeps
   * the value it had before the request.
   */
  lemma LeakPurgeRemovesOnlyThisRequest(db0: map<string, string>, uuids: seq<string>, piiValues: seq<string>)
    requires |uuids| == |piiValues|
    requires forall i :: 0 <= i < |uuids| ==> IsUuidHex(uuids[i])
    ensures var keys := MintedTokens(uuids);
      forall k :: k in keys ==> k !in Purged(Stored(db0, keys, Reverse(piiValues)), keys)
    ensures var keys := MintedTokens(uuids);
      forall k :: k in db0 && k !in keys ==>
        k in Purged(Stored(db0, keys, Reverse(piiValues)), keys) &&
        Purged(Stored(db0, keys, Reverse(piiValues)), keys)[k] == db0[k]
  {
    var keys := MintedTokens(uuids);
    PurgeUndoesStores(db0, keys, Reverse(piiValues), keys);
  }
}
