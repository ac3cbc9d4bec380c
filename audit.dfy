/**
 * The audit record of a restoration request: how many tokens the redacted
 * text holds, and the fields filled in from the request and the caller's API
 * key. The fresh record id and the timestamp come from `uuid4` and the clock,
 * so they are inputs; the database session is not modelled.
 */
module Audit {
  import opened Wrappers
  import opened Tokens
  import opened Service
  import opened PyStr

  /** `len(re.findall(r"\[REDACTED_[a-z0-9]+\]", redactedText))`. */
  function TokenCount(redactedText: string): nat {
    |FindTokens(redactedText)|
  }

  /** The count is that of a partition into token-shaped pieces and the text between them. */
  lemma TokenCountOfSplice(literals: seq<string>, tokens: seq<string>)
    requires |literals| == |tokens| + 1
    requires forall i :: 0 <= i < |literals| ==> '[' !in literals[i]
    requires forall j :: 0 <= j < |tokens| ==> IsTokenShape(tokens[j])
    ensures TokenCount(Splice(literals, tokens)) == |tokens|
  {
    FindTokensInSplice(literals, tokens);
  }

  /** A text redacted by this service counts exactly the tokens minted for it. */
  lemma TokenCountOfRedaction(literals: seq<string>, uuids: seq<string>)
    requires |literals| == |uuids| + 1
    requires forall i :: 0 <= i < |literals| ==> '[' !in literals[i]
    requires forall i :: 0 <= i < |uuids| ==> IsUuidHex(uuids[i])
    ensures TokenCount(Splice(literals, Reverse(MintedTokens(uuids)))) == |uuids|
  {
    var keys := MintedTokens(uuids);
    forall j | 0 <= j < |keys| ensures IsTokenShape(keys[j]) {
      MintedTokenIsFound(TokenIdOf(uuids[j]));
    }
    ReversedTokens(keys);
    TokenCountOfSplice(literals, Reverse(keys));
  }

  /** Text with no `[` counts no token. */
  lemma TokenCountWithoutBrackets(redactedText: string)
    requires '[' !in redactedText
    ensures TokenCount(redactedText) == 0
  {
    NoBracketNoTokens(redactedText);
  }

  /** Three tokens separated by " and " count 3, as in the unit tests. */
  lemma TokenCountThree(id1: string, id2: string, id3: string)
    requires id1 == "a1b2" && id2 == "c3d4" && id3 == "e5f6"
    ensures TokenCount(MakeToken(id1) + " and " + MakeToken(id2) + " and " + MakeToken(id3)) == 3
  {
    assert IsTokenId(id1) && IsTokenId(id2) && IsTokenId(id3);
    ThreeMintedTokens(id1, id2, id3, " and ");
  }

  lemma ThreeMintedTokens(id1: string, id2: string, id3: string, sep: string)
    requires IsTokenId(id1) && IsTokenId(id2) && IsTokenId(id3) && '[' !in sep
    ensures TokenCount(MakeToken(id1) + sep + MakeToken(id2) + sep + MakeToken(id3)) == 3
  {
    MintedTokenIsFound(id1);
    MintedTokenIsFound(id2);
    MintedTokenIsFound(id3);
    ThreeTokensFound(MakeToken(id1), MakeToken(id2), MakeToken(id3), sep);
  }

  lemma ThreeTokensFound(t1: string, t2: string, t3: string, sep: string)
    requires IsTokenShape(t1) && IsTokenShape(t2) && IsTokenShape(t3) && '[' !in sep
    ensures FindTokens(t1 + sep + t2 + sep + t3) == [t1, t2, t3]
  {
    var tail := t2 + (sep + t3);
    TwoTokensFound(t2, t3, sep);
    TokenThenSeparator(t1, sep, tail);
    ConcatFive(t1, sep, t2, sep, t3);
  }

  lemma TwoTokensFound(t1: string, t2: string, sep: string)
    requires IsTokenShape(t1) && IsTokenShape(t2) && '[' !in sep
    ensures FindTokens(t1 + (sep + t2)) == [t1, t2]
  {
    TokenThenSeparator(t1, sep, t2);
    FindTokensFront(t2, "");
    NoBracketNoTokens("");
    assert t2 + "" == t2;
  }

  /** A token, then text without `[`, then the rest: the token comes first, then the rest's. */
  lemma TokenThenSeparator(t: string, sep: string, rest: string)
    requires IsTokenShape(t) && '[' !in sep
    ensures FindTokens(t + (sep + rest)) == [t] + FindTokens(rest)
  {
    FindTokensFront(t, sep + rest);
    FindTokensSkips(sep, rest);
  }

  /** `APIKey`: the caller's key record; only its id and service name reach the log. */
  datatype ApiKeyRecord = ApiKeyRecord(id: string, serviceName: string)

  /** `RestorationAuditLog`: a row filled in field by field. */
  class RestorationAuditLog {
    var id: string
    var requestId: string
    var apiKeyId: string
    var serviceName: string
    var timestamp: int
    var redactedText: string
    var restoredText: Option<string>
    var tokenCount: nat
    var success: bool
    var errorMessage: Option<string>
    var ipAddress: Option<string>
    var userAgent: Option<string>

    /** A row with nothing set yet: the nullable columns are null; the others await assignment. */
    constructor ()
      ensures restoredText == None && errorMessage == None && ipAddress == None && userAgent == None
    {
      id, requestId, apiKeyId, serviceName := "", "", "", "";
      timestamp, redactedText := 0, "";
      restoredText, tokenCount, success := None, 0, true;
      errorMessage, ipAddress, userAgent := None, None, None;
    }
  }

  /**
   * `log_restoration_request`: a new row whose token count is that of the
   * redacted text, whose service name and key id come from the key record and
   * whose other fields are the arguments as given, with the same defaults.
   * `newId` stands for `uuid4()` and `now` for `datetime.now(UTC)`.
   */
  method LogRestorationRequest(newId: string, now: int, requestId: string, apiKeyRecord: ApiKeyRecord,
                               redactedText: string, restoredText: Option<string> := None,
                               success: bool := true, errorMessage: Option<string> := None,
                               ipAddress: Option<string> := None, userAgent: Option<string> := None)
    returns (auditLog: RestorationAuditLog)
    ensures fresh(auditLog)
    ensures auditLog.id == newId && auditLog.timestamp == now
    ensures auditLog.requestId == requestId
    ensures auditLog.apiKeyId == apiKeyRecord.id && auditLog.serviceName == apiKeyRecord.serviceName
    ensures auditLog.redactedText == redactedText && auditLog.restoredText == restoredText
    ensures auditLog.tokenCount == TokenCount(redactedText)
    ensures auditLog.success == success && auditLog.errorMessage == errorMessage
    ensures auditLog.ipAddress == ipAddress && auditLog.userAgent == userAgent
  {
    var tokenCount := |FindTokens(redactedText)|;
    auditLog := new RestorationAuditLog();
    auditLog.id := newId;
    auditLog.requestId := requestId;
    auditLog.apiKeyId := apiKeyRecord.id;
    auditLog.serviceName := apiKeyRecord.serviceName;
    auditLog.timestamp := now;
    auditLog.redactedText := redactedText;
    auditLog.restoredText := restoredText;
    auditLog.tokenCount := tokenCount;
    auditLog.success := success;
    auditLog.errorMessage := errorMessage;
    auditLog.ipAddress := ipAddress;
    auditLog.userAgent := userAgent;
  }

  /**
   * The failed-restoration call of the unit tests: with the restored text left
   * to its default, the row has none, and the failure and its message are
   * recorded as given.
   */
  method LogFailedRestoration(newId: string, now: int, requestId: string, apiKeyRecord: ApiKeyRecord, redactedText: string)
    returns (auditLog: RestorationAuditLog)
    ensures auditLog.restoredText == None
    ensures !auditLog.success && auditLog.errorMessage == Some("Policy violation")
    ensures auditLog.tokenCount == TokenCount(redactedText)
  {
    auditLog := LogRestorationRequest(newId, now, requestId, apiKeyRecord, redactedText,
                                      success := false, errorMessage := Some("Policy violation"));
  }
}
