/**
 * The redactor service: minting tokens into the key-value store during
 * redaction, and restoring redacted text by sequential substitution of the
 * tokens found in it.
 *
 * The store (Redis, with `decode_responses=True`) is a `map<string, string>`;
 * a key that has expired is simply absent from it.
 */
module Service {
  import opened Wrappers
  import opened PyStr
  import opened Tokens
  import Policies

  /** `uuid.uuid4().hex`: 32 lower-case hexadecimal digits. */
  predicate IsUuidHex(h: string) {
    |h| == 32 && forall i :: 0 <= i < 32 ==> IsHexDigit(h[i])
  }

  /** `uuid.uuid4().hex[:4]`. */
  function TokenIdOf(uuidHex: string): (tokenId: string)
    requires IsUuidHex(uuidHex)
    ensures IsTokenId(tokenId) && tokenId == uuidHex[..4]
  {
    uuidHex[..4]
  }

  /** The tokens minted, in order, from a list of random ids. */
  function MintedTokens(uuids: seq<string>): (tokens: seq<string>)
    requires forall i :: 0 <= i < |uuids| ==> IsUuidHex(uuids[i])
    ensures |tokens| == |uuids|
    ensures forall i :: 0 <= i < |uuids| ==> tokens[i] == MakeToken(TokenIdOf(uuids[i]))
  {
    seq(|uuids|, i requires 0 <= i < |uuids| => MakeToken(TokenIdOf(uuids[i])))
  }

  /** `s` back to front. */
  function Reverse<T>(s: seq<T>): (r: seq<T>)
    ensures |r| == |s| && forall i :: 0 <= i < |s| ==> r[i] == s[|s| - 1 - i]
  {
    seq(|s|, i requires 0 <= i < |s| => s[|s| - 1 - i])
  }

  /**
   * The anonymizer's output: the literal pieces of the text with the i-th
   * replaced span's text put between piece i and piece i + 1.
   */
  function Splice(literals: seq<string>, fillers: seq<string>): string
    requires |literals| == |fillers| + 1
    decreases |fillers|
  {
    if |fillers| == 0 then literals[0]
    else literals[0] + (fillers[0] + Splice(literals[1..], fillers[1..]))
  }

  /** The store after writing `values[i]` under `keys[i]` for each i in order; a later write wins. */
  function Stored(db: map<string, string>, keys: seq<string>, values: seq<string>): map<string, string>
    requires |keys| == |values|
    decreases |keys|
  {
    if |keys| == 0 then db
    else Stored(db, keys[..|keys| - 1], values[..|values| - 1])[keys[|keys| - 1] := values[|values| - 1]]
  }

  /** One more write on top of the others. */
  lemma StoredSnoc(db: map<string, string>, keys: seq<string>, values: seq<string>, k: string, v: string)
    requires |keys| == |values|
    ensures Stored(db, keys + [k], values + [v]) == Stored(db, keys, values)[k := v]
  {
    assert (keys + [k])[..|keys|] == keys;
    assert (values + [v])[..|values|] == values;
  }

  /** The redaction loop's invariants carry over the i-th write. */
  lemma RedactStep(db: map<string, string>, keys: seq<string>, piiValues: seq<string>, uuids: seq<string>, i: nat)
    requires i < |uuids| == |piiValues| && forall j :: 0 <= j < |uuids| ==> IsUuidHex(uuids[j])
    requires keys == MintedTokens(uuids)[..i]
    ensures var token := MakeToken(TokenIdOf(uuids[i]));
      && keys + [token] == MintedTokens(uuids)[..i + 1]
      && Stored(db, keys + [token], piiValues[..i + 1]) == Stored(db, keys, piiValues[..i])[token := piiValues[i]]
  {
    assert piiValues[..i + 1] == piiValues[..i] + [piiValues[i]];
    StoredSnoc(db, keys, piiValues[..i], MakeToken(TokenIdOf(uuids[i])), piiValues[i]);
  }

  /** `self.db.get(token)` is truthy: present and not the empty string. */
  predicate HasValue(db: map<string, string>, token: string) {
    token in db && db[token] != ""
  }

  /**
   * The restore loop over the found tokens, in order: a token whose stored
   * value is truthy has every occurrence in the current text replaced by it;
   * any other token is left as it is.
   */
  function Substitute(text: string, tokens: seq<string>, db: map<string, string>): string
    decreases |tokens|
  {
    if |tokens| == 0 then text
    else
      var token := tokens[0];
      var next := if HasValue(db, token) then Replace(text, token, db[token]) else text;
      Substitute(next, tokens[1..], db)
  }

  /** What `restore` returns for a text and a store. */
  function Restored(redactedText: string, db: map<string, string>): string {
    Substitute(redactedText, FindTokens(redactedText), db)
  }

  /** One step of the restore loop, at position `i` of the token list. */
  lemma SubstituteStep(text: string, tokens: seq<string>, i: nat, db: map<string, string>)
    requires i < |tokens|
    ensures Substitute(text, tokens[i..], db) ==
            Substitute(if HasValue(db, tokens[i]) then Replace(text, tokens[i], db[tokens[i]]) else text, tokens[i + 1..], db)
  {
    assert tokens[i..][1..] == tokens[i + 1..];
  }

  /** The missing tokens from position `i` on: the token there if it has no value, then those after it. */
  lemma MissingStep(tokens: seq<string>, i: nat, db: map<string, string>)
    requires i < |tokens|
    ensures MissingTokens(tokens[i..], db) ==
            (if HasValue(db, tokens[i]) then [] else [tokens[i]]) + MissingTokens(tokens[i + 1..], db)
  {
    assert tokens[i..][1..] == tokens[i + 1..];
  }

  /** The restore loop's invariants carry over one step, whichever branch it takes. */
  lemma RestoreStep(text: string, missing: seq<string>, tokens: seq<string>, i: nat, db: map<string, string>)
    requires i < |tokens|
    ensures var token := tokens[i];
      if HasValue(db, token) then
        && Substitute(Replace(text, token, db[token]), tokens[i + 1..], db) == Substitute(text, tokens[i..], db)
        && missing + MissingTokens(tokens[i + 1..], db) == missing + MissingTokens(tokens[i..], db)
      else
        && Substitute(text, tokens[i + 1..], db) == Substitute(text, tokens[i..], db)
        && (missing + [token]) + MissingTokens(tokens[i + 1..], db) == missing + MissingTokens(tokens[i..], db)
  {
    SubstituteStep(text, tokens, i, db);
    MissingStep(tokens, i, db);
  }

  /** The tokens among `tokens` that have no truthy stored value, in order. */
  function MissingTokens(tokens: seq<string>, db: map<string, string>): (missing: seq<string>)
    ensures |missing| <= |tokens|
    decreases |tokens|
  {
    if |tokens| == 0 then []
    else
      var rest := MissingTokens(tokens[1..], db);
      if HasValue(db, tokens[0]) then rest else [tokens[0]] + rest
  }

  /** The missing tokens are exactly the extracted tokens with no truthy value. */
  lemma {:induction false} MissingTokensAreThoseWithoutValue(tokens: seq<string>, db: map<string, string>)
    ensures forall t :: t in MissingTokens(tokens, db) <==> t in tokens && !HasValue(db, t)
    decreases |tokens|
  {
    if |tokens| > 0 {
      MissingTokensAreThoseWithoutValue(tokens[1..], db);
      assert forall t :: t in tokens <==> t == tokens[0] || t in tokens[1..];
    }
  }

  class RedactorService {
    var db: map<string, string>

    constructor (db0: map<string, string>)
      ensures db == db0
    {
      db := db0;
    }

    /**
     * `store_in_redis`: mints `[REDACTED_` + the first 4 hex digits of a fresh
     * uuid + `]`, writes the PII text under it with no existence check (an
     * existing value is overwritten), and appends the token to this call's key
     * list.
     */
    method StoreInRedis(piiText: string, uuidHex: string, createdKeys: seq<string>) returns (token: string, keys: seq<string>)
      requires IsUuidHex(uuidHex)
      modifies this
      ensures token == MakeToken(TokenIdOf(uuidHex))
      ensures db == old(db)[token := piiText]
      ensures keys == createdKeys + [token]
    {
      var tokenId := TokenIdOf(uuidHex);
      token := Prefix + tokenId + "]";
      db := db[token := piiText];
      keys := createdKeys + [token];
    }

    /**
     * `redact_and_store`. The analyzer's results and the anonymizer's choice of
     * spans are inputs: `text` is `literals` interleaved with `piiValues`, the
     * span texts in text order. The anonymizer applies the spans by descending
     * start offset, so the mint callback is called on the last span first;
     * call i draws the random id `uuids[i]`. The key list holds exactly the
     * tokens minted by this call, in minting order, so the text's tokens are
     * that list reversed; the scores are one per analyzer result, however many
     * were minted.
     */
    method RedactAndStore(text: string, results: seq<Policies.EntitySpan>, literals: seq<string>,
                          piiValues: seq<string>, uuids: seq<string>)
      returns (redactedText: string, scores: seq<real>, createdKeys: seq<string>)
      requires |literals| == |piiValues| + 1 && text == Splice(literals, piiValues)
      requires |uuids| == |piiValues| && forall i :: 0 <= i < |uuids| ==> IsUuidHex(uuids[i])
      modifies this
      ensures createdKeys == MintedTokens(uuids)
      ensures db == Stored(old(db), createdKeys, Reverse(piiValues))
      ensures redactedText == Splice(literals, Reverse(createdKeys))
      ensures |scores| == |results| && forall i :: 0 <= i < |results| ==> scores[i] == results[i].score
    {
      createdKeys := [];
      ghost var callValues := Reverse(piiValues);
      for i := 0 to |piiValues|
        invariant createdKeys == MintedTokens(uuids)[..i]
        invariant db == Stored(old(db), createdKeys, callValues[..i])
      {
        var token;
        ghost var keys0 := createdKeys;
        var piiText := piiValues[|piiValues| - 1 - i];
        assert piiText == callValues[i];
        token, createdKeys := StoreInRedis(piiText, uuids[i], createdKeys);
        RedactStep(old(db), keys0, callValues, uuids, i);
      }
      assert callValues[..|piiValues|] == callValues;
      redactedText := Splice(literals, Reverse(createdKeys));
      scores := seq(|results|, i requires 0 <= i < |results| => results[i].score);
    }

    /**
     * `restore`: extracts the tokens with `re.findall`, then for each one in
     * turn replaces all its occurrences when the store holds a truthy value for
     * it. The store is only read. The two counts follow the unit tests: how
     * many extracted tokens had a value, and which did not, in order.
     */
    method Restore(redactedText: string) returns (restoredText: string, tokensFound: nat, tokensMissing: seq<string>)
      ensures restoredText == Restored(redactedText, db)
      ensures tokensMissing == MissingTokens(FindTokens(redactedText), db)
      ensures tokensFound + |tokensMissing| == |FindTokens(redactedText)|
    {
      var tokens := FindTokens(redactedText);
      restoredText := redactedText;
      tokensFound, tokensMissing := 0, [];
      for i := 0 to |tokens|
        invariant Substitute(restoredText, tokens[i..], db) == Restored(redactedText, db)
        invariant tokensMissing + MissingTokens(tokens[i..], db) == MissingTokens(tokens, db)
        invariant tokensFound + |tokensMissing| == i
      {
        var token := tokens[i];
        RestoreStep(restoredText, tokensMissing, tokens, i, db);
        if token in db && db[token] != "" {
          restoredText := Replace(restoredText, token, db[token]);
          tokensFound := tokensFound + 1;
        } else {
          tokensMissing := tokensMissing + [token];
        }
      }
    }
  }

  // ---------------------------------------------------------------------------
  // Properties of restoration

  /** Tokens without a truthy value change nothing, wherever they are in the list. */
  lemma {:induction false} SubstituteWithoutValues(text: string, tokens: seq<string>, db: map<string, string>)
    requires forall i :: 0 <= i < |tokens| ==> !HasValue(db, tokens[i])
    ensures Substitute(text, tokens, db) == text
    decreases |tokens|
  {
    if |tokens| > 0 {
      SubstituteWithoutValues(text, tokens[1..], db);
    }
  }

  /** A text none of whose tokens has a truthy value is restored to itself. */
  lemma RestoreWithoutValuesIsIdentity(text: string, db: map<string, string>)
    requires forall t :: t in FindTokens(text) ==> !HasValue(db, t)
    ensures Restored(text, db) == text
    ensures MissingTokens(FindTokens(text), db) == FindTokens(text)
  {
    var tokens := FindTokens(text);
    SubstituteWithoutValues(text, tokens, db);
    MissingAll(tokens, db);
  }

  lemma {:induction false} MissingAll(tokens: seq<string>, db: map<string, string>)
    requires forall i :: 0 <= i < |tokens| ==> !HasValue(db, tokens[i])
    ensures MissingTokens(tokens, db) == tokens
    decreases |tokens|
  {
    if |tokens| > 0 {
      MissingAll(tokens[1..], db);
    }
  }

  /** A text with no token-shaped substring at all is restored to itself, with nothing missing. */
  lemma RestoreWithoutTokensIsIdentity(text: string, db: map<string, string>)
    requires forall i, j :: 0 <= i <= j <= |text| ==> !IsTokenShape(text[i..j])
    ensures FindTokens(text) == []
    ensures Restored(text, db) == text
  {
    if FindTokens(text) != [] {
      var i, j := FoundTokenIsInfix(text);
      assert false;
    }
  }

  /** Two stores that agree (in truthiness and value) on the tokens substituted give the same result. */
  lemma {:induction false} SubstituteSameValues(text: string, tokens: seq<string>, db1: map<string, string>, db2: map<string, string>)
    requires forall i :: 0 <= i < |tokens| ==>
               HasValue(db1, tokens[i]) == HasValue(db2, tokens[i]) &&
               (HasValue(db1, tokens[i]) ==> db1[tokens[i]] == db2[tokens[i]])
    ensures Substitute(text, tokens, db1) == Substitute(text, tokens, db2)
    decreases |tokens|
  {
    if |tokens| > 0 {
      var token := tokens[0];
      var next := if HasValue(db1, token) then Replace(text, token, db1[token]) else text;
      SubstituteSameValues(next, tokens[1..], db1, db2);
    }
  }

  /**
   * Restoring a text reads only the entries of the tokens found in it: deleting
   * any set of other keys from the store (another call's purge, or expiry)
   * leaves the restoration unchanged.
   */
  lemma RestoreIgnoresOtherKeys(text: string, db: map<string, string>, removed: set<string>)
    requires forall t :: t in FindTokens(text) ==> t !in removed
    ensures Restored(text, db - removed) == Restored(text, db)
    ensures MissingTokens(FindTokens(text), db - removed) == MissingTokens(FindTokens(text), db)
  {
    var tokens := FindTokens(text);
    SubstituteSameValues(text, tokens, db - removed, db);
    MissingSameValues(tokens, db - removed, db);
  }

  lemma {:induction false} MissingSameValues(tokens: seq<string>, db1: map<string, string>, db2: map<string, string>)
    requires forall i :: 0 <= i < |tokens| ==> HasValue(db1, tokens[i]) == HasValue(db2, tokens[i])
    ensures MissingTokens(tokens, db1) == MissingTokens(tokens, db2)
    decreases |tokens|
  {
    if |tokens| > 0 {
      MissingSameValues(tokens[1..], db1, db2);
    }
  }

  /** Once every token of a text has been deleted from the store, the text restores to itself and all its tokens are missing. */
  lemma RestoreAfterPurgeIsIdentity(text: string, db: map<string, string>, removed: set<string>)
    requires forall t :: t in FindTokens(text) ==> t in removed
    ensures Restored(text, db - removed) == text
    ensures MissingTokens(FindTokens(text), db - removed) == FindTokens(text)
  {
    RestoreWithoutValuesIsIdentity(text, db - removed);
  }

  // ---------------------------------------------------------------------------
  // Redact, then restore

  /** A piece of text that `Replace` of a token walks over unless it is that token: bracket-free, or token-shaped. */
  predicate IsSlot(x: string) {
    '[' !in x || IsTokenShape(x)
  }

  function Swap(xs: seq<string>, token: string, value: string): (r: seq<string>)
    ensures |r| == |xs|
    ensures forall j :: 0 <= j < |xs| ==> r[j] == if xs[j] == token then value else xs[j]
  {
    seq(|xs|, j requires 0 <= j < |xs| => if xs[j] == token then value else xs[j])
  }

  /** Replacing a token in a slot followed by more text: the slot becomes the value exactly when it is the token. */
  lemma ReplaceSlot(x: string, rest: string, token: string, value: string)
    requires IsTokenShape(token) && IsSlot(x)
    ensures Replace(x + rest, token, value) == (if x == token then value else x) + Replace(rest, token, value)
  {
    TokenShapeHasOneBracket(token);
    if x == token {
      ReplaceFront(rest, token, value);
    } else if '[' !in x {
      ReplaceSkips(x, rest, token, value);
    } else {
      ReplaceOtherToken(x, rest, token, value);
    }
  }

  /** Another token is walked over. */
  lemma ReplaceOtherToken(x: string, rest: string, token: string, value: string)
    requires IsTokenShape(token) && IsTokenShape(x) && x != token
    ensures Replace(x + rest, token, value) == x + Replace(rest, token, value)
  {
    var s := x + rest;
    TokenNotPrefixOfOther(x, token, rest);
    ReplaceKeepsFirst(s, token, value);
    assert s[1..] == x[1..] + rest;
    TokenShapeHasOneBracket(x);
    TokenShapeHasOneBracket(token);
    ReplaceSkips(x[1..], rest, token, value);
    ConsOfTail(x, Replace(rest, token, value));
  }

  /** Over bracket-free literals, a token's replacement changes exactly the slots that hold it. */
  lemma {:induction false} ReplaceInSplice(literals: seq<string>, xs: seq<string>, token: string, value: string)
    requires |literals| == |xs| + 1
    requires IsTokenShape(token)
    requires forall i :: 0 <= i < |literals| ==> '[' !in literals[i]
    requires forall j :: 0 <= j < |xs| ==> IsSlot(xs[j])
    ensures Replace(Splice(literals, xs), token, value) == Splice(literals, Swap(xs, token, value))
    decreases |xs|
  {
    var ys := Swap(xs, token, value);
    TokenShapeHasOneBracket(token);
    if |xs| == 0 {
      ReplaceAbsent(literals[0], token, value);
    } else {
      var rest := Splice(literals[1..], xs[1..]);
      ReplaceSkips(literals[0], xs[0] + rest, token, value);
      ReplaceSlot(xs[0], rest, token, value);
      ReplaceInSplice(literals[1..], xs[1..], token, value);
      assert ys[1..] == Swap(xs[1..], token, value);
    }
  }

  /** Over bracket-free literals, the scanner finds exactly the tokens spliced in, in order. */
  lemma {:induction false} FindTokensInSplice(literals: seq<string>, tokens: seq<string>)
    requires |literals| == |tokens| + 1
    requires forall i :: 0 <= i < |literals| ==> '[' !in literals[i]
    requires forall j :: 0 <= j < |tokens| ==> IsTokenShape(tokens[j])
    ensures FindTokens(Splice(literals, tokens)) == tokens
    decreases |tokens|
  {
    if |tokens| == 0 {
      NoBracketNoTokens(literals[0]);
    } else {
      var rest := Splice(literals[1..], tokens[1..]);
      assert Splice(literals, tokens) == literals[0] + (tokens[0] + rest);
      FindTokensSkips(literals[0], tokens[0] + rest);
      FindTokensFront(tokens[0], rest);
      FindTokensInSplice(literals[1..], tokens[1..]);
      assert tokens == [tokens[0]] + tokens[1..];
    }
  }

  /** With distinct keys, each key holds its own value after the writes. */
  lemma {:induction false} StoredHolds(db: map<string, string>, keys: seq<string>, values: seq<string>, k: nat)
    requires |keys| == |values| && k < |keys| && NoDuplicates(keys)
    ensures keys[k] in Stored(db, keys, values) && Stored(db, keys, values)[keys[k]] == values[k]
    decreases |keys|
  {
    var n := |keys| - 1;
    if k < n {
      StoredHolds(db, keys[..n], values[..n], k);
    }
  }

  predicate NoDuplicates<T(==)>(s: seq<T>) {
    forall i, j :: 0 <= i < j < |s| ==> s[i] != s[j]
  }

  /** What each token's slot holds once restored: its value if it has a truthy one, otherwise the token itself. */
  function Filled(tokens: seq<string>, db: map<string, string>): (r: seq<string>)
    ensures |r| == |tokens|
    ensures forall j :: 0 <= j < |tokens| ==> r[j] == if HasValue(db, tokens[j]) then db[tokens[j]] else tokens[j]
  {
    seq(|tokens|, j requires 0 <= j < |tokens| => if HasValue(db, tokens[j]) then db[tokens[j]] else tokens[j])
  }

  /** The slots after the first k steps of the restore loop: the tokens among the first k that have a value are replaced. */
  function SlotsAfter(tokens: seq<string>, db: map<string, string>, k: nat): (r: seq<string>)
    requires k <= |tokens|
    ensures |r| == |tokens|
  {
    seq(|tokens|, j requires 0 <= j < |tokens| =>
      if HasValue(db, tokens[j]) && tokens[j] in tokens[..k] then db[tokens[j]] else tokens[j])
  }

  /** The substitution walk: from the slots after k steps, the rest of the loop fills every slot. */
  lemma {:induction false} SubstituteWalk(literals: seq<string>, tokens: seq<string>, db: map<string, string>, k: nat)
    requires |literals| == |tokens| + 1 && k <= |tokens|
    requires forall i :: 0 <= i < |literals| ==> '[' !in literals[i]
    requires forall j :: 0 <= j < |tokens| ==> IsTokenShape(tokens[j])
    requires forall j :: 0 <= j < |tokens| && HasValue(db, tokens[j]) ==> '[' !in db[tokens[j]]
    ensures Substitute(Splice(literals, SlotsAfter(tokens, db, k)), tokens[k..], db) == Splice(literals, Filled(tokens, db))
    decreases |tokens| - k
  {
    var xs := SlotsAfter(tokens, db, k);
    if k == |tokens| {
      SlotsAtEnd(tokens, db);
    } else {
      var token := tokens[k];
      SubstituteStep(Splice(literals, xs), tokens, k, db);
      SlotsStep(tokens, db, k);
      if HasValue(db, token) {
        SlotsAreSlots(tokens, db, k);
        ReplaceInSplice(literals, xs, token, db[token]);
      }
      SubstituteWalk(literals, tokens, db, k + 1);
    }
  }

  /** Every slot on the way holds a token-shaped string or a bracket-free value. */
  lemma SlotsAreSlots(tokens: seq<string>, db: map<string, string>, k: nat)
    requires k <= |tokens|
    requires forall j :: 0 <= j < |tokens| ==> IsTokenShape(tokens[j])
    requires forall j :: 0 <= j < |tokens| && HasValue(db, tokens[j]) ==> '[' !in db[tokens[j]]
    ensures forall j :: 0 <= j < |tokens| ==> IsSlot(SlotsAfter(tokens, db, k)[j])
  {
  }

  /**
   * Step k of the loop: a token with a value turns every slot still holding
   * it into the value; a token without one changes nothing.
   */
  lemma SlotsStep(tokens: seq<string>, db: map<string, string>, k: nat)
    requires k < |tokens|
    requires forall j :: 0 <= j < |tokens| ==> IsTokenShape(tokens[j])
    requires forall j :: 0 <= j < |tokens| && HasValue(db, tokens[j]) ==> '[' !in db[tokens[j]]
    ensures var token := tokens[k];
      SlotsAfter(tokens, db, k + 1) ==
      if HasValue(db, token) then Swap(SlotsAfter(tokens, db, k), token, db[token]) else SlotsAfter(tokens, db, k)
  {
    var token := tokens[k];
    var xs, ys := SlotsAfter(tokens, db, k), SlotsAfter(tokens, db, k + 1);
    assert tokens[..k + 1] == tokens[..k] + [token];
    if HasValue(db, token) {
      TokenShapeHasOneBracket(token);
      forall j | 0 <= j < |xs| ensures Swap(xs, token, db[token])[j] == ys[j] {
        if HasValue(db, tokens[j]) && tokens[j] in tokens[..k] {
          assert '[' !in xs[j];
        }
      }
    }
  }

  lemma SlotsAtEnd(tokens: seq<string>, db: map<string, string>)
    ensures SlotsAfter(tokens, db, |tokens|) == Filled(tokens, db)
    ensures tokens[|tokens|..] == []
  {
    assert tokens[..|tokens|] == tokens;
  }

  /**
   * Partial restoration in general: over bracket-free literals, with stored
   * values that contain no `[` (so that no substituted value is mistaken for
   * a later token), restoring a text of n tokens replaces each token that has
   * a truthy value by it, leaves every other token in place, and reports
   * exactly those others as missing, in order.
   */
  lemma RestoreSplice(literals: seq<string>, tokens: seq<string>, db: map<string, string>)
    requires |literals| == |tokens| + 1
    requires forall i :: 0 <= i < |literals| ==> '[' !in literals[i]
    requires forall j :: 0 <= j < |tokens| ==> IsTokenShape(tokens[j])
    requires forall j :: 0 <= j < |tokens| && HasValue(db, tokens[j]) ==> '[' !in db[tokens[j]]
    ensures Restored(Splice(literals, tokens), db) == Splice(literals, Filled(tokens, db))
    ensures MissingTokens(FindTokens(Splice(literals, tokens)), db) == MissingTokens(tokens, db)
  {
    FindTokensInSplice(literals, tokens);
    assert SlotsAfter(tokens, db, 0) == tokens;
    assert tokens[0..] == tokens;
    SubstituteWalk(literals, tokens, db, 0);
  }

  /**
   * Redact, then restore: when the literal text and the PII values contain no
   * `[`, every value is non-empty and the minted ids are pairwise distinct,
   * restoring the redacted text against the store the redaction produced gives
   * back the original text, with no token missing. The calls mint over the
   * values last to first, so the text holds the minted tokens reversed.
   */
  lemma RedactThenRestore(literals: seq<string>, piiValues: seq<string>, uuids: seq<string>, db0: map<string, string>)
    requires |literals| == |piiValues| + 1 && |uuids| == |piiValues|
    requires forall i :: 0 <= i < |uuids| ==> IsUuidHex(uuids[i])
    requires forall i, j :: 0 <= i < j < |uuids| ==> TokenIdOf(uuids[i]) != TokenIdOf(uuids[j])
    requires forall i :: 0 <= i < |literals| ==> '[' !in literals[i]
    requires forall i :: 0 <= i < |piiValues| ==> '[' !in piiValues[i] && piiValues[i] != ""
    ensures var keys := MintedTokens(uuids);
      Restored(Splice(literals, Reverse(keys)), Stored(db0, keys, Reverse(piiValues))) == Splice(literals, piiValues)
    ensures var keys := MintedTokens(uuids);
      MissingTokens(FindTokens(Splice(literals, Reverse(keys))), Stored(db0, keys, Reverse(piiValues))) == []
  {
    MintedAreDistinctTokens(uuids);
    RestoreStoredReversed(literals, piiValues, MintedTokens(uuids), db0);
  }

  /** The round trip for any distinct token-shaped keys written over the values in reverse. */
  lemma RestoreStoredReversed(literals: seq<string>, values: seq<string>, keys: seq<string>, db0: map<string, string>)
    requires |literals| == |values| + 1 && |keys| == |values|
    requires forall i :: 0 <= i < |literals| ==> '[' !in literals[i]
    requires forall i :: 0 <= i < |values| ==> '[' !in values[i] && values[i] != ""
    requires forall j :: 0 <= j < |keys| ==> IsTokenShape(keys[j])
    requires NoDuplicates(keys)
    ensures Restored(Splice(literals, Reverse(keys)), Stored(db0, keys, Reverse(values))) == Splice(literals, values)
    ensures MissingTokens(FindTokens(Splice(literals, Reverse(keys))), Stored(db0, keys, Reverse(values))) == []
  {
    var tokens := Reverse(keys);
    var db := Stored(db0, keys, Reverse(values));
    ReversedTokens(keys);
    StoredReversedHolds(db0, keys, values);
    FilledWhenAllStored(tokens, db, values);
    RestoreSplice(literals, tokens, db);
  }

  /** Writing the values in reverse under distinct keys: the i-th key from the end holds the i-th value. */
  lemma StoredReversedHolds(db0: map<string, string>, keys: seq<string>, values: seq<string>)
    requires |keys| == |values| && NoDuplicates(keys)
    ensures forall j :: 0 <= j < |keys| ==>
      Reverse(keys)[j] in Stored(db0, keys, Reverse(values)) && Stored(db0, keys, Reverse(values))[Reverse(keys)[j]] == values[j]
  {
    var n := |keys|;
    forall j | 0 <= j < n
      ensures Reverse(keys)[j] in Stored(db0, keys, Reverse(values))
      ensures Stored(db0, keys, Reverse(values))[Reverse(keys)[j]] == values[j]
    {
      StoredHolds(db0, keys, Reverse(values), n - 1 - j);
    }
  }

  /** When every token holds its non-empty value, every slot is filled with it and none is missing. */
  lemma FilledWhenAllStored(tokens: seq<string>, db: map<string, string>, values: seq<string>)
    requires |tokens| == |values|
    requires forall j :: 0 <= j < |tokens| ==> tokens[j] in db && db[tokens[j]] == values[j]
    requires forall j :: 0 <= j < |values| ==> values[j] != ""
    ensures Filled(tokens, db) == values
    ensures MissingTokens(tokens, db) == []
  {
    NoneMissing(tokens, db);
  }

  /** Reversing a list of token-shaped strings keeps them token-shaped. */
  lemma ReversedTokens(tokens: seq<string>)
    requires forall j :: 0 <= j < |tokens| ==> IsTokenShape(tokens[j])
    ensures forall j :: 0 <= j < |tokens| ==> IsTokenShape(Reverse(tokens)[j])
  {
  }

  /** Minted tokens are token-shaped, 15 characters long, with a single `[`; distinct ids give distinct tokens. */
  lemma MintedAreDistinctTokens(uuids: seq<string>)
    requires forall i :: 0 <= i < |uuids| ==> IsUuidHex(uuids[i])
    requires forall i, j :: 0 <= i < j < |uuids| ==> TokenIdOf(uuids[i]) != TokenIdOf(uuids[j])
    ensures forall j :: 0 <= j < |uuids| ==>
              IsTokenShape(MintedTokens(uuids)[j]) && |MintedTokens(uuids)[j]| == |Prefix| + 5 &&
              MintedTokens(uuids)[j][0] == '[' && '[' !in MintedTokens(uuids)[j][1..]
    ensures NoDuplicates(MintedTokens(uuids))
  {
    var tokens := MintedTokens(uuids);
    forall j | 0 <= j < |tokens|
      ensures IsTokenShape(tokens[j]) && tokens[j][0] == '[' && '[' !in tokens[j][1..]
      ensures |tokens[j]| == |Prefix| + 5
    {
      MintedTokenIsFound(TokenIdOf(uuids[j]));
    }
    forall i, j | 0 <= i < j < |tokens| ensures tokens[i] != tokens[j] {
      if tokens[i] == tokens[j] {
        MakeTokenInjective(TokenIdOf(uuids[i]), TokenIdOf(uuids[j]));
      }
    }
  }

  lemma {:induction false} NoneMissing(tokens: seq<string>, db: map<string, string>)
    requires forall j :: 0 <= j < |tokens| ==> tokens[j] in db && db[tokens[j]] != ""
    ensures MissingTokens(tokens, db) == []
    decreases |tokens|
  {
    if |tokens| > 0 {
      NoneMissing(tokens[1..], db);
    }
  }

  /** Text with nothing to redact comes back unchanged, mints no token and leaves the store alone. */
  lemma RedactWithoutPiiIsIdentity(text: string, db: map<string, string>)
    ensures Splice([text], []) == text
    ensures MintedTokens([]) == [] && Stored(db, [], []) == db
  {
  }

  /**
   * Ids are only 4 hex digits and the write has no existence check: two
   * random ids that agree on their first 4 digits mint the same token, and
   * the later write replaces the earlier value. The calls run from the last
   * span to the first, so of two spans `p1` then `p2` in the text, the value
   * that survives is `p1`'s.
   */
  lemma CollidingIdsOverwrite(db: map<string, string>, u1: string, u2: string, p1: string, p2: string)
    requires IsUuidHex(u1) && IsUuidHex(u2) && u1[..4] == u2[..4]
    ensures var tokens := MintedTokens([u1, u2]);
      && tokens[0] == tokens[1]
      && tokens[0] in Stored(db, tokens, Reverse([p1, p2]))
      && Stored(db, tokens, Reverse([p1, p2]))[tokens[0]] == p1
  {
    var tokens := MintedTokens([u1, u2]);
    assert Reverse([p1, p2]) == [p2, p1];
    assert tokens[..1] == [tokens[0]] && [p2, p1][..1] == [p2];
    StoredSnoc(db, [tokens[0]], [p2], tokens[1], p1);
    assert [tokens[0]] + [tokens[1]] == tokens && [p2] + [p1] == [p2, p1];
  }

  /**
   * Partial restoration, as in the unit tests: with only the first of two
   * tokens in the store, the first is replaced, the second stays literally in
   * place and is reported missing.
   */
  lemma PartialRestoration(id1: string, id2: string, db: map<string, string>)
    requires id1 == "a1b2" && id2 == "c3d4"
    requires MakeToken(id1) in db && db[MakeToken(id1)] != ""
    requires MakeToken(id2) !in db
    ensures var text := "Email " + MakeToken(id1) + " and phone " + MakeToken(id2);
      Restored(text, db) == "Email " + db[MakeToken(id1)] + " and phone " + MakeToken(id2) &&
      MissingTokens(FindTokens(text), db) == [MakeToken(id2)]
  {
    var t1, t2 := MakeToken(id1), MakeToken(id2);
    MintedTokenIsFound(id1);
    MintedTokenIsFound(id2);
    var literals := ["Email ", " and phone ", ""];
    assert forall i :: 0 <= i < 3 ==> '[' !in literals[i];
    assert t1 != t2;
    TwoTokenText(literals, t1, t2, "Email " + t1 + " and phone " + t2);
    TwoTokenText(literals, db[t1], t2, "Email " + db[t1] + " and phone " + t2);
    RestoreFirstOfTwo(literals, t1, t2, db);
  }

  /** Of two distinct tokens, only the one with a value is substituted; the other is reported missing. */
  lemma RestoreFirstOfTwo(literals: seq<string>, t1: string, t2: string, db: map<string, string>)
    requires |literals| == 3 && forall i :: 0 <= i < 3 ==> '[' !in literals[i]
    requires IsTokenShape(t1) && IsTokenShape(t2) && t1 != t2
    requires HasValue(db, t1) && !HasValue(db, t2)
    ensures Restored(Splice(literals, [t1, t2]), db) == Splice(literals, [db[t1], t2])
    ensures MissingTokens(FindTokens(Splice(literals, [t1, t2])), db) == [t2]
  {
    var text := Splice(literals, [t1, t2]);
    FindTokensInSplice(literals, [t1, t2]);
    ReplaceInSplice(literals, [t1, t2], t1, db[t1]);
    assert Swap([t1, t2], t1, db[t1]) == [db[t1], t2];
    SubstituteTwoTokens(text, t1, t2, db);
    assert [t1, t2][1..] == [t2];
    assert [t2][1..] == [];
  }

  lemma SubstituteTwoTokens(text: string, t1: string, t2: string, db: map<string, string>)
    requires HasValue(db, t1) && !HasValue(db, t2)
    ensures Substitute(text, [t1, t2], db) == Replace(text, t1, db[t1])
  {
    assert [t1, t2][1..] == [t2];
    var r1 := Replace(text, t1, db[t1]);
    assert Substitute(text, [t1, t2], db) == Substitute(r1, [t2], db);
    assert [t2][1..] == [];
    assert Substitute(r1, [t2], db) == Substitute(r1, [], db);
  }

  lemma TwoTokenText(literals: seq<string>, x: string, y: string, text: string)
    requires |literals| == 3 && text == literals[0] + x + literals[1] + y + literals[2]
    ensures Splice(literals, [x, y]) == text
  {
    var l1 := literals[1..];
    assert [x, y][1..] == [y];
    assert l1[1..] == literals[2..];
    assert Splice(l1, [y]) == literals[1] + (y + literals[2]);
    ConcatFive(literals[0], x, literals[1], y, literals[2]);
  }
}
