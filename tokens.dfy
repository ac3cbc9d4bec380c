/**
 * The redaction token text format and the scanner for the pattern
 * `\[REDACTED_[a-z0-9]+\]` that restoration and the audit log both use:
 * `re.findall` returns the leftmost, non-overlapping matches in order.
 */
module Tokens {
  import opened Wrappers

  const Prefix: string := "[REDACTED_"

  /** The regex character class `[a-z0-9]`. */
  predicate IsLowerAlnum(c: char) {
    ('a' <= c <= 'z') || ('0' <= c <= '9')
  }

  /** A lower-case hexadecimal digit, as `uuid.UUID.hex` produces. */
  predicate IsHexDigit(c: char) {
    ('0' <= c <= '9') || ('a' <= c <= 'f')
  }

  /** The whole of `t` matches `\[REDACTED_[a-z0-9]+\]`. */
  predicate IsTokenShape(t: string) {
    && |t| >= |Prefix| + 2
    && t[..|Prefix|] == Prefix
    && t[|t| - 1] == ']'
    && forall i :: |Prefix| <= i < |t| - 1 ==> IsLowerAlnum(t[i])
  }

  /** The length of the longest run of `[a-z0-9]` characters at the front of `s`. */
  function AlnumRun(s: string): (n: nat)
    ensures n <= |s|
    ensures forall i :: 0 <= i < n ==> IsLowerAlnum(s[i])
    ensures n < |s| ==> !IsLowerAlnum(s[n])
  {
    if |s| > 0 && IsLowerAlnum(s[0]) then 1 + AlnumRun(s[1..]) else 0
  }

  /**
   * The length of the match of the token pattern anchored at the start of `s`,
   * if there is one. `[a-z0-9]+` is greedy and `]` lies outside its class, so
   * the only candidate end is the one after the longest alphanumeric run.
   */
  function MatchAt(s: string): (m: Option<nat>)
    ensures m.Some? ==> |Prefix| + 2 <= m.value <= |s| && IsTokenShape(s[..m.value])
  {
    if |s| >= |Prefix| && s[..|Prefix|] == Prefix then
      var n := AlnumRun(s[|Prefix|..]);
      if n >= 1 && |Prefix| + n < |s| && s[|Prefix| + n] == ']' then
        var t := s[..|Prefix| + n + 1];
        assert t[..|Prefix|] == Prefix;
        assert forall i :: |Prefix| <= i < |t| - 1 ==> t[i] == s[|Prefix|..][i - |Prefix|];
        Some(|Prefix| + n + 1)
      else None
    else None
  }

  /** Every prefix of `s` that is token-shaped is the match `MatchAt` finds. */
  lemma MatchAtComplete(s: string, j: nat)
    requires j <= |s| && IsTokenShape(s[..j])
    ensures MatchAt(s) == Some(j)
  {
    var t := s[..j];
    assert s[..|Prefix|] == t[..|Prefix|];
    var rest := s[|Prefix|..];
    var n := AlnumRun(rest);
    forall i | 0 <= i < j - 1 - |Prefix|
      ensures IsLowerAlnum(rest[i])
    {
      assert rest[i] == t[|Prefix| + i];
    }
    assert rest[j - 1 - |Prefix|] == ']';
    assert !IsLowerAlnum(rest[j - 1 - |Prefix|]);
    assert n == j - 1 - |Prefix|;
  }

  /** `re.findall(r"\[REDACTED_[a-z0-9]+\]", s)`: the leftmost, non-overlapping matches, in order. */
  function FindTokens(s: string): (tokens: seq<string>)
    ensures forall i :: 0 <= i < |tokens| ==> IsTokenShape(tokens[i])
    decreases |s|
  {
    if |s| == 0 then []
    else match MatchAt(s)
      case Some(n) => [s[..n]] + FindTokens(s[n..])
      case None => FindTokens(s[1..])
  }

  /** Text without a `[` holds no match and is skipped by the scanner. */
  lemma {:induction false} FindTokensSkips(a: string, b: string)
    requires '[' !in a
    ensures FindTokens(a + b) == FindTokens(b)
    decreases |a|
  {
    if |a| > 0 {
      var s := a + b;
      assert s[0] == a[0] != '[';
      assert |s| >= |Prefix| ==> s[..|Prefix|][0] != Prefix[0];
      assert MatchAt(s) == None;
      assert s[1..] == a[1..] + b;
      FindTokensSkips(a[1..], b);
    } else {
      assert a + b == b;
    }
  }

  /** A text with no `[` has no tokens. */
  lemma NoBracketNoTokens(s: string)
    requires '[' !in s
    ensures FindTokens(s) == []
  {
    FindTokensSkips(s, "");
    assert s + "" == s;
  }

  /** A token at the front of the text is extracted whole, and scanning resumes after it. */
  lemma FindTokensFront(t: string, b: string)
    requires IsTokenShape(t)
    ensures FindTokens(t + b) == [t] + FindTokens(b)
  {
    var s := t + b;
    assert s[..|t|] == t;
    MatchAtComplete(s, |t|);
    assert s[|t|..] == b;
  }

  /** If a token-shaped substring occurs anywhere, the scanner finds at least one token. */
  lemma {:induction false} InfixTokenIsFound(s: string, i: nat, j: nat)
    requires i <= j <= |s| && IsTokenShape(s[i..j])
    ensures FindTokens(s) != []
    decreases i
  {
    if i == 0 {
      assert s[..j] == s[i..j];
      MatchAtComplete(s, j);
    } else {
      match MatchAt(s)
      case Some(n) =>
      case None =>
        assert s[1..][i - 1..j - 1] == s[i..j];
        InfixTokenIsFound(s[1..], i - 1, j - 1);
    }
  }

  /** Conversely, the first token found is a token-shaped substring of the text. */
  lemma {:induction false} FoundTokenIsInfix(s: string) returns (i: nat, j: nat)
    requires FindTokens(s) != []
    ensures i <= j <= |s| && s[i..j] == FindTokens(s)[0] && IsTokenShape(s[i..j])
    decreases |s|
  {
    assert |s| > 0;
    match MatchAt(s)
    case Some(n) =>
      assert FindTokens(s)[0] == s[..n] == s[0..n];
      i, j := 0, n;
    case None =>
      assert FindTokens(s) == FindTokens(s[1..]);
      var i', j' := FoundTokenIsInfix(s[1..]);
      assert s[1..][i'..j'] == s[i' + 1..j' + 1];
      i, j := i' + 1, j' + 1;
  }

  /** The only `[` of a token-shaped string is its first character. */
  lemma TokenShapeHasOneBracket(t: string)
    requires IsTokenShape(t)
    ensures t[0] == '[' && '[' !in t[1..]
  {
    assert t[0] == t[..|Prefix|][0] == Prefix[0];
    forall i | 1 <= i < |t| ensures t[i] != '[' {
      if i < |Prefix| {
        assert t[i] == t[..|Prefix|][i] == Prefix[i];
      } else if i < |t| - 1 {
        assert IsLowerAlnum(t[i]);
      }
    }
  }

  /**
   * A token-shaped string never starts with a different token-shaped string:
   * a shorter one would end in `]` inside the other's alphanumeric run, a
   * longer one would need an alphanumeric character where the other has `]`.
   */
  lemma TokenNotPrefixOfOther(x: string, t: string, rest: string)
    requires IsTokenShape(x) && IsTokenShape(t) && x != t
    ensures !(t <= x + rest)
  {
    var s := x + rest;
    if |t| == |x| {
      assert s[..|t|] == x;
    } else if |t| < |x| {
      var k := |t| - 1;
      assert s[..|t|][k] == x[k] && IsLowerAlnum(x[k]);
    } else if |t| <= |s| {
      var k := |x| - 1;
      assert s[..|t|][k] == x[k] == ']';
      assert IsLowerAlnum(t[k]);
    }
  }

  /** `f"[REDACTED_{token_id}]"`. */
  function MakeToken(tokenId: string): (token: string)
    ensures |token| == |tokenId| + |Prefix| + 1 && token[|token| - 1] == ']'
    ensures token[..|Prefix|] == Prefix && token[|Prefix|..|token| - 1] == tokenId
  {
    Prefix + tokenId + "]"
  }

  /** A token id as minted: four lower-case hexadecimal digits. */
  predicate IsTokenId(tokenId: string) {
    |tokenId| == 4 && forall i :: 0 <= i < 4 ==> IsHexDigit(tokenId[i])
  }

  /**
   * A minted token: `[REDACTED_` + 4 hex digits + `]`. It matches the
   * extraction pattern by itself, is found whole by the scanner, and its only
   * `[` is its first character.
   */
  lemma MintedTokenIsFound(tokenId: string)
    requires IsTokenId(tokenId)
    ensures IsTokenShape(MakeToken(tokenId))
    ensures FindTokens(MakeToken(tokenId)) == [MakeToken(tokenId)]
    ensures MakeToken(tokenId)[0] == '[' && '[' !in MakeToken(tokenId)[1..]
  {
    var t := MakeToken(tokenId);
    forall i | |Prefix| <= i < |t| - 1 ensures IsLowerAlnum(t[i]) {
      assert t[i] == tokenId[i - |Prefix|];
    }
    FindTokensFront(t, "");
    assert t + "" == t;
    TokenShapeHasOneBracket(t);
  }

  /** Distinct ids give distinct tokens. */
  lemma MakeTokenInjective(a: string, b: string)
    requires MakeToken(a) == MakeToken(b)
    ensures a == b
  {
    var t := MakeToken(a);
    assert a == t[|Prefix|..|t| - 1] == b;
  }
}
