/**
 * The few Python string built-ins the core relies on, written out so that
 * their behaviour is part of the model: `str.replace`, `str.strip`,
 * `sep.join`, `str(int)` and the substring test `t in s`.
 */
module PyStr {

  /** `t in s` for strings. */
  ghost predicate IsInfix(t: string, s: string) {
    exists i :: 0 <= i <= |s| - |t| && t <= s[i..]
  }

  lemma InfixAt(t: string, s: string, i: nat)
    requires i + |t| <= |s| && s[i..i + |t|] == t
    ensures IsInfix(t, s)
  {
    assert t <= s[i..];
  }

  /**
   * `s.replace(pat, rep)`: every leftmost, non-overlapping occurrence of `pat`
   * is replaced, scanning left to right; an empty `pat` inserts `rep` before
   * every character and at the end, as CPython does.
   */
  function Replace(s: string, pat: string, rep: string): (r: string)
    decreases |s|
  {
    if |pat| == 0 then
      (if |s| == 0 then rep else rep + [s[0]] + Replace(s[1..], pat, rep))
    else if |s| < |pat| then s
    else if pat <= s then rep + Replace(s[|pat|..], pat, rep)
    else [s[0]] + Replace(s[1..], pat, rep)
  }

  /** Text that cannot start an occurrence of `pat` passes through unchanged. */
  lemma {:induction false} ReplaceSkips(a: string, b: string, pat: string, rep: string)
    requires |pat| > 0 && pat[0] !in a
    ensures Replace(a + b, pat, rep) == a + Replace(b, pat, rep)
  {
    if |a| > 0 {
      var s := a + b;
      assert s[0] == a[0] != pat[0];
      assert !(pat <= s);
      ReplaceKeepsFirst(s, pat, rep);
      assert s[1..] == a[1..] + b;
      ReplaceSkips(a[1..], b, pat, rep);
      ConsOfTail(a, Replace(b, pat, rep));
    } else {
      assert a + b == b;
    }
  }

  /** Putting the first character back in front of the rest of a string. */
  lemma ConsOfTail(x: string, r: string)
    requires |x| > 0
    ensures [x[0]] + (x[1..] + r) == x + r
  {
    assert [x[0]] + x[1..] == x;
  }

  /** Where no occurrence of `pat` starts, the first character is kept. */
  lemma ReplaceKeepsFirst(s: string, pat: string, rep: string)
    requires |pat| > 0 && |s| > 0 && !(pat <= s)
    ensures Replace(s, pat, rep) == [s[0]] + Replace(s[1..], pat, rep)
  {
    if |s| < |pat| {
      assert s[1..] == s[1..] && |s[1..]| < |pat|;
      assert [s[0]] + s[1..] == s;
    }
  }

  /** A string whose characters never start `pat` is left as it is. */
  lemma ReplaceAbsent(s: string, pat: string, rep: string)
    requires |pat| > 0 && pat[0] !in s
    ensures Replace(s, pat, rep) == s
  {
    ReplaceSkips(s, "", pat, rep);
    assert s + "" == s;
  }

  /** An occurrence of `pat` at the front is replaced. */
  lemma ReplaceFront(b: string, pat: string, rep: string)
    requires |pat| > 0
    ensures Replace(pat + b, pat, rep) == rep + Replace(b, pat, rep)
  {
    var s := pat + b;
    assert pat <= s;
    assert s[|pat|..] == b;
  }

  /** Regrouping a five-part concatenation to the right. */
  lemma ConcatFive(a: string, b: string, c: string, d: string, e: string)
    ensures a + b + c + d + e == a + (b + (c + (d + e)))
  {
  }

  /** The characters `str.isspace()` accepts (and so `str.strip()` removes). */
  predicate IsSpace(c: char) {
    c == ' ' || c == '\t' || c == '\n' || c == '\r' || c == '\U{B}' || c == '\U{C}'
    || ('\U{1C}' <= c <= '\U{1F}') || c == '\U{85}' || c == '\U{A0}' || c == '\U{1680}'
    || ('\U{2000}' <= c <= '\U{200A}') || c == '\U{2028}' || c == '\U{2029}' || c == '\U{202F}'
    || c == '\U{205F}' || c == '\U{3000}'
  }

  function LeadingSpaces(s: string): (n: nat)
    ensures n <= |s|
    ensures forall i :: 0 <= i < n ==> IsSpace(s[i])
    ensures n < |s| ==> !IsSpace(s[n])
  {
    if |s| > 0 && IsSpace(s[0]) then 1 + LeadingSpaces(s[1..]) else 0
  }

  function TrailingSpaces(s: string): (n: nat)
    ensures n <= |s|
    ensures forall i :: |s| - n <= i < |s| ==> IsSpace(s[i])
    ensures n < |s| ==> !IsSpace(s[|s| - 1 - n])
  {
    if |s| > 0 && IsSpace(s[|s| - 1]) then 1 + TrailingSpaces(s[..|s| - 1]) else 0
  }

  /** Where `s.strip()` starts and ends inside `s`. */
  function StripStart(s: string): nat {
    LeadingSpaces(s)
  }

  function StripEnd(s: string): (e: nat)
    ensures StripStart(s) <= e <= |s|
  {
    |s| - TrailingSpaces(s[StripStart(s)..])
  }

  /** `s.strip()`: the slice of `s` left once whitespace is removed from both ends. */
  function Strip(s: string): string {
    s[StripStart(s)..StripEnd(s)]
  }

  /** What `strip` removes is all whitespace, and what is left neither starts nor ends with whitespace. */
  lemma StripTrimsSpaces(s: string)
    ensures forall i :: 0 <= i < StripStart(s) ==> IsSpace(s[i])
    ensures forall i :: StripEnd(s) <= i < |s| ==> IsSpace(s[i])
    ensures var r := Strip(s); r != [] ==> !IsSpace(r[0]) && !IsSpace(r[|r| - 1])
  {
    var a, e := StripStart(s), StripEnd(s);
    var rest := s[a..];
    var t := TrailingSpaces(rest);
    forall i | e <= i < |s| ensures IsSpace(s[i]) {
      assert s[i] == rest[i - a];
    }
    if a < e {
      assert Strip(s)[0] == s[a];
      assert Strip(s)[e - a - 1] == rest[|rest| - 1 - t];
    }
  }

  /** `sep.join(parts)`. */
  function Join(parts: seq<string>, sep: string): (r: string)
    decreases |parts|
  {
    if |parts| == 0 then ""
    else if |parts| == 1 then parts[0]
    else parts[0] + sep + Join(parts[1..], sep)
  }

  lemma JoinOfOne(parts: seq<string>, sep: string)
    requires |parts| == 1
    ensures Join(parts, sep) == parts[0]
  {
  }

  /** Joining one more part puts the separator between the old result and it. */
  lemma {:induction false} JoinSnoc(parts: seq<string>, last: string, sep: string)
    requires |parts| > 0
    ensures Join(parts + [last], sep) == Join(parts, sep) + sep + last
    decreases |parts|
  {
    var ps := parts + [last];
    if |parts| == 1 {
      assert ps[1..] == [last];
    } else {
      assert ps[1..] == parts[1..] + [last];
      JoinSnoc(parts[1..], last, sep);
    }
  }

  /** Every part appears in the joined string. */
  lemma JoinContainsPart(parts: seq<string>, sep: string, k: nat)
    requires k < |parts|
    ensures IsInfix(parts[k], Join(parts, sep))
  {
    var i := JoinPartAt(parts, sep, k);
    InfixAt(parts[k], Join(parts, sep), i);
  }

  /** Where the k-th part sits in the joined string. */
  lemma {:induction false} JoinPartAt(parts: seq<string>, sep: string, k: nat) returns (i: nat)
    requires k < |parts|
    ensures i + |parts[k]| <= |Join(parts, sep)| && Join(parts, sep)[i..i + |parts[k]|] == parts[k]
    decreases |parts|
  {
    var r := Join(parts, sep);
    if |parts| == 1 || k == 0 {
      assert r[0..|parts[0]|] == parts[0];
      i := 0;
    } else {
      var j := JoinPartAt(parts[1..], sep, k - 1);
      var rest := Join(parts[1..], sep);
      var off := |parts[0]| + |sep|;
      assert r == parts[0] + sep + rest;
      assert r[off..] == rest;
      assert r[off + j..off + j + |parts[k]|] == rest[j..j + |parts[k]|];
      i := off + j;
    }
  }

  function DigitChar(d: nat): char
    requires d < 10
  {
    "0123456789"[d]
  }

  /** `str(n)` for a non-negative integer: its decimal digits, most significant first. */
  function NatToString(n: nat): (r: string)
    ensures |r| > 0
    ensures forall i :: 0 <= i < |r| ==> '0' <= r[i] <= '9'
    ensures n < 10 ==> r == [DigitChar(n)]
  {
    if n < 10 then [DigitChar(n)] else NatToString(n / 10) + [DigitChar(n % 10)]
  }
}
