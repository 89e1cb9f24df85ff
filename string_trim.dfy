// String.prototype.trim as the task list uses it: strip leading and
// trailing white space and line terminators, keep everything in between.

module StringTrim {

  /** White space as ECMAScript's trim understands it: the WhiteSpace and
      LineTerminator productions (tab, vertical tab, form feed, the byte
      order mark, the Zs space separators, and the four line terminators). */
  predicate IsWhitespace(c: char) {
    c == '\t' || c == '\n' || c == '\U{000B}' || c == '\U{000C}' || c == '\r' ||
    c == ' ' || c == '\U{00A0}' || c == '\U{1680}' ||
    ('\U{2000}' <= c <= '\U{200A}') ||
    c == '\U{2028}' || c == '\U{2029}' || c == '\U{202F}' || c == '\U{205F}' ||
    c == '\U{3000}' || c == '\U{FEFF}'
  }

  predicate AllWhitespace(s: string) {
    forall k :: 0 <= k < |s| ==> IsWhitespace(s[k])
  }

  /** Neither end of s is white space (the empty string qualifies). */
  predicate Trimmed(s: string) {
    s == [] || (!IsWhitespace(s[0]) && !IsWhitespace(s[|s| - 1]))
  }

  /** Every character of s from index i up to j is white space. */
  predicate BlankBetween(s: string, i: int, j: int)
    requires 0 <= i <= j <= |s|
  {
    forall k :: i <= k < j ==> IsWhitespace(s[k])
  }

  /** s[i..j] without its trailing white space, where s[i] (if any) is not
      white space: drop white space from the back while there is some. */
  function TrimEnd(s: string, i: nat, j: nat): (r: string)
    requires i <= j <= |s|
    requires i < j ==> !IsWhitespace(s[i])
    ensures Trimmed(r)
    ensures |r| <= j - i
    ensures r == [] <==> BlankBetween(s, i, j)
  {
    if i < j && IsWhitespace(s[j - 1]) then TrimEnd(s, i, j - 1)
    else s[i..j]
  }

  /** s[i..j] without its leading and trailing white space: drop white
      space from the front while there is some, then from the back. */
  function TrimRange(s: string, i: nat, j: nat): (r: string)
    requires i <= j <= |s|
    ensures Trimmed(r)
    ensures |r| <= j - i
    ensures r == [] <==> BlankBetween(s, i, j)
    decreases j - i
  {
    if i < j && IsWhitespace(s[i]) then TrimRange(s, i + 1, j)
    else TrimEnd(s, i, j)
  }

  /** The result neither starts nor ends with white space, is no longer
      than s, and is empty exactly when s is all white space. */
  function Trim(s: string): (r: string)
    ensures Trimmed(r)
    ensures r == [] <==> AllWhitespace(s)
    ensures |r| <= |s|
  {
    TrimRange(s, 0, |s|)
  }

  /** TrimEnd(s, i, j) is the prefix s[i..b] of s[i..j], with only white
      space between b and j. */
  lemma {:induction false} TrimEndIsInfix(s: string, i: nat, j: nat) returns (b: nat)
    requires i <= j <= |s|
    requires i < j ==> !IsWhitespace(s[i])
    ensures i <= b <= j && TrimEnd(s, i, j) == s[i..b]
    ensures BlankBetween(s, b, j)
  {
    if i < j && IsWhitespace(s[j - 1]) {
      b := TrimEndIsInfix(s, i, j - 1);
    } else {
      b := j;
    }
  }

  /** TrimRange(s, i, j) is the infix s[a..b], with only white space
      between i and a and between b and j. */
  lemma {:induction false} TrimRangeIsInfix(s: string, i: nat, j: nat) returns (a: nat, b: nat)
    requires i <= j <= |s|
    ensures i <= a <= b <= j && TrimRange(s, i, j) == s[a..b]
    ensures BlankBetween(s, i, a) && BlankBetween(s, b, j)
    decreases j - i
  {
    if i < j && IsWhitespace(s[i]) {
      a, b := TrimRangeIsInfix(s, i + 1, j);
    } else {
      a := i;
      b := TrimEndIsInfix(s, i, j);
    }
  }

  /** t sits at offset i of s with only white space around it. */
  predicate PaddedAt(s: string, t: string, i: nat) {
    i + |t| <= |s| && t == s[i..i + |t|]
    && AllWhitespace(s[..i]) && AllWhitespace(s[i + |t|..])
  }

  /** Trim(s) is the infix of s at offset i, with only white space before
      and after it. */
  lemma TrimIsInfix(s: string) returns (i: nat)
    ensures PaddedAt(s, Trim(s), i)
  {
    var b;
    i, b := TrimRangeIsInfix(s, 0, |s|);
    var lead, trail := s[..i], s[b..];
    assert forall k :: 0 <= k < |lead| ==> lead[k] == s[k];
    assert forall k :: 0 <= k < |trail| ==> trail[k] == s[b + k];
  }

  /** Trim undoes any white-space padding of a trimmed string: with Trim's
      own contract and TrimIsInfix this pins Trim down uniquely. */
  lemma TrimOfPadded(w1: string, t: string, w2: string)
    requires AllWhitespace(w1) && AllWhitespace(w2)
    requires Trimmed(t)
    ensures Trim(w1 + t + w2) == t
  {
    var s := w1 + t + w2;
    var m, n := |w1|, |w1| + |t|;
    forall k | 0 <= k < m ensures IsWhitespace(s[k]) {
      assert s[k] == w1[k];
    }
    forall k | n <= k < |s| ensures IsWhitespace(s[k]) {
      assert s[k] == w2[k - n];
    }
    if t == [] {
      assert AllWhitespace(s);
    } else {
      var r := Trim(s);
      var a, b := TrimRangeIsInfix(s, 0, |s|);
      assert s[m] == t[0] && s[n - 1] == t[|t| - 1];
      assert r != [];
      assert s[a] == r[0] && s[b - 1] == r[|r| - 1];
      assert a == m;
      assert b == n;
      assert s[m..n] == t;
    }
  }

  /** Trimming a second time changes nothing. */
  lemma TrimIdempotent(s: string)
    ensures Trim(Trim(s)) == Trim(s)
  {
    var t := Trim(s);
    assert [] + t + [] == t;
    TrimOfPadded([], t, []);
  }

  /** The strings Trim leaves alone are exactly the trimmed ones. */
  lemma TrimFixesExactlyTrimmed(s: string)
    ensures Trim(s) == s <==> Trimmed(s)
  {
    if Trimmed(s) {
      assert [] + s + [] == s;
      TrimOfPadded([], s, []);
    }
  }
}
