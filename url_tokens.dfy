/**
 * `parseURL`: reduces a URL to its alphanumeric tokens, joined by single
 * spaces, for text search over URLs.
 *
 * The source scans the string with the regular expression `[0-9A-Za-z]*`.
 * Each `find()` takes the longest run of ASCII letters and digits at the
 * current position (possibly the empty run); non-empty runs are appended with
 * a trailing space, and the result is trimmed at the end.  Here `Tokens` is
 * the list of those runs, `ParsedUrl` the specification of the result and
 * `ParseUrl` the loop itself.
 */
module UrlTokens {

  /** The character class `[0-9A-Za-z]`. */
  predicate IsAlnum(c: char)
  {
    '0' <= c <= '9' || 'A' <= c <= 'Z' || 'a' <= c <= 'z'
  }

  predicate AllAlnum(s: string)
  {
    forall i :: 0 <= i < |s| ==> IsAlnum(s[i])
  }

  /** A token: a non-empty run of alphanumerics. */
  predicate IsToken(t: string)
  {
    t != [] && AllAlnum(t)
  }

  /** The length of the greedy match of `[0-9A-Za-z]*` at the start of `s`. */
  function RunLength(s: string): (k: nat)
    ensures k <= |s| && AllAlnum(s[..k])
    ensures k < |s| ==> !IsAlnum(s[k])
  {
    if s == [] || !IsAlnum(s[0]) then 0
    else
      var k := 1 + RunLength(s[1..]);
      assert s[..k] == [s[0]] + s[1..][..k - 1];
      k
  }

  /** The maximal runs of alphanumerics in `s`, in order. */
  function Tokens(s: string): (ts: seq<string>)
    ensures forall i :: 0 <= i < |ts| ==> IsToken(ts[i])
    decreases |s|
  {
    if s == [] then []
    else if !IsAlnum(s[0]) then Tokens(s[1..])
    else
      var k := RunLength(s);
      [s[..k]] + Tokens(s[k..])
  }

  /** The tokens separated by single spaces. */
  function Join(ts: seq<string>): string
  {
    if ts == [] then ""
    else if |ts| == 1 then ts[0]
    else ts[0] + " " + Join(ts[1..])
  }

  /** What `parseURL` returns. */
  function ParsedUrl(s: string): string
  {
    Join(Tokens(s))
  }

  // Java's String.trim(): drop leading and trailing characters up to U+0020.

  /** What is left after dropping the leading characters up to U+0020: a suffix of `s`. */
  function TrimStart(s: string): (r: string)
    ensures |r| <= |s| && r == s[|s| - |r|..]
    ensures r != [] ==> r[0] > ' '
    ensures forall k :: 0 <= k < |s| - |r| ==> s[k] <= ' '
  {
    if s != [] && s[0] <= ' ' then TrimStart(s[1..]) else s
  }

  /** What is left after dropping the trailing characters up to U+0020: a prefix of `s`. */
  function TrimEnd(s: string): (r: string)
    ensures |r| <= |s| && r == s[..|r|]
    ensures r != [] ==> r[|r| - 1] > ' '
    ensures forall k :: |r| <= k < |s| ==> s[k] <= ' '
  {
    if s != [] && s[|s| - 1] <= ' ' then TrimEnd(s[..|s| - 1]) else s
  }

  /**
   * `String.trim()`: neither end of the result is a character up to
   * U+0020, and the result is empty exactly when every character is one.
   */
  function Trim(s: string): (r: string)
    ensures |r| <= |s|
    ensures r != [] ==> r[0] > ' ' && r[|r| - 1] > ' '
    ensures r == [] <==> forall k :: 0 <= k < |s| ==> s[k] <= ' '
  {
    var t := TrimStart(s);
    assert forall k :: |s| - |t| <= k < |s| ==> s[k] == t[k - (|s| - |t|)];
    TrimEnd(t)
  }

  /**
   * What `trim()` keeps is a slice of its input: the part that starts where
   * `TrimStart` stops, with only characters up to U+0020 on either side of it.
   */
  lemma TrimIsSlice(s: string)
    ensures var i, r := |s| - |TrimStart(s)|, Trim(s);
      && i + |r| <= |s| && r == s[i..i + |r|]
      && (forall k :: 0 <= k < i ==> s[k] <= ' ')
      && (forall k :: i + |r| <= k < |s| ==> s[k] <= ' ')
  {
    var t := TrimStart(s);
    var i, r := |s| - |t|, TrimEnd(t);
    assert t == s[i..];
    assert r == t[..|r|];
    forall k | i + |r| <= k < |s|
      ensures s[k] <= ' '
    {
      assert s[k] == t[k - i];
    }
  }

  /** The text `parseURL` accumulates before its final trim: every token followed by one space. */
  function Spaced(ts: seq<string>): string
  {
    if ts == [] then "" else ts[0] + " " + Spaced(ts[1..])
  }

  /**
   * Where the greedy match of `[0-9A-Za-z]*` that starts at `i` ends: the
   * match is `s[i..j]`, and it cannot be extended.
   */
  method MatchEnd(s: string, i: nat) returns (j: nat)
    requires i <= |s|
    ensures i <= j <= |s|
    ensures forall k :: i <= k < j ==> IsAlnum(s[k])
    ensures j < |s| ==> !IsAlnum(s[j])
  {
    j := i;
    while j < |s| && IsAlnum(s[j])
      invariant i <= j <= |s|
      invariant forall k :: i <= k < j ==> IsAlnum(s[k])
    {
      j := j + 1;
    }
  }

  /**
   * `parseURL` as written: repeated `find()` of `[0-9A-Za-z]*` from position
   * `i`; a non-empty match is trimmed and appended with a space, and the next
   * search starts where the match ended, while an empty match moves on by one
   * character.
   */
  method ParseUrl(toParse: string) returns (r: string)
    ensures r == ParsedUrl(toParse)
  {
    var result := "";
    var i := 0;
    ghost var done: seq<string> := [];
    while i < |toParse|
      invariant 0 <= i <= |toParse|
      invariant Tokens(toParse) == done + Tokens(toParse[i..])
      invariant result == Spaced(done)
      decreases |toParse| - i
    {
      var j := MatchEnd(toParse, i);
      var group := toParse[i..j];
      if j == i {
        SkipStep(toParse, i, done);
        i := i + 1;
      } else {
        RunStep(toParse, i, j, done);
        TrimToken(group);
        SpacedSnoc(done, group);
        if Trim(group) != [] {
          result := result + Trim(group) + " ";
        }
        done := done + [group];
        i := j;
      }
    }
    Finish(toParse, done);
    r := Trim(result);
  }

  // Lemmas the loop relies on.

  /** An empty match at `i`: the loop moves on by one character. */
  lemma SkipStep(s: string, i: nat, done: seq<string>)
    requires i < |s| && !IsAlnum(s[i])
    requires Tokens(s) == done + Tokens(s[i..])
    ensures Tokens(s) == done + Tokens(s[i + 1..])
  {
    TokensSkip(s, i);
  }

  /** A non-empty match `s[i..j]` is the next token. */
  lemma RunStep(s: string, i: nat, j: nat, done: seq<string>)
    requires i < j <= |s| && forall k :: i <= k < j ==> IsAlnum(s[k])
    requires j < |s| ==> !IsAlnum(s[j])
    requires Tokens(s) == done + Tokens(s[i..])
    ensures Tokens(s) == (done + [s[i..j]]) + Tokens(s[j..])
  {
    TokensRun(s, i, j);
    Regroup(done, s[i..j], Tokens(s[j..]));
  }

  lemma Regroup(done: seq<string>, t: string, rest: seq<string>)
    ensures done + ([t] + rest) == (done + [t]) + rest
  {
  }

  /** Once the whole input is scanned, the trimmed text is the joined tokens. */
  lemma Finish(s: string, done: seq<string>)
    requires Tokens(s) == done + Tokens(s[|s|..])
    ensures Trim(Spaced(done)) == ParsedUrl(s)
  {
    assert s[|s|..] == [];
    assert done == Tokens(s);
    TokensAreTokens(s);
    SpacedIsJoin(done);
  }

  /** A run that stops at a non-alphanumeric (or the end) is the greedy match. */
  lemma {:induction false} RunLengthExact(s: string, k: nat)
    requires k <= |s| && AllAlnum(s[..k])
    requires k < |s| ==> !IsAlnum(s[k])
    ensures RunLength(s) == k
    decreases k
  {
    if k > 0 {
      assert s[1..][..k - 1] == s[1..k];
      RunLengthExact(s[1..], k - 1);
    }
  }

  lemma TokensSkip(s: string, i: nat)
    requires i < |s| && !IsAlnum(s[i])
    ensures Tokens(s[i..]) == Tokens(s[i + 1..])
  {
    assert s[i..][1..] == s[i + 1..];
  }

  lemma TokensRun(s: string, i: nat, j: nat)
    requires i < j <= |s| && forall k :: i <= k < j ==> IsAlnum(s[k])
    requires j < |s| ==> !IsAlnum(s[j])
    ensures Tokens(s[i..]) == [s[i..j]] + Tokens(s[j..])
  {
    var t := s[i..];
    assert t[..j - i] == s[i..j];
    RunLengthExact(t, j - i);
    assert t[j - i..] == s[j..];
  }

  lemma TrimToken(t: string)
    requires IsToken(t)
    ensures Trim(t) == t
  {
    assert t[0] > ' ' && t[|t| - 1] > ' ';
    assert TrimStart(t) == t;
  }

  lemma {:induction false} SpacedSnoc(ts: seq<string>, t: string)
    ensures Spaced(ts + [t]) == Spaced(ts) + t + " "
    decreases |ts|
  {
    if ts != [] {
      assert (ts + [t])[1..] == ts[1..] + [t];
      SpacedSnoc(ts[1..], t);
    }
  }

  lemma TokensAreTokens(s: string)
    ensures forall t <- Tokens(s) :: IsToken(t)
  {
  }

  /** A joined list of tokens begins and ends with an alphanumeric. */
  lemma {:induction false} JoinEnds(ts: seq<string>)
    requires ts != [] && forall t <- ts :: IsToken(t)
    ensures var j := Join(ts); j != [] && IsAlnum(j[0]) && IsAlnum(j[|j| - 1])
    decreases |ts|
  {
    assert IsToken(ts[0]);
    assert IsAlnum(ts[0][0]) && IsAlnum(ts[0][|ts[0]| - 1]);
    if |ts| > 1 {
      JoinEnds(ts[1..]);
      var rest := Join(ts[1..]);
      assert Join(ts) == ts[0] + " " + rest;
      assert Join(ts)[0] == ts[0][0];
      assert Join(ts)[|Join(ts)| - 1] == rest[|rest| - 1];
    }
  }

  lemma {:induction false} SpacedIsJoin(ts: seq<string>)
    requires forall t <- ts :: IsToken(t)
    ensures Trim(Spaced(ts)) == Join(ts)
  {
    if ts != [] {
      SpacedJoin(ts);
      JoinEnds(ts);
      var j := Join(ts);
      assert TrimStart(j + " ") == j + " ";
      assert (j + " ")[..|j + " "| - 1] == j;
      assert TrimEnd(j + " ") == TrimEnd(j);
    }
  }

  lemma {:induction false} SpacedJoin(ts: seq<string>)
    requires ts != []
    ensures Spaced(ts) == Join(ts) + " "
    decreases |ts|
  {
    if |ts| > 1 {
      SpacedJoin(ts[1..]);
    }
  }

  // What `parseURL` promises.

  /**
   * A character outside `[0-9A-Za-z]` only ever separates tokens: the tokens
   * of `a + [c] + b` are those of `a` followed by those of `b`.
   */
  lemma {:induction false} TokensSplit(a: string, c: char, b: string)
    requires !IsAlnum(c)
    ensures Tokens(a + [c] + b) == Tokens(a) + Tokens(b)
    decreases |a|
  {
    var s := a + [c] + b;
    if a == [] {
      assert s[1..] == b;
    } else if !IsAlnum(a[0]) {
      assert s[1..] == a[1..] + [c] + b;
      TokensSplit(a[1..], c, b);
    } else {
      var m := RunLength(a);
      TokensSplit(a[m..], c, b);
      SplitRun(a, c, b, m);
    }
  }

  /** One step of `TokensSplit`: the leading run of `a` is the leading run of `a + [c] + b`. */
  lemma SplitRun(a: string, c: char, b: string, m: nat)
    requires !IsAlnum(c) && 0 < m == RunLength(a)
    ensures Tokens(a + [c] + b) == [a[..m]] + Tokens(a[m..] + [c] + b)
    ensures Tokens(a) == [a[..m]] + Tokens(a[m..])
  {
    var s := a + [c] + b;
    assert s[..m] == a[..m];
    RunLengthExact(s, m);
    assert s[m..] == a[m..] + [c] + b;
  }

  /** A run of alphanumerics is never split: it is one token. */
  lemma TokensOfToken(t: string)
    requires IsToken(t)
    ensures Tokens(t) == [t]
  {
    assert t[..|t|] == t;
    RunLengthExact(t, |t|);
  }

  /** Tokenizing joined tokens gives the tokens back. */
  lemma {:induction false} TokensOfJoin(ts: seq<string>)
    requires forall t <- ts :: IsToken(t)
    ensures Tokens(Join(ts)) == ts
    decreases |ts|
  {
    if |ts| == 1 {
      TokensOfToken(ts[0]);
    } else if |ts| > 1 {
      assert ts[0] in ts;
      TokensOfJoin(ts[1..]);
      JoinStep(ts[0], ts[1..]);
      assert Join(ts) == ts[0] + [' '] + Join(ts[1..]);
      assert ts == [ts[0]] + ts[1..];
    }
  }

  /** One step of `TokensOfJoin`: a token in front of joined tokens. */
  lemma JoinStep(t: string, rest: seq<string>)
    requires IsToken(t) && Tokens(Join(rest)) == rest
    ensures Tokens(t + [' '] + Join(rest)) == [t] + rest
  {
    TokensSplit(t, ' ', Join(rest));
    TokensOfToken(t);
  }

  /** `parseURL(parseURL(s)) == parseURL(s)`. */
  lemma ParsedUrlIdempotent(s: string)
    ensures ParsedUrl(ParsedUrl(s)) == ParsedUrl(s)
  {
    TokensAreTokens(s);
    TokensOfJoin(Tokens(s));
  }

  /** A string without tokens is exactly a string without alphanumerics. */
  lemma {:induction false} TokensEmpty(s: string)
    ensures Tokens(s) == [] <==> forall i :: 0 <= i < |s| ==> !IsAlnum(s[i])
    decreases |s|
  {
    if s != [] && !IsAlnum(s[0]) {
      TokensEmpty(s[1..]);
      assert forall i :: 1 <= i < |s| ==> s[i] == s[1..][i - 1];
    }
  }

  /** `parseURL` returns "" exactly when the input has no ASCII letter or digit. */
  lemma ParsedUrlEmpty(s: string)
    ensures ParsedUrl(s) == "" <==> forall i :: 0 <= i < |s| ==> !IsAlnum(s[i])
  {
    TokensEmpty(s);
    TokensAreTokens(s);
    if Tokens(s) != [] {
      JoinEnds(Tokens(s));
    }
  }

  /**
   * The shape of the result: letters, digits and spaces only, no space at
   * either end, and never two spaces in a row.
   */
  predicate SingleSpaced(r: string)
  {
    && (forall i :: 0 <= i < |r| ==> IsAlnum(r[i]) || r[i] == ' ')
    && (r != [] ==> IsAlnum(r[0]) && IsAlnum(r[|r| - 1]))
    && (forall i :: 0 <= i < |r| - 1 && r[i] == ' ' ==> IsAlnum(r[i + 1]))
  }

  lemma {:induction false} JoinSingleSpaced(ts: seq<string>)
    requires forall t <- ts :: IsToken(t)
    ensures SingleSpaced(Join(ts))
    decreases |ts|
  {
    if |ts| == 1 {
      assert ts[0] in ts;
    } else if |ts| > 1 {
      assert ts[0] in ts;
      var t, rest := ts[0], Join(ts[1..]);
      JoinSingleSpaced(ts[1..]);
      JoinEnds(ts[1..]);
      var r := Join(ts);
      assert r == t + " " + rest;
      forall i | 0 <= i < |r|
        ensures IsAlnum(r[i]) || r[i] == ' '
      {
        if i > |t| { assert r[i] == rest[i - |t| - 1]; }
      }
      forall i | 0 <= i < |r| - 1 && r[i] == ' '
        ensures IsAlnum(r[i + 1])
      {
        if i > |t| { assert r[i] == rest[i - |t| - 1] && r[i + 1] == rest[i - |t|]; }
      }
      JoinEnds(ts);
    }
  }

  lemma ParsedUrlSingleSpaced(s: string)
    ensures SingleSpaced(ParsedUrl(s))
  {
    TokensAreTokens(s);
    JoinSingleSpaced(Tokens(s));
  }

  /** The letters and digits of `s`, in order, with everything else dropped. */
  function Alnums(s: string): string
  {
    if s == [] then [] else (if IsAlnum(s[0]) then [s[0]] else []) + Alnums(s[1..])
  }

  /** The tokens written one after another. */
  function Concat(ts: seq<string>): string
  {
    if ts == [] then [] else ts[0] + Concat(ts[1..])
  }

  lemma {:induction false} AlnumsOfRun(s: string, k: nat)
    requires k <= |s| && AllAlnum(s[..k])
    ensures Alnums(s) == s[..k] + Alnums(s[k..])
    decreases k
  {
    if k == 0 {
      assert s[..0] == [] && s[0..] == s;
    } else {
      assert s[1..][..k - 1] == s[1..k];
      AlnumsOfRun(s[1..], k - 1);
      assert s[1..][k - 1..] == s[k..];
      assert s[..k] == [s[0]] + s[1..k];
    }
  }

  /**
   * No letter or digit is lost or invented: the tokens, written one after
   * another, are exactly the alphanumerics of the input, in order.
   */
  lemma {:induction false} TokensKeepEveryAlnum(s: string)
    ensures Concat(Tokens(s)) == Alnums(s)
    decreases |s|
  {
    if s != [] {
      if !IsAlnum(s[0]) {
        TokensKeepEveryAlnum(s[1..]);
      } else {
        var k := RunLength(s);
        TokensKeepEveryAlnum(s[k..]);
        AlnumsOfRun(s, k);
      }
    }
  }
}
