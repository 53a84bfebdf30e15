/**
 strtok_r of lib/string.c, for any set of delimiters.
 */
module Strtok {
  import opened Common

  // ----------------------------------------------------------------- tokens

  /** The length of the prefix of delimiters, or of the prefix without any. */
  function Run(s: seq<byte>, d: set<byte>, inside: bool): (n: nat)
    ensures n <= |s|
    ensures forall i :: 0 <= i < n ==> (s[i] in d) == inside
    ensures n < |s| ==> (s[n] in d) != inside
  {
    if s == [] || (s[0] in d) != inside then 0 else 1 + Run(s[1..], d, inside)
  }

  /** The tokens of a string, for a set of delimiters. */
  function Tokens(s: seq<byte>, d: set<byte>): seq<seq<byte>>
    decreases |s|
  {
    var rest := s[Run(s, d, true)..];
    if rest == [] then [] else [rest[..Run(rest, d, false)]] + Tokens(rest[Run(rest, d, false)..], d)
  }

  /** The delimiters before, between and after the tokens. */
  function Gaps(s: seq<byte>, d: set<byte>): (r: seq<seq<byte>>)
    decreases |s|
  {
    var rest := s[Run(s, d, true)..];
    [s[..Run(s, d, true)]] + if rest == [] then [] else Gaps(rest[Run(rest, d, false)..], d)
  }

  function Interleaved(gaps: seq<seq<byte>>, tokens: seq<seq<byte>>): seq<byte>
    requires |gaps| == |tokens| + 1
  {
    if tokens == [] then gaps[0] else gaps[0] + tokens[0] + Interleaved(gaps[1..], tokens[1..])
  }

  ghost predicate AllIn(s: seq<byte>, d: set<byte>) {
    forall i :: 0 <= i < |s| ==> s[i] in d
  }

  ghost predicate NoneIn(s: seq<byte>, d: set<byte>) {
    forall i :: 0 <= i < |s| ==> s[i] !in d
  }

  /** Exactly a string with a delimiter at the front has a front gap. */
  lemma FrontGap(s: seq<byte>, d: set<byte>)
    requires s != []
    ensures Gaps(s, d)[0] != [] <==> s[0] in d
  {
  }

  lemma InterleaveStep(g: seq<byte>, t: seq<byte>, gaps: seq<seq<byte>>, tokens: seq<seq<byte>>)
    requires |gaps| == |tokens| + 1
    ensures Interleaved([g] + gaps, [t] + tokens) == g + t + Interleaved(gaps, tokens)
  {
    assert ([g] + gaps)[1..] == gaps && ([t] + tokens)[1..] == tokens;
  }

  lemma SplitTwice(s: seq<byte>, n: nat, m: nat)
    requires n + m <= |s|
    ensures s == s[..n] + s[n..][..m] + s[n..][m..]
  {
  }

  lemma {:induction false} TokensInterleave(s: seq<byte>, d: set<byte>)
    ensures |Gaps(s, d)| == |Tokens(s, d)| + 1 && Interleaved(Gaps(s, d), Tokens(s, d)) == s
    decreases |s|
  {
    var n := Run(s, d, true);
    var rest := s[n..];
    if rest == [] {
      assert s[..n] == s;
    } else {
      var m := Run(rest, d, false);
      SplitTwice(s, n, m);
      TokensInterleave(rest[m..], d);
      hide Interleaved;
      InterleaveStep(s[..n], rest[..m], Gaps(rest[m..], d), Tokens(rest[m..], d));
    }
  }

  ghost predicate GoodTokens(tokens: seq<seq<byte>>, d: set<byte>) {
    forall i :: 0 <= i < |tokens| ==> tokens[i] != [] && NoneIn(tokens[i], d)
  }

  ghost predicate GoodGaps(gaps: seq<seq<byte>>, d: set<byte>) {
    forall i :: 0 <= i < |gaps| ==> AllIn(gaps[i], d)
  }

  lemma OneMoreGood(x: seq<byte>, xs: seq<seq<byte>>, d: set<byte>)
    ensures x != [] && NoneIn(x, d) && GoodTokens(xs, d) ==> GoodTokens([x] + xs, d)
    ensures AllIn(x, d) && GoodGaps(xs, d) ==> GoodGaps([x] + xs, d)
  {
  }

  lemma {:induction false} TokensAndGapsAreGood(s: seq<byte>, d: set<byte>)
    ensures GoodTokens(Tokens(s, d), d) && GoodGaps(Gaps(s, d), d)
    decreases |s|
  {
    hide GoodTokens, GoodGaps;
    var n := Run(s, d, true);
    var rest := s[n..];
    assert AllIn(s[..n], d);
    if rest == [] {
      NothingIsGood(d);
      OneMoreGood(s[..n], [], d);
      assert [s[..n]] + [] == [s[..n]];
    } else {
      var m := Run(rest, d, false);
      assert NoneIn(rest[..m], d);
      TokensAndGapsAreGood(rest[m..], d);
      OneMoreGood(s[..n], Gaps(rest[m..], d), d);
      OneMoreGood(rest[..m], Tokens(rest[m..], d), d);
    }
  }

  lemma NothingIsGood(d: set<byte>)
    ensures GoodTokens([], d) && GoodGaps([], d)
  {
  }

  lemma {:induction false} InnerGaps(s: seq<byte>, d: set<byte>)
    ensures |Gaps(s, d)| == |Tokens(s, d)| + 1 && forall i :: 0 < i < |Tokens(s, d)| ==> Gaps(s, d)[i] != []
    decreases |s|
  {
    var rest := s[Run(s, d, true)..];
    if rest != [] {
      var after := rest[Run(rest, d, false)..];
      InnerGaps(after, d);
      if after != [] {
        FrontGap(after, d);
      }
    }
  }

  /** The tokens are the maximal stretches without a delimiter, in order: the string is
      made of them and of delimiters, with delimiters between any two. */
  lemma TokensMeaning(s: seq<byte>, d: set<byte>)
    ensures |Gaps(s, d)| == |Tokens(s, d)| + 1 && Interleaved(Gaps(s, d), Tokens(s, d)) == s
    ensures GoodTokens(Tokens(s, d), d) && GoodGaps(Gaps(s, d), d)
    ensures forall i :: 0 < i < |Tokens(s, d)| ==> Gaps(s, d)[i] != []
  {
    hide Gaps, Tokens, Interleaved;
    TokensInterleave(s, d);
    TokensAndGapsAreGood(s, d);
    InnerGaps(s, d);
  }

  function TotalSize(tokens: seq<seq<byte>>): nat {
    if tokens == [] then 0 else |tokens[0]| + 1 + TotalSize(tokens[1..])
  }

  /** The tokens with their null bytes take at most one byte more than the string. */
  lemma {:induction false} TokensSize(s: seq<byte>, d: set<byte>)
    ensures TotalSize(Tokens(s, d)) <= |s| + 1 && 2 * |Tokens(s, d)| <= |s| + 1
    decreases |s|
  {
    var rest := s[Run(s, d, true)..];
    if rest != [] {
      var m := Run(rest, d, false);
      var after := rest[m..];
      assert Tokens(s, d)[1..] == Tokens(after, d);
      if after == [] {
        assert Tokens(after, d) == [];
      } else {
        TokensAfterDelimiter(after, d);
        TokensSize(after[1..], d);
      }
    }
  }

  /** A leading delimiter changes no token. */
  lemma TokensAfterDelimiter(s: seq<byte>, d: set<byte>)
    requires s != [] && s[0] in d
    ensures Tokens(s, d) == Tokens(s[1..], d)
  {
    var t := s[1..];
    assert Run(s, d, true) == 1 + Run(t, d, true);
    assert s[Run(s, d, true)..] == t[Run(t, d, true)..];
  }

  // --------------------------------------------------------------- strtok_r

  /** The C string at index i of a buffer. */
  function CStr(buf: seq<byte>, i: nat): (r: seq<byte>)
    decreases |buf| - i
    ensures CString(r)
    ensures i <= |buf| ==> i + |r| <= |buf|
    ensures forall k :: 0 <= k < |r| ==> i + k < |buf| && r[k] == buf[i + k]
    ensures i + |r| < |buf| ==> buf[i + |r|] == NUL
  {
    if i >= |buf| || buf[i] == NUL then [] else [buf[i]] + CStr(buf, i + 1)
  }

  /** There is a null byte at or after index i. */
  ghost predicate Terminated(buf: seq<byte>, i: nat) {
    exists k :: i <= k < |buf| && buf[k] == NUL
  }

  /** A C string stays the same when bytes before it change. */
  lemma {:induction false} CStrSuffix(buf: seq<byte>, buf': seq<byte>, i: nat)
    requires |buf'| == |buf| && forall k :: i <= k < |buf| ==> buf'[k] == buf[k]
    ensures CStr(buf', i) == CStr(buf, i)
    decreases |buf| - i
  {
    if i < |buf| {
      CStrSuffix(buf, buf', i + 1);
    }
  }

  /** The string from k bytes further on. */
  lemma {:induction false} CStrDrop(buf: seq<byte>, i: nat, k: nat)
    requires k <= |CStr(buf, i)|
    ensures CStr(buf, i + k) == CStr(buf, i)[k..]
    decreases k
  {
    if k > 0 {
      CStrDrop(buf, i + 1, k - 1);
    }
  }

  /** A string that a null byte cuts short. */
  lemma {:induction false} CStrCut(buf: seq<byte>, buf': seq<byte>, i: nat, n: nat)
    requires |buf'| == |buf| && n <= |CStr(buf, i)| && i + n < |buf|
    requires forall k :: i <= k < i + n ==> buf'[k] == buf[k]
    requires buf'[i + n] == NUL
    ensures CStr(buf', i) == CStr(buf, i)[..n]
    decreases n
  {
    if n > 0 {
      CStrCut(buf, buf', i + 1, n - 1);
    }
  }

  /** The prefix of delimiters of a string, in its buffer. */
  lemma RunInBuffer(buf: seq<byte>, i: nat, d: set<byte>, inside: bool)
    requires Terminated(buf, i)
    ensures var s := CStr(buf, i); var n := Run(s, d, inside);
      && i + |s| < |buf| && i + n < |buf|
      && (n < |s| ==> buf[i + n] != NUL && (buf[i + n] in d) != inside)
      && (n == |s| ==> buf[i + n] == NUL)
      && forall k :: i <= k < i + n ==> buf[k] != NUL && (buf[k] in d) == inside
  {
    StringEnds(buf, i);
    var s := CStr(buf, i);
    forall k | i <= k < i + Run(s, d, inside) ensures buf[k] != NUL && (buf[k] in d) == inside {
      assert s[k - i] == buf[k];
    }
  }

  lemma {:induction false} StringEnds(buf: seq<byte>, i: nat)
    requires Terminated(buf, i)
    ensures i + |CStr(buf, i)| < |buf|
    decreases |buf| - i
  {
    if buf[i] != NUL {
      StringEnds(buf, i + 1);
    }
  }

  /** The characters at the front decide where the prefix ends. */
  lemma RunIs(s: seq<byte>, d: set<byte>, inside: bool, n: nat)
    requires n <= |s| && forall i :: 0 <= i < n ==> (s[i] in d) == inside
    requires n < |s| ==> (s[n] in d) != inside
    ensures Run(s, d, inside) == n
  {
  }

  /** One of the two loops of strtok_r: past the delimiters, or past the others. */
  method SkipRun(buf: array<byte>, s: nat, d: set<byte>, inside: bool) returns (i: nat)
    requires Terminated(buf[..], s)
    ensures i == s + Run(CStr(buf[..], s), d, inside) < buf.Length
  {
    ghost var n := Run(CStr(buf[..], s), d, inside);
    RunInBuffer(buf[..], s, d, inside);
    i := s;
    while buf[i] != NUL && (buf[i] in d) == inside
      invariant s <= i <= s + n
      decreases s + n - i
    {
      i := i + 1;
    }
  }

  lemma FirstToken(str: seq<byte>, d: set<byte>)
    ensures var rest := str[Run(str, d, true)..];
      Tokens(str, d) == if rest == [] then [] else [rest[..Run(rest, d, false)]] + Tokens(rest[Run(rest, d, false)..], d)
  {
  }

  /** Nothing but delimiters. */
  lemma NoToken(b: seq<byte>, s: nat, start: nat, d: set<byte>)
    requires Terminated(b, s) && start == s + Run(CStr(b, s), d, true) < |b| && b[start] == NUL
    ensures Tokens(CStr(b, s), d) == []
  {
    hide CStr, Run, Tokens;
    RunInBuffer(b, s, d, true);
    FirstToken(CStr(b, s), d);
    assert CStr(b, s)[Run(CStr(b, s), d, true)..] == [];
  }

  /** The token from start to end, and what is after it. */
  lemma StrtokStep(b: seq<byte>, b': seq<byte>, s: nat, start: nat, end: nat, save: nat, d: set<byte>)
    requires Terminated(b, s) && start == s + Run(CStr(b, s), d, true) < |b| && b[start] != NUL
    requires end == start + Run(CStr(b, start), d, false) < |b|
    requires if b[end] == NUL then b' == b && save == end else b' == b[end := NUL] && save == end + 1
    ensures Tokens(CStr(b, s), d) == [CStr(b', start)] + Tokens(CStr(b', save), d) && CStr(b', start) != []
    ensures Terminated(b', save)
  {
    hide CStr, Run, Tokens;
    var str, n := CStr(b, s), Run(CStr(b, s), d, true);
    var rest, m := CStr(b, start), Run(CStr(b, start), d, false);
    RunInBuffer(b, s, d, true);
    StillTerminated(b, s, start);
    RunInBuffer(b, start, d, false);
    StillTerminated(b, start, end);
    CStrDrop(b, s, n);
    assert rest == str[n..];
    FirstToken(str, d);
    TokenCut(b, b', start, m, save, d);
  }

  /** The rest of the string is the token and what follows it. */
  lemma TokenCut(b: seq<byte>, b': seq<byte>, start: nat, m: nat, save: nat, d: set<byte>)
    requires Terminated(b, start) && m == Run(CStr(b, start), d, false) && start + m < |b|
    requires b[start] != NUL && b[start] !in d
    requires if b[start + m] == NUL then b' == b && save == start + m
      else b' == b[start + m := NUL] && save == start + m + 1
    ensures CStr(b', start) == CStr(b, start)[..m] && m > 0 && CStr(b, start) != []
    ensures Tokens(CStr(b, start)[m..], d) == Tokens(CStr(b', save), d)
    ensures Terminated(b', save)
  {
    hide CStr, Run, Tokens;
    RunInBuffer(b, start, d, false);
    StillTerminated(b, start, start + m);
    TerminatedAfter(b, b', start + m, save);
    CStrDrop(b, start, m);
    NotEmpty(b, start, d);
    if b[start + m] == NUL {
      assert CStr(b, start)[..m] == CStr(b, start);
    } else {
      CStrCut(b, b', start, m);
      TokensFromDelimiter(b, b', start + m, d);
    }
  }

  lemma NotEmpty(b: seq<byte>, start: nat, d: set<byte>)
    requires start < |b| && b[start] != NUL && b[start] !in d
    ensures CStr(b, start) != [] && Run(CStr(b, start), d, false) > 0
  {
    assert CStr(b, start)[0] == b[start];
  }

  lemma TokensFromDelimiter(b: seq<byte>, b': seq<byte>, end: nat, d: set<byte>)
    requires end < |b| && b[end] != NUL && b[end] in d && b' == b[end := NUL]
    ensures Tokens(CStr(b, end), d) == Tokens(CStr(b', end + 1), d)
  {
    CStrSuffix(b, b', end + 1);
    assert CStr(b, end) == [b[end]] + CStr(b, end + 1);
    TokensAfterDelimiter(CStr(b, end), d);
  }

  lemma TerminatedAfter(b: seq<byte>, b': seq<byte>, end: nat, save: nat)
    requires Terminated(b, end) && end < |b|
    requires if b[end] == NUL then b' == b && save == end else b' == b[end := NUL] && save == end + 1
    ensures Terminated(b', save)
  {
    var k :| end <= k < |b| && b[k] == NUL;
    assert b'[k] == NUL;
  }

  lemma StillTerminated(b: seq<byte>, i: nat, j: nat)
    requires Terminated(b, i) && i <= j && forall k :: i <= k < j && k < |b| ==> b[k] != NUL
    ensures Terminated(b, j)
  {
    var k :| i <= k < |b| && b[k] == NUL;
    assert j <= k;
  }

  /** Bytes that do not change from save on leave the rest of the string as it was. */
  lemma RestAsBefore(b: seq<byte>, b': seq<byte>, s: nat, save: nat)
    requires |b'| == |b| && s <= save <= |b| && forall k :: s <= k < save ==> b[k] != NUL
    requires forall k :: save <= k < |b| ==> b'[k] == b[k]
    ensures save - s <= |CStr(b, s)| && CStr(b', save) == CStr(b, s)[save - s..]
  {
    CStrDrop(b, s, save - s);
    CStrSuffix(b, b', save);
  }

  /** strtok_r: the index of the next token, which now ends in a null byte, and
      where to go on.  What follows is left as it was, as the next call may have other
      delimiters. */
  method StrtokR(buf: array<byte>, s: nat, d: set<byte>) returns (token: Option<nat>, save: nat)
    requires Terminated(buf[..], s)
    modifies buf
    ensures Terminated(buf[..], save) && s <= save
    ensures save - s <= |CStr(old(buf[..]), s)| && CStr(buf[..], save) == CStr(old(buf[..]), s)[save - s..]
    ensures token.None? ==> Tokens(CStr(old(buf[..]), s), d) == []
    ensures token.Some? ==> s <= token.value < buf.Length && CStr(buf[..], token.value) != []
    ensures token.Some? ==>
      Tokens(CStr(old(buf[..]), s), d) == [CStr(buf[..], token.value)] + Tokens(CStr(buf[..], save), d)
  {
    hide CStr, Run, Tokens;
    ghost var b := buf[..];
    var start := SkipRun(buf, s, d, true);
    RunInBuffer(b, s, d, true);
    StillTerminated(b, s, start);
    if buf[start] == NUL {
      NoToken(b, s, start, d);
      RestAsBefore(b, b, s, start);
      return None, start;
    }
    var end := SkipRun(buf, start, d, false);
    RunInBuffer(b, start, d, false);
    token := Some(start);
    if buf[end] != NUL {
      buf[end] := NUL;
      save := end + 1;
    } else {
      save := end;
    }
    StrtokStep(b, buf[..], s, start, end, save, d);
    RestAsBefore(b, buf[..], s, save);
  }
}
