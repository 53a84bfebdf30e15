/**
 The argument stack of userprog/process.c, format_stack_args, and the name of the file
 that load opens.  The stack is one zeroed page; index i of it is user address
 PAGE_BASE + i.
 */
module ArgStack {
  import opened Common
  import opened Strtok

  const SPACE: set<byte> := {0x20}
  const LOAD_DELIMITERS: set<byte> := {0x20, 0x09, 0x0a}
  const PAGE_BASE := 0xbfff_f000   // PHYS_BASE - PGSIZE
  const BUFFER := 100              // the size of the copies of the command line

  // --------------------------------------------------------- the stack page

  /** A word in memory, lowest byte first. */
  function WordBytes(w: nat): (r: seq<byte>)
    ensures |r| == 4
  {
    [(w % 256) as byte, (w / 0x100 % 256) as byte, (w / 0x1_0000 % 256) as byte, (w / 0x100_0000 % 256) as byte]
  }

  /** The word at an index. */
  function WordAt(page: seq<byte>, i: nat): nat
    requires i + 4 <= |page|
  {
    page[i] as nat + 0x100 * page[i + 1] as nat + 0x1_0000 * page[i + 2] as nat + 0x100_0000 * page[i + 3] as nat
  }

  lemma WordOfBytes(page: seq<byte>, i: nat, w: nat)
    requires i + 4 <= |page| && page[i..i + 4] == WordBytes(w) && w < 0x1_0000_0000
    ensures WordAt(page, i) == w
  {
    var b := WordBytes(w);
    assert page[i] == page[i..i + 4][0] == b[0] && page[i + 1] == page[i..i + 4][1] == b[1];
    assert page[i + 2] == page[i..i + 4][2] == b[2] && page[i + 3] == page[i..i + 4][3] == b[3];
    BytesOfWord(w);
  }

  lemma BytesOfWord(w: nat)
    requires w < 0x1_0000_0000
    ensures w == w % 256 + 0x100 * (w / 0x100 % 256) + 0x1_0000 * (w / 0x1_0000 % 256) + 0x100_0000 * (w / 0x100_0000 % 256)
  {
    assert w / 0x100 == w / 0x100 % 256 + 256 * (w / 0x1_0000);
    assert w / 0x1_0000 == w / 0x1_0000 % 256 + 256 * (w / 0x100_0000);
  }

  /** The first n of some words in memory. */
  function Words(ws: seq<nat>, n: nat): (r: seq<byte>)
    requires n <= |ws|
    ensures |r| == 4 * n
  {
    if n == 0 then [] else Words(ws, n - 1) + WordBytes(ws[n - 1])
  }

  lemma {:induction false} WordsAt(ws: seq<nat>, n: nat, k: nat)
    requires k < n <= |ws|
    ensures Words(ws, n)[4 * k..4 * k + 4] == WordBytes(ws[k])
  {
    if k < n - 1 {
      WordsAt(ws, n - 1, k);
      assert Words(ws, n)[4 * k..4 * k + 4] == Words(ws, n - 1)[4 * k..4 * k + 4];
    }
  }

  /** The size of the first k tokens with their null bytes. */
  function TotalBefore(tokens: seq<seq<byte>>, k: nat): nat
    requires k <= |tokens|
  {
    if k == 0 then 0 else TotalBefore(tokens, k - 1) + |tokens[k - 1]| + 1
  }

  /** The first k tokens, each with its null byte. */
  function Strings(tokens: seq<seq<byte>>, k: nat): (r: seq<byte>)
    requires k <= |tokens|
    ensures |r| == TotalBefore(tokens, k)
  {
    if k == 0 then [] else Strings(tokens, k - 1) + tokens[k - 1] + [NUL]
  }

  lemma {:induction false} StringsGrow(tokens: seq<seq<byte>>, k: nat, n: nat)
    requires k <= n <= |tokens|
    ensures TotalBefore(tokens, k) <= TotalBefore(tokens, n)
    ensures Strings(tokens, n)[..TotalBefore(tokens, k)] == Strings(tokens, k)
  {
    if k < n {
      StringsGrow(tokens, k, n - 1);
    }
  }

  lemma {:induction false} TotalFront(tokens: seq<seq<byte>>, k: nat)
    requires 0 < k <= |tokens|
    ensures TotalBefore(tokens, k) == |tokens[0]| + 1 + TotalBefore(tokens[1..], k - 1)
  {
    if k > 1 {
      TotalFront(tokens, k - 1);
    }
  }

  lemma {:induction false} TotalIsSize(tokens: seq<seq<byte>>)
    ensures TotalBefore(tokens, |tokens|) == TotalSize(tokens)
  {
    if tokens != [] {
      TotalFront(tokens, |tokens|);
      TotalIsSize(tokens[1..]);
    }
  }

  lemma {:induction false} TotalAtLeast(tokens: seq<seq<byte>>, k: nat)
    requires k <= |tokens| && forall i :: 0 <= i < |tokens| ==> tokens[i] != []
    ensures TotalBefore(tokens, k) >= 2 * k
  {
    if k > 0 {
      TotalAtLeast(tokens, k - 1);
    }
  }

  /** Word k at the stack pointer: the return address, argc, argv, the addresses of
      the strings, which begin at index base, and a null pointer. */
  function StackWord(tokens: seq<seq<byte>>, esp: nat, base: nat, k: nat): nat {
    if k == 1 then |tokens|
    else if k == 2 then PAGE_BASE + esp + 12
    else if 3 <= k < 3 + |tokens| then PAGE_BASE + base + TotalBefore(tokens, k - 3)
    else 0
  }

  function WordList(tokens: seq<seq<byte>>, esp: nat, base: nat): (r: seq<nat>)
    ensures |r| == |tokens| + 4
    ensures forall k :: 0 <= k < |r| ==> r[k] == StackWord(tokens, esp, base, k)
  {
    seq(|tokens| + 4, k requires 0 <= k => StackWord(tokens, esp, base, k))
  }

  /** Reading argc and argv back from the stack yields the tokens. */
  ghost predicate StackHolds(page: seq<byte>, esp: nat, tokens: seq<seq<byte>>) {
    var argc := |tokens|;
    && |page| == PGSIZE && esp % 4 == 0 && esp + 4 * (argc + 4) <= PGSIZE
    && WordAt(page, esp) == 0
    && WordAt(page, esp + 4) == argc
    && WordAt(page, esp + 8) == PAGE_BASE + esp + 12
    && (forall k: nat :: k < argc ==> ArgvHolds(page, esp, k, tokens[k]))
    && WordAt(page, esp + 12 + 4 * argc) == 0
  }

  /** argv[k] points to the string. */
  ghost predicate ArgvHolds(page: seq<byte>, esp: nat, k: nat, token: seq<byte>)
    requires |page| == PGSIZE && esp + 12 + 4 * k + 4 <= PGSIZE
  {
    var a := WordAt(page, esp + 12 + 4 * k);
    PAGE_BASE <= a < PAGE_BASE + PGSIZE && CStr(page, a - PAGE_BASE) == token
  }

  /** A finished stack page. */
  ghost predicate Laid(page: seq<byte>, esp: nat, base: nat, tokens: seq<seq<byte>>) {
    && |page| == PGSIZE && base + TotalBefore(tokens, |tokens|) == PGSIZE
    && esp % 4 == 0 && esp + 4 * (|tokens| + 4) <= base
    && page[esp..esp + 4 * (|tokens| + 4)] == Words(WordList(tokens, esp, base), |tokens| + 4)
    && page[base..] == Strings(tokens, |tokens|)
  }

  lemma SliceOfSlice(s: seq<byte>, a: nat, b: nat, i: nat, j: nat)
    requires a <= b <= |s| && i <= j <= b - a
    ensures s[a..b][i..j] == s[a + i..a + j]
    ensures i < j ==> s[a..b][i] == s[a + i]
  {
    var t := s[a..b];
    var x, y := t[i..j], s[a + i..a + j];
    forall k | 0 <= k < j - i ensures x[k] == y[k] {
      assert x[k] == t[i + k] == s[a + i + k];
    }
  }

  lemma WordOnStack(page: seq<byte>, esp: nat, base: nat, tokens: seq<seq<byte>>, k: nat)
    requires Laid(page, esp, base, tokens) && k < |tokens| + 4
    requires WordList(tokens, esp, base)[k] < 0x1_0000_0000
    ensures WordAt(page, esp + 4 * k) == WordList(tokens, esp, base)[k]
  {
    var ws, n := WordList(tokens, esp, base), |tokens| + 4;
    hide Words, WordAt, WordBytes, WordList, Strings, TotalBefore;
    WordsAt(ws, n, k);
    SliceOfSlice(page, esp, esp + 4 * n, 4 * k, 4 * k + 4);
    WordOfBytes(page, esp + 4 * k, ws[k]);
  }

  /** The string at an index is what the bytes there say, up to a null byte. */
  lemma {:induction false} CStrIs(page: seq<byte>, i: nat, s: seq<byte>)
    requires CString(s) && i + |s| < |page| && page[i..i + |s|] == s && page[i + |s|] == NUL
    ensures CStr(page, i) == s
    decreases |s|
  {
    if s != [] {
      assert page[i] == page[i..i + |s|][0];
      assert page[i + 1..i + |s|] == page[i..i + |s|][1..];
      CStrIs(page, i + 1, s[1..]);
    }
  }

  lemma {:induction false} TokenInStrings(tokens: seq<seq<byte>>, n: nat, k: nat)
    requires k < n <= |tokens|
    ensures var at, len := TotalBefore(tokens, k), |tokens[k]|;
      && at + len < TotalBefore(tokens, n)
      && Strings(tokens, n)[at..at + len] == tokens[k] && Strings(tokens, n)[at + len] == NUL
  {
    if k < n - 1 {
      TokenInStrings(tokens, n - 1, k);
      var at, len := TotalBefore(tokens, k), |tokens[k]|;
      assert Strings(tokens, n)[at..at + len] == Strings(tokens, n - 1)[at..at + len];
    }
  }

  lemma SuffixOfPage(page: seq<byte>, base: nat, all: seq<byte>, at: nat, n: nat)
    requires base <= |page| && page[base..] == all && at + n < |all|
    ensures page[base + at..base + at + n] == all[at..at + n] && page[base + at + n] == all[at + n]
  {
    assert page[base..|page|] == all;
    SliceOfSlice(page, base, |page|, at, at + n);
    SliceOfSlice(page, base, |page|, at + n, at + n + 1);
  }

  lemma StringOnStack(page: seq<byte>, base: nat, tokens: seq<seq<byte>>, k: nat)
    requires |page| == PGSIZE && base + TotalBefore(tokens, |tokens|) == PGSIZE
    requires page[base..] == Strings(tokens, |tokens|) && k < |tokens| && CString(tokens[k])
    ensures base + TotalBefore(tokens, k) < PGSIZE && CStr(page, base + TotalBefore(tokens, k)) == tokens[k]
  {
    hide Strings, TotalBefore, CStr;
    TokenInStrings(tokens, |tokens|, k);
    SuffixOfPage(page, base, Strings(tokens, |tokens|), TotalBefore(tokens, k), |tokens[k]|);
    CStrIs(page, base + TotalBefore(tokens, k), tokens[k]);
  }

  /** A finished page holds the tokens. */
  lemma LaidHolds(page: seq<byte>, esp: nat, base: nat, tokens: seq<seq<byte>>)
    requires Laid(page, esp, base, tokens) && forall k :: 0 <= k < |tokens| ==> CString(tokens[k])
    ensures StackHolds(page, esp, tokens)
  {
    hide WordList, Words, Strings, TotalBefore, CStr, WordAt;
    WordOnStack(page, esp, base, tokens, 0);
    WordOnStack(page, esp, base, tokens, 1);
    WordOnStack(page, esp, base, tokens, 2);
    WordOnStack(page, esp, base, tokens, |tokens| + 3);
    forall k: nat | k < |tokens| ensures ArgvHolds(page, esp, k, tokens[k]) {
      StringOnStack(page, base, tokens, k);
      WordOnStack(page, esp, base, tokens, 3 + k);
    }
  }

  // --------------------------------------------------------- building the stack

  /** A copy of the command line in a zeroed buffer. */
  method CopyOf(cmdStr: seq<byte>) returns (buf: array<byte>)
    requires CString(cmdStr) && |cmdStr| < BUFFER
    ensures fresh(buf) && Terminated(buf[..], 0) && CStr(buf[..], 0) == cmdStr
  {
    buf := new byte[BUFFER](k requires 0 <= k < BUFFER => if k < |cmdStr| then cmdStr[k] else NUL);
    assert buf[..][|cmdStr|] == NUL;
    assert buf[..][0..|cmdStr|] == cmdStr;
    CStrIs(buf[..], 0, cmdStr);
  }

  /** The tokens found so far, the next one if there is one, and those to come. */
  ghost predicate Scanning(all: seq<seq<byte>>, i: nat, buf: seq<byte>, token: Option<nat>, save: nat) {
    && i <= |all| && Terminated(buf, save)
    && (token.None? ==> i == |all|)
    && (token.Some? ==> token.value < |buf| && all[i..] == [CStr(buf, token.value)] + Tokens(CStr(buf, save), SPACE))
  }

  /** The next call of strtok_r. */
  method NextToken(ghost all: seq<seq<byte>>, ghost i: nat, buf: array<byte>, s: nat)
    returns (token: Option<nat>, save: nat)
    requires i <= |all| && Terminated(buf[..], s) && all[i..] == Tokens(CStr(buf[..], s), SPACE)
    modifies buf
    ensures Scanning(all, i, buf[..], token, save)
  {
    hide CStr, Tokens;
    token, save := StrtokR(buf, s, SPACE);
  }

  lemma RestOfTokens(all: seq<seq<byte>>, i: nat, t: seq<byte>, rest: seq<seq<byte>>)
    requires i <= |all| && all[i..] == [t] + rest
    ensures i < |all| && all[i] == t && all[i + 1..] == rest
  {
    assert all[i..][0] == t;
    assert all[i + 1..] == all[i..][1..];
  }

  /** The first loop: the number of tokens and the bytes they take. */
  method CountTokens(cmdStr: seq<byte>) returns (argc: nat, byteCount: nat)
    requires CString(cmdStr) && |cmdStr| < BUFFER
    ensures argc == |Tokens(cmdStr, SPACE)| && byteCount == TotalBefore(Tokens(cmdStr, SPACE), argc)
  {
    hide CStr, Tokens;
    ghost var all := Tokens(cmdStr, SPACE);
    var buf := CopyOf(cmdStr);
    argc, byteCount := 0, 0;
    assert all[0..] == all;
    var token, save := NextToken(all, 0, buf, 0);
    while token.Some?
      invariant Scanning(all, argc, buf[..], token, save)
      invariant byteCount == TotalBefore(all, argc)
      decreases |all| - argc, token.Some?
    {
      RestOfTokens(all, argc, CStr(buf[..], token.value), Tokens(CStr(buf[..], save), SPACE));
      argc := argc + 1;
      var length := StrLen(buf, token.value);
      byteCount := byteCount + (length + 1);
      token, save := NextToken(all, argc, buf, save);
    }
  }

  /** strlen */
  method StrLen(buf: array<byte>, i: nat) returns (n: nat)
    requires i <= buf.Length
    ensures n == |CStr(buf[..], i)|
  {
    var s := CStr(buf[..], i);
    n := |s|;
  }

  /** Data stored at an index. */
  function Put(page: seq<byte>, i: nat, data: seq<byte>): (r: seq<byte>)
    requires i + |data| <= |page|
    ensures |r| == |page|
  {
    page[..i] + data + page[i + |data|..]
  }

  /** What was stored is there, and the rest as before. */
  lemma PutMeaning(page: seq<byte>, i: nat, data: seq<byte>, j: nat, n: nat)
    requires i + |data| <= |page| && j <= n <= |page|
    ensures Put(page, i, data)[i..i + |data|] == data
    ensures n <= i || i + |data| <= j ==> Put(page, i, data)[j..n] == page[j..n]
  {
  }

  method Store(page: array<byte>, i: nat, data: seq<byte>)
    requires i + |data| <= page.Length
    modifies page
    ensures page[..] == Put(old(page[..]), i, data)
  {
    forall k | 0 <= k < |data| {
      page[i + k] := data[k];
    }
  }

  /** The bytes that the padding loop writes: its pointer and its counter both go up, so
      it is every other byte, twice as far as the padding. */
  predicate LoopWrites(at: nat, padding: nat, k: nat) {
    at <= k < at + 2 * padding && (k - at) % 2 == 0
  }

  function AfterLoop(page: seq<byte>, at: nat, padding: nat): (r: seq<byte>)
    ensures |r| == |page|
  {
    seq(|page|, k requires 0 <= k < |page| => if LoopWrites(at, padding, k) then NUL else page[k])
  }

  /** What the loop is for. */
  function PaddingCleared(page: seq<byte>, at: nat, padding: nat): (r: seq<byte>)
    ensures |r| == |page|
  {
    seq(|page|, k requires 0 <= k < |page| => if at <= k < at + padding then NUL else page[k])
  }

  /** The loop that clears the padding. */
  method ClearPadding(page: array<byte>, at: nat, padding: nat) returns (data: nat)
    requires padding > 0 ==> at + 2 * padding - 1 <= page.Length
    modifies page
    ensures data == at + padding && page[..] == AfterLoop(old(page[..]), at, padding)
  {
    data := at;
    for i := 0 to padding
      invariant data == at + i
      invariant forall k :: 0 <= k < page.Length ==> page[k] == if LoopWrites(at, i, k) then NUL else old(page[k])
    {
      page[data + i] := NUL;
      data := data + 1;
    }
  }

  /** The loop clears the padding and nothing else exactly on a page that is zero already
      at the odd bytes of the padding and at the even bytes beyond it. */
  lemma ClearsPaddingExactlyWhen(page: seq<byte>, at: nat, padding: nat)
    ensures AfterLoop(page, at, padding) == PaddingCleared(page, at, padding) <==>
      forall k :: 0 <= k < |page| && LoopWrites(at, padding, k) != (at <= k < at + padding) ==> page[k] == NUL
  {
    var loop, pad := AfterLoop(page, at, padding), PaddingCleared(page, at, padding);
    if loop == pad {
      forall k | 0 <= k < |page| && LoopWrites(at, padding, k) != (at <= k < at + padding) ensures page[k] == NUL {
        assert loop[k] == pad[k];
      }
    }
  }

  /** A page on which it does not: byte 1 of the padding stays, and byte 2, which is not
      padding, is cleared. */
  lemma PaddingLoopMisses()
    ensures AfterLoop([7, 7, 7, 7], 0, 2) == [0, 7, 0, 7] && PaddingCleared([7, 7, 7, 7], 0, 2) == [0, 0, 7, 7]
  {
  }

  /** On zeros the loop changes nothing. */
  lemma ZeroPaddingStays(page: seq<byte>, at: nat, padding: nat)
    requires at + 2 * padding <= |page| && (padding > 0 ==> AllZeros(page[at..at + 2 * padding]))
    ensures AfterLoop(page, at, padding) == page
  {
    forall k | 0 <= k < |page| && LoopWrites(at, padding, k) ensures page[k] == NUL {
      assert page[at..at + 2 * padding][k - at] == page[k];
    }
  }

  /** The page while the strings are being copied: the words and strings of the first
      i tokens are there, the words after them are still zero. */
  ghost predicate Building(page: seq<byte>, esp: nat, base: nat, tokens: seq<seq<byte>>, i: nat) {
    && i <= |tokens| && |page| == PGSIZE && base + TotalBefore(tokens, |tokens|) == PGSIZE
    && esp + 4 * (|tokens| + 4) <= base && base + TotalBefore(tokens, i) <= PGSIZE
    && page[esp..esp + 4 * (3 + i)] == Words(WordList(tokens, esp, base), 3 + i)
    && AllZeros(page[esp + 4 * (3 + i)..esp + 4 * (|tokens| + 4)])
    && page[base..base + TotalBefore(tokens, i)] == Strings(tokens, i)
  }

  /** The two stores for token number i. */
  lemma BuildOneMore(page: seq<byte>, esp: nat, base: nat, tokens: seq<seq<byte>>, i: nat)
    requires Building(page, esp, base, tokens, i) && i < |tokens|
    ensures base + TotalBefore(tokens, i) + |tokens[i]| + 1 <= PGSIZE == |page| && esp + 4 * (3 + i) + 4 <= PGSIZE
    ensures TotalBefore(tokens, i + 1) == TotalBefore(tokens, i) + |tokens[i]| + 1
    ensures var p1 := Put(page, esp + 4 * (3 + i), WordBytes(PAGE_BASE + base + TotalBefore(tokens, i)));
      Building(Put(p1, base + TotalBefore(tokens, i), tokens[i] + [NUL]), esp, base, tokens, i + 1)
  {
    hide Words, WordList, Strings, WordBytes, TotalBefore, Put, AllZeros;
    OneWordMore(tokens, esp, base, i);
    OneStringMore(tokens, i);
    var at, end := esp + 4 * (3 + i), esp + 4 * (|tokens| + 4);
    var d := base + TotalBefore(tokens, i);
    var w := WordBytes(PAGE_BASE + base + TotalBefore(tokens, i));
    var p1 := Put(page, at, w);
    var p2 := Put(p1, d, tokens[i] + [NUL]);
    WordStored(page, esp, at, end, w);
    PutMeaning(p1, d, tokens[i] + [NUL], esp, at + 4);
    PutMeaning(p1, d, tokens[i] + [NUL], at + 4, end);
    PutMeaning(page, at, w, base, d);
    StringStored(p1, base, d, tokens[i] + [NUL]);
  }

  lemma OneWordMore(tokens: seq<seq<byte>>, esp: nat, base: nat, i: nat)
    requires i < |tokens|
    ensures Words(WordList(tokens, esp, base), 3 + (i + 1)) ==
      Words(WordList(tokens, esp, base), 3 + i) + WordBytes(PAGE_BASE + base + TotalBefore(tokens, i))
  {
  }

  lemma OneStringMore(tokens: seq<seq<byte>>, i: nat)
    requires i < |tokens|
    ensures Strings(tokens, i + 1) == Strings(tokens, i) + (tokens[i] + [NUL])
    ensures TotalBefore(tokens, i + 1) == TotalBefore(tokens, i) + |tokens[i]| + 1 <= TotalBefore(tokens, |tokens|)
  {
    StringsGrow(tokens, i + 1, |tokens|);
  }

  lemma WordStored(page: seq<byte>, esp: nat, at: nat, end: nat, w: seq<byte>)
    requires esp <= at && at + 4 <= end <= |page| && |w| == 4
    ensures Put(page, at, w)[esp..at + 4] == page[esp..at] + w
    ensures AllZeros(page[at..end]) ==> AllZeros(Put(page, at, w)[at + 4..end])
  {
    var p := Put(page, at, w);
    assert p[at + 4..end] == page[at + 4..end] == page[at..end][4..];
  }

  lemma StringStored(page: seq<byte>, base: nat, d: nat, data: seq<byte>)
    requires base <= d && d + |data| <= |page|
    ensures Put(page, d, data)[base..d + |data|] == page[base..d] + data
  {
  }

  /** When the last string is in place the page is finished. */
  lemma BuiltIsLaid(page: seq<byte>, esp: nat, base: nat, tokens: seq<seq<byte>>)
    requires Building(page, esp, base, tokens, |tokens|) && esp % 4 == 0
    ensures Laid(page, esp, base, tokens)
  {
    var at := esp + 4 * (3 + |tokens|);
    var zero := page[at..at + 4];
    assert zero == WordBytes(0);
    assert page[esp..at + 4] == page[esp..at] + zero;
    assert page[base..PGSIZE] == page[base..];
  }

  /** The stack of a command line of less than 100 bytes fits in its page. */
  lemma StackFits(cmdStr: seq<byte>)
    requires |cmdStr| < BUFFER
    ensures var tokens := Tokens(cmdStr, SPACE); var argc, byteCount := |tokens|, TotalBefore(tokens, |tokens|);
      argc <= 50 && 2 * argc <= byteCount <= BUFFER && (argc == 0 ==> byteCount == 0)
  {
    hide Tokens, Gaps, Interleaved;
    TokensSize(cmdStr, SPACE);
    TokensAndGapsAreGood(cmdStr, SPACE);
    TotalIsSize(Tokens(cmdStr, SPACE));
    TotalAtLeast(Tokens(cmdStr, SPACE), |Tokens(cmdStr, SPACE)|);
  }

  ghost predicate AllStrings(tokens: seq<seq<byte>>) {
    forall k :: 0 <= k < |tokens| ==> CString(tokens[k])
  }

  lemma OneMoreString(t: seq<byte>, tokens: seq<seq<byte>>)
    requires CString(t) && AllStrings(tokens)
    ensures AllStrings([t] + tokens)
  {
  }

  /** Tokens are C strings. */
  lemma {:induction false} TokensAreStrings(s: seq<byte>)
    requires CString(s)
    ensures AllStrings(Tokens(s, SPACE))
    decreases |s|
  {
    hide CString, AllStrings, Tokens;
    FirstToken(s, SPACE);
    var n := Run(s, SPACE, true);
    var rest := s[n..];
    CStringParts(s, n);
    if rest == [] {
      NoStrings();
    } else {
      var m := Run(rest, SPACE, false);
      CStringParts(rest, m);
      TokensAreStrings(rest[m..]);
      OneMoreString(rest[..m], Tokens(rest[m..], SPACE));
    }
  }

  lemma NoStrings()
    ensures AllStrings([])
  {
  }

  lemma CStringParts(s: seq<byte>, n: nat)
    requires CString(s) && n <= |s|
    ensures CString(s[..n]) && CString(s[n..])
  {
  }

  lemma ZeroSuffix(page: seq<byte>, i: nat)
    requires i <= |page| && AllZeros(page)
    ensures AllZeros(page[i..])
  {
  }

  /** The first three words on a zeroed page. */
  lemma FirstWords(zeros: seq<byte>, esp: nat, base: nat, tokens: seq<seq<byte>>, padding: nat)
    requires |zeros| == PGSIZE && AllZeros(zeros) && base + TotalBefore(tokens, |tokens|) == PGSIZE
    requires esp + 4 * (|tokens| + 4) + padding == base && base + padding <= PGSIZE
    ensures var p1 := Put(zeros, esp, WordBytes(0)); var p2 := Put(p1, esp + 4, WordBytes(|tokens|));
      var p3 := Put(p2, esp + 8, WordBytes(PAGE_BASE + esp + 12));
      && Building(p3, esp, base, tokens, 0)
      && AllZeros(p3[base - padding..base + padding])
  {
    hide Words, WordList, Strings, TotalBefore, WordBytes, Put, AllZeros, Building;
    var w0, w1, w2 := WordBytes(0), WordBytes(|tokens|), WordBytes(PAGE_BASE + esp + 12);
    var p3 := Put(Put(Put(zeros, esp, w0), esp + 4, w1), esp + 8, w2);
    ThreePuts(zeros, esp, w0, w1, w2);
    ZeroSuffix(zeros, esp + 12);
    BuildingStarts(p3, esp, base, tokens);
    ZeroPart(p3, esp + 12, base - padding, base + padding);
  }

  lemma BuildingStarts(page: seq<byte>, esp: nat, base: nat, tokens: seq<seq<byte>>)
    requires |page| == PGSIZE && base + TotalBefore(tokens, |tokens|) == PGSIZE && esp + 4 * (|tokens| + 4) <= base
    requires page[esp..esp + 12] == WordBytes(0) + WordBytes(|tokens|) + WordBytes(PAGE_BASE + esp + 12)
    requires AllZeros(page[esp + 12..])
    ensures Building(page, esp, base, tokens, 0)
  {
    ThreeWords(tokens, esp, base);
    hide Words, WordList, Strings, TotalBefore, WordBytes, AllZeros;
    ZeroPart(page, esp + 12, esp + 12, esp + 4 * (|tokens| + 4));
    assert page[base..base] == [];
  }

  lemma ThreeWords(tokens: seq<seq<byte>>, esp: nat, base: nat)
    ensures Words(WordList(tokens, esp, base), 3) ==
      WordBytes(0) + WordBytes(|tokens|) + WordBytes(PAGE_BASE + esp + 12)
    ensures Strings(tokens, 0) == [] && TotalBefore(tokens, 0) == 0
  {
    var ws := WordList(tokens, esp, base);
    assert Words(ws, 1) == WordBytes(0);
    assert Words(ws, 2) == WordBytes(0) + WordBytes(|tokens|);
  }

  lemma ThreePuts(page: seq<byte>, esp: nat, w0: seq<byte>, w1: seq<byte>, w2: seq<byte>)
    requires |w0| == |w1| == |w2| == 4 && esp + 12 <= |page|
    ensures var p3 := Put(Put(Put(page, esp, w0), esp + 4, w1), esp + 8, w2);
      p3[esp..esp + 12] == w0 + w1 + w2 && p3[esp + 12..] == page[esp + 12..]
  {
  }

  lemma ZeroPart(page: seq<byte>, from: nat, i: nat, j: nat)
    requires from <= i <= j <= |page| && AllZeros(page[from..])
    ensures AllZeros(page[i..j])
  {
    assert page[i..j] == page[from..][i - from..j - from];
  }

  /** The last loop: the strings and their addresses. */
  method BuildStrings(cmdStr: seq<byte>, page: array<byte>, esp: nat, base: nat, argc: nat)
    requires CString(cmdStr) && |cmdStr| < BUFFER && argc == |Tokens(cmdStr, SPACE)|
    requires Building(page[..], esp, base, Tokens(cmdStr, SPACE), 0)
    modifies page
    ensures Building(page[..], esp, base, Tokens(cmdStr, SPACE), argc)
  {
    hide CStr, Tokens, Words, WordBytes, WordList, Strings, TotalBefore, Building, Put, Scanning;
    ghost var all := Tokens(cmdStr, SPACE);
    var buf := CopyOf(cmdStr);
    assert all[0..] == all;
    var token, save := NextToken(all, 0, buf, 0);
    var espData := base;
    NothingBefore(all);
    for i := 0 to argc
      invariant Scanning(all, i, buf[..], token, save)
      invariant Building(page[..], esp, base, all, i) && espData == base + TotalBefore(all, i)
    {
      NotLast(all, i, buf[..], token, save);
      var string_ := CStr(buf[..], token.value);
      espData := StoreToken(page, esp, base, all, i, string_, espData);
      token, save := NextToken(all, i + 1, buf, save);
    }
  }

  lemma NothingBefore(tokens: seq<seq<byte>>)
    ensures TotalBefore(tokens, 0) == 0
  {
  }

  /** One round of it. */
  method StoreToken(page: array<byte>, esp: nat, ghost base: nat, ghost all: seq<seq<byte>>, i: nat,
                    token: seq<byte>, espData: nat) returns (next: nat)
    requires Building(page[..], esp, base, all, i) && i < |all| && token == all[i]
    requires espData == base + TotalBefore(all, i)
    modifies page
    ensures Building(page[..], esp, base, all, i + 1) && next == base + TotalBefore(all, i + 1)
  {
    hide Words, WordBytes, WordList, Strings, TotalBefore, Building, Put;
    BuildOneMore(page[..], esp, base, all, i);
    Store(page, esp + 4 * (3 + i), WordBytes(PAGE_BASE + espData));
    Store(page, espData, token + [NUL]);
    next := espData + |token| + 1;
  }

  lemma NotLast(all: seq<seq<byte>>, i: nat, buf: seq<byte>, token: Option<nat>, save: nat)
    requires Scanning(all, i, buf, token, save) && i < |all|
    ensures token.Some? && token.value < |buf| && all[i] == CStr(buf, token.value)
    ensures Terminated(buf, save) && all[i + 1..] == Tokens(CStr(buf, save), SPACE)
  {
    RestOfTokens(all, i, CStr(buf, token.value), Tokens(CStr(buf, save), SPACE));
  }

  /** format_stack_args: argc and argv can be read back from the stack that it builds on
      a zeroed page, which takes no more than 3 bytes of padding. */
  method FormatStackArgs(cmdStr: seq<byte>, page: array<byte>) returns (esp: nat)
    requires CString(cmdStr) && |cmdStr| < BUFFER
    requires page.Length == PGSIZE && AllZeros(page[..])
    modifies page
    ensures StackHolds(page[..], esp, Tokens(cmdStr, SPACE))
    ensures var tokens := Tokens(cmdStr, SPACE);
      && PGSIZE - 4 < esp + 4 * (|tokens| + 4) + TotalSize(tokens) <= PGSIZE
      && page[esp + 4] == |tokens|
  {
    hide CStr, Tokens, Words, WordBytes, WordList, Strings, StackHolds, Laid, Building, Put, TotalBefore;
    hide AllZeros, AfterLoop, CString;
    ghost var tokens := Tokens(cmdStr, SPACE);
    var argc, byteCount := CountTokens(cmdStr);
    StackFits(cmdStr);
    var padding: nat := 0;
    if byteCount % 4 != 0 {
      padding := 4 - byteCount % 4;
    }
    var espData: nat := PGSIZE - (byteCount + padding);
    ghost var base: nat := espData + padding;
    esp := espData - 4 * (argc + 4);
    FirstWords(page[..], esp, base, tokens, padding);
    Store(page, esp, WordBytes(0));
    Store(page, esp + 4, WordBytes(argc));
    Store(page, esp + 8, WordBytes(PAGE_BASE + esp + 12));
    ZeroPaddingStays(page[..], espData, padding);
    espData := ClearPadding(page, espData, padding);
    BuildStrings(cmdStr, page, esp, espData, argc);
    BuiltIsLaid(page[..], esp, base, tokens);
    TokensAreStrings(cmdStr);
    LaidHolds(page[..], esp, base, tokens);
    TotalIsSize(tokens);
    LowByteFirst(page[..], esp, tokens);
  }

  /** Words are stored with the low byte first: the byte at argc's address is argc. */
  lemma LowByteFirst(page: seq<byte>, esp: nat, tokens: seq<seq<byte>>)
    requires StackHolds(page, esp, tokens) && |tokens| < 256
    ensures page[esp + 4] == |tokens|
  {
    assert WordAt(page, esp + 4) == |tokens|;
  }

  // ------------------------------------------------------- the file to load

  /** The file that load opens: the first token, for spaces, tabs and newlines. */
  method FileToLoad(cmdStr: seq<byte>) returns (name: Option<seq<byte>>)
    requires CString(cmdStr) && |cmdStr| < BUFFER
    ensures name == FirstOf(Tokens(cmdStr, LOAD_DELIMITERS))
  {
    hide CStr, Tokens;
    var buf := CopyOf(cmdStr);
    var token, save := StrtokR(buf, 0, LOAD_DELIMITERS);
    return if token.Some? then Some(CStr(buf[..], token.value)) else None;
  }

  function FirstOf(tokens: seq<seq<byte>>): Option<seq<byte>> {
    if tokens == [] then None else Some(tokens[0])
  }

  /** The file opened is the one that argv[0] names exactly if argv[0] has no tab and no
      newline. */
  lemma LoadsArgv0ExactlyWhen(cmdStr: seq<byte>)
    requires Tokens(cmdStr, SPACE) != []
    ensures var argv := Tokens(cmdStr, SPACE);
      FirstOf(Tokens(cmdStr, LOAD_DELIMITERS)) == Some(argv[0]) <==> NoneIn(argv[0], LOAD_DELIMITERS)
  {
    var file := Tokens(cmdStr, LOAD_DELIMITERS);
    FirstToken(cmdStr, SPACE);
    FirstToken(cmdStr, LOAD_DELIMITERS);
    TokensAndGapsAreGood(cmdStr, LOAD_DELIMITERS);
    var n := Run(cmdStr, SPACE, true);
    var rest := cmdStr[n..];
    var m := Run(rest, SPACE, false);
    var argv0 := rest[..m];
    assert Tokens(cmdStr, SPACE)[0] == argv0;
    if NoneIn(argv0, LOAD_DELIMITERS) {
      assert rest[0] == argv0[0];
      RunIs(cmdStr, LOAD_DELIMITERS, true, n);
      forall i | 0 <= i < m ensures rest[i] !in LOAD_DELIMITERS {
        assert rest[i] == argv0[i];
      }
      RunIs(rest, LOAD_DELIMITERS, false, m);
    }
  }

  /** Where they differ: for "ls\tfoo" argv[0] is the whole line, and the file is "ls". */
  lemma TabSplitsFileName()
    ensures var line: seq<byte> := [0x6c, 0x73, 0x09, 0x66, 0x6f, 0x6f];
      Tokens(line, SPACE) == [line] && FirstOf(Tokens(line, LOAD_DELIMITERS)) == Some([0x6c, 0x73])
  {
    var line: seq<byte> := [0x6c, 0x73, 0x09, 0x66, 0x6f, 0x6f];
    RunIs(line, SPACE, true, 0);
    RunIs(line, SPACE, false, 6);
    RunIs(line, LOAD_DELIMITERS, true, 0);
    RunIs(line, LOAD_DELIMITERS, false, 2);
    assert line[0..] == line && line[..6] == line && line[6..] == [] && line[..2] == [0x6c, 0x73];
    FirstToken(line, SPACE);
    FirstToken(line, LOAD_DELIMITERS);
  }
}
