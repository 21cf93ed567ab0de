/**
 * The tokenizer `parser` and `arrayLength` of the shell.
 *
 * The input line is a NUL-terminated character buffer. The parser walks it
 * once with three flags (`start`, `command`, `quotation`), writes a NUL over
 * every character that ends a token, and stores in `parsed` the offset where
 * each token starts; a token is the C string read from that offset in the
 * final buffer. `Run` states the walk as a function of the original buffer,
 * `Parse` is the in-place method and is proved to follow `Run`.
 */
module Parser {
  import opened Wrappers

  /** Size of the input buffer and of the `parsed` pointer array. */
  const INPUT_SIZE: nat := 512

  const NUL: char := '\0'

  /** The separators of the shell: space, tab, carriage return, newline and bell. */
  predicate IsSeparator(c: char) {
    c == ' ' || c == '\t' || c == '\r' || c == '\n' || c == '\U{7}'
  }

  /** Index of the first NUL at or after `p`, or the end of the buffer. */
  function FirstNul(buf: seq<char>, p: nat): (e: nat)
    requires p <= |buf|
    ensures p <= e <= |buf|
    ensures e < |buf| ==> buf[e] == NUL
    ensures forall k :: p <= k < e ==> buf[k] != NUL
    decreases |buf| - p
  {
    if p == |buf| || buf[p] == NUL then p else FirstNul(buf, p + 1)
  }

  /** The C string that starts at offset `p` of the buffer. */
  function CStr(buf: seq<char>, p: nat): string
    requires p <= |buf|
  {
    buf[p..FirstNul(buf, p)]
  }

  /** `strlen` of the buffer. */
  function StrLen(buf: seq<char>): nat {
    FirstNul(buf, 0)
  }

  /**
   * The parser's state after some prefix of the line: the buffer with the
   * NULs written so far, the token offsets stored in `parsed`, the text of
   * each token as read when it was stored, and the three flags.
   */
  datatype Scan = Scan(buf: seq<char>, parsed: seq<nat>, words: seq<string>,
                       start: nat, command: bool, quotation: bool)

  /** One iteration of the parser's loop, on the character at index `i`. */
  function Step(s: Scan, i: nat): (r: Scan)
    requires s.start <= i < |s.buf|
    ensures |r.buf| == |s.buf|
    ensures forall k :: 0 <= k < |s.buf| && k != i ==> r.buf[k] == s.buf[k]
    ensures || (r.buf == s.buf && r.parsed == s.parsed && r.words == s.words)
            || (r.buf == s.buf[i := NUL] && r.parsed == s.parsed + [s.start] &&
                r.words == s.words + [CStr(r.buf, s.start)])
    ensures r.quotation == (if s.buf[i] == '"' then !s.quotation else s.quotation)
  {
    var c := s.buf[i];
    if s.quotation && c != '"' then
      s
    else if IsSeparator(c) then
      if s.command then
        var b := s.buf[i := NUL];
        s.(buf := b, parsed := s.parsed + [s.start], words := s.words + [CStr(b, s.start)],
           command := false, start := i + 1)
      else
        s.(start := i + 1)
    else if c == '"' then
      if !s.quotation then
        s.(quotation := true, start := i + 1)
      else
        var b := s.buf[i := NUL];
        s.(buf := b, parsed := s.parsed + [s.start], words := s.words + [CStr(b, s.start)],
           command := false, quotation := false)
    else
      s.(command := true)
  }

  /** The parser's state after its loop has handled the first `n` characters of `buf`. */
  function Run(buf: seq<char>, n: nat): (r: Scan)
    requires n <= |buf|
    ensures |r.buf| == |buf|
    ensures r.start <= n
    ensures |r.parsed| == |r.words| <= n
  {
    if n == 0 then Scan(buf, [], [], 0, false, false) else Step(Run(buf, n - 1), n - 1)
  }

  /** The parser never writes at or after the position it has reached. */
  lemma {:induction false} RunKeeps(buf: seq<char>, n: nat, k: nat)
    requires n <= k < |buf|
    ensures Run(buf, n).buf[k] == buf[k]
  {
    if n > 0 {
      RunKeeps(buf, n - 1, k);
    }
  }

  lemma RunKeepsSlice(buf: seq<char>, n: nat, p: nat, q: nat)
    requires n <= p <= q <= |buf|
    ensures Run(buf, n).buf[p..q] == buf[p..q]
  {
    forall k | p <= k < q
      ensures Run(buf, n).buf[k] == buf[k]
    {
      RunKeeps(buf, n, k);
    }
  }

  /** What a successful parse hands to the router. */
  datatype Command = Command(args: seq<string>, background: bool)

  /** The only parse error: a quotation mark still open at the end of the line. */
  datatype ParseError = UnclosedQuote

  /**
   * The result of parsing a NUL-terminated buffer: the tokens, without a
   * trailing `&`, which marks the command as background instead. A line
   * with no token at all is not background. The parse fails exactly when
   * the line holds an odd number of quotation marks, and otherwise the only
   * stored token it does not pass on is the `&` it reads as the marker.
   */
  function ParseLine(buf: seq<char>): (res: Result<Command, ParseError>)
    ensures res.Failure? <==> Quotes(buf[..StrLen(buf)]) % 2 == 1
    ensures res.Success? ==>
      res.value.args + (if res.value.background then ["&"] else []) == Run(buf, StrLen(buf)).words
    ensures res.Success? ==>
      (res.value.background <==> var w := Run(buf, StrLen(buf)).words; |w| > 0 && w[|w| - 1] == "&")
  {
    var r := Run(buf, StrLen(buf));
    QuotationIsParity(buf, StrLen(buf));
    if r.quotation then Failure(UnclosedQuote)
    else if |r.words| > 0 && r.words[|r.words| - 1] == "&" then
      Success(Command(r.words[..|r.words| - 1], true))
    else
      Success(Command(r.words, false))
  }

  /**
   * The background test as `parser` writes it: it compares the last token
   * stored, `parsed[argumentNumber - 1]`, with "&", and has no guard for a
   * line that stored no token at all.
   */
  predicate BackgroundAsWritten(words: seq<string>)
    requires |words| > 0
  {
    words[|words| - 1] == "&"
  }

  /** The buffer that holds `line` as a C string. */
  function Line(line: string): seq<char> {
    line + [NUL]
  }

  /**
   * `ptrs` is a NULL-terminated pointer array whose strings, read from
   * `buf`, are `args`.
   */
  ghost predicate Terminated(buf: seq<char>, ptrs: seq<Option<nat>>, args: seq<string>) {
    |args| < |ptrs| && ptrs[|args|] == None &&
    forall k :: 0 <= k < |args| ==>
      ptrs[k].Some? && ptrs[k].value <= |buf| && CStr(buf, ptrs[k].value) == args[k]
  }

  /**
   * Overwriting the character at `i` with a NUL does not change a C string
   * that already ends before `i`.
   */
  lemma CStrStable(buf: seq<char>, p: nat, i: nat)
    requires p <= i < |buf|
    requires FirstNul(buf, p) < i
    ensures FirstNul(buf[i := NUL], p) == FirstNul(buf, p)
    ensures CStr(buf[i := NUL], p) == CStr(buf, p)
  {
    FirstNulIs(buf[i := NUL], p, FirstNul(buf, p));
  }

  /** A NUL at `e` with none before it from `p` on is where the C string at `p` ends. */
  lemma FirstNulIs(buf: seq<char>, p: nat, e: nat)
    requires p <= e < |buf| && buf[e] == NUL
    requires forall k :: p <= k < e ==> buf[k] != NUL
    ensures FirstNul(buf, p) == e
  {
  }

  /**
   * Every stored offset, read as a C string, gives the token text recorded
   * when it was stored, and that string ends before position `n`.
   */
  ghost predicate ReadsBack(s: Scan, n: nat) {
    |s.parsed| == |s.words| && forall k :: 0 <= k < |s.parsed| ==> TokenReadsBack(s, n, k)
  }

  ghost predicate TokenReadsBack(s: Scan, n: nat, k: nat)
    requires k < |s.parsed| == |s.words|
  {
    s.parsed[k] <= |s.buf| && FirstNul(s.buf, s.parsed[k]) < n && CStr(s.buf, s.parsed[k]) == s.words[k]
  }

  /** One step of the parser keeps every token readable: later writes never change an earlier token. */
  lemma StepReadBack(s: Scan, i: nat)
    requires s.start <= i < |s.buf| && ReadsBack(s, i)
    ensures ReadsBack(Step(s, i), i + 1)
  {
    var r := Step(s, i);
    forall k | 0 <= k < |s.parsed|
      ensures r.parsed[k] == s.parsed[k] && r.words[k] == s.words[k]
      ensures TokenReadsBack(r, i + 1, k)
    {
      assert TokenReadsBack(s, i, k);
      if r.buf != s.buf {
        CStrStable(s.buf, s.parsed[k], i);
      }
    }
    if |r.parsed| > |s.parsed| {
      FirstNulBound(r.buf, s.start, i);
      assert TokenReadsBack(r, i + 1, |s.parsed|);
    }
  }

  /**
   * Storing the offsets of the first `kept` tokens followed by a NULL gives
   * a pointer array whose strings are those tokens.
   */
  lemma TerminatedArgs(s: Scan, n: nat, ptrs: seq<Option<nat>>, kept: nat)
    requires ReadsBack(s, n) && kept <= |s.parsed| < |ptrs|
    requires forall k :: 0 <= k < |s.parsed| ==> ptrs[k] == Some(s.parsed[k])
    ensures Terminated(s.buf, ptrs[kept := None][|s.parsed| := None], s.words[..kept])
  {
    forall k | 0 <= k < kept
      ensures s.parsed[k] <= |s.buf| && CStr(s.buf, s.parsed[k]) == s.words[..kept][k]
    {
      assert TokenReadsBack(s, n, k);
    }
  }

  /** A NUL at `e` ends the C string at `p` no later than `e`. */
  lemma FirstNulBound(buf: seq<char>, p: nat, e: nat)
    requires p <= e < |buf| && buf[e] == NUL
    ensures FirstNul(buf, p) <= e
  {
  }

  lemma {:induction false} RunReadBack(buf: seq<char>, n: nat)
    requires n <= |buf|
    ensures ReadsBack(Run(buf, n), n)
  {
    if n > 0 {
      var s := Run(buf, n - 1);
      RunReadBack(buf, n - 1);
      StepReadBack(s, n - 1);
      assert Run(buf, n) == Step(s, n - 1);
    }
  }

  /** Number of quotation marks in `s`. */
  function Quotes(s: string): nat {
    multiset(s)['"']
  }

  /** Whether an odd number of the first `n` characters are quotation marks, toggled mark by mark. */
  function QuoteOpen(buf: seq<char>, n: nat): bool
    requires n <= |buf|
  {
    if n == 0 then false else if buf[n - 1] == '"' then !QuoteOpen(buf, n - 1) else QuoteOpen(buf, n - 1)
  }

  /** Characters other than quotation marks leave the toggled flag as it was. */
  lemma {:induction false} QuoteOpenSkips(buf: seq<char>, m: nat, n: nat)
    requires m <= n <= |buf|
    requires forall k :: m <= k < n ==> buf[k] != '"'
    ensures QuoteOpen(buf, n) == QuoteOpen(buf, m)
  {
    if m < n {
      QuoteOpenSkips(buf, m, n - 1);
    }
  }

  /** The parser's `quotation` flag toggles on every quotation mark and on nothing else. */
  lemma {:induction false} QuotationToggles(buf: seq<char>, n: nat)
    requires n <= |buf|
    ensures Run(buf, n).quotation == QuoteOpen(buf, n)
  {
    if n > 0 {
      QuotationToggles(buf, n - 1);
      RunKeeps(buf, n - 1, n - 1);
    }
  }

  /** The toggled flag is the parity of the number of quotation marks. */
  lemma {:induction false} QuoteOpenIsParity(buf: seq<char>, n: nat)
    requires n <= |buf|
    ensures QuoteOpen(buf, n) <==> Quotes(buf[..n]) % 2 == 1
  {
    if n > 0 {
      QuoteOpenIsParity(buf, n - 1);
      QuotesSnoc(buf, n - 1);
    }
  }

  /** The parser is inside quotation marks exactly when it has seen an odd number of them. */
  lemma QuotationIsParity(buf: seq<char>, n: nat)
    requires n <= |buf|
    ensures Run(buf, n).quotation <==> Quotes(buf[..n]) % 2 == 1
  {
    QuotationToggles(buf, n);
    QuoteOpenIsParity(buf, n);
  }

  /** Appending one character adds one to the count when it is a quotation mark. */
  lemma QuotesSnoc(buf: seq<char>, i: nat)
    requires i < |buf|
    ensures Quotes(buf[..i + 1]) == Quotes(buf[..i]) + (if buf[i] == '"' then 1 else 0)
  {
    assert buf[..i + 1] == buf[..i] + [buf[i]];
  }

  /** `parser` returns -1 exactly when the line holds an odd number of quotation marks. */
  lemma ParseFailsIffQuoteOpen(line: string)
    requires NUL !in line
    ensures ParseLine(Line(line)).Failure? <==> Quotes(line) % 2 == 1
  {
    var buf := Line(line);
    FirstNulIs(buf, 0, |line|);
    QuotationIsParity(buf, |line|);
    assert buf[..|line|] == line;
  }

  /** Where the run of non-separator characters that ends at position `n` of `s` begins. */
  function RunStart(s: string, n: nat): (b: nat)
    requires n <= |s|
    ensures b <= n
    ensures forall k :: b <= k < n ==> !IsSeparator(s[k])
  {
    if n == 0 || IsSeparator(s[n - 1]) then n else RunStart(s, n - 1)
  }

  /**
   * The words of `s[..n]` that a separator ends: each separator closes the
   * non-empty run of other characters before it; a run at the very end is
   * not a word.
   */
  function WordsTo(s: string, n: nat): seq<string>
    requires n <= |s|
  {
    if n == 0 then []
    else if IsSeparator(s[n - 1]) && RunStart(s, n - 1) < n - 1 then
      WordsTo(s, n - 1) + [s[RunStart(s, n - 1)..n - 1]]
    else
      WordsTo(s, n - 1)
  }

  function Words(s: string): seq<string> {
    WordsTo(s, |s|)
  }

  /** A run of non-separators that follows a separator (or the start) begins there. */
  lemma {:induction false} RunStartAfterSeparator(s: string, b: nat, n: nat)
    requires b <= n <= |s| && (b == 0 || IsSeparator(s[b - 1]))
    requires forall k :: b <= k < n ==> !IsSeparator(s[k])
    ensures RunStart(s, n) == b
  {
    if n > b {
      RunStartAfterSeparator(s, b, n - 1);
    }
  }

  /** Characters that are not separators end no word. */
  lemma {:induction false} WordsToWithinRun(s: string, b: nat, n: nat)
    requires b <= n <= |s|
    requires forall k :: b <= k < n ==> !IsSeparator(s[k])
    ensures WordsTo(s, n) == WordsTo(s, b)
  {
    if n > b {
      WordsToWithinRun(s, b, n - 1);
    }
  }

  /**
   * Appending a word and a separator to text that ends at a word boundary
   * appends exactly that word.
   */
  lemma WordsSnoc(s: string, w: string, c: char)
    requires |w| > 0 && IsSeparator(c)
    requires forall k :: 0 <= k < |w| ==> !IsSeparator(w[k])
    requires |s| == 0 || IsSeparator(s[|s| - 1])
    ensures Words(s + w + [c]) == Words(s) + [w]
  {
    var t := s + w + [c];
    var n := |s| + |w|;
    assert t[..|s|] == s;
    assert t[|s|..n] == w;
    assert forall k :: |s| <= k < n ==> !IsSeparator(t[k]) by {
      forall k | |s| <= k < n
        ensures !IsSeparator(t[k])
      {
        assert t[k] == w[k - |s|];
      }
    }
    RunStartAfterSeparator(t, |s|, n);
    WordsToWithinRun(t, |s|, n);
    WordsToPrefix(t, s, |s|);
  }

  /**
   * The parser's state after the quotation-free prefix `buf[..n]`: its
   * tokens are the words of the prefix, `start` is where the trailing run
   * begins, `command` says whether that run is non-empty, and nothing from
   * `start` on has been overwritten.
   */
  ghost predicate WordsSoFar(s: Scan, buf: seq<char>, n: nat)
    requires n <= |buf|
  {
    && |s.buf| == |buf|
    && s.words == WordsTo(buf, n)
    && !s.quotation
    && s.start == RunStart(buf, n)
    && (s.command <==> s.start < n)
    && forall k :: s.start <= k < |buf| ==> s.buf[k] == buf[k]
  }

  lemma StepWords(s: Scan, buf: seq<char>, i: nat)
    requires i < |buf| && WordsSoFar(s, buf, i)
    requires buf[i] != '"' && buf[i] != NUL && NUL !in buf[..i]
    ensures s.start <= i && WordsSoFar(Step(s, i), buf, i + 1)
  {
    if IsSeparator(buf[i]) && s.command {
      var b := s.buf[i := NUL];
      forall k | s.start <= k < i ensures b[k] != NUL {
        assert b[k] == buf[..i][k];
      }
      FirstNulIs(b, s.start, i);
      assert CStr(b, s.start) == buf[s.start..i];
    }
  }

  /**
   * On a line without quotation marks (and without NUL before position
   * `n`), the parser's tokens are exactly the separator-ended words.
   */
  lemma {:induction false} QuoteFreeWords(buf: seq<char>, n: nat)
    requires n <= |buf|
    requires '"' !in buf[..n] && NUL !in buf[..n]
    ensures WordsSoFar(Run(buf, n), buf, n)
  {
    if n > 0 {
      var i := n - 1;
      assert buf[..n] == buf[..i] + [buf[i]];
      QuoteFreeWords(buf, i);
      StepWords(Run(buf, i), buf, i);
    }
  }

  /**
   * The parse of a line without quotation marks: its separator-ended words,
   * with a last word "&" taken as the background marker.
   */
  lemma QuoteFreeParse(line: string)
    requires '"' !in line && NUL !in line
    ensures var w := Words(line);
      ParseLine(Line(line)) ==
        if |w| > 0 && w[|w| - 1] == "&" then Success(Command(w[..|w| - 1], true))
        else Success(Command(w, false))
  {
    var buf := Line(line);
    FirstNulIs(buf, 0, |line|);
    assert buf[..|line|] == line;
    QuoteFreeWords(buf, |line|);
    WordsToPrefix(line, buf, |line|);
  }

  /** A quotation-free line whose last word is `&` runs the words before it in the background. */
  lemma QuoteFreeBackground(line: string, args: seq<string>)
    requires '"' !in line && NUL !in line
    requires Words(line) == args + ["&"]
    ensures ParseLine(Line(line)) == Success(Command(args, true))
  {
    QuoteFreeParse(line);
    assert (args + ["&"])[..|args|] == args;
  }

  /** After a quotation-free prefix of the buffer the parser holds that prefix's words. */
  lemma QuoteFreePrefix(buf: seq<char>, line: string)
    requires |line| <= |buf| && buf[..|line|] == line
    requires '"' !in line && NUL !in line
    ensures Run(buf, |line|).words == Words(line) && !Run(buf, |line|).quotation
  {
    QuoteFreeWords(buf, |line|);
    WordsToPrefix(buf, line, |line|);
  }

  /** The words of a prefix do not depend on what follows it. */
  lemma {:induction false} WordsToPrefix(s: string, t: string, n: nat)
    requires n <= |s| && n <= |t| && s[..n] == t[..n]
    ensures WordsTo(s, n) == WordsTo(t, n)
  {
    if n > 0 {
      assert s[..n - 1] == t[..n - 1];
      assert s[n - 1] == s[..n][n - 1];
      WordsToPrefix(s, t, n - 1);
      RunStartPrefix(s, t, n - 1);
      if RunStart(s, n - 1) < n - 1 {
        assert s[RunStart(s, n - 1)..n - 1] == s[..n][RunStart(s, n - 1)..n - 1];
        assert t[RunStart(t, n - 1)..n - 1] == t[..n][RunStart(t, n - 1)..n - 1];
      }
    }
  }

  lemma {:induction false} RunStartPrefix(s: string, t: string, n: nat)
    requires n <= |s| && n <= |t| && s[..n] == t[..n]
    ensures RunStart(s, n) == RunStart(t, n)
  {
    if n > 0 {
      assert s[n - 1] == s[..n][n - 1];
      assert s[..n - 1] == t[..n - 1];
      RunStartPrefix(s, t, n - 1);
    }
  }

  /**
   * A quotation mark that closes the quotation opened at `o` emits the text
   * between the two marks, separators included, as one token; text before
   * the opening mark in the same word is dropped. Afterwards `start` still
   * points just after the opening mark and no word is pending.
   */
  lemma ClosingQuoteEmits(buf: seq<char>, o: nat, q: nat)
    requires o < q < |buf|
    requires buf[o] == '"' && buf[q] == '"'
    requires Quotes(buf[..o]) % 2 == 0
    requires forall k :: o < k < q ==> buf[k] != '"' && buf[k] != NUL
    ensures var r := Run(buf, q + 1);
      && r.words == Run(buf, o).words + [buf[o + 1..q]]
      && r.start == o + 1 && !r.command && !r.quotation
      && r.buf[q] == NUL && r.buf[o + 1..q] == buf[o + 1..q]
  {
    var s := Run(buf, q);
    var quoted := buf[o + 1..q];
    assert s.quotation && s.start == o + 1 && s.words == Run(buf, o).words
        && s.buf[o + 1..q] == quoted by {
      QuotationIsParity(buf, o);
      InsideQuotes(buf, o, q);
      RunKeepsSlice(buf, o + 1, o + 1, q);
    }
    assert s.buf[q] == '"' by {
      RunKeeps(buf, q, q);
    }
    assert NUL !in quoted by {
      NoNulBetween(buf, o, q);
    }
    assert Run(buf, q + 1) == Step(s, q);
    StepClosesQuote(s, q);
  }

  /** The text strictly between `o` and `q` holds no NUL when no position there does. */
  lemma NoNulBetween(buf: seq<char>, o: nat, q: nat)
    requires o < q <= |buf|
    requires forall k :: o < k < q ==> buf[k] != NUL
    ensures NUL !in buf[o + 1..q]
  {
    var t := buf[o + 1..q];
    forall j | 0 <= j < |t|
      ensures t[j] != NUL
    {
      assert t[j] == buf[o + 1 + j];
    }
  }

  /**
   * A quotation mark inside a quotation ends it and emits the pending token,
   * the text from `start` up to the mark, which the mark's NUL now ends.
   */
  lemma StepClosesQuote(s: Scan, i: nat)
    requires s.start <= i < |s.buf| && s.quotation && s.buf[i] == '"'
    requires NUL !in s.buf[s.start..i]
    ensures var b := s.buf[i := NUL];
      && Step(s, i) == s.(buf := b, parsed := s.parsed + [s.start], words := s.words + [CStr(b, s.start)],
                          command := false, quotation := false)
      && CStr(b, s.start) == s.buf[s.start..i]
  {
    var b := s.buf[i := NUL];
    forall k | s.start <= k < i
      ensures b[k] != NUL
    {
      assert b[k] == s.buf[s.start..i][k - s.start];
    }
    FirstNulIs(b, s.start, i);
    assert b[s.start..i] == s.buf[s.start..i];
  }

  /**
   * After a closing quotation mark the word goes on until a separator. If
   * any character follows the mark in that word, the separator emits the
   * quoted text a second time: `start` was never moved past the closing
   * mark, which now holds a NUL, so the token read from `start` is the
   * quoted text again. The characters after the mark are lost.
   */
  lemma ReemitAfterClosingQuote(buf: seq<char>, o: nat, q: nat, e: nat)
    requires o < q < e < |buf|
    requires buf[o] == '"' && buf[q] == '"'
    requires Quotes(buf[..o]) % 2 == 0
    requires forall k :: o < k < q ==> buf[k] != '"' && buf[k] != NUL
    requires forall k :: q < k < e ==> !IsSeparator(buf[k]) && buf[k] != '"'
    requires IsSeparator(buf[e])
    ensures var quoted := buf[o + 1..q];
      && Run(buf, e + 1).words == Run(buf, o).words + [quoted] + (if q + 1 < e then [quoted] else [])
      && !Run(buf, e + 1).quotation
  {
    var quoted := buf[o + 1..q];
    QuotedWord(buf, o, q, e);
    var s := Run(buf, e);
    RunKeeps(buf, e, e);
    if q + 1 < e {
      assert NUL !in quoted by {
        NoNulBetween(buf, o, q);
      }
      SeparatorReadsFrom(s, q, e);
    } else {
      StepSeparatorIdle(s, e);
    }
    assert Run(buf, e + 1) == Step(s, e);
  }

  /**
   * A line whose last word is a closed quotation, possibly with text after
   * the closing mark: the words before the quotation, then the quoted text,
   * repeated when text follows the closing mark. Text that precedes the
   * opening mark in the same word is dropped.
   */
  lemma QuotedLastWord(prefix: string, quoted: string, tail: string)
    requires '"' !in prefix && NUL !in prefix && '"' !in quoted && NUL !in quoted
    requires forall k :: 0 <= k < |tail| ==> !IsSeparator(tail[k]) && tail[k] != '"' && tail[k] != NUL
    ensures var buf := Line(prefix + "\"" + quoted + "\"" + tail + "\n");
      var r := Run(buf, StrLen(buf));
      r.words == Words(prefix) + [quoted] + (if |tail| > 0 then [quoted] else []) && !r.quotation
  {
    var buf := Line(prefix + "\"" + quoted + "\"" + tail + "\n");
    var o := |prefix|;
    var q := o + 1 + |quoted|;
    var e := q + 1 + |tail|;
    var r := Run(buf, e + 1);
    assert StrLen(buf) == e + 1 by {
      QuotedLineLength(prefix, quoted, tail);
    }
    assert r.words == Words(prefix) + [quoted] + (if |tail| > 0 then [quoted] else []) && !r.quotation by {
      QuotedLineLayout(prefix, quoted, tail);
      QuotedWordRun(buf, prefix, q, e);
      assert buf[o + 1..q] == quoted && (q + 1 < e <==> |tail| > 0);
    }
  }

  lemma QuotedLineLength(prefix: string, quoted: string, tail: string)
    requires '"' !in prefix && NUL !in prefix && '"' !in quoted && NUL !in quoted
    requires forall k :: 0 <= k < |tail| ==> !IsSeparator(tail[k]) && tail[k] != '"' && tail[k] != NUL
    ensures StrLen(Line(prefix + "\"" + quoted + "\"" + tail + "\n")) == |prefix| + |quoted| + |tail| + 3
  {
    QuotedLineLayout(prefix, quoted, tail);
    FirstNulIs(Line(prefix + "\"" + quoted + "\"" + tail + "\n"), 0, |prefix| + |quoted| + |tail| + 3);
  }

  lemma QuotedWordRun(buf: seq<char>, prefix: string, q: nat, e: nat)
    requires |prefix| < q < e < |buf| && '"' !in prefix && NUL !in prefix
    requires buf[..|prefix|] == prefix && buf[|prefix|] == '"' && buf[q] == '"' && buf[e] == '\n'
    requires forall k :: |prefix| < k < q ==> buf[k] != '"' && buf[k] != NUL
    requires forall k :: q < k < e ==> !IsSeparator(buf[k]) && buf[k] != '"'
    ensures var quoted := buf[|prefix| + 1..q];
      && Run(buf, e + 1).words == Words(prefix) + [quoted] + (if q + 1 < e then [quoted] else [])
      && !Run(buf, e + 1).quotation
  {
    var o := |prefix|;
    assert Run(buf, o).words == Words(prefix) by {
      QuoteFreePrefix(buf, prefix);
    }
    assert Quotes(buf[..o]) == 0;
    ReemitAfterClosingQuote(buf, o, q, e);
  }

  /** Where the pieces of a line `prefix"quoted"tail` followed by a newline lie in its buffer. */
  lemma QuotedLineLayout(prefix: string, quoted: string, tail: string)
    requires '"' !in prefix && NUL !in prefix && '"' !in quoted && NUL !in quoted
    requires forall k :: 0 <= k < |tail| ==> !IsSeparator(tail[k]) && tail[k] != '"' && tail[k] != NUL
    ensures var buf := Line(prefix + "\"" + quoted + "\"" + tail + "\n");
      var o := |prefix|;
      var q := o + 1 + |quoted|;
      var e := q + 1 + |tail|;
      && |buf| == e + 2 && buf[e + 1] == NUL
      && buf[..o] == prefix && buf[o] == '"' && buf[o + 1..q] == quoted && buf[q] == '"'
      && buf[e] == '\n'
      && (forall k :: 0 <= k < e + 1 ==> buf[k] != NUL)
      && (forall k :: o < k < q ==> buf[k] != '"' && buf[k] != NUL)
      && (forall k :: q < k < e ==> !IsSeparator(buf[k]) && buf[k] != '"')
  {
    var buf := Line(prefix + "\"" + quoted + "\"" + tail + "\n");
    var o := |prefix|;
    var q := o + 1 + |quoted|;
    var e := q + 1 + |tail|;
    forall k | 0 <= k < e + 1
      ensures buf[k] != NUL
      ensures o < k < q ==> buf[k] != '"'
      ensures q < k < e ==> !IsSeparator(buf[k]) && buf[k] != '"'
    {
      if k < o {
        assert buf[k] == prefix[k];
      } else if o < k < q {
        assert buf[k] == quoted[k - (o + 1)];
      } else if q < k < e {
        assert buf[k] == tail[k - (q + 1)];
      }
    }
    assert buf[..o] == prefix;
    assert buf[o + 1..q] == quoted;
  }

  /**
   * The parser's state inside the word that a closed quotation starts:
   * the quoted text is one token, its closing mark holds a NUL and the
   * characters after the mark only set `command`.
   */
  lemma QuotedWord(buf: seq<char>, o: nat, q: nat, e: nat)
    requires o < q < e <= |buf|
    requires buf[o] == '"' && buf[q] == '"'
    requires Quotes(buf[..o]) % 2 == 0
    requires forall k :: o < k < q ==> buf[k] != '"' && buf[k] != NUL
    requires forall k :: q < k < e ==> !IsSeparator(buf[k]) && buf[k] != '"'
    ensures var s := Run(buf, e);
      && s.buf[o + 1..q] == buf[o + 1..q] && s.buf[q] == NUL
      && s.words == Run(buf, o).words + [buf[o + 1..q]]
      && s.start == o + 1 && s.command == (q + 1 < e) && !s.quotation
  {
    var r := Run(buf, q + 1);
    assert && r.words == Run(buf, o).words + [buf[o + 1..q]]
           && r.start == o + 1 && !r.command && !r.quotation
           && r.buf[q] == NUL && r.buf[o + 1..q] == buf[o + 1..q] by {
      ClosingQuoteEmits(buf, o, q);
    }
    assert Run(buf, e) == r.(command := q + 1 < e) by {
      PlainChars(buf, q + 1, e);
    }
  }

  /**
   * A separator that ends a pending word emits the C string from `start`,
   * which is cut at the first NUL already in the buffer.
   */
  lemma SeparatorReadsFrom(s: Scan, q: nat, i: nat)
    requires s.start <= q < i < |s.buf| && !s.quotation && s.command && IsSeparator(s.buf[i])
    requires s.buf[q] == NUL && NUL !in s.buf[s.start..q]
    ensures Step(s, i).words == s.words + [s.buf[s.start..q]]
  {
    var b := s.buf[i := NUL];
    forall k | s.start <= k < q
      ensures b[k] != NUL
    {
      assert b[k] == s.buf[s.start..q][k - s.start];
    }
    FirstNulIs(b, s.start, q);
    assert b[s.start..q] == s.buf[s.start..q];
    StepSeparatorEmits(s, i);
  }

  /**
   * Outside quotation marks, characters that are neither separators nor
   * quotation marks only mark a word as pending.
   */
  lemma {:induction false} PlainChars(buf: seq<char>, m: nat, e: nat)
    requires m <= e <= |buf| && !Run(buf, m).quotation
    requires forall k :: m <= k < e ==> !IsSeparator(buf[k]) && buf[k] != '"'
    ensures Run(buf, e) == Run(buf, m).(command := Run(buf, m).command || m < e)
  {
    var r := Run(buf, m);
    if m < e {
      PlainChars(buf, m, e - 1);
      var s := Run(buf, e - 1);
      assert Run(buf, e) == s.(command := true) by {
        RunKeeps(buf, e - 1, e - 1);
        StepPlain(s, e - 1);
      }
      assert s.(command := true) == r.(command := true);
    } else {
      assert r.(command := r.command) == r;
      assert Run(buf, e) == r;
    }
  }

  /** An ordinary character outside a quotation marks a word as pending. */
  lemma StepPlain(s: Scan, i: nat)
    requires s.start <= i < |s.buf| && !s.quotation
    requires !IsSeparator(s.buf[i]) && s.buf[i] != '"'
    ensures Step(s, i) == s.(command := true)
  {
  }

  /** A separator that ends a pending word emits it; the next word starts after the separator. */
  lemma StepSeparatorEmits(s: Scan, i: nat)
    requires s.start <= i < |s.buf| && !s.quotation && s.command && IsSeparator(s.buf[i])
    ensures var b := s.buf[i := NUL];
      Step(s, i) == s.(buf := b, parsed := s.parsed + [s.start], words := s.words + [CStr(b, s.start)],
                       command := false, start := i + 1)
  {
  }

  /** A separator with no pending word only moves `start`. */
  lemma StepSeparatorIdle(s: Scan, i: nat)
    requires s.start <= i < |s.buf| && !s.quotation && !s.command && IsSeparator(s.buf[i])
    ensures Step(s, i) == s.(start := i + 1)
  {
  }

  /** Inside a quotation the parser's state does not change. */
  lemma {:induction false} InsideQuotes(buf: seq<char>, o: nat, m: nat)
    requires o < m <= |buf|
    requires buf[o] == '"' && !Run(buf, o).quotation
    requires forall k :: o < k < m ==> buf[k] != '"'
    ensures Run(buf, m) == Run(buf, o + 1)
    ensures Run(buf, m).quotation && Run(buf, m).start == o + 1
    ensures Run(buf, m).words == Run(buf, o).words
  {
    if m == o + 1 {
      var s := Run(buf, o);
      RunKeeps(buf, o, o);
      StepOpensQuote(s, o);
      assert Run(buf, m) == Step(s, o);
    } else {
      InsideQuotes(buf, o, m - 1);
      var s := Run(buf, m - 1);
      RunKeeps(buf, m - 1, m - 1);
      StepInsideQuote(s, m - 1);
      assert Run(buf, m) == Step(s, m - 1);
    }
  }

  /** A quotation mark outside a quotation opens one; the next token starts after it. */
  lemma StepOpensQuote(s: Scan, i: nat)
    requires s.start <= i < |s.buf| && !s.quotation && s.buf[i] == '"'
    ensures Step(s, i) == s.(quotation := true, start := i + 1)
  {
  }

  /** Inside a quotation any character but a quotation mark leaves the state as it is. */
  lemma StepInsideQuote(s: Scan, i: nat)
    requires s.start <= i < |s.buf| && s.quotation && s.buf[i] != '"'
    ensures Step(s, i) == s
  {
  }

  /**
   * The character loop of `parser`: walks the first `len` characters of
   * `input`, overwriting token ends with NUL and storing token offsets in
   * `parsed`, exactly as `Run` describes.
   */
  method ScanLine(input: array<char>, parsed: array<Option<nat>>, len: nat)
      returns (argumentNumber: nat, quotation: bool)
    requires len < input.Length && len < parsed.Length
    modifies input, parsed
    ensures var r := Run(old(input[..]), len);
      && input[..] == r.buf && argumentNumber == |r.parsed| && quotation == r.quotation
      && forall k :: 0 <= k < argumentNumber ==> parsed[k] == Some(r.parsed[k])
  {
    ghost var orig := input[..];
    ghost var s := Run(orig, 0);
    var start := 0;
    var command := false;
    argumentNumber, quotation := 0, false;
    for i := 0 to len
      invariant s == Run(orig, i)
      invariant input[..] == s.buf
      invariant argumentNumber == |s.parsed|
      invariant forall k :: 0 <= k < argumentNumber ==> parsed[k] == Some(s.parsed[k])
      invariant start == s.start && command == s.command && quotation == s.quotation
    {
      ghost var next := Step(s, i);
      RunKeeps(orig, i, i);
      // inside quotation marks every character but '"' is kept as it is
      if quotation && input[i] != '"' {
        s := next;
        continue;
      }
      if IsSeparator(input[i]) {
        if command {
          assert next.parsed == s.parsed + [start];
          input[i] := NUL;
          parsed[argumentNumber] := Some(start);
          argumentNumber := argumentNumber + 1;
          command := false;
          assert input[..] == next.buf;
        }
        start := i + 1;
      } else if input[i] == '"' {
        if !quotation {
          quotation := true;
          start := i + 1;
        } else {
          assert next.parsed == s.parsed + [start];
          quotation := false;
          input[i] := NUL;
          parsed[argumentNumber] := Some(start);
          argumentNumber := argumentNumber + 1;
          command := false;
          assert input[..] == next.buf;
        }
      } else {
        command := true;
      }
      s := next;
    }
  }

  /**
   * The end of `parser`: a last token "&" marks a background command and is
   * removed, and a NULL is stored after the remaining tokens.
   */
  method EndArguments(input: array<char>, parsed: array<Option<nat>>, argumentNumber: nat,
                      ghost r: Scan, ghost n: nat) returns (isBackground: bool)
    requires input[..] == r.buf && ReadsBack(r, n)
    requires argumentNumber == |r.parsed| < parsed.Length
    requires forall k :: 0 <= k < argumentNumber ==> parsed[k] == Some(r.parsed[k])
    modifies parsed
    ensures isBackground == (|r.words| > 0 && r.words[|r.words| - 1] == "&")
    ensures Terminated(r.buf, parsed[..], if isBackground then r.words[..|r.words| - 1] else r.words)
  {
    ghost var ptrs := parsed[..];
    isBackground := false;
    if argumentNumber > 0 {
      assert TokenReadsBack(r, n, argumentNumber - 1);
      isBackground := CStr(input[..], parsed[argumentNumber - 1].value) == "&";
      if isBackground {
        parsed[argumentNumber - 1] := None;
      }
    }
    parsed[argumentNumber] := None;
    ghost var kept := if isBackground then argumentNumber - 1 else argumentNumber;
    assert parsed[..] == ptrs[kept := None][argumentNumber := None];
    TerminatedArgs(r, n, ptrs, kept);
    assert r.words[..argumentNumber] == r.words;
  }

  /**
   * `parser`: tokenizes the NUL-terminated line in `input` in place, fills
   * `parsed` with the offsets of the tokens and a NULL after the last one,
   * and returns 1 for a background command, 0 for a foreground one and -1
   * for an unclosed quotation (leaving `parsed` unterminated).
   */
  method Parse(input: array<char>, parsed: array<Option<nat>>) returns (status: int)
    requires NUL in input[..]
    requires input.Length <= INPUT_SIZE && parsed.Length == INPUT_SIZE
    modifies input, parsed
    ensures input[..] == Run(old(input[..]), StrLen(old(input[..]))).buf
    ensures status == -1 <==> ParseLine(old(input[..])).Failure?
    ensures ParseLine(old(input[..])).Success? ==>
      var cmd := ParseLine(old(input[..])).value;
      && status == (if cmd.background then 1 else 0)
      && Terminated(input[..], parsed[..], cmd.args)
  {
    ghost var orig := input[..];
    var len := StrLen(input[..]);
    assert len < input.Length by {
      var j :| 0 <= j < input.Length && input[j] == NUL;
    }
    var argumentNumber, quotation := ScanLine(input, parsed, len);
    // a quotation mark opened but never closed
    if quotation {
      return -1;
    }
    RunReadBack(orig, len);
    var isBackground := EndArguments(input, parsed, argumentNumber, Run(orig, len), len);
    status := if isBackground then 1 else 0;
  }

  /**
   * `arrayLength`: the number of pointers before the first NULL of a
   * NULL-terminated pointer array.
   */
  method ArrayLength(arg: array<Option<nat>>) returns (n: nat)
    requires arg.Length == INPUT_SIZE && None in arg[..]
    ensures n < arg.Length && arg[n] == None
    ensures forall k :: 0 <= k < n ==> arg[k] != None
  {
    n := 0;
    while arg[n] != None && n < INPUT_SIZE
      invariant n < arg.Length && None in arg[n..]
      invariant forall k :: 0 <= k < n ==> arg[k] != None
    {
      n := n + 1;
    }
  }

  /** After a successful `Parse`, `arrayLength` counts exactly the kept tokens. */
  lemma ArrayLengthCountsArgs(buf: seq<char>, ptrs: seq<Option<nat>>, args: seq<string>, n: nat)
    requires Terminated(buf, ptrs, args)
    requires n < |ptrs| && ptrs[n] == None && forall k :: 0 <= k < n ==> ptrs[k] != None
    ensures n == |args|
  {
  }
}
