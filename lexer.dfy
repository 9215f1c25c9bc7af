/** The lexical analyser (`LexicalAnalyzer::tokenize`): every successive
    non-overlapping match of the pattern
      print | ( | ) | "…"(shortest) | identifier | one of + * / = ;
    over one line, in source order. The pattern is an ECMAScript alternation,
    so at each position the first alternative that matches wins; positions
    where no alternative matches are skipped. */
module Lexer {
  import opened Strings

  /** A match: where it starts in the line and the text it covers. */
  datatype Token = Token(pos: nat, text: string)

  predicate IsOperator(c: char) { c == '+' || c == '*' || c == '/' || c == '=' || c == ';' }

  predicate IsIdentifier(w: string) {
    |w| > 0 && IsIdentStart(w[0]) && forall k :: 1 <= k < |w| ==> IsIdentChar(w[k])
  }

  predicate IsStringLiteral(w: string) {
    |w| >= 2 && w[0] == '"' && w[|w| - 1] == '"' && forall k :: 0 < k < |w| - 1 ==> InStringBody(w[k])
  }

  /** The six shapes a token can have */
  predicate IsTokenShape(w: string) {
    || w == "print"
    || w == "(" || w == ")"
    || IsStringLiteral(w)
    || IsIdentifier(w)
    || (|w| == 1 && IsOperator(w[0]))
  }

  /** The length of the match of the pattern at index `p`, or 0 when no
      alternative matches there. */
  function MatchAt(s: string, p: nat): (n: nat)
    requires p < |s|
    ensures p + n <= |s|
  {
    if StartsAt(s, p, "print") then 5
    else if s[p] == '(' || s[p] == ')' then 1
    else if s[p] == '"' && QuoteClosed(s, p) then SpanWhile(s, p + 1, QuoteBody) + 1 - p
    else if IsIdentStart(s[p]) then SpanWhile(s, p + 1, Word) - p
    else if IsOperator(s[p]) then 1
    else 0
  }

  /** A match has one of the six token shapes. */
  lemma MatchAtShape(s: string, p: nat)
    requires p < |s|
    ensures var n := MatchAt(s, p);
      n > 0 ==> IsTokenShape(s[p..p + n])
  {
    if !StartsAt(s, p, "print") && s[p] == '"' && QuoteClosed(s, p) {
      var q := SpanWhile(s, p + 1, QuoteBody);
      SpanWhileRun(s, p + 1, QuoteBody);
      var w := s[p..q + 1];
      assert forall k :: 0 < k < |w| - 1 ==> w[k] == s[p + k];
    } else if !StartsAt(s, p, "print") && s[p] != '(' && s[p] != ')' && s[p] != '"' && IsIdentStart(s[p]) {
      var e := SpanWhile(s, p + 1, Word);
      SpanWhileRun(s, p + 1, Word);
      var w := s[p..e];
      assert forall k :: 1 <= k < |w| ==> w[k] == s[p + k];
    }
  }

  /** After the opening quote at `p`, the body stops at a closing quote
      rather than at a line terminator or the end of the line. */
  predicate QuoteClosed(s: string, p: nat)
    requires p < |s|
  {
    var q := SpanWhile(s, p + 1, QuoteBody);
    q < |s| && s[q] == '"'
  }

  /** All matches from index `p` on, as `sregex_iterator` enumerates them. */
  function Lex(s: string, p: nat): seq<Token>
    requires p <= |s|
    decreases |s| - p
  {
    if p == |s| then []
    else
      var n := MatchAt(s, p);
      if n == 0 then Lex(s, p + 1)
      else [Token(p, s[p..p + n])] + Lex(s, p + n)
  }

  /** A token found by a scan from `p`: it starts at or after `p`, is a
      stretch of the line and is exactly the match of the pattern at its
      start (so it has one of the six shapes). */
  ghost predicate FoundFrom(s: string, p: nat, t: Token) {
    && p <= t.pos < |s|
    && Occurs(s, t)
    && MatchAt(s, t.pos) == |t.text|
  }

  /** Where nothing matches, the scan moves on by one character */
  lemma LexSkip(s: string, p: nat)
    requires p < |s| && MatchAt(s, p) == 0
    ensures Lex(s, p) == Lex(s, p + 1)
  {
  }

  /** Where the pattern matches, the scan emits the match and resumes after it */
  lemma LexEmit(s: string, p: nat)
    requires p < |s| && MatchAt(s, p) > 0
    ensures var n := MatchAt(s, p);
      Lex(s, p) == [Token(p, s[p..p + n])] + Lex(s, p + n)
  {
  }

  /** Every token of a scan is found from its starting point, and the tokens
      are in source order without overlap. */
  lemma {:induction false} LexSound(s: string, p: nat)
    requires p <= |s|
    ensures forall k :: 0 <= k < |Lex(s, p)| ==> FoundFrom(s, p, Lex(s, p)[k])
    ensures forall k :: 0 <= k < |Lex(s, p)| - 1 ==> End(Lex(s, p)[k]) <= Lex(s, p)[k + 1].pos
    decreases |s| - p
  {
    if p < |s| {
      var n := MatchAt(s, p);
      if n == 0 {
        LexSkip(s, p);
        LexSound(s, p + 1);
        FoundFromEarlier(s, p, Lex(s, p + 1));
      } else {
        LexEmit(s, p);
        LexSound(s, p + n);
        LexSoundCons(s, p, n, Lex(s, p + n));
      }
    }
  }

  /** Tokens found from `p + 1` are found from `p` */
  lemma FoundFromEarlier(s: string, p: nat, ts: seq<Token>)
    requires forall k :: 0 <= k < |ts| ==> FoundFrom(s, p + 1, ts[k])
    ensures forall k :: 0 <= k < |ts| ==> FoundFrom(s, p, ts[k])
  {
  }

  /** Putting the match at `p` in front of the tokens found from its end
      keeps both properties of a scan. */
  lemma LexSoundCons(s: string, p: nat, n: nat, rest: seq<Token>)
    requires p < |s| && n == MatchAt(s, p) && n > 0
    requires forall k :: 0 <= k < |rest| ==> FoundFrom(s, p + n, rest[k])
    requires forall k :: 0 <= k < |rest| - 1 ==> End(rest[k]) <= rest[k + 1].pos
    ensures var ts := [Token(p, s[p..p + n])] + rest;
      && (forall k :: 0 <= k < |ts| ==> FoundFrom(s, p, ts[k]))
      && (forall k :: 0 <= k < |ts| - 1 ==> End(ts[k]) <= ts[k + 1].pos)
  {
    var ts := [Token(p, s[p..p + n])] + rest;
    forall k | 0 <= k < |ts|
      ensures FoundFrom(s, p, ts[k])
    {
      if k > 0 {
        assert ts[k] == rest[k - 1];
      }
    }
    forall k | 0 <= k < |ts| - 1
      ensures End(ts[k]) <= ts[k + 1].pos
    {
      assert ts[k + 1] == rest[k];
      if k > 0 {
        assert ts[k] == rest[k - 1];
      }
    }
  }

  function End(t: Token): nat { t.pos + |t.text| }

  /** The token is the non-empty stretch of the line between its start and end */
  predicate Occurs(s: string, t: Token) {
    0 < |t.text| && End(t) <= |s| && s[t.pos..End(t)] == t.text
  }

  function Texts(ts: seq<Token>): (ws: seq<string>)
    ensures |ws| == |ts|
  {
    if ts == [] then [] else [ts[0].text] + Texts(ts[1..])
  }

  lemma {:induction false} TextsAt(ts: seq<Token>, k: nat)
    requires k < |ts|
    ensures Texts(ts)[k] == ts[k].text
    decreases k
  {
    if k > 0 {
      TextsAt(ts[1..], k - 1);
    }
  }

  /** The token texts of a whole line */
  function Tokens(line: string): seq<string> {
    Texts(Lex(line, 0))
  }

  /** `tokenize`: the loop that pushes each successive match. */
  method Tokenize(line: string) returns (tokens: seq<string>)
    ensures tokens == Tokens(line)
  {
    ghost var all := Tokens(line);
    tokens := [];
    var i := 0;
    while i < |line|
      invariant Scanned(line, i, tokens, all)
    {
      var n := MatchAt(line, i);
      if n == 0 {
        ScanSkip(line, i, tokens, all);
        i := i + 1;
      } else {
        var w := line[i..i + n];
        ScanEmit(line, i, w, tokens, all);
        tokens := tokens + [w];
        i := i + |w|;
      }
    }
  }

  lemma TextsCons(t: Token, rest: seq<Token>)
    ensures Texts([t] + rest) == [t.text] + Texts(rest)
  {
    assert ([t] + rest)[1..] == rest;
  }

  /** Where nothing matches, the texts scanned from `p` are those from `p + 1` */
  lemma TextsSkip(s: string, p: nat)
    requires p < |s| && MatchAt(s, p) == 0
    ensures Texts(Lex(s, p)) == Texts(Lex(s, p + 1))
  {
    LexSkip(s, p);
  }

  /** Where `w` is the match, the texts scanned from `p` are `w` followed by
      those from the end of `w` */
  lemma TextsEmit(s: string, p: nat, w: string)
    requires p < |s| && 0 < |w| == MatchAt(s, p) && StartsAt(s, p, w)
    ensures Texts(Lex(s, p)) == [w] + Texts(Lex(s, p + |w|))
  {
    LexEmit(s, p);
    TextsCons(Token(p, w), Lex(s, p + |w|));
  }

  /** The scan has reached `p`: the tokens already pushed followed by
      those still to come are all tokens of the line. */
  ghost predicate Scanned(s: string, p: nat, done: seq<string>, all: seq<string>) {
    p <= |s| && done + Texts(Lex(s, p)) == all
  }

  /** A step of the scan that skips `p` keeps it `Scanned` */
  lemma ScanSkip(s: string, p: nat, done: seq<string>, all: seq<string>)
    requires p < |s| && MatchAt(s, p) == 0
    requires Scanned(s, p, done, all)
    ensures Scanned(s, p + 1, done, all)
  {
    TextsSkip(s, p);
  }

  /** So does a step that pushes the match `w` at `p` */
  lemma ScanEmit(s: string, p: nat, w: string, done: seq<string>, all: seq<string>)
    requires p < |s| && 0 < |w| == MatchAt(s, p) && StartsAt(s, p, w)
    requires Scanned(s, p, done, all)
    ensures Scanned(s, p + |w|, done + [w], all)
  {
    TextsEmit(s, p, w);
    PushAssoc(done, w, Texts(Lex(s, p + |w|)), all);
  }

  lemma PushAssoc(done: seq<string>, w: string, rest: seq<string>, all: seq<string>)
    requires done + ([w] + rest) == all
    ensures (done + [w]) + rest == all
  {
    assert done + ([w] + rest) == (done + [w]) + rest;
  }

  /** Every token has one of the six shapes, so none starts with a digit:
      a number such as `10` yields no token at all. */
  lemma TokensNeverStartWithDigit(line: string)
    ensures forall k :: 0 <= k < |Tokens(line)| ==> IsTokenShape(Tokens(line)[k]) && !IsDigit(Tokens(line)[k][0])
  {
    var ts := Lex(line, 0);
    var ws := Tokens(line);
    LexSound(line, 0);
    forall k | 0 <= k < |ws|
      ensures IsTokenShape(ws[k]) && !IsDigit(ws[k][0])
    {
      TextsAt(ts, k);
      FoundHasShape(line, ts[k]);
    }
  }

  lemma FoundHasShape(s: string, t: Token)
    requires FoundFrom(s, 0, t)
    ensures IsTokenShape(t.text) && !IsDigit(t.text[0])
  {
    MatchAtShape(s, t.pos);
    assert s[t.pos..t.pos + MatchAt(s, t.pos)] == t.text;
  }

  /** No token of `ts` covers index `q` */
  ghost predicate Uncovered(ts: seq<Token>, q: nat) {
    ts == [] || (!(ts[0].pos <= q < End(ts[0])) && Uncovered(ts[1..], q))
  }

  lemma {:induction false} UncoveredFromAll(ts: seq<Token>, q: nat)
    requires forall k :: 0 <= k < |ts| ==> !(ts[k].pos <= q < End(ts[k]))
    ensures Uncovered(ts, q)
    decreases |ts|
  {
    if ts != [] {
      assert forall k :: 0 <= k < |ts[1..]| ==> ts[1..][k] == ts[k + 1];
      UncoveredFromAll(ts[1..], q);
    }
  }

  /** A position that no token covers is one where no alternative of the
      pattern matches: the scan skips only characters that start nothing. */
  lemma LexSkipsOnlyUnmatched(s: string, p: nat, q: nat)
    requires p <= q < |s|
    requires forall k :: 0 <= k < |Lex(s, p)| ==> !(Lex(s, p)[k].pos <= q < End(Lex(s, p)[k]))
    ensures MatchAt(s, q) == 0
  {
    UncoveredFromAll(Lex(s, p), q);
    UnmatchedWhereUncovered(s, p, q);
  }

  lemma {:induction false} UnmatchedWhereUncovered(s: string, p: nat, q: nat)
    requires p <= q < |s| && Uncovered(Lex(s, p), q)
    ensures MatchAt(s, q) == 0
    decreases |s| - p
  {
    var next := UncoveredStep(s, p, q);
    if p < q {
      UnmatchedWhereUncovered(s, next, q);
    }
  }

  /** One scan step from `p` towards an uncovered `q`: the scan resumes at
      `next` without having covered `q`; at `q` itself nothing matches. */
  lemma UncoveredStep(s: string, p: nat, q: nat) returns (next: nat)
    requires p <= q < |s| && Uncovered(Lex(s, p), q)
    ensures p == q ==> MatchAt(s, p) == 0
    ensures p < q ==> p < next <= q && Uncovered(Lex(s, next), q)
  {
    var n := MatchAt(s, p);
    if n == 0 {
      LexSkip(s, p);
      next := p + 1;
    } else {
      LexEmit(s, p);
      assert Lex(s, p)[1..] == Lex(s, p + n);
      next := p + n;
    }
  }

  // The regular expression's own semantics, stated independently of MatchAt:
  // the alternatives in their written order, the lazy `.*?` as the shortest
  // span and the greedy `*` of the identifier as the longest.

  /** `".*"`: a quote, characters other than line terminators, a quote */
  predicate QuotedRun(w: string) {
    |w| >= 2 && w[0] == '"' && w[|w| - 1] == '"' && forall k :: 0 < k < |w| - 1 ==> !IsLineTerminator(w[k])
  }

  /** The `m` characters of `s` from `p` on */
  function Prefix(s: string, p: nat, m: nat): string
    requires p + m <= |s|
  {
    s[p..p + m]
  }

  /** Alternative `k` (0-based, in written order) of the pattern matches the
      `n` characters at `p` */
  ghost predicate Alternative(k: nat, s: string, p: nat, n: nat)
    requires p + n <= |s|
  {
    var w := Prefix(s, p, n);
    if k == 0 then w == "print"
    else if k == 1 then w == "("
    else if k == 2 then w == ")"
    else if k == 3 then QuotedRun(w) && forall m: nat :: m < n ==> !QuotedRun(Prefix(s, p, m))
    else if k == 4 then IsIdentifier(w) && forall m: nat :: n < m <= |s| - p ==> !IsIdentifier(Prefix(s, p, m))
    else if k == 5 then |w| == 1 && IsOperator(w[0])
    else false
  }

  /** ECMAScript alternation: the match at `p` is the one of the first
      alternative that matches there at all. */
  ghost predicate PatternPicks(s: string, p: nat, n: nat)
    requires p + n <= |s|
  {
    exists k: nat :: k < 6 && Alternative(k, s, p, n) && FirstToMatch(k, s, p)
  }

  ghost predicate FirstToMatch(k: nat, s: string, p: nat)
    requires p <= |s|
  {
    forall j: nat, m: nat :: j < k && m <= |s| - p ==> !Alternative(j, s, p, m)
  }

  lemma AltPrint(s: string, p: nat, m: nat)
    requires p + m <= |s|
    ensures Alternative(0, s, p, m) <==> m == 5 && StartsAt(s, p, "print")
  {
  }

  lemma AltParen(s: string, p: nat, m: nat)
    requires p < |s| && p + m <= |s|
    ensures Alternative(1, s, p, m) <==> m == 1 && s[p] == '('
    ensures Alternative(2, s, p, m) <==> m == 1 && s[p] == ')'
  {
    if m == 1 {
      assert Prefix(s, p, m) == [s[p]];
    }
  }

  lemma AltOperator(s: string, p: nat, m: nat)
    requires p < |s| && p + m <= |s|
    ensures Alternative(5, s, p, m) <==> m == 1 && IsOperator(s[p])
  {
    if m == 1 {
      assert Prefix(s, p, m) == [s[p]];
    }
  }

  /** The span the string alternative would take: through the first
      character that is a quote or a line terminator. */
  function QuoteLength(s: string, p: nat): nat
    requires p < |s|
  {
    SpanWhile(s, p + 1, QuoteBody) + 1 - p
  }

  /** The lazy string alternative matches exactly up to the first closing
      quote, and only when no line terminator comes before it. */
  lemma AltString(s: string, p: nat, m: nat)
    requires p < |s| && p + m <= |s|
    ensures Alternative(3, s, p, m) <==> s[p] == '"' && QuoteClosed(s, p) && m == QuoteLength(s, p)
  {
    if s[p] == '"' && QuoteClosed(s, p) && m == QuoteLength(s, p) {
      AltStringFound(s, p);
    }
    if Alternative(3, s, p, m) {
      AltStringOnly(s, p, m);
    }
  }

  lemma AltStringFound(s: string, p: nat)
    requires p < |s| && s[p] == '"' && QuoteClosed(s, p)
    ensures Alternative(3, s, p, QuoteLength(s, p))
  {
    var q := SpanWhile(s, p + 1, QuoteBody);
    SpanWhileRun(s, p + 1, QuoteBody);
    var m := q + 1 - p;
    var w := Prefix(s, p, m);
    assert forall k :: 0 < k < |w| - 1 ==> w[k] == s[p + k];
    assert QuotedRun(w);
    forall m': nat | m' < m
      ensures !QuotedRun(Prefix(s, p, m'))
    {
      if m' >= 2 {
        assert Prefix(s, p, m')[m' - 1] == s[p + m' - 1];
      }
    }
  }

  lemma AltStringOnly(s: string, p: nat, m: nat)
    requires p < |s| && p + m <= |s|
    requires Alternative(3, s, p, m)
    ensures s[p] == '"' && QuoteClosed(s, p) && m == QuoteLength(s, p)
  {
    var q := SpanWhile(s, p + 1, QuoteBody);
    SpanWhileRun(s, p + 1, QuoteBody);
    var w := Prefix(s, p, m);
    assert w[0] == s[p];
    assert w[m - 1] == s[p + m - 1];
    EarlierQuote(s, p, m);
  }

  /** When a quoted run of length `m` starts at `p`, a body scan that stops
      before its end stops at a quote, which closes a shorter quoted run. */
  lemma EarlierQuote(s: string, p: nat, m: nat)
    requires p + m <= |s| && QuotedRun(Prefix(s, p, m))
    ensures var q := SpanWhile(s, p + 1, QuoteBody);
      q < p + m - 1 ==> q + 1 - p < m && QuotedRun(Prefix(s, p, q + 1 - p))
  {
    var q := SpanWhile(s, p + 1, QuoteBody);
    SpanWhileRun(s, p + 1, QuoteBody);
    var w := Prefix(s, p, m);
    if q < p + m - 1 {
      assert w[q - p] == s[q];
      var v := Prefix(s, p, q + 1 - p);
      assert forall k :: 0 < k < |v| - 1 ==> v[k] == w[k];
    }
  }

  /** The span the identifier alternative would take: the longest run of
      identifier characters from `p`. */
  function IdentLength(s: string, p: nat): nat
    requires p < |s|
  {
    SpanWhile(s, p + 1, Word) - p
  }

  /** The greedy identifier alternative matches exactly the longest run of
      identifier characters after a letter or underscore. */
  lemma AltIdentifier(s: string, p: nat, m: nat)
    requires p < |s| && p + m <= |s|
    ensures Alternative(4, s, p, m) <==> IsIdentStart(s[p]) && m == IdentLength(s, p)
  {
    if IsIdentStart(s[p]) && m == IdentLength(s, p) {
      AltIdentifierFound(s, p);
    }
    if Alternative(4, s, p, m) {
      AltIdentifierOnly(s, p, m);
    }
  }

  lemma AltIdentifierFound(s: string, p: nat)
    requires p < |s| && IsIdentStart(s[p])
    ensures Alternative(4, s, p, IdentLength(s, p))
  {
    var e := SpanWhile(s, p + 1, Word);
    SpanWhileRun(s, p + 1, Word);
    var m := e - p;
    var w := Prefix(s, p, m);
    assert forall k :: 1 <= k < |w| ==> w[k] == s[p + k];
    assert IsIdentifier(w);
    forall m': nat | m < m' <= |s| - p
      ensures !IsIdentifier(Prefix(s, p, m'))
    {
      assert Prefix(s, p, m')[m] == s[e];
    }
  }

  lemma AltIdentifierOnly(s: string, p: nat, m: nat)
    requires p < |s| && p + m <= |s|
    requires Alternative(4, s, p, m)
    ensures IsIdentStart(s[p]) && m == IdentLength(s, p)
  {
    var w := Prefix(s, p, m);
    assert w[0] == s[p];
    assert forall k :: p + 1 <= k < p + m ==> s[k] == w[k - p];
    SpanWhileAtLeast(s, p + 1, Word, p + m);
    LongerIdentifier(s, p, m);
  }

  /** When an identifier of length `m` starts at `p`, a longer run of
      identifier characters is a longer identifier. */
  lemma LongerIdentifier(s: string, p: nat, m: nat)
    requires p + m <= |s| && IsIdentifier(Prefix(s, p, m))
    ensures var e := SpanWhile(s, p + 1, Word);
      e > p + m ==> IsIdentifier(Prefix(s, p, e - p))
  {
    var e := SpanWhile(s, p + 1, Word);
    SpanWhileRun(s, p + 1, Word);
    var w := Prefix(s, p, m);
    if e > p + m {
      assert s[p] == w[0];
      var v := Prefix(s, p, e - p);
      assert forall k :: 1 <= k < |v| ==> v[k] == s[p + k];
    }
  }

  /** MatchAt is the regular expression's choice: a length is picked by the
      leftmost-first alternation exactly when it is MatchAt's non-zero result. */
  lemma MatchAtIsPatternChoice(s: string, p: nat, n: nat)
    requires p < |s| && p + n <= |s|
    ensures PatternPicks(s, p, n) <==> n > 0 && n == MatchAt(s, p)
  {
    forall m: nat | m <= |s| - p
      ensures Alternative(0, s, p, m) <==> m == 5 && StartsAt(s, p, "print")
      ensures Alternative(1, s, p, m) <==> m == 1 && s[p] == '('
      ensures Alternative(2, s, p, m) <==> m == 1 && s[p] == ')'
      ensures Alternative(3, s, p, m) <==> s[p] == '"' && QuoteClosed(s, p) && m == QuoteLength(s, p)
      ensures Alternative(4, s, p, m) <==> IsIdentStart(s[p]) && m == IdentLength(s, p)
      ensures Alternative(5, s, p, m) <==> m == 1 && IsOperator(s[p])
    {
      AltPrint(s, p, m);
      AltParen(s, p, m);
      AltString(s, p, m);
      AltIdentifier(s, p, m);
      AltOperator(s, p, m);
    }
    var k: nat :=
      if StartsAt(s, p, "print") then 0
      else if s[p] == '(' then 1
      else if s[p] == ')' then 2
      else if s[p] == '"' && QuoteClosed(s, p) then 3
      else if IsIdentStart(s[p]) then 4
      else if IsOperator(s[p]) then 5
      else 6;
    assert FirstToMatch(k, s, p);
    assert k < 6 <==> MatchAt(s, p) > 0;
    assert k < 6 ==> Alternative(k, s, p, MatchAt(s, p));
    if PatternPicks(s, p, n) {
      var k': nat :| k' < 6 && Alternative(k', s, p, n) && FirstToMatch(k', s, p);
      if k' != k {
        assert false;
      }
    }
  }

  // Worked examples.

  /** `print` is tried before the identifier alternative, so `printer`
      splits into `print` and `er`. */
  lemma PrinterSplits(s: string)
    requires s == "printer"
    ensures Tokens(s) == ["print", "er"]
  {
    assert StartsAt(s, 0, "print");
    TextsEmit(s, 0, "print");
    assert s[5] == 'e' && s[6] == 'r';
    assert SpanWhile(s, 6, Word) == 7;
    assert StartsAt(s, 5, "er");
    TextsEmit(s, 5, "er");
    assert Lex(s, 7) == [];
  }

  lemma DeclarationTail(s: string)
    requires s == "int x = 10;"
    ensures Texts(Lex(s, 7)) == [";"]
  {
    assert s[7] == ' ' && s[8] == '1' && s[9] == '0' && s[10] == ';';
    assert StartsAt(s, 10, ";");
    TextsEmit(s, 10, ";");
    assert Lex(s, 11) == [];
    TextsSkip(s, 9);
    TextsSkip(s, 8);
    TextsSkip(s, 7);
  }

  lemma DeclarationMiddle(s: string)
    requires s == "int x = 10;"
    ensures Texts(Lex(s, 4)) == ["x", "=", ";"]
  {
    DeclarationEquals(s);
    DeclarationX(s);
    assert StartsAt(s, 4, "x");
    TextsEmit(s, 4, "x");
  }

  lemma DeclarationEquals(s: string)
    requires s == "int x = 10;"
    ensures Texts(Lex(s, 5)) == ["=", ";"]
  {
    DeclarationTail(s);
    assert s[5] == ' ' && s[6] == '=';
    assert StartsAt(s, 6, "=");
    TextsEmit(s, 6, "=");
    TextsSkip(s, 5);
  }

  lemma DeclarationX(s: string)
    requires s == "int x = 10;"
    ensures MatchAt(s, 4) == 1
  {
    assert s[4] == 'x' && s[5] == ' ';
    assert !StartsAt(s, 4, "print");
    assert SpanWhile(s, 5, Word) == 5;
  }

  lemma DeclarationInt(s: string)
    requires s == "int x = 10;"
    ensures MatchAt(s, 0) == 3 && MatchAt(s, 3) == 0 && StartsAt(s, 0, "int")
  {
    assert s[0] == 'i' && s[1] == 'n' && s[2] == 't' && s[3] == ' ';
    assert !StartsAt(s, 0, "print");
    SpanWhileUnique(s, 1, Word, 3);
  }

  /** The digits of a number start no pattern: `int x = 10;` gives
      `int`, `x`, `=`, `;`. */
  lemma DeclarationTokens(s: string)
    requires s == "int x = 10;"
    ensures Tokens(s) == ["int", "x", "=", ";"]
  {
    DeclarationMiddle(s);
    DeclarationInt(s);
    TextsSkip(s, 3);
    TextsEmit(s, 0, "int");
  }

  /** A quote with no closing quote starts nothing and is skipped. */
  lemma UnclosedQuoteSkipped(s: string)
    requires s == "\"ab"
    ensures Tokens(s) == ["ab"]
  {
    assert s[0] == '"' && s[1] == 'a' && s[2] == 'b';
    SpanWhileUnique(s, 1, QuoteBody, 3);
    assert !StartsAt(s, 0, "print");
    assert MatchAt(s, 0) == 0;
    TextsSkip(s, 0);
    assert !StartsAt(s, 1, "print");
    assert SpanWhile(s, 2, Word) == 3;
    assert StartsAt(s, 1, "ab");
    TextsEmit(s, 1, "ab");
    assert Lex(s, 3) == [];
  }
}
