/** The code generator (`generateCode`) and the symbol table it updates.
    The generator classifies the raw line again, independently of the
    tokens: a line containing `print` prints a string literal or a
    variable's value; otherwise the leftmost match of the declaration
    pattern
      (int|float)\s+identifier\s*=\s*[0-9]+\s*;
    assigns the variable; any other line is echoed as executed. */
module CodeGen {
  import opened Strings
  import opened Lexer

  /** The symbol table: variable name to its last assigned value */
  type Table = map<string, int>

  /** The largest value `stoi` returns; larger digit groups throw. */
  const IntMax: int := 0x7FFF_FFFF

  /** What one line produces */
  datatype Output =
    | Printed(text: string)             // the unquoted string of a print
    | Value(value: int)                 // the value of a printed variable
    | Undefined(name: string)           // runtime notice: variable not defined
    | Assigned(name: string, value: int)
    | Executed(text: string)            // a generic statement, echoed
    | OutOfRange(digits: string)        // `stoi` threw; the line is a compilation error

  datatype Effect = Effect(out: Output, table: Table)

  // ---------------------------------------------------------------------
  // The print branch

  /** `code.find('(') + 1`; without a `(` the unsigned `npos + 1` wraps to 0. */
  function PayloadStart(line: string): (start: nat)
    ensures start <= |line|
    ensures '(' !in line ==> start == 0
    ensures '(' in line ==> 0 < start && line[start - 1] == '('
    ensures forall k :: 0 <= k < start - 1 ==> line[k] != '('
  {
    match FindChar(line, '(', 0)
    case None => 0
    case Some(i) => i + 1
  }

  /** The text after the first `(` up to the next `)`, or to the end of the
      line when no `)` follows. */
  function PrintPayload(line: string): string {
    var start := PayloadStart(line);
    match FindChar(line, ')', start)
    case None => line[start..]
    case Some(end) => line[start..end]
  }

  /** The literal test: first and last characters are double quotes. On an
      empty payload the first character reads as the terminating NUL, so the
      test fails there. */
  predicate IsQuoted(payload: string) {
    |payload| > 0 && payload[0] == '"' && payload[|payload| - 1] == '"'
  }

  /** `substr(1, size - 2)`: for the one-character payload `"` the length
      wraps to `npos` and the result is empty. */
  function Unquote(payload: string): string
    requires IsQuoted(payload)
  {
    if |payload| == 1 then "" else payload[1..|payload| - 1]
  }

  function PrintOutput(t: Table, payload: string): Output {
    if IsQuoted(payload) then Printed(Unquote(payload))
    else if payload in t then Value(t[payload])
    else Undefined(payload)
  }

  /** The payload is exactly the text between the first `(` and the first `)`
      after it, or everything after the `(` when no `)` follows. */
  lemma PayloadBetweenParens(line: string, pre: string, body: string, post: string)
    requires '(' !in pre && ')' !in body
    requires line == pre + "(" + body + post
    requires post == [] || post[0] == ')'
    ensures PrintPayload(line) == body
  {
    var i := |pre|;
    assert line[i] == '(';
    assert forall k :: 0 <= k < i ==> line[k] == pre[k];
    assert FindChar(line, '(', 0) == Some(i);
    assert forall k :: i + 1 <= k < i + 1 + |body| ==> line[k] == body[k - i - 1];
    if post == [] {
      assert FindChar(line, ')', i + 1) == None;
      assert line[i + 1..] == body;
    } else {
      assert line[i + 1 + |body|] == ')';
      assert FindChar(line, ')', i + 1) == Some(i + 1 + |body|);
      assert line[i + 1..i + 1 + |body|] == body;
    }
  }

  // ---------------------------------------------------------------------
  // The declaration branch: a hand-written matcher for the pattern, and
  // the pattern's meaning stated on its own.

  /** A match of the declaration pattern: where it starts, the variable
      name and the digit group. */
  datatype Decl = Decl(start: nat, name: string, digits: string)

  /** The end of `int` or `float` at `p`; `int` is tried first. */
  function KeywordEnd(s: string, p: nat): (r: Option<nat>)
    ensures r.Some? ==> r.value <= |s|
  {
    if StartsAt(s, p, "int") then Some(p + 3)
    else if StartsAt(s, p, "float") then Some(p + 5)
    else None
  }

  /** The match of the declaration pattern that starts at `p`, if any. */
  function DeclAt(s: string, p: nat): (r: Option<Decl>)
    ensures r.Some? ==> r.value.start == p && IsIdentifier(r.value.name)
    ensures r.Some? ==> |r.value.digits| > 0 && AllDigits(r.value.digits)
  {
    match KeywordEnd(s, p)
    case None => None
    case Some(q) =>
      var a := SpanWhile(s, q, Space);
      if a == q || a == |s| || !IsIdentStart(s[a]) then None
      else
        var b := SpanWhile(s, a + 1, Word);
        var c := SpanWhile(s, b, Space);
        if c == |s| || s[c] != '=' then None
        else
          var d := SpanWhile(s, c + 1, Space);
          var e := SpanWhile(s, d, Digit);
          if e == d then None
          else
            var f := SpanWhile(s, e, Space);
            if f == |s| || s[f] != ';' then None
            else
              IdentifierRun(s, a);
              DigitRun(s, d);
              Some(Decl(p, s[a..b], s[d..e]))
  }

  /** An identifier start followed by the longest run of identifier
      characters is an identifier */
  lemma IdentifierRun(s: string, a: nat)
    requires a < |s| && IsIdentStart(s[a])
    ensures IsIdentifier(s[a..SpanWhile(s, a + 1, Word)])
  {
    var b := SpanWhile(s, a + 1, Word);
    SpanWhileRun(s, a + 1, Word);
    assert forall k :: 1 <= k < b - a ==> s[a..b][k] == s[a + k];
  }

  /** The longest run of white space is all white space */
  lemma SpaceRun(s: string, i: nat)
    requires i <= |s|
    ensures AllSpace(s[i..SpanWhile(s, i, Space)])
  {
    var j := SpanWhile(s, i, Space);
    SpanWhileRun(s, i, Space);
    assert forall k :: 0 <= k < j - i ==> s[i..j][k] == s[i + k];
  }

  /** The longest run of digits is all digits */
  lemma DigitRun(s: string, d: nat)
    requires d <= |s|
    ensures AllDigits(s[d..SpanWhile(s, d, Digit)])
  {
    var e := SpanWhile(s, d, Digit);
    SpanWhileRun(s, d, Digit);
    assert forall k :: 0 <= k < e - d ==> s[d..e][k] == s[d + k];
  }

  /** `regex_search`: the leftmost match at or after `from`. */
  function FindDecl(s: string, from: nat): (r: Option<Decl>)
    requires from <= |s|
    ensures r.Some? ==> from <= r.value.start <= |s| && DeclAt(s, r.value.start) == r
    decreases |s| - from
  {
    var d := DeclAt(s, from);
    if d.Some? then d
    else if from == |s| then None
    else FindDecl(s, from + 1)
  }

  /** The pattern matches at no position in `[from, to)` */
  ghost predicate NoDeclBetween(s: string, from: nat, to: nat) {
    forall q :: from <= q < to ==> DeclAt(s, q).None?
  }

  /** The match `FindDecl` returns is the leftmost one: the pattern matches
      at no earlier position, and `None` means it matches nowhere. */
  lemma {:induction false} FindDeclLeftmost(s: string, from: nat)
    requires from <= |s|
    ensures FindDecl(s, from).Some? ==> NoDeclBetween(s, from, FindDecl(s, from).value.start)
    ensures FindDecl(s, from).None? ==> NoDeclBetween(s, from, |s| + 1)
    decreases |s| - from
  {
    if DeclAt(s, from).None? && from < |s| {
      FindDeclLeftmost(s, from + 1);
      FindDeclSkips(s, from);
      var r := FindDecl(s, from);
      NoDeclExtend(s, from, if r.Some? then r.value.start else |s| + 1);
    }
  }

  lemma FindDeclSkips(s: string, from: nat)
    requires from < |s| && DeclAt(s, from).None?
    ensures FindDecl(s, from) == FindDecl(s, from + 1)
  {
  }

  lemma NoDeclExtend(s: string, from: nat, to: nat)
    requires DeclAt(s, from).None? && NoDeclBetween(s, from + 1, to)
    ensures NoDeclBetween(s, from, to)
  {
  }

  /** The text the pattern describes, assembled from its parts */
  function DeclText(kw: string, sp1: string, name: string, sp2: string, sp3: string,
                    digits: string, sp4: string): string
  {
    kw + sp1 + name + sp2 + "=" + sp3 + digits + sp4 + ";"
  }

  /** The parts have the shapes the pattern allows */
  predicate DeclParts(kw: string, sp1: string, name: string, sp2: string, sp3: string,
                      digits: string, sp4: string)
  {
    && (kw == "int" || kw == "float")
    && |sp1| > 0 && AllSpace(sp1)
    && IsIdentifier(name)
    && AllSpace(sp2) && AllSpace(sp3)
    && |digits| > 0 && AllDigits(digits)
    && AllSpace(sp4)
  }

  /** The pattern matches at `p`, binding `name` and `digits` */
  ghost predicate DeclarationAt(s: string, p: nat, name: string, digits: string) {
    exists kw, sp1, sp2, sp3, sp4 ::
      DeclParts(kw, sp1, name, sp2, sp3, digits, sp4) && StartsAt(s, p, DeclText(kw, sp1, name, sp2, sp3, digits, sp4))
  }

  /** The pattern text occurs at `p` exactly when each of its parts occurs
      where the previous one ends. */
  lemma DeclTextPieces(s: string, p: nat, kw: string, sp1: string, name: string, sp2: string,
                       sp3: string, digits: string, sp4: string)
    ensures StartsAt(s, p, DeclText(kw, sp1, name, sp2, sp3, digits, sp4)) <==>
      PiecesAt(s, p, kw, sp1, name, sp2, sp3, digits, sp4)
  {
    var p2 := kw + sp1 + name;
    var p5 := p2 + sp2 + "=" + sp3;
    assert DeclText(kw, sp1, name, sp2, sp3, digits, sp4) == p5 + digits + sp4 + ";";
    StartsAtFour(s, p, p5, digits, sp4, ";");
    HeadPieces(s, p, kw, sp1, name, sp2, sp3);
  }

  /** The part of the pattern text up to the spaces after `=` */
  lemma HeadPieces(s: string, p: nat, kw: string, sp1: string, name: string, sp2: string, sp3: string)
    ensures var q := p + |kw|;
      var a := q + |sp1|;
      var b := a + |name|;
      var c := b + |sp2|;
      && |kw + sp1 + name + sp2 + "=" + sp3| == c + 1 + |sp3| - p
      && (StartsAt(s, p, kw + sp1 + name + sp2 + "=" + sp3) <==>
        && StartsAt(s, p, kw) && StartsAt(s, q, sp1) && StartsAt(s, a, name)
        && StartsAt(s, b, sp2) && StartsAt(s, c, "=") && StartsAt(s, c + 1, sp3))
  {
    var p2 := kw + sp1 + name;
    assert |p2| == |kw| + |sp1| + |name|;
    StartsAtFour(s, p, p2, sp2, "=", sp3);
    StartsAtConcat(s, p, kw + sp1, name);
    StartsAtConcat(s, p, kw, sp1);
  }

  /** `x + u + v + w` occurs at `p` exactly when its four parts occur one
      after the other */
  lemma StartsAtFour(s: string, p: nat, x: string, u: string, v: string, w: string)
    ensures StartsAt(s, p, x + u + v + w) <==>
      StartsAt(s, p, x) && StartsAt(s, p + |x|, u) && StartsAt(s, p + |x| + |u|, v)
      && StartsAt(s, p + |x| + |u| + |v|, w)
  {
    StartsAtConcat(s, p, x + u + v, w);
    StartsAtConcat(s, p, x + u, v);
    StartsAtConcat(s, p, x, u);
  }

  /** The runs `DeclAt` scans end at `q`, `a`, ..., `f`, and each is
      followed by what the pattern needs there. */
  predicate SpanEnds(s: string, p: nat, q: nat, a: nat, b: nat, c: nat, d: nat, e: nat, f: nat) {
    NameEnds(s, p, q, a, b) && ValueEnds(s, b, c, d, e, f)
  }

  /** The runs over `(int|float)\s+identifier` end at `q`, `a` and `b` */
  predicate NameEnds(s: string, p: nat, q: nat, a: nat, b: nat) {
    && KeywordEnd(s, p) == Some(q)
    && q < a < |s| && SpanWhile(s, q, Space) == a && IsIdentStart(s[a])
    && a < b <= |s| && SpanWhile(s, a + 1, Word) == b
  }

  /** The runs over `\s*=\s*[0-9]+\s*;` end at `c`, `d`, `e` and `f` */
  predicate ValueEnds(s: string, b: nat, c: nat, d: nat, e: nat, f: nat) {
    && b <= c < |s| && SpanWhile(s, b, Space) == c && s[c] == '='
    && c < d <= |s| && SpanWhile(s, c + 1, Space) == d
    && d < e <= |s| && SpanWhile(s, d, Digit) == e
    && e <= f < |s| && SpanWhile(s, e, Space) == f && s[f] == ';'
  }


  /** `DeclAt` unfolded at given span ends */
  lemma DeclAtFromSpans(s: string, p: nat, q: nat, a: nat, b: nat, c: nat, d: nat, e: nat, f: nat)
    requires SpanEnds(s, p, q, a, b, c, d, e, f)
    ensures DeclAt(s, p) == Some(Decl(p, s[a..b], s[d..e]))
  {
  }

  /** A match of `DeclAt` has its span ends */
  lemma SpansOfDeclAt(s: string, p: nat) returns (q: nat, a: nat, b: nat, c: nat, d: nat, e: nat, f: nat)
    requires DeclAt(s, p).Some?
    ensures SpanEnds(s, p, q, a, b, c, d, e, f) && DeclAt(s, p) == Some(Decl(p, s[a..b], s[d..e]))
  {
    q := KeywordEnd(s, p).value;
    a := SpanWhile(s, q, Space);
    b := SpanWhile(s, a + 1, Word);
    c := SpanWhile(s, b, Space);
    d := SpanWhile(s, c + 1, Space);
    e := SpanWhile(s, d, Digit);
    f := SpanWhile(s, e, Space);
  }

  /** The text between span ends has the shapes of the pattern's parts */
  lemma PartsBetweenSpans(s: string, p: nat, q: nat, a: nat, b: nat, c: nat, d: nat, e: nat, f: nat)
    requires SpanEnds(s, p, q, a, b, c, d, e, f)
    ensures p <= q
    ensures DeclParts(s[p..q], s[q..a], s[a..b], s[b..c], s[c + 1..d], s[d..e], s[e..f])
  {
    SpaceRun(s, q);
    IdentifierRun(s, a);
    SpaceRun(s, b);
    SpaceRun(s, c + 1);
    DigitRun(s, d);
    SpaceRun(s, e);
    assert StartsAt(s, p, "int") ==> s[p..q] == "int";
  }

  /** ... and lies end to end from `p` */
  lemma PiecesBetweenSpans(s: string, p: nat, q: nat, a: nat, b: nat, c: nat, d: nat, e: nat, f: nat)
    requires p <= q < a <= b <= c < d <= e <= f < |s| && s[c] == '=' && s[f] == ';'
    ensures PiecesAt(s, p, s[p..q], s[q..a], s[a..b], s[b..c], s[c + 1..d], s[d..e], s[e..f])
  {
    assert s[c..c + 1] == "=" && s[f..f + 1] == ";";
  }

  /** The spans `DeclAt` computes over `\s+identifier` */
  lemma NameSpans(s: string, q: nat, a: nat, sp1: string, name: string)
    requires a == q + |sp1|
    requires StartsAt(s, q, sp1) && |sp1| > 0 && AllSpace(sp1)
    requires StartsAt(s, a, name) && IsIdentifier(name)
    requires a + |name| < |s| && !IsIdentChar(s[a + |name|])
    ensures SpanWhile(s, q, Space) == a && IsIdentStart(s[a])
    ensures SpanWhile(s, a + 1, Word) == a + |name| && s[a..a + |name|] == name
  {
    assert s[a] == name[0];
    SpanOver(s, q, sp1, Space);
    SpanOver(s, a, name, Word);
  }

  /** The spans `DeclAt` computes over `\s*=\s*[0-9]+\s*;`, ending at `c`,
      `d`, `e` and `f` */
  lemma ValueSpans(s: string, b: nat, sp2: string, sp3: string, digits: string, sp4: string,
                   c: nat, d: nat, e: nat, f: nat)
    requires AllSpace(sp2) && AllSpace(sp3) && |digits| > 0 && AllDigits(digits) && AllSpace(sp4)
    requires c == b + |sp2| && d == c + 1 + |sp3| && e == d + |digits| && f == e + |sp4|
    requires StartsAt(s, b, sp2) && StartsAt(s, c, "=") && StartsAt(s, c + 1, sp3)
    requires StartsAt(s, d, digits) && StartsAt(s, e, sp4) && StartsAt(s, f, ";")
    ensures ValueEnds(s, b, c, d, e, f) && s[d..e] == digits
  {
    assert s[c] == '=';
    SpanOver(s, b, sp2, Space);
    assert s[d] == digits[0];
    SpanOver(s, c + 1, sp3, Space);
    assert s[e] == if |sp4| > 0 then sp4[0] else ';';
    SpanOver(s, d, digits, Digit);
    assert s[f] == ';';
    SpanOver(s, e, sp4, Space);
  }

  lemma KeywordAt(s: string, p: nat, kw: string)
    requires (kw == "int" || kw == "float") && StartsAt(s, p, kw)
    ensures KeywordEnd(s, p) == Some(p + |kw|)
  {
    assert s[p] == kw[0];
  }

  /** The character after an identifier followed by `\s*=` ends it */
  lemma SpacesThenEquals(s: string, b: nat, sp2: string)
    requires AllSpace(sp2) && StartsAt(s, b, sp2) && StartsAt(s, b + |sp2|, "=")
    ensures b < |s| && !IsIdentChar(s[b])
  {
    assert s[b] == if |sp2| > 0 then sp2[0] else '=';
  }

  /** The parts of a text the pattern describes occur end to end from `p`,
      the part boundaries being `q`, `a`, ..., `f` */
  ghost predicate PiecesAt(s: string, p: nat, kw: string, sp1: string, name: string, sp2: string,
                           sp3: string, digits: string, sp4: string)
  {
    var q := p + |kw|;
    var a := q + |sp1|;
    var b := a + |name|;
    var c := b + |sp2|;
    var d := c + 1 + |sp3|;
    var e := d + |digits|;
    var f := e + |sp4|;
    && StartsAt(s, p, kw) && StartsAt(s, q, sp1) && StartsAt(s, a, name)
    && StartsAt(s, b, sp2) && StartsAt(s, c, "=") && StartsAt(s, c + 1, sp3)
    && StartsAt(s, d, digits) && StartsAt(s, e, sp4) && StartsAt(s, f, ";")
  }

  /** The spans over `(int|float)\s+identifier`, given `\s*=` after it,
      ending at `q`, `a` and `b` */
  lemma KeywordAndName(s: string, p: nat, kw: string, sp1: string, name: string, sp2: string,
                       q: nat, a: nat, b: nat)
    requires (kw == "int" || kw == "float") && |sp1| > 0 && AllSpace(sp1) && AllSpace(sp2)
    requires IsIdentifier(name)
    requires q == p + |kw| && a == q + |sp1| && b == a + |name|
    requires StartsAt(s, p, kw) && StartsAt(s, q, sp1) && StartsAt(s, a, name)
    requires StartsAt(s, b, sp2) && StartsAt(s, b + |sp2|, "=")
    ensures NameEnds(s, p, q, a, b) && s[a..b] == name
  {
    KeywordAt(s, p, kw);
    SpacesThenEquals(s, b, sp2);
    NameSpans(s, q, a, sp1, name);
  }


  /** `DeclAt` on the parts of a text the pattern describes, laid end to end */
  lemma DeclAtOnPieces(s: string, p: nat, kw: string, sp1: string, name: string, sp2: string,
                       sp3: string, digits: string, sp4: string)
    requires DeclParts(kw, sp1, name, sp2, sp3, digits, sp4)
    requires PiecesAt(s, p, kw, sp1, name, sp2, sp3, digits, sp4)
    ensures DeclAt(s, p) == Some(Decl(p, name, digits))
  {
    var q, a, b, c, d, e, f := SpanEndsOfPieces(s, p, kw, sp1, name, sp2, sp3, digits, sp4);
    DeclAtFromSpans(s, p, q, a, b, c, d, e, f);
    assert Decl(p, s[a..b], s[d..e]) == Decl(p, name, digits);
  }

  /** The parts laid end to end from `p` are what `DeclAt` scans */
  lemma SpanEndsOfPieces(s: string, p: nat, kw: string, sp1: string, name: string, sp2: string,
                         sp3: string, digits: string, sp4: string)
      returns (q: nat, a: nat, b: nat, c: nat, d: nat, e: nat, f: nat)
    requires DeclParts(kw, sp1, name, sp2, sp3, digits, sp4)
    requires PiecesAt(s, p, kw, sp1, name, sp2, sp3, digits, sp4)
    ensures NameEnds(s, p, q, a, b)
    ensures ValueEnds(s, b, c, d, e, f)
    ensures s[a..b] == name && s[d..e] == digits
  {
    q, a, b := NameOfPieces(s, p, kw, sp1, name, sp2, sp3, digits, sp4);
    c, d, e, f := ValueOfPieces(s, p, kw, sp1, name, sp2, sp3, digits, sp4, b);
  }

  lemma NameOfPieces(s: string, p: nat, kw: string, sp1: string, name: string, sp2: string,
                     sp3: string, digits: string, sp4: string) returns (q: nat, a: nat, b: nat)
    requires DeclParts(kw, sp1, name, sp2, sp3, digits, sp4)
    requires PiecesAt(s, p, kw, sp1, name, sp2, sp3, digits, sp4)
    ensures b == p + |kw| + |sp1| + |name|
    ensures NameEnds(s, p, q, a, b) && s[a..b] == name
  {
    q := p + |kw|;
    a := q + |sp1|;
    b := a + |name|;
    KeywordAndName(s, p, kw, sp1, name, sp2, q, a, b);
  }

  lemma ValueOfPieces(s: string, p: nat, kw: string, sp1: string, name: string, sp2: string,
                      sp3: string, digits: string, sp4: string, b: nat) returns (c: nat, d: nat, e: nat, f: nat)
    requires DeclParts(kw, sp1, name, sp2, sp3, digits, sp4)
    requires PiecesAt(s, p, kw, sp1, name, sp2, sp3, digits, sp4)
    requires b == p + |kw| + |sp1| + |name|
    ensures ValueEnds(s, b, c, d, e, f) && s[d..e] == digits
  {
    c := b + |sp2|;
    d := c + 1 + |sp3|;
    e := d + |digits|;
    f := e + |sp4|;
    ValueSpans(s, b, sp2, sp3, digits, sp4, c, d, e, f);
  }


  /** Every text the pattern describes is matched by `DeclAt`, which binds
      the same name and digits: the pattern leaves no choice. */
  lemma DeclAtComplete(s: string, p: nat, kw: string, sp1: string, name: string, sp2: string,
                       sp3: string, digits: string, sp4: string)
    requires DeclParts(kw, sp1, name, sp2, sp3, digits, sp4)
    requires StartsAt(s, p, DeclText(kw, sp1, name, sp2, sp3, digits, sp4))
    ensures DeclAt(s, p) == Some(Decl(p, name, digits))
  {
    DeclTextPieces(s, p, kw, sp1, name, sp2, sp3, digits, sp4);
    DeclAtOnPieces(s, p, kw, sp1, name, sp2, sp3, digits, sp4);
  }

  /** What `DeclAt` matches is a text the pattern describes. */
  lemma DeclAtSound(s: string, p: nat)
    requires DeclAt(s, p).Some?
    ensures DeclarationAt(s, p, DeclAt(s, p).value.name, DeclAt(s, p).value.digits)
  {
    var q, a, b, c, d, e, f := SpansOfDeclAt(s, p);
    DeclarationFromSpans(s, p, q, a, b, c, d, e, f);
  }

  /** The text between span ends is a text the pattern describes */
  lemma DeclarationFromSpans(s: string, p: nat, q: nat, a: nat, b: nat, c: nat, d: nat, e: nat, f: nat)
    requires SpanEnds(s, p, q, a, b, c, d, e, f)
    ensures DeclarationAt(s, p, s[a..b], s[d..e])
  {
    PartsBetweenSpans(s, p, q, a, b, c, d, e, f);
    PiecesBetweenSpans(s, p, q, a, b, c, d, e, f);
    var kw, sp1, name, sp2 := s[p..q], s[q..a], s[a..b], s[b..c];
    var sp3, digits, sp4 := s[c + 1..d], s[d..e], s[e..f];
    DeclTextPieces(s, p, kw, sp1, name, sp2, sp3, digits, sp4);
  }

  /** `DeclAt` decides the pattern: it matches at `p` with this name and
      these digits exactly when the pattern describes the text at `p`. */
  lemma DeclAtIsPattern(s: string, p: nat, name: string, digits: string)
    ensures DeclAt(s, p) == Some(Decl(p, name, digits)) <==> DeclarationAt(s, p, name, digits)
  {
    if DeclAt(s, p) == Some(Decl(p, name, digits)) {
      DeclAtSound(s, p);
    }
    if DeclarationAt(s, p, name, digits) {
      var kw, sp1, sp2, sp3, sp4 :| DeclParts(kw, sp1, name, sp2, sp3, digits, sp4)
        && StartsAt(s, p, DeclText(kw, sp1, name, sp2, sp3, digits, sp4));
      DeclAtComplete(s, p, kw, sp1, name, sp2, sp3, digits, sp4);
    }
  }

  /** The pattern matches at `p` with some name and digits */
  ghost predicate MatchesAt(s: string, p: nat) {
    exists name, digits :: DeclarationAt(s, p, name, digits)
  }

  lemma MatchesAtIsDeclAt(s: string, p: nat)
    ensures MatchesAt(s, p) <==> DeclAt(s, p).Some?
  {
    if DeclAt(s, p).Some? {
      DeclAtSound(s, p);
    }
    if MatchesAt(s, p) {
      var name, digits :| DeclarationAt(s, p, name, digits);
      DeclAtIsPattern(s, p, name, digits);
    }
  }

  /** No text the pattern describes starts in `[lo, hi)` */
  ghost predicate NoMatchBetween(s: string, lo: nat, hi: nat) {
    forall q :: lo <= q < hi ==> !MatchesAt(s, q)
  }

  lemma NoMatchIsNoDecl(s: string, lo: nat, hi: nat)
    ensures NoMatchBetween(s, lo, hi) <==> NoDeclBetween(s, lo, hi)
  {
    forall q | lo <= q < hi
      ensures MatchesAt(s, q) <==> DeclAt(s, q).Some?
    {
      MatchesAtIsDeclAt(s, q);
    }
  }

  /** `regex_search` finds the leftmost text the pattern describes. */
  lemma FindDeclIsLeftmostMatch(s: string, p: nat, name: string, digits: string)
    ensures FindDecl(s, 0) == Some(Decl(p, name, digits)) <==>
      DeclarationAt(s, p, name, digits) && NoMatchBetween(s, 0, p)
  {
    FindDeclLeftmost(s, 0);
    DeclAtIsPattern(s, p, name, digits);
    NoMatchIsNoDecl(s, 0, p);
    var r := FindDecl(s, 0);
    if r.Some? {
      NoMatchIsNoDecl(s, 0, r.value.start);
      MatchesAtIsDeclAt(s, p);
    } else {
      NoMatchIsNoDecl(s, 0, |s| + 1);
      MatchesAtIsDeclAt(s, p);
    }
  }

  /** `regex_search` finds nothing only when the pattern matches nowhere. */
  lemma FindDeclNoneIsNoMatch(s: string)
    ensures FindDecl(s, 0).None? <==> NoMatchBetween(s, 0, |s| + 1)
  {
    FindDeclLeftmost(s, 0);
    NoMatchIsNoDecl(s, 0, |s| + 1);
    var r := FindDecl(s, 0);
    if r.Some? {
      MatchesAtIsDeclAt(s, r.value.start);
    }
  }

  /** A group of at most nine digits is below 10^9, so `stoi` never throws
      on it: only ten digits or more can take the out-of-range path. */
  lemma ShortDigitsInRange(ds: string)
    requires AllDigits(ds) && |ds| <= 9
    ensures DigitsValue(ds) <= IntMax
  {
    Pow10Monotone(|ds|, 9);
    assert Pow10(9) == 1_000_000_000;
  }

  lemma {:induction false} Pow10Monotone(m: nat, n: nat)
    requires m <= n
    ensures Pow10(m) <= Pow10(n)
    decreases n - m
  {
    if m < n {
      Pow10Monotone(m, n - 1);
    }
  }

  // ---------------------------------------------------------------------
  // The whole generator, as a function of the table before the line

  /** `code.substr(0, code.size() - 1)`; on an empty line the length wraps
      to `npos` and the result is empty. */
  function DropLast(line: string): (r: string)
    ensures |line| > 0 ==> r + [line[|line| - 1]] == line
    ensures |line| == 0 ==> r == []
  {
    if |line| == 0 then [] else line[..|line| - 1]
  }

  function Generate(t: Table, line: string): Effect {
    if Contains(line, "print") then
      Effect(PrintOutput(t, Unspaced(PrintPayload(line))), t)
    else
      match FindDecl(line, 0)
      case Some(d) =>
        var v := DigitsValue(d.digits);
        if v <= IntMax then Effect(Assigned(d.name, v), t[d.name := v])
        else Effect(OutOfRange(d.digits), t)
      case None => Effect(Executed(DropLast(line)), t)
  }

  /** Only a declaration writes the table, and it writes exactly the
      assigned entry; every other line leaves the table as it was. */
  lemma GenerateFrame(t: Table, line: string)
    ensures var r := Generate(t, line);
      r.table == (if r.out.Assigned? then t[r.out.name := r.out.value] else t)
    ensures Generate(t, line).out.Assigned? ==> !Contains(line, "print")
  {
  }

  /** A line containing `print` never writes the table, whatever else it
      contains. */
  lemma PrintLineKeepsTable(t: Table, line: string)
    requires Contains(line, "print")
    ensures Generate(t, line).table == t
    ensures !Generate(t, line).out.Assigned? && !Generate(t, line).out.Executed?
  {
  }

  /** `print("...")` prints the text between the quotes, with its spaces
      erased. */
  lemma PrintQuotedEchoes(t: Table, line: string, pre: string, body: string, post: string, w: string)
    requires '(' !in pre && ')' !in body
    requires line == pre + "(" + body + post && (post == [] || post[0] == ')')
    requires Contains(line, "print")
    requires Unspaced(body) == "\"" + w + "\""
    ensures Generate(t, line) == Effect(Printed(w), t)
  {
    PayloadBetweenParens(line, pre, body, post);
    var u := Unspaced(body);
    assert u[1..|u| - 1] == w;
  }

  /** A payload that is not a literal is looked up as a variable name,
      whatever its characters: the variable's value is printed, or the name
      is reported undefined; the table is unchanged either way. */
  lemma PrintVariable(t: Table, line: string, pre: string, body: string, post: string)
    requires '(' !in pre && ')' !in body
    requires line == pre + "(" + body + post && (post == [] || post[0] == ')')
    requires Contains(line, "print")
    requires !IsQuoted(Unspaced(body))
    ensures var name := Unspaced(body);
      Generate(t, line) == Effect(if name in t then Value(t[name]) else Undefined(name), t)
  {
    PayloadBetweenParens(line, pre, body, post);
  }

  /** A line without `print` assigns the leftmost declaration the pattern
      finds in it, unless its value is out of the range of `stoi`, in which
      case the table is unchanged. */
  lemma DeclarationAssigns(t: Table, line: string, p: nat, name: string, digits: string)
    requires !Contains(line, "print")
    requires DeclarationAt(line, p, name, digits) && NoMatchBetween(line, 0, p)
    ensures AllDigits(digits)
    ensures var v := DigitsValue(digits);
      Generate(t, line) ==
        if v <= IntMax then Effect(Assigned(name, v), t[name := v])
        else Effect(OutOfRange(digits), t)
  {
    FindDeclIsLeftmostMatch(line, p, name, digits);
  }

  /** A line with neither `print` nor a declaration is echoed without its
      last character and changes nothing. */
  lemma OtherLineEchoed(t: Table, line: string)
    requires !Contains(line, "print") && NoMatchBetween(line, 0, |line| + 1)
    ensures Generate(t, line) == Effect(Executed(DropLast(line)), t)
  {
    FindDeclNoneIsNoMatch(line);
  }

  // Examples of the edge cases the original handles

  /** `print();` has an empty payload, which is not a literal (its first
      character reads as the terminating NUL) and names no variable. */
  lemma EmptyPrintIsUndefined(t: Table, line: string)
    requires line == "print();" && "" !in t
    ensures Generate(t, line) == Effect(Undefined(""), t)
  {
    assert StartsAt(line, 0, "print");
    PayloadBetweenParens(line, "print", "", ");");
  }

  /** A payload that is a lone `"` once its spaces are erased counts as a
      literal on its own, and the text printed is empty. */
  lemma LoneQuotePayloadPrintsNothing(t: Table, line: string, pre: string, body: string, post: string)
    requires '(' !in pre && ')' !in body
    requires line == pre + "(" + body + post && (post == [] || post[0] == ')')
    requires Contains(line, "print") && Unspaced(body) == "\""
    ensures Generate(t, line) == Effect(Printed(""), t)
  {
    PayloadBetweenParens(line, pre, body, post);
  }

  /** `print(");` has the one-character payload `"`, which counts as a
      literal on its own and prints the empty text. */
  lemma LoneQuotePrintsNothing(t: Table, line: string)
    requires line == "print(\");"
    ensures Generate(t, line) == Effect(Printed(""), t)
  {
    assert StartsAt(line, 0, "print");
    PayloadBetweenParens(line, "print", "\"", ");");
    assert Unspaced("\"") == "\"" by { UnspacedNoSpace("\""); }
  }

  /** `print(10);` is not a literal, so the number is looked up as a variable
      name and reported undefined. */
  lemma PrintNumberIsUndefined(t: Table, line: string)
    requires line == "print(10);" && "10" !in t
    ensures Generate(t, line) == Effect(Undefined("10"), t)
  {
    assert StartsAt(line, 0, "print");
    PayloadBetweenParens(line, "print", "10", ");");
    UnspacedNoSpace("10");
  }

  /** A declaration whose variable name contains `print` is taken for a print
      statement: nothing is assigned. */
  lemma PrintInNameBlocksDeclaration(t: Table, line: string)
    requires line == "int printer = 5;"
    ensures Generate(t, line).table == t && !Generate(t, line).out.Assigned?
  {
    assert StartsAt(line, 4, "print");
  }

  /** The declaration pattern is searched for anywhere in the line: in
      `point x = 5;` it matches from the `int` inside `point`. */
  lemma DeclarationInsideWord(t: Table, line: string)
    requires line == "point x = 5;"
    ensures Generate(t, line) == Effect(Assigned("x", 5), t["x" := 5])
  {
    PointFacts(line);
    NoMatchIsNoDecl(line, 0, 2);
    DeclarationAssigns(t, line, 2, "x", "5");
    assert DigitsValue("5") == 5;
  }

  lemma PointFacts(line: string)
    requires line == "point x = 5;"
    ensures !Contains(line, "print") && NoDeclBetween(line, 0, 2)
    ensures DeclarationAt(line, 2, "x", "5")
  {
    PointHasNoPrint(line);
    PointNoEarlyMatch(line);
    PointDeclaration(line);
  }

  lemma PointHasNoPrint(line: string)
    requires line == "point x = 5;"
    ensures !Contains(line, "print")
  {
    assert forall k :: 0 <= k < |line| ==> line[k] != 'r';
    forall q | 0 <= q ensures !StartsAt(line, q, "print") {
      if q + 5 <= |line| {
        assert line[q..q + 5][1] != 'r';
      }
    }
  }

  lemma PointNoEarlyMatch(line: string)
    requires line == "point x = 5;"
    ensures NoDeclBetween(line, 0, 2)
  {
    assert line[0] == 'p' && line[1] == 'o';
    assert line[0..3][0] == 'p' && line[1..4][0] == 'o';
    assert KeywordEnd(line, 0) == None;
    assert KeywordEnd(line, 1) == None;
  }

  lemma PointDeclaration(line: string)
    requires line == "point x = 5;"
    ensures DeclarationAt(line, 2, "x", "5")
  {
    assert DeclText("int", " ", "x", " ", " ", "5", "") == "int x = 5;";
    assert line[2..] == "int x = 5;";
    assert StartsAt(line, 2, DeclText("int", " ", "x", " ", " ", "5", ""));
    assert DeclParts("int", " ", "x", " ", " ", "5", "");
  }

  // ---------------------------------------------------------------------
  // The generator as the original runs it: the table is a field that the
  // declaration branch updates, and spaces are erased from the payload in
  // place.

  class CodeGenerator {
    var symbols: Table

    constructor ()
      ensures symbols == map[]
    {
      symbols := map[];
    }

    method GenerateCode(line: string) returns (out: Output)
      modifies this
      ensures Effect(out, symbols) == Generate(old(symbols), line)
    {
      if Contains(line, "print") {
        var payload := PrintPayload(line);
        var buf := new char[|payload|](i requires 0 <= i < |payload| => payload[i]);
        assert buf[..] == payload;
        var n := RemoveSpaces(buf);
        var text := buf[..n];
        if IsQuoted(text) {
          out := Printed(Unquote(text));
        } else if text in symbols {
          out := Value(symbols[text]);
        } else {
          out := Undefined(text);
        }
      } else {
        var m := FindDecl(line, 0);
        match m {
          case Some(d) =>
            var v := DigitsValue(d.digits);
            if v <= IntMax {
              symbols := symbols[d.name := v];
              out := Assigned(d.name, v);
            } else {
              out := OutOfRange(d.digits);
            }
          case None =>
            out := Executed(DropLast(line));
        }
      }
    }
  }

  /** `erase(remove(begin, end, ' '), end)`: the characters other than spaces
      are moved to the front in order; the new length is returned. */
  method RemoveSpaces(a: array<char>) returns (n: nat)
    modifies a
    ensures n <= a.Length && a[..n] == Unspaced(old(a[..]))
  {
    ghost var orig := a[..];
    n := 0;
    var i := 0;
    while i < a.Length
      invariant n <= i <= a.Length
      invariant a[..n] == Unspaced(orig[..i])
      invariant forall k :: i <= k < a.Length ==> a[k] == orig[k]
    {
      assert a[i] == orig[i];
      assert orig[..i + 1] == orig[..i] + [orig[i]];
      UnspacedSnoc(orig[..i], orig[i]);
      if a[i] != ' ' {
        a[n] := a[i];
        n := n + 1;
      }
      i := i + 1;
    }
    assert orig[..a.Length] == orig;
  }
}
