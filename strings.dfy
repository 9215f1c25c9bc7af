/** Text primitives shared by the three pipeline stages: character classes
    of the two regular expressions, the `std::string::find` searches, the
    space-erasing step of the print branch and the decimal value computed by
    `stoi`. */
module Strings {

  datatype Option<T> = None | Some(value: T)

  predicate IsLetter(c: char) { 'a' <= c <= 'z' || 'A' <= c <= 'Z' }

  predicate IsDigit(c: char) { '0' <= c <= '9' }

  /** `[a-zA-Z_]`: the first character of an identifier */
  predicate IsIdentStart(c: char) { IsLetter(c) || c == '_' }

  /** `[a-zA-Z0-9_]`: the later characters of an identifier */
  predicate IsIdentChar(c: char) { IsIdentStart(c) || IsDigit(c) }

  /** `\s` in the C locale: space, tab, line feed, vertical tab, form feed, carriage return */
  predicate IsRegexSpace(c: char) { c == ' ' || '\t' <= c <= '\r' }

  /** The characters the regex `.` does not match */
  predicate IsLineTerminator(c: char) { c == '\n' || c == '\r' }

  /** What `.*?` may run over inside a string literal before the closing quote */
  predicate InStringBody(c: char) { c != '"' && !IsLineTerminator(c) }

  /** The character classes the two regular expressions repeat: `\s`,
      `[a-zA-Z0-9_]`, `[0-9]` and the body of a string literal */
  datatype CharClass = Space | Word | Digit | QuoteBody

  predicate InClass(cls: CharClass, c: char) {
    match cls
    case Space => IsRegexSpace(c)
    case Word => IsIdentChar(c)
    case Digit => IsDigit(c)
    case QuoteBody => InStringBody(c)
  }

  predicate AllSpace(s: string) { forall k :: 0 <= k < |s| ==> IsRegexSpace(s[k]) }

  predicate AllDigits(s: string) { forall k :: 0 <= k < |s| ==> IsDigit(s[k]) }

  /** `w` occurs in `s` starting at index `p` */
  predicate StartsAt(s: string, p: nat, w: string) {
    p + |w| <= |s| && s[p..p + |w|] == w
  }

  /** `x + y` occurs at `p` exactly when `x` does and `y` follows it */
  lemma StartsAtConcat(s: string, p: nat, x: string, y: string)
    ensures StartsAt(s, p, x + y) <==> StartsAt(s, p, x) && StartsAt(s, p + |x|, y)
  {
    if StartsAt(s, p, x) && StartsAt(s, p + |x|, y) {
      assert s[p..p + |x + y|] == s[p..p + |x|] + s[p + |x|..p + |x| + |y|];
    }
    if StartsAt(s, p, x + y) {
      assert s[p..p + |x|] == (x + y)[..|x|];
      assert s[p + |x|..p + |x| + |y|] == (x + y)[|x|..];
    }
  }

  /** `s.find(c, from)`: the first index at or after `from` holding `c` */
  function FindChar(s: string, c: char, from: nat): (r: Option<nat>)
    requires from <= |s|
    ensures r.Some? ==> from <= r.value < |s| && s[r.value] == c
    ensures r.Some? ==> forall k :: from <= k < r.value ==> s[k] != c
    ensures r.None? ==> forall k :: from <= k < |s| ==> s[k] != c
    decreases |s| - from
  {
    if from == |s| then None
    else if s[from] == c then Some(from)
    else FindChar(s, c, from + 1)
  }

  /** `s.find(w, from)`: the first index at or after `from` where `w` occurs */
  function FindSub(s: string, w: string, from: nat): (r: Option<nat>)
    requires from <= |s|
    ensures r.Some? ==> from <= r.value <= |s| && StartsAt(s, r.value, w)
    ensures r.Some? ==> forall q :: from <= q < r.value ==> !StartsAt(s, q, w)
    ensures r.None? ==> forall q :: from <= q <= |s| ==> !StartsAt(s, q, w)
    decreases |s| - from
  {
    if StartsAt(s, from, w) then Some(from)
    else if from == |s| then None
    else FindSub(s, w, from + 1)
  }

  /** `s.find(w) != npos` */
  function Contains(s: string, w: string): (b: bool)
    ensures b <==> exists p :: StartsAt(s, p, w)
  {
    var r := FindSub(s, w, 0);
    assert r.Some? ==> StartsAt(s, r.value, w);
    r.Some?
  }

  /** The end of the longest run of characters of class `cls` that starts at `i`.
      This is the name the matchers use. It is kept apart from `RunEnd`, the
      character-by-character definition, so that proofs about the matchers
      reason about a run through `SpanWhileRun`, `SpanWhileUnique` and
      `SpanWhileAtLeast` rather than by unfolding the recursion, which keeps
      them cheap to check. */
  function SpanWhile(s: string, i: nat, cls: CharClass): (r: nat)
    requires i <= |s|
    ensures i <= r <= |s|
  {
    RunEnd(s, i, cls)
  }

  /** `SpanWhile`, one character at a time */
  function RunEnd(s: string, i: nat, cls: CharClass): (r: nat)
    requires i <= |s|
    ensures i <= r <= |s|
    decreases |s| - i
  {
    if i == |s| || !InClass(cls, s[i]) then i else RunEnd(s, i + 1, cls)
  }

  /** The run `SpanWhile` finds: every character in it is of class `cls`
      and the character after it, if any, is not. */
  lemma {:induction false} SpanWhileRun(s: string, i: nat, cls: CharClass)
    requires i <= |s|
    ensures forall k :: i <= k < SpanWhile(s, i, cls) ==> InClass(cls, s[k])
    ensures SpanWhile(s, i, cls) < |s| ==> !InClass(cls, s[SpanWhile(s, i, cls)])
    decreases |s| - i
  {
    if i < |s| && InClass(cls, s[i]) {
      SpanWhileRun(s, i + 1, cls);
    }
  }

  /** A run is determined by its two defining facts, so any index with
      those facts is the one `SpanWhile` returns. */
  lemma {:induction false} SpanWhileUnique(s: string, i: nat, cls: CharClass, r: nat)
    requires i <= r <= |s|
    requires forall k :: i <= k < r ==> InClass(cls, s[k])
    requires r < |s| ==> !InClass(cls, s[r])
    ensures SpanWhile(s, i, cls) == r
    decreases r - i
  {
    if i < r {
      SpanWhileUnique(s, i + 1, cls, r);
    }
  }

  /** A run of characters of class `cls` from `i` up to `r` means the longest
      such run reaches at least `r`. */
  lemma {:induction false} SpanWhileAtLeast(s: string, i: nat, cls: CharClass, r: nat)
    requires i <= r <= |s|
    requires forall k :: i <= k < r ==> InClass(cls, s[k])
    ensures SpanWhile(s, i, cls) >= r
    decreases r - i
  {
    if i < r {
      SpanWhileAtLeast(s, i + 1, cls, r);
    }
  }

  /** A run over an occurrence of `w` whose characters are all of class `cls`,
      stopped by the character after it, ends where `w` ends. */
  lemma SpanOver(s: string, i: nat, w: string, cls: CharClass)
    requires StartsAt(s, i, w)
    requires forall k :: 0 <= k < |w| ==> InClass(cls, w[k])
    requires i + |w| < |s| && !InClass(cls, s[i + |w|])
    ensures SpanWhile(s, i, cls) == i + |w|
  {
    assert forall k :: i <= k < i + |w| ==> s[k] == w[k - i];
    SpanWhileUnique(s, i, cls, i + |w|);
  }

  /** The text with every space character removed (`erase(remove(..., ' '))`);
      tabs and other white space stay. */
  function Unspaced(s: string): (r: string)
    ensures |r| <= |s|
    ensures ' ' !in r
  {
    if s == [] then []
    else if s[0] == ' ' then Unspaced(s[1..])
    else [s[0]] + Unspaced(s[1..])
  }

  lemma {:induction false} UnspacedAppend(a: string, b: string)
    ensures Unspaced(a + b) == Unspaced(a) + Unspaced(b)
    decreases |a|
  {
    if a == [] {
      assert a + b == b;
    } else {
      assert (a + b)[1..] == a[1..] + b;
      UnspacedAppend(a[1..], b);
    }
  }

  /** Removing spaces from a text that has none changes nothing. */
  lemma {:induction false} UnspacedNoSpace(s: string)
    requires ' ' !in s
    ensures Unspaced(s) == s
    decreases |s|
  {
    if s != [] {
      assert s[0] != ' ';
      assert ' ' !in s[1..];
      UnspacedNoSpace(s[1..]);
      assert s == [s[0]] + s[1..];
    }
  }

  /** What `Unspaced` keeps: every character other than a space, in order.
      Appending one character extends the result by that character unless
      it is a space. */
  lemma UnspacedSnoc(s: string, c: char)
    ensures Unspaced(s + [c]) == Unspaced(s) + (if c == ' ' then [] else [c])
  {
    UnspacedAppend(s, [c]);
    assert Unspaced([c]) == (if c == ' ' then [] else [c]) by {
      assert [c][1..] == [];
    }
  }

  /** The decimal value of a run of digits, most significant first. */
  function DigitsValue(ds: string): (v: nat)
    requires AllDigits(ds)
    ensures v < Pow10(|ds|)
  {
    if ds == [] then 0
    else
      var init := ds[..|ds| - 1];
      var last := ds[|ds| - 1] as int - '0' as int;
      10 * DigitsValue(init) + last
  }

  function Pow10(n: nat): (p: nat)
    ensures p >= 1
  {
    if n == 0 then 1 else 10 * Pow10(n - 1)
  }
}
