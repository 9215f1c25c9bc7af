/** The syntax validator (`SyntaxValidator::validateSyntax`): a coarse check
    of one line that looks only at which characters are present. */
module Syntax {
  import opened Strings

  /** A line mentioning `print` anywhere needs a `;`, a `(` and a `)`
      somewhere, in any order and without any balancing; every other line
      must end with `;`. An empty line, on which the original reads past
      the end, is rejected. */
  function ValidateSyntax(line: string): (ok: bool)
    ensures (exists p :: StartsAt(line, p, "print")) ==>
      (ok <==> ';' in line && '(' in line && ')' in line)
    ensures !(exists p :: StartsAt(line, p, "print")) ==>
      (ok <==> |line| > 0 && line[|line| - 1] == ';')
  {
    if Contains(line, "print") then
      HasChar(line, ';') && HasChar(line, '(') && HasChar(line, ')')
    else
      |line| > 0 && line[|line| - 1] == ';'
  }

  /** `line.find(c) != npos` */
  function HasChar(line: string, c: char): (b: bool)
    ensures b <==> c in line
  {
    var r := FindChar(line, c, 0);
    assert r.Some? ==> line[r.value] == c;
    r.Some?
  }

  /** Presence is all the rule asks for: `)print;(` passes although its
      parentheses are out of order. */
  lemma PrintRuleIgnoresOrder(line: string)
    requires line == ")print;("
    ensures ValidateSyntax(line)
  {
    assert StartsAt(line, 1, "print");
    assert line[0] == ')' && line[6] == ';' && line[7] == '(';
  }

  /** A line without `print` that does not end with `;` is rejected,
      and so is the empty line. */
  lemma MissingSemicolonRejected(line: string)
    requires line == "foo" || line == ""
    ensures !ValidateSyntax(line)
  {
    if line == "foo" {
      assert forall p :: !StartsAt(line, p, "print");
    }
  }
}
