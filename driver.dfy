/** The driver (`main`): the lines typed before the `END` sentinel are
    compiled one after another. Each line is tokenized, then validated;
    a line that fails validation raises a syntax error, which is caught and
    reported, and the next line is compiled as usual. Valid lines go to the
    code generator, which carries the symbol table from line to line. */
module Driver {
  import opened Strings
  import opened Lexer
  import opened Syntax
  import opened CodeGen

  /** How one line ends: a caught syntax error, or the generator's output
      (which may itself be the caught `stoi` range error) */
  datatype Verdict = SyntaxError | Compiled(out: Output)

  /** What is reported for one line: its tokens, then its verdict */
  datatype Report = Report(tokens: seq<string>, verdict: Verdict)

  /** The reports of a run and the symbol table it leaves */
  datatype Run = Run(reports: seq<Report>, table: Table)

  /** The body of the `try` block for one line, with the table before it:
      one report, holding the line's tokens whether or not it is valid, and
      a syntax error exactly when validation fails. */
  function CompileLine(t: Table, line: string): (r: Run)
    ensures |r.reports| == 1 && r.reports[0].tokens == Tokens(line)
    ensures r.reports[0].verdict == SyntaxError <==> !ValidateSyntax(line)
    ensures !ValidateSyntax(line) ==> r.table == t
  {
    var tokens := Tokens(line);
    if !ValidateSyntax(line) then Run([Report(tokens, SyntaxError)], t)
    else
      var e := Generate(t, line);
      Run([Report(tokens, Compiled(e.out))], e.table)
  }

  /** The loop over all lines, from the table before the first: one
      report per line. */
  function CompileAll(t: Table, lines: seq<string>): (r: Run)
    ensures |r.reports| == |lines|
  {
    StepsCount(CompileLine, t, lines);
    Steps(CompileLine, t, lines)
  }

  /** Runs `step` on each line in turn, threading the table through */
  function Steps(step: (Table, string) -> Run, t: Table, lines: seq<string>): Run
    decreases |lines|
  {
    if lines == [] then Run([], t)
    else
      var before := Steps(step, t, lines[..|lines| - 1]);
      var last := step(before.table, lines[|lines| - 1]);
      Run(before.reports + last.reports, last.table)
  }

  /** The input loop: lines are collected until one equal to `END`. */
  method ReadProgram(input: seq<string>) returns (lines: seq<string>, ended: bool)
    ensures "END" !in lines
    ensures ended <==> "END" in input
    ensures ended ==> |lines| < |input| && input[..|lines| + 1] == lines + ["END"]
    ensures !ended ==> lines == input
  {
    lines := [];
    var i := 0;
    ended := false;
    while i < |input| && !ended
      invariant 0 <= i <= |input|
      invariant lines == input[..i] && "END" !in lines
      invariant ended ==> i < |input| && input[i] == "END"
      decreases |input| - i, !ended
    {
      if input[i] == "END" {
        ended := true;
      } else {
        lines := lines + [input[i]];
        i := i + 1;
      }
    }
    if ended {
      assert input[..i + 1] == input[..i] + [input[i]];
    } else {
      assert input[..i] == input;
    }
  }

  /** `main`'s compile loop, over the generator that owns the table */
  method CompileProgram(gen: CodeGenerator, lines: seq<string>) returns (reports: seq<Report>)
    modifies gen
    ensures Run(reports, gen.symbols) == CompileAll(old(gen.symbols), lines)
  {
    ghost var t0 := gen.symbols;
    reports := [];
    var i := 0;
    while i < |lines|
      invariant i <= |lines|
      invariant Run(reports, gen.symbols) == CompileAll(t0, lines[..i])
    {
      var line := lines[i];
      assert lines[..i + 1][..i] == lines[..i];
      var tokens := Tokenize(line);
      if !ValidateSyntax(line) {
        reports := reports + [Report(tokens, SyntaxError)];
      } else {
        var out := gen.GenerateCode(line);
        reports := reports + [Report(tokens, Compiled(out))];
      }
      i := i + 1;
    }
    assert lines[..i] == lines;
  }

  // ---------------------------------------------------------------------
  // Properties of a run

  /** Running two blocks of lines is running the first and then the
      second from the table the first leaves. */
  lemma {:induction false} StepsAppend(step: (Table, string) -> Run, t: Table, a: seq<string>, b: seq<string>)
    ensures var first := Steps(step, t, a);
      var second := Steps(step, first.table, b);
      Steps(step, t, a + b) == Run(first.reports + second.reports, second.table)
    decreases |b|
  {
    if b == [] {
      assert a + b == a;
    } else {
      var init := b[..|b| - 1];
      assert (a + b)[..|a + b| - 1] == a + init;
      assert (a + b)[|a + b| - 1] == b[|b| - 1];
      StepsAppend(step, t, a, init);
    }
  }

  /** Running one more line appends its report and continues from the
      table it leaves */
  lemma StepsSnoc(step: (Table, string) -> Run, t: Table, lines: seq<string>, line: string)
    ensures var before := Steps(step, t, lines);
      var last := step(before.table, line);
      Steps(step, t, lines + [line]) == Run(before.reports + last.reports, last.table)
  {
    assert (lines + [line])[..|lines|] == lines;
  }

  lemma CompileAllSnoc(t: Table, lines: seq<string>, line: string)
    ensures var before := CompileAll(t, lines);
      var last := CompileLine(before.table, line);
      CompileAll(t, lines + [line]) == Run(before.reports + last.reports, last.table)
  {
    StepsSnoc(CompileLine, t, lines, line);
  }

  lemma CompileAllAppend(t: Table, a: seq<string>, b: seq<string>)
    ensures var first := CompileAll(t, a);
      var second := CompileAll(first.table, b);
      CompileAll(t, a + b) == Run(first.reports + second.reports, second.table)
  {
    StepsAppend(CompileLine, t, a, b);
  }

  /** One report per line, in order. The `k`-th report holds the tokens of
      the `k`-th line, and its verdict is what that line gives from the
      table the lines before it leave: a syntax error exactly when the line
      fails validation, otherwise the generator's output. */
  lemma {:induction false} ReportsMatchLines(t: Table, lines: seq<string>, k: nat)
    requires k < |lines|
    ensures var before := CompileAll(t, lines[..k]).table;
      var r := CompileAll(t, lines).reports[k];
      && r.tokens == Tokens(lines[k])
      && (r.verdict == SyntaxError <==> !ValidateSyntax(lines[k]))
      && (r.verdict.Compiled? ==> r.verdict.out == Generate(before, lines[k]).out)
  {
    ReportAt(t, lines, k);
    LineVerdict(CompileAll(t, lines[..k]).table, lines[k]);
  }

  /** The `k`-th report is the one line `k` gives from the table the lines
      before it leave */
  lemma ReportAt(t: Table, lines: seq<string>, k: nat)
    requires k < |lines|
    ensures CompileAll(t, lines).reports[k] == CompileLine(CompileAll(t, lines[..k]).table, lines[k]).reports[0]
  {
    var a, b := lines[..k + 1], lines[k + 1..];
    assert lines == a + b;
    CompileAllAppend(t, a, b);
    CompileAllSnoc(t, lines[..k], lines[k]);
    assert a == lines[..k] + [lines[k]];
  }

  /** A valid line's verdict is the generator's output */
  lemma LineVerdict(t: Table, line: string)
    ensures var v := CompileLine(t, line).reports[0].verdict;
      v.Compiled? ==> v.out == Generate(t, line).out
  {
  }

  /** A step that reports once per line reports once per line over a run */
  lemma {:induction false} StepsCount(step: (Table, string) -> Run, t: Table, lines: seq<string>)
    requires forall u, line :: |step(u, line).reports| == 1
    ensures |Steps(step, t, lines).reports| == |lines|
    decreases |lines|
  {
    if lines != [] {
      StepsCount(step, t, lines[..|lines| - 1]);
    }
  }

  /** A line that fails validation is reported and otherwise has no effect:
      inserting it anywhere changes neither the reports of the other lines
      nor the final table. */
  lemma SyntaxErrorIsolated(t: Table, a: seq<string>, bad: string, b: seq<string>)
    requires !ValidateSyntax(bad)
    ensures var with := CompileAll(t, a + [bad] + b);
      var without := CompileAll(t, a + b);
      && with.table == without.table
      && with.reports == without.reports[..|a|] + [Report(Tokens(bad), SyntaxError)] + without.reports[|a|..]
  {
    var first := CompileAll(t, a);
    CompileAllAppend(t, a + [bad], b);
    CompileAllSnoc(t, a, bad);
    CompileAllAppend(t, a, b);
    var second := CompileAll(first.table, b);
    assert (first.reports + second.reports)[..|first.reports|] == first.reports;
    assert (first.reports + second.reports)[|first.reports|..] == second.reports;
  }

  /** What the table may hold once the driver has run: every key is an
      identifier and every value lies in the range `stoi` returns without
      throwing, with no sign since the digits carry none. */
  predicate WellFormedTable(t: Table) {
    forall name :: name in t ==> IsIdentifier(name) && 0 <= t[name] <= IntMax
  }

  lemma {:induction false} CompileAllKeepsTableWellFormed(t: Table, lines: seq<string>)
    requires WellFormedTable(t)
    ensures WellFormedTable(CompileAll(t, lines).table)
    decreases |lines|
  {
    if lines != [] {
      var init := lines[..|lines| - 1];
      CompileAllKeepsTableWellFormed(t, init);
      var before := CompileAll(t, init).table;
      GenerateFrame(before, lines[|lines| - 1]);
    }
  }

  /** A table only grows or changes by lines that declare a variable: if no
      valid line of the run contains a declaration the pattern finds (and
      no `print`), the table is as it was. */
  lemma {:induction false} TableUnchangedWithoutDeclaration(t: Table, lines: seq<string>)
    requires forall k :: 0 <= k < |lines| ==> Contains(lines[k], "print") || FindDecl(lines[k], 0).None?
    ensures CompileAll(t, lines).table == t
    decreases |lines|
  {
    if lines != [] {
      var init := lines[..|lines| - 1];
      assert forall k :: 0 <= k < |init| ==> init[k] == lines[k];
      TableUnchangedWithoutDeclaration(t, init);
    }
  }

  /** A valid declaration line without `print` assigns its variable. */
  lemma DeclarationLine(t: Table, kw: string, sp1: string, name: string, sp2: string,
                        sp3: string, digits: string, sp4: string)
    requires DeclParts(kw, sp1, name, sp2, sp3, digits, sp4)
    requires !Contains(DeclText(kw, sp1, name, sp2, sp3, digits, sp4), "print")
    requires DigitsValue(digits) <= IntMax
    ensures var decl := DeclText(kw, sp1, name, sp2, sp3, digits, sp4);
      var v := DigitsValue(digits);
      CompileLine(t, decl) == Run([Report(Tokens(decl), Compiled(Assigned(name, v)))], t[name := v])
  {
    var decl := DeclText(kw, sp1, name, sp2, sp3, digits, sp4);
    assert StartsAt(decl, 0, decl);
    assert DeclarationAt(decl, 0, name, digits);
    DeclarationAssigns(t, decl, 0, name, digits);
  }

  /** `print(name);` reports the value of a declared variable and leaves the
      table alone. */
  lemma PrintLine(t: Table, name: string)
    requires IsIdentifier(name) && name in t
    ensures var show := "print(" + name + ");";
      CompileLine(t, show) == Run([Report(Tokens(show), Compiled(Value(t[name])))], t)
  {
    var show := "print(" + name + ");";
    assert show == "print" + "(" + name + ");";
    assert StartsAt(show, 0, "print");
    assert ')' !in name && ' ' !in name by {
      forall k | 0 <= k < |name| ensures name[k] != ')' && name[k] != ' ' {
        assert IsIdentChar(name[k]);
      }
    }
    UnspacedNoSpace(name);
    PrintVariable(t, show, "print", name, ");");
    assert show[|show| - 1] == ';' && show[5] == '(' && show[|show| - 2] == ')';
  }

  /** A declaration followed by `print(name);` prints the declared value. */
  lemma DeclareThenPrint(t: Table, kw: string, sp1: string, name: string, sp2: string,
                         sp3: string, digits: string, sp4: string)
    requires DeclParts(kw, sp1, name, sp2, sp3, digits, sp4)
    requires !Contains(DeclText(kw, sp1, name, sp2, sp3, digits, sp4), "print")
    requires DigitsValue(digits) <= IntMax
    ensures var decl := DeclText(kw, sp1, name, sp2, sp3, digits, sp4);
      var run := CompileAll(t, [decl, "print(" + name + ");"]);
      && run.reports[0].verdict == Compiled(Assigned(name, DigitsValue(digits)))
      && run.reports[1].verdict == Compiled(Value(DigitsValue(digits)))
      && run.table == t[name := DigitsValue(digits)]
  {
    var decl := DeclText(kw, sp1, name, sp2, sp3, digits, sp4);
    var show := "print(" + name + ");";
    var v := DigitsValue(digits);
    DeclarationLine(t, kw, sp1, name, sp2, sp3, digits, sp4);
    PrintLine(t[name := v], name);
    CompileAllSnoc(t, [], decl);
    CompileAllSnoc(t, [decl], show);
    assert [] + [decl] == [decl];
    assert [decl] + [show] == [decl, show];
  }

  /** `print();` on any table the driver builds reports the empty name as
      undefined: declared names are never empty. */
  lemma EmptyPrintReportsUndefined(t: Table, lines: seq<string>)
    requires WellFormedTable(t)
    ensures var run := CompileAll(t, lines + ["print();"]);
      run.reports[|lines|].verdict == Compiled(Undefined(""))
  {
    CompileAllKeepsTableWellFormed(t, lines);
    CompileAllSnoc(t, lines, "print();");
    EmptyPrintLine(CompileAll(t, lines).table, "print();");
  }

  lemma EmptyPrintLine(t: Table, line: string)
    requires WellFormedTable(t) && line == "print();"
    ensures CompileLine(t, line).reports[0].verdict == Compiled(Undefined(""))
  {
    EmptyPrintIsUndefined(t, line);
    assert StartsAt(line, 0, "print");
    assert line[5] == '(' && line[6] == ')' && line[7] == ';';
  }

}
