/** The per-file driver of the normaliser: run the fixes chosen on the command
    line over a copy of one file's lines, AND their results, and decide whether
    the file is written back. Reading and writing the file are left to the
    caller: the driver gets the lines read and says what to write. */
module CleanFile {
  import opened Wrappers
  import opened Text
  import opened Lines
  import opened Paths
  import opened IncludeBlock
  import opened Squash
  import opened Whitespace
  import opened IncludeGuards

  /** The switches that choose the fixes: -i, -n, -w, -g, -a and --dry-run. */
  datatype Options = Options(
    fixIncludeBlocks: bool,
    squashEmptyLines: bool,
    fixWhitespaces: bool,
    fixIncludeGuards: bool,
    all: bool,
    dryRun: bool)

  /** What becomes of one file. */
  datatype Outcome =
    | Crashed                    // fix_include_guards raised IndexError, which ends the script
    | Unclear                    // a fix returned False: the file is skipped
    | Unchanged                  // every fix succeeded and nothing changed
    | DryRun                     // the file would change, but --dry-run is on
    | Written(lines: seq<string>) // the file is overwritten with these lines

  /** Each fix is enabled by its own switch or by -a. */
  predicate RunsIncludeBlock(o: Options) { o.fixIncludeBlocks || o.all }
  predicate RunsSquash(o: Options) { o.squashEmptyLines || o.all }
  predicate RunsWhitespaces(o: Options) { o.fixWhitespaces || o.all }

  /** The guard fix runs when enabled, and then only on a .h/.hpp file. */
  predicate RunsIncludeGuards(o: Options, path: string) {
    (o.fixIncludeGuards || o.all) && IsHeaderFile(path)
  }

  /** The lines after the include-block fix, as the list is left whether the
      fix succeeds or not. */
  function AfterIncludeBlock(input: seq<string>, path: string, block: bool): seq<string> {
    if block then
      match FixedIncludeBlock(input, IsSourceFile(path))
      case None => input
      case Some(r) => r
    else input
  }

  /** The lines the guard fix is given: the include-block fix, then the squash,
      then the whitespace fix, each when enabled. */
  function BeforeGuards(input: seq<string>, path: string, block: bool, squash: bool, whitespaces: bool)
    : seq<string>
  {
    var l1 := AfterIncludeBlock(input, path, block);
    var l2 := if squash then Squash.Squash(l1) else l1;
    if whitespaces then FixAllLines(l2) else l2
  }

  /** How the fixes end: the guard fix raised, or they all returned, with the
      AND of their results and the lines they leave. */
  datatype Run = Aborted | Ran(success: bool, output: seq<string>)

  /** The enabled fixes in the script's order. Every enabled fix runs whatever
      the ones before it returned; the squash and the whitespace fix always
      return True. */
  function Fixes(input: seq<string>, path: string, absolutePath: string,
                 block: bool, squash: bool, whitespaces: bool, guards: bool): Run
  {
    var blockOk := !block || FixedIncludeBlock(input, IsSourceFile(path)).Some?;
    var l3 := BeforeGuards(input, path, block, squash, whitespaces);
    if guards && IsHeaderFile(path) then
      match FixedIncludeGuards(l3, absolutePath)
      case Refused => Ran(false, l3)
      case Raised => Aborted
      case Rewritten(r) => Ran(blockOk, r)
    else Ran(blockOk, l3)
  }

  /** The fixes the switches enable. */
  function FixesFor(input: seq<string>, path: string, absolutePath: string, o: Options): Run {
    Fixes(input, path, absolutePath, RunsIncludeBlock(o), RunsSquash(o), RunsWhitespaces(o),
          o.fixIncludeGuards || o.all)
  }

  /** The lines the guard fix is given under the switches `o`. */
  function BeforeGuardsFor(input: seq<string>, path: string, o: Options): seq<string> {
    BeforeGuards(input, path, RunsIncludeBlock(o), RunsSquash(o), RunsWhitespaces(o))
  }

  /** The decision at the end of the loop body: skip the file when the fixes
      crashed or one of them failed, leave it when nothing changed, and otherwise
      write it unless --dry-run is on. */
  function Decide(input: seq<string>, run: Run, dryRun: bool): Outcome {
    match run
    case Aborted => Crashed
    case Ran(success, output) =>
      if !success then Unclear
      else if output == input then Unchanged
      else if dryRun then DryRun
      else Written(output)
  }

  /** What the driver does with one file: `path` as given on the command line
      (it decides the file's kind) and `absolutePath` its absolute form (it
      decides the guard name). */
  function Clean(input: seq<string>, path: string, absolutePath: string, o: Options): Outcome {
    Decide(input, FixesFor(input, path, absolutePath, o), o.dryRun)
  }

  /** The loop body of the script for one file. */
  method CleanOneFile(inputLines: seq<string>, path: string, absolutePath: string, o: Options)
    returns (outcome: Outcome)
    ensures outcome == Clean(inputLines, path, absolutePath, o)
  {
    var block, squash := RunsIncludeBlock(o), RunsSquash(o);
    var whitespaces, guards := RunsWhitespaces(o), o.fixIncludeGuards || o.all;
    var outputLines := new LineList(inputLines);
    var success := true;
    if block {
      var ok := FixIncludeBlock(outputLines, IsSourceFile(path));
      success := success && ok;
    }
    assert outputLines.items == AfterIncludeBlock(inputLines, path, block);
    assert success == (!block || FixedIncludeBlock(inputLines, IsSourceFile(path)).Some?);
    if squash {
      var ok := SquashMultipleEmptyLines(outputLines);
      success := success && ok;
    }
    if whitespaces {
      var ok := FixWhitespaces(outputLines);
      success := success && ok;
    }
    assert outputLines.items == BeforeGuards(inputLines, path, block, squash, whitespaces);
    ghost var run := Fixes(inputLines, path, absolutePath, block, squash, whitespaces, guards);
    if guards {
      if IsHeaderFile(path) {
        var status := FixIncludeGuards(outputLines, absolutePath);
        if status == IndexError {
          assert run == Aborted;
          return Crashed;
        }
        success := success && status.ok;
      }
    }
    assert run == Ran(success, outputLines.items);
    outcome := WriteDecision(inputLines, success, outputLines.items, o.dryRun);
  }

  /** The end of the loop body: skip the file when a fix failed, and write it
      only when it changed and --dry-run is off. */
  method WriteDecision(inputLines: seq<string>, success: bool, outputLines: seq<string>, dryRun: bool)
    returns (outcome: Outcome)
    ensures outcome == Decide(inputLines, Ran(success, outputLines), dryRun)
  {
    if !success {
      return Unclear;
    }
    if inputLines != outputLines {
      if dryRun {
        return DryRun;
      }
      return Written(outputLines);
    }
    return Unchanged;
  }

  /** A file is written only when every enabled fix succeeded, the result
      differs from what was read, and --dry-run is off. */
  lemma WrittenOnlyWhen(input: seq<string>, path: string, absolutePath: string, o: Options)
    ensures var c := Clean(input, path, absolutePath, o);
      c.Written? ==>
        !o.dryRun && c.lines != input
        && (RunsIncludeBlock(o) ==> FixedIncludeBlock(input, IsSourceFile(path)).Some?)
        && (RunsIncludeGuards(o, path) ==>
              FixedIncludeGuards(BeforeGuardsFor(input, path, o), absolutePath).Rewritten?)
  {
    FixesSucceeded(input, path, absolutePath, RunsIncludeBlock(o), RunsSquash(o), RunsWhitespaces(o),
                   o.fixIncludeGuards || o.all);
  }

  /** The fixes succeed only when each enabled fix that can fail returned True. */
  lemma FixesSucceeded(input: seq<string>, path: string, absolutePath: string,
                       block: bool, squash: bool, whitespaces: bool, guards: bool)
    ensures var run := Fixes(input, path, absolutePath, block, squash, whitespaces, guards);
      run.Ran? && run.success ==>
        (block ==> FixedIncludeBlock(input, IsSourceFile(path)).Some?)
        && (guards && IsHeaderFile(path) ==>
              FixedIncludeGuards(BeforeGuards(input, path, block, squash, whitespaces), absolutePath).Rewritten?)
  {
  }

  /** --dry-run never writes, and it reports a change exactly for the files a
      run without it writes. */
  lemma DryRunWritesNothing(input: seq<string>, run: Run)
    ensures !Decide(input, run, true).Written?
    ensures Decide(input, run, true) == DryRun <==> Decide(input, run, false).Written?
  {
  }

  /** The guard fix, and with it the absolute path, matters for headers only:
      a file that is not a .h/.hpp file comes out the same whatever its absolute
      path and whether or not -g is given. */
  lemma GuardsOnlyForHeaders(input: seq<string>, path: string, a1: string, a2: string, o: Options)
    requires !IsHeaderFile(path)
    ensures Clean(input, path, a1, o) == Clean(input, path, a2, o)
    ensures Clean(input, path, a1, o) == Clean(input, path, a1, o.(fixIncludeGuards := false))
  {
    assert FixesFor(input, path, a1, o) == FixesFor(input, path, a2, o)
        == FixesFor(input, path, a1, o.(fixIncludeGuards := false));
  }

  /** The file is skipped as unclear exactly when the include-block fix or the
      guard fix returned False. The two never both run on one file, so neither
      failure is hidden behind the guard fix's IndexError. */
  lemma UnclearWhen(input: seq<string>, path: string, absolutePath: string, o: Options)
    ensures Clean(input, path, absolutePath, o) == Unclear <==>
      (RunsIncludeBlock(o) && FixedIncludeBlock(input, IsSourceFile(path)).None?)
      || (RunsIncludeGuards(o, path)
          && FixedIncludeGuards(BeforeGuardsFor(input, path, o), absolutePath).Refused?)
  {
    BlockFailsOnlyForSources(input, path);
  }

  /** fix_include_block fails on .c/.cpp files only, so never on a header. */
  lemma BlockFailsOnlyForSources(input: seq<string>, path: string)
    ensures FixedIncludeBlock(input, IsSourceFile(path)).None? ==> IsSourceFile(path) && !IsHeaderFile(path)
  {
    IncludeBlockFails(input, IsSourceFile(path));
    SourceAndHeaderDisjoint(path);
  }

  /** The script stops with IndexError exactly on an empty header whose absolute
      path yields a guard name, when the guard fix is enabled. */
  lemma CrashedWhen(input: seq<string>, path: string, absolutePath: string, o: Options)
    ensures Clean(input, path, absolutePath, o) == Crashed <==>
      RunsIncludeGuards(o, path) && FormIncludeGuardName(absolutePath) != "" && input == []
  {
    var l := BeforeGuardsFor(input, path, o);
    BeforeGuardsEmpty(input, path, RunsIncludeBlock(o), RunsSquash(o), RunsWhitespaces(o));
    if RunsIncludeGuards(o, path) {
      GuardsFailure(l, absolutePath);
    }
  }

  /** None of the fixes before the guard fix empties a non-empty list. */
  lemma BeforeGuardsEmpty(input: seq<string>, path: string, block: bool, squash: bool, whitespaces: bool)
    ensures BeforeGuards(input, path, block, squash, whitespaces) == [] <==> input == []
  {
    var l1 := AfterIncludeBlock(input, path, block);
    if input != [] {
      IncludeBlockKeepsSomeLine(input, IsSourceFile(path));
      assert l1 != [];
      SquashLast(l1);
    }
  }

  /** fix_include_block never empties a non-empty list. */
  lemma IncludeBlockKeepsSomeLine(lines: seq<string>, isSourceFile: bool)
    requires lines != []
    ensures FixedIncludeBlock(lines, isSourceFile).Some? ==> FixedIncludeBlock(lines, isSourceFile).value != []
  {
    match IncludeSpan(lines)
    case None =>
    case Some(sp) =>
      if FixedIncludeBlock(lines, isSourceFile).Some? {
        var nb := IncludeBlockRewrites(lines, isSourceFile, sp.first, sp.last);
      }
  }

  /** With -a a written file has no two blank lines in a row and every line ends
      in "\n": the squash runs before the whitespace fix, which keeps its work,
      and the guard lines are neither blank nor without a line end. A written
      .c/.cpp file also holds no tab. */
  lemma AllFixesShape(input: seq<string>, path: string, absolutePath: string, o: Options)
    requires o.all
    requires Clean(input, path, absolutePath, o).Written?
    ensures var out := Clean(input, path, absolutePath, o).lines;
      NoAdjacentBlanks(out)
      && (forall k :: 0 <= k < |out| ==> EndsWith(out[k], "\n"))
      && (!IsHeaderFile(path) ==> forall k :: 0 <= k < |out| ==> '\t' !in out[k])
  {
    var l1 := AfterIncludeBlock(input, path, true);
    var l2 := Squash.Squash(l1);
    var l3 := FixAllLines(l2);
    assert BeforeGuardsFor(input, path, o) == l3;
    SquashNoAdjacentBlanks(l1);
    FixAllKeepsNoAdjacentBlanks(l2);
    FixAllLinesShape(l2);
    if RunsIncludeGuards(o, path) {
      GuardsKeepShape(l3, absolutePath);
    }
  }

  /** The guard fix writes only non-blank lines that end in "\n", so it keeps a
      list free of adjacent blank lines and of lines without a line end. */
  lemma GuardsKeepShape(lines: seq<string>, path: string)
    requires FixedIncludeGuards(lines, path).Rewritten?
    requires NoAdjacentBlanks(lines)
    requires forall k :: 0 <= k < |lines| ==> EndsWith(lines[k], "\n")
    ensures var r := FixedIncludeGuards(lines, path).lines;
      NoAdjacentBlanks(r) && forall k :: 0 <= k < |r| ==> EndsWith(r[k], "\n")
  {
    var r := FixedIncludeGuards(lines, path).lines;
    var name := FormIncludeGuardName(path);
    GuardsRewrite(lines, path);
    GuardLineKinds(name);
    NonSpaceStartIsNonempty(IfndefLine(name));
    NonSpaceStartIsNonempty(DefineLine(name));
    forall k | 0 <= k < |r| ensures (IsBlank(r[k]) ==> r[k] == lines[k]) && EndsWith(r[k], "\n") {
    }
    forall k | 0 < k < |r| ensures !(IsBlank(r[k - 1]) && IsBlank(r[k])) {
    }
  }
}
