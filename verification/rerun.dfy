/** What a second run of the normaliser does to its own output: the fixes are
    idempotent one by one, but not chained, because the whitespace fix rewrites
    include lines after they were sorted. */
module Rerun {
  import opened Wrappers
  import opened Text
  import opened Lines
  import opened Sorting
  import opened Paths
  import opened IncludeBlock
  import opened Whitespace
  import opened CleanFile

  /** Two include lines whose order the whitespace fix reverses: "(" sorts after
      " ", so ForCall sorts after ForWord, but once its " for(" reads " for (" it
      sorts before it. */
  const LoopHead := "#include\"x for"
  const ForCall := LoopHead + "(a\"\n"
  const ForWord := LoopHead + " b\"\n"
  const ForSpaced := LoopHead + " (a\"\n"

  /** -i and -w, without a dry run. */
  const BlockAndSpaces := Options(true, false, true, false, false, false)

  /** The whole chain is not idempotent: with -i and -w, a file that is not a
      .c/.cpp file holding ForCall and ForWord is written with the two lines
      swapped and ForCall fixed, and a second run swaps them back, so it writes
      the file again. */
  lemma CleanNotIdempotent(path: string, absolutePath: string)
    requires !IsSourceFile(path)
    ensures var once := Clean([ForCall, ForWord], path, absolutePath, BlockAndSpaces);
      once == Written([ForWord, ForSpaced])
      && Clean(once.lines, path, absolutePath, BlockAndSpaces) == Written([ForSpaced, ForWord])
  {
    SampleIncludes();
    SampleOrder();
    FirstRun(path, absolutePath);
    SecondRun(path, absolutePath);
  }

  /** The first run sorts ForWord first and fixes ForCall into ForSpaced. */
  lemma FirstRun(path: string, absolutePath: string)
    requires !IsSourceFile(path)
    requires IsInclude(ForCall) && IsInclude(ForWord) && StrLe(ForWord, ForCall)
    ensures Clean([ForCall, ForWord], path, absolutePath, BlockAndSpaces) == Written([ForWord, ForSpaced])
  {
    FixWordLine();
    FixCallLine();
    assert FixAllLines([ForWord, ForCall]) == [ForWord, ForSpaced];
    assert ForWord[|LoopHead|] != ForCall[|LoopHead|];
    RunSwaps(ForCall, ForWord, path, absolutePath);
  }

  /** The second run sorts ForSpaced first and changes no line. */
  lemma SecondRun(path: string, absolutePath: string)
    requires !IsSourceFile(path)
    requires IsInclude(ForWord) && IsInclude(ForSpaced) && StrLe(ForSpaced, ForWord)
    ensures Clean([ForWord, ForSpaced], path, absolutePath, BlockAndSpaces) == Written([ForSpaced, ForWord])
  {
    FixWordLine();
    FixCallLine();
    FixLineIdempotent(ForCall);
    assert FixAllLines([ForSpaced, ForWord]) == [ForSpaced, ForWord];
    assert ForSpaced[|LoopHead| + 1] != ForWord[|LoopHead| + 1];
    RunSwaps(ForWord, ForSpaced, path, absolutePath);
  }

  /** With -i and -w, a header of two include lines, the second sorting first,
      is written with the lines swapped and fixed, when that changes it. */
  lemma RunSwaps(a: string, b: string, path: string, absolutePath: string)
    requires IsInclude(a) && IsInclude(b) && StrLe(b, a) && !IsSourceFile(path)
    requires FixAllLines([b, a]) != [a, b]
    ensures Clean([a, b], path, absolutePath, BlockAndSpaces) == Written(FixAllLines([b, a]))
  {
    SwapTwoIncludes(a, b);
    var run := Fixes([a, b], path, absolutePath, true, false, true, false);
    assert AfterIncludeBlock([a, b], path, true) == [b, a];
    assert run == Ran(true, FixAllLines([b, a]));
  }

  /** fix_include_block on two include lines, the second sorting first, swaps them. */
  lemma SwapTwoIncludes(a: string, b: string)
    requires IsInclude(a) && IsInclude(b) && StrLe(b, a)
    ensures FixedIncludeBlock([a, b], false) == Some([b, a])
  {
    var lines := [a, b];
    TwoIncludesSpan(a, b);
    assert lines[0..2] == lines;
    IncludeIsNonempty(a);
    IncludeIsNonempty(b);
    NonBlankOfNonBlank(lines);
    SortTwo(a, b);
    assert lines[..0] + [b, a] + lines[2..] == [b, a];
  }

  /** Two include lines form one include block. */
  lemma TwoIncludesSpan(a: string, b: string)
    requires IsInclude(a) && IsInclude(b)
    ensures IncludeSpan([a, b]) == Some(Span(0, 1))
  {
    var lines := [a, b];
    assert NextNonBlank(lines, 2) == 2;
    assert IsBlockSpan(lines, 0, 1);
    IncludeSpanExact(lines, 0, 1);
  }

  /** Sorting two lines, the second sorting first, swaps them. */
  lemma SortTwo(a: string, b: string)
    requires StrLe(b, a)
    ensures Sort([a, b]) == [b, a]
  {
    assert [a, b][1..] == [b];
    assert Sort([b]) == [b] by {
      assert [b][1..] == [];
    }
    assert Sort([a, b]) == Insert(a, [b]);
    if StrLe(a, b) {
      StrLeAntisymmetric(a, b);
    } else {
      assert Insert(a, [b]) == [b] + Insert(a, []);
    }
  }

  /** The sample lines are include lines. */
  lemma SampleIncludes()
    ensures IsInclude(ForCall) && IsInclude(ForWord) && IsInclude(ForSpaced)
  {
    assert "#include" <= LoopHead;
    StripKeepsPrefix(ForCall, "#include");
    StripKeepsPrefix(ForWord, "#include");
    StripKeepsPrefix(ForSpaced, "#include");
  }

  /** ForWord sorts before ForCall, and ForSpaced before ForWord. */
  lemma SampleOrder()
    ensures StrLe(ForWord, ForCall) && StrLe(ForSpaced, ForWord)
  {
    StrLeCommonPrefix(LoopHead, " b\"\n", "(a\"\n");
    StrLeCommonPrefix(LoopHead + " ", "(a\"\n", "b\"\n");
    assert ForWord == (LoopHead + " ") + "b\"\n";
    assert ForSpaced == (LoopHead + " ") + "(a\"\n";
  }

  /** ForWord is already clean. */
  lemma FixWordLine()
    ensures FixLine(ForWord) == ForWord
  {
    var word := LoopHead + " b\"";
    assert '(' !in word && 'w' !in word && '\t' !in word;
    AbsentWithoutChar(word, ForParen, 4);
    AbsentWithoutChar(word, WhileParen, 1);
    assert word[|word| - 1] == '"';
    FixLineClean(word);
    assert word + "\n" == ForWord;
  }

  /** The whitespace fix turns ForCall into ForSpaced. */
  lemma FixCallLine()
    ensures FixLine(ForCall) == ForSpaced
  {
    var spaced := LoopHead + " (a\"";
    CallNoTab();
    ReplaceCallFor();
    SpacedNoWhile();
    assert spaced + "\n" == ForSpaced;
  }

  /** ForCall holds no tab, so only its line end goes before the " for(" step. */
  lemma CallNoTab()
    ensures Replace(RStrip(ForCall), Tab, TwoSpaces) == LoopHead + "(a\""
  {
    var call := LoopHead + "(a\"";
    StripCallLine();
    assert '\t' !in call;
    AbsentWithoutChar(call, Tab, 0);
    ReplaceAbsent(call, Tab, TwoSpaces);
  }

  /** The fixed ForCall holds no " while(", so the last step keeps it. */
  lemma SpacedNoWhile()
    ensures var spaced := LoopHead + " (a\""; Replace(spaced, WhileParen, WhileSpaceParen) == spaced
  {
    var spaced := LoopHead + " (a\"";
    assert 'w' !in spaced;
    AbsentWithoutChar(spaced, WhileParen, 1);
    ReplaceAbsent(spaced, WhileParen, WhileSpaceParen);
  }

  /** rstrip() drops only the line end of ForCall. */
  lemma StripCallLine()
    ensures RStrip(ForCall) == LoopHead + "(a\""
  {
    var call := LoopHead + "(a\"";
    assert ForCall == call + "\n";
    assert ForCall[..|ForCall| - 1] == call;
    assert call[|call| - 1] == '"';
  }

  /** The " for(" of ForCall is its only one, and it becomes " for (". */
  lemma ReplaceCallFor()
    ensures Replace(LoopHead + "(a\"", ForParen, ForSpaceParen) == LoopHead + " (a\""
  {
    var head := "#include\"x";
    var rest := " for(a\"";
    assert LoopHead + "(a\"" == head + rest;
    assert ' ' !in head;
    ReplaceSkips(head, rest, ForParen, ForSpaceParen);
    assert rest[..|ForParen|] == ForParen;
    assert rest[|ForParen|..] == "a\"";
    assert Replace(rest, ForParen, ForSpaceParen) == ForSpaceParen + "a\"";
    assert head + (ForSpaceParen + "a\"") == LoopHead + " (a\"";
  }
}
