/** fix_whitespaces: trailing whitespace, tabs and a missing blank after the loop
    keywords `for` and `while`, fixed line by line. */
module Whitespace {
  import opened Text
  import opened Lines
  import opened Squash

  const Tab := "\t"
  const TwoSpaces := "  "
  const ForParen := " for("
  const ForSpaceParen := " for ("
  const WhileParen := " while("
  const WhileSpaceParen := " while ("

  /** One output line: the input line without trailing whitespace (its line end
      included), each tab as two blanks, " for(" as " for (", " while(" as
      " while (", and a line end "\n" put back. */
  function FixLine(line: string): string {
    var stripped := RStrip(line);
    var noTabs := Replace(stripped, Tab, TwoSpaces);
    var forFixed := Replace(noTabs, ForParen, ForSpaceParen);
    Replace(forFixed, WhileParen, WhileSpaceParen) + "\n"
  }

  /** fix_whitespaces(lines): rebuilds every line with FixLine, then replaces the
      caller's list by the result. */
  method FixWhitespaces(lines: LineList) returns (ok: bool)
    modifies lines
    ensures ok
    ensures lines.items == FixAllLines(old(lines.items))
  {
    var items := lines.items;
    var lines2: seq<string> := [];
    for i := 0 to |items|
      invariant |lines2| == i
      invariant forall k :: 0 <= k < i ==> lines2[k] == FixLine(items[k])
    {
      var lineStripped := RStrip(items[i]);
      lineStripped := Replace(lineStripped, Tab, TwoSpaces);
      lineStripped := Replace(lineStripped, ForParen, ForSpaceParen);
      lineStripped := Replace(lineStripped, WhileParen, WhileSpaceParen);
      lines2 := lines2 + [lineStripped + "\n"];
    }
    lines.items := lines2;
    ok := true;
  }

  /** No output line holds a tab. */
  lemma FixLineNoTab(line: string)
    ensures '\t' !in FixLine(line)
  {
    var noTabs := Replace(RStrip(line), Tab, TwoSpaces);
    var forFixed := Replace(noTabs, ForParen, ForSpaceParen);
    var r := Replace(forFixed, WhileParen, WhileSpaceParen);
    ReplaceRemovesChar(RStrip(line), '\t', TwoSpaces);
    if '\t' in forFixed {
      ReplaceCharsFrom(noTabs, ForParen, ForSpaceParen, '\t');
    }
    if '\t' in r {
      ReplaceCharsFrom(forFixed, WhileParen, WhileSpaceParen, '\t');
    }
  }

  /** Every output line ends in "\n", and the character before it, if any, is
      not whitespace. */
  lemma FixLineNoTrailingSpace(line: string)
    ensures var r := FixLine(line);
      |r| >= 1 && r[|r| - 1] == '\n' && (|r| == 1 || !IsSpace(r[|r| - 2]))
  {
    var stripped := RStrip(line);
    RStripShape(line);
    if stripped != [] {
      var noTabs := Replace(stripped, Tab, TwoSpaces);
      ReplaceKeepsLastNonSpace(stripped, Tab, TwoSpaces);
      var forFixed := Replace(noTabs, ForParen, ForSpaceParen);
      ReplaceKeepsLastNonSpace(noTabs, ForParen, ForSpaceParen);
      ReplaceKeepsLastNonSpace(forFixed, WhileParen, WhileSpaceParen);
    }
  }

  /** A line that already ends in "\n", holds no tab, no whitespace before its
      line end and no " for(" or " while(" is left as it is. */
  lemma FixLineClean(body: string)
    requires '\t' !in body
    requires body == [] || !IsSpace(body[|body| - 1])
    requires forall k :: !OccursAt(body, ForParen, k)
    requires forall k :: !OccursAt(body, WhileParen, k)
    ensures FixLine(body + "\n") == body + "\n"
  {
    var line := body + "\n";
    assert line[..|line| - 1] == body;
    assert RStrip(line) == body;
    forall k ensures !OccursAt(body, Tab, k) {
      if 0 <= k < |body| {
        assert body[k..k + 1] == [body[k]];
      }
    }
    ReplaceAbsent(body, Tab, TwoSpaces);
    ReplaceAbsent(body, ForParen, ForSpaceParen);
    ReplaceAbsent(body, WhileParen, WhileSpaceParen);
  }

  /** Neither loop keyword replacement can start a new " for(" or " while(". */
  lemma LoopReplacementsSafe()
    ensures StartsNoneIn(ForSpaceParen, ForParen) && StartsNoneIn(WhileSpaceParen, ForParen)
    ensures StartsNoneIn(WhileSpaceParen, WhileParen)
    ensures ' ' !in ForParen[1..] && ' ' !in WhileParen[1..]
  {
    forall k | 0 <= k < |ForSpaceParen|
      ensures !(ForParen <= ForSpaceParen[k..]) && !(ForSpaceParen[k..] <= ForParen)
    {
      assert k == 0 || k == 4 || ForSpaceParen[k..][0] != ForParen[0];
      if k == 0 { assert ForSpaceParen[k..][4] != ForParen[4]; }
      if k == 4 { assert ForSpaceParen[k..][1] != ForParen[1]; }
    }
    forall k | 0 <= k < |WhileSpaceParen|
      ensures !(ForParen <= WhileSpaceParen[k..]) && !(WhileSpaceParen[k..] <= ForParen)
      ensures !(WhileParen <= WhileSpaceParen[k..]) && !(WhileSpaceParen[k..] <= WhileParen)
    {
      assert k == 0 || k == 6 || WhileSpaceParen[k..][0] != ' ';
      if k == 0 {
        assert WhileSpaceParen[k..][1] != ForParen[1];
        assert WhileSpaceParen[k..][6] != WhileParen[6];
      }
      if k == 6 { assert WhileSpaceParen[k..][1] == '('; }
    }
  }

  /** No output line holds " for(" or " while(": the first replacement removes
      every " for(", and the second removes every " while(" without making a
      new " for(". */
  lemma FixLineNoLoopParen(line: string)
    ensures forall k :: !OccursAt(FixLine(line), ForParen, k)
    ensures forall k :: !OccursAt(FixLine(line), WhileParen, k)
  {
    var noTabs := Replace(RStrip(line), Tab, TwoSpaces);
    var forFixed := Replace(noTabs, ForParen, ForSpaceParen);
    var body := Replace(forFixed, WhileParen, WhileSpaceParen);
    LoopReplacementsSafe();
    ReplaceLeavesNone(noTabs, ForParen, ForSpaceParen, ForParen);
    ReplaceLeavesNone(forFixed, WhileParen, WhileSpaceParen, ForParen);
    ReplaceLeavesNone(forFixed, WhileParen, WhileSpaceParen, WhileParen);
    NoneBeforeLineEnd(body, ForParen);
    NoneBeforeLineEnd(body, WhileParen);
  }

  /** Putting the line end back cannot complete a pattern ending in '('. */
  lemma NoneBeforeLineEnd(body: string, pat: string)
    requires pat != [] && pat[|pat| - 1] == '('
    requires forall k :: !OccursAt(body, pat, k)
    ensures forall k :: !OccursAt(body + "\n", pat, k)
  {
    var line := body + "\n";
    forall k ensures !OccursAt(line, pat, k) {
      if 0 <= k && k + |pat| <= |body| {
        assert line[k..k + |pat|] == body[k..k + |pat|];
        assert !OccursAt(body, pat, k);
      } else if 0 <= k && k + |pat| <= |line| {
        assert line[k..k + |pat|][|pat| - 1] == '\n';
      }
    }
  }

  /** fix_whitespaces changes nothing on a line it has already fixed. */
  lemma FixLineIdempotent(line: string)
    ensures FixLine(FixLine(line)) == FixLine(line)
  {
    var r := FixLine(line);
    var body := r[..|r| - 1];
    FixLineNoTab(line);
    FixLineNoTrailingSpace(line);
    FixLineNoLoopParen(line);
    assert r == body + "\n";
    assert '\t' !in body by {
      forall k | 0 <= k < |body| ensures body[k] != '\t' {
        assert body[k] == r[k];
      }
    }
    forall k ensures !OccursAt(body, ForParen, k) && !OccursAt(body, WhileParen, k) {
      if 0 <= k {
        assert !OccursAt(r, ForParen, k) && !OccursAt(r, WhileParen, k);
        assert k + |ForParen| <= |body| ==> r[k..k + |ForParen|] == body[k..k + |ForParen|];
        assert k + |WhileParen| <= |body| ==> r[k..k + |WhileParen|] == body[k..k + |WhileParen|];
      }
    }
    FixLineClean(body);
  }

  /** The list fix_whitespaces leaves: FixLine applied to every line. */
  function FixAllLines(s: seq<string>): (r: seq<string>)
    ensures |r| == |s|
  {
    seq(|s|, i requires 0 <= i < |s| => FixLine(s[i]))
  }

  /** Running fix_whitespaces on its own result changes nothing. */
  lemma FixAllLinesIdempotent(s: seq<string>)
    ensures FixAllLines(FixAllLines(s)) == FixAllLines(s)
  {
    var r := FixAllLines(s);
    forall k | 0 <= k < |r| ensures FixLine(r[k]) == r[k] {
      FixLineIdempotent(s[k]);
    }
  }

  /** A line stays blank or non-blank: a blank line becomes the bare line end
      "\n", a non-blank line keeps a non-whitespace character. */
  lemma FixLineKeepsBlankness(line: string)
    ensures IsBlank(FixLine(line)) <==> IsBlank(line)
  {
    var stripped := RStrip(line);
    RStripShape(line);
    StripEmptyIff(line);
    var r := FixLine(line);
    if IsBlank(line) {
      assert stripped == [];
      assert r == "\n";
      assert Strip(r) == Strip(r[1..]);
    } else {
      assert stripped != [];
      FixLineNoTrailingSpace(line);
      var noTabs := Replace(stripped, Tab, TwoSpaces);
      ReplaceKeepsLastNonSpace(stripped, Tab, TwoSpaces);
      var forFixed := Replace(noTabs, ForParen, ForSpaceParen);
      ReplaceKeepsLastNonSpace(noTabs, ForParen, ForSpaceParen);
      ReplaceKeepsLastNonSpace(forFixed, WhileParen, WhileSpaceParen);
      assert !IsSpace(r[|r| - 2]);
      StripEmptyIff(r);
    }
  }

  /** fix_whitespaces never puts two blank lines next to each other where there
      were none, so it keeps the work of squash_multiple_empty_lines. */
  lemma FixAllKeepsNoAdjacentBlanks(s: seq<string>)
    requires NoAdjacentBlanks(s)
    ensures NoAdjacentBlanks(FixAllLines(s))
  {
    var r := FixAllLines(s);
    forall k | 0 < k < |r| ensures !(IsBlank(r[k - 1]) && IsBlank(r[k])) {
      FixLineKeepsBlankness(s[k - 1]);
      FixLineKeepsBlankness(s[k]);
    }
  }

  /** Every line of the result ends in "\n" and holds no tab. */
  lemma FixAllLinesShape(s: seq<string>)
    ensures forall k :: 0 <= k < |FixAllLines(s)| ==>
      EndsWith(FixAllLines(s)[k], "\n") && '\t' !in FixAllLines(s)[k]
  {
    forall k | 0 <= k < |s|
      ensures EndsWith(FixLine(s[k]), "\n") && '\t' !in FixLine(s[k])
    {
      FixLineNoTab(s[k]);
      FixLineNoTrailingSpace(s[k]);
    }
  }
}
