/** fix_include_block: find the first block of #include lines, drop the blank lines
    in it and sort it, keeping "precompiled.hpp" first in .c/.cpp files. */
module IncludeBlock {
  import opened Wrappers
  import opened Text
  import opened Sorting
  import opened Lines

  /** The include every .c/.cpp file must name first, as strip() leaves it. */
  const PrecompiledInclude := "#include \"precompiled.hpp\""

  /** line.strip().startswith('#include') */
  predicate IsInclude(line: string) {
    StartsWith(Strip(line), "#include")
  }

  /** A line that ends the include block: neither an include nor blank. */
  predicate IsCode(line: string) {
    !IsInclude(line) && IsNonemptyLine(line)
  }

  /** Positions of the first and the last line of the include block. */
  datatype Span = Span(first: nat, last: nat)

  /** lines[first..last + 1] is the include block: it starts at the first include
      line, holds only include and blank lines, and ends at the last include line
      that comes before the first line which is neither: the first non-blank line
      after it, if any, is not an include line (blank lines after that include lie
      outside the block). */
  ghost predicate IsBlockSpan(lines: seq<string>, first: nat, last: nat) {
    first <= last < |lines|
    && IsInclude(lines[first]) && IsInclude(lines[last])
    && (forall k :: 0 <= k < first ==> !IsInclude(lines[k]))
    && (forall k :: first < k < last ==> !IsCode(lines[k]))
    && EndsBlock(lines, last)
  }

  /** No include line follows lines[last] across blank lines only. */
  predicate EndsBlock(lines: seq<string>, last: nat)
    requires last < |lines|
  {
    var m := NextNonBlank(lines, last + 1);
    m == |lines| || !IsInclude(lines[m])
  }

  /** The first include line at or after `i`, or |lines| when there is none. */
  function FirstInclude(lines: seq<string>, i: nat): (r: nat)
    requires i <= |lines|
    ensures i <= r <= |lines|
    ensures r < |lines| ==> IsInclude(lines[r])
    ensures forall k :: i <= k < r ==> !IsInclude(lines[k])
    decreases |lines| - i
  {
    if i == |lines| || IsInclude(lines[i]) then i else FirstInclude(lines, i + 1)
  }

  /** The last line of the block, given that lines[last] is an include line, that
      the lines strictly between `last` and `i` are blank, and that the block has
      not ended before `i`. */
  function BlockLast(lines: seq<string>, i: nat, last: nat): (r: nat)
    requires last < i <= |lines| && IsInclude(lines[last])
    requires forall k :: last < k < i ==> IsBlank(lines[k])
    ensures last <= r < |lines| && IsInclude(lines[r])
    ensures forall k :: last < k < r ==> !IsCode(lines[k])
    ensures EndsBlock(lines, r)
    decreases |lines| - i
  {
    if i == |lines| then
      SectionTail(lines, last, i);
      last
    else if IsInclude(lines[i]) then
      assert forall k :: last < k <= i ==> !IsCode(lines[k]) by {
        forall k | last < k <= i ensures !IsCode(lines[k]) {
          if k < i { BlankNotInclude(lines[k]); }
        }
      }
      BlockLast(lines, i + 1, i)
    else if IsBlank(lines[i]) then
      BlockLast(lines, i + 1, last)
    else
      SectionTail(lines, last, i);
      last
  }

  /** The include block the scan of fix_include_block settles on, or None when
      no line is an include line. */
  function IncludeSpan(lines: seq<string>): (r: Option<Span>)
    ensures r.None? <==> forall k :: 0 <= k < |lines| ==> !IsInclude(lines[k])
    ensures r.Some? ==> IsBlockSpan(lines, r.value.first, r.value.last)
  {
    var first := FirstInclude(lines, 0);
    if first == |lines| then None else Some(Span(first, BlockLast(lines, first + 1, first)))
  }

  /** The next non-blank line at or after `i`, or |lines|. */
  function NextNonBlank(lines: seq<string>, i: nat): (r: nat)
    requires i <= |lines|
    ensures i <= r <= |lines|
    ensures r < |lines| ==> IsNonemptyLine(lines[r])
    ensures forall k :: i <= k < r ==> IsBlank(lines[k])
    decreases |lines| - i
  {
    if i == |lines| || IsNonemptyLine(lines[i]) then i else NextNonBlank(lines, i + 1)
  }

  /** Once the blank lines after `last` run into the end of the file or into a line
      that is neither an include nor blank, the block ends at `last`. */
  lemma SectionTail(lines: seq<string>, last: nat, stop: nat)
    requires last < stop <= |lines|
    requires forall k :: last < k < stop ==> IsBlank(lines[k])
    requires stop == |lines| || IsCode(lines[stop])
    ensures EndsBlock(lines, last)
  {
    NextNonBlankSkips(lines, last + 1, stop);
  }

  /** Skipping a run of blank lines does not change where the next non-blank line is. */
  lemma {:induction false} NextNonBlankSkips(lines: seq<string>, i: nat, j: nat)
    requires i <= j <= |lines|
    requires forall k :: i <= k < j ==> IsBlank(lines[k])
    ensures NextNonBlank(lines, i) == NextNonBlank(lines, j)
    decreases j - i
  {
    if i < j {
      NextNonBlankSkips(lines, i + 1, j);
    }
  }

  /** Two lists that agree from `i` and `j` on have their next non-blank lines at
      the same distance. */
  lemma {:induction false} NextNonBlankSuffix(a: seq<string>, i: nat, b: seq<string>, j: nat)
    requires i <= |a| && j <= |b| && a[i..] == b[j..]
    ensures NextNonBlank(a, i) - i == NextNonBlank(b, j) - j
    ensures NextNonBlank(a, i) == |a| <==> NextNonBlank(b, j) == |b|
    ensures NextNonBlank(a, i) < |a| ==> a[NextNonBlank(a, i)] == b[NextNonBlank(b, j)]
    decreases |a| - i
  {
    if i < |a| {
      assert a[i] == a[i..][0] == b[j..][0] == b[j];
      assert a[i + 1..] == a[i..][1..];
      assert b[j + 1..] == b[j..][1..];
      NextNonBlankSuffix(a, i + 1, b, j + 1);
    }
  }

  /** The scan state at the line that ends the section describes the block. */
  lemma SectionEnds(lines: seq<string>, first: nat, last: nat, stop: nat)
    requires first <= last < stop <= |lines|
    requires IsInclude(lines[first]) && forall k :: 0 <= k < first ==> !IsInclude(lines[k])
    requires IsInclude(lines[last]) && forall k :: first < k < last ==> !IsCode(lines[k])
    requires forall k :: last < k < stop ==> IsBlank(lines[k])
    requires stop == |lines| || IsCode(lines[stop])
    ensures IsBlockSpan(lines, first, last)
  {
    SectionTail(lines, last, stop);
  }

  /** A blank line is neither an include line nor a code line. */
  lemma BlankNotInclude(line: string)
    requires IsBlank(line)
    ensures !IsInclude(line) && !IsCode(line)
  {
  }

  /** An include line is never blank. */
  lemma IncludeIsNonempty(line: string)
    requires IsInclude(line)
    ensures IsNonemptyLine(line)
  {
    assert Strip(line)[0] == '#';
  }

  /** Inside a longer block, the first non-blank line after an earlier include
      line is an include line of that block. */
  lemma NextInsideBlock(lines: seq<string>, first: nat, lo: nat, hi: nat)
    requires IsBlockSpan(lines, first, hi) && first <= lo < hi
    ensures var m := NextNonBlank(lines, lo + 1); m <= hi && IsInclude(lines[m])
  {
    IncludeIsNonempty(lines[hi]);
    var m := NextNonBlank(lines, lo + 1);
    if m < hi {
      assert !IsCode(lines[m]);
    }
  }

  /** Two descriptions of the block starting at `first` end at the same line. */
  lemma SpanLastUnique(lines: seq<string>, first: nat, l1: nat, l2: nat)
    requires IsBlockSpan(lines, first, l1) && IsBlockSpan(lines, first, l2)
    ensures l1 == l2
  {
    if l1 < l2 {
      NextInsideBlock(lines, first, l1, l2);
      assert false;
    } else if l2 < l1 {
      NextInsideBlock(lines, first, l2, l1);
      assert false;
    }
  }

  /** The block the scan finds is exactly the one IsBlockSpan describes: no other
      pair of positions meets that description. */
  lemma IncludeSpanExact(lines: seq<string>, first: nat, last: nat)
    ensures IncludeSpan(lines) == Some(Span(first, last)) <==> IsBlockSpan(lines, first, last)
  {
    if IsBlockSpan(lines, first, last) {
      var sp := IncludeSpan(lines).value;
      assert sp.first == first;
      SpanLastUnique(lines, first, sp.last, last);
    }
  }

  /** The block as fix_include_block writes it back: its non-blank lines in
      ascending order, after the first line (the precompiled include) when the
      file is a .c/.cpp file. */
  function SortedBlock(block: seq<string>, isSourceFile: bool): seq<string>
    requires block != []
  {
    if isSourceFile then [block[0]] + Sort(NonBlank(block[1..])) else Sort(NonBlank(block))
  }

  /** What fix_include_block does to the list: None when it returns False (the
      list is then left as it was), Some(result) when it returns True. */
  function FixedIncludeBlock(lines: seq<string>, isSourceFile: bool): Option<seq<string>> {
    match IncludeSpan(lines)
    case None => if isSourceFile then None else Some(lines)
    case Some(sp) =>
      var block := lines[sp.first..sp.last + 1];
      if isSourceFile && Strip(block[0]) != PrecompiledInclude then None
      else Some(lines[..sp.first] + SortedBlock(block, isSourceFile) + lines[sp.last + 1..])
  }

  /** The scan at the top of fix_include_block: the first and last line numbers
      of the include section, both -1 when there is no include line. */
  method ScanIncludeSection(items: seq<string>) returns (first: int, last: int)
    ensures first == -1 <==> IncludeSpan(items).None?
    ensures first == -1 ==> last == -1
    ensures first != -1 ==> 0 <= first && 0 <= last && IncludeSpan(items) == Some(Span(first, last))
  {
    var lineNo := 0;
    first := -1;
    last := -1;
    while lineNo < |items|
      invariant 0 <= lineNo <= |items|
      invariant first == -1 ==> last == -1 && forall k :: 0 <= k < lineNo ==> !IsInclude(items[k])
      invariant first != -1 ==> 0 <= first <= last < lineNo
      invariant first != -1 ==> IsInclude(items[first]) && forall k :: 0 <= k < first ==> !IsInclude(items[k])
      invariant first != -1 ==> IsInclude(items[last]) && forall k :: first < k < last ==> !IsCode(items[k])
      invariant first != -1 ==> forall k :: last < k < lineNo ==> IsBlank(items[k])
    {
      var lineStripped := Strip(items[lineNo]);
      assert StartsWith(lineStripped, "#include") <==> IsInclude(items[lineNo]);
      assert lineStripped == "" <==> IsBlank(items[lineNo]);
      if first == -1 {
        if StartsWith(lineStripped, "#include") {
          first := lineNo;
          last := lineNo;
        }
      } else {
        if StartsWith(lineStripped, "#include") {
          last := lineNo;
        } else if lineStripped != "" {
          // The first line that is neither an include nor blank ends the section.
          break;
        }
      }
      lineNo := lineNo + 1;
    }
    if first != -1 {
      SectionEnds(items, first, last, lineNo);
      IncludeSpanExact(items, first, last);
    }
  }

  /** fix_include_block(lines, is_source_file), on the caller's list. */
  method FixIncludeBlock(lines: LineList, isSourceFile: bool) returns (ok: bool)
    modifies lines
    ensures ok == FixedIncludeBlock(old(lines.items), isSourceFile).Some?
    ensures lines.items == if ok then FixedIncludeBlock(old(lines.items), isSourceFile).value
                           else old(lines.items)
  {
    var items := lines.items;
    var first, last := ScanIncludeSection(items);
    if first == -1 {
      // No include line: accepted for headers only.
      return !isSourceFile;
    }
    FixedAt(items, isSourceFile, first, last);

    var includeLines := items[first..last + 1];
    var includePrecompiled: Option<string> := None;
    if isSourceFile {
      if Strip(includeLines[0]) != PrecompiledInclude {
        return false;
      }
      includePrecompiled := Some(includeLines[0]);
      includeLines := includeLines[1..];
    }
    includeLines := NonBlank(includeLines);
    includeLines := Sort(includeLines);
    if includePrecompiled.Some? {
      includeLines := [includePrecompiled.value] + includeLines;
    }
    assert includeLines == SortedBlock(items[first..last + 1], isSourceFile);
    lines.items := items[..first] + includeLines + items[last + 1..];
    ok := true;
  }

  /** fix_include_block returns False exactly for a .c/.cpp file in which no line
      is an include line, or whose first include line, stripped, is not the
      precompiled include. A header without include lines is accepted unchanged. */
  lemma IncludeBlockFails(lines: seq<string>, isSourceFile: bool)
    ensures FixedIncludeBlock(lines, isSourceFile).None? <==>
      isSourceFile &&
      forall i :: 0 <= i < |lines| && IsInclude(lines[i]) && (forall k :: 0 <= k < i ==> !IsInclude(lines[k]))
        ==> Strip(lines[i]) != PrecompiledInclude
    ensures (forall k :: 0 <= k < |lines| ==> !IsInclude(lines[k])) && !isSourceFile
      ==> FixedIncludeBlock(lines, isSourceFile) == Some(lines)
  {
    match IncludeSpan(lines)
    case None =>
    case Some(sp) =>
      forall i | 0 <= i < |lines| && IsInclude(lines[i]) && (forall k :: 0 <= k < i ==> !IsInclude(lines[k]))
        ensures i == sp.first
      {
      }
  }

  /** The non-blank lines of a run of include and blank lines are include lines. */
  lemma {:induction false} NonBlankOfSection(s: seq<string>)
    requires forall k :: 0 <= k < |s| ==> !IsCode(s[k])
    ensures forall k :: 0 <= k < |NonBlank(s)| ==> IsInclude(NonBlank(s)[k])
  {
    if s != [] {
      NonBlankOfSection(s[1..]);
    }
  }

  /** The block written back holds only include lines, as many as the block had
      non-blank lines. */
  lemma SortedBlockShape(block: seq<string>, isSourceFile: bool)
    requires block != [] && IsInclude(block[0])
    requires forall k :: 0 <= k < |block| ==> !IsCode(block[k])
    ensures var nb := SortedBlock(block, isSourceFile);
      |nb| == |block| - CountBlank(block) && nb != []
      && (forall k :: 0 <= k < |nb| ==> IsInclude(nb[k]))
  {
    IncludeIsNonempty(block[0]);
    assert CountBlank(block) == CountBlank(block[1..]);
    if isSourceFile {
      SortedTail(block);
    } else {
      NonBlankOfSection(block);
      SortSpec(NonBlank(block));
      SortKeeps(NonBlank(block), IsInclude);
      assert NonBlank(block) == [block[0]] + NonBlank(block[1..]);
    }
  }

  /** The include lines after the first, sorted, behind the first. */
  lemma SortedTail(block: seq<string>)
    requires block != [] && IsInclude(block[0])
    requires forall k :: 0 <= k < |block| ==> !IsCode(block[k])
    ensures var nb := [block[0]] + Sort(NonBlank(block[1..]));
      |nb| == |block| - CountBlank(block[1..]) && forall k :: 0 <= k < |nb| ==> IsInclude(nb[k])
  {
    var body := block[1..];
    forall k | 0 <= k < |body| ensures !IsCode(body[k]) {
      assert body[k] == block[k + 1];
    }
    NonBlankOfSection(body);
    SortSpec(NonBlank(body));
    SortKeeps(NonBlank(body), IsInclude);
    ConsKeeps(block[0], Sort(NonBlank(body)), IsInclude);
  }

  /** On success, fix_include_block leaves every line before and after the block
      as it was, writes back the block's non-blank lines sorted ascending (behind
      the precompiled include, kept first, in a .c/.cpp file), and so shrinks the
      list by the number of blank lines the block held. */
  lemma IncludeBlockRewrites(lines: seq<string>, isSourceFile: bool, first: nat, last: nat)
    returns (nb: seq<string>)
    requires IsBlockSpan(lines, first, last)
    requires FixedIncludeBlock(lines, isSourceFile).Some?
    ensures FixedIncludeBlock(lines, isSourceFile).value == lines[..first] + nb + lines[last + 1..]
    ensures |nb| == last + 1 - first - CountBlank(lines[first..last + 1])
    ensures |FixedIncludeBlock(lines, isSourceFile).value| == |lines| - CountBlank(lines[first..last + 1])
    ensures nb != [] && forall k :: 0 <= k < |nb| ==> IsInclude(nb[k])
    ensures isSourceFile ==> nb[0] == lines[first] && Strip(lines[first]) == PrecompiledInclude
    ensures isSourceFile ==>
      Sorted(nb[1..]) && multiset(nb[1..]) == multiset(NonBlank(lines[first + 1..last + 1]))
    ensures !isSourceFile ==> Sorted(nb) && multiset(nb) == multiset(NonBlank(lines[first..last + 1]))
  {
    IncludeSpanExact(lines, first, last);
    FixedAt(lines, isSourceFile, first, last);
    var block := lines[first..last + 1];
    BlockIsSection(lines, first, last);
    SortedBlockShape(block, isSourceFile);
    nb := SortedBlock(block, isSourceFile);
    if isSourceFile {
      assert block[1..] == lines[first + 1..last + 1];
      SortSpec(NonBlank(block[1..]));
      assert nb[1..] == Sort(NonBlank(block[1..]));
    } else {
      SortSpec(NonBlank(block));
    }
  }

  /** The block starts with an include line and holds no code line. */
  lemma BlockIsSection(lines: seq<string>, first: nat, last: nat)
    requires IsBlockSpan(lines, first, last)
    ensures var block := lines[first..last + 1];
      IsInclude(block[0]) && forall k :: 0 <= k < |block| ==> !IsCode(block[k])
  {
    var block := lines[first..last + 1];
    forall k | 0 <= k < |block| ensures !IsCode(block[k]) {
      assert block[k] == lines[first + k];
    }
  }

  /** After the rewrite, the block of the result starts where it did and ends at
      the last of the lines written back. */
  lemma RewrittenSpan(lines: seq<string>, first: nat, last: nat, nb: seq<string>)
    requires IsBlockSpan(lines, first, last)
    requires nb != [] && forall k :: 0 <= k < |nb| ==> IsInclude(nb[k])
    ensures IsBlockSpan(lines[..first] + nb + lines[last + 1..], first, first + |nb| - 1)
  {
    var r := lines[..first] + nb + lines[last + 1..];
    var last' := first + |nb| - 1;
    forall k | 0 <= k < first ensures r[k] == lines[k] { }
    forall k | first <= k <= last' ensures r[k] == nb[k - first] { }
    RewrittenTail(lines, first, last, nb);
  }

  /** The lines after the written-back block are those after the old block, so
      the first non-blank one after it is still not an include line. */
  lemma RewrittenTail(lines: seq<string>, first: nat, last: nat, nb: seq<string>)
    requires first <= last < |lines| && EndsBlock(lines, last)
    requires nb != []
    ensures EndsBlock(lines[..first] + nb + lines[last + 1..], first + |nb| - 1)
  {
    var r := lines[..first] + nb + lines[last + 1..];
    SpliceParts(lines[..first], nb, lines[last + 1..]);
    EndsBlockSuffix(r, first + |nb| - 1, lines, last);
  }

  /** Whether a block ends at a line depends only on the lines after it. */
  lemma EndsBlockSuffix(a: seq<string>, i: nat, b: seq<string>, j: nat)
    requires i < |a| && j < |b| && a[i + 1..] == b[j + 1..]
    ensures EndsBlock(a, i) <==> EndsBlock(b, j)
  {
    NextNonBlankSuffix(a, i + 1, b, j + 1);
  }

  /** Running fix_include_block on its own result changes nothing more. */
  lemma IncludeBlockIdempotent(lines: seq<string>, isSourceFile: bool)
    requires FixedIncludeBlock(lines, isSourceFile).Some?
    ensures var r := FixedIncludeBlock(lines, isSourceFile).value;
      FixedIncludeBlock(r, isSourceFile) == Some(r)
  {
    match IncludeSpan(lines)
    case None =>
      assert FixedIncludeBlock(lines, isSourceFile) == Some(lines);
    case Some(sp) =>
      var first, last := sp.first, sp.last;
      var nb := IncludeBlockRewrites(lines, isSourceFile, first, last);
      RewrittenIncludeSpan(lines, first, last, nb);
      BlockIsFixpoint(nb, isSourceFile);
      FixpointAt(lines[..first] + nb + lines[last + 1..], isSourceFile, first, nb);
  }

  /** The include block of the rewritten list is the block written back. */
  lemma RewrittenIncludeSpan(lines: seq<string>, first: nat, last: nat, nb: seq<string>)
    requires IsBlockSpan(lines, first, last)
    requires nb != [] && forall k :: 0 <= k < |nb| ==> IsInclude(nb[k])
    ensures IncludeSpan(lines[..first] + nb + lines[last + 1..]) == Some(Span(first, first + |nb| - 1))
  {
    RewrittenSpan(lines, first, last, nb);
    IncludeSpanExact(lines[..first] + nb + lines[last + 1..], first, first + |nb| - 1);
  }

  /** A list whose include block is already in the written-back form is a fixpoint. */
  lemma FixpointAt(r: seq<string>, isSourceFile: bool, first: nat, nb: seq<string>)
    requires nb != [] && first + |nb| <= |r| && r[first..first + |nb|] == nb
    requires IncludeSpan(r) == Some(Span(first, first + |nb| - 1))
    requires isSourceFile ==> Strip(nb[0]) == PrecompiledInclude
    requires SortedBlock(nb, isSourceFile) == nb
    ensures FixedIncludeBlock(r, isSourceFile) == Some(r)
  {
    FixedAt(r, isSourceFile, first, first + |nb| - 1);
    SliceJoin(r, first, first + |nb|);
  }

  /** fix_include_block once the block is known to span lines[first..last + 1]. */
  lemma FixedAt(lines: seq<string>, isSourceFile: bool, first: nat, last: nat)
    requires IncludeSpan(lines) == Some(Span(first, last))
    ensures first <= last < |lines|
    ensures FixedIncludeBlock(lines, isSourceFile)
      == if isSourceFile && Strip(lines[first]) != PrecompiledInclude then None
         else Some(lines[..first] + SortedBlock(lines[first..last + 1], isSourceFile) + lines[last + 1..])
  {
  }

  /** A block as fix_include_block writes it back is left as it is by a second run. */
  lemma BlockIsFixpoint(nb: seq<string>, isSourceFile: bool)
    requires nb != [] && forall k :: 0 <= k < |nb| ==> IsInclude(nb[k])
    requires isSourceFile ==> Sorted(nb[1..])
    requires !isSourceFile ==> Sorted(nb)
    ensures SortedBlock(nb, isSourceFile) == nb
  {
    forall k | 0 <= k < |nb| ensures IsNonemptyLine(nb[k]) {
      IncludeIsNonempty(nb[k]);
    }
    NonBlankOfNonBlank(nb);
    if isSourceFile {
      NonBlankOfNonBlank(nb[1..]);
      SortSorted(nb[1..]);
    } else {
      SortSorted(nb);
    }
  }
}
