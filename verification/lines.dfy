/** The lines of one C/C++ file, as the normaliser sees them: a Python list of
    str, each normally ending in "\n", that the fixes update in place. */
module Lines {
  import opened Wrappers
  import opened Text

  /** A Python list of lines. The fixes take the caller's list and change it. */
  class LineList {
    var items: seq<string>

    /** `input_lines.copy()`: a new list holding the given lines. */
    constructor (lines: seq<string>)
      ensures items == lines
    {
      items := lines;
    }
  }

  /** The element a Python subscript `lines[p]` denotes in a list of n lines:
      p itself when 0 <= p < n, n + p for a negative p down to -n (so -1 is the
      last line), and None, an IndexError, otherwise. */
  function ListIndex(n: nat, p: int): (r: Option<nat>)
    ensures r.Some? <==> -(n as int) <= p < n
    ensures r.Some? ==> r.value < n && (r.value == p || r.value == n + p)
  {
    if 0 <= p < n then Some(p) else if -(n as int) <= p < 0 then Some(n + p) else None
  }

  /** `lines[p] = v`: raises IndexError, changing nothing, when p is out of range. */
  method SetItem(lines: LineList, p: int, v: string) returns (raised: bool)
    modifies lines
    ensures raised <==> ListIndex(|old(lines.items)|, p).None?
    ensures lines.items == if raised then old(lines.items)
                           else old(lines.items)[ListIndex(|old(lines.items)|, p).value := v]
  {
    var n: int := |lines.items|;
    if 0 <= p < n {
      lines.items := lines.items[p := v];
    } else if -n <= p < 0 {
      lines.items := lines.items[n + p := v];
    } else {
      return true;
    }
    raised := false;
  }

  /** is_nonempty_line: the line holds a character other than whitespace. */
  predicate IsNonemptyLine(line: string) {
    Strip(line) != ""
  }

  /** A line that starts with a non-whitespace character is not blank. */
  lemma NonSpaceStartIsNonempty(line: string)
    requires line != [] && !IsSpace(line[0])
    ensures IsNonemptyLine(line)
  {
    StripKeepsPrefix(line, line[..1]);
  }

  /** A line whose strip() is empty. */
  predicate IsBlank(line: string) {
    !IsNonemptyLine(line)
  }

  /** The number of blank lines in `s`. */
  function CountBlank(s: seq<string>): (c: nat)
    ensures c <= |s|
  {
    if s == [] then 0 else (if IsBlank(s[0]) then 1 else 0) + CountBlank(s[1..])
  }

  /** list(filter(is_nonempty_line, s)): the non-blank lines of `s`, in order. */
  function NonBlank(s: seq<string>): (r: seq<string>)
    ensures |r| == |s| - CountBlank(s)
  {
    if s == [] then []
    else (if IsBlank(s[0]) then [] else [s[0]]) + NonBlank(s[1..])
  }

  /** The filter leaves no blank line. */
  lemma {:induction false} NonBlankHasNoBlank(s: seq<string>)
    ensures forall k :: 0 <= k < |NonBlank(s)| ==> IsNonemptyLine(NonBlank(s)[k])
  {
    if s != [] {
      NonBlankHasNoBlank(s[1..]);
    }
  }

  /** The filter keeps each non-blank line as often as it occurs, and no blank one. */
  lemma {:induction false} NonBlankMultiset(s: seq<string>, x: string)
    ensures multiset(NonBlank(s))[x] == if IsBlank(x) then 0 else multiset(s)[x]
  {
    if s != [] {
      NonBlankMultiset(s[1..], x);
      assert s == [s[0]] + s[1..];
      var head := if IsBlank(s[0]) then [] else [s[0]];
      assert NonBlank(s) == head + NonBlank(s[1..]);
      assert multiset(NonBlank(s)) == multiset(head) + multiset(NonBlank(s[1..]));
      assert multiset(s) == multiset{s[0]} + multiset(s[1..]);
    }
  }

  /** Filtering lines that hold no blank one keeps them all. */
  lemma {:induction false} NonBlankOfNonBlank(s: seq<string>)
    requires forall k :: 0 <= k < |s| ==> IsNonemptyLine(s[k])
    ensures NonBlank(s) == s
  {
    if s != [] {
      NonBlankOfNonBlank(s[1..]);
    }
  }

  /** The three parts of a list spliced together can be read back by slicing. */
  lemma SpliceParts(pre: seq<string>, mid: seq<string>, post: seq<string>)
    ensures var r := pre + mid + post;
      r[..|pre|] == pre && r[|pre|..|pre| + |mid|] == mid && r[|pre| + |mid|..] == post
  {
  }

  /** A property of a line and of every line of a list holds of every line of
      the list with that line in front. */
  lemma ConsKeeps(x: string, s: seq<string>, p: string -> bool)
    requires p(x) && forall k :: 0 <= k < |s| ==> p(s[k])
    ensures forall k :: 0 <= k < |[x] + s| ==> p(([x] + s)[k])
  {
  }

  /** A list is its three slices put back together. */
  lemma SliceJoin(s: seq<string>, i: nat, j: nat)
    requires i <= j <= |s|
    ensures s == s[..i] + s[i..j] + s[j..]
  {
  }
}
