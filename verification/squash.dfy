/** squash_multiple_empty_lines: every run of blank lines shrinks to its first line. */
module Squash {
  import opened Text
  import opened Lines

  /** The scan drops lines[i] when it is blank and the line before it in the
      input is blank too: `had_empty_line` holds exactly when the previous input
      line was blank, whether that line was kept or dropped. */
  predicate Dropped(s: seq<string>, i: nat)
    requires i < |s|
  {
    i > 0 && IsBlank(s[i]) && IsBlank(s[i - 1])
  }

  /** The list squash_multiple_empty_lines leaves: the input without the lines
      it drops, in order. */
  function Squash(s: seq<string>): seq<string>
    decreases |s|
  {
    if s == [] then []
    else
      var i := |s| - 1;
      if Dropped(s, i) then Squash(s[..i]) else Squash(s[..i]) + [s[i]]
  }

  /** No two neighbouring lines are both blank. */
  predicate NoAdjacentBlanks(s: seq<string>) {
    forall k :: 0 < k < |s| ==> !(IsBlank(s[k - 1]) && IsBlank(s[k]))
  }

  /** `a` is `b` with some lines left out, the rest kept in order. */
  predicate IsSubsequence(a: seq<string>, b: seq<string>)
    decreases |b|
  {
    if a == [] then true
    else if b == [] then false
    else (a[|a| - 1] == b[|b| - 1] && IsSubsequence(a[..|a| - 1], b[..|b| - 1]))
         || IsSubsequence(a, b[..|b| - 1])
  }

  /** The number of runs of blank lines: blank lines that open the list or
      follow a non-blank line. */
  function BlankRuns(s: seq<string>): nat
    decreases |s|
  {
    if s == [] then 0
    else
      var i := |s| - 1;
      BlankRuns(s[..i]) + (if IsBlank(s[i]) && (i == 0 || !IsBlank(s[i - 1])) then 1 else 0)
  }

  /** squash_multiple_empty_lines(lines): rebuilds the list without the blank
      lines that follow a blank line, then replaces the caller's list by it. */
  method SquashMultipleEmptyLines(lines: LineList) returns (ok: bool)
    modifies lines
    ensures ok
    ensures lines.items == Squash(old(lines.items))
  {
    var items := lines.items;
    var hadEmptyLine := false;
    var lines2: seq<string> := [];
    for i := 0 to |items|
      invariant lines2 == Squash(items[..i])
      invariant hadEmptyLine == (i > 0 && IsBlank(items[i - 1]))
    {
      var line := items[i];
      assert items[..i + 1][..i] == items[..i];
      if Strip(line) == "" {
        if !hadEmptyLine {
          lines2 := lines2 + [line];
          hadEmptyLine := true;
        }
      } else {
        lines2 := lines2 + [line];
        hadEmptyLine := false;
      }
    }
    assert items[..|items|] == items;
    lines.items := lines2;
    ok := true;
  }

  /** The last line of the result is blank exactly when the last input line is. */
  lemma {:induction false} SquashLast(s: seq<string>)
    requires s != []
    ensures Squash(s) != []
    ensures IsBlank(Squash(s)[|Squash(s)| - 1]) == IsBlank(s[|s| - 1])
    decreases |s|
  {
    var i := |s| - 1;
    if Dropped(s, i) {
      SquashLast(s[..i]);
    }
  }

  /** The result never holds two blank lines in a row. */
  lemma {:induction false} SquashNoAdjacentBlanks(s: seq<string>)
    ensures NoAdjacentBlanks(Squash(s))
    decreases |s|
  {
    if s != [] {
      var i := |s| - 1;
      var p := s[..i];
      SquashNoAdjacentBlanks(p);
      if !Dropped(s, i) && p != [] {
        SquashLast(p);
        var q := Squash(p);
        var r := q + [s[i]];
        forall k | 0 < k < |r| ensures !(IsBlank(r[k - 1]) && IsBlank(r[k])) {
          if k < |q| {
            assert r[k - 1] == q[k - 1] && r[k] == q[k];
          }
        }
      }
    }
  }

  /** Filtering out blank lines commutes with appending a line. */
  lemma {:induction false} NonBlankSnoc(s: seq<string>, x: string)
    ensures NonBlank(s + [x]) == NonBlank(s) + (if IsBlank(x) then [] else [x])
    decreases |s|
  {
    if s != [] {
      assert (s + [x])[1..] == s[1..] + [x];
      NonBlankSnoc(s[1..], x);
    }
  }

  /** Every non-blank line is kept, in order: the result and the input have the
      same non-blank lines. */
  lemma {:induction false} SquashKeepsNonBlank(s: seq<string>)
    ensures NonBlank(Squash(s)) == NonBlank(s)
    decreases |s|
  {
    if s != [] {
      var i := |s| - 1;
      var p := s[..i];
      assert s == p + [s[i]];
      SquashKeepsNonBlank(p);
      NonBlankSnoc(p, s[i]);
      if !Dropped(s, i) {
        NonBlankSnoc(Squash(p), s[i]);
      }
    }
  }

  /** The result is the input with some lines left out. */
  lemma {:induction false} SquashIsSubsequence(s: seq<string>)
    ensures IsSubsequence(Squash(s), s)
    decreases |s|
  {
    if s != [] {
      var i := |s| - 1;
      var p := s[..i];
      SquashIsSubsequence(p);
      if !Dropped(s, i) {
        var r := Squash(p) + [s[i]];
        assert r[..|r| - 1] == Squash(p);
      } else if Squash(p) != [] {
        assert s[..|s| - 1] == p;
      }
    }
  }

  /** Counting blank lines commutes with appending a line. */
  lemma {:induction false} CountBlankSnoc(s: seq<string>, x: string)
    ensures CountBlank(s + [x]) == CountBlank(s) + (if IsBlank(x) then 1 else 0)
    decreases |s|
  {
    if s != [] {
      assert (s + [x])[1..] == s[1..] + [x];
      CountBlankSnoc(s[1..], x);
    }
  }

  /** One blank line is kept per run of blank lines: the result holds as many
      blank lines as the input has runs of them. */
  lemma {:induction false} SquashKeepsOneBlankPerRun(s: seq<string>)
    ensures CountBlank(Squash(s)) == BlankRuns(s)
    decreases |s|
  {
    if s != [] {
      var i := |s| - 1;
      var p := s[..i];
      SquashKeepsOneBlankPerRun(p);
      if !Dropped(s, i) {
        CountBlankSnoc(Squash(p), s[i]);
      }
    }
  }

  /** A list without two blank lines in a row is left as it is. */
  lemma {:induction false} SquashFixpoint(s: seq<string>)
    requires NoAdjacentBlanks(s)
    ensures Squash(s) == s
    decreases |s|
  {
    if s != [] {
      var i := |s| - 1;
      var p := s[..i];
      assert NoAdjacentBlanks(p) by {
        forall k | 0 < k < |p| ensures !(IsBlank(p[k - 1]) && IsBlank(p[k])) {
          assert p[k - 1] == s[k - 1] && p[k] == s[k];
        }
      }
      SquashFixpoint(p);
      assert s == p + [s[i]];
    }
  }

  /** Squashing twice gives the same list as squashing once. */
  lemma SquashIdempotent(s: seq<string>)
    ensures Squash(Squash(s)) == Squash(s)
  {
    SquashNoAdjacentBlanks(s);
    SquashFixpoint(Squash(s));
  }
}
