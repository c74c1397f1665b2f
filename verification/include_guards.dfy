/** fix_include_guards: give the #ifndef/#define/#endif guard of a header the
    name its path calls for. */
module IncludeGuards {
  import opened Wrappers
  import opened Text
  import opened Lines
  import opened Paths

  /** line.startswith('#ifndef ') (the line itself, not stripped). */
  predicate IsIfndef(line: string) {
    StartsWith(line, "#ifndef ")
  }

  /** line.strip().startswith('#define') */
  predicate IsDefine(line: string) {
    StartsWith(Strip(line), "#define")
  }

  /** line.startswith('#endif') (the line itself, not stripped). */
  predicate IsEndif(line: string) {
    StartsWith(line, "#endif")
  }

  function IfndefLine(name: string): string { "#ifndef " + name + "\n" }
  function DefineLine(name: string): string { "#define " + name + "\n" }
  function EndifLine(name: string): string { "#endif // " + name + "\n" }

  /** The first line at or after `i` that starts with "#ifndef ", or |lines|. */
  function FirstIfndef(lines: seq<string>, i: nat): (r: nat)
    requires i <= |lines|
    ensures i <= r <= |lines|
    ensures r < |lines| ==> IsIfndef(lines[r])
    ensures forall k :: i <= k < r ==> !IsIfndef(lines[k])
    decreases |lines| - i
  {
    if i == |lines| || IsIfndef(lines[i]) then i else FirstIfndef(lines, i + 1)
  }

  /** The last non-blank line strictly between `d` and `n`, or -1 when there is none. */
  function LastNonBlank(lines: seq<string>, d: nat, n: nat): (r: int)
    requires n <= |lines|
    ensures r == -1 || (d < r < n && IsNonemptyLine(lines[r]))
    ensures forall k :: d < k < n && r < k ==> IsBlank(lines[k])
    decreases n
  {
    if n <= d + 1 then -1
    else if IsNonemptyLine(lines[n - 1]) then n - 1
    else LastNonBlank(lines, d, n - 1)
  }

  /** The closing line the scan settles on when it has read the lines before `n`
      and the #define line is lines[d]: the last non-blank line after the #define
      line, if it starts with "#endif"; otherwise -1. */
  function EndifAt(lines: seq<string>, d: nat, n: nat): int
    requires n <= |lines|
  {
    var m := LastNonBlank(lines, d, n);
    if m != -1 && IsEndif(lines[m]) then m else -1
  }

  /** The three line numbers of fix_include_guards; -1 for one it did not find. */
  datatype GuardLines = GuardLines(ifdef: int, def: int, endif: int)

  /** The scan of fix_include_guards: None when the line right after the first
      "#ifndef " line is not a #define line ("malformed include guard?"). */
  function ScanGuard(lines: seq<string>): (r: Option<GuardLines>)
    ensures r.Some? ==> -1 <= r.value.ifdef < |lines| && -1 <= r.value.def < |lines|
                        && -1 <= r.value.endif < |lines|
  {
    var i := FirstIfndef(lines, 0);
    if i == |lines| then Some(GuardLines(-1, -1, -1))
    else if i + 1 == |lines| then Some(GuardLines(i, -1, -1))
    else if !IsDefine(lines[i + 1]) then None
    else Some(GuardLines(i, i + 1, EndifAt(lines, i + 1, |lines|)))
  }

  /** `lines[p] = v` on a value: None for the IndexError. */
  function Assign(lines: seq<string>, p: int, v: string): Option<seq<string>> {
    match ListIndex(|lines|, p)
    case None => None
    case Some(q) => Some(lines[q := v])
  }

  /** How fix_include_guards ends: it returns False leaving the list as it was,
      its first assignment raises IndexError (on an empty list), or it returns
      True having written the three lines. */
  datatype GuardOutcome = Refused | Raised | Rewritten(lines: seq<string>)

  /** What fix_include_guards(lines, full_path_of_header) does. */
  function FixedIncludeGuards(lines: seq<string>, path: string): GuardOutcome {
    var name := FormIncludeGuardName(path);
    if name == "" then Refused
    else
      match ScanGuard(lines)
      case None => Refused
      case Some(g) =>
        match Assign(lines, g.ifdef, IfndefLine(name))
        case None => Raised
        case Some(l1) =>
          match Assign(l1, g.def, DefineLine(name))
          case None => Raised
          case Some(l2) =>
            match Assign(l2, g.endif, EndifLine(name))
            case None => Raised
            case Some(l3) => Rewritten(l3)
  }

  /** How a call of fix_include_guards ends in Python. */
  datatype Status = Returned(ok: bool) | IndexError

  /** The scan loop of fix_include_guards: false when the guard is malformed,
      otherwise the three line numbers it found. */
  method ScanGuardLines(items: seq<string>) returns (ok: bool, g: GuardLines)
    ensures ok <==> ScanGuard(items).Some?
    ensures ok ==> ScanGuard(items) == Some(g)
  {
    var lineNo := 0;
    var linenoIfdef := -1;
    var linenoDef := -1;
    var linenoEndif := -1;
    while lineNo < |items|
      invariant 0 <= lineNo <= |items|
      invariant linenoIfdef == -1 ==>
        linenoDef == -1 && linenoEndif == -1 && forall k :: 0 <= k < lineNo ==> !IsIfndef(items[k])
      invariant linenoIfdef != -1 ==> linenoIfdef < lineNo && linenoIfdef == FirstIfndef(items, 0)
      invariant linenoIfdef != -1 && linenoDef == -1 ==> lineNo == linenoIfdef + 1 && linenoEndif == -1
      invariant linenoDef != -1 ==>
        linenoIfdef != -1 && linenoDef == linenoIfdef + 1 && linenoDef < lineNo
        && IsDefine(items[linenoDef]) && linenoEndif == EndifAt(items, linenoDef, lineNo)
    {
      var line := items[lineNo];
      if linenoIfdef == -1 && StartsWith(line, "#ifndef ") {
        linenoIfdef := lineNo;
      } else if linenoIfdef != -1 && linenoDef == -1 {
        if !StartsWith(Strip(line), "#define") {
          // "malformed include guard?"
          return false, GuardLines(linenoIfdef, linenoDef, linenoEndif);
        }
        linenoDef := lineNo;
      } else if linenoIfdef != -1 && linenoDef != -1 {
        if StartsWith(line, "#endif") {
          NonSpaceStartIsNonempty(line);
          linenoEndif := lineNo;
        } else if Strip(line) != "" {
          linenoEndif := -1;
        }
      }
      lineNo := lineNo + 1;
    }
    return true, GuardLines(linenoIfdef, linenoDef, linenoEndif);
  }

  /** fix_include_guards(lines, full_path_of_header), on the caller's list. */
  method FixIncludeGuards(lines: LineList, fullPathOfHeader: string) returns (status: Status)
    modifies lines
    ensures match FixedIncludeGuards(old(lines.items), fullPathOfHeader)
      case Refused => status == Returned(false) && lines.items == old(lines.items)
      case Raised => status == IndexError && lines.items == old(lines.items)
      case Rewritten(r) => status == Returned(true) && lines.items == r
  {
    var includeGuardName := FormIncludeGuardName(fullPathOfHeader);
    if includeGuardName == "" {
      return Returned(false);
    }
    var items := lines.items;
    var ok, g := ScanGuardLines(items);
    if !ok {
      return Returned(false);
    }

    var raised := SetItem(lines, g.ifdef, IfndefLine(includeGuardName));
    if raised {
      return IndexError;
    }
    var l1 := lines.items;
    assert |l1| == |items| > 0;
    raised := SetItem(lines, g.def, DefineLine(includeGuardName));
    assert !raised;
    raised := SetItem(lines, g.endif, EndifLine(includeGuardName));
    assert !raised;
    return Returned(true);
  }

  /** The three canonical lines are told apart by the scan's own tests: the
      ifndef line passes the ifndef test, the define line passes the define
      test only, and the endif line is a non-blank endif line that passes neither. */
  lemma GuardLineKinds(name: string)
    ensures IsIfndef(IfndefLine(name))
    ensures IsDefine(DefineLine(name)) && !IsIfndef(DefineLine(name))
    ensures IsEndif(EndifLine(name)) && IsNonemptyLine(EndifLine(name))
    ensures !IsIfndef(EndifLine(name)) && !IsDefine(EndifLine(name))
  {
    var d := DefineLine(name);
    var e := EndifLine(name);
    assert "#define" <= d;
    StripKeepsPrefix(d, "#define");
    assert "#endif" <= e;
    StripKeepsPrefix(e, "#endif");
    assert Strip(e)[1] == 'e';
    NonSpaceStartIsNonempty(e);
  }

  /** fix_include_guards returns False exactly when the path yields no guard
      name or the line right after the first "#ifndef " line is not a #define
      line; it raises IndexError exactly on an empty list with a guard name. */
  lemma GuardsFailure(lines: seq<string>, path: string)
    ensures FixedIncludeGuards(lines, path).Refused? <==>
      FormIncludeGuardName(path) == ""
      || (var i := FirstIfndef(lines, 0); i + 1 < |lines| && !IsDefine(lines[i + 1]))
    ensures FixedIncludeGuards(lines, path).Raised? <==> FormIncludeGuardName(path) != "" && lines == []
  {
    ScanGuardRefuses(lines);
    if FormIncludeGuardName(path) != "" && ScanGuard(lines).Some? && lines != [] {
      WritesSucceed(lines, ScanGuard(lines).value, FormIncludeGuardName(path));
    }
  }

  /** The scan refuses exactly when the line right after the first "#ifndef "
      line is not a #define line. */
  lemma ScanGuardRefuses(lines: seq<string>)
    ensures ScanGuard(lines).None? <==>
      var i := FirstIfndef(lines, 0); i + 1 < |lines| && !IsDefine(lines[i + 1])
  {
    var i := FirstIfndef(lines, 0);
    if i + 1 < |lines| && !IsDefine(lines[i + 1]) {
      assert ScanGuard(lines) == None;
    } else {
      assert ScanGuard(lines).Some?;
    }
  }

  /** On a non-empty list every line number the scan can give, -1 included,
      is a valid index, so none of the three writes raises. */
  lemma WritesSucceed(lines: seq<string>, g: GuardLines, name: string)
    requires lines != []
    requires -1 <= g.ifdef < |lines| && -1 <= g.def < |lines| && -1 <= g.endif < |lines|
    ensures Assign(lines, g.ifdef, IfndefLine(name)).Some?
    ensures var l1 := Assign(lines, g.ifdef, IfndefLine(name)).value;
      Assign(l1, g.def, DefineLine(name)).Some?
      && Assign(Assign(l1, g.def, DefineLine(name)).value, g.endif, EndifLine(name)).Some?
  {
  }

  /** What the scan finds: no "#ifndef " line before `ifdef` (-1 when there is
      none at all), the #define line right after it, and as `endif` the last
      non-blank line after the #define line when that line starts with "#endif";
      -1 when there is no such line. */
  lemma ScanGuardFinds(lines: seq<string>)
    requires ScanGuard(lines).Some?
    ensures var g := ScanGuard(lines).value;
      (g.ifdef == -1 <==> forall k :: 0 <= k < |lines| ==> !IsIfndef(lines[k]))
      && (g.ifdef != -1 ==> IsIfndef(lines[g.ifdef]) && forall k :: 0 <= k < g.ifdef ==> !IsIfndef(lines[k]))
      && g.def == (if g.ifdef != -1 && g.ifdef + 1 < |lines| then g.ifdef + 1 else -1)
      && (g.def != -1 ==> IsDefine(lines[g.def]))
      && (g.endif != -1 ==> g.def != -1 && g.def < g.endif && IsEndif(lines[g.endif])
                            && forall k :: g.endif < k < |lines| ==> IsBlank(lines[k]))
  {
  }

  /** When no closing line was found, no "#endif" line after the #define line is
      followed by blank lines only. */
  lemma ScanGuardNoEndif(lines: seq<string>)
    requires ScanGuard(lines).Some?
    requires ScanGuard(lines).value.def != -1 && ScanGuard(lines).value.endif == -1
    ensures var d := ScanGuard(lines).value.def;
      forall m :: d < m < |lines| && IsEndif(lines[m]) ==>
        exists k :: m < k < |lines| && IsNonemptyLine(lines[k])
  {
    var d := ScanGuard(lines).value.def;
    var last := LastNonBlank(lines, d, |lines|);
    forall m | d < m < |lines| && IsEndif(lines[m])
      ensures exists k :: m < k < |lines| && IsNonemptyLine(lines[k])
    {
      NonSpaceStartIsNonempty(lines[m]);
      assert last != m;
      assert m < last;
    }
  }

  /** On success the list keeps its length, and only the lines at the three
      positions (-1 standing for the last line) are written: the closing position
      holds the #endif line, the #define position the #define line unless the
      closing write went to the same line, and the #ifndef position the #ifndef
      line unless a later write went to the same line. */
  lemma GuardsRewrite(lines: seq<string>, path: string)
    requires FixedIncludeGuards(lines, path).Rewritten?
    ensures lines != [] && ScanGuard(lines).Some?
    ensures var r := FixedIncludeGuards(lines, path).lines;
      var name := FormIncludeGuardName(path);
      var g := ScanGuard(lines).value;
      var n := |lines|;
      var pIfdef := ListIndex(n, g.ifdef).value;
      var pDef := ListIndex(n, g.def).value;
      var pEndif := ListIndex(n, g.endif).value;
      |r| == n
      && (forall k :: 0 <= k < n && k != pIfdef && k != pDef && k != pEndif ==> r[k] == lines[k])
      && r[pEndif] == EndifLine(name)
      && (pDef != pEndif ==> r[pDef] == DefineLine(name))
      && (pIfdef != pDef && pIfdef != pEndif ==> r[pIfdef] == IfndefLine(name))
  {
    GuardsFailure(lines, path);
  }

  /** A header with a guard in the intended shape gets exactly its three guard
      lines renamed. */
  lemma WellFormedGuard(lines: seq<string>, path: string, i: nat, m: nat)
    requires FormIncludeGuardName(path) != ""
    requires i + 1 < m < |lines|
    requires IsIfndef(lines[i]) && forall k :: 0 <= k < i ==> !IsIfndef(lines[k])
    requires IsDefine(lines[i + 1])
    requires IsEndif(lines[m]) && forall k :: m < k < |lines| ==> IsBlank(lines[k])
    ensures var name := FormIncludeGuardName(path);
      FixedIncludeGuards(lines, path)
        == Rewritten(lines[i := IfndefLine(name)][i + 1 := DefineLine(name)][m := EndifLine(name)])
  {
    assert FirstIfndef(lines, 0) == i;
    NonSpaceStartIsNonempty(lines[m]);
    assert LastNonBlank(lines, i + 1, |lines|) == m;
  }

  /** A non-empty file whose only "#ifndef " line, if any, is its last line has
      that last line overwritten by the #endif line: the #define and #endif line
      numbers stay -1, and so does the #ifndef one when there is no such line. */
  lemma UnguardedLastLine(lines: seq<string>, path: string)
    requires FormIncludeGuardName(path) != "" && lines != []
    requires forall k :: 0 <= k < |lines| - 1 ==> !IsIfndef(lines[k])
    ensures FixedIncludeGuards(lines, path)
      == Rewritten(lines[|lines| - 1 := EndifLine(FormIncludeGuardName(path))])
  {
    var i := FirstIfndef(lines, 0);
    if i == |lines| {
      assert ScanGuard(lines) == Some(GuardLines(-1, -1, -1));
    } else {
      assert i == |lines| - 1;
      assert ScanGuard(lines) == Some(GuardLines(i, -1, -1));
    }
  }

  /** A well-formed #ifndef/#define pair whose file ends in a non-blank line that
      does not start with "#endif" (a comment after the #endif, an indented
      #endif): no closing line is found, so the last line is overwritten by the
      #endif line and any earlier #endif line stays. */
  lemma TrailingLineOverwritten(lines: seq<string>, path: string, i: nat)
    requires FormIncludeGuardName(path) != ""
    requires i + 2 < |lines|
    requires IsIfndef(lines[i]) && forall k :: 0 <= k < i ==> !IsIfndef(lines[k])
    requires IsDefine(lines[i + 1])
    requires IsNonemptyLine(lines[|lines| - 1]) && !IsEndif(lines[|lines| - 1])
    ensures var name := FormIncludeGuardName(path);
      FixedIncludeGuards(lines, path)
        == Rewritten(lines[i := IfndefLine(name)][i + 1 := DefineLine(name)][|lines| - 1 := EndifLine(name)])
  {
    assert FirstIfndef(lines, 0) == i;
    assert LastNonBlank(lines, i + 1, |lines|) == |lines| - 1;
  }

  /** Running the fix again on its own result changes nothing, unless the
      #define line was the last line of the file. */
  lemma GuardsIdempotent(lines: seq<string>, path: string)
    requires FixedIncludeGuards(lines, path).Rewritten?
    requires ScanGuard(lines).value.def != |lines| - 1
    ensures var r := FixedIncludeGuards(lines, path).lines;
      FixedIncludeGuards(r, path) == Rewritten(r)
  {
    var r := FixedIncludeGuards(lines, path).lines;
    var name := FormIncludeGuardName(path);
    GuardsRewrite(lines, path);
    ScanGuardFinds(lines);
    GuardLineKinds(name);
    var g := ScanGuard(lines).value;
    var n := |lines|;
    if g.def == -1 {
      forall k | 0 <= k < n ensures !IsIfndef(r[k]) {
        if k < n - 1 {
          assert r[k] == lines[k];
        }
      }
      UnguardedLastLine(r, path);
      assert r[n - 1 := EndifLine(name)] == r;
    } else {
      var i := g.ifdef;
      var m := if g.endif == -1 then n - 1 else g.endif;
      assert forall k :: 0 <= k < i ==> r[k] == lines[k];
      assert forall k :: m < k < n ==> r[k] == lines[k];
      WellFormedGuard(r, path, i, m);
      assert r[i := IfndefLine(name)][i + 1 := DefineLine(name)][m := EndifLine(name)] == r;
    }
  }

  /** When the #define line is the last line, the closing line number stays -1,
      so the #endif line overwrites the #define line, and a second run refuses
      the file: the line after its "#ifndef " line is no longer a #define line. */
  lemma GuardsNotIdempotent(lines: seq<string>, path: string)
    requires FixedIncludeGuards(lines, path).Rewritten?
    requires ScanGuard(lines).value.def == |lines| - 1
    ensures FixedIncludeGuards(FixedIncludeGuards(lines, path).lines, path) == Refused
  {
    var r := FixedIncludeGuards(lines, path).lines;
    var name := FormIncludeGuardName(path);
    GuardsRewrite(lines, path);
    ScanGuardFinds(lines);
    GuardLineKinds(name);
    var i := ScanGuard(lines).value.ifdef;
    assert forall k :: 0 <= k < i ==> r[k] == lines[k];
    assert FirstIfndef(r, 0) == i;
  }

  /** A header that ends right after its #define line. */
  lemma DefineOnLastLine()
    ensures var lines := ["#ifndef X\n", "#define X\n"];
      FixedIncludeGuards(lines, "/src/hotspot/a.h") == Rewritten(["#ifndef A_H\n", "#endif // A_H\n"])
      && ScanGuard(lines).value.def == |lines| - 1
  {
    var lines := ["#ifndef X\n", "#define X\n"];
    var path := "/src/hotspot/a.h";
    assert OccursAt(path, HotspotDir, 0);
    assert Find(path, HotspotDir) == 0;
    GuardNameChars(path);
    var name := FormIncludeGuardName(path);
    assert name[0] == GuardChar('a') && name[1] == GuardChar('.') && name[2] == GuardChar('h');
    assert name == "A_H";
    assert FirstIfndef(lines, 0) == 0;
    StripKeepsPrefix(lines[1], "#define");
    assert ScanGuard(lines) == Some(GuardLines(0, 1, -1));
    assert ListIndex(2, -1) == Some(1);
    var l1 := lines[0 := IfndefLine(name)];
    assert Assign(lines, 0, IfndefLine(name)) == Some(l1);
    var l2 := l1[1 := DefineLine(name)];
    assert Assign(l1, 1, DefineLine(name)) == Some(l2);
    assert Assign(l2, -1, EndifLine(name)) == Some(l2[1 := EndifLine(name)]);
    assert IfndefLine(name) == "#ifndef A_H\n";
    assert EndifLine(name) == "#endif // A_H\n";
  }
}
