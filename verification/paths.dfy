/** What the normaliser reads from a file's path: its kind (has_extension,
    is_source_file, is_header_file) and the include guard name a header should
    carry (form_include_guard_name). */
module Paths {
  import opened Text

  /** The final component of a path: the text after its last '/'. */
  function FileName(path: string): (r: string)
    ensures '/' !in r
    ensures |r| <= |path| && r == path[|path| - |r|..]
  {
    var i := LastIndexOf(path, '/');
    var r := path[i + 1..];
    assert forall k :: 0 <= k < |r| ==> r[k] == path[i + 1 + k];
    r
  }

  /** The file name is the whole path, or it follows a '/': with '/' !in it,
      the text after the path's last '/'. */
  lemma FileNameValue(path: string)
    ensures var r := FileName(path); |r| == |path| || path[|path| - |r| - 1] == '/'
  {
  }

  /** pathlib's PurePath.suffix: the final component from its last '.' on, when
      that '.' is neither the first nor the last character of the component;
      otherwise the empty string. SuffixValue states which of the two it is. */
  function Suffix(path: string): (r: string)
    ensures r == [] || (|r| >= 2 && r[0] == '.' && '.' !in r[1..] && '/' !in r)
    ensures |r| <= |path| && r == path[|path| - |r|..]
  {
    var name := FileName(path);
    var i := LastIndexOf(name, '.');
    if 0 < i < |name| - 1 then
      TailShape(name, i);
      assert name[i..] == path[|path| - |name| + i..] by {
        assert path[|path| - |name|..][i..] == path[|path| - |name| + i..];
      }
      name[i..]
    else ""
  }

  /** The suffix is empty exactly when the file name is empty, ends in '.', or
      has no '.' after its first character; otherwise it is a proper tail of the
      file name, so the tail that starts at its last '.'. */
  lemma SuffixValue(path: string)
    ensures var r := Suffix(path); var n := FileName(path);
      (r == [] <==> n == [] || n[|n| - 1] == '.' || forall k :: 0 < k < |n| ==> n[k] != '.')
      && (r != [] ==> |r| < |n| && r == n[|n| - |r|..])
  {
    var n := FileName(path);
    var i := LastIndexOf(n, '.');
    LastDotCases(n);
    if 0 < i < |n| - 1 {
      assert Suffix(path) == n[i..];
    } else {
      assert Suffix(path) == "";
    }
  }

  /** pathlib's test on the last '.' of a file name: it lies strictly inside the
      name exactly when the name does not end in '.' and has a '.' after its
      first character. */
  lemma LastDotCases(name: string)
    ensures var i := LastIndexOf(name, '.');
      !(0 < i < |name| - 1) <==>
        name == [] || name[|name| - 1] == '.' || forall k :: 0 < k < |name| ==> name[k] != '.'
  {
    var i := LastIndexOf(name, '.');
    if 0 < i < |name| - 1 {
      assert name[i] == '.';
    }
  }

  /** The text from the last '.' of a file name on holds no other '.' and no '/'. */
  lemma TailShape(name: string, i: nat)
    requires i < |name| && name[i] == '.' && '/' !in name
    requires forall k :: i < k < |name| ==> name[k] != '.'
    ensures var r := name[i..]; r[0] == '.' && '.' !in r[1..] && '/' !in r
  {
    var r := name[i..];
    forall k | 0 <= k < |r| - 1 ensures r[1..][k] != '.' {
      assert r[1..][k] == name[i + 1 + k];
    }
    forall k | 0 <= k < |r| ensures r[k] != '/' {
      assert r[k] == name[i + k];
    }
  }

  /** has_extension(filename, extensions) */
  predicate HasExtension(path: string, extensions: set<string>) {
    Suffix(path) in extensions
  }

  /** is_source_file: a .cpp or .c file. */
  predicate IsSourceFile(path: string) {
    HasExtension(path, {".cpp", ".c"})
  }

  /** is_header_file: a .hpp or .h file. */
  predicate IsHeaderFile(path: string) {
    HasExtension(path, {".hpp", ".h"})
  }

  /** A path that ends in an extension after a non-empty file name has exactly
      that extension as its suffix. */
  lemma SuffixOfName(stem: string, ext: string)
    requires stem != [] && stem[|stem| - 1] != '/'
    requires |ext| >= 2 && ext[0] == '.' && '.' !in ext[1..] && '/' !in ext
    ensures Suffix(stem + ext) == ext
  {
    var path := stem + ext;
    var j := LastIndexOf(path, '/');
    LastSlashInStem(stem, ext);
    var pre := stem[j + 1..];
    assert FileName(path) == pre + ext;
    LastDotStartsExt(pre, ext);
    assert (pre + ext)[|pre|..] == ext;
  }

  /** The last '/' of a path lies in the stem, before its last character. */
  lemma LastSlashInStem(stem: string, ext: string)
    requires stem != [] && stem[|stem| - 1] != '/' && '/' !in ext
    ensures LastIndexOf(stem + ext, '/') < |stem| - 1
  {
    var path := stem + ext;
    forall k | |stem| - 1 <= k < |path| ensures path[k] != '/' {
      if k >= |stem| {
        assert path[k] == ext[k - |stem|];
      }
    }
  }

  /** The last '.' of a name ending in an extension is the extension's own. */
  lemma LastDotStartsExt(pre: string, ext: string)
    requires ext != [] && ext[0] == '.' && '.' !in ext[1..]
    ensures LastIndexOf(pre + ext, '.') == |pre|
  {
    var name := pre + ext;
    forall k | |pre| < k < |name| ensures name[k] != '.' {
      assert name[k] == ext[1..][k - |pre| - 1];
    }
    assert name[|pre|] == '.';
    var r := LastIndexOf(name, '.');
    assert r != -1 && r >= |pre|;
  }

  /** Every file is a source file, a header or neither, never both. */
  lemma SourceAndHeaderDisjoint(path: string)
    ensures !(IsSourceFile(path) && IsHeaderFile(path))
  {
  }

  /** A path whose file name is a non-empty stem followed by ".c", ".cpp", ".h"
      or ".hpp" is a source file exactly for the first two and a header exactly for
      the last two. */
  lemma ClassifiedByEnding(stem: string, ext: string)
    requires stem != [] && stem[|stem| - 1] != '/'
    requires ext in {".c", ".cpp", ".h", ".hpp"}
    ensures IsSourceFile(stem + ext) <==> ext == ".c" || ext == ".cpp"
    ensures IsHeaderFile(stem + ext) <==> ext == ".h" || ext == ".hpp"
  {
    assert |ext| >= 2 && ext[0] == '.' && '.' !in ext[1..] && '/' !in ext;
    SuffixOfName(stem, ext);
    ClassifiedBySuffix(stem + ext, ext);
  }

  /** The kind of a file follows from its suffix alone. */
  lemma ClassifiedBySuffix(path: string, ext: string)
    requires Suffix(path) == ext
    ensures IsSourceFile(path) <==> ext == ".c" || ext == ".cpp"
    ensures IsHeaderFile(path) <==> ext == ".h" || ext == ".hpp"
  {
  }

  /** A source file's path ends in ".c" or ".cpp", a header's in ".h" or ".hpp". */
  lemma ClassifiedPathEnds(path: string)
    ensures IsSourceFile(path) ==> EndsWith(path, ".c") || EndsWith(path, ".cpp")
    ensures IsHeaderFile(path) ==> EndsWith(path, ".h") || EndsWith(path, ".hpp")
  {
    var ext := Suffix(path);
    ClassifiedBySuffix(path, ext);
    assert EndsWith(path, ext);
  }

  /** The directory the guard name is taken relative to. */
  const HotspotDir := "/src/hotspot/"

  /** One character of a guard name: '.' and '/' become '_', the rest is upper-cased. */
  function GuardChar(c: char): char {
    if c == '.' || c == '/' then '_' else Upper(c)
  }

  /** form_include_guard_name(full_path_of_header): "" when the path does not
      contain "/src/hotspot/"; otherwise the text after its first occurrence,
      upper-cased, with '.' and '/' replaced by '_'. */
  function FormIncludeGuardName(path: string): string {
    var index := Find(path, HotspotDir);
    if index == -1 then ""
    else
      var f := path[index + 13..];
      var f := UpperAll(f);
      var f := Replace(f, ".", "_");
      Replace(f, "/", "_")
  }

  /** The name is "" when the path lacks "/src/hotspot/"; otherwise it has one
      character per character after the first "/src/hotspot/", mapped by GuardChar. */
  lemma GuardNameChars(path: string)
    ensures var name := FormIncludeGuardName(path); var index := Find(path, HotspotDir);
      (index == -1 ==> name == "")
      && (index != -1 ==>
            |name| == |path| - (index + |HotspotDir|)
            && forall i :: 0 <= i < |name| ==> name[i] == GuardChar(path[index + |HotspotDir| + i]))
  {
    var index := Find(path, HotspotDir);
    if index != -1 {
      assert |HotspotDir| == 13;
      var tail := path[index + 13..];
      var up := UpperAll(tail);
      ReplaceCharPointwise(up, '.', '_');
      var noDots := Replace(up, ".", "_");
      ReplaceCharPointwise(noDots, '/', '_');
      var name := Replace(noDots, "/", "_");
      forall i | 0 <= i < |name| ensures name[i] == GuardChar(path[index + 13 + i]) {
        assert tail[i] == path[index + 13 + i];
      }
    }
  }

  /** A guard name holds neither '.' nor '/'. */
  lemma GuardNameHasNoDotOrSlash(path: string)
    ensures '.' !in FormIncludeGuardName(path) && '/' !in FormIncludeGuardName(path)
  {
    var name := FormIncludeGuardName(path);
    GuardNameChars(path);
    forall i | 0 <= i < |name| ensures name[i] != '.' && name[i] != '/' { }
  }
}
