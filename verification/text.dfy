/** The Python string primitives the normaliser relies on (str.strip, str.rstrip,
    str.startswith, str.find, str.replace, str.upper), on Dafny strings. */
module Text {

  /** Python's str.isspace() for one character: the characters that str.strip()
      and str.rstrip() (without arguments) remove. */
  predicate IsSpace(c: char) {
    var n := c as int;
    (0x09 <= n <= 0x0D) || (0x1C <= n <= 0x20) || n == 0x85 || n == 0xA0 || n == 0x1680
    || (0x2000 <= n <= 0x200A) || n == 0x2028 || n == 0x2029 || n == 0x202F
    || n == 0x205F || n == 0x3000
  }

  predicate AllSpace(s: string) {
    forall k :: 0 <= k < |s| ==> IsSpace(s[k])
  }

  /** str.rstrip(): `s` without its trailing whitespace. */
  function RStrip(s: string): string
    decreases |s|
  {
    if s != [] && IsSpace(s[|s| - 1]) then RStrip(s[..|s| - 1]) else s
  }

  /** rstrip() keeps a prefix of `s` that does not end in whitespace, and drops
      whitespace only. */
  lemma {:induction false} RStripShape(s: string)
    ensures var r := RStrip(s);
      r <= s && (r == [] || !IsSpace(r[|r| - 1]))
      && forall k :: |r| <= k < |s| ==> IsSpace(s[k])
    decreases |s|
  {
    if s != [] && IsSpace(s[|s| - 1]) {
      RStripShape(s[..|s| - 1]);
    }
  }

  /** str.strip(): `s` without its leading and trailing whitespace. */
  function Strip(s: string): (r: string)
    decreases |s|
  {
    if s != [] && IsSpace(s[0]) then Strip(s[1..]) else RStrip(s)
  }

  /** strip() leaves nothing exactly when every character is whitespace. */
  lemma {:induction false} StripEmptyIff(s: string)
    ensures Strip(s) == [] <==> AllSpace(s)
    decreases |s|
  {
    if s != [] && IsSpace(s[0]) {
      StripEmptyIff(s[1..]);
      assert AllSpace(s) <==> AllSpace(s[1..]);
    } else if s != [] {
      RStripShape(s);
      assert !AllSpace(s);
    }
  }

  /** strip() keeps a leading text that starts and ends in non-whitespace. */
  lemma StripKeepsPrefix(s: string, p: string)
    requires p != [] && p <= s && !IsSpace(p[0]) && !IsSpace(p[|p| - 1])
    ensures p <= Strip(s)
  {
    RStripShape(s);
    assert s[|p| - 1] == p[|p| - 1];
  }

  /** str.startswith(prefix). */
  predicate StartsWith(s: string, prefix: string) {
    prefix <= s
  }

  /** str.endswith(suffix). */
  predicate EndsWith(s: string, suffix: string) {
    |suffix| <= |s| && s[|s| - |suffix|..] == suffix
  }

  /** `pat` occurs in `s` at position k. */
  predicate OccursAt(s: string, pat: string, k: int) {
    0 <= k && k + |pat| <= |s| && s[k..k + |pat|] == pat
  }

  /** str.find(pat, start): the first position at or after `start` where `pat` occurs, or -1. */
  function FindFrom(s: string, pat: string, start: nat): (r: int)
    ensures r == -1 || (start <= r && OccursAt(s, pat, r))
    ensures forall k :: start <= k && (r == -1 || k < r) ==> !OccursAt(s, pat, k)
    decreases |s| - start
  {
    if start + |pat| > |s| then -1
    else if s[start..start + |pat|] == pat then start
    else FindFrom(s, pat, start + 1)
  }

  /** str.find(pat): the first position where `pat` occurs, or -1. */
  function Find(s: string, pat: string): (r: int)
    ensures r == -1 <==> forall k :: !OccursAt(s, pat, k)
    ensures r != -1 ==> OccursAt(s, pat, r) && forall k :: 0 <= k < r ==> !OccursAt(s, pat, k)
  {
    FindFrom(s, pat, 0)
  }

  /** str.replace(target, repl): every occurrence of `target`, found left to right without
      overlapping, replaced by `repl`. */
  function Replace(s: string, target: string, repl: string): string
    requires target != []
    decreases |s|
  {
    if |s| < |target| then s
    else if s[..|target|] == target then repl + Replace(s[|target|..], target, repl)
    else [s[0]] + Replace(s[1..], target, repl)
  }

  /** Every character of the result comes from `s` or from `repl`. */
  lemma {:induction false} ReplaceCharsFrom(s: string, target: string, repl: string, c: char)
    requires target != []
    requires c in Replace(s, target, repl)
    ensures c in s || c in repl
    decreases |s|
  {
    if |s| < |target| {
    } else if s[..|target|] == target {
      if c !in repl {
        ReplaceCharsFrom(s[|target|..], target, repl, c);
      }
    } else if c != s[0] {
      ReplaceCharsFrom(s[1..], target, repl, c);
    }
  }

  /** Replacing a single character by text without it leaves no such character. */
  lemma {:induction false} ReplaceRemovesChar(s: string, c: char, repl: string)
    requires c !in repl
    ensures c !in Replace(s, [c], repl)
    decreases |s|
  {
    if |s| >= 1 {
      ReplaceRemovesChar(s[1..], c, repl);
      if s[..1] != [c] {
        assert s[0] != c;
      }
    }
  }

  /** Text in which `target` does not occur is left as it is. */
  lemma {:induction false} ReplaceAbsent(s: string, target: string, repl: string)
    requires target != []
    requires forall k :: !OccursAt(s, target, k)
    ensures Replace(s, target, repl) == s
    decreases |s|
  {
    if |s| >= |target| {
      assert !OccursAt(s, target, 0);
      assert s[..|target|] != target;
      forall k ensures !OccursAt(s[1..], target, k) {
        if OccursAt(s[1..], target, k) {
          assert s[1..][k..k + |target|] == s[k + 1..k + 1 + |target|];
          assert OccursAt(s, target, k + 1);
        }
      }
      ReplaceAbsent(s[1..], target, repl);
    }
  }

  /** No occurrence of `pat` can begin inside `repl`: none lies within it, and
      no tail of it is the start of `pat`. */
  predicate StartsNoneIn(repl: string, pat: string) {
    forall k :: 0 <= k < |repl| ==> !(pat <= repl[k..]) && !(repl[k..] <= pat)
  }

  /** Text with no occurrence of `pat` has none in any of its tails either. */
  lemma NoneInTail(s: string, pat: string, j: nat)
    requires j <= |s| && forall k :: !OccursAt(s, pat, k)
    ensures forall k :: !OccursAt(s[j..], pat, k)
  {
    forall k ensures !OccursAt(s[j..], pat, k) {
      if 0 <= k && k + |pat| <= |s| - j {
        assert s[j..][k..k + |pat|] == s[j + k..j + k + |pat|];
        assert !OccursAt(s, pat, j + k);
      }
    }
  }

  /** Up to the first character that could begin a replacement, `replace`
      copies its input. */
  lemma {:induction false} ReplaceCopiesPrefix(t: string, target: string, repl: string, n: nat)
    requires target != [] && repl != []
    requires n <= |Replace(t, target, repl)|
    requires forall i :: 0 <= i < n ==> Replace(t, target, repl)[i] != repl[0]
    ensures n <= |t| && Replace(t, target, repl)[..n] == t[..n]
    decreases |t|
  {
    if |t| < |target| {
    } else if t[..|target|] == target {
      assert Replace(t, target, repl)[0] == repl[0];
    } else if n > 0 {
      var r := Replace(t[1..], target, repl);
      assert Replace(t, target, repl) == [t[0]] + r;
      forall i | 0 <= i < n - 1 ensures r[i] != repl[0] {
        assert Replace(t, target, repl)[i + 1] == r[i];
      }
      ReplaceCopiesPrefix(t[1..], target, repl, n - 1);
      assert t[..n] == [t[0]] + t[1..][..n - 1];
    }
  }

  /** An occurrence of `pat` after a replacement text lies wholly in the rest. */
  lemma NoneAfterReplacement(repl: string, rest: string, pat: string)
    requires pat != [] && StartsNoneIn(repl, pat)
    requires forall k :: !OccursAt(rest, pat, k)
    ensures forall k :: !OccursAt(repl + rest, pat, k)
  {
    var r := repl + rest;
    forall k ensures !OccursAt(r, pat, k) {
      if 0 <= k && k + |pat| <= |r| {
        if k < |repl| {
          assert !(pat <= repl[k..]) && !(repl[k..] <= pat);
          if k + |pat| <= |repl| {
            assert r[k..k + |pat|] == repl[k..][..|pat|];
          } else {
            assert r[..|repl|] == repl;
            assert r[k..k + |pat|][..|repl| - k] == repl[k..];
          }
        } else {
          assert r[k..k + |pat|] == rest[k - |repl|..k - |repl| + |pat|];
          assert !OccursAt(rest, pat, k - |repl|);
        }
      }
    }
  }

  /** `replace` leaves no occurrence of `pat` behind when `pat` is the text it
      replaces, or when the input holds none, provided no occurrence can begin
      inside the replacement and no occurrence can be completed by one. */
  lemma {:induction false} ReplaceLeavesNone(s: string, target: string, repl: string, pat: string)
    requires target != [] && repl != [] && pat != []
    requires repl[0] !in pat[1..] && StartsNoneIn(repl, pat)
    requires pat == target || forall k :: !OccursAt(s, pat, k)
    ensures forall k :: !OccursAt(Replace(s, target, repl), pat, k)
    decreases |s|
  {
    if |s| < |target| {
    } else if s[..|target|] == target {
      if pat != target {
        NoneInTail(s, pat, |target|);
      }
      ReplaceLeavesNone(s[|target|..], target, repl, pat);
      NoneAfterReplacement(repl, Replace(s[|target|..], target, repl), pat);
    } else {
      if pat != target {
        NoneInTail(s, pat, 1);
      }
      ReplaceLeavesNone(s[1..], target, repl, pat);
      assert !OccursAt(s, pat, 0);
      NoneAfterCopied(s, target, repl, pat);
    }
  }

  /** When `replace` copies the first character, an occurrence of `pat` there
      would need the copied text to follow it, which it does not. */
  lemma NoneAfterCopied(s: string, target: string, repl: string, pat: string)
    requires s != [] && target != [] && repl != [] && pat != []
    requires repl[0] !in pat[1..]
    requires !OccursAt(s, pat, 0)
    requires forall k :: !OccursAt(Replace(s[1..], target, repl), pat, k)
    ensures forall k :: !OccursAt([s[0]] + Replace(s[1..], target, repl), pat, k)
  {
    var rest := Replace(s[1..], target, repl);
    var r := [s[0]] + rest;
    forall k ensures !OccursAt(r, pat, k) {
      if 0 <= k && k + |pat| <= |r| {
        if k == 0 {
          if forall i :: 0 <= i < |pat| - 1 ==> rest[i] != repl[0] {
            ReplaceCopiesPrefix(s[1..], target, repl, |pat| - 1);
            assert r[..|pat|] == [s[0]] + s[1..][..|pat| - 1] == s[..|pat|];
          } else {
            var i :| 0 <= i < |pat| - 1 && rest[i] == repl[0];
            assert r[..|pat|][i + 1] == repl[0] != pat[1..][i];
          }
        } else {
          assert r[k..k + |pat|] == rest[k - 1..k - 1 + |pat|];
          assert !OccursAt(rest, pat, k - 1);
        }
      }
    }
  }

  /** `pat` occurs nowhere in text that lacks one of its characters. */
  lemma AbsentWithoutChar(s: string, pat: string, i: nat)
    requires i < |pat| && pat[i] !in s
    ensures forall k :: !OccursAt(s, pat, k)
  {
    forall k ensures !OccursAt(s, pat, k) {
      if 0 <= k && k + |pat| <= |s| {
        assert s[k..k + |pat|][i] == s[k + i];
      }
    }
  }

  /** A leading text without the first character of `target` is copied as it is. */
  lemma {:induction false} ReplaceSkips(u: string, rest: string, target: string, repl: string)
    requires target != [] && target[0] !in u
    ensures Replace(u + rest, target, repl) == u + Replace(rest, target, repl)
    decreases |u|
  {
    var s := u + rest;
    if u == [] {
      assert s == rest;
    } else if |s| < |target| {
      assert Replace(rest, target, repl) == rest;
    } else {
      assert s[..|target|][0] == u[0] != target[0];
      assert s[1..] == u[1..] + rest;
      ReplaceSkips(u[1..], rest, target, repl);
      assert Replace(s, target, repl) == [u[0]] + (u[1..] + Replace(rest, target, repl));
      assert u == [u[0]] + u[1..];
    }
  }

  /** The replacement keeps a non-whitespace last character, provided the replacement
      text itself ends in non-whitespace or the replaced text ends in whitespace. */
  lemma {:induction false} ReplaceKeepsLastNonSpace(s: string, target: string, repl: string)
    requires target != [] && repl != []
    requires IsSpace(target[|target| - 1]) || !IsSpace(repl[|repl| - 1])
    requires s != [] && !IsSpace(s[|s| - 1])
    ensures var r := Replace(s, target, repl); r != [] && !IsSpace(r[|r| - 1])
    decreases |s|
  {
    if |s| < |target| {
    } else if s[..|target|] == target {
      var rest := s[|target|..];
      if rest == [] {
        assert s == target;
      } else {
        assert rest[|rest| - 1] == s[|s| - 1];
        ReplaceKeepsLastNonSpace(rest, target, repl);
      }
    } else {
      var rest := s[1..];
      if rest != [] {
        assert rest[|rest| - 1] == s[|s| - 1];
        ReplaceKeepsLastNonSpace(rest, target, repl);
      }
    }
  }

  /** Replacing one character by another changes exactly the positions that
      hold it. */
  lemma {:induction false} ReplaceCharPointwise(s: string, c: char, d: char)
    ensures var r := Replace(s, [c], [d]);
      |r| == |s| && forall i :: 0 <= i < |s| ==> r[i] == if s[i] == c then d else s[i]
    decreases |s|
  {
    if |s| >= 1 {
      ReplaceCharPointwise(s[1..], c, d);
      var rest := Replace(s[1..], [c], [d]);
      var r := Replace(s, [c], [d]);
      assert r == (if s[0] == c then [d] else [s[0]]) + rest by {
        assert (s[..1] == [c]) == (s[0] == c);
      }
      forall i | 0 <= i < |s| ensures r[i] == if s[i] == c then d else s[i] {
        if i > 0 {
          assert r[i] == rest[i - 1] && s[i] == s[1..][i - 1];
        }
      }
    }
  }

  /** str.rfind(c): the last position of `c` in `s`, or -1. */
  function LastIndexOf(s: string, c: char): (r: int)
    ensures -1 <= r < |s|
    ensures r == -1 <==> c !in s
    ensures r != -1 ==> s[r] == c && forall k :: r < k < |s| ==> s[k] != c
    decreases |s|
  {
    if s == [] then -1
    else if s[|s| - 1] == c then |s| - 1
    else
      var r := LastIndexOf(s[..|s| - 1], c);
      assert c in s <==> c in s[..|s| - 1] by {
        assert s == s[..|s| - 1] + [s[|s| - 1]];
      }
      r
  }

  /** str.upper() on one character; only the ASCII letters a-z are mapped. */
  function Upper(c: char): char {
    if 'a' <= c <= 'z' then (c as int - 32) as char else c
  }

  /** str.upper(), character by character. */
  function UpperAll(s: string): string {
    seq(|s|, i requires 0 <= i < |s| => Upper(s[i]))
  }
}
