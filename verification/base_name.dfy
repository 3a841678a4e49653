/** `getCommonBaseName` (src/app/page.tsx:32-53): the stem used to name the
    downloaded files, taken from the longest common prefix of the uploaded
    file names after removing `.ris`, then stripped of a trailing version
    marker, a trailing number and trailing dashes or underscores. */
module BaseName {
  import opened RisText

  /** The name used when there is nothing better. */
  const DefaultName: string := "output"

  const RisExtension: string := ".ris"

  /** `name.replace(/\.ris$/, '')`: the extension is removed only at the very end. */
  function StripExtension(name: string): (r: string)
    ensures r + (if EndsWith(name, RisExtension) then RisExtension else []) == name
  {
    if EndsWith(name, RisExtension) then name[..|name| - |RisExtension|] else name
  }

  function StripExtensions(fileNames: seq<string>): (names: seq<string>)
    ensures |names| == |fileNames|
    ensures forall i | 0 <= i < |names| :: names[i] == StripExtension(fileNames[i])
  {
    seq(|fileNames|, i requires 0 <= i < |fileNames| => StripExtension(fileNames[i]))
  }

  // ---------------------------------------------------------------------------
  // Longest common prefix
  // ---------------------------------------------------------------------------

  predicate IsCommonPrefix(names: seq<string>, q: string) {
    forall j | 0 <= j < |names| :: StartsWith(names[j], q)
  }

  lemma PrefixTransitive(a: string, b: string, c: string)
    requires StartsWith(a, b) && StartsWith(b, c)
    ensures StartsWith(a, c)
  {
    assert a[..|c|] == a[..|b|][..|c|];
  }

  /** Two prefixes of the same string: the shorter is a prefix of the longer. */
  lemma PrefixesNest(a: string, b: string, c: string)
    requires StartsWith(a, b) && StartsWith(a, c) && |c| <= |b|
    ensures StartsWith(b, c)
  {
    assert b[..|c|] == a[..|b|][..|c|];
  }

  /** The inner `while` loop: `cp` loses its last character until `name`
      starts with it (`indexOf(cp) === 0`), or until it is empty.  What is
      left is the longest common prefix of `cp` and `name`. */
  function Shrink(cp: string, name: string): (r: string)
    ensures StartsWith(cp, r) && StartsWith(name, r)
    ensures forall q | StartsWith(cp, q) && StartsWith(name, q) :: |q| <= |r|
    decreases |cp|
  {
    if StartsWith(name, cp) then cp
    else
      var shorter := cp[..|cp| - 1];
      forall q | StartsWith(cp, q) && StartsWith(name, q) ensures StartsWith(shorter, q) {
        PrefixesNest(cp, shorter, q);
      }
      if shorter == [] then []
      else
        var r := Shrink(shorter, name);
        PrefixTransitive(cp, shorter, r);
        r
  }

  /** The outer `for` loop from index `i` on, `cp` being the prefix so far. */
  function PrefixFrom(names: seq<string>, cp: string, i: nat): (r: string)
    requires i <= |names|
    ensures StartsWith(cp, r) && IsCommonPrefix(names[i..], r)
    ensures forall q | StartsWith(cp, q) && IsCommonPrefix(names[i..], q) :: |q| <= |r|
    decreases |names| - i
  {
    if i == |names| then cp
    else
      var next := Shrink(cp, names[i]);
      var r := PrefixFrom(names, next, i + 1);
      PrefixTransitive(cp, next, r);
      PrefixTransitive(names[i], next, r);
      CommonPrefixSplit(names, i, r);
      forall q | StartsWith(cp, q) && IsCommonPrefix(names[i..], q) ensures |q| <= |r| {
        CommonPrefixSplit(names, i, q);
        PrefixesNest(cp, next, q);
      }
      r
  }

  lemma CommonPrefixSplit(names: seq<string>, i: nat, q: string)
    requires i < |names|
    ensures IsCommonPrefix(names[i..], q) <==> StartsWith(names[i], q) && IsCommonPrefix(names[i + 1..], q)
  {
    assert names[i..] == [names[i]] + names[i + 1..];
  }

  /** The common-prefix loop over all names, starting from the first: the
      longest string every name starts with. */
  function CommonPrefix(names: seq<string>): (r: string)
    requires |names| > 0
    ensures IsCommonPrefix(names, r)
    ensures forall q | IsCommonPrefix(names, q) :: |q| <= |r|
  {
    var r := PrefixFrom(names, names[0], 1);
    assert names[0..] == names;
    CommonPrefixSplit(names, 0, r);
    forall q | IsCommonPrefix(names, q) ensures |q| <= |r| {
      CommonPrefixSplit(names, 0, q);
    }
    r
  }

  /** The longest common prefix is the only common prefix of its length. */
  lemma CommonPrefixUnique(names: seq<string>, q: string)
    requires |names| > 0 && IsCommonPrefix(names, q)
    requires forall q' | IsCommonPrefix(names, q') :: |q'| <= |q|
    ensures CommonPrefix(names) == q
  {
    var r := CommonPrefix(names);
    PrefixesNest(names[0], q, r);
    PrefixesNest(names[0], r, q);
  }

  // ---------------------------------------------------------------------------
  // Clean-up of the prefix: three `replace` calls anchored at the end
  // ---------------------------------------------------------------------------

  /** `\d`: an ASCII digit. */
  predicate IsDigit(c: char) {
    '0' <= c <= '9'
  }

  predicate IsDashOrUnderscore(c: char) {
    c == '-' || c == '_'
  }

  predicate IsVersionLetter(c: char) {
    c == 'v' || c == 'V'
  }

  /** `\d+$` matches from position `j`. */
  predicate DigitsFrom(s: string, j: nat) {
    j < |s| && forall i | j <= i < |s| :: IsDigit(s[i])
  }

  /** `[-_]?[vV]\d+$` matches from position `k`. */
  predicate VersionMatchAt(s: string, k: nat) {
    k < |s| &&
    ( || (IsVersionLetter(s[k]) && DigitsFrom(s, k + 1))
      || (IsDashOrUnderscore(s[k]) && k + 1 < |s| && IsVersionLetter(s[k + 1]) && DigitsFrom(s, k + 2)))
  }

  /** `[-_]\d+$` matches from position `k`. */
  predicate NumberMatchAt(s: string, k: nat) {
    k < |s| && IsDashOrUnderscore(s[k]) && DigitsFrom(s, k + 1)
  }

  /** `[-_]+$` matches from position `k`. */
  predicate DashesMatchAt(s: string, k: nat) {
    k < |s| && forall i | k <= i < |s| :: IsDashOrUnderscore(s[i])
  }

  /** The length of the longest run of `f`-characters ending the string. */
  function TrailingRun(s: string, f: char -> bool): (n: nat)
    ensures n <= |s|
    ensures forall i | |s| - n <= i < |s| :: f(s[i])
    ensures n == |s| || !f(s[|s| - n - 1])
  {
    if |s| == 0 || !f(s[|s| - 1]) then 0
    else
      var n := TrailingRun(s[..|s| - 1], f);
      assert forall i | |s| - 1 - n <= i < |s| - 1 :: s[i] == s[..|s| - 1][i];
      n + 1
  }

  /** A run of `f`-characters reaching the end and preceded by something else
      starts where the trailing run starts. */
  lemma RunStart(s: string, f: char -> bool, j: nat)
    requires 0 < j < |s| && !f(s[j - 1])
    requires forall i | j <= i < |s| :: f(s[i])
    ensures j == |s| - TrailingRun(s, f)
  {
  }

  /** `s.replace(/[-_]?[vV]\d+$/, '')`: the leftmost match, which is the
      longest suffix the pattern matches, is removed. */
  function StripVersion(s: string): (r: string)
    ensures StartsWith(s, r)
    ensures r == s || VersionMatchAt(s, |r|)
    ensures forall k | 0 <= k <= |s| && VersionMatchAt(s, k) :: |r| <= k
  {
    var p := |s| - TrailingRun(s, IsDigit);
    forall k | 0 <= k <= |s| && VersionMatchAt(s, k) ensures k == p - 1 || k == p - 2 {
      if IsVersionLetter(s[k]) && DigitsFrom(s, k + 1) {
        RunStart(s, IsDigit, k + 1);
      } else {
        RunStart(s, IsDigit, k + 2);
      }
    }
    if p == |s| || p == 0 || !IsVersionLetter(s[p - 1]) then s
    else if p >= 2 && IsDashOrUnderscore(s[p - 2]) then s[..p - 2]
    else s[..p - 1]
  }

  /** `s.replace(/[-_]\d+$/, '')`. */
  function StripNumber(s: string): (r: string)
    ensures StartsWith(s, r)
    ensures r == s || NumberMatchAt(s, |r|)
    ensures forall k | 0 <= k <= |s| && NumberMatchAt(s, k) :: |r| <= k
  {
    var p := |s| - TrailingRun(s, IsDigit);
    forall k | 0 <= k <= |s| && NumberMatchAt(s, k) ensures k == p - 1 {
      RunStart(s, IsDigit, k + 1);
    }
    if p == |s| || p == 0 || !IsDashOrUnderscore(s[p - 1]) then s
    else s[..p - 1]
  }

  /** `s.replace(/[-_]+$/, '')`. */
  function StripDashes(s: string): (r: string)
    ensures StartsWith(s, r)
    ensures r == s || DashesMatchAt(s, |r|)
    ensures forall k | 0 <= k <= |s| && DashesMatchAt(s, k) :: |r| <= k
  {
    s[..|s| - TrailingRun(s, IsDashOrUnderscore)]
  }

  /** The three clean-up steps in order; the result is a prefix of the input. */
  function CleanUp(s: string): (r: string)
    ensures StartsWith(s, r)
  {
    var v := StripVersion(s);
    var n := StripNumber(v);
    PrefixTransitive(s, v, n);
    var r := StripDashes(n);
    PrefixTransitive(s, n, r);
    r
  }

  /** `getCommonBaseName`: never empty; `output` for no files; otherwise the
      cleaned longest common prefix, which every name without `.ris` starts
      with; when cleaning leaves nothing, the first name without `.ris`, and
      when that is empty too, `output` (`commonPrefix || names[0] || 'output'`). */
  function GetCommonBaseName(fileNames: seq<string>): (r: string)
    ensures |r| > 0
    ensures |fileNames| == 0 ==> r == DefaultName
    ensures |fileNames| > 0 ==>
      var names := StripExtensions(fileNames);
      var cleaned := CleanUp(CommonPrefix(names));
      && (cleaned != [] ==> r == cleaned && IsCommonPrefix(names, r))
      && (cleaned == [] && names[0] != [] ==> r == names[0])
      && (cleaned == [] && names[0] == [] ==> r == DefaultName)
  {
    if |fileNames| == 0 then DefaultName
    else
      var names := StripExtensions(fileNames);
      var cleaned := CleanUp(CommonPrefix(names));
      if cleaned != [] then
        forall j | 0 <= j < |names| ensures StartsWith(names[j], cleaned) {
          PrefixTransitive(names[j], CommonPrefix(names), cleaned);
        }
        cleaned
      else if names[0] != [] then names[0]
      else DefaultName
  }

  /** An ending that is not a digit, dash or underscore survives clean-up. */
  lemma CleanUpKeepsPlainEnding(s: string)
    requires |s| > 0 && !IsDigit(s[|s| - 1]) && !IsDashOrUnderscore(s[|s| - 1])
    ensures CleanUp(s) == s
  {
    assert StripVersion(s) == s;
    assert StripNumber(s) == s;
  }

  /** Trailing dashes and underscores after a plain ending are removed. */
  lemma CleanUpDropsDashes(s: string, d: string)
    requires |s| > 0 && !IsDigit(s[|s| - 1]) && !IsDashOrUnderscore(s[|s| - 1])
    requires |d| > 0 && forall i | 0 <= i < |d| :: IsDashOrUnderscore(d[i])
    ensures CleanUp(s + d) == s
  {
    var x := s + d;
    assert x[|x| - 1] == d[|d| - 1];
    assert StripVersion(x) == x;
    assert StripNumber(x) == x;
    assert DashesMatchAt(x, |s|);
    assert x[..|s|] == s;
  }

  /** A version marker `_v` and digits after a plain ending are removed. */
  lemma CleanUpDropsVersion(s: string, digits: string)
    requires |s| > 0 && !IsDigit(s[|s| - 1]) && !IsDashOrUnderscore(s[|s| - 1])
    requires |digits| > 0 && forall i | 0 <= i < |digits| :: IsDigit(digits[i])
    ensures CleanUp(s + "_v" + digits) == s
  {
    var x := s + "_v" + digits;
    assert VersionMatchAt(x, |s|) by {
      assert x[|s|] == '_' && x[|s| + 1] == 'v';
      assert forall i | |s| + 2 <= i < |x| :: x[i] == digits[i - |s| - 2];
    }
    var v := StripVersion(x);
    assert |v| == |s|;
    assert v == s by {
      assert v == x[..|v|];
      assert x[..|s|] == s;
    }
    CleanUpKeepsPlainEnding(s);
  }

  lemma StripExtensionOf(n: string)
    ensures StripExtension(n + RisExtension) == n
  {
    var f := n + RisExtension;
    assert f[|f| - |RisExtension|..] == RisExtension;
    assert f[..|n|] == n;
  }

  /** Two names that differ only in their last character share everything before it. */
  lemma CommonPrefixOfPair(q: string, x: char, y: char)
    requires x != y
    ensures CommonPrefix([q + [x], q + [y]]) == q
  {
    var names := [q + [x], q + [y]];
    assert StartsWith(names[0], q) && StartsWith(names[1], q);
    assert names[0][|q|] != names[1][|q|];
    forall q' | IsCommonPrefix(names, q') ensures |q'| <= |q| {
      assert StartsWith(names[0], q') && StartsWith(names[1], q');
    }
    CommonPrefixUnique(names, q);
  }

  lemma CommonPrefixOfOne(n: string)
    ensures CommonPrefix([n]) == n
  {
    assert StartsWith([n][0], n);
    forall q' | IsCommonPrefix([n], q') ensures |q'| <= |n| {
      assert StartsWith([n][0], q');
    }
    CommonPrefixUnique([n], n);
  }

  /** Two files whose names without `.ris` differ only in the last
      character are named after their shared part, cleaned up. */
  lemma PairBaseName(q: string, x: char, y: char)
    requires x != y && CleanUp(q) != []
    ensures GetCommonBaseName([q + [x] + RisExtension, q + [y] + RisExtension]) == CleanUp(q)
  {
    var files := [q + [x] + RisExtension, q + [y] + RisExtension];
    var names := StripExtensions(files);
    assert names == [q + [x], q + [y]] by {
      StripExtensionOf(q + [x]);
      StripExtensionOf(q + [y]);
    }
    CommonPrefixOfPair(q, x, y);
  }

  /** One file is named after itself, cleaned up. */
  lemma SingleBaseName(n: string)
    requires CleanUp(n) != []
    ensures GetCommonBaseName([n + RisExtension]) == CleanUp(n)
  {
    var files := [n + RisExtension];
    assert StripExtensions(files) == [n] by {
      StripExtensionOf(n);
    }
    CommonPrefixOfOne(n);
  }

  /** A version suffix is removed only when all files agree on the whole of
      it: `scopus_v1.ris` and `scopus_v2.ris` give `scopus_v`, because their
      common prefix no longer ends in a digit. */
  lemma DifferentVersionsKeepLetter()
    ensures GetCommonBaseName(["scopus_v" + "1" + RisExtension, "scopus_v" + "2" + RisExtension]) == "scopus_v"
  {
    CleanUpKeepsPlainEnding("scopus_v");
    PairBaseName("scopus_v", '1', '2');
  }

  /** A single file keeps its name without the version marker. */
  lemma SingleFileDropsVersion()
    ensures GetCommonBaseName(["scopus" + "_v" + "1" + RisExtension]) == "scopus"
  {
    CleanUpDropsVersion("scopus", "1");
    SingleBaseName("scopus" + "_v" + "1");
  }

  /** Numbered parts: `refs-1.ris` and `refs-2.ris` give `refs`, the dash left
      over from the common prefix being removed by the last step. */
  lemma NumberedPartsDropDash()
    ensures GetCommonBaseName(["refs" + "-" + "1" + RisExtension, "refs" + "-" + "2" + RisExtension]) == "refs"
  {
    CleanUpDropsDashes("refs", "-");
    PairBaseName("refs" + "-", '1', '2');
  }

  /** Names with nothing in common fall back to the first name: for
      example `a.ris` and `b.ris` give `a`, not `output`. */
  lemma NothingInCommonGivesFirstName(x: char, y: char)
    requires x != y
    ensures GetCommonBaseName([[x] + RisExtension, [y] + RisExtension]) == [x]
  {
    var q: string := [];
    assert q + [x] == [x] && q + [y] == [y];
    var files := [[x] + RisExtension, [y] + RisExtension];
    StripExtensionOf([x]);
    StripExtensionOf([y]);
    assert StripExtensions(files) == [q + [x], q + [y]];
    CommonPrefixOfPair(q, x, y);
    assert CleanUp(q) == [];
  }
}
