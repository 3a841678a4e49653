/** The record splitter: `text.split(/\r?\n\r?\n/)` on one file's text
    (src/app/page.tsx:173).  The regular expression matches exactly one
    separator, leftmost first; it does not swallow a run of blank lines. */
module RecordSplitter {
  import opened RisText

  /** The four strings `\r?\n\r?\n` can match.  No two of them start at the
      same position of a text, so greediness never has a choice to make. */
  predicate IsSeparator(x: string) {
    x == "\n\n" || x == "\r\n\n" || x == "\n\r\n" || x == "\r\n\r\n"
  }

  /** Some separator occurs in `s` starting at position `k`. */
  predicate SeparatorAt(s: string, k: nat)
    requires k <= |s|
  {
    || StartsWith(s[k..], "\n\n") || StartsWith(s[k..], "\r\n\n")
    || StartsWith(s[k..], "\n\r\n") || StartsWith(s[k..], "\r\n\r\n")
  }

  /** The first separator of `s` starts at position `a`. */
  predicate FirstSeparatorAt(s: string, a: nat) {
    a <= |s| && SeparatorAt(s, a) && forall k | 0 <= k < a :: !SeparatorAt(s, k)
  }

  /** No separator occurs anywhere in `s`. */
  predicate NoSeparator(s: string) {
    forall k | 0 <= k <= |s| :: !SeparatorAt(s, k)
  }

  /** The text contains a blank line: `\n\n` or `\n\r\n` somewhere in it. */
  predicate HasBlankLine(s: string) {
    exists k | 0 <= k < |s| :: BlankLineAt(s, k)
  }

  /** A line break at `k` is followed by an empty line. */
  predicate BlankLineAt(s: string, k: nat)
    requires k <= |s|
  {
    StartsWith(s[k..], "\n\n") || StartsWith(s[k..], "\n\r\n")
  }

  /** The pattern `\r?\n\r?\n` tried at position `q`: the end of the match
      when one of the four separators starts there.  Which alternative is
      tried first does not matter, since at most one can start at a given
      position (`SeparatorAtMostOne`). */
  function SeparatorEnd(s: string, q: nat): (r: Option<nat>)
    requires q <= |s|
    ensures r.Some? <==> SeparatorAt(s, q)
    ensures r.Some? ==> q + 2 <= r.value <= |s| && IsSeparator(s[q..r.value])
  {
    if StartsWith(s[q..], "\n\n") then
      assert s[q..q + 2] == s[q..][..2];
      Some(q + 2)
    else if StartsWith(s[q..], "\r\n\n") then
      assert s[q..q + 3] == s[q..][..3];
      Some(q + 3)
    else if StartsWith(s[q..], "\n\r\n") then
      assert s[q..q + 3] == s[q..][..3];
      Some(q + 3)
    else if StartsWith(s[q..], "\r\n\r\n") then
      assert s[q..q + 4] == s[q..][..4];
      Some(q + 4)
    else None
  }

  /** No separator is a proper prefix of another, so the text at a position
      determines the separator found there: greediness never has a choice. */
  lemma SeparatorAtMostOne(t: string, x: string, y: string)
    requires IsSeparator(x) && IsSeparator(y) && StartsWith(t, x) && StartsWith(t, y)
    ensures x == y
  {
    assert x[0] == t[0] == y[0] by {
      assert t[..|x|][0] == t[0] && t[..|y|][0] == t[0];
    }
    assert x[1] == t[1] == y[1] by {
      assert t[..|x|][1] == t[1] && t[..|y|][1] == t[1];
    }
    if |x| > 2 && |y| > 2 {
      assert t[..|x|][2] == t[2] && t[..|y|][2] == t[2];
    }
  }

  /** The leftmost match at or after `q` (the scan `String.prototype.split`
      performs): the start and end of the separator found. */
  function FindSeparator(s: string, q: nat): (r: Option<(nat, nat)>)
    requires q <= |s|
    ensures r.Some? ==>
      && q <= r.value.0 && r.value.0 + 2 <= r.value.1 <= |s|
      && IsSeparator(s[r.value.0..r.value.1])
      && SeparatorAt(s, r.value.0)
      && forall k | q <= k < r.value.0 :: !SeparatorAt(s, k)
    ensures r.None? ==> forall k | q <= k <= |s| :: !SeparatorAt(s, k)
    decreases |s| - q
  {
    match SeparatorEnd(s, q)
    case Some(e) => Some((q, e))
    case None => if q == |s| then None else FindSeparator(s, q + 1)
  }

  /** The pieces interleaved with the separators between them. */
  function Interleave(pieces: seq<string>, seps: seq<string>): string
    requires |pieces| == |seps| + 1
  {
    if |seps| == 0 then pieces[0]
    else pieces[0] + seps[0] + Interleave(pieces[1..], seps[1..])
  }

  /** `text.split(/\r?\n\r?\n/)`, keeping the matched separators alongside
      the pieces.  Every separator is the leftmost one after the previous
      separator and the last piece holds none; this decomposition is the
      only one with those two properties (`SplitUnique`). */
  function SplitWithSeparators(s: string): (r: (seq<string>, seq<string>))
    ensures |r.0| == |r.1| + 1
    ensures Interleave(r.0, r.1) == s
    ensures forall i | 0 <= i < |r.1| :: IsSeparator(r.1[i])
    ensures |r.1| == 0 ==> NoSeparator(s)
    ensures |r.1| > 0 ==> FirstSeparatorAt(s, |r.0[0]|)
    ensures forall i | 0 <= i < |r.0| :: !HasBlankLine(r.0[i])
    ensures forall i | 0 <= i < |r.1| :: FirstSeparatorAt(r.0[i] + r.1[i], |r.0[i]|)
    decreases |s|
  {
    var found := FindSeparator(s, 0);
    if found.None? then
      NoSeparatorNoBlankLine(s, |s|);
      assert s[..|s|] == s;
      ([s], [])
    else
      var (a, e) := found.value;
      var rest := SplitWithSeparators(s[e..]);
      SplitStep(s, a, e, rest.0, rest.1);
      ([s[..a]] + rest.0, [s[a..e]] + rest.1)
  }

  /** One step of the split: the piece before the leftmost separator, the
      separator, and the split of the remaining text. */
  lemma SplitStep(s: string, a: nat, e: nat, ps: seq<string>, ss: seq<string>)
    requires a + 2 <= e <= |s| && FirstSeparatorAt(s, a) && IsSeparator(s[a..e])
    requires |ps| == |ss| + 1 && Interleave(ps, ss) == s[e..]
    requires forall i | 0 <= i < |ss| :: IsSeparator(ss[i])
    requires forall i | 0 <= i < |ps| :: !HasBlankLine(ps[i])
    ensures Interleave([s[..a]] + ps, [s[a..e]] + ss) == s
    ensures forall i | 0 <= i < |ss| + 1 :: IsSeparator(([s[a..e]] + ss)[i])
    ensures forall i | 0 <= i < |ps| + 1 :: !HasBlankLine(([s[..a]] + ps)[i])
    ensures (forall i | 0 <= i < |ss| :: FirstSeparatorAt(ps[i] + ss[i], |ps[i]|)) ==>
      forall i | 0 <= i < |ss| + 1 :: FirstSeparatorAt(([s[..a]] + ps)[i] + ([s[a..e]] + ss)[i], |([s[..a]] + ps)[i]|)
  {
    InterleaveStep(s, a, e, ps, ss);
    SeparatorsCons(s[a..e], ss);
    NoSeparatorNoBlankLine(s, a);
    PiecesCons(s[..a], ps);
    FirstSeparatorOfStep(s, a, e);
    if forall i | 0 <= i < |ss| :: FirstSeparatorAt(ps[i] + ss[i], |ps[i]|) {
      LeftmostCons(s[..a], s[a..e], ps, ss);
    }
  }

  /** The separator found first in `s` is also the first one of the text cut
      off right after it. */
  lemma FirstSeparatorOfStep(s: string, a: nat, e: nat)
    requires a + 2 <= e <= |s| && FirstSeparatorAt(s, a) && IsSeparator(s[a..e])
    ensures FirstSeparatorAt(s[..a] + s[a..e], a)
  {
    var x := s[..a] + s[a..e];
    assert x == s[..e];
    forall k | 0 <= k < a ensures !SeparatorAt(x, k) {
      SeparatorAtOfPrefix(s, e, k);
    }
    assert x[a..] == s[a..e];
    SeparatorStartsItself(s[a..e]);
  }

  lemma SeparatorStartsItself(x: string)
    requires IsSeparator(x)
    ensures SeparatorAt(x, 0)
  {
    assert x[0..] == x && x[..|x|] == x;
  }

  /** A separator of a prefix of `s` is a separator of `s`. */
  lemma SeparatorAtOfPrefix(s: string, e: nat, k: nat)
    requires k <= e <= |s|
    ensures SeparatorAt(s[..e], k) ==> SeparatorAt(s, k)
  {
    assert s[..e][k..] == s[k..e];
    StartsWithOfPrefix(s, e, k, "\n\n");
    StartsWithOfPrefix(s, e, k, "\r\n\n");
    StartsWithOfPrefix(s, e, k, "\n\r\n");
    StartsWithOfPrefix(s, e, k, "\r\n\r\n");
  }

  lemma StartsWithOfPrefix(s: string, e: nat, k: nat, p: string)
    requires k <= e <= |s|
    ensures StartsWith(s[k..e], p) ==> StartsWith(s[k..], p)
  {
    if |p| <= e - k {
      assert s[k..][..|p|] == s[k..e][..|p|];
    }
  }

  /** Prepending a piece and a separator that is leftmost in it keeps every
      separator leftmost in its piece. */
  lemma LeftmostCons(x: string, y: string, ps: seq<string>, ss: seq<string>)
    requires |ps| == |ss| + 1 && FirstSeparatorAt(x + y, |x|)
    requires forall i | 0 <= i < |ss| :: FirstSeparatorAt(ps[i] + ss[i], |ps[i]|)
    ensures forall i | 0 <= i < |ss| + 1 :: FirstSeparatorAt(([x] + ps)[i] + ([y] + ss)[i], |([x] + ps)[i]|)
  {
    forall i | 0 < i < |ss| + 1
      ensures FirstSeparatorAt(([x] + ps)[i] + ([y] + ss)[i], |([x] + ps)[i]|)
    {
      assert ([x] + ps)[i] == ps[i - 1] && ([y] + ss)[i] == ss[i - 1];
    }
  }

  /** Cutting off the first piece and separator of an interleaving. */
  lemma InterleaveStep(s: string, a: nat, e: nat, ps: seq<string>, ss: seq<string>)
    requires a <= e <= |s|
    requires |ps| == |ss| + 1 && Interleave(ps, ss) == s[e..]
    ensures Interleave([s[..a]] + ps, [s[a..e]] + ss) == s
  {
    InterleaveCons(s[..a], s[a..e], ps, ss);
    SliceParts(s, a, e);
  }

  /** An interleaving that starts with one piece and one separator. */
  lemma InterleaveCons(x: string, y: string, ps: seq<string>, ss: seq<string>)
    requires |ps| == |ss| + 1
    ensures Interleave([x] + ps, [y] + ss) == x + y + Interleave(ps, ss)
  {
    assert ([x] + ps)[1..] == ps && ([y] + ss)[1..] == ss;
  }

  /** A text is its three consecutive slices. */
  lemma SliceParts(s: string, a: nat, e: nat)
    requires a <= e <= |s|
    ensures s[..a] + s[a..e] + s[e..] == s
  {
  }

  /** Prepending a separator keeps every element a separator. */
  lemma SeparatorsCons(x: string, ss: seq<string>)
    requires IsSeparator(x) && forall i | 0 <= i < |ss| :: IsSeparator(ss[i])
    ensures forall i | 0 <= i < |ss| + 1 :: IsSeparator(([x] + ss)[i])
  {
    forall i | 0 < i < |ss| + 1 ensures IsSeparator(([x] + ss)[i]) {
      assert ([x] + ss)[i] == ss[i - 1];
    }
  }

  /** Prepending a piece without blank lines keeps every piece free of them. */
  lemma PiecesCons(x: string, ps: seq<string>)
    requires !HasBlankLine(x) && forall i | 0 <= i < |ps| :: !HasBlankLine(ps[i])
    ensures forall i | 0 <= i < |ps| + 1 :: !HasBlankLine(([x] + ps)[i])
  {
    forall i | 0 < i < |ps| + 1 ensures !HasBlankLine(([x] + ps)[i]) {
      assert ([x] + ps)[i] == ps[i - 1];
    }
  }

  /** The pieces of `text.split(/\r?\n\r?\n/)`, in order. */
  function Split(s: string): (r: seq<string>)
    ensures |r| > 0
    ensures forall i | 0 <= i < |r| :: !HasBlankLine(r[i])
  {
    SplitWithSeparators(s).0
  }

  /** A prefix of `s` before the first separator contains no blank line. */
  lemma NoSeparatorNoBlankLine(s: string, a: nat)
    requires a <= |s|
    requires forall k | 0 <= k < a :: !SeparatorAt(s, k)
    ensures !HasBlankLine(s[..a])
  {
    forall k | 0 <= k < a ensures !BlankLineAt(s[..a], k) {
      BlankLineInPrefix(s, a, k);
    }
  }

  /** A blank line inside a prefix of `s` is a separator of `s`. */
  lemma BlankLineInPrefix(s: string, a: nat, k: nat)
    requires k < a <= |s|
    ensures BlankLineAt(s[..a], k) ==> SeparatorAt(s, k)
  {
    assert s[..a][k..] == s[k..a];
    if StartsWith(s[k..a], "\n\n") {
      assert s[k..][..2] == s[k..a][..2];
    } else if StartsWith(s[k..a], "\n\r\n") {
      assert s[k..][..3] == s[k..a][..3];
    }
  }

  /** Every character of a separator is a line terminator. */
  predicate AllTerminators(p: string) {
    forall i | 0 <= i < |p| :: IsLineTerminator(p[i])
  }

  /** A match that starts inside `x` stays inside `x` when `x` does not end
      with a line terminator. */
  lemma StartsWithInPrefix(x: string, y: string, k: nat, p: string)
    requires k < |x| && !IsLineTerminator(x[|x| - 1]) && AllTerminators(p)
    ensures StartsWith((x + y)[k..], p) ==> StartsWith(x[k..], p)
  {
    var s := x + y;
    assert s[|x| - 1] == x[|x| - 1];
    assert StartsWith(s[k..], p) ==> forall i | 0 <= i < |p| :: s[k + i] == p[i];
    assert k + |p| <= |x| ==> x[k..][..|p|] == s[k..][..|p|];
  }

  lemma SeparatorAtInPrefix(x: string, y: string, k: nat)
    requires k < |x| && !IsLineTerminator(x[|x| - 1])
    ensures SeparatorAt(x + y, k) ==> SeparatorAt(x, k)
  {
    StartsWithInPrefix(x, y, k, "\n\n");
    StartsWithInPrefix(x, y, k, "\r\n\n");
    StartsWithInPrefix(x, y, k, "\n\r\n");
    StartsWithInPrefix(x, y, k, "\r\n\r\n");
  }

  /** A text without blank lines has no separator either: the separators
      starting with `\r` contain a blank line one position later. */
  lemma {:induction false} NoBlankLineNoSeparator(e: string)
    requires !HasBlankLine(e)
    ensures NoSeparator(e)
  {
    forall k | 0 <= k <= |e| ensures !SeparatorAt(e, k) {
      if k < |e| {
        assert !BlankLineAt(e, k);
        assert k + 3 <= |e| ==> e[k + 1..][..2] == e[k..][..3][1..];
        assert k + 4 <= |e| ==> e[k + 1..][..3] == e[k..][..4][1..];
        assert k + 1 < |e| ==> !BlankLineAt(e, k + 1);
        var next := e[k + 1..];
        assert StartsWith(e[k..], "\r\n\n") ==> StartsWith(next, "\n\n");
        assert StartsWith(e[k..], "\r\n\r\n") ==> StartsWith(next, "\n\r\n");
      }
    }
  }

  /** The scan for a separator passes over positions where none starts. */
  lemma {:induction false} FindSeparatorSkips(s: string, q: nat, a: nat)
    requires q <= a <= |s|
    requires forall k | q <= k < a :: !SeparatorAt(s, k)
    ensures FindSeparator(s, q) == FindSeparator(s, a)
    decreases a - q
  {
    if q < a {
      FindSeparatorSkips(s, q + 1, a);
    }
  }

  /** A text without separators is a single piece. */
  lemma SplitOfSeparatorFree(e: string)
    requires NoSeparator(e)
    ensures Split(e) == [e]
  {
    FindSeparatorSkips(e, 0, |e|);
  }

  /** A separator-free entry that does not end in a line terminator,
      followed by any separator, splits off as exactly that entry.  (An
      entry ending in `\r` or `\n` could lend its last character to the
      separator.) */
  lemma SplitAfterEntry(e: string, sep: string, rest: string)
    requires |e| > 0 && NoSeparator(e) && !IsLineTerminator(e[|e| - 1]) && IsSeparator(sep)
    ensures Split(e + sep + rest) == [e] + Split(rest)
  {
    var s := e + sep + rest;
    FirstSeparatorAfterEntry(e, sep, rest);
    assert s[..|e|] == e;
    assert s[|e| + |sep|..] == rest;
  }

  /** The leftmost separator of `e + sep + rest` is `sep`. */
  lemma FirstSeparatorAfterEntry(e: string, sep: string, rest: string)
    requires |e| > 0 && NoSeparator(e) && !IsLineTerminator(e[|e| - 1]) && IsSeparator(sep)
    ensures FindSeparator(e + sep + rest, 0) == Some((|e|, |e| + |sep|))
  {
    var s := e + sep + rest;
    EntryHasNoSeparator(e, sep + rest);
    assert s == e + (sep + rest);
    FindSeparatorSkips(s, 0, |e|);
    SeparatorAfterEntry(e, sep, rest);
  }

  /** No separator of `x + y` starts inside `x` when `x` has none and does
      not end with a line terminator. */
  lemma EntryHasNoSeparator(x: string, y: string)
    requires |x| > 0 && NoSeparator(x) && !IsLineTerminator(x[|x| - 1])
    ensures forall k | 0 <= k < |x| :: !SeparatorAt(x + y, k)
  {
    forall k | 0 <= k < |x| ensures !SeparatorAt(x + y, k) {
      SeparatorAtInPrefix(x, y, k);
    }
  }

  /** The match tried right after the entry is the separator placed there. */
  lemma SeparatorAfterEntry(e: string, sep: string, rest: string)
    requires IsSeparator(sep)
    ensures SeparatorEnd(e + sep + rest, |e|) == Some(|e| + |sep|)
  {
    var s := e + sep + rest;
    assert s[|e|..][..|sep|] == sep;
    SeparatorEndAt(s, |e|, sep);
  }

  /** Where a separator starts, the match is exactly that separator. */
  lemma SeparatorEndAt(s: string, q: nat, sep: string)
    requires q <= |s| && IsSeparator(sep) && StartsWith(s[q..], sep)
    ensures SeparatorEnd(s, q) == Some(q + |sep|)
  {
    assert SeparatorAt(s, q);
    var end := SeparatorEnd(s, q).value;
    var x := s[q..end];
    assert s[q..][..|x|] == x;
    SeparatorAtMostOne(s[q..], x, sep);
  }

  /** Every separator begins with two line terminators, so a text with no
      two terminators in a row has no separator. */
  lemma NoDoubleTerminatorNoSeparator(s: string)
    requires forall k | 0 <= k < |s| - 1 :: !(IsLineTerminator(s[k]) && IsLineTerminator(s[k + 1]))
    ensures NoSeparator(s)
  {
    forall k | 0 <= k <= |s| ensures !SeparatorAt(s, k) {
      if k + 1 < |s| {
        assert !(IsLineTerminator(s[k]) && IsLineTerminator(s[k + 1]));
        forall n | 2 <= n <= |s| - k ensures s[k..][..n][0] == s[k] && s[k..][..n][1] == s[k + 1] {
        }
      }
    }
  }

  /** The split is the only decomposition of the text into pieces and
      separators in which each separator is the leftmost one in its piece
      followed by it, and the last piece has none. */
  lemma {:induction false} SplitUnique(s: string, ps: seq<string>, ss: seq<string>)
    requires |ps| == |ss| + 1 && Interleave(ps, ss) == s
    requires forall i | 0 <= i < |ss| :: IsSeparator(ss[i])
    requires forall i | 0 <= i < |ss| :: FirstSeparatorAt(ps[i] + ss[i], |ps[i]|)
    requires NoSeparator(ps[|ss|])
    ensures SplitWithSeparators(s) == (ps, ss)
    decreases |ss|
  {
    if |ss| == 0 {
      assert s == ps[0];
      SplitOfSeparatorFree(s);
      assert ps == [s];
    } else {
      var x, y := ps[0], ss[0];
      var rest := Interleave(ps[1..], ss[1..]);
      assert s == x + y + rest;
      DecompositionTail(ps, ss);
      SplitUnique(rest, ps[1..], ss[1..]);
      SplitOfLeftmost(x, y, rest);
      assert [x] + ps[1..] == ps && [y] + ss[1..] == ss;
    }
  }

  /** Dropping the first piece and separator keeps a decomposition of the
      shape `SplitUnique` asks for. */
  lemma DecompositionTail(ps: seq<string>, ss: seq<string>)
    requires |ps| == |ss| + 1 && |ss| > 0
    requires forall i | 0 <= i < |ss| :: IsSeparator(ss[i])
    requires forall i | 0 <= i < |ss| :: FirstSeparatorAt(ps[i] + ss[i], |ps[i]|)
    requires NoSeparator(ps[|ss|])
    ensures forall i | 0 <= i < |ss| - 1 :: IsSeparator(ss[1..][i])
    ensures forall i | 0 <= i < |ss| - 1 :: FirstSeparatorAt(ps[1..][i] + ss[1..][i], |ps[1..][i]|)
    ensures NoSeparator(ps[1..][|ss| - 1])
  {
    forall i | 0 <= i < |ss| - 1 ensures IsSeparator(ss[1..][i]) && FirstSeparatorAt(ps[1..][i] + ss[1..][i], |ps[1..][i]|) {
      assert ps[1..][i] == ps[i + 1] && ss[1..][i] == ss[i + 1];
    }
    assert ps[1..][|ss| - 1] == ps[|ss|];
  }

  /** With `y` leftmost in `x + y`, the split of `x + y + rest` is `x`, `y`
      and the split of `rest`. */
  lemma SplitOfLeftmost(x: string, y: string, rest: string)
    requires IsSeparator(y) && FirstSeparatorAt(x + y, |x|)
    ensures SplitWithSeparators(x + y + rest).0 == [x] + SplitWithSeparators(rest).0
    ensures SplitWithSeparators(x + y + rest).1 == [y] + SplitWithSeparators(rest).1
  {
    var s := x + y + rest;
    LeftmostSeparatorFound(x, y, rest);
    assert s[..|x|] == x && s[|x|..|x| + |y|] == y && s[|x| + |y|..] == rest;
  }

  /** The scan of `x + y + rest` finds `y` when `y` is leftmost in `x + y`. */
  lemma LeftmostSeparatorFound(x: string, y: string, rest: string)
    requires IsSeparator(y) && FirstSeparatorAt(x + y, |x|)
    ensures FindSeparator(x + y + rest, 0) == Some((|x|, |x| + |y|))
  {
    var s := x + y + rest;
    forall k | 0 <= k < |x| ensures !SeparatorAt(s, k) {
      LeftmostExtends(x, y, rest, k);
    }
    FindSeparatorSkips(s, 0, |x|);
    SeparatorAfterEntry(x, y, rest);
  }

  /** A separator leftmost in `x + y` is leftmost in any longer text: a
      separator starting inside `x` could only stick out past `y` if it were
      `\r\n\r\n` and `y` were `\n\n`, which do not fit together. */
  lemma LeftmostExtends(x: string, y: string, rest: string, k: nat)
    requires IsSeparator(y) && FirstSeparatorAt(x + y, |x|) && k < |x|
    ensures !SeparatorAt(x + y + rest, k)
  {
    var s := x + y + rest;
    assert !SeparatorAt(x + y, k);
    assert (x + y + rest)[..|x + y|] == x + y;
    StartsWithOfPrefix(s, |x + y|, k, "\n\n");
    StartsWithOfPrefix(s, |x + y|, k, "\r\n\n");
    StartsWithOfPrefix(s, |x + y|, k, "\n\r\n");
    StartsWithOfPrefix(s, |x + y|, k, "\r\n\r\n");
    assert s[..|x + y|][k..] == s[k..|x + y|];
    if k + 4 > |x + y| && k + 4 <= |s| {
      assert y == "\n\n";
      assert s[k + 2] == y[1];
      assert s[k..][..4][2] == s[k + 2];
    }
  }

  /** A `\r` ending a line before a blank line belongs to the separator,
      not to the piece: `x\n\nA\r\n\nb` splits into `x`, `A` and `b`. */
  lemma CarriageReturnJoinsSeparator()
    ensures Split("x" + "\n\n" + ("A" + "\r\n\n" + "b")) == ["x", "A", "b"]
  {
    NoDoubleTerminatorNoSeparator("x");
    SplitAfterEntry("x", "\n\n", "A" + "\r\n\n" + "b");
    NoDoubleTerminatorNoSeparator("A");
    SplitAfterEntry("A", "\r\n\n", "b");
    NoDoubleTerminatorNoSeparator("b");
    SplitOfSeparatorFree("b");
  }

  /** Three newlines in a row: the first two form the separator and the
      third stays at the front of the next piece. */
  lemma ThreeNewlinesKeepOne()
    ensures Split("a" + "\n\n" + "\nb") == ["a", "\nb"]
  {
    NoDoubleTerminatorNoSeparator("a");
    SplitAfterEntry("a", "\n\n", "\nb");
    NoDoubleTerminatorNoSeparator("\nb");
    SplitOfSeparatorFree("\nb");
  }

  /** Windows line endings separate records the same way: after an entry,
      `\r\n\r\n` splits the text exactly where `\n\n` would. */
  lemma CrLfSeparator(e: string, rest: string)
    requires |e| > 0 && NoSeparator(e) && !IsLineTerminator(e[|e| - 1])
    ensures Split(e + "\r\n\r\n" + rest) == Split(e + "\n\n" + rest)
  {
    SplitAfterEntry(e, "\r\n\r\n", rest);
    SplitAfterEntry(e, "\n\n", rest);
  }
}
