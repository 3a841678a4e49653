/** The title extractor: `entry.match(/^TI  - (.+)$/m)` and the lower-cased
    capture used as the deduplication key (src/app/page.tsx:179-181). */
module TitleExtractor {
  import opened RisText

  /** The RIS title tag with its separator: two spaces, a dash, a space. */
  const TitleTag: string := "TI  - "

  /** `^` in multiline mode: the start of the text or just after a line terminator. */
  predicate IsLineStart(e: string, p: nat)
    requires p <= |e|
  {
    p == 0 || IsLineTerminator(e[p - 1])
  }

  /** `^TI  - (.+)$` can match at position `p`: a line starts there with the
      tag, and at least one character of the same line follows the tag.
      (`.+` then runs to the end of the line, where `$` holds.) */
  predicate TitleLineAt(e: string, p: nat) {
    && p + |TitleTag| < |e|
    && IsLineStart(e, p)
    && StartsWith(e[p..], TitleTag)
    && !IsLineTerminator(e[p + |TitleTag|])
  }

  /** The greedy `.+` (or `.*`) from position `i`: everything up to the next
      line terminator or the end of the text. */
  function LineRest(e: string, i: nat): (r: string)
    requires i <= |e|
    ensures i + |r| <= |e| && r == e[i..i + |r|]
    ensures forall j | 0 <= j < |r| :: !IsLineTerminator(r[j])
    ensures i + |r| == |e| || IsLineTerminator(e[i + |r|])
    decreases |e| - i
  {
    if i == |e| || IsLineTerminator(e[i]) then []
    else [e[i]] + LineRest(e, i + 1)
  }

  /** The leftmost position at or after `p` where the title pattern matches. */
  function FirstTitleLine(e: string, p: nat): (r: Option<nat>)
    requires p <= |e|
    ensures r.Some? ==>
      && p <= r.value <= |e| && TitleLineAt(e, r.value)
      && forall k | p <= k < r.value :: !TitleLineAt(e, k)
    ensures r.None? ==> forall k | p <= k <= |e| :: !TitleLineAt(e, k)
    decreases |e| - p
  {
    if TitleLineAt(e, p) then Some(p)
    else if p == |e| then None
    else FirstTitleLine(e, p + 1)
  }

  /** `titleMatch[1].toLowerCase()`, or `None` when `titleMatch` is null.
      The key is not trimmed. */
  function TitleKey(entry: string): (r: Option<string>)
    ensures r.Some? <==> exists p | 0 <= p <= |entry| :: TitleLineAt(entry, p)
    ensures r.Some? ==> |r.value| > 0 && forall j | 0 <= j < |r.value| :: !IsLineTerminator(r.value[j])
  {
    match FirstTitleLine(entry, 0)
    case None => None
    case Some(p) => Some(Lower(LineRest(entry, p + |TitleTag|)))
  }

  /** The key is the rest of the leftmost title line, lower-cased. */
  lemma TitleKeyOfFirstLine(entry: string, p: nat)
    requires p <= |entry| && TitleLineAt(entry, p) && IsFirstTitleLine(entry, p)
    ensures TitleKey(entry) == Some(Lower(LineRest(entry, p + |TitleTag|)))
  {
    var q := FirstTitleLine(entry, 0).value;
    assert !TitleLineAt(entry, q) || !(q < p);
    assert !TitleLineAt(entry, p) || !(p < q);
  }

  /** No title line starts before `p`. */
  predicate IsFirstTitleLine(e: string, p: nat) {
    forall k | 0 <= k < p :: !TitleLineAt(e, k)
  }

  /** The key of a record whose first title line holds `t`: whatever lines
      come before it (none of them a title line) and after it, the key is
      `t` lower-cased. */
  lemma {:induction false} KeyOfTitleLine(pre: string, t: string, rest: string)
    requires |pre| == 0 || IsLineTerminator(pre[|pre| - 1])
    requires forall k | 0 <= k < |pre| :: !TitleLineAt(pre + TitleTag + t + rest, k)
    requires |t| > 0 && forall j | 0 <= j < |t| :: !IsLineTerminator(t[j])
    requires |rest| == 0 || IsLineTerminator(rest[0])
    ensures TitleKey(pre + TitleTag + t + rest) == Some(Lower(t))
  {
    var e := pre + TitleTag + t + rest;
    TitleLineAfter(pre, t, rest);
    TitleKeyOfFirstLine(e, |pre|);
    LineRestIsLine(e, |pre| + |TitleTag|, |t|);
  }

  /** The text `pre + TitleTag + t + rest` has a title line right after `pre`,
      whose text `t` runs up to `rest`. */
  lemma TitleLineAfter(pre: string, t: string, rest: string)
    requires |pre| == 0 || IsLineTerminator(pre[|pre| - 1])
    requires |t| > 0 && forall j | 0 <= j < |t| :: !IsLineTerminator(t[j])
    requires |rest| == 0 || IsLineTerminator(rest[0])
    ensures var e := pre + TitleTag + t + rest;
      var i := |pre| + |TitleTag|;
      && TitleLineAt(e, |pre|)
      && i + |t| <= |e|
      && (forall j | i <= j < i + |t| :: !IsLineTerminator(e[j]))
      && (i + |t| == |e| || IsLineTerminator(e[i + |t|]))
  {
    var e := pre + TitleTag + t + rest;
    var p := |pre|;
    var i := p + |TitleTag|;
    assert e[p..][..|TitleTag|] == TitleTag;
    assert e[i] == t[0];
    assert p > 0 ==> e[p - 1] == pre[p - 1];
    forall j | i <= j < i + |t| ensures e[j] == t[j - i] { }
    assert i + |t| < |e| ==> e[i + |t|] == rest[0];
  }

  /** The search for a title line passes over positions where none starts. */
  lemma {:induction false} FirstTitleLineSkips(e: string, p: nat, a: nat)
    requires p <= a <= |e|
    requires forall k | p <= k < a :: !TitleLineAt(e, k)
    ensures FirstTitleLine(e, p) == FirstTitleLine(e, a)
    decreases a - p
  {
    if p < a {
      FirstTitleLineSkips(e, p + 1, a);
    }
  }

  /** When the entry's first line is a title line, the key is the rest of
      that line, lower-cased, whatever follows on later lines. */
  lemma KeyOfLeadingTitle(t: string, rest: string)
    requires |t| > 0 && forall j | 0 <= j < |t| :: !IsLineTerminator(t[j])
    requires |rest| == 0 || IsLineTerminator(rest[0])
    ensures TitleKey(TitleTag + t + rest) == Some(Lower(t))
  {
    KeyOfTitleLine([], t, rest);
    assert [] + TitleTag + t + rest == TitleTag + t + rest;
  }

  /** An ordinary record: the type line comes first, the title line later. */
  lemma KeyAfterTypeLine()
    ensures TitleKey("TY  - JOUR\n" + TitleTag + "Sample Paper" + "\nER  -\n") == Some(Lower("Sample Paper"))
  {
    var pre := "TY  - JOUR\n";
    var e := pre + TitleTag + "Sample Paper" + "\nER  -\n";
    forall k | 0 <= k < |pre| ensures !TitleLineAt(e, k) {
      if k == 0 {
        assert e[k..][..|TitleTag|][1] == e[1] == 'Y';
      } else {
        assert e[k - 1] == pre[k - 1];
      }
    }
    KeyOfTitleLine(pre, "Sample Paper", "\nER  -\n");
  }

  /** The rest of a line is determined by where the line ends. */
  lemma {:induction false} LineRestIsLine(e: string, i: nat, n: nat)
    requires i + n <= |e|
    requires forall j | i <= j < i + n :: !IsLineTerminator(e[j])
    requires i + n == |e| || IsLineTerminator(e[i + n])
    ensures LineRest(e, i) == e[i..i + n]
    decreases n
  {
    if n > 0 {
      LineRestIsLine(e, i + 1, n - 1);
      assert e[i..i + n] == [e[i]] + e[i + 1..i + n];
    }
  }

  lemma LowerOfLiteral(s: string, l: string)
    requires |s| == |l| && forall i | 0 <= i < |s| :: LowerChar(s[i]) == l[i]
    ensures Lower(s) == l
  {
  }

  /** Titles that differ only in letter case give the same key, wherever
      the title line stands in each record. */
  lemma CaseInsensitiveKey(pre1: string, t1: string, rest1: string, pre2: string, t2: string, rest2: string)
    requires |pre1| == 0 || IsLineTerminator(pre1[|pre1| - 1])
    requires forall k | 0 <= k < |pre1| :: !TitleLineAt(pre1 + TitleTag + t1 + rest1, k)
    requires |t1| > 0 && forall j | 0 <= j < |t1| :: !IsLineTerminator(t1[j])
    requires |rest1| == 0 || IsLineTerminator(rest1[0])
    requires |pre2| == 0 || IsLineTerminator(pre2[|pre2| - 1])
    requires forall k | 0 <= k < |pre2| :: !TitleLineAt(pre2 + TitleTag + t2 + rest2, k)
    requires |t2| > 0 && forall j | 0 <= j < |t2| :: !IsLineTerminator(t2[j])
    requires |rest2| == 0 || IsLineTerminator(rest2[0])
    requires Lower(t1) == Lower(t2)
    ensures TitleKey(pre1 + TitleTag + t1 + rest1) == TitleKey(pre2 + TitleTag + t2 + rest2)
  {
    KeyOfTitleLine(pre1, t1, rest1);
    KeyOfTitleLine(pre2, t2, rest2);
  }

  /** "Deep Learning" and "deep learning" are the same title. */
  lemma DeepLearningSameKey()
    ensures TitleKey(TitleTag + "Deep Learning" + "\nER  -") == TitleKey(TitleTag + "deep learning" + "\nER  -")
  {
    LowerOfLiteral("Deep Learning", "deep learning");
    LowerOfLiteral("deep learning", "deep learning");
    KeyOfLeadingTitle("Deep Learning", "\nER  -");
    KeyOfLeadingTitle("deep learning", "\nER  -");
  }

  /** Trailing spaces on the title line stay in the key. */
  lemma TrailingSpacesKept()
    ensures TitleKey(TitleTag + "Paper  " + "\r\nER  -") == Some("paper  ")
  {
    KeyOfLeadingTitle("Paper  ", "\r\nER  -");
    LowerOfLiteral("Paper  ", "paper  ");
  }

  /** A tag followed directly by the end of the line is not a title. */
  lemma EmptyTitleIsNoTitle()
    ensures TitleKey("TI  - \n") == None
  {
    var e := "TI  - \n";
    assert !TitleLineAt(e, 0);
  }
}
