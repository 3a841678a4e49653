/** The deduplicator `processRisFiles` (src/app/page.tsx:167-205): files in
    the order supplied, records in split order, folded into two
    insertion-ordered maps keyed by the lower-cased title. */
module Deduplicator {
  import opened RisText
  import RecordSplitter
  import TitleExtractor

  /** What `processRisFiles` appends to every entry it stores. */
  const EntrySuffix: string := "\n\n"

  /** The two JavaScript `Map`s, each an insertion-ordered list of pairs:
      `allEntries` (title key to first entry) and `duplicates` (title key to
      the later entries with that key). */
  datatype Index = Index(allEntries: seq<(string, string)>, duplicates: seq<(string, seq<string>)>)

  /** The object `processRisFiles` returns. */
  datatype Processed = Processed(content: string, duplicateContent: string, count: nat, duplicateCount: nat)

  const EmptyIndex: Index := Index([], [])

  function Keys<V>(m: seq<(string, V)>): (r: seq<string>)
    ensures |r| == |m| && forall i | 0 <= i < |m| :: r[i] == m[i].0
  {
    seq(|m|, i requires 0 <= i < |m| => m[i].0)
  }

  function Values<V>(m: seq<(string, V)>): (r: seq<V>)
    ensures |r| == |m| && forall i | 0 <= i < |m| :: r[i] == m[i].1
  {
    seq(|m|, i requires 0 <= i < |m| => m[i].1)
  }

  /** `Array.prototype.flat()` on a list of lists. */
  function Flatten(xss: seq<seq<string>>): seq<string> {
    if |xss| == 0 then [] else xss[0] + Flatten(xss[1..])
  }

  lemma FlattenAppend(a: seq<seq<string>>, b: seq<seq<string>>)
    ensures Flatten(a + b) == Flatten(a) + Flatten(b)
  {
    if |a| == 0 {
      assert a + b == b;
    } else {
      assert (a + b)[1..] == a[1..] + b;
      FlattenAppend(a[1..], b);
    }
  }

  /** `duplicates.get(key)?.push(v)` for a key already in the map. */
  function Push(d: seq<(string, seq<string>)>, key: string, v: string): seq<(string, seq<string>)>
    requires key in Keys(d)
  {
    if d[0].0 == key then [(key, d[0].1 + [v])] + d[1..]
    else
      assert Keys(d) == [d[0].0] + Keys(d[1..]);
      [d[0]] + Push(d[1..], key, v)
  }

  /** Pushing keeps the keys and their order, and adds one entry in all. */
  lemma {:induction false} PushSpec(d: seq<(string, seq<string>)>, key: string, v: string)
    requires key in Keys(d)
    ensures Keys(Push(d, key, v)) == Keys(d)
    ensures |Flatten(Values(Push(d, key, v)))| == |Flatten(Values(d))| + 1
  {
    var r := Push(d, key, v);
    assert d == [d[0]] + d[1..];
    PairsCons(d[0], d[1..]);
    FlattenCons(d[0].1, Values(d[1..]));
    if d[0].0 == key {
      assert r == [(key, d[0].1 + [v])] + d[1..];
      PairsCons((key, d[0].1 + [v]), d[1..]);
      FlattenCons(d[0].1 + [v], Values(d[1..]));
    } else {
      var rest := Push(d[1..], key, v);
      assert r == [d[0]] + rest;
      PushSpec(d[1..], key, v);
      PairsCons(d[0], rest);
      FlattenCons(d[0].1, Values(rest));
    }
  }

  lemma PairsCons<V>(p: (string, V), m: seq<(string, V)>)
    ensures Keys([p] + m) == [p.0] + Keys(m)
    ensures Values([p] + m) == [p.1] + Values(m)
  {
  }

  lemma FlattenCons(x: seq<string>, rest: seq<seq<string>>)
    ensures Flatten([x] + rest) == x + Flatten(rest)
  {
    assert ([x] + rest)[1..] == rest;
  }

  /** How many entries the two maps hold together. */
  function EntryCount(ix: Index): nat {
    |ix.allEntries| + |Flatten(Values(ix.duplicates))|
  }

  /** `ix'` still holds every entry `ix` stored in `allEntries`, under the
      same key and in the same place: a stored entry is never replaced. */
  predicate KeepsStored(ix': Index, ix: Index) {
    |ix.allEntries| <= |ix'.allEntries| && ix'.allEntries[..|ix.allEntries|] == ix.allEntries
  }

  lemma KeepsStoredTransitive(a: Index, b: Index, c: Index)
    requires KeepsStored(a, b) && KeepsStored(b, c)
    ensures KeepsStored(a, c)
  {
    assert a.allEntries[..|b.allEntries|][..|c.allEntries|] == a.allEntries[..|c.allEntries|];
  }

  /** Lines 182-189: a new key stores the entry in `allEntries`; a key seen
      before appends the entry to its list in `duplicates`, creating the
      list at the end of the map the first time.  Either way the key is
      then stored, nothing stored is replaced, and the entry lands in
      exactly one place. */
  function Insert(ix: Index, key: string, entry: string): (r: Index)
    ensures key in Keys(r.allEntries)
    ensures KeepsStored(r, ix)
    ensures EntryCount(r) == EntryCount(ix) + 1
  {
    if key !in Keys(ix.allEntries) then
      var r := Index(ix.allEntries + [(key, entry + EntrySuffix)], ix.duplicates);
      assert Keys(r.allEntries)[|ix.allEntries|] == key;
      assert r.allEntries[..|ix.allEntries|] == ix.allEntries;
      r
    else if key !in Keys(ix.duplicates) then
      var r := Index(ix.allEntries, ix.duplicates + [(key, [entry + EntrySuffix])]);
      assert Values(r.duplicates) == Values(ix.duplicates) + [[entry + EntrySuffix]];
      FlattenAppend(Values(ix.duplicates), [[entry + EntrySuffix]]);
      FlattenCons([entry + EntrySuffix], []);
      r
    else
      PushSpec(ix.duplicates, key, entry + EntrySuffix);
      Index(ix.allEntries, Push(ix.duplicates, key, entry + EntrySuffix))
  }

  /** Lines 176-190 for one entry: blank entries and entries without a title
      line leave the maps as they are; a titled entry adds exactly one
      entry to them. */
  function Visit(ix: Index, entry: string): (r: Index)
    ensures KeepsStored(r, ix)
    ensures EntryCount(r) == EntryCount(ix) + |Tagged(entry)|
  {
    if IsBlank(entry) then ix
    else match TitleExtractor.TitleKey(entry)
      case None => ix
      case Some(key) => Insert(ix, key, entry)
  }

  /** Lines 175-191: the entries of one file, in order.  Each titled entry
      adds one entry to the maps. */
  function VisitAll(ix: Index, entries: seq<string>): (r: Index)
    ensures KeepsStored(r, ix)
    ensures EntryCount(r) == EntryCount(ix) + |Titled(entries)|
    decreases |entries|
  {
    if |entries| == 0 then ix
    else
      var next := Visit(ix, entries[0]);
      var r := VisitAll(next, entries[1..]);
      KeepsStoredTransitive(r, next, ix);
      r
  }

  /** Lines 171-192: the files, in the order supplied.  Each titled record
      of each file adds one entry to the maps. */
  function VisitFiles(ix: Index, texts: seq<string>): (r: Index)
    ensures KeepsStored(r, ix)
    ensures EntryCount(r) == EntryCount(ix) + |Titled(AllEntries(texts))|
    decreases |texts|
  {
    if |texts| == 0 then ix
    else
      var next := VisitAll(ix, RecordSplitter.Split(texts[0]));
      var r := VisitFiles(next, texts[1..]);
      KeepsStoredTransitive(r, next, ix);
      TitledAppend(RecordSplitter.Split(texts[0]), AllEntries(texts[1..]));
      r
  }

  // ---------------------------------------------------------------------
  // Reference definitions: what the outputs are, stated over the list of
  // titled entries rather than the maps.
  // ---------------------------------------------------------------------

  /** The key an entry is filed under, or `None` when the entry is skipped. */
  function EntryKey(entry: string): Option<string> {
    if IsBlank(entry) then None else TitleExtractor.TitleKey(entry)
  }

  /** The entries that take part in deduplication, paired with their keys,
      in encounter order. */
  function Titled(entries: seq<string>): seq<(string, string)> {
    if |entries| == 0 then [] else Tagged(entries[0]) + Titled(entries[1..])
  }

  /** One entry with its key, or nothing when the entry is skipped. */
  function Tagged(entry: string): seq<(string, string)> {
    match EntryKey(entry)
    case None => []
    case Some(k) => [(k, entry)]
  }

  /** Every record of every file, files first and records within each file second. */
  function AllEntries(texts: seq<string>): seq<string> {
    if |texts| == 0 then [] else RecordSplitter.Split(texts[0]) + AllEntries(texts[1..])
  }

  /** How many titled entries carry key `k`. */
  function KeyCount(t: seq<(string, string)>, k: string): nat {
    if |t| == 0 then 0
    else KeyCount(t[..|t| - 1], k) + (if t[|t| - 1].0 == k then 1 else 0)
  }

  /** The set of distinct keys. */
  function KeySet(t: seq<(string, string)>): set<string> {
    set k | k in Keys(t)
  }

  /** For every key, its first entry plus the suffix, in order of first
      appearance: the entries with no earlier entry of the same key. */
  function FirstSeen(t: seq<(string, string)>): seq<(string, string)> {
    if |t| == 0 then []
    else
      var init := t[..|t| - 1];
      var (k, e) := t[|t| - 1];
      FirstSeen(init) + (if KeyCount(init, k) == 0 then [(k, e + EntrySuffix)] else [])
  }

  /** The keys that repeat, in the order of each key's second entry (its
      first duplicate). */
  function DuplicateKeys(t: seq<(string, string)>): seq<string> {
    if |t| == 0 then []
    else
      var init := t[..|t| - 1];
      var k := t[|t| - 1].0;
      DuplicateKeys(init) + (if KeyCount(init, k) == 1 then [k] else [])
  }

  /** The entries of key `k` after its first one, each plus the suffix, in
      encounter order. */
  function Later(t: seq<(string, string)>, k: string): seq<string> {
    if |t| == 0 then []
    else
      var init := t[..|t| - 1];
      var (k', e) := t[|t| - 1];
      Later(init, k) + (if k' == k && KeyCount(init, k) >= 1 then [e + EntrySuffix] else [])
  }

  /** Each key of `ks` with its later entries. */
  function Grouped(t: seq<(string, string)>, ks: seq<string>): seq<(string, seq<string>)> {
    if |ks| == 0 then [] else [(ks[0], Later(t, ks[0]))] + Grouped(t, ks[1..])
  }

  /** The duplicate entries grouped by key, keys in order of first duplicate. */
  function DuplicateEntries(t: seq<(string, string)>): seq<string> {
    Flatten(Values(Grouped(t, DuplicateKeys(t))))
  }

  /** `processRisFiles`: the unique text, the duplicate text and both counts. */
  function ProcessRisFiles(texts: seq<string>): (r: Processed)
    ensures var t := Titled(AllEntries(texts));
      && r.content == Concat(Values(FirstSeen(t)))
      && r.duplicateContent == Concat(DuplicateEntries(t))
      && r.duplicateCount == |DuplicateEntries(t)|
      && r.count == |KeySet(t)|
      && r.count + r.duplicateCount == |t|
  {
    var ix := VisitFiles(EmptyIndex, texts);
    var dups := Flatten(Values(ix.duplicates));
    FoldMatchesReference(texts);
    Processed(Concat(Values(ix.allEntries)), Concat(dups), |ix.allEntries|, |dups|)
  }

  // ---------------------------------------------------------------------
  // The fold agrees with the reference definitions.
  // ---------------------------------------------------------------------

  /** The maps after folding titled entries `t`. */
  ghost predicate Reflects(ix: Index, t: seq<(string, string)>) {
    && ix.allEntries == FirstSeen(t)
    && ix.duplicates == Grouped(t, DuplicateKeys(t))
    && |ix.allEntries| + |Flatten(Values(ix.duplicates))| == |t|
  }

  lemma {:induction false} FoldMatchesReference(texts: seq<string>)
    ensures var ix := VisitFiles(EmptyIndex, texts);
      var t := Titled(AllEntries(texts));
      && ix.allEntries == FirstSeen(t)
      && Flatten(Values(ix.duplicates)) == DuplicateEntries(t)
      && |ix.allEntries| == |KeySet(t)|
      && |ix.allEntries| + |DuplicateEntries(t)| == |t|
  {
    var es := AllEntries(texts);
    VisitFilesIsVisitAll(EmptyIndex, texts);
    VisitAllReflects(es);
    var t := Titled(es);
    FirstSeenKeys(t);
    DistinctCardinality(Keys(FirstSeen(t)));
    assert (set k | k in Keys(FirstSeen(t))) == KeySet(t);
  }

  lemma {:induction false} VisitFilesIsVisitAll(ix: Index, texts: seq<string>)
    ensures VisitFiles(ix, texts) == VisitAll(ix, AllEntries(texts))
    decreases |texts|
  {
    if |texts| > 0 {
      var first := RecordSplitter.Split(texts[0]);
      VisitFilesIsVisitAll(VisitAll(ix, first), texts[1..]);
      VisitAllAppend(ix, first, AllEntries(texts[1..]));
    }
  }

  lemma {:induction false} VisitAllAppend(ix: Index, a: seq<string>, b: seq<string>)
    ensures VisitAll(ix, a + b) == VisitAll(VisitAll(ix, a), b)
    decreases |a|
  {
    if |a| == 0 {
      assert a + b == b;
    } else {
      assert (a + b)[1..] == a[1..] + b;
      VisitAllAppend(Visit(ix, a[0]), a[1..], b);
    }
  }

  lemma {:induction false} TitledAppend(a: seq<string>, b: seq<string>)
    ensures Titled(a + b) == Titled(a) + Titled(b)
  {
    if |a| == 0 {
      assert a + b == b;
    } else {
      assert (a + b)[1..] == a[1..] + b;
      TitledAppend(a[1..], b);
    }
  }

  lemma {:induction false} VisitAllReflects(es: seq<string>)
    ensures Reflects(VisitAll(EmptyIndex, es), Titled(es))
    decreases |es|
  {
    if |es| == 0 {
      assert Values(EmptyIndex.duplicates) == [];
    } else {
      var init := es[..|es| - 1];
      var last := es[|es| - 1];
      assert es == init + [last];
      VisitAllReflects(init);
      VisitAllAppend(EmptyIndex, init, [last]);
      TitledAppend(init, [last]);
      assert [last][1..] == [];
      var ix := VisitAll(EmptyIndex, init);
      var t := Titled(init);
      match EntryKey(last)
      case None =>
        assert Titled([last]) == [];
        assert t + [] == t;
      case Some(k) =>
        assert Titled([last]) == [(k, last)];
        InsertReflects(ix, t, k, last);
    }
  }

  /** One step of the fold keeps the maps equal to the reference definitions. */
  lemma InsertReflects(ix: Index, t: seq<(string, string)>, k: string, e: string)
    requires Reflects(ix, t)
    ensures Reflects(Insert(ix, k, e), t + [(k, e)])
  {
    var t' := t + [(k, e)];
    assert t'[..|t'| - 1] == t;
    var ks := DuplicateKeys(t);
    FirstSeenKeys(t);
    DuplicateKeysSpec(t);
    GroupedKeys(t, ks);
    var v := e + EntrySuffix;
    if KeyCount(t, k) == 0 {
      assert k !in Keys(ix.allEntries);
      assert DuplicateKeys(t') == ks;
      GroupedOtherKey(t, ks, k, e);
    } else if KeyCount(t, k) == 1 {
      assert k in Keys(ix.allEntries) && k !in Keys(ix.duplicates);
      GroupedOtherKey(t, ks, k, e);
      LaterOfSingle(t, k);
      GroupedSnoc(t', ks, k);
      assert Later(t', k) == [v];
      assert Values(ix.duplicates + [(k, [v])]) == Values(ix.duplicates) + [[v]];
      FlattenAppend(Values(ix.duplicates), [[v]]);
    } else {
      assert k in Keys(ix.allEntries) && k in Keys(ix.duplicates);
      assert DuplicateKeys(t') == ks;
      GroupedPush(t, ks, k, e);
      PushSpec(ix.duplicates, k, v);
    }
  }

  /** The keys stored in `allEntries` are exactly the keys seen, each once. */
  lemma {:induction false} FirstSeenKeys(t: seq<(string, string)>)
    ensures forall k :: k in Keys(FirstSeen(t)) <==> KeyCount(t, k) > 0
    ensures Distinct(Keys(FirstSeen(t)))
    ensures (set k | k in Keys(FirstSeen(t))) == KeySet(t)
  {
    OccurrencesSpec(t);
    if |t| > 0 {
      var init := t[..|t| - 1];
      var k := t[|t| - 1].0;
      var e := t[|t| - 1].1;
      FirstSeenKeys(init);
      var f := FirstSeen(init);
      var added: seq<(string, string)> := if KeyCount(init, k) == 0 then [(k, e + EntrySuffix)] else [];
      assert FirstSeen(t) == f + added;
      assert Keys(f + added) == Keys(f) + Keys(added);
      forall k' ensures k' in Keys(FirstSeen(t)) <==> KeyCount(t, k') > 0 {
        assert KeyCount(t, k') == KeyCount(init, k') + (if k == k' then 1 else 0);
        assert k' in Keys(f + added) <==> k' in Keys(f) || k' in Keys(added);
        assert Keys(added) == if KeyCount(init, k) == 0 then [k] else [];
      }
    }
  }

  /** A key occurs exactly when it is among the keys. */
  lemma {:induction false} OccurrencesSpec(t: seq<(string, string)>)
    ensures forall k :: k in Keys(t) <==> KeyCount(t, k) > 0
  {
    if |t| > 0 {
      var init := t[..|t| - 1];
      OccurrencesSpec(init);
      assert Keys(t) == Keys(init) + [t[|t| - 1].0];
    }
  }

  /** A key is in the duplicate list exactly when it occurs twice or more;
      the list has no repetitions. */
  lemma {:induction false} DuplicateKeysSpec(t: seq<(string, string)>)
    ensures forall k :: k in DuplicateKeys(t) <==> KeyCount(t, k) >= 2
    ensures Distinct(DuplicateKeys(t))
  {
    if |t| > 0 {
      var init := t[..|t| - 1];
      DuplicateKeysSpec(init);
    }
  }

  lemma {:induction false} GroupedKeys(t: seq<(string, string)>, ks: seq<string>)
    ensures Keys(Grouped(t, ks)) == ks
  {
    if |ks| > 0 {
      GroupedKeys(t, ks[1..]);
      assert Keys(Grouped(t, ks)) == [ks[0]] + Keys(Grouped(t, ks[1..]));
    }
  }

  /** A key with a single entry has no later entries. */
  lemma {:induction false} LaterOfSingle(t: seq<(string, string)>, k: string)
    requires KeyCount(t, k) <= 1
    ensures Later(t, k) == []
  {
    if |t| > 0 {
      LaterOfSingle(t[..|t| - 1], k);
    }
  }

  /** An entry does not change the groups of the other keys. */
  lemma {:induction false} GroupedOtherKey(t: seq<(string, string)>, ks: seq<string>, k: string, e: string)
    requires k !in ks || KeyCount(t, k) == 0
    ensures Grouped(t + [(k, e)], ks) == Grouped(t, ks)
  {
    if |ks| > 0 {
      assert (t + [(k, e)])[..|t|] == t;
      assert Later(t + [(k, e)], ks[0]) == Later(t, ks[0]);
      GroupedOtherKey(t, ks[1..], k, e);
    }
  }

  lemma {:induction false} GroupedSnoc(t: seq<(string, string)>, ks: seq<string>, k: string)
    ensures Grouped(t, ks + [k]) == Grouped(t, ks) + [(k, Later(t, k))]
  {
    if |ks| == 0 {
      assert ks + [k] == [k];
    } else {
      assert (ks + [k])[1..] == ks[1..] + [k];
      GroupedSnoc(t, ks[1..], k);
    }
  }

  /** A further entry of a repeating key lands at the end of that key's group. */
  lemma {:induction false} GroupedPush(t: seq<(string, string)>, ks: seq<string>, k: string, e: string)
    requires k in ks && Distinct(ks) && KeyCount(t, k) >= 1
    ensures k in Keys(Grouped(t, ks)) && Grouped(t + [(k, e)], ks) == Push(Grouped(t, ks), k, e + EntrySuffix)
  {
    var t' := t + [(k, e)];
    assert t'[..|t|] == t;
    GroupedKeys(t, ks);
    if ks[0] == k {
      assert k !in ks[1..];
      GroupedOtherKey(t, ks[1..], k, e);
    } else {
      assert Distinct(ks[1..]);
      GroupedPush(t, ks[1..], k, e);
      assert Later(t', ks[0]) == Later(t, ks[0]);
      assert Grouped(t, ks)[1..] == Grouped(t, ks[1..]);
    }
  }

  // ---------------------------------------------------------------------
  // Properties of the outputs.
  // ---------------------------------------------------------------------

  /** Blank entries and entries without a title line change neither map,
      wherever they stand among the entries. */
  lemma DroppedEntryIgnored(ix: Index, a: seq<string>, e: string, b: seq<string>)
    requires EntryKey(e).None?
    ensures VisitAll(ix, a + [e] + b) == VisitAll(ix, a + b)
  {
    VisitAllAppend(ix, a + [e], b);
    VisitAllAppend(ix, a, [e]);
    VisitAllAppend(ix, a, b);
    assert [e][1..] == [];
    assert Visit(VisitAll(ix, a), e) == VisitAll(ix, a);
  }

  /** Without a repeated title every titled entry is unique and nothing is
      reported as a duplicate. */
  lemma NoRepeatedKeyNoDuplicates(texts: seq<string>)
    requires Distinct(Keys(Titled(AllEntries(texts))))
    ensures var r := ProcessRisFiles(texts);
      && r.count == |Titled(AllEntries(texts))|
      && r.duplicateCount == 0 && r.duplicateContent == []
  {
    var t := Titled(AllEntries(texts));
    var r := ProcessRisFiles(texts);
    DistinctCardinality(Keys(t));
    assert |DuplicateEntries(t)| == 0;
  }

  /** The entry stored for a key is its first entry: an entry with no
      earlier entry of the same key is stored, and no later one replaces it. */
  lemma {:induction false} FirstEntryIsStored(t: seq<(string, string)>, i: nat)
    requires i < |t| && forall j | 0 <= j < i :: t[j].0 != t[i].0
    ensures (t[i].0, t[i].1 + EntrySuffix) in FirstSeen(t)
  {
    var init := t[..|t| - 1];
    if i == |t| - 1 {
      OccurrencesSpec(init);
      assert t[i].0 !in Keys(init);
    } else {
      FirstEntryIsStored(init, i);
    }
  }

  /** Appending one titled entry, as the reference definitions see it:
      the stored entries and the repeating keys. */
  lemma SnocLists(t: seq<(string, string)>, k: string, e: string)
    ensures var t' := t + [(k, e)];
      && FirstSeen(t') == FirstSeen(t) + (if KeyCount(t, k) == 0 then [(k, e + EntrySuffix)] else [])
      && DuplicateKeys(t') == DuplicateKeys(t) + (if KeyCount(t, k) == 1 then [k] else [])
  {
    assert (t + [(k, e)])[..|t|] == t;
  }

  /** Appending one titled entry, as seen by key `q`: its count and its
      later entries. */
  lemma SnocAt(t: seq<(string, string)>, k: string, e: string, q: string)
    ensures var t' := t + [(k, e)];
      && KeyCount(t', q) == KeyCount(t, q) + (if q == k then 1 else 0)
      && Later(t', q) == Later(t, q) + (if q == k && KeyCount(t, k) >= 1 then [e + EntrySuffix] else [])
  {
    assert (t + [(k, e)])[..|t|] == t;
  }

  /** File A holds records X and Y, file B holds X again and Z.  The unique
      text is X, Y, Z in that order and the duplicate text is the second X. */
  lemma {:induction false} OrderAcrossFiles(kx: string, ky: string, kz: string, x: string, y: string, x2: string, z: string)
    requires kx != ky && kx != kz && ky != kz
    ensures var t := [(kx, x), (ky, y), (kx, x2), (kz, z)];
      && Values(FirstSeen(t)) == [x + EntrySuffix, y + EntrySuffix, z + EntrySuffix]
      && DuplicateEntries(t) == [x2 + EntrySuffix]
  {
    var t0: seq<(string, string)> := [];
    SnocLists(t0, kx, x);
    SnocAt(t0, kx, x, kx);
    SnocAt(t0, kx, x, ky);
    SnocAt(t0, kx, x, kz);
    var t1 := t0 + [(kx, x)];
    SnocLists(t1, ky, y);
    SnocAt(t1, ky, y, kx);
    SnocAt(t1, ky, y, kz);
    var t2 := t1 + [(ky, y)];
    SnocLists(t2, kx, x2);
    SnocAt(t2, kx, x2, kx);
    SnocAt(t2, kx, x2, kz);
    var t3 := t2 + [(kx, x2)];
    SnocLists(t3, kz, z);
    SnocAt(t3, kz, z, kx);
    var t := t3 + [(kz, z)];
    assert FirstSeen(t) == [(kx, x + EntrySuffix), (ky, y + EntrySuffix), (kz, z + EntrySuffix)];
    assert DuplicateKeys(t) == [kx];
    assert t == [(kx, x), (ky, y), (kx, x2), (kz, z)];
    DuplicateEntriesOfOneKey(t, kx);
  }

  /** With one repeating key, the duplicates are that key's later entries. */
  lemma DuplicateEntriesOfOneKey(t: seq<(string, string)>, k: string)
    requires DuplicateKeys(t) == [k]
    ensures DuplicateEntries(t) == Later(t, k)
  {
    GroupedOne(t, k);
    assert Values(Grouped(t, [k])) == [Later(t, k)];
    FlattenCons(Later(t, k), []);
    assert [Later(t, k)] + [] == [Later(t, k)];
  }

  lemma GroupedOne(t: seq<(string, string)>, k: string)
    ensures Grouped(t, [k]) == [(k, Later(t, k))]
  {
    assert [k][1..] == [];
  }

  /** With two repeating keys, the duplicates are the first key's later
      entries followed by the second's. */
  lemma DuplicateEntriesOfTwoKeys(t: seq<(string, string)>, k1: string, k2: string)
    requires DuplicateKeys(t) == [k1, k2]
    ensures DuplicateEntries(t) == Later(t, k1) + Later(t, k2)
  {
    assert Grouped(t, [k1, k2]) == [(k1, Later(t, k1)), (k2, Later(t, k2))] by {
      assert [k1, k2][1..] == [k2];
      GroupedOne(t, k2);
    }
    assert Values(Grouped(t, [k1, k2])) == [Later(t, k1)] + [Later(t, k2)];
    FlattenCons(Later(t, k1), [Later(t, k2)]);
    FlattenCons(Later(t, k2), []);
    assert [Later(t, k2)] + [] == [Later(t, k2)];
  }

  /** The duplicate text is grouped by key, keys in order of their first
      duplicate, and not in encounter order: for titles a, b, b, a, b the
      duplicates come out as b, b, a. */
  lemma {:induction false} DuplicatesGroupedByKey(ka: string, kb: string, a1: string, b1: string, b2: string, a2: string, b3: string)
    requires ka != kb
    ensures var t := [(ka, a1), (kb, b1), (kb, b2), (ka, a2), (kb, b3)];
      DuplicateEntries(t) == [b2 + EntrySuffix, b3 + EntrySuffix, a2 + EntrySuffix]
  {
    var t0: seq<(string, string)> := [];
    SnocLists(t0, ka, a1);
    SnocAt(t0, ka, a1, ka);
    SnocAt(t0, ka, a1, kb);
    var t1 := t0 + [(ka, a1)];
    SnocLists(t1, kb, b1);
    SnocAt(t1, kb, b1, ka);
    SnocAt(t1, kb, b1, kb);
    var t2 := t1 + [(kb, b1)];
    SnocLists(t2, kb, b2);
    SnocAt(t2, kb, b2, ka);
    SnocAt(t2, kb, b2, kb);
    var t3 := t2 + [(kb, b2)];
    SnocLists(t3, ka, a2);
    SnocAt(t3, ka, a2, ka);
    SnocAt(t3, ka, a2, kb);
    var t4 := t3 + [(ka, a2)];
    SnocLists(t4, kb, b3);
    SnocAt(t4, kb, b3, ka);
    SnocAt(t4, kb, b3, kb);
    var t := t4 + [(kb, b3)];
    assert DuplicateKeys(t) == [kb, ka];
    assert t == [(ka, a1), (kb, b1), (kb, b2), (ka, a2), (kb, b3)];
    DuplicateEntriesOfTwoKeys(t, kb, ka);
  }

  // ---------------------------------------------------------------------
  // Running the deduplicator on its own output.
  // ---------------------------------------------------------------------

  /** The entry is non-empty and its last character is not a line terminator. */
  predicate NotLineTerminated(e: string) {
    |e| > 0 && !IsLineTerminator(e[|e| - 1])
  }

  /** A value of `allEntries`: a titled entry without blank lines, not
      ending in a line terminator, followed by the suffix. */
  predicate Stored(p: (string, string)) {
    && |p.1| >= 2 && p.1[|p.1| - 2..] == EntrySuffix
    && var e := p.1[..|p.1| - 2];
       EntryKey(e) == Some(p.0) && !RecordSplitter.HasBlankLine(e) && NotLineTerminated(e)
  }

  /** Titled entries carry their own key and come from the entry list. */
  lemma {:induction false} TitledSpec(es: seq<string>)
    ensures forall i | 0 <= i < |Titled(es)| :: EntryKey(Titled(es)[i].1) == Some(Titled(es)[i].0) && Titled(es)[i].1 in es
  {
    if |es| > 0 {
      TitledSpec(es[1..]);
    }
  }

  lemma AllEntriesOfOne(text: string)
    ensures AllEntries([text]) == RecordSplitter.Split(text)
  {
    assert [text][1..] == [];
  }

  /** Every record handed to the fold is a piece of the split, so none
      contains a blank line. */
  lemma {:induction false} AllEntriesArePieces(texts: seq<string>)
    ensures forall e | e in AllEntries(texts) :: !RecordSplitter.HasBlankLine(e)
  {
    if |texts| > 0 {
      AllEntriesArePieces(texts[1..]);
    }
  }

  lemma {:induction false} FirstSeenStored(t: seq<(string, string)>)
    requires forall i | 0 <= i < |t| ::
      EntryKey(t[i].1) == Some(t[i].0) && !RecordSplitter.HasBlankLine(t[i].1) && NotLineTerminated(t[i].1)
    ensures forall i | 0 <= i < |FirstSeen(t)| :: Stored(FirstSeen(t)[i])
  {
    if |t| > 0 {
      var init := t[..|t| - 1];
      var (k, e) := t[|t| - 1];
      FirstSeenStored(init);
      var v := e + EntrySuffix;
      assert v[..|v| - 2] == e && v[|v| - 2..] == EntrySuffix;
      assert Stored((k, v));
    }
  }

  /** Splitting the concatenated stored values gives back the stored
      entries, with the same keys in the same order. */
  lemma {:induction false} ResplitStored(vs: seq<(string, string)>)
    requires forall i | 0 <= i < |vs| :: Stored(vs[i])
    ensures Keys(Titled(RecordSplitter.Split(Concat(Values(vs))))) == Keys(vs)
  {
    if |vs| == 0 {
      RecordSplitter.SplitOfSeparatorFree("");
      assert Titled([""]) == [];
    } else {
      var p := vs[0];
      var rest := Concat(Values(vs[1..]));
      assert Concat(Values(vs)) == p.1 + rest by {
        assert vs == [p] + vs[1..];
        PairsCons(p, vs[1..]);
        assert ([p.1] + Values(vs[1..]))[1..] == Values(vs[1..]);
      }
      ResplitHead(p, rest);
      ResplitStored(vs[1..]);
      assert Keys(vs) == [p.0] + Keys(vs[1..]) by {
        assert vs == [p] + vs[1..];
        PairsCons(p, vs[1..]);
      }
      PairsCons((p.0, p.1[..|p.1| - 2]), Titled(RecordSplitter.Split(rest)));
    }
  }

  /** A stored value at the front of a text splits off as its entry, which
      keeps its key. */
  lemma ResplitHead(p: (string, string), rest: string)
    requires Stored(p)
    ensures Titled(RecordSplitter.Split(p.1 + rest)) == [(p.0, p.1[..|p.1| - 2])] + Titled(RecordSplitter.Split(rest))
  {
    var v := p.1;
    var e := v[..|v| - 2];
    assert v + rest == e + "\n\n" + rest by {
      assert v == e + v[|v| - 2..];
    }
    var pieces := RecordSplitter.Split(rest);
    assert RecordSplitter.Split(v + rest) == [e] + pieces by {
      RecordSplitter.NoBlankLineNoSeparator(e);
      RecordSplitter.SplitAfterEntry(e, "\n\n", rest);
    }
    assert Titled([e] + pieces) == [(p.0, e)] + Titled(pieces) by {
      TitledAppend([e], pieces);
      assert [e][1..] == [];
      assert Tagged(e) == [(p.0, e)];
    }
  }

  /** Feeding the unique text back in as a single file keeps the count and
      finds no duplicates, provided no titled record ends in a line
      terminator (appending `"\n\n"` to such a record would move the
      separator). */
  lemma ReprocessUniqueContent(texts: seq<string>)
    requires forall i | 0 <= i < |Titled(AllEntries(texts))| :: NotLineTerminated(Titled(AllEntries(texts))[i].1)
    ensures var r := ProcessRisFiles(texts);
      var r' := ProcessRisFiles([r.content]);
      r'.count == r.count && r'.duplicateCount == 0
  {
    var r := ProcessRisFiles(texts);
    var vs := FirstSeen(Titled(AllEntries(texts)));
    StoredUniqueEntries(texts);
    var t' := Titled(AllEntries([r.content]));
    assert Keys(t') == Keys(vs) by {
      AllEntriesOfOne(r.content);
      ResplitStored(vs);
    }
    NoRepeatedKeyNoDuplicates([r.content]);
  }

  /** The values of `allEntries` are stored entries under distinct keys,
      one per distinct key. */
  lemma StoredUniqueEntries(texts: seq<string>)
    requires forall i | 0 <= i < |Titled(AllEntries(texts))| :: NotLineTerminated(Titled(AllEntries(texts))[i].1)
    ensures var t := Titled(AllEntries(texts));
      && (forall i | 0 <= i < |FirstSeen(t)| :: Stored(FirstSeen(t)[i]))
      && Distinct(Keys(FirstSeen(t))) && |KeySet(t)| == |FirstSeen(t)|
  {
    var t := Titled(AllEntries(texts));
    var vs := FirstSeen(t);
    assert forall i | 0 <= i < |vs| :: Stored(vs[i]) by {
      TitledSpec(AllEntries(texts));
      AllEntriesArePieces(texts);
      FirstSeenStored(t);
    }
    FirstSeenKeys(t);
    DistinctCardinality(Keys(vs));
  }

  /** One record followed by a second with the same title: one unique
      entry, one duplicate, each written back with the suffix. */
  lemma SameTitleTwice(e: string, e2: string)
    requires EntryKey(e).Some? && EntryKey(e2) == EntryKey(e)
    requires !RecordSplitter.HasBlankLine(e) && NotLineTerminated(e)
    requires !RecordSplitter.HasBlankLine(e2)
    ensures var r := ProcessRisFiles([e + "\n\n" + e2]);
      && r.count == 1 && r.duplicateCount == 1
      && r.content == e + EntrySuffix && r.duplicateContent == e2 + EntrySuffix
  {
    var k := EntryKey(e).value;
    SplitTwoEntries(e, e2);
    TitledOfTwo(e, e2, k);
    ProcessTwoSameKey([e + "\n\n" + e2], k, e, e2);
  }

  lemma TitledOfTwo(e: string, e2: string, k: string)
    requires EntryKey(e) == Some(k) && EntryKey(e2) == Some(k)
    ensures Titled([e, e2]) == [(k, e), (k, e2)]
  {
    assert Titled([e2]) == [(k, e2)] by {
      assert [e2][1..] == [];
      assert Tagged(e2) == [(k, e2)];
    }
    assert Titled([e, e2]) == [(k, e)] + Titled([e2]) by {
      assert [e, e2][1..] == [e2];
      assert Tagged(e) == [(k, e)];
    }
  }

  /** Two titled entries with one key: what the outputs are. */
  lemma ProcessTwoSameKey(texts: seq<string>, k: string, e: string, e2: string)
    requires Titled(AllEntries(texts)) == [(k, e), (k, e2)]
    ensures var r := ProcessRisFiles(texts);
      && r.count == 1 && r.duplicateCount == 1
      && r.content == e + EntrySuffix && r.duplicateContent == e2 + EntrySuffix
  {
    TwoEntriesSameKey(k, e, e2);
    assert Concat([e + EntrySuffix]) == e + EntrySuffix + Concat([]);
    assert Concat([e2 + EntrySuffix]) == e2 + EntrySuffix + Concat([]);
    assert |{k}| == 1;
  }

  lemma SplitTwoEntries(e: string, e2: string)
    requires !RecordSplitter.HasBlankLine(e) && NotLineTerminated(e)
    requires !RecordSplitter.HasBlankLine(e2)
    ensures AllEntries([e + "\n\n" + e2]) == [e, e2]
  {
    AllEntriesOfOne(e + "\n\n" + e2);
    RecordSplitter.NoBlankLineNoSeparator(e);
    RecordSplitter.NoBlankLineNoSeparator(e2);
    RecordSplitter.SplitAfterEntry(e, "\n\n", e2);
    RecordSplitter.SplitOfSeparatorFree(e2);
  }

  lemma TwoEntriesSameKey(k: string, e: string, e2: string)
    ensures var t := [(k, e), (k, e2)];
      && Values(FirstSeen(t)) == [e + EntrySuffix]
      && DuplicateEntries(t) == [e2 + EntrySuffix]
      && KeySet(t) == {k}
  {
    var t0: seq<(string, string)> := [];
    SnocLists(t0, k, e);
    SnocAt(t0, k, e, k);
    var t1 := t0 + [(k, e)];
    SnocLists(t1, k, e2);
    SnocAt(t1, k, e2, k);
    var t := t1 + [(k, e2)];
    assert t == [(k, e), (k, e2)];
    DuplicateEntriesOfOneKey(t, k);
    assert Keys(t) == [k, k];
  }
}
