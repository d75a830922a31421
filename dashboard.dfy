/**
 * The dashboard's label counts: the database pipeline that merges
 * per-prediction documents and summary tallies into one count per label,
 * and the post-processing that drops the missing label, replaces U+FFFD by
 * `-`, sorts by count descending then label ascending, and splits the rows
 * into parallel label and count lists.
 */
module Dashboard {
  import opened Wrappers
  import opened PyStr
  import opened History

  // ---------------------------------------------------------------------------
  // The meaning of the aggregation pipeline.
  // ---------------------------------------------------------------------------

  /** The count of `l` in a table, zero when absent. */
  function Get(m: map<string, int>, l: string): int {
    if l in m then m[l] else 0
  }

  /** Adding `v` to the group of `l`, creating the group if needed. */
  function Add(m: map<string, int>, l: string, v: int): (r: map<string, int>)
    ensures r.Keys == m.Keys + {l}
    ensures forall k :: Get(r, k) == Get(m, k) + (if k == l then v else 0)
  {
    m[l := Get(m, l) + v]
  }

  /** Every entry of a tally added to its group. */
  function AddCounts(m: map<string, int>, t: Counts): (r: map<string, int>)
    decreases |t|
  {
    if t == [] then m else AddCounts(Add(m, t[0].0, t[0].1), t[1..])
  }

  /**
   * One document's contribution: a per-prediction document with a label
   * counts one for it (one without a label forms no visible group); a summary
   * adds each of its tally entries.
   */
  function AddDoc(m: map<string, int>, d: Doc): map<string, int> {
    match d
    case PerRow(a) => if a.Some? then Add(m, a.value, 1) else m
    case Summary(counts, _, _) => AddCounts(m, counts)
  }

  function AddAll(m: map<string, int>, docs: seq<Doc>): map<string, int>
    decreases |docs|
  {
    if docs == [] then m else AddAll(AddDoc(m, docs[0]), docs[1..])
  }

  /** The table the pipeline computes over the stored documents. */
  function Aggregate(docs: seq<Doc>): map<string, int> {
    AddAll(map[], docs)
  }

  // Reference definitions, one per facet of the pipeline.

  /** The number of per-prediction documents labelled `l`. */
  function PerRowCount(docs: seq<Doc>, l: string): nat
    decreases |docs|
  {
    if docs == [] then 0
    else (if docs[0] == PerRow(Some(l)) then 1 else 0) + PerRowCount(docs[1..], l)
  }

  /** The sum of the tally entries for `l` in one tally. */
  function CountFor(t: Counts, l: string): int
    decreases |t|
  {
    if t == [] then 0 else (if t[0].0 == l then t[0].1 else 0) + CountFor(t[1..], l)
  }

  /** The sum of `l`'s tally entries over all summary documents. */
  function SummarySum(docs: seq<Doc>, l: string): int
    decreases |docs|
  {
    if docs == [] then 0
    else (if docs[0].Summary? then CountFor(docs[0].counts, l) else 0) + SummarySum(docs[1..], l)
  }

  /** Some document names `l`: a per-prediction document with that label, or a summary with an entry for it. */
  predicate Mentioned(docs: seq<Doc>, l: string) {
    exists i :: 0 <= i < |docs| && (docs[i] == PerRow(Some(l)) || (docs[i].Summary? && l in Keys(docs[i].counts)))
  }

  lemma {:induction false} AddCountsGet(m: map<string, int>, t: Counts, l: string)
    ensures Get(AddCounts(m, t), l) == Get(m, l) + CountFor(t, l)
    ensures l in AddCounts(m, t) <==> l in m || l in Keys(t)
    decreases |t|
  {
    if t != [] {
      AddCountsGet(Add(m, t[0].0, t[0].1), t[1..], l);
      assert Keys(t) == [t[0].0] + Keys(t[1..]);
    }
  }

  /**
   * The pipeline's count for `l` is the number of per-prediction documents
   * labelled `l` plus the sum of `l`'s entries over the summaries, and `l`
   * has a group exactly when some document names it.
   */
  lemma {:induction false} AddAllGet(m: map<string, int>, docs: seq<Doc>, l: string)
    ensures Get(AddAll(m, docs), l) == Get(m, l) + PerRowCount(docs, l) + SummarySum(docs, l)
    ensures l in AddAll(m, docs) <==> l in m || Mentioned(docs, l)
    decreases |docs|
  {
    if docs != [] {
      var d := docs[0];
      AddAllGet(AddDoc(m, d), docs[1..], l);
      if d.Summary? {
        AddCountsGet(m, d.counts, l);
      }
      if Mentioned(docs[1..], l) {
        var i :| 0 <= i < |docs[1..]| && (docs[1..][i] == PerRow(Some(l)) || (docs[1..][i].Summary? && l in Keys(docs[1..][i].counts)));
        assert docs[i + 1] == docs[1..][i];
      }
    }
  }

  lemma AggregateMeaning(docs: seq<Doc>, l: string)
    ensures Get(Aggregate(docs), l) == PerRowCount(docs, l) + SummarySum(docs, l)
    ensures l in Aggregate(docs) <==> Mentioned(docs, l)
  {
    AddAllGet(map[], docs, l);
  }

  // ---------------------------------------------------------------------------
  // Storing an upload, then aggregating.
  // ---------------------------------------------------------------------------

  /** The fields of the stored documents, in store order. */
  function DocsOf(store: seq<StoredDoc>): (ds: seq<Doc>)
    ensures |ds| == |store| && forall i :: 0 <= i < |store| ==> ds[i] == store[i].doc
  {
    seq(|store|, i requires 0 <= i < |store| => store[i].doc)
  }

  lemma {:induction false} PerRowCountAppend(a: seq<Doc>, b: seq<Doc>, l: string)
    ensures PerRowCount(a + b, l) == PerRowCount(a, l) + PerRowCount(b, l)
    decreases |a|
  {
    if a != [] {
      assert (a + b)[1..] == a[1..] + b;
      PerRowCountAppend(a[1..], b, l);
    } else {
      assert a + b == b;
    }
  }

  lemma {:induction false} SummarySumAppend(a: seq<Doc>, b: seq<Doc>, l: string)
    ensures SummarySum(a + b, l) == SummarySum(a, l) + SummarySum(b, l)
    decreases |a|
  {
    if a != [] {
      assert (a + b)[1..] == a[1..] + b;
      SummarySumAppend(a[1..], b, l);
    } else {
      assert a + b == b;
    }
  }

  lemma MentionedAppend(a: seq<Doc>, b: seq<Doc>, l: string)
    ensures Mentioned(a + b, l) <==> Mentioned(a, l) || Mentioned(b, l)
  {
    if Mentioned(a, l) {
      var i :| 0 <= i < |a| && (a[i] == PerRow(Some(l)) || (a[i].Summary? && l in Keys(a[i].counts)));
      assert (a + b)[i] == a[i];
    }
    if Mentioned(b, l) {
      var i :| 0 <= i < |b| && (b[i] == PerRow(Some(l)) || (b[i].Summary? && l in Keys(b[i].counts)));
      assert (a + b)[|a| + i] == b[i];
    }
    if Mentioned(a + b, l) {
      var i :| 0 <= i < |a + b| && ((a + b)[i] == PerRow(Some(l)) || ((a + b)[i].Summary? && l in Keys((a + b)[i].counts)));
      if i >= |a| {
        assert b[i - |a|] == (a + b)[i];
      }
    }
  }

  lemma {:induction false} PerRowDocsCount(attacks: seq<string>, l: string)
    ensures PerRowCount(PerRowDocs(attacks), l) == multiset(attacks)[l]
    ensures Mentioned(PerRowDocs(attacks), l) <==> l in attacks
    decreases |attacks|
  {
    if attacks != [] {
      PerRowDocsCount(attacks[1..], l);
      assert PerRowDocs(attacks)[1..] == PerRowDocs(attacks[1..]);
      assert attacks == [attacks[0]] + attacks[1..];
    }
  }

  lemma {:induction false} PerRowDocsSummaries(attacks: seq<string>, l: string)
    ensures SummarySum(PerRowDocs(attacks), l) == 0
    decreases |attacks|
  {
    if attacks != [] {
      PerRowDocsSummaries(attacks[1..], l);
      assert PerRowDocs(attacks)[1..] == PerRowDocs(attacks[1..]);
    }
  }

  /** One more occurrence of `x` adds one to `x`'s tally sum and leaves the others alone. */
  lemma {:induction false} CountForBump(t: Counts, x: string, l: string)
    requires Distinct(Keys(t))
    ensures CountFor(Bump(t, x), l) == CountFor(t, l) + (if l == x then 1 else 0)
    decreases |t|
  {
    if t != [] {
      var r := Bump(t, x);
      if t[0].0 == x {
        assert r[1..] == t[1..];
      } else {
        assert Keys(t[1..]) == Keys(t)[1..];
        CountForBump(t[1..], x, l);
        assert r[1..] == Bump(t[1..], x);
      }
    }
  }

  lemma {:induction false} TallyCountFor(xs: seq<string>, l: string)
    ensures CountFor(Tally(xs), l) == multiset(xs)[l]
    decreases |xs|
  {
    if xs != [] {
      TallyCountFor(xs[..|xs| - 1], l);
      CountForBump(Tally(xs[..|xs| - 1]), xs[|xs| - 1], l);
      MultisetLast(xs, l);
    }
  }

  /** The aggregate over more documents: the reference counts of the new ones are added. */
  lemma AggregateAppend(before: seq<Doc>, added: seq<Doc>, l: string)
    ensures Get(Aggregate(before + added), l) == Get(Aggregate(before), l) + PerRowCount(added, l) + SummarySum(added, l)
    ensures l in Aggregate(before + added) <==> l in Aggregate(before) || Mentioned(added, l)
  {
    AggregateMeaning(before + added, l);
    AggregateMeaning(before, l);
    PerRowCountAppend(before, added, l);
    SummarySumAppend(before, added, l);
    MentionedAppend(before, added, l);
  }

  /** The documents one upload adds in a given storage mode. */
  function UploadDocs(mode: string, attacks: seq<string>, sourceFile: Option<string>): seq<Doc> {
    if mode == "per_row" then PerRowDocs(attacks) else [SummaryDoc(attacks, sourceFile)]
  }

  lemma StoredDocs(store: seq<StoredDoc>, mode: string, attacks: seq<string>, now: int, sourceFile: Option<string>)
    ensures DocsOf(StoreResults(store, mode, attacks, now, sourceFile)) == DocsOf(store) + UploadDocs(mode, attacks, sourceFile)
  {
    var r := StoreResults(store, mode, attacks, now, sourceFile);
    var added := UploadDocs(mode, attacks, sourceFile);
    assert |r| == |store| + |added|;
    forall i | 0 <= i < |r|
      ensures DocsOf(r)[i] == (DocsOf(store) + added)[i]
    {
      if i >= |store| {
        assert r[i] == r[|store| + (i - |store|)];
      } else {
        assert r[i] == r[..|store|][i];
      }
    }
  }

  /** Each label's reference count over one upload's documents is its number of occurrences, in either mode. */
  lemma UploadDocsCount(mode: string, attacks: seq<string>, sourceFile: Option<string>, l: string)
    ensures var added := UploadDocs(mode, attacks, sourceFile);
            && PerRowCount(added, l) + SummarySum(added, l) == multiset(attacks)[l]
            && (Mentioned(added, l) <==> l in attacks)
  {
    var added := UploadDocs(mode, attacks, sourceFile);
    if mode == "per_row" {
      PerRowDocsCount(attacks, l);
      PerRowDocsSummaries(attacks, l);
    } else {
      TallyCountFor(attacks, l);
      var d := SummaryDoc(attacks, sourceFile);
      assert added == [d];
      assert Mentioned(added, l) <==> l in Keys(d.counts) by {
        if l in Keys(d.counts) {
          assert added[0] == d;
        }
      }
    }
  }

  /**
   * Storing an upload adds each label's number of occurrences to its
   * dashboard count, and a label has a dashboard group afterwards exactly
   * when it had one before or occurs in the upload -- whichever storage
   * mode wrote it.
   */
  lemma StoreThenAggregate(store: seq<StoredDoc>, mode: string, attacks: seq<string>, now: int, sourceFile: Option<string>, l: string)
    ensures var after := Aggregate(DocsOf(StoreResults(store, mode, attacks, now, sourceFile)));
            var before := Aggregate(DocsOf(store));
            && Get(after, l) == Get(before, l) + multiset(attacks)[l]
            && (l in after <==> l in before || l in attacks)
  {
    StoredDocs(store, mode, attacks, now, sourceFile);
    AggregateAppend(DocsOf(store), UploadDocs(mode, attacks, sourceFile), l);
    UploadDocsCount(mode, attacks, sourceFile, l);
  }

  // ---------------------------------------------------------------------------
  // Post-processing the pipeline's groups.
  // ---------------------------------------------------------------------------

  /** The Unicode replacement character, U+FFFD. */
  const Replacement: char := '\U{FFFD}'

  /** A label as displayed: every replacement character becomes `-`, nothing else changes. */
  function Display(l: string): (d: string)
    ensures |d| == |l| && Replacement !in d
    ensures forall i :: 0 <= i < |l| && l[i] != Replacement ==> d[i] == l[i]
  {
    ReplaceChar(l, Replacement, '-')
  }

  /** One displayed row: a label and its count. */
  type Entry = (string, int)

  /**
   * The rows built from the pipeline's groups, in cursor order: the group of
   * the missing label is skipped and every other label is displayed.
   */
  function Displayed(groups: seq<(Option<string>, int)>): (data: seq<Entry>)
    ensures |data| <= |groups|
    ensures forall k :: 0 <= k < |data| ==> Replacement !in data[k].0
    decreases |groups|
  {
    if groups == [] then []
    else
      var init := Displayed(groups[..|groups| - 1]);
      var g := groups[|groups| - 1];
      if g.0.None? then init else init + [(Display(g.0.value), g.1)]
  }

  /** The rows are exactly the displayed labelled groups. */
  lemma {:induction false} DisplayedMembers(groups: seq<(Option<string>, int)>, e: Entry)
    ensures e in Displayed(groups) <==>
            exists i :: 0 <= i < |groups| && groups[i].0.Some? && e == (Display(groups[i].0.value), groups[i].1)
    decreases |groups|
  {
    if groups != [] {
      var init := groups[..|groups| - 1];
      DisplayedMembers(init, e);
      if exists i :: 0 <= i < |groups| && groups[i].0.Some? && e == (Display(groups[i].0.value), groups[i].1) {
        var i :| 0 <= i < |groups| && groups[i].0.Some? && e == (Display(groups[i].0.value), groups[i].1);
        if i < |init| {
          assert init[i] == groups[i];
        }
      }
    }
  }

  /**
   * The pipeline's final groups as the cursor yields them, in any order: one
   * group per distinct key, each labelled group carrying its label's aggregate
   * count, and every label of the aggregate having a group; a group for the
   * missing label may also be there.
   */
  predicate Enumerates(groups: seq<(Option<string>, int)>, m: map<string, int>) {
    DistinctKeys(groups) && Covers(groups, m)
  }

  /** No two groups share a key. */
  predicate DistinctKeys(groups: seq<(Option<string>, int)>) {
    forall i, j :: 0 <= i < j < |groups| ==> groups[i].0 != groups[j].0
  }

  /**
   * Each labelled group carries its label's count in `m`, and every label of
   * `m` has a group.
   */
  predicate Covers(groups: seq<(Option<string>, int)>, m: map<string, int>) {
    && (forall i :: 0 <= i < |groups| && groups[i].0.Some? ==> groups[i].0.value in m && groups[i].1 == m[groups[i].0.value])
    && (forall l :: l in m ==> exists i :: 0 <= i < |groups| && groups[i].0 == Some(l))
  }

  /** The labels of the labelled groups. */
  function LabelSet(groups: seq<(Option<string>, int)>): set<string>
    decreases |groups|
  {
    if groups == [] then {}
    else
      var g := groups[|groups| - 1];
      LabelSet(groups[..|groups| - 1]) + if g.0.Some? then {g.0.value} else {}
  }

  /** How many groups carry a label. */
  function LabelledCount(groups: seq<(Option<string>, int)>): nat
    decreases |groups|
  {
    if groups == [] then 0
    else LabelledCount(groups[..|groups| - 1]) + if groups[|groups| - 1].0.Some? then 1 else 0
  }

  lemma {:induction false} LabelSetMembers(groups: seq<(Option<string>, int)>, l: string)
    ensures l in LabelSet(groups) <==> exists i :: 0 <= i < |groups| && groups[i].0 == Some(l)
    decreases |groups|
  {
    if groups != [] {
      var init := groups[..|groups| - 1];
      LabelSetMembers(init, l);
      if exists i :: 0 <= i < |groups| && groups[i].0 == Some(l) {
        var i :| 0 <= i < |groups| && groups[i].0 == Some(l);
        if i < |init| {
          assert init[i] == groups[i];
        }
      }
    }
  }

  /** Displaying never merges two groups: there is one row per labelled group. */
  lemma {:induction false} DisplayedLength(groups: seq<(Option<string>, int)>)
    ensures |Displayed(groups)| == LabelledCount(groups)
    decreases |groups|
  {
    if groups != [] {
      DisplayedLength(groups[..|groups| - 1]);
    }
  }

  /** Groups with distinct keys carry as many labels as there are labelled groups. */
  lemma {:induction false} DistinctLabelsCount(groups: seq<(Option<string>, int)>)
    requires DistinctKeys(groups)
    ensures LabelledCount(groups) == |LabelSet(groups)|
    decreases |groups|
  {
    if groups != [] {
      var init := groups[..|groups| - 1];
      var g := groups[|groups| - 1];
      DistinctLabelsCount(init);
      if g.0.Some? {
        LabelSetMembers(init, g.0.value);
        assert g.0.value !in LabelSet(init) by {
          assert forall i :: 0 <= i < |init| ==> init[i].0 == groups[i].0 != g.0;
        }
      }
    }
  }

  /** An enumeration of `m` displays as exactly `|m|` rows, one per key. */
  lemma DisplayedCount(groups: seq<(Option<string>, int)>, m: map<string, int>)
    requires Enumerates(groups, m)
    ensures |Displayed(groups)| == |m|
  {
    DisplayedLength(groups);
    DistinctLabelsCount(groups);
    forall l
      ensures l in LabelSet(groups) <==> l in m
    {
      LabelSetMembers(groups, l);
    }
    assert LabelSet(groups) == m.Keys;
  }

  /** The rows of groups covering `m`: the keys of `m`, each in its displayed form with its value. */
  lemma DisplayedOfEnumeration(groups: seq<(Option<string>, int)>, m: map<string, int>, e: Entry)
    requires Covers(groups, m)
    ensures e in Displayed(groups) <==> exists l :: l in m && e == (Display(l), m[l])
  {
    DisplayedMembers(groups, e);
    if e in Displayed(groups) {
      var i :| 0 <= i < |groups| && groups[i].0.Some? && e == (Display(groups[i].0.value), groups[i].1);
      assert groups[i].0.value in m;
    }
    if exists l :: l in m && e == (Display(l), m[l]) {
      var l :| l in m && e == (Display(l), m[l]);
      var i :| 0 <= i < |groups| && groups[i].0 == Some(l);
    }
  }

  /**
   * The rows over the stored documents: one row for each label some document
   * names, showing the displayed label and the label's reference count.
   */
  lemma DashboardRows(docs: seq<Doc>, groups: seq<(Option<string>, int)>, e: Entry)
    requires Covers(groups, Aggregate(docs))
    ensures e in Displayed(groups) <==>
            exists l :: Mentioned(docs, l) && e == (Display(l), PerRowCount(docs, l) + SummarySum(docs, l))
  {
    if e in Displayed(groups) {
      RowHasLabel(docs, groups, e);
    }
    if exists l :: Mentioned(docs, l) && e == (Display(l), PerRowCount(docs, l) + SummarySum(docs, l)) {
      var l :| Mentioned(docs, l) && e == (Display(l), PerRowCount(docs, l) + SummarySum(docs, l));
      LabelHasRow(docs, groups, l);
    }
  }

  /**
   * The pipeline yields one group per label, so the dashboard has exactly one
   * row per label that some document names.
   */
  lemma DashboardRowCount(docs: seq<Doc>, groups: seq<(Option<string>, int)>)
    requires Enumerates(groups, Aggregate(docs))
    ensures |Displayed(groups)| == |Aggregate(docs)|
  {
    DisplayedCount(groups, Aggregate(docs));
  }

  lemma RowHasLabel(docs: seq<Doc>, groups: seq<(Option<string>, int)>, e: Entry)
    requires Covers(groups, Aggregate(docs)) && e in Displayed(groups)
    ensures exists l :: Mentioned(docs, l) && e == (Display(l), PerRowCount(docs, l) + SummarySum(docs, l))
  {
    var m := Aggregate(docs);
    DisplayedOfEnumeration(groups, m, e);
    var l :| l in m && e == (Display(l), m[l]);
    AggregateMeaning(docs, l);
    assert Mentioned(docs, l) && e == (Display(l), PerRowCount(docs, l) + SummarySum(docs, l));
  }

  lemma LabelHasRow(docs: seq<Doc>, groups: seq<(Option<string>, int)>, l: string)
    requires Covers(groups, Aggregate(docs)) && Mentioned(docs, l)
    ensures (Display(l), PerRowCount(docs, l) + SummarySum(docs, l)) in Displayed(groups)
  {
    var m := Aggregate(docs);
    AggregateMeaning(docs, l);
    DisplayedOfEnumeration(groups, m, (Display(l), m[l]));
  }

  /** Row `a` goes before row `b`: a higher count, or the same count and a label no greater. */
  predicate Before(a: Entry, b: Entry) {
    a.1 > b.1 || (a.1 == b.1 && LexLe(a.0, b.0))
  }

  predicate SortedRows(s: seq<Entry>) {
    forall i, j :: 0 <= i < j < |s| ==> Before(s[i], s[j])
  }

  lemma BeforeTotal(a: Entry, b: Entry)
    ensures Before(a, b) || Before(b, a)
  {
    LexLeTotal(a.0, b.0);
  }

  lemma BeforeAntisymmetric(a: Entry, b: Entry)
    requires Before(a, b) && Before(b, a)
    ensures a == b
  {
    LexLeAntisymmetric(a.0, b.0);
  }

  lemma BeforeTransitive(a: Entry, b: Entry, c: Entry)
    requires Before(a, b) && Before(b, c)
    ensures Before(a, c)
  {
    if a.1 == b.1 == c.1 {
      LexLeTransitive(a.0, b.0, c.0);
    }
  }

  /** Inserting one row into sorted rows at its place. */
  function InsertRow(x: Entry, s: seq<Entry>): (r: seq<Entry>)
    requires SortedRows(s)
    ensures SortedRows(r)
    ensures multiset(r) == multiset(s) + multiset{x}
    decreases |s|
  {
    if s == [] then [x]
    else if Before(x, s[0]) then
      InsertFront(x, s);
      [x] + s
    else
      BeforeTotal(x, s[0]);
      var rest := InsertRow(x, s[1..]);
      assert s == [s[0]] + s[1..];
      InsertBehind(s[0], rest, x, s[1..]);
      [s[0]] + rest
  }

  lemma InsertFront(x: Entry, s: seq<Entry>)
    requires SortedRows(s) && s != [] && Before(x, s[0])
    ensures SortedRows([x] + s)
  {
    forall j | 1 <= j < |s| + 1
      ensures Before(x, ([x] + s)[j])
    {
      if j > 1 {
        BeforeTransitive(x, s[0], s[j - 1]);
      }
    }
  }

  lemma InsertBehind(y: Entry, rest: seq<Entry>, x: Entry, s: seq<Entry>)
    requires SortedRows(rest) && Before(y, x)
    requires forall k :: 0 <= k < |s| ==> Before(y, s[k])
    requires multiset(rest) == multiset(s) + multiset{x}
    ensures SortedRows([y] + rest)
  {
    forall j | 0 <= j < |rest|
      ensures Before(y, rest[j])
    {
      assert rest[j] in multiset(rest);
      if rest[j] != x {
        assert rest[j] in multiset(s);
      }
    }
  }

  /**
   * The rows sorted by count descending, then label ascending. Rows with
   * equal sort keys are equal, so this is the order a stable sort produces
   * whatever the input order (`SortedUnique`).
   */
  function SortRows(s: seq<Entry>): (r: seq<Entry>)
    ensures SortedRows(r) && multiset(r) == multiset(s)
    decreases |s|
  {
    if s == [] then []
    else
      assert s == s[..|s| - 1] + [s[|s| - 1]];
      InsertRow(s[|s| - 1], SortRows(s[..|s| - 1]))
  }

  /** Two sorted arrangements of the same rows are the same sequence. */
  lemma {:induction false} SortedUnique(a: seq<Entry>, b: seq<Entry>)
    requires SortedRows(a) && SortedRows(b) && multiset(a) == multiset(b)
    ensures a == b
    decreases |a|
  {
    if a != [] {
      assert |b| == |a| by {
        assert |multiset(a)| == |a| && |multiset(b)| == |b|;
      }
      if a[0] != b[0] {
        assert a[0] in multiset(b) && b[0] in multiset(a);
        var j :| 0 <= j < |b| && b[j] == a[0];
        var i :| 0 <= i < |a| && a[i] == b[0];
        assert Before(b[0], b[j]) && Before(a[0], a[i]);
        BeforeAntisymmetric(a[0], b[0]);
      }
      assert a == [a[0]] + a[1..] && b == [b[0]] + b[1..];
      assert a[0] == b[0];
      assert multiset(a) == multiset([a[0]]) + multiset(a[1..]);
      assert multiset(b) == multiset([b[0]]) + multiset(b[1..]);
      assert multiset(a[1..]) == multiset(a) - multiset([a[0]]);
      assert multiset(b[1..]) == multiset(b) - multiset([b[0]]);
      SortedUnique(a[1..], b[1..]);
    }
  }

  /**
   * The dashboard's rows: the missing label dropped, labels displayed, rows
   * sorted by count descending then label ascending, and the labels and
   * counts split into two parallel lists.
   */
  method LoadDashboardCounts(groups: seq<(Option<string>, int)>) returns (data: seq<Entry>, labels: seq<string>, counts: seq<int>)
    ensures SortedRows(data) && multiset(data) == multiset(Displayed(groups))
    ensures |labels| == |data| && |counts| == |data|
    ensures forall k :: 0 <= k < |data| ==> labels[k] == data[k].0 && counts[k] == data[k].1
  {
    data := [];
    var i := 0;
    while i < |groups|
      invariant 0 <= i <= |groups|
      invariant data == Displayed(groups[..i])
    {
      var name := groups[i].0;
      if name.Some? {
        data := data + [(Display(name.value), groups[i].1)];
      }
      assert groups[..i + 1][..i] == groups[..i];
      i := i + 1;
    }
    assert groups[..|groups|] == groups;
    data := SortRows(data);
    labels := seq(|data|, k requires 0 <= k < |data| => data[k].0);
    counts := seq(|data|, k requires 0 <= k < |data| => data[k].1);
  }

  /**
   * Display happens after grouping: two raw labels that differ only in a
   * replacement character give two rows with the same displayed label.
   */
  lemma DisplayCollision()
    ensures var groups := [(Some("a\U{FFFD}"), 1), (Some("a-"), 2), (None, 5)];
            SortRows(Displayed(groups)) == [("a-", 2), ("a-", 1)]
  {
    var rows: seq<Entry> := [("a-", 1), ("a-", 2)];
    var sorted: seq<Entry> := [("a-", 2), ("a-", 1)];
    CollidingRows();
    assert SortedRows(sorted);
    assert multiset(sorted) == multiset(rows);
    SortedUnique(SortRows(rows), sorted);
  }

  /** The rows of the colliding groups, before sorting. */
  lemma CollidingRows()
    ensures var groups := [(Some("a\U{FFFD}"), 1), (Some("a-"), 2), (None, 5)];
            Displayed(groups) == [("a-", 1), ("a-", 2)]
  {
    var groups: seq<(Option<string>, int)> := [(Some("a\U{FFFD}"), 1), (Some("a-"), 2), (None, 5)];
    var shown := Display("a\U{FFFD}");
    assert shown == "a-" by {
      assert shown[0] == 'a' && shown[1] == '-';
    }
    assert groups[..1][..0] == [];
    assert Displayed(groups[..1]) == [("a-", 1)];
    assert groups[..2][..1] == groups[..1];
    assert Display("a-") == "a-";
    assert Displayed(groups[..2]) == [("a-", 1), ("a-", 2)];
    assert groups[..|groups| - 1] == groups[..2];
  }
}
