/**
 * The scan history kept in the document store: how one upload's predictions
 * are written (one document per prediction, or one summary document holding
 * a label tally), and how the history page reads documents back, newest
 * first, rendering every summary as an alert line or a benign line.
 *
 * The store is a sequence of documents; the query, sort and limit the
 * database performs are modelled over that sequence.
 */
module History {
  import opened Wrappers
  import opened PyStr

  /** A label tally in insertion order, as the `attack_counts` sub-document holds it. */
  type Counts = seq<(string, int)>

  /**
   * The two kinds of document: a per-prediction document holding its label
   * (absent in documents the model does not know how they were written) and
   * an upload summary with its tally, total and uploaded file name.
   */
  datatype Doc =
    | PerRow(attack: Option<string>)
    | Summary(counts: Counts, total: int, sourceFile: Option<string>)

  /** A document as stored: its identifier, its timestamp and its fields. */
  datatype StoredDoc = StoredDoc(id: nat, timestamp: int, doc: Doc)

  // ---------------------------------------------------------------------------
  // The label tally (a `Counter` over the predictions).
  // ---------------------------------------------------------------------------

  function Keys(t: Counts): (ks: seq<string>)
    ensures |ks| == |t| && forall i :: 0 <= i < |t| ==> ks[i] == t[i].0
  {
    seq(|t|, i requires 0 <= i < |t| => t[i].0)
  }

  function SumCounts(t: Counts): int {
    if t == [] then 0 else t[0].1 + SumCounts(t[1..])
  }

  predicate Distinct(ks: seq<string>) {
    forall i, j :: 0 <= i < j < |ks| ==> ks[i] != ks[j]
  }

  lemma KeysCons(p: (string, int), u: Counts)
    ensures Keys([p] + u) == [p.0] + Keys(u)
  {
  }

  lemma SumCons(p: (string, int), u: Counts)
    ensures SumCounts([p] + u) == p.1 + SumCounts(u)
  {
    assert ([p] + u)[1..] == u;
  }

  /** The tail of a tally with distinct labels has distinct labels, none of them the head's. */
  lemma DistinctTail(t: Counts)
    requires t != [] && Distinct(Keys(t))
    ensures Distinct(Keys(t[1..])) && t[0].0 !in Keys(t[1..])
    ensures forall i :: 0 < i < |t| ==> t[i].0 != t[0].0
  {
    var ks := Keys(t);
    var ts := Keys(t[1..]);
    assert forall i :: 0 <= i < |ts| ==> ts[i] == ks[i + 1];
    forall i, j | 0 <= i < j < |ts| ensures ts[i] != ts[j] {
      assert ks[i + 1] != ks[j + 1];
    }
    forall i | 0 < i < |t| ensures t[i].0 != t[0].0 {
      assert ks[0] != ks[i];
    }
  }

  /** One more occurrence of `x`: the first entry labelled `x` goes up by one, or a new entry `(x, 1)` is added at the end. */
  function Bump(t: Counts, x: string): (r: Counts)
    ensures r != []
    decreases |t|
  {
    if t == [] then [(x, 1)]
    else if t[0].0 == x then [(x, t[0].1 + 1)] + t[1..]
    else [t[0]] + Bump(t[1..], x)
  }

  /** Bumping keeps the labels and their order, and appends `x` when it is new. */
  lemma {:induction false} BumpKeys(t: Counts, x: string)
    ensures Keys(Bump(t, x)) == if x in Keys(t) then Keys(t) else Keys(t) + [x]
    ensures |Bump(t, x)| == if x in Keys(t) then |t| else |t| + 1
    decreases |t|
  {
    if t != [] {
      assert t == [t[0]] + t[1..];
      KeysCons(t[0], t[1..]);
      if t[0].0 == x {
        KeysCons((x, t[0].1 + 1), t[1..]);
      } else {
        var rest := Bump(t[1..], x);
        var ks := Keys(t[1..]);
        BumpKeys(t[1..], x);
        KeysCons(t[0], rest);
        assert x in Keys(t) <==> x in ks;
        if x !in ks {
          assert [t[0].0] + (ks + [x]) == ([t[0].0] + ks) + [x];
        }
      }
    }
  }

  /** Bumping adds one to `x`'s entry, or adds the entry `(x, 1)` at the end, and leaves every other entry alone. */
  lemma {:induction false} BumpEntries(t: Counts, x: string)
    requires Distinct(Keys(t))
    ensures |Bump(t, x)| == if x in Keys(t) then |t| else |t| + 1
    ensures forall i :: 0 <= i < |t| ==> Bump(t, x)[i] == (t[i].0, t[i].1 + if t[i].0 == x then 1 else 0)
    ensures x !in Keys(t) ==> Bump(t, x)[|t|] == (x, 1)
    decreases |t|
  {
    BumpKeys(t, x);
    if t != [] {
      DistinctTail(t);
      if t[0].0 != x {
        var rest := Bump(t[1..], x);
        BumpEntries(t[1..], x);
        assert Bump(t, x) == [t[0]] + rest;
        forall i | 0 < i < |t| ensures Bump(t, x)[i] == (t[i].0, t[i].1 + if t[i].0 == x then 1 else 0) {
          assert Bump(t, x)[i] == rest[i - 1];
        }
        if x !in Keys(t) {
          assert Bump(t, x)[|t|] == rest[|t| - 1];
        }
      }
    }
  }

  /** Bumping adds one to the total. */
  lemma {:induction false} BumpSum(t: Counts, x: string)
    ensures SumCounts(Bump(t, x)) == SumCounts(t) + 1
    decreases |t|
  {
    if t != [] {
      assert t == [t[0]] + t[1..];
      SumCons(t[0], t[1..]);
      if t[0].0 == x {
        SumCons((x, t[0].1 + 1), t[1..]);
      } else {
        BumpSum(t[1..], x);
        SumCons(t[0], Bump(t[1..], x));
      }
    }
  }

  /** `Counter(attacks)`: one entry per distinct label, in order of first occurrence. */
  function Tally(xs: seq<string>): (t: Counts)
    ensures Keys(t) == Dedup(xs)
    decreases |xs|
  {
    if xs == [] then []
    else
      var t0 := Tally(xs[..|xs| - 1]);
      BumpKeys(t0, xs[|xs| - 1]);
      Bump(t0, xs[|xs| - 1])
  }

  /** The distinct labels, in order of first occurrence. */
  function Dedup(xs: seq<string>): (ks: seq<string>)
    ensures Distinct(ks)
    ensures forall x :: x in ks <==> x in xs
    decreases |xs|
  {
    if xs == [] then []
    else
      var init := Dedup(xs[..|xs| - 1]);
      var x := xs[|xs| - 1];
      assert xs == xs[..|xs| - 1] + [x];
      if x in init then init else init + [x]
  }

  lemma MultisetLast(xs: seq<string>, k: string)
    requires xs != []
    ensures multiset(xs)[k] == multiset(xs[..|xs| - 1])[k] + (if k == xs[|xs| - 1] then 1 else 0)
  {
    assert xs == xs[..|xs| - 1] + [xs[|xs| - 1]];
  }

  /** Each label's count is its number of occurrences among the predictions. */
  lemma {:induction false} TallyCounts(xs: seq<string>, i: nat)
    requires i < |Tally(xs)|
    ensures Tally(xs)[i].1 == multiset(xs)[Tally(xs)[i].0]
    decreases |xs|
  {
    var init := xs[..|xs| - 1];
    var x := xs[|xs| - 1];
    var t0 := Tally(init);
    BumpEntries(t0, x);
    MultisetLast(xs, Tally(xs)[i].0);
    if i < |t0| {
      TallyCounts(init, i);
    } else {
      assert x !in init;
    }
  }

  /** The counts add up to the number of predictions. */
  lemma {:induction false} TallySum(xs: seq<string>)
    ensures SumCounts(Tally(xs)) == |xs|
    decreases |xs|
  {
    if xs != [] {
      TallySum(xs[..|xs| - 1]);
      BumpSum(Tally(xs[..|xs| - 1]), xs[|xs| - 1]);
    }
  }

  // ---------------------------------------------------------------------------
  // Writing one upload's predictions.
  // ---------------------------------------------------------------------------

  /** The summary document of one upload: its tally and the tally's total. */
  function SummaryDoc(attacks: seq<string>, sourceFile: Option<string>): Doc {
    var t := Tally(attacks);
    Summary(t, SumCounts(t), sourceFile)
  }

  /** The per-prediction documents of one upload, in prediction order. */
  function PerRowDocs(attacks: seq<string>): (ds: seq<Doc>)
    ensures |ds| == |attacks| && forall i :: 0 <= i < |attacks| ==> ds[i] == PerRow(Some(attacks[i]))
  {
    seq(|attacks|, i requires 0 <= i < |attacks| => PerRow(Some(attacks[i])))
  }

  /** Inserting documents: each gets the next identifier and the one timestamp `now`; nothing stored before changes. */
  function Insert(store: seq<StoredDoc>, docs: seq<Doc>, now: int): (r: seq<StoredDoc>)
    ensures |r| == |store| + |docs| && r[..|store|] == store
    ensures forall i :: 0 <= i < |docs| ==> r[|store| + i] == StoredDoc(|store| + i, now, docs[i])
  {
    store + seq(|docs|, i requires 0 <= i < |docs| => StoredDoc(|store| + i, now, docs[i]))
  }

  /**
   * Storing one upload's predictions: mode `per_row` writes one document per
   * prediction (and nothing for an empty upload); any other mode writes one
   * summary document.
   */
  function StoreResults(store: seq<StoredDoc>, mode: string, attacks: seq<string>, now: int, sourceFile: Option<string>): (r: seq<StoredDoc>)
    ensures |r| >= |store| && r[..|store|] == store
    ensures mode == "per_row" ==>
              |r| == |store| + |attacks|
              && forall i :: 0 <= i < |attacks| ==> r[|store| + i] == StoredDoc(|store| + i, now, PerRow(Some(attacks[i])))
    ensures mode != "per_row" ==>
              |r| == |store| + 1 && r[|store|] == StoredDoc(|store|, now, SummaryDoc(attacks, sourceFile))
  {
    if mode == "per_row" then
      var docs := PerRowDocs(attacks);
      if docs == [] then store else Insert(store, docs, now)
    else Insert(store, [SummaryDoc(attacks, sourceFile)], now)
  }

  /**
   * The summary document records the upload faithfully: one entry per
   * distinct label in order of first occurrence, each count the label's
   * number of occurrences, and a total equal to the number of predictions.
   */
  lemma SummaryDocFaithful(attacks: seq<string>, sourceFile: Option<string>)
    ensures var d := SummaryDoc(attacks, sourceFile);
            && Keys(d.counts) == Dedup(attacks)
            && (forall i :: 0 <= i < |d.counts| ==> d.counts[i].1 == multiset(attacks)[d.counts[i].0])
            && d.total == SumCounts(d.counts) == |attacks|
  {
    TallySum(attacks);
    forall i | 0 <= i < |Tally(attacks)| ensures Tally(attacks)[i].1 == multiset(attacks)[Tally(attacks)[i].0] {
      TallyCounts(attacks, i);
    }
  }

  // ---------------------------------------------------------------------------
  // Rendering a stored document for the history page.
  // ---------------------------------------------------------------------------

  /** Upper-casing `c` gives the upper-case ASCII letter `u`: only `u` itself, its lower case, and for `I` the dotless i, do. */
  predicate UpperIs(c: char, u: char)
    requires 'A' <= u <= 'Z'
  {
    c == u || c as int == u as int + 32 || (u == 'I' && c == '\U{0131}')
  }

  /** The label upper-cases to `BENIGN`. */
  predicate IsBenign(k: string) {
    && |k| == 6
    && UpperIs(k[0], 'B') && UpperIs(k[1], 'E') && UpperIs(k[2], 'N')
    && UpperIs(k[3], 'I') && UpperIs(k[4], 'G') && UpperIs(k[5], 'N')
  }

  /** The positions of the entries whose label is not benign, in increasing order. */
  function AlertPositions(t: Counts): (ix: seq<nat>)
    ensures forall m :: 0 <= m < |ix| ==> ix[m] < |t| && !IsBenign(t[ix[m]].0)
    ensures forall m, n :: 0 <= m < n < |ix| ==> ix[m] < ix[n]
    ensures forall j :: 0 <= j < |t| && !IsBenign(t[j].0) ==> j in ix
    decreases |t|
  {
    if t == [] then []
    else
      var init := t[..|t| - 1];
      var prev := AlertPositions(init);
      assert forall k :: 0 <= k < |init| ==> init[k] == t[k];
      if IsBenign(t[|t| - 1].0) then prev else prev + [|t| - 1]
  }

  /** The tally entries whose label does not upper-case to `BENIGN`, in tally order. */
  function Alerts(t: Counts): (a: Counts)
    ensures |a| == |AlertPositions(t)|
    ensures forall m :: 0 <= m < |a| ==> a[m] == t[AlertPositions(t)[m]]
  {
    var ix := AlertPositions(t);
    seq(|ix|, m requires 0 <= m < |ix| => t[ix[m]])
  }

  /** Python's `max` by count: the first entry whose count no other entry exceeds. */
  function FirstMax(t: Counts): (i: nat)
    requires t != []
    ensures i < |t|
    ensures forall j :: 0 <= j < |t| ==> t[j].1 <= t[i].1
    ensures forall j :: 0 <= j < i ==> t[j].1 < t[i].1
  {
    if |t| == 1 then 0
    else
      var j := FirstMax(t[..|t| - 1]);
      assert forall k :: 0 <= k < |t| - 1 ==> t[..|t| - 1][k] == t[k];
      if t[|t| - 1].1 > t[j].1 then |t| - 1 else j
  }

  /** What a summary line reports. */
  datatype Verdict = Alert(top: string) | AllBenign

  /** An alert naming the most frequent non-benign label, or the benign verdict when there is none. */
  function Summarize(t: Counts): Verdict {
    var a := Alerts(t);
    if a == [] then AllBenign else Alert(a[FirstMax(a)].0)
  }

  /** The history text of a summary document. */
  function SummaryText(total: int, v: Verdict): string {
    match v
    case Alert(top) =>
      "\U{26A0}\U{FE0F} Scan Results: " + IntToDecimal(total) + " rows. ALERT: Most frequent: " + top
    case AllBenign =>
      "\U{2705} Scan Results: " + IntToDecimal(total) + " rows. Status: BENIGN"
  }

  /**
   * The attack column of a history row: the summary text for a document
   * with a non-empty tally, and otherwise the document's `attack` field
   * (which a summary document does not have).
   */
  function RenderDoc(d: Doc): Option<string> {
    match d
    case PerRow(a) => a
    case Summary(counts, total, _) => if counts == [] then None else Some(SummaryText(total, Summarize(counts)))
  }

  /** Entry `i` is the one the alert names: not benign, no non-benign count above it, every earlier non-benign count below it. */
  predicate TopAlert(t: Counts, i: nat) {
    && i < |t| && !IsBenign(t[i].0)
    && (forall j :: 0 <= j < |t| && !IsBenign(t[j].0) ==> t[j].1 <= t[i].1)
    && (forall j :: 0 <= j < i && !IsBenign(t[j].0) ==> t[j].1 < t[i].1)
  }

  /** The benign verdict is given exactly when every label is benign. */
  lemma SummarizeBenign(t: Counts)
    ensures Summarize(t) == AllBenign <==> forall i :: 0 <= i < |t| ==> IsBenign(t[i].0)
  {
    var ix := AlertPositions(t);
    if exists i :: 0 <= i < |t| && !IsBenign(t[i].0) {
      var i :| 0 <= i < |t| && !IsBenign(t[i].0);
      assert i in ix;
    }
  }

  /** The alert names the first non-benign label with the largest count. */
  lemma SummarizeTop(t: Counts) returns (i: nat)
    requires Summarize(t).Alert?
    ensures TopAlert(t, i) && t[i].0 == Summarize(t).top
  {
    var ix := AlertPositions(t);
    var a := Alerts(t);
    var f := FirstMax(a);
    i := ix[f];
    forall j | 0 <= j < |t| && !IsBenign(t[j].0) ensures t[j].1 <= t[i].1 && (j < i ==> t[j].1 < t[i].1) {
      var m :| 0 <= m < |ix| && ix[m] == j;
      assert a[m] == t[j];
      if j < i {
        assert m < f;
      }
    }
  }

  /**
   * Write then read: the history line of an upload's summary reports the
   * number of predictions; an empty upload's summary shows no attack text.
   */
  lemma SummaryReadBack(attacks: seq<string>, sourceFile: Option<string>)
    ensures attacks == [] ==> RenderDoc(SummaryDoc(attacks, sourceFile)) == None
    ensures attacks != [] ==>
              RenderDoc(SummaryDoc(attacks, sourceFile)) == Some(SummaryText(|attacks|, Summarize(Tally(attacks))))
  {
    SummaryDocFaithful(attacks, sourceFile);
    if attacks != [] {
      assert attacks[0] in Keys(Tally(attacks));
    }
  }

  /** Every entry of a tally is benign exactly when every tallied label is. */
  lemma BenignKeys(t: Counts, xs: seq<string>)
    requires Keys(t) == Dedup(xs)
    ensures (forall i :: 0 <= i < |t| ==> IsBenign(t[i].0)) <==> (forall a :: a in xs ==> IsBenign(a))
  {
    if forall i :: 0 <= i < |t| ==> IsBenign(t[i].0) {
      forall a | a in xs ensures IsBenign(a) {
        assert a in Keys(t);
      }
    } else {
      var i :| 0 <= i < |t| && !IsBenign(t[i].0);
      assert t[i].0 in Keys(t);
    }
  }

  /** An upload's summary is an alert exactly when some prediction is not benign. */
  lemma UploadVerdictBenign(attacks: seq<string>)
    ensures Summarize(Tally(attacks)) == AllBenign <==> forall a :: a in attacks ==> IsBenign(a)
  {
    var t := Tally(attacks);
    SummarizeBenign(t);
    BenignKeys(t, attacks);
  }

  /** A top alert of a tally of `xs` is a non-benign label of `xs` that no other non-benign label outnumbers. */
  lemma TopOfTally(t: Counts, xs: seq<string>, i: nat)
    requires Keys(t) == Dedup(xs) && TopAlert(t, i)
    requires forall j :: 0 <= j < |t| ==> t[j].1 == multiset(xs)[t[j].0]
    ensures t[i].0 in xs && !IsBenign(t[i].0)
    ensures forall a :: a in xs && !IsBenign(a) ==> multiset(xs)[a] <= multiset(xs)[t[i].0]
  {
    assert t[i].0 in Keys(t);
    forall a | a in xs && !IsBenign(a) ensures multiset(xs)[a] <= multiset(xs)[t[i].0] {
      assert a in Keys(t);
      var j :| 0 <= j < |t| && Keys(t)[j] == a;
    }
  }

  /** The label an upload's alert names was predicted, is not benign, and no non-benign label was predicted more often. */
  lemma UploadVerdictTop(attacks: seq<string>)
    requires Summarize(Tally(attacks)).Alert?
    ensures var top := Summarize(Tally(attacks)).top;
            top in attacks && !IsBenign(top)
            && forall a :: a in attacks && !IsBenign(a) ==> multiset(attacks)[a] <= multiset(attacks)[top]
  {
    var t := Tally(attacks);
    var i := SummarizeTop(t);
    forall j | 0 <= j < |t| ensures t[j].1 == multiset(attacks)[t[j].0] {
      TallyCounts(attacks, j);
    }
    TopOfTally(t, attacks, i);
  }

  // ---------------------------------------------------------------------------
  // Reading the history back.
  // ---------------------------------------------------------------------------

  /** The number of documents asked for: the default when none is given or the given one is not positive. */
  function NormalizeLimit(limit: Option<int>, default: int): (n: int)
    ensures limit.Some? && limit.value > 0 ==> n == limit.value
    ensures limit.None? || limit.value <= 0 ==> n == default
    ensures default > 0 ==> n > 0
  {
    match limit
    case None => default
    case Some(l) => if l <= 0 then default else l
  }

  /** The documents the query selects: only summaries when the store mode is `summary`, every document otherwise. */
  function Matching(docs: seq<StoredDoc>, mode: string): (r: seq<StoredDoc>)
    ensures |r| <= |docs|
    ensures mode != "summary" ==> r == docs
    ensures mode == "summary" ==> forall d :: d in r <==> d in docs && d.doc.Summary?
  {
    if mode != "summary" || docs == [] then docs
    else
      var rest := Matching(docs[1..], mode);
      assert forall d :: d in docs <==> d == docs[0] || d in docs[1..];
      if docs[0].doc.Summary? then [docs[0]] + rest else rest
  }

  /** A cursor limit: zero means no limit, a negative limit acts as its absolute value. */
  function CursorLimit(docs: seq<StoredDoc>, n: int): (r: seq<StoredDoc>)
    ensures n == 0 ==> r == docs
    ensures n != 0 ==> |r| == (if |docs| < Abs(n) then |docs| else Abs(n))
    ensures |r| <= |docs| && r == docs[..|r|]
  {
    if n == 0 || |docs| <= Abs(n) then docs else docs[..Abs(n)]
  }

  function Abs(n: int): nat {
    if n < 0 then -n else n
  }

  /** A row of the history page: document identifier, attack column, timestamp. */
  datatype Row = Row(id: nat, attack: Option<string>, timestamp: int)

  function RowOf(d: StoredDoc): Row {
    Row(d.id, RenderDoc(d.doc), d.timestamp)
  }

  /** The history page over documents given newest first. */
  function HistoryRows(newestFirst: seq<StoredDoc>, mode: string, limit: Option<int>, default: int): seq<Row> {
    var cursor := CursorLimit(Matching(newestFirst, mode), NormalizeLimit(limit, default));
    seq(|cursor|, i requires 0 <= i < |cursor| => RowOf(cursor[i]))
  }

  /** The history page as the program builds it: one row appended per document of the cursor. */
  method LoadHistoryRows(newestFirst: seq<StoredDoc>, mode: string, limit: Option<int>, default: int) returns (rows: seq<Row>)
    ensures rows == HistoryRows(newestFirst, mode, limit, default)
  {
    var n := NormalizeLimit(limit, default);
    var cursor := CursorLimit(Matching(newestFirst, mode), n);
    rows := [];
    var i := 0;
    while i < |cursor|
      invariant 0 <= i <= |cursor|
      invariant rows == seq(i, k requires 0 <= k < i => RowOf(cursor[k]))
    {
      rows := rows + [RowOf(cursor[i])];
      i := i + 1;
    }
  }

  /**
   * What the history page shows: at most `limit` rows when the default is
   * positive, in the order the documents came, and in summary mode only
   * summary documents.
   */
  lemma HistoryRowsShape(newestFirst: seq<StoredDoc>, mode: string, limit: Option<int>, default: int)
    ensures var rows := HistoryRows(newestFirst, mode, limit, default);
            && |rows| <= |newestFirst|
            && (default > 0 ==> |rows| <= NormalizeLimit(limit, default))
            && (mode == "summary" ==> forall r :: r in rows ==> exists d :: d in newestFirst && d.doc.Summary? && RowOf(d) == r)
            && (mode != "summary" && limit.Some? && 0 < limit.value <= |newestFirst| ==> |rows| == limit.value)
  {
    var cursor := CursorLimit(Matching(newestFirst, mode), NormalizeLimit(limit, default));
    var rows := HistoryRows(newestFirst, mode, limit, default);
    if mode == "summary" {
      forall r | r in rows ensures exists d :: d in newestFirst && d.doc.Summary? && RowOf(d) == r {
        var i :| 0 <= i < |rows| && rows[i] == r;
        assert cursor[i] in Matching(newestFirst, mode);
      }
    }
  }

  predicate NewestFirst(docs: seq<StoredDoc>) {
    forall i, j :: 0 <= i < j < |docs| ==> docs[i].timestamp >= docs[j].timestamp
  }

  /** The summary filter distributes over concatenation: it keeps documents in their order. */
  lemma {:induction false} MatchingAppend(a: seq<StoredDoc>, b: seq<StoredDoc>, mode: string)
    ensures Matching(a + b, mode) == Matching(a, mode) + Matching(b, mode)
    decreases |a|
  {
    if mode == "summary" && a != [] {
      assert (a + b)[1..] == a[1..] + b;
      MatchingAppend(a[1..], b, mode);
    } else if a == [] {
      assert a + b == b;
    }
  }

  /** On one document the summary filter keeps it exactly when it is a summary. */
  lemma MatchingSingle(d: StoredDoc)
    ensures Matching([d], "summary") == if d.doc.Summary? then [d] else []
  {
    assert [d][1..] == [];
  }

  /** Selecting summaries keeps the newest-first order. */
  lemma {:induction false} MatchingKeepsOrder(docs: seq<StoredDoc>, mode: string)
    requires NewestFirst(docs)
    ensures NewestFirst(Matching(docs, mode))
    decreases |docs|
  {
    if mode == "summary" && docs != [] {
      var rest := Matching(docs[1..], mode);
      MatchingKeepsOrder(docs[1..], mode);
      forall d | d in rest ensures d.timestamp <= docs[0].timestamp {
        var j :| 0 <= j < |docs[1..]| && docs[1..][j] == d;
        assert docs[j + 1] == d;
      }
    }
  }

  /** The history page lists its rows newest first when the documents come newest first. */
  lemma HistoryNewestFirst(newestFirst: seq<StoredDoc>, mode: string, limit: Option<int>, default: int)
    requires NewestFirst(newestFirst)
    ensures var rows := HistoryRows(newestFirst, mode, limit, default);
            forall i, j :: 0 <= i < j < |rows| ==> rows[i].timestamp >= rows[j].timestamp
  {
    MatchingKeepsOrder(newestFirst, mode);
    var m := Matching(newestFirst, mode);
    var cursor := CursorLimit(m, NormalizeLimit(limit, default));
    assert forall i :: 0 <= i < |cursor| ==> cursor[i] == m[i];
  }
}
