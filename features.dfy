/**
 * The feature table an uploaded CSV becomes before inference: column names
 * trimmed, every `Label` column dropped, every column coerced to numbers
 * (cells that do not parse become NaN), infinities and then NaN replaced by
 * zero.
 *
 * Cells are abstract: the parser's verdict on each raw cell is part of the
 * input, and numbers are exact reals rather than 64-bit floats.
 */
module Features {
  import opened Wrappers
  import opened PyStr

  /** A cell as the CSV reader or the numeric coercion leaves it. */
  datatype Cell = Num(x: real) | NaN | PosInf | NegInf | Unparseable

  /** A named column of cells, top row first. */
  datatype Column = Column(name: string, cells: seq<Cell>)

  // ---------------------------------------------------------------------------
  // The specification: pure functions on columns.
  // ---------------------------------------------------------------------------

  /** Numeric coercion of one cell: what does not parse becomes NaN. */
  function Coerce(c: Cell): (r: Cell)
    ensures r != Unparseable
    ensures c == Unparseable ==> r == NaN
    ensures c != Unparseable ==> r == c
  {
    if c == Unparseable then NaN else c
  }

  /** Infinities of either sign become zero. */
  function ZeroInfinity(c: Cell): (r: Cell)
    ensures !r.PosInf? && !r.NegInf?
    ensures c.PosInf? || c.NegInf? ==> r == Num(0.0)
    ensures !c.PosInf? && !c.NegInf? ==> r == c
  {
    if c.PosInf? || c.NegInf? then Num(0.0) else c
  }

  /** Missing values (NaN) become zero. */
  function FillZero(c: Cell): (r: Cell)
    ensures !r.NaN?
    ensures c.NaN? ==> r == Num(0.0)
    ensures !c.NaN? ==> r == c
  {
    if c.NaN? then Num(0.0) else c
  }

  /** The three cell steps in the order the table goes through them. */
  function Normalize(c: Cell): (r: Cell)
    ensures r.Num?
    ensures c.Num? ==> r == c
    ensures !c.Num? ==> r == Num(0.0)
  {
    FillZero(ZeroInfinity(Coerce(c)))
  }

  function MapColumn(col: Column, f: Cell -> Cell): (r: Column)
    ensures r.name == col.name && |r.cells| == |col.cells|
    ensures forall i :: 0 <= i < |col.cells| ==> r.cells[i] == f(col.cells[i])
  {
    Column(col.name, seq(|col.cells|, i requires 0 <= i < |col.cells| => f(col.cells[i])))
  }

  /** A cell step applied to every cell of every column; names and shape unchanged. */
  function MapCells(cols: seq<Column>, f: Cell -> Cell): (r: seq<Column>)
    ensures |r| == |cols|
    ensures forall j :: 0 <= j < |cols| ==> r[j] == MapColumn(cols[j], f)
  {
    seq(|cols|, j requires 0 <= j < |cols| => MapColumn(cols[j], f))
  }

  /** Every column name with surrounding whitespace removed. */
  function StripNames(cols: seq<Column>): (r: seq<Column>)
    ensures |r| == |cols|
    ensures forall j :: 0 <= j < |cols| ==> r[j] == Column(Strip(cols[j].name), cols[j].cells)
  {
    seq(|cols|, j requires 0 <= j < |cols| => Column(Strip(cols[j].name), cols[j].cells))
  }

  /** The columns not named exactly `Label`, in their order. */
  function DropLabel(cols: seq<Column>): (r: seq<Column>)
    ensures |r| <= |cols|
    ensures forall j :: 0 <= j < |r| ==> r[j].name != "Label"
    decreases |cols|
  {
    if cols == [] then []
    else
      var init := DropLabel(cols[..|cols| - 1]);
      var c := cols[|cols| - 1];
      if c.name == "Label" then init else init + [c]
  }

  /** The whole preparation of the table before inference. */
  function Prepare(cols: seq<Column>): seq<Column> {
    MapCells(DropLabel(StripNames(cols)), Normalize)
  }

  /** How many columns carry `name`. */
  function NameCount(cols: seq<Column>, name: string): nat
    decreases |cols|
  {
    if cols == [] then 0
    else NameCount(cols[..|cols| - 1], name) + if cols[|cols| - 1].name == name then 1 else 0
  }

  /**
   * Some other column carries column `j`'s name. Selecting such a name gives
   * a table rather than one column, and the numeric coercion refuses it with
   * a `TypeError`.
   */
  predicate SharesName(cols: seq<Column>, j: nat)
    requires j < |cols|
  {
    NameCount(cols, cols[j].name) > 1
  }

  /** No two columns carry the same name. */
  predicate UniqueNames(cols: seq<Column>) {
    forall j, k :: 0 <= j < k < |cols| ==> cols[j].name != cols[k].name
  }

  lemma {:induction false} NameCountAbsent(cols: seq<Column>, name: string)
    requires forall k :: 0 <= k < |cols| ==> cols[k].name != name
    ensures NameCount(cols, name) == 0
    decreases |cols|
  {
    if cols != [] {
      NameCountAbsent(cols[..|cols| - 1], name);
    }
  }

  /** A column's own name is counted. */
  lemma {:induction false} NameCountMember(cols: seq<Column>, j: nat)
    requires j < |cols|
    ensures NameCount(cols, cols[j].name) >= 1
    decreases |cols|
  {
    if j < |cols| - 1 {
      NameCountMember(cols[..|cols| - 1], j);
    }
  }

  /** Two columns of the same name make it shared. */
  lemma {:induction false} NameCountPair(cols: seq<Column>, j: nat, k: nat)
    requires j < k < |cols| && cols[j].name == cols[k].name
    ensures NameCount(cols, cols[j].name) >= 2
    decreases |cols|
  {
    var init := cols[..|cols| - 1];
    if k < |cols| - 1 {
      NameCountPair(init, j, k);
    } else {
      NameCountMember(init, j);
    }
  }

  /** With unique names every name is counted once. */
  lemma {:induction false} NameCountUnique(cols: seq<Column>, j: nat)
    requires UniqueNames(cols) && j < |cols|
    ensures NameCount(cols, cols[j].name) == 1
    decreases |cols|
  {
    var init := cols[..|cols| - 1];
    if j < |cols| - 1 {
      NameCountUnique(init, j);
      assert cols[|cols| - 1].name != cols[j].name;
    } else {
      NameCountAbsent(init, cols[j].name);
    }
  }

  /** The count depends on the names alone. */
  lemma {:induction false} NameCountSameNames(a: seq<Column>, b: seq<Column>, name: string)
    requires |a| == |b| && forall k :: 0 <= k < |a| ==> a[k].name == b[k].name
    ensures NameCount(a, name) == NameCount(b, name)
    decreases |a|
  {
    if a != [] {
      NameCountSameNames(a[..|a| - 1], b[..|b| - 1], name);
    }
  }

  /** The index of the first column at or after `i` whose name is shared, or `|cols|`. */
  function FirstSharedFrom(cols: seq<Column>, i: nat): (r: nat)
    requires i <= |cols|
    ensures i <= r <= |cols|
    ensures r < |cols| ==> SharesName(cols, r)
    ensures forall k :: i <= k < r ==> !SharesName(cols, k)
    decreases |cols| - i
  {
    if i == |cols| then i
    else if SharesName(cols, i) then i
    else FirstSharedFrom(cols, i + 1)
  }

  /** The first column whose name is shared; `|cols|` exactly when the names are unique. */
  function FirstShared(cols: seq<Column>): (r: nat)
    ensures r <= |cols|
    ensures r == |cols| <==> UniqueNames(cols)
    ensures r < |cols| ==> SharesName(cols, r) && forall k :: 0 <= k < r ==> !SharesName(cols, k)
  {
    var r := FirstSharedFrom(cols, 0);
    assert UniqueNames(cols) ==> r == |cols| by {
      if UniqueNames(cols) && r < |cols| {
        NameCountUnique(cols, r);
      }
    }
    assert r == |cols| ==> UniqueNames(cols) by {
      if r == |cols| {
        forall j, k | 0 <= j < k < |cols|
          ensures cols[j].name != cols[k].name
        {
          assert !SharesName(cols, j);
          if cols[j].name == cols[k].name {
            NameCountPair(cols, j, k);
          }
        }
      }
    }
    r
  }

  /** The column loop stopped at the first shared name: the columns before it coerced, the rest untouched. */
  function CoercedUntilShared(cols: seq<Column>): (r: seq<Column>)
    ensures |r| == |cols|
    ensures forall j :: 0 <= j < FirstShared(cols) ==> r[j] == MapColumn(cols[j], Coerce)
    ensures forall j :: FirstShared(cols) <= j < |cols| ==> r[j] == cols[j]
  {
    var i := FirstShared(cols);
    MapCells(cols[..i], Coerce) + cols[i..]
  }

  /** Whether a column's name is shared depends on the names alone. */
  lemma SameNamesShare(a: seq<Column>, b: seq<Column>, j: nat)
    requires |a| == |b| && j < |a|
    requires forall k :: 0 <= k < |a| ==> a[k].name == b[k].name
    ensures SharesName(a, j) <==> SharesName(b, j)
  {
    NameCountSameNames(a, b, a[j].name);
  }

  /** The column loop stopped at `j`, the first shared name. */
  lemma StoppedAt(original: seq<Column>, columns: seq<Column>, j: nat)
    requires j < |original| == |columns|
    requires j <= FirstShared(original) && SharesName(original, j)
    requires forall k :: 0 <= k < j ==> columns[k] == MapColumn(original[k], Coerce)
    requires forall k :: j <= k < |columns| ==> columns[k] == original[k]
    ensures FirstShared(original) == j && columns == CoercedUntilShared(original)
  {
    var i := FirstShared(original);
    assert i == j;
  }

  /** The column loop went through every column: no name was shared. */
  lemma RanThrough(original: seq<Column>, columns: seq<Column>)
    requires |original| == |columns| <= FirstShared(original)
    requires forall k :: 0 <= k < |columns| ==> columns[k] == MapColumn(original[k], Coerce)
    ensures UniqueNames(original) && columns == MapCells(original, Coerce)
  {
  }

  /** The trimmed names of the columns kept are unique, so that every column can be coerced. */
  predicate Preparable(cols: seq<Column>) {
    UniqueNames(DropLabel(StripNames(cols)))
  }

  /** Every cell is a number. */
  predicate AllFinite(cols: seq<Column>) {
    forall j, i :: 0 <= j < |cols| && 0 <= i < |cols[j].cells| ==> cols[j].cells[i].Num?
  }

  // ---------------------------------------------------------------------------
  // Properties of the specification.
  // ---------------------------------------------------------------------------

  /**
   * Dropping `Label` columns is a filter: it distributes over concatenation,
   * and keeps a single column exactly when it is not named `Label`. Together
   * these say every other column is kept, in order.
   */
  lemma {:induction false} DropLabelAppend(a: seq<Column>, b: seq<Column>)
    ensures DropLabel(a + b) == DropLabel(a) + DropLabel(b)
    decreases |b|
  {
    if b == [] {
      assert a + b == a;
    } else {
      var init := b[..|b| - 1];
      assert (a + b)[..|a + b| - 1] == a + init;
      DropLabelAppend(a, init);
    }
  }

  lemma DropLabelSingle(c: Column)
    ensures DropLabel([c]) == if c.name == "Label" then [] else [c]
  {
    assert [c][..0] == [];
  }

  /** A column survives exactly when its name is not `Label`. */
  lemma {:induction false} DropLabelMembers(cols: seq<Column>, c: Column)
    ensures c in DropLabel(cols) <==> c in cols && c.name != "Label"
    decreases |cols|
  {
    if cols != [] {
      var init := cols[..|cols| - 1];
      DropLabelMembers(init, c);
      assert cols == init + [cols[|cols| - 1]];
    }
  }

  lemma {:induction false} DropLabelNoop(cols: seq<Column>)
    requires forall j :: 0 <= j < |cols| ==> cols[j].name != "Label"
    ensures DropLabel(cols) == cols
    decreases |cols|
  {
    if cols != [] {
      DropLabelNoop(cols[..|cols| - 1]);
      assert cols == cols[..|cols| - 1] + [cols[|cols| - 1]];
    }
  }

  /** After preparation every cell is a number, names are trimmed and no column is named `Label`. */
  lemma PreparedShape(cols: seq<Column>)
    ensures var p := Prepare(cols);
            && AllFinite(p)
            && forall j :: 0 <= j < |p| ==> p[j].name != "Label" && Strip(p[j].name) == p[j].name
  {
    var p := Prepare(cols);
    var d := DropLabel(StripNames(cols));
    forall j | 0 <= j < |p|
      ensures Strip(p[j].name) == p[j].name
    {
      assert d[j] in d;
      DropLabelMembers(StripNames(cols), d[j]);
      var k :| 0 <= k < |cols| && StripNames(cols)[k] == d[j];
      StripIdempotent(cols[k].name);
    }
  }

  /** Dropping columns keeps every remaining column's height. */
  lemma {:induction false} DropLabelHeights(cols: seq<Column>, h: nat)
    requires forall j :: 0 <= j < |cols| ==> |cols[j].cells| == h
    ensures forall j :: 0 <= j < |DropLabel(cols)| ==> |DropLabel(cols)[j].cells| == h
    decreases |cols|
  {
    if cols != [] {
      DropLabelHeights(cols[..|cols| - 1], h);
    }
  }

  /** Renaming and dropping columns keeps every column's height. */
  lemma CleanedHeights(cols: seq<Column>, h: nat)
    requires forall j :: 0 <= j < |cols| ==> |cols[j].cells| == h
    ensures var d := DropLabel(StripNames(cols));
            forall j :: 0 <= j < |d| ==> |d[j].cells| == h
  {
    var named := StripNames(cols);
    assert forall j :: 0 <= j < |named| ==> named[j].cells == cols[j].cells;
    DropLabelHeights(named, h);
  }

  /** A cell step that leaves every cell alone leaves the table alone. */
  lemma MapCellsNoop(cols: seq<Column>, f: Cell -> Cell)
    requires forall j, i :: 0 <= j < |cols| && 0 <= i < |cols[j].cells| ==> f(cols[j].cells[i]) == cols[j].cells[i]
    ensures MapCells(cols, f) == cols
  {
    forall j | 0 <= j < |cols|
      ensures MapColumn(cols[j], f) == cols[j]
    {
      assert MapColumn(cols[j], f).cells == cols[j].cells;
    }
  }

  lemma StripNamesNoop(cols: seq<Column>)
    requires forall j :: 0 <= j < |cols| ==> Strip(cols[j].name) == cols[j].name
    ensures StripNames(cols) == cols
  {
  }

  /** The three cell steps one after the other are `Normalize` on every cell. */
  lemma MapCellsCompose(cols: seq<Column>)
    ensures MapCells(MapCells(MapCells(cols, Coerce), ZeroInfinity), FillZero) == MapCells(cols, Normalize)
  {
    var a := MapCells(MapCells(MapCells(cols, Coerce), ZeroInfinity), FillZero);
    forall j | 0 <= j < |cols|
      ensures a[j] == MapColumn(cols[j], Normalize)
    {
      assert a[j].cells == MapColumn(cols[j], Normalize).cells;
    }
  }

  /** A leading space is trimmed away: `" A"` and `"A"` name the same column. */
  lemma LeadingSpaceTrimmed()
    ensures Strip(" A") == "A" && Strip("A") == "A"
  {
    assert IsSpace(' ') && !IsSpace('A');
    assert DropWhile("A", IsSpace) == "A";
    assert " A"[1..] == "A";
    assert DropWhile(" A", IsSpace) == "A";
    assert DropWhileEnd("A", IsSpace) == "A";
  }

  /** Two kept columns of the same name survive the drop as two columns of the same name. */
  lemma {:induction false} DropLabelKeepsCollision(cols: seq<Column>, j: nat, k: nat)
    requires j < k < |cols|
    requires cols[j].name == cols[k].name != "Label"
    ensures !UniqueNames(DropLabel(cols))
  {
    var x, y := cols[j], cols[k];
    var pre, post := cols[..k], cols[k..];
    assert cols == pre + post;
    DropLabelAppend(pre, post);
    assert post == [y] + post[1..];
    DropLabelAppend([y], post[1..]);
    DropLabelSingle(y);
    var d, dp := DropLabel(cols), DropLabel(pre);
    assert d == dp + [y] + DropLabel(post[1..]);
    assert pre[j] == x;
    DropLabelMembers(pre, x);
    var p :| 0 <= p < |dp| && dp[p] == x;
    assert d[p] == x;
    assert d[|dp|] == y;
  }

  /**
   * Two columns whose names agree once trimmed, and are not `Label`, make the
   * table impossible to prepare, wherever they stand.
   */
  lemma TrimmedNamesCollide(cols: seq<Column>, j: nat, k: nat)
    requires j < k < |cols|
    requires Strip(cols[j].name) == Strip(cols[k].name) != "Label"
    ensures !Preparable(cols)
  {
    DropLabelKeepsCollision(StripNames(cols), j, k);
  }

  /** `"A"` and `" A"` are such a pair. */
  lemma SpacedDuplicate(cells: seq<Cell>)
    ensures !Preparable([Column("A", cells), Column(" A", cells)])
  {
    LeadingSpaceTrimmed();
    TrimmedNamesCollide([Column("A", cells), Column(" A", cells)], 0, 1);
  }

  /** A prepared table can be prepared again. */
  lemma PreparedPreparable(cols: seq<Column>)
    requires Preparable(cols)
    ensures Preparable(Prepare(cols))
  {
    var p := Prepare(cols);
    var d := DropLabel(StripNames(cols));
    PreparedShape(cols);
    StripNamesNoop(p);
    DropLabelNoop(p);
    assert forall j :: 0 <= j < |p| ==> p[j].name == d[j].name;
  }

  /** Preparing an already prepared table changes nothing. */
  lemma PrepareIdempotent(cols: seq<Column>)
    ensures Prepare(Prepare(cols)) == Prepare(cols)
  {
    var p := Prepare(cols);
    PreparedShape(cols);
    StripNamesNoop(p);
    DropLabelNoop(p);
    MapCellsNoop(p, Normalize);
  }

  // ---------------------------------------------------------------------------
  // The table as the inference code updates it.
  // ---------------------------------------------------------------------------

  /** A table of `height` rows whose columns are updated in place. */
  class Frame {
    var columns: seq<Column>
    var height: nat

    /** Every column holds one cell per row. */
    ghost predicate Valid()
      reads this
    {
      forall j :: 0 <= j < |columns| ==> |columns[j].cells| == height
    }

    constructor (columns: seq<Column>, height: nat)
      requires forall j :: 0 <= j < |columns| ==> |columns[j].cells| == height
      ensures Valid() && this.columns == columns && this.height == height
    {
      this.columns := columns;
      this.height := height;
    }

    /** The number of columns, the table's width. */
    function Width(): nat
      reads this
    {
      |columns|
    }

    /** Trims every column name, then drops the columns named `Label`. */
    method CleanColumnNames()
      requires Valid()
      modifies this
      ensures Valid() && height == old(height)
      ensures columns == DropLabel(StripNames(old(columns)))
    {
      ghost var before := columns;
      CleanedHeights(before, height);
      var named := StripNames(columns);
      if exists j :: 0 <= j < |named| && named[j].name == "Label" {
        columns := DropLabel(named);
      } else {
        DropLabelNoop(named);
        columns := named;
      }
      assert columns == DropLabel(StripNames(before));
    }

    /**
     * Coerces every column to numbers, one column at a time. The loop stops
     * at the first column whose name another column shares, with the columns
     * before it already coerced, and reports that name.
     */
    method CoerceNumeric() returns (shared: Option<string>)
      requires Valid()
      modifies this
      ensures Valid() && height == old(height)
      ensures shared.None? <==> UniqueNames(old(columns))
      ensures shared.None? ==> columns == MapCells(old(columns), Coerce)
      ensures shared.Some? ==> && columns == CoercedUntilShared(old(columns))
                               && shared.value == old(columns)[FirstShared(old(columns))].name
    {
      ghost var original := columns;
      var j := 0;
      while j < |columns|
        invariant 0 <= j <= |columns| == |original|
        invariant j <= FirstShared(original)
        invariant forall k :: 0 <= k < j ==> columns[k] == MapColumn(original[k], Coerce)
        invariant forall k :: j <= k < |columns| ==> columns[k] == original[k]
        invariant Valid() && height == old(height)
      {
        if SharesName(columns, j) {
          SameNamesShare(columns, original, j);
          StoppedAt(original, columns, j);
          return Some(columns[j].name);
        }
        SameNamesShare(original, columns, j);
        assert FirstShared(original) != j;
        columns := columns[j := MapColumn(columns[j], Coerce)];
        j := j + 1;
      }
      RanThrough(original, columns);
      return None;
    }

    /** Replaces both infinities by zero in every cell. */
    method ReplaceInfinities()
      requires Valid()
      modifies this
      ensures Valid() && height == old(height)
      ensures columns == MapCells(old(columns), ZeroInfinity)
    {
      columns := MapCells(columns, ZeroInfinity);
    }

    /** Replaces every NaN by zero. */
    method FillMissing()
      requires Valid()
      modifies this
      ensures Valid() && height == old(height)
      ensures columns == MapCells(old(columns), FillZero)
    {
      columns := MapCells(columns, FillZero);
    }

    /**
     * The whole preparation, step by step. When the kept names are unique the
     * result is `Prepare` of the table read; otherwise the coercion stops at
     * the first shared name, which is reported.
     */
    method PrepareInPlace() returns (shared: Option<string>)
      requires Valid()
      modifies this
      ensures Valid() && height == old(height)
      ensures shared.None? <==> Preparable(old(columns))
      ensures shared.None? ==> columns == Prepare(old(columns)) && AllFinite(columns)
      ensures shared.Some? ==> var d := DropLabel(StripNames(old(columns)));
                               && columns == CoercedUntilShared(d)
                               && shared.value == d[FirstShared(d)].name
    {
      ghost var read := columns;
      CleanColumnNames();
      shared := CoerceNumeric();
      if shared.Some? {
        return;
      }
      ReplaceInfinities();
      FillMissing();
      MapCellsCompose(DropLabel(StripNames(read)));
      PreparedShape(read);
    }
  }
}
