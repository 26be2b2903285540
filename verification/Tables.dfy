/** Columnar tables that grow one row at a time: the serial reference every decoder appends to. A table is a
    list of columns, column 0 being the packet_id column; all its columns have one length. */
module Tables {
  import opened Wire

  /** One decoded record: the table it goes to, and one value per column. */
  datatype Emit<V> = Emit(tab: nat, row: seq<V>)

  ghost predicate Shaped<V>(tabs: seq<seq<seq<V>>>, widths: seq<nat>) {
    && |tabs| == |widths|
    && forall t :: 0 <= t < |tabs| ==>
         |tabs[t]| == widths[t] > 0 && forall c :: 0 <= c < |tabs[t]| ==> |tabs[t][c]| == |tabs[t][0]|
  }

  function RowCount<V>(tabs: seq<seq<seq<V>>>, t: nat): nat
    requires t < |tabs|
  {
    if tabs[t] == [] then 0 else |tabs[t][0]|
  }

  ghost predicate FitsTable<V>(e: Emit<V>, widths: seq<nat>) {
    e.tab < |widths| && |e.row| == widths[e.tab]
  }

  ghost predicate FitTables<V>(es: seq<Emit<V>>, widths: seq<nat>) {
    forall i :: 0 <= i < |es| ==> FitsTable(es[i], widths)
  }

  /** How many records go to table t. */
  function Count<V>(es: seq<Emit<V>>, t: nat): nat {
    if es == [] then 0 else Count(es[..|es| - 1], t) + if es[|es| - 1].tab == t then 1 else 0
  }

  lemma CountStarts<V>(es: seq<Emit<V>>)
    ensures forall t :: Count(es[..0], t) == 0
  {
  }

  lemma CountSteps<V>(es: seq<Emit<V>>, i: nat)
    requires i < |es|
    ensures forall t :: Count(es[..i + 1], t) == Count(es[..i], t) + if es[i].tab == t then 1 else 0
  {
    assert es[..i + 1][..i] == es[..i];
  }

  lemma {:induction false} CountFinds<V>(es: seq<Emit<V>>, i: nat, t: nat)
    requires i < |es| && es[i].tab == t
    ensures Count(es, t) > 0
    decreases |es|
  {
    if i < |es| - 1 {
      CountFinds(es[..|es| - 1], i, t);
    }
  }

  /** Column c of the records that go to table t, in emit order. */
  function Column<V>(es: seq<Emit<V>>, t: nat, c: nat): (col: seq<V>)
    requires forall i :: 0 <= i < |es| && es[i].tab == t ==> c < |es[i].row|
    ensures |col| == Count(es, t)
  {
    if es == [] then []
    else Column(es[..|es| - 1], t, c) + if es[|es| - 1].tab == t then [es[|es| - 1].row[c]] else []
  }

  /** The tables after appending records in order: every column keeps its old rows and gains its column of the
      records. */
  function Appended<V>(tabs: seq<seq<seq<V>>>, es: seq<Emit<V>>, widths: seq<nat>): (r: seq<seq<seq<V>>>)
    requires Shaped(tabs, widths) && FitTables(es, widths)
    ensures Shaped(r, widths)
    ensures forall t :: 0 <= t < |tabs| ==> RowCount(r, t) == RowCount(tabs, t) + Count(es, t)
  {
    seq(|tabs|, t requires 0 <= t < |tabs| =>
      seq(|tabs[t]|, c requires 0 <= c < |tabs[t]| => tabs[t][c] + Column(es, t, c)))
  }

  lemma {:induction false} CountConcat<V>(a: seq<Emit<V>>, b: seq<Emit<V>>, t: nat)
    ensures Count(a + b, t) == Count(a, t) + Count(b, t)
  {
    if b == [] {
      assert a + b == a;
    } else {
      CountConcat(a, b[..|b| - 1], t);
      assert (a + b)[..|a + b| - 1] == a + b[..|b| - 1];
    }
  }

  lemma {:induction false} ColumnConcat<V>(a: seq<Emit<V>>, b: seq<Emit<V>>, t: nat, c: nat)
    requires forall i :: 0 <= i < |a| && a[i].tab == t ==> c < |a[i].row|
    requires forall i :: 0 <= i < |b| && b[i].tab == t ==> c < |b[i].row|
    ensures Column(a + b, t, c) == Column(a, t, c) + Column(b, t, c)
  {
    if b == [] {
      assert a + b == a;
    } else {
      ColumnConcat(a, b[..|b| - 1], t, c);
      assert (a + b)[..|a + b| - 1] == a + b[..|b| - 1];
    }
  }

  /** Record g of its table sits at the row numbered by the records for that table before it. */
  lemma {:induction false} ColumnAt<V>(es: seq<Emit<V>>, g: nat, c: nat)
    requires g < |es| && c < |es[g].row|
    requires forall i :: 0 <= i < |es| && es[i].tab == es[g].tab ==> c < |es[i].row|
    ensures var t := es[g].tab;
      Count(es[..g], t) < Count(es, t) && Column(es, t, c)[Count(es[..g], t)] == es[g].row[c]
  {
    var t := es[g].tab;
    var front := es[..|es| - 1];
    if g < |es| - 1 {
      ColumnAt(front, g, c);
      assert front[..g] == es[..g];
    } else {
      assert front == es[..g];
    }
  }

  lemma CountOne<V>(e: Emit<V>, t: nat)
    ensures Count([e], t) == if e.tab == t then 1 else 0
  {
    assert [e][..0] == [];
  }

  lemma {:induction false} NoneCount<V>(es: seq<Emit<V>>, t: nat)
    requires forall i :: 0 <= i < |es| ==> es[i].tab != t
    ensures Count(es, t) == 0
  {
    if es != [] {
      NoneCount(es[..|es| - 1], t);
    }
  }

  lemma {:induction false} OneTableCount<V>(es: seq<Emit<V>>, t: nat)
    requires forall i :: 0 <= i < |es| ==> es[i].tab == t
    ensures Count(es, t) == |es|
  {
    if es != [] {
      OneTableCount(es[..|es| - 1], t);
    }
  }

  lemma {:induction false} CountMonotone<V>(es: seq<Emit<V>>, i: nat, j: nat, t: nat)
    requires i <= j <= |es|
    ensures Count(es[..i], t) <= Count(es[..j], t)
  {
    assert es[..j] == es[..i] + es[i..j];
    CountConcat(es[..i], es[i..j], t);
  }

  /** Appending in two batches is appending once. */
  lemma AppendedTwice<V>(tabs: seq<seq<seq<V>>>, a: seq<Emit<V>>, b: seq<Emit<V>>, widths: seq<nat>)
    requires Shaped(tabs, widths) && FitTables(a, widths) && FitTables(b, widths)
    ensures Appended(Appended(tabs, a, widths), b, widths) == Appended(tabs, a + b, widths)
  {
    var two, one := Appended(Appended(tabs, a, widths), b, widths), Appended(tabs, a + b, widths);
    forall t | 0 <= t < |tabs| ensures two[t] == one[t] {
      forall c | 0 <= c < |tabs[t]| ensures two[t][c] == one[t][c] {
        ColumnConcat(a, b, t, c);
      }
    }
  }

  lemma AppendedNothing<V>(tabs: seq<seq<seq<V>>>, widths: seq<nat>)
    requires Shaped(tabs, widths)
    ensures Appended(tabs, [], widths) == tabs
  {
    var r := Appended(tabs, [], widths);
    forall t | 0 <= t < |tabs| ensures r[t] == tabs[t] {
      forall c | 0 <= c < |tabs[t]| ensures r[t][c] == tabs[t][c] {
      }
    }
  }

  /** The cells a scatter pass writes: table, column, row slot, value. */
  datatype Write<V> = Write(tab: nat, col: nat, slot: nat, val: V)

  ghost predicate InBounds<V>(tabs: seq<seq<seq<V>>>, w: Write<V>) {
    w.tab < |tabs| && w.col < |tabs[w.tab]| && w.slot < |tabs[w.tab][w.col]|
  }

  function SetCell<V>(tabs: seq<seq<seq<V>>>, w: Write<V>): (r: seq<seq<seq<V>>>)
    requires InBounds(tabs, w)
    ensures |r| == |tabs|
    ensures forall t :: 0 <= t < |tabs| ==> |r[t]| == |tabs[t]|
    ensures forall t, c :: 0 <= t < |tabs| && 0 <= c < |tabs[t]| ==> |r[t][c]| == |tabs[t][c]|
    ensures forall t, c, s :: 0 <= t < |tabs| && 0 <= c < |tabs[t]| && 0 <= s < |tabs[t][c]| ==>
      r[t][c][s] == if (t, c, s) == (w.tab, w.col, w.slot) then w.val else tabs[t][c][s]
  {
    tabs[w.tab := tabs[w.tab][w.col := tabs[w.tab][w.col][w.slot := w.val]]]
  }

  /** std::vector::resize: keep a prefix, or keep everything and fill up. */
  function ResizeColumn<V>(col: seq<V>, n: nat, fill: V): (r: seq<V>)
    ensures |r| == n
    ensures forall i :: 0 <= i < Min(n, |col|) ==> r[i] == col[i]
  {
    if n <= |col| then col[..n] else col + seq(n - |col|, _ => fill)
  }

  function Resized<V>(tabs: seq<seq<seq<V>>>, sizes: seq<nat>, fill: V): (r: seq<seq<seq<V>>>)
    requires |sizes| == |tabs|
    ensures |r| == |tabs|
    ensures forall t :: 0 <= t < |tabs| ==> |r[t]| == |tabs[t]|
    ensures forall t, c :: 0 <= t < |tabs| && 0 <= c < |tabs[t]| ==> r[t][c] == ResizeColumn(tabs[t][c], sizes[t], fill)
  {
    seq(|tabs|, t requires 0 <= t < |tabs| =>
      seq(|tabs[t]|, c requires 0 <= c < |tabs[t]| => ResizeColumn(tabs[t][c], sizes[t], fill)))
  }

  lemma ResizedCells<V>(tabs: seq<seq<seq<V>>>, sizes: seq<nat>, fill: V)
    requires |sizes| == |tabs|
    ensures var r := Resized(tabs, sizes, fill);
      forall t, c, i :: 0 <= t < |r| && 0 <= c < |r[t]| && 0 <= i < |r[t][c]| ==>
        r[t][c][i] == if i < |tabs[t][c]| then tabs[t][c][i] else fill
  {
  }

  /** The growable tables of one decoder. */
  class TableSet<V> {
    var cols: seq<seq<seq<V>>>
    const widths: seq<nat>

    ghost predicate Valid()
      reads this
    {
      Shaped(cols, widths)
    }

    constructor (widths: seq<nat>)
      requires forall t :: 0 <= t < |widths| ==> widths[t] > 0
      ensures Valid() && this.widths == widths
      ensures forall t :: 0 <= t < |widths| ==> RowCount(cols, t) == 0
    {
      this.widths := widths;
      cols := seq(|widths|, t requires 0 <= t < |widths| => seq(widths[t], _ => []));
    }

    /** Push one value on every column of the record's table. */
    method Append(e: Emit<V>)
      requires Valid() && FitsTable(e, widths)
      modifies this
      ensures Valid() && cols == Appended(old(cols), [e], widths)
    {
      var t := e.tab;
      var c := 0;
      while c < widths[t]
        invariant 0 <= c <= widths[t]
        invariant |cols| == |old(cols)| && |cols[t]| == widths[t]
        invariant forall u :: 0 <= u < |cols| && u != t ==> cols[u] == old(cols)[u]
        invariant forall d :: 0 <= d < widths[t] ==>
          cols[t][d] == if d < c then old(cols)[t][d] + [e.row[d]] else old(cols)[t][d]
      {
        cols := cols[t := cols[t][c := cols[t][c] + [e.row[c]]]];
        c := c + 1;
      }
      assert [e][..0] == [];
      var r := Appended(old(cols), [e], widths);
      forall u | 0 <= u < |cols| ensures cols[u] == r[u] {
        forall d | 0 <= d < |cols[u]| ensures cols[u][d] == r[u][d] {
          CountOne(e, u);
        }
      }
    }

    method AppendAll(es: seq<Emit<V>>)
      requires Valid() && FitTables(es, widths)
      modifies this
      ensures Valid() && cols == Appended(old(cols), es, widths)
    {
      AppendedNothing(cols, widths);
      assert es[..0] == [];
      for i := 0 to |es|
        invariant Valid() && cols == Appended(old(cols), es[..i], widths)
      {
        AppendedTwice(old(cols), es[..i], [es[i]], widths);
        assert es[..i + 1] == es[..i] + [es[i]];
        Append(es[i]);
      }
      assert es[..|es|] == es;
    }

    /** Resize every column of one table. */
    method ResizeTable(t: nat, n: nat, fill: V)
      requires Valid() && t < |widths|
      modifies this
      ensures Valid()
      ensures forall u :: 0 <= u < |cols| && u != t ==> cols[u] == old(cols)[u]
      ensures forall c :: 0 <= c < |cols[t]| ==> cols[t][c] == ResizeColumn(old(cols)[t][c], n, fill)
    {
      hide ResizeColumn;
      var c := 0;
      while c < widths[t]
        invariant 0 <= c <= widths[t]
        invariant |cols| == |old(cols)| && |cols[t]| == widths[t]
        invariant forall u :: 0 <= u < |cols| && u != t ==> cols[u] == old(cols)[u]
        invariant forall d :: 0 <= d < widths[t] ==>
          cols[t][d] == if d < c then ResizeColumn(old(cols)[t][d], n, fill) else old(cols)[t][d]
      {
        cols := cols[t := cols[t][c := ResizeColumn(cols[t][c], n, fill)]];
        c := c + 1;
      }
    }

    /** Resize every table to its own total: afterwards each of its columns has that many cells, the old cells
        that fit are where they were, and the others hold the fill value. */
    method Resize(sizes: seq<nat>, fill: V)
      requires Valid() && |sizes| == |widths|
      modifies this
      ensures Valid() && forall t :: 0 <= t < |cols| ==> RowCount(cols, t) == sizes[t]
      ensures forall t, c, i :: 0 <= t < |cols| && 0 <= c < |cols[t]| && 0 <= i < |cols[t][c]| ==>
        cols[t][c][i] == if i < |old(cols)[t][c]| then old(cols)[t][c][i] else fill
      ensures cols == Resized(old(cols), sizes, fill)
    {
      var t := 0;
      while t < |widths|
        invariant 0 <= t <= |widths| && Valid()
        invariant forall u :: 0 <= u < |cols| ==>
          cols[u] == if u < t then Resized(old(cols), sizes, fill)[u] else old(cols)[u]
      {
        ghost var was := cols;
        ResizeTable(t, sizes[t], fill);
        assert cols[t] == Resized(old(cols), sizes, fill)[t];
        t := t + 1;
      }
      ResizedCells(old(cols), sizes, fill);
    }

    method Set(w: Write<V>)
      requires Valid() && InBounds(cols, w)
      modifies this
      ensures Valid() && cols == SetCell(old(cols), w)
    {
      cols := SetCell(cols, w);
    }
  }
}
