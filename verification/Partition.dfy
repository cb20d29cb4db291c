/** ESP32 partition tables (gen_esp32part.py): layout, verification, and the binary form. */
module Partition {
  import opened Common
  import opened Sorting

  const APP_TYPE: nat := 0
  const TABLE_END: int := 0x5000
  const MAX_LENGTH: nat := 0xC00

  datatype Definition = Definition(name: Bytes, ptype: nat, subtype: nat, offset: int, size: int, encrypted: bool)

  type Table = seq<Definition>

  // ----- Layout ------------------------------------------------------------------------------------------

  /** A CSV row: the offset may be blank, and a negative size gives an end address. */
  datatype Row = Row(name: Bytes, ptype: nat, subtype: nat, offset: Option<int>, size: int, encrypted: bool)

  /** The alignment that `verify` demands and that the fix-up pads to. */
  function Alignment(ptype: nat): nat
    ensures Alignment(ptype) == 0x1_0000 || Alignment(ptype) == 4
  {
    if ptype == APP_TYPE then 0x1_0000 else 4
  }

  function PadUp(x: int, align: nat): (r: int)
    requires align == 0x1_0000 || align == 4
    ensures r % align == 0 && x <= r < x + align
  {
    if x % align != 0 then x + align - x % align else x
  }

  function Place(row: Row, lastEnd: int): Definition
  {
    var offset := if row.offset.None? then PadUp(lastEnd, Alignment(row.ptype)) else row.offset.value;
    var size := if row.size < 0 then -row.size - offset else row.size;
    Definition(row.name, row.ptype, row.subtype, offset, size, row.encrypted)
  }

  function Layout(rows: seq<Row>, lastEnd: int): Table
  {
    if rows == [] then [] else
      var e := Place(rows[0], lastEnd);
      [e] + Layout(rows[1..], e.offset + e.size)
  }

  lemma LayoutFrom(rows: seq<Row>, i: nat, lastEnd: int)
    requires i <= |rows|
    ensures i == |rows| ==> Layout(rows[i..], lastEnd) == []
    ensures i < |rows| ==>
              var e := Place(rows[i], lastEnd);
              Layout(rows[i..], lastEnd) == [e] + Layout(rows[i + 1..], e.offset + e.size)
  {
    hide Place;
    if i < |rows| {
      assert rows[i..][1..] == rows[i + 1..];
    }
  }

  /** The fix-up of one row. */
  method FixRow(row: Row, lastEnd: int) returns (e: Definition)
    ensures e == Place(row, lastEnd)
  {
    var end := lastEnd;
    var offset: int;
    if row.offset.None? {
      var padTo := Alignment(row.ptype);
      if end % padTo != 0 {
        end := end + padTo - end % padTo;
      }
      offset := end;
    } else {
      offset := row.offset.value;
    }
    var size := row.size;
    if size < 0 {
      size := -size - offset;
    }
    e := Definition(row.name, row.ptype, row.subtype, offset, size, row.encrypted);
  }

  /** The fix-up loop of `from_csv`. */
  method FixUp(rows: seq<Row>) returns (table: Table)
    ensures table == Layout(rows, TABLE_END)
  {
    hide Place, Layout;
    table := [];
    var lastEnd := TABLE_END;
    assert rows[0..] == rows && [] + Layout(rows, TABLE_END) == Layout(rows, TABLE_END);
    for i := 0 to |rows|
      invariant Layout(rows, TABLE_END) == table + Layout(rows[i..], lastEnd)
    {
      LayoutFrom(rows, i, lastEnd);
      var e := FixRow(rows[i], lastEnd);
      Reassociate(table, [e], Layout(rows[i + 1..], e.offset + e.size));
      table := table + [e];
      lastEnd := e.offset + e.size;
    }
    LayoutFrom(rows, |rows|, lastEnd);
    assert table + [] == table;
  }

  // ----- Verification --------------------------------------------------------------------------------------

  function Offset(e: Definition): int
  {
    e.offset
  }

  datatype Verdict = Accepted | Misaligned | BelowTable | Overlap

  predicate Aligned(e: Definition)
  {
    e.offset % Alignment(e.ptype) == 0
  }

  predicate AllAligned(table: Table)
  {
    forall i :: 0 <= i < |table| ==> Aligned(table[i])
  }

  predicate AllPastTable(table: Table)
  {
    forall i :: 0 <= i < |table| ==> table[i].offset >= TABLE_END
  }

  predicate After(e: Definition, last: Definition)
  {
    e.offset >= last.offset + last.size
  }

  predicate NeighboursApart(s: Table)
  {
    forall i :: 0 < i < |s| ==> After(s[i], s[i - 1])
  }

  predicate Apart(s: Table)
  {
    forall i, j :: 0 <= i < j < |s| ==> After(s[j], s[i])
  }

  /** `verify`: each entry alone, then neighbours in offset order. */
  method Verify(table: Table) returns (v: Verdict)
    ensures v.Accepted? <==> Accepts(table)
    ensures v.Misaligned? <==> !AllAligned(table)
    ensures v.BelowTable? <==> AllAligned(table) && !AllPastTable(table)
  {
    hide SortBy;
    for i := 0 to |table|
      invariant forall j :: 0 <= j < i ==> Aligned(table[j])
    {
      if table[i].offset % Alignment(table[i].ptype) != 0 {
        return Misaligned;
      }
    }
    var sorted := SortBy(table, Offset);
    SortBySorts(table, Offset);
    SameElements(table, sorted);
    var last: Option<Definition> := None;
    for i := 0 to |sorted|
      invariant last == if i == 0 then None else Some(sorted[i - 1])
      invariant forall j :: 0 <= j < i ==> sorted[j].offset >= TABLE_END
      invariant forall j :: 0 < j < i ==> After(sorted[j], sorted[j - 1])
    {
      if sorted[i].offset < TABLE_END {
        return BelowTable;
      }
      assert forall j :: i < j < |sorted| ==> Offset(sorted[i]) <= Offset(sorted[j]);
      if last.Some? && sorted[i].offset < last.value.offset + last.value.size {
        return Overlap;
      }
      last := Some(sorted[i]);
    }
    return Accepted;
  }

  ghost predicate Accepts(table: Table)
  {
    var s := SortBy(table, Offset);
    && AllAligned(table)
    && AllPastTable(s)
    && NeighboursApart(s)
  }

  /** Comparing neighbours only is enough: a table is accepted exactly when its entries are aligned,
      past the table, and each later one, in offset order, starts after every earlier one ends. */
  lemma AcceptsIffDisjoint(table: Table)
    ensures var s := SortBy(table, Offset);
            Accepts(table) <==>
              && AllAligned(table) && AllPastTable(table)
              && Apart(s)
  {
    hide AllAligned, AllPastTable, NeighboursApart, Apart, SortBy, SortedBy;
    var s := SortBy(table, Offset);
    SortBySorts(table, Offset);
    SameElements(table, s);
    NeighboursSuffice(s);
  }

  lemma NeighboursSuffice(s: Table)
    requires SortedBy(s, Offset)
    ensures NeighboursApart(s) <==> Apart(s)
  {
    if NeighboursApart(s) {
      forall i, j | 0 <= i < j < |s| ensures After(s[j], s[i]) {
        assert After(s[i + 1], s[i + 1 - 1]);
        assert i + 1 < j ==> Offset(s[i + 1]) <= Offset(s[j]);
      }
    }
  }

  lemma SameElements(table: Table, s: Table)
    requires multiset(table) == multiset(s)
    ensures AllPastTable(table) <==> AllPastTable(s)
  {
    PastTableOfMore(table, s);
    PastTableOfMore(s, table);
  }

  lemma PastTableOfMore(s: Table, t: Table)
    requires multiset(t) <= multiset(s)
    ensures AllPastTable(s) ==> AllPastTable(t)
  {
    if AllPastTable(s) {
      forall i | 0 <= i < |t| ensures t[i].offset >= TABLE_END {
        assert t[i] in multiset(s);
        var k :| 0 <= k < |s| && s[k] == t[i];
      }
    }
  }

  predicate Blank(rows: seq<Row>)
  {
    forall i :: 0 <= i < |rows| ==> rows[i].offset.None?
  }

  predicate SizesFit(table: Table)
  {
    forall i :: 0 <= i < |table| ==> table[i].size >= 0
  }

  lemma LayoutCons(rows: seq<Row>, lastEnd: int)
    requires rows != []
    ensures var e := Place(rows[0], lastEnd);
            var t, tail := Layout(rows, lastEnd), Layout(rows[1..], e.offset + e.size);
            && t == [e] + tail && t[0] == e && (forall i :: 0 < i < |t| ==> t[i] == tail[i - 1])
            && (SizesFit(t) ==> e.size >= 0 && SizesFit(tail))
  {
    hide Place;
    var e := Place(rows[0], lastEnd);
    var t, tail := Layout(rows, lastEnd), Layout(rows[1..], e.offset + e.size);
    assert forall i :: 0 <= i < |tail| ==> tail[i] == t[i + 1];
  }

  /** An automatic layout gives each row an aligned place past the start, with the row's own type and size. */
  lemma {:induction false} LayoutShape(rows: seq<Row>, lastEnd: int)
    requires Blank(rows) && SizesFit(Layout(rows, lastEnd))
    ensures var t := Layout(rows, lastEnd);
            && |t| == |rows|
            && (forall i :: 0 <= i < |t| ==> t[i].offset >= lastEnd && Aligned(t[i]) && t[i].ptype == rows[i].ptype)
            && (forall i :: 0 <= i < |t| && rows[i].size >= 0 ==> t[i].size == rows[i].size)
  {
    hide Place, Aligned, SizesFit, Layout;
    NoRows(lastEnd);
    if rows == [] {
    } else {
      var e := Place(rows[0], lastEnd);
      LayoutCons(rows, lastEnd);
      PlaceShape(rows[0], lastEnd);
      BlankRest(rows);
      LayoutShape(rows[1..], e.offset + e.size);
    }
  }

  /** Where an entry can stand: an application on 64 KB, anything else on 4 bytes. */
  predicate Suits(offset: int, ptype: nat)
  {
    offset % (if ptype == 0 then 0x10000 else 4) == 0
  }

  lemma AlignedIs(e: Definition)
    ensures Aligned(e) <==> Suits(e.offset, e.ptype)
  {
  }

  /** The end of what is placed before a row: the partition table's own end for the first. */
  function EndBefore(t: Table, i: nat, lastEnd: int): int
    requires i <= |t|
  {
    if i == 0 then lastEnd else t[i - 1].offset + t[i - 1].size
  }

  /** What a row's entry is, after an entry that ends at `end`: a given offset is kept, a blank one is the first
      aligned offset from there on, a negative size is an end address, and all else is the row's own. */
  ghost predicate FixedUp(row: Row, e: Definition, end: int)
  {
    && e.name == row.name && e.ptype == row.ptype && e.subtype == row.subtype && e.encrypted == row.encrypted
    && (row.offset.Some? ==> e.offset == row.offset.value)
    && (row.offset.None? ==>
          && Suits(e.offset, e.ptype) && e.offset >= end
          && forall x :: end <= x < e.offset ==> !Suits(x, e.ptype))
    && (row.size >= 0 ==> e.size == row.size)
    && (row.size < 0 ==> e.offset + e.size == -row.size)
  }

  lemma PlaceFixesUp(row: Row, end: int)
    ensures FixedUp(row, Place(row, end), end)
  {
    if row.offset.None? {
      PadUpIsFirst(end, Alignment(row.ptype));
    }
  }

  lemma PadUpIsFirst(x: int, align: nat)
    requires align == 0x1_0000 || align == 4
    ensures forall y :: x <= y < PadUp(x, align) ==> y % align != 0
  {
  }

  /** Over any rows, offsets given or not: each entry is its row, fixed up after the entry before it. */
  lemma {:induction false} RowsFixedUp(rows: seq<Row>, lastEnd: int, i: nat)
    requires i < |rows|
    ensures var t := Layout(rows, lastEnd);
            |t| == |rows| && FixedUp(rows[i], t[i], EndBefore(t, i, lastEnd))
    decreases i
  {
    hide Place, FixedUp, Layout;
    LayoutCons(rows, lastEnd);
    LayoutLength(rows, lastEnd);
    var e := Place(rows[0], lastEnd);
    if i == 0 {
      PlaceFixesUp(rows[0], lastEnd);
    } else {
      RowsFixedUp(rows[1..], e.offset + e.size, i - 1);
    }
  }

  lemma {:induction false} LayoutLength(rows: seq<Row>, lastEnd: int)
    ensures |Layout(rows, lastEnd)| == |rows|
  {
    hide Place;
    if rows == [] {
    } else {
      var e := Place(rows[0], lastEnd);
      LayoutLength(rows[1..], e.offset + e.size);
    }
  }

  /** The first blank row goes to 0x5000 or, an application, to 0x10000. */
  lemma FirstPlace(rows: seq<Row>)
    requires rows != [] && rows[0].offset.None?
    ensures Layout(rows, TABLE_END)[0].offset == if rows[0].ptype == 0 then 0x10000 else 0x5000
  {
    LayoutCons(rows, TABLE_END);
  }

  lemma BlankRest(rows: seq<Row>)
    requires rows != [] && Blank(rows)
    ensures rows[0].offset.None? && Blank(rows[1..])
  {
  }

  /** In an automatic layout each entry starts after every earlier one ends. */
  lemma {:induction false} LayoutOrdered(rows: seq<Row>, lastEnd: int)
    requires Blank(rows) && SizesFit(Layout(rows, lastEnd))
    ensures Apart(Layout(rows, lastEnd))
  {
    hide Place, Aligned, SizesFit, Layout;
    NoRows(lastEnd);
    if rows == [] {
    } else {
      var e := Place(rows[0], lastEnd);
      LayoutCons(rows, lastEnd);
      BlankRest(rows);
      LayoutShape(rows[1..], e.offset + e.size);
      LayoutOrdered(rows[1..], e.offset + e.size);
    }
  }

  lemma NoRows(lastEnd: int)
    ensures Layout([], lastEnd) == []
  {
  }

  lemma PlaceShape(row: Row, lastEnd: int)
    requires row.offset.None?
    ensures var e := Place(row, lastEnd);
            e.offset >= lastEnd && Aligned(e) && e.ptype == row.ptype && (row.size >= 0 ==> e.size == row.size)
  {
  }

  /** Automatic layout of rows whose sizes come out non-negative always passes `verify`. */
  lemma LayoutAccepted(rows: seq<Row>)
    requires Blank(rows) && SizesFit(Layout(rows, TABLE_END))
    ensures Accepts(Layout(rows, TABLE_END))
  {
    var t := Layout(rows, TABLE_END);
    LayoutShape(rows, TABLE_END);
    LayoutOrdered(rows, TABLE_END);
    forall i, j | 0 <= i < j < |t| ensures Offset(t[i]) <= Offset(t[j]) {
      assert After(t[j], t[i]);
    }
    SortedIsFixed(t, Offset);
  }

  lemma {:induction false} SizesAsGiven(rows: seq<Row>, lastEnd: int)
    requires forall i :: 0 <= i < |rows| ==> rows[i].size >= 0
    ensures SizesFit(Layout(rows, lastEnd))
  {
    if rows == [] {
    } else {
      var e := Place(rows[0], lastEnd);
      assert forall i :: 0 <= i < |rows[1..]| ==> rows[1..][i] == rows[i + 1];
      SizesAsGiven(rows[1..], e.offset + e.size);
    }
  }

  /** With blank offsets and non-negative sizes the generated table is accepted. */
  method GenerateTable(rows: seq<Row>) returns (table: Table, v: Verdict)
    requires Blank(rows) && forall i :: 0 <= i < |rows| ==> rows[i].size >= 0
    ensures table == Layout(rows, TABLE_END) && v == Accepted
  {
    hide Layout, Accepts;
    table := FixUp(rows);
    SizesAsGiven(rows, TABLE_END);
    LayoutAccepted(rows);
    v := Verify(table);
  }
}
