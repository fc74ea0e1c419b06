/** The flash row model of the download: the fixed table of row descriptors
    over the MC68HC908GZ60 memory map, and the fill that turns a 64 KiB
    memory image into the rows to program.  For each descriptor the fill
    finds the first programmed (non-0xFF) byte, takes the bytes from there to
    the end of the row, drops the trailing 0xFF bytes, and keeps the row only
    when it held a programmed byte at all. */
module FlashRows {
  import opened Common
  import opened Flash

  const MEMORY_SIZE := 0x10000
  const ERASED: byte := 0xFF

  /** A descriptor of the memory map: `rowlen` bytes from `row`. */
  datatype RowSpec = RowSpec(row: int, rowlen: int)

  /** A row after the fill: whether it holds programmed bytes, the first
      programmed address and the bytes to write from there. */
  datatype Row = Row(row: int, start: int, rowlen: int, used: bool, data: seq<byte>)

  /** `count` rows of 64 bytes from `base`, as `range(base, ..., 64)` gives them. */
  function Aligned(base: int, count: nat): seq<RowSpec>
  {
    seq(count, i => RowSpec(base + 64 * i, 64))
  }

  /** The descriptors below 0x1E20: the partial row at 0x462, then the rows
      of 0x480..0x4FF and 0x980..0x1B7F. */
  function TablePrefix(): seq<RowSpec>
  {
    [RowSpec(0x462, 30)] + Aligned(0x480, 2) + Aligned(0x980, 72)
  }

  /** The descriptors from 0x1E80: the rows of 0x1E80..0xFDFF, then the
      vector area 0xFFCC..0xFFFF. */
  function TableSuffix(): seq<RowSpec>
  {
    Aligned(0x1E80, 894) + [RowSpec(0xFFCC, 0x34)]
  }

  /** The table as the loader builds it: one descriptor of 0x60 bytes at 0x1E20. */
  function WrittenRowTable(): seq<RowSpec>
  {
    TablePrefix() + [RowSpec(0x1E20, 0x60)] + TableSuffix()
  }

  /** The table with 0x1E20..0x1E7F split at the flash row boundary 0x1E40. */
  function RowTable(): seq<RowSpec>
  {
    TablePrefix() + [RowSpec(0x1E20, 0x20), RowSpec(0x1E40, 0x40)] + TableSuffix()
  }

  // ---------------------------------------------------------------------------
  // Shape of the tables.

  /** A non-empty descriptor inside the 64 KiB image. */
  predicate Fits(s: RowSpec)
  {
    0 <= s.row && 0 < s.rowlen && s.row + s.rowlen <= MEMORY_SIZE
  }

  predicate InMemory(t: seq<RowSpec>)
  {
    forall i :: 0 <= i < |t| ==> Fits(t[i])
  }

  /** Each descriptor ends before the next one starts. */
  predicate Ascending(t: seq<RowSpec>)
  {
    forall i, j :: 0 <= i < j < |t| ==> t[i].row + t[i].rowlen <= t[j].row
  }

  /** The descriptor lies inside one 64-byte flash row, so the row-write
      routine can program it in one go. */
  predicate InOneFlashRow(s: RowSpec)
  {
    0 < s.rowlen <= ROW_SIZE && s.row / ROW_SIZE == (s.row + s.rowlen - 1) / ROW_SIZE
  }

  predicate Covered(t: seq<RowSpec>, a: int)
  {
    exists i :: 0 <= i < |t| && t[i].row <= a < t[i].row + t[i].rowlen
  }

  lemma AlignedShape(base: int, count: nat)
    requires 0 <= base && base % 64 == 0 && base + 64 * count <= MEMORY_SIZE
    ensures InMemory(Aligned(base, count)) && Ascending(Aligned(base, count))
    ensures forall i :: 0 <= i < count ==> InOneFlashRow(Aligned(base, count)[i])
  {
    var t := Aligned(base, count);
    forall i | 0 <= i < count
      ensures InOneFlashRow(t[i])
    {
      var r := base + 64 * i;
      assert r % 64 == 0;
      assert r / 64 == (r + 63) / 64;
    }
  }

  lemma AscendingAppend(a: seq<RowSpec>, b: seq<RowSpec>)
    requires InMemory(a) && InMemory(b) && Ascending(a) && Ascending(b)
    requires a != [] && b != [] ==> a[|a| - 1].row + a[|a| - 1].rowlen <= b[0].row
    ensures InMemory(a + b) && Ascending(a + b)
  {
    var t := a + b;
    forall i, j | 0 <= i < j < |t|
      ensures t[i].row + t[i].rowlen <= t[j].row
    {
      if i < |a| && |a| <= j {
        var l := |a| - 1;
        var k := j - |a|;
        assert t[i].row + t[i].rowlen <= a[l].row + a[l].rowlen by {
          if i < l {
            assert a[i].row + a[i].rowlen <= a[l].row;
          }
        }
        assert b[0].row <= b[k].row by {
          if 0 < k {
            assert b[0].row + b[0].rowlen <= b[k].row;
          }
        }
      }
    }
  }

  lemma PrefixShape()
    ensures |TablePrefix()| == 75 && InMemory(TablePrefix()) && Ascending(TablePrefix())
    ensures forall i :: 0 <= i < 75 ==> InOneFlashRow(TablePrefix()[i])
    ensures TablePrefix()[74] == RowSpec(0x1B40, 64)
  {
    var h := [RowSpec(0x462, 30)];
    assert InOneFlashRow(h[0]);
    AlignedShape(0x480, 2);
    AlignedShape(0x980, 72);
    AscendingAppend(h, Aligned(0x480, 2));
    AscendingAppend(h + Aligned(0x480, 2), Aligned(0x980, 72));
    var t := TablePrefix();
    forall i | 0 <= i < 75
      ensures InOneFlashRow(t[i])
    {
      if i == 0 {
      } else if i < 3 {
        assert t[i] == Aligned(0x480, 2)[i - 1];
      } else {
        assert t[i] == Aligned(0x980, 72)[i - 3];
      }
    }
  }

  lemma SuffixShape()
    ensures |TableSuffix()| == 895 && InMemory(TableSuffix()) && Ascending(TableSuffix())
    ensures forall i :: 0 <= i < 895 ==> InOneFlashRow(TableSuffix()[i])
    ensures TableSuffix()[0] == RowSpec(0x1E80, 64)
  {
    var v := [RowSpec(0xFFCC, 0x34)];
    assert InOneFlashRow(v[0]);
    AlignedShape(0x1E80, 894);
    AscendingAppend(Aligned(0x1E80, 894), v);
    var t := TableSuffix();
    forall i | 0 <= i < 895
      ensures InOneFlashRow(t[i])
    {
      if i < 894 {
        assert t[i] == Aligned(0x1E80, 894)[i];
      }
    }
  }

  /** The corrected table: inside the image, ascending, and every descriptor
      inside one flash row. */
  lemma RowTableShape()
    ensures |RowTable()| == 972 && InMemory(RowTable()) && Ascending(RowTable())
    ensures forall i :: 0 <= i < |RowTable()| ==> InOneFlashRow(RowTable()[i])
  {
    var p, m, s := TablePrefix(), [RowSpec(0x1E20, 0x20), RowSpec(0x1E40, 0x40)], TableSuffix();
    PrefixShape();
    SuffixShape();
    assert InOneFlashRow(m[0]) && InOneFlashRow(m[1]);
    AscendingAppend(p, m);
    AscendingAppend(p + m, s);
    var t := RowTable();
    forall i | 0 <= i < |t|
      ensures InOneFlashRow(t[i])
    {
      if i < 75 {
        assert t[i] == p[i];
      } else if i < 77 {
        assert t[i] == m[i - 75];
      } else {
        assert t[i] == s[i - 77];
      }
    }
  }

  /** The table as written: inside the image and ascending, and every
      descriptor but the one at 0x1E20 inside one flash row; that one spans
      the rows 0x1E00 and 0x1E40 and is longer than a row. */
  lemma WrittenRowTableShape()
    ensures |WrittenRowTable()| == 971 && InMemory(WrittenRowTable()) && Ascending(WrittenRowTable())
    ensures forall i :: 0 <= i < |WrittenRowTable()| && i != 75 ==> InOneFlashRow(WrittenRowTable()[i])
    ensures WrittenRowTable()[75] == RowSpec(0x1E20, 0x60) && !InOneFlashRow(WrittenRowTable()[75])
  {
    var p, m, s := TablePrefix(), [RowSpec(0x1E20, 0x60)], TableSuffix();
    PrefixShape();
    SuffixShape();
    AscendingAppend(p, m);
    AscendingAppend(p + m, s);
    var t := WrittenRowTable();
    forall i | 0 <= i < |t| && i != 75
      ensures InOneFlashRow(t[i])
    {
      if i < 75 {
        assert t[i] == p[i];
      } else {
        assert t[i] == s[i - 76];
      }
    }
  }

  /** Splitting the descriptor at 0x1E20 leaves the covered addresses as they were. */
  lemma SameCoverage(a: int)
    ensures Covered(WrittenRowTable(), a) <==> Covered(RowTable(), a)
  {
    var p, s := TablePrefix(), TableSuffix();
    var w, c := WrittenRowTable(), RowTable();
    assert |p| == 75 by { PrefixShape(); }
    if Covered(w, a) {
      var i :| 0 <= i < |w| && w[i].row <= a < w[i].row + w[i].rowlen;
      if i < 75 {
        assert c[i] == w[i];
      } else if i == 75 {
        if a < 0x1E40 {
          assert c[75].row <= a < c[75].row + c[75].rowlen;
        } else {
          assert c[76].row <= a < c[76].row + c[76].rowlen;
        }
      } else {
        assert c[i + 1] == w[i];
      }
    }
    if Covered(c, a) {
      var i :| 0 <= i < |c| && c[i].row <= a < c[i].row + c[i].rowlen;
      if i < 75 {
        assert w[i] == c[i];
      } else if i < 77 {
        assert w[75].row <= a < w[75].row + w[75].rowlen;
      } else {
        assert w[i - 1] == c[i];
      }
    }
  }

  // ---------------------------------------------------------------------------
  // The fill of one row.

  /** The first programmed address in `[lo, hi)`. */
  function FirstUsed(m: seq<byte>, lo: int, hi: int): (r: Option<int>)
    requires 0 <= lo <= hi <= |m|
    ensures r.Some? ==> lo <= r.value < hi && m[r.value] != ERASED && forall j :: lo <= j < r.value ==> m[j] == ERASED
    ensures r.None? ==> forall j :: lo <= j < hi ==> m[j] == ERASED
    decreases hi - lo
  {
    if lo == hi then None
    else match FirstUsed(m, lo, hi - 1)
      case Some(x) => Some(x)
      case None => if m[hi - 1] != ERASED then Some(hi - 1) else None
  }

  /** `d` without its trailing 0xFF bytes. */
  function TrimEnd(d: seq<byte>): (r: seq<byte>)
    ensures |r| <= |d| && r == d[..|r|]
    ensures r != [] ==> r[|r| - 1] != ERASED
    ensures forall j :: |r| <= j < |d| ==> d[j] == ERASED
    decreases |d|
  {
    if d != [] && d[|d| - 1] == ERASED then TrimEnd(d[..|d| - 1]) else d
  }

  /** The row of the descriptor `s` after the forward scan and the backward trim. */
  function FillRow(m: seq<byte>, s: RowSpec): Row
    requires 0 <= s.row && 0 <= s.rowlen && s.row + s.rowlen <= |m|
  {
    match FirstUsed(m, s.row, s.row + s.rowlen)
    case None => Row(s.row, s.row, s.rowlen, false, [])
    case Some(st) => Row(s.row, st, s.rowlen, true, TrimEnd(m[st..s.row + s.rowlen]))
  }

  /** What the loader writes for a filled row: it starts at the first
      programmed address of the descriptor, is the memory from there, starts
      and ends with a programmed byte, stays inside the descriptor, and only
      0xFF bytes lie between its end and the descriptor's end.  A row is used
      exactly when the descriptor holds a programmed byte. */
  lemma FillRowFacts(m: seq<byte>, s: RowSpec)
    requires 0 <= s.row && 0 <= s.rowlen && s.row + s.rowlen <= |m|
    ensures var r := FillRow(m, s);
      && r.row == s.row && r.rowlen == s.rowlen
      && (r.used <==> exists a :: s.row <= a < s.row + s.rowlen && m[a] != ERASED)
      && (!r.used ==> r.data == [])
      && (r.used ==> Programmed(m, s, r))
  {
    match FirstUsed(m, s.row, s.row + s.rowlen)
    case None =>
    case Some(st) =>
      assert s.row <= st < s.row + s.rowlen && m[st] != ERASED;
      UsedRowFacts(m, s, st);
      assert FillRow(m, s) == Row(s.row, st, s.rowlen, true, TrimEnd(m[st..s.row + s.rowlen]));
  }

  /** The facts of a used row, see `FillRowFacts`. */
  ghost predicate Programmed(m: seq<byte>, s: RowSpec, r: Row)
    requires 0 <= s.row && s.row + s.rowlen <= |m|
  {
    && s.row <= r.start < s.row + s.rowlen && m[r.start] != ERASED
    && (forall a :: s.row <= a < r.start ==> m[a] == ERASED)
    && r.data != [] && r.start + |r.data| <= s.row + s.rowlen
    && r.data == m[r.start..r.start + |r.data|]
    && r.data[0] != ERASED && r.data[|r.data| - 1] != ERASED
    && (forall a :: r.start + |r.data| <= a < s.row + s.rowlen ==> m[a] == ERASED)
  }

  lemma UsedRowFacts(m: seq<byte>, s: RowSpec, st: int)
    requires 0 <= s.row <= st < s.row + s.rowlen <= |m| && m[st] != ERASED
    requires forall a :: s.row <= a < st ==> m[a] == ERASED
    ensures Programmed(m, s, Row(s.row, st, s.rowlen, true, TrimEnd(m[st..s.row + s.rowlen])))
  {
    TrimFacts(m, st, s.row + s.rowlen);
  }

  /** Trimming the memory from a programmed byte to `e`. */
  lemma TrimFacts(m: seq<byte>, st: int, e: int)
    requires 0 <= st < e <= |m| && m[st] != ERASED
    ensures var t := TrimEnd(m[st..e]);
      && t != [] && st + |t| <= e && t == m[st..st + |t|] && t[0] != ERASED
      && forall a :: st + |t| <= a < e ==> m[a] == ERASED
  {
    var d := m[st..e];
    var t := TrimEnd(d);
    assert d[0] == m[st];
    assert t != [];
    forall a | st + |t| <= a < e
      ensures m[a] == ERASED
    {
      assert d[a - st] == m[a];
    }
  }

  /** The one-row fill as the loader runs it: a forward scan that starts
      collecting at the first programmed byte, then a backward scan that
      pops 0xFF bytes until it meets a programmed one. */
  method FillRowAt(mem: array<byte>, s: RowSpec) returns (r: Row)
    requires 0 <= s.row && 0 <= s.rowlen && s.row + s.rowlen <= mem.Length
    ensures r == FillRow(mem[..], s)
  {
    var used, start, data := ScanRow(mem, s);
    if !used {
      return Row(s.row, start, s.rowlen, false, data);
    }
    data := TrimRow(mem, s, start, data);
    return Row(s.row, start, s.rowlen, true, data);
  }

  /** The forward scan over the descriptor's addresses. */
  method ScanRow(mem: array<byte>, s: RowSpec) returns (used: bool, start: int, data: seq<byte>)
    requires 0 <= s.row && 0 <= s.rowlen && s.row + s.rowlen <= mem.Length
    ensures var f := FirstUsed(mem[..], s.row, s.row + s.rowlen);
      && (used <==> f.Some?)
      && (used ==> start == f.value && data == mem[start..s.row + s.rowlen])
      && (!used ==> start == s.row && data == [])
  {
    ghost var m := mem[..];
    var e := s.row + s.rowlen;
    start := s.row;
    used := false;
    data := [];
    var a := s.row;
    while a < e
      invariant s.row <= a <= e
      invariant used <==> FirstUsed(m, s.row, a).Some?
      invariant used ==> start == FirstUsed(m, s.row, a).value && data == m[start..a]
      invariant !used ==> start == s.row && data == []
    {
      if mem[a] != ERASED && !used {
        start := a;
        used := true;
      }
      if used {
        data := data + [mem[a]];
      }
      a := a + 1;
    }
  }

  /** The backward scan: from the descriptor's last address, drop the last
      byte while the address holds 0xFF; stop at the first programmed one. */
  method TrimRow(mem: array<byte>, s: RowSpec, start: int, full: seq<byte>) returns (data: seq<byte>)
    requires 0 <= s.row <= start < s.row + s.rowlen <= mem.Length
    requires mem[start] != ERASED && full == mem[start..s.row + s.rowlen]
    ensures data == TrimEnd(full)
  {
    ghost var m := mem[..];
    data := full;
    var a := s.row + s.rowlen - 1;
    while a >= s.row
      invariant start <= a < s.row + s.rowlen && data == m[start..a + 1] && TrimEnd(data) == TrimEnd(full)
      decreases a
    {
      if mem[a] == ERASED {
        assert data[|data| - 1] == m[a];
        data := data[..|data| - 1];
        a := a - 1;
      } else {
        assert data[|data| - 1] == m[a];
        break;
      }
    }
  }

  // ---------------------------------------------------------------------------
  // All rows, and the filter of the unused ones.

  function Filled(m: seq<byte>, t: seq<RowSpec>): (rows: seq<Row>)
    requires |m| == MEMORY_SIZE && InMemory(t)
  {
    seq(|t|, i requires 0 <= i < |t| => FillRow(m, t[i]))
  }

  /** `[r for r in rows if r.get("used") != False]`. */
  function Kept(rows: seq<Row>): (k: seq<Row>)
    decreases |rows|
  {
    if rows == [] then []
    else (if rows[0].used then [rows[0]] else []) + Kept(rows[1..])
  }

  /** The filter keeps exactly the used rows. */
  lemma {:induction false} KeptMembers(rows: seq<Row>)
    ensures forall r :: r in Kept(rows) <==> r in rows && r.used
    decreases |rows|
  {
    if rows != [] {
      KeptMembers(rows[1..]);
      assert forall r :: r in rows <==> r == rows[0] || r in rows[1..];
    }
  }

  /** The filter keeps the order: rows in ascending address order stay so. */
  lemma {:induction false} KeptOrder(rows: seq<Row>)
    requires forall i, j :: 0 <= i < j < |rows| ==> rows[i].row < rows[j].row
    ensures forall i, j :: 0 <= i < j < |Kept(rows)| ==> Kept(rows)[i].row < Kept(rows)[j].row
    decreases |rows|
  {
    if rows != [] {
      var t := rows[1..];
      assert forall i, j :: 0 <= i < j < |t| ==> t[i].row < t[j].row by {
        forall i, j | 0 <= i < j < |t|
          ensures t[i].row < t[j].row
        {
          assert t[i] == rows[i + 1] && t[j] == rows[j + 1];
        }
      }
      KeptOrder(t);
      KeptMembers(t);
      var k := Kept(rows);
      if rows[0].used {
        forall j | 0 < j < |k|
          ensures rows[0].row < k[j].row
        {
          assert k[j] in Kept(t);
          var x :| 0 <= x < |t| && t[x] == k[j];
          assert rows[x + 1] == k[j];
        }
      }
    }
  }

  /** The fill of the whole table, as the loader runs it over the image. */
  method FillRows(mem: array<byte>, table: seq<RowSpec>) returns (rows: seq<Row>)
    requires mem.Length == MEMORY_SIZE && InMemory(table)
    ensures rows == Kept(Filled(mem[..], table))
  {
    var filled: seq<Row> := [];
    var i := 0;
    while i < |table|
      invariant 0 <= i <= |table| && |filled| == i
      invariant forall k :: 0 <= k < i ==> filled[k] == FillRow(mem[..], table[k])
    {
      var r := FillRowAt(mem, table[i]);
      filled := filled + [r];
      i := i + 1;
    }
    assert filled == Filled(mem[..], table);
    rows := Kept(filled);
  }

  /** Every row the download writes comes from a descriptor of the table,
      in the table's order, and has the properties of `FillRowFacts`;
      every descriptor holding a programmed byte gives such a row. */
  lemma KeptRowsFacts(m: seq<byte>, t: seq<RowSpec>)
    requires |m| == MEMORY_SIZE && InMemory(t) && Ascending(t)
    ensures var k := Kept(Filled(m, t));
      && (forall r :: r in k <==> exists i :: 0 <= i < |t| && r == FillRow(m, t[i]) && r.used)
      && (forall i, j :: 0 <= i < j < |k| ==> k[i].row < k[j].row)
  {
    var f := Filled(m, t);
    KeptMembers(f);
    forall i | 0 <= i < |t|
      ensures f[i].row == t[i].row
    {
      FillRowFacts(m, t[i]);
    }
    assert forall i, j :: 0 <= i < j < |f| ==> f[i].row < f[j].row by {
      forall i, j | 0 <= i < j < |f|
        ensures f[i].row < f[j].row
      {
        assert t[i].row + t[i].rowlen <= t[j].row;
      }
    }
    KeptOrder(f);
  }

  // ---------------------------------------------------------------------------
  // The descriptor at 0x1E20.

  /** With programmed bytes at 0x1E20 and 0x1E7F, the descriptor 0x1E20/0x60
      of the written table gives a row of 96 bytes, which is kept and which
      `SelectFlash` refuses. */
  lemma WrittenRowTooLong(m: seq<byte>)
    requires |m| == MEMORY_SIZE && m[0x1E20] != ERASED && m[0x1E7F] != ERASED
    ensures var r := FillRow(m, RowSpec(0x1E20, 0x60));
      && r in Kept(Filled(m, WrittenRowTable()))
      && r.start == 0x1E20 && |r.data| == 96
      && SelectFlash(r.start, |r.data|) == Err(LengthTooHigh(96))
  {
    var s := RowSpec(0x1E20, 0x60);
    WrittenRowTableShape();
    FillRowFacts(m, s);
    var r := FillRow(m, s);
    assert r.used;
    var d := m[0x1E20..0x1E80];
    assert d[|d| - 1] == m[0x1E7F];
    assert r.data == TrimEnd(d);
    KeptMembers(Filled(m, WrittenRowTable()));
    assert Filled(m, WrittenRowTable())[75] == r;
  }

  /** With the corrected table every kept row fits one flash row: at most 64
      bytes, inside the 64-byte row of its start, so `SelectFlash` accepts it. */
  lemma RowTableRowsFit(m: seq<byte>)
    requires |m| == MEMORY_SIZE
    ensures forall r :: r in Kept(Filled(m, RowTable())) ==>
      && 0 < |r.data| <= ROW_SIZE
      && r.start / ROW_SIZE == (r.start + |r.data| - 1) / ROW_SIZE
      && SelectFlash(r.start, |r.data|).Ok?
  {
    RowTableShape();
    KeptRowsFit(m, RowTable());
  }

  /** When every descriptor lies inside one flash row, so does every kept row. */
  lemma KeptRowsFit(m: seq<byte>, t: seq<RowSpec>)
    requires |m| == MEMORY_SIZE && InMemory(t) && Ascending(t)
    requires forall i :: 0 <= i < |t| ==> InOneFlashRow(t[i])
    ensures forall r :: r in Kept(Filled(m, t)) ==>
      0 < |r.data| <= ROW_SIZE && r.start / ROW_SIZE == (r.start + |r.data| - 1) / ROW_SIZE
  {
    KeptRowsFacts(m, t);
    forall r | r in Kept(Filled(m, t))
      ensures 0 < |r.data| <= ROW_SIZE && r.start / ROW_SIZE == (r.start + |r.data| - 1) / ROW_SIZE
    {
      var i :| 0 <= i < |t| && r == FillRow(m, t[i]) && r.used;
      RowFits(m, t[i]);
    }
  }

  /** A used row of a descriptor inside one flash row stays inside it. */
  lemma RowFits(m: seq<byte>, s: RowSpec)
    requires Fits(s) && s.row + s.rowlen <= |m| && InOneFlashRow(s)
    ensures var r := FillRow(m, s);
      r.used ==> 0 < |r.data| <= ROW_SIZE && r.start / ROW_SIZE == (r.start + |r.data| - 1) / ROW_SIZE
  {
    var r := FillRow(m, s);
    FillRowFacts(m, s);
    if r.used {
      RowBlock(s.row, s.rowlen, r.start, |r.data|);
    }
  }

  /** A part of a span that lies inside one 64-byte row lies inside that row too. */
  lemma RowBlock(row: int, len: int, start: int, n: int)
    requires 0 <= row <= start && 0 < n && start + n <= row + len
    requires row / ROW_SIZE == (row + len - 1) / ROW_SIZE
    ensures start / ROW_SIZE == (start + n - 1) / ROW_SIZE
  {
  }

  // ---------------------------------------------------------------------------
  // The verify loop after each row.

  /** The first index where the read-back differs from what was written. */
  function FirstMismatch(written: seq<byte>, readback: seq<byte>): (r: Option<nat>)
    requires |written| <= |readback|
    ensures r.None? <==> readback[..|written|] == written
    ensures r.Some? ==> r.value < |written| && written[r.value] != readback[r.value]
    ensures r.Some? ==> forall x :: 0 <= x < r.value ==> written[x] == readback[x]
    decreases |written|
  {
    if written == [] then None
    else if written[0] != readback[0] then Some(0)
    else match FirstMismatch(written[1..], readback[1..])
      case None => None
      case Some(x) => Some(x + 1)
  }

  /** The verify step of a row written at `start`: the error names the
      address, the written and the read-back byte of the first difference. */
  function VerifyOutcome(start: int, written: seq<byte>, readback: seq<byte>): Outcome
    requires |written| <= |readback|
  {
    match FirstMismatch(written, readback)
    case None => Pass
    case Some(x) => Fail(VerifyFailed(start + x, written[x], readback[x]))
  }

  /** The verify passes exactly when the read-back starts with the written
      bytes; a failure is at the first address where they differ. */
  lemma VerifyOutcomeMeaning(start: int, written: seq<byte>, readback: seq<byte>)
    requires |written| <= |readback|
    ensures VerifyOutcome(start, written, readback).Pass? <==> readback[..|written|] == written
    ensures VerifyOutcome(start, written, readback).Fail? ==>
      exists x :: (0 <= x < |written| && written[x] != readback[x]
        && (forall y :: 0 <= y < x ==> written[y] == readback[y])
        && VerifyOutcome(start, written, readback).error == VerifyFailed(start + x, written[x], readback[x]))
  {
    var r := FirstMismatch(written, readback);
    if r.Some? {
      var x := r.value;
      assert VerifyOutcome(start, written, readback).error == VerifyFailed(start + x, written[x], readback[x]);
    }
  }

  /** The loop over the written bytes, stopping at the first difference. */
  method VerifyRow(start: int, written: seq<byte>, readback: seq<byte>) returns (o: Outcome)
    requires |written| <= |readback|
    ensures o == VerifyOutcome(start, written, readback)
  {
    var x := 0;
    while x < |written|
      invariant 0 <= x <= |written|
      invariant forall y :: 0 <= y < x ==> written[y] == readback[y]
    {
      if written[x] != readback[x] {
        MismatchAt(written, readback, x);
        return Fail(VerifyFailed(start + x, written[x], readback[x]));
      }
      x := x + 1;
    }
    assert readback[..|written|] == written;
    return Pass;
  }

  /** A difference after equal bytes is the first mismatch. */
  lemma {:induction false} MismatchAt(written: seq<byte>, readback: seq<byte>, x: nat)
    requires x < |written| <= |readback| && written[x] != readback[x]
    requires forall y :: 0 <= y < x ==> written[y] == readback[y]
    ensures FirstMismatch(written, readback) == Some(x)
    decreases x
  {
    if x > 0 {
      MismatchAt(written[1..], readback[1..], x - 1);
    }
  }
}
