/** The memory dump text: sixteen bytes per line, each line the address in
    `%04X` form, `" | "`, the bytes as `%02X ` columns padded with spaces to
    column 55, `" | "` and the bytes as characters, with '.' for those
    outside 0x20..0x7E.  The lines are joined by newlines; no data at all
    gives `<empty>`.  Also the clamp of the dump length at the end of the
    64 KiB address space. */
module HexDump {
  import opened Common

  const HEX_COLUMN := 3 * 16 + 7

  function HexDigit(d: int): char
    requires 0 <= d < 16
  {
    "0123456789ABCDEF"[d]
  }

  /** The uppercase hexadecimal digits of `n`, without leading zeros. */
  function Hex(n: nat): (s: string)
    ensures 0 < |s|
    decreases n
  {
    if n < 16 then [HexDigit(n)] else Hex(n / 16) + [HexDigit(n % 16)]
  }

  function Zeros(n: nat): string { seq(n, _ => '0') }

  /** Python's `%0wX` on a non-negative value: zeros in front up to width `w`. */
  function ZeroPad(s: string, w: nat): string
  {
    if |s| < w then Zeros(w - |s|) + s else s
  }

  /** `"%04X" % n`: the sign counts towards the width. */
  function Hex04(n: int): string
  {
    if n < 0 then "-" + ZeroPad(Hex(-n), 3) else ZeroPad(Hex(n), 4)
  }

  /** `"%02X" % b`. */
  function Hex02(b: byte): string { ZeroPad(Hex(b), 2) }

  /** `%c` of the byte, or '.' outside 0x20..0x7E. */
  function Shown(b: byte): char
  {
    if b < 0x20 || b > 0x7E then '.' else b as char
  }

  function HexColumn(chunk: seq<byte>): string
    decreases |chunk|
  {
    if chunk == [] then "" else Hex02(chunk[0]) + " " + HexColumn(chunk[1..])
  }

  function TextColumn(chunk: seq<byte>): string
  {
    seq(|chunk|, j requires 0 <= j < |chunk| => Shown(chunk[j]))
  }

  /** `" " * n`, which is empty for a negative count. */
  function Spaces(n: int): string
  {
    if n <= 0 then "" else seq(n, _ => ' ')
  }

  /** The sixteen (or, at the end, fewer) bytes from index `i`. */
  function Chunk(data: seq<byte>, i: nat): seq<byte>
    requires i <= |data|
  {
    data[i..Min(i + 16, |data|)]
  }

  /** The line for the bytes from index `i`, shown at address `start + i`. */
  function Line(data: seq<byte>, i: nat, start: int): string
    requires i <= |data|
  {
    var head := Hex04(i + start) + " | " + HexColumn(Chunk(data, i));
    head + Spaces(HEX_COLUMN - |head|) + " | " + TextColumn(Chunk(data, i))
  }

  function LineCount(n: nat): nat { (n + 15) / 16 }

  function Lines(data: seq<byte>, start: int): seq<string>
  {
    seq(LineCount(|data|), k requires 0 <= k < LineCount(|data|) => Line(data, 16 * k, start))
  }

  function Join(lines: seq<string>): string
    decreases |lines|
  {
    if lines == [] then ""
    else if |lines| == 1 then lines[0]
    else lines[0] + "\n" + Join(lines[1..])
  }

  /** `hex_dump_memory(data, startaddress)`. */
  function HexDumpMemory(data: seq<byte>, start: int): string
  {
    if |data| == 0 then "<empty>" else Join(Lines(data, start))
  }

  // ---------------------------------------------------------------------------
  // Reading the text back.

  function DigitValue(c: char): int
  {
    if '0' <= c <= '9' then c as int - '0' as int
    else if 'A' <= c <= 'F' then c as int - 'A' as int + 10
    else -1
  }

  function ParseHex(s: string): int
    decreases |s|
  {
    if s == [] then 0 else ParseHex(s[..|s| - 1]) * 16 + DigitValue(s[|s| - 1])
  }

  /** Splitting at the newlines. */
  function Split(s: string): (r: seq<string>)
    ensures |r| > 0
    decreases |s|
  {
    if s == [] then [""]
    else
      var t := Split(s[1..]);
      if s[0] == '\n' then [""] + t else [[s[0]] + t[0]] + t[1..]
  }

  predicate NoNewline(s: string) { forall j :: 0 <= j < |s| ==> s[j] != '\n' }

  lemma {:induction false} HexRoundTrip(n: nat)
    ensures ParseHex(Hex(n)) == n
    decreases n
  {
    if n >= 16 {
      HexRoundTrip(n / 16);
      var s := Hex(n);
      assert s[..|s| - 1] == Hex(n / 16);
    }
  }

  lemma {:induction false} ZerosParse(z: nat, s: string)
    ensures ParseHex(Zeros(z) + s) == ParseHex(s) + 0
    ensures ParseHex(Zeros(z)) == 0
    decreases |s|, z
  {
    if s == [] {
      assert Zeros(z) + s == Zeros(z);
      if z > 0 {
        assert Zeros(z)[..z - 1] == Zeros(z - 1);
        ZerosParse(z - 1, []);
        assert Zeros(z - 1) + [] == Zeros(z - 1);
      }
    } else {
      var w := Zeros(z) + s;
      assert w[..|w| - 1] == Zeros(z) + s[..|s| - 1];
      ZerosParse(z, s[..|s| - 1]);
    }
  }

  /** The two hex digits of a byte read back as the byte. */
  lemma Hex02RoundTrip(b: byte)
    ensures |Hex02(b)| == 2 && ParseHex(Hex02(b)) == b
  {
    HexRoundTrip(b);
    HexLength(b, 2);
    ZerosParse(2 - |Hex(b)|, Hex(b));
  }

  /** The address of a line read back, for a non-negative address; it takes
      four characters exactly up to 0xFFFF. */
  lemma Hex04RoundTrip(n: nat)
    ensures ParseHex(Hex04(n)) == n
    ensures |Hex04(n)| == 4 <==> n < 0x10000
  {
    HexRoundTrip(n);
    HexLength(n, 4);
    if |Hex(n)| < 4 {
      ZerosParse(4 - |Hex(n)|, Hex(n));
    }
  }

  /** Hex(n) has at most `w` digits exactly when n < 16^w (for w = 2 and 4). */
  lemma {:induction false} HexLength(n: nat, w: nat)
    requires w == 1 || w == 2 || w == 3 || w == 4
    ensures |Hex(n)| <= w <==> n < Pow16(w)
    decreases w
  {
    if w > 1 {
      if n >= 16 {
        HexLength(n / 16, w - 1);
      }
    }
  }

  function Pow16(w: nat): nat { if w == 0 then 1 else 16 * Pow16(w - 1) }

  lemma {:induction false} HexColumnShape(chunk: seq<byte>)
    ensures |HexColumn(chunk)| == 3 * |chunk|
    ensures forall j :: 0 <= j < |chunk| ==> HexColumn(chunk)[3 * j..3 * j + 3] == Hex02(chunk[j]) + " "
    ensures NoNewline(HexColumn(chunk))
    decreases |chunk|
  {
    if chunk != [] {
      HexColumnShape(chunk[1..]);
      Hex02RoundTrip(chunk[0]);
      var c := HexColumn(chunk);
      var h := Hex02(chunk[0]) + " ";
      var t := HexColumn(chunk[1..]);
      assert c == h + t;
      forall j | 0 <= j < |chunk|
        ensures c[3 * j..3 * j + 3] == Hex02(chunk[j]) + " "
      {
        if j > 0 {
          assert c[3 * j..3 * j + 3] == t[3 * (j - 1)..3 * (j - 1) + 3];
        }
      }
      Hex02NoNewline(chunk[0]);
      NoNewlineConcat(Hex02(chunk[0]), " ");
      NoNewlineConcat(h, t);
    }
  }

  lemma {:induction false} HexColumnLength(chunk: seq<byte>)
    ensures |HexColumn(chunk)| == 3 * |chunk|
    decreases |chunk|
  {
    if chunk != [] {
      HexColumnLength(chunk[1..]);
      Hex02RoundTrip(chunk[0]);
    }
  }

  lemma NoNewlineConcat(a: string, b: string)
    requires NoNewline(a) && NoNewline(b)
    ensures NoNewline(a + b)
  {
    assert forall j :: |a| <= j < |a + b| ==> (a + b)[j] == b[j - |a|];
  }

  lemma {:induction false} HexNoNewline(n: nat)
    ensures NoNewline(Hex(n))
    decreases n
  {
    if n >= 16 {
      HexNoNewline(n / 16);
      NoNewlineConcat(Hex(n / 16), [HexDigit(n % 16)]);
    }
  }

  lemma ZeroPadNoNewline(s: string, w: nat)
    requires NoNewline(s)
    ensures NoNewline(ZeroPad(s, w))
  {
    if |s| < w {
      NoNewlineConcat(Zeros(w - |s|), s);
    }
  }

  lemma Hex02NoNewline(b: byte)
    ensures NoNewline(Hex02(b))
  {
    HexNoNewline(b);
    ZeroPadNoNewline(Hex(b), 2);
  }

  lemma Hex04NoNewline(n: int)
    ensures NoNewline(Hex04(n))
  {
    if n < 0 {
      HexNoNewline(-n);
      ZeroPadNoNewline(Hex(-n), 3);
      NoNewlineConcat("-", ZeroPad(Hex(-n), 3));
    } else {
      HexNoNewline(n);
      ZeroPadNoNewline(Hex(n), 4);
    }
  }

  /** `l` shows the bytes `c` at address `addr`: the address in four hex
      digits, " | ", each byte as two hex digits and a space, spaces up to
      column 55, " | ", and one character per byte, '.' for the bytes outside
      0x20..0x7E.  The address and the bytes read back from the text. */
  ghost predicate ShowsLine(l: string, addr: int, c: seq<byte>)
  {
    && |c| <= 16 && |l| == HEX_COLUMN + 3 + |c|
    && ParseHex(l[..4]) == addr && l[4..7] == " | "
    && (forall j :: 0 <= j < |c| ==> ParseHex(l[7 + 3 * j..9 + 3 * j]) == c[j] && l[9 + 3 * j] == ' ')
    && (forall j :: 7 + 3 * |c| <= j < HEX_COLUMN ==> l[j] == ' ')
    && l[HEX_COLUMN..HEX_COLUMN + 3] == " | "
    && (forall j :: 0 <= j < |c| ==> l[HEX_COLUMN + 3 + j] == Shown(c[j]))
  }

  /** The same layout with the address still as text `a` and each byte's
      column as its two digits and a space. */
  ghost predicate Layout(l: string, a: string, c: seq<byte>)
  {
    && |c| <= 16 && |l| == HEX_COLUMN + 3 + |c|
    && l[..4] == a && l[4..7] == " | "
    && (forall j :: 0 <= j < |c| ==> l[7 + 3 * j..10 + 3 * j] == Hex02(c[j]) + " ")
    && (forall j :: 7 + 3 * |c| <= j < HEX_COLUMN ==> l[j] == ' ')
    && l[HEX_COLUMN..HEX_COLUMN + 3] == " | "
    && (forall j :: 0 <= j < |c| ==> l[HEX_COLUMN + 3 + j] == Shown(c[j]))
  }

  /** Line `k` of a dump whose addresses have at most four hex digits shows
      the sixteen (at the end, fewer) bytes from index 16k at their address. */
  lemma LineShape(data: seq<byte>, k: nat, start: int)
    requires 16 * k < |data| && 0 <= start + 16 * k < 0x10000
    ensures var c := Chunk(data, 16 * k);
      && 0 < |c| <= 16 && c == data[16 * k..Min(16 * k + 16, |data|)]
      && ShowsLine(Line(data, 16 * k, start), start + 16 * k, c)
  {
    var i := 16 * k;
    var c := Chunk(data, i);
    var a := Hex04(i + start);
    var l := Line(data, i, start);
    Hex04RoundTrip(i + start);
    HexColumnLength(c);
    assert l == a + " | " + HexColumn(c) + Spaces(HEX_COLUMN - (7 + 3 * |c|)) + " | " + TextColumn(c);
    LineFromParts(a, c, l);
    LayoutParses(l, a, c, i + start);
  }

  lemma LayoutParses(l: string, a: string, c: seq<byte>, addr: int)
    requires Layout(l, a, c) && ParseHex(a) == addr
    ensures ShowsLine(l, addr, c)
  {
    forall j | 0 <= j < |c|
      ensures ParseHex(l[7 + 3 * j..9 + 3 * j]) == c[j] && l[9 + 3 * j] == ' '
    {
      PairParses(l, 7 + 3 * j, c[j]);
    }
  }

  lemma LineFromParts(a: string, c: seq<byte>, l: string)
    requires |a| == 4 && |c| <= 16
    requires l == a + " | " + HexColumn(c) + Spaces(HEX_COLUMN - (7 + 3 * |c|)) + " | " + TextColumn(c)
    ensures Layout(l, a, c)
  {
    var h := HexColumn(c);
    HexColumnShape(c);
    var sp := Spaces(HEX_COLUMN - (7 + 3 * |c|));
    LineLayout(a, h, sp, TextColumn(c));
    ColumnBytes(l, h, c);
  }

  /** The columns of the bytes, placed at column 7 of `l`. */
  lemma ColumnBytes(l: string, h: string, c: seq<byte>)
    requires |h| == 3 * |c| && 7 + |h| <= |l| && l[7..7 + |h|] == h
    requires forall j :: 0 <= j < |c| ==> h[3 * j..3 * j + 3] == Hex02(c[j]) + " "
    ensures forall j :: 0 <= j < |c| ==> l[7 + 3 * j..10 + 3 * j] == Hex02(c[j]) + " "
  {
    forall j | 0 <= j < |c|
      ensures l[7 + 3 * j..10 + 3 * j] == Hex02(c[j]) + " "
    {
      SliceOfSlice(l, 7, 7 + |h|, 3 * j, 3 * j + 3);
    }
  }

  lemma SliceOfSlice(s: string, a: int, b: int, i: int, j: int)
    requires 0 <= a <= b <= |s| && 0 <= i <= j <= b - a
    ensures s[a..b][i..j] == s[a + i..a + j]
  {
    assert forall k :: 0 <= k < j - i ==> s[a..b][i..j][k] == s[a + i + k];
  }

  /** A byte's column at `x` reads back as the byte. */
  lemma PairParses(l: string, x: int, b: byte)
    requires 0 <= x && x + 3 <= |l| && l[x..x + 3] == Hex02(b) + " "
    ensures ParseHex(l[x..x + 2]) == b && l[x + 2] == ' '
  {
    Hex02RoundTrip(b);
    SliceOfSlice(l, x, x + 3, 0, 2);
    assert l[x..x + 3][..2] == Hex02(b);
    assert l[x + 2] == l[x..x + 3][2];
  }

  /** Where the parts of a line sit, for a four-character address and a hex
      column padded to HEX_COLUMN. */
  lemma LineLayout(a: string, h: string, sp: string, t: string)
    requires |a| == 4 && 7 + |h| + |sp| == HEX_COLUMN && forall j :: 0 <= j < |sp| ==> sp[j] == ' '
    ensures var l := a + " | " + h + sp + " | " + t;
      && |l| == HEX_COLUMN + 3 + |t|
      && l[..4] == a && l[4..7] == " | " && l[7..7 + |h|] == h
      && (forall j :: 7 + |h| <= j < HEX_COLUMN ==> l[j] == ' ')
      && l[HEX_COLUMN..HEX_COLUMN + 3] == " | "
      && (forall j :: 0 <= j < |t| ==> l[HEX_COLUMN + 3 + j] == t[j])
  {
    var l := a + " | " + h + sp + " | " + t;
    forall j | 7 + |h| <= j < HEX_COLUMN
      ensures l[j] == ' '
    {
      assert l[j] == sp[j - 7 - |h|];
    }
  }

  /** The shown character is never a newline. */
  lemma ShownNoNewline(b: byte)
    ensures Shown(b) != '\n'
  {
  }

  /** Every line of a dump is free of newlines. */
  lemma LineNoNewline(data: seq<byte>, i: nat, start: int)
    requires i <= |data|
    ensures NoNewline(Line(data, i, start))
  {
    var c := Chunk(data, i);
    var a := Hex04(i + start);
    var h := HexColumn(c);
    Hex04NoNewline(i + start);
    HexColumnShape(c);
    NoNewlineConcat(a, " | ");
    NoNewlineConcat(a + " | ", h);
    var head := a + " | " + h;
    var sp := Spaces(HEX_COLUMN - |head|);
    assert NoNewline(sp);
    NoNewlineConcat(head, sp);
    NoNewlineConcat(head + sp, " | ");
    assert NoNewline(TextColumn(c));
    NoNewlineConcat(head + sp + " | ", TextColumn(c));
  }

  /** Joining lines free of newlines and splitting the text again gives the lines back. */
  lemma {:induction false} SplitJoin(lines: seq<string>)
    requires lines != [] && forall k :: 0 <= k < |lines| ==> NoNewline(lines[k])
    ensures Split(Join(lines)) == lines
    decreases |lines|
  {
    if |lines| == 1 {
      SplitPlain(lines[0]);
    } else {
      SplitJoin(lines[1..]);
      SplitPrefix(lines[0], Join(lines[1..]));
    }
  }

  lemma {:induction false} SplitPlain(s: string)
    requires NoNewline(s)
    ensures Split(s) == [s]
    decreases |s|
  {
    if s != [] {
      SplitPlain(s[1..]);
      assert [s[0]] + s[1..] == s;
    }
  }

  lemma {:induction false} SplitPrefix(s: string, rest: string)
    requires NoNewline(s)
    ensures Split(s + "\n" + rest) == [s] + Split(rest)
    decreases |s|
  {
    if s == [] {
      assert s + "\n" + rest == "\n" + rest;
      assert ("\n" + rest)[1..] == rest;
    } else {
      SplitPrefix(s[1..], rest);
      var w := s + "\n" + rest;
      assert w[0] == s[0] && w[1..] == s[1..] + "\n" + rest;
      assert [s[0]] + s[1..] == s;
    }
  }

  /** The dump is `<empty>` for no data; otherwise it splits at its newlines
      into one line per sixteen bytes, rounded up, line `k` showing the bytes
      from index 16k. */
  lemma HexDumpLines(data: seq<byte>, start: int)
    ensures |data| == 0 ==> HexDumpMemory(data, start) == "<empty>"
    ensures |data| > 0 ==>
      var ls := Split(HexDumpMemory(data, start));
      && |ls| == (|data| + 15) / 16
      && forall k :: 0 <= k < |ls| ==> ls[k] == Line(data, 16 * k, start)
  {
    if |data| > 0 {
      var ls := Lines(data, start);
      forall k | 0 <= k < |ls|
        ensures NoNewline(ls[k])
      {
        LineNoNewline(data, 16 * k, start);
      }
      SplitJoin(ls);
    }
  }

  /** The dump stops at the end of the address space: when `start + len`
      passes 0xFFFF the length becomes `0x10000 - start`, so a dump from an
      address up to 0xFFFF reads no byte past 0xFFFF (the read always takes
      at least one byte). */
  function ClampDumpLength(start: int, len: int): (n: int)
    ensures 0 <= start <= 0xFFFF ==> start + Max(n, 1) <= 0x10000
    ensures start + len <= 0x10000 ==> n == len
    ensures 0x10000 < start + len ==> start + n == 0x10000
  {
    if 0xFFFF < start + len then 0x10000 - start else len
  }
}
