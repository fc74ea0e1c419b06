/** The monitor-mode commands of the MC68HC908GZ60 and the exchanges the
    loader builds from them, as operation lists for the channel interpreter.

    Each loader routine is given by the operations it performs; where the
    routine's later bytes depend on an earlier answer (RUN needs the stack
    pointer read by READSP), the routine is a composition of `Exec`s and a
    lemma shows it equals the operation list for that answer. */
module Monitor {
  import opened Common
  import opened Channel

  // Monitor-mode command bytes.
  const READ: byte := 0x4A
  const IREAD: byte := 0x1A
  const WRITE: byte := 0x49
  const IWRITE: byte := 0x19
  const READSP: byte := 0x0C
  const RUN: byte := 0x28

  // RAM layout used with the flash handler routines.
  const ROW_BUFFER := 0x80      // row data buffer 0x80..0xBF
  const PARAMS := 0xC0          // parameter block 0xC0..0xC7
  const RET_CODE := 0xC6        // the handler's return code inside the block
  const HANDLER_RAM := 0x100    // where the handler image is loaded

  // Flash bank control and block-protect registers.
  const FL1CR := 0xFF88
  const FL1BPR := 0xFF80
  const FL2CR := 0xFE08
  const FL2BPR := 0xFF81

  /** Sixteen-bit value of a high and a low byte. */
  function Word(h: byte, l: byte): int { h * 256 + l }

  lemma WordOfHiLo(a: int)
    ensures Word(Hi(a), Lo(a)) == a % 0x10000
  {
    var q := a / 256;
    assert a == q * 256 + Lo(a);
    assert q == (q / 256) * 256 + Hi(a);
    assert a == (q / 256) * 0x10000 + Word(Hi(a), Lo(a));
  }

  // ---------------------------------------------------------------------------
  // Connection: eight security bytes, then the break character.

  function Repeat(v: byte, n: nat): seq<byte> { seq(n, _ => v) }

  function ConnectOps(): seq<Op> { Sends(Repeat(0xFF, 8)) + [Expect0(Break)] }

  lemma {:induction false} DoubledRepeat(v: byte, n: nat)
    ensures Doubled(Repeat(v, n)) == Repeat(v, 2 * n)
    decreases n
  {
    if n > 0 {
      DoubledRepeat(v, n - 1);
      assert Repeat(v, n) == [v] + Repeat(v, n - 1);
      assert Repeat(v, 2 * n) == [v, v] + Repeat(v, 2 * (n - 1));
    }
  }

  /** The security bytes: eight sends of 0xFF, echoed twice each. */
  lemma SecurityBytes()
    ensures Plain(Sends(Repeat(0xFF, 8))) && Recvs(Sends(Repeat(0xFF, 8))) == 0
    ensures Sent(Sends(Repeat(0xFF, 8))) == Repeat(0xFF, 8)
    ensures Replies(Sends(Repeat(0xFF, 8)), []) == Repeat(0xFF, 16)
    ensures ZeroAtChecks(Sends(Repeat(0xFF, 8)), [])
  {
    SendsShape(Repeat(0xFF, 8));
    DoubledRepeat(0xFF, 8);
  }

  /** Connecting succeeds exactly when every security byte is echoed twice and
      the break character that follows is 0; any other break character is the
      connection failure.  Eight 0xFF bytes are written either way. */
  lemma ConnectOnTarget(brk: byte, rest: seq<byte>)
    ensures Run(ConnectOps(), Repeat(0xFF, 16) + [brk] + rest)
         == Exec(if brk == 0 then Pass else Fail(ConnectionFailed), Repeat(0xFF, 8), rest, [brk])
  {
    SecurityBytes();
    RunOnRepliesThenCheck(Sends(Repeat(0xFF, 8)), Break, [], brk, rest);
  }

  lemma ConnectPassIsTarget(rx: seq<byte>)
    requires Run(ConnectOps(), rx).outcome.Pass?
    ensures |rx| >= 17 && rx[..16] == Repeat(0xFF, 16) && rx[16] == 0
  {
    var s := Sends(Repeat(0xFF, 8));
    RunPassThenCheck(s, Break, rx);
    var e := Run(s, rx);
    RunPassIsReplies(s, rx);
    SecurityBytes();
    assert e.got == [];
    assert rx == Repeat(0xFF, 16) + e.rest;
  }

  /** The operations of a connection, one by one. */
  lemma ConnectOpsAt()
    ensures |ConnectOps()| == 9 && ConnectOps()[8] == Expect0(Break)
    ensures forall j :: 0 <= j < 8 ==> ConnectOps()[j] == Send(0xFF)
  {
    SendsAt(Repeat(0xFF, 8));
  }

  // ---------------------------------------------------------------------------
  // ReadMemoryIntoList: READ, then one IREAD per further pair of bytes.

  /** Number of IREAD commands the read loop sends for `len` bytes. */
  function IReadCount(len: int): nat { if len < 2 then 0 else len / 2 }

  /** A command byte and a sixteen-bit address, high byte first. */
  function CommandOps(cmd: byte, addr: int): seq<Op> { Sends([cmd as int, Hi(addr), Lo(addr)]) }

  /** A command answered by two bytes. */
  function PairOps(cmd: byte): seq<Op> { [Send(cmd), Recv, Recv] }

  function IReadStep(): seq<Op> { PairOps(IREAD) }

  function IReadOps(k: nat): seq<Op>
    decreases k
  {
    if k == 0 then [] else IReadOps(k - 1) + IReadStep()
  }

  function ReadOps(addr: int, len: int): seq<Op>
  {
    CommandOps(READ, addr) + [Recv] + IReadOps(IReadCount(len))
  }

  lemma {:induction false} IReadOpsAdd(a: nat, b: nat)
    ensures IReadOps(a + b) == IReadOps(a) + IReadOps(b)
    ensures |IReadOps(a)| == 3 * a
    decreases b
  {
    if b == 0 {
      IReadOpsLength(a);
    } else {
      IReadOpsAdd(a, b - 1);
    }
  }

  lemma IReadOpsSplit(a: nat, k: nat)
    requires a <= k
    ensures IReadOps(k) == IReadOps(a) + IReadOps(k - a)
  {
    IReadOpsAdd(a, k - a);
  }

  lemma {:induction false} IReadOpsLength(k: nat)
    ensures |IReadOps(k)| == 3 * k
    decreases k
  {
    if k > 0 {
      IReadOpsLength(k - 1);
    }
  }

  /** The operations of a read: READ, the address and a receive, then the
      IREAD steps, the `i`-th of them at `4 + 3 * i`. */
  lemma ReadOpsAt(addr: int, len: int, i: nat)
    requires i < IReadCount(len)
    ensures var w := ReadOps(addr, len);
      && |w| == 4 + 3 * IReadCount(len)
      && w[..4] == CommandOps(READ, addr) + [Recv]
      && w[4 + 3 * i..4 + 3 * i + 3] == IReadStep()
  {
    var k := IReadCount(len);
    var w := ReadOps(addr, len);
    SendsAt([READ as int, Hi(addr), Lo(addr)]);
    IReadOpsAdd(i, k - i);
    IReadOpsAdd(1, k - i - 1);
    IReadOpsLength(k);
    assert IReadOps(1) == IReadStep();
    var p := CommandOps(READ, addr) + [Recv];
    assert w == p + IReadOps(i) + IReadStep() + IReadOps(k - i - 1);
  }

  /** One more IREAD: the line after it is where `IReadOps(i + 1)` leaves
      it, and once an IREAD fails the remaining ones do not run. */
  lemma IReadAdvance(i: nat, k: nat, rx0: seq<byte>, tx0: seq<byte>, txb: seq<byte>, s: Exec, tx1: seq<byte>)
    requires i < k
    requires var a := Run(IReadOps(i), rx0);
      a.outcome.Pass? && txb == tx0 + a.sent && s == Run(IReadStep(), a.rest) && tx1 == txb + s.sent
    ensures var b := Run(IReadOps(i + 1), rx0);
      && b.outcome == s.outcome && tx1 == tx0 + b.sent && b.rest == s.rest
      && b.got == Run(IReadOps(i), rx0).got + s.got
    ensures s.outcome.Fail? ==> Run(IReadOps(k), rx0) == Run(IReadOps(i + 1), rx0)
  {
    assert IReadOps(i + 1) == IReadOps(i) + IReadStep();
    RunAppend(IReadOps(i), IReadStep(), rx0);
    ThenEnded(Run(IReadOps(i), rx0), s, tx0, txb, tx1);
    if s.outcome.Fail? {
      IReadOpsSplit(i + 1, k);
      FailPrefix(IReadOps(k), IReadOps(i + 1), IReadOps(k - (i + 1)), rx0);
    }
  }

  lemma ReadOpsStart(addr: int, len: int)
    ensures var w := ReadOps(addr, len);
      && |w| == 4 + 3 * IReadCount(len)
      && w[..4] == CommandOps(READ, addr) + [Recv]
  {
    SendsAt([READ as int, Hi(addr), Lo(addr)]);
    IReadOpsLength(IReadCount(len));
  }

  /** A command byte followed by two receives (IREAD, READSP). */
  lemma CommandThenTwo(v: byte, d: seq<byte>)
    requires |d| == 2
    ensures Plain([Send(v), Recv, Recv]) && Recvs([Send(v), Recv, Recv]) == 2
    ensures Sent([Send(v), Recv, Recv]) == [v]
    ensures Replies([Send(v), Recv, Recv], d) == [v, v] + d
    ensures ZeroAtChecks([Send(v), Recv, Recv], d)
  {
    var s, r := [Send(v)], [Recv];
    OneSend(v);
    OneRecv(d[..1]);
    OneRecv(d[1..]);
    RepliesAppend(s, r, [], d[..1]);
    PlainAppend(s, r);
    RepliesAppend(s + r, r, d[..1], d[1..]);
    PlainAppend(s + r, r);
    assert s + r + r == [Send(v), Recv, Recv];
    assert [] + d[..1] + d[1..] == d;
    AppendAssoc([v, v], d[..1], d[1..]);
  }

  /** One send. */
  lemma OneSend(v: byte)
    ensures Plain([Send(v)]) && Recvs([Send(v)]) == 0 && Sent([Send(v)]) == [v]
    ensures Replies([Send(v)], []) == [v, v] && ZeroAtChecks([Send(v)], [])
  {
    assert [Send(v)][1..] == [];
  }

  /** One receive. */
  lemma OneRecv(d: seq<byte>)
    requires |d| == 1
    ensures Plain([Recv]) && Recvs([Recv]) == 1 && Sent([Recv]) == []
    ensures Replies([Recv], d) == d && ZeroAtChecks([Recv], d)
  {
    assert [Recv][1..] == [] && d[1..] == [];
  }

  lemma {:induction false} IReadOpsShape(k: nat, d: seq<byte>)
    requires |d| == 2 * k
    ensures Plain(IReadOps(k)) && Recvs(IReadOps(k)) == 2 * k
    ensures Sent(IReadOps(k)) == Repeat(IREAD, k)
    ensures ZeroAtChecks(IReadOps(k), d)
    decreases k
  {
    if k > 0 {
      var a, t := IReadOps(k - 1), [Send(IREAD), Recv, Recv];
      var d0, d1 := d[..2 * k - 2], d[2 * k - 2..];
      assert d == d0 + d1;
      IReadOpsShape(k - 1, d0);
      CommandThenTwo(IREAD, d1);
      PlainAppend(a, t);
      RepliesAppend(a, t, d0, d1);
      assert Repeat(IREAD, k - 1) + [IREAD] == Repeat(IREAD, k);
    }
  }

  /** The read sends READ, the address, then IREAD commands only; it receives
      one byte after READ and two after every IREAD, so for an even length of
      two or more it receives one byte more than it was asked for. */
  lemma ReadOpsShape(addr: int, len: int)
    ensures Plain(ReadOps(addr, len))
    ensures Recvs(ReadOps(addr, len)) == 1 + 2 * IReadCount(len)
    ensures Sent(ReadOps(addr, len)) == [READ, Hi(addr), Lo(addr)] + Repeat(IREAD, IReadCount(len))
    ensures 1 + 2 * IReadCount(len) == Max(len, 1) + (if len >= 2 && len % 2 == 0 then 1 else 0)
  {
    ReadOpsChecks(addr, len, seq(1 + 2 * IReadCount(len), _ => 0));
  }

  /** A read has no break-character check, whatever the target answers. */
  lemma ReadOpsChecks(addr: int, len: int, d: seq<byte>)
    requires |d| == 1 + 2 * IReadCount(len)
    ensures Plain(ReadOps(addr, len))
    ensures Recvs(ReadOps(addr, len)) == 1 + 2 * IReadCount(len)
    ensures Sent(ReadOps(addr, len)) == [READ, Hi(addr), Lo(addr)] + Repeat(IREAD, IReadCount(len))
    ensures ZeroAtChecks(ReadOps(addr, len), d)
  {
    var c := [READ, Hi(addr), Lo(addr)];
    var k := IReadCount(len);
    SendsShape(c);
    OneRecv(d[..1]);
    IReadOpsShape(k, d[1..]);
    assert d == [] + d[..1] + d[1..];
    RepliesAppend(Sends(c), [Recv], [], d[..1]);
    PlainAppend(Sends(c), [Recv]);
    RepliesAppend(Sends(c) + [Recv], IReadOps(k), d[..1], d[1..]);
    PlainAppend(Sends(c) + [Recv], IReadOps(k));
  }

  /** `ReadMemoryIntoList`: exactly `max(len, 1)` bytes, the first ones received. */
  function ReadMemory(addr: int, len: int, rx: seq<byte>): (r: Result<seq<byte>>)
    ensures r.Ok? ==> |r.value| == Max(len, 1)
  {
    var e := Run(ReadOps(addr, len), rx);
    if e.outcome.Fail? then Err(e.outcome.error)
    else
      RunPassIsReplies(ReadOps(addr, len), rx);
      ReadOpsShape(addr, len);
      Ok(e.got[..Max(len, 1)])
  }

  /** On a correct target holding `d` the read succeeds, writes the READ and
      IREAD commands, consumes exactly the replies and returns the first
      `max(len, 1)` bytes of what the target sent, in order. */
  lemma ReadOnTarget(addr: int, len: int, d: seq<byte>, rest: seq<byte>)
    requires |d| == 1 + 2 * IReadCount(len)
    ensures Plain(ReadOps(addr, len)) && Recvs(ReadOps(addr, len)) == |d|
    ensures Run(ReadOps(addr, len), Replies(ReadOps(addr, len), d) + rest)
         == Exec(Pass, [READ, Hi(addr), Lo(addr)] + Repeat(IREAD, IReadCount(len)), rest, d)
    ensures ReadMemory(addr, len, Replies(ReadOps(addr, len), d) + rest) == Ok(d[..Max(len, 1)])
  {
    ReadOpsShape(addr, len);
    ReadOpsChecks(addr, len, d);
    RunOnReplies(ReadOps(addr, len), d, rest);
  }

  /** Conversely, a read that succeeds has met a correct target. */
  lemma ReadPassIsTarget(addr: int, len: int, rx: seq<byte>)
    requires ReadMemory(addr, len, rx).Ok?
    ensures Plain(ReadOps(addr, len)) && Recvs(ReadOps(addr, len)) == 1 + 2 * IReadCount(len)
    ensures var e := Run(ReadOps(addr, len), rx);
      && |e.got| == 1 + 2 * IReadCount(len)
      && rx == Replies(ReadOps(addr, len), e.got) + e.rest
      && ReadMemory(addr, len, rx).value == e.got[..Max(len, 1)]
  {
    var e := Run(ReadOps(addr, len), rx);
    RunPassIsReplies(ReadOps(addr, len), rx);
    ReadOpsShape(addr, len);
  }

  // ---------------------------------------------------------------------------
  // WriteMemoryFromList: WRITE with the first byte, then IWRITE per byte.

  /** An IWRITE command before each of `ds`. */
  function IWrites(ds: seq<int>): seq<int>
    decreases |ds|
  {
    if ds == [] then [] else IWrites(ds[..|ds| - 1]) + [IWRITE as int, ds[|ds| - 1]]
  }

  /** What the write puts on the line before it fails or ends. */
  function WriteStream(data: seq<int>, addr: int): seq<int>
  {
    [WRITE, Hi(addr), Lo(addr)] + (if data == [] then [] else [data[0]] + IWrites(data[1..]))
  }

  /** An empty list fails when its first element is fetched, after the
      command and the address have been sent. */
  function WriteOps(data: seq<int>, addr: int): seq<Op>
  {
    Sends(WriteStream(data, addr)) + (if data == [] then [Abort(EmptyData)] else [])
  }

  lemma {:induction false} IWritesShape(ds: seq<int>)
    ensures |IWrites(ds)| == 2 * |ds|
    ensures forall i :: 0 <= i < |ds| ==> IWrites(ds)[2 * i] == IWRITE && IWrites(ds)[2 * i + 1] == ds[i]
    ensures AllBytes(IWrites(ds)) <==> AllBytes(ds)
    decreases |ds|
  {
    if ds != [] {
      var a := ds[..|ds| - 1];
      IWritesShape(a);
      assert forall i :: 0 <= i < |a| ==> a[i] == ds[i];
      var w := IWrites(ds);
      assert forall j :: 0 <= j < |IWrites(a)| ==> w[j] == IWrites(a)[j];
    }
  }

  /** The sixteen-bit address and the bytes a WRITE/IWRITE stream stores,
      the first at the address and each later one at the next address. */
  datatype WriteRequest = WriteRequest(address: int, data: seq<byte>)

  function DecodeIWrites(s: seq<byte>): Option<seq<byte>>
    decreases |s|
  {
    if s == [] then Some([])
    else if |s| >= 2 && s[|s| - 2] == IWRITE then
      match DecodeIWrites(s[..|s| - 2])
      case None => None
      case Some(t) => Some(t + [s[|s| - 1]])
    else None
  }

  /** What the monitor makes of a write stream. */
  function DecodeWrite(s: seq<byte>): Option<WriteRequest>
  {
    if |s| >= 4 && s[0] == WRITE then
      match DecodeIWrites(s[4..])
      case None => None
      case Some(t) => Some(WriteRequest(Word(s[1], s[2]), [s[3]] + t))
    else None
  }

  lemma {:induction false} IWritesRoundTrip(ds: seq<byte>)
    ensures AllBytes(IWrites(ds))
    ensures DecodeIWrites(IWrites(ds)) == Some(ds)
    decreases |ds|
  {
    IWritesShape(ds);
    if ds != [] {
      var a := ds[..|ds| - 1];
      IWritesRoundTrip(a);
      var s: seq<byte> := IWrites(ds);
      assert s[..|s| - 2] == IWrites(a);
      assert a + [ds[|ds| - 1]] == ds;
    }
  }

  /** The write stream of a non-empty list: the command, the address, the
      first value, then an IWRITE before each later value. */
  lemma WriteStreamShape(data: seq<int>, addr: int)
    requires data != []
    ensures var w := WriteStream(data, addr);
      && |w| == 2 * |data| + 2
      && w[..4] == [WRITE, Hi(addr), Lo(addr), data[0]]
      && w[4..] == IWrites(data[1..])
      && (forall i :: 1 <= i < |data| ==> w[2 * i + 2] == IWRITE && w[2 * i + 3] == data[i])
      && (AllBytes(w) <==> AllBytes(data))
  {
    var w := WriteStream(data, addr);
    var t := data[1..];
    IWritesShape(t);
    assert w[4..] == IWrites(t);
    forall i | 1 <= i < |data|
      ensures w[2 * i + 2] == IWRITE && w[2 * i + 3] == data[i]
    {
      assert w[2 * i + 2] == IWrites(t)[2 * (i - 1)];
      assert w[2 * i + 3] == IWrites(t)[2 * (i - 1) + 1];
      assert t[i - 1] == data[i];
    }
    WriteStreamBytes(data, addr);
  }

  lemma WriteStreamBytes(data: seq<int>, addr: int)
    requires data != []
    ensures AllBytes(WriteStream(data, addr)) <==> AllBytes(data)
  {
    var w := WriteStream(data, addr);
    var t := data[1..];
    IWritesShape(t);
    var h := [WRITE as int, Hi(addr), Lo(addr), data[0]];
    assert w[..4] == h && w[4..] == IWrites(t);
    AllBytesSplit(w, 4);
    assert AllBytes(h) <==> 0 <= h[3] < 256 by {
      assert forall i :: 0 <= i < 3 ==> 0 <= h[i] < 256;
    }
    AllBytesSplit(data, 1);
    assert data[..1] == [data[0]] && data[1..] == t;
  }

  /** A write of a non-empty list of bytes sends 2n+2 bytes, the command, the
      address, the first byte and an IWRITE before each later byte; the
      monitor decodes them as exactly those bytes at the sixteen-bit address. */
  lemma WriteRoundTrip(data: seq<byte>, addr: int)
    requires data != []
    ensures Plain(WriteOps(data, addr)) && Recvs(WriteOps(data, addr)) == 0
    ensures var s := Sent(WriteOps(data, addr));
      && |s| == 2 * |data| + 2
      && s[..4] == [WRITE, Hi(addr), Lo(addr), data[0]]
      && (forall i :: 1 <= i < |data| ==> s[2 * i + 2] == IWRITE && s[2 * i + 3] == data[i])
      && DecodeWrite(s) == Some(WriteRequest(addr % 0x10000, data))
  {
    var w := WriteStream(data, addr);
    WriteStreamShape(data, addr);
    assert WriteOps(data, addr) == Sends(w);
    SendsShape(w);
    WriteDecodes(data, addr);
  }

  lemma WriteDecodes(data: seq<byte>, addr: int)
    requires data != [] && AllBytes(WriteStream(data, addr))
    ensures DecodeWrite(WriteStream(data, addr)) == Some(WriteRequest(addr % 0x10000, data))
  {
    var s: seq<byte> := WriteStream(data, addr);
    WriteStreamShape(data, addr);
    IWritesRoundTrip(data[1..]);
    WordOfHiLo(addr);
    assert s[4..] == IWrites(data[1..]);
    assert [data[0]] + data[1..] == data;
  }

  /** On a correct target the write succeeds and consumes the doubled bytes. */
  lemma WriteOnTarget(data: seq<byte>, addr: int, rest: seq<byte>)
    requires data != []
    ensures Plain(WriteOps(data, addr))
    ensures Run(WriteOps(data, addr), Doubled(Sent(WriteOps(data, addr))) + rest)
         == Exec(Pass, Sent(WriteOps(data, addr)), rest, [])
  {
    WriteRoundTrip(data, addr);
    RepliesWithoutRecvs(WriteOps(data, addr));
    RunOnReplies(WriteOps(data, addr), [], rest);
  }

  /** The operations of a write, one by one. */
  lemma WriteOpsAt(data: seq<int>, addr: int)
    ensures data == [] ==> WriteOps(data, addr) == [Send(WRITE), Send(Hi(addr)), Send(Lo(addr)), Abort(EmptyData)]
    ensures data != [] ==> var w := WriteOps(data, addr);
      && |w| == 2 * |data| + 2
      && w[0] == Send(WRITE) && w[1] == Send(Hi(addr)) && w[2] == Send(Lo(addr)) && w[3] == Send(data[0])
      && forall i :: 1 <= i < |data| ==> w[2 * i + 2] == Send(IWRITE) && w[2 * i + 3] == Send(data[i])
  {
    var s := WriteStream(data, addr);
    SendsAt(s);
    if data == [] {
      assert s == [WRITE as int, Hi(addr), Lo(addr)];
    } else {
      WriteStreamShape(data, addr);
      assert WriteOps(data, addr) == Sends(s);
      assert s[..4] == [WRITE, Hi(addr), Lo(addr), data[0]];
      assert s[0] == WRITE && s[3] == data[0];
    }
  }

  /** An empty list is refused after the command and the address went out. */
  lemma WriteEmptyFails(addr: int, rest: seq<byte>)
    ensures Run(WriteOps([], addr), Doubled([WRITE, Hi(addr), Lo(addr)]) + rest)
         == Exec(Fail(EmptyData), [WRITE, Hi(addr), Lo(addr)], rest, [])
  {
    var c := [WRITE as int, Hi(addr), Lo(addr)];
    assert WriteStream([], addr) == c;
    assert WriteOps([], addr) == Sends(c) + [Abort(EmptyData)];
    SendsShape(c);
    RunOnReplies(Sends(c), [], rest);
    RunSnoc(Sends(c), Abort(EmptyData), Doubled(c) + rest);
  }

  /** A write succeeds only for a non-empty list of bytes: a value outside
      0..255 fails when it is handed to the port. */
  lemma WritePassNeedsBytes(data: seq<int>, addr: int, rx: seq<byte>)
    requires Run(WriteOps(data, addr), rx).outcome.Pass?
    ensures data != [] && AllBytes(data)
  {
    RunPassIsReplies(WriteOps(data, addr), rx);
    var w := WriteStream(data, addr);
    if data == [] {
      PlainAppendIff(Sends(w), [Abort(EmptyData)]);
      assert false;
    }
    assert WriteOps(data, addr) == Sends(w);
    SendsShape(w);
    WriteStreamShape(data, addr);
  }
}
