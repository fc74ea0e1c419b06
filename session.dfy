/** The loader's state: the serial line and the globals the loader keeps
    (`connected`, the handler image and the flag that it has been loaded, the
    two routine entry addresses).

    Every method performs over the line exactly the exchange that the pure
    description in `Channel`, `Monitor` and `Flash` gives for it, and leaves
    the line where that description says: `tx` extended by what was sent and
    `rx` cut down to what is left.  The loader exits on every error; here a
    method returns the failure and its caller stops. */
module Session {
  import opened Common
  import opened Channel
  import opened Monitor
  import opened Flash
  import FlashRows
  import MemoryImage
  import HexDump

  /** Connecting first unless already connected, then `ops`. */
  function ConnectedRun(connected: bool, ops: seq<Op>, rx: seq<byte>): Exec
  {
    if connected then Run(ops, rx) else Run(ConnectOps() + ops, rx)
  }

  /** One row of the download: the row written, read back from its start
      address for its length, and compared. */
  function RowExchange(r: FlashRows.Row, entry: int, rx: seq<byte>): Exec
  {
    var d := Flash.DownloadRow(r.data, r.start, entry, rx);
    var rd := Run(ReadOps(r.start, |r.data|), d.rest);
    var v := match ReadMemory(r.start, |r.data|, d.rest)
      case Err(e) => Fail(e)
      case Ok(rb) => FlashRows.VerifyOutcome(r.start, r.data, rb);
    Then(d, Then(rd, Exec(v, [], rd.rest, [])))
  }

  function RowStep(entry: int): (FlashRows.Row, seq<byte>) -> Exec
  {
    (r: FlashRows.Row, rx: seq<byte>) => RowExchange(r, entry, rx)
  }

  /** The rows in order, each on what the previous ones left of the line. */
  function RowsExchange(rows: seq<FlashRows.Row>, entry: int, rx: seq<byte>): Exec
  {
    Chain(rows, RowStep(entry), rx)
  }

  /** A row whose write fails ends there. */
  lemma RowWriteFails(r: FlashRows.Row, entry: int, rx: seq<byte>)
    requires Flash.DownloadRow(r.data, r.start, entry, rx).outcome.Fail?
    ensures RowExchange(r, entry, rx) == Flash.DownloadRow(r.data, r.start, entry, rx)
  {
  }

  /** A row whose read-back fails ends with the read error. */
  lemma RowReadFails(r: FlashRows.Row, entry: int, rx: seq<byte>)
    requires var d := Flash.DownloadRow(r.data, r.start, entry, rx);
      d.outcome.Pass? && Run(ReadOps(r.start, |r.data|), d.rest).outcome.Fail?
    ensures var d := Flash.DownloadRow(r.data, r.start, entry, rx);
      RowExchange(r, entry, rx) == Then(d, Run(ReadOps(r.start, |r.data|), d.rest))
  {
    var d := Flash.DownloadRow(r.data, r.start, entry, rx);
    assert ReadMemory(r.start, |r.data|, d.rest).Err?;
  }

  /** A row written and read back ends with the verify of the read-back bytes. */
  lemma RowVerified(r: FlashRows.Row, entry: int, rx: seq<byte>)
    requires var d := Flash.DownloadRow(r.data, r.start, entry, rx);
      d.outcome.Pass? && Run(ReadOps(r.start, |r.data|), d.rest).outcome.Pass?
    ensures var d := Flash.DownloadRow(r.data, r.start, entry, rx);
      var rd := Run(ReadOps(r.start, |r.data|), d.rest);
      var rb := ReadMemory(r.start, |r.data|, d.rest);
      && rb.Ok? && |rb.value| >= |r.data|
      && RowExchange(r, entry, rx) == Then(d, Exec(FlashRows.VerifyOutcome(r.start, r.data, rb.value), rd.sent, rd.rest, rd.got))
  {
    var d := Flash.DownloadRow(r.data, r.start, entry, rx);
    var rd := Run(ReadOps(r.start, |r.data|), d.rest);
    var rb := ReadMemory(r.start, |r.data|, d.rest);
    assert rb.Ok? && |rb.value| == Max(|r.data|, 1);
    var v := FlashRows.VerifyOutcome(r.start, r.data, rb.value);
    assert rd.sent + [] == rd.sent && rd.got + [] == rd.got;
    assert Then(rd, Exec(v, [], rd.rest, [])) == Exec(v, rd.sent, rd.rest, rd.got);
  }

  /** A row passes exactly when it is written, read back, and the read-back
      bytes are the row's data. */
  lemma RowExchangePass(r: FlashRows.Row, entry: int, rx: seq<byte>)
    ensures var d := Flash.DownloadRow(r.data, r.start, entry, rx);
      RowExchange(r, entry, rx).outcome.Pass? <==>
        && d.outcome.Pass?
        && ReadMemory(r.start, |r.data|, d.rest).Ok?
        && ReadMemory(r.start, |r.data|, d.rest).value[..|r.data|] == r.data
  {
    var d := Flash.DownloadRow(r.data, r.start, entry, rx);
    var rb := ReadMemory(r.start, |r.data|, d.rest);
    if rb.Ok? {
      FlashRows.VerifyOutcomeMeaning(r.start, r.data, rb.value);
    }
  }

  /** A row of more than 64 bytes, such as the one the table as written
      gives for data at 0x1E20 and 0x1E7F, fails even on a correct target:
      its bytes go into the row buffer and `SelectFlash` then refuses it. */
  lemma RowTooLongFails(r: FlashRows.Row, entry: int, rest: seq<byte>)
    requires |r.data| > ROW_SIZE
    ensures var dw := Sent(WriteOps(r.data, ROW_BUFFER + r.start % ROW_SIZE));
      RowExchange(r, entry, Doubled(dw) + rest) == Exec(Fail(LengthTooHigh(|r.data|)), dw, rest, [])
  {
    var dw := Sent(WriteOps(r.data, ROW_BUFFER + r.start % ROW_SIZE));
    DownloadRowTooLong(r.data, r.start, entry, rest);
    RowWriteFails(r, entry, Doubled(dw) + rest);
  }

  /** The download stops at the first row that fails: nothing of the later
      rows goes on the line. */
  lemma RowsStop(rows: seq<FlashRows.Row>, i: nat, entry: int, rx: seq<byte>)
    requires i <= |rows| && RowsExchange(rows[..i], entry, rx).outcome.Fail?
    ensures RowsExchange(rows, entry, rx) == RowsExchange(rows[..i], entry, rx)
  {
    ChainStop(rows, i, RowStep(entry), rx);
  }

  class Loader {
    /** What the line will still deliver (loopback, echoes, replies). */
    var rx: seq<byte>
    /** Everything written to the line so far. */
    var tx: seq<byte>
    var connected: bool
    var handlerLoaded: bool
    var routines: seq<int>
    var massEraseAddress: int
    var writeFlashAddress: int

    constructor (input: seq<byte>)
      ensures rx == input && tx == [] && !connected && !handlerLoaded && routines == []
    {
      rx := input;
      tx := [];
      connected := false;
      handlerLoaded := false;
      routines := [];
      massEraseAddress := 0;
      writeFlashAddress := 0;
    }

    /** The globals of the handler routines. */
    ghost function HandlerState(): (bool, seq<int>, int, int)
      reads this
    {
      (handlerLoaded, routines, massEraseAddress, writeFlashAddress)
    }

    /** The line is where `e`, started with `tx0` written, leaves it. */
    ghost predicate Ended(tx0: seq<byte>, e: Exec)
      reads this
    {
      tx == tx0 + e.sent && rx == e.rest
    }

    /** The operations `ops`, run from `rx0` with `tx0` written, all passed
        and left the line here. */
    ghost predicate After(tx0: seq<byte>, rx0: seq<byte>, ops: seq<Op>)
      reads this
    {
      Run(ops, rx0).outcome.Pass? && Ended(tx0, Run(ops, rx0))
    }

    /** `SendByte`: write the byte, then read back the loopback and the echo. */
    method SendByte(b: int) returns (o: Outcome)
      modifies this
      ensures o == Step(Send(b), old(rx)).outcome && Ended(old(tx), Step(Send(b), old(rx)))
      ensures connected == old(connected) && HandlerState() == old(HandlerState())
    {
      if !(0 <= b < 256) {
        return Fail(NotAByte(b));
      }
      tx := tx + [b];
      if |rx| == 0 {
        return Fail(NoLoopback);
      }
      var echo := rx[0];
      rx := rx[1..];
      if echo != b {
        return Fail(LoopbackFailed(b, echo));
      }
      if |rx| == 0 {
        return Fail(NoTargetEcho);
      }
      echo := rx[0];
      rx := rx[1..];
      if echo != b {
        return Fail(TargetEchoFailed(b, echo));
      }
      return Pass;
    }

    /** `RecByte`: one byte, or the timeout. */
    method RecByte() returns (r: Result<byte>)
      modifies this
      ensures var e := Step(Recv, old(rx));
        && Ended(old(tx), e)
        && (if e.outcome.Pass? then r == Ok(e.got[0]) else r == Err(e.outcome.error))
      ensures connected == old(connected) && HandlerState() == old(HandlerState())
    {
      if |rx| == 0 {
        return Err(NoByte);
      }
      r := Ok(rx[0]);
      rx := rx[1..];
    }

    /** `RecByte` where the byte must be 0; `c` names the error otherwise. */
    method RecZero(c: Check) returns (o: Outcome)
      modifies this
      ensures o == Step(Expect0(c), old(rx)).outcome && Ended(old(tx), Step(Expect0(c), old(rx)))
      ensures connected == old(connected) && HandlerState() == old(HandlerState())
    {
      var b := RecByte();
      if b.Err? {
        return Fail(b.error);
      }
      if b.value != 0 {
        return Fail(CheckError(c, b.value));
      }
      return Pass;
    }

    /** `Connection`: nothing when connected; otherwise the eight security
        bytes 0xFF, then the break character, which must be 0. */
    method Connection() returns (o: Outcome)
      modifies this
      ensures old(connected) ==> o == Pass && rx == old(rx) && tx == old(tx) && connected
      ensures !old(connected) ==> var e := Run(ConnectOps(), old(rx));
        o == e.outcome && Ended(old(tx), e) && connected == e.outcome.Pass?
      ensures HandlerState() == old(HandlerState())
    {
      o := ConnectWith(0xFF, 8);
    }

    /** Connecting with `count` security bytes of value `v`. */
    method ConnectWith(v: byte, count: nat) returns (o: Outcome)
      modifies this
      ensures old(connected) ==> o == Pass && rx == old(rx) && tx == old(tx) && connected
      ensures !old(connected) ==> var e := Run(Sends(Repeat(v, count)) + [Expect0(Break)], old(rx));
        o == e.outcome && Ended(old(tx), e) && connected == e.outcome.Pass?
      ensures HandlerState() == old(HandlerState())
    {
      if connected {
        return Pass;
      }
      ghost var tx0, rx0 := tx, rx;
      o := SendRepeated(v, count);
      RunSnoc(Sends(Repeat(v, count)), Expect0(Break), rx0);
      if o.Fail? {
        return;
      }
      ghost var txb, rxb := tx, rx;
      o := RecZero(Break);
      ThenEnded(Run(Sends(Repeat(v, count)), rx0), Step(Expect0(Break), rxb), tx0, txb, tx);
      if o.Pass? {
        connected := true;
      }
    }

    /** `count` times SendByte(v). */
    method SendRepeated(v: byte, count: nat) returns (o: Outcome)
      modifies this
      ensures var e := Run(Sends(Repeat(v, count)), old(rx)); o == e.outcome && Ended(old(tx), e)
      ensures connected == old(connected) && HandlerState() == old(HandlerState())
    {
      ghost var tx0, rx0 := tx, rx;
      ghost var whole := Sends(Repeat(v, count));
      SendsAt(Repeat(v, count));
      o := Pass;
      var x := 0;
      while x < count
        invariant 0 <= x <= count && o == Pass
        invariant After(tx0, rx0, whole[..x])
        invariant connected == old(connected) && HandlerState() == old(HandlerState())
      {
        ghost var txb, rxb := tx, rx;
        o := SendByte(v);
        Stepped(whole, x, rx0, tx0, txb, rxb, Step(Send(v), rxb), tx, rx);
        if o.Fail? {
          return;
        }
        x := x + 1;
      }
      assert whole[..x] == whole;
    }

    /** A monitor command byte followed by a sixteen-bit address, high byte first. */
    method SendCommand(cmd: byte, addr: int) returns (o: Outcome)
      modifies this
      ensures var e := Run(CommandOps(cmd, addr), old(rx)); o == e.outcome && Ended(old(tx), e)
      ensures connected == old(connected) && HandlerState() == old(HandlerState())
    {
      ghost var tx0, rx0 := tx, rx;
      ghost var whole := CommandOps(cmd, addr);
      SendsAt([cmd as int, Hi(addr), Lo(addr)]);
      ghost var n := 0;
      ghost var txb, rxb := tx, rx;
      o := SendByte(cmd);
      Stepped(whole, n, rx0, tx0, txb, rxb, Step(Send(cmd), rxb), tx, rx);
      n := n + 1;
      if o.Fail? {
        return;
      }
      txb, rxb := tx, rx;
      o := SendByte(Hi(addr));
      Stepped(whole, n, rx0, tx0, txb, rxb, Step(Send(Hi(addr)), rxb), tx, rx);
      n := n + 1;
      if o.Fail? {
        return;
      }
      txb, rxb := tx, rx;
      o := SendByte(Lo(addr));
      Stepped(whole, n, rx0, tx0, txb, rxb, Step(Send(Lo(addr)), rxb), tx, rx);
      n := n + 1;
      assert whole[..n] == whole;
    }

    /** A command byte, then the two bytes the monitor sends back (IREAD, READSP). */
    method ExchangePair(cmd: byte) returns (o: Outcome, b0: byte, b1: byte)
      modifies this
      ensures var e := Run(PairOps(cmd), old(rx));
        && o == e.outcome && Ended(old(tx), e)
        && (o.Pass? ==> e.got == [b0, b1])
      ensures connected == old(connected) && HandlerState() == old(HandlerState())
    {
      ghost var tx0, rx0 := tx, rx;
      ghost var whole := PairOps(cmd);
      b0, b1 := 0, 0;
      ghost var n := 0;
      ghost var txb, rxb := tx, rx;
      o := SendByte(cmd);
      Stepped(whole, n, rx0, tx0, txb, rxb, Step(Send(cmd), rxb), tx, rx);
      n := n + 1;
      if o.Fail? {
        return;
      }
      txb, rxb := tx, rx;
      var r := RecByte();
      Stepped(whole, n, rx0, tx0, txb, rxb, Step(Recv, rxb), tx, rx);
      n := n + 1;
      if r.Err? {
        return Fail(r.error), b0, b1;
      }
      b0 := r.value;
      txb, rxb := tx, rx;
      r := RecByte();
      Stepped(whole, n, rx0, tx0, txb, rxb, Step(Recv, rxb), tx, rx);
      n := n + 1;
      assert whole[..n] == whole;
      if r.Err? {
        return Fail(r.error), b0, b1;
      }
      b1 := r.value;
    }

    /** One IREAD: the next two bytes of memory. */
    method ReadNext() returns (o: Outcome, b0: byte, b1: byte)
      modifies this
      ensures var e := Run(IReadStep(), old(rx));
        && o == e.outcome && Ended(old(tx), e)
        && (o.Pass? ==> e.got == [b0, b1])
      ensures connected == old(connected) && HandlerState() == old(HandlerState())
    {
      o, b0, b1 := ExchangePair(IREAD);
    }

    /** READ, the address, and the byte at the address. */
    method StartRead(addr: int) returns (o: Outcome, b: byte)
      modifies this
      ensures var e := Run(CommandOps(READ, addr) + [Recv], old(rx));
        && o == e.outcome && Ended(old(tx), e)
        && (o.Pass? ==> e.got == [b])
      ensures connected == old(connected) && HandlerState() == old(HandlerState())
    {
      ghost var tx0, rx0 := tx, rx;
      ghost var whole := CommandOps(READ, addr) + [Recv];
      SendsAt([READ as int, Hi(addr), Lo(addr)]);
      assert whole[0..3] == CommandOps(READ, addr);
      SendsGotNothing([READ as int, Hi(addr), Lo(addr)], rx);
      b := 0;
      ghost var txb, rxb := tx, rx;
      o := SendCommand(READ, addr);
      SteppedBlock(whole, 0, 3, rx0, tx0, txb, rxb, Run(CommandOps(READ, addr), rxb), tx, rx);
      if o.Fail? {
        return;
      }
      txb, rxb := tx, rx;
      var r := RecByte();
      Stepped(whole, 3, rx0, tx0, txb, rxb, Step(Recv, rxb), tx, rx);
      assert whole[..4] == whole;
      if r.Err? {
        return Fail(r.error), b;
      }
      b := r.value;
    }

    /** After `i` IREADs answered by `g`, the loop has kept `l` bytes,
        `data`: the first byte `b` and all of `g`, except that of the last
        pair only the first byte is kept when that reaches `len`. */
    static ghost predicate ReadKept(len: int, b: byte, l: int, data: seq<byte>, i: nat, g: seq<byte>)
    {
      && i <= IReadCount(len) && |g| == 2 * i
      && ((l == 1 + 2 * i && l <= Max(len, 1)) || (l == 2 * i && l == len))
      && data == ([b] + g)[..l]
    }

    /** While fewer than `len` bytes are kept, an IREAD is still to come. */
    static lemma MoreToRead(len: int, b: byte, l: int, data: seq<byte>, i: nat, g: seq<byte>)
      requires l < len && ReadKept(len, b, l, data, i, g)
      ensures i < IReadCount(len)
    {
    }

    /** One pass of the IREAD loop keeps the first byte of the pair, and the
        second while fewer than `len` bytes are kept. */
    static lemma KeepStep(b: byte, g: seq<byte>, b0: byte, b1: byte, data: seq<byte>, l: int, len: int, i: nat)
      requires l < len && ReadKept(len, b, l, data, i, g)
      ensures var l1 := if l + 1 < len then l + 2 else l + 1;
        ReadKept(len, b, l1, if l + 1 < len then data + [b0] + [b1] else data + [b0], i + 1, g + [b0, b1])
    {
      assert data == [b] + g;
      AppendAssoc([b], g, [b0, b1]);
      var w := [b] + g + [b0, b1];
      assert w[..l + 1] == data + [b0];
      assert w[..l + 2] == data + [b0] + [b1];
    }

    /** `ReadMemoryIntoList`: READ and one byte, then the IREAD loop. */
    method ReadMemoryIntoList(addr: int, len: int) returns (r: Result<seq<byte>>)
      modifies this
      ensures r == ReadMemory(addr, len, old(rx))
      ensures Ended(old(tx), Run(ReadOps(addr, len), old(rx)))
      ensures connected == old(connected) && HandlerState() == old(HandlerState())
    {
      ghost var tx0, rx0 := tx, rx;
      ghost var pre := CommandOps(READ, addr) + [Recv];
      ghost var k := IReadCount(len);
      RunAppend(pre, IReadOps(k), rx0);
      var o, b := StartRead(addr);
      if o.Fail? {
        return Err(o.error);
      }
      ghost var txb := tx;
      var data;
      o, data := ReadFollowing(len, b);
      ThenEnded(Run(pre, rx0), Run(IReadOps(k), Run(pre, rx0).rest), tx0, txb, tx);
      if o.Fail? {
        return Err(o.error);
      }
      RunPassIsReplies(ReadOps(addr, len), rx0);
      ReadOpsShape(addr, len);
      return Ok(data);
    }

    /** The IREAD loop of `ReadMemoryIntoList` after the first byte `b`: two
        bytes per IREAD while fewer than `len` bytes are kept; of the last
        pair only the first byte is kept when `len` is even. */
    method ReadFollowing(len: int, b: byte) returns (o: Outcome, data: seq<byte>)
      modifies this
      ensures var e := Run(IReadOps(IReadCount(len)), old(rx));
        && o == e.outcome && Ended(old(tx), e)
        && (o.Pass? ==> |e.got| == 2 * IReadCount(len) && data == ([b] + e.got)[..Max(len, 1)])
      ensures connected == old(connected) && HandlerState() == old(HandlerState())
    {
      ghost var tx0, rx0 := tx, rx;
      ghost var k := IReadCount(len);
      o := Pass;
      data := [b];
      var l := 1;
      ghost var i := 0;
      ghost var g: seq<byte> := [];
      while l < len
        invariant o == Pass && ReadKept(len, b, l, data, i, g)
        invariant After(tx0, rx0, IReadOps(i)) && g == Run(IReadOps(i), rx0).got
        invariant connected == old(connected) && HandlerState() == old(HandlerState())
        decreases len - l
      {
        MoreToRead(len, b, l, data, i, g);
        var b0, b1;
        o, b0, b1 := ReadNextAt(i, k, tx0, rx0);
        if o.Fail? {
          return;
        }
        KeepStep(b, g, b0, b1, data, l, len, i);
        data := data + [b0];
        l := l + 1;
        if l < len {
          data := data + [b1];
          l := l + 1;
        }
        g := g + [b0, b1];
        i := i + 1;
      }
      assert i == k && l == Max(len, 1);
    }

    /** IREAD number `i` of `k`, after the first `i` passed. */
    method ReadNextAt(ghost i: nat, ghost k: nat, ghost tx0: seq<byte>, ghost rx0: seq<byte>) returns (o: Outcome, b0: byte, b1: byte)
      requires i < k && After(tx0, rx0, IReadOps(i))
      modifies this
      ensures o.Pass? ==> After(tx0, rx0, IReadOps(i + 1))
      ensures o.Pass? ==> Run(IReadOps(i + 1), rx0).got == Run(IReadOps(i), rx0).got + [b0, b1]
      ensures o.Fail? ==> var e := Run(IReadOps(k), rx0); o == e.outcome && Ended(tx0, e)
      ensures connected == old(connected) && HandlerState() == old(HandlerState())
    {
      ghost var txb, rxb := tx, rx;
      o, b0, b1 := ReadNext();
      IReadAdvance(i, k, rx0, tx0, txb, Run(IReadStep(), rxb), tx);
    }

    /** `WriteMemoryFromList`: WRITE, the address and the first value, then
        IWRITE and the value for each later one. */
    method WriteMemoryFromList(data: seq<int>, addr: int) returns (o: Outcome)
      modifies this
      ensures var e := Run(WriteOps(data, addr), old(rx)); o == e.outcome && Ended(old(tx), e)
      ensures connected == old(connected) && HandlerState() == old(HandlerState())
    {
      ghost var tx0, rx0 := tx, rx;
      ghost var whole := WriteOps(data, addr);
      WriteOpsAt(data, addr);
      SendsAt([WRITE as int, Hi(addr), Lo(addr)]);
      assert whole[0..3] == CommandOps(WRITE, addr);
      ghost var txb, rxb := tx, rx;
      o := SendCommand(WRITE, addr);
      SteppedBlock(whole, 0, 3, rx0, tx0, txb, rxb, Run(CommandOps(WRITE, addr), rxb), tx, rx);
      if o.Fail? {
        return;
      }
      if |data| == 0 {
        Stepped(whole, 3, rx0, tx0, tx, rx, Step(Abort(EmptyData), rx), tx, rx);
        return Fail(EmptyData);
      }
      txb, rxb := tx, rx;
      o := SendByte(data[0]);
      Stepped(whole, 3, rx0, tx0, txb, rxb, Step(Send(data[0]), rxb), tx, rx);
      if o.Fail? {
        return;
      }
      o := WriteFollowing(data, whole, tx0, rx0);
    }

    /** The IWRITE loop of `WriteMemoryFromList`: once `whole` has passed up
        to the first value, IWRITE and the value for each later one. */
    method WriteFollowing(data: seq<int>, ghost whole: seq<Op>, ghost tx0: seq<byte>, ghost rx0: seq<byte>)
      returns (o: Outcome)
      requires 1 <= |data| && |whole| == 2 * |data| + 2
      requires forall i :: 1 <= i < |data| ==> whole[2 * i + 2] == Send(IWRITE) && whole[2 * i + 3] == Send(data[i])
      requires After(tx0, rx0, whole[..4])
      modifies this
      ensures o == Run(whole, rx0).outcome && Ended(tx0, Run(whole, rx0))
      ensures connected == old(connected) && HandlerState() == old(HandlerState())
    {
      var l := 1;
      ghost var n := 4;
      while l < |data|
        invariant 1 <= l <= |data| && n == 2 * l + 2
        invariant After(tx0, rx0, whole[..n])
        invariant connected == old(connected) && HandlerState() == old(HandlerState())
      {
        ghost var txb, rxb := tx, rx;
        o := SendByte(IWRITE);
        Stepped(whole, n, rx0, tx0, txb, rxb, Step(Send(IWRITE), rxb), tx, rx);
        n := n + 1;
        if o.Fail? {
          return;
        }
        txb, rxb := tx, rx;
        o := SendByte(data[l]);
        Stepped(whole, n, rx0, tx0, txb, rxb, Step(Send(data[l]), rxb), tx, rx);
        n := n + 1;
        if o.Fail? {
          return;
        }
        l := l + 1;
      }
      assert whole[..n] == whole;
      return Pass;
    }

  
    /** The frame written at `address`, then RUN. */
    method WriteFrameAndRun(entry: int, address: int) returns (o: Outcome)
      modifies this
      ensures var e := Run(WriteOps(Frame(entry), address) + [Send(RUN)], old(rx));
        o == e.outcome && Ended(old(tx), e)
      ensures connected == old(connected) && HandlerState() == old(HandlerState())
    {
      ghost var rx0 := rx;
      RunSnoc(WriteOps(Frame(entry), address), Send(RUN), rx0);
      o := WriteMemoryFromList([0, 0, 0, 0, entry / 256, entry % 256], address);
      if o.Fail? {
        return;
      }
      o := SendByte(RUN);
    }

    /** `RunFromAddress`: READSP, the frame written just above the stack
        pointer read back, then RUN. */
    method RunFromAddress(entry: int) returns (o: Outcome)
      modifies this
      ensures var e := RunFrom(entry, old(rx)); o == e.outcome && Ended(old(tx), e)
      ensures connected == old(connected) && HandlerState() == old(HandlerState())
    {
      ghost var tx0, rx0 := tx, rx;
      RunFromSplit(entry, rx0);
      var h, l;
      o, h, l := ExchangePair(READSP);
      if o.Fail? {
        return;
      }
      ghost var s := Run(ReadSpOps(), rx0);
      assert s.got == [h, l];
      ghost var txb := tx;
      var sp := (Word(h, l) - 1) % 0x10000;
      assert StackSlot(s.got[0], s.got[1]) == sp + 1;
      o := WriteFrameAndRun(entry, sp + 1);
      ThenEnded(s, Run(WriteOps(Frame(entry), sp + 1) + [Send(RUN)], s.rest), tx0, txb, tx);
    }

    /** `WaitForJumpBack`: the break character a routine sends when it is done. */
    method WaitForJumpBack() returns (o: Outcome)
      modifies this
      ensures o == Step(Expect0(JumpBack), old(rx)).outcome && Ended(old(tx), Step(Expect0(JumpBack), old(rx)))
      ensures connected == old(connected) && HandlerState() == old(HandlerState())
    {
      o := RecZero(JumpBack);
    }

    /** The end of a flash operation: the break character, READ of RET_CODE,
        and the return code, which must be 0; `c` names the failure. */
    method Completion(c: Check) returns (o: Outcome)
      modifies this
      ensures var e := Run(CompletionOps(c), old(rx)); o == e.outcome && Ended(old(tx), e)
      ensures connected == old(connected) && HandlerState() == old(HandlerState())
    {
      ghost var tx0, rx0 := tx, rx;
      ghost var whole := CompletionOps(c);
      CompletionOpsAt(c);
      ghost var txb, rxb := tx, rx;
      o := WaitForJumpBack();
      Stepped(whole, 0, rx0, tx0, txb, rxb, Step(Expect0(JumpBack), rxb), tx, rx);
      if o.Fail? {
        return;
      }
      txb, rxb := tx, rx;
      o := SendByte(READ);
      Stepped(whole, 1, rx0, tx0, txb, rxb, Step(Send(READ), rxb), tx, rx);
      if o.Fail? {
        return;
      }
      txb, rxb := tx, rx;
      o := SendByte(0);
      Stepped(whole, 2, rx0, tx0, txb, rxb, Step(Send(0), rxb), tx, rx);
      if o.Fail? {
        return;
      }
      txb, rxb := tx, rx;
      o := SendByte(RET_CODE);
      Stepped(whole, 3, rx0, tx0, txb, rxb, Step(Send(RET_CODE), rxb), tx, rx);
      if o.Fail? {
        return;
      }
      txb, rxb := tx, rx;
      o := RecZero(c);
      Stepped(whole, 4, rx0, tx0, txb, rxb, Step(Expect0(c), rxb), tx, rx);
      assert whole[..5] == whole;
    }

    /** The parameter block to PARAMS, the routine started at `entry`, and
        its completion. */
    method RunHandler(block: seq<byte>, entry: int, c: Check) returns (o: Outcome)
      modifies this
      ensures var e := Handler(block, entry, c, old(rx)); o == e.outcome && Ended(old(tx), e)
      ensures connected == old(connected) && HandlerState() == old(HandlerState())
    {
      ghost var tx0, rx0 := tx, rx;
      o := WriteMemoryFromList(block, PARAMS);
      ghost var p := Run(WriteOps(block, PARAMS), rx0);
      if o.Fail? {
        return;
      }
      ghost var txb, rxb := tx, rx;
      o := RunFromAddress(entry);
      ghost var r := RunFrom(entry, rxb);
      if o.Pass? {
        ghost var txc, rxc := tx, rx;
        o := Completion(c);
        ThenEnded(r, Run(CompletionOps(c), rxc), txb, txc, tx);
      }
      ThenEnded(p, Then(r, Run(CompletionOps(c), r.rest)), tx0, txb, tx);
    }

    /** `MassEraseFlash`: the mass erase routine on the bank `address` is in. */
    method MassEraseFlash(address: int) returns (o: Outcome)
      modifies this
      ensures var e := MassErase(address, massEraseAddress, old(rx)); o == e.outcome && Ended(old(tx), e)
      ensures connected == old(connected) && HandlerState() == old(HandlerState())
    {
      var block := SelectFlash(address, 0);
      o := RunHandler(block.value, massEraseAddress, EraseCode(address));
    }

    /** `DownloadRow`: the data into the row buffer, then the row-write routine. */
    method DownloadRow(data: seq<int>, address: int) returns (o: Outcome)
      modifies this
      ensures var e := Flash.DownloadRow(data, address, writeFlashAddress, old(rx));
        o == e.outcome && Ended(old(tx), e)
      ensures connected == old(connected) && HandlerState() == old(HandlerState())
    {
      ghost var tx0, rx0 := tx, rx;
      o := WriteMemoryFromList(data, ROW_BUFFER + address % ROW_SIZE);
      ghost var d := Run(WriteOps(data, ROW_BUFFER + address % ROW_SIZE), rx0);
      if o.Fail? {
        return;
      }
      var block := SelectFlash(address, |data|);
      if block.Err? {
        return Fail(block.error);
      }
      ghost var txb := tx;
      o := RunHandler(block.value, writeFlashAddress, WriteCode(address));
      ThenEnded(d, Handler(block.value, writeFlashAddress, WriteCode(address), d.rest), tx0, txb, tx);
    }

    /** `ReadFlashHandlerRoutinesConnectAndWriteToRAM`: nothing once the
        handler is loaded; otherwise keep the image and the routine
        addresses, patch the branch-offset byte, set the flag, connect and
        write the image to HANDLER_RAM.  The image and the three label
        addresses of the listing are the parameters. */
    method LoadHandler(image: seq<int>, writeFlash: int, massErase: int, branchOffset: int, bra: int)
      returns (o: Outcome)
      modifies this
      ensures old(handlerLoaded) ==>
        o == Pass && tx == old(tx) && rx == old(rx) && connected == old(connected) && HandlerState() == old(HandlerState())
      ensures !old(handlerLoaded) ==> massEraseAddress == massErase && writeFlashAddress == writeFlash
      ensures !old(handlerLoaded) && Patch(image, PatchIndex(massErase, branchOffset), bra).Err? ==>
        o == Fail(PatchOutOfRange(PatchIndex(massErase, branchOffset)))
        && tx == old(tx) && rx == old(rx) && connected == old(connected)
        && !handlerLoaded && routines == image
      ensures !old(handlerLoaded) && Patch(image, PatchIndex(massErase, branchOffset), bra).Ok? ==>
        var pr := Patch(image, PatchIndex(massErase, branchOffset), bra).value;
        var e := ConnectedRun(old(connected), WriteOps(pr, HANDLER_RAM), old(rx));
        && handlerLoaded && routines == pr
        && o == e.outcome && Ended(old(tx), e)
        && connected == (old(connected) || Run(ConnectOps(), old(rx)).outcome.Pass?)
    {
      if handlerLoaded {
        return Pass;
      }
      routines := image;
      writeFlashAddress := writeFlash;
      massEraseAddress := massErase;
      var index := PatchIndex(massErase, branchOffset);
      var patched := Patch(routines, index, bra);
      if patched.Err? {
        return Fail(patched.error);
      }
      routines := patched.value;
      handlerLoaded := true;
      ghost var tx0, rx0, c0 := tx, rx, connected;
      o := Connection();
      if !c0 {
        RunAppend(ConnectOps(), WriteOps(routines, HANDLER_RAM), rx0);
      }
      if o.Fail? {
        return;
      }
      ghost var txb := tx;
      o := WriteMemoryFromList(routines, HANDLER_RAM);
      if !c0 {
        ThenEnded(Run(ConnectOps(), rx0), Run(WriteOps(routines, HANDLER_RAM), Run(ConnectOps(), rx0).rest), tx0, txb, tx);
      }
    }

    /** The erase option: mass erase of flash-1, then of flash-2. */
    method EraseBoth() returns (o: Outcome)
      modifies this
      ensures var e1 := MassErase(0xFF80, massEraseAddress, old(rx));
        var e := Then(e1, MassErase(0x1000, massEraseAddress, e1.rest));
        o == e.outcome && Ended(old(tx), e)
      ensures connected == old(connected) && HandlerState() == old(HandlerState())
    {
      ghost var tx0, rx0 := tx, rx;
      o := MassEraseFlash(0xFF80);
      if o.Fail? {
        return;
      }
      ghost var txb, rxb := tx, rx;
      o := MassEraseFlash(0x1000);
      ThenEnded(MassErase(0xFF80, massEraseAddress, rx0), MassErase(0x1000, massEraseAddress, rxb), tx0, txb, tx);
    }

    /** One row of the download loop: DownloadRow, ReadMemoryIntoList from
        the row's start for its length, and the verify loop. */
    method WriteAndVerifyRow(r: FlashRows.Row) returns (o: Outcome)
      modifies this
      ensures var e := RowExchange(r, writeFlashAddress, old(rx)); o == e.outcome && Ended(old(tx), e)
      ensures connected == old(connected) && HandlerState() == old(HandlerState())
    {
      ghost var tx0, rx0, entry := tx, rx, writeFlashAddress;
      o := DownloadRow(r.data, r.start);
      if o.Fail? {
        RowWriteFails(r, entry, rx0);
        return;
      }
      ghost var d := Flash.DownloadRow(r.data, r.start, entry, rx0);
      ghost var txb := tx;
      var rb := ReadMemoryIntoList(r.start, |r.data|);
      ghost var rd := Run(ReadOps(r.start, |r.data|), d.rest);
      if rb.Err? {
        RowReadFails(r, entry, rx0);
        ThenEnded(d, rd, tx0, txb, tx);
        return Fail(rb.error);
      }
      RowVerified(r, entry, rx0);
      o := FlashRows.VerifyRow(r.start, r.data, rb.value);
      ThenEnded(d, Exec(o, rd.sent, rd.rest, rd.got), tx0, txb, tx);
    }

    /** The download loop over the rows the fill kept, stopping at the first
        row that fails. */
    method DownloadRows(rows: seq<FlashRows.Row>) returns (o: Outcome)
      modifies this
      ensures var e := RowsExchange(rows, old(writeFlashAddress), old(rx)); o == e.outcome && Ended(old(tx), e)
      ensures connected == old(connected) && HandlerState() == old(HandlerState())
    {
      ghost var tx0, rx0, entry := tx, rx, writeFlashAddress;
      o := Pass;
      var i := 0;
      while i < |rows|
        invariant 0 <= i <= |rows| && o == Pass && writeFlashAddress == entry
        invariant RowsExchange(rows[..i], entry, rx0).outcome.Pass?
        invariant Ended(tx0, RowsExchange(rows[..i], entry, rx0))
        invariant connected == old(connected) && HandlerState() == old(HandlerState())
      {
        o := DownloadRowAt(rows, i, entry, tx0, rx0);
        if o.Fail? {
          return;
        }
        i := i + 1;
      }
      assert rows[..i] == rows;
      assert RowsExchange(rows, entry, rx0) == RowsExchange(rows[..i], entry, rx0);
    }

    /** Row `i` of the download loop, after the rows before it passed. */
    method DownloadRowAt(rows: seq<FlashRows.Row>, i: nat, ghost entry: int, ghost tx0: seq<byte>, ghost rx0: seq<byte>)
      returns (o: Outcome)
      requires i < |rows| && entry == writeFlashAddress
      requires RowsExchange(rows[..i], entry, rx0).outcome.Pass?
      requires Ended(tx0, RowsExchange(rows[..i], entry, rx0))
      modifies this
      ensures var e := RowsExchange(rows[..i + 1], entry, rx0); o == e.outcome && Ended(tx0, e)
      ensures o.Fail? ==> var e := RowsExchange(rows, entry, rx0); o == e.outcome && Ended(tx0, e)
      ensures writeFlashAddress == entry
      ensures connected == old(connected) && HandlerState() == old(HandlerState())
    {
      ghost var p := RowsExchange(rows[..i], entry, rx0);
      ghost var txb := tx;
      o := WriteAndVerifyRow(rows[i]);
      ChainNext(rows, i, RowStep(entry), rx0);
      assert RowStep(entry)(rows[i], p.rest) == RowExchange(rows[i], entry, p.rest);
      ThenEnded(p, RowExchange(rows[i], entry, p.rest), tx0, txb, tx);
      if o.Fail? {
        RowsStop(rows, i + 1, entry, rx0);
      }
    }

    /** The download option once the handler is loaded, with the row table
        the loader builds: the image from the segments, the fill of the
        table, then the write and verify of every kept row. */
    method Download(segs: seq<MemoryImage.Segment>) returns (o: Outcome)
      modifies this
      ensures MemoryImage.Image(segs).Err? ==> o == Fail(MemoryImage.Image(segs).error) && tx == old(tx) && rx == old(rx)
      ensures MemoryImage.Image(segs).Ok? ==>
        var rows := FlashRows.Kept(FlashRows.Filled(MemoryImage.Image(segs).value, FlashRows.WrittenRowTable()));
        var e := RowsExchange(rows, old(writeFlashAddress), old(rx));
        o == e.outcome && Ended(old(tx), e)
      ensures connected == old(connected) && HandlerState() == old(HandlerState())
    {
      FlashRows.WrittenRowTableShape();
      o := DownloadWith(segs, FlashRows.WrittenRowTable());
    }

    /** The same download with the descriptor at 0x1E20 split at the flash
        row boundary, so that every row it writes fits one flash row. */
    method CorrectedDownload(segs: seq<MemoryImage.Segment>) returns (o: Outcome)
      modifies this
      ensures MemoryImage.Image(segs).Err? ==> o == Fail(MemoryImage.Image(segs).error) && tx == old(tx) && rx == old(rx)
      ensures MemoryImage.Image(segs).Ok? ==>
        var rows := FlashRows.Kept(FlashRows.Filled(MemoryImage.Image(segs).value, FlashRows.RowTable()));
        var e := RowsExchange(rows, old(writeFlashAddress), old(rx));
        o == e.outcome && Ended(old(tx), e)
      ensures connected == old(connected) && HandlerState() == old(HandlerState())
    {
      FlashRows.RowTableShape();
      o := DownloadWith(segs, FlashRows.RowTable());
    }

    /** The download over a given table of descriptors.  Nothing goes on the
        line when a segment lies outside the image. */
    method DownloadWith(segs: seq<MemoryImage.Segment>, table: seq<FlashRows.RowSpec>) returns (o: Outcome)
      requires FlashRows.InMemory(table)
      modifies this
      ensures MemoryImage.Image(segs).Err? ==> o == Fail(MemoryImage.Image(segs).error) && tx == old(tx) && rx == old(rx)
      ensures MemoryImage.Image(segs).Ok? ==>
        var rows := FlashRows.Kept(FlashRows.Filled(MemoryImage.Image(segs).value, table));
        var e := RowsExchange(rows, old(writeFlashAddress), old(rx));
        o == e.outcome && Ended(old(tx), e)
      ensures connected == old(connected) && HandlerState() == old(HandlerState())
    {
      var mem, b := MemoryImage.BuildImage(segs);
      if b.Fail? {
        return b;
      }
      var rows := FlashRows.FillRows(mem, table);
      o := DownloadRows(rows);
    }

    /** The dump option: connect, clamp the length at the end of the address
        space, read, and show the bytes as the hex dump text. */
    method Dump(start: int, len: int) returns (o: Outcome, text: string)
      modifies this
      ensures var n := HexDump.ClampDumpLength(start, len);
        var c := if old(connected) then Idle(old(rx)) else Run(ConnectOps(), old(rx));
        var e := Then(c, Run(ReadOps(start, n), c.rest));
        && o == e.outcome && Ended(old(tx), e)
        && (o.Pass? ==> ReadMemory(start, n, c.rest).Ok?)
        && (o.Pass? ==> text == HexDump.HexDumpMemory(ReadMemory(start, n, c.rest).value, start))
        && connected == (old(connected) || c.outcome.Pass?)
      ensures HandlerState() == old(HandlerState())
    {
      ghost var tx0, rx0, c0 := tx, rx, connected;
      ghost var c := if c0 then Idle(rx0) else Run(ConnectOps(), rx0);
      text := "";
      o := Connection();
      if o.Fail? {
        return;
      }
      var n := HexDump.ClampDumpLength(start, len);
      ghost var txb := tx;
      var r := ReadMemoryIntoList(start, n);
      ThenEnded(c, Run(ReadOps(start, n), c.rest), tx0, txb, tx);
      if r.Err? {
        return Fail(r.error), text;
      }
      text := HexDump.HexDumpMemory(r.value, start);
      o := Pass;
    }
  }
}
