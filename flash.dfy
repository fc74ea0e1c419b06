/** The flash helpers: the parameter block the flash handler routines read
    at RAM 0xC0, starting a routine through the monitor's RUN command, and the
    mass-erase and row-write exchanges that end by reading the routine's
    return code at 0x00C6.  Also the one-time patch of the handler image. */
module Flash {
  import opened Common
  import opened Channel
  import opened Monitor

  const ROW_SIZE := 64

  /** The eight bytes of the parameter block: the bank's control register,
      its block-protect register, the address, the return code preset to
      "error" and the length. */
  function ParamBlock(address: int, length: byte): seq<byte>
  {
    (if 0x8000 <= address then [0xFF, 0x88, 0xFF, 0x80] else [0xFE, 0x08, 0xFF, 0x81])
      + [Hi(address), Lo(address), 0xEE, length]
  }

  /** `SelectFlash`: the parameter block, or the error for more than a row. */
  function SelectFlash(address: int, length: nat): (r: Result<seq<byte>>)
    ensures r.Ok? <==> length <= ROW_SIZE
    ensures r.Err? ==> r.error == LengthTooHigh(length)
  {
    if ROW_SIZE < length then Err(LengthTooHigh(length)) else Ok(ParamBlock(address, length))
  }

  /** The parameter block as the handler routines read it. */
  datatype Params = Params(flcr: int, flbpr: int, address: int, ret: byte, length: byte)

  function ParseParams(b: seq<byte>): Option<Params>
  {
    if |b| == 8 then Some(Params(Word(b[0], b[1]), Word(b[2], b[3]), Word(b[4], b[5]), b[6], b[7]))
    else None
  }

  /** Flash-1 (0x8000 and up) is driven through FL1CR/FL1BPR, everything
      below through FL2CR/FL2BPR; the block holds the sixteen-bit address, the
      length and the preset return code 0xEE, which sits at RET_CODE once the
      block is written at PARAMS. */
  lemma SelectFlashParses(address: int, length: nat)
    requires length <= ROW_SIZE
    ensures var b := SelectFlash(address, length).value;
      && |b| == 8
      && ParseParams(b) == Some(Params(
           if 0x8000 <= address then FL1CR else FL2CR,
           if 0x8000 <= address then FL1BPR else FL2BPR,
           address % 0x10000, 0xEE, length))
      && PARAMS + 6 == RET_CODE && b[6] == 0xEE
  {
    WordOfHiLo(address);
  }

  // ---------------------------------------------------------------------------
  // RunFromAddress: READSP, the stack frame, RUN.

  function ReadSpOps(): seq<Op> { PairOps(READSP) }

  /** `SP + 1` for the stack pointer value read back: one below the read value,
      wrapped to sixteen bits, plus one. */
  function StackSlot(h: byte, l: byte): int { (Word(h, l) - 1) % 0x10000 + 1 }

  /** The frame the monitor pulls on RUN: H, CC, A, X, then the entry address. */
  function Frame(entry: int): seq<int> { [0, 0, 0, 0, entry / 256, entry % 256] }

  function RunFromOps(entry: int, h: byte, l: byte): seq<Op>
  {
    ReadSpOps() + (WriteOps(Frame(entry), StackSlot(h, l)) + [Send(RUN)])
  }

  /** `RunFromAddress`: the frame goes where the stack pointer read says. */
  function RunFrom(entry: int, rx: seq<byte>): Exec
  {
    var sp := Run(ReadSpOps(), rx);
    if sp.outcome.Fail? then sp
    else
      RunPassIsReplies(ReadSpOps(), rx);
      CommandThenTwo(READSP, sp.got);
      Then(sp, Run(WriteOps(Frame(entry), StackSlot(sp.got[0], sp.got[1])) + [Send(RUN)], sp.rest))
  }

  /** The two halves of a routine start: READSP, then the frame and RUN at
      the slot the two reply bytes name. */
  lemma RunFromSplit(entry: int, rx: seq<byte>)
    ensures var sp := Run(ReadSpOps(), rx);
      && (sp.outcome.Fail? ==> RunFrom(entry, rx) == sp)
      && (sp.outcome.Pass? ==> |sp.got| == 2)
      && (sp.outcome.Pass? ==>
        RunFrom(entry, rx) == Then(sp, Run(WriteOps(Frame(entry), StackSlot(sp.got[0], sp.got[1])) + [Send(RUN)], sp.rest)))
  {
    var sp := Run(ReadSpOps(), rx);
    if sp.outcome.Pass? {
      RunPassIsReplies(ReadSpOps(), rx);
      CommandThenTwo(READSP, sp.got);
    }
  }

  /** The frame is written at exactly the address READSP returned, and the
      frame of an entry address in the sixteen-bit range holds that address. */
  lemma FrameAtStackPointer(h: byte, l: byte, entry: int)
    ensures Hi(StackSlot(h, l)) == h && Lo(StackSlot(h, l)) == l
    ensures AllBytes(Frame(entry)) <==> 0 <= entry < 0x10000
    ensures 0 <= entry < 0x10000 ==> Word(Frame(entry)[4], Frame(entry)[5]) == entry
  {
    SlotIsStackPointer(h, l);
    var f := Frame(entry);
    assert AllBytes(f) <==> 0 <= f[4] < 256 by {
      assert forall i :: 0 <= i < 6 && i != 4 ==> 0 <= f[i] < 256;
    }
    HighByteInRange(entry);
  }

  lemma SlotIsStackPointer(h: byte, l: byte)
    ensures Hi(StackSlot(h, l)) == h && Lo(StackSlot(h, l)) == l
  {
    var w := Word(h, l);
    var s := StackSlot(h, l);
    if w == 0 {
      assert s == 0x10000;
    } else {
      assert s == w;
      assert s / 256 == h;
    }
  }

  lemma HighByteInRange(entry: int)
    ensures 0 <= entry / 256 < 256 <==> 0 <= entry < 0x10000
    ensures 0 <= entry < 0x10000 ==> (entry / 256) * 256 + entry % 256 == entry
  {
  }

  /** Given the stack pointer the target answers, RunFrom is a fixed list of operations. */
  lemma RunFromAsOps(entry: int, rx: seq<byte>, h: byte, l: byte)
    requires Run(ReadSpOps(), rx).outcome.Pass? ==> Run(ReadSpOps(), rx).got == [h, l]
    ensures RunFrom(entry, rx) == Run(RunFromOps(entry, h, l), rx)
  {
    RunAppend(ReadSpOps(), WriteOps(Frame(entry), StackSlot(h, l)) + [Send(RUN)], rx);
  }

  /** The bytes of the frame write. */
  function FrameWire(entry: int, h: byte, l: byte): seq<byte>
  {
    Sent(WriteOps(Frame(entry), StackSlot(h, l)))
  }

  lemma ReadSpOnTarget(h: byte, l: byte, rest: seq<byte>)
    ensures Run(ReadSpOps(), [READSP, READSP, h, l] + rest) == Exec(Pass, [READSP], rest, [h, l])
  {
    var d := [h, l];
    assert ReadSpOps() == [Send(READSP), Recv, Recv];
    CommandThenTwo(READSP, d);
    assert [READSP, READSP] + d == [READSP, READSP, h, l];
    RunOnReplies(ReadSpOps(), d, rest);
  }

  lemma FrameThenRunOnTarget(entry: int, h: byte, l: byte, rest: seq<byte>)
    requires 0 <= entry < 0x10000
    ensures Run(WriteOps(Frame(entry), StackSlot(h, l)) + [Send(RUN)], Doubled(FrameWire(entry, h, l) + [RUN]) + rest)
         == Exec(Pass, FrameWire(entry, h, l) + [RUN], rest, [])
  {
    FrameAtStackPointer(h, l, entry);
    var frame: seq<byte> := Frame(entry);
    var w := WriteOps(frame, StackSlot(h, l));
    WriteRoundTrip(frame, StackSlot(h, l));
    SendsShape([RUN]);
    assert Sends([RUN]) == [Send(RUN)];
    PlainAppend(w, [Send(RUN)]);
    RepliesWithoutRecvs(w + [Send(RUN)]);
    RunOnReplies(w + [Send(RUN)], [], rest);
  }

  /** On a correct target RunFrom reads the stack pointer, writes the frame
      there and sends RUN. */
  lemma RunFromOnTarget(entry: int, h: byte, l: byte, rest: seq<byte>)
    requires 0 <= entry < 0x10000
    ensures RunFrom(entry, [READSP, READSP, h, l] + Doubled(FrameWire(entry, h, l) + [RUN]) + rest)
         == Exec(Pass, [READSP] + FrameWire(entry, h, l) + [RUN], rest, [h, l])
  {
    var tail := Doubled(FrameWire(entry, h, l) + [RUN]) + rest;
    assert [READSP, READSP, h, l] + Doubled(FrameWire(entry, h, l) + [RUN]) + rest == [READSP, READSP, h, l] + tail;
    ReadSpOnTarget(h, l, tail);
    FrameThenRunOnTarget(entry, h, l, rest);
  }

  // ---------------------------------------------------------------------------
  // The end of a handler routine: the break character, then the return code.

  function ReturnCodeOps(): seq<Op> { [Expect0(JumpBack)] + Sends([READ, 0, RET_CODE]) }

  function CompletionOps(c: Check): seq<Op> { ReturnCodeOps() + [Expect0(c)] }

  /** The completion exchange, operation by operation. */
  lemma CompletionOpsAt(c: Check)
    ensures var w := CompletionOps(c);
      && |w| == 5 && w[0] == Expect0(JumpBack) && w[1] == Send(READ) && w[2] == Send(0)
      && w[3] == Send(RET_CODE) && w[4] == Expect0(c)
  {
    SendsAt([READ as int, 0, RET_CODE]);
  }

  lemma ReturnCodeShape()
    ensures Plain(ReturnCodeOps()) && Recvs(ReturnCodeOps()) == 1
    ensures Sent(ReturnCodeOps()) == [READ, 0, RET_CODE]
    ensures Replies(ReturnCodeOps(), [0]) == [0] + Doubled([READ, 0, RET_CODE])
    ensures ZeroAtChecks(ReturnCodeOps(), [0])
  {
    var rd := [READ as int, 0, RET_CODE];
    SendsShape(rd);
    var j := [Expect0(JumpBack)];
    assert j[1..] == [];
    assert Plain(j) && Recvs(j) == 1 && Sent(j) == [] && Replies(j, [0]) == [0] && ZeroAtChecks(j, [0]);
    PlainAppend(j, Sends(rd));
    RepliesAppend(j, Sends(rd), [0], []);
  }

  /** After the break character the loader reads the byte at RET_CODE; the
      exchange passes exactly when it is 0, and names the routine otherwise. */
  lemma CompletionOnTarget(c: Check, code: byte, rest: seq<byte>)
    ensures Run(CompletionOps(c), [0] + Doubled([READ, 0, RET_CODE]) + [code] + rest)
         == Exec(if code == 0 then Pass else Fail(CheckError(c, code)), [READ, 0, RET_CODE], rest, [0, code])
  {
    ReturnCodeShape();
    RunOnRepliesThenCheck(ReturnCodeOps(), c, [0], code, rest);
  }

  /** A completion that passes has seen the break character and a return code of 0. */
  lemma CompletionPassIsZero(c: Check, rx: seq<byte>)
    requires Run(CompletionOps(c), rx).outcome.Pass?
    ensures Run(CompletionOps(c), rx).got == [0, 0]
  {
    RunPassThenCheck(ReturnCodeOps(), c, rx);
    RunPassIsReplies(ReturnCodeOps(), rx);
    var rd := [READ as int, 0, RET_CODE];
    SendsShape(rd);
    var j := [Expect0(JumpBack)];
    ReturnCodeShape();
    var g := Run(ReturnCodeOps(), rx).got;
    assert |g| == 1;
    assert g == [g[0]];
    ZeroAtChecksSplitFront(j, Sends(rd), g);
  }

  /** The first check of a list is answered by 0 when the list's checks are. */
  lemma ZeroAtChecksSplitFront(a: seq<Op>, b: seq<Op>, g: seq<byte>)
    requires a == [Expect0(JumpBack)] && Recvs(b) == 0 && |g| == 1
    requires Recvs(a + b) == 1 && ZeroAtChecks(a + b, g)
    ensures g[0] == 0
  {
    assert (a + b)[0] == Expect0(JumpBack);
  }

  // ---------------------------------------------------------------------------
  // MassEraseFlash and DownloadRow.

  /** What both flash operations do once the data is in place: the parameter
      block at PARAMS, the routine start, the break character and the return
      code, which must be 0. */
  function Handler(block: seq<byte>, entry: int, c: Check, rx: seq<byte>): Exec
  {
    var p := Run(WriteOps(block, PARAMS), rx);
    var r := RunFrom(entry, p.rest);
    Then(p, Then(r, Run(CompletionOps(c), r.rest)))
  }

  /** `MassEraseFlash`: the parameter block for length 0, the mass erase routine. */
  function MassErase(address: int, entry: int, rx: seq<byte>): Exec
  {
    Handler(ParamBlock(address, 0), entry, EraseCode(address), rx)
  }

  /** `DownloadRow`: the row data into the buffer at the row offset, then the
      parameter block (refused for more than a row, after the data went out),
      the row-write routine. */
  function DownloadRow(data: seq<int>, address: int, entry: int, rx: seq<byte>): Exec
  {
    var d := Run(WriteOps(data, ROW_BUFFER + address % ROW_SIZE), rx);
    match SelectFlash(address, |data|)
    case Err(e) => Then(d, Exec(Fail(e), [], d.rest, []))
    case Ok(block) => Then(d, Handler(block, entry, WriteCode(address), d.rest))
  }

  /** The bytes a routine start puts on the wire, and what a correct target sends back. */
  function RoutineWire(entry: int, h: byte, l: byte): seq<byte>
  {
    [READSP] + FrameWire(entry, h, l) + [RUN]
  }

  function RoutineReplies(entry: int, h: byte, l: byte, code: byte): seq<byte>
  {
    [READSP, READSP, h, l] + Doubled(FrameWire(entry, h, l) + [RUN])
      + [0] + Doubled([READ, 0, RET_CODE]) + [code]
  }

  /** Starting a routine and reading its return code, on a correct target. */
  lemma RoutineOnTarget(entry: int, h: byte, l: byte, c: Check, code: byte, rest: seq<byte>)
    requires 0 <= entry < 0x10000
    ensures var r := RunFrom(entry, RoutineReplies(entry, h, l, code) + rest);
      && r == Exec(Pass, RoutineWire(entry, h, l), [0] + Doubled([READ, 0, RET_CODE]) + [code] + rest, [h, l])
      && Then(r, Run(CompletionOps(c), r.rest))
         == Exec(if code == 0 then Pass else Fail(CheckError(c, code)),
                 RoutineWire(entry, h, l) + [READ, 0, RET_CODE], rest, [h, l, 0, code])
  {
    var f := FrameWire(entry, h, l);
    var after := [0] + Doubled([READ, 0, RET_CODE]) + [code] + rest;
    assert RoutineReplies(entry, h, l, code) + rest == [READSP, READSP, h, l] + Doubled(f + [RUN]) + after;
    RunFromOnTarget(entry, h, l, after);
    CompletionOnTarget(c, code, rest);
  }

  /** The handler exchange on a correct target: it passes exactly when the
      routine returns 0, and names the failing check otherwise. */
  lemma HandlerOnTarget(block: seq<byte>, entry: int, c: Check, h: byte, l: byte, code: byte, rest: seq<byte>)
    requires block != [] && 0 <= entry < 0x10000
    ensures var p := Sent(WriteOps(block, PARAMS));
      Handler(block, entry, c, Doubled(p) + RoutineReplies(entry, h, l, code) + rest)
        == Exec(if code == 0 then Pass else Fail(CheckError(c, code)),
                p + RoutineWire(entry, h, l) + [READ, 0, RET_CODE], rest, [h, l, 0, code])
  {
    var p := Sent(WriteOps(block, PARAMS));
    var tail := RoutineReplies(entry, h, l, code) + rest;
    WriteOnTarget(block, PARAMS, tail);
    AppendAssoc(Doubled(p), RoutineReplies(entry, h, l, code), rest);
    RoutineOnTarget(entry, h, l, c, code, rest);
    AppendAssoc(p, RoutineWire(entry, h, l), [READ, 0, RET_CODE]);
  }

  /** A handler exchange that passes had an entry address in range and saw a
      break character and a return code of 0 after the stack pointer bytes. */
  lemma HandlerPass(block: seq<byte>, entry: int, c: Check, rx: seq<byte>)
    requires block != [] && Handler(block, entry, c, rx).outcome.Pass?
    ensures 0 <= entry < 0x10000
    ensures var g := Handler(block, entry, c, rx).got; |g| == 4 && g[2..] == [0, 0]
  {
    var p := Run(WriteOps(block, PARAMS), rx);
    var r := RunFrom(entry, p.rest);
    HandlerParts(block, entry, c, rx);
    WritePassReceivesNothing(block, PARAMS, rx);
    RunFromPass(entry, p.rest);
    CompletionPassIsZero(c, r.rest);
  }

  /** Each part of a handler exchange that passes has passed. */
  lemma HandlerParts(block: seq<byte>, entry: int, c: Check, rx: seq<byte>)
    requires Handler(block, entry, c, rx).outcome.Pass?
    ensures var p := Run(WriteOps(block, PARAMS), rx);
      var r := RunFrom(entry, p.rest);
      var k := Run(CompletionOps(c), r.rest);
      && p.outcome.Pass? && r.outcome.Pass? && k.outcome.Pass?
      && Handler(block, entry, c, rx).got == p.got + r.got + k.got
  {
  }

  /** A write receives nothing. */
  lemma WritePassReceivesNothing(data: seq<byte>, addr: int, rx: seq<byte>)
    requires data != [] && Run(WriteOps(data, addr), rx).outcome.Pass?
    ensures Run(WriteOps(data, addr), rx).got == []
  {
    RunPassIsReplies(WriteOps(data, addr), rx);
    WriteRoundTrip(data, addr);
  }

  /** Mass erase on a correct target: the block, the routine start and the
      return-code read go out; it passes exactly when the routine returns 0. */
  lemma MassEraseOnTarget(address: int, entry: int, h: byte, l: byte, code: byte, rest: seq<byte>)
    requires 0 <= entry < 0x10000
    ensures var p := Sent(WriteOps(ParamBlock(address, 0), PARAMS));
      MassErase(address, entry, Doubled(p) + RoutineReplies(entry, h, l, code) + rest)
        == Exec(if code == 0 then Pass else Fail(EraseFailed(address, code)),
                p + RoutineWire(entry, h, l) + [READ, 0, RET_CODE], rest, [h, l, 0, code])
  {
    HandlerOnTarget(ParamBlock(address, 0), entry, EraseCode(address), h, l, code, rest);
  }

  /** A mass erase that passes has seen a return code of 0. */
  lemma MassErasePassIsZero(address: int, entry: int, rx: seq<byte>)
    requires MassErase(address, entry, rx).outcome.Pass?
    ensures 0 <= entry < 0x10000
    ensures var g := MassErase(address, entry, rx).got; |g| == 4 && g[2..] == [0, 0]
  {
    HandlerPass(ParamBlock(address, 0), entry, EraseCode(address), rx);
  }

  /** A routine start that passes had an entry address in range and
      received two stack pointer bytes. */
  lemma RunFromPass(entry: int, rx: seq<byte>)
    requires RunFrom(entry, rx).outcome.Pass?
    ensures 0 <= entry < 0x10000 && |RunFrom(entry, rx).got| == 2
  {
    var sp := Run(ReadSpOps(), rx);
    RunPassIsReplies(ReadSpOps(), rx);
    CommandThenTwo(READSP, sp.got);
    var h, l := sp.got[0], sp.got[1];
    var t := WriteOps(Frame(entry), StackSlot(h, l)) + [Send(RUN)];
    var e := Run(t, sp.rest);
    assert e.outcome.Pass?;
    RunAppend(WriteOps(Frame(entry), StackSlot(h, l)), [Send(RUN)], sp.rest);
    WritePassNeedsBytes(Frame(entry), StackSlot(h, l), sp.rest);
    FrameAtStackPointer(h, l, entry);
    RunPassIsReplies(t, sp.rest);
    WriteRoundTrip(Frame(entry), StackSlot(h, l));
    RecvsAppend(WriteOps(Frame(entry), StackSlot(h, l)), [Send(RUN)]);
    assert [Send(RUN)][1..] == [];
  }

  /** A row write on a correct target: the data goes into the row buffer at
      the row offset, and what follows is the handler exchange for the row's
      parameter block (see `RowHandlerOnTarget`). */
  lemma DownloadRowOnTarget(data: seq<byte>, address: int, entry: int, tail: seq<byte>)
    requires data != [] && |data| <= ROW_SIZE
    ensures var dw := Sent(WriteOps(data, ROW_BUFFER + address % ROW_SIZE));
      DownloadRow(data, address, entry, Doubled(dw) + tail)
        == Then(Exec(Pass, dw, tail, []), Handler(ParamBlock(address, |data|), entry, WriteCode(address), tail))
  {
    var at := ROW_BUFFER + address % ROW_SIZE;
    WriteOnTarget(data, at, tail);
    DownloadRowSplit(data, address, entry, Doubled(Sent(WriteOps(data, at))) + tail);
  }

  /** The handler exchange of a row write on a correct target: the block, the
      routine start and the return-code read go out; it passes exactly when
      the routine returns 0, and reports the row's address otherwise. */
  lemma RowHandlerOnTarget(data: seq<byte>, address: int, entry: int, h: byte, l: byte, code: byte, rest: seq<byte>)
    requires data != [] && |data| <= ROW_SIZE && 0 <= entry < 0x10000
    ensures var pw := Sent(WriteOps(ParamBlock(address, |data|), PARAMS));
      Handler(ParamBlock(address, |data|), entry, WriteCode(address), Doubled(pw) + RoutineReplies(entry, h, l, code) + rest)
        == Exec(if code == 0 then Pass else Fail(WriteFailed(address, code)),
                pw + RoutineWire(entry, h, l) + [READ, 0, RET_CODE], rest, [h, l, 0, code])
  {
    HandlerOnTarget(ParamBlock(address, |data|), entry, WriteCode(address), h, l, code, rest);
  }

  /** A row write of at most a row is the data write followed by the handler exchange. */
  lemma DownloadRowSplit(data: seq<int>, address: int, entry: int, rx: seq<byte>)
    requires |data| <= ROW_SIZE
    ensures var d := Run(WriteOps(data, ROW_BUFFER + address % ROW_SIZE), rx);
      DownloadRow(data, address, entry, rx)
        == Then(d, Handler(ParamBlock(address, |data|), entry, WriteCode(address), d.rest))
  {
  }

  /** More than a row of data is refused by `SelectFlash`, but only after the
      data went into the row buffer. */
  lemma DownloadRowTooLong(data: seq<byte>, address: int, entry: int, rest: seq<byte>)
    requires |data| > ROW_SIZE
    ensures var dw := Sent(WriteOps(data, ROW_BUFFER + address % ROW_SIZE));
      DownloadRow(data, address, entry, Doubled(dw) + rest) == Exec(Fail(LengthTooHigh(|data|)), dw, rest, [])
  {
    WriteOnTarget(data, ROW_BUFFER + address % ROW_SIZE, rest);
  }

  /** A row write that passes wrote a non-empty row of bytes, no longer than
      a row, with an entry address in range, and saw a break character and a
      return code of 0 after the two stack pointer bytes. */
  lemma DownloadRowPass(data: seq<int>, address: int, entry: int, rx: seq<byte>)
    requires DownloadRow(data, address, entry, rx).outcome.Pass?
    ensures data != [] && AllBytes(data) && |data| <= ROW_SIZE && 0 <= entry < 0x10000
    ensures var g := DownloadRow(data, address, entry, rx).got; |g| == 4 && g[2..] == [0, 0]
  {
    var at := ROW_BUFFER + address % ROW_SIZE;
    var d := Run(WriteOps(data, at), rx);
    assert d.outcome.Pass?;
    WritePassNeedsBytes(data, at, rx);
    assert |data| <= ROW_SIZE;
    WritePassReceivesNothing(data, at, rx);
    DownloadRowSplit(data, address, entry, rx);
    HandlerPass(ParamBlock(address, |data|), entry, WriteCode(address), d.rest);
  }

  // ---------------------------------------------------------------------------
  // The handler image patch.

  /** Index of the branch-offset byte in the handler image: the image starts
      at the `mass_erase` routine, and the byte precedes the `branch_offset`
      label. */
  function PatchIndex(massErase: int, branchOffset: int): int { (branchOffset - 1) - massErase }

  /** `ram_routines[i] = v` on a Python list: a negative index counts from
      the end; any other index outside the list is an index error. */
  function Patch(image: seq<int>, index: int, value: int): (r: Result<seq<int>>)
    ensures r.Ok? <==> -|image| <= index < |image|
    ensures r.Err? ==> r.error == PatchOutOfRange(index)
  {
    if -|image| <= index < |image| then Ok(image[index % |image| := value]) else Err(PatchOutOfRange(index))
  }

  /** The patch changes exactly the one element the index names, to the value. */
  lemma PatchChangesOne(image: seq<int>, index: int, value: int)
    requires -|image| <= index < |image|
    ensures var p := Patch(image, index, value).value;
      && |p| == |image|
      && (0 <= index ==> p[index] == value)
      && (index < 0 ==> p[|image| + index] == value)
      && forall k :: 0 <= k < |image| && k != index && k != |image| + index ==> p[k] == image[k]
  {
  }

  /** The patched image reaches the target only when the branch offset is a
      byte: a value such as 256 fails when it is handed to the port. */
  lemma PatchedWriteNeedsByte(image: seq<int>, index: int, value: int, rx: seq<byte>)
    requires Patch(image, index, value).Ok?
    requires Run(WriteOps(Patch(image, index, value).value, HANDLER_RAM), rx).outcome.Pass?
    ensures 0 <= value < 256
  {
    var p := Patch(image, index, value).value;
    WritePassNeedsBytes(p, HANDLER_RAM, rx);
    assert p[index % |image|] == value;
  }
}
