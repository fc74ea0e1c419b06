/** The byte channel as a pure interpreter.

    The serial line is seen through the bytes it will deliver (`rx`) and the
    bytes written to it (`sent`).  Every host-side exchange is a list of `Op`s:
    sending a byte consumes two received bytes (the loopback of the host's own
    transmit line, then the target's echo), receiving consumes one.  An empty
    queue stands for the one-second read timeout.  `Run` gives the exact effect
    of a list of operations, stopping at the first failure as the loader does. */
module Channel {
  import opened Common

  /** What a received byte is checked against when it must be the break character 0. */
  datatype Check = Break | JumpBack | EraseCode(address: int) | WriteCode(address: int)

  /** The error reported when the byte expected to be 0 is `got`. */
  function CheckError(c: Check, got: byte): Error
  {
    match c
    case Break => ConnectionFailed
    case JumpBack => JumpBackTimeout
    case EraseCode(a) => EraseFailed(a, got)
    case WriteCode(a) => WriteFailed(a, got)
  }

  datatype Op =
    | Send(value: int)     // SendByte: write, then loopback and target echo
    | Recv                 // RecByte: one byte
    | Expect0(check: Check) // RecByte whose value must be 0
    | Abort(error: Error)  // a failure of the host code itself

  /** Effect of an exchange: how it ended, what was written, what is left of
      the input, and the bytes handed back by the receives. */
  datatype Exec = Exec(outcome: Outcome, sent: seq<byte>, rest: seq<byte>, got: seq<byte>)

  function Idle(rx: seq<byte>): Exec { Exec(Pass, [], rx, []) }

  function Step(op: Op, rx: seq<byte>): Exec
  {
    match op
    case Send(v) =>
      if !(0 <= v < 256) then Exec(Fail(NotAByte(v)), [], rx, [])
      else if |rx| == 0 then Exec(Fail(NoLoopback), [v], rx, [])
      else if rx[0] != v then Exec(Fail(LoopbackFailed(v, rx[0])), [v], rx[1..], [])
      else if |rx| == 1 then Exec(Fail(NoTargetEcho), [v], rx[1..], [])
      else if rx[1] != v then Exec(Fail(TargetEchoFailed(v, rx[1])), [v], rx[2..], [])
      else Exec(Pass, [v], rx[2..], [])
    case Recv =>
      if |rx| == 0 then Exec(Fail(NoByte), [], rx, []) else Exec(Pass, [], rx[1..], [rx[0]])
    case Expect0(c) =>
      if |rx| == 0 then Exec(Fail(NoByte), [], rx, [])
      else if rx[0] == 0 then Exec(Pass, [], rx[1..], [rx[0]])
      else Exec(Fail(CheckError(c, rx[0])), [], rx[1..], [rx[0]])
    case Abort(e) => Exec(Fail(e), [], rx, [])
  }

  /** `b` is the effect of what runs after `a`, on `a.rest`; nothing runs after a failure. */
  function Then(a: Exec, b: Exec): Exec
  {
    if a.outcome.Fail? then a else Exec(b.outcome, a.sent + b.sent, b.rest, a.got + b.got)
  }

  function Run(ops: seq<Op>, rx: seq<byte>): Exec
    decreases |ops|
  {
    if ops == [] then Idle(rx)
    else
      var e := Step(ops[0], rx);
      Then(e, Run(ops[1..], e.rest))
  }

  /** A run of steps, one per item in order, each on what the earlier ones
      left of the line, stopping at the first failure. */
  function Chain<T>(items: seq<T>, step: (T, seq<byte>) -> Exec, rx: seq<byte>): Exec
    decreases |items|
  {
    if items == [] then Idle(rx)
    else
      var p := Chain(items[..|items| - 1], step, rx);
      Then(p, step(items[|items| - 1], p.rest))
  }

  /** The chain of the first `i + 1` items is that of the first `i`, then item `i`. */
  lemma ChainNext<T>(items: seq<T>, i: nat, step: (T, seq<byte>) -> Exec, rx: seq<byte>)
    requires i < |items|
    ensures var p := Chain(items[..i], step, rx);
      Chain(items[..i + 1], step, rx) == Then(p, step(items[i], p.rest))
  {
    assert items[..i + 1][..i] == items[..i];
  }

  /** Once the first `i` items fail, the chain of all of them is that failure:
      nothing of the later items goes on the line. */
  lemma {:induction false} ChainStop<T>(items: seq<T>, i: nat, step: (T, seq<byte>) -> Exec, rx: seq<byte>)
    requires i <= |items| && Chain(items[..i], step, rx).outcome.Fail?
    ensures Chain(items, step, rx) == Chain(items[..i], step, rx)
    decreases |items| - i
  {
    if i < |items| {
      ChainNext(items, i, step, rx);
      ChainStop(items, i + 1, step, rx);
    } else {
      assert items[..i] == items;
    }
  }

  /** Sequencing is associative: `b` runs on `a.rest`, `c` on `b.rest`. */
  lemma ThenAssoc(a: Exec, b: Exec, c: Exec)
    ensures a.outcome.Pass? ==> Then(a, b).rest == b.rest
    ensures Then(a, Then(b, c)) == Then(Then(a, b), c)
  {
  }

  /** Running two lists one after the other is running their concatenation. */
  lemma {:induction false} RunAppend(a: seq<Op>, b: seq<Op>, rx: seq<byte>)
    ensures Run(a + b, rx) == Then(Run(a, rx), Run(b, Run(a, rx).rest))
    decreases |a|
  {
    if a == [] {
      assert a + b == b;
    } else {
      var e := Step(a[0], rx);
      DropAppend(a, b, 1);
      var t := Run(a[1..], e.rest);
      RunAppend(a[1..], b, e.rest);
      assert Run(a + b, rx) == Then(e, Then(t, Run(b, t.rest)));
      ThenAssoc(e, t, Run(b, t.rest));
      assert Run(a, rx) == Then(e, t);
    }
  }

  /** The special case the step-by-step methods use. */
  lemma RunSnoc(a: seq<Op>, op: Op, rx: seq<byte>)
    ensures Run(a + [op], rx) == Then(Run(a, rx), Step(op, Run(a, rx).rest))
  {
    RunAppend(a, [op], rx);
    var s := Run(a, rx).rest;
    assert Run([op], s) == Then(Step(op, s), Idle(Step(op, s).rest));
  }

  /** Nothing runs after a failure: a list whose prefix fails fails the same way. */
  lemma RunFailExtends(a: seq<Op>, b: seq<Op>, rx: seq<byte>)
    requires Run(a, rx).outcome.Fail?
    ensures Run(a + b, rx) == Run(a, rx)
  {
    RunAppend(a, b, rx);
  }

  /** The same, for a list given with its failing prefix. */
  lemma FailPrefix(whole: seq<Op>, p: seq<Op>, q: seq<Op>, rx: seq<byte>)
    requires whole == p + q && Run(p, rx).outcome.Fail?
    ensures Run(whole, rx) == Run(p, rx)
  {
    RunFailExtends(p, q, rx);
  }

  /** Running a list one operation further.  A method that performs the
      operations of `whole` one at a time keeps `whole[..n]` as what it has
      done; once a step fails, the rest of `whole` does not run. */
  lemma Advance(whole: seq<Op>, n: nat, rx: seq<byte>)
    requires n < |whole|
    ensures Run(whole[..n + 1], rx) == Then(Run(whole[..n], rx), Step(whole[n], Run(whole[..n], rx).rest))
    ensures Run(whole[..n + 1], rx).outcome.Fail? ==> Run(whole, rx) == Run(whole[..n + 1], rx)
  {
    Cut(whole, n, 1);
    RunSnoc(whole[..n], whole[n], rx);
    if Run(whole[..n + 1], rx).outcome.Fail? {
      RunFailExtends(whole[..n + 1], whole[n + 1..], rx);
    }
  }

  /** The line after `s` ran on where the passed `a` left it is where `Then(a, s)` leaves it. */
  lemma ThenEnded(a: Exec, s: Exec, tx0: seq<byte>, txb: seq<byte>, tx1: seq<byte>)
    requires a.outcome.Pass? && txb == tx0 + a.sent && tx1 == txb + s.sent
    ensures var b := Then(a, s);
      && b.outcome == s.outcome && tx1 == tx0 + b.sent && b.rest == s.rest && b.got == a.got + s.got
  {
    assert tx0 + (a.sent + s.sent) == tx0 + a.sent + s.sent;
  }

  /** A list is its prefix up to `n`, the `k` operations after it and the rest. */
  lemma Cut(whole: seq<Op>, n: nat, k: nat)
    requires n + k <= |whole|
    ensures whole[..n + k] == whole[..n] + whole[n..n + k]
    ensures whole == whole[..n + k] + whole[n + k..]
    ensures k == 1 ==> whole[n..n + k] == [whole[n]]
  {
  }

  /** The same, stated on the line a method keeps: before the step the line
      is where `whole[..n]` left it (`txb`, `rxb`, with `tx0` written at the
      start), the step `s` leaves it at `tx1`, `rx1`. */
  lemma Stepped(whole: seq<Op>, n: nat, rx0: seq<byte>, tx0: seq<byte>, txb: seq<byte>, rxb: seq<byte>,
                s: Exec, tx1: seq<byte>, rx1: seq<byte>)
    requires n < |whole|
    requires var a := Run(whole[..n], rx0); a.outcome.Pass? && txb == tx0 + a.sent && rxb == a.rest
    requires s == Step(whole[n], rxb) && tx1 == txb + s.sent && rx1 == s.rest
    ensures var b := Run(whole[..n + 1], rx0);
      && b.outcome == s.outcome && tx1 == tx0 + b.sent && rx1 == b.rest
      && b.got == Run(whole[..n], rx0).got + s.got
    ensures s.outcome.Fail? ==> Run(whole, rx0) == Run(whole[..n + 1], rx0)
  {
    Advance(whole, n, rx0);
    ThenEnded(Run(whole[..n], rx0), s, tx0, txb, tx1);
  }

  /** Several operations at once: `s` is the run of `whole[n..n + k]`. */
  lemma SteppedBlock(whole: seq<Op>, n: nat, k: nat, rx0: seq<byte>, tx0: seq<byte>, txb: seq<byte>, rxb: seq<byte>,
                     s: Exec, tx1: seq<byte>, rx1: seq<byte>)
    requires n + k <= |whole|
    requires var a := Run(whole[..n], rx0); a.outcome.Pass? && txb == tx0 + a.sent && rxb == a.rest
    requires s == Run(whole[n..n + k], rxb) && tx1 == txb + s.sent && rx1 == s.rest
    ensures var b := Run(whole[..n + k], rx0);
      && b.outcome == s.outcome && tx1 == tx0 + b.sent && rx1 == b.rest
      && b.got == Run(whole[..n], rx0).got + s.got
    ensures s.outcome.Fail? ==> Run(whole, rx0) == Run(whole[..n + k], rx0)
  {
    Cut(whole, n, k);
    RunAppend(whole[..n], whole[n..n + k], rx0);
    ThenEnded(Run(whole[..n], rx0), s, tx0, txb, tx1);
    if s.outcome.Fail? {
      RunFailExtends(whole[..n + k], whole[n + k..], rx0);
    }
  }

  // ---------------------------------------------------------------------------
  // A correct target: the reply stream that makes every exchange succeed.

  /** An operation that cannot fail on the host side. */
  predicate PlainOp(op: Op)
  {
    (op.Send? && 0 <= op.value < 256) || op.Recv? || op.Expect0?
  }

  /** No host-side failure, and every sent value is a byte. */
  predicate Plain(ops: seq<Op>)
    decreases |ops|
  {
    ops == [] || (PlainOp(ops[0]) && Plain(ops[1..]))
  }

  /** Number of bytes the receives of `ops` hand back. */
  function Recvs(ops: seq<Op>): nat
    decreases |ops|
  {
    if ops == [] then 0 else (if ops[0].Recv? || ops[0].Expect0? then 1 else 0) + Recvs(ops[1..])
  }

  /** The bytes `ops` write on the wire (a value that is not a byte is never written). */
  function Sent(ops: seq<Op>): seq<byte>
    decreases |ops|
  {
    if ops == [] then []
    else (if ops[0].Send? && 0 <= ops[0].value < 256 then [ops[0].value as byte] else []) + Sent(ops[1..])
  }

  /** What arrives when the loopback and the target echo every sent byte and
      the target answers the receives with `data`. */
  function Replies(ops: seq<Op>, data: seq<byte>): seq<byte>
    requires Plain(ops) && |data| == Recvs(ops)
    decreases |ops|
  {
    if ops == [] then []
    else if ops[0].Send? then [ops[0].value as byte, ops[0].value as byte] + Replies(ops[1..], data)
    else [data[0]] + Replies(ops[1..], data[1..])
  }

  /** The answers to the receives that must be the break character are 0. */
  predicate ZeroAtChecks(ops: seq<Op>, data: seq<byte>)
    requires |data| == Recvs(ops)
    decreases |ops|
  {
    ops == [] || (
      if ops[0].Recv? then ZeroAtChecks(ops[1..], data[1..])
      else if ops[0].Expect0? then data[0] == 0 && ZeroAtChecks(ops[1..], data[1..])
      else ZeroAtChecks(ops[1..], data))
  }

  /** One operation against the reply a correct target gives to it. */
  lemma StepOnReply(op: Op, d: seq<byte>, rest: seq<byte>)
    requires PlainOp(op) && |d| == (if op.Send? then 0 else 1)
    requires op.Expect0? ==> d[0] == 0
    ensures op.Send? ==> Step(op, [op.value as byte, op.value as byte] + rest) == Exec(Pass, [op.value as byte], rest, [])
    ensures !op.Send? ==> Step(op, d + rest) == Exec(Pass, [], rest, d)
  {
    if !op.Send? {
      assert (d + rest)[0] == d[0] && (d + rest)[1..] == rest;
      assert d == [d[0]];
    }
  }

  /** On a correct target an exchange succeeds, writes exactly its bytes,
      consumes exactly the replies and hands back the target's answers. */
  lemma {:induction false} RunOnReplies(ops: seq<Op>, data: seq<byte>, rest: seq<byte>)
    requires Plain(ops) && |data| == Recvs(ops) && ZeroAtChecks(ops, data)
    ensures Run(ops, Replies(ops, data) + rest) == Exec(Pass, Sent(ops), rest, data)
    decreases |ops|
  {
    if ops != [] {
      var op := ops[0];
      var k := if op.Send? then 0 else 1;
      var d, data' := data[..k], data[k..];
      var tail := Replies(ops[1..], data') + rest;
      RepliesConsForward(ops, data, rest);
      RunOnReplies(ops[1..], data', rest);
      StepOnReply(op, d, tail);
      var rx := Replies(ops, data) + rest;
      assert Run(ops, rx) == Then(Step(op, rx), Run(ops[1..], Step(op, rx).rest));
    }
  }

  /** The replies to a list are the replies to its first operation followed
      by the replies to the rest. */
  lemma RepliesConsForward(ops: seq<Op>, data: seq<byte>, rest: seq<byte>)
    requires ops != [] && Plain(ops) && |data| == Recvs(ops) && ZeroAtChecks(ops, data)
    ensures var k := if ops[0].Send? then 0 else 1;
      && PlainOp(ops[0]) && Plain(ops[1..]) && |data| >= k
      && |data[k..]| == Recvs(ops[1..]) && ZeroAtChecks(ops[1..], data[k..])
      && (ops[0].Expect0? ==> data[0] == 0)
      && (ops[0].Send? ==> Replies(ops, data) + rest == [ops[0].value as byte, ops[0].value as byte] + (Replies(ops[1..], data[k..]) + rest))
      && (!ops[0].Send? ==> Replies(ops, data) + rest == data[..k] + (Replies(ops[1..], data[k..]) + rest))
      && Sent(ops) == (if ops[0].Send? then [ops[0].value as byte] else []) + Sent(ops[1..])
  {
    if !ops[0].Send? {
      assert data[..1] == [data[0]];
    }
  }

  /** One successful operation has met a correct target. */
  lemma StepPassIsReply(op: Op, rx: seq<byte>)
    requires Step(op, rx).outcome.Pass?
    ensures PlainOp(op)
    ensures op.Send? ==> (|rx| >= 2 && rx[0] == op.value && rx[1] == op.value
      && Step(op, rx) == Exec(Pass, [op.value as byte], rx[2..], []))
    ensures !op.Send? ==> |rx| >= 1 && Step(op, rx) == Exec(Pass, [], rx[1..], [rx[0]])
    ensures op.Expect0? ==> rx[0] == 0
  {
  }

  /** Conversely, an exchange that succeeds has met a correct target: the
      input began with the replies to exactly what was sent and received. */
  lemma {:induction false} RunPassIsReplies(ops: seq<Op>, rx: seq<byte>)
    requires Run(ops, rx).outcome.Pass?
    ensures Plain(ops)
    ensures |Run(ops, rx).got| == Recvs(ops)
    ensures ZeroAtChecks(ops, Run(ops, rx).got)
    ensures Run(ops, rx).sent == Sent(ops)
    ensures rx == Replies(ops, Run(ops, rx).got) + Run(ops, rx).rest
    decreases |ops|
  {
    if ops != [] {
      var e := Step(ops[0], rx);
      var t := Run(ops[1..], e.rest);
      assert Run(ops, rx) == Then(e, t);
      StepPassIsReply(ops[0], rx);
      RunPassIsReplies(ops[1..], e.rest);
      RepliesCons(ops, rx, e, t);
    }
  }

  /** One step of the converse: a reply to the first operation in front of
      the replies to the rest. */
  lemma RepliesCons(ops: seq<Op>, rx: seq<byte>, e: Exec, t: Exec)
    requires ops != [] && PlainOp(ops[0]) && Plain(ops[1..])
    requires ops[0].Send? ==> (|rx| >= 2 && rx[0] == ops[0].value && rx[1] == ops[0].value
      && e == Exec(Pass, [ops[0].value as byte], rx[2..], []))
    requires !ops[0].Send? ==> |rx| >= 1 && e == Exec(Pass, [], rx[1..], [rx[0]])
    requires ops[0].Expect0? ==> rx[0] == 0
    requires |t.got| == Recvs(ops[1..]) && ZeroAtChecks(ops[1..], t.got) && t.sent == Sent(ops[1..])
    requires e.rest == Replies(ops[1..], t.got) + t.rest
    ensures Plain(ops) && |e.got + t.got| == Recvs(ops) && ZeroAtChecks(ops, e.got + t.got)
    ensures e.sent + t.sent == Sent(ops)
    ensures rx == Replies(ops, e.got + t.got) + t.rest
  {
    if ops[0].Send? {
      RepliesConsSend(ops, rx, t.got, t.rest);
      assert e.got + t.got == t.got;
    } else {
      RepliesConsRecv(ops, rx, t.got, t.rest);
      assert e.sent + t.sent == t.sent;
    }
  }

  lemma RepliesConsSend(ops: seq<Op>, rx: seq<byte>, g: seq<byte>, rest: seq<byte>)
    requires ops != [] && ops[0].Send? && 0 <= ops[0].value < 256 && Plain(ops[1..])
    requires |rx| >= 2 && rx[0] == ops[0].value && rx[1] == ops[0].value
    requires |g| == Recvs(ops[1..]) && ZeroAtChecks(ops[1..], g)
    requires rx[2..] == Replies(ops[1..], g) + rest
    ensures Plain(ops) && |g| == Recvs(ops) && ZeroAtChecks(ops, g)
    ensures [ops[0].value as byte] + Sent(ops[1..]) == Sent(ops)
    ensures rx == Replies(ops, g) + rest
  {
    var v := ops[0].value as byte;
    var r := Replies(ops[1..], g);
    assert Replies(ops, g) == [v, v] + r;
    assert rx == [v, v] + rx[2..];
    assert [v, v] + (r + rest) == [v, v] + r + rest;
  }

  lemma RepliesConsRecv(ops: seq<Op>, rx: seq<byte>, g: seq<byte>, rest: seq<byte>)
    requires ops != [] && (ops[0].Recv? || ops[0].Expect0?) && Plain(ops[1..])
    requires |rx| >= 1 && (ops[0].Expect0? ==> rx[0] == 0)
    requires |g| == Recvs(ops[1..]) && ZeroAtChecks(ops[1..], g)
    requires rx[1..] == Replies(ops[1..], g) + rest
    ensures Plain(ops) && |[rx[0]] + g| == Recvs(ops) && ZeroAtChecks(ops, [rx[0]] + g)
    ensures Sent(ops[1..]) == Sent(ops)
    ensures rx == Replies(ops, [rx[0]] + g) + rest
  {
    var d := [rx[0]] + g;
    var r := Replies(ops[1..], g);
    assert d[0] == rx[0] && d[1..] == g;
    assert Replies(ops, d) == [rx[0]] + r;
    assert rx == [rx[0]] + rx[1..];
    assert [rx[0]] + (r + rest) == [rx[0]] + r + rest;
  }

  /** A correct target followed by one break-character check whose answer is `code`. */
  lemma RunOnRepliesThenCheck(ops: seq<Op>, c: Check, data: seq<byte>, code: byte, rest: seq<byte>)
    requires Plain(ops) && |data| == Recvs(ops) && ZeroAtChecks(ops, data)
    ensures Run(ops + [Expect0(c)], Replies(ops, data) + [code] + rest)
         == Exec(if code == 0 then Pass else Fail(CheckError(c, code)), Sent(ops), rest, data + [code])
  {
    var r := Replies(ops, data);
    var rx := r + [code] + rest;
    assert rx == r + ([code] + rest);
    RunOnReplies(ops, data, [code] + rest);
    RunSnoc(ops, Expect0(c), rx);
    assert ([code] + rest)[0] == code && ([code] + rest)[1..] == rest;
    var st := Step(Expect0(c), [code] + rest);
    assert st == Exec(if code == 0 then Pass else Fail(CheckError(c, code)), [], rest, [code]);
    assert Sent(ops) + [] == Sent(ops);
  }

  /** An exchange that ends with a passed check: the check saw the break character. */
  lemma RunPassThenCheck(ops: seq<Op>, c: Check, rx: seq<byte>)
    requires Run(ops + [Expect0(c)], rx).outcome.Pass?
    ensures var e := Run(ops, rx);
      && e.outcome.Pass? && |e.rest| >= 1 && e.rest[0] == 0
      && Run(ops + [Expect0(c)], rx) == Exec(Pass, e.sent, e.rest[1..], e.got + [0])
  {
    RunSnoc(ops, Expect0(c), rx);
    var e := Run(ops, rx);
    assert e.outcome.Pass?;
    var st := Step(Expect0(c), e.rest);
    assert st.outcome.Pass?;
    assert |e.rest| >= 1 && e.rest[0] == 0;
    assert st == Exec(Pass, [], e.rest[1..], [0]);
    assert e.sent + [] == e.sent;
  }

  lemma PlainAppend(a: seq<Op>, b: seq<Op>)
    requires Plain(a) && Plain(b)
    ensures Plain(a + b)
    ensures Recvs(a + b) == Recvs(a) + Recvs(b)
    ensures Sent(a + b) == Sent(a) + Sent(b)
  {
    PlainAppendIff(a, b);
    RecvsAppend(a, b);
    SentAppend(a, b);
  }

  lemma {:induction false} SentAppend(a: seq<Op>, b: seq<Op>)
    ensures Sent(a + b) == Sent(a) + Sent(b)
    decreases |a|
  {
    if a == [] {
      assert a + b == b;
    } else {
      SentAppend(a[1..], b);
      DropAppend(a, b, 1);
    }
  }

  lemma {:induction false} PlainAppendIff(a: seq<Op>, b: seq<Op>)
    ensures Plain(a + b) <==> Plain(a) && Plain(b)
    decreases |a|
  {
    if a == [] {
      assert a + b == b;
    } else {
      PlainAppendIff(a[1..], b);
      DropAppend(a, b, 1);
    }
  }

  lemma {:induction false} RepliesAppend(a: seq<Op>, b: seq<Op>, d: seq<byte>, e: seq<byte>)
    requires Plain(a) && Plain(b) && |d| == Recvs(a) && |e| == Recvs(b)
    ensures Plain(a + b) && Recvs(a + b) == |d + e|
    ensures Replies(a + b, d + e) == Replies(a, d) + Replies(b, e)
    ensures ZeroAtChecks(a, d) && ZeroAtChecks(b, e) ==> ZeroAtChecks(a + b, d + e)
  {
    RepliesAppendR(a, b, d, e);
    if ZeroAtChecks(a, d) && ZeroAtChecks(b, e) {
      ZeroAtChecksAppend(a, b, d, e);
    }
  }

  lemma {:induction false} RepliesAppendR(a: seq<Op>, b: seq<Op>, d: seq<byte>, e: seq<byte>)
    requires Plain(a) && Plain(b) && |d| == Recvs(a) && |e| == Recvs(b)
    ensures Plain(a + b) && Recvs(a + b) == |d + e|
    ensures Replies(a + b, d + e) == Replies(a, d) + Replies(b, e)
    decreases |a|
  {
    PlainAppend(a, b);
    if a == [] {
      assert a + b == b;
      assert d == [] && d + e == e;
    } else {
      var k := if a[0].Send? then 0 else 1;
      PlainAppend(a[1..], b);
      RepliesAppendR(a[1..], b, d[k..], e);
      DropAppend(a, b, 1);
      DropAppend(d, e, k);
      var h := if a[0].Send? then [a[0].value as byte, a[0].value as byte] else [d[0]];
      var r := Replies(a[1..], d[k..]);
      assert Replies(a + b, d + e) == h + (r + Replies(b, e));
      assert Replies(a, d) == h + r;
      AppendAssoc(h, r, Replies(b, e));
    }
  }

  lemma {:induction false} ZeroAtChecksAppend(a: seq<Op>, b: seq<Op>, d: seq<byte>, e: seq<byte>)
    requires |d| == Recvs(a) && |e| == Recvs(b)
    requires ZeroAtChecks(a, d) && ZeroAtChecks(b, e)
    ensures Recvs(a + b) == |d + e| && ZeroAtChecks(a + b, d + e)
    decreases |a|
  {
    RecvsAppend(a, b);
    if a == [] {
      assert a + b == b;
      assert d == [] && d + e == e;
    } else {
      var k := if a[0].Recv? || a[0].Expect0? then 1 else 0;
      ZeroAtChecksAppend(a[1..], b, d[k..], e);
      DropAppend(a, b, 1);
      DropAppend(d, e, k);
    }
  }

  lemma {:induction false} RecvsAppend(a: seq<Op>, b: seq<Op>)
    ensures Recvs(a + b) == Recvs(a) + Recvs(b)
    decreases |a|
  {
    if a == [] {
      assert a + b == b;
    } else {
      RecvsAppend(a[1..], b);
      DropAppend(a, b, 1);
    }
  }

  /** Every byte twice: what a correct line returns for bytes it is sent. */
  function Doubled(s: seq<byte>): seq<byte>
    decreases |s|
  {
    if s == [] then [] else [s[0], s[0]] + Doubled(s[1..])
  }

  /** For an exchange without receives, the replies are the doubled writes. */
  lemma {:induction false} RepliesWithoutRecvs(ops: seq<Op>)
    requires Plain(ops) && Recvs(ops) == 0
    ensures Replies(ops, []) == Doubled(Sent(ops))
    ensures ZeroAtChecks(ops, [])
    decreases |ops|
  {
    if ops != [] {
      RepliesWithoutRecvs(ops[1..]);
    }
  }

  lemma {:induction false} DoubledAppend(a: seq<byte>, b: seq<byte>)
    ensures Doubled(a + b) == Doubled(a) + Doubled(b)
    decreases |a|
  {
    if a == [] {
      assert a + b == b;
    } else {
      DropAppend(a, b, 1);
      DoubledAppend(a[1..], b);
    }
  }

  /** The operations of a byte list sent one after the other. */
  function Sends(vs: seq<int>): seq<Op>
    decreases |vs|
  {
    if vs == [] then [] else [Send(vs[0])] + Sends(vs[1..])
  }

  predicate AllBytes(vs: seq<int>) { forall i :: 0 <= i < |vs| ==> 0 <= vs[i] < 256 }

  lemma AllBytesSplit(vs: seq<int>, k: nat)
    requires k <= |vs|
    ensures AllBytes(vs) <==> AllBytes(vs[..k]) && AllBytes(vs[k..])
  {
    if AllBytes(vs[..k]) && AllBytes(vs[k..]) {
      forall i | 0 <= i < |vs|
        ensures 0 <= vs[i] < 256
      {
        if i < k {
          assert vs[i] == vs[..k][i];
        } else {
          assert vs[i] == vs[k..][i - k];
        }
      }
    }
  }

  lemma {:induction false} SendsAt(vs: seq<int>)
    ensures |Sends(vs)| == |vs|
    ensures forall j :: 0 <= j < |vs| ==> Sends(vs)[j] == Send(vs[j])
    decreases |vs|
  {
    if vs != [] {
      var t := vs[1..];
      SendsAt(t);
      var s := Sends(vs);
      assert s == [Send(vs[0])] + Sends(t);
      forall j | 0 <= j < |vs|
        ensures s[j] == Send(vs[j])
      {
        if j > 0 {
          assert s[j] == Sends(t)[j - 1] && t[j - 1] == vs[j];
        }
      }
    }
  }

  /** Sending receives nothing back into `got`. */
  lemma {:induction false} SendsGotNothing(vs: seq<int>, rx: seq<byte>)
    ensures Run(Sends(vs), rx).got == []
    decreases |vs|
  {
    if vs != [] {
      SendsGotNothing(vs[1..], Step(Send(vs[0]), rx).rest);
    }
  }

  lemma {:induction false} SendsAppend(a: seq<int>, b: seq<int>)
    ensures Sends(a + b) == Sends(a) + Sends(b)
    decreases |a|
  {
    if a == [] {
      assert a + b == b;
    } else {
      DropAppend(a, b, 1);
      SendsAppend(a[1..], b);
    }
  }

  /** Sending a list: it goes out as it is when all of it are bytes, nothing
      is received, and a correct line echoes every byte twice. */
  lemma {:induction false} SendsShape(vs: seq<int>)
    ensures Plain(Sends(vs)) <==> AllBytes(vs)
    ensures Recvs(Sends(vs)) == 0 && ZeroAtChecks(Sends(vs), [])
    ensures AllBytes(vs) ==> Sent(Sends(vs)) == vs && Replies(Sends(vs), []) == Doubled(vs)
    decreases |vs|
  {
    if vs != [] {
      var s := Sends(vs);
      assert s[0] == Send(vs[0]) && s[1..] == Sends(vs[1..]);
      SendsShape(vs[1..]);
      assert AllBytes(vs) <==> 0 <= vs[0] < 256 && AllBytes(vs[1..]) by {
        assert forall i :: 1 <= i < |vs| ==> vs[i] == vs[1..][i - 1];
      }
      if AllBytes(vs) {
        assert vs == [vs[0]] + vs[1..];
      }
    }
  }

  // ---------------------------------------------------------------------------
  // The single-byte primitives.

  /** SendByte: the byte is written whenever it is a byte at all; it succeeds
      exactly when both of the next two received bytes equal it, and each way of
      failing is reported by its own error. */
  lemma SendByteBehaviour(b: int, rx: seq<byte>)
    ensures var e := Run([Send(b)], rx);
      && (0 <= b < 256 ==> e.sent == [b])
      && (e.outcome.Pass? <==> 0 <= b < 256 && |rx| >= 2 && rx[0] == b && rx[1] == b)
      && (e.outcome.Pass? ==> e.rest == rx[2..] && e.got == [])
      && (e.outcome == Fail(NotAByte(b)) <==> !(0 <= b < 256))
      && (e.outcome == Fail(NoLoopback) <==> 0 <= b < 256 && |rx| == 0)
      && (e.outcome.Fail? && e.outcome.error.LoopbackFailed? <==> 0 <= b < 256 && |rx| >= 1 && rx[0] != b)
      && (e.outcome == Fail(NoTargetEcho) <==> 0 <= b < 256 && |rx| == 1 && rx[0] == b)
      && (e.outcome.Fail? && e.outcome.error.TargetEchoFailed? <==> 0 <= b < 256 && |rx| >= 2 && rx[0] == b && rx[1] != b)
    ensures 0 <= b < 256 && |rx| >= 1 && rx[0] != b ==> Run([Send(b)], rx).outcome == Fail(LoopbackFailed(b, rx[0]))
    ensures 0 <= b < 256 && |rx| >= 2 && rx[0] == b && rx[1] != b ==>
      Run([Send(b)], rx).outcome == Fail(TargetEchoFailed(b, rx[1]))
  {
    assert Run([Send(b)], rx) == Then(Step(Send(b), rx), Idle(Step(Send(b), rx).rest));
  }

  /** RecByte: one byte, or the timeout error on an empty read. */
  lemma RecByteBehaviour(rx: seq<byte>)
    ensures var e := Run([Recv], rx);
      && e.sent == []
      && (|rx| == 0 ==> e.outcome == Fail(NoByte) && e.rest == rx)
      && (|rx| > 0 ==> e.outcome == Pass && e.got == [rx[0]] && e.rest == rx[1..])
  {
    assert Run([Recv], rx) == Then(Step(Recv, rx), Idle(Step(Recv, rx).rest));
  }
}
