/** The interrupt-driven I2C master of `src/hal/k20/i2c.rs`.

    A transfer is started by the task holding the bus (`write` or `read`),
    which programs the control register C1, puts the address byte in the
    data register D and publishes the transfer state; each interrupt then
    advances the state machine by one byte and, at the end or on a
    missing acknowledgement, signals the waiting task, which reads the
    outcome with `finish`.

    Registers are fields and inputs. C1 is an 8-bit field; every byte
    written to D is appended to `sent`; every read of D is counted in
    `dReads`, and within one interrupt such a read returns the input
    `data`; the status register S is the input `status`. The caller's
    buffers are sequences and the source's raw pointers are indexes into
    them: a byte loaded from beyond the transmit buffer is sent as
    `Beyond(index)`, and a store beyond the receive buffer is logged in
    `overruns`. The condition variable the waiting task blocks on is
    reduced to the number of `signal` calls. */
module I2c {
  import opened Common

  const C1_TXAK: bv8 := 0x08
  const C1_TX: bv8 := 0x10
  const C1_MST: bv8 := 0x20
  const C1_IICIE: bv8 := 0x40
  const C1_IICEN: bv8 := 0x80

  const S_RXAK: bv8 := 0x01
  const S_BUSY: bv8 := 0x20
  const S_TCF: bv8 := 0x80

  /** The bits `write` and `read` set in C1: module and interrupt enable,
      master mode (which sends a START), transmit direction. */
  const C1_START: bv8 := C1_IICEN | C1_IICIE | C1_MST | C1_TX

  datatype Error = Nack

  /** Transfer state: `d` is the index of the next byte in the caller's
      buffer and `rem` the 32-bit count still to go. */
  datatype State = Idle | Failed(err: Error) | RxStart(d: nat, rem: u32) | Rx(d: nat, rem: u32) | Tx(d: nat, rem: u32)

  /** A byte put on the bus: from the transmit buffer, or loaded from
      memory `index` bytes past its start when that is beyond its end. */
  datatype Byte = Byte(b: bv8) | Beyond(index: nat)

  datatype Ctx = Ctx(
    state: State,
    c1: bv8,
    sent: seq<Byte>,
    dReads: nat,
    tx: seq<bv8>,
    rx: seq<bv8>,
    overruns: seq<nat>,
    signals: nat)

  /** What one interrupt sees: the status register and the value D reads return. */
  datatype Input = Input(status: bv8, data: bv8)

  /** An interrupt either advances the machine or aborts the system. */
  datatype Outcome = Aborted | Next(c: Ctx)

  /** What `finish` returns, or an abort for a transfer still in progress. */
  datatype Finish = Done(err: Option<Error>) | FinishAbort

  predicate Nacked(inp: Input)
  {
    inp.status & S_RXAK != 0
  }

  function Bytes(xs: seq<bv8>): (r: seq<Byte>)
    ensures |r| == |xs| && forall i | 0 <= i < |xs| :: r[i] == Byte(xs[i])
  {
    seq(|xs|, i requires 0 <= i < |xs| => Byte(xs[i]))
  }

  /** `*d` for the transmit pointer `d`. */
  function Load(c: Ctx, d: nat): (b: Byte)
    ensures d < |c.tx| ==> b == Byte(c.tx[d])
    ensures d >= |c.tx| ==> b == Beyond(d)
  {
    if d < |c.tx| then Byte(c.tx[d]) else Beyond(d)
  }

  /** `*d = v` for the receive pointer `d`. */
  function Store(c: Ctx, d: nat, v: bv8): (r: Ctx)
    ensures d < |c.rx| ==> r == c.(rx := c.rx[d := v])
    ensures d >= |c.rx| ==> r == c.(overruns := c.overruns + [d])
  {
    if d < |c.rx| then c.(rx := c.rx[d := v]) else c.(overruns := c.overruns + [d])
  }

  /** One read of D: counted, and it returns this interrupt's `data`. */
  function ReadD(c: Ctx): (r: Ctx)
    ensures r == c.(dReads := c.dReads + 1)
  {
    c.(dReads := c.dReads + 1)
  }

  /** The seven-bit address in the upper bits, the direction bit (1 for a
      read) in bit 0, as section 3.1.10 of the NXP I2C-bus specification
      (UM10204) lays out the first byte of a transfer. */
  function AddressByte(addr: bv8, read: bool): (b: bv8)
    ensures b >> 1 == addr & 0x7F
    ensures (b & 1 == 1) <==> read
  {
    (addr << 1) | (if read then 1 else 0)
  }

  // ---------------------------------------------------------------------------
  // Starting a transfer

  /** `Context::write`: START in transmit mode, the address byte in D, and
      the state `Tx` over the whole buffer. The caller then waits. */
  function WriteStart(c: Ctx, addr: bv8, buf: seq<bv8>): (r: Ctx)
    requires |buf| < U32_LIMIT
    ensures r.c1 == c.c1 | C1_START
    ensures r.sent == c.sent + [Byte(AddressByte(addr, false))]
    ensures r.state == Tx(0, |buf|) && r.tx == buf
    ensures r.dReads == c.dReads && r.rx == c.rx && r.overruns == c.overruns && r.signals == c.signals
  {
    c.(c1 := c.c1 | C1_START, sent := c.sent + [Byte(addr << 1)], state := Tx(0, |buf|), tx := buf)
  }

  /** `Context::read` as written: the same address byte as a write. */
  function ReadStartAsWritten(c: Ctx, addr: bv8, buf: seq<bv8>): (r: Ctx)
    requires |buf| < U32_LIMIT
    ensures r.c1 == c.c1 | C1_START
    ensures r.sent == c.sent + [Byte(AddressByte(addr, false))]
    ensures r.state == RxStart(0, |buf|) && r.rx == buf
  {
    c.(c1 := c.c1 | C1_START, sent := c.sent + [Byte(addr << 1)], state := RxStart(0, |buf|), rx := buf)
  }

  /** A read announces itself as a write: the slave sees the direction bit
      clear, exactly as for `write` to the same address. */
  lemma ReadAsWrittenAddressesForWrite(c: Ctx, addr: bv8, buf: seq<bv8>)
    requires |buf| < U32_LIMIT
    ensures ReadStartAsWritten(c, addr, buf).sent == WriteStart(c, addr, buf).sent
    ensures ReadStartAsWritten(c, addr, buf).sent[|c.sent|].b & 1 == 0
  {
  }

  /** `Context::read` with the direction bit set. */
  function ReadStart(c: Ctx, addr: bv8, buf: seq<bv8>): (r: Ctx)
    requires |buf| < U32_LIMIT
    ensures r.c1 == c.c1 | C1_START
    ensures r.sent == c.sent + [Byte(AddressByte(addr, true))]
    ensures r.state == RxStart(0, |buf|) && r.rx == buf
    ensures r.tx == c.tx && r.dReads == c.dReads && r.overruns == c.overruns && r.signals == c.signals
  {
    c.(c1 := c.c1 | C1_START, sent := c.sent + [Byte(AddressByte(addr, true))], state := RxStart(0, |buf|), rx := buf)
  }

  /** A corrected read and a write to the same address differ in the
      direction bit only. */
  lemma ReadAndWriteAddressDiffer(c: Ctx, addr: bv8, buf: seq<bv8>)
    requires |buf| < U32_LIMIT
    ensures var r := ReadStart(c, addr, buf).sent[|c.sent|].b;
      var w := WriteStart(c, addr, buf).sent[|c.sent|].b;
      r != w && r >> 1 == w >> 1 && r & 1 == 1 && w & 1 == 0
  {
  }

  /** `Context::finish`: success when idle, the error when failed, abort
      otherwise; a failed state stays failed. */
  function FinishOf(s: State): (r: Finish)
    ensures s.Idle? <==> r == Done(None)
    ensures s.Failed? <==> r.Done? && r.err.Some?
    ensures s.Failed? ==> r == Done(Some(s.err))
    ensures r == FinishAbort <==> s.RxStart? || s.Rx? || s.Tx?
  {
    match s
    case Idle => Done(None)
    case Failed(e) => Done(Some(e))
    case _ => FinishAbort
  }

  // ---------------------------------------------------------------------------
  // The interrupt handler as written

  /** The transfer ended: the state is set and the waiting task signalled. */
  function Signal(c: Ctx, s: State): (r: Ctx)
    ensures r == c.(state := s, signals := c.signals + 1)
  {
    c.(state := s, signals := c.signals + 1)
  }

  /** `irq_handler` as written. */
  function IrqAsWritten(c: Ctx, inp: Input): (r: Outcome)
    ensures c.state.Idle? || c.state.Failed? <==> r.Aborted?
    ensures (c.state.RxStart? || c.state.Tx?) && Nacked(inp) ==> r == Next(Signal(c, Failed(Nack)))
    ensures r.Next? && r.c.state.Idle? ==> r.c.signals == c.signals + 1 && r.c.c1 == c.c1
    ensures c.state.RxStart? && !Nacked(inp) ==>
      && r.Next? && r.c.state == Rx(c.state.d, c.state.rem) && r.c.c1 == c.c1 & !C1_TX
      && r.c.dReads == c.dReads + 1 && r.c.sent == c.sent && r.c.signals == c.signals
      && r.c.rx == c.rx && r.c.overruns == c.overruns
    ensures c.state.Tx? && !Nacked(inp) ==>
      && r.Next? && r.c.sent == c.sent + [Load(c, c.state.d)] && r.c.c1 == c.c1
      && (r.c.state.Idle? <==> c.state.rem == 0)
  {
    match c.state
    case Idle => Aborted
    case Failed(_) => Aborted
    case RxStart(d, rem) =>
      if Nacked(inp) then Next(Signal(c, Failed(Nack)))
      else Next(ReadD(c.(c1 := c.c1 & !C1_TX)).(state := Rx(d, rem)))
    case Rx(d, rem) => Next(IrqRxAsWritten(c, d, rem, inp))
    case Tx(d, rem) =>
      if Nacked(inp) then Next(Signal(c, Failed(Nack)))
      else
        var c1 := c.(sent := c.sent + [Load(c, d)]);
        if rem == 0 then Next(Signal(c1, Idle))
        else Next(c1.(state := Tx(d + 1, rem - 1)))
  }

  /** The `Rx` branch as written: store D; after the last byte end;
      otherwise arm the NACK when two are left, read D into the same byte a
      second time and move on, with a 32-bit decrement of the count. */
  function IrqRxAsWritten(c: Ctx, d: nat, rem: u32, inp: Input): (r: Ctx)
    ensures rem == 1 ==> r == Signal(Store(ReadD(c), d, inp.data), Idle)
    ensures rem != 1 ==>
      && r.state == Rx(d + 1, DecWrap(rem))
      && r.dReads == c.dReads + 2 && r.signals == c.signals
      && (d < |c.rx| ==> r.rx == c.rx[d := inp.data] && r.overruns == c.overruns)
      && (d >= |c.rx| ==> r.rx == c.rx && r.overruns == c.overruns + [d, d])
    ensures r.state.Idle? ==> r.c1 == c.c1
    ensures rem == 2 ==> r.c1 == c.c1 | C1_TXAK
    ensures rem != 1 && rem != 2 ==> r.c1 == c.c1
    ensures r.sent == c.sent && r.tx == c.tx
  {
    var c1 := Store(ReadD(c), d, inp.data);
    if rem == 1 then Signal(c1, Idle)
    else
      var c2 := if rem == 2 then c1.(c1 := c1.c1 | C1_TXAK) else c1;
      var c3 := Store(ReadD(c2), d, inp.data);
      assert d >= |c.rx| ==> c3.overruns == c.overruns + [d, d];
      c3.(state := Rx(d + 1, DecWrap(rem)))
  }

  function RunAsWritten(c: Ctx, ins: seq<Input>): Outcome
    decreases |ins|
  {
    if |ins| == 0 then Next(c)
    else match IrqAsWritten(c, ins[0])
      case Aborted => Aborted
      case Next(c') => RunAsWritten(c', ins[1..])
  }

  /** Every interrupt of the run acknowledged by the slave. */
  predicate AllAcked(ins: seq<Input>)
  {
    forall i | 0 <= i < |ins| :: !Nacked(ins[i])
  }

  lemma AllAckedTail(ins: seq<Input>)
    requires |ins| > 0 && AllAcked(ins)
    ensures !Nacked(ins[0]) && AllAcked(ins[1..])
  {
    assert forall i | 0 <= i < |ins[1..]| :: ins[1..][i] == ins[i + 1];
  }

  /** From `Tx(d, rem)`, `rem + 1` acknowledged interrupts as written send the
      rest of the buffer and then one more byte, loaded from just past its end. */
  lemma {:induction false} TxRunAsWritten(c: Ctx, ins: seq<Input>)
    requires c.state.Tx? && c.state.d + c.state.rem == |c.tx|
    requires |ins| == c.state.rem + 1 && AllAcked(ins)
    ensures RunAsWritten(c, ins) ==
      Next(c.(state := Idle, sent := c.sent + Bytes(c.tx[c.state.d..]) + [Beyond(|c.tx|)], signals := c.signals + 1))
    decreases |ins|
  {
    AllAckedTail(ins);
    var d, rem := c.state.d, c.state.rem;
    TxStepAsWritten(c, ins[0]);
    if rem == 0 {
      var c' := c.(sent := c.sent + [Beyond(|c.tx|)], state := Idle, signals := c.signals + 1);
      RunAsWrittenStep(c, ins, c');
      assert ins[1..] == [];
      assert Bytes(c.tx[d..]) == [] by { assert c.tx[d..] == []; }
      assert c.sent + Bytes(c.tx[d..]) + [Beyond(|c.tx|)] == c'.sent;
    } else {
      var c' := c.(sent := c.sent + [Byte(c.tx[d])], state := Tx(d + 1, rem - 1));
      RunAsWrittenStep(c, ins, c');
      TxRunAsWritten(c', ins[1..]);
      TxRunAsWrittenJoin(c, c');
    }
  }

  /** Sending one byte as written and then the rest is sending the rest
      from one earlier. */
  lemma TxRunAsWrittenJoin(c: Ctx, c': Ctx)
    requires c.state.Tx? && c.state.rem > 0 && c.state.d + c.state.rem == |c.tx|
    requires c' == c.(sent := c.sent + [Byte(c.tx[c.state.d])], state := Tx(c.state.d + 1, c.state.rem - 1))
    ensures c'.(state := Idle, sent := c'.sent + Bytes(c'.tx[c'.state.d..]) + [Beyond(|c'.tx|)], signals := c'.signals + 1)
         == c.(state := Idle, sent := c.sent + Bytes(c.tx[c.state.d..]) + [Beyond(|c.tx|)], signals := c.signals + 1)
  {
    var d := c.state.d;
    BytesFrom(c.tx, d);
    assert c'.sent + Bytes(c'.tx[c'.state.d..]) + [Beyond(|c'.tx|)] == c.sent + Bytes(c.tx[d..]) + [Beyond(|c.tx|)];
  }

  /** One acknowledged transmit interrupt as written. */
  lemma TxStepAsWritten(c: Ctx, inp: Input)
    requires c.state.Tx? && !Nacked(inp)
    ensures var d, rem := c.state.d, c.state.rem;
      IrqAsWritten(c, inp) == Next(c.(sent := c.sent + [Load(c, d)], state := if rem == 0 then Idle else Tx(d + 1, rem - 1),
                                      signals := if rem == 0 then c.signals + 1 else c.signals))
  {
  }

  /** A run as written continues from the state the first interrupt leaves. */
  lemma RunAsWrittenStep(c: Ctx, ins: seq<Input>, c': Ctx)
    requires |ins| > 0 && IrqAsWritten(c, ins[0]) == Next(c')
    ensures RunAsWritten(c, ins) == RunAsWritten(c', ins[1..])
  {
  }

  /** Peeling the first byte off a suffix. */
  lemma BytesFrom(xs: seq<bv8>, d: nat)
    requires d < |xs|
    ensures Bytes(xs[d..]) == [Byte(xs[d])] + Bytes(xs[d + 1..])
  {
  }

  /** An acknowledged write of `buf` as written takes `|buf| + 1` interrupts,
      reports success, and puts one byte more than the buffer on the bus. */
  lemma WriteAsWrittenSendsPastEnd(c: Ctx, addr: bv8, buf: seq<bv8>, ins: seq<Input>)
    requires |buf| < U32_LIMIT
    requires |ins| == |buf| + 1 && AllAcked(ins)
    ensures var r := RunAsWritten(WriteStart(c, addr, buf), ins);
      && r.Next? && FinishOf(r.c.state) == Done(None)
      && r.c.sent == c.sent + [Byte(addr << 1)] + Bytes(buf) + [Beyond(|buf|)]
  {
    var c0 := WriteStart(c, addr, buf);
    TxRunAsWritten(c0, ins);
    assert buf[0..] == buf;
  }

  /** A zero-length read as written does not finish after the dummy byte:
      the counter wraps to the 32-bit maximum, the next interrupt stores into
      the first byte of the empty buffer, and the transfer goes on. */
  lemma ZeroLengthReadAsWrittenOverruns(c: Ctx, addr: bv8, i0: Input, i1: Input)
    requires !Nacked(i0)
    ensures var c0 := ReadStartAsWritten(c, addr, []);
      var r := RunAsWritten(c0, [i0, i1]);
      && r.Next?
      && r.c.state == Rx(1, U32_LIMIT - 1)
      && r.c.overruns == c.overruns + [0, 0]
      && FinishOf(r.c.state) == FinishAbort
  {
    var c0 := ReadStartAsWritten(c, addr, []);
    var c1 := ReadD(c0.(c1 := c0.c1 & !C1_TX)).(state := Rx(0, 0));
    assert IrqAsWritten(c0, i0) == Next(c1);
    var c2 := IrqRxAsWritten(c1, 0, 0, i1);
    assert IrqAsWritten(c1, i1) == Next(c2);
    assert c1.rx == [] && c1.overruns == c.overruns;
    assert [i0, i1][1..] == [i1];
    assert [i1][1..] == [];
    assert RunAsWritten(c1, [i1]) == Next(c2);
  }

  /** As written, a middle byte of a read costs two reads of D: one read of
      D per byte is what starts the reception of the next one. */
  lemma RxAsWrittenReadsTwice(c: Ctx, inp: Input)
    requires c.state.Rx? && c.state.rem != 1
    ensures IrqAsWritten(c, inp).c.dReads == c.dReads + 2
  {
  }

  /** As written, a one-byte read starts receiving its only byte without
      TXAK, so the master acknowledges the last byte it receives. */
  lemma OneByteReadAsWrittenAcks(c: Ctx, addr: bv8, b: bv8, inp: Input)
    requires c.c1 & C1_TXAK == 0 && !Nacked(inp)
    ensures var r := IrqAsWritten(ReadStartAsWritten(c, addr, [b]), inp);
      r.Next? && r.c.state == Rx(0, 1) && r.c.c1 & C1_TXAK == 0
  {
  }

  /** As written, a transfer that ends leaves C1 as it was while busy: MST
      stays set, so no STOP is sent, and a TXAK set for one read stays set. */
  lemma EndAsWrittenKeepsC1(c: Ctx, inp: Input)
    requires c.state.Tx? || c.state.Rx?
    requires IrqAsWritten(c, inp).Next? && IrqAsWritten(c, inp).c.state.Idle?
    ensures IrqAsWritten(c, inp).c.c1 == c.c1
    ensures c.c1 & C1_MST != 0 ==> IrqAsWritten(c, inp).c.c1 & C1_MST != 0
  {
  }

  // ---------------------------------------------------------------------------
  // The interrupt handler, corrected

  /** Neither master mode nor the pending NACK is left set in C1. */
  predicate Released(c1: bv8)
  {
    c1 & (C1_MST | C1_TXAK) == 0
  }

  /** TXAK is set: the next byte received is not acknowledged. */
  predicate NackArmed(c1: bv8)
  {
    c1 & C1_TXAK != 0
  }

  /** `c1 | TXAK`. */
  function ArmNack(c1: bv8): (r: bv8)
    ensures NackArmed(r)
    ensures r & C1_MST == c1 & C1_MST
  {
    c1 | C1_TXAK
  }

  /** The transfer ended: release the bus (clearing MST sends STOP), clear
      TXAK for the next transfer, set the state and signal the waiting task. */
  function End(c: Ctx, s: State): (r: Ctx)
    ensures r == c.(state := s, signals := c.signals + 1, c1 := c.c1 & !(C1_MST | C1_TXAK))
    ensures Released(r.c1)
  {
    c.(state := s, signals := c.signals + 1, c1 := c.c1 & !(C1_MST | C1_TXAK))
  }

  /** `irq_handler` with the transmit branch stopping at the end of the
      buffer, one read of D per received byte, TXAK set before the read that
      starts the last byte (also for one-byte reads), a zero-length read
      ending at once, and STOP sent at the end of every transfer. */
  function Irq(c: Ctx, inp: Input): (r: Outcome)
    ensures c.state.Idle? || c.state.Failed? <==> r.Aborted?
    ensures (c.state.RxStart? || c.state.Tx?) && Nacked(inp) ==> r == Next(End(c, Failed(Nack)))
    ensures r.Next? && (r.c.state.Idle? || r.c.state.Failed?) ==>
      r.c.signals == c.signals + 1 && Released(r.c.c1)
    ensures r.Next? && !(r.c.state.Idle? || r.c.state.Failed?) ==> r.c.signals == c.signals
    ensures r.Next? && r.c.state.Rx? && r.c.state.rem == 1 ==> NackArmed(r.c.c1)
    ensures r.Next? && r.c.state.Tx? ==> |r.c.sent| == |c.sent| + 1
  {
    match c.state
    case Idle => Aborted
    case Failed(_) => Aborted
    case RxStart(d, rem) => Next(IrqRxStart(c, d, rem, inp))
    case Rx(d, rem) => Next(IrqRx(c, d, rem, inp))
    case Tx(d, rem) => Next(IrqTx(c, d, rem, inp))
  }

  /** The address byte of a read went out: on a NACK fail; with nothing
      to read end; otherwise turn to receive mode (arming the NACK at once
      for a one-byte read) and read D once to start receiving. */
  function IrqRxStart(c: Ctx, d: nat, rem: u32, inp: Input): (r: Ctx)
    ensures Nacked(inp) ==> r == End(c, Failed(Nack))
    ensures !Nacked(inp) && rem == 0 ==> r == End(c, Idle)
    ensures !Nacked(inp) && rem > 0 ==>
      && r.state == Rx(d, rem) && r.dReads == c.dReads + 1 && r.signals == c.signals
      && r.sent == c.sent && r.rx == c.rx && r.overruns == c.overruns
      && (rem == 1 ==> NackArmed(r.c1))
    ensures r.state.Idle? || r.state.Failed? ==> r.signals == c.signals + 1 && Released(r.c1)
  {
    if Nacked(inp) then End(c, Failed(Nack))
    else if rem == 0 then End(c, Idle)
    else ReadD(c.(c1 := if rem == 1 then ArmNack(c.c1 & !C1_TX) else c.c1 & !C1_TX)).(state := Rx(d, rem))
  }

  /** One received byte: store D once; after the last byte end, otherwise
      arm the NACK when one byte is left and move on. */
  function IrqRx(c: Ctx, d: nat, rem: u32, inp: Input): (r: Ctx)
    ensures rem == 0 ==> r == End(c, Idle)
    ensures rem == 1 ==> r == End(Store(ReadD(c), d, inp.data), Idle)
    ensures rem > 1 ==>
      && r.state == Rx(d + 1, rem - 1) && r.signals == c.signals
      && r.dReads == c.dReads + 1 && r.sent == c.sent
      && (rem == 2 ==> NackArmed(r.c1))
      && (rem > 2 ==> r.c1 == c.c1)
      && (d < |c.rx| ==> r.rx == c.rx[d := inp.data] && r.overruns == c.overruns)
      && (d >= |c.rx| ==> r.rx == c.rx && r.overruns == c.overruns + [d])
    ensures r.state.Idle? ==> r.signals == c.signals + 1 && Released(r.c1)
    ensures !r.state.Failed?
  {
    if rem == 0 then End(c, Idle)
    else if rem == 1 then End(Store(ReadD(c), d, inp.data), Idle)
    else
      var c1 := if rem == 2 then c.(c1 := ArmNack(c.c1)) else c;
      Store(ReadD(c1), d, inp.data).(state := Rx(d + 1, rem - 1))
  }

  /** One transmitted byte acknowledged: end when the buffer is done,
      otherwise send the next byte. */
  function IrqTx(c: Ctx, d: nat, rem: u32, inp: Input): (r: Ctx)
    ensures Nacked(inp) ==> r == End(c, Failed(Nack))
    ensures !Nacked(inp) && rem == 0 ==> r == End(c, Idle)
    ensures !Nacked(inp) && rem > 0 ==>
      r == c.(sent := c.sent + [Load(c, d)], state := Tx(d + 1, rem - 1))
    ensures r.state.Idle? || r.state.Failed? ==> r.signals == c.signals + 1 && Released(r.c1)
  {
    if Nacked(inp) then End(c, Failed(Nack))
    else if rem == 0 then End(c, Idle)
    else c.(sent := c.sent + [Load(c, d)], state := Tx(d + 1, rem - 1))
  }

  function Run(c: Ctx, ins: seq<Input>): Outcome
    decreases |ins|
  {
    if |ins| == 0 then Next(c)
    else match Irq(c, ins[0])
      case Aborted => Aborted
      case Next(c') => Run(c', ins[1..])
  }

  /** From `Tx(d, rem)`, `rem + 1` acknowledged interrupts send exactly the
      rest of the buffer, then end the transfer. */
  lemma {:induction false} TxRun(c: Ctx, ins: seq<Input>)
    requires c.state.Tx? && c.state.d + c.state.rem == |c.tx|
    requires |ins| == c.state.rem + 1 && AllAcked(ins)
    ensures Run(c, ins) == Next(End(c.(sent := c.sent + Bytes(c.tx[c.state.d..])), Idle))
    decreases |ins|
  {
    AllAckedTail(ins);
    if c.state.rem == 0 {
      TxRunLast(c, ins);
    } else {
      var d, rem := c.state.d, c.state.rem;
      var c' := c.(sent := c.sent + [Byte(c.tx[d])], state := Tx(d + 1, rem - 1));
      TxStep(c, ins[0]);
      RunStep(c, ins, c');
      TxRun(c', ins[1..]);
      TxRunJoin(c, c');
      EndIgnoresState(c'.(sent := c'.sent + Bytes(c'.tx[c'.state.d..])), c.(sent := c.sent + Bytes(c.tx[d..])), Idle);
    }
  }

  /** The last interrupt of a transmit run, with nothing left to send. */
  lemma TxRunLast(c: Ctx, ins: seq<Input>)
    requires c.state.Tx? && c.state.rem == 0 && c.state.d == |c.tx|
    requires |ins| == 1 && !Nacked(ins[0])
    ensures Run(c, ins) == Next(End(c.(sent := c.sent + Bytes(c.tx[c.state.d..])), Idle))
  {
    var d := c.state.d;
    assert Bytes(c.tx[d..]) == [] by { assert c.tx[d..] == []; }
    assert c.(sent := c.sent + Bytes(c.tx[d..])) == c;
    assert ins[1..] == [];
    TxStep(c, ins[0]);
    RunStep(c, ins, End(c, Idle));
  }

  /** Sending one byte and then the rest is sending the rest from one earlier. */
  lemma TxRunJoin(c: Ctx, c': Ctx)
    requires c.state.Tx? && c.state.rem > 0 && c.state.d + c.state.rem == |c.tx|
    requires c' == c.(sent := c.sent + [Byte(c.tx[c.state.d])], state := Tx(c.state.d + 1, c.state.rem - 1))
    ensures c'.(sent := c'.sent + Bytes(c'.tx[c'.state.d..]), state := Idle)
         == c.(sent := c.sent + Bytes(c.tx[c.state.d..]), state := Idle)
  {
    var d, x := c.state.d, Byte(c.tx[c.state.d]);
    var rest := Bytes(c.tx[d + 1..]);
    BytesFrom(c.tx, d);
    calc {
      c'.sent + Bytes(c'.tx[c'.state.d..]);
      (c.sent + [x]) + rest;
      { SeqAssoc(c.sent, [x], rest); }
      c.sent + ([x] + rest);
      c.sent + Bytes(c.tx[d..]);
    }
  }

  lemma SeqAssoc<T>(a: seq<T>, b: seq<T>, c: seq<T>)
    ensures (a + b) + c == a + (b + c)
  {
  }

  /** One acknowledged transmit interrupt. */
  lemma TxStep(c: Ctx, inp: Input)
    requires c.state.Tx? && !Nacked(inp)
    ensures var d, rem := c.state.d, c.state.rem;
      Irq(c, inp) == Next(if rem == 0 then End(c, Idle) else c.(sent := c.sent + [Load(c, d)], state := Tx(d + 1, rem - 1)))
  {
  }

  /** Ending a transfer overwrites the state, so the old one does not matter. */
  lemma EndIgnoresState(a: Ctx, b: Ctx, s: State)
    requires a.(state := s) == b.(state := s)
    ensures End(a, s) == End(b, s)
  {
  }

  /** A run continues from the state the first interrupt leaves. */
  lemma RunStep(c: Ctx, ins: seq<Input>, c': Ctx)
    requires |ins| > 0 && Irq(c, ins[0]) == Next(c')
    ensures Run(c, ins) == Run(c', ins[1..])
  {
  }

  /** An acknowledged write of `buf` takes `|buf| + 1` interrupts, reports
      success, puts exactly the address byte and the buffer on the bus and
      sends STOP. */
  lemma WriteSendsBuffer(c: Ctx, addr: bv8, buf: seq<bv8>, ins: seq<Input>)
    requires |buf| < U32_LIMIT
    requires |ins| == |buf| + 1 && AllAcked(ins)
    ensures var r := Run(WriteStart(c, addr, buf), ins);
      && r.Next? && FinishOf(r.c.state) == Done(None)
      && r.c.sent == c.sent + [Byte(AddressByte(addr, false))] + Bytes(buf)
      && r.c.signals == c.signals + 1
      && r.c.c1 & C1_MST == 0
  {
    var c0 := WriteStart(c, addr, buf);
    TxRun(c0, ins);
    assert buf[0..] == buf;
  }

  /** A write whose address byte is not acknowledged fails with `Nack`
      after one interrupt and sends nothing but the address. */
  lemma WriteAddressNack(c: Ctx, addr: bv8, buf: seq<bv8>, inp: Input)
    requires |buf| < U32_LIMIT && Nacked(inp)
    ensures var r := Run(WriteStart(c, addr, buf), [inp]);
      && r.Next? && FinishOf(r.c.state) == Done(Some(Nack))
      && r.c.sent == c.sent + [Byte(AddressByte(addr, false))]
      && r.c.signals == c.signals + 1
  {
    assert [inp][1..] == [];
  }

  /** The bytes a run of interrupts presents in D, one per interrupt. */
  function Data(ins: seq<Input>): (r: seq<bv8>)
    ensures |r| == |ins| && forall i | 0 <= i < |ins| :: r[i] == ins[i].data
  {
    seq(|ins|, i requires 0 <= i < |ins| => ins[i].data)
  }

  /** From `Rx(d, rem)` with the rest of the buffer to fill, `rem` interrupts
      store one byte each, read D once each, and end the transfer. */
  lemma {:induction false} RxRun(c: Ctx, ins: seq<Input>)
    requires c.state.Rx? && c.state.rem >= 1 && c.state.d + c.state.rem == |c.rx|
    requires |ins| == c.state.rem
    ensures Run(c, ins).Next?
    ensures var r := Run(c, ins).c;
      && r.state == Idle
      && r.rx == c.rx[..c.state.d] + Data(ins)
      && r.dReads == c.dReads + |ins|
      && r.overruns == c.overruns && r.sent == c.sent
      && r.signals == c.signals + 1
      && Released(r.c1)
    decreases |ins|
  {
    var d, rem := c.state.d, c.state.rem;
    assert c.rx[..d] + Data(ins) == c.rx[d := ins[0].data][..d] + [ins[0].data] + Data(ins[1..]) by {
      assert Data(ins) == [ins[0].data] + Data(ins[1..]);
    }
    if rem == 1 {
      assert ins[1..] == [];
      assert c.rx[d := ins[0].data] == c.rx[..d] + [ins[0].data];
      var c' := End(Store(ReadD(c), d, ins[0].data), Idle);
      assert Irq(c, ins[0]) == Next(c');
      RunStep(c, ins, c');
    } else {
      var c1 := if rem == 2 then c.(c1 := ArmNack(c.c1)) else c;
      var c' := Store(ReadD(c1), d, ins[0].data).(state := Rx(d + 1, rem - 1));
      assert Irq(c, ins[0]) == Next(c');
      RunStep(c, ins, c');
      RxRun(c', ins[1..]);
      assert c'.rx[..d + 1] == c.rx[d := ins[0].data][..d] + [ins[0].data];
    }
  }

  /** A read of `n >= 1` bytes takes `n + 1` interrupts: the first reads D
      once to start the transfer, the others store D into the buffer in
      order. The buffer ends up holding exactly the bytes received, D is
      read once per byte plus once to start, and STOP is sent. */
  lemma ReadFillsBuffer(c: Ctx, addr: bv8, buf: seq<bv8>, ins: seq<Input>)
    requires 1 <= |buf| < U32_LIMIT
    requires |ins| == |buf| + 1 && !Nacked(ins[0])
    ensures var r := Run(ReadStart(c, addr, buf), ins);
      && r.Next? && FinishOf(r.c.state) == Done(None)
      && r.c.rx == Data(ins[1..])
      && r.c.dReads == c.dReads + |buf| + 1
      && r.c.overruns == c.overruns
      && r.c.signals == c.signals + 1
      && r.c.c1 & C1_MST == 0
  {
    var c0 := ReadStart(c, addr, buf);
    var n := |buf|;
    var c1 := ReadD(c0.(c1 := if n == 1 then ArmNack(c0.c1 & !C1_TX) else c0.c1 & !C1_TX)).(state := Rx(0, n));
    assert Irq(c0, ins[0]) == Next(c1);
    RunStep(c0, ins, c1);
    RxRun(c1, ins[1..]);
    assert c1.rx[..0] == [];
    ReleasedEndsMaster(Run(c1, ins[1..]).c.c1);
  }

  /** A released bus has master mode off. */
  lemma ReleasedEndsMaster(c1: bv8)
    requires Released(c1)
    ensures c1 & C1_MST == 0
  {
  }

  /** A zero-length read ends after the address byte without touching D or
      the (empty) buffer. */
  lemma ZeroLengthReadEnds(c: Ctx, addr: bv8, inp: Input)
    requires !Nacked(inp)
    ensures var r := Run(ReadStart(c, addr, []), [inp]);
      && r.Next? && FinishOf(r.c.state) == Done(None)
      && r.c.dReads == c.dReads && r.c.overruns == c.overruns
  {
    assert [inp][1..] == [];
  }

  /** A middle byte of a read costs one read of D. */
  lemma RxReadsOnce(c: Ctx, inp: Input)
    requires c.state.Rx? && c.state.rem > 1
    ensures Irq(c, inp).c.dReads == c.dReads + 1
  {
  }
}
