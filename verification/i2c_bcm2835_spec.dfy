/**
 * The BCM2835/BCM2711 I2C master as the polled driver in
 * drivers/i2c/i2c-bcm2835.c sees it: the register map, the driver's
 * per-bus state as a value, and the FIFO pump and the poll loop as
 * functions of what the status and FIFO registers return.
 *
 * The hardware is an environment: the n-th read of the status register
 * returns status(n) and the n-th read of the FIFO register returns
 * fifo(n). Bytes written to the FIFO register are recorded, in order, as
 * the bytes sent; writes to every other register are recorded, in order,
 * in a log.
 */
module Bcm2835Spec {

  // Register offsets from the controller base.
  const RegControl: bv32 := 0x0
  const RegStatus: bv32 := 0x4
  const RegDlen: bv32 := 0x8
  const RegAddress: bv32 := 0xc
  const RegFifo: bv32 := 0x10
  const RegDiv: bv32 := 0x14
  const RegClkt: bv32 := 0x1c

  // Control register bits.
  const ControlRead: bv32 := 0x1
  const ControlClear: bv32 := 0x10    // bits 4 and 5 both clear the FIFO
  const ControlStart: bv32 := 0x80
  const ControlEnable: bv32 := 0x8000

  // Status register bits.
  const StatusTa: bv32 := 0x1         // transfer active
  const StatusDone: bv32 := 0x2
  const StatusTxw: bv32 := 0x4        // FIFO wants data
  const StatusRxr: bv32 := 0x8        // FIFO needs reading
  const StatusTxd: bv32 := 0x10       // FIFO can accept data
  const StatusRxd: bv32 := 0x20       // FIFO contains data
  const StatusErr: bv32 := 0x100      // slave did not acknowledge
  const StatusClkt: bv32 := 0x200     // clock stretch timeout
  /** Not a hardware bit: the driver ORs it into a result to report a length error. */
  const StatusLen: bv32 := 0x400

  /** The read-direction flag of a message (U-Boot's I2C_M_RD). */
  const MsgRead: bv32 := 0x1

  const StandardRate: int := 100000
  const FastRate: int := 400000
  const DivFast: bv32 := 1500
  const DivStandard: bv32 := 6000

  /** One register write: offset and value. */
  datatype Write = Write(reg: bv32, val: bv32)

  /**
   * The driver's per-bus state: the buffer of the message in flight with the
   * index `pos` that stands for the moving `buf` pointer, the bytes still to
   * move, the message flags, how many status and FIFO reads have been made,
   * the bytes written to the FIFO register and the log of the other
   * register writes.
   */
  datatype State = State(data: seq<bv8>, pos: nat, remain: nat, flags: bv32,
                         statusReads: nat, fifoReads: nat, sent: seq<bv8>, log: seq<Write>)
  {
    predicate Valid() { pos + remain <= |data| }
  }

  /** Why the poll loop stopped. The driver itself only returns `err`. */
  datatype Exit = HardwareError | Done | Overrun | TimedOut

  /** The result of one pass of the poll loop: leave it, or poll again. */
  datatype Poll = Stop(s: State, err: bv32, exit: Exit) | Go(s: State, err: bv32)

  /** The result of the whole poll loop. */
  datatype Outcome = Outcome(s: State, err: bv32, exit: Exit)

  /** The low byte of a 32-bit read, as stored through a `u8 *`. */
  function LowByte(v: bv32): (b: bv8)
    ensures b as bv32 == v & 0xff
  {
    (v & 0xff) as bv8
  }

  /** The bytes that `n` FIFO reads return, starting with read number `from`. */
  function FifoBytes(fifo: nat -> bv32, from: nat, n: nat): (bs: seq<bv8>)
    ensures |bs| == n
    ensures forall i :: 0 <= i < n ==> bs[i] == LowByte(fifo(from + i))
  {
    seq(n, i requires 0 <= i < n => LowByte(fifo(from + i)))
  }

  /** The values written to register `reg`, oldest first. */
  function Programmed(log: seq<Write>, reg: bv32): (vs: seq<bv32>)
    ensures |vs| <= |log|
  {
    if log == [] then []
    else
      var last := log[|log| - 1];
      Programmed(log[..|log| - 1], reg) + (if last.reg == reg then [last.val] else [])
  }

  lemma {:induction false} ProgrammedAppend(a: seq<Write>, b: seq<Write>, reg: bv32)
    ensures Programmed(a + b, reg) == Programmed(a, reg) + Programmed(b, reg)
    decreases |b|
  {
    if b != [] {
      assert (a + b)[..|a + b| - 1] == a + b[..|b| - 1];
      ProgrammedAppend(a, b[..|b| - 1], reg);
    } else {
      assert a + b == a;
    }
  }

  lemma {:induction false} ProgrammedOtherRegisters(ws: seq<Write>, reg: bv32)
    requires forall i :: 0 <= i < |ws| ==> ws[i].reg != reg
    ensures Programmed(ws, reg) == []
    decreases |ws|
  {
    if ws != [] {
      ProgrammedOtherRegisters(ws[..|ws| - 1], reg);
    }
  }

  /** The clock divider `bus_i2c_set_bus_speed` programs for a requested speed. */
  function Divisor(speed: int): (d: bv32)
    ensures d == DivFast <==> speed == FastRate
    ensures d == DivStandard <==> speed != FastRate
  {
    if speed == FastRate then DivFast else DivStandard
  }

  /** The value `bcm2835_i2c_start_transfer` writes to the control register to start. */
  function StartControl(flags: bv32): (c: bv32)
    ensures (c & ControlRead != 0) <==> (flags & MsgRead != 0)
    ensures c & !ControlRead == ControlStart | ControlEnable
  {
    if flags & MsgRead != 0 then ControlStart | ControlEnable | ControlRead
    else ControlStart | ControlEnable
  }

  /** The writes that start a transfer of `len` bytes to or from `chip`. */
  function StartWrites(chip: bv32, len: bv32, flags: bv32): (ws: seq<Write>)
    ensures |ws| == 5 && ws[2] == Write(RegAddress, chip) && ws[3] == Write(RegDlen, len)
    ensures ws[4] == Write(RegControl, StartControl(flags))
  {
    [Write(RegControl, ControlClear | ControlEnable),
     Write(RegStatus, StatusClkt | StatusErr | StatusDone),
     Write(RegAddress, chip),
     Write(RegDlen, len),
     Write(RegControl, StartControl(flags))]
  }

  /** The three writes every exit of `bcm2835_i2c_transfer` makes: clear, ack the flags, disable. */
  function CleanupWrites(): (ws: seq<Write>)
    ensures |ws| == 3 && ws[2] == Write(RegControl, 0)
    ensures forall i :: 0 <= i < 3 ==> ws[i].reg == RegControl || ws[i].reg == RegStatus
  {
    [Write(RegControl, ControlClear | ControlEnable),
     Write(RegStatus, StatusClkt | StatusErr | StatusDone),
     Write(RegControl, 0)]
  }

  /** Appending one write extends the values of its register by that write's value. */
  lemma ProgrammedSnoc(log: seq<Write>, w: Write, reg: bv32)
    ensures Programmed(log + [w], reg) == Programmed(log, reg) + (if w.reg == reg then [w.val] else [])
  {
    assert (log + [w])[..|log|] == log;
  }

  /**
   * Starting a transfer programs the address register once with `chip`, the
   * length register once with `len`, and no other register but control and status.
   */
  lemma StartPrograms(chip: bv32, len: bv32, flags: bv32, reg: bv32)
    ensures Programmed(StartWrites(chip, len, flags), reg) ==
      if reg == RegControl then [ControlClear | ControlEnable, StartControl(flags)]
      else if reg == RegStatus then [StatusClkt | StatusErr | StatusDone]
      else if reg == RegAddress then [chip]
      else if reg == RegDlen then [len]
      else []
  {
    var ws := StartWrites(chip, len, flags);
    assert ws == [] + [ws[0]] + [ws[1]] + [ws[2]] + [ws[3]] + [ws[4]];
    ProgrammedSnoc([], ws[0], reg);
    ProgrammedSnoc([] + [ws[0]], ws[1], reg);
    ProgrammedSnoc([] + [ws[0]] + [ws[1]], ws[2], reg);
    ProgrammedSnoc([] + [ws[0]] + [ws[1]] + [ws[2]], ws[3], reg);
    ProgrammedSnoc([] + [ws[0]] + [ws[1]] + [ws[2]] + [ws[3]], ws[4], reg);
  }

  /** The cleanup writes program only the control and status registers. */
  lemma CleanupProgramsOnlyControlAndStatus(reg: bv32)
    requires reg != RegControl && reg != RegStatus
    ensures Programmed(CleanupWrites(), reg) == []
  {
    ProgrammedOtherRegisters(CleanupWrites(), reg);
  }

  /** The writes of `bus_i2c_init`: no clock stretch timeout, controller off, then the divider for `speed`. */
  function InitWrites(speed: int): (ws: seq<Write>)
    ensures |ws| == 3 && ws[2] == Write(RegDiv, Divisor(speed))
  {
    [Write(RegClkt, 0), Write(RegControl, 0), Write(RegDiv, Divisor(speed))]
  }

  /** Initialisation programs the divider once and leaves the address and length registers alone. */
  lemma InitPrograms(log: seq<Write>, speed: int)
    ensures var after := log + InitWrites(speed);
      Programmed(after, RegDiv) == Programmed(log, RegDiv) + [Divisor(speed)] &&
      Programmed(after, RegAddress) == Programmed(log, RegAddress) &&
      Programmed(after, RegDlen) == Programmed(log, RegDlen)
  {
    var ws := InitWrites(speed);
    assert log + ws == log + [ws[0]] + [ws[1]] + [ws[2]];
    forall reg | reg in {RegDiv, RegAddress, RegDlen}
      ensures Programmed(log + ws, reg) == Programmed(log, reg) + (if reg == RegDiv then [Divisor(speed)] else [])
    {
      ProgrammedSnoc(log, ws[0], reg);
      ProgrammedSnoc(log + [ws[0]], ws[1], reg);
      ProgrammedSnoc(log + [ws[0]] + [ws[1]], ws[2], reg);
    }
  }

  /**
   * One transfer, from its start to its cleanup, programs the address
   * register with `chip` and the length register with `len`, once each, and
   * leaves the divider alone.
   */
  lemma TransferPrograms(log: seq<Write>, chip: bv32, len: bv32, flags: bv32)
    ensures var after := log + StartWrites(chip, len, flags) + CleanupWrites();
      Programmed(after, RegAddress) == Programmed(log, RegAddress) + [chip] &&
      Programmed(after, RegDlen) == Programmed(log, RegDlen) + [len] &&
      Programmed(after, RegDiv) == Programmed(log, RegDiv)
  {
    var st := StartWrites(chip, len, flags);
    forall reg | reg in {RegAddress, RegDlen, RegDiv}
      ensures Programmed(log + st + CleanupWrites(), reg) ==
        Programmed(log, reg) + (if reg == RegAddress then [chip] else if reg == RegDlen then [len] else [])
    {
      ProgrammedAppend(log + st, CleanupWrites(), reg);
      ProgrammedAppend(log, st, reg);
      StartPrograms(chip, len, flags, reg);
      CleanupProgramsOnlyControlAndStatus(reg);
    }
  }

  /** The state after the FIFO pump has read the status and sent the next byte. */
  function Sent(s: State): (r: State)
    requires s.Valid() && s.remain != 0
    ensures r.Valid() && r.data == s.data && r.flags == s.flags && r.fifoReads == s.fifoReads && r.log == s.log
    ensures r.pos == s.pos + 1 && r.remain == s.remain - 1 && r.statusReads == s.statusReads + 1
    ensures r.sent == s.sent + [s.data[s.pos]]
  {
    s.(pos := s.pos + 1, remain := s.remain - 1, statusReads := s.statusReads + 1, sent := s.sent + [s.data[s.pos]])
  }

  /**
   * `bcm2835_fill_txfifo`: while bytes remain, re-read the status and, if the
   * FIFO can take data, write the next byte.
   */
  function FillSpec(status: nat -> bv32, s: State): (r: State)
    requires s.Valid()
    ensures r.Valid() && r.data == s.data && r.flags == s.flags && r.fifoReads == s.fifoReads && r.log == s.log
    ensures s.pos <= r.pos && r.pos + r.remain == s.pos + s.remain
    ensures r.statusReads == s.statusReads + (r.pos - s.pos) + (if r.remain == 0 then 0 else 1)
    ensures |r.sent| == |s.sent| + (r.pos - s.pos)
    decreases s.remain
  {
    if s.remain == 0 then s
    else if status(s.statusReads) & StatusTxd == 0 then s.(statusReads := s.statusReads + 1)
    else
      FillSpec(status, Sent(s))
  }

  /** The FIFO pump sends the bytes it takes from the buffer, in buffer order. */
  lemma {:induction false} FillSendsInOrder(status: nat -> bv32, s: State)
    requires s.Valid()
    ensures var r := FillSpec(status, s);
      r.sent == s.sent + s.data[s.pos..r.pos]
    decreases s.remain
  {
    if s.remain != 0 && status(s.statusReads) & StatusTxd != 0 {
      var d, p := s.data, s.pos;
      var next := Sent(s);
      assert FillSpec(status, s) == FillSpec(status, next);
      FillSendsInOrder(status, next);
      var r := FillSpec(status, next);
      assert d[p..r.pos] == [d[p]] + d[p + 1..r.pos];
      assert r.sent == (s.sent + [d[p]]) + d[p + 1..r.pos];
    } else {
      assert FillSpec(status, s).pos == s.pos;
    }
  }

  /**
   * Each byte the FIFO pump sends follows a fresh status read with TXD set,
   * and it stops early only on a fresh read with TXD clear.
   */
  lemma {:induction false} FillRereadsTxd(status: nat -> bv32, s: State)
    requires s.Valid()
    ensures var r := FillSpec(status, s);
      forall k :: s.statusReads <= k < s.statusReads + (r.pos - s.pos) ==> status(k) & StatusTxd != 0
    ensures var r := FillSpec(status, s);
      r.remain != 0 ==> status(r.statusReads - 1) & StatusTxd == 0
    decreases s.remain
  {
    if s.remain != 0 && status(s.statusReads) & StatusTxd != 0 {
      FillRereadsTxd(status, Sent(s));
    }
  }

  /** The state after the drain has read the status and stored one FIFO read. */
  function Received(fifo: nat -> bv32, s: State): (r: State)
    requires s.Valid() && s.remain != 0
    ensures r.Valid() && |r.data| == |s.data| && r.flags == s.flags && r.sent == s.sent && r.log == s.log
    ensures r.pos == s.pos + 1 && r.remain == s.remain - 1 && r.statusReads == s.statusReads + 1
    ensures r.fifoReads == s.fifoReads + 1
    ensures r.data == s.data[s.pos := LowByte(fifo(s.fifoReads))]
  {
    s.(data := s.data[s.pos := LowByte(fifo(s.fifoReads))], pos := s.pos + 1, remain := s.remain - 1,
       statusReads := s.statusReads + 1, fifoReads := s.fifoReads + 1)
  }

  /**
   * `bcm2835_drain_rxfifo`: while bytes remain, re-read the status and, if the
   * FIFO holds data, store the low byte of a FIFO read at the next position.
   */
  function DrainSpec(status: nat -> bv32, fifo: nat -> bv32, s: State): (r: State)
    requires s.Valid()
    ensures r.Valid() && |r.data| == |s.data| && r.flags == s.flags && r.sent == s.sent && r.log == s.log
    ensures s.pos <= r.pos && r.pos + r.remain == s.pos + s.remain
    ensures r.fifoReads == s.fifoReads + (r.pos - s.pos)
    ensures r.statusReads == s.statusReads + (r.pos - s.pos) + (if r.remain == 0 then 0 else 1)
    decreases s.remain
  {
    if s.remain == 0 then s
    else if status(s.statusReads) & StatusRxd == 0 then s.(statusReads := s.statusReads + 1)
    else
      DrainSpec(status, fifo, Received(fifo, s))
  }

  /** `b` follows `a` by storing successive FIFO reads from position `a.pos` on, and sending nothing. */
  ghost predicate StoredFrom(fifo: nat -> bv32, a: State, b: State)
  {
    b.sent == a.sent && a.pos <= b.pos <= |a.data| && b.fifoReads == a.fifoReads + (b.pos - a.pos) &&
    b.data == a.data[..a.pos] + FifoBytes(fifo, a.fifoReads, b.pos - a.pos) + a.data[b.pos..]
  }

  lemma StoredFromTransitive(fifo: nat -> bv32, a: State, b: State, c: State)
    requires StoredFrom(fifo, a, b) && StoredFrom(fifo, b, c)
    ensures StoredFrom(fifo, a, c)
  {
    var m, n := b.pos - a.pos, c.pos - b.pos;
    SpliceTwice(a.data, b.data, c.data, a.pos, b.pos, c.pos,
                FifoBytes(fifo, a.fifoReads, m), FifoBytes(fifo, b.fifoReads, n));
    FifoBytesSplit(fifo, a.fifoReads, m, n);
  }

  /** Replacing d0[p0..p1] by y and then d1[p1..p2] by z replaces d0[p0..p2] by y + z. */
  lemma SpliceTwice<T>(d0: seq<T>, d1: seq<T>, d2: seq<T>, p0: nat, p1: nat, p2: nat, y: seq<T>, z: seq<T>)
    requires p0 <= p1 <= p2 <= |d0| && |y| == p1 - p0 && |z| == p2 - p1
    requires d1 == d0[..p0] + y + d0[p1..] && d2 == d1[..p1] + z + d1[p2..]
    ensures d2 == d0[..p0] + (y + z) + d0[p2..]
  {
    assert d1[..p1] == d0[..p0] + y;
    assert d1[p2..] == d0[p2..];
  }

  /** The FIFO reads from `from` on, split after m of them. */
  lemma FifoBytesSplit(fifo: nat -> bv32, from: nat, m: nat, n: nat)
    ensures FifoBytes(fifo, from, m + n) == FifoBytes(fifo, from, m) + FifoBytes(fifo, from + m, n)
  {
  }

  /**
   * The FIFO drain stores successive FIFO reads at successive buffer
   * positions from `pos` on, and leaves the rest of the buffer alone.
   */
  lemma {:induction false} DrainStoresInOrder(status: nat -> bv32, fifo: nat -> bv32, s: State)
    requires s.Valid()
    ensures StoredFrom(fifo, s, DrainSpec(status, fifo, s))
    decreases s.remain
  {
    if s.remain != 0 && status(s.statusReads) & StatusRxd != 0 {
      var next := Received(fifo, s);
      assert DrainSpec(status, fifo, s) == DrainSpec(status, fifo, next);
      ReceivedStores(fifo, s);
      DrainStoresInOrder(status, fifo, next);
      StoredFromTransitive(fifo, s, next, DrainSpec(status, fifo, next));
    } else {
      assert DrainSpec(status, fifo, s).pos == s.pos;
      assert s.data == s.data[..s.pos] + [] + s.data[s.pos..];
    }
  }

  lemma ReceivedStores(fifo: nat -> bv32, s: State)
    requires s.Valid() && s.remain != 0
    ensures StoredFrom(fifo, s, Received(fifo, s))
  {
    var r := Received(fifo, s);
    assert FifoBytes(fifo, s.fifoReads, 1) == [LowByte(fifo(s.fifoReads))];
    assert r.data == s.data[..s.pos] + [LowByte(fifo(s.fifoReads))] + s.data[s.pos + 1..];
  }

  /**
   * Each byte the drain stores follows a fresh status read with RXD set,
   * and it stops early only on a fresh read with RXD clear.
   */
  lemma {:induction false} DrainRereadsRxd(status: nat -> bv32, fifo: nat -> bv32, s: State)
    requires s.Valid()
    ensures var r := DrainSpec(status, fifo, s);
      forall k :: s.statusReads <= k < s.statusReads + (r.pos - s.pos) ==> status(k) & StatusRxd != 0
    ensures var r := DrainSpec(status, fifo, s);
      r.remain != 0 ==> status(r.statusReads - 1) & StatusRxd == 0
    decreases s.remain
  {
    if s.remain != 0 && status(s.statusReads) & StatusRxd != 0 {
      DrainRereadsRxd(status, fifo, Received(fifo, s));
    }
  }

  /** The status word the poll loop leaves on at once: a clock stretch timeout, or an error once the bus is idle. */
  predicate Fault(v: bv32)
  {
    v & StatusClkt != 0 || (v & StatusErr != 0 && v & StatusTa == 0)
  }

  /** What the poll loop does on DONE: drain a read message once more, then check for leftovers. */
  function Completion(status: nat -> bv32, fifo: nat -> bv32, s1: State, v: bv32): (r: Poll)
    requires s1.Valid()
    ensures r.Stop? && r.exit == Done && (r.err == 0 || r.err == StatusLen)
    ensures r.s.Valid() && |r.s.data| == |s1.data| && r.s.flags == s1.flags && r.s.sent == s1.sent && r.s.log == s1.log
    ensures s1.pos <= r.s.pos && r.s.pos + r.s.remain == s1.pos + s1.remain
    ensures s1.statusReads <= r.s.statusReads
    ensures s1.flags & MsgRead != 0 ==> s1.statusReads < r.s.statusReads
    ensures s1.flags & MsgRead == 0 ==> r.s == s1
    ensures r.err == 0 <==> (r.s.remain == 0 &&
      (if s1.flags & MsgRead != 0 then status(r.s.statusReads - 1) else v) & StatusRxd == 0)
  {
    if s1.flags & MsgRead != 0 then
      var s2 := DrainSpec(status, fifo, s1);
      var v2 := status(s2.statusReads);
      var s3 := s2.(statusReads := s2.statusReads + 1);
      Stop(s3, if v2 & StatusRxd != 0 || s3.remain != 0 then StatusLen else 0, Done)
    else
      Stop(s1, if v & StatusRxd != 0 || s1.remain != 0 then StatusLen else 0, Done)
  }

  /** One pass of the poll loop of `bcm2835_i2c_transfer`, without the clock check. */
  function Iteration(status: nat -> bv32, fifo: nat -> bv32, s: State): (r: Poll)
    requires s.Valid()
    ensures r.s.Valid() && |r.s.data| == |s.data| && r.s.flags == s.flags && r.s.log == s.log
    ensures s.pos <= r.s.pos && r.s.pos + r.s.remain == s.pos + s.remain
    ensures s.statusReads < r.s.statusReads
    ensures r.Stop? ==> r.exit != TimedOut
  {
    var v := status(s.statusReads);
    var s1 := s.(statusReads := s.statusReads + 1);
    var err := v & (StatusClkt | StatusErr);
    if err != 0 && (err & StatusClkt != 0 || v & StatusTa == 0) then
      Stop(s1, err, HardwareError)
    else if v & StatusDone != 0 then
      Completion(status, fifo, s1, v)
    else if v & StatusTxw != 0 then
      if s.remain == 0 then Stop(s1, v | StatusLen, Overrun)
      else Go(FillSpec(status, s1), err)
    else if v & StatusRxr != 0 then
      if s.remain == 0 then Stop(s1, v | StatusLen, Overrun)
      else Go(DrainSpec(status, fifo, s1), err)
    else
      Go(s1, err)
  }

  /** The poll loop leaves at once on a clock stretch timeout, or on an error once the bus is idle, with err the two error bits. */
  lemma FaultStopsPolling(status: nat -> bv32, fifo: nat -> bv32, s: State)
    requires s.Valid()
    ensures var v := status(s.statusReads);
      var r := Iteration(status, fifo, s);
      (r.Stop? && r.exit == HardwareError <==> Fault(v)) &&
      (Fault(v) ==> r.err == v & (StatusClkt | StatusErr) && r.err != 0 &&
                    r.s == s.(statusReads := s.statusReads + 1))
  {
  }

  /**
   * Without a fault, DONE ends the pass before TXW or RXR are looked at; the
   * result is 0 when every byte was moved and no data is left in the FIFO,
   * and the length error bit otherwise.
   */
  lemma DoneCompletes(status: nat -> bv32, fifo: nat -> bv32, s: State)
    requires s.Valid()
    ensures var v := status(s.statusReads);
      var r := Iteration(status, fifo, s);
      (r.Stop? && r.exit == Done <==> !Fault(v) && v & StatusDone != 0)
    ensures var v := status(s.statusReads);
      var r := Iteration(status, fifo, s);
      r.Stop? && r.exit == Done ==>
        (r.err == 0 || r.err == StatusLen) &&
        (r.err == 0 <==> r.s.remain == 0 && status(r.s.statusReads - 1) & StatusRxd == 0)
  {
  }

  /**
   * Without a fault or DONE, a FIFO request (TXW, else RXR) with nothing
   * left to move ends the pass with the whole status word plus the length bit.
   */
  lemma RequestWithNothingLeftOverruns(status: nat -> bv32, fifo: nat -> bv32, s: State)
    requires s.Valid()
    ensures var v := status(s.statusReads);
      var r := Iteration(status, fifo, s);
      (r.Stop? && r.exit == Overrun <==>
        !Fault(v) && v & StatusDone == 0 && v & (StatusTxw | StatusRxr) != 0 && s.remain == 0)
    ensures var v := status(s.statusReads);
      var r := Iteration(status, fifo, s);
      r.Stop? && r.exit == Overrun ==>
        r.err == v | StatusLen && r.err & StatusLen != 0 && r.s == s.(statusReads := s.statusReads + 1)
  {
  }

  /**
   * A pass that does not leave the loop keeps err as the error bits of its
   * first status word: 0, or ERR alone while the bus is still active. TXW
   * is served before RXR.
   */
  lemma PollingContinues(status: nat -> bv32, fifo: nat -> bv32, s: State)
    requires s.Valid()
    ensures var v := status(s.statusReads);
      var r := Iteration(status, fifo, s);
      r.Go? ==> r.err == v & (StatusClkt | StatusErr) &&
                (r.err == 0 || (r.err == StatusErr && v & StatusTa != 0))
    ensures var v := status(s.statusReads);
      var s1 := s.(statusReads := s.statusReads + 1);
      var r := Iteration(status, fifo, s);
      r.Go? ==> r.s == (if v & StatusTxw != 0 then FillSpec(status, s1)
                        else if v & StatusRxr != 0 then DrainSpec(status, fifo, s1)
                        else s1)
  {
  }

  /**
   * The poll loop of `bcm2835_i2c_transfer`. The clock is a budget: after
   * each pass that does not leave the loop, the 100 ms deadline has passed
   * once `ticks` further passes have been spent, and the loop then leaves
   * with the `err` of the last pass.
   */
  function PollSpec(status: nat -> bv32, fifo: nat -> bv32, s: State, ticks: nat): (r: Outcome)
    requires s.Valid()
    ensures r.s.Valid() && |r.s.data| == |s.data| && r.s.flags == s.flags && r.s.log == s.log
    ensures s.pos <= r.s.pos && r.s.pos + r.s.remain == s.pos + s.remain
    ensures s.statusReads < r.s.statusReads
    decreases ticks
  {
    match Iteration(status, fifo, s)
    case Stop(s1, err, exit) => Outcome(s1, err, exit)
    case Go(s1, err) =>
      if ticks == 0 then Outcome(s1, err, TimedOut)
      else PollSpec(status, fifo, s1, ticks - 1)
  }

  /**
   * What the driver's result means: an error code is non-zero, a timeout
   * reports 0 unless the last pass saw ERR on an active bus, and 0 after
   * DONE means every byte of the message was moved.
   */
  predicate Classified(r: Outcome)
  {
    && (r.exit == TimedOut ==> r.err == 0 || r.err == StatusErr)
    && (r.exit == HardwareError ==> r.err != 0 && r.err & (StatusClkt | StatusErr) == r.err)
    && (r.exit == Done ==> r.err == 0 || r.err == StatusLen)
    && (r.exit == Overrun ==> r.s.remain == 0 && r.err & StatusLen != 0)
    && (r.err == 0 ==> r.exit == TimedOut || (r.exit == Done && r.s.remain == 0))
  }

  /** A single pass that leaves the loop, or that is the last before the deadline, ends classified. */
  lemma IterationClassified(status: nat -> bv32, fifo: nat -> bv32, s: State)
    requires s.Valid()
    ensures var it := Iteration(status, fifo, s);
      Classified(if it.Stop? then Outcome(it.s, it.err, it.exit) else Outcome(it.s, it.err, TimedOut))
  {
    PollingContinues(status, fifo, s);
    FaultStopsPolling(status, fifo, s);
    DoneCompletes(status, fifo, s);
    RequestWithNothingLeftOverruns(status, fifo, s);
  }

  lemma {:induction false} PollResult(status: nat -> bv32, fifo: nat -> bv32, s: State, ticks: nat)
    requires s.Valid()
    ensures Classified(PollSpec(status, fifo, s, ticks))
    decreases ticks
  {
    var it := Iteration(status, fifo, s);
    IterationClassified(status, fifo, s);
    if it.Go? && ticks > 0 {
      PollResult(status, fifo, it.s, ticks - 1);
    }
  }

  /**
   * A bus that never raises DONE, ERR, CLKT, TXW or RXR runs the poll loop
   * to the deadline, and the driver then reports 0: a timeout is not an error.
   */
  lemma {:induction false} QuietBusTimesOutWithoutError(status: nat -> bv32, fifo: nat -> bv32, s: State, ticks: nat)
    requires s.Valid()
    requires forall k :: s.statusReads <= k ==>
      status(k) & (StatusDone | StatusErr | StatusClkt | StatusTxw | StatusRxr) == 0
    ensures PollSpec(status, fifo, s, ticks) ==
      Outcome(s.(statusReads := s.statusReads + ticks + 1), 0, TimedOut)
    decreases ticks
  {
    var v := status(s.statusReads);
    assert v & (StatusDone | StatusErr | StatusClkt | StatusTxw | StatusRxr) == 0;
    assert v & StatusDone == 0 && v & StatusTxw == 0 && v & StatusRxr == 0;
    assert v & (StatusClkt | StatusErr) == 0;
    assert Iteration(status, fifo, s) == Go(s.(statusReads := s.statusReads + 1), 0);
    if ticks > 0 {
      QuietBusTimesOutWithoutError(status, fifo, s.(statusReads := s.statusReads + 1), ticks - 1);
    }
  }

  /**
   * A zero-length write, as `i2c_bcm2835_probe_chip` issues, never touches
   * the FIFO or the buffer: the poll loop only reads the status register.
   */
  lemma {:induction false} ZeroLengthWriteMovesNothing(status: nat -> bv32, fifo: nat -> bv32, s: State, ticks: nat)
    requires s.Valid() && s.remain == 0 && s.flags & MsgRead == 0
    ensures var r := PollSpec(status, fifo, s, ticks);
      r.s == s.(statusReads := r.s.statusReads)
    decreases ticks
  {
    var it := Iteration(status, fifo, s);
    if it.Go? && ticks > 0 {
      ZeroLengthWriteMovesNothing(status, fifo, it.s, ticks - 1);
    }
  }

  /** `b` follows `a` by sending buffer bytes, in order, and storing nothing. */
  ghost predicate SentFrom(a: State, b: State)
  {
    b.data == a.data && b.fifoReads == a.fifoReads && a.pos <= b.pos <= |a.data| &&
    b.sent == a.sent + a.data[a.pos..b.pos]
  }

  lemma SentFromTransitive(a: State, b: State, c: State)
    requires SentFrom(a, b) && SentFrom(b, c)
    ensures SentFrom(a, c)
  {
    assert a.data[a.pos..c.pos] == a.data[a.pos..b.pos] + a.data[b.pos..c.pos];
  }

  /** One pass over a write message on a bus that does not ask for reading sends buffer bytes in order. */
  lemma IterationWriteSends(status: nat -> bv32, fifo: nat -> bv32, s: State)
    requires s.Valid() && s.flags & MsgRead == 0
    requires status(s.statusReads) & StatusRxr == 0
    ensures SentFrom(s, Iteration(status, fifo, s).s)
  {
    var v := status(s.statusReads);
    var s1 := s.(statusReads := s.statusReads + 1);
    if !Fault(v) && v & StatusDone == 0 && v & StatusTxw != 0 && s.remain != 0 {
      FillSendsInOrder(status, s1);
    } else {
      assert s.data[s.pos..Iteration(status, fifo, s).s.pos] == [];
    }
  }

  /**
   * A write message on a bus that never asks for reading sends the bytes of
   * its buffer to the FIFO in buffer order; when it completes with 0, every
   * remaining byte has been sent.
   */
  lemma {:induction false} WriteSendsBufferInOrder(status: nat -> bv32, fifo: nat -> bv32, s: State, ticks: nat)
    requires s.Valid() && s.flags & MsgRead == 0
    requires forall k :: s.statusReads <= k ==> status(k) & StatusRxr == 0
    ensures var r := PollSpec(status, fifo, s, ticks);
      r.s.data == s.data && r.s.fifoReads == s.fifoReads &&
      r.s.sent == s.sent + s.data[s.pos..r.s.pos]
    ensures var r := PollSpec(status, fifo, s, ticks);
      r.err == 0 && r.exit == Done ==> r.s.sent == s.sent + s.data[s.pos..s.pos + s.remain]
    decreases ticks
  {
    SendsAlong(status, fifo, s, ticks);
    PollResult(status, fifo, s, ticks);
  }

  lemma {:induction false} SendsAlong(status: nat -> bv32, fifo: nat -> bv32, s: State, ticks: nat)
    requires s.Valid() && s.flags & MsgRead == 0
    requires forall k :: s.statusReads <= k ==> status(k) & StatusRxr == 0
    ensures SentFrom(s, PollSpec(status, fifo, s, ticks).s)
    decreases ticks
  {
    var it := Iteration(status, fifo, s);
    IterationWriteSends(status, fifo, s);
    if it.Go? && ticks > 0 {
      SendsAlong(status, fifo, it.s, ticks - 1);
      SentFromTransitive(s, it.s, PollSpec(status, fifo, it.s, ticks - 1).s);
    }
  }

  /** One pass over a read message on a bus that does not ask for data stores FIFO bytes in order. */
  lemma IterationReadStores(status: nat -> bv32, fifo: nat -> bv32, s: State)
    requires s.Valid() && s.flags & MsgRead != 0
    requires status(s.statusReads) & StatusTxw == 0
    ensures StoredFrom(fifo, s, Iteration(status, fifo, s).s)
  {
    var v := status(s.statusReads);
    var s1 := s.(statusReads := s.statusReads + 1);
    if !Fault(v) && (v & StatusDone != 0 || v & StatusRxr != 0) {
      DrainStoresInOrder(status, fifo, s1);
    } else {
      assert s.data == s.data[..s.pos] + [] + s.data[s.pos..];
    }
  }

  /**
   * A read message on a bus that never asks for data stores the low bytes of
   * successive FIFO reads into its buffer from the current position on, and
   * sends nothing.
   */
  lemma {:induction false} ReadFillsBufferInOrder(status: nat -> bv32, fifo: nat -> bv32, s: State, ticks: nat)
    requires s.Valid() && s.flags & MsgRead != 0
    requires forall k :: s.statusReads <= k ==> status(k) & StatusTxw == 0
    ensures var r := PollSpec(status, fifo, s, ticks);
      r.s.sent == s.sent && r.s.fifoReads == s.fifoReads + (r.s.pos - s.pos) &&
      r.s.data == s.data[..s.pos] + FifoBytes(fifo, s.fifoReads, r.s.pos - s.pos) + s.data[r.s.pos..]
  {
    StoresAlong(status, fifo, s, ticks);
  }

  lemma {:induction false} StoresAlong(status: nat -> bv32, fifo: nat -> bv32, s: State, ticks: nat)
    requires s.Valid() && s.flags & MsgRead != 0
    requires forall k :: s.statusReads <= k ==> status(k) & StatusTxw == 0
    ensures StoredFrom(fifo, s, PollSpec(status, fifo, s, ticks).s)
    decreases ticks
  {
    var it := Iteration(status, fifo, s);
    IterationReadStores(status, fifo, s);
    if it.Go? && ticks > 0 {
      StoresAlong(status, fifo, it.s, ticks - 1);
      StoredFromTransitive(fifo, s, it.s, PollSpec(status, fifo, it.s, ticks - 1).s);
    }
  }
}
