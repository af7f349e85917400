/**
 * The polled BCM2835 I2C driver of drivers/i2c/i2c-bcm2835.c as a class:
 * the per-bus private data (`struct bcm2835_i2c_bus`) whose buffer pointer,
 * remaining count and flags the driver updates in place, over a controller
 * whose status and FIFO registers return successive values of two streams.
 *
 * The register accessors state the one read or write they make. The FIFO
 * pump, poll and register-programming methods are proved to leave the state
 * the matching function of Bcm2835Spec gives, where the properties of the
 * pump and the poll loop are proved. RunMessage and ProbeChip are stated
 * through PollSpec, and Xfer over the results RunMessage records.
 */
module Bcm2835Driver {
  import opened Bcm2835Spec

  /**
   * A message of `i2c_bcm2835_xfer` (U-Boot's `struct i2c_msg`): chip
   * address, flags, length, and the buffer the driver moves bytes through.
   */
  datatype Msg = Msg(addr: bv32, flags: bv32, len: bv32, buf: array<bv8>)

  /** The chip addresses of `msgs`, in order. */
  function Addresses(msgs: seq<Msg>): seq<bv32>
  {
    seq(|msgs|, i requires 0 <= i < |msgs| => msgs[i].addr)
  }

  /** The message lengths of `msgs`, in order. */
  function Lengths(msgs: seq<Msg>): seq<bv32>
  {
    seq(|msgs|, i requires 0 <= i < |msgs| => msgs[i].len)
  }

  lemma PrefixSnoc(msgs: seq<Msg>, k: nat)
    requires k < |msgs|
    ensures Addresses(msgs[..k + 1]) == Addresses(msgs[..k]) + [msgs[k].addr]
    ensures Lengths(msgs[..k + 1]) == Lengths(msgs[..k]) + [msgs[k].len]
  {
    assert msgs[..k + 1][..k] == msgs[..k];
  }

  /** A history that grew by xs and then by x grew by xs + [x]. */
  lemma Extend<T>(h0: seq<T>, h1: seq<T>, h2: seq<T>, xs: seq<T>, x: T)
    requires h1 == h0 + xs && h2 == h1 + [x]
    ensures h2 == h0 + (xs + [x])
  {
  }

  class Bus {
    /** The n-th read of the status register returns status(n). */
    const status: nat -> bv32
    /** The n-th read of the FIFO register returns fifo(n). */
    const fifo: nat -> bv32

    // The message in flight: `buf[pos]` is what the driver's `buf` pointer points at.
    var buf: array<bv8>
    var pos: nat
    var remain: nat
    var flags: bv32

    var statusReads: nat
    var fifoReads: nat
    /** The bytes written to the FIFO register, in order. */
    ghost var sent: seq<bv8>
    /** The writes to every other register, in order. */
    ghost var log: seq<Write>
    /** What each message run by `RunMessage` on this bus returned, in order. */
    ghost var results: seq<bv32>

    ghost predicate Valid()
      reads this
    {
      pos + remain <= buf.Length
    }

    /** The driver state as a value of the specification. */
    ghost function Abs(): State
      reads this, buf
    {
      State(buf[..], pos, remain, flags, statusReads, fifoReads, sent, log)
    }

    constructor (status: nat -> bv32, fifo: nat -> bv32)
      ensures Valid() && fresh(buf) && this.status == status && this.fifo == fifo
      ensures remain == 0 && statusReads == 0 && fifoReads == 0 && sent == [] && log == [] && results == []
    {
      this.status := status;
      this.fifo := fifo;
      buf := new bv8[0];
      pos, remain, flags := 0, 0, 0;
      statusReads, fifoReads := 0, 0;
      sent, log, results := [], [], [];
    }

    /** `bcm2835_i2c_readl` of the status register. */
    method ReadStatus() returns (v: bv32)
      modifies this
      ensures results == old(results)
      ensures v == status(old(statusReads))
      ensures buf == old(buf) && Abs() == old(Abs()).(statusReads := old(statusReads) + 1)
    {
      v := status(statusReads);
      statusReads := statusReads + 1;
    }

    /** `bcm2835_i2c_readl` of the FIFO register. */
    method ReadFifo() returns (v: bv32)
      modifies this
      ensures results == old(results)
      ensures v == fifo(old(fifoReads))
      ensures buf == old(buf) && Abs() == old(Abs()).(fifoReads := old(fifoReads) + 1)
    {
      v := fifo(fifoReads);
      fifoReads := fifoReads + 1;
    }

    /** `bcm2835_i2c_writel` of a register other than the FIFO. */
    method WriteReg(reg: bv32, val: bv32)
      modifies this
      ensures results == old(results)
      ensures buf == old(buf) && Abs() == old(Abs()).(log := old(log) + [Write(reg, val)])
    {
      log := log + [Write(reg, val)];
    }

    /** `bcm2835_fill_txfifo`. */
    method FillTxFifo()
      requires Valid()
      modifies this
      ensures results == old(results)
      ensures Valid() && buf == old(buf) && Abs() == FillSpec(status, old(Abs()))
    {
      while remain != 0
        invariant Valid() && buf == old(buf) && results == old(results)
        invariant FillSpec(status, Abs()) == FillSpec(status, old(Abs()))
        decreases remain
      {
        ghost var pre := Abs();
        var v := ReadStatus();
        if v & StatusTxd == 0 {
          return;
        }
        sent := sent + [buf[pos]];
        pos, remain := pos + 1, remain - 1;
        assert Abs() == Sent(pre);
      }
    }

    /** `bcm2835_drain_rxfifo`. */
    method DrainRxFifo()
      requires Valid()
      modifies this, buf
      ensures results == old(results)
      ensures Valid() && buf == old(buf) && Abs() == DrainSpec(status, fifo, old(Abs()))
    {
      while remain != 0
        invariant Valid() && buf == old(buf) && results == old(results)
        invariant DrainSpec(status, fifo, Abs()) == DrainSpec(status, fifo, old(Abs()))
        decreases remain
      {
        ghost var pre := Abs();
        var v := ReadStatus();
        if v & StatusRxd == 0 {
          return;
        }
        var w := ReadFifo();
        buf[pos] := LowByte(w);
        pos, remain := pos + 1, remain - 1;
        assert Abs() == Received(fifo, pre);
      }
    }

    /** `bcm2835_i2c_start_transfer`: program a transfer of `len` bytes to or from `chip`. */
    method StartTransfer(chip: bv32, len: bv32, msgFlags: bv32)
      modifies this
      ensures results == old(results)
      ensures buf == old(buf) && Abs() == old(Abs()).(flags := msgFlags, log := old(log) + StartWrites(chip, len, msgFlags))
    {
      var c := StartControl(msgFlags);
      WriteReg(RegControl, ControlClear | ControlEnable);
      WriteReg(RegStatus, StatusClkt | StatusErr | StatusDone);
      WriteReg(RegAddress, chip);
      WriteReg(RegDlen, len);
      WriteReg(RegControl, c);
      flags := msgFlags;
    }

    /** One pass of the poll loop of `bcm2835_i2c_transfer`. */
    method PollOnce() returns (stop: bool, err: bv32)
      requires Valid()
      modifies this, buf
      ensures results == old(results)
      ensures Valid() && buf == old(buf)
      ensures var it := Iteration(status, fifo, old(Abs()));
        Abs() == it.s && err == it.err && stop == it.Stop?
    {
      var v := ReadStatus();
      err := v & (StatusClkt | StatusErr);
      if err != 0 && (err & StatusClkt != 0 || v & StatusTa == 0) {
        return true, err;
      }
      if v & StatusDone != 0 {
        if flags & MsgRead != 0 {
          DrainRxFifo();
          v := ReadStatus();
        }
        err := if v & StatusRxd != 0 || remain != 0 then StatusLen else 0;
        return true, err;
      }
      if v & StatusTxw != 0 {
        if remain == 0 {
          return true, v | StatusLen;
        }
        FillTxFifo();
      } else if v & StatusRxr != 0 {
        if remain == 0 {
          return true, v | StatusLen;
        }
        DrainRxFifo();
      }
      stop := false;
    }

    /**
     * `bcm2835_i2c_transfer`: poll until the transfer ends or `ticks` further
     * passes have run, then clear and disable the controller and return err.
     */
    method Transfer(ticks: nat) returns (err: bv32)
      requires Valid()
      modifies this, buf
      ensures results == old(results)
      ensures Valid() && buf == old(buf)
      ensures var o := PollSpec(status, fifo, old(Abs()), ticks);
        err == o.err && Abs() == o.s.(log := o.s.log + CleanupWrites())
    {
      ghost var goal := PollSpec(status, fifo, Abs(), ticks);
      var left := ticks;
      while true
        invariant Valid() && buf == old(buf) && results == old(results)
        invariant PollSpec(status, fifo, Abs(), left) == goal
        decreases left
      {
        ghost var pre := Abs();
        var stop;
        stop, err := PollOnce();
        if stop || left == 0 {
          assert goal == PollSpec(status, fifo, pre, left);
          break;
        }
        left := left - 1;
      }
      Complete();
    }

    /** The cleanup at label `complete` of `bcm2835_i2c_transfer`: clear, acknowledge the flags, disable. */
    method Complete()
      modifies this
      ensures results == old(results)
      ensures buf == old(buf) && Abs() == old(Abs()).(log := old(log) + CleanupWrites())
    {
      WriteReg(RegControl, ControlClear | ControlEnable);
      WriteReg(RegStatus, StatusClkt | StatusErr | StatusDone);
      WriteReg(RegControl, 0);
    }

    /** `bus_i2c_set_bus_speed`: program the clock divider for `speed`. */
    method SetBusSpeed(speed: int) returns (ret: int)
      modifies this
      ensures results == old(results)
      ensures ret == 0
      ensures buf == old(buf) && Abs() == old(Abs()).(log := old(log) + [Write(RegDiv, Divisor(speed))])
    {
      WriteReg(RegDiv, Divisor(speed));
      ret := 0;
    }

    /** `bus_i2c_init`: disable the clock stretch timeout, disable the controller, set the speed. */
    method Init(speed: int) returns (ret: int)
      modifies this
      ensures results == old(results)
      ensures ret == 0
      ensures buf == old(buf) && Abs() == old(Abs()).(log := old(log) + InitWrites(speed))
    {
      WriteReg(RegClkt, 0);
      WriteReg(RegControl, 0);
      ret := SetBusSpeed(speed);
    }

    /**
     * `i2c_bcm2835_probe_chip`: a zero-length write to `chip`, then a
     * re-initialisation at the standard rate. The result is that of the
     * transfer; nothing is sent or received.
     */
    method ProbeChip(chip: bv32, ticks: nat) returns (result: bv32)
      modifies this
      ensures results == old(results)
      ensures Valid()
      ensures var start := State([0, 0, 0, 0], 0, 0, 0, old(statusReads), old(fifoReads), old(sent),
                                 old(log) + StartWrites(chip, 0, 0));
        var o := PollSpec(status, fifo, start, ticks);
        result == o.err && statusReads == o.s.statusReads
      ensures log == old(log) + StartWrites(chip, 0, 0) + CleanupWrites() + InitWrites(StandardRate)
      ensures sent == old(sent) && fifoReads == old(fifoReads)
      ensures Programmed(log, RegAddress) == Programmed(old(log), RegAddress) + [chip]
      ensures Programmed(log, RegDlen) == Programmed(old(log), RegDlen) + [0]
      ensures Programmed(log, RegDiv) == Programmed(old(log), RegDiv) + [DivStandard]
    {
      ghost var log0 := log;
      StartTransfer(chip, 0, 0);
      remain := 0;
      buf := new bv8[4](_ => 0);
      pos := 0;
      ghost var start := Abs();
      assert start.data == [0, 0, 0, 0];
      ZeroLengthWriteMovesNothing(status, fifo, start, ticks);
      result := Transfer(ticks);
      assert log == log0 + StartWrites(chip, 0, 0) + CleanupWrites();
      TransferPrograms(log0, chip, 0, 0);
      ghost var log1 := log;
      var ignored := Init(StandardRate);
      InitPrograms(log1, StandardRate);
    }

    /** The start of one round of `i2c_bcm2835_xfer`: start message `m` and point the driver at its buffer. */
    method Load(m: Msg)
      requires m.buf.Length == m.len as int
      modifies this
      ensures results == old(results)
      ensures Valid() && buf == m.buf
      ensures Abs() == State(m.buf[..], 0, m.buf.Length, m.flags, old(statusReads), old(fifoReads),
                             old(sent), old(log) + StartWrites(m.addr, m.len, m.flags))
    {
      StartTransfer(m.addr, m.len, m.flags);
      ghost var started := Abs();
      assert started.flags == m.flags && started.sent == old(sent) && started.log == old(log) + StartWrites(m.addr, m.len, m.flags);
      assert started.statusReads == old(statusReads) && started.fifoReads == old(fifoReads);
      remain := m.len as int;
      buf := m.buf;
      pos := 0;
      assert Abs() == started.(data := m.buf[..], pos := 0, remain := m.buf.Length);
    }

    /**
     * One round of the loop of `i2c_bcm2835_xfer`: start message `m`, point
     * the driver at its buffer, and run the transfer with `ticks` passes of
     * budget.
     */
    method RunMessage(m: Msg, ticks: nat) returns (ret: bv32)
      requires m.buf.Length == m.len as int
      modifies this, m.buf
      ensures Valid() && buf == m.buf
      ensures var start := State(old(m.buf[..]), 0, m.buf.Length, m.flags, old(statusReads), old(fifoReads),
                                 old(sent), old(log) + StartWrites(m.addr, m.len, m.flags));
        var o := PollSpec(status, fifo, start, ticks);
        ret == o.err && Abs() == o.s.(log := o.s.log + CleanupWrites())
      ensures results == old(results) + [ret]
      ensures Programmed(log, RegAddress) == Programmed(old(log), RegAddress) + [m.addr]
      ensures Programmed(log, RegDlen) == Programmed(old(log), RegDlen) + [m.len]
      ensures Programmed(log, RegDiv) == Programmed(old(log), RegDiv)
    {
      ghost var log0, results0 := log, results;
      Load(m);
      ret := Transfer(ticks);
      TransferPrograms(log0, m.addr, m.len, m.flags);
      ghost var after := Abs();
      results := results0 + [ret];
      assert Abs() == after;
    }

    /**
     * `i2c_bcm2835_xfer`: run the messages in order, each with its own
     * poll budget, and stop at the first that reports an error, returning
     * it. `done` is the number of messages started; `results` grows by what
     * each of them returned.
     */
    method Xfer(msgs: seq<Msg>, budgets: seq<nat>) returns (ret: bv32, done: nat)
      requires |budgets| == |msgs|
      requires forall i :: 0 <= i < |msgs| ==> msgs[i].buf.Length == msgs[i].len as int
      modifies this, set i | 0 <= i < |msgs| :: msgs[i].buf
      ensures old(Valid()) || 0 < done ==> Valid()
      ensures done <= |msgs| && (done < |msgs| ==> ret != 0) && (ret != 0 ==> 0 < done)
      ensures Programmed(log, RegAddress) == Programmed(old(log), RegAddress) + Addresses(msgs[..done])
      ensures Programmed(log, RegDlen) == Programmed(old(log), RegDlen) + Lengths(msgs[..done])
      ensures |results| == |old(results)| + done && results[..|old(results)|] == old(results)
      ensures forall i :: |old(results)| <= i < |results| - 1 ==> results[i] == 0
      ensures 0 < done ==> ret == results[|results| - 1]
      ensures ret == 0 <==> done == |msgs| && forall i :: |old(results)| <= i < |results| ==> results[i] == 0
    {
      ret := 0;
      done := 0;
      ghost var addr0, dlen0 := Programmed(log, RegAddress), Programmed(log, RegDlen);
      ghost var results0 := results;
      while done < |msgs|
        invariant old(Valid()) || 0 < done ==> Valid()
        invariant done <= |msgs| && ret == 0
        invariant |results| == |results0| + done && results[..|results0|] == results0
        invariant forall i :: |results0| <= i < |results| ==> results[i] == 0
        invariant Programmed(log, RegAddress) == addr0 + Addresses(msgs[..done])
        invariant Programmed(log, RegDlen) == dlen0 + Lengths(msgs[..done])
        decreases |msgs| - done
      {
        ghost var addr1, dlen1 := Programmed(log, RegAddress), Programmed(log, RegDlen);
        ret := RunMessage(msgs[done], budgets[done]);
        PrefixSnoc(msgs, done);
        Extend(addr0, addr1, Programmed(log, RegAddress), Addresses(msgs[..done]), msgs[done].addr);
        Extend(dlen0, dlen1, Programmed(log, RegDlen), Lengths(msgs[..done]), msgs[done].len);
        done := done + 1;
        if ret != 0 {
          break;
        }
      }
    }
  }
}
