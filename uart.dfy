/**
 * The QUPv3 UART register model (`QUPv3`): a register file that software
 * drives through 4-byte bus accesses. Transmission is a handshake: arm the
 * command register, set a length, then push up to four bytes per FIFO
 * write. Received bytes land in a read-to-clear FIFO register.
 */
module Qupv3Uart {
  import opened Wrappers
  import opened Tlm

  /**
   * The registers the model names. Their bus offsets are the case labels of
   * the register switch; `Other` is any offset that names none of them.
   */
  datatype Reg =
    | GeniMCmd0 | GeniMIrqStatus | GeniMIrqClear | GeniSIrqClear | GeniTxFifo0 | GeniTxFifoStatus
    | UartTxTransLen | GeniRxFifo0 | GeniSIrqStatus | GeniFwRevisionRo | GeniRxFifoStatus
    | SeHwParam0 | SeHwParam1
    // write offsets the model accepts and ignores
    | SeGsiEventEn | GeniSIrqEnable | SeIrqEn | GeniMIrqEnClear | GeniSIrqEnClear | GeniMIrqEnSet
    | GeniSIrqEnSet | GeniDmaModeEn | GeniSCmd0 | UnknownTxFifo | GeniRxWatermarkReg | GeniRxRfrWatermarkReg
    | Other(offset: nat)

  /** The status and command bits the register model uses. */
  datatype Bits = Bits(mCmdDone: bv32, rxFifoLast: bv32, rxLast: bv32, rxLastByteValid: bv32)

  /** The command value that arms a transmission. */
  const TxCommand: bv32 := 0x0800_0000

  const FwRevision: bv32 := 0x2ff
  const HwParam0: bv32 := 0x2010_2864
  const HwParam1: bv32 := 0x2020_4800

  /** The register file at reset. */
  const Reset: map<Reg, bv32> := map[
    GeniMCmd0 := 0, GeniMIrqStatus := 0, GeniMIrqClear := 0, GeniTxFifo0 := 0, GeniTxFifoStatus := 0,
    UartTxTransLen := 0, GeniRxFifo0 := 0, GeniSIrqStatus := 0, GeniFwRevisionRo := FwRevision,
    GeniRxFifoStatus := 0, SeHwParam0 := HwParam0, SeHwParam1 := HwParam1]

  /** Byte `i` of `v`, counting from the least significant. */
  function ByteOf(v: bv32, i: bv32): bv8
    requires i < 4
  {
    if i == 0 then (v & 0xff) as bv8
    else if i == 1 then ((v >> 8) & 0xff) as bv8
    else if i == 2 then ((v >> 16) & 0xff) as bv8
    else (v >> 24) as bv8
  }

  /** The four bytes of `v` in memory order, least significant first. */
  function StoreLE(v: bv32): (bs: seq<bv8>)
    ensures |bs| == 4 && forall i :: 0 <= i < 4 ==> bs[i] == ByteOf(v, i)
  {
    [ByteOf(v, 0), ByteOf(v, 1), ByteOf(v, 2), ByteOf(v, 3)]
  }

  /** The first `n` bytes of `v` in memory order. */
  function Emitted(v: bv32, n: bv32): (bs: seq<bv8>)
    requires n <= 4
    ensures |bs| <= 4 && bs <= StoreLE(v)
  {
    if n == 0 then []
    else if n == 1 then [ByteOf(v, 0)]
    else if n == 2 then [ByteOf(v, 0), ByteOf(v, 1)]
    else if n == 3 then [ByteOf(v, 0), ByteOf(v, 1), ByteOf(v, 2)]
    else StoreLE(v)
  }

  /** `Emitted(v, n)` is exactly the first `n` bytes of `v` in memory order. */
  lemma EmittedPrefix(v: bv32, n: bv32)
    requires n <= 4
    ensures |Emitted(v, n)| == n as int && Emitted(v, n) == StoreLE(v)[.. n as int]
  {
  }

  /** Sending one more byte extends what was sent by that byte. */
  lemma EmittedStep(v: bv32, n: bv32)
    requires n < 4
    ensures Emitted(v, n + 1) == Emitted(v, n) + [ByteOf(v, n)]
  {
  }

  /** The value four bytes in memory order hold, the first the least significant. */
  function LoadLE(bs: seq<bv8>): bv32
    requires |bs| == 4
  {
    (bs[0] as bv32) | ((bs[1] as bv32) << 8) | ((bs[2] as bv32) << 16) | ((bs[3] as bv32) << 24)
  }

  /** Storing then loading a register value gives it back. */
  lemma LoadStore(v: bv32)
    ensures LoadLE(StoreLE(v)) == v
  {
  }

  /** Loading then storing four bytes gives them back. */
  lemma StoreLoad(bs: seq<bv8>)
    requires |bs| == 4
    ensures StoreLE(LoadLE(bs)) == bs
  {
  }

  /** `status & ~value`: exactly the bits set in `value` are cleared. */
  function Cleared(status: bv32, value: bv32): (r: bv32)
    ensures r & value == 0
    ensures r | (status & value) == status
  {
    status & !value
  }

  /** The number of bytes one FIFO write sends: all that remain, at most four. */
  function TxCount(remaining: bv32): (n: bv32)
    ensures n <= 4 && n <= remaining
    ensures n == 4 || n == remaining
  {
    if remaining < 4 then remaining else 4
  }

  /** The FIFO loop stops exactly when it has sent `TxCount` bytes. */
  lemma LoopSendsTxCount(len: bv32, count: bv32, left: bv32)
    requires count <= 4 && count <= len && left == len - count
    requires count == 4 || left == 0
    ensures TxCount(len) == count && left == len - TxCount(len)
  {
    if count != 4 {
      assert len == count;
    }
  }

  class Qupv3 {
    const bits: Bits
    /** The register an access at a bus offset names. */
    const decode: nat -> Reg
    var regs: map<Reg, bv32>     // qupv3_handle
    var txLine: seq<bv8>         // the bytes written to the character backend
    var irq: seq<bool>           // the values written to the interrupt line
    var notified: nat            // notifications of the interrupt-update event

    /** Operator `[]` of the register map: a missing register reads as 0. */
    function Get(r: Reg): bv32
      reads this
    {
      if r in regs then regs[r] else 0
    }

    /** The read-only registers keep their reset values. */
    ghost predicate Valid()
      reads this
    {
      Get(GeniFwRevisionRo) == FwRevision && Get(SeHwParam0) == HwParam0 && Get(SeHwParam1) == HwParam1
    }

    constructor (bits: Bits, decode: nat -> Reg)
      ensures this.bits == bits && this.decode == decode
      ensures regs == Reset && txLine == [] && irq == [] && notified == 0
      ensures Valid()
    {
      this.bits := bits;
      this.decode := decode;
      regs := Reset;
      txLine := [];
      irq := [];
      notified := 0;
    }

    /** Whether `qupv3_update` raises the update event: a finished command or a received byte is pending. */
    predicate Raises()
      reads this
    {
      Get(GeniMIrqStatus) == bits.mCmdDone || Get(GeniSIrqStatus) == bits.rxFifoLast
    }

    /** `qupv3_update`: notify the interrupt update when a finished command or a received byte is pending. */
    method Update()
      modifies this`notified
      ensures notified == old(notified) + if Raises() then 1 else 0
    {
      if Get(GeniMIrqStatus) == bits.mCmdDone || Get(GeniSIrqStatus) == bits.rxFifoLast {
        notified := notified + 1;
      }
    }

    /**
     * What `qupv3_read` of `reg` returning `value` did, from the old state to
     * the current one: the interrupt status, FIFO status and parameter
     * registers read their value; the RX FIFO and RX FIFO status registers
     * are cleared by the read; reading the S interrupt status lowers the
     * interrupt line; the TX FIFO status reads 0. Any other register yields
     * an unspecified value. Nothing else changes.
     */
    twostate predicate ReadGave(reg: Reg, value: bv32)
      reads this
    {
      && (reg == GeniRxFifo0 || reg == GeniRxFifoStatus ==> value == old(Get(reg)) && regs == old(regs)[reg := 0])
      && (reg != GeniRxFifo0 && reg != GeniRxFifoStatus ==> regs == old(regs))
      && irq == (if reg == GeniSIrqStatus then old(irq) + [false] else old(irq))
      && txLine == old(txLine) && notified == old(notified)
      && (reg == GeniMIrqStatus || reg == GeniSIrqStatus || reg == SeHwParam0 || reg == SeHwParam1 ==> value == Get(reg))
      && (reg == GeniTxFifoStatus ==> value == 0)
      && (reg == GeniFwRevisionRo ==> value == FwRevision)
      && (reg == SeHwParam0 ==> value == HwParam0)
      && (reg == SeHwParam1 ==> value == HwParam1)
    }

    /** `qupv3_read`: see `ReadGave`. */
    method Read(reg: Reg) returns (value: bv32)
      requires Valid()
      modifies this`regs, this`irq
      ensures Valid() && ReadGave(reg, value)
    {
      match reg {
        case GeniMIrqStatus =>
          value := Get(GeniMIrqStatus);
        case GeniTxFifoStatus =>
          value := 0;
        case GeniSIrqStatus =>
          value := Get(GeniSIrqStatus);
          irq := irq + [false];
        case GeniRxFifo0 =>
          value := Get(GeniRxFifo0);
          regs := regs[GeniRxFifo0 := 0];
        case GeniFwRevisionRo =>
          value := Get(GeniFwRevisionRo);
        case GeniRxFifoStatus =>
          value := Get(GeniRxFifoStatus);
          regs := regs[GeniRxFifoStatus := 0];
        case SeHwParam0 =>
          value := Get(SeHwParam0);
        case SeHwParam1 =>
          value := Get(SeHwParam1);
        case _ =>
          value :| true;
      }
    }

    /**
     * What `qupv3_write` of `value` to `reg` did, from the old state to the
     * current one. The command register latches only the transmit command,
     * and only when idle. The clear registers clear the written bits of the
     * matching status (the M one also lowers the interrupt line). A length of
     * 0 is refused. A FIFO write, when a transmission is armed, sends
     * `TxCount` bytes (see `PushTx`). Any other register is ignored.
     */
    twostate predicate Wrote(reg: Reg, value: bv32)
      reads this
    {
      && (reg == GeniMCmd0 ==>
            regs == (if old(Get(GeniMCmd0)) == 0 && value == TxCommand then old(regs)[GeniMCmd0 := value] else old(regs)))
      && (reg == GeniMIrqClear ==>
            regs == old(regs)[GeniMIrqStatus := Cleared(old(Get(GeniMIrqStatus)), value)] && irq == old(irq) + [false])
      && (reg == GeniSIrqClear ==>
            regs == old(regs)[GeniSIrqStatus := Cleared(old(Get(GeniSIrqStatus)), value)])
      && (reg == UartTxTransLen ==>
            regs == if value >= 1 then old(regs)[UartTxTransLen := value] else old(regs))
      && (reg != GeniMIrqClear ==> irq == old(irq))
      && (reg != GeniTxFifo0 ==> txLine == old(txLine) && notified == old(notified))
      && (reg !in {GeniMCmd0, GeniMIrqClear, GeniSIrqClear, GeniTxFifo0, UartTxTransLen} ==> regs == old(regs))
      && (reg == GeniTxFifo0 ==>
            var len := old(Get(UartTxTransLen));
            if old(Get(GeniMCmd0)) == TxCommand && len >= 1 then
              && txLine == old(txLine) + Emitted(value, TxCount(len))
              && Get(UartTxTransLen) == len - TxCount(len)
              && (Get(UartTxTransLen) != 0 ==> regs == old(regs)[UartTxTransLen := Get(UartTxTransLen)])
              && (Get(UartTxTransLen) != 0 ==> notified == old(notified))
              && (Get(UartTxTransLen) == 0 ==>
                    && regs == old(regs)[UartTxTransLen := 0][GeniMCmd0 := 0]
                                 [GeniMIrqStatus := old(Get(GeniMIrqStatus)) | bits.mCmdDone]
                    && notified == old(notified) + if Raises() then 1 else 0)
            else txLine == old(txLine) && regs == old(regs) && notified == old(notified))
    }

    /** `qupv3_write`: see `Wrote`. */
    method Write(reg: Reg, value: bv32)
      requires Valid()
      modifies this`regs, this`irq, this`txLine, this`notified
      ensures Valid() && Wrote(reg, value)
    {
      match reg {
        case GeniMCmd0 =>
          if Get(GeniMCmd0) == 0 && value == TxCommand {
            regs := regs[GeniMCmd0 := value];
          }
        case GeniMIrqClear =>
          regs := regs[GeniMIrqStatus := Cleared(Get(GeniMIrqStatus), value)];
          irq := irq + [false];
        case GeniSIrqClear =>
          regs := regs[GeniSIrqStatus := Cleared(Get(GeniSIrqStatus), value)];
        case GeniTxFifo0 =>
          if Get(GeniMCmd0) == TxCommand && Get(UartTxTransLen) >= 1 {
            PushTx(value);
          }
        case UartTxTransLen =>
          if value >= 1 {
            regs := regs[UartTxTransLen := value];
          }
        case _ =>
      }
    }

    /**
     * The armed branch of a FIFO write: send the bytes of `value`, least
     * significant first, counting the remaining length down, until four are
     * sent or none remain; when none remain the command register returns to
     * idle and the command-done bit is raised.
     */
    method PushTx(value: bv32)
      requires Valid() && Get(GeniMCmd0) == TxCommand && Get(UartTxTransLen) >= 1
      modifies this`regs, this`txLine, this`notified
      ensures Valid()
      ensures var len := old(Get(UartTxTransLen));
        && txLine == old(txLine) + Emitted(value, TxCount(len))
        && Get(UartTxTransLen) == len - TxCount(len)
        && (Get(UartTxTransLen) != 0 ==> regs == old(regs)[UartTxTransLen := Get(UartTxTransLen)] && notified == old(notified))
        && (Get(UartTxTransLen) == 0 ==>
              && regs == old(regs)[UartTxTransLen := 0][GeniMCmd0 := 0]
                           [GeniMIrqStatus := old(Get(GeniMIrqStatus)) | bits.mCmdDone]
              && notified == old(notified) + if Raises() then 1 else 0)
    {
      ghost var status := Get(GeniMIrqStatus);
      SendBytes(value);
      assert Get(GeniMIrqStatus) == status && Get(GeniMCmd0) == TxCommand;
      if Get(GeniMCmd0) == TxCommand && Get(UartTxTransLen) == 0 {
        CompleteTx();
      }
    }

    /**
     * The loop of a FIFO write: send the bytes of `value`, least significant
     * first, counting the remaining length down, until four are sent or none
     * remain.
     */
    method SendBytes(value: bv32)
      requires Get(UartTxTransLen) >= 1
      modifies this`regs, this`txLine
      ensures var len := old(Get(UartTxTransLen));
        && txLine == old(txLine) + Emitted(value, TxCount(len))
        && regs == old(regs)[UartTxTransLen := len - TxCount(len)]
    {
      var len := Get(UartTxTransLen);
      var left := len;
      var sent: seq<bv8> := [];
      var count: bv32 := 0;
      while count != 4 && left != 0
        invariant count <= 4 && count <= len && left == len - count
        invariant sent == Emitted(value, count)
        invariant regs == old(regs) && txLine == old(txLine)
        decreases 4 - count
      {
        EmittedStep(value, count);
        sent := sent + [ByteOf(value, count)];
        count := count + 1;
        left := left - 1;
      }
      LoopSendsTxCount(len, count, left);
      txLine := txLine + sent;
      regs := regs[UartTxTransLen := left];
    }

    /** The end of a transmission: the command register returns to idle and the command-done bit is raised. */
    method CompleteTx()
      modifies this`regs, this`notified
      ensures regs == old(regs)[GeniMCmd0 := 0][GeniMIrqStatus := old(Get(GeniMIrqStatus)) | bits.mCmdDone]
      ensures notified == old(notified) + if Raises() then 1 else 0
    {
      var status := Get(GeniMIrqStatus);
      regs := regs[GeniMCmd0 := 0][GeniMIrqStatus := status | bits.mCmdDone];
      Update();
    }

    /**
     * `qupv3_put_fifo`: a received value lands in the RX FIFO register, the S
     * interrupt status says the FIFO holds its last word, and the FIFO status
     * says so with a valid last byte.
     */
    method PutFifo(value: bv32)
      requires Valid()
      modifies this`regs, this`notified
      ensures Valid()
      ensures regs == old(regs)[GeniRxFifo0 := value][GeniSIrqStatus := bits.rxFifoLast]
                               [GeniRxFifoStatus := bits.rxLast | bits.rxLastByteValid]
      ensures notified == old(notified) + 1
    {
      regs := regs[GeniRxFifo0 := value];
      regs := regs[GeniSIrqStatus := bits.rxFifoLast];
      regs := regs[GeniRxFifoStatus := bits.rxLast | bits.rxLastByteValid];
      Update();
    }

    /** `qupv3_receive`: the backend hands over a buffer; only its first byte is delivered. */
    method Receive(buf: seq<bv8>)
      requires Valid() && |buf| > 0
      modifies this`regs, this`notified
      ensures Valid()
      ensures regs == old(regs)[GeniRxFifo0 := buf[0] as bv32][GeniSIrqStatus := bits.rxFifoLast]
                               [GeniRxFifoStatus := bits.rxLast | bits.rxLastByteValid]
      ensures notified == old(notified) + 1
    {
      PutFifo(buf[0] as bv32);
    }

    /** The write branch of `b_transport`: the first four data bytes, in memory order, are the value written. */
    method WriteAccess(txn: GenericPayload)
      requires Valid() && txn.data.Length >= 4
      modifies this`regs, this`irq, this`txLine, this`notified
      ensures Valid() && Wrote(decode(txn.address), LoadLE(txn.data[.. 4]))
    {
      Write(decode(txn.address), LoadLE(txn.data[.. 4]));
    }

    /** The read branch of `b_transport`: the value read goes to the first four data bytes, in memory order. */
    method ReadAccess(txn: GenericPayload)
      requires Valid() && txn.data.Length >= 4
      modifies this`regs, this`irq, txn.data
      ensures Valid() && txn.data[4..] == old(txn.data[4..]) && ReadGave(decode(txn.address), LoadLE(txn.data[.. 4]))
    {
      var value := Read(decode(txn.address));
      var bytes := StoreLE(value);
      txn.data[0], txn.data[1], txn.data[2], txn.data[3] := bytes[0], bytes[1], bytes[2], bytes[3];
      assert txn.data[.. 4] == bytes;
      LoadStore(value);
    }

    /**
     * `b_transport`: every access is answered OK and refuses DMI; a write
     * loads a register value from the first four data bytes, a read stores
     * the register's value there, both in memory order; any other command
     * does nothing.
     */
    method BTransport(txn: GenericPayload)
      requires Valid() && txn.data.Length >= 4
      modifies this`regs, this`irq, this`txLine, this`notified, txn`response, txn`dmiAllowed, txn.data
      ensures Valid() && txn.response == OkResponse && !txn.dmiAllowed
      ensures txn.command.WriteCommand? ==>
        txn.data[..] == old(txn.data[..]) && Wrote(decode(txn.address), LoadLE(txn.data[.. 4]))
      ensures txn.command.ReadCommand? ==>
        txn.data[4..] == old(txn.data[4..]) && ReadGave(decode(txn.address), LoadLE(txn.data[.. 4]))
      ensures txn.command.IgnoreCommand? ==>
        txn.data[..] == old(txn.data[..]) && regs == old(regs) && txLine == old(txLine) && irq == old(irq)
        && notified == old(notified)
    {
      match txn.command {
        case WriteCommand =>
          WriteAccess(txn);
        case ReadCommand =>
          ReadAccess(txn);
        case IgnoreCommand =>
      }
      txn.dmiAllowed := false;
      txn.response := OkResponse;
    }
  }
}


