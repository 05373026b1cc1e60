/** A model of the chip on the far side of the bus, used to read the driver's
    contracts end to end: a register file that never refuses a transaction,
    answers every `write_read` from the register pointer set by its first
    byte, and advances that pointer by the auto-increment rule of each
    sub-device. Writes are acknowledged and not stored. */
module MockDevice {
  import opened Wrappers
  import opened Assembly
  import opened I2cBus
  import opened Driver
  import AccelRegs = AccelRegisters
  import MagRegs = MagRegisters

  /** The byte each sub-address of each device holds. */
  type RegisterFile = (DeviceAddress, int) -> bv8

  /** What an accelerometer register holds. */
  function AccelReg(regs: RegisterFile, r: AccelRegs.Register): bv8 {
    regs(AccelRegs.ADDRESS, AccelRegs.Addr(r) as int)
  }

  /** What a magnetometer register holds. */
  function MagReg(regs: RegisterFile, r: MagRegs.Register): bv8 {
    regs(MagRegs.ADDRESS, MagRegs.Addr(r) as int)
  }

  /** The sub-address the `i`-th byte of a burst from `start` comes from. */
  function BurstPointer(device: DeviceAddress, start: bv8, i: nat): int {
    if device == AccelRegs.ADDRESS then AccelRegs.PointerAfter(start, i)
    else MagRegs.PointerAfter(start, i) as int
  }

  /** The device's answer to any transaction, whatever came before. */
  function Answer<E>(regs: RegisterFile, k: nat, t: Transaction): Reply<E> {
    if t.WriteRead? && |t.bytes| > 0 then
      Ack((i: nat) => regs(t.device, BurstPointer(t.device, t.bytes[0], i)))
    else Ack((_: nat) => 0)
  }

  /** The register file as the oracle of a bus. */
  function Device<E>(regs: RegisterFile): (nat, Transaction) -> Reply<E> {
    (k: nat, t: Transaction) => Answer(regs, k, t)
  }

  /** `accel()` against the device: each axis is `from_le_bytes` of its
      OUT_*_L_A and OUT_*_H_A registers, thanks to bit 7 of the start address. */
  lemma AccelReadsOutputRegisters<E>(regs: RegisterFile, k: nat)
    ensures var b := Answer<E>(regs, k, AccelBurstRequest(AccelRegs.OUT_X_L_A, 6)).clocked;
      FromLeBytes(b(0), b(1)) == FromLeBytes(AccelReg(regs, AccelRegs.OUT_X_L_A), AccelReg(regs, AccelRegs.OUT_X_H_A)) &&
      FromLeBytes(b(2), b(3)) == FromLeBytes(AccelReg(regs, AccelRegs.OUT_Y_L_A), AccelReg(regs, AccelRegs.OUT_Y_H_A)) &&
      FromLeBytes(b(4), b(5)) == FromLeBytes(AccelReg(regs, AccelRegs.OUT_Z_L_A), AccelReg(regs, AccelRegs.OUT_Z_H_A))
  {
    var start: bv8 := AccelRegs.Addr(AccelRegs.OUT_X_L_A) | AccelRegs.MULTI;
    assert start == 0xA8 && start & 0x7F == 0x28 && start & AccelRegs.MULTI != 0;
    forall i: nat ensures BurstPointer(AccelRegs.ADDRESS, start, i) == 0x28 + i {
    }
  }

  /** A single accelerometer read without bit 7 would keep reading the same
      register: the pointer only moves when the driver asks for it. */
  lemma AccelWithoutMultiStaysPut<E>(regs: RegisterFile, k: nat, r: AccelRegs.Register, i: nat)
    ensures Answer<E>(regs, k, WriteRead(AccelRegs.ADDRESS, [AccelRegs.Addr(r)], i + 1)).clocked(i)
         == AccelReg(regs, r)
  {
    var a := AccelRegs.Addr(r);
    assert a & 0x7F == a by {
      assert a & AccelRegs.MULTI == 0;
    }
    assert BurstPointer(AccelRegs.ADDRESS, a, i) == a as int;
  }

  /** `mag()` against the device: the X, Z, Y wire order and the big-endian
      bytes are undone, so each axis is `from_le_bytes` of its own OUT_*_L_M
      and OUT_*_H_M registers. */
  lemma MagReadsOutputRegisters<E>(regs: RegisterFile, k: nat)
    ensures var b := Answer<E>(regs, k, MagBurstRequest(MagRegs.OUT_X_H_M, 6)).clocked;
      var m := MagTriple(seq(6, i requires 0 <= i => b(i)));
      m.x == FromLeBytes(MagReg(regs, MagRegs.OUT_X_L_M), MagReg(regs, MagRegs.OUT_X_H_M)) &&
      m.y == FromLeBytes(MagReg(regs, MagRegs.OUT_Y_L_M), MagReg(regs, MagRegs.OUT_Y_H_M)) &&
      m.z == FromLeBytes(MagReg(regs, MagRegs.OUT_Z_L_M), MagReg(regs, MagRegs.OUT_Z_H_M))
  {
    MagRegs.OutputBurst();
    var addrs := MagRegs.BurstAddresses(MagRegs.Addr(MagRegs.OUT_X_H_M), 6);
    forall i | 0 <= i < 6
      ensures BurstPointer(MagRegs.ADDRESS, MagRegs.Addr(MagRegs.OUT_X_H_M), i) == addrs[i] as int
    {
    }
  }

  /** Every transaction of `ts` is acknowledged by the device, so a fail-fast
      run of `ts` always goes through. */
  lemma DeviceRunsThrough<E>(regs: RegisterFile, trace: seq<Transaction>, ts: seq<Transaction>)
    ensures RunFailFast(Device<E>(regs), trace, ts) == Run(trace + ts, Ok(()))
  {
    RunFailFastAllAcked(Device<E>(regs), trace, ts);
  }

  /** `temp()` against the device: two single reads of TEMP_OUT_L_M and
      TEMP_OUT_H_M, which always both go out. */
  lemma TempReadsTemperatureRegisters<E>(regs: RegisterFile, trace: seq<Transaction>)
    ensures var ts, k := TempReads(), |trace|;
      RunFailFast(Device<E>(regs), trace, ts) == Run(trace + ts, Ok(())) &&
      Answer<E>(regs, k, ts[0]).clocked(0) == MagReg(regs, MagRegs.TEMP_OUT_L_M) &&
      Answer<E>(regs, k + 1, ts[1]).clocked(0) == MagReg(regs, MagRegs.TEMP_OUT_H_M)
  {
    DeviceRunsThrough<E>(regs, trace, TempReads());
    assert BurstPointer(MagRegs.ADDRESS, 0x32, 0) == 0x32;
    assert BurstPointer(MagRegs.ADDRESS, 0x31, 0) == 0x31;
  }

  /** `identify()` against the device: all three reads go out and it reports
      true exactly when IRA, IRB and IRC hold the identification bytes. */
  lemma IdentifyReadsIdentificationRegisters<E>(regs: RegisterFile, trace: seq<Transaction>)
    ensures var ts, k := IdentifyReads(), |trace|;
      RunFailFast(Device<E>(regs), trace, ts) == Run(trace + ts, Ok(())) &&
      ((Answer<E>(regs, k, ts[0]).clocked(0) == IRA_VALUE &&
        Answer<E>(regs, k + 1, ts[1]).clocked(0) == IRB_VALUE &&
        Answer<E>(regs, k + 2, ts[2]).clocked(0) == IRC_VALUE) <==>
       (MagReg(regs, MagRegs.IRA_REG_M) == 0x48 && MagReg(regs, MagRegs.IRB_REG_M) == 0x34 && MagReg(regs, MagRegs.IRC_REG_M) == 0x33))
  {
    DeviceRunsThrough<E>(regs, trace, IdentifyReads());
    assert BurstPointer(MagRegs.ADDRESS, 0x0A, 0) == 0x0A;
    assert BurstPointer(MagRegs.ADDRESS, 0x0B, 0) == 0x0B;
    assert BurstPointer(MagRegs.ADDRESS, 0x0C, 0) == 0x0C;
  }

  /** `new()` against the device: all eight writes go out and a session is made. */
  lemma InitCompletes<E>(regs: RegisterFile, trace: seq<Transaction>, layouts: TypedRegisters.RegisterLayouts)
    ensures RunFailFast(Device<E>(regs), trace, InitSequence(layouts)) == Run(trace + InitSequence(layouts), Ok(()))
  {
    DeviceRunsThrough<E>(regs, trace, InitSequence(layouts));
  }
}
