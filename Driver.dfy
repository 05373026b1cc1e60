/** The `LSM303DLHC` driver (src/lib.rs): a session that owns the bus and turns
    every call into bus transactions, in a fixed order, stopping at the first
    fault and passing that fault on unchanged. */
module Driver {
  import opened Wrappers
  import opened Assembly
  import opened I2cBus
  import opened TypedRegisters
  import AccelRegs = AccelRegisters
  import MagRegs = MagRegisters

  /** A single-byte read of one register: the sub-address goes out, one byte comes back. */
  function ReadRequest(device: DeviceAddress, address: bv8): Transaction {
    WriteRead(device, [address], 1)
  }

  /** A write of one register: the sub-address, then the byte. */
  function WriteRequest(device: DeviceAddress, address: bv8, byte: bv8): Transaction {
    Write(device, [address, byte])
  }

  /** The write `write_register` issues for a typed value. */
  function TypedWrite<R>(reg: Reg<R>, value: R): Transaction {
    WriteRequest(reg.device, reg.address, reg.codec.encode(value))
  }

  /** An accelerometer burst: the start sub-address with bit 7 set, so that
      the device auto-increments, and `n` bytes back. */
  function AccelBurstRequest(reg: AccelRegs.Register, n: nat): (t: Transaction)
    ensures t.WriteRead? && t.device == AccelRegs.ADDRESS && t.count == n && |t.bytes| == 1
    ensures t.bytes[0] & 0x80 == 0x80 && t.bytes[0] & 0x7F == AccelRegs.Addr(reg)
  {
    WriteRead(AccelRegs.ADDRESS, [AccelRegs.Addr(reg) | AccelRegs.MULTI], n)
  }

  /** A magnetometer burst: the start sub-address as it is, and `n` bytes back. */
  function MagBurstRequest(reg: MagRegs.Register, n: nat): (t: Transaction)
    ensures t.WriteRead? && t.device == MagRegs.ADDRESS && t.count == n
    ensures t.bytes == [MagRegs.Addr(reg)] && t.bytes[0] & 0x80 == 0
  {
    WriteRead(MagRegs.ADDRESS, [MagRegs.Addr(reg)], n)
  }

  /** The byte a single-byte read yields, or the fault that refused it. */
  function ByteRead<E>(reply: Reply<E>): (r: Result<bv8, E>)
    ensures r.Ok? <==> reply.Ack?
    ensures reply.Fault? ==> r.error == reply.error
    ensures r.Ok? ==> r.value == reply.clocked(0)
  {
    match reply
    case Fault(e) => Err(e)
    case Ack(clocked) => Ok(clocked(0))
  }

  /** The trace grew from `before` to `after` by a read-modify-write of one
      register: the single-byte `read`; if it was acknowledged, one write of
      `f` of the byte read to `address` on `device`; `r` is the first fault,
      if any. */
  ghost predicate ReadModifyWrite<E>(answer: (nat, Transaction) -> Reply<E>,
                                     before: seq<Transaction>, after: seq<Transaction>,
                                     read: Transaction, device: DeviceAddress, address: bv8,
                                     f: bv8 -> bv8, r: Result<(), E>)
  {
    match answer(|before|, read)
    case Fault(e) => after == before + [read] && r == Err(e)
    case Ack(clocked) =>
      var write := WriteRequest(device, address, f(clocked(0)));
      after == before + [read, write] && r == Completed(answer(|before| + 1, write))
  }

  /** The decoded value `new` writes to CTRL_REG1_A: 400 Hz, normal power, X, Y and Z on. */
  const InitialControlRegister1A := ControlRegister1A(Hz400, false, true, true, true)

  /** The decoded value `new` writes to MR_REG_M: awake, continuous conversion. */
  const InitialModeRegisterM := ModeRegisterM(false, false)

  /** The decoded value `new` writes to CRA_REG_M: temperature sensor on, 75 Hz. */
  const InitialCraRegisterM := CraRegisterM(true, Hz75)

  /** The writes `new` issues, in order: CTRL_REG1_A, then CTRL_REG2_A to
      CTRL_REG6_A cleared, then MR_REG_M and CRA_REG_M. */
  function InitSequence(layouts: RegisterLayouts): seq<Transaction> {
    [ TypedWrite(ControlRegister1AReg(layouts), InitialControlRegister1A),
      TypedWrite(ControlRegisterA(AccelRegs.CTRL_REG2_A), 0x00),
      TypedWrite(ControlRegisterA(AccelRegs.CTRL_REG3_A), 0x00),
      TypedWrite(ControlRegisterA(AccelRegs.CTRL_REG4_A), 0x00),
      TypedWrite(ControlRegisterA(AccelRegs.CTRL_REG5_A), 0x00),
      TypedWrite(ControlRegisterA(AccelRegs.CTRL_REG6_A), 0x00),
      TypedWrite(ModeRegisterMReg(layouts), InitialModeRegisterM),
      TypedWrite(CraRegisterMReg(layouts), InitialCraRegisterM) ]
  }

  /** The reads `identify` issues, in order. */
  function IdentifyReads(): seq<Transaction> {
    [ ReadRequest(MagRegs.ADDRESS, MagRegs.Addr(MagRegs.IRA_REG_M)),
      ReadRequest(MagRegs.ADDRESS, MagRegs.Addr(MagRegs.IRB_REG_M)),
      ReadRequest(MagRegs.ADDRESS, MagRegs.Addr(MagRegs.IRC_REG_M)) ]
  }

  /** The reads `temp` issues, in order: low byte first. */
  function TempReads(): seq<Transaction> {
    [ MagBurstRequest(MagRegs.TEMP_OUT_L_M, 1), MagBurstRequest(MagRegs.TEMP_OUT_H_M, 1) ]
  }

  /** `new` issues eight writes, each of two bytes: a sub-address and a value. */
  lemma InitSequenceShape(layouts: RegisterLayouts)
    ensures |InitSequence(layouts)| == 8
    ensures forall t <- InitSequence(layouts) :: t.Write? && |t.bytes| == 2
  {
  }

  /** `new` writes, in order, CTRL_REG1_A to CTRL_REG6_A (0x20 to 0x25) of
      the accelerometer and then MR_REG_M (0x02) and CRA_REG_M (0x00) of the
      magnetometer. */
  lemma InitSequenceTargets(layouts: RegisterLayouts)
    ensures var ts := InitSequence(layouts);
      (forall j :: 0 <= j < 6 ==> ts[j].device == AccelRegs.ADDRESS && ts[j].bytes[0] == 0x20 + j as bv8) &&
      ts[6].device == MagRegs.ADDRESS && ts[6].bytes[0] == 0x02 &&
      ts[7].device == MagRegs.ADDRESS && ts[7].bytes[0] == 0x00
  {
    var ts := InitSequence(layouts);
    forall j | 0 <= j < 6 ensures ts[j].device == AccelRegs.ADDRESS && ts[j].bytes[0] == 0x20 + j as bv8 {
      // one case per control register
      if j == 0 { } else if j == 1 { } else if j == 2 { } else if j == 3 { } else if j == 4 { } else { }
    }
  }

  /** The values `new` writes: CTRL_REG2_A to CTRL_REG6_A get their all-zero
      default, and with lossless codecs the other three read back as the
      configured values. */
  lemma InitSequenceValues(layouts: RegisterLayouts)
    ensures var ts := InitSequence(layouts);
      (forall j :: 1 <= j <= 5 ==> ts[j].bytes[1] == 0x00) &&
      (Lossless(layouts.controlRegister1A) ==>
        layouts.controlRegister1A.decode(ts[0].bytes[1]) == InitialControlRegister1A) &&
      (Lossless(layouts.modeRegisterM) ==>
        layouts.modeRegisterM.decode(ts[6].bytes[1]) == InitialModeRegisterM) &&
      (Lossless(layouts.craRegisterM) ==>
        layouts.craRegisterM.decode(ts[7].bytes[1]) == InitialCraRegisterM)
  {
  }

  /** `identify` only reads: three single-byte magnetometer reads, of
      IRA_REG_M, IRB_REG_M and IRC_REG_M in that order. */
  lemma IdentifyOnlyReads()
    ensures forall t <- IdentifyReads() ::
      t.WriteRead? && t.device == MagRegs.ADDRESS && |t.bytes| == 1 && t.count == 1
    ensures seq(3, j requires 0 <= j < 3 => IdentifyReads()[j].bytes[0]) == [0x0A, 0x0B, 0x0C]
  {
  }

  /** `temp` reads the two temperature registers one byte at a time, the
      low byte (TEMP_OUT_L_M, 0x32) first. */
  lemma TempReadOrder()
    ensures forall t <- TempReads() ::
      t.WriteRead? && t.device == MagRegs.ADDRESS && |t.bytes| == 1 && t.count == 1
    ensures seq(2, j requires 0 <= j < 2 => TempReads()[j].bytes[0]) == [0x32, 0x31]
  {
  }

  /** The identification bytes of an LSM303DLHC magnetometer. */
  const IRA_VALUE: bv8 := 0x48
  const IRB_VALUE: bv8 := 0x34
  const IRC_VALUE: bv8 := 0x33

  class Lsm303dlhc<E> {
    /** The bus, owned by the session for its whole life. */
    const i2c: Bus<E>
    /** The register crate's codecs for the typed registers. */
    const layouts: RegisterLayouts

    /** `Self { i2c }`: takes the bus, issues nothing. */
    constructor Own(i2c: Bus<E>, layouts: RegisterLayouts)
      ensures this.i2c == i2c && this.layouts == layouts
    {
      this.i2c := i2c;
      this.layouts := layouts;
    }

    /** `new`: the eight configuration writes, fail-fast; a session exists
        only if all eight were acknowledged. */
    static method New(i2c: Bus<E>, layouts: RegisterLayouts) returns (r: Result<Lsm303dlhc<E>, E>)
      modifies i2c
      ensures RunFailFast(i2c.answer, old(i2c.trace), InitSequence(layouts)) == Run(i2c.trace, r.Outcome())
      ensures r.Ok? ==> fresh(r.value) && r.value.i2c == i2c && r.value.layouts == layouts
    {
      ghost var ts := InitSequence(layouts);
      var sensor := new Lsm303dlhc.Own(i2c, layouts);
      RunFromStep(i2c.answer, i2c.trace, ts, 0, TypedWrite(ControlRegister1AReg(layouts), InitialControlRegister1A));
      var _ :- sensor.WriteRegister(ControlRegister1AReg(layouts), InitialControlRegister1A);
      var _ :- sensor.ResetAccelControlRegisters();
      RunFromStep(i2c.answer, i2c.trace, ts, 6, TypedWrite(ModeRegisterMReg(layouts), InitialModeRegisterM));
      var _ :- sensor.WriteRegister(ModeRegisterMReg(layouts), InitialModeRegisterM);
      RunFromStep(i2c.answer, i2c.trace, ts, 7, TypedWrite(CraRegisterMReg(layouts), InitialCraRegisterM));
      var _ :- sensor.WriteRegister(CraRegisterMReg(layouts), InitialCraRegisterM);
      r := Ok(sensor);
    }

    /** The five `write_register` calls of `new` that put CTRL_REG2_A to
        CTRL_REG6_A back to their all-zero `new()` value: writes 1 to 5 of
        the configuration run. */
    method ResetAccelControlRegisters() returns (r: Result<(), E>)
      modifies i2c
      ensures RunFrom(i2c.answer, old(i2c.trace), InitSequence(layouts), 1) ==
        if r.Ok? then RunFrom(i2c.answer, i2c.trace, InitSequence(layouts), 6) else Run(i2c.trace, r)
    {
      ghost var ts := InitSequence(layouts);
      RunFromStep(i2c.answer, i2c.trace, ts, 1, TypedWrite(ControlRegisterA(AccelRegs.CTRL_REG2_A), 0x00));
      var _ :- WriteRegister(ControlRegisterA(AccelRegs.CTRL_REG2_A), 0x00);
      RunFromStep(i2c.answer, i2c.trace, ts, 2, TypedWrite(ControlRegisterA(AccelRegs.CTRL_REG3_A), 0x00));
      var _ :- WriteRegister(ControlRegisterA(AccelRegs.CTRL_REG3_A), 0x00);
      RunFromStep(i2c.answer, i2c.trace, ts, 3, TypedWrite(ControlRegisterA(AccelRegs.CTRL_REG4_A), 0x00));
      var _ :- WriteRegister(ControlRegisterA(AccelRegs.CTRL_REG4_A), 0x00);
      RunFromStep(i2c.answer, i2c.trace, ts, 4, TypedWrite(ControlRegisterA(AccelRegs.CTRL_REG5_A), 0x00));
      var _ :- WriteRegister(ControlRegisterA(AccelRegs.CTRL_REG5_A), 0x00);
      RunFromStep(i2c.answer, i2c.trace, ts, 5, TypedWrite(ControlRegisterA(AccelRegs.CTRL_REG6_A), 0x00));
      var _ :- WriteRegister(ControlRegisterA(AccelRegs.CTRL_REG6_A), 0x00);
      r := Ok(());
    }

    /** `identify`: reads IRA, IRB and IRC, fail-fast, writes nothing, and
        reports whether they hold 0x48, 0x34 and 0x33. */
    method Identify() returns (r: Result<bool, E>)
      modifies i2c
      ensures RunFailFast(i2c.answer, old(i2c.trace), IdentifyReads()) == Run(i2c.trace, r.Outcome())
      ensures r.Ok? ==>
        var k, ts := |old(i2c.trace)|, IdentifyReads();
        r.value == (i2c.answer(k, ts[0]).clocked(0) == IRA_VALUE &&
                    i2c.answer(k + 1, ts[1]).clocked(0) == IRB_VALUE &&
                    i2c.answer(k + 2, ts[2]).clocked(0) == IRC_VALUE)
    {
      ghost var ts := IdentifyReads();
      RunFromStep(i2c.answer, i2c.trace, ts, 0, ReadRequest(MagRegs.ADDRESS, MagRegs.Addr(MagRegs.IRA_REG_M)));
      var ira :- ReadRegister(IdentificationRegister(MagRegs.IRA_REG_M));
      RunFromStep(i2c.answer, i2c.trace, ts, 1, ReadRequest(MagRegs.ADDRESS, MagRegs.Addr(MagRegs.IRB_REG_M)));
      var irb :- ReadRegister(IdentificationRegister(MagRegs.IRB_REG_M));
      RunFromStep(i2c.answer, i2c.trace, ts, 2, ReadRequest(MagRegs.ADDRESS, MagRegs.Addr(MagRegs.IRC_REG_M)));
      var irc :- ReadRegister(IdentificationRegister(MagRegs.IRC_REG_M));
      r := Ok(ira == IRA_VALUE && irb == IRB_VALUE && irc == IRC_VALUE);
    }

    /** `accel`: one six-byte burst from OUT_X_L_A, each axis little-endian. */
    method Accel() returns (r: Result<I16x3, E>)
      modifies i2c
      ensures i2c.trace == old(i2c.trace) + [AccelBurstRequest(AccelRegs.OUT_X_L_A, 6)]
      ensures match i2c.answer(|old(i2c.trace)|, AccelBurstRequest(AccelRegs.OUT_X_L_A, 6))
        case Fault(e) => r == Err(e)
        case Ack(b) => r.Ok? && r.value.x == FromLeBytes(b(0), b(1))
                       && r.value.y == FromLeBytes(b(2), b(3))
                       && r.value.z == FromLeBytes(b(4), b(5))
    {
      var buffer :- ReadAccelRegisters(AccelRegs.OUT_X_L_A, 6);
      r := Ok(AccelTriple(buffer));
    }

    /** `accel_odr`: read-modify-write of CTRL_REG1_A that replaces the data
        rate; with a lossless codec every other decoded field survives. */
    method AccelOdr(odr: AccelOdr) returns (r: Result<(), E>)
      modifies i2c
      ensures var reg := ControlRegister1AReg(layouts);
        ReadModifyWrite(i2c.answer, old(i2c.trace), i2c.trace,
                        ReadRequest(reg.device, reg.address), reg.device, reg.address,
                        b => reg.codec.encode(reg.codec.decode(b).(outputDataRate := odr)), r)
      ensures Lossless(layouts.controlRegister1A) && |i2c.trace| == |old(i2c.trace)| + 2 ==>
        var codec := layouts.controlRegister1A;
        var was := codec.decode(i2c.answer(|old(i2c.trace)|, i2c.trace[|i2c.trace| - 2]).clocked(0));
        codec.decode(i2c.trace[|i2c.trace| - 1].bytes[1]) == was.(outputDataRate := odr)
    {
      r := ModifyRegister(ControlRegister1AReg(layouts), (reg: ControlRegister1A) => reg.(outputDataRate := odr));
    }

    /** `mag`: one six-byte burst from OUT_X_H_M; the wire order is X, Z, Y,
        each axis big-endian, and the result is put back in X, Y, Z order. */
    method Mag() returns (r: Result<I16x3, E>)
      modifies i2c
      ensures i2c.trace == old(i2c.trace) + [MagBurstRequest(MagRegs.OUT_X_H_M, 6)]
      ensures match i2c.answer(|old(i2c.trace)|, MagBurstRequest(MagRegs.OUT_X_H_M, 6))
        case Fault(e) => r == Err(e)
        case Ack(b) => r.Ok? && r.value.x == FromLeBytes(b(1), b(0))
                       && r.value.y == FromLeBytes(b(5), b(4))
                       && r.value.z == FromLeBytes(b(3), b(2))
    {
      var buffer :- ReadMagRegisters(MagRegs.OUT_X_H_M, 6);
      r := Ok(MagTriple(buffer));
    }

    /** `mag_odr`: read-modify-write of CRA_REG_M that replaces the data rate;
        with a lossless codec the temperature-enable field survives. */
    method MagOdr(odr: MagOdr) returns (r: Result<(), E>)
      modifies i2c
      ensures var reg := CraRegisterMReg(layouts);
        ReadModifyWrite(i2c.answer, old(i2c.trace), i2c.trace,
                        ReadRequest(reg.device, reg.address), reg.device, reg.address,
                        b => reg.codec.encode(reg.codec.decode(b).(dataOutputRate := odr)), r)
      ensures Lossless(layouts.craRegisterM) && |i2c.trace| == |old(i2c.trace)| + 2 ==>
        var codec := layouts.craRegisterM;
        var was := codec.decode(i2c.answer(|old(i2c.trace)|, i2c.trace[|i2c.trace| - 2]).clocked(0));
        codec.decode(i2c.trace[|i2c.trace| - 1].bytes[1]) == CraRegisterM(was.tempEn, odr)
    {
      r := ModifyRegister(CraRegisterMReg(layouts), (reg: CraRegisterM) => reg.(dataOutputRate := odr));
    }

    /** `temp`: two single reads, TEMP_OUT_L_M then TEMP_OUT_H_M, fail-fast,
        giving the 12-bit reading. */
    method Temp() returns (r: Result<I16, E>)
      modifies i2c
      ensures RunFailFast(i2c.answer, old(i2c.trace), TempReads()) == Run(i2c.trace, r.Outcome())
      ensures r.Ok? ==>
        var k, ts := |old(i2c.trace)|, TempReads();
        r.value == TempValue(i2c.answer(k, ts[0]).clocked(0), i2c.answer(k + 1, ts[1]).clocked(0))
    {
      ghost var ts := TempReads();
      RunFromStep(i2c.answer, i2c.trace, ts, 0, MagBurstRequest(MagRegs.TEMP_OUT_L_M, 1));
      var low :- ReadMagRegister(MagRegs.TEMP_OUT_L_M);
      RunFromStep(i2c.answer, i2c.trace, ts, 1, MagBurstRequest(MagRegs.TEMP_OUT_H_M, 1));
      var high :- ReadMagRegister(MagRegs.TEMP_OUT_H_M);
      r := Ok(TempValue(low, high));
    }

    /** `set_accel_sensitivity`: raw read-modify-write of CTRL_REG4_A that
        puts the code in bits 4 and 5 and keeps every other bit. */
    method SetAccelSensitivity(code: SensitivityCode) returns (r: Result<(), E>)
      modifies i2c
      ensures ReadModifyWrite(i2c.answer, old(i2c.trace), i2c.trace, AccelBurstRequest(AccelRegs.CTRL_REG4_A, 1),
                              AccelRegs.ADDRESS, AccelRegs.Addr(AccelRegs.CTRL_REG4_A),
                              b => SensitivityPatch(b, code), r)
    {
      r := ModifyAccelRegisterUnchecked(AccelRegs.CTRL_REG4_A, b => SensitivityPatch(b, code));
    }

    /** `read_register`: one single-byte read, decoded. */
    method ReadRegister<R>(reg: Reg<R>) returns (r: Result<R, E>)
      modifies i2c
      ensures i2c.trace == old(i2c.trace) + [ReadRequest(reg.device, reg.address)]
      ensures match i2c.answer(|old(i2c.trace)|, ReadRequest(reg.device, reg.address))
        case Fault(e) => r == Err(e)
        case Ack(b) => r == Ok(reg.codec.decode(b(0)))
    {
      var buffer := new bv8[1];
      var _ :- i2c.WriteRead(reg.device, [reg.address], buffer);
      r := Ok(reg.codec.decode(buffer[0]));
    }

    /** `write_register`: one write of the encoded value. */
    method WriteRegister<R>(reg: Reg<R>, value: R) returns (r: Result<(), E>)
      modifies i2c
      ensures i2c.trace == old(i2c.trace) + [TypedWrite(reg, value)]
      ensures r == Completed(i2c.answer(|old(i2c.trace)|, TypedWrite(reg, value)))
    {
      var byte := reg.codec.encode(value);
      var _ :- i2c.Write(reg.device, [reg.address, byte]);
      r := Ok(());
    }

    /** `modify_register`: a read-modify-write whose written byte is
        `encode(f(decode(b)))` for the byte `b` read. */
    method ModifyRegister<R>(reg: Reg<R>, f: R -> R) returns (r: Result<(), E>)
      modifies i2c
      ensures ReadModifyWrite(i2c.answer, old(i2c.trace), i2c.trace,
                        ReadRequest(reg.device, reg.address), reg.device, reg.address,
                              b => reg.codec.encode(f(reg.codec.decode(b))), r)
    {
      var register :- ReadRegister(reg);
      r := WriteRegister(reg, f(register));
    }

    /** `read_accel_register`: a one-byte accelerometer burst. */
    method ReadAccelRegister(reg: AccelRegs.Register) returns (r: Result<bv8, E>)
      modifies i2c
      ensures i2c.trace == old(i2c.trace) + [AccelBurstRequest(reg, 1)]
      ensures r == ByteRead(i2c.answer(|old(i2c.trace)|, AccelBurstRequest(reg, 1)))
    {
      var buffer :- ReadAccelRegisters(reg, 1);
      r := Ok(buffer[0]);
    }

    /** `read_accel_registers`: one `write_read` of `n` bytes from the start
        sub-address with bit 7 set; the buffer is handed out only on success. */
    method ReadAccelRegisters(reg: AccelRegs.Register, n: nat) returns (r: Result<seq<bv8>, E>)
      modifies i2c
      ensures i2c.trace == old(i2c.trace) + [AccelBurstRequest(reg, n)]
      ensures r == Filled(i2c.answer(|old(i2c.trace)|, AccelBurstRequest(reg, n)), n)
    {
      var buffer := new bv8[n];
      var _ :- i2c.WriteRead(AccelRegs.ADDRESS, [AccelRegs.Addr(reg) | AccelRegs.MULTI], buffer);
      r := Ok(buffer[..]);
    }

    /** `write_accel_register`: the unvalidated public entry point. */
    method WriteAccelRegister(reg: AccelRegs.Register, byte: bv8) returns (r: Result<(), E>)
      modifies i2c
      ensures i2c.trace == old(i2c.trace) + [WriteRequest(AccelRegs.ADDRESS, AccelRegs.Addr(reg), byte)]
      ensures r == Completed(i2c.answer(|old(i2c.trace)|, WriteRequest(AccelRegs.ADDRESS, AccelRegs.Addr(reg), byte)))
    {
      r := WriteAccelRegisterUnchecked(reg, byte);
    }

    /** `write_accel_register_unchecked`: one write of the raw byte. */
    method WriteAccelRegisterUnchecked(reg: AccelRegs.Register, byte: bv8) returns (r: Result<(), E>)
      modifies i2c
      ensures i2c.trace == old(i2c.trace) + [WriteRequest(AccelRegs.ADDRESS, AccelRegs.Addr(reg), byte)]
      ensures r == Completed(i2c.answer(|old(i2c.trace)|, WriteRequest(AccelRegs.ADDRESS, AccelRegs.Addr(reg), byte)))
    {
      r := i2c.Write(AccelRegs.ADDRESS, [AccelRegs.Addr(reg), byte]);
    }

    /** `modify_accel_register`: the unvalidated public entry point. */
    method ModifyAccelRegister(reg: AccelRegs.Register, f: bv8 -> bv8) returns (r: Result<(), E>)
      modifies i2c
      ensures ReadModifyWrite(i2c.answer, old(i2c.trace), i2c.trace, AccelBurstRequest(reg, 1),
                              AccelRegs.ADDRESS, AccelRegs.Addr(reg), f, r)
    {
      r := ModifyAccelRegisterUnchecked(reg, f);
    }

    /** `modify_accel_register_unchecked`: read the byte, write `f` of it back. */
    method ModifyAccelRegisterUnchecked(reg: AccelRegs.Register, f: bv8 -> bv8) returns (r: Result<(), E>)
      modifies i2c
      ensures ReadModifyWrite(i2c.answer, old(i2c.trace), i2c.trace, AccelBurstRequest(reg, 1),
                              AccelRegs.ADDRESS, AccelRegs.Addr(reg), f, r)
    {
      var b :- ReadAccelRegister(reg);
      var _ :- WriteAccelRegisterUnchecked(reg, f(b));
      r := Ok(());
    }

    /** `read_mag_register`: a one-byte magnetometer burst. */
    method ReadMagRegister(reg: MagRegs.Register) returns (r: Result<bv8, E>)
      modifies i2c
      ensures i2c.trace == old(i2c.trace) + [MagBurstRequest(reg, 1)]
      ensures r == ByteRead(i2c.answer(|old(i2c.trace)|, MagBurstRequest(reg, 1)))
    {
      var buffer :- ReadMagRegisters(reg, 1);
      r := Ok(buffer[0]);
    }

    /** `read_mag_registers`: one `write_read` of `n` bytes from the start
        sub-address as it is; the buffer is handed out only on success. */
    method ReadMagRegisters(reg: MagRegs.Register, n: nat) returns (r: Result<seq<bv8>, E>)
      modifies i2c
      ensures i2c.trace == old(i2c.trace) + [MagBurstRequest(reg, n)]
      ensures r == Filled(i2c.answer(|old(i2c.trace)|, MagBurstRequest(reg, n)), n)
    {
      var buffer := new bv8[n];
      var _ :- i2c.WriteRead(MagRegs.ADDRESS, [MagRegs.Addr(reg)], buffer);
      r := Ok(buffer[..]);
    }

    /** `write_mag_register`: the unvalidated public entry point. */
    method WriteMagRegister(reg: MagRegs.Register, byte: bv8) returns (r: Result<(), E>)
      modifies i2c
      ensures i2c.trace == old(i2c.trace) + [WriteRequest(MagRegs.ADDRESS, MagRegs.Addr(reg), byte)]
      ensures r == Completed(i2c.answer(|old(i2c.trace)|, WriteRequest(MagRegs.ADDRESS, MagRegs.Addr(reg), byte)))
    {
      r := WriteMagRegisterUnchecked(reg, byte);
    }

    /** `write_mag_register_unchecked`: one write of the raw byte. */
    method WriteMagRegisterUnchecked(reg: MagRegs.Register, byte: bv8) returns (r: Result<(), E>)
      modifies i2c
      ensures i2c.trace == old(i2c.trace) + [WriteRequest(MagRegs.ADDRESS, MagRegs.Addr(reg), byte)]
      ensures r == Completed(i2c.answer(|old(i2c.trace)|, WriteRequest(MagRegs.ADDRESS, MagRegs.Addr(reg), byte)))
    {
      r := i2c.Write(MagRegs.ADDRESS, [MagRegs.Addr(reg), byte]);
    }

    /** `modify_mag_register`: the unvalidated public entry point. */
    method ModifyMagRegister(reg: MagRegs.Register, f: bv8 -> bv8) returns (r: Result<(), E>)
      modifies i2c
      ensures ReadModifyWrite(i2c.answer, old(i2c.trace), i2c.trace, MagBurstRequest(reg, 1),
                              MagRegs.ADDRESS, MagRegs.Addr(reg), f, r)
    {
      r := ModifyMagRegisterUnchecked(reg, f);
    }

    /** `modify_mag_register_unchecked`: read the byte, write `f` of it back. */
    method ModifyMagRegisterUnchecked(reg: MagRegs.Register, f: bv8 -> bv8) returns (r: Result<(), E>)
      modifies i2c
      ensures ReadModifyWrite(i2c.answer, old(i2c.trace), i2c.trace, MagBurstRequest(reg, 1),
                              MagRegs.ADDRESS, MagRegs.Addr(reg), f, r)
    {
      var b :- ReadMagRegister(reg);
      var _ :- WriteMagRegisterUnchecked(reg, f(b));
      r := Ok(());
    }
  }
}
