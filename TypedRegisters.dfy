/** Typed registers: each knows its device address, its sub-address and how
    its decoded view converts to and from one byte (`to_bits`/`from_bits`).
    The bit layouts belong to the external register crate, so the model takes
    each codec as an opaque pair of functions. */
module TypedRegisters {
  import opened I2cBus
  import Accel = AccelRegisters
  import Mag = MagRegisters

  /** `to_bits` and `from_bits` of one register type. */
  datatype Codec<!R> = Codec(encode: R -> bv8, decode: bv8 -> R)

  /** A register type whose decoded view survives a write and a read back. */
  ghost predicate Lossless<R(!new)>(c: Codec<R>) {
    forall v: R :: c.decode(c.encode(v)) == v
  }

  /** `R::DEFAULT_DEVICE_ADDRESS`, `R::REGISTER_ADDRESS` and the codec of `R`. */
  datatype Reg<!R> = Reg(device: DeviceAddress, address: bv8, codec: Codec<R>)

  /** Accelerometer output data rates (CTRL_REG1_A). */
  datatype AccelOdr = PowerDown | Hz1 | Hz10 | Hz25 | Hz50 | Hz100 | Hz200 | Hz400 | Hz1620LowPower | Hz1344

  /** Magnetometer output data rates (CRA_REG_M). */
  datatype MagOdr = Hz0_75 | Hz1_5 | Hz3 | Hz7_5 | Hz15 | Hz30 | Hz75 | Hz220

  /** The decoded view of CTRL_REG1_A. */
  datatype ControlRegister1A = ControlRegister1A(
    outputDataRate: AccelOdr, lowPowerEnable: bool, zEnable: bool, yEnable: bool, xEnable: bool)

  /** The decoded view of MR_REG_M. */
  datatype ModeRegisterM = ModeRegisterM(sleepMode: bool, singleConversion: bool)

  /** The decoded view of CRA_REG_M. */
  datatype CraRegisterM = CraRegisterM(tempEn: bool, dataOutputRate: MagOdr)

  /** The codecs the register crate supplies for the registers the driver
      handles through their decoded views. */
  datatype RegisterLayouts = RegisterLayouts(
    controlRegister1A: Codec<ControlRegister1A>,
    modeRegisterM: Codec<ModeRegisterM>,
    craRegisterM: Codec<CraRegisterM>)

  /** The codec of a register handled as a whole byte. */
  function RawCodec(): Codec<bv8> {
    Codec(b => b, b => b)
  }

  function ControlRegister1AReg(layouts: RegisterLayouts): Reg<ControlRegister1A> {
    Reg(Accel.ADDRESS, Accel.Addr(Accel.CTRL_REG1_A), layouts.controlRegister1A)
  }

  /** `ControlRegister2A` to `ControlRegister6A`: the driver only ever writes
      their `new()` value, whose every bit is zero, so each is a whole byte. */
  function ControlRegisterA(r: Accel.Register): Reg<bv8> {
    Reg(Accel.ADDRESS, Accel.Addr(r), RawCodec())
  }

  function ModeRegisterMReg(layouts: RegisterLayouts): Reg<ModeRegisterM> {
    Reg(Mag.ADDRESS, Mag.Addr(Mag.MR_REG_M), layouts.modeRegisterM)
  }

  function CraRegisterMReg(layouts: RegisterLayouts): Reg<CraRegisterM> {
    Reg(Mag.ADDRESS, Mag.Addr(Mag.CRA_REG_M), layouts.craRegisterM)
  }

  /** `IRARegisterM`, `IRBRegisterM`, `IRCRegisterM`: `value()` is the whole byte. */
  function IdentificationRegister(r: Mag.Register): Reg<bv8> {
    Reg(Mag.ADDRESS, Mag.Addr(r), RawCodec())
  }
}
