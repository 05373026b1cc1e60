# LSM303DLHC driver core in Dafny

This project models the register-access and data-assembly layer of the
LSM303DLHC driver. The LSM303DLHC combines an accelerometer, a magnetometer
and a temperature channel on one I2C bus. The model covers `src/lib.rs` and
the magnetometer address table in `src/registers/mag.rs`.

- `Wrappers.dfy`: the `Result` type. `:-` propagates the first error
  unchanged, as `?` does in the driver.
- `I2cBus.dfy`: the bus the driver owns.
  - `Bus` is a class that records every `write` and `write_read` in a trace.
  - The reply to the k-th transaction comes from an oracle, which stands for
    the transport and the chip. A reply is either a fault carrying the
    transport's error `E`, or an acknowledgement with the bytes clocked out.
  - `RunFailFast` is the reference definition of a sequence of calls that
    stops at the first fault. It issues the calls one at a time from index
    `j` (`RunFrom`) and gives the final trace and the outcome. `FailFast`
    describes such a run independently, and the lemmas tie the two
    together.
- `AccelRegisters.dfy`, `MagRegisters.dfy`: device addresses and
  sub-addresses. `MagRegisters` also has the magnetometer's pointer
  auto-increment rule (documented at `src/lib.rs:300-306`), which only the
  device model uses.
- `TypedRegisters.dfy`: typed registers. Each pairs a device address and a
  sub-address with an opaque codec (`to_bits`/`from_bits`).
- `Assembly.dfy`: how register bytes become readings.
  - `I16x3` triples; `u16`/`i16` are written out as bounded integers.
  - The accelerometer's little-endian X, Y, Z axes and the magnetometer's
    big-endian X, Z, Y wire order, each against the reference definition
    `FromLeBytes` (`i16::from_le_bytes`).
  - The 12-bit temperature with its arithmetic shift.
  - The sensitivity bit patch.
- `Driver.dfy`: the driver, as class `Lsm303dlhc`. It holds the bus and
  has one method per driver method. Each contract states:
  - the exact transactions added to the trace;
  - the result, as a function of the oracle's replies.
  `new`'s five resets of CTRL_REG2_A to CTRL_REG6_A are grouped in their own
  method, `ResetAccelControlRegisters`, which issues writes 1 to 5 of the
  configuration run.
- `MockDevice.dfy`: a register-file chip that never faults. It plugs the
  burst rules into the oracle, so the driver's contracts can be read end to
  end: which registers each axis, the temperature and the identification
  come from.

The driver's `new` issues eight writes (`src/lib.rs:67-96`): CTRL_REG1_A,
five resets of CTRL_REG2_A to CTRL_REG6_A, then MR_REG_M and CRA_REG_M.
`temp` computes `(u16(l) + (u16(h) << 8)) as i16 >> 4`, so a reading of
0x1900 gives 400 (`Assembly.TempExamples`).

## Model

| member | source | states |
|---|---|---|
| Assembly.SignedByte | src/lib.rs:117-119 | the high byte read as `i8`: range -128..127, negative exactly when bit 7 is set, congruent to the byte mod 256 |
| Assembly.Combine | src/lib.rs:117-119 | `u16(lo) + (u16(hi) << 8)` equals `lo + 256*hi` exactly, so the `u16` addition never overflows and the shift drops nothing |
| Assembly.ToI16 | src/lib.rs:117-119 | `as i16` is congruent to the word mod 2^16 and is negative exactly when the word is at least 0x8000 |
| Assembly.FromI16 | src/lib.rs:117-119 | `as u16` is a right inverse of `as i16` |
| Assembly.FromI16ToI16 | src/lib.rs:117-119 | `as u16` is also a left inverse of `as i16`: the reinterpretation is a bijection |
| Assembly.CombineIsFromLeBytes | src/lib.rs:116-120 | the per-axis expression equals `i16::from_le_bytes([lo, hi])` |
| Assembly.AccelTriple | src/lib.rs:116-120 | x, y, z are `from_le_bytes` of buffer bytes (0,1), (2,3), (4,5) |
| Assembly.MagTriple | src/lib.rs:134-139 | x is `from_le_bytes` of (buffer[1], buffer[0]), y of (5,4), z of (3,2): big-endian, wire order X, Z, Y remapped to X, Y, Z |
| Assembly.TempValue | src/lib.rs:160 | the result lies in [-2048, 2047], is negative exactly when bit 7 of the high byte is set, and equals signed high byte * 16 + low byte / 16 (arithmetic shift) |
| Assembly.TempExamples | src/lib.rs:148-160 | readings 0x1900, 0xFF00 and 0xFFF0 give 400, -16 and -1 |
| Assembly.SensitivityPatch | src/lib.rs:165-167 | bits outside 4-5 keep the register's value, bits 4-5 hold the 2-bit code |
| Assembly.SensitivityPatchOfOwnCode | src/lib.rs:164-168 | writing back the code a register already holds leaves it unchanged |
| Assembly.SensitivityPatchTwice | src/lib.rs:164-168 | a second patch overrides the first |
| AccelRegisters.AddrLeavesMultiClear | src/lib.rs:232-233 | every accelerometer sub-address leaves bit 7 clear, so OR-ing in MULTI keeps the address and adds only the auto-increment flag |
| MagRegisters.AddrRoundTrip | src/registers/mag.rs:12-34 | `addr()` is the discriminant: at most 0x0C or one of 0x31, 0x32, and decoding it gives the register back |
| MagRegisters.AddrInjective | src/registers/mag.rs:12-28 | the fifteen discriminants are pairwise distinct |
| MagRegisters.FromAddrIsInverse | src/registers/mag.rs:12-34 | a sub-address names a register exactly when it is one of the fifteen discriminants, and then it is that register's `addr()` |
| MagRegisters.NextPointer | src/lib.rs:303-305 | the auto-increment rule never leaves 0x00..0x0C |
| MagRegisters.BurstStaysInLowBlock | src/lib.rs:300-305 | after the first byte every sub-address of a burst lies in 0x00..0x0C, and a burst one byte longer reads the same sub-addresses plus the next one |
| MagRegisters.PointerCountsUpInOutputBlock | src/lib.rs:303-305 | from 0x03 up to 0x08 the pointer just counts up |
| MagRegisters.OutputBurst | src/registers/mag.rs:16-21 | a 6-byte burst from OUT_X_H_M reads X_H, X_L, Z_H, Z_L, Y_H, Y_L and ends at 0x08, before the wrap |
| MagRegisters.IdentificationAndTemperatureAddresses | src/registers/mag.rs:23-27 | IRA, IRB, IRC are 0x0A, 0x0B, 0x0C; TEMP_OUT_H/L are 0x31/0x32, outside the output block |
| MagRegisters.TemperatureNotReachableByBurst | src/lib.rs:300-305 | auto-increment never reaches 0x31 or 0x32 after the first byte, and a two-byte burst from 0x31 reads 0x31 then 0x00 |
| I2cBus.Completed | src/lib.rs:190-193 | a write succeeds exactly when acknowledged; a fault's error is passed on unchanged |
| I2cBus.Filled | src/lib.rs:224-239 | after an acknowledged `write_read` of n bytes the buffer holds exactly the n bytes clocked out; after a fault there is no buffer, only the error |
| I2cBus.FailFastUnique | src/lib.rs:60-99 | a fail-fast run is determined by the replies: no two different prefixes both fit |
| I2cBus.FailFastOutcome | src/lib.rs:60-99 | a fail-fast run succeeds exactly when every transaction went out and each was acknowledged |
| I2cBus.RunFailFastIsFailFast | src/lib.rs:60-99 | the reference run stops at the first fault, with that fault as its outcome |
| I2cBus.RunFromStep | src/lib.rs:60-99 | one more call either ends the run with its fault, as the last transaction, or is acknowledged and the run goes on from the next index |
| I2cBus.FailFastCons | src/lib.rs:60-99 | an acknowledged first call followed by a fail-fast run of the rest is a fail-fast run of the whole, with the rest's outcome |
| I2cBus.RunFromIsFailFast | src/lib.rs:60-99 | the run from any index keeps the old trace as a prefix, adds a fail-fast run of the remaining calls and has that run's outcome |
| I2cBus.RunFromAllAcked | src/lib.rs:60-99 | when every remaining call is acknowledged, all of them go out and the run succeeds |
| I2cBus.RunFailFastAllAcked | src/lib.rs:60-99 | when every call is acknowledged, the whole sequence is appended and the outcome is `Ok` |
| I2cBus.Bus.constructor | src/lib.rs:32 | a new bus has an empty trace |
| I2cBus.Bus.Write | src/lib.rs:32 | `write` appends one transaction; its result is the reply's |
| I2cBus.Bus.WriteRead | src/lib.rs:32 | `write_read` appends one transaction and fills the whole buffer when acknowledged |
| Driver.AccelBurstRequest | src/lib.rs:231-233 | an accelerometer burst sends the start sub-address with bit 7 set and asks for n bytes |
| Driver.MagBurstRequest | src/lib.rs:319-320 | a magnetometer burst sends the start sub-address unmodified, with bit 7 clear |
| Driver.ByteRead | src/lib.rs:292-295 | a single-byte read yields the first byte clocked out, or the fault |
| Driver.InitSequenceShape | src/lib.rs:60-99 | `new` issues eight writes, each of two bytes `[addr, value]` |
| Driver.InitSequenceTargets | src/lib.rs:60-99 | in order: to 0x20..0x25 (CTRL_REG1_A..CTRL_REG6_A) on the accelerometer, then to 0x02 (MR_REG_M) and 0x00 (CRA_REG_M) on the magnetometer |
| Driver.InitSequenceValues | src/lib.rs:60-99 | CTRL_REG2_A..CTRL_REG6_A are written 0x00. With lossless codecs the other three writes decode to 400 Hz/normal power/XYZ on, continuous conversion, and temperature on/75 Hz |
| Driver.IdentifyOnlyReads | src/lib.rs:103-106 | `identify` issues only single-byte magnetometer reads, of IRA, IRB, IRC in order |
| Driver.TempReadOrder | src/lib.rs:156-158 | `temp` issues two single-byte reads, TEMP_OUT_L_M (0x32) before TEMP_OUT_H_M (0x31) |
| Driver.Lsm303dlhc.Own | src/lib.rs:61 | the session takes the bus and issues nothing |
| Driver.Lsm303dlhc.New | src/lib.rs:60-99 | the final trace and outcome are exactly those of the fail-fast run of the eight init writes; the result fails with the first fault, and a fresh session on the same bus exists only if all eight were acknowledged |
| Driver.Lsm303dlhc.ResetAccelControlRegisters | src/lib.rs:76-82 | the five resets continue the fail-fast run of the init writes: on success the run goes on from write 6, on a fault it ends there with that fault |
| Driver.Lsm303dlhc.Identify | src/lib.rs:103-109 | the final trace and outcome are those of the fail-fast run of the three ID reads; on success the result is true exactly when the bytes are 0x48, 0x34, 0x33 |
| Driver.Lsm303dlhc.Accel | src/lib.rs:111-121 | one 6-byte burst from OUT_X_L_A with bit 7 set; each axis is `from_le_bytes` of its bytes, or the fault |
| Driver.Lsm303dlhc.AccelOdr | src/lib.rs:124-127 | a read-modify-write of CTRL_REG1_A that replaces the data rate; with a lossless codec every other decoded field survives |
| Driver.Lsm303dlhc.Mag | src/lib.rs:129-141 | one 6-byte burst from OUT_X_H_M; X, Y, Z are big-endian from wire positions (0,1), (4,5), (2,3) |
| Driver.Lsm303dlhc.MagOdr | src/lib.rs:143-146 | a read-modify-write of CRA_REG_M that replaces the data rate; with a lossless codec the temperature enable survives |
| Driver.Lsm303dlhc.Temp | src/lib.rs:156-161 | the final trace and outcome are those of the fail-fast run of the two temperature reads; on success the 12-bit value of the low and high bytes read |
| Driver.Lsm303dlhc.SetAccelSensitivity | src/lib.rs:164-168 | a raw read-modify-write of CTRL_REG4_A whose written byte is the sensitivity patch of the byte read |
| Driver.Lsm303dlhc.ReadRegister | src/lib.rs:171-182 | one single-byte read of the register; the result is the decoded byte, or the fault |
| Driver.Lsm303dlhc.WriteRegister | src/lib.rs:185-194 | one write of `[addr, encode(value)]`; the result is the reply's |
| Driver.Lsm303dlhc.ModifyRegister | src/lib.rs:197-205 | one read, then, only if it was acknowledged, one write of `encode(f(decode(b)))` to the same register; a failed read issues no write |
| Driver.Lsm303dlhc.ReadAccelRegister | src/lib.rs:208-210 | a one-byte accelerometer burst; the byte read, or the fault |
| Driver.Lsm303dlhc.ReadAccelRegisters | src/lib.rs:217-240 | exactly one `write_read` to the accelerometer with `[addr | 0x80]` and n bytes back |
| Driver.Lsm303dlhc.WriteAccelRegister | src/lib.rs:246-252 | one write of `[addr, byte]` to the accelerometer |
| Driver.Lsm303dlhc.WriteAccelRegisterUnchecked | src/lib.rs:254-261 | one write of `[addr, byte]` to the accelerometer |
| Driver.Lsm303dlhc.ModifyAccelRegister | src/lib.rs:267-276 | one burst read of the register, then, only if acknowledged, one write of `f(b)` |
| Driver.Lsm303dlhc.ModifyAccelRegisterUnchecked | src/lib.rs:278-289 | one burst read of the register, then, only if acknowledged, one write of `f(b)` |
| Driver.Lsm303dlhc.ReadMagRegister | src/lib.rs:292-295 | a one-byte magnetometer read; the byte read, or the fault |
| Driver.Lsm303dlhc.ReadMagRegisters | src/lib.rs:308-327 | exactly one `write_read` to the magnetometer with `[addr]` unmodified and n bytes back |
| Driver.Lsm303dlhc.WriteMagRegister | src/lib.rs:333-339 | one write of `[addr, byte]` to the magnetometer |
| Driver.Lsm303dlhc.WriteMagRegisterUnchecked | src/lib.rs:341-348 | one write of `[addr, byte]` to the magnetometer |
| Driver.Lsm303dlhc.ModifyMagRegister | src/lib.rs:354-363 | one read of the register, then, only if acknowledged, one write of `f(b)` |
| Driver.Lsm303dlhc.ModifyMagRegisterUnchecked | src/lib.rs:365-372 | one read of the register, then, only if acknowledged, one write of `f(b)` |
| MockDevice.AccelReadsOutputRegisters | src/lib.rs:112-120 | against a register file, `accel`'s axes are `from_le_bytes` of OUT_X/Y/Z_L_A and OUT_X/Y/Z_H_A, because bit 7 makes the pointer count up |
| MockDevice.AccelWithoutMultiStaysPut | src/lib.rs:214-216 | without bit 7 every byte of an accelerometer read comes from the same register |
| MockDevice.MagReadsOutputRegisters | src/lib.rs:130-139 | against a register file, `mag`'s x, y, z are `from_le_bytes` of the L and H registers of the same axis |
| MockDevice.DeviceRunsThrough | src/lib.rs:60-99 | against a chip that never faults, any fail-fast run appends every call and succeeds |
| MockDevice.TempReadsTemperatureRegisters | src/lib.rs:156-160 | against a register file both temperature reads go out, taking TEMP_OUT_L_M and TEMP_OUT_H_M |
| MockDevice.IdentifyReadsIdentificationRegisters | src/lib.rs:103-109 | against a register file all three reads go out, and `identify` is true exactly when IRA, IRB, IRC hold 0x48, 0x34, 0x33 |
| MockDevice.InitCompletes | src/lib.rs:60-99 | against a chip that never faults, all eight init writes go out and a session is made |

## Left out

- The I2C transport (`embedded_hal` `Write`/`WriteRead`): this is I/O. It is
  modelled only as a trace-recording bus whose replies come from an oracle.
- Bit layouts of the typed registers (`ControlRegister1A`, `CraRegisterM`,
  `ModeRegisterM`, the ODR enums, `Sensitivity::into_bits`). They belong to
  the external `lsm303dlhc_registers` crate, which is not part of this model.
  - Each codec is an opaque pair of functions, and "lossless" is a
    hypothesis the contracts name.
  - A sensitivity code is any 2-bit value.
  - `ControlRegister2A::new()` to `ControlRegister6A::new()` are taken to
    encode as 0x00.
  - The identification registers' `value()` is the whole byte.
- The accelerometer's register addresses also come from that crate. The
  values used are those of the LSM303DLHC datasheet's register map: device
  0x19, and the thirty registers from CTRL_REG1_A (0x20) to TIME_WINDOW_A
  (0x3D), which is the domain of the raw accelerometer methods.
- The `unsafe` uninitialised buffer in the burst reads. The buffer is a
  fresh array the bus fills, handed out as a sequence only on success.
- `generic_array` typenum lengths: the length is a `nat` parameter.
- The `accelerometer_impl` and `wrapper` modules: not part of this model.
- The deprecated `Lsm303dlhc` alias and the `defmt`/`Debug` derives: they
  have no behaviour.
- The magnetometer's pointer wrap-around is chip behaviour, not driver code.
  Only the device model uses it; the driver never relies on it.
- MockDevice.Answer: writes are acknowledged but not stored, and the chip
  never faults. It serves only to read the driver's read paths end to end.
- Lsm303dlhc.AccelOdr, Lsm303dlhc.MagOdr: the decoded-field preservation is
  stated only under a lossless codec, because the codecs are opaque.
- Lsm303dlhc.New: Dafny constructors cannot fail, so `new` is a static
  method returning `Result`. The session object is a fresh object sharing
  the bus.
