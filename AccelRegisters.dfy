/** The accelerometer's bus address and register map.
    The driver takes them from the external register crate, which is not part
    of this model; the values below are those of the LSM303DLHC datasheet
    (table 17, register address map). */
module AccelRegisters {
  import opened I2cBus

  /** The accelerometer answers at 0b0011001. */
  const ADDRESS: DeviceAddress := 0x19

  /** Bit 7 of a sub-address asks the accelerometer to auto-increment
      (section 5.1.2 of the reference manual). */
  const MULTI: bv8 := 0x80

  /** Every register of the accelerometer's map, 0x20 to 0x3D. */
  datatype Register =
    | CTRL_REG1_A | CTRL_REG2_A | CTRL_REG3_A | CTRL_REG4_A | CTRL_REG5_A | CTRL_REG6_A
    | REFERENCE_A | STATUS_REG_A
    | OUT_X_L_A | OUT_X_H_A | OUT_Y_L_A | OUT_Y_H_A | OUT_Z_L_A | OUT_Z_H_A
    | FIFO_CTRL_REG_A | FIFO_SRC_REG_A
    | INT1_CFG_A | INT1_SRC_A | INT1_THS_A | INT1_DURATION_A
    | INT2_CFG_A | INT2_SRC_A | INT2_THS_A | INT2_DURATION_A
    | CLICK_CFG_A | CLICK_SRC_A | CLICK_THS_A | TIME_LIMIT_A | TIME_LATENCY_A | TIME_WINDOW_A

  /** `RegisterAddress::addr`. */
  function Addr(r: Register): bv8 {
    match r
    case CTRL_REG1_A => 0x20
    case CTRL_REG2_A => 0x21
    case CTRL_REG3_A => 0x22
    case CTRL_REG4_A => 0x23
    case CTRL_REG5_A => 0x24
    case CTRL_REG6_A => 0x25
    case REFERENCE_A => 0x26
    case STATUS_REG_A => 0x27
    case OUT_X_L_A => 0x28
    case OUT_X_H_A => 0x29
    case OUT_Y_L_A => 0x2A
    case OUT_Y_H_A => 0x2B
    case OUT_Z_L_A => 0x2C
    case OUT_Z_H_A => 0x2D
    case FIFO_CTRL_REG_A => 0x2E
    case FIFO_SRC_REG_A => 0x2F
    case INT1_CFG_A => 0x30
    case INT1_SRC_A => 0x31
    case INT1_THS_A => 0x32
    case INT1_DURATION_A => 0x33
    case INT2_CFG_A => 0x34
    case INT2_SRC_A => 0x35
    case INT2_THS_A => 0x36
    case INT2_DURATION_A => 0x37
    case CLICK_CFG_A => 0x38
    case CLICK_SRC_A => 0x39
    case CLICK_THS_A => 0x3A
    case TIME_LIMIT_A => 0x3B
    case TIME_LATENCY_A => 0x3C
    case TIME_WINDOW_A => 0x3D
  }

  /** Every sub-address leaves bit 7 free for `MULTI`. */
  lemma AddrLeavesMultiClear(r: Register)
    ensures Addr(r) & MULTI == 0
  {
  }

  /** Section 5.1.2: with bit 7 of the sub-address set the register pointer
      advances after every byte, otherwise it stays put. Sub-addresses above
      0x7F are not modelled, so the pointer is a plain number. */
  function PointerAfter(sub: bv8, i: nat): nat {
    (sub & 0x7F) as int + (if sub & MULTI != 0 then i else 0)
  }
}
