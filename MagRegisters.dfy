/** The magnetometer's bus address and register map (src/registers/mag.rs),
    together with the register-pointer auto-increment rule of section 5.1.3
    of the LSM303DLHC reference manual, which only the device model uses. */
module MagRegisters {
  import opened Wrappers
  import opened I2cBus

  /** `ADDRESS`: the magnetometer answers at 0b0011110. */
  const ADDRESS: DeviceAddress := 0x1E

  /** `Register`: the magnetometer's sub-addresses. */
  datatype Register =
    | CRA_REG_M | CRB_REG_M | MR_REG_M
    | OUT_X_H_M | OUT_X_L_M | OUT_Z_H_M | OUT_Z_L_M | OUT_Y_H_M | OUT_Y_L_M
    | SR_REG_M | IRA_REG_M | IRB_REG_M | IRC_REG_M
    | TEMP_OUT_H_M | TEMP_OUT_L_M

  /** `Register::addr`: the enum's discriminant. */
  function Addr(r: Register): bv8 {
    match r
    case CRA_REG_M => 0x00
    case CRB_REG_M => 0x01
    case MR_REG_M => 0x02
    case OUT_X_H_M => 0x03
    case OUT_X_L_M => 0x04
    case OUT_Z_H_M => 0x05
    case OUT_Z_L_M => 0x06
    case OUT_Y_H_M => 0x07
    case OUT_Y_L_M => 0x08
    case SR_REG_M => 0x09
    case IRA_REG_M => 0x0A
    case IRB_REG_M => 0x0B
    case IRC_REG_M => 0x0C
    case TEMP_OUT_H_M => 0x31
    case TEMP_OUT_L_M => 0x32
  }

  /** The register a sub-address names, if any. */
  function FromAddr(a: bv8): Option<Register> {
    if a == 0x00 then Some(CRA_REG_M)
    else if a == 0x01 then Some(CRB_REG_M)
    else if a == 0x02 then Some(MR_REG_M)
    else if a == 0x03 then Some(OUT_X_H_M)
    else if a == 0x04 then Some(OUT_X_L_M)
    else if a == 0x05 then Some(OUT_Z_H_M)
    else if a == 0x06 then Some(OUT_Z_L_M)
    else if a == 0x07 then Some(OUT_Y_H_M)
    else if a == 0x08 then Some(OUT_Y_L_M)
    else if a == 0x09 then Some(SR_REG_M)
    else if a == 0x0A then Some(IRA_REG_M)
    else if a == 0x0B then Some(IRB_REG_M)
    else if a == 0x0C then Some(IRC_REG_M)
    else if a == 0x31 then Some(TEMP_OUT_H_M)
    else if a == 0x32 then Some(TEMP_OUT_L_M)
    else None
  }

  /** Every discriminant is at most 0x0C or one of 0x31, 0x32, and decoding
      it gives the register back. */
  lemma AddrRoundTrip(r: Register)
    ensures Addr(r) <= 0x0C || Addr(r) == 0x31 || Addr(r) == 0x32
    ensures FromAddr(Addr(r)) == Some(r)
  {
  }

  /** No two registers share a sub-address. */
  lemma AddrInjective(r1: Register, r2: Register)
    requires Addr(r1) == Addr(r2)
    ensures r1 == r2
  {
    AddrRoundTrip(r1);
    AddrRoundTrip(r2);
  }

  /** Every sub-address that names a register is that register's `addr()`. */
  lemma FromAddrIsInverse(a: bv8)
    ensures FromAddr(a).Some? ==> Addr(FromAddr(a).value) == a
    ensures FromAddr(a).None? <==> !(a <= 0x0C || a == 0x31 || a == 0x32)
  {
  }

  /** Section 5.1.3: after each byte the pointer moves on; reaching OUT_Y_L_M
      (0x08) wraps it to OUT_X_H_M (0x03), reaching IRC_REG_M (0x0C) or above
      wraps it to CRA_REG_M (0x00). */
  function NextPointer(a: bv8): (b: bv8)
    ensures b <= 0x0C
  {
    if a == 0x08 then 0x03
    else if a >= 0x0C then 0x00
    else a + 1
  }

  /** The sub-address the device reads from after `i` auto-increments from `a`. */
  function PointerAfter(a: bv8, i: nat): bv8 {
    if i == 0 then a else NextPointer(PointerAfter(a, i - 1))
  }

  /** The sub-addresses a burst of `n` bytes starting at `a` reads. */
  function BurstAddresses(a: bv8, n: nat): seq<bv8> {
    seq(n, i requires 0 <= i => PointerAfter(a, i))
  }

  /** Whatever the start, every byte of a burst after the first comes from
      the register map's low block 0x00..0x0C, and a longer burst only adds
      bytes at the end. */
  lemma BurstStaysInLowBlock(a: bv8, n: nat)
    ensures forall i :: 1 <= i < n ==> BurstAddresses(a, n)[i] <= 0x0C
    ensures BurstAddresses(a, n + 1) == BurstAddresses(a, n) + [PointerAfter(a, n)]
  {
    forall i | 1 <= i < n ensures BurstAddresses(a, n)[i] <= 0x0C {
      assert PointerAfter(a, i) == NextPointer(PointerAfter(a, i - 1));
    }
  }

  /** Within the output block, before the wrap at 0x08, the pointer just counts up. */
  lemma {:induction false} PointerCountsUpInOutputBlock(a: bv8, i: nat)
    requires 0x03 <= a && a as int + i <= 0x08
    ensures PointerAfter(a, i) as int == a as int + i
  {
    if i > 0 {
      PointerCountsUpInOutputBlock(a, i - 1);
    }
  }

  /** A six-byte burst from OUT_X_H_M reads exactly the six output registers,
      in the order X_H, X_L, Z_H, Z_L, Y_H, Y_L, and stops short of the wrap. */
  lemma OutputBurst()
    ensures BurstAddresses(Addr(OUT_X_H_M), 6) ==
      [Addr(OUT_X_H_M), Addr(OUT_X_L_M), Addr(OUT_Z_H_M),
       Addr(OUT_Z_L_M), Addr(OUT_Y_H_M), Addr(OUT_Y_L_M)]
    ensures Addr(OUT_X_H_M) as int + 6 - 1 == 0x08
  {
    forall i | 0 <= i < 6 ensures PointerAfter(0x03, i) as int == 0x03 + i {
      PointerCountsUpInOutputBlock(0x03, i);
    }
  }

  /** The identification registers sit at 0x0A..0x0C and the temperature
      registers at 0x31 (high) and 0x32 (low), outside the output block. */
  lemma IdentificationAndTemperatureAddresses()
    ensures Addr(IRA_REG_M) == 0x0A && Addr(IRB_REG_M) == 0x0B && Addr(IRC_REG_M) == 0x0C
    ensures Addr(TEMP_OUT_H_M) == 0x31 && Addr(TEMP_OUT_L_M) == 0x32
    ensures forall r :: 0x03 <= Addr(r) <= 0x08 ==> r != TEMP_OUT_H_M && r != TEMP_OUT_L_M
  {
  }

  /** After the first byte, auto-increment never points at a temperature
      register, and a burst from TEMP_OUT_H_M wraps to CRA_REG_M instead of
      reaching TEMP_OUT_L_M. */
  lemma TemperatureNotReachableByBurst(a: bv8, i: nat)
    requires i > 0
    ensures PointerAfter(a, i) != Addr(TEMP_OUT_H_M) && PointerAfter(a, i) != Addr(TEMP_OUT_L_M)
    ensures BurstAddresses(Addr(TEMP_OUT_H_M), 2) == [Addr(TEMP_OUT_H_M), Addr(CRA_REG_M)]
  {
    assert PointerAfter(a, i) == NextPointer(PointerAfter(a, i - 1));
    assert PointerAfter(0x31, 1) == NextPointer(0x31);
  }
}
