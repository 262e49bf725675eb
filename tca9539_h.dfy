/** The declarations of the TCA9539 16-bit I2C port-expander driver used by the programmer's
    firmware (flash-programmer/pico/TCA9539.h): the register layout, the register addresses
    and the meaning of the bits. */
module Tca9539Registers {

  /** TCA9539_register: a 16-bit word that is also readable and writable as its two bytes.
      The target is little-endian, so `low` is the word's low byte and `high` its high byte. */
  datatype Register = Register(word: bv16) {
    function Low(): bv8 {
      (word & 0xFF) as bv8
    }

    function High(): bv8 {
      (word >> 8) as bv8
    }
  }

  /** The register whose two byte fields hold `low` and `high`. */
  function FromBytes(low: bv8, high: bv8): (r: Register)
    ensures r.Low() == low && r.High() == high
  {
    Register(((high as bv16) << 8) | (low as bv16))
  }

  /** A write through the `low` field: the high byte stays. */
  function WithLow(reg: Register, low: bv8): (r: Register)
    ensures r.Low() == low && r.High() == reg.High()
  {
    Register((reg.word & 0xFF00) | (low as bv16))
  }

  /** A write through the `high` field: the low byte stays. */
  function WithHigh(reg: Register, high: bv8): (r: Register)
    ensures r.Low() == reg.Low() && r.High() == high
  {
    Register((reg.word & 0x00FF) | ((high as bv16) << 8))
  }

  /** The two views of the union describe the same register: its word is high * 256 + low. */
  lemma RegisterUnion(reg: Register)
    ensures FromBytes(reg.Low(), reg.High()) == reg
    ensures reg.word == (reg.High() as bv16) * 256 + reg.Low() as bv16
  {
  }

  /** A register is determined by its two bytes. */
  lemma RegisterBytesInjective(r: Register, s: Register)
    requires r.Low() == s.Low() && r.High() == s.High()
    ensures r == s
  {
    RegisterUnion(r);
    RegisterUnion(s);
  }

  /** TCA9539_REG_SIZE: the pins of the two 8-bit ports, 0 to 15. */
  const REG_SIZE: bv8 := 16

  // The command bytes that select a register; port 1 of each pair is at the next address.
  const INPUT_ADDR: bv8 := 0x00
  const INPUT_PORT_0_ADDR: bv8 := 0x00
  const INPUT_PORT_1_ADDR: bv8 := 0x01
  const OUTPUT_ADDR: bv8 := 0x02
  const OUTPUT_PORT_0_ADDR: bv8 := 0x02
  const OUTPUT_PORT_1_ADDR: bv8 := 0x03
  const POL_INV_ADDR: bv8 := 0x04
  const POL_INV_PORT_0_ADDR: bv8 := 0x04
  const POL_INV_PORT_1_ADDR: bv8 := 0x05
  const CONFIG_ADDR: bv8 := 0x06
  /** Spelled TCA9539_CONFIR_PORT_0_ADDR in the header. */
  const CONFIG_PORT_0_ADDR: bv8 := 0x06
  const CONFIG_PORT_1_ADDR: bv8 := 0x07

  /** The register pairs: each 16-bit register is the pair starting at an even address,
      port 0 in its low byte. */
  lemma PortAddresses()
    ensures INPUT_PORT_0_ADDR == INPUT_ADDR && INPUT_PORT_1_ADDR == INPUT_ADDR + 1
    ensures OUTPUT_PORT_0_ADDR == OUTPUT_ADDR && OUTPUT_PORT_1_ADDR == OUTPUT_ADDR + 1
    ensures POL_INV_PORT_0_ADDR == POL_INV_ADDR && POL_INV_PORT_1_ADDR == POL_INV_ADDR + 1
    ensures CONFIG_PORT_0_ADDR == CONFIG_ADDR && CONFIG_PORT_1_ADDR == CONFIG_ADDR + 1
  {
  }

  // The enums: a pin's configuration bit is 1 for input, its polarity-inversion bit 1 for
  // inverted, its output bit 1 for high.
  const PIN_DIR_OUTPUT: bool := false
  const PIN_DIR_INPUT: bool := true
  const POL_INV_FALSE: bool := false
  const POL_INV_TRUE: bool := true
  const PIN_OUT_LOW: bool := false
  const PIN_OUT_HIGH: bool := true

  // The device's power-on register contents: outputs high, no inversion, every pin an input.
  const OUTPUT_DEFAULT: bv16 := 0xFFFF
  const POL_INV_DEFAULT: bv16 := 0x0000
  const CONFIG_DEFAULT: bv16 := 0xFFFF
}
