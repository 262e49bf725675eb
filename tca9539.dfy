/** The TCA9539 driver (flash-programmer/pico/TCA9539.cpp): a shadow copy of the expander's
    four 16-bit registers, updated bit by bit or word by word and written to the device over
    I2C. The I2C bus is the append-only trace `bus` of the transmissions and read requests the
    driver makes; what the device answers to a read request is a parameter. */
module Tca9539 {
  import opened Tca9539Registers

  /** One exchange on the bus: beginTransmission, the bytes written, endTransmission; a
      requestFrom for a number of bytes; or the bus's begin. */
  datatype BusEvent = Begin | Transmission(address: bv8, bytes: seq<bv8>) | Request(address: bv8, count: nat)

  /** _valid_pin: the pin is one of the 16. */
  predicate ValidPin(pin: bv8): (r: bool)
    ensures r <==> pin as nat < 16
  {
    pin < REG_SIZE
  }

  /** The mask of one bit, `1 << bit`, for a bit below 16. */
  function Mask(bit: bv8): bv16
    requires ValidPin(bit)
  {
    (1 as bv16) << bit
  }

  /** _TCA9539_get_bit: the register's bit, or false for a pin that is not valid. */
  function GetBit(reg: Register, bit: bv8): (b: bool)
    ensures !ValidPin(bit) ==> !b
  {
    ValidPin(bit) && ((reg.word >> bit) & 1) == 1
  }

  /** _TCA9539_set_bit: for a valid bit, that bit becomes `value` and no other bit changes;
      for any other bit the register stays as it was. */
  function SetBit(reg: Register, bit: bv8, value: bool): (r: Register)
    ensures !ValidPin(bit) ==> r == reg
    ensures ValidPin(bit) ==> GetBit(r, bit) == value
  {
    if !ValidPin(bit) then reg
    else if value then OrSets(reg.word, bit); Register(reg.word | Mask(bit))
    else AndClears(reg.word, bit); Register(reg.word & !Mask(bit))
  }

  // The bit-level facts behind SetBit, one at a time.

  lemma OrSets(w: bv16, bit: bv8)
    requires ValidPin(bit)
    ensures (((w | Mask(bit)) >> bit) & 1) == 1
  {
  }

  lemma OrKeeps(w: bv16, bit: bv8)
    requires ValidPin(bit)
    ensures ((w | Mask(bit)) & !Mask(bit)) == (w & !Mask(bit))
  {
  }

  lemma AndClears(w: bv16, bit: bv8)
    requires ValidPin(bit)
    ensures (((w & !Mask(bit)) >> bit) & 1) == 0
  {
  }

  lemma AndKeeps(w: bv16, bit: bv8)
    requires ValidPin(bit)
    ensures ((w & !Mask(bit)) & !Mask(bit)) == (w & !Mask(bit))
  {
  }

  /** Setting a valid bit leaves the other fifteen bits of the word as they were. */
  lemma SetBitMasked(reg: Register, bit: bv8, value: bool)
    requires ValidPin(bit)
    ensures (SetBit(reg, bit, value).word & !Mask(bit)) == (reg.word & !Mask(bit))
  {
    if value {
      OrKeeps(reg.word, bit);
    } else {
      AndKeeps(reg.word, bit);
    }
  }

  /** Setting one bit leaves every other bit as it was. */
  lemma SetBitKeepsOthers(reg: Register, bit: bv8, value: bool, other: bv8)
    requires other != bit
    ensures GetBit(SetBit(reg, bit, value), other) == GetBit(reg, other)
  {
  }

  /** Setting a bit to what it already is changes nothing. */
  lemma SetBitToItself(reg: Register, bit: bv8)
    ensures SetBit(reg, bit, GetBit(reg, bit)) == reg
  {
  }

  /** Setting the same bit twice keeps the second value. */
  lemma SetBitTwice(reg: Register, bit: bv8, v: bool, w: bool)
    ensures SetBit(SetBit(reg, bit, v), bit, w) == SetBit(reg, bit, w)
  {
  }

  /** The byte a Wire read yields: the next received byte, or -1 truncated to uint8 when
      there is none. */
  function ReadByte(response: seq<bv8>, k: nat): bv8 {
    if k < |response| then response[k] else 0xFF
  }

  class Driver {
    var addr: bv8
    var resetPin: bv8
    var intPin: bv8
    var input: Register
    var output: Register
    var polInv: Register
    var config: Register
    var bus: seq<BusEvent>

    /** TCA9539(): address and pins 0. The registers are left as they are in memory until
        an init, so nothing is promised about them. */
    constructor Default()
      ensures addr == 0 && resetPin == 0 && intPin == 0 && bus == []
    {
      addr, resetPin, intPin := 0, 0, 0;
      bus := [];
    }

    constructor WithAddress(address: bv8)
      ensures addr == address && resetPin == 0 && intPin == 0 && bus == []
    {
      addr, resetPin, intPin := address, 0, 0;
      bus := [];
    }

    constructor WithPins(resetPin: bv8, intPin: bv8, address: bv8)
      ensures addr == address && this.resetPin == resetPin && this.intPin == intPin && bus == []
    {
      this.resetPin, this.intPin, addr := resetPin, intPin, address;
      bus := [];
    }

    /** _set_reg_defaults: the device's power-on contents (and input 0). */
    method SetRegDefaults()
      modifies this`input, this`output, this`polInv, this`config
      ensures input == Register(0) && output == Register(OUTPUT_DEFAULT)
      ensures polInv == Register(POL_INV_DEFAULT) && config == Register(CONFIG_DEFAULT)
      ensures forall p :: ValidPin(p) ==> GetBit(config, p) == PIN_DIR_INPUT && GetBit(output, p) == PIN_OUT_HIGH
    {
      input := Register(0);
      output := Register(0xFFFF);
      polInv := Register(0);
      config := Register(0xFFFF);
    }

    /** TCA9539_init(): the bus is started and the shadow registers take their defaults;
        pulsing the reset pin and the interrupt pin's mode are outside the model. */
    method Init()
      modifies this`input, this`output, this`polInv, this`config, this`bus
      ensures bus == old(bus) + [Begin]
      ensures input == Register(0) && output == Register(OUTPUT_DEFAULT)
      ensures polInv == Register(POL_INV_DEFAULT) && config == Register(CONFIG_DEFAULT)
    {
      bus := bus + [Begin];
      SetRegDefaults();
    }

    method InitWith(address: bv8)
      modifies this`addr, this`input, this`output, this`polInv, this`config, this`bus
      ensures addr == address && bus == old(bus) + [Begin]
      ensures input == Register(0) && output == Register(OUTPUT_DEFAULT)
      ensures polInv == Register(POL_INV_DEFAULT) && config == Register(CONFIG_DEFAULT)
    {
      addr := address;
      Init();
    }

    /** Writing a 16-bit register from its command byte: address, low byte, high byte. */
    method WriteRegister(command: bv8, reg: Register)
      modifies this`bus
      ensures bus == old(bus) + [Transmission(addr, [command, reg.Low(), reg.High()])]
    {
      bus := bus + [Transmission(addr, [command, reg.Low(), reg.High()])];
    }

    /** TCA9539_set_dir: for a valid pin, set its configuration bit and write the
        configuration register; for any other pin nothing happens. */
    method SetDir(pin: bv8, dir: bool)
      modifies this`config, this`bus
      ensures !ValidPin(pin) ==> config == old(config) && bus == old(bus)
      ensures ValidPin(pin) ==>
        && config == SetBit(old(config), pin, dir)
        && bus == old(bus) + [Transmission(addr, [CONFIG_ADDR, config.Low(), config.High()])]
      ensures ValidPin(pin) ==> CheckPinDir(pin, dir)
    {
      if !ValidPin(pin) {
        return;
      }
      config := SetBit(config, pin, dir);
      WriteRegister(CONFIG_ADDR, config);
    }

    /** TCA9539_set_pol_inv. */
    method SetPolInv(pin: bv8, inv: bool)
      modifies this`polInv, this`bus
      ensures !ValidPin(pin) ==> polInv == old(polInv) && bus == old(bus)
      ensures ValidPin(pin) ==>
        && polInv == SetBit(old(polInv), pin, inv)
        && bus == old(bus) + [Transmission(addr, [POL_INV_ADDR, polInv.Low(), polInv.High()])]
    {
      if !ValidPin(pin) {
        return;
      }
      polInv := SetBit(polInv, pin, inv);
      WriteRegister(POL_INV_ADDR, polInv);
    }

    /** TCA9539_set_pin_val. */
    method SetPinVal(pin: bv8, val: bool)
      modifies this`output, this`bus
      ensures !ValidPin(pin) ==> output == old(output) && bus == old(bus)
      ensures ValidPin(pin) ==>
        && output == SetBit(old(output), pin, val)
        && bus == old(bus) + [Transmission(addr, [OUTPUT_ADDR, output.Low(), output.High()])]
    {
      if !ValidPin(pin) {
        return;
      }
      output := SetBit(output, pin, val);
      WriteRegister(OUTPUT_ADDR, output);
    }

    /** TCA9539_check_pin_dir: the pin is valid and its configuration bit is `dir`. */
    function CheckPinDir(pin: bv8, dir: bool): (b: bool)
      reads this
      ensures b <==> ValidPin(pin) && GetBit(config, pin) == dir
    {
      ValidPin(pin) && dir == (((config.word >> pin) & 1) == 1)
    }

    /** _TCA9539_read_reg: for a register address up to the configuration register, select
        it, request two bytes and store the first in the low byte and the second in the high
        byte; for a higher address nothing happens and the register is returned as it was. */
    method ReadReg(regAddr: bv8, reg: Register, response: seq<bv8>) returns (r: Register)
      modifies this`bus
      ensures regAddr > CONFIG_ADDR ==> r == reg && bus == old(bus)
      ensures regAddr <= CONFIG_ADDR ==>
        && r.Low() == ReadByte(response, 0) && r.High() == ReadByte(response, 1)
        && bus == old(bus) + [Transmission(addr, [regAddr]), Request(addr, 2)]
    {
      r := reg;
      if regAddr > CONFIG_ADDR {
        return;
      }
      bus := bus + [Transmission(addr, [regAddr])];
      bus := bus + [Request(addr, 2)];
      r := WithLow(r, ReadByte(response, 0));
      r := WithHigh(r, ReadByte(response, 1));
    }

    /** TCA9539_read_pin_val: read the input register and return the pin's bit; false, with
        no bus traffic, for a pin that is not valid. */
    method ReadPinVal(pin: bv8, response: seq<bv8>) returns (b: bool)
      modifies this`input, this`bus
      ensures !ValidPin(pin) ==> !b && input == old(input) && bus == old(bus)
      ensures ValidPin(pin) ==>
        && input == FromBytes(ReadByte(response, 0), ReadByte(response, 1))
        && b == GetBit(input, pin)
        && bus == old(bus) + [Transmission(addr, [INPUT_ADDR]), Request(addr, 2)]
    {
      if !ValidPin(pin) {
        return false;
      }
      input := ReadReg(INPUT_ADDR, input, response);
      RegisterBytesInjective(input, FromBytes(ReadByte(response, 0), ReadByte(response, 1)));
      b := GetBit(input, pin);
    }

    /** TCA9539_read_word: the first byte on the wire is the low byte. */
    method ReadWord(response: seq<bv8>) returns (w: bv16)
      modifies this`input, this`bus
      ensures input.Low() == ReadByte(response, 0) && input.High() == ReadByte(response, 1)
      ensures w == input.word
      ensures bus == old(bus) + [Transmission(addr, [INPUT_ADDR]), Request(addr, 2)]
    {
      input := ReadReg(INPUT_ADDR, input, response);
      w := input.word;
    }

    /** TCA9539_read_word_bigend: the first byte on the wire is the high byte. */
    method ReadWordBigend(response: seq<bv8>) returns (w: bv16)
      modifies this`input, this`bus
      ensures input.High() == ReadByte(response, 0) && input.Low() == ReadByte(response, 1)
      ensures w == input.word
      ensures bus == old(bus) + [Transmission(addr, [INPUT_ADDR]), Request(addr, 2)]
    {
      bus := bus + [Transmission(addr, [INPUT_ADDR])];
      bus := bus + [Request(addr, 2)];
      input := WithHigh(input, ReadByte(response, 0));
      input := WithLow(input, ReadByte(response, 1));
      w := input.word;
    }

    /** TCA9539_set_word: the output register becomes the word, sent low byte first. */
    method SetWord(word: bv16)
      modifies this`output, this`bus
      ensures output == Register(word)
      ensures bus == old(bus) + [Transmission(addr, [OUTPUT_ADDR, output.Low(), output.High()])]
      ensures FromBytes(Last(bus).bytes[1], Last(bus).bytes[2]).word == word
    {
      output := Register(word);
      WriteRegister(OUTPUT_ADDR, output);
      RegisterUnion(output);
    }

    /** TCA9539_set_word_bigend: the output register becomes the word, sent high byte first. */
    method SetWordBigend(word: bv16)
      modifies this`output, this`bus
      ensures output == Register(word)
      ensures bus == old(bus) + [Transmission(addr, [OUTPUT_ADDR, output.High(), output.Low()])]
      ensures FromBytes(Last(bus).bytes[2], Last(bus).bytes[1]).word == word
    {
      output := Register(word);
      bus := bus + [Transmission(addr, [OUTPUT_ADDR, output.High(), output.Low()])];
      RegisterUnion(output);
    }
  }

  function Last(events: seq<BusEvent>): BusEvent
    requires |events| > 0
  {
    events[|events| - 1]
  }
}
