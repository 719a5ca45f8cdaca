/** The GPIO helpers of src/gpio.c over the BCM2835 GPIO register block
    (BCM2835 ARM Peripherals manual, section 6.1): six function-select
    registers GPFSEL0-5 holding ten 3-bit fields each, the output set and
    clear registers GPSET0-1 and GPCLR0-1, and the pull-up/down control
    GPPUD with its clock registers GPPUDCLK0-1. */
module Gpio {

  /** `GpioFunc`, with the codes the manual gives to each function. */
  datatype GpioFunc = Input | Output | Alt0 | Alt1 | Alt2 | Alt3 | Alt4 | Alt5

  /** The 3-bit code of a function. */
  function Code(f: GpioFunc): (c: bv32)
    ensures c < 8
  {
    match f
    case Input => 0
    case Output => 1
    case Alt0 => 4
    case Alt1 => 5
    case Alt2 => 6
    case Alt3 => 7
    case Alt4 => 3
    case Alt5 => 2
  }

  /** Different functions have different codes. */
  lemma CodeInjective(f: GpioFunc, g: GpioFunc)
    ensures Code(f) == Code(g) <==> f == g
  {
  }

  /** The number of function-select registers and the pins they cover. */
  const FuncSelectRegs: nat := 6
  const PinsPerReg: bv8 := 10

  /** The pins `gpio_init` configures, in order (`GPIO_PINS`). */
  const InitPins: seq<bv8> := [1, 2, 3, 4, 5, 6]

  /** Field `j` (bits 3j to 3j+2) of a function-select register. */
  function Field(w: bv32, j: bv32): bv32
    requires j < 10
  {
    (w >> (3 * j)) & 7
  }

  /** `w` with field `j` replaced by `f`: the mask-and-or of
      `gpio_pin_set_func`. */
  function WithField(w: bv32, j: bv32, f: bv32): (r: bv32)
    requires j < 10 && f < 8
  {
    SetBits(ClearBits(w, 3 * j), f, 3 * j)
  }

  /** `w` with the three bits from `offset` cleared. */
  function ClearBits(w: bv32, offset: bv32): bv32
    requires offset < 30
  {
    w & !(7 << offset)
  }

  /** `w` with `f` or-ed in at `offset`. */
  function SetBits(w: bv32, f: bv32, offset: bv32): bv32
    requires offset < 30
  {
    w | (f << offset)
  }

  /** Replacing a field sets that field, leaves every other field alone and
      keeps the two unused top bits. */
  lemma WithFieldReadsBack(w: bv32, j: bv32, f: bv32)
    requires j < 10 && f < 8
    ensures Field(WithField(w, j, f), j) == f
    ensures forall k :: k < 10 && k != j ==> Field(WithField(w, j, f), k) == Field(w, k)
    ensures WithField(w, j, f) & 0xC000_0000 == w & 0xC000_0000
  {
    forall k | k < 10 && k != j ensures Field(WithField(w, j, f), k) == Field(w, k) {
      FieldsApart(w, j, k, f);
    }
  }

  /** Two different fields do not share a bit. */
  lemma FieldsApart(w: bv32, j: bv32, k: bv32, f: bv32)
    requires j < 10 && k < 10 && j != k && f < 8
    ensures Field(WithField(w, j, f), k) == Field(w, k)
  {
  }

  /** `(pin * 3) % 30`, computed in `int` from a `u8` pin, is three times the
      pin's place in its register, so the field offset of
      `gpio_pin_set_func` is the field of that pin. */
  lemma BitStart(pin: bv8)
    ensures ((pin as bv16) * 3) % 30 == 3 * ((pin % PinsPerReg) as bv16)
  {
    var q, r := (pin / PinsPerReg) as bv16, (pin % PinsPerReg) as bv16;
    assert pin as bv16 == 10 * q + r;
    assert (pin as bv16) * 3 == 30 * q + 3 * r;
  }

  /** `w` is `w0` with fields 1 to `n` set to `f`: every other field and
      the two unused top bits are those of `w0`. */
  ghost predicate SetThrough(w0: bv32, w: bv32, n: bv32, f: bv32)
  {
    && (forall k :: k < 10 ==> Field(w, k) == if 1 <= k <= n then f else Field(w0, k))
    && w & 0xC000_0000 == w0 & 0xC000_0000
  }

  /** Setting field `n + 1` extends the run of set fields by one. */
  lemma InitStep(w0: bv32, w: bv32, n: bv32, f: bv32)
    requires n < 9 && f < 8 && SetThrough(w0, w, n, f)
    ensures SetThrough(w0, WithField(w, n + 1, f), n + 1, f)
  {
    var w' := WithField(w, n + 1, f);
    WithFieldReadsBack(w, n + 1, f);
    forall k | k < 10
      ensures Field(w', k) == if 1 <= k <= n + 1 then f else Field(w0, k)
    {
      if k != n + 1 {
        assert Field(w', k) == Field(w, k);
      }
    }
  }

  /** The first bit of `pin`'s field, computed as `gpio_pin_set_func` does,
      as `(pin * 3) % 30`. */
  method FieldOffset(pin: bv8) returns (bitStart: bv32)
    ensures bitStart == 3 * ((pin % PinsPerReg) as bv32)
  {
    var offset := ((pin as bv16) * 3) % 30;
    BitStart(pin);
    bitStart := offset as bv32;
  }

  /** Bit `b` of a register word. */
  function Bit(w: bv32, b: bv32): bv32
    requires b < 32
  {
    (w >> b) & 1
  }

  /** The word `1 << (pin % 32)` written to GPSET and GPCLR. */
  function PinMask(pin: bv8): (m: bv32)
    ensures forall b :: b < 32 ==> Bit(m, b) == if b == (pin % 32) as bv32 then 1 else 0
  {
    1 << ((pin % 32) as bv32)
  }

  /** The GPIO register block. */
  class GpioRegs {
    /** GPFSEL0-5. */
    const funcSelect: array<bv32>
    /** GPSET0-1 and GPCLR0-1. */
    const outputSet: array<bv32>
    const outputClear: array<bv32>
    /** GPPUD and GPPUDCLK0-1. */
    var pupdEnable: bv32
    const pupdClocks: array<bv32>
    /** The pins whose pull-up/down clock was pulsed, in order. */
    ghost var pulsed: seq<bv8>

    ghost predicate Valid()
      reads this
    {
      && funcSelect.Length == FuncSelectRegs && outputSet.Length == 2 && outputClear.Length == 2
      && pupdClocks.Length == 2
      && funcSelect != outputSet && funcSelect != outputClear && funcSelect != pupdClocks
      && outputSet != outputClear && outputSet != pupdClocks && outputClear != pupdClocks
    }

    /** `gpio_pin_set_func`: the 3-bit field of `pin` in its function-select
        register takes the function's code; every other bit of that
        register, and every other register, is unchanged. */
    method SetFunc(pin: bv8, func: GpioFunc)
      requires Valid() && pin < 60
      modifies funcSelect
      ensures var reg := (pin / PinsPerReg) as int;
        funcSelect[reg] == WithField(old(funcSelect[reg]), (pin % PinsPerReg) as bv32, Code(func))
      ensures forall j :: 0 <= j < FuncSelectRegs && j != (pin / PinsPerReg) as int ==> funcSelect[j] == old(funcSelect[j])
    {
      var bitStart := FieldOffset(pin);
      var reg := pin / PinsPerReg;
      var selector := funcSelect[reg as int];
      selector := ClearBits(selector, bitStart);
      selector := SetBits(selector, Code(func), bitStart);
      funcSelect[reg as int] := selector;
    }

    /** `gpio_pin_enable`, less its two 150-cycle waits: GPPUD is cleared,
        the pin's clock bit is pulsed, and both registers end at zero. */
    method Enable(pin: bv8)
      requires Valid() && pin < 64
      modifies this`pupdEnable, this`pulsed, pupdClocks
      ensures pupdEnable == 0 && pulsed == old(pulsed) + [pin]
      ensures pupdClocks[..] == old(pupdClocks[..])[(pin / 32) as int := 0]
    {
      pupdEnable := 0;
      pupdClocks[(pin / 32) as int] := PinMask(pin);
      pulsed := pulsed + [pin];
      pupdEnable := 0;
      pupdClocks[(pin / 32) as int] := 0;
    }

    /** `gpio_set`: the pin's word of GPSET receives a word with only the
        pin's bit set. */
    method Set(pin: bv8)
      requires Valid() && pin < 64
      modifies outputSet
      ensures outputSet[..] == old(outputSet[..])[(pin / 32) as int := PinMask(pin)]
    {
      outputSet[(pin / 32) as int] := PinMask(pin);
    }

    /** `gpio_clear`: the same on GPCLR. */
    method Clear(pin: bv8)
      requires Valid() && pin < 64
      modifies outputClear
      ensures outputClear[..] == old(outputClear[..])[(pin / 32) as int := PinMask(pin)]
    {
      outputClear[(pin / 32) as int] := PinMask(pin);
    }

    /** `gpio_init`: pins 1 to 6, in order, take the function and have their
        pull-up/down clocks pulsed.  All six sit in GPFSEL0, so only fields
        1 to 6 of that register change. */
    method Init(func: GpioFunc)
      requires Valid()
      modifies funcSelect, this`pupdEnable, this`pulsed, pupdClocks
      ensures pulsed == old(pulsed) + InitPins
      ensures forall j :: 1 <= j < FuncSelectRegs ==> funcSelect[j] == old(funcSelect[j])
      ensures SetThrough(old(funcSelect[0]), funcSelect[0], 6, Code(func))
      ensures pupdEnable == 0 && pupdClocks[..] == old(pupdClocks[..])[0 := 0]
    {
      var i: bv8 := 0;
      while i < 6
        invariant i <= 6
        invariant pulsed == old(pulsed) + InitPins[..i]
        invariant i != 0 ==> pupdEnable == 0
        invariant pupdClocks[..] == if i == 0 then old(pupdClocks[..]) else old(pupdClocks[..])[0 := 0]
        invariant forall j :: 1 <= j < FuncSelectRegs ==> funcSelect[j] == old(funcSelect[j])
        invariant SetThrough(old(funcSelect[0]), funcSelect[0], i as bv32, Code(func))
      {
        InitPin(i, func, old(funcSelect[0]));
        assert InitPins[..i + 1] == InitPins[..i] + [InitPins[i]];
        i := i + 1;
      }
    }

    /** One turn of the loop of `gpio_init`: pin `InitPins[i]` takes the
        function and has its clock pulsed, extending the run of set fields
        of GPFSEL0 by one. */
    method InitPin(i: bv8, func: GpioFunc, ghost w0: bv32)
      requires Valid() && i < 6 && SetThrough(w0, funcSelect[0], i as bv32, Code(func))
      modifies funcSelect, this`pupdEnable, this`pulsed, pupdClocks
      ensures pulsed == old(pulsed) + [InitPins[i]]
      ensures forall j :: 1 <= j < FuncSelectRegs ==> funcSelect[j] == old(funcSelect[j])
      ensures SetThrough(w0, funcSelect[0], i as bv32 + 1, Code(func))
      ensures pupdEnable == 0 && pupdClocks[..] == old(pupdClocks[..])[0 := 0]
    {
      var pin := InitPins[i];
      assert pin == i + 1;
      assert pin < PinsPerReg;
      assert pin / PinsPerReg == 0 && pin % PinsPerReg == pin;
      InitStep(w0, funcSelect[0], i as bv32, Code(func));
      SetFunc(pin, func);
      Enable(pin);
    }
  }
}
