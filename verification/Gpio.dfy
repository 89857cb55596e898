/** GPIO registers that pack one small field per pin into 32-bit words: function select
    (three bits, ten pins a word) and pull resistors (two bits, sixteen pins a word). Line
    numbers are those of bcm2835.c. */
module Gpio {

  /** bcm2835_peri_set_bits: only the bits under the mask change. */
  function SetBits(v: bv32, value: bv32, mask: bv32): bv32 {
    (v & !mask) | (value & mask)
  }

  /** The field that a mask, moved up by s, cuts out of a word. */
  function Field(w: bv32, mask: bv32, s: bv8): bv32
    requires s <= 30
  {
    (w >> s) & mask
  }

  lemma SetBitsElsewhere(v: bv32, value: bv32, mask: bv32, elsewhere: bv32)
    requires mask & elsewhere == 0
    ensures SetBits(v, value, mask) & elsewhere == v & elsewhere
  {
  }

  // ----- function select -----

  const FSEL_MASK: bv32 := 0x07

  /** The six words have fields for sixty pins, of which the chip has the first 54. */
  type Pin = p: bv8 | p < 60

  function FselShift(pin: bv8): (s: bv8)
    ensures s <= 27 && (FSEL_MASK << s) >> s == FSEL_MASK
  {
    (pin % 10) * 3
  }

  function FselIndex(pin: Pin): (i: nat)
    ensures i < 6
  {
    (pin / 10) as nat
  }

  lemma FselUnderMask(w: bv32, s: bv8)
    requires s <= 27
    ensures Field(w, FSEL_MASK, s) == (w & (FSEL_MASK << s)) >> s
  {
  }

  lemma FselSame(v: bv32, w: bv32, s: bv8)
    requires s <= 27 && v & (FSEL_MASK << s) == w & (FSEL_MASK << s)
    ensures Field(v, FSEL_MASK, s) == Field(w, FSEL_MASK, s)
  {
    FselUnderMask(v, s);
    FselUnderMask(w, s);
  }

  lemma FselKept(w: bv32, mode: bv8, s: bv8, other: bv8)
    requires s <= 27 && other <= 27 && (FSEL_MASK << s) & (FSEL_MASK << other) == 0
    ensures Field(FselWord(w, mode, s), FSEL_MASK, other) == Field(w, FSEL_MASK, other)
  {
    hide Field, SetBits;
    SetBitsElsewhere(w, (mode as bv32) << s, FSEL_MASK << s, FSEL_MASK << other);
    FselSame(FselWord(w, mode, s), w, other);
  }

  lemma FselSet(w: bv32, mode: bv8, s: bv8)
    requires s <= 27
    ensures Field(FselWord(w, mode, s), FSEL_MASK, s) == (mode as bv32) & FSEL_MASK
  {
  }

  lemma FselFieldsApart(p: Pin, q: Pin)
    requires p != q && FselIndex(p) == FselIndex(q)
    ensures (FSEL_MASK << FselShift(p)) & (FSEL_MASK << FselShift(q)) == 0
  {
    ShiftsApart(p % 10, q % 10);
  }

  lemma ShiftsApart(a: bv8, b: bv8)
    requires a < 10 && b < 10 && a != b
    ensures (FSEL_MASK << (a * 3)) & (FSEL_MASK << (b * 3)) == 0
  {
  }

  /** The function a pin is set to. */
  function Function(words: seq<bv32>, pin: Pin): bv32
    requires |words| == 6
  {
    Field(words[FselIndex(pin)], FSEL_MASK, FselShift(pin))
  }

  /** Lines 263-266 on the word read back. */
  function FselWord(w: bv32, mode: bv8, s: bv8): bv32
    requires s <= 27
  {
    SetBits(w, (mode as bv32) << s, FSEL_MASK << s)
  }

  /** The words after one call of gpio_fsel. */
  function Selected(words: seq<bv32>, pin: Pin, mode: bv8): (after: seq<bv32>)
    requires |words| == 6
    ensures |after| == 6
  {
    words[FselIndex(pin) := FselWord(words[FselIndex(pin)], mode, FselShift(pin))]
  }

  lemma SelectedFunction(words: seq<bv32>, pin: Pin, mode: bv8, q: Pin)
    requires |words| == 6
    ensures Function(Selected(words, pin, mode), q) ==
              if q == pin then (mode as bv32) & FSEL_MASK else Function(words, q)
  {
    hide Field, FselWord, FselShift, FselIndex;
    var w, s := words[FselIndex(pin)], FselShift(pin);
    if q == pin {
      FselSet(w, mode, s);
    } else if FselIndex(q) == FselIndex(pin) {
      FselFieldsApart(pin, q);
      FselKept(w, mode, s, FselShift(q));
    }
  }

  /** Ten pins a word, three bits a pin, from the low end on. */
  lemma FunctionIs(words: seq<bv32>, q: Pin)
    requires |words| == 6
    ensures Function(words, q) == (words[(q / 10) as nat] >> (3 * (q % 10))) & 7
  {
  }

  /** The three bits of a pin, where the data sheet has them. */
  function FunctionBits(words: seq<bv32>, q: Pin): bv32
    requires |words| == 6
  {
    (words[(q / 10) as nat] >> (3 * (q % 10))) & 7
  }

  lemma SelectedBits(words: seq<bv32>, pin: Pin, mode: bv8, q: Pin)
    requires |words| == 6
    ensures (Selected(words, pin, mode)[(q / 10) as nat] >> (3 * (q % 10))) & 7 ==
              if q == pin then (mode as bv32) & 7 else (words[(q / 10) as nat] >> (3 * (q % 10))) & 7
    ensures FunctionBits(Selected(words, pin, mode), q) ==
              if q == pin then (mode as bv32) & 7 else FunctionBits(words, q)
  {
    SelectedFunction(words, pin, mode, q);
    FunctionIs(words, q);
    FunctionIs(Selected(words, pin, mode), q);
    hide Function, Selected;
  }

  /** The driver's own call, for its sensor on pin 4: bit 12 of the first word. */
  lemma PinFour()
    ensures Selected([0, 0, 0, 0, 0, 0], 4, 1) == [0x1000, 0, 0, 0, 0, 0]
  {
  }

  datatype FselCall = FselCall(pin: Pin, mode: bv8)

  function AfterFsel(words: seq<bv32>, calls: seq<FselCall>): (after: seq<bv32>)
    requires |words| == 6
    ensures |after| == 6
  {
    if calls == [] then words
    else Selected(AfterFsel(words, calls[..|calls| - 1]), calls[|calls| - 1].pin, calls[|calls| - 1].mode)
  }

  /** What the calls ask of a pin: the low three bits of the last mode, or what it was. */
  function LastMode(calls: seq<FselCall>, q: Pin, initially: bv32): bv32 {
    if calls == [] then initially
    else if calls[|calls| - 1].pin == q then (calls[|calls| - 1].mode as bv32) & FSEL_MASK
    else LastMode(calls[..|calls| - 1], q, initially)
  }

  /** The packed words implement a map from pins to functions, whatever the modes. */
  lemma {:induction false} FselRefinesMap(words: seq<bv32>, calls: seq<FselCall>, q: Pin)
    requires |words| == 6
    ensures Function(AfterFsel(words, calls), q) == LastMode(calls, q, Function(words, q))
    ensures FunctionBits(AfterFsel(words, calls), q) == LastMode(calls, q, FunctionBits(words, q))
  {
    hide Function, FunctionBits, Selected;
    if calls != [] {
      var init, c := calls[..|calls| - 1], calls[|calls| - 1];
      FselRefinesMap(words, init, q);
      SelectedFunction(AfterFsel(words, init), c.pin, c.mode, q);
      SelectedBits(AfterFsel(words, init), c.pin, c.mode, q);
    }
  }

  // ----- pull resistors in the Raspberry Pi 4 layout -----

  const PUD_OFF: bv8 := 0
  const PUD_DOWN: bv8 := 1
  const PUD_UP: bv8 := 2
  const PUD_ERROR: bv8 := 8

  const PULL_MASK: bv32 := 0x03

  /** The four words have fields for 64 pins. */
  type PullPin = p: bv8 | p < 64

  function PullShift(pin: bv8): (s: bv8)
    ensures s <= 30 && (PULL_MASK << s) >> s == PULL_MASK
  {
    (pin & 0x0f) << 1
  }

  function PullIndex(pin: PullPin): (i: nat)
    ensures i < 4
  {
    (pin >> 4) as nat
  }

  predicate LegalPud(pud: bv8) {
    pud == PUD_OFF || pud == PUD_DOWN || pud == PUD_UP
  }

  /** The register's own encoding has up and down the other way round. */
  function PullBits(pud: bv8): bv32 {
    if pud == PUD_UP then 1 else if pud == PUD_DOWN then 2 else 0
  }

  /** The words after one call of gpio_set_pud. */
  function Pulled(words: seq<bv32>, pin: PullPin, pud: bv8): (after: seq<bv32>)
    requires |words| == 4
    ensures |after| == 4
  {
    if !LegalPud(pud) then words
    else words[PullIndex(pin) := PullWord(words[PullIndex(pin)], PullBits(pud), PullShift(pin))]
  }

  /** gpio_get_pud. */
  function GetPud(words: seq<bv32>, pin: PullPin): bv8
    requires |words| == 4
  {
    var bits := Field(words[PullIndex(pin)], PULL_MASK, PullShift(pin));
    if bits == 0 then PUD_OFF else if bits == 1 then PUD_UP else if bits == 2 then PUD_DOWN else PUD_ERROR
  }

  lemma PullUnderMask(w: bv32, s: bv8)
    requires s <= 30
    ensures Field(w, PULL_MASK, s) == (w & (PULL_MASK << s)) >> s
  {
  }

  lemma PullSame(v: bv32, w: bv32, s: bv8)
    requires s <= 30 && v & (PULL_MASK << s) == w & (PULL_MASK << s)
    ensures Field(v, PULL_MASK, s) == Field(w, PULL_MASK, s)
  {
    PullUnderMask(v, s);
    PullUnderMask(w, s);
  }

  /** Lines 581-582 on the word read back. */
  function PullWord(w: bv32, pull: bv32, s: bv8): bv32
    requires s <= 30
  {
    (w & !(PULL_MASK << s)) | (pull << s)
  }

  lemma PullSet(w: bv32, pull: bv32, s: bv8)
    requires s <= 30 && pull <= 2
    ensures Field(PullWord(w, pull, s), PULL_MASK, s) == pull
  {
  }

  lemma PullWordElsewhere(w: bv32, pull: bv32, s: bv8, elsewhere: bv32)
    requires s <= 30 && pull <= 2 && (PULL_MASK << s) & elsewhere == 0
    ensures PullWord(w, pull, s) & elsewhere == w & elsewhere
  {
  }

  lemma PullKept(w: bv32, pull: bv32, s: bv8, other: bv8)
    requires s <= 30 && other <= 30 && pull <= 2 && (PULL_MASK << s) & (PULL_MASK << other) == 0
    ensures Field(PullWord(w, pull, s), PULL_MASK, other) == Field(w, PULL_MASK, other)
  {
    hide Field, PullWord;
    PullWordElsewhere(w, pull, s, PULL_MASK << other);
    PullSame(PullWord(w, pull, s), w, other);
  }

  lemma PullFieldsApart(p: PullPin, q: PullPin)
    requires p != q && PullIndex(p) == PullIndex(q)
    ensures (PULL_MASK << PullShift(p)) & (PULL_MASK << PullShift(q)) == 0
  {
    PullShiftsApart(p & 0x0f, q & 0x0f);
  }

  lemma PullShiftsApart(a: bv8, b: bv8)
    requires a < 16 && b < 16 && a != b
    ensures (PULL_MASK << (a << 1)) & (PULL_MASK << (b << 1)) == 0
  {
  }

  lemma PulledField(words: seq<bv32>, pin: PullPin, pud: bv8, q: PullPin)
    requires |words| == 4
    ensures Field(Pulled(words, pin, pud)[PullIndex(q)], PULL_MASK, PullShift(q)) ==
              if q == pin && LegalPud(pud) then PullBits(pud) else Field(words[PullIndex(q)], PULL_MASK, PullShift(q))
  {
    hide Field, PullWord, PullShift, PullIndex;
    if LegalPud(pud) {
      var w, s, pull := words[PullIndex(pin)], PullShift(pin), PullBits(pud);
      if q == pin {
        PullSet(w, pull, s);
      } else if PullIndex(q) == PullIndex(pin) {
        PullFieldsApart(pin, q);
        PullKept(w, pull, s, PullShift(q));
      }
    }
  }

  lemma PulledSetting(words: seq<bv32>, pin: PullPin, pud: bv8, q: PullPin)
    requires |words| == 4
    ensures GetPud(Pulled(words, pin, pud), q) == if q == pin && LegalPud(pud) then pud else GetPud(words, q)
  {
    hide Field, PullWord, PullShift, PullIndex, Pulled;
    PulledField(words, pin, pud, q);
  }

  /** Sixteen pins a word, two bits a pin, from the low end on: 0 is off, 1 up and 2 down. */
  lemma GetPudIs(words: seq<bv32>, q: PullPin)
    requires |words| == 4
    ensures var bits := (words[(q / 16) as nat] >> (2 * (q % 16))) & 3;
            GetPud(words, q) == if bits == 0 then 0 else if bits == 1 then 2 else if bits == 2 then 1 else 8
  {
    PlaceOfPull(q);
  }

  lemma PlaceOfPull(q: PullPin)
    ensures PullIndex(q) == (q / 16) as nat && PullShift(q) == 2 * (q % 16)
  {
  }

  /** The two bits of a pin, where the data sheet has them. */
  function PullBitsOf(words: seq<bv32>, q: PullPin): bv32
    requires |words| == 4
  {
    (words[(q / 16) as nat] >> (2 * (q % 16))) & 3
  }

  /** The bits themselves after one call: 1 for up, 2 for down, 0 for off. */
  lemma PulledBits(words: seq<bv32>, pin: PullPin, pud: bv8, q: PullPin)
    requires |words| == 4
    ensures (Pulled(words, pin, pud)[(q / 16) as nat] >> (2 * (q % 16))) & 3 ==
              if q == pin && pud <= 2 then (if pud == 2 then 1 else if pud == 1 then 2 else 0)
              else (words[(q / 16) as nat] >> (2 * (q % 16))) & 3
    ensures PullBitsOf(Pulled(words, pin, pud), q) ==
              if q == pin && pud <= 2 then (if pud == 2 then 1 else if pud == 1 then 2 else 0)
              else PullBitsOf(words, q)
  {
    hide PullWord, PullShift, PullIndex, Pulled;
    PulledField(words, pin, pud, q);
    PlaceOfPull(q);
  }

  /** The driver's own pin: the third lowest bit pair but two of the first word. */
  lemma PullFour()
    ensures Pulled([0, 0, 0, 0], 4, 2) == [0x100, 0, 0, 0] && Pulled([0, 0, 0, 0], 4, 1) == [0x200, 0, 0, 0]
  {
  }

  datatype PudCall = PudCall(pin: PullPin, pud: bv8)

  function AfterPud(words: seq<bv32>, calls: seq<PudCall>): (after: seq<bv32>)
    requires |words| == 4
    ensures |after| == 4
  {
    if calls == [] then words
    else Pulled(AfterPud(words, calls[..|calls| - 1]), calls[|calls| - 1].pin, calls[|calls| - 1].pud)
  }

  /** The last legal setting asked for, or what get_pud said before. */
  function LastPud(calls: seq<PudCall>, q: PullPin, initially: bv8): bv8 {
    if calls == [] then initially
    else if calls[|calls| - 1].pin == q && LegalPud(calls[|calls| - 1].pud) then calls[|calls| - 1].pud
    else LastPud(calls[..|calls| - 1], q, initially)
  }

  /** get_pud gives back what set_pud was last legally told, for every pin. */
  lemma {:induction false} PudRoundTrip(words: seq<bv32>, calls: seq<PudCall>, q: PullPin)
    requires |words| == 4
    ensures GetPud(AfterPud(words, calls), q) == LastPud(calls, q, GetPud(words, q))
  {
    if calls != [] {
      var init, c := calls[..|calls| - 1], calls[|calls| - 1];
      PudRoundTrip(words, init, q);
      PulledSetting(AfterPud(words, init), c.pin, c.pud, q);
    }
  }

  lemma MaskedWrite(outputs: bv32, value: bv32, mask: bv32)
    ensures (outputs | (value & mask)) & !(!value & mask) == SetBits(outputs, value, mask)
    ensures SetBits(outputs, value, mask) == (outputs & !mask) | (value & mask)
  {
  }

  lemma MaskMeans(outputs: bv32, value: bv32, mask: bv32)
    ensures var after := SetBits(outputs, value, mask);
            after & mask == value & mask && after & !mask == outputs & !mask
  {
  }

  // ----- the registers themselves -----

  class Bank {
    const fsel: array<bv32>
    const pull: array<bv32>
    var outputs: bv32  // the output latch of pins 0 to 31

    ghost predicate Valid()
    {
      fsel.Length == 6 && pull.Length == 4 && fsel != pull
    }

    constructor ()
      ensures Valid() && fresh(fsel) && fresh(pull)
    {
      fsel, pull, outputs := new bv32[6](_ => 0), new bv32[4](_ => 0), 0;
    }

    /** bcm2835_gpio_fsel. */
    method Fsel(pin: Pin, mode: bv8)
      requires Valid()
      modifies fsel
      ensures fsel[..] == Selected(old(fsel[..]), pin, mode)
      ensures forall q: Pin :: Function(fsel[..], q) ==
                if q == pin then (mode as bv32) & FSEL_MASK else Function(old(fsel[..]), q)
      ensures forall q: Pin :: FunctionBits(fsel[..], q) ==
                if q == pin then (mode as bv32) & 7 else FunctionBits(old(fsel[..]), q)
    {
      hide FselWord, FselShift, FselIndex, Function, FunctionBits;
      ghost var before := fsel[..];
      forall q: Pin {
        SelectedFunction(before, pin, mode, q);
      }
      ghost var after := Selected(before, pin, mode);
      forall q: Pin
        ensures FunctionBits(after, q) == if q == pin then (mode as bv32) & 7 else FunctionBits(before, q)
      {
        SelectedBits(before, pin, mode, q);
      }
      fsel[FselIndex(pin)] := FselWord(fsel[FselIndex(pin)], mode, FselShift(pin));
      assert fsel[..] == after;
    }

    /** bcm2835_gpio_set_pud. */
    method SetPud(pin: PullPin, pud: bv8)
      requires Valid()
      modifies pull
      ensures pull[..] == Pulled(old(pull[..]), pin, pud)
      ensures forall q: PullPin :: GetPud(pull[..], q) ==
                if q == pin && LegalPud(pud) then pud else GetPud(old(pull[..]), q)
      ensures forall q: PullPin :: PullBitsOf(pull[..], q) ==
                if q == pin && pud <= 2 then (if pud == 2 then 1 else if pud == 1 then 2 else 0)
                else PullBitsOf(old(pull[..]), q)
    {
      hide PullWord, PullShift, PullIndex, GetPud, PullBitsOf;
      ghost var before := pull[..];
      forall q: PullPin {
        PulledSetting(before, pin, pud, q);
      }
      ghost var after := Pulled(before, pin, pud);
      forall q: PullPin
        ensures PullBitsOf(after, q) ==
                  if q == pin && pud <= 2 then (if pud == 2 then 1 else if pud == 1 then 2 else 0)
                  else PullBitsOf(before, q)
      {
        PulledBits(before, pin, pud, q);
      }
      var shift := PullShift(pin);
      var pulled: bv32;
      if pud == PUD_OFF {
        pulled := 0;
      } else if pud == PUD_UP {
        pulled := 1;
      } else if pud == PUD_DOWN {
        pulled := 2;
      } else {
        return;
      }
      pull[PullIndex(pin)] := PullWord(pull[PullIndex(pin)], pulled, shift);
      assert pull[..] == after;
    }

    /** bcm2835_gpio_write_mask: a set and a clear that together write exactly the masked pins. */
    method WriteMask(value: bv32, mask: bv32)
      modifies `outputs
      ensures outputs == SetBits(old(outputs), value, mask)
      ensures outputs == (old(outputs) & !mask) | (value & mask)
    {
      hide SetBits;
      MaskedWrite(outputs, value, mask);
      outputs := outputs | (value & mask);
      outputs := outputs & !(!value & mask);
    }
  }
}
