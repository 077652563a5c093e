/**
 Bounds-checked access to one register bank, and reading a split 64-bit counter that never stops:
 between any two register reads the counter may advance by any amount.
 */
module RegisterBank {
  import opened Results
  import opened Bytes

  const WORD: nat := 0x1_0000_0000
  const COUNTER_MAX: nat := 0xffff_ffff_ffff_ffff

  /** A 64-bit counter behind two 32-bit registers; `seen` records its value at every read. */
  class LiveCounter {
    const lowAddress: nat
    const highAddress: nat
    var counter: nat
    ghost var seen: seq<nat>

    constructor (lowAddress: nat, highAddress: nat)
      requires lowAddress != highAddress
      ensures this.lowAddress == lowAddress && this.highAddress == highAddress && Valid()
    {
      this.lowAddress, this.highAddress := lowAddress, highAddress;
      counter, seen := 0, [];
    }

    ghost predicate Valid()
      reads this
    {
      lowAddress != highAddress && counter <= COUNTER_MAX
    }

    method ReadReg(address: nat) returns (value: nat)
      requires Valid()
      modifies this
      ensures Valid() && old(counter) <= counter && seen == old(seen) + [counter]
      ensures value < WORD
      ensures address == lowAddress ==> value == counter % WORD
      ensures address == highAddress ==> value == counter / WORD
    {
      var step: int := *;
      if 0 <= step <= COUNTER_MAX - counter {
        counter := counter + step;
      }
      seen := seen + [counter];
      if address == lowAddress {
        return counter % WORD;
      }
      if address == highAddress {
        return counter / WORD;
      }
      value := *;
      value := value % WORD;
    }
  }

  class IpDriverLite {
    const registers: LiveCounter
    const base: nat
    const span: nat

    constructor (registers: LiveCounter, base: nat, span: nat)
      ensures this.registers == registers && this.base == base && this.span == span
    {
      this.registers, this.base, this.span := registers, base, span;
    }

    /** Construction checks the base and the span of the bank. */
    static method Create(registers: LiveCounter, base: nat, span: nat) returns (r: Result<IpDriverLite>)
      requires base < WORD && span < WORD
      ensures r.Ok? <==> base % 4 == 0 && 4 <= span && span % 4 == 0
      ensures r.Ok? ==>
        r.value.registers == registers && r.value.base == base && r.value.span == span && r.value.Valid()
      ensures r.Err? ==> r.error == InvalidArgument
    {
      if base % 4 != 0 {
        return Err(InvalidArgument);
      }
      if span < 4 || span % 4 != 0 {
        return Err(InvalidArgument);
      }
      var driver := new IpDriverLite(registers, base, span);
      return Ok(driver);
    }

    predicate Valid() {
      base < WORD && base % 4 == 0 && 4 <= span < WORD && span % 4 == 0
    }

    /** `width` bytes at `offset` are aligned, inside the bank, and have a 32-bit address. */
    predicate Addressable(offset: nat, width: nat) {
      offset % 4 == 0 && offset + width <= span && base + offset < WORD
    }

    /** Why an offset that is not addressable is refused. */
    function Refusal(offset: nat): Error {
      if offset % 4 != 0 then InvalidArgument else OutOfRange
    }

    /** Every difference formed here is taken where it cannot be negative. */
    method ValidateOffset(offset: nat, width: nat) returns (r: Result<()>)
      requires Valid()
      ensures r.Ok? <==> Addressable(offset, width)
      ensures r.Ok? && 0 < width ==> (base + offset) % 4 == 0 && base + offset < base + span
      ensures r.Err? ==> r.error == Refusal(offset)
    {
      if offset % 4 != 0 {
        return Err(InvalidArgument);
      }
      if width > span || offset > span - width {
        return Err(OutOfRange);
      }
      if base > WORD - 1 - offset {
        return Err(OutOfRange);
      }
      return Ok(());
    }

    method Read32(offset: nat) returns (r: Result<nat>)
      requires Valid() && registers.Valid()
      modifies registers
      ensures registers.Valid() && old(registers.counter) <= registers.counter
      ensures r.Ok? <==> Addressable(offset, 4)
      ensures r.Ok? ==> registers.seen == old(registers.seen) + [registers.counter] && r.value < WORD
      ensures r.Ok? && base + offset == registers.lowAddress ==> r.value == registers.counter % WORD
      ensures r.Ok? && base + offset == registers.highAddress ==> r.value == registers.counter / WORD
      ensures r.Err? ==> r.error == Refusal(offset) && registers.seen == old(registers.seen)
    {
      var _ :- ValidateOffset(offset, 4);
      var value := registers.ReadReg(base + offset);
      return Ok(value);
    }

    /** The counter's exact value at the instant its low word was last read: the last read but one. */
    method Read64Stable(lowOffset: nat, highOffset: nat) returns (r: Result<nat>)
      requires Valid() && registers.Valid()
      requires base + lowOffset == registers.lowAddress && base + highOffset == registers.highAddress
      modifies registers
      ensures registers.Valid() && old(registers.seen) <= registers.seen
      ensures r.Ok? <==> Addressable(lowOffset, 4) && Addressable(highOffset, 4)
      ensures r.Ok? ==>
        && |registers.seen| >= |old(registers.seen)| + 3
        && r.value == registers.seen[|registers.seen| - 2]
        && old(registers.counter) <= r.value <= registers.counter
      ensures r.Err? ==>
        r.error == Refusal(if Addressable(lowOffset, 4) then highOffset else lowOffset)
        && registers.seen == old(registers.seen)
    {
      var _ :- ValidateOffset(lowOffset, 4);
      var _ :- ValidateOffset(highOffset, 4);
      while true
        invariant registers.Valid() && old(registers.seen) <= registers.seen
        invariant old(registers.counter) <= registers.counter
        decreases COUNTER_MAX / WORD - registers.counter / WORD
      {
        ghost var start := registers.counter;
        var firstHigh := registers.ReadReg(base + highOffset);
        ghost var c1 := registers.counter;
        var low := registers.ReadReg(base + lowOffset);
        ghost var c2 := registers.counter;
        var secondHigh := registers.ReadReg(base + highOffset);
        if firstHigh == secondHigh {
          SameHighWord(c1, c2, registers.counter);
          return Ok(secondHigh * WORD + low);
        }
        HighWordGrows(start, c1, registers.counter);
      }
    }

    /** Low word, then high word, with nothing to notice that the counter moved in between. */
    method Read64(lowOffset: nat, highOffset: nat) returns (r: Result<nat>, ghost atLow: nat, ghost atHigh: nat)
      requires Valid() && registers.Valid()
      requires base + lowOffset == registers.lowAddress && base + highOffset == registers.highAddress
      modifies registers
      ensures registers.Valid()
      ensures r.Ok? <==> Addressable(lowOffset, 4) && Addressable(highOffset, 4)
      ensures r.Ok? ==> registers.seen == old(registers.seen) + [atLow, atHigh] && atLow <= atHigh <= COUNTER_MAX
      ensures r.Ok? ==> r.value == Combined(atLow, atHigh)
      ensures r.Err? ==>
        r.error == Refusal(if Addressable(lowOffset, 4) then highOffset else lowOffset)
        && registers.seen == old(registers.seen)
    {
      atLow, atHigh := 0, 0;
      var valid := ValidateOffset(lowOffset, 4);
      if valid.Err? {
        return Err(valid.error), atLow, atHigh;
      }
      valid := ValidateOffset(highOffset, 4);
      if valid.Err? {
        return Err(valid.error), atLow, atHigh;
      }
      var low := registers.ReadReg(base + lowOffset);
      atLow := registers.counter;
      var high := registers.ReadReg(base + highOffset);
      atHigh := registers.counter;
      return Ok(high * WORD + low), atLow, atHigh;
    }
  }

  /** The low word of one instant under the high word of a later one. */
  function Combined(atLow: nat, atHigh: nat): nat {
    (atHigh / WORD) * WORD + atLow % WORD
  }

  lemma SameHighWord(a: nat, b: nat, c: nat)
    requires a <= b <= c && a / WORD == c / WORD
    ensures Combined(b, c) == b
  {
  }

  lemma HighWordGrows(a: nat, b: nat, c: nat)
    requires a <= b <= c <= COUNTER_MAX && b / WORD != c / WORD
    ensures a / WORD < c / WORD <= COUNTER_MAX / WORD
  {
  }

  /** The plain read is exact precisely when the high word did not move between its two halves. */
  lemma TornRead(atLow: nat, atHigh: nat)
    requires atLow <= atHigh
    ensures Combined(atLow, atHigh) == atLow <==> atLow / WORD == atHigh / WORD
    ensures atLow <= Combined(atLow, atHigh)
    ensures Combined(atLow, atHigh) <= atHigh <==> atLow % WORD <= atHigh % WORD
  {
  }

  /** For instance, a carry in between makes the plain read run ahead by almost 2^32. */
  lemma TornReadExample()
    ensures Combined(0xffff_ffff, 0x1_0000_0000) == 0x1_ffff_ffff
  {
  }
}
