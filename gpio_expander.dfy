/** The I2C peripheral side of the button panel: it answers register reads as
    an MCP23017 GPIO expander would (register map with BANK = 0, GPIOA = 0x12,
    GPIOB = 0x13). A second chip is emulated only through a register offset
    of 0x10 on the same bus address. Button i is reported in bit i % 8 of bank
    i / 8, active low. */
module GpioExpander {

  const NumButtons: nat := 18
  const Gpioa: bv8 := 0x12
  const Gpiob: bv8 := 0x13
  /** The "second chip" answers at its register number plus this offset. */
  const SecondChip: bv8 := 0x10

  /** Which buttons toggle (reported when checked) and which are momentary
      (reported while pressed). */
  const IsToggle: seq<bool> := [
    true,  false, true,
    false, true,  false,
    true,  false, true,
    false, true,  false,
    true,  false, true,
    false, true,  false
  ]

  /** The byte with only bit k set. */
  function Bit(k: nat): bv8
    requires k < 8
  {
    if k == 0 then 0x01 else if k == 1 then 0x02 else if k == 2 then 0x04
    else if k == 3 then 0x08 else if k == 4 then 0x10 else if k == 5 then 0x20
    else if k == 6 then 0x40 else 0x80
  }

  /** The mask table agrees with shifting a one left by k places. */
  lemma BitIsShift(k: nat)
    requires k < 8
    ensures Bit(k) == 1 << k
  {
  }

  /** Bit k of b is 1. */
  predicate BitSet(b: bv8, k: nat)
    requires k < 8
  {
    b & Bit(k) != 0
  }

  /** The active flag of every button, given the checked and pressed states
      the GUI reports for each of them. */
  function ActiveButtons(checked: seq<bool>, pressed: seq<bool>): (active: seq<bool>)
    requires |checked| == NumButtons && |pressed| == NumButtons
    ensures |active| == NumButtons
    ensures forall i :: 0 <= i < NumButtons ==>
      (active[i] <==> (IsToggle[i] && checked[i]) || (!IsToggle[i] && pressed[i]))
  {
    seq(NumButtons, i requires 0 <= i < NumButtons => if IsToggle[i] then checked[i] else pressed[i])
  }

  /** Clearing bit k of a byte clears that bit and keeps bit m for m != k. */
  lemma ClearBitAt(b: bv8, k: nat, m: nat)
    requires k < 8 && m < 8
    ensures BitSet(b & !Bit(k), m) <==> m != k && BitSet(b, m)
  {
  }

  /** Clearing bit 0 or 1 keeps bits 2 to 7. */
  lemma ClearLowBit(b: bv8, k: nat)
    requires k < 2 && b & 0xFC == 0xFC
    ensures (b & !Bit(k)) & 0xFC == 0xFC
  {
  }

  /** Bit k of bank j holds the state of button 8 * j + k: cleared exactly
      for the active ones among the first n buttons, set for all others. */
  ghost predicate MaskedUpTo(banks: seq<bv8>, active: seq<bool>, n: nat)
    requires |banks| == 4 && n <= |active| == NumButtons
  {
    && (forall i :: 0 <= i < n ==> (BitSet(banks[i / 8], i % 8) <==> !active[i]))
    && (forall j, k :: 0 <= j < 4 && 0 <= k < 8 && n <= 8 * j + k ==> BitSet(banks[j], k))
  }

  /** The banks after masking in button i, when it is active. */
  function MaskIn(before: seq<bv8>, active: seq<bool>, i: nat): seq<bv8>
    requires |before| == 4 && i < |active| == NumButtons
  {
    if active[i] then before[i / 8 := before[i / 8] & !Bit(i % 8)] else before
  }

  /** After masking in button i, the bit of button i' <= i is right. */
  lemma MaskNextButton(before: seq<bv8>, active: seq<bool>, i: nat, i': nat)
    requires |before| == 4 && i < |active| == NumButtons && i' <= i
    requires MaskedUpTo(before, active, i)
    ensures BitSet(MaskIn(before, active, i)[i' / 8], i' % 8) <==> !active[i']
  {
    var b, bit := i / 8, i % 8;
    var b', bit' := i' / 8, i' % 8;
    var x := before[b'];
    var y := MaskIn(before, active, i)[b'];
    if b' == b && active[i] {
      assert y == x & !Bit(bit);
      assert (bit' != bit) == (i' < i);
      assert i' < i ==> (BitSet(x, bit') <==> !active[i']);
      ClearBitAt(x, bit, bit');
    } else {
      assert y == x;
      assert BitSet(x, bit') <==> !active[i'] by {
        if i' == i {
          assert i <= 8 * b + bit;
        }
      }
    }
  }

  /** After masking in button i, the bits of buttons 0 to i are right. */
  lemma MaskNextButtons(before: seq<bv8>, active: seq<bool>, i: nat)
    requires |before| == 4 && i < |active| == NumButtons
    requires MaskedUpTo(before, active, i)
    ensures forall i' :: 0 <= i' < i + 1 ==>
      (BitSet(MaskIn(before, active, i)[i' / 8], i' % 8) <==> !active[i'])
  {
    forall i' | 0 <= i' < i + 1
      ensures BitSet(MaskIn(before, active, i)[i' / 8], i' % 8) <==> !active[i']
    {
      MaskNextButton(before, active, i, i');
    }
  }

  /** After masking in button i, the bits of buttons i + 1 onwards and of
      positions past the last button are still set. */
  lemma MaskNextRest(before: seq<bv8>, active: seq<bool>, i: nat)
    requires |before| == 4 && i < |active| == NumButtons
    requires MaskedUpTo(before, active, i)
    ensures forall j, k :: 0 <= j < 4 && 0 <= k < 8 && i + 1 <= 8 * j + k ==>
      BitSet(MaskIn(before, active, i)[j], k)
  {
    var after := MaskIn(before, active, i);
    var b, bit := i / 8, i % 8;
    forall j, k | 0 <= j < 4 && 0 <= k < 8 && i + 1 <= 8 * j + k
      ensures BitSet(after[j], k)
    {
      assert BitSet(before[j], k);
      if j == b && active[i] {
        assert k != bit;
        ClearBitAt(before[b], bit, k);
      } else {
        assert after[j] == before[j];
      }
    }
  }

  /** Masking in button i keeps the banks correct for one more button, and
      never touches bits 2 to 7 of bank 2 or any bit of bank 3. */
  lemma MaskNext(before: seq<bv8>, active: seq<bool>, i: nat)
    requires |before| == 4 && i < |active| == NumButtons
    requires MaskedUpTo(before, active, i)
    requires before[2] & 0xFC == 0xFC && before[3] == 0xFF
    ensures MaskedUpTo(MaskIn(before, active, i), active, i + 1)
    ensures MaskIn(before, active, i)[2] & 0xFC == 0xFC && MaskIn(before, active, i)[3] == 0xFF
  {
    MaskNextButtons(before, active, i);
    MaskNextRest(before, active, i);
    if i / 8 == 2 && active[i] {
      ClearLowBit(before[2], i % 8);
    }
  }

  /** The four bank bytes after the first n buttons have been masked in:
      every bank starts at 0xFF and an active button clears its bit. */
  function Banks(active: seq<bool>, n: nat): (banks: seq<bv8>)
    requires |active| == NumButtons && n <= NumButtons
    ensures |banks| == 4
    ensures MaskedUpTo(banks, active, n)
    ensures banks[2] & 0xFC == 0xFC
    ensures banks[3] == 0xFF
    decreases n
  {
    if n == 0 then [0xFF, 0xFF, 0xFF, 0xFF]
    else
      var before := Banks(active, n - 1);
      var i := n - 1;
      MaskNext(before, active, i);
      MaskIn(before, active, i)
  }

  /** One more button masked in. */
  lemma BanksStep(active: seq<bool>, i: nat)
    requires |active| == NumButtons && i < NumButtons
    ensures Banks(active, i + 1) == MaskIn(Banks(active, i), active, i)
  {
  }

  /** The register-to-bank map of the read callback. */
  function Select(reg: bv8, banks: seq<bv8>): bv8
    requires |banks| == 4
  {
    if reg == Gpioa then banks[0]
    else if reg == Gpiob then banks[1]
    else if reg == Gpioa + SecondChip then banks[2]
    else if reg == Gpiob + SecondChip then banks[3]
    else 0xFF
  }

  /** Bit k of bank j, once all buttons are masked in, is cleared exactly
      when button 8 * j + k exists and is active. */
  lemma BankBit(active: seq<bool>, n: nat, j: nat, k: nat)
    requires |active| == NumButtons && n <= NumButtons && j < 4 && k < 8
    ensures BitSet(Banks(active, n)[j], k) <==> n <= 8 * j + k || !active[8 * j + k]
  {
    var i := 8 * j + k;
    if i < n {
      assert i / 8 == j && i % 8 == k;
    }
  }

  /** Byte b reports the eight buttons from first on, active low: bit k is
      cleared exactly when button first + k exists and is active. */
  ghost predicate Reports(b: bv8, active: seq<bool>, first: nat)
    requires |active| == NumButtons
  {
    forall k :: 0 <= k < 8 ==> (BitSet(b, k) <==> NumButtons <= first + k || !active[first + k])
  }

  /** Bank j reports buttons 8 * j to 8 * j + 7. */
  lemma BankReports(active: seq<bool>, j: nat)
    requires |active| == NumButtons && j < 4
    ensures Reports(Banks(active, |active|)[j], active, 8 * j)
  {
    forall k | 0 <= k < 8
      ensures BitSet(Banks(active, |active|)[j], k) <==> NumButtons <= 8 * j + k || !active[8 * j + k]
    {
      BankBit(active, |active|, j, k);
    }
  }

  /** A byte reporting buttons 16 onwards has bits 2 to 7 set, whatever the
      button states. */
  lemma SecondChipHighBits(b: bv8, active: seq<bool>)
    requires |active| == NumButtons && Reports(b, active, 16)
    ensures b & 0xFC == 0xFC
  {
    assert BitSet(b, 2) && BitSet(b, 3) && BitSet(b, 4) && BitSet(b, 5) && BitSet(b, 6) && BitSet(b, 7);
  }

  /** The byte answered to a read of register reg. */
  function Response(reg: bv8, active: seq<bool>): (value: bv8)
    requires |active| == NumButtons
    ensures reg == Gpioa ==> Reports(value, active, 0)
    ensures reg == Gpiob ==> Reports(value, active, 8)
    ensures reg == Gpioa + SecondChip ==> Reports(value, active, 16)
    ensures reg == Gpiob + SecondChip ==> value == 0xFF
    ensures reg !in {Gpioa, Gpiob, Gpioa + SecondChip, Gpiob + SecondChip} ==> value == 0xFF
  {
    BankReports(active, 0);
    BankReports(active, 1);
    BankReports(active, 2);
    Select(reg, Banks(active, |active|))
  }

  /** The response is the bank the register selects. */
  lemma ResponseSelects(reg: bv8, active: seq<bool>)
    requires |active| == NumButtons
    ensures Response(reg, active) == Select(reg, Banks(active, |active|))
  {
  }

  /** The selected register after one write transaction: the first byte
      written, or the old selection when nothing was written. */
  function Latch(reg: bv8, bytes: seq<bv8>): bv8
  {
    if |bytes| == 0 then reg else bytes[0]
  }

  /** The selected register after a series of write transactions. */
  function AfterWrites(reg: bv8, writes: seq<seq<bv8>>): bv8
    decreases |writes|
  {
    if |writes| == 0 then reg else AfterWrites(Latch(reg, writes[0]), writes[1..])
  }

  /** Writes that carry no byte leave the selection where it was. */
  lemma {:induction false} EmptyWritesKeepSelection(reg: bv8, writes: seq<seq<bv8>>)
    requires forall k :: 0 <= k < |writes| ==> writes[k] == []
    ensures AfterWrites(reg, writes) == reg
    decreases |writes|
  {
    if |writes| > 0 {
      assert writes[0] == [];
      EmptyWritesKeepSelection(reg, writes[1..]);
    }
  }

  /** The selection is the first byte of the last write that carried any.
      Reads between the writes play no part: `Request` has no `modifies`
      clause, so it cannot change the selection (see `RepeatedRead`). */
  lemma {:induction false} LastWriteSelects(reg: bv8, writes: seq<seq<bv8>>, j: nat)
    requires j < |writes| && writes[j] != []
    requires forall k :: j < k < |writes| ==> writes[k] == []
    ensures AfterWrites(reg, writes) == writes[j][0]
    decreases |writes|
  {
    if j == 0 {
      EmptyWritesKeepSelection(writes[0][0], writes[1..]);
    } else {
      LastWriteSelects(Latch(reg, writes[0]), writes[1..], j - 1);
    }
  }

  /** The emulated expander pair: the selected register and the bytes of the
      current write that the bus has buffered and the callback not yet read. */
  class Responder {
    var reg: bv8
    var rx: seq<bv8>

    /** Between transactions the receive buffer is empty. */
    ghost predicate Valid()
      reads this
    {
      rx == []
    }

    constructor ()
      ensures Valid() && reg == 0
    {
      reg := 0;
      rx := [];
    }

    /** A write transaction of the master: the first byte selects the
        register, the rest are read and discarded. */
    method Receive(bytes: seq<bv8>)
      modifies this
      ensures Valid()
      ensures reg == Latch(old(reg), bytes)
      ensures bytes == [] ==> reg == old(reg)
      ensures bytes != [] ==> reg == bytes[0]
    {
      rx := bytes;
      if |rx| == 0 {
        return;
      }
      reg := rx[0];
      rx := rx[1..];
      while |rx| > 0
        invariant reg == bytes[0]
        decreases |rx|
      {
        rx := rx[1..];
      }
    }

    /** A read transaction of the master: the byte for the selected register,
        computed from the buttons' checked and pressed states at this moment.
        Reading changes nothing. */
    method Request(checked: seq<bool>, pressed: seq<bool>) returns (value: bv8)
      requires |checked| == NumButtons && |pressed| == NumButtons
      ensures value == Response(reg, ActiveButtons(checked, pressed))
    {
      value := 0xFF;
      var states := new bv8[4] [0xFF, 0xFF, 0xFF, 0xFF];
      ghost var active := ActiveButtons(checked, pressed);
      for i := 0 to NumButtons
        invariant states[..] == Banks(active, i)
      {
        ghost var before := states[..];
        var isActive := false;
        if IsToggle[i] {
          isActive := checked[i];
        } else {
          isActive := pressed[i];
        }
        assert isActive == active[i];
        if isActive {
          var byteIdx := i / 8;
          var bitIdx := i % 8;
          var mask := Bit(bitIdx);  // 1 << bitIdx, by BitIsShift
          states[byteIdx] := states[byteIdx] & !mask;
        }
        assert states[..] == MaskIn(before, active, i);
        BanksStep(active, i);
      }
      ResponseSelects(reg, active);
      if reg == Gpioa {
        value := states[0];
      } else if reg == Gpiob {
        value := states[1];
      } else if reg == Gpioa + SecondChip {
        value := states[2];
      } else if reg == Gpiob + SecondChip {
        value := states[3];
      }
    }
  }

  /** The master reads the selected register twice without a write between:
      with the same button states it gets the same byte. */
  method RepeatedRead(dev: Responder, checked: seq<bool>, pressed: seq<bool>)
    returns (first: bv8, second: bv8)
    requires |checked| == NumButtons && |pressed| == NumButtons
    ensures first == second
  {
    first := dev.Request(checked, pressed);
    second := dev.Request(checked, pressed);
  }
}
