/** The sliding anti-replay window: a fixed bitmask that behaves like the set of all accepted counters. */
module ReplayWindow {

  /** What the bitmask stands for: every counter ever accepted, none forgotten. */
  datatype WindowState = WindowState(size: int, highest: int, accepted: set<int>) {
    predicate WouldAccept(c: int) {
      1 <= c && highest - size + 1 <= c <= highest + size && c !in accepted
    }

    function Accept(c: int): WindowState {
      if WouldAccept(c)
      then WindowState(size, if c > highest then c else highest, accepted + {c})
      else this
    }

    ghost predicate Sound() {
      size > 0 && highest >= 0 && forall c :: c in accepted ==> 1 <= c <= highest
    }
  }

  function Fresh(size: int): WindowState {
    WindowState(size, 0, {})
  }

  // ----- bits of a byte -----

  predicate Bit(b: bv8, k: nat)
    requires k < 8
  {
    b & ((1 as bv8) << k) != 0
  }

  lemma SetBit(b: bv8, k: nat, j: nat)
    requires k < 8 && j < 8
    ensures Bit(b | ((1 as bv8) << k), j) <==> (j == k || Bit(b, j))
  {
    assert k == 0 || k == 1 || k == 2 || k == 3 || k == 4 || k == 5 || k == 6 || k == 7;
    assert j == 0 || j == 1 || j == 2 || j == 3 || j == 4 || j == 5 || j == 6 || j == 7;
  }

  lemma ShiftTestsBit(b: bv8, k: nat)
    requires k < 8
    ensures (b >> k) & 1 != 0 <==> Bit(b, k)
  {
    assert k == 0 || k == 1 || k == 2 || k == 3 || k == 4 || k == 5 || k == 6 || k == 7;
  }

  /** Whether slot `i` is set in the little-endian-in-byte bitmask `bits`. */
  predicate Slot(bits: seq<bv8>, i: nat)
    requires i / 8 < |bits|
  {
    Bit(bits[i / 8], i % 8)
  }

  /** Setting one slot changes that slot and no other. */
  lemma SetSlot(bits: seq<bv8>, i: nat, j: nat)
    requires i / 8 < |bits| && j / 8 < |bits|
    ensures Slot(bits[i / 8 := bits[i / 8] | ((1 as bv8) << (i % 8))], j) <==> (j == i || Slot(bits, j))
  {
    if i / 8 == j / 8 {
      SetBit(bits[i / 8], i % 8, j % 8);
    }
  }

  class AntiReplayWindow {
    const window: int
    const slots: int
    var bits: array<bv8>
    var highest: int
    var base: int
    ghost var accepted: set<int>

    ghost function View(): WindowState
      reads this
    {
      WindowState(window, highest, accepted)
    }

    ghost predicate Valid()
      reads this, bits
    {
      && View().Sound()
      && slots == 2 * window + 1
      && bits.Length == (slots + 7) / 8
      && base == highest - window + 1
      && forall i :: 0 <= i < slots ==> (Slot(bits[..], i) <==> base + i in accepted)
    }

    constructor (windowSize: int)
      requires windowSize > 0
      ensures Valid() && fresh(bits)
      ensures View() == Fresh(windowSize)
    {
      window := windowSize;
      slots := 2 * windowSize + 1;
      bits := new bv8[(2 * windowSize + 8) / 8](_ => 0);
      highest := 0;
      base := 1 - windowSize;
      accepted := {};
    }

    method WouldAccept(counter: int) returns (ok: bool)
      requires Valid()
      ensures ok <==> View().WouldAccept(counter)
      ensures ok <==> && 1 <= counter && highest - window + 1 <= counter <= highest + window
                      && counter !in accepted
    {
      if counter <= 0 { return false; }
      if counter > highest + window { return false; }
      if counter < highest - window + 1 { return false; }
      var slot := counter - base;
      if slot < 0 || slot >= slots { return false; }
      ok := bits[slot / 8] & ((1 as bv8) << (slot % 8)) == 0;
      assert bits[..][slot / 8] == bits[slot / 8];
      assert Slot(bits[..], slot) <==> counter in accepted;
    }

    method Accept(counter: int) returns (ok: bool)
      requires Valid()
      modifies this, bits
      ensures Valid() && (bits == old(bits) || fresh(bits))
      ensures ok <==> old(View()).WouldAccept(counter)
      ensures View() == old(View()).Accept(counter)
      ensures accepted == old(accepted) + (if ok then {counter} else {})
      ensures highest == if ok && counter > old(highest) then counter else old(highest)
      ensures !ok ==> bits == old(bits) && bits[..] == old(bits[..])
    {
      ok := WouldAccept(counter);
      if !ok { return; }
      if counter > highest {
        Slide(counter - window + 1);
        highest := counter;
      }
      SetBitFor(counter - base);
      accepted := accepted + {counter};
    }

    method SetBitFor(slot: int)
      requires 0 <= slot < slots && bits.Length == (slots + 7) / 8
      modifies bits
      ensures forall i :: 0 <= i < slots ==> (Slot(bits[..], i) <==> i == slot || Slot(old(bits[..]), i))
    {
      ghost var before := bits[..];
      bits[slot / 8] := bits[slot / 8] | ((1 as bv8) << (slot % 8));
      assert bits[..] == before[slot / 8 := before[slot / 8] | ((1 as bv8) << (slot % 8))];
      forall i | 0 <= i < slots ensures Slot(bits[..], i) <==> i == slot || Slot(before, i) {
        SetSlot(before, slot, i);
      }
    }

    /** Moves every bit down by `newBase - base`; what leaves at the low end is forgotten. */
    method Slide(newBase: int)
      requires Valid()
      modifies this`bits, this`base
      ensures base == newBase
      ensures bits.Length == old(bits.Length)
      ensures newBase <= old(base) ==> bits == old(bits) && bits[..] == old(bits[..])
      ensures newBase > old(base) ==>
                fresh(bits) && forall i :: 0 <= i < slots ==> (Slot(bits[..], i) <==> newBase + i in accepted)
    {
      var delta := newBase - base;
      if delta <= 0 {
        base := newBase;
        return;
      }
      var shifted := new bv8[bits.Length](_ => 0);
      var i := 0;
      while i < slots
        invariant 0 <= i <= slots
        invariant fresh(shifted) && bits == old(bits) && bits[..] == old(bits[..])
        invariant forall j :: 0 <= j < slots ==> (Slot(shifted[..], j) <==> j + delta < i && Slot(bits[..], j + delta))
      {
        ShiftTestsBit(bits[i / 8], i % 8);
        assert bits[..][i / 8] == bits[i / 8];
        if (bits[i / 8] >> (i % 8)) & 1 != 0 {
          var j := i - delta;
          if 0 <= j < slots {
            ghost var before := shifted[..];
            shifted[j / 8] := shifted[j / 8] | ((1 as bv8) << (j % 8));
            assert shifted[..] == before[j / 8 := before[j / 8] | ((1 as bv8) << (j % 8))];
            forall k | 0 <= k < slots ensures Slot(shifted[..], k) <==> k == j || Slot(before, k) {
              SetSlot(before, j, k);
            }
          }
        }
        i := i + 1;
      }
      bits := shifted;
      base := newBase;
    }
  }
}
