/** The fixed-plastic half-word: one 16-bit entry per connection holding,
    from high to low bits, the axonal delay (4 bits), the dendritic delay
    (4 bits), the synapse type and the target's id local to the slice. */
module FixedPlastic {
  import opened Bits
  import opened Connections

  /** Field widths, recomputed from the call's context by encoder and decoder. */
  datatype FieldLayout = FieldLayout(neuronIdBits: nat, synapseTypeBits: nat)

  /** The widths for a call: enough bits for every synapse type and for
      every atom of the slice, and no more. */
  function LayoutFor(nSynapseTypes: nat, slice: VertexSlice): (layout: FieldLayout)
    requires nSynapseTypes >= 1 && slice.nAtoms >= 1
    ensures Pow2(layout.synapseTypeBits) >= nSynapseTypes
    ensures Pow2(layout.neuronIdBits) >= slice.nAtoms
    ensures layout.synapseTypeBits > 0 ==> Pow2(layout.synapseTypeBits - 1) < nSynapseTypes
    ensures layout.neuronIdBits > 0 ==> Pow2(layout.neuronIdBits - 1) < slice.nAtoms
  {
    FieldLayout(CeilLog2(slice.nAtoms), CeilLog2(nSynapseTypes))
  }

  /** Where the delay fields start. */
  function DelayShift(layout: FieldLayout): nat
  {
    layout.neuronIdBits + layout.synapseTypeBits
  }

  /** The uint16 operands the encoder and the decoder apply to every
      half-word: the shift of the synapse type, of the dendritic delay and of
      the axonal delay, and the mask applied to the target. */
  datatype Packing = Packing(typeShift: bv16, delayShift: bv16, axonalShift: bv16, targetMask: bv16)

  /** The operands as the source computes them: the synapse type at
      n_neuron_id_bits, the delays at n_neuron_id_bits + n_synapse_type_bits
      and four bits above, and the target mask n_neuron_id_bits + 1. */
  function PackingOf(layout: FieldLayout): (p: Packing)
    ensures layout.neuronIdBits < 16 ==> p.targetMask == p.typeShift + 1
    ensures layout.neuronIdBits >= 16 ==> p.typeShift == 16
  {
    var s := DelayShift(layout);
    if layout.neuronIdBits < 16 then
      MaskAboveShift(layout.neuronIdBits);
      Packing(ShiftAmount(layout.neuronIdBits), ShiftAmount(s), ShiftAmount(4 + s), U16(layout.neuronIdBits + 1))
    else
      Packing(ShiftAmount(layout.neuronIdBits), ShiftAmount(s), ShiftAmount(4 + s), U16(layout.neuronIdBits + 1))
  }

  /** Below 16 neuron id bits, the mask k + 1 is one more than the shift k. */
  lemma MaskAboveShift(k: nat)
    requires k < 16
    ensures U16(k + 1) == ShiftAmount(k) + 1
  {
    if k < 15 {
      U16OfDigit(k + 1);
      DigitSucc(k);
    } else {
      U16Of16();
      assert Digit(15) == 15;
    }
  }

  /** The part of a delay spent on the receiving side: delay * fraction,
      truncated toward zero. */
  function DendriticDelay(delay: nat, fraction: real): int
  {
    (delay as real * fraction).Floor
  }

  /** The part of a delay spent on the sending side: delay * (1 - fraction),
      truncated toward zero. */
  function AxonalDelay(delay: nat, fraction: real): int
  {
    (delay as real * (1.0 - fraction)).Floor
  }

  /** Splitting a delay loses at most one timestep to truncation, and with a
      fraction of at least one half the dendritic part is the larger. */
  lemma DelaySplit(delay: nat, fraction: real)
    requires 0.5 <= fraction <= 1.0
    ensures 0 <= AxonalDelay(delay, fraction) <= DendriticDelay(delay, fraction) <= delay
    ensures delay - 1 <= DendriticDelay(delay, fraction) + AxonalDelay(delay, fraction) <= delay
  {
    var d, a := delay as real * fraction, delay as real * (1.0 - fraction);
    assert d + a == delay as real;
    assert 0.0 <= a <= d by {
      assert d - a == delay as real * (2.0 * fraction - 1.0);
    }
  }

  /** The four values packed into one half-word, each already truncated
      to a uint16: the dendritic and axonal delays, the synapse type and the
      target's id local to the slice. */
  datatype HalfWordFields = HalfWordFields(dendritic: bv16, axonal: bv16, synapseType: bv16, localId: bv16)

  /** The fields of one connection: the two parts of its delay, its synapse
      type and target - loAtom, each truncated to a uint16. */
  function FieldsOf(loAtom: nat, fraction: real, c: Connection): HalfWordFields
  {
    HalfWordFields(U16(DendriticDelay(c.delay, fraction)), U16(AxonalDelay(c.delay, fraction)),
                   U16(c.synapseType), U16(c.target - loAtom))
  }

  /** The half-word holding the given fields: the dendritic delay's low four
      bits, the axonal delay's low four bits, the synapse type unmasked, each
      at its shift, and the local id under the target mask. */
  function Pack(p: Packing, f: HalfWordFields): bv16
  {
    ShlBy(f.dendritic & 0xF, p.delayShift) | ShlBy(f.axonal & 0xF, p.axonalShift)
    | ShlBy(f.synapseType, p.typeShift) | (f.localId & p.targetMask)
  }

  /** The fixed-plastic half-word of one connection. */
  function EncodeHalfWord(p: Packing, loAtom: nat, fraction: real, c: Connection): bv16
  {
    Pack(p, FieldsOf(loAtom, fraction, c))
  }

  /** The sum of a uint16 element v and the integer loAtom as numpy 1.x
      computes it: a loAtom that fits a uint16 leaves the sum a uint16,
      which wraps modulo 2^16; a larger loAtom widens the sum, which is
      then exact. */
  function AddLoAtom(v: nat, loAtom: nat): (sum: nat)
    requires v < 0x10000
    ensures sum == v + loAtom || sum + 0x10000 == v + loAtom
    ensures loAtom < 0x10000 ==> sum < 0x10000
    ensures v + loAtom < 0x10000 || loAtom >= 0x10000 ==> sum == v + loAtom
  {
    if loAtom < 0x10000 then (v + loAtom) % 0x10000 else v + loAtom
  }

  /** The target a half-word decodes to: its masked bits plus loAtom, in
      uint16 arithmetic. It is that sum, or 2^16 less; exactly the sum
      unless the sum passes 2^16 with loAtom a uint16. */
  function DecodeTarget(p: Packing, loAtom: nat, halfWord: bv16): (target: nat)
    ensures target == Value(halfWord & p.targetMask) + loAtom || target + 0x10000 == Value(halfWord & p.targetMask) + loAtom
    ensures loAtom < 0x10000 ==> target < 0x10000
    ensures Value(halfWord & p.targetMask) + loAtom < 0x10000 || loAtom >= 0x10000
            ==> target == Value(halfWord & p.targetMask) + loAtom
  {
    AddLoAtom(Value(halfWord & p.targetMask), loAtom)
  }

  /** The 4-bit delay field a half-word holds (the dendritic delay). */
  function StoredDelay(p: Packing, halfWord: bv16): (stored: bv16)
    ensures stored <= 0xF
  {
    ShrBy(halfWord, p.delayShift) & 0xF
  }

  /** A stored delay of 0 stands for 16: decoded delays lie in 1 .. 16. */
  function RemapDelay(stored: bv16): (delay: nat)
    requires stored <= 0xF
    ensures 1 <= delay <= 16
    ensures delay == 16 <==> stored == 0
    ensures delay < 16 ==> delay == DigitValue(stored)
  {
    if stored == 0 then 16 else DigitValue(stored)
  }

  /** The delay a half-word decodes to, in 1 .. 16. */
  function DecodeDelay(p: Packing, halfWord: bv16): (delay: nat)
    ensures 1 <= delay <= 16
  {
    RemapDelay(StoredDelay(p, halfWord))
  }

  /** The operands keep the local id apart from the other fields: every
      field above it starts at or above typeShift, and while typeShift is
      below 16 the mask is typeShift + 1. */
  predicate TargetSeparated(p: Packing)
  {
    && 2 <= p.typeShift <= 16 && p.typeShift <= p.delayShift <= 16 && p.typeShift <= p.axonalShift <= 16
    && (p.typeShift < 16 ==> p.targetMask == p.typeShift + 1)
  }

  /** The operands keep the dendritic delay apart from the other fields,
      for a synapse type below 2^typeBits: the delay sits right above the
      synapse type field, the axonal delay right above the delay, and the
      target mask stays below the synapse type. */
  predicate DelaySeparated(p: Packing, typeBits: bv16)
  {
    && p.typeShift <= 12 && typeBits <= 12 && p.typeShift + typeBits <= 12
    && p.delayShift == p.typeShift + typeBits && p.axonalShift == p.delayShift + 4
    && p.targetMask >> p.typeShift == 0
  }

  /** With at least two neuron id bits, the source's operands keep the
      local id apart from the other fields. */
  lemma TargetSeparatedOf(layout: FieldLayout)
    requires layout.neuronIdBits >= 2
    ensures TargetSeparated(PackingOf(layout))
  {
    ShiftAmountMonotone(layout.neuronIdBits, DelayShift(layout));
    ShiftAmountMonotone(layout.neuronIdBits, 4 + DelayShift(layout));
    ShiftAmountMonotone(2, layout.neuronIdBits);
    if DelayShift(layout) <= 16 {
      ShiftAmountMonotone(DelayShift(layout), 16);
    }
    if 4 + DelayShift(layout) <= 16 {
      ShiftAmountMonotone(4 + DelayShift(layout), 16);
    }
  }

  /** With at least two neuron id bits and both widths adding up to at most
      12, the source's operands keep the dendritic delay apart. */
  lemma DelaySeparatedOf(layout: FieldLayout)
    requires layout.neuronIdBits >= 2 && DelayShift(layout) <= 12
    ensures DelaySeparated(PackingOf(layout), ShiftAmount(layout.synapseTypeBits))
  {
    ShiftAmountAdd(layout.neuronIdBits, layout.synapseTypeBits);
    ShiftAmountAdd(DelayShift(layout), 4);
    ShiftAmountMonotone(2, layout.neuronIdBits);
    ShiftAmountMonotone(layout.synapseTypeBits, 12);
    ShiftAmountMonotone(layout.neuronIdBits, 12);
    ShiftAmountMonotone(DelayShift(layout), 12);
    MaskAboveShiftBits(ShiftAmount(layout.neuronIdBits));
  }

  /** The intended operands keep the dendritic delay apart as soon as both
      widths add up to at most 12, whatever the number of neuron id bits. */
  lemma IntendedDelaySeparatedOf(layout: FieldLayout)
    requires DelayShift(layout) <= 12
    ensures DelaySeparated(IntendedPackingOf(layout), ShiftAmount(layout.synapseTypeBits))
  {
    ShiftAmountAdd(layout.neuronIdBits, layout.synapseTypeBits);
    ShiftAmountAdd(DelayShift(layout), 4);
    ShiftAmountMonotone(layout.synapseTypeBits, 12);
    ShiftAmountMonotone(layout.neuronIdBits, 12);
    ShiftAmountMonotone(DelayShift(layout), 12);
    IntendedMaskOf(layout);
  }

  /** From two bits up, the mask k + 1 has no bit at or above k. */
  lemma MaskAboveShiftBits(k: bv16)
    requires 2 <= k < 16
    ensures (k + 1) >> k == 0
  {
  }

  /** The mask (1 << k) - 1 has no bit at or above k. */
  lemma LowMaskBits(k: bv16)
    requires k < 16
    ensures ((1 as bv16 << k) - 1) >> k == 0
  {
  }

  /** TargetSeparated's bit-level content, with PackAt written out. */
  lemma TargetBits(sd: bv16, sa: bv16, sn: bv16, mask: bv16, d: bv16, a: bv16, t: bv16, l: bv16)
    requires 2 <= sn <= 16 && sn <= sd <= 16 && sn <= sa <= 16
    requires sn < 16 ==> mask == sn + 1
    ensures ((if sd < 16 then (d & 0xF) << sd else 0) | (if sa < 16 then (a & 0xF) << sa else 0)
             | (if sn < 16 then t << sn else 0) | (l & mask)) & mask == l & mask
  {
  }

  /** DelaySeparated's bit-level content, with Pack and StoredDelay
      written out. */
  lemma DelayBits(sd: bv16, sa: bv16, sn: bv16, mask: bv16, su: bv16, d: bv16, a: bv16, t: bv16, l: bv16)
    requires sn <= 12 && su <= 12 && sn + su <= 12
    requires sd == sn + su && sa == sd + 4 && mask >> sn == 0
    requires t >> su == 0
    ensures (if sd < 16 then
               ((if sd < 16 then (d & 0xF) << sd else 0) | (if sa < 16 then (a & 0xF) << sa else 0)
                | (if sn < 16 then t << sn else 0) | (l & mask)) >> sd
             else 0) & 0xF == d & 0xF
  {
  }

  /** The target mask sees only the local id of a packed half-word. */
  lemma PackedTarget(p: Packing, f: HalfWordFields)
    requires TargetSeparated(p)
    ensures Pack(p, f) & p.targetMask == f.localId & p.targetMask
  {
    TargetBits(p.delayShift, p.axonalShift, p.typeShift, p.targetMask, f.dendritic, f.axonal, f.synapseType, f.localId);
  }

  /** The delay field of a packed half-word holds the dendritic delay's low
      four bits, when the synapse type fits its field. */
  lemma PackedDelay(p: Packing, typeBits: bv16, f: HalfWordFields)
    requires DelaySeparated(p, typeBits)
    requires f.synapseType >> typeBits == 0
    ensures StoredDelay(p, Pack(p, f)) == f.dendritic & 0xF
  {
    DelayBits(p.delayShift, p.axonalShift, p.typeShift, p.targetMask, typeBits, f.dendritic, f.axonal, f.synapseType, f.localId);
  }

  /** Decoding the target of a packed half-word gives the local id under the
      target mask, plus loAtom, whatever the other fields hold. */
  lemma TargetRoundTrip(p: Packing, loAtom: nat, f: HalfWordFields)
    requires TargetSeparated(p)
    ensures DecodeTarget(p, loAtom, Pack(p, f)) == AddLoAtom(Value(f.localId & p.targetMask), loAtom)
  {
    PackedTarget(p, f);
  }

  /** Decoding the delay of a packed half-word sees only the dendritic
      delay's low four bits, remapped; the axonal delay and the synapse type
      do not reach it. */
  lemma DelayFieldRoundTrip(p: Packing, typeBits: bv16, f: HalfWordFields)
    requires DelaySeparated(p, typeBits)
    requires f.synapseType >> typeBits == 0
    ensures DecodeDelay(p, Pack(p, f)) == RemapDelay(f.dendritic & 0xF)
  {
    PackedDelay(p, typeBits, f);
  }

  /** With the whole delay on the dendritic side, every delay of 1 .. 16
      comes back unchanged (16 through the stored 0). */
  lemma DelayRoundTrip(p: Packing, typeBits: bv16, loAtom: nat, c: Connection)
    requires DelaySeparated(p, typeBits)
    requires U16(c.synapseType) >> typeBits == 0
    requires 1 <= c.delay <= 16
    ensures DecodeDelay(p, EncodeHalfWord(p, loAtom, 1.0, c)) == c.delay
  {
    var f := FieldsOf(loAtom, 1.0, c);
    WholeDelayField(loAtom, c);
    DelayFieldRoundTrip(p, typeBits, f);
  }

  /** With a fraction of 1.0, a delay of 1 .. 16 survives the four-bit field
      and the remapping. */
  lemma WholeDelayField(loAtom: nat, c: Connection)
    requires 1 <= c.delay <= 16
    ensures RemapDelay(FieldsOf(loAtom, 1.0, c).dendritic & 0xF) == c.delay
  {
    assert DendriticDelay(c.delay, 1.0) == c.delay;
    LowNibble(c.delay);
  }

  /** Delays of 1 .. 16 survive the four-bit field and the remapping. */
  lemma LowNibble(d: nat)
    requires 1 <= d <= 16
    ensures RemapDelay(U16(d) & 0xF) == d
  {
    if d == 16 {
      U16Of16();
    } else {
      U16OfDigit(d);
      DigitRoundTrip(d);
      LowBits(U16(d));
    }
  }

  lemma LowBits(x: bv16)
    requires x < 16
    ensures x & 0xF == x
  {
  }

  /** x, truncated to a uint16, has no bit at or above position bits. */
  predicate FitsIn(x: int, bits: nat)
  {
    Shr(U16(x), bits) == 0
  }

  /** The mask the layout calls for: the low `bits` bits of the local id,
      (1 << bits) - 1, which is every bit once the id takes all 16. */
  function LowMask(bits: nat): bv16
  {
    Shl(1, bits) - 1
  }

  /** The source's operands with the target mask the layout calls for. */
  function IntendedPackingOf(layout: FieldLayout): (p: Packing)
    ensures p.typeShift == PackingOf(layout).typeShift && p.delayShift == PackingOf(layout).delayShift
    ensures p.axonalShift == PackingOf(layout).axonalShift
  {
    var s := DelayShift(layout);
    Packing(ShiftAmount(layout.neuronIdBits), ShiftAmount(s), ShiftAmount(4 + s), LowMask(layout.neuronIdBits))
  }

  /** Below 16 neuron id bits the intended mask is (1 << typeShift) - 1,
      with no bit at or above typeShift. */
  lemma IntendedMaskOf(layout: FieldLayout)
    requires layout.neuronIdBits < 16
    ensures var p := IntendedPackingOf(layout);
            && p.typeShift < 16
            && p.targetMask == (1 << p.typeShift) - 1
            && p.targetMask >> p.typeShift == 0
  {
    var k := ShiftAmount(layout.neuronIdBits);
    ShiftAmountSmall(layout.neuronIdBits);
    assert LowMask(layout.neuronIdBits) == (1 << k) - 1;
    LowMaskBits(k);
  }

  /** The intended mask's bit-level content, with Pack written out: a local
      id with no bit at or above sn comes back whole. */
  lemma IntendedTargetBits(sd: bv16, sa: bv16, sn: bv16, mask: bv16, d: bv16, a: bv16, t: bv16, l: bv16)
    requires sn < 16 && sn <= sd <= 16 && sn <= sa <= 16
    requires mask == (1 << sn) - 1
    requires l >> sn == 0
    ensures ((if sd < 16 then (d & 0xF) << sd else 0) | (if sa < 16 then (a & 0xF) << sa else 0)
             | (if sn < 16 then t << sn else 0) | (l & mask)) & mask == l
  {
  }

  /** The fields above the local id start at or above its width. */
  predicate IdBelowFields(p: Packing)
  {
    p.typeShift <= 16 && p.typeShift <= p.delayShift <= 16 && p.typeShift <= p.axonalShift <= 16
  }

  lemma IdBelowFieldsOf(layout: FieldLayout)
    ensures IdBelowFields(PackingOf(layout))
  {
    var n, s := layout.neuronIdBits, DelayShift(layout);
    ShiftAmountMonotone(n, s);
    ShiftAmountMonotone(n, 4 + s);
    if n <= 16 {
      ShiftAmountMonotone(n, 16);
    }
    if s <= 16 {
      ShiftAmountMonotone(s, 16);
    }
    if 4 + s <= 16 {
      ShiftAmountMonotone(4 + s, 16);
    }
  }

  /** Under the intended mask, a local id that fits the id field survives
      packing whatever the other fields hold. */
  lemma IntendedPackedTarget(layout: FieldLayout, f: HalfWordFields)
    requires Shr(f.localId, layout.neuronIdBits) == 0
    ensures Pack(IntendedPackingOf(layout), f) & IntendedPackingOf(layout).targetMask == f.localId
  {
    if layout.neuronIdBits < 16 {
      IntendedPackedNarrow(layout, f);
    } else {
      IntendedPackedWide(layout, f);
    }
  }

  /** Below 16 id bits, the intended mask keeps the bits below the type
      shift, where the local id lies. */
  lemma IntendedPackedNarrow(layout: FieldLayout, f: HalfWordFields)
    requires layout.neuronIdBits < 16
    requires Shr(f.localId, layout.neuronIdBits) == 0
    ensures Pack(IntendedPackingOf(layout), f) & IntendedPackingOf(layout).targetMask == f.localId
  {
    IntendedNarrowMask(layout, f.localId);
    PackedUnderLowMask(IntendedPackingOf(layout), f);
  }

  /** Below 16 id bits, the intended operands meet PackedUnderLowMask's
      conditions for a local id that fits the id width. */
  lemma IntendedNarrowMask(layout: FieldLayout, l: bv16)
    requires layout.neuronIdBits < 16
    requires Shr(l, layout.neuronIdBits) == 0
    ensures LowMaskKeeps(IntendedPackingOf(layout), l)
  {
    IntendedIdBelowFields(layout);
    IntendedMaskOf(layout);
    IntendedIdFits(layout, l);
  }

  /** From 16 id bits up, every other field is shifted out and the
      intended mask keeps all 16 bits. */
  lemma IntendedPackedWide(layout: FieldLayout, f: HalfWordFields)
    requires layout.neuronIdBits >= 16
    ensures Pack(IntendedPackingOf(layout), f) & IntendedPackingOf(layout).targetMask == f.localId
  {
    var p := IntendedPackingOf(layout);
    IntendedIdBelowFields(layout);
    IntendedWide(layout);
    PackedUnderFullMask(p, f);
  }

  lemma IntendedIdBelowFields(layout: FieldLayout)
    ensures IdBelowFields(IntendedPackingOf(layout))
  {
    IdBelowFieldsOf(layout);
  }

  /** A local id with no bit at or above the id width has none at or
      above the intended type shift. */
  lemma IntendedIdFits(layout: FieldLayout, l: bv16)
    requires layout.neuronIdBits < 16
    requires Shr(l, layout.neuronIdBits) == 0
    ensures l >> IntendedPackingOf(layout).typeShift == 0
  {
    ShiftAmountSmall(layout.neuronIdBits);
  }

  /** An id of 16 bits or more pushes the type to shift 16 and makes the
      intended mask all ones. */
  lemma IntendedWide(layout: FieldLayout)
    requires layout.neuronIdBits >= 16
    ensures IntendedPackingOf(layout).typeShift == 16
    ensures IntendedPackingOf(layout).targetMask == 0xFFFF
  {
  }

  /** A mask of the bits below typeShift sees only a local id that fits
      below typeShift. */
  predicate LowMaskKeeps(p: Packing, l: bv16)
  {
    IdBelowFields(p) && p.typeShift < 16 && p.targetMask == (1 << p.typeShift) - 1 && l >> p.typeShift == 0
  }

  lemma PackedUnderLowMask(p: Packing, f: HalfWordFields)
    requires LowMaskKeeps(p, f.localId)
    ensures Pack(p, f) & p.targetMask == f.localId
  {
    IntendedTargetBits(p.delayShift, p.axonalShift, p.typeShift, p.targetMask,
                       f.dendritic, f.axonal, f.synapseType, f.localId);
  }

  /** When the id takes all 16 bits, every other field is shifted out and
      the full mask keeps the id. */
  lemma PackedUnderFullMask(p: Packing, f: HalfWordFields)
    requires IdBelowFields(p) && p.typeShift == 16 && p.targetMask == 0xFFFF
    ensures Pack(p, f) & p.targetMask == f.localId
  {
  }

  /** With the intended mask, a target of the slice below 2^16 whose local
      id fits the id field decodes to itself, whatever else the half-word
      holds. */
  lemma IntendedTargetRoundTrip(layout: FieldLayout, loAtom: nat, target: nat, f: HalfWordFields)
    requires loAtom <= target < 0x10000
    requires f.localId == U16(target - loAtom)
    requires FitsIn(target - loAtom, layout.neuronIdBits)
    ensures DecodeTarget(IntendedPackingOf(layout), loAtom, Pack(IntendedPackingOf(layout), f)) == target
  {
    var p := IntendedPackingOf(layout);
    IntendedPackedTarget(layout, f);
    ValueOfU16(target - loAtom);
    assert Value(f.localId) + loAtom == target;
    MaskedTarget(p, loAtom, Pack(p, f), f.localId);
  }

  /** A half-word whose masked bits are l decodes to the target l + loAtom
      when that sum stays below 2^16. */
  lemma MaskedTarget(p: Packing, loAtom: nat, w: bv16, l: bv16)
    requires w & p.targetMask == l
    requires Value(l) + loAtom < 0x10000
    ensures DecodeTarget(p, loAtom, w) == Value(l) + loAtom
  {
    var v := Value(w & p.targetMask);
    assert v == Value(l);
    assert DecodeTarget(p, loAtom, w) == AddLoAtom(v, loAtom);
  }

  /** The decoder's uint16 sum wraps: in a slice of 255 atoms starting at
      atom 65535 (8 id bits, mask 9), the stored local id 1 decodes to
      target 0, below the slice. */
  lemma DecodeWraps()
    ensures var layout := LayoutFor(1, VertexSlice(65535, 255));
            && layout == FieldLayout(8, 0)
            && DecodeTarget(PackingOf(layout), 65535, 1) == 0
  {
    var layout := LayoutFor(1, VertexSlice(65535, 255));
    assert layout == FieldLayout(8, 0);
    var p := PackingOf(layout);
    assert p.targetMask == 9 by {
      U16OfDigit(9);
      assert Digit(9) == 9;
    }
    assert Value(1 & 9) == 1;
  }

  /** With 3 neuron id bits the source's mask is 4: the first two neurons
      of an 8-atom slice decode to the same target. */
  lemma TargetMaskCollision()
    ensures var layout := LayoutFor(1, VertexSlice(0, 8));
            var p := PackingOf(layout);
            && layout.neuronIdBits == 3
            && DecodeTarget(p, 0, EncodeHalfWord(p, 0, 1.0, Connection(0, 0, 1.0, 1, 0))) == 0
            && DecodeTarget(p, 0, EncodeHalfWord(p, 0, 1.0, Connection(0, 1, 1.0, 1, 0))) == 0
  {
    var layout := LayoutFor(1, VertexSlice(0, 8));
    assert layout == FieldLayout(3, 0);
    var p := PackingOf(layout);
    assert p == Packing(3, 3, 7, 4) by {
      U16OfDigit(4);
      assert Digit(3) == 3 && Digit(7) == 7 && Digit(4) == 4;
    }
    assert DendriticDelay(1, 1.0) == 1 && AxonalDelay(1, 1.0) == 0;
    U16OfDigit(0);
    U16OfDigit(1);
    assert Digit(0) == 0 && Digit(1) == 1;
    assert FieldsOf(0, 1.0, Connection(0, 0, 1.0, 1, 0)) == HalfWordFields(1, 0, 0, 0);
    assert FieldsOf(0, 1.0, Connection(0, 1, 1.0, 1, 0)) == HalfWordFields(1, 0, 0, 1);
    assert Pack(p, HalfWordFields(1, 0, 0, 0)) == 8;
    assert Pack(p, HalfWordFields(1, 0, 0, 1)) == 8;
    assert Value(8 & 4) == 0;
  }

  /** With 1 neuron id bit the source's mask is 2, the synapse type's first
      bit: a connection to the first neuron of a 2-atom slice with synapse
      type 1 decodes to a target outside the slice. */
  lemma TargetMaskOverlapsType()
    ensures var layout := LayoutFor(2, VertexSlice(0, 2));
            var p := PackingOf(layout);
            && layout == FieldLayout(1, 1)
            && DecodeTarget(p, 0, EncodeHalfWord(p, 0, 1.0, Connection(0, 0, 1.0, 1, 1))) == 2
  {
    var layout := LayoutFor(2, VertexSlice(0, 2));
    assert layout == FieldLayout(1, 1);
  }
}
