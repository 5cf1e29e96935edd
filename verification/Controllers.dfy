/**
 Controllers that write through a decoder's field table (`util/controllers.cc`, `util/controllers.h`).

 The decoder has its own registers, read from the device when the controller is attached.  Its field
 table is then used to write into the registers of the controller.
 */
module Controllers {
  import opened Words
  import Bits
  import C = Bar4Concurrency
  import D = Decoders
  import W = Wishbone

  /** The record of a field, whatever its value. */
  function Format(spec: D.Spec, value: D.Data): D.RegisterField {
    var offset := D.RegisterToOffset(spec.reg);
    match spec.kind
    case Bit => D.RegisterField(value, offset, spec.mask, 0, false, false, false)
    case Multibit(isSigned) => D.RegisterField(value, offset, spec.mask, 0, true, isSigned, false)
    case Fixed(_, pointPos) => D.RegisterField(value, offset, spec.mask, pointPos, true, true, true)
  }

  /** What decoding records of a field besides its value, and whether it throws, does not depend on the registers. */
  lemma FormatIsFixed(image: seq<Word>, image': seq<Word>, spec: D.Spec)
    requires |image| == |image'| && D.ValidSpec(spec, |image|)
    ensures D.FieldOf(image, spec).Some? <==> D.FieldOf(image', spec).Some?
    ensures D.FieldOf(image, spec).Some? ==>
              D.FieldOf(image, spec).value == Format(spec, D.FieldOf(image, spec).value.value)
  {
  }

  lemma WriteIgnoresOldValue(image: seq<Word>, spec: D.Spec, a: D.Data, b: D.Data, rvalue: D.Data)
    requires D.ValidField(Format(spec, a), |image|)
    ensures D.ValidField(Format(spec, b), |image|)
    ensures D.Written(image, Format(spec, a), rvalue) == D.Written(image, Format(spec, b), rvalue)
  {
    match spec.kind
    case Bit =>
    case Multibit(_) =>
    case Fixed(_, _) =>
  }

  /** Fields that share no bit, all of which the decoder can decode. */
  ghost predicate Layout(layout: seq<D.Spec>, size: nat) {
    && D.ValidLayout(layout, size)
    && (forall i :: 0 <= i < |layout| ==> 0 < layout[i].mask)
    && D.PairwiseDisjoint(layout)
  }

  /** The fields of `image` decode as those of `image'` do, but for those in `changed`. */
  ghost predicate SameFields(layout: seq<D.Spec>, image: seq<Word>, image': seq<Word>, changed: set<nat>)
    requires |image| == |image'| && Layout(layout, |image|)
  {
    forall i: nat :: i < |layout| && i !in changed ==>
        D.DecodedValue(image', layout[i]) == D.DecodedValue(image, layout[i])
  }

  lemma WrittenIfTaken(image: seq<Word>, spec: D.Spec, rf: D.RegisterField, rvalue: D.Data)
    requires D.ValidSpec(spec, |image|) && rf == Format(spec, rf.value)
    ensures D.ValidField(rf, |image|) && 0 < Bits.PopCount(spec.mask)
    ensures D.Written(image, rf, rvalue).Ok? <==> D.Takes(spec, rvalue)
  {
    D.SpecMask(spec, |image|);
    D.WrittenIff(image, rf, rvalue);
  }

  /** A write through a record made from other registers does to these what it should. */
  lemma WriteThroughTable(image: seq<Word>, layout: seq<D.Spec>, j: nat, rf: D.RegisterField, rvalue: D.Data)
    requires Layout(layout, |image|) && j < |layout| && D.FieldOf(image, layout[j]).Some?
    requires rf == Format(layout[j], rf.value)
    ensures D.ValidField(rf, |image|) && 0 < Bits.PopCount(layout[j].mask)
    ensures D.Written(image, rf, rvalue).Ok? ==>
              var image' := D.Written(image, rf, rvalue).value;
              && |image'| == |image| && (layout[j].kind.Fixed? <==> rvalue.Double?)
              && D.DecodedValue(image', layout[j]) == Some(D.ReadBack(layout[j], rvalue))
              && SameFields(layout, image, image', {j})
    ensures D.Written(image, rf, rvalue).Ok? <==> D.Takes(layout[j], rvalue)
  {
    WrittenIfTaken(image, layout[j], rf, rvalue);
    D.SpecMask(layout[j], |image|);
    D.RecordedFieldIsValid(image, layout[j]);
    FormatIsFixed(image, image, layout[j]);
    WriteIgnoresOldValue(image, layout[j], D.FieldOf(image, layout[j]).value.value, rf.value, rvalue);
    if D.Written(image, rf, rvalue).Ok? {
      D.WriteThenDecode(image, layout, j, rvalue);
    }
  }

  /** `RegisterDecoderController`, for a device with the fields `layout`, some of whose bits are commands */
  class Controller {
    const bars: W.PcieBars
    const base: nat
    const layout: seq<D.Spec>
    const commands: seq<nat>
    const decoder: D.RegisterDecoder
    const regs: array<Word>

    ghost predicate Valid()
      reads this, decoder
    {
      && Layout(layout, regs.Length) && decoder.readDest != regs && decoder.readDest.Length == regs.Length
      && base % 4 == 0 && base + 4 * regs.Length <= 0x1_0000_0000
      && forall c :: 0 <= c < |commands| ==> commands[c] < |layout| && layout[commands[c]].kind.Bit?
    }

    constructor (bars: W.PcieBars, base: nat, layout: seq<D.Spec>, commands: seq<nat>, size: nat,
                 booleans: set<string>, numberOfChannels: Option<nat>)
      requires Layout(layout, size) && base % 4 == 0 && base + 4 * size <= 0x1_0000_0000
      requires forall c :: 0 <= c < |commands| ==> commands[c] < |layout| && layout[commands[c]].kind.Bit?
      ensures Valid() && fresh(regs) && fresh(decoder) && fresh(decoder.readDest) && regs.Length == size
      ensures this.bars == bars && this.base == base && this.layout == layout && this.commands == commands
    {
      this.bars, this.base, this.layout, this.commands := bars, base, layout, commands;
      regs := new Word[size](_ => 0);
      var readDest := new Word[size](_ => 0);
      decoder := new D.RegisterDecoder(booleans, readDest, numberOfChannels);
    }

    /** The decoder has recorded every field. */
    ghost predicate Attached()
      requires Valid()
      reads this, decoder, regs
    {
      forall i :: 0 <= i < |layout| ==> Recorded(i) && D.FieldOf(regs[..], layout[i]).Some?
    }

    predicate Recorded(i: nat)
      requires i < |layout|
      reads this, decoder
    {
      layout[i].key in decoder.registerFields
      && decoder.registerFields[layout[i].key] == Format(layout[i], decoder.registerFields[layout[i].key].value)
    }

    /** `set_devinfo`, on a board with BAR4: the decoder reads the device and fills its table. */
    method SetDevinfo() returns (error: Option<D.Error>)
      requires Valid() && bars.Valid() && !bars.serial
      modifies bars, decoder, decoder.readDest
      ensures Valid() && bars.Valid() && bars.wb == old(bars.wb)
      ensures forall x :: 0 <= x < regs.Length ==> decoder.readDest[x] == C.At(bars.wb, base + 4 * x)
      ensures error.None? <==> forall i :: 0 <= i < |layout| ==> decoder.Decodable(decoder.readDest[..], layout[i])
      ensures error.None? ==> Attached()
    {
      var _ := bars.Bar4ReadV(base, decoder.readDest, 0, 4 * regs.Length);
      error := decoder.Decode(layout);
      if error.None? {
        forall i | 0 <= i < |layout|
          ensures Recorded(i) && D.FieldOf(regs[..], layout[i]).Some?
        {
          assert decoder.Decodable(decoder.readDest[..], layout[i]);
          FormatIsFixed(decoder.readDest[..], regs[..], layout[i]);
        }
      }
    }

    /** `write_general` and `write_channel` */
    method Write(i: nat, rvalue: D.Data) returns (error: Option<D.Error>)
      requires Valid() && Attached() && i < |layout|
      modifies regs
      ensures Attached() && 0 < Bits.PopCount(layout[i].mask)
      ensures error.None? <==> D.Takes(layout[i], rvalue)
      ensures error.Some? ==> regs[..] == old(regs[..])
      ensures error.None? ==>
                && (layout[i].kind.Fixed? <==> rvalue.Double?)
                && D.DecodedValue(regs[..], layout[i]) == Some(D.ReadBack(layout[i], rvalue))
                && SameFields(layout, old(regs[..]), regs[..], {i})
    {
      ghost var image := regs[..];
      var key := layout[i].key;
      WriteThroughTable(image, layout, i, decoder.registerFields[key], rvalue);
      error := decoder.WriteInternal(key, rvalue, regs);
      StillAttached(image);
    }

    /** Only the table and the sizes matter for being attached. */
    twostate lemma StillAttached(image: seq<Word>)
      requires old(Valid()) && old(Attached()) && image == old(regs[..])
      requires unchanged(decoder)
      ensures Valid() && Attached()
    {
      forall i | 0 <= i < |layout| ensures Recorded(i) && D.FieldOf(regs[..], layout[i]).Some? {
        assert old(Recorded(i) && D.FieldOf(regs[..], layout[i]).Some?);
        FormatIsFixed(image, regs[..], layout[i]);
      }
    }

    /** `unset_commands`: every command bit is cleared, and no other field changes. */
    method UnsetCommands()
      requires Valid() && Attached()
      modifies regs
      ensures Attached()
      ensures forall c :: 0 <= c < |commands| ==> D.DecodedValue(regs[..], layout[commands[c]]) == Some(D.Int(0))
      ensures SameFields(layout, old(regs[..]), regs[..], CommandSet(|commands|))
    {
      for c := 0 to |commands|
        invariant Attached()
        invariant forall b :: 0 <= b < c ==> D.DecodedValue(regs[..], layout[commands[b]]) == Some(D.Int(0))
        invariant SameFields(layout, old(regs[..]), regs[..], CommandSet(c))
      {
        ghost var before := regs[..];
        var _ := Write(commands[c], D.Int(0));
        forall b | 0 <= b <= c ensures D.DecodedValue(regs[..], layout[commands[b]]) == Some(D.Int(0)) {
          if commands[b] != commands[c] {
            assert D.DecodedValue(regs[..], layout[commands[b]]) == D.DecodedValue(before, layout[commands[b]]);
          }
        }
        assert CommandSet(c + 1) == CommandSet(c) + {commands[c]};
      }
    }

    ghost function CommandSet(n: nat): set<nat>
      requires n <= |commands|
    {
      set c | 0 <= c < n :: commands[c]
    }

    /**
     `write_params`: the device receives the registers as they are, commands included, and only then
     the commands are cleared, so that the next call does not send them again.
     */
    method WriteParams()
      requires Valid() && Attached() && bars.Valid() && !bars.serial
      modifies bars, regs
      ensures Attached() && bars.Valid()
      ensures forall a: nat :: C.At(bars.wb, a) ==
                if base <= a < base + 4 * regs.Length && (a - base) % 4 == 0 then old(regs[(a - base) / 4])
                else C.At(old(bars.wb), a)
      ensures forall c :: 0 <= c < |commands| ==> D.DecodedValue(regs[..], layout[commands[c]]) == Some(D.Int(0))
      ensures SameFields(layout, old(regs[..]), regs[..], CommandSet(|commands|))
    {
      ghost var before, image := bars.wb, regs[..];
      var _ := bars.Bar4WriteV(base, regs[..]);
      forall a: nat
        ensures C.At(bars.wb, a) ==
                if base <= a < base + 4 * |image| && (a - base) % 4 == 0 then image[(a - base) / 4] else C.At(before, a)
      {
        C.WrittenAt(before, base, image, |image|, a);
      }
      UnsetCommands();
    }
  }
}
