/**
 Register fields decoded by name and written back by name (`util/decoders.cc`).

 A register struct is an array of words, and a pointer to one of its registers is
 an index into that array.
 */
module Decoders {
  import opened Words
  import Bits
  import FixedPoint

  /** `std::variant<int32_t, double>` */
  datatype Data = Int(i: Int32) | Double(d: real)

  datatype Key = Key(name: string, pos: Option<nat>)

  datatype RegisterField = RegisterField(
    value: Data, offset: nat, mask: Word, fixedPointPos: nat,
    multibit: bool, isSigned: bool, isFixedPoint: bool)

  datatype Error = OutOfRange | LogicError | BadVariant | RangeError

  /** How the `decode()` of a device reads a field, and so which `rf_` functions it calls. */
  datatype Kind = Bit | Multibit(isSigned: bool) | Fixed(isSigned: bool, pointPos: nat)

  datatype Spec = Spec(key: Key, reg: nat, mask: Word, kind: Kind)

  // ----- describing a field

  function RegisterToOffset(reg: nat): nat { 4 * reg }

  function OffsetToRegister(offset: nat): nat { offset / 4 }

  function RfGetBit(image: seq<Word>, reg: nat, mask: Word): RegisterField
    requires reg < |image| && Bits.PopCount(mask) == 1
  {
    var value := if Bits.GetBit(image[reg], mask) then 1 else 0;
    RegisterField(Int(value), RegisterToOffset(reg), mask, 0, false, false, false)
  }

  /** None when `extract_value` throws. */
  function RfExtractValue(image: seq<Word>, reg: nat, mask: Word, isSigned: bool): Option<RegisterField>
    requires reg < |image| && 1 < Bits.PopCount(mask) && Bits.Contiguous(mask)
  {
    match Bits.ExtractValue(image[reg], mask, isSigned)
    case None => None
    case Some(value) => Some(RegisterField(Int(value), RegisterToOffset(reg), mask, 0, true, isSigned, false))
  }

  function RfFixedToFloat(rf: RegisterField, pointPos: nat): RegisterField
    requires rf.value.Int?
  {
    rf.(fixedPointPos := pointPos, isSigned := true, isFixedPoint := true,
    value := Double(FixedPoint.FixedToFloat(AsWord(rf.value.i), pointPos)))
  }

  predicate ValidSpec(spec: Spec, size: nat) {
    && spec.reg < size
    && match spec.kind
       case Bit => Bits.PopCount(spec.mask) == 1
       case _ => 1 < Bits.PopCount(spec.mask) && Bits.Contiguous(spec.mask)
  }

  function FieldOf(image: seq<Word>, spec: Spec): Option<RegisterField>
    requires ValidSpec(spec, |image|)
  {
    match spec.kind
    case Bit => Some(RfGetBit(image, spec.reg, spec.mask))
    case Multibit(isSigned) => RfExtractValue(image, spec.reg, spec.mask, isSigned)
    case Fixed(isSigned, pointPos) =>
      match RfExtractValue(image, spec.reg, spec.mask, isSigned)
      case None => None
      case Some(rf) => Some(RfFixedToFloat(rf, pointPos))
  }

  /** `try_boolean_value`: plain integers under a name printed as a boolean are kept as 0 or 1. */
  function TryBoolean(booleans: set<string>, name: string, value: Int32): Int32 {
    if name in booleans then (if value != 0 then 1 else 0) else value
  }

  // ----- writing a field

  /** The integer `write_internal` inserts for `rvalue`, or the exception it throws. */
  function Encoded(rf: RegisterField, rvalue: Data): Result<Int32, Error> {
    if rf.isFixedPoint then
      if rvalue.Double? then Ok(AsInt32(FixedPoint.Saturating(rvalue.d, rf.fixedPointPos))) else Err(BadVariant)
    else if rvalue.Int? then Ok(rvalue.i)
    else Err(BadVariant)
  }

  predicate ValidField(rf: RegisterField, size: nat) {
    && OffsetToRegister(rf.offset) < size
    && Bits.Contiguous(rf.mask) && 0 < Bits.PopCount(rf.mask)
    && (!rf.multibit ==> Bits.PopCount(rf.mask) == 1)
  }

  /** The register image after a write of `rvalue`, or the exception of the write. */
  function Written(image: seq<Word>, rf: RegisterField, rvalue: Data): Result<seq<Word>, Error>
    requires ValidField(rf, |image|)
  {
    var reg := OffsetToRegister(rf.offset);
    match Encoded(rf, rvalue)
    case Err(e) => Err(e)
    case Ok(value) =>
      if !rf.multibit then Ok(image[reg := Bits.Put(image[reg], rf.mask, if value != 0 then 1 else 0)])
      else if rf.isSigned && !Bits.FitsSigned(value, rf.mask) then Err(RangeError)
      else if !rf.isSigned && !Bits.FitsUnsigned(AsWord(value), rf.mask) then Err(RangeError)
      else Ok(image[reg := Bits.Put(image[reg], rf.mask, AsWord(value))])
  }

  /** When a write succeeds: the value is of the field's type, and fits the field if that has several bits. */
  lemma WrittenIff(image: seq<Word>, rf: RegisterField, rvalue: Data)
    requires ValidField(rf, |image|)
    ensures var written, w := Written(image, rf, rvalue), Bits.PopCount(rf.mask);
            && 0 < w
            && if rf.isFixedPoint != rvalue.Double? then written == Err(BadVariant)
               else
                 var value := if rvalue.Int? then rvalue.i
                              else AsInt32(FixedPoint.Saturating(rvalue.d, rf.fixedPointPos));
                 var fits := if !rf.multibit || (!rf.isSigned && w == 32) then true
                             else if rf.isSigned then -Pow2(w - 1) <= value < Pow2(w - 1)
                             else 0 <= value < Pow2(w);
                 if fits then written.Ok? else written == Err(RangeError)
  {
    Bits.ShiftedMask(rf.mask);
    Pow2Constants();
    if Bits.PopCount(rf.mask) < 32 {
      Pow2Monotone(Bits.PopCount(rf.mask), 31);
    }
  }

  /** The values a field takes: of its type, and in the range of its width. */
  predicate Takes(spec: Spec, rvalue: Data)
    requires 0 < Bits.PopCount(spec.mask)
  {
    var w := Bits.PopCount(spec.mask);
    match spec.kind
    case Bit => rvalue.Int?
    case Multibit(false) => rvalue.Int? && (w == 32 || 0 <= rvalue.i < Pow2(w))
    case Multibit(true) => rvalue.Int? && -Pow2(w - 1) <= rvalue.i < Pow2(w - 1)
    case Fixed(_, p) =>
      rvalue.Double? && -Pow2(w - 1) <= AsInt32(FixedPoint.Saturating(rvalue.d, p)) < Pow2(w - 1)
  }

  // ----- the decoder object

  class RegisterDecoder {
    const booleans: set<string>
    var readDest: array<Word>
    var numberOfChannels: Option<nat>
    var data: map<Key, Data>
    var registerFields: map<Key, RegisterField>

    constructor (booleans: set<string>, readDest: array<Word>, numberOfChannels: Option<nat>)
      ensures this.booleans == booleans && this.readDest == readDest && this.numberOfChannels == numberOfChannels
      ensures data == map[] && registerFields == map[]
    {
      this.booleans, this.readDest, this.numberOfChannels := booleans, readDest, numberOfChannels;
      data, registerFields := map[], map[];
    }

    predicate PosAllowed(pos: Option<nat>)
      reads this
    {
      pos.Some? ==> numberOfChannels.Some? && pos.value < numberOfChannels.value
    }

    /** The part of `add_data_internal` that every type shares. */
    method AddDataInternal(key: Key, value: Data) returns (error: Option<Error>)
      modifies this`data
      ensures error.None? <==> PosAllowed(key.pos)
      ensures data == if error.None? then old(data)[key := value] else old(data)
    {
      if key.pos.Some? {
        if numberOfChannels.None? {
          return Some(LogicError);
        }
        if key.pos.value >= numberOfChannels.value {
          return Some(OutOfRange);
        }
      }
      data := data[key := value];
      return None;
    }

    /** `add_general` and `add_channel` of a plain integer, the only type made boolean. */
    method AddInteger(key: Key, value: Int32) returns (error: Option<Error>)
      modifies this`data
      ensures error.None? <==> PosAllowed(key.pos)
      ensures data == if error.Some? then old(data)
                      else old(data)[key := Int(if key.name !in booleans then value else if value == 0 then 0 else 1)]
    {
      error := AddDataInternal(key, Int(TryBoolean(booleans, key.name, value)));
    }

    /** The field is recorded before the position is checked, so it stays recorded if that throws. */
    method RfAddDataInternal(key: Key, rf: RegisterField) returns (error: Option<Error>)
      modifies this`data, this`registerFields
      ensures registerFields == old(registerFields)[key := rf]
      ensures error.None? <==> PosAllowed(key.pos)
      ensures data == if error.None? then old(data)[key := rf.value] else old(data)
    {
      registerFields := registerFields[key := rf];
      error := AddDataInternal(key, rf.value);
    }

    /** The name is known, with this field and its value. */
    predicate Holds(key: Key, rf: RegisterField)
      reads this
    {
      key in registerFields && registerFields[key] == rf && key in data && data[key] == rf.value
    }

    predicate Decodable(image: seq<Word>, spec: Spec)
      requires ValidSpec(spec, |image|)
      reads this
    {
      FieldOf(image, spec).Some? && PosAllowed(spec.key.pos)
    }

    /** The `decode()` of a device whose fields are `layout`. */
    method Decode(layout: seq<Spec>) returns (error: Option<Error>)
      requires ValidLayout(layout, readDest.Length)
      modifies this`data, this`registerFields
      ensures error.None? <==> forall i :: 0 <= i < |layout| ==> Decodable(readDest[..], layout[i])
      ensures error.None? ==>
                forall i :: 0 <= i < |layout| ==> Holds(layout[i].key, FieldOf(readDest[..], layout[i]).value)
      ensures data - KeysOf(layout) == old(data) - KeysOf(layout)
      ensures registerFields - KeysOf(layout) == old(registerFields) - KeysOf(layout)
    {
      ghost var image := readDest[..];
      for n := 0 to |layout|
        invariant readDest[..] == image
        invariant forall i :: 0 <= i < n ==> Decodable(image, layout[i])
        invariant forall i :: 0 <= i < n ==> Holds(layout[i].key, FieldOf(image, layout[i]).value)
        invariant data - KeysOf(layout) == old(data) - KeysOf(layout)
        invariant registerFields - KeysOf(layout) == old(registerFields) - KeysOf(layout)
      {
        var rf := FieldOf(readDest[..], layout[n]);
        if rf.None? {
          return Some(LogicError);
        }
        assert layout[n].key in KeysOf(layout);
        error := RfAddDataInternal(layout[n].key, rf.value);
        if error.Some? {
          return;
        }
      }
      return None;
    }

    /** A write to a name never decoded throws; any other failure leaves the image as it was. */
    method WriteInternal(key: Key, rvalue: Data, dest: array<Word>) returns (error: Option<Error>)
      requires key in registerFields ==> ValidField(registerFields[key], dest.Length)
      modifies dest
      ensures key !in registerFields ==> error == Some(OutOfRange) && dest[..] == old(dest[..])
      ensures key in registerFields ==>
                match Written(old(dest[..]), registerFields[key], rvalue)
                case Ok(image) => error == None && dest[..] == image
                case Err(e) => error == Some(e) && dest[..] == old(dest[..])
    {
      if key !in registerFields {
        return Some(OutOfRange);
      }
      var rf := registerFields[key];
      var reg := OffsetToRegister(rf.offset);
      var value: Int32;
      if rf.isFixedPoint {
        if !rvalue.Double? {
          return Some(BadVariant);
        }
        value := AsInt32(FixedPoint.Saturating(rvalue.d, rf.fixedPointPos));
      } else {
        if !rvalue.Int? {
          return Some(BadVariant);
        }
        value := rvalue.i;
      }
      var ok := true;
      if rf.multibit {
        if rf.isSigned {
          ok := Bits.ClearAndInsertSigned(dest, reg, value, rf.mask);
        } else {
          ok := Bits.ClearAndInsertUnsigned(dest, reg, AsWord(value), rf.mask);
        }
      } else {
        Bits.InsertBit(dest, reg, value != 0, rf.mask);
      }
      return if ok then None else Some(RangeError);
    }
  }

  // ----- layouts

  ghost function KeysOf(layout: seq<Spec>): set<Key> {
    set i | 0 <= i < |layout| :: layout[i].key
  }

  predicate ShareNoBit(a: Spec, b: Spec)
    requires 0 < a.mask && 0 < b.mask
  {
    a.reg != b.reg || Bits.DisjointMasks(a.mask, b.mask)
  }

  /** Valid fields, under different names. */
  ghost predicate ValidLayout(layout: seq<Spec>, size: nat) {
    && (forall i :: 0 <= i < |layout| ==> ValidSpec(layout[i], size))
    && (forall i, j :: 0 <= i < j < |layout| ==> layout[i].key != layout[j].key)
  }

  lemma SpecMask(spec: Spec, size: nat)
    requires ValidSpec(spec, size)
    ensures Bits.Contiguous(spec.mask) && 0 < Bits.PopCount(spec.mask) <= 32
  {
    if spec.kind.Bit? {
      Bits.SingleBit(spec.mask);
    }
    Bits.ShiftedMask(spec.mask);
  }

  /** Every field a decode records can be used for writing. */
  lemma RecordedFieldIsValid(image: seq<Word>, spec: Spec)
    requires ValidSpec(spec, |image|) && FieldOf(image, spec).Some?
    ensures ValidField(FieldOf(image, spec).value, |image|)
  {
    SpecMask(spec, |image|);
  }

  // ----- what a write does to decoded values

  /** What a field decodes to, None if decoding it throws. */
  function DecodedValue(image: seq<Word>, spec: Spec): Option<Data>
    requires ValidSpec(spec, |image|)
  {
    match FieldOf(image, spec)
    case None => None
    case Some(rf) => Some(rf.value)
  }

  /** The value of a field without a sign, by its bits */
  lemma DecodesUnsigned(image: seq<Word>, spec: Spec)
    requires ValidSpec(spec, |image|) && (spec.kind.Bit? || !spec.kind.isSigned)
    ensures 0 < spec.mask && Bits.Selected(image[spec.reg], spec.mask) < 0x1_0000_0000
    ensures var bits := Bits.Selected(image[spec.reg], spec.mask);
            DecodedValue(image, spec)
            == Some(if spec.kind.Fixed? then Double(FixedPoint.FixedToFloat(bits, spec.kind.pointPos))
                    else Int(AsInt32(bits)))
  {
    SpecMask(spec, |image|);
    if spec.kind.Bit? {
      Bits.GetBitIsField(image[spec.reg], spec.mask);
    } else {
      Bits.ExtractMeaning(image[spec.reg], spec.mask);
    }
  }

  /** The value of a field with a sign, in two's complement; its decoding throws at widths other than 8, 16 and 32. */
  lemma DecodesSigned(image: seq<Word>, spec: Spec)
    requires ValidSpec(spec, |image|) && !spec.kind.Bit? && spec.kind.isSigned
    ensures 0 < spec.mask && 0 < Bits.PopCount(spec.mask)
    ensures var decoded, w := DecodedValue(image, spec), Bits.PopCount(spec.mask);
            var number := Bits.TwosComplement(Bits.Selected(image[spec.reg], spec.mask), w);
            && (decoded.Some? <==> w in {8, 16, 32})
            && (decoded.Some? ==>
                  if spec.kind.Fixed? then
                    decoded.value == Double(number as real / FixedPoint.Scale(spec.kind.pointPos))
                  else decoded.value.Int? && decoded.value.i == number)
  {
    SpecMask(spec, |image|);
    DecodedSigned(image, spec);
    Bits.ExtractMeaning(image[spec.reg], spec.mask);
  }

  /** The decoded value depends on the selected bits only. */
  lemma DecodedFromSelected(image: seq<Word>, image': seq<Word>, spec: Spec)
    requires |image| == |image'| && ValidSpec(spec, |image|)
    requires Bits.Contiguous(spec.mask)
    requires Bits.Selected(image[spec.reg], spec.mask) == Bits.Selected(image'[spec.reg], spec.mask)
    ensures DecodedValue(image, spec) == DecodedValue(image', spec)
  {
    if spec.kind.Bit? {
      Bits.GetBitIsField(image[spec.reg], spec.mask);
      Bits.GetBitIsField(image'[spec.reg], spec.mask);
    } else {
      Bits.ExtractIsSelected(image[spec.reg], spec.mask);
      Bits.ExtractIsSelected(image'[spec.reg], spec.mask);
    }
  }

  /** A successful write changes the decoded value of no field that shares no bit with the written one. */
  lemma WriteFrame(image: seq<Word>, written: Spec, other: Spec, rvalue: Data)
    requires ValidSpec(written, |image|) && ValidSpec(other, |image|)
    requires 0 < written.mask && 0 < other.mask && ShareNoBit(written, other)
    requires FieldOf(image, written).Some?
    requires ValidField(FieldOf(image, written).value, |image|)
    requires Written(image, FieldOf(image, written).value, rvalue).Ok?
    ensures var image' := Written(image, FieldOf(image, written).value, rvalue).value;
            |image'| == |image| && DecodedValue(image', other) == DecodedValue(image, other)
  {
    SpecMask(written, |image|);
    SpecMask(other, |image|);
    var rf := FieldOf(image, written).value;
    var value := Encoded(rf, rvalue).value;
    var u: Word := if rf.multibit then AsWord(value) else if value != 0 then 1 else 0;
    if written.reg == other.reg {
      Bits.PutFrame(image[written.reg], written.mask, u, other.mask, 0);
    }
    DecodedFromSelected(image, Written(image, rf, rvalue).value, other);
  }

  /** What reading a written value back gives. */
  function ReadBack(spec: Spec, rvalue: Data): Data
    requires spec.kind.Fixed? <==> rvalue.Double?
    requires 0 < Bits.PopCount(spec.mask)
  {
    match spec.kind
    case Bit => Int(if rvalue.i != 0 then 1 else 0)
    case Multibit(_) => rvalue
    case Fixed(isSigned, p) =>
      var stored := AsInt32(FixedPoint.Saturating(rvalue.d, p));
      if isSigned || Bits.PopCount(spec.mask) == 32 || 0 <= stored then
        Double(FixedPoint.FixedToFloat(AsWord(stored), p))
      else
        Double((stored + Pow2(Bits.PopCount(spec.mask))) as real / FixedPoint.Scale(p))
  }

  /**
   A successful write reads back as the value written: the same integer, the truth of a bit, the
   truncated fixed-point number.  A negative fixed-point number in a field narrower than 32 bits
   comes back too large by 2^width steps, because extraction is unsigned.
   */
  lemma WriteReadsBack(image: seq<Word>, spec: Spec, rvalue: Data)
    requires ValidSpec(spec, |image|) && FieldOf(image, spec).Some?
    requires ValidField(FieldOf(image, spec).value, |image|)
    requires Written(image, FieldOf(image, spec).value, rvalue).Ok?
    ensures spec.kind.Fixed? <==> rvalue.Double?
    ensures DecodedValue(Written(image, FieldOf(image, spec).value, rvalue).value, spec) == Some(ReadBack(spec, rvalue))
  {
    match spec.kind
    case Bit => BitReadsBack(image, spec, rvalue);
    case Multibit(true) => SignedReadsBack(image, spec, rvalue);
    case Multibit(false) => UnsignedReadsBack(image, spec, rvalue);
    case Fixed(true, _) => SignedFixedReadsBack(image, spec, rvalue);
    case Fixed(false, _) => UnsignedFixedReadsBack(image, spec, rvalue);
  }

  /** A write of this value succeeds. */
  predicate Accepts(image: seq<Word>, spec: Spec, rvalue: Data) {
    && ValidSpec(spec, |image|) && FieldOf(image, spec).Some?
    && ValidField(FieldOf(image, spec).value, |image|)
    && Written(image, FieldOf(image, spec).value, rvalue).Ok?
  }

  /** A write that succeeds, followed by decoding. */
  function AfterWrite(image: seq<Word>, spec: Spec, rvalue: Data): (image': seq<Word>)
    requires Accepts(image, spec, rvalue)
    ensures |image'| == |image|
  {
    Written(image, FieldOf(image, spec).value, rvalue).value
  }

  lemma BitReadsBack(image: seq<Word>, spec: Spec, rvalue: Data)
    requires Accepts(image, spec, rvalue) && spec.kind.Bit?
    ensures rvalue.Int? && 0 < Bits.PopCount(spec.mask)
    ensures DecodedValue(AfterWrite(image, spec, rvalue), spec) == Some(ReadBack(spec, rvalue))
  {
    SpecMask(spec, |image|);
    Bits.BitAfterPut(image[spec.reg], spec.mask, if rvalue.i != 0 then 1 else 0);
  }

  /** The register of a field after a write of the integer `value` to it. */
  lemma WrittenRegister(image: seq<Word>, spec: Spec, rvalue: Data, value: Int32)
    requires Accepts(image, spec, rvalue) && !spec.kind.Bit?
    requires Encoded(FieldOf(image, spec).value, rvalue) == Ok(value)
    ensures Bits.Contiguous(spec.mask)
    ensures AfterWrite(image, spec, rvalue)[spec.reg] == Bits.Put(image[spec.reg], spec.mask, AsWord(value))
    ensures if FieldOf(image, spec).value.isSigned then Bits.FitsSigned(value, spec.mask)
            else Bits.FitsUnsigned(AsWord(value), spec.mask)
  {
  }

  /** What a signed field decodes to. */
  lemma DecodedSigned(image: seq<Word>, spec: Spec)
    requires ValidSpec(spec, |image|) && !spec.kind.Bit? && spec.kind.isSigned
    ensures var e := Bits.ExtractValue(image[spec.reg], spec.mask, true);
            DecodedValue(image, spec)
            == if e.None? then None
               else if spec.kind.Fixed? then Some(Double(FixedPoint.FixedToFloat(AsWord(e.value), spec.kind.pointPos)))
               else Some(Int(e.value))
  {
  }

  lemma SignedReadsBack(image: seq<Word>, spec: Spec, rvalue: Data)
    requires Accepts(image, spec, rvalue) && spec.kind == Multibit(true)
    ensures rvalue.Int? && 0 < Bits.PopCount(spec.mask)
    ensures DecodedValue(AfterWrite(image, spec, rvalue), spec) == Some(ReadBack(spec, rvalue))
  {
    SpecMask(spec, |image|);
    WrittenRegister(image, spec, rvalue, rvalue.i);
    Bits.SignedRoundTrip(image[spec.reg], spec.mask, rvalue.i);
    DecodedSigned(image, spec);
    DecodedSigned(AfterWrite(image, spec, rvalue), spec);
  }

  lemma UnsignedReadsBack(image: seq<Word>, spec: Spec, rvalue: Data)
    requires Accepts(image, spec, rvalue) && spec.kind == Multibit(false)
    ensures rvalue.Int? && 0 < Bits.PopCount(spec.mask)
    ensures DecodedValue(AfterWrite(image, spec, rvalue), spec) == Some(ReadBack(spec, rvalue))
  {
    SpecMask(spec, |image|);
    Bits.UnsignedRoundTrip(image[spec.reg], spec.mask, AsWord(rvalue.i));
  }

  lemma SignedFixedReadsBack(image: seq<Word>, spec: Spec, rvalue: Data)
    requires Accepts(image, spec, rvalue) && spec.kind.Fixed? && spec.kind.isSigned
    ensures rvalue.Double? && 0 < Bits.PopCount(spec.mask)
    ensures DecodedValue(AfterWrite(image, spec, rvalue), spec) == Some(ReadBack(spec, rvalue))
  {
    SpecMask(spec, |image|);
    var value := AsInt32(FixedPoint.Saturating(rvalue.d, spec.kind.pointPos));
    WrittenRegister(image, spec, rvalue, value);
    Bits.SignedRoundTrip(image[spec.reg], spec.mask, value);
    DecodedSigned(image, spec);
    DecodedSigned(AfterWrite(image, spec, rvalue), spec);
  }

  lemma UnsignedFixedReadsBack(image: seq<Word>, spec: Spec, rvalue: Data)
    requires Accepts(image, spec, rvalue) && spec.kind.Fixed? && !spec.kind.isSigned
    ensures rvalue.Double? && 0 < Bits.PopCount(spec.mask)
    ensures DecodedValue(AfterWrite(image, spec, rvalue), spec) == Some(ReadBack(spec, rvalue))
  {
    SpecMask(spec, |image|);
    var value := AsInt32(FixedPoint.Saturating(rvalue.d, spec.kind.pointPos));
    NarrowFixed(image[spec.reg], spec.mask, value);
  }

  /** A signed insert read back by an unsigned extraction. */
  lemma NarrowFixed(dest: Word, mask: Word, value: Int32)
    requires 1 < Bits.PopCount(mask) && Bits.Contiguous(mask) && Bits.FitsSigned(value, mask)
    ensures Bits.PopCount(mask) <= 32
    ensures var w := Bits.PopCount(mask);
            Bits.ExtractValue(Bits.Put(dest, mask, AsWord(value)), mask, false)
            == Some(if 0 <= value || w == 32 then value else value + Pow2(w))
  {
    var w := Bits.PopCount(mask);
    Bits.ShiftedMask(mask);
    Bits.ExtractIsSelected(Bits.Put(dest, mask, AsWord(value)), mask);
    Bits.SelectedAfterPut(dest, mask, AsWord(value));
    Bits.LowBitsOf(value, w);
    UnsignedView(value, w);
  }

  lemma UnsignedView(value: Int32, w: nat)
    requires 1 < w <= 32 && -Pow2(w - 1) <= value < Pow2(w - 1)
    ensures var low := if 0 <= value then value else value + Pow2(w);
            0 <= low < 0x1_0000_0000 && AsInt32(low) == if 0 <= value || w == 32 then value else low
  {
    Pow2Constants();
    if w < 32 {
      Pow2Monotone(w, 31);
    }
  }

  /**
   A fixed-point field reads back the truncated number exactly when it has all 32 bits, is extracted
   signed, or the number is greater than minus one step.
   */
  lemma FixedReadsBackIff(image: seq<Word>, spec: Spec, v: real)
    requires ValidSpec(spec, |image|) && spec.kind.Fixed? && FieldOf(image, spec).Some?
    requires ValidField(FieldOf(image, spec).value, |image|)
    requires Written(image, FieldOf(image, spec).value, Double(v)).Ok?
    ensures var stored := FixedPoint.Saturating(v, spec.kind.pointPos);
            var image' := Written(image, FieldOf(image, spec).value, Double(v)).value;
            DecodedValue(image', spec) == Some(Double(FixedPoint.FixedToFloat(stored, spec.kind.pointPos)))
            <==> spec.kind.isSigned || Bits.PopCount(spec.mask) == 32 || -1.0 < FixedPoint.Scaled(v, spec.kind.pointPos)
  {
    FixedPoint.NegativeIff(v, spec.kind.pointPos);
    WriteReadsBack(image, spec, Double(v));
    var p := spec.kind.pointPos;
    var stored := AsInt32(FixedPoint.Saturating(v, p));
    ScaleInjective(stored, stored + Pow2(Bits.PopCount(spec.mask)), p);
  }

  lemma ScaleInjective(a: int, b: int, p: nat)
    requires a != b
    ensures a as real / FixedPoint.Scale(p) != b as real / FixedPoint.Scale(p)
  {
    FixedPoint.DivMul(a as real, FixedPoint.Scale(p));
    FixedPoint.DivMul(b as real, FixedPoint.Scale(p));
  }

  /** No two fields of the layout share a bit. */
  ghost predicate PairwiseDisjoint(layout: seq<Spec>)
    requires forall i :: 0 <= i < |layout| ==> 0 < layout[i].mask
  {
    forall i, j :: 0 <= i < |layout| && 0 <= j < |layout| && i != j ==> ShareNoBit(layout[i], layout[j])
  }

  /**
   On a layout of disjoint fields, a successful write of field `j` changes what a decode gives for
   that field, to the value read back, and for no other field.
   */
  lemma WriteThenDecode(image: seq<Word>, layout: seq<Spec>, j: nat, rvalue: Data)
    requires ValidLayout(layout, |image|) && j < |layout| && FieldOf(image, layout[j]).Some?
    requires forall i :: 0 <= i < |layout| ==> 0 < layout[i].mask
    requires PairwiseDisjoint(layout)
    requires ValidField(FieldOf(image, layout[j]).value, |image|)
    requires Written(image, FieldOf(image, layout[j]).value, rvalue).Ok?
    ensures 0 < Bits.PopCount(layout[j].mask) && (layout[j].kind.Fixed? <==> rvalue.Double?)
    ensures var image' := Written(image, FieldOf(image, layout[j]).value, rvalue).value;
            && |image'| == |image|
            && forall i :: 0 <= i < |layout| ==>
                             DecodedValue(image', layout[i])
                             == if i == j then Some(ReadBack(layout[j], rvalue)) else DecodedValue(image, layout[i])
  {
    SpecMask(layout[j], |image|);
    WriteReadsBack(image, layout[j], rvalue);
    var image' := Written(image, FieldOf(image, layout[j]).value, rvalue).value;
    forall i | 0 <= i < |layout| && i != j
      ensures DecodedValue(image', layout[i]) == DecodedValue(image, layout[i])
    {
      WriteFrame(image, layout[j], layout[i], rvalue);
    }
  }

  /** The 25-bit KSUM field with 24 fraction bits: writing -1/4 reads back 7/4. */
  lemma NarrowFixedLosesSign(image: seq<Word>, spec: Spec)
    requires |image| == 1 && spec.reg == 0 && spec.mask == 0x1FF_FFFF && spec.kind == Fixed(false, 24)
    ensures ValidSpec(spec, 1) && FieldOf(image, spec).Some?
    ensures var rf := FieldOf(image, spec).value;
            && ValidField(rf, 1)
            && Written(image, rf, Double(-0.25)).Ok?
            && DecodedValue(Written(image, rf, Double(-0.25)).value, spec) == Some(Double(1.75))
  {
    QuarterAccepted(image, spec);
    WriteReadsBack(image, spec, Double(-0.25));
    QuarterFixed(spec.kind.pointPos);
    Pow2Constants();
  }

  lemma QuarterAccepted(image: seq<Word>, spec: Spec)
    requires |image| == 1 && spec.reg == 0 && spec.mask == 0x1FF_FFFF && spec.kind == Fixed(false, 24)
    ensures Bits.PopCount(spec.mask) == 25
    ensures ValidSpec(spec, 1) && FieldOf(image, spec).Some?
    ensures var rf := FieldOf(image, spec).value;
            ValidField(rf, 1) && Encoded(rf, Double(-0.25)) == Ok(-4194304) && Written(image, rf, Double(-0.25)).Ok?
  {
    var p, w := spec.kind.pointPos, 25;
    QuarterFixed(p);
    Pow2Constants();
    Bits.RunIs(spec.mask, 0, w);
    assert Pow2(w) == 2 * Pow2(p);
  }

  lemma QuarterFixed(p: nat)
    requires p == 24
    ensures Pow2(p) == 16777216 && FixedPoint.Scale(p) == 16777216.0
    ensures AsInt32(FixedPoint.Saturating(-0.25, p)) == -4194304
  {
    Pow2Constants();
    assert 2 * Pow2(p) == Pow2(p + 1);
    FixedPoint.SaturatingClamps(-0.25, p);
    FixedPoint.TruncInt(-4194304);
  }
}
