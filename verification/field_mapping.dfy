/** Mapping between protobuf-c messages and API values
    (`getValueFromMessageField`, `getObjectFromMessageFields`,
    `setValueFromField` on the way in; `putObjectIntoMessageFields`,
    `putValueIntoMessageField`, `putValueIntoField` on the way out).

    A message is modelled abstractly as its list of fields; each field carries
    its descriptor (name, label, wire type) and the datum the C struct holds
    for it. Required fields always hold a datum, optional ones may be absent,
    repeated ones hold a sequence. */
module FieldMapping {
  import opened Basics
  import opened ApiValue

  datatype FieldType =
    | TBool
    | TInt32 | TSint32 | TSfixed32
    | TInt64 | TSint64 | TSfixed64
    | TUint32 | TFixed32
    | TUint64 | TFixed64
    | TFloat | TDouble
    | TEnum
    | TString
    | TBytes
    | TMessage

  /** What the C struct holds for one field (or one element of a repeated field).
      `DUnset` is storage that was never written: a NULL pointer or an
      uninitialised array slot. */
  datatype Datum =
    | DBool(b: bool)
    | DInt(n: int)
    | DFloat(f: Float64)
    | DString(s: string)
    | DBytes(bytes: seq<byte>)
    | DMessage(m: Message)
    | DUnset

  datatype Field =
    | Required(name: string, ftype: FieldType, datum: Datum)
    | Optional(name: string, ftype: FieldType, present: Option<Datum>)
    | Repeated(name: string, ftype: FieldType, elements: seq<Datum>)

  datatype Message = Message(fields: seq<Field>)

  datatype Label = LabelRequired | LabelOptional | LabelRepeated

  /** A protobuf-c field descriptor, reduced to what the mapping reads. */
  datatype FieldDesc = FieldDesc(name: string, fieldLabel: Label, ftype: FieldType)

  function DescOf(f: Field): FieldDesc
  {
    match f
    case Required(n, t, _) => FieldDesc(n, LabelRequired, t)
    case Optional(n, t, _) => FieldDesc(n, LabelOptional, t)
    case Repeated(n, t, _) => FieldDesc(n, LabelRepeated, t)
  }

  /** The message descriptor: its fields' descriptors in declaration order. */
  function Descriptor(m: Message): (d: seq<FieldDesc>)
    ensures |d| == |m.fields|
    ensures forall i :: 0 <= i < |d| ==> d[i] == DescOf(m.fields[i])
  {
    seq(|m.fields|, i requires 0 <= i < |m.fields| => DescOf(m.fields[i]))
  }

  /** protobuf-c tracks presence of optional scalars (and bytes) with a `has_` flag;
      optional strings and sub-messages are present when their pointer is not NULL. */
  predicate HasPresenceFlag(t: FieldType)
  {
    t != TString && t != TMessage
  }

  /** The value kind a wire type decodes to; BYTES is not decoded and stays null. */
  function DecodedKind(t: FieldType): Kind
  {
    match t
    case TBool => BoolKind
    case TInt32 | TSint32 | TSfixed32 | TInt64 | TSint64 | TSfixed64 | TEnum => Int64Kind
    case TUint32 | TFixed32 | TUint64 | TFixed64 => Uint64Kind
    case TFloat | TDouble => DoubleKind
    case TString => StringKind
    case TBytes => NullKind
    case TMessage => ObjectKind
  }

  /** The value kind a wire type is encoded from (`allocatedType` tested by `putValueIntoField`);
      None where nothing is ever written. ENUM is encoded only from uint64. */
  function EncodedKind(t: FieldType): Option<Kind>
  {
    match t
    case TBool => Some(BoolKind)
    case TInt32 | TSint32 | TSfixed32 | TInt64 | TSint64 | TSfixed64 => Some(Int64Kind)
    case TUint32 | TFixed32 | TUint64 | TFixed64 | TEnum => Some(Uint64Kind)
    case TFloat | TDouble => Some(DoubleKind)
    case TString => Some(StringKind)
    case TBytes | TMessage => None
  }

  predicate Is32Bit(t: FieldType)
  {
    t in {TInt32, TSint32, TSfixed32, TUint32, TFixed32, TEnum}
  }

  /** A datum the decoder can produce for a field of this wire type. */
  predicate WellTyped(t: FieldType, d: Datum)
  {
    match t
    case TBool => d.DBool?
    case TInt32 | TSint32 | TSfixed32 | TEnum => d.DInt? && -TWO31 <= d.n < TWO31
    case TInt64 | TSint64 | TSfixed64 => d.DInt? && -TWO63 <= d.n < TWO63
    case TUint32 | TFixed32 => d.DInt? && 0 <= d.n < TWO32
    case TUint64 | TFixed64 => d.DInt? && 0 <= d.n < TWO64
    case TFloat | TDouble => d.DFloat?
    case TString => d.DString?
    case TBytes => d.DBytes?
    case TMessage => d.DMessage?
  }

  // Readers of a datum as the C storage type; other shapes never come out of
  // the decoder, and read as zero/empty.
  function IntOf(d: Datum): int { if d.DInt? then d.n else 0 }
  function BoolOf(d: Datum): bool { if d.DBool? then d.b else false }
  function FloatOf(d: Datum): Float64 { if d.DFloat? then d.f else PositiveZero }
  function StringOf(d: Datum): string { if d.DString? then d.s else "" }

  // ---------------------------------------------------------------------
  // Decoding: message fields -> API value
  // ---------------------------------------------------------------------

  /** `setValueFromField` applied to a fresh value: the datum as a value of the
      wire type's decoded kind. 32-bit wire types are stored through 32-bit C
      variables before being widened. */
  function ValueFromField(t: FieldType, d: Datum): (v: Value)
    ensures v.declared == DecodedKind(t) && Consistent(v)
    ensures t == TBool ==> BoolValue(v) == BoolOf(d)
    ensures WellTyped(t, d) && DecodedKind(t) == Int64Kind ==> Int64Value(v) == d.n
    ensures WellTyped(t, d) && DecodedKind(t) == Uint64Kind ==> Uint64Value(v) == d.n
    ensures DecodedKind(t) == DoubleKind ==> DoubleValue(v) == FloatOf(d)
    ensures t == TString ==> CharPointerValue(v) == Some(StringOf(d))
    decreases d, 1
  {
    var blank := NewValue(NullKind);
    match t
    case TBool => SetBoolValue(SetType(blank, BoolKind), BoolOf(d))
    case TInt32 | TSint32 | TSfixed32 | TEnum => SetInt32Value(SetType(blank, Int64Kind), Int32Of(IntOf(d)))
    case TInt64 | TSint64 | TSfixed64 => SetInt64Value(SetType(blank, Int64Kind), Int64Of(IntOf(d)))
    case TUint32 | TFixed32 => SetUint32Value(SetType(blank, Uint64Kind), Uint32Of(IntOf(d)))
    case TUint64 | TFixed64 => SetUint64Value(SetType(blank, Uint64Kind), Uint64Of(IntOf(d)))
    case TFloat | TDouble => SetDoubleValue(SetType(blank, DoubleKind), FloatOf(d))
    case TString => SetStringValue(SetType(blank, StringKind), StringOf(d)).1
    case TBytes => blank
    case TMessage =>
      if d.DMessage? then ObjectFromMessageFields(d.m) else SetType(blank, ObjectKind)
  }

  /** `getValueFromMessageField` applied to a fresh value. */
  function ValueFromMessageField(f: Field): (v: Value)
    ensures Consistent(v)
    ensures f.Repeated? ==> v.declared == ArrayKind && ArrayLength(v) == |f.elements|
    ensures f.Repeated? ==> forall i :: 0 <= i < |f.elements| ==>
      ArrayGet(v, i) == Some(ValueFromField(f.ftype, f.elements[i]))
    ensures f.Optional? && f.present.None? ==> v.declared == NullKind
    ensures !f.Repeated? && !(f.Optional? && f.present.None?) ==> v.declared == DecodedKind(f.ftype)
    decreases f, 2
  {
    match f
    case Repeated(_, t, ds) => ElementsToArray(SetType(NewValue(NullKind), ArrayKind), t, ds)
    case Optional(_, t, p) =>
      if p.None? then SetNull(NewValue(NullKind)) else ValueFromField(t, p.value)
    case Required(_, t, d) => ValueFromField(t, d)
  }

  /** The loop of `getValueFromMessageField` over a repeated field's elements. */
  function ElementsToArray(acc: Value, t: FieldType, ds: seq<Datum>): (v: Value)
    requires acc.declared == ArrayKind && Consistent(acc)
    ensures v.declared == ArrayKind && Consistent(v)
    ensures ArrayLength(v) == ArrayLength(acc) + |ds|
    ensures forall i :: 0 <= i < ArrayLength(acc) ==> ArrayGet(v, i) == ArrayGet(acc, i)
    ensures forall j :: 0 <= j < |ds| ==> ArrayGet(v, ArrayLength(acc) + j) == Some(ValueFromField(t, ds[j]))
    decreases ds, 0
  {
    if |ds| == 0 then acc
    else
      var acc1 := ArrayAppend(acc, Some(ValueFromField(t, ds[0])));
      assert ArrayLength(acc1) == ArrayLength(acc) + 1;
      assert forall j :: 0 < j < |ds| ==> ds[1..][j - 1] == ds[j];
      ElementsToArray(acc1, t, ds[1..])
  }

  /** `getObjectFromMessageFields` applied to a fresh value: every field whose
      value is not null is added under its (lower-cased) name. */
  function ObjectFromMessageFields(m: Message): (v: Value)
    ensures v.declared == ObjectKind && Consistent(v)
    decreases m, 1
  {
    FieldsToObject(SetType(NewValue(NullKind), ObjectKind), m.fields)
  }

  function FieldsToObject(acc: Value, fs: seq<Field>): (v: Value)
    requires acc.declared == ObjectKind && Consistent(acc)
    ensures v.declared == ObjectKind && Consistent(v)
    decreases fs, 0
  {
    if |fs| == 0 then acc
    else
      var fv := ValueFromMessageField(fs[0]);
      var acc' := if fv.declared != NullKind then Add(acc, fs[0].name, Some(fv)) else acc;
      FieldsToObject(acc', fs[1..])
  }

  // ---------------------------------------------------------------------
  // Encoding: API value -> message fields
  // ---------------------------------------------------------------------

  /** What `VDCAPI__..._INIT` leaves in a field: absent, empty, or zero. */
  function ZeroDatum(t: FieldType): Datum
  {
    match t
    case TBool => DBool(false)
    case TFloat | TDouble => DFloat(PositiveZero)
    case TString | TMessage => DUnset
    case TBytes => DBytes([])
    case _ => DInt(0)
  }

  function InitField(fd: FieldDesc): (f: Field)
    ensures DescOf(f) == fd
  {
    match fd.fieldLabel
    case LabelRequired => Required(fd.name, fd.ftype, ZeroDatum(fd.ftype))
    case LabelOptional => Optional(fd.name, fd.ftype, None)
    case LabelRepeated => Repeated(fd.name, fd.ftype, [])
  }

  /** `putValueIntoField`: the datum written for a value, or None when nothing
      is written because the allocated kind does not match the wire type. */
  function PutValueIntoField(t: FieldType, v: Value): (r: Option<Datum>)
    ensures r.Some? <==> EncodedKind(t).Some? && AllocatedKind(v.data) == EncodedKind(t).value
  {
    match t
    case TBool => if v.data.BoolVal? then Some(DBool(BoolValue(v))) else None
    case TInt32 | TSint32 | TSfixed32 => if v.data.Int64Val? then Some(DInt(Int32Value(v))) else None
    case TInt64 | TSint64 | TSfixed64 => if v.data.Int64Val? then Some(DInt(Int64Value(v))) else None
    case TUint32 | TFixed32 => if v.data.Uint64Val? then Some(DInt(Uint32Value(v))) else None
    case TUint64 | TFixed64 => if v.data.Uint64Val? then Some(DInt(Uint64Value(v))) else None
    case TFloat | TDouble => if v.data.DoubleVal? then Some(DFloat(DoubleValue(v))) else None
    case TEnum => if v.data.Uint64Val? then Some(DInt(Int32Value(v))) else None
    case TString => if v.data.StringVal? then Some(DString(v.data.s)) else None
    case TBytes | TMessage => None
  }

  /** `putValueIntoMessageField`: write one value into the (initialised) field `fd`. */
  function PutValueIntoMessageField(fd: FieldDesc, v: Value): (f: Field)
    ensures DescOf(f) == fd
  {
    match fd.fieldLabel
    case LabelRepeated =>
      if v.declared == ArrayKind then
        Repeated(fd.name, fd.ftype, seq(ArrayLength(v), i requires 0 <= i < ArrayLength(v) =>
          var slot := PutValueIntoField(fd.ftype, v.data.items[i]);
          if slot.Some? then slot.value else DUnset))
      else InitField(fd)
    case LabelOptional =>
      var hasField := !IsNull(v);
      var written := PutValueIntoField(fd.ftype, v);
      if !hasField then InitField(fd)
      else if written.Some? then Optional(fd.name, fd.ftype, written)
      else if HasPresenceFlag(fd.ftype) then Optional(fd.name, fd.ftype, Some(ZeroDatum(fd.ftype)))
      else InitField(fd)
    case LabelRequired =>
      var written := PutValueIntoField(fd.ftype, v);
      if written.Some? then Required(fd.name, fd.ftype, written.value) else InitField(fd)
  }

  /** `putObjectIntoMessageFields` on an initialised sub-message with descriptor `desc`. */
  function PutObjectIntoMessageFields(v: Value, desc: seq<FieldDesc>): (m: Message)
    ensures Descriptor(m) == desc
    ensures !v.data.ObjectVal? ==> forall i :: 0 <= i < |desc| ==> m.fields[i] == InitField(desc[i])
    ensures forall i :: 0 <= i < |desc| && Get(v, desc[i].name).None? ==> m.fields[i] == InitField(desc[i])
  {
    if v.data.ObjectVal? then
      Message(seq(|desc|, i requires 0 <= i < |desc| =>
        var x := Get(v, desc[i].name);
        if x.Some? then PutValueIntoMessageField(desc[i], x.value) else InitField(desc[i])))
    else
      Message(seq(|desc|, i requires 0 <= i < |desc| => InitField(desc[i])))
  }

  // ---------------------------------------------------------------------
  // Properties of the mapping
  // ---------------------------------------------------------------------

  /** Reference reading of a field list as an object: the value of the LAST
      field whose lower-cased name matches and whose value is not null. */
  function FieldLookup(fs: seq<Field>, key: string): Option<Value>
  {
    if |fs| == 0 then None
    else
      var later := FieldLookup(fs[1..], key);
      if later.Some? then later
      else
        var fv := ValueFromMessageField(fs[0]);
        if LowerCase(fs[0].name) == LowerCase(key) && fv.declared != NullKind then Some(fv) else None
  }

  /** Every key of the decoded object is found by the reference reading; keys no field matches keep their old entry. */
  lemma {:induction false} FieldsToObjectLookup(acc: Value, fs: seq<Field>, key: string)
    requires acc.declared == ObjectKind && Consistent(acc)
    ensures Get(FieldsToObject(acc, fs), key) == (if FieldLookup(fs, key).Some? then FieldLookup(fs, key) else Get(acc, key))
    decreases fs
  {
    if |fs| > 0 {
      var fv := ValueFromMessageField(fs[0]);
      var acc' := if fv.declared != NullKind then Add(acc, fs[0].name, Some(fv)) else acc;
      FieldsToObjectLookup(acc', fs[1..], key);
    }
  }

  /** Lower-cased field names are pairwise distinct (true of every generated descriptor). */
  predicate UniqueNames(fs: seq<Field>)
  {
    forall i, j :: 0 <= i < j < |fs| ==> LowerCase(fs[i].name) != LowerCase(fs[j].name)
  }

  lemma {:induction false} FieldLookupUnique(fs: seq<Field>, i: nat)
    requires UniqueNames(fs) && i < |fs|
    ensures var fv := ValueFromMessageField(fs[i]);
      FieldLookup(fs, fs[i].name) == if fv.declared != NullKind then Some(fv) else None
    decreases fs
  {
    if i == 0 {
      FieldLookupAbsent(fs[1..], fs[0].name);
    } else {
      FieldLookupUnique(fs[1..], i - 1);
    }
  }

  lemma {:induction false} FieldLookupAbsent(fs: seq<Field>, key: string)
    requires forall j :: 0 <= j < |fs| ==> LowerCase(fs[j].name) != LowerCase(key)
    ensures FieldLookup(fs, key) == None
    decreases fs
  {
    if |fs| > 0 {
      FieldLookupAbsent(fs[1..], key);
    }
  }

  /** Decoding a message: each field with a non-null value is found under its
      own name, and absent optional (and BYTES) fields are omitted, not set to null. */
  lemma ObjectHoldsFields(m: Message, i: nat)
    requires UniqueNames(m.fields) && i < |m.fields|
    ensures var fv := ValueFromMessageField(m.fields[i]);
      Get(ObjectFromMessageFields(m), m.fields[i].name) == if fv.declared != NullKind then Some(fv) else None
  {
    FieldLookupUnique(m.fields, i);
    FieldsToObjectLookup(SetType(NewValue(NullKind), ObjectKind), m.fields, m.fields[i].name);
  }

  /** Wire types whose datums survive decoding and re-encoding. */
  predicate Reversible(t: FieldType)
  {
    t !in {TEnum, TBytes, TMessage}
  }

  predicate ReversibleField(f: Field)
  {
    && Reversible(f.ftype)
    && (f.Required? ==> WellTyped(f.ftype, f.datum))
    && (f.Optional? && f.present.Some? ==> WellTyped(f.ftype, f.present.value))
    && (f.Repeated? ==> forall k :: 0 <= k < |f.elements| ==> WellTyped(f.ftype, f.elements[k]))
  }

  /** One datum: encoding its decoded value writes the same datum back. */
  lemma DatumRoundTrip(t: FieldType, d: Datum)
    requires Reversible(t) && WellTyped(t, d)
    ensures PutValueIntoField(t, ValueFromField(t, d)) == Some(d)
  {
  }

  /** One field: encoding its decoded value into an initialised field restores it. */
  lemma FieldRoundTrip(f: Field)
    requires ReversibleField(f)
    ensures PutValueIntoMessageField(DescOf(f), ValueFromMessageField(f)) == f
  {
    match f
    case Repeated(_, _, _) => RepeatedRoundTrip(f);
    case Optional(_, _, p) =>
      if p.Some? {
        DatumRoundTrip(f.ftype, p.value);
      }
    case Required(_, t, d) =>
      DatumRoundTrip(t, d);
  }

  /** A repeated field: every element is written back in place. */
  lemma RepeatedRoundTrip(f: Field)
    requires f.Repeated? && ReversibleField(f)
    ensures PutValueIntoMessageField(DescOf(f), ValueFromMessageField(f)) == f
  {
    var v := ValueFromMessageField(f);
    var r := PutValueIntoMessageField(DescOf(f), v);
    assert v.data.ArrayVal? || |f.elements| == 0;
    forall k | 0 <= k < |f.elements|
      ensures r.elements[k] == f.elements[k]
    {
      assert ArrayGet(v, k) == Some(ValueFromField(f.ftype, f.elements[k]));
      DatumRoundTrip(f.ftype, f.elements[k]);
    }
  }

  /** Decoding a message whose fields are all of reversible types and then
      encoding the object into a fresh message of the same descriptor yields
      the original message. */
  lemma MessageRoundTrip(m: Message)
    requires UniqueNames(m.fields)
    requires forall i :: 0 <= i < |m.fields| ==> ReversibleField(m.fields[i])
    ensures PutObjectIntoMessageFields(ObjectFromMessageFields(m), Descriptor(m)) == m
  {
    var v := ObjectFromMessageFields(m);
    var r := PutObjectIntoMessageFields(v, Descriptor(m));
    forall i | 0 <= i < |m.fields|
      ensures r.fields[i] == m.fields[i]
    {
      var f := m.fields[i];
      ObjectHoldsFields(m, i);
      FieldRoundTrip(f);
      if ValueFromMessageField(f).declared == NullKind {
        assert f.Optional? && f.present.None?;
        assert r.fields[i] == InitField(DescOf(f));
      }
    }
    assert r.fields == m.fields;
  }

  /** ENUM fields do not survive the round trip: they decode to int64 but are
      only encoded from uint64, so every present optional enum of a message
      comes back as present with value 0, whatever value it had. */
  lemma EnumDoesNotRoundTrip(m: Message, i: nat)
    requires UniqueNames(m.fields) && i < |m.fields|
    requires m.fields[i].Optional? && m.fields[i].ftype == TEnum && m.fields[i].present.Some?
    requires WellTyped(TEnum, m.fields[i].present.value)
    ensures PutObjectIntoMessageFields(ObjectFromMessageFields(m), Descriptor(m)).fields[i]
      == Optional(m.fields[i].name, TEnum, Some(DInt(0)))
  {
    var fv := ValueFromMessageField(m.fields[i]);
    ObjectHoldsFields(m, i);
    assert fv.declared == Int64Kind && Consistent(fv);
    assert PutValueIntoField(TEnum, fv).None?;
  }

  /** Even a uint64 value, the only kind the ENUM branch accepts, is written as 0,
      because that branch reads the value through its int64 accessor. */
  lemma EnumFromUint64WritesZero(u: uint64)
    ensures PutValueIntoField(TEnum, SetUint64Value(NewValue(Uint64Kind), u)) == Some(DInt(0))
  {
  }
}
