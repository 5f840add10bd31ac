/** The binary engine's generic API value (`PbufApiValue`).

    A value has a DECLARED kind (what `getType()` reports, fixed by
    `setType`) and an ALLOCATED payload (`allocatedType` plus the union
    `objectValue`). The payload is materialised lazily by the first setter or
    container operation whose kind matches the declared kind; all getters
    look at the allocated payload only and fall back to 0, false or "no
    value" otherwise. */
module ApiValue {
  import opened Basics

  datatype Kind = NullKind | BoolKind | Int64Kind | Uint64Kind | DoubleKind | StringKind | ObjectKind | ArrayKind

  /** IEEE-754 binary64 payloads are carried as opaque bit patterns; no
      arithmetic or float/double conversion is modelled. */
  datatype Float64 = Float64(bits: uint64)

  /** The all-zero bit pattern, +0.0. */
  const PositiveZero: Float64 := Float64(0)

  datatype Payload =
    | Unallocated
    | BoolVal(b: bool)
    | Int64Val(i: int64)
    | Uint64Val(u: uint64)
    | DoubleVal(d: Float64)
    | StringVal(s: string)
    | ObjectVal(fields: map<string, Value>)
    | ArrayVal(items: seq<Value>)

  datatype Value = Value(declared: Kind, data: Payload)

  /** `allocatedType`: the kind of the materialised payload. */
  function AllocatedKind(p: Payload): Kind
  {
    match p
    case Unallocated => NullKind
    case BoolVal(_) => BoolKind
    case Int64Val(_) => Int64Kind
    case Uint64Val(_) => Uint64Kind
    case DoubleVal(_) => DoubleKind
    case StringVal(_) => StringKind
    case ObjectVal(_) => ObjectKind
    case ArrayVal(_) => ArrayKind
  }

  /** The invariant every operation keeps: a payload, once allocated, has the declared kind. */
  predicate Consistent(v: Value)
  {
    v.data.Unallocated? || AllocatedKind(v.data) == v.declared
  }

  /** Freshly allocated storage for a kind (empty string, empty map, empty array, zero scalars). */
  function DefaultPayload(k: Kind): (p: Payload)
    ensures k != NullKind ==> AllocatedKind(p) == k
  {
    match k
    case NullKind => Unallocated
    case BoolKind => BoolVal(false)
    case Int64Kind => Int64Val(0)
    case Uint64Kind => Uint64Val(0)
    case DoubleKind => DoubleVal(PositiveZero)
    case StringKind => StringVal("")
    case ObjectKind => ObjectVal(map[])
    case ArrayKind => ArrayVal([])
  }

  // ---------------------------------------------------------------------
  // Kind and allocation
  // ---------------------------------------------------------------------

  /** `newValue(kind)`: a value of the given declared kind with nothing allocated yet. */
  function NewValue(k: Kind): (r: Value)
    ensures r.declared == k && Consistent(r)
    ensures r.data.Unallocated? && AllocatedKind(r.data) == NullKind
    ensures IsNull(r) <==> k == NullKind
  {
    Value(k, Unallocated)
  }

  /** `setType`: re-tagging to a different kind discards the payload; the same kind keeps it. */
  function SetType(v: Value, k: Kind): (r: Value)
    ensures r.declared == k
    ensures Consistent(v) ==> Consistent(r)
    ensures k == v.declared ==> r == v
    ensures k != v.declared ==> r.data.Unallocated?
  {
    if k != v.declared then Value(k, Unallocated) else v
  }

  /** `isNull`: the declared kind is null. */
  predicate IsNull(v: Value)
  {
    v.declared == NullKind
  }

  /** `clear`: forget the payload, keep the declared kind. */
  function Clear(v: Value): (r: Value)
    ensures r.declared == v.declared && Consistent(r)
    ensures r.data.Unallocated? && AllocatedKind(r.data) == NullKind
  {
    Value(v.declared, Unallocated)
  }

  /** `allocate`: materialise the declared kind's storage if nothing is allocated yet. */
  function Allocate(v: Value): (r: Value)
    ensures r.declared == v.declared
    ensures Consistent(v) ==> Consistent(r)
    ensures !v.data.Unallocated? ==> r == v
    ensures v.data.Unallocated? && v.declared != NullKind ==> AllocatedKind(r.data) == v.declared
  {
    if v.data.Unallocated? && v.declared != NullKind then Value(v.declared, DefaultPayload(v.declared)) else v
  }

  /** `allocateIf`: allocate and report success only when the declared kind is `k`. */
  function AllocateIf(v: Value, k: Kind): (r: (bool, Value))
    ensures r.0 <==> v.declared == k
    ensures r.1.declared == v.declared
    ensures !r.0 ==> r.1 == v
    ensures r.0 && Consistent(v) && k != NullKind ==> AllocatedKind(r.1.data) == k
    ensures Consistent(v) ==> Consistent(r.1)
  {
    if v.declared == k then (true, Allocate(v)) else (false, v)
  }

  // ---------------------------------------------------------------------
  // Typed getters: payload of the allocated kind, else the fallback
  // ---------------------------------------------------------------------

  function Uint64Value(v: Value): (r: uint64)
    ensures AllocatedKind(v.data) != Uint64Kind ==> r == 0
    ensures AllocatedKind(v.data) == Uint64Kind ==> r == v.data.u
  {
    if v.data.Uint64Val? then v.data.u else 0
  }

  function Int64Value(v: Value): (r: int64)
    ensures AllocatedKind(v.data) != Int64Kind ==> r == 0
    ensures AllocatedKind(v.data) == Int64Kind ==> r == v.data.i
  {
    if v.data.Int64Val? then v.data.i else 0
  }

  function DoubleValue(v: Value): (r: Float64)
    ensures AllocatedKind(v.data) != DoubleKind ==> r == PositiveZero
    ensures AllocatedKind(v.data) == DoubleKind ==> r == v.data.d
  {
    if v.data.DoubleVal? then v.data.d else PositiveZero
  }

  function BoolValue(v: Value): (r: bool)
    ensures AllocatedKind(v.data) != BoolKind ==> !r
    ensures AllocatedKind(v.data) == BoolKind ==> r == v.data.b
  {
    if v.data.BoolVal? then v.data.b else false
  }

  /** `charPointerValue`: the string payload, or NULL (None) for any other allocation. */
  function CharPointerValue(v: Value): (r: Option<string>)
    ensures r.Some? <==> AllocatedKind(v.data) == StringKind
    ensures r.Some? ==> r.value == v.data.s
  {
    if v.data.StringVal? then Some(v.data.s) else None
  }

  /** `int32Value` of the base class: the int64 value truncated to 32 bits. */
  function Int32Value(v: Value): int32
  {
    Int32Of(Int64Value(v))
  }

  /** `uint32Value` of the base class: the uint64 value truncated to 32 bits. */
  function Uint32Value(v: Value): uint32
  {
    Uint32Of(Uint64Value(v))
  }

  // ---------------------------------------------------------------------
  // Typed setters: effective only when the declared kind matches
  // ---------------------------------------------------------------------

  function SetUint64Value(v: Value, x: uint64): (r: Value)
    ensures r.declared == v.declared
    ensures Consistent(v) ==> Consistent(r)
    ensures v.declared == Uint64Kind ==> Uint64Value(r) == x
    ensures v.declared != Uint64Kind ==> r == v
  {
    var (ok, w) := AllocateIf(v, Uint64Kind);
    if ok then Value(w.declared, Uint64Val(x)) else v
  }

  function SetInt64Value(v: Value, x: int64): (r: Value)
    ensures r.declared == v.declared
    ensures Consistent(v) ==> Consistent(r)
    ensures v.declared == Int64Kind ==> Int64Value(r) == x
    ensures v.declared != Int64Kind ==> r == v
  {
    var (ok, w) := AllocateIf(v, Int64Kind);
    if ok then Value(w.declared, Int64Val(x)) else v
  }

  function SetDoubleValue(v: Value, x: Float64): (r: Value)
    ensures r.declared == v.declared
    ensures Consistent(v) ==> Consistent(r)
    ensures v.declared == DoubleKind ==> DoubleValue(r) == x
    ensures v.declared != DoubleKind ==> r == v
  {
    var (ok, w) := AllocateIf(v, DoubleKind);
    if ok then Value(w.declared, DoubleVal(x)) else v
  }

  function SetBoolValue(v: Value, x: bool): (r: Value)
    ensures r.declared == v.declared
    ensures Consistent(v) ==> Consistent(r)
    ensures v.declared == BoolKind ==> BoolValue(r) == x
    ensures v.declared != BoolKind ==> r == v
  {
    var (ok, w) := AllocateIf(v, BoolKind);
    if ok then Value(w.declared, BoolVal(x)) else v
  }

  /** `setStringValue`: succeeds, storing the string, exactly on a string-declared value. */
  function SetStringValue(v: Value, x: string): (r: (bool, Value))
    ensures r.0 <==> v.declared == StringKind
    ensures r.1.declared == v.declared
    ensures Consistent(v) ==> Consistent(r.1)
    ensures r.0 ==> CharPointerValue(r.1) == Some(x)
    ensures !r.0 ==> r.1 == v
  {
    var (ok, w) := AllocateIf(v, StringKind);
    if ok then (true, Value(w.declared, StringVal(x))) else (false, v)
  }

  /** `setInt32Value` of the base class: widen to 64 bits and set. */
  function SetInt32Value(v: Value, x: int32): (r: Value)
    ensures v.declared == Int64Kind ==> Int32Value(r) == x
    ensures v.declared != Int64Kind ==> r == v
  {
    SetInt64Value(v, x)
  }

  /** `setUint32Value` of the base class: widen to 64 bits and set. */
  function SetUint32Value(v: Value, x: uint32): (r: Value)
    ensures v.declared == Uint64Kind ==> Uint32Value(r) == x
    ensures v.declared != Uint64Kind ==> r == v
  {
    SetUint64Value(v, x)
  }

  /** `setNull`: clears the payload so every getter falls back; the declared kind stays. */
  function SetNull(v: Value): (r: Value)
    ensures r.declared == v.declared && Consistent(r)
    ensures Uint64Value(r) == 0 && Int64Value(r) == 0 && !BoolValue(r)
    ensures DoubleValue(r) == PositiveZero && CharPointerValue(r) == None
    ensures ArrayLength(r) == 0
    ensures forall key :: Get(r, key) == None
  {
    Clear(v)
  }

  // ---------------------------------------------------------------------
  // Object values: keys are lower-cased by add and get, not by del
  // ---------------------------------------------------------------------

  /** `get`: look up the lower-cased key in an allocated object; None (a null pointer) otherwise. */
  function Get(v: Value, key: string): (r: Option<Value>)
    ensures r.Some? <==> AllocatedKind(v.data) == ObjectKind && LowerCase(key) in v.data.fields
    ensures r.Some? ==> r.value == v.data.fields[LowerCase(key)]
  {
    if v.data.ObjectVal? && LowerCase(key) in v.data.fields then Some(v.data.fields[LowerCase(key)]) else None
  }

  /** `add`: store a non-null child under the lower-cased key of an object-declared value. */
  function Add(v: Value, key: string, child: Option<Value>): (r: Value)
    requires Consistent(v)
    ensures r.declared == v.declared && Consistent(r)
    ensures child.None? || v.declared != ObjectKind ==> r == v
    ensures child.Some? && v.declared == ObjectKind ==>
      && (forall k :: LowerCase(k) == LowerCase(key) ==> Get(r, k) == child)
      && (forall k :: LowerCase(k) != LowerCase(key) ==> Get(r, k) == Get(v, k))
  {
    if child.None? then v
    else
      var (ok, w) := AllocateIf(v, ObjectKind);
      if ok then Value(w.declared, ObjectVal(w.data.fields[LowerCase(key) := child.value])) else v
  }

  /** `del`: erase the key exactly as given (it is NOT lower-cased). */
  function Del(v: Value, key: string): (r: Value)
    ensures r.declared == v.declared
    ensures Consistent(v) ==> Consistent(r)
    ensures !v.data.ObjectVal? ==> r == v
    ensures v.data.ObjectVal? ==> r.data.ObjectVal? && r.data.fields.Keys == v.data.fields.Keys - {key}
    ensures forall k :: LowerCase(k) != key ==> Get(r, k) == Get(v, k)
  {
    if v.data.ObjectVal? then Value(v.declared, ObjectVal(v.data.fields - {key})) else v
  }

  // ---------------------------------------------------------------------
  // Array values: index operations are bounds-checked
  // ---------------------------------------------------------------------

  /** `arrayLength`: the element count of an allocated array, 0 for anything else. */
  function ArrayLength(v: Value): (n: nat)
    ensures !v.data.ArrayVal? ==> n == 0
    ensures v.data.ArrayVal? ==> n == |v.data.items|
  {
    if v.data.ArrayVal? then |v.data.items| else 0
  }

  /** `arrayGet`: the element at an in-range index, else None. The C++ compares
      the `int` index with an unsigned size, so negative indices are out of range. */
  function ArrayGet(v: Value, i: int): (r: Option<Value>)
    ensures r.Some? <==> 0 <= i < ArrayLength(v)
  {
    if v.data.ArrayVal? && 0 <= i < |v.data.items| then Some(v.data.items[i]) else None
  }

  /** `arrayAppend`: push a non-null child onto an array-declared value. */
  function ArrayAppend(v: Value, child: Option<Value>): (r: Value)
    requires Consistent(v)
    ensures r.declared == v.declared && Consistent(r)
    ensures child.None? || v.declared != ArrayKind ==> r == v
    ensures child.Some? && v.declared == ArrayKind ==>
      && ArrayLength(r) == ArrayLength(v) + 1
      && ArrayGet(r, ArrayLength(v)) == child
      && (forall i :: 0 <= i < ArrayLength(v) ==> ArrayGet(r, i) == ArrayGet(v, i))
  {
    if child.None? then v
    else
      var (ok, w) := AllocateIf(v, ArrayKind);
      if ok then Value(w.declared, ArrayVal(w.data.items + [child.value])) else v
  }

  /** `arrayPut`: replace the element at an in-range index; anything else changes nothing observable. */
  function ArrayPut(v: Value, i: int, child: Option<Value>): (r: Value)
    requires Consistent(v)
    ensures r.declared == v.declared && Consistent(r)
    ensures ArrayLength(r) == ArrayLength(v)
    ensures forall j :: j != i ==> ArrayGet(r, j) == ArrayGet(v, j)
    ensures child.Some? && v.declared == ArrayKind && 0 <= i < ArrayLength(v) ==> ArrayGet(r, i) == child
    ensures child.None? || v.declared != ArrayKind || !(0 <= i < ArrayLength(v)) ==>
      ArrayGet(r, i) == ArrayGet(v, i)
  {
    if child.None? then v
    else
      var (ok, w) := AllocateIf(v, ArrayKind);
      if ok then
        if 0 <= i < |w.data.items| then Value(w.declared, ArrayVal(w.data.items[i := child.value])) else w
      else v
  }

  // ---------------------------------------------------------------------
  // Properties relating several operations
  // ---------------------------------------------------------------------

  /** Storing an int64 in any int64-declared value leaves every getter of
      another kind at its fallback, and the setters of other kinds refuse it. */
  lemma SetterIsolation(v: Value, x: int64)
    requires Consistent(v) && v.declared == Int64Kind
    ensures var r := SetInt64Value(v, x);
      Int64Value(r) == x && Uint64Value(r) == 0 && !BoolValue(r) && DoubleValue(r) == PositiveZero &&
      CharPointerValue(r) == None && ArrayLength(r) == 0 && (forall key :: Get(r, key) == None) &&
      (forall y :: SetUint64Value(r, y) == r) && (forall b :: SetBoolValue(r, b) == r) &&
      (forall d :: SetDoubleValue(r, d) == r) &&
      (forall str :: !SetStringValue(r, str).0)
  {
  }

  /** `get` lower-cases its key: every spelling with the same lower-case form finds the same entry. */
  lemma GetIgnoresCase(v: Value, a: string, b: string)
    requires LowerCase(a) == LowerCase(b)
    ensures Get(v, a) == Get(v, b)
    ensures Get(v, a) == Get(v, LowerCase(a))
  {
    LowerCaseIdempotent(a);
  }

  /** The STRING case of decoding a field re-tags the value to a string and then
      sets it: whatever kind the value held before, it now holds only the new
      string, and the getters of its old kind fall back. */
  lemma RetagDiscards(v: Value, s: string)
    requires Consistent(v) && v.declared != StringKind
    ensures var (ok, r) := SetStringValue(SetType(v, StringKind), s);
      ok && CharPointerValue(r) == Some(s) && ArrayLength(r) == 0 && Int64Value(r) == 0
  {
  }

  /** `del` with the spelling used by `add` misses the entry when the key has upper-case letters:
      the entry stays reachable by `get`. */
  lemma DelDoesNotLowerCase(child: Value)
    ensures var v := Add(NewValue(ObjectKind), "Name", Some(child));
      Get(Del(v, "Name"), "name") == Some(child)
  {
    assert LowerCase("Name") == "name";
    assert LowerCase("name") == "name";
  }

  /** `del` with the lower-cased spelling removes what `add` stored. */
  lemma DelLowerCasedRemoves(v: Value, key: string, child: Value)
    requires Consistent(v) && v.declared == ObjectKind
    ensures Get(Del(Add(v, key, Some(child)), LowerCase(key)), key) == None
  {
  }
}
