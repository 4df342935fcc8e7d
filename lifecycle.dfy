/** What the instance half of lib/serialized_attributes/serialized_attributes.rb computes
    (lines 37-45 and 71-97), stated as functions of a registry and a record's field storage. */
module Lifecycle {
  import opened Values
  import opened SqlTypes
  import opened Definitions

  /** `serialized_attributes_column`, fixed at line 10. */
  const ColumnName: string := "serialized_attributes"

  /** `Column#type_cast` for each declared kind; left unspecified. */
  type Cast = (Token, Value) -> Value

  /** The value the generated getter of a registered name returns (lines 41-43): the raw
      field, or the declared default when the field is absent, cast to the kind. */
  function Current(reg: WfRegistry, attrs: map<string, Value>, cast: Cast, name: string): (r: Value)
    requires name in reg.defs
    ensures name in attrs ==> r == cast(reg.defs[name].kind, attrs[name])
    ensures name !in attrs ==> r == cast(reg.defs[name].kind, reg.defs[name].default)
  {
    var d := reg.defs[name];
    cast(d.kind, if name in attrs then attrs[name] else d.default)
  }

  /** The getter `name` (lines 41-43); no getter exists for an unregistered name. */
  function Fetch(reg: WfRegistry, attrs: map<string, Value>, cast: Cast, name: string): (r: Result<Value>)
    ensures r.Err? <==> name !in reg.defs
    ensures r.Err? ==> r.error == UnknownAttribute(name)
    ensures r.Ok? && name in attrs ==> r.value == cast(reg.defs[name].kind, attrs[name])
    ensures r.Ok? && name !in attrs ==> r.value == cast(reg.defs[name].kind, reg.defs[name].default)
  {
    if name in reg.defs then Ok(Current(reg, attrs, cast, name)) else Err(UnknownAttribute(name))
  }

  /** The setter `name=` (lines 37-39): the raw value goes into field storage. */
  function Assign(reg: WfRegistry, attrs: map<string, Value>, name: string, v: Value): (r: Result<map<string, Value>>)
    ensures r.Err? <==> name !in reg.defs
    ensures r.Err? ==> r.error == UnknownAttribute(name + "=")
    ensures r.Ok? ==> r.value.Keys == attrs.Keys + {name} && r.value[name] == v
    ensures r.Ok? ==> forall k :: k in attrs && k != name ==> r.value[k] == attrs[k]
  {
    if name in reg.defs then Ok(attrs[name := v]) else Err(UnknownAttribute(name + "="))
  }

  /** The predicate `name?` (line 45): an alias of the getter, generated for boolean kinds
      only, so it exists exactly for registered boolean names and answers what the getter does. */
  function Query(reg: WfRegistry, attrs: map<string, Value>, cast: Cast, name: string): (r: Result<Value>)
    ensures r.Ok? <==> name in reg.defs && reg.defs[name].kind == BooleanKind
    ensures r.Ok? ==> r == Fetch(reg, attrs, cast, name)
    ensures r.Err? ==> r.error == UnknownAttribute(name + "?")
  {
    if name in reg.defs && reg.defs[name].kind == BooleanKind then Fetch(reg, attrs, cast, name)
    else Err(UnknownAttribute(name + "?"))
  }

  /** Writing a registered name and reading it back gives the cast of what was written;
      every other getter answers as before. */
  lemma {:induction false} GetAfterSet(reg: WfRegistry, attrs: map<string, Value>, cast: Cast, name: string, v: Value, other: string)
    requires name in reg.defs && other != name
    ensures Assign(reg, attrs, name, v).Ok?
    ensures Fetch(reg, Assign(reg, attrs, name, v).value, cast, name) == Ok(cast(reg.defs[name].kind, v))
    ensures Fetch(reg, Assign(reg, attrs, name, v).value, cast, other) == Fetch(reg, attrs, cast, other)
  {
    var a := Assign(reg, attrs, name, v).value;
    assert other in a <==> other in attrs;
  }

  /** The names the first `n` rounds of a loop over the registry have visited. */
  function Visited(reg: WfRegistry, n: nat): (r: set<string>)
    requires n <= |reg.keys|
    ensures r <= reg.Names()
    decreases n
  {
    if n == 0 then {} else Visited(reg, n - 1) + {reg.keys[n - 1]}
  }

  /** A name is visited within the first `n` rounds exactly when it sits at a position below `n`. */
  lemma {:induction false} VisitedPositions(reg: WfRegistry, n: nat)
    requires n <= |reg.keys|
    ensures forall i :: 0 <= i < |reg.keys| ==> (reg.keys[i] in Visited(reg, n) <==> i < n)
    decreases n
  {
    if n > 0 {
      VisitedPositions(reg, n - 1);
    }
  }

  /** A full pass visits every registered name. */
  lemma VisitedAll(reg: WfRegistry)
    ensures Visited(reg, |reg.keys|) == reg.Names()
  {
    VisitedPositions(reg, |reg.keys|);
    forall k | k in reg.Names() ensures k in Visited(reg, |reg.keys|) {
      var i :| 0 <= i < |reg.keys| && reg.keys[i] == k;
    }
  }

  /** The value unpack gives a registered name (line 80). */
  function BackfillValue(reg: WfRegistry, decoded: map<string, Value>, k: string): (r: Value)
    requires k in reg.defs
  {
    if k in decoded then decoded[k] else reg.defs[k].default
  }

  /** Field storage after the first `n` rounds of the loop at lines 79-81. */
  function Backfill(reg: WfRegistry, decoded: map<string, Value>, attrs: map<string, Value>, n: nat): (r: map<string, Value>)
    requires n <= |reg.keys|
    decreases n
  {
    if n == 0 then attrs
    else
      var k := reg.keys[n - 1];
      Backfill(reg, decoded, attrs, n - 1)[k := BackfillValue(reg, decoded, k)]
  }

  /** After `n` rounds the visited names hold their unpacked values and every other
      field is as it was. */
  lemma {:induction false} BackfillSpec(reg: WfRegistry, decoded: map<string, Value>, attrs: map<string, Value>, n: nat)
    requires n <= |reg.keys|
    ensures Backfill(reg, decoded, attrs, n).Keys == attrs.Keys + Visited(reg, n)
    ensures forall k :: k in Visited(reg, n) ==> Backfill(reg, decoded, attrs, n)[k] == BackfillValue(reg, decoded, k)
    ensures forall k :: k in attrs && k !in Visited(reg, n) ==> Backfill(reg, decoded, attrs, n)[k] == attrs[k]
    decreases n
  {
    if n > 0 {
      BackfillSpec(reg, decoded, attrs, n - 1);
    }
  }

  /** `hash.slice!(*names)`: keep the entries whose key is among `names`. */
  function Slice(h: map<string, Value>, names: set<string>): (r: map<string, Value>)
    ensures r.Keys == h.Keys * names
    ensures forall k :: k in r ==> r[k] == h[k]
  {
    map k | k in h && k in names :: h[k]
  }

  /** Slicing twice by the same names is slicing once. */
  lemma SliceIdempotent(h: map<string, Value>, names: set<string>)
    ensures Slice(Slice(h, names), names) == Slice(h, names)
  {
    assert Slice(Slice(h, names), names).Keys == Slice(h, names).Keys;
  }

  /** The decoded column the loops of unpack and pack start from: nil reads as `{}`
      (lines 77 and 89); anything but nil or a Hash is refused by the Hash serializer. */
  function Decoded(raw: Value): (r: Result<map<string, Value>>)
    ensures r.Ok? <==> raw.Nil? || raw.Hash?
    ensures raw.Hash? ==> r == Ok(raw.entries)
    ensures raw.Nil? ==> r == Ok(map[])
    ensures r.Err? ==> r.error == SerializationTypeMismatch
  {
    match raw
    case Nil => Ok(map[])
    case Hash(h) => Ok(h)
    case _ => Err(SerializationTypeMismatch)
  }

  /** `unpack_serialized_attributes!` (lines 75-85). */
  function Unpacked(reg: WfRegistry, attrs: map<string, Value>): (r: Result<map<string, Value>>)
    ensures ColumnName !in attrs ==> r == Ok(attrs)
    ensures r.Err? <==> ColumnName in attrs && Decoded(attrs[ColumnName]).Err?
    ensures r.Err? ==> r.error == SerializationTypeMismatch
  {
    if ColumnName !in attrs then Ok(attrs)
    else
      match Decoded(attrs[ColumnName])
      case Err(e) => Err(e)
      case Ok(h) =>
        var live := Backfill(reg, h, attrs, |reg.keys|);
        // `slice!` prunes the Hash object read from the column. When the column's own
        // name is registered the loop has already replaced that object in field storage,
        // and a nil column was never replaced by `{}`: either way the pruned Hash is no
        // longer reachable from the record.
        if attrs[ColumnName].Hash? && ColumnName !in reg.defs then
          Ok(live[ColumnName := Hash(Slice(h, reg.Names()))])
        else
          Ok(live)
  }

  /** Unpack backfills: every registered name is a field afterwards, holding the decoded
      column's value for it when there is one and the declared default otherwise.
      Fields outside the registry, the column aside, are untouched, and a nil column stays nil. */
  lemma UnpackBackfills(reg: WfRegistry, attrs: map<string, Value>)
    requires ColumnName in attrs && Decoded(attrs[ColumnName]).Ok?
    ensures Unpacked(reg, attrs).Ok?
    ensures forall k :: k in reg.defs ==>
      k in Unpacked(reg, attrs).value
      && Unpacked(reg, attrs).value[k] == BackfillValue(reg, Decoded(attrs[ColumnName]).value, k)
    ensures forall k :: k !in reg.defs && k != ColumnName ==>
      (k in Unpacked(reg, attrs).value <==> k in attrs)
      && (k in attrs ==> Unpacked(reg, attrs).value[k] == attrs[k])
    ensures ColumnName !in reg.defs && attrs[ColumnName].Nil? ==>
      ColumnName in Unpacked(reg, attrs).value && Unpacked(reg, attrs).value[ColumnName].Nil?
  {
    BackfillSpec(reg, Decoded(attrs[ColumnName]).value, attrs, |reg.keys|);
    VisitedAll(reg);
  }

  /** Unpack prunes: the column Hash keeps exactly its registered keys, with their values. */
  lemma UnpackPrunes(reg: WfRegistry, attrs: map<string, Value>)
    requires ColumnName in attrs && attrs[ColumnName].Hash? && ColumnName !in reg.defs
    ensures Unpacked(reg, attrs).Ok?
    ensures ColumnName in Unpacked(reg, attrs).value
    ensures Unpacked(reg, attrs).value[ColumnName] == Hash(Slice(attrs[ColumnName].entries, reg.Names()))
    ensures Unpacked(reg, attrs).value[ColumnName].entries.Keys == attrs[ColumnName].entries.Keys * reg.Names()
    ensures forall k :: k in Unpacked(reg, attrs).value[ColumnName].entries ==>
      Unpacked(reg, attrs).value[ColumnName].entries[k] == attrs[ColumnName].entries[k]
  {
  }

  /** Unpacking what was just unpacked changes nothing. */
  lemma UnpackIdempotent(reg: WfRegistry, attrs: map<string, Value>)
    requires ColumnName !in reg.defs
    requires Unpacked(reg, attrs).Ok?
    ensures Unpacked(reg, Unpacked(reg, attrs).value) == Unpacked(reg, attrs)
  {
    if ColumnName in attrs {
      if attrs[ColumnName].Hash? {
        UnpackIdempotentHash(reg, attrs);
      } else {
        UnpackIdempotentNil(reg, attrs);
      }
    }
  }

  /** `UnpackIdempotent` for a nil column: it stays nil, so the second pass backfills
      the same values. */
  lemma UnpackIdempotentNil(reg: WfRegistry, attrs: map<string, Value>)
    requires ColumnName !in reg.defs
    requires ColumnName in attrs && attrs[ColumnName].Nil?
    ensures Unpacked(reg, Unpacked(reg, attrs).value) == Unpacked(reg, attrs)
  {
    UnpackBackfills(reg, attrs);
    var once := Unpacked(reg, attrs).value;
    UnpackBackfills(reg, once);
    var twice := Unpacked(reg, once).value;
    assert twice.Keys == once.Keys;
    assert twice == once;
  }

  /** `UnpackIdempotent` for a Hash column: the second pass reads the pruned Hash, which
      holds the same values for every registered name and is already pruned. */
  lemma UnpackIdempotentHash(reg: WfRegistry, attrs: map<string, Value>)
    requires ColumnName !in reg.defs
    requires ColumnName in attrs && attrs[ColumnName].Hash?
    ensures Unpacked(reg, Unpacked(reg, attrs).value) == Unpacked(reg, attrs)
  {
    UnpackBackfills(reg, attrs);
    UnpackPrunes(reg, attrs);
    var once := Unpacked(reg, attrs).value;
    UnpackBackfills(reg, once);
    UnpackPrunes(reg, once);
    var twice := Unpacked(reg, once).value;
    var h := attrs[ColumnName].entries;
    var h' := once[ColumnName].entries;
    assert h' == Slice(h, reg.Names());
    assert forall k :: k in reg.defs ==> BackfillValue(reg, h', k) == BackfillValue(reg, h, k);
    SliceIdempotent(h, reg.Names());
    assert twice[ColumnName] == once[ColumnName];
    assert twice.Keys == once.Keys;
    assert twice == once;
  }

  /** The column Hash after the first `n` rounds of the loop at lines 91-93. */
  function Fill(reg: WfRegistry, attrs: map<string, Value>, cast: Cast, column: map<string, Value>, n: nat): (r: map<string, Value>)
    requires n <= |reg.keys|
    decreases n
  {
    if n == 0 then column
    else
      var k := reg.keys[n - 1];
      Fill(reg, attrs, cast, column, n - 1)[k := Current(reg, attrs, cast, k)]
  }

  /** After `n` rounds the visited names hold their getter's value and the rest of the
      Hash is as it was. */
  lemma {:induction false} FillSpec(reg: WfRegistry, attrs: map<string, Value>, cast: Cast, column: map<string, Value>, n: nat)
    requires n <= |reg.keys|
    ensures Fill(reg, attrs, cast, column, n).Keys == column.Keys + Visited(reg, n)
    ensures forall k :: k in Visited(reg, n) ==> Fill(reg, attrs, cast, column, n)[k] == Current(reg, attrs, cast, k)
    ensures forall k :: k in column && k !in Visited(reg, n) ==> Fill(reg, attrs, cast, column, n)[k] == column[k]
    decreases n
  {
    if n > 0 {
      FillSpec(reg, attrs, cast, column, n - 1);
    }
  }

  /** The getters read only registered fields, so writing a field outside the registry
      (the column itself, line 89) does not change what filling the Hash produces. */
  lemma {:induction false} FillIgnoresUnregistered(reg: WfRegistry, attrs: map<string, Value>, cast: Cast, column: map<string, Value>, key: string, v: Value, n: nat)
    requires n <= |reg.keys| && key !in reg.defs
    ensures Fill(reg, attrs[key := v], cast, column, n) == Fill(reg, attrs, cast, column, n)
    decreases n
  {
    if n > 0 {
      FillIgnoresUnregistered(reg, attrs, cast, column, key, v, n - 1);
    }
  }

  /** The column Hash pack stores: every registered name with its getter's value, sliced. */
  function PackedColumn(reg: WfRegistry, attrs: map<string, Value>, cast: Cast, column: map<string, Value>): (r: map<string, Value>)
  {
    Slice(Fill(reg, attrs, cast, column, |reg.keys|), reg.Names())
  }

  /** `pack_serialized_attributes!` (lines 87-97) with the prune kept inside the column
      guard, so that a record without the column is left alone. A registered name equal to
      the column's own would make the getters read the Hash being written, which has no
      value counterpart; that configuration is excluded. */
  function Packed(reg: WfRegistry, attrs: map<string, Value>, cast: Cast): (r: Result<map<string, Value>>)
    requires ColumnName !in reg.defs
    ensures ColumnName !in attrs ==> r == Ok(attrs)
    ensures r.Err? <==> ColumnName in attrs && Decoded(attrs[ColumnName]).Err?
    ensures r.Err? ==> r.error == SerializationTypeMismatch
  {
    if ColumnName !in attrs then Ok(attrs)
    else
      match Decoded(attrs[ColumnName])
      case Err(e) => Err(e)
      case Ok(h) => Ok(attrs[ColumnName := Hash(PackedColumn(reg, attrs, cast, h))])
  }

  /** `pack_serialized_attributes!` as written: `slice!` at line 96 stands outside the guard,
      so on a record without the column it is sent to nil. */
  function PackedAsWritten(reg: WfRegistry, attrs: map<string, Value>, cast: Cast): (r: Result<map<string, Value>>)
    requires ColumnName !in reg.defs
    ensures ColumnName !in attrs ==> r == Err(NoMethodError)
    ensures ColumnName in attrs ==> r == Packed(reg, attrs, cast)
  {
    if ColumnName !in attrs then Err(NoMethodError) else Packed(reg, attrs, cast)
  }

  /** On a record whose table has no serialized column, the code as written raises
      while the guarded pack leaves the record unchanged. */
  lemma PackWithoutColumn(reg: WfRegistry, attrs: map<string, Value>, cast: Cast)
    requires ColumnName !in reg.defs && ColumnName !in attrs
    ensures PackedAsWritten(reg, attrs, cast) == Err(NoMethodError)
    ensures Packed(reg, attrs, cast) == Ok(attrs)
  {
  }

  /** Pack stores exactly the registry: the column Hash has the registered names as its
      keys, no stale key survives, each value is what the getter returns, and every other
      field is untouched. */
  lemma PackWritesRegistry(reg: WfRegistry, attrs: map<string, Value>, cast: Cast)
    requires ColumnName !in reg.defs
    requires ColumnName in attrs && Decoded(attrs[ColumnName]).Ok?
    ensures Packed(reg, attrs, cast).Ok?
    ensures Packed(reg, attrs, cast).value.Keys == attrs.Keys
    ensures Packed(reg, attrs, cast).value[ColumnName].Hash?
    ensures Packed(reg, attrs, cast).value[ColumnName].entries.Keys == reg.Names()
    ensures forall k :: k in reg.defs ==> Packed(reg, attrs, cast).value[ColumnName].entries[k] == Current(reg, attrs, cast, k)
    ensures forall k :: k in attrs && k != ColumnName ==> Packed(reg, attrs, cast).value[k] == attrs[k]
  {
    FillSpec(reg, attrs, cast, Decoded(attrs[ColumnName]).value, |reg.keys|);
    VisitedAll(reg);
  }

  /** Packing twice with no write in between stores the same Hash. */
  lemma PackIdempotent(reg: WfRegistry, attrs: map<string, Value>, cast: Cast)
    requires ColumnName !in reg.defs
    requires Packed(reg, attrs, cast).Ok?
    ensures Packed(reg, Packed(reg, attrs, cast).value, cast) == Packed(reg, attrs, cast)
  {
    var once := Packed(reg, attrs, cast).value;
    if ColumnName in attrs {
      PackWritesRegistry(reg, attrs, cast);
      PackWritesRegistry(reg, once, cast);
      var twice := Packed(reg, once, cast).value;
      assert forall k :: k in reg.defs ==> Current(reg, once, cast, k) == Current(reg, attrs, cast, k);
      assert twice[ColumnName].entries == once[ColumnName].entries;
      assert forall k :: k in twice ==> twice[k] == once[k];
      assert twice == once;
    }
  }

  /** What a setter wrote is what the next pack stores for that name, cast to its kind. */
  lemma SetThenPack(reg: WfRegistry, attrs: map<string, Value>, cast: Cast, name: string, v: Value)
    requires ColumnName !in reg.defs && name in reg.defs
    requires ColumnName in attrs && Decoded(attrs[ColumnName]).Ok?
    ensures Assign(reg, attrs, name, v).Ok?
    ensures Packed(reg, Assign(reg, attrs, name, v).value, cast).Ok?
    ensures Packed(reg, Assign(reg, attrs, name, v).value, cast).value[ColumnName].Hash?
    ensures name in Packed(reg, Assign(reg, attrs, name, v).value, cast).value[ColumnName].entries
    ensures Packed(reg, Assign(reg, attrs, name, v).value, cast).value[ColumnName].entries[name]
              == cast(reg.defs[name].kind, v)
  {
    var a := Assign(reg, attrs, name, v).value;
    assert ColumnName in a && a[ColumnName] == attrs[ColumnName];
    PackWritesRegistry(reg, a, cast);
  }

  /** Casting an already cast value changes nothing. */
  ghost predicate CastIdempotent(cast: Cast) {
    forall t, v :: cast(t, cast(t, v)) == cast(t, v)
  }

  /** Save, reload, save: unpacking a packed record leaves every getter's value as it was
      before the save, and packing again stores the same Hash. */
  lemma SaveReloadSave(reg: WfRegistry, attrs: map<string, Value>, cast: Cast)
    requires ColumnName !in reg.defs && CastIdempotent(cast)
    requires ColumnName in attrs && Decoded(attrs[ColumnName]).Ok?
    ensures Packed(reg, attrs, cast).Ok?
    ensures Unpacked(reg, Packed(reg, attrs, cast).value).Ok?
    ensures forall k :: k in reg.defs ==>
      Fetch(reg, Unpacked(reg, Packed(reg, attrs, cast).value).value, cast, k) == Fetch(reg, attrs, cast, k)
    ensures Packed(reg, Unpacked(reg, Packed(reg, attrs, cast).value).value, cast).Ok?
    ensures Packed(reg, Unpacked(reg, Packed(reg, attrs, cast).value).value, cast).value[ColumnName]
              == Packed(reg, attrs, cast).value[ColumnName]
  {
    PackWritesRegistry(reg, attrs, cast);
    var saved := Packed(reg, attrs, cast).value;
    UnpackBackfills(reg, saved);
    UnpackPrunes(reg, saved);
    var loaded := Unpacked(reg, saved).value;
    forall k | k in reg.defs
      ensures Fetch(reg, loaded, cast, k) == Fetch(reg, attrs, cast, k)
    {
      var d := reg.defs[k];
      assert loaded[k] == saved[ColumnName].entries[k] == Current(reg, attrs, cast, k);
      assert cast(d.kind, Current(reg, attrs, cast, k)) == Current(reg, attrs, cast, k);
    }
    assert loaded[ColumnName] == saved[ColumnName];
    PackWritesRegistry(reg, loaded, cast);
    var resaved := Packed(reg, loaded, cast).value;
    assert resaved[ColumnName].entries == saved[ColumnName].entries;
  }
}
