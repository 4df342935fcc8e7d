/** The instance half of lib/serialized_attributes/serialized_attributes.rb: a record's
    generated accessors (lines 37-45) and its pack and unpack hooks (lines 71-97). */
module Records {
  import opened Values
  import opened SqlTypes
  import opened Definitions
  import opened ClassMethods
  import opened Lifecycle

  /** `after` and the outcome are what applying `res` to `before` gives: the new
      storage on success, the old storage and the error on failure. */
  ghost predicate Reflects(r: Outcome, res: Result<map<string, Value>>, before: map<string, Value>, after: map<string, Value>)
  {
    match res
    case Ok(m) => r == Pass && after == m
    case Err(e) => r == Fail(e) && after == before
  }

  /** The record has the serialized column and it decodes, so unpack and pack go on past
      `self[column]` to the registry (lines 76-79 and 88-91). */
  predicate ReachesRegistry(attrs: map<string, Value>) {
    ColumnName in attrs && Decoded(attrs[ColumnName]).Ok?
  }

  /** The loop at lines 91-93: each registered name gets its getter's value in the column
      Hash. The getters read fields other than the column, so the writes into the Hash
      do not change what they return. */
  method FillColumn(reg: WfRegistry, attrs: map<string, Value>, cast: Cast, column: map<string, Value>)
    returns (filled: map<string, Value>)
    ensures filled == Fill(reg, attrs, cast, column, |reg.keys|)
  {
    filled := column;
    var i := 0;
    while i < |reg.keys|
      invariant i <= |reg.keys|
      invariant filled == Fill(reg, attrs, cast, column, i)
    {
      var key := reg.keys[i];
      filled := filled[key := Current(reg, attrs, cast, key)];
      i := i + 1;
    }
  }

  /** An ActiveRecord object of a class that uses the library. */
  class Record {
    const klass: ModelClass
    /** `Column#type_cast` for each kind; it comes from ActiveRecord. */
    const typeCast: Cast
    /** `@attributes`: every field of the record, native ones and the serialized column. */
    var attributes: map<string, Value>

    ghost predicate Valid() {
      klass.Valid()
    }

    /** The class registry has been accessed: the class memoises what it presented, and
        so does each superclass its copy went through (lines 50-62). */
    twostate predicate Accessed()
      requires Valid()
      reads klass`definition, klass.Ancestors`definition
    {
      klass.definition == Some(old(Schema())) && klass.AncestorsMemoised()
    }

    constructor (klass: ModelClass, typeCast: Cast, attributes: map<string, Value>)
      requires klass.Valid()
      ensures Valid() && this.klass == klass && this.typeCast == typeCast && this.attributes == attributes
    {
      this.klass := klass;
      this.typeCast := typeCast;
      this.attributes := attributes;
    }

    /** `self.class.serialized_attributes_definition` (lines 101-103), as the class
        presents it now. */
    function Schema(): WfRegistry
      requires Valid()
      reads klass, klass.Ancestors
    {
      klass.Materialised()
    }

    /** `serialized_attribute_names` on an instance (lines 71-73): its class's names. */
    method SerializedAttributeNames() returns (names: seq<string>)
      requires Valid() && klass.RespondsToDefinition()
      modifies ({klass} + klass.Ancestors)`definition
      ensures Schema() == old(Schema()) && Accessed()
      ensures names == Schema().keys
      ensures forall k :: k in names <==> k in Schema().defs
    {
      names := klass.SerializedAttributeNames();
    }

    /** The generated getter `name` (lines 41-43): it reads the class registry at line 42;
        a name without a getter fails before any access. */
    method Get(name: string) returns (r: Result<Value>)
      requires Valid() && klass.RespondsToDefinition()
      modifies ({klass} + klass.Ancestors)`definition
      ensures Schema() == old(Schema())
      ensures r == Fetch(Schema(), attributes, typeCast, name)
      ensures name in Schema().defs ==> Accessed()
      ensures name !in Schema().defs ==> unchanged(({klass} + klass.Ancestors)`definition)
    {
      if name !in Schema().defs {
        return Err(UnknownAttribute(name));
      }
      var reg := klass.Definition();
      r := Fetch(reg, attributes, typeCast, name);
    }

    /** The generated setter `name=` (lines 37-39): it writes the field and never reads
        the class registry, so no memo is filled. */
    method Set(name: string, v: Value) returns (r: Outcome)
      requires Valid() && klass.RespondsToDefinition()
      modifies this`attributes
      ensures Reflects(r, Assign(Schema(), old(attributes), name, v), old(attributes), attributes)
    {
      if name in Schema().defs {
        attributes := attributes[name := v];
        r := Pass;
      } else {
        r := Fail(UnknownAttribute(name + "="));
      }
    }

    /** The predicate `name?` of a boolean attribute (line 45): the getter under another
        name, so it reads the class registry as the getter does. */
    method Predicate(name: string) returns (r: Result<Value>)
      requires Valid() && klass.RespondsToDefinition()
      modifies ({klass} + klass.Ancestors)`definition
      ensures Schema() == old(Schema())
      ensures r == Query(Schema(), attributes, typeCast, name)
      ensures r.Ok? ==> Accessed()
      ensures r.Err? ==> unchanged(({klass} + klass.Ancestors)`definition)
    {
      if !(name in Schema().defs && Schema().defs[name].kind == BooleanKind) {
        return Err(UnknownAttribute(name + "?"));
      }
      var reg := klass.Definition();
      r := Fetch(reg, attributes, typeCast, name);
    }

    /** `unpack_serialized_attributes!` (lines 75-85). */
    method Unpack() returns (r: Outcome)
      requires Valid() && klass.RespondsToDefinition()
      modifies this`attributes, ({klass} + klass.Ancestors)`definition
      ensures Schema() == old(Schema())
      ensures Reflects(r, Unpacked(Schema(), old(attributes)), old(attributes), attributes)
      ensures ReachesRegistry(old(attributes)) ==> Accessed()
      ensures !ReachesRegistry(old(attributes)) ==> unchanged(({klass} + klass.Ancestors)`definition)
    {
      if ColumnName !in attributes {
        return Pass;
      }
      var raw := attributes[ColumnName];
      if Decoded(raw).Err? {
        return Fail(SerializationTypeMismatch);
      }
      var decoded := Decoded(raw).value;  // `self[column] || {}`
      var reg := klass.Definition();
      BackfillFields(reg, decoded);
      if raw.Hash? && ColumnName !in reg.defs {
        attributes := attributes[ColumnName := Hash(Slice(decoded, reg.Names()))];
      }
      r := Pass;
    }

    /** The loop at lines 79-81: every registered name gets the column's value for it, or
        its declared default. */
    method BackfillFields(reg: WfRegistry, decoded: map<string, Value>)
      modifies this`attributes
      ensures attributes == Backfill(reg, decoded, old(attributes), |reg.keys|)
    {
      var i := 0;
      while i < |reg.keys|
        invariant i <= |reg.keys|
        invariant attributes == Backfill(reg, decoded, old(attributes), i)
      {
        var key := reg.keys[i];
        attributes := attributes[key := BackfillValue(reg, decoded, key)];
        i := i + 1;
      }
    }

    /** `pack_serialized_attributes!` with the prune inside the column guard. */
    method Pack() returns (r: Outcome)
      requires Valid() && klass.RespondsToDefinition() && ColumnName !in Schema().defs
      modifies this`attributes, ({klass} + klass.Ancestors)`definition
      ensures Schema() == old(Schema())
      ensures Reflects(r, Packed(Schema(), old(attributes), typeCast), old(attributes), attributes)
      ensures ReachesRegistry(old(attributes)) ==> Accessed()
      ensures !ReachesRegistry(old(attributes)) ==> unchanged(({klass} + klass.Ancestors)`definition)
    {
      if ColumnName !in attributes {
        return Pass;
      }
      var decoded := Decoded(attributes[ColumnName]);
      if decoded.Err? {
        return Fail(decoded.error);
      }
      var column := decoded.value;
      // the registry does not depend on the record, so reading it before the write of
      // `self[column] ||= {}` (nil becomes an empty Hash, a Hash stays) changes nothing
      var reg := klass.Definition();
      attributes := attributes[ColumnName := Hash(column)];
      var filled := FillColumn(reg, attributes, typeCast, column);
      FillIgnoresUnregistered(reg, old(attributes), typeCast, column, ColumnName, Hash(column), |reg.keys|);
      attributes := attributes[ColumnName := Hash(Slice(filled, reg.Names()))];
      r := Pass;
    }

    /** `pack_serialized_attributes!` as written: without the column, line 96 still reads
        the class's names for its argument, and then `slice!` reaches nil. */
    method PackAsWritten() returns (r: Outcome)
      requires Valid() && klass.RespondsToDefinition() && ColumnName !in Schema().defs
      modifies this`attributes, ({klass} + klass.Ancestors)`definition
      ensures Schema() == old(Schema())
      ensures Reflects(r, PackedAsWritten(Schema(), old(attributes), typeCast), old(attributes), attributes)
      ensures ColumnName !in old(attributes) || ReachesRegistry(old(attributes)) ==> Accessed()
      ensures ColumnName in old(attributes) && !ReachesRegistry(old(attributes)) ==> unchanged(({klass} + klass.Ancestors)`definition)
    {
      if ColumnName !in attributes {
        var _ := klass.Definition();
        return Fail(NoMethodError);
      }
      r := Pack();
    }
  }
}
