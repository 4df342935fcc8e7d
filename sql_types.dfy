/** The type table of lib/serialized_attributes/serialized_attributes.rb (lines 105-123). */
module SqlTypes {

  /** A type argument given to `attribute`: a Ruby class or a symbol. */
  datatype Token = ClassRef(name: string) | Sym(name: string)

  /** The `Boolean` stub class declared inside the library's module. */
  const BooleanStub: Token := ClassRef("SerializedAttributes::Boolean")

  const BooleanKind: Token := Sym("boolean")

  /** CLASSES_TO_SQL_TYPES: nine classes and the column kind each declares. */
  const ClassesToSqlTypes: map<Token, Token> := map[
    ClassRef("String") := Sym("string"),
    BooleanStub := BooleanKind,
    ClassRef("Fixnum") := Sym("integer"),
    ClassRef("Integer") := Sym("integer"),
    ClassRef("BigDecimal") := Sym("decimal"),
    ClassRef("Float") := Sym("float"),
    ClassRef("Date") := Sym("date"),
    ClassRef("Time") := Sym("time"),
    ClassRef("DateTime") := Sym("time")
  ]

  /** The seven column kinds the table produces. */
  const SqlKinds: set<Token> :=
    {Sym("string"), BooleanKind, Sym("integer"), Sym("decimal"), Sym("float"), Sym("date"), Sym("time")}

  /** `type_to_sqltype`: the table's kind for a known class, any other type unchanged. */
  function TypeToSqlType(t: Token): (r: Token)
    ensures t in ClassesToSqlTypes ==> r in SqlKinds
    ensures t !in ClassesToSqlTypes ==> r == t
  {
    if t in ClassesToSqlTypes then ClassesToSqlTypes[t] else t
  }

  /** The nine entries of the table, one by one (DateTime declares `:time`). */
  lemma TypeTable()
    ensures TypeToSqlType(ClassRef("String")) == Sym("string")
    ensures TypeToSqlType(BooleanStub) == Sym("boolean")
    ensures TypeToSqlType(ClassRef("Fixnum")) == Sym("integer")
    ensures TypeToSqlType(ClassRef("Integer")) == Sym("integer")
    ensures TypeToSqlType(ClassRef("BigDecimal")) == Sym("decimal")
    ensures TypeToSqlType(ClassRef("Float")) == Sym("float")
    ensures TypeToSqlType(ClassRef("Date")) == Sym("date")
    ensures TypeToSqlType(ClassRef("Time")) == Sym("time")
    ensures TypeToSqlType(ClassRef("DateTime")) == Sym("time")
  {
  }

  /** Converting an already converted type changes nothing: every kind the table
      produces is a symbol, and the table's keys are all classes. */
  lemma TypeToSqlTypeIdempotent(t: Token)
    ensures TypeToSqlType(TypeToSqlType(t)) == TypeToSqlType(t)
  {
    if t in ClassesToSqlTypes {
      assert forall k :: k in ClassesToSqlTypes ==> k.ClassRef?;
      assert TypeToSqlType(t).Sym?;
    }
  }

  /** An attribute gets the `name?` predicate (line 45) exactly when it was declared with
      the Boolean stub class or with the `:boolean` symbol itself. */
  lemma BooleanKindIff(t: Token)
    ensures TypeToSqlType(t) == BooleanKind <==> t == BooleanStub || t == BooleanKind
  {
    if t in ClassesToSqlTypes && t != BooleanStub {
      assert ClassesToSqlTypes[t] != BooleanKind;
    }
  }
}
