/** The situations exercised by test/simple_test.rb, replayed against the model. */
module Scenarios {
  import opened Values
  import opened SqlTypes
  import opened Definitions
  import opened ClassMethods
  import opened Lifecycle
  import opened Records

  /** A cast that returns the raw value, enough for the string, integer and boolean
      values the tests use. */
  function Identity(t: Token, v: Value): (r: Value) {
    v
  }

  /** Document (test lines 27-29) and Comment < Document including the module. */
  method NewComment() returns (document: ModelClass, comment: ModelClass)
    ensures fresh(document) && fresh(comment) && comment.Valid() && comment.Ancestors == {document}
    ensures !document.RespondsToDefinition() && comment.RespondsToDefinition()
    ensures comment.Materialised() == Empty
  {
    document := new ModelClass(null);
    comment := new ModelClass(document);
    comment.Include();
  }

  /** Comment's first declaration, body (test line 44). */
  method DeclareBody() returns (document: ModelClass, comment: ModelClass)
    ensures fresh(document) && fresh(comment) && comment.Valid() && comment.Ancestors == {document}
    ensures !document.RespondsToDefinition() && comment.RespondsToDefinition()
    ensures comment.Materialised().keys == ["body"]
  {
    document, comment := NewComment();
    comment.Attribute("body", ClassRef("String"), Nil, false);
  }

  /** Comment's second declaration, post_id (test line 45). */
  method DeclareComment() returns (document: ModelClass, comment: ModelClass)
    ensures fresh(document) && fresh(comment) && comment.Valid() && comment.Ancestors == {document}
    ensures !document.RespondsToDefinition() && comment.RespondsToDefinition()
    ensures comment.Materialised().keys == ["body", "post_id"]
  {
    document, comment := DeclareBody();
    comment.Attribute("post_id", ClassRef("Integer"), Nil, false);
  }

  /** CommentWithAuthor < Comment, before it declares anything (test line 51). */
  method NewWithAuthor() returns (document: ModelClass, comment: ModelClass, withAuthor: ModelClass)
    ensures fresh(document) && fresh(comment) && fresh(withAuthor)
    ensures withAuthor.Valid() && withAuthor.Ancestors == {comment, document} && comment.Ancestors == {document}
    ensures !document.RespondsToDefinition() && comment.RespondsToDefinition() && withAuthor.RespondsToDefinition()
    ensures comment.Materialised().keys == ["body", "post_id"]
    ensures withAuthor.Materialised() == comment.Materialised()
    ensures comment.definition.Some? && withAuthor.CopyChain() == {withAuthor}
  {
    document, comment := DeclareComment();
    withAuthor := new ModelClass(comment);
  }

  /** CommentWithAuthor declares author (test line 52). */
  method DeclareWithAuthor() returns (document: ModelClass, comment: ModelClass, withAuthor: ModelClass)
    ensures fresh(document) && fresh(comment) && fresh(withAuthor)
    ensures withAuthor.Valid() && withAuthor.Ancestors == {comment, document} && comment.Ancestors == {document}
    ensures !document.RespondsToDefinition() && comment.RespondsToDefinition()
    ensures comment.Materialised().keys == ["body", "post_id"]
    ensures withAuthor.Materialised().keys == ["body", "post_id", "author"]
  {
    document, comment, withAuthor := NewWithAuthor();
    assert "author" !in withAuthor.Materialised().defs;
    withAuthor.Attribute("author", ClassRef("String"), Nil, false);
  }

  /** Document has no serialized attributes, Comment has body and post_id, and
      CommentWithAuthor's author stays out of Comment's registry
      (test lines 51-53 and 91-100). */
  method InheritanceIsolation() returns (documentResponds: bool, commentResponds: bool,
                                         commentNames: seq<string>, withAuthorNames: seq<string>)
    ensures !documentResponds && commentResponds
    ensures commentNames == ["body", "post_id"]
    ensures withAuthorNames == ["body", "post_id", "author"]
  {
    var document, comment, withAuthor := DeclareWithAuthor();
    documentResponds := document.RespondsToDefinition();
    commentResponds := comment.RespondsToDefinition();
    withAuthorNames := withAuthor.SerializedAttributeNames();
    commentNames := comment.SerializedAttributeNames();
  }

  /** A class including the module and declaring a. */
  method DeclareParent() returns (parent: ModelClass)
    ensures fresh(parent) && parent.Valid() && parent.Ancestors == {}
    ensures parent.RespondsToDefinition() && parent.Materialised().keys == ["a"]
  {
    parent := new ModelClass(null);
    parent.Include();
    parent.Attribute("a", ClassRef("String"), Nil, false);
  }

  /** A subclass that has declared b, materialising its copy of the parent's registry. */
  method DeclareParentAndEarlyChild() returns (parent: ModelClass, early: ModelClass)
    ensures fresh(parent) && fresh(early) && parent.Valid() && parent.Ancestors == {}
    ensures early.Valid() && early.Ancestors == {parent}
    ensures parent.RespondsToDefinition() && early.definition.Some?
    ensures parent.Materialised().keys == ["a"]
    ensures early.Materialised().keys == ["a", "b"]
  {
    parent := DeclareParent();
    early := new ModelClass(parent);
    early.Attribute("b", ClassRef("String"), Nil, false);
  }

  /** A second subclass that has not used its registry yet, then the parent declares c. */
  method DeclareLateChild() returns (parent: ModelClass, early: ModelClass, late: ModelClass)
    ensures fresh(parent) && fresh(early) && fresh(late) && parent.Valid() && parent.Ancestors == {}
    ensures early.Valid() && early.Ancestors == {parent} && late.Valid() && late.Ancestors == {parent}
    ensures parent.RespondsToDefinition()
    ensures parent.Materialised().keys == ["a", "c"]
    ensures early.Materialised().keys == ["a", "b"]
    ensures late.Materialised().keys == ["a", "c"]
  {
    parent, early := DeclareParentAndEarlyChild();
    late := new ModelClass(parent);
    parent.Attribute("c", ClassRef("String"), Nil, false);
  }

  /** Copy on first access: a subclass that has already used its registry does not see
      what its parent declares later, one that has not used it yet does, and neither
      subclass's declarations reach the parent. */
  method CopyOnFirstAccess() returns (parentNames: seq<string>, earlyNames: seq<string>, lateNames: seq<string>)
    ensures parentNames == ["a", "c"]
    ensures earlyNames == ["a", "b"]
    ensures lateNames == ["a", "c"]
  {
    var parent, early, late := DeclareLateChild();
    earlyNames := early.SerializedAttributeNames();
    lateNames := late.SerializedAttributeNames();
    parentNames := parent.SerializedAttributeNames();
  }

  /** A subclass whose record has only assigned a: the setter does not read the registry,
      so the subclass's memo is still empty. */
  method SetOnPendingChild() returns (parent: ModelClass, late: ModelClass, written: Outcome)
    ensures fresh(parent) && fresh(late) && parent.Valid() && parent.Ancestors == {}
    ensures late.Valid() && late.Ancestors == {parent} && late.definition == None
    ensures parent.RespondsToDefinition() && parent.Materialised().keys == ["a"]
    ensures written == Pass
  {
    parent := DeclareParent();
    late := new ModelClass(parent);
    var record := new Record(late, Identity, map["id" := Int(1)]);
    written := record.Set("a", Str("v"));
  }

  /** Assigning through a subclass's setter does not fix its copy: a declaration the parent
      makes afterwards still reaches the subclass (lines 37-39, 51 and 58). */
  method SetterLeavesCopyPending() returns (written: Outcome, lateNames: seq<string>)
    ensures written == Pass
    ensures lateNames == ["a", "c"]
  {
    var parent, late;
    parent, late, written := SetOnPendingChild();
    parent.Attribute("c", ClassRef("String"), Nil, false);
    lateNames := late.SerializedAttributeNames();
  }

  /** A declares a, then B < A and C < B, neither used yet. */
  method NewChain() returns (top: ModelClass, middle: ModelClass, bottom: ModelClass)
    ensures fresh(top) && fresh(middle) && fresh(bottom)
    ensures top.Valid() && top.Ancestors == {} && top.RespondsToDefinition()
    ensures middle.Valid() && middle.Ancestors == {top} && bottom.Valid() && bottom.Ancestors == {top, middle}
    ensures top.definition.Some? && top.Materialised().keys == ["a"]
    ensures middle.definition == None && bottom.definition == None
    ensures bottom.CopyChain() == {bottom, middle} && bottom.Materialised() == top.Materialised()
  {
    top := DeclareParent();
    middle := new ModelClass(top);
    bottom := new ModelClass(middle);
  }

  /** C reports its names. That first access copies through B, so B memoises A's
      registry as it was then. */
  method AccessThroughMiddle() returns (top: ModelClass, middle: ModelClass, bottom: ModelClass, bottomNames: seq<string>)
    ensures fresh(top) && fresh(middle) && fresh(bottom)
    ensures top.Valid() && top.Ancestors == {} && top.RespondsToDefinition()
    ensures middle.Valid() && middle.Ancestors == {top} && bottom.Valid() && bottom.Ancestors == {top, middle}
    ensures top.definition.Some? && top.definition.value.keys == ["a"]
    ensures middle.definition == top.definition && bottom.definition == top.definition
    ensures bottomNames == ["a"]
  {
    top, middle, bottom := NewChain();
    bottomNames := bottom.SerializedAttributeNames();
  }

  /** A then declares z, which reaches neither memo. */
  method DeclareTopLate() returns (top: ModelClass, middle: ModelClass, bottom: ModelClass)
    ensures fresh(top) && fresh(middle) && fresh(bottom)
    ensures top.Valid() && top.Ancestors == {} && top.RespondsToDefinition()
    ensures middle.Valid() && middle.Ancestors == {top} && bottom.Valid() && bottom.Ancestors == {top, middle}
    ensures top.definition.Some? && top.definition.value.keys == ["a", "z"]
    ensures middle.definition.Some? && middle.definition.value.keys == ["a"]
    ensures bottom.definition.Some? && bottom.definition.value.keys == ["a"]
  {
    var firstNames;
    top, middle, bottom, firstNames := AccessThroughMiddle();
    top.Attribute("z", ClassRef("String"), Nil, false);
  }

  /** The superclass a first access copies through is memoised too (line 58): once the
      bottom class has been asked for its names, a later declaration of z in the top class
      reaches neither the bottom class nor the middle one, which was never asked itself. */
  method CopyThroughMemoises() returns (topNames: seq<string>, middleNames: seq<string>, bottomNames: seq<string>)
    ensures topNames == ["a", "z"]
    ensures middleNames == ["a"]
    ensures bottomNames == ["a"]
  {
    var top, middle, bottom := DeclareTopLate();
    middleNames := middle.SerializedAttributeNames();
    bottomNames := bottom.SerializedAttributeNames();
    topNames := top.SerializedAttributeNames();
  }

  /** Widget includes the module and Sprocket < Widget declares the boolean in_motion
      (test lines 71-80). */
  method DeclareInMotion() returns (sprocket: ModelClass)
    ensures fresh(sprocket) && sprocket.Valid() && fresh(sprocket.Ancestors)
    ensures sprocket.RespondsToDefinition()
    ensures sprocket.Materialised().keys == ["in_motion"]
    ensures sprocket.Materialised().defs["in_motion"].kind == BooleanKind
    ensures sprocket.accessible == {}
  {
    var widget := new ModelClass(null);
    widget.Include();
    sprocket := new ModelClass(widget);
    assert TypeToSqlType(BooleanStub) == BooleanKind;
    sprocket.Attribute("in_motion", BooleanStub, Nil, false);
  }

  /** Sprocket then declares the mass-assignable integer size (test line 82). */
  method DeclareSprocket() returns (sprocket: ModelClass)
    ensures fresh(sprocket) && sprocket.Valid() && fresh(sprocket.Ancestors)
    ensures sprocket.RespondsToDefinition()
    ensures sprocket.Materialised().keys == ["in_motion", "size"]
    ensures sprocket.Materialised().defs["in_motion"].kind == BooleanKind
    ensures sprocket.Materialised().defs["size"].kind == Sym("integer")
    ensures sprocket.accessible == {"size"}
  {
    sprocket := DeclareInMotion();
    sprocket.AccessibleAttribute("size", ClassRef("Integer"), Nil);
  }

  /** Class and instance report the same names and only size is marked
      mass-assignable (test lines 124-138). */
  method SprocketAttributes() returns (classNames: seq<string>, instanceNames: seq<string>,
                                       accessible: set<string>)
    ensures classNames == ["in_motion", "size"] && instanceNames == classNames
    ensures "size" in accessible && "in_motion" !in accessible
  {
    var sprocket := DeclareSprocket();
    classNames := sprocket.SerializedAttributeNames();
    accessible := sprocket.accessible;
    var record := new Record(sprocket, Identity, map["name" := Str("Spacely's Space Sprocket"), ColumnName := Nil]);
    instanceNames := record.SerializedAttributeNames();
  }

  /** Assign a registered attribute and read it back through its getter on the same record. */
  method SetAndGet(record: Record, name: string, v: Value) returns (read: Result<Value>)
    requires record.Valid() && record.klass.RespondsToDefinition() && name in record.Schema().defs
    modifies record`attributes, ({record.klass} + record.klass.Ancestors)`definition
    ensures record.Schema() == old(record.Schema())
    ensures read == Ok(record.typeCast(record.Schema().defs[name].kind, v))
  {
    var _ := record.Set(name, v);
    read := record.Get(name);
  }

  /** Assign a registered boolean attribute and ask its predicate on the same record. */
  method SetAndAsk(record: Record, name: string, b: bool) returns (answer: Result<Value>)
    requires record.Valid() && record.klass.RespondsToDefinition()
    requires name in record.Schema().defs && record.Schema().defs[name].kind == BooleanKind
    modifies record`attributes, ({record.klass} + record.klass.Ancestors)`definition
    ensures record.Schema() == old(record.Schema())
    ensures answer == Ok(record.typeCast(BooleanKind, Bool(b)))
  {
    var _ := record.Set(name, Bool(b));
    answer := record.Predicate(name);
  }

  /** size reads back what was written (test lines 124-128). */
  method SprocketSize() returns (size: Result<Value>)
    ensures size == Ok(Int(99))
  {
    var sprocket := DeclareSprocket();
    var record := new Record(sprocket, Identity, map["name" := Str("Spacely's Space Sprocket"), ColumnName := Nil]);
    size := SetAndGet(record, "size", Int(99));
  }

  /** in_motion? answers the value last written to in_motion; size, an integer, has no
      predicate (test lines 153-162). */
  method BooleanPredicate() returns (afterTrue: Result<Value>, afterFalse: Result<Value>, sizePredicate: Result<Value>)
    ensures afterTrue == Ok(Bool(true)) && afterFalse == Ok(Bool(false))
    ensures sizePredicate.Err?
  {
    var sprocket := DeclareSprocket();
    var record := new Record(sprocket, Identity, map[ColumnName := Nil]);
    afterTrue := SetAndAsk(record, "in_motion", true);
    afterFalse := SetAndAsk(record, "in_motion", false);
    sizePredicate := record.Predicate("size");
  }

  /** A row written before custom_field existed loads with its default
      (test lines 59-63 and 102-111). */
  method NullColumnBackfill() returns (value: Result<Value>)
    ensures value == Ok(Str("default value"))
  {
    var modelAfter := new ModelClass(null);
    modelAfter.Include();
    modelAfter.Attribute("custom_field", ClassRef("String"), Str("default value"), false);
    var row := map["id" := Int(1), ColumnName := Nil];
    var loaded := new Record(modelAfter, Identity, row);
    var _ := loaded.Unpack();
    value := loaded.Get("custom_field");
  }

  /** The registry of a class that includes the module and declares one String
      attribute with a default. */
  function StringAttributeRegistry(name: string, default: Value): (r: WfRegistry)
    ensures r.keys == [name] && r.Names() == {name}
    ensures r.defs[name] == Descriptor(name, default, Sym("string"))
  {
    Define(Empty, Descriptor(name, default, TypeToSqlType(ClassRef("String"))))
  }

  /** The registry ModelAfter declares (test lines 59-63). */
  const ModelAfterRegistry: WfRegistry := StringAttributeRegistry("custom_field", Str("default value"))

  /** The registry ModelSecond declares (test lines 65-69). */
  const ModelSecondRegistry: WfRegistry := StringAttributeRegistry("custom_field_renamed", Str("new default value"))

  /** A row saved by ModelAfter and saved again by ModelSecond, which declares a renamed
      field, no longer carries custom_field (test lines 113-122). */
  lemma RemovedCustomField(row: map<string, Value>)
    requires row == map["id" := Int(1), ColumnName := Nil]
    ensures Packed(ModelAfterRegistry, row, Identity).Ok?
    ensures Packed(ModelAfterRegistry, row, Identity).value[ColumnName]
              == Hash(map["custom_field" := Str("default value")])
    ensures Unpacked(ModelSecondRegistry, Packed(ModelAfterRegistry, row, Identity).value).Ok?
    ensures Packed(ModelSecondRegistry, Unpacked(ModelSecondRegistry, Packed(ModelAfterRegistry, row, Identity).value).value, Identity).Ok?
    ensures Packed(ModelSecondRegistry, Unpacked(ModelSecondRegistry, Packed(ModelAfterRegistry, row, Identity).value).value, Identity).value[ColumnName]
              == Hash(map["custom_field_renamed" := Str("new default value")])
  {
    var after, second := ModelAfterRegistry, ModelSecondRegistry;
    PackWritesRegistry(after, row, Identity);
    var saved := Packed(after, row, Identity).value;
    assert saved[ColumnName].entries == map["custom_field" := Str("default value")];
    UnpackBackfills(second, saved);
    UnpackPrunes(second, saved);
    var loaded := Unpacked(second, saved).value;
    assert loaded[ColumnName] == Hash(map[]);
    PackWritesRegistry(second, loaded, Identity);
    var resaved := Packed(second, loaded, Identity).value;
    assert resaved[ColumnName].entries == map["custom_field_renamed" := Str("new default value")];
  }

  /** ModelSecond (test lines 65-69). */
  method DeclareModelSecond() returns (modelSecond: ModelClass)
    ensures fresh(modelSecond) && modelSecond.Valid() && modelSecond.Ancestors == {}
    ensures modelSecond.RespondsToDefinition() && modelSecond.Materialised() == ModelSecondRegistry
  {
    modelSecond := new ModelClass(null);
    modelSecond.Include();
    modelSecond.Attribute("custom_field_renamed", ClassRef("String"), Str("new default value"), false);
  }

  /** What the test at lines 140-151 observes, on values: a new ModelSecond row reads the
      default, saving writes the default into the column, and the reloaded row reads it again. */
  lemma ModelSecondDefaults(row: map<string, Value>)
    requires row == map["id" := Int(1), ColumnName := Nil]
    ensures Fetch(ModelSecondRegistry, row, Identity, "custom_field_renamed") == Ok(Str("new default value"))
    ensures Packed(ModelSecondRegistry, row, Identity).Ok?
    ensures Packed(ModelSecondRegistry, row, Identity).value[ColumnName]
              == Hash(map["custom_field_renamed" := Str("new default value")])
    ensures Unpacked(ModelSecondRegistry, Packed(ModelSecondRegistry, row, Identity).value).Ok?
    ensures Fetch(ModelSecondRegistry, Unpacked(ModelSecondRegistry, Packed(ModelSecondRegistry, row, Identity).value).value,
                  Identity, "custom_field_renamed") == Ok(Str("new default value"))
  {
    var second := ModelSecondRegistry;
    PackWritesRegistry(second, row, Identity);
    var saved := Packed(second, row, Identity).value;
    assert saved[ColumnName].entries == map["custom_field_renamed" := Str("new default value")];
    UnpackBackfills(second, saved);
  }

  /** A new ModelSecond reads its default, and saving it stores that default in the
      column (test lines 140-148). */
  method CreateModelSecond() returns (modelSecond: ModelClass, initial: Result<Value>, saved: map<string, Value>)
    ensures fresh(modelSecond) && modelSecond.Valid() && fresh(modelSecond.Ancestors)
    ensures modelSecond.RespondsToDefinition() && modelSecond.Materialised() == ModelSecondRegistry
    ensures initial == Ok(Str("new default value"))
    ensures saved == Packed(ModelSecondRegistry, map["id" := Int(1), ColumnName := Nil], Identity).value
    ensures ColumnName in saved && saved[ColumnName] == Hash(map["custom_field_renamed" := Str("new default value")])
  {
    modelSecond := DeclareModelSecond();
    var row := map["id" := Int(1), ColumnName := Nil];
    ModelSecondDefaults(row);
    var created := new Record(modelSecond, Identity, row);
    initial := created.Get("custom_field_renamed");
    var _ := created.Pack();
    saved := created.attributes;
  }

  /** A new ModelSecond reads its default, and so does one saved and reloaded
      (test lines 140-151). */
  method DefaultValues() returns (initial: Result<Value>, reloaded: Result<Value>)
    ensures initial == Ok(Str("new default value"))
    ensures reloaded == Ok(Str("new default value"))
  {
    var modelSecond, saved;
    modelSecond, initial, saved := CreateModelSecond();
    ModelSecondDefaults(map["id" := Int(1), ColumnName := Nil]);
    reloaded := Reload(modelSecond, saved, "custom_field_renamed");
  }

  /** A saved row read back from the database by `klass`, which `instantiate` unpacks (lines 17-21 of the library), then asked for `name`. */
  method Reload(klass: ModelClass, saved: map<string, Value>, name: string) returns (r: Result<Value>)
    requires klass.Valid() && klass.RespondsToDefinition()
    requires Unpacked(klass.Materialised(), saved).Ok?
    modifies ({klass} + klass.Ancestors)`definition
    ensures r == Fetch(old(klass.Materialised()), Unpacked(old(klass.Materialised()), saved).value, Identity, name)
  {
    var stored := new Record(klass, Identity, saved);
    var _ := stored.Unpack();
    r := stored.Get(name);
  }

  /** A record whose table has no serialized column: unpack leaves it alone, the pack that
      is written raises NoMethodError, the guarded pack leaves it alone. */
  method LegacyTable() returns (unpacked: Outcome, asWritten: Outcome, guarded: Outcome, after: map<string, Value>)
    ensures unpacked == Pass && asWritten == Fail(NoMethodError) && guarded == Pass
    ensures after == map["id" := Int(1), "name" := Str("legacy")]
  {
    var legacy := new ModelClass(null);
    legacy.Include();
    legacy.Attribute("flag", BooleanStub, Bool(false), false);
    var row := map["id" := Int(1), "name" := Str("legacy")];
    var record := new Record(legacy, Identity, row);
    unpacked := record.Unpack();
    asWritten := record.PackAsWritten();
    guarded := record.Pack();
    after := record.attributes;
  }
}
