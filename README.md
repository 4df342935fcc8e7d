# serialized_attributes, modelled in Dafny

`SerializedAttributes` is a Ruby mixin for ActiveRecord models. A class that
includes it declares "virtual" attributes with `attribute name, Type,
:default => ...`. The values of those attributes do not live in columns of
their own. They are packed into one Hash column, `serialized_attributes`,
before a save, and unpacked from it when a record is loaded. The code is
lib/serialized_attributes/serialized_attributes.rb.

The model covers the following:

- **Attribute registry** (`ClassMethods`).
  - Each class keeps a registry mapping attribute names to descriptors `(name, default, kind)`. The keys keep insertion order.
  - A class materialises its registry on first access. If its superclass responds, it copies the superclass's registry, materialising that first; otherwise it starts from `{}`. Every class the copy goes through keeps its memo from then on.
  - Including the module a second time further down the hierarchy does nothing.
  - `attribute` and `accessible_attribute` file descriptors and record the names marked mass-assignable.
  - `ModelClass` is a Dafny class. Its fields are updated in place: the memoised registry slot, the include flag and the accessible set. The function `Materialised` says which registry the class presents at any moment. `CopyChain` lists the classes whose memo a first access fills, and `AncestorsMemoised` says what such an access leaves in the ancestors' memos.
- **Type table** (`SqlTypes`).
  - `type_to_sqltype` looks a type up in the nine-entry `CLASSES_TO_SQL_TYPES` table and returns any other type unchanged.
- **Generated accessors and the two hooks** (`Lifecycle` and `Records`).
  - `Lifecycle` states, as pure functions of a registry and a record's field storage (`@attributes`), what each of these computes: the getter, the setter, the `name?` predicate, `unpack_serialized_attributes!` and `pack_serialized_attributes!`.
  - `Records.Record` is the record. Its methods update `attributes` step by step with the source's loops, and each is proved equal to its `Lifecycle` function.
- **The test suite's situations** (`Scenarios`), replayed and proved about the model.

The following are parameters of the model:

- `Column#type_cast` is an arbitrary total function from kind and raw value to value. It is held by each record.
- The serializer is the identity. The column holds `nil`, a Hash, or any other value. Any other value is refused with `SerializationTypeMismatch`, as `serialize ..., Hash` does.

An accessor exists in the model exactly when the class's current registry provides it. A missing one is reported as `UnknownAttribute(m)`, where `m` is its name (`x`, `x=` or `x?`). This stands for the `NoMethodError` Ruby raises. Ruby's generated methods outlive a later redeclaration and are inherited by subclasses, so in a few situations Ruby still has a method the model reports missing; the `## Left out` lines for `Lifecycle.Fetch`, `Lifecycle.Assign`, `Lifecycle.Query`, `Records.Record.Get`, `Records.Record.Set` and `Records.Record.Predicate` name them, together with what such a method does to the memos.

## Model

| member | source | states |
|---|---|---|
| SqlTypes.TypeToSqlType | lib/serialized_attributes/serialized_attributes.rb:109-123 | a type in the table becomes one of the seven column kinds; any other type is returned unchanged |
| SqlTypes.TypeTable | lib/serialized_attributes/serialized_attributes.rb:109-119 | each of the nine entries; Fixnum and Integer give integer; Time and DateTime both give time |
| SqlTypes.TypeToSqlTypeIdempotent | lib/serialized_attributes/serialized_attributes.rb:121-123 | converting a converted type changes nothing |
| SqlTypes.BooleanKindIff | lib/serialized_attributes/serialized_attributes.rb:45 | the declared kind is boolean exactly when the type was the Boolean stub or the `:boolean` symbol |
| Definitions.Define | lib/serialized_attributes/serialized_attributes.rb:35 | storing a descriptor adds its name and maps the name to that descriptor; every other entry is unchanged; a new name is appended to the key order; an overwritten name keeps its place |
| Definitions.KeysEnumerateNames | lib/serialized_attributes/serialized_attributes.rb:27-29 | the ordered keys list exactly the registered names, each once |
| ClassMethods.ModelClass.RespondsToDefinition | lib/serialized_attributes/serialized_attributes.rb:4 | a class responds to `serialized_attributes_definition` exactly when it or one of its ancestors included the module (also used at line 57) |
| ClassMethods.ModelClass.Materialised | lib/serialized_attributes/serialized_attributes.rb:50-62 | once the memo is filled it is what the class presents; without a memo, a class whose superclass responds presents what the superclass presents (line 58), and otherwise `{}` (line 60) |
| ClassMethods.ModelClass.MaterialisedProvenance | lib/serialized_attributes/serialized_attributes.rb:50-62 | what a class presents is `{}` or a registry memoised by the class itself or by one of its ancestors |
| ClassMethods.ModelClass.Include | lib/serialized_attributes/serialized_attributes.rb:3-13 | the class sets its own include flag only when neither it nor an ancestor already responds; afterwards it responds |
| ClassMethods.ModelClass.CopyChain | lib/serialized_attributes/serialized_attributes.rb:51-58 | the classes a first access memoises: the class itself exactly when its memo is empty, then superclasses only |
| ClassMethods.ModelClass.Definition | lib/serialized_attributes/serialized_attributes.rb:50-62 | the memo is filled with and returns the registry the class presented before the call; every superclass the copy went through (line 58) now memoises that same registry, and every other ancestor's memo is unchanged; no ancestor presents anything new |
| ClassMethods.ModelClass.Store | lib/serialized_attributes/serialized_attributes.rb:51 | filling this class's slot changes no ancestor's registry |
| ClassMethods.ModelClass.Attribute | lib/serialized_attributes/serialized_attributes.rb:31-48 | the class's registry becomes its previous registry with the descriptor stored under the name and the type converted; the name is added to the accessible set exactly when the flag is given; the ancestors the first access copied through are memoised as by `Definition`, the other ancestors' memos are unchanged, and every ancestor presents what it did before |
| ClassMethods.ModelClass.AccessibleAttribute | lib/serialized_attributes/serialized_attributes.rb:23-25 | the same update as `attribute`, memos of the ancestors included, with the name always added to the accessible set |
| ClassMethods.ModelClass.SerializedAttributeNames | lib/serialized_attributes/serialized_attributes.rb:27-29 | returns the registry's keys, each once, listing exactly the registered names; the access at line 28 memoises the class and the superclasses its copy goes through, as `Definition` does; nothing any class presents changes |
| Lifecycle.Current | lib/serialized_attributes/serialized_attributes.rb:41-43 | the getter's value for a registered name: the cast of its field, or of its declared default when the record has no such field |
| Lifecycle.Fetch | lib/serialized_attributes/serialized_attributes.rb:41-43 | a registered name reads the cast of its field, or of its default when the field is absent; an unregistered name has no getter |
| Lifecycle.Assign | lib/serialized_attributes/serialized_attributes.rb:37-39 | a registered name's setter writes the raw value to that field only; an unregistered name has no setter |
| Lifecycle.Query | lib/serialized_attributes/serialized_attributes.rb:45 | the predicate exists exactly for names whose registered kind is boolean, and then answers what the getter answers; otherwise `name?` is unknown |
| Lifecycle.GetAfterSet | lib/serialized_attributes/serialized_attributes.rb:37-43 | reading a name after writing it gives the cast of the written value; every other getter is unaffected |
| Lifecycle.BackfillSpec | lib/serialized_attributes/serialized_attributes.rb:79-81 | after any number of rounds of the unpack loop, the visited names hold their column value or default and all other fields are unchanged |
| Lifecycle.Slice | lib/serialized_attributes/serialized_attributes.rb:83 | `slice!` keeps exactly the entries whose key is among the names, with their values |
| Lifecycle.SliceIdempotent | lib/serialized_attributes/serialized_attributes.rb:83 | slicing twice by the same names is slicing once |
| Lifecycle.Decoded | lib/serialized_attributes/serialized_attributes.rb:77 | nil reads as `{}`, a Hash as itself, anything else is a type mismatch |
| Lifecycle.Unpacked | lib/serialized_attributes/serialized_attributes.rb:75-85 | without the column nothing changes; unpack fails exactly when the column holds neither nil nor a Hash |
| Lifecycle.UnpackBackfills | lib/serialized_attributes/serialized_attributes.rb:76-81 | after unpack every registered name is a field holding the column's value or its default; other fields are untouched; a nil column stays nil |
| Lifecycle.UnpackPrunes | lib/serialized_attributes/serialized_attributes.rb:83 | after unpack the column Hash keeps exactly its registered keys, with their values |
| Lifecycle.UnpackIdempotent | lib/serialized_attributes/serialized_attributes.rb:75-85 | unpacking an unpacked record changes nothing |
| Lifecycle.FillSpec | lib/serialized_attributes/serialized_attributes.rb:91-93 | after any number of rounds of the pack loop, the visited names hold their getter's value and the rest of the Hash is unchanged |
| Lifecycle.FillIgnoresUnregistered | lib/serialized_attributes/serialized_attributes.rb:89-93 | writing a field outside the registry, such as the column, does not change what the pack loop produces |
| Lifecycle.Packed | lib/serialized_attributes/serialized_attributes.rb:87-97 | the corrected pack: a record without the column is left alone; pack fails exactly when the column holds neither nil nor a Hash |
| Lifecycle.PackedAsWritten | lib/serialized_attributes/serialized_attributes.rb:87-97 | the pack as written raises NoMethodError without the column and otherwise agrees with the corrected pack |
| Lifecycle.PackWithoutColumn | lib/serialized_attributes/serialized_attributes.rb:88-96 | on a record without the column the code as written raises while the corrected pack is a no-op |
| Lifecycle.PackWritesRegistry | lib/serialized_attributes/serialized_attributes.rb:88-96 | after pack the column Hash's keys are exactly the registered names, so stale keys are gone; each value is the getter's value; every other field is unchanged |
| Lifecycle.PackIdempotent | lib/serialized_attributes/serialized_attributes.rb:87-97 | packing twice with no write in between gives the same record |
| Lifecycle.SetThenPack | lib/serialized_attributes/serialized_attributes.rb:91-93 | the next pack stores what a setter wrote, cast to the attribute's kind |
| Lifecycle.SaveReloadSave | lib/serialized_attributes/serialized_attributes.rb:75-97 | when the cast is idempotent, unpacking a packed record keeps every getter's value and packing again stores the same column Hash |
| Records.FillColumn | lib/serialized_attributes/serialized_attributes.rb:91-93 | the loop writes every registered name's getter value into the Hash, as a full pass of the pack loop does |
| Records.Record.SerializedAttributeNames | lib/serialized_attributes/serialized_attributes.rb:71-73 | an instance reports its class's registry keys; the class registry has been accessed, so the class and the superclasses its copy went through are memoised |
| Records.Record.Get | lib/serialized_attributes/serialized_attributes.rb:41-43 | the getter returns what `Fetch` gives for the class's registry and the record's fields; an existing getter accesses the class registry (line 42) and fills the memos as `Definition` does; a getter missing from the registry leaves every memo unchanged, which matches Ruby when no ancestor generated that getter |
| Records.Record.Set | lib/serialized_attributes/serialized_attributes.rb:37-39 | the record's fields become what `Assign` gives, or stay as they were with the error; it changes nothing but the fields, so no class's memo is filled |
| Records.Record.Predicate | lib/serialized_attributes/serialized_attributes.rb:45 | the predicate returns what `Query` gives; when it exists it accesses the class registry as the getter does, and otherwise leaves every memo unchanged, which matches Ruby when no ancestor generated that alias |
| Records.Record.BackfillFields | lib/serialized_attributes/serialized_attributes.rb:79-81 | the loop leaves the record's fields as a full pass of the backfill gives: each registered name holds the column's value or its default |
| Records.Record.Unpack | lib/serialized_attributes/serialized_attributes.rb:75-85 | the backfill loop and the slice leave the fields `Unpacked` gives, or the mismatch error with the fields unchanged; the class registry is accessed exactly when the column is present and decodes |
| Records.Record.Pack | lib/serialized_attributes/serialized_attributes.rb:87-97 | the fill loop and the slice leave the fields `Packed` gives, or the mismatch error with the fields unchanged; the class registry is accessed exactly when the column is present and decodes |
| Records.Record.PackAsWritten | lib/serialized_attributes/serialized_attributes.rb:87-97 | the method as written leaves what `PackedAsWritten` gives: NoMethodError without the column; the class registry is accessed unless the column fails to decode, since line 96 reads the names before `slice!` reaches nil |
| Scenarios.DeclareComment | test/simple_test.rb:41-49 | Comment includes the module under Document and declares body, then post_id |
| Scenarios.DeclareWithAuthor | test/simple_test.rb:51-53 | CommentWithAuthor's registry is Comment's followed by author, and Comment's own is still body and post_id |
| Scenarios.InheritanceIsolation | test/simple_test.rb:91-100 | Document does not respond and Comment does; the names are body, post_id, author for CommentWithAuthor and body, post_id for Comment |
| Scenarios.DeclareLateChild | lib/serialized_attributes/serialized_attributes.rb:50-62 | a subclass that materialised its copy before the parent's later declaration keeps a and b; one that had not yet done so sees a and c |
| Scenarios.SetOnPendingChild | lib/serialized_attributes/serialized_attributes.rb:37-39 | a record of a subclass nobody has asked yet assigns a, and the subclass's memo is still empty |
| Scenarios.SetterLeavesCopyPending | lib/serialized_attributes/serialized_attributes.rb:37-39 | after that assignment the parent declares c, and the subclass reports a, c |
| Scenarios.NewChain | lib/serialized_attributes/serialized_attributes.rb:51-58 | A declares a, B < A and C < B are unused; a first access of C would copy through C and B and give A's registry |
| Scenarios.AccessThroughMiddle | lib/serialized_attributes/serialized_attributes.rb:51-58 | asking C for its names memoises A's registry in both C and B |
| Scenarios.DeclareTopLate | lib/serialized_attributes/serialized_attributes.rb:50-62 | A then declares z; A's memo holds a, z while B's and C's still hold a |
| Scenarios.CopyThroughMemoises | lib/serialized_attributes/serialized_attributes.rb:50-62 | A, B and C report a, z / a / a |
| Scenarios.CopyOnFirstAccess | lib/serialized_attributes/serialized_attributes.rb:50-62 | the names reported by the parent, the early subclass and the late subclass are a, c / a, b / a, c |
| Scenarios.DeclareSprocket | test/simple_test.rb:78-84 | Sprocket's registry is in_motion (boolean) then size (integer), and only size is mass-assignable |
| Scenarios.SprocketAttributes | test/simple_test.rb:130-138 | class and instance both report in_motion and size; size is mass-assignable and in_motion is not |
| Scenarios.SetAndGet | lib/serialized_attributes/serialized_attributes.rb:37-43 | assigning a registered attribute and reading it gives the cast of the assigned value on the same record |
| Scenarios.SetAndAsk | lib/serialized_attributes/serialized_attributes.rb:45 | assigning a boolean attribute and asking its predicate gives the cast of the assigned boolean |
| Scenarios.SprocketSize | test/simple_test.rb:124-128 | size reads back 99 after being assigned 99 |
| Scenarios.BooleanPredicate | test/simple_test.rb:153-162 | in_motion? answers true, then false, after each assignment; size has no predicate |
| Scenarios.NullColumnBackfill | test/simple_test.rb:102-111 | a row with a nil column loads custom_field as its default |
| Scenarios.StringAttributeRegistry | test/simple_test.rb:59-69 | a class declaring one String attribute with a default (ModelAfter, ModelSecond) has that one name, of kind string, with that default |
| Scenarios.RemovedCustomField | test/simple_test.rb:113-122 | a row saved by ModelAfter, loaded and saved again by ModelSecond, ends with a column holding custom_field_renamed only |
| Scenarios.DeclareModelSecond | test/simple_test.rb:65-69 | the declared class presents ModelSecond's registry |
| Scenarios.ModelSecondDefaults | test/simple_test.rb:140-151 | on values: a new ModelSecond row reads "new default value"; packing it succeeds and stores exactly that value under custom_field_renamed; unpacking the saved row succeeds and reads the same value again |
| Scenarios.Reload | lib/serialized_attributes/serialized_attributes.rb:17-21 | a saved row instantiated by a class and then read gives the getter of that class's registry applied to the unpacked row |
| Scenarios.CreateModelSecond | test/simple_test.rb:140-148 | a new ModelSecond record reads "new default value", and saving it gives the packed row, whose column holds exactly that value under custom_field_renamed |
| Scenarios.DefaultValues | test/simple_test.rb:140-151 | a new ModelSecond record, and one saved and reloaded, read "new default value" |
| Scenarios.LegacyTable | lib/serialized_attributes/serialized_attributes.rb:75-97 | on a table without the column unpack passes, the pack as written fails with NoMethodError, and the corrected pack passes and changes nothing |

## Left out

- ActiveRecord plumbing is not modelled because it is framework code:
  - `instantiate` (lines 17-21) and `create_or_update` (lines 66-69) only call unpack and pack around ActiveRecord's own work. Scenarios.Reload stands for `instantiate` followed by a read: it builds the record from the saved row and unpacks it;
  - `serialize ... Hash` and its YAML codec (line 11): the codec is the identity on values;
  - `cattr_accessor` (lines 9-10): the column name is the constant `serialized_attributes`.
- The test suite's tables name the column `serialized_attributes_data`, while the library sets `serialized_attributes` (line 10). The model follows the library.
- `Column#type_cast` is a parameter of the model; what ActiveRecord does for each kind is not modelled.
- `Column.new` was given the default at line 35. Any conversion of that default by ActiveRecord is not modelled; the registry holds the default as declared.
- `attr_accessible` enforcement is not modelled. The model keeps only the set of names this library passes to it. A whitelist inherited from a superclass and the names other code passes are not modelled.
- The metaprogramming (`define_method`, `alias_method`) is not modelled. The getter, setter and predicate are indexed by name.
- Lifecycle.Fetch: the generated getter reads its default from the `options` captured when it was defined. The model reads it from the class's registry. The two differ only when a parent re-declares a name after a subclass has copied the parent's registry.
- Records.Record.Set: a setter inherited from a parent that declared the name after the subclass copied its registry still writes the field in Ruby. The model reports it unknown, because it decides whether an accessor exists from the class's own registry.
- Lifecycle.Assign: the same gap as Records.Record.Set; its "an unregistered name has no setter" is stated of the class's own registry, not of the methods Ruby has generated or inherited.
- Lifecycle.Query: `alias_method` at line 45 defines `name?` once and for ever, as a copy of the getter as it was at the first declaration. After `attribute :x, Boolean` and then `attribute :x, String`, Ruby still has `x?`. It answers what the first getter did: the field, or the first declaration's default when the record has no field, cast with the kind now registered. A subclass that redeclares an inherited boolean as another kind keeps the inherited `x?` in the same way. The model reports `x?` unknown in both cases, because it gives a name a predicate only while its current registered kind is boolean. The same holds for Records.Record.Predicate, which returns `Query`, and for Scenarios.SetAndAsk, which relies on it.
- Records.Record.Get: a getter that `define_method` put on an ancestor is inherited by the class even when the class's own memo lacks the name: the ancestor declared it after the class copied, or after a superclass the class copies from had filled its memo. Calling that getter in Ruby reads the class registry at line 42, through lines 101-103, 51 and 58, so it memoises the class and the superclasses its copy goes through before it raises on `nil.type_cast`. The model reports the getter unknown and leaves every memo unchanged, so a later declaration in a superclass can still reach the class in the model when in Ruby it no longer does.
- Records.Record.Predicate: the same gap as Records.Record.Get, for a boolean alias that line 45 put on an ancestor.
- Lifecycle.Packed, Lifecycle.PackedAsWritten, Records.Record.Pack, Records.Record.PackAsWritten: each requires that no attribute is registered under the column's own name. Such an attribute would make the getters read the Hash that pack is writing, which a value model cannot express. Unpack is modelled even then.
- In Ruby the Hash that pack and unpack work on is the object stored in the column, and `slice!` mutates it in place. The model stores the resulting Hash value back into the record instead.
- `Hash` entry order inside the column is not modelled; the column is a map.
- `send(key)` at line 92 is modelled as the generated getter. A user method that overrides the getter is not modelled.
- Validations, `belongs_to`, the database connection and the migrations of the test suite are not modelled; they are outside the library.

## Findings

| source | as written | input that shows it | evidently intended | confidence | as-written member | corrected member |
|---|---|---|---|---|---|---|
| lib/serialized_attributes/serialized_attributes.rb:96 | `attributes.slice!` stands after the `if` that binds `attributes`. On a record without the column the local is nil, and `slice!` raises NoMethodError. Lifecycle.PackWithoutColumn and Scenarios.LegacyTable exhibit it. | any save of a record whose table has no `serialized_attributes` column. The test suite's tables have only a `serialized_attributes_data` column (test/simple_test.rb lines 13 and 21), while line 10 sets `serialized_attributes`. If the suite ran against this file, its saves (test/simple_test.rb lines 116, 118, 126 and 147) would reach line 96 with `attributes` nil. The suite loads `./lib/serialized_attributes` (test/simple_test.rb line 6), which may be another version of the library. In the model, a row such as `{"id" => 1, "name" => "legacy"}` shows it | the slice sits inside the guard, as it does in unpack (line 83), so the record is saved unchanged; Lifecycle.PackWritesRegistry and Lifecycle.PackIdempotent are proved of the corrected pack, which Records.Record.Pack implements | not executed | Lifecycle.PackedAsWritten | Lifecycle.Packed |
