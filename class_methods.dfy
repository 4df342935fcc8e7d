/** The class-level half of lib/serialized_attributes/serialized_attributes.rb:
    `included` (lines 3-13) and `ClassMethods` (lines 15-64). */
module ClassMethods {
  import opened Values
  import opened SqlTypes
  import opened Definitions

  /** A Ruby model class, as far as this library sees it. */
  class ModelClass {
    /** The superclass; `null` for a class whose superclass is outside the model. */
    const parent: ModelClass?
    ghost const depth: nat
    /** Every proper ancestor of the class. */
    ghost const Ancestors: set<ModelClass>

    /** `include SerializedAttributes` ran its body for this very class (lines 6-12). */
    var includesModule: bool
    /** `@serialized_attributes_definition`: nil until first accessed (line 51). */
    var definition: Option<WfRegistry>
    /** The names this library passed to `attr_accessible` for the class (line 47). */
    var accessible: set<string>

    /** The superclass chain is finite and `Ancestors` lists it. */
    ghost predicate Valid()
      ensures Valid() ==> this !in Ancestors
      ensures Valid() ==> forall a :: a in Ancestors ==> a.depth < depth && a.Valid() && a.Ancestors <= Ancestors
      decreases depth
    {
      if parent == null then Ancestors == {}
      else parent.depth < depth && Ancestors == {parent} + parent.Ancestors && parent.Valid()
    }

    /** A new class, `class C < parent`. */
    constructor (parent: ModelClass?)
      requires parent != null ==> parent.Valid()
      ensures Valid() && this.parent == parent
      ensures Ancestors == if parent == null then {} else {parent} + parent.Ancestors
      ensures !includesModule && definition == None && accessible == {}
    {
      this.parent := parent;
      depth := if parent == null then 0 else parent.depth + 1;
      Ancestors := if parent == null then {} else {parent} + parent.Ancestors;
      includesModule := false;
      definition := None;
      accessible := {};
    }

    /** `respond_to?(:serialized_attributes_definition)`: the class or one of its
        ancestors included the module. */
    predicate RespondsToDefinition()
      requires Valid()
      reads ({this} + Ancestors)`includesModule
      ensures RespondsToDefinition() <==> includesModule || exists a :: a in Ancestors && a.includesModule
      decreases depth
    {
      includesModule || (parent != null && parent.RespondsToDefinition())
    }

    /** The registry the class presents if it is asked for it now: its own once
        materialised, otherwise what it would copy from the nearest ancestor (lines 50-62). */
    function Materialised(): (r: WfRegistry)
      requires Valid()
      reads ({this} + Ancestors)`includesModule, ({this} + Ancestors)`definition
      ensures definition.Some? ==> r == definition.value
      ensures definition.None? && parent != null && parent.RespondsToDefinition() ==> r == parent.Materialised()
      ensures definition.None? && (parent == null || !parent.RespondsToDefinition()) ==> r == Empty
      decreases depth
    {
      if definition.Some? then definition.value
      else if parent != null && parent.RespondsToDefinition() then parent.Materialised()
      else Empty
    }

    /** What a class presents is `{}` or a registry that it or one of its ancestors has
        memoised: nothing else is ever copied (lines 51 and 58). */
    lemma {:induction false} MaterialisedProvenance()
      requires Valid()
      ensures Materialised() == Empty || definition == Some(Materialised())
              || exists a :: a in Ancestors && a.definition == Some(Materialised())
      decreases depth
    {
      if definition.None? && parent != null && parent.RespondsToDefinition() {
        parent.MaterialisedProvenance();
      }
    }

    /** The classes a first access of this class memoises (lines 51 and 58): the class
        itself unless its memo is filled, then each superclass the copy goes through, up
        to one whose memo is filled or that does not respond. */
    ghost function CopyChain(): (r: set<ModelClass>)
      requires Valid()
      reads ({this} + Ancestors)`includesModule, ({this} + Ancestors)`definition
      ensures this in r <==> definition.None?
      ensures r <= {this} + Ancestors
      decreases depth
    {
      if definition.Some? then {}
      else if parent != null && parent.RespondsToDefinition() then {this} + parent.CopyChain()
      else {this}
    }

    /** What an access of this class leaves in its ancestors' memos: each ancestor on the
        old copy chain now holds the registry this class presented, and every other
        ancestor's memo is as it was. */
    twostate predicate AncestorsMemoised()
      requires Valid()
      reads Ancestors`definition
    {
      forall a :: a in Ancestors ==>
        a.definition == if a in old(CopyChain()) then Some(old(Materialised())) else old(a.definition)
    }

    /** `self.included(base)`: a class that already responds (it or an ancestor
        included the module) is left as it is (line 4). */
    method Include()
      requires Valid()
      modifies this`includesModule
      ensures includesModule == (old(includesModule) || !old(RespondsToDefinition()))
      ensures RespondsToDefinition()
    {
      if !RespondsToDefinition() {
        includesModule := true;
      }
    }

    /** `serialized_attributes_definition` (lines 50-52) with
        `load_parent_serialized_attributes_definition` (lines 56-62): memoised on first
        access as a copy of the superclass's registry, or `{}`. Asking never changes
        what any class on the chain presents. */
    method Definition() returns (reg: WfRegistry)
      requires Valid() && RespondsToDefinition()
      modifies ({this} + Ancestors)`definition
      ensures definition == Some(reg)
      ensures reg == old(Materialised())
      ensures AncestorsMemoised()
      ensures forall a :: a in Ancestors ==> a.Materialised() == old(a.Materialised())
      decreases depth
    {
      if definition.Some? {
        return definition.value;
      }
      if parent != null && parent.RespondsToDefinition() {
        reg := parent.Definition();
      } else {
        reg := Empty;
      }
      Store(reg);
    }

    /** The assignment `@serialized_attributes_definition = ...`: it touches this
        class's slot only, so no ancestor presents anything new. */
    method Store(reg: WfRegistry)
      requires Valid()
      modifies this`definition
      ensures definition == Some(reg)
      ensures forall a :: a in Ancestors ==> a.Materialised() == old(a.Materialised())
    {
      definition := Some(reg);
    }

    /** `attribute(name, type, options)` (lines 31-48): file the descriptor in this
        class's registry and, when `:attr_accessible` is given, mark the name mass-assignable.
        The registries of the ancestors are left as they were. */
    method Attribute(name: string, t: Token, default: Value, attrAccessible: bool)
      requires Valid() && RespondsToDefinition()
      modifies ({this} + Ancestors)`definition, this`accessible
      ensures definition == Some(Define(old(Materialised()), Descriptor(name, default, TypeToSqlType(t))))
      ensures Materialised() == definition.value
      ensures AncestorsMemoised()
      ensures accessible == if attrAccessible then old(accessible) + {name} else old(accessible)
      ensures forall a :: a in Ancestors ==> a.Materialised() == old(a.Materialised())
    {
      var kind := TypeToSqlType(t);
      var reg := Definition();
      Store(Define(reg, Descriptor(name, default, kind)));
      if attrAccessible {
        accessible := accessible + {name};
      }
    }

    /** `accessible_attribute` (lines 23-25): `attribute` with `:attr_accessible` forced on. */
    method AccessibleAttribute(name: string, t: Token, default: Value)
      requires Valid() && RespondsToDefinition()
      modifies ({this} + Ancestors)`definition, this`accessible
      ensures definition == Some(Define(old(Materialised()), Descriptor(name, default, TypeToSqlType(t))))
      ensures Materialised() == definition.value
      ensures AncestorsMemoised()
      ensures accessible == old(accessible) + {name}
      ensures forall a :: a in Ancestors ==> a.Materialised() == old(a.Materialised())
    {
      Attribute(name, t, default, true);
    }

    /** `serialized_attribute_names` (lines 27-29): the registry's keys, each once. */
    method SerializedAttributeNames() returns (names: seq<string>)
      requires Valid() && RespondsToDefinition()
      modifies ({this} + Ancestors)`definition
      ensures names == Materialised().keys
      ensures forall k :: k in names <==> k in Materialised().defs
      ensures forall i, j :: 0 <= i < j < |names| ==> names[i] != names[j]
      ensures definition == Some(old(Materialised())) && AncestorsMemoised()
      ensures Materialised() == old(Materialised())
      ensures forall a :: a in Ancestors ==> a.Materialised() == old(a.Materialised())
    {
      var reg := Definition();
      names := reg.keys;
    }
  }
}
