/** The contents of one class's `@serialized_attributes_definition` hash. */
module Definitions {
  import opened Values
  import opened SqlTypes

  /** One registry entry: `Column.new(name, options[:default], type)` (line 35). */
  datatype Descriptor = Descriptor(name: string, default: Value, kind: Token)

  /** The registry hash: its keys in insertion order, and the descriptor under each key. */
  datatype Registry = Registry(keys: seq<string>, defs: map<string, Descriptor>) {

    /** Every key occurs once, the key sequence and the table agree, and each
        descriptor is filed under its own name. */
    ghost predicate Valid() {
      && (forall i, j :: 0 <= i < j < |keys| ==> keys[i] != keys[j])
      && (forall k :: k in defs <==> k in keys)
      && (forall k :: k in defs ==> defs[k].name == k)
    }

    /** The registered names as a set. */
    function Names(): (r: set<string>) {
      defs.Keys
    }
  }

  type WfRegistry = r: Registry | r.Valid() witness Registry([], map[])

  /** The `{}` a class starts from when no ancestor has a registry (line 60). */
  const Empty: WfRegistry := Registry([], map[])

  /** `serialized_attributes_definition[name] = descriptor` (line 35): store or overwrite
      the entry; a new name goes to the end of the order, an overwritten one keeps its place. */
  function Define(reg: WfRegistry, d: Descriptor): (r: WfRegistry)
    ensures r.Names() == reg.Names() + {d.name}
    ensures d.name in r.defs && r.defs[d.name] == d
    ensures forall k :: k in reg.defs && k != d.name ==> r.defs[k] == reg.defs[k]
    ensures d.name in reg.defs ==> r.keys == reg.keys
    ensures d.name !in reg.defs ==> r.keys == reg.keys + [d.name]
  {
    var keys := if d.name in reg.defs then reg.keys else reg.keys + [d.name];
    var r := Registry(keys, reg.defs[d.name := d]);
    assert forall k :: k in r.defs <==> k in r.keys;
    r
  }

  /** The names a class reports (`keys`, line 28) list each registered name exactly once. */
  lemma KeysEnumerateNames(reg: WfRegistry)
    ensures forall k :: k in reg.keys <==> k in reg.Names()
    ensures |reg.keys| == |reg.Names()|
  {
    DistinctCardinality(reg.keys);
    assert (set k | k in reg.keys) == reg.Names();
  }

  lemma {:induction false} DistinctCardinality(s: seq<string>)
    requires forall i, j :: 0 <= i < j < |s| ==> s[i] != s[j]
    ensures |set k | k in s| == |s|
  {
    if s != [] {
      var init := s[..|s| - 1];
      DistinctCardinality(init);
      assert (set k | k in s) == (set k | k in init) + {s[|s| - 1]};
      assert s[|s| - 1] !in init;
    }
  }
}
