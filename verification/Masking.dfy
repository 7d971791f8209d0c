/**
 Masking is non-interference: what lies under a sensitive key or field cannot influence the
 sanitized payload, its budget or its omission counts. Neither can the addresses of references.
 */
module Masking {
  import opened Lex
  import opened Configurations
  import opened Payload
  import opened Budget
  import opened Output
  import opened Sanitizers

  /** Cells of one payload and the cells of the other that play the same part. */
  type Pairing = set<(CellId, CellId)>

  /** The values agree wherever the sanitizer may look. `pairs` relates the references in them. */
  ghost predicate Alike(configuration: Configuration, pairs: Pairing, h: Heap, h': Heap, v: Value, v': Value) {
    match v
    case Ref(cell) =>
      v'.Ref? && ((cell !in h && v'.cell !in h') || (cell, v'.cell) in pairs)
    case Marshaled(typeName, decoded) =>
      && v'.Marshaled?
      && v'.typeName == typeName
      && decoded.None? == v'.decoded.None?
      && (decoded.Some? ==> Alike(configuration, pairs, h, h', decoded.value, v'.decoded.value))
    case GoArray(items) =>
      && v'.GoArray?
      && |items| == |v'.items|
      && forall i :: 0 <= i < |items| ==> Alike(configuration, pairs, h, h', items[i], v'.items[i])
    case Struct(fields) =>
      && v'.Struct?
      && |fields| == |v'.fields|
      && forall i :: 0 <= i < |fields| ==>
           && SameField(fields[i], v'.fields[i])
           && (configuration.sensitive(FieldName(fields[i]))
               || Alike(configuration, pairs, h, h', fields[i].value, v'.fields[i].value))
    case _ => v == v'
  }

  /** An omitted zero field is visible even if it is sensitive, so those must agree on being zero. */
  predicate SameField(f: Field, f': Field) {
    && f' == f.(value := f'.value, zero := f'.zero)
    && (f.omitEmpty ==> f.zero == f'.zero)
  }

  ghost predicate NodesAlike(configuration: Configuration, pairs: Pairing, h: Heap, h': Heap, n: Node, n': Node) {
    match n
    case Pointee(value) => n'.Pointee? && Alike(configuration, pairs, h, h', value, n'.value)
    case OtherMap(typeName, decoded) =>
      && n'.OtherMap?
      && n'.typeName == typeName
      && decoded.None? == n'.decoded.None?
      && (decoded.Some? ==> Alike(configuration, pairs, h, h', decoded.value, n'.decoded.value))
    case StringMap(entries) =>
      && n'.StringMap?
      && entries.Keys == n'.entries.Keys
      && forall key :: key in entries && !configuration.sensitive(key) ==>
           Alike(configuration, pairs, h, h', entries[key], n'.entries[key])
    case Slice(items) =>
      && n'.Slice?
      && |items| == |n'.items|
      && forall i :: 0 <= i < |items| ==> Alike(configuration, pairs, h, h', items[i], n'.items[i])
  }

  ghost predicate HeapsAlike(configuration: Configuration, pairs: Pairing, h: Heap, h': Heap) {
    && (forall p :: p in pairs ==>
         p.0 in h && p.1 in h' && NodesAlike(configuration, pairs, h, h', h[p.0].node, h'[p.1].node))
    && (forall p, q :: p in pairs && q in pairs ==> (h[p.0].visit == h[q.0].visit <==> h'[p.1].visit == h'[q.1].visit))
  }

  ghost predicate PathsAlike(pairs: Pairing, h: Heap, h': Heap, path: set<Visit>, path': set<Visit>) {
    forall p :: p in pairs && p.0 in h && p.1 in h' ==> (h[p.0].visit in path <==> h'[p.1].visit in path')
  }

  ghost predicate SlotsAlike(
    configuration: Configuration, pairs: Pairing, h: Heap, h': Heap, slots: seq<Slot>, slots': seq<Slot>) {
    && |slots| == |slots'|
    && forall i :: 0 <= i < |slots| ==>
         && slots[i].place == slots'[i].place
         && (Secret(configuration, slots[i].place)
             || Alike(configuration, pairs, h, h', slots[i].value, slots'[i].value))
  }

  lemma ListSlotsAlike(configuration: Configuration, pairs: Pairing, h: Heap, h': Heap, items: seq<Value>, items': seq<Value>)
    requires |items| == |items'|
    requires forall i :: 0 <= i < |items| ==> Alike(configuration, pairs, h, h', items[i], items'[i])
    ensures SlotsAlike(configuration, pairs, h, h',
                       Shown(configuration, ListSlots(items)), Shown(configuration, ListSlots(items')))
  {
    hide Alike;
  }

  lemma MapSlotsAlike(
    configuration: Configuration, pairs: Pairing, h: Heap, h': Heap,
    entries: map<string, Value>, entries': map<string, Value>)
    requires entries.Keys == entries'.Keys
    requires forall key :: key in entries && !configuration.sensitive(key) ==>
               Alike(configuration, pairs, h, h', entries[key], entries'[key])
    ensures SlotsAlike(configuration, pairs, h, h', MapSlots(entries), MapSlots(entries'))
  {
    hide Alike, SortedKeys, Less;
    var keys := SortedKeys(entries.Keys);
    assert forall i :: 0 <= i < |keys| ==> keys[i] in keys;
  }

  ghost predicate FieldAlike(configuration: Configuration, pairs: Pairing, h: Heap, h': Heap, f: Field, f': Field) {
    && SameField(f, f')
    && (configuration.sensitive(FieldName(f)) || Alike(configuration, pairs, h, h', f.value, f'.value))
  }

  lemma AlikeFieldsShareAName(configuration: Configuration, pairs: Pairing, h: Heap, h': Heap, f: Field, f': Field)
    requires FieldAlike(configuration, pairs, h, h', f, f')
    ensures FieldName(f) == FieldName(f') && Included(f) == Included(f')
  {
    hide Alike;
  }

  lemma {:induction false} FieldsByNameAlike(
    configuration: Configuration, pairs: Pairing, h: Heap, h': Heap, fields: seq<Field>, fields': seq<Field>)
    requires |fields| == |fields'|
    requires forall i :: 0 <= i < |fields| ==> FieldAlike(configuration, pairs, h, h', fields[i], fields'[i])
    ensures FieldsByName(fields).Keys == FieldsByName(fields').Keys
    ensures forall name :: name in FieldsByName(fields) ==>
              FieldAlike(configuration, pairs, h, h', FieldsByName(fields)[name], FieldsByName(fields')[name])
  {
    hide FieldAlike, SameField, Included, FieldName;
    if fields != [] {
      var last := |fields| - 1;
      AlikeFieldsShareAName(configuration, pairs, h, h', fields[last], fields'[last]);
      FieldsByNameAlike(configuration, pairs, h, h', fields[..last], fields'[..last]);
    }
  }

  lemma {:induction false} WithoutEmptyAlike(keys: seq<string>, byName: map<string, Field>, byName': map<string, Field>)
    requires byName.Keys == byName'.Keys
    requires forall key :: key in keys ==> key in byName && SameField(byName[key], byName'[key])
    ensures WithoutEmpty(keys, byName) == WithoutEmpty(keys, byName')
  {
    if keys != [] {
      assert keys[|keys| - 1] in keys;
      WithoutEmptyAlike(keys[..|keys| - 1], byName, byName');
    }
  }

  lemma StructSlotsAlike(
    configuration: Configuration, pairs: Pairing, h: Heap, h': Heap, fields: seq<Field>, fields': seq<Field>)
    requires |fields| == |fields'|
    requires forall i :: 0 <= i < |fields| ==> FieldAlike(configuration, pairs, h, h', fields[i], fields'[i])
    ensures SlotsAlike(configuration, pairs, h, h', StructSlots(fields), StructSlots(fields'))
  {
    hide Alike, FieldsByName, WithoutEmpty, SortedKeys, StructKeys;
    FieldsByNameAlike(configuration, pairs, h, h', fields, fields');
    var byName, byName' := FieldsByName(fields), FieldsByName(fields');
    StructKeysAlike(configuration, pairs, h, h', fields, fields');
    var keys := StructKeys(fields);
    forall i | 0 <= i < |keys| ensures FieldAlike(configuration, pairs, h, h', byName[keys[i]], byName'[keys[i]]) {
      assert keys[i] in keys;
    }
  }

  lemma StructKeysAlike(
    configuration: Configuration, pairs: Pairing, h: Heap, h': Heap, fields: seq<Field>, fields': seq<Field>)
    requires |fields| == |fields'|
    requires forall i :: 0 <= i < |fields| ==> FieldAlike(configuration, pairs, h, h', fields[i], fields'[i])
    ensures StructKeys(fields) == StructKeys(fields')
  {
    hide Alike, FieldsByName, WithoutEmpty, SortedKeys;
    FieldsByNameAlike(configuration, pairs, h, h', fields, fields');
    var byName, byName' := FieldsByName(fields), FieldsByName(fields');
    WithoutEmptyAlike(SortedKeys(byName.Keys), byName, byName');
  }

  /** Entering paired references keeps the open references paired. */
  lemma PathsStayAlike(
    configuration: Configuration, pairs: Pairing, h: Heap, h': Heap, path: set<Visit>, path': set<Visit>, p: (CellId, CellId))
    requires HeapsAlike(configuration, pairs, h, h') && PathsAlike(pairs, h, h', path, path') && p in pairs
    ensures PathsAlike(pairs, h, h', path + {h[p.0].visit}, path' + {h'[p.1].visit})
  {
    hide NodesAlike;
  }

  lemma {:induction false} AlikeValuesHaveOneMeaning(
    configuration: Configuration, pairs: Pairing, h: Heap, h': Heap,
    v: Value, v': Value, depth: nat, path: set<Visit>, path': set<Visit>)
    requires HeapsAlike(configuration, pairs, h, h') && PathsAlike(pairs, h, h', path, path')
    requires Alike(configuration, pairs, h, h', v, v')
    ensures Reference(configuration, h, v, depth, path) == Reference(configuration, h', v', depth, path')
    decreases Unseen(h, path), Height(v), 2, 0
  {
    hide HeapsAlike, PathsAlike, StringLeaf, BinaryLeaf, Kids;
    match v
    case Ref(cell) =>
      if cell in h || v'.cell in h' {
        AlikeReferencesHaveOneMeaning(configuration, pairs, h, h', (cell, v'.cell), depth, path, path');
      }
    case Marshaled(_, decoded) =>
      if decoded.Some? {
        AlikeValuesHaveOneMeaning(configuration, pairs, h, h', decoded.value, v'.decoded.value, depth, path, path');
      }
    case GoArray(items) =>
      ListSlotsAlike(configuration, pairs, h, h', items, v'.items);
      var slots, slots' := Shown(configuration, ListSlots(items)), Shown(configuration, ListSlots(v'.items));
      AlikeSlotsHaveOneMeaning(configuration, pairs, h, h', slots, slots', depth + 1, path, path', Height(v), Height(v'));
    case Struct(fields) =>
      AlikeStructsHaveOneMeaning(configuration, pairs, h, h', fields, v'.fields, depth, path, path');
    case _ =>
  }

  lemma {:induction false} AlikeStructsHaveOneMeaning(
    configuration: Configuration, pairs: Pairing, h: Heap, h': Heap,
    fields: seq<Field>, fields': seq<Field>, depth: nat, path: set<Visit>, path': set<Visit>)
    requires HeapsAlike(configuration, pairs, h, h') && PathsAlike(pairs, h, h', path, path')
    requires Alike(configuration, pairs, h, h', Struct(fields), Struct(fields'))
    ensures Reference(configuration, h, Struct(fields), depth, path) == Reference(configuration, h', Struct(fields'), depth, path')
    decreases Unseen(h, path), Height(Struct(fields)), 1, 0
  {
    hide HeapsAlike, PathsAlike, Kids, StructSlots;
    forall i | 0 <= i < |fields| ensures FieldAlike(configuration, pairs, h, h', fields[i], fields'[i]) {}
    StructSlotsAlike(configuration, pairs, h, h', fields, fields');
    var bound, bound' := Height(Struct(fields)), Height(Struct(fields'));
    StructSlotsBelow(fields, bound);
    StructSlotsBelow(fields', bound');
    AlikeSlotsHaveOneMeaning(configuration, pairs, h, h', StructSlots(fields), StructSlots(fields'), depth + 1, path, path', bound, bound');
  }

  lemma {:induction false} AlikeReferencesHaveOneMeaning(
    configuration: Configuration, pairs: Pairing, h: Heap, h': Heap,
    p: (CellId, CellId), depth: nat, path: set<Visit>, path': set<Visit>)
    requires HeapsAlike(configuration, pairs, h, h') && PathsAlike(pairs, h, h', path, path') && p in pairs
    ensures Reference(configuration, h, Ref(p.0), depth, path) == Reference(configuration, h', Ref(p.1), depth, path')
    decreases Unseen(h, path), 0, 0, 0
  {
    hide Alike, NodesAlike, Inside;
    if h[p.0].visit !in path {
      PathsStayAlike(configuration, pairs, h, h', path, path', p);
      EnteringLeavesLess(h, p.0, path);
      AlikeNodesHaveOneMeaning(configuration, pairs, h, h', h[p.0].node, h'[p.1].node, depth,
                               path + {h[p.0].visit}, path' + {h'[p.1].visit});
    }
  }

  lemma {:induction false} AlikeNodesHaveOneMeaning(
    configuration: Configuration, pairs: Pairing, h: Heap, h': Heap,
    n: Node, n': Node, depth: nat, path: set<Visit>, path': set<Visit>)
    requires HeapsAlike(configuration, pairs, h, h') && PathsAlike(pairs, h, h', path, path')
    requires NodesAlike(configuration, pairs, h, h', n, n')
    ensures Inside(configuration, h, n, depth, path) == Inside(configuration, h', n', depth, path')
    decreases Unseen(h, path), NodeHeight(n), 3, 0
  {
    hide HeapsAlike, PathsAlike, Alike, Reference, Kids, Unseen;
    match n
    case Pointee(value) => AlikeValuesHaveOneMeaning(configuration, pairs, h, h', value, n'.value, depth, path, path');
    case OtherMap(_, decoded) =>
      if decoded.Some? {
        AlikeValuesHaveOneMeaning(configuration, pairs, h, h', decoded.value, n'.decoded.value, depth, path, path');
      }
    case StringMap(entries) =>
      MapSlotsAlike(configuration, pairs, h, h', entries, n'.entries);
      var slots, slots' := MapSlots(entries), MapSlots(n'.entries);
      AlikeSlotsHaveOneMeaning(configuration, pairs, h, h', slots, slots', depth + 1, path, path',
                               SlotsHeight(slots), SlotsHeight(slots'));
    case Slice(items) =>
      ListSlotsAlike(configuration, pairs, h, h', items, n'.items);
      var slots, slots' := ListSlots(items), ListSlots(n'.items);
      AlikeSlotsHaveOneMeaning(configuration, pairs, h, h', Shown(configuration, slots), Shown(configuration, slots'),
                               depth + 1, path, path', SlotsHeight(slots), SlotsHeight(slots'));
  }

  lemma {:induction false} AlikeSlotsHaveOneMeaning(
    configuration: Configuration, pairs: Pairing, h: Heap, h': Heap,
    slots: seq<Slot>, slots': seq<Slot>, depth: nat, path: set<Visit>, path': set<Visit>, bound: nat, bound': nat)
    requires HeapsAlike(configuration, pairs, h, h') && PathsAlike(pairs, h, h', path, path')
    requires SlotsAlike(configuration, pairs, h, h', slots, slots') && Below(slots, bound) && Below(slots', bound')
    ensures Kids(configuration, h, slots, depth, path, bound) == Kids(configuration, h', slots', depth, path', bound')
    decreases Unseen(h, path), bound, 0, |slots|
  {
    hide HeapsAlike, PathsAlike, Alike;
    if slots != [] {
      var last := |slots| - 1;
      AlikeSlotsHaveOneMeaning(configuration, pairs, h, h', slots[..last], slots'[..last], depth, path, path', bound, bound');
      if !Secret(configuration, slots[last].place) {
        AlikeValuesHaveOneMeaning(configuration, pairs, h, h', slots[last].value, slots'[last].value, depth, path, path');
      }
    }
  }

  /** The theorem: payloads that agree outside their secrets are sanitized to the same result. */
  lemma MaskingIsNonInterference(
    configuration: Configuration, pairs: Pairing, h: Heap, h': Heap, root: CellId, root': CellId)
    requires HeapsAlike(configuration, pairs, h, h') && (root, root') in pairs
    ensures Sanitized(configuration, h, root) == Sanitized(configuration, h', root')
  {
    PathsStayAlike(configuration, pairs, h, h', {}, {}, (root, root'));
    assert {} + {h[root].visit} == {h[root].visit} && {} + {h'[root'].visit} == {h'[root'].visit};
    AlikeNodesHaveOneMeaning(configuration, pairs, h, h', h[root].node, h'[root'].node, 1,
                             {h[root].visit}, {h'[root'].visit});
  }
}
