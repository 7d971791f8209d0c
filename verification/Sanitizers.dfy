/** The sanitizer as the source writes it: loops over a shared budget and a set of open references. */
module Sanitizers {
  import opened Lex
  import opened Keys
  import opened Configurations
  import opened Payload
  import opened Budget
  import opened Output

  class SanitizeState {
    var budget: nat
    var seen: set<Visit>

    constructor (budget: nat)
      ensures this.budget == budget && seen == {}
    {
      this.budget := budget;
      seen := {};
    }
  }

  function Left(budget: nat, spent: nat): nat {
    if spent <= budget then budget - spent else 0
  }

  /** The whole payload: the root map's tree, with the root already on the path, cut to the budget. */
  ghost function Sanitized(configuration: Configuration, heap: Heap, root: CellId): Out {
    if root !in heap then Data(map[], 0)
    else
      var tree := Inside(configuration, heap, heap[root].node, 1, {heap[root].visit});
      Emit(configuration, Cut(tree, configuration.maxPayloadNodes))
  }

  class Sanitizer {
    const configuration: Configuration

    constructor (configuration: Configuration)
      ensures this.configuration == configuration
    {
      this.configuration := configuration;
    }

    /** What one traversal leaves behind: the cut of the reference tree, and the budget it did not need. */
    ghost predicate Sanitizes(out: Out, tree: Tree, before: nat, after: nat) {
      out == Emit(configuration, Cut(tree, before)) && after == Left(before, Nodes(tree))
    }

    /** The root is a map or nil; nil gives an empty payload. */
    method Sanitize(heap: Heap, root: CellId) returns (out: Out)
      requires root in heap ==> heap[root].node.StringMap?
      ensures out == Sanitized(configuration, heap, root)
    {
      if root !in heap {
        return Data(map[], 0);
      }
      var state := new SanitizeState(configuration.maxPayloadNodes);
      state.seen := state.seen + {heap[root].visit};
      assert state.seen == {heap[root].visit};
      out := NormalizeStringMap(heap, heap[root].node.entries, 1, state);
    }

    method Normalize(heap: Heap, value: Value, depth: nat, state: SanitizeState) returns (out: Out)
      modifies state
      ensures state.seen == old(state.seen)
      ensures Sanitizes(out, Reference(configuration, heap, value, depth, old(state.seen)), old(state.budget), state.budget)
      decreases Unseen(heap, state.seen), Height(value), 3
    {
      match value
      case Nil => return Scalar(Null);
      case Prim(prim) => return Scalar(Plain(prim));
      case Str(text) => return Scalar(StringLeaf(configuration, text));
      case Bytes(bytes) => return Scalar(BinaryLeaf(bytes));
      case Ref(cell) =>
        if cell !in heap {
          return Scalar(Null);
        }
        if depth > configuration.maxDepth {
          return Scalar(MaxDepthExceeded);
        }
        var reference := heap[cell].visit;
        if reference in state.seen {
          return Scalar(CircularReference);
        }
        EnteringLeavesLess(heap, cell, state.seen);
        ghost var before := state.seen;
        state.seen := state.seen + {reference};
        out := NormalizeNode(heap, heap[cell].node, depth, state);
        state.seen := state.seen - {reference};
        assert state.seen == before;
      case _ =>
        if depth > configuration.maxDepth {
          return Scalar(MaxDepthExceeded);
        }
        out := NormalizeInline(heap, value, depth, state);
    }

    /** Marshalers, stringers, arrays, structs and unsupported kinds, none of which is a reference. */
    method NormalizeInline(heap: Heap, value: Value, depth: nat, state: SanitizeState) returns (out: Out)
      requires value.Opaque? || value.Texted? || value.Marshaled? || value.GoArray? || value.Struct?
      requires depth <= configuration.maxDepth
      modifies state
      ensures state.seen == old(state.seen)
      ensures Sanitizes(out, Reference(configuration, heap, value, depth, old(state.seen)), old(state.budget), state.budget)
      decreases Unseen(heap, state.seen), Height(value), 2
    {
      match value
      case Opaque(typeName) => return Scalar(UnsupportedType(typeName));
      case Texted(typeName, produced) =>
        return Scalar(if produced.None? then SerializationFailed(typeName) else StringLeaf(configuration, produced.value));
      case Marshaled(typeName, decoded) =>
        if decoded.None? {
          return Scalar(SerializationFailed(typeName));
        }
        out := Normalize(heap, decoded.value, depth, state);
      case GoArray(items) => out := NormalizeSlice(heap, items, depth, state, Height(value));
      case Struct(fields) => out := NormalizeStruct(heap, fields, depth, state, Height(value));
    }

    /** The kind switch below a reference that has just been marked as open. */
    method NormalizeNode(heap: Heap, node: Node, depth: nat, state: SanitizeState) returns (out: Out)
      modifies state
      ensures state.seen == old(state.seen)
      ensures Sanitizes(out, Inside(configuration, heap, node, depth, old(state.seen)), old(state.budget), state.budget)
      decreases Unseen(heap, state.seen), NodeHeight(node), 4
    {
      match node
      case Pointee(value) => out := Normalize(heap, value, depth, state);
      case OtherMap(typeName, decoded) =>
        if decoded.None? {
          return Scalar(SerializationFailed(typeName));
        }
        out := Normalize(heap, decoded.value, depth, state);
      case StringMap(entries) => out := NormalizeStringMap(heap, entries, depth, state);
      case Slice(items) => out := NormalizeSlice(heap, items, depth, state, SlotsHeight(ListSlots(items)));
    }

    method NormalizeStringMap(heap: Heap, entries: map<string, Value>, depth: nat, state: SanitizeState) returns (out: Out)
      modifies state
      ensures state.seen == old(state.seen)
      ensures Sanitizes(out, MapTree(configuration, heap, entries, depth, old(state.seen)), old(state.budget), state.budget)
      decreases Unseen(heap, state.seen), SlotsHeight(MapSlots(entries)), 1
    {
      var slots := MapSlots(entries);
      out := NormalizeObject(heap, slots, depth, state, SlotsHeight(slots));
    }

    /** The loop that the source writes once for maps and once for structs. */
    method NormalizeObject(heap: Heap, slots: seq<Slot>, depth: nat, state: SanitizeState, ghost bound: nat)
      returns (out: Out)
      requires Below(slots, bound)
      modifies state
      ensures state.seen == old(state.seen)
      ensures Sanitizes(out, Branch(Object, Kids(configuration, heap, slots, depth + 1, old(state.seen), bound), 0),
                        old(state.budget), state.budget)
      decreases Unseen(heap, state.seen), bound, 0
    {
      hide KidOf, Reference, AssignedKey, Cut, Nodes, Unseen, Height;
      var result: map<string, Out> := map[];
      var omitted := 0;
      var index := 0;
      ghost var kids := Kids(configuration, heap, slots, depth + 1, state.seen, bound);
      while index < |slots|
        invariant 0 <= index <= |slots|
        invariant state.seen == old(state.seen)
        invariant Gathered(result, kids, index, old(state.budget), state.budget)
      {
        if state.budget <= 0 {
          omitted := |slots| - index;
          break;
        }
        ghost var left := state.budget;
        KidAt(configuration, heap, slots, depth + 1, state.seen, bound, index);
        var normalized := NormalizeEntry(heap, slots[index], depth + 1, state);
        GatherNext(result, kids, index, old(state.budget), left, normalized, state.budget);
        result := Assign(result, NameOf(slots[index].place), normalized);
        index := index + 1;
      }
      GatherDone(result, kids, index, old(state.budget), state.budget);
      out := Data(result, omitted);
    }

    method NormalizeSlice(heap: Heap, items: seq<Value>, depth: nat, state: SanitizeState, ghost bound: nat)
      returns (out: Out)
      requires Below(ListSlots(items), bound)
      modifies state
      ensures state.seen == old(state.seen)
      ensures Sanitizes(out, ListTree(configuration, heap, items, depth, old(state.seen), bound), old(state.budget), state.budget)
      decreases Unseen(heap, state.seen), bound, 0
    {
      hide KidOf, Kids, Reference, Unseen, Height, Listed, Sanitizes;
      var result: seq<Out> := [];
      var omitted := 0;
      var index := 0;
      ghost var kids := ListTree(configuration, heap, items, depth, state.seen, bound).kids;
      NothingListed(kids, state.budget);
      while index < |items|
        invariant 0 <= index <= |kids|
        invariant state.seen == old(state.seen)
        invariant Listed(result, kids, index, old(state.budget), state.budget)
      {
        if index >= configuration.maxArrayItems || state.budget <= 0 {
          omitted := |items| - index;
          break;
        }
        ghost var left := state.budget;
        assert ListSlots(items)[index] == Slot(Index(index), items[index]);
        KidAt(configuration, heap, Shown(configuration, ListSlots(items)), depth + 1, state.seen, bound, index);
        var normalized := NormalizeEntry(heap, Slot(Index(index), items[index]), depth + 1, state);
        ListNext(result, kids, index, old(state.budget), left, normalized, state.budget);
        result := result + [normalized];
        index := index + 1;
      }
      ListDone(result, kids, index, |items| - |kids|, old(state.budget), state.budget);
      out := Items(result, omitted);
    }

    method NormalizeStruct(heap: Heap, fields: seq<Field>, depth: nat, state: SanitizeState, ghost bound: nat)
      returns (out: Out)
      requires FieldsHeight(fields) < bound
      modifies state
      ensures state.seen == old(state.seen)
      ensures Sanitizes(out, StructTree(configuration, heap, fields, depth, old(state.seen), bound), old(state.budget), state.budget)
      decreases Unseen(heap, state.seen), bound, 1
    {
      hide Reference, Kids, Unseen, Height, FieldsHeight, FieldsByName, SortedKeys, WithoutEmpty;
      var byName, keys := VisibleKeys(fields);
      assert forall i :: 0 <= i < |keys| ==> keys[i] in keys;
      var slots := seq(|keys|, i requires 0 <= i < |keys| => Slot(Key(keys[i]), byName[keys[i]].value));
      assert slots == StructSlots(fields);
      out := NormalizeObject(heap, slots, depth, state, bound);
    }

    /** The fields that a struct contributes: the last one of a name, sorted, empty ones dropped. */
    method VisibleKeys(fields: seq<Field>) returns (byName: map<string, Field>, keys: seq<string>)
      ensures byName == FieldsByName(fields) && keys == StructKeys(fields)
      ensures Ascending(keys) && forall name :: name in keys <==> VisibleName(fields, name)
      ensures NamesTheLast(byName, fields)
    {
      hide Less, Ascending, NamesTheLast, VisibleName;
      byName := map[];
      for i := 0 to |fields|
        invariant byName == FieldsByName(fields[..i])
      {
        assert fields[..i + 1][..i] == fields[..i];
        if Included(fields[i]) {
          byName := byName[FieldName(fields[i]) := fields[i]];
        }
      }
      assert fields[..|fields|] == fields;
      var sorted := SortedKeys(byName.Keys);
      keys := Filtered(byName, sorted);
      FieldsByNameIsDetermined(byName, fields);
      StructKeysAreTheVisibleNames(fields, keys);
    }

    method Filtered(byName: map<string, Field>, sorted: seq<string>) returns (filtered: seq<string>)
      requires forall key :: key in sorted ==> key in byName
      ensures filtered == WithoutEmpty(sorted, byName)
    {
      filtered := [];
      for i := 0 to |sorted|
        invariant filtered == WithoutEmpty(sorted[..i], byName)
      {
        assert sorted[..i + 1][..i] == sorted[..i];
        if !(byName[sorted[i]].omitEmpty && byName[sorted[i]].zero) {
          filtered := filtered + [sorted[i]];
        }
      }
      assert sorted[..|sorted|] == sorted;
    }

    /** What all three loops do with an entry: pay for it, then redact it or descend into it. */
    method NormalizeEntry(heap: Heap, slot: Slot, depth: nat, state: SanitizeState) returns (out: Out)
      requires state.budget > 0
      modifies state
      ensures state.seen == old(state.seen)
      ensures Sanitizes(out, KidOf(configuration, heap, slot, depth, old(state.seen)).tree, old(state.budget) - 1, state.budget)
      decreases Unseen(heap, state.seen), Height(slot.value), 4
    {
      hide Reference;
      state.budget := state.budget - 1;
      if Secret(configuration, slot.place) {
        return Scalar(Redacted);
      }
      out := Normalize(heap, slot.value, depth, state);
    }

    method Assign(target: map<string, Out>, key: string, value: Out) returns (extended: map<string, Out>)
      ensures extended == target[AssignedKey(configuration.digest, configuration.maxKeyBytes, key) := value]
    {
      var bounded := NormalizeKey(configuration.digest, configuration.maxKeyBytes, key);
      if Reserved(bounded) {
        return target["_" + bounded := value];
      }
      return target[bounded := value];
    }

    // The loops' common bookkeeping

    /** The first `index` kids have all been visited, and have used up what the budget lost. */
    ghost predicate Progress(kids: seq<Kid>, index: nat, budget: nat, left: nat) {
      && index <= |kids|
      && |CutKids(kids[..index], budget)| == index
      && left == Left(budget, KidNodes(kids[..index]))
    }

    ghost predicate Gathered(result: map<string, Out>, kids: seq<Kid>, index: nat, budget: nat, left: nat) {
      Progress(kids, index, budget, left) && result == Assigned(configuration, CutKids(kids[..index], budget))
    }

    ghost predicate Listed(result: seq<Out>, kids: seq<Kid>, index: nat, budget: nat, left: nat) {
      Progress(kids, index, budget, left) && result == Emitted(configuration, CutKids(kids[..index], budget))
    }

    lemma NothingListed(kids: seq<Kid>, budget: nat)
      ensures Listed([], kids, 0, budget, budget)
    {
    }

    lemma GatherNext(result: map<string, Out>, kids: seq<Kid>, index: nat, budget: nat, left: nat, out: Out, next: nat)
      requires Gathered(result, kids, index, budget, left) && index < |kids| && left > 0
      requires Sanitizes(out, kids[index].tree, left - 1, next)
      ensures var key := AssignedKey(configuration.digest, configuration.maxKeyBytes, NameOf(kids[index].place));
              Gathered(result[key := out], kids, index + 1, budget, next)
    {
      Advance(kids, index, budget, left);
    }

    lemma ListNext(result: seq<Out>, kids: seq<Kid>, index: nat, budget: nat, left: nat, out: Out, next: nat)
      requires Listed(result, kids, index, budget, left) && index < |kids| && left > 0
      requires Sanitizes(out, kids[index].tree, left - 1, next)
      ensures Listed(result + [out], kids, index + 1, budget, next)
    {
      Advance(kids, index, budget, left);
    }

    lemma GatherDone(result: map<string, Out>, kids: seq<Kid>, index: nat, budget: nat, left: nat)
      requires Gathered(result, kids, index, budget, left)
      requires index == |kids| || left == 0
      ensures Sanitizes(Data(result, |kids| - index), Branch(Object, kids, 0), budget, left)
    {
      Finish(kids, index, budget, left);
    }

    lemma ListDone(result: seq<Out>, kids: seq<Kid>, index: nat, beyond: nat, budget: nat, left: nat)
      requires Listed(result, kids, index, budget, left)
      requires index == |kids| || left == 0
      ensures Sanitizes(Items(result, beyond + |kids| - index), Branch(List, kids, beyond), budget, left)
    {
      Finish(kids, index, budget, left);
    }

    /** One more kid, as long as the budget is not empty. */
    lemma Advance(kids: seq<Kid>, index: nat, budget: nat, left: nat)
      requires Progress(kids, index, budget, left) && index < |kids| && left > 0
      ensures var spent := KidNodes(kids[..index]);
              && spent < budget && left == budget - spent
              && CutKids(kids[..index + 1], budget)
                 == CutKids(kids[..index], budget) + [Kid(kids[index].place, Cut(kids[index].tree, left - 1))]
              && KidNodes(kids[..index + 1]) == spent + 1 + Nodes(kids[index].tree)
      ensures Progress(kids, index + 1, budget, Left(left - 1, Nodes(kids[index].tree)))
      ensures var kept := CutKids(kids[..index + 1], budget);
              kept != [] && kept[..|kept| - 1] == CutKids(kids[..index], budget)
    {
      assert kids[..index + 1][..index] == kids[..index];
    }

    /** Once the budget is empty, or the kids are done, the rest of the cut adds nothing. */
    lemma Finish(kids: seq<Kid>, index: nat, budget: nat, left: nat)
      requires Progress(kids, index, budget, left)
      requires index == |kids| || left == 0
      ensures CutKids(kids, budget) == CutKids(kids[..index], budget)
      ensures left == Left(budget, KidNodes(kids))
      decreases |kids|
    {
      if index == |kids| {
        assert kids[..index] == kids;
      } else {
        var before := kids[..|kids| - 1];
        assert before[..index] == kids[..index];
        Finish(before, index, budget, left);
      }
    }
  }
}
