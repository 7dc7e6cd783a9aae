/** Flattening of nested plain objects into one level
    (`src/utils/object/flatten.ts`): the key of a nested property is the
    path of keys leading to it, joined by the separator. */
module Flatten {
  import opened Values
  import opened Wrappers

  // ---------------------------------------------------------------------
  // Specification
  // ---------------------------------------------------------------------

  /** The key of a property under `parent`: `parent + separator + key`, or
      the key alone at the top, where `parent` is the empty (falsy) string. */
  function NewKey(parent: string, separator: string, key: string): string
  {
    if parent != "" then parent + separator + key else key
  }

  /** `flattenObject(obj, parent, separator)`. */
  function Flatten(obj: seq<Prop>, parent: string, separator: string): seq<Prop>
    decreases SizeProps(obj), 1
  {
    FlattenInto([], obj, parent, separator)
  }

  /** The loop over the object's keys, from the partial `result` on: a plain
      object's flattening is assigned onto the result, anything else is
      stored under its new key. */
  function FlattenInto(result: seq<Prop>, props: seq<Prop>, parent: string, separator: string): seq<Prop>
    decreases SizeProps(props), 0
  {
    if props == [] then result
    else
      var p := props[0];
      var key := NewKey(parent, separator, p.key);
      var next :=
        if IsObject(p.val) then
          assert SizeProps(p.val.props) < Size(p.val) <= SizeProps(props);
          Assign(result, Flatten(p.val.props, key, separator))
        else Put(result, key, p.val);
      FlattenInto(next, props[1..], parent, separator)
  }

  /** The keys the flattening produces, defined on their own: a leaf gives
      its new key, a nested plain object the keys of its own flattening. */
  function FlatKeys(props: seq<Prop>, parent: string, separator: string): set<string>
    decreases SizeProps(props)
  {
    if props == [] then {}
    else
      var p := props[0];
      var key := NewKey(parent, separator, p.key);
      (if IsObject(p.val) then
         assert SizeProps(p.val.props) < Size(p.val) <= SizeProps(props);
         FlatKeys(p.val.props, key, separator)
       else {key})
        + FlatKeys(props[1..], parent, separator)
  }

  /** The leaves the flattening writes, in the order it writes them: each
      value that is not a plain object, under its new key. */
  function Leaves(props: seq<Prop>, parent: string, separator: string): seq<Prop>
    decreases SizeProps(props)
  {
    if props == [] then []
    else
      var p := props[0];
      var key := NewKey(parent, separator, p.key);
      (if IsObject(p.val) then
         assert SizeProps(p.val.props) < Size(p.val) <= SizeProps(props);
         Leaves(p.val.props, key, separator)
       else [Prop(key, p.val)])
        + Leaves(props[1..], parent, separator)
  }

  /** The value of the last leaf written under `key`, if any. */
  function LastValue(leaves: seq<Prop>, key: string): (r: Option<Value>)
    ensures r.None? <==> key !in Keys(leaves)
  {
    if leaves == [] then None
    else
      var later := LastValue(leaves[1..], key);
      assert Keys(leaves) == [leaves[0].key] + Keys(leaves[1..]);
      if later.Some? then later
      else if leaves[0].key == key then Some(leaves[0].val)
      else None
  }

  // ---------------------------------------------------------------------
  // The flattening itself
  // ---------------------------------------------------------------------

  /** `flattenObject`: a loop over the own keys of `obj`, recursing into
      nested plain objects. */
  method FlattenObject(obj: seq<Prop>, parentKey: string, separator: string) returns (result: seq<Prop>)
    ensures result == Flatten(obj, parentKey, separator)
    decreases SizeProps(obj)
  {
    result := [];
    var j := 0;
    while j < |obj|
      invariant 0 <= j <= |obj|
      invariant FlattenInto(result, obj[j..], parentKey, separator) == Flatten(obj, parentKey, separator)
    {
      var key := obj[j].key;
      var newKey := if parentKey != "" then parentKey + separator + key else key;
      var value := obj[j].val;
      assert obj[j..][1..] == obj[j + 1..];
      if IsObject(value) {
        SizeOfProp(obj, j);
        var nested := FlattenObject(value.props, newKey, separator);
        result := Assign(result, nested);
      } else {
        result := Put(result, newKey, value);
      }
      j := j + 1;
    }
  }

  // ---------------------------------------------------------------------
  // Properties
  // ---------------------------------------------------------------------

  /** The flattened object has exactly the keys `FlatKeys` names. */
  lemma FlattenKeys(obj: seq<Prop>, parent: string, separator: string, k: string)
    ensures k in Keys(Flatten(obj, parent, separator)) <==> k in FlatKeys(obj, parent, separator)
  {
    FlattenIntoKeys([], obj, parent, separator, k);
  }

  lemma {:induction false} FlattenIntoKeys(result: seq<Prop>, props: seq<Prop>, parent: string, separator: string, k: string)
    ensures k in Keys(FlattenInto(result, props, parent, separator)) <==>
      k in Keys(result) || k in FlatKeys(props, parent, separator)
    decreases SizeProps(props)
  {
    if props != [] {
      var p := props[0];
      var key := NewKey(parent, separator, p.key);
      if IsObject(p.val) {
        var nested := Flatten(p.val.props, key, separator);
        SizeOfProp(props, 0);
        FlattenIntoKeys([], p.val.props, key, separator, k);
        KeysAssign(result, nested, k);
        FlattenIntoKeys(Assign(result, nested), props[1..], parent, separator, k);
      } else {
        KeysPut(result, key, p.val);
        FlattenIntoKeys(Put(result, key, p.val), props[1..], parent, separator, k);
      }
    }
  }

  /** Every key of the flattened object holds the value of the last leaf
      written under it: a nested plain object is replaced by its leaves,
      and arrays, `null`, `undefined` and other non-objects are kept as they are. */
  lemma FlattenValues(obj: seq<Prop>, parent: string, separator: string, k: string)
    ensures Get(Flatten(obj, parent, separator), k) == LastValue(Leaves(obj, parent, separator), k)
  {
    FlattenIntoValues([], obj, parent, separator, k);
  }

  /** When no two leaves share a path, each leaf's value is found under its path. */
  lemma FlattenLeafValue(obj: seq<Prop>, parent: string, separator: string, i: nat)
    requires UniqueKeys(Leaves(obj, parent, separator)) && i < |Leaves(obj, parent, separator)|
    ensures var leaf := Leaves(obj, parent, separator)[i];
      Get(Flatten(obj, parent, separator), leaf.key) == Some(leaf.val)
  {
    var leaves := Leaves(obj, parent, separator);
    FlattenValues(obj, parent, separator, leaves[i].key);
    LastValueUnique(leaves, i);
  }

  /** With distinct keys, the last leaf under a key is the only one. */
  lemma {:induction false} LastValueUnique(leaves: seq<Prop>, i: nat)
    requires UniqueKeys(leaves) && i < |leaves|
    ensures LastValue(leaves, leaves[i].key) == Some(leaves[i].val)
  {
    var rest := leaves[1..];
    assert UniqueKeys(rest);
    if i == 0 {
      assert leaves[0].key !in Keys(rest) by {
        forall j | 0 <= j < |rest|
          ensures Keys(rest)[j] != leaves[0].key
        {
          assert rest[j] == leaves[j + 1];
        }
      }
    } else {
      LastValueUnique(rest, i - 1);
      assert rest[i - 1] == leaves[i];
    }
  }

  /** A later leaf overrides an earlier one under the same key. */
  lemma {:induction false} LastValueAppend(a: seq<Prop>, b: seq<Prop>, k: string)
    ensures LastValue(a + b, k) == if LastValue(b, k).Some? then LastValue(b, k) else LastValue(a, k)
  {
    if a != [] {
      assert (a + b)[1..] == a[1..] + b;
      LastValueAppend(a[1..], b, k);
    } else {
      assert a + b == b;
    }
  }

  /** The keys of the result stay distinct. */
  lemma {:induction false} FlattenIntoUnique(result: seq<Prop>, props: seq<Prop>, parent: string, separator: string)
    requires UniqueKeys(result)
    ensures UniqueKeys(FlattenInto(result, props, parent, separator))
    decreases SizeProps(props)
  {
    if props != [] {
      var p := props[0];
      var key := NewKey(parent, separator, p.key);
      if IsObject(p.val) {
        SizeOfProp(props, 0);
        var nested := Flatten(p.val.props, key, separator);
        AssignUnique(result, nested);
        FlattenIntoUnique(Assign(result, nested), props[1..], parent, separator);
      } else {
        UniquePut(result, key, p.val);
        FlattenIntoUnique(Put(result, key, p.val), props[1..], parent, separator);
      }
    }
  }

  lemma {:induction false} FlattenIntoValues(result: seq<Prop>, props: seq<Prop>, parent: string, separator: string, k: string)
    ensures var last := LastValue(Leaves(props, parent, separator), k);
      Get(FlattenInto(result, props, parent, separator), k) == if last.Some? then last else Get(result, k)
    decreases SizeProps(props)
  {
    if props != [] {
      var p := props[0];
      var rest := props[1..];
      var key := NewKey(parent, separator, p.key);
      if IsObject(p.val) {
        SizeOfProp(props, 0);
        var nested := Flatten(p.val.props, key, separator);
        var inner := Leaves(p.val.props, key, separator);
        assert Leaves(props, parent, separator) == inner + Leaves(rest, parent, separator);
        FlattenIntoValues([], p.val.props, key, separator, k);
        FlattenIntoUnique([], p.val.props, key, separator);
        GetAssign(result, nested, k);
        FlattenIntoValues(Assign(result, nested), rest, parent, separator, k);
        LastValueAppend(inner, Leaves(rest, parent, separator), k);
      } else {
        assert Leaves(props, parent, separator) == [Prop(key, p.val)] + Leaves(rest, parent, separator);
        GetPut(result, key, p.val, k);
        FlattenIntoValues(Put(result, key, p.val), rest, parent, separator, k);
        LastValueAppend([Prop(key, p.val)], Leaves(rest, parent, separator), k);
      }
    }
  }

  /** Below a non-empty parent every key starts with the parent and the separator. */
  lemma {:induction false} FlatKeysPrefix(props: seq<Prop>, parent: string, separator: string, k: string)
    requires parent != "" && k in FlatKeys(props, parent, separator)
    ensures |parent + separator| <= |k| && k[..|parent + separator|] == parent + separator
    decreases SizeProps(props)
  {
    var p := props[0];
    var key := NewKey(parent, separator, p.key);
    var head := if IsObject(p.val) then FlatKeys(p.val.props, key, separator) else {key};
    if k in head {
      if IsObject(p.val) {
        SizeOfProp(props, 0);
        FlatKeysPrefix(p.val.props, key, separator, k);
        assert key[..|parent + separator|] == parent + separator;
      } else {
        assert k == (parent + separator) + p.key;
      }
    } else {
      FlatKeysPrefix(props[1..], parent, separator, k);
    }
  }

  /** No property is a plain object. */
  predicate NoObjects(props: seq<Prop>)
  {
    forall i :: 0 <= i < |props| ==> !IsObject(props[i].val)
  }

  /** The flattened object holds no plain object any more. */
  lemma FlattenNoObjects(obj: seq<Prop>, parent: string, separator: string)
    ensures NoObjects(Flatten(obj, parent, separator))
  {
    FlattenIntoNoObjects([], obj, parent, separator);
  }

  lemma {:induction false} FlattenIntoNoObjects(result: seq<Prop>, props: seq<Prop>, parent: string, separator: string)
    requires NoObjects(result)
    ensures NoObjects(FlattenInto(result, props, parent, separator))
    decreases SizeProps(props)
  {
    if props != [] {
      var p := props[0];
      var key := NewKey(parent, separator, p.key);
      if IsObject(p.val) {
        SizeOfProp(props, 0);
        FlattenIntoNoObjects([], p.val.props, key, separator);
        AssignNoObjects(result, Flatten(p.val.props, key, separator));
        FlattenIntoNoObjects(Assign(result, Flatten(p.val.props, key, separator)), props[1..], parent, separator);
      } else {
        PutNoObjects(result, key, p.val);
        FlattenIntoNoObjects(Put(result, key, p.val), props[1..], parent, separator);
      }
    }
  }

  lemma {:induction false} PutNoObjects(props: seq<Prop>, key: string, v: Value)
    requires NoObjects(props) && !IsObject(v)
    ensures NoObjects(Put(props, key, v))
  {
    if props != [] && props[0].key != key {
      PutNoObjects(props[1..], key, v);
      var r := Put(props, key, v);
      assert r == [props[0]] + Put(props[1..], key, v);
      forall i | 1 <= i < |r|
        ensures !IsObject(r[i].val)
      {
        assert r[i] == Put(props[1..], key, v)[i - 1];
      }
    }
  }

  lemma {:induction false} AssignNoObjects(target: seq<Prop>, source: seq<Prop>)
    requires NoObjects(target) && NoObjects(source)
    ensures NoObjects(Assign(target, source))
    decreases |source|
  {
    if source != [] {
      PutNoObjects(target, source[0].key, source[0].val);
      assert NoObjects(source[1..]) by {
        forall i | 0 <= i < |source[1..]|
          ensures !IsObject(source[1..][i].val)
        {
          assert source[1..][i] == source[i + 1];
        }
      }
      AssignNoObjects(Put(target, source[0].key, source[0].val), source[1..]);
    }
  }

  /** An object with no nested plain object is its own flattening. */
  lemma FlattenFlat(obj: seq<Prop>, separator: string)
    requires UniqueKeys(obj) && NoObjects(obj)
    ensures Flatten(obj, "", separator) == obj
  {
    FlattenIntoFlat([], obj, separator);
  }

  lemma {:induction false} FlattenIntoFlat(result: seq<Prop>, props: seq<Prop>, separator: string)
    requires UniqueKeys(props) && NoObjects(props)
    requires forall i :: 0 <= i < |props| ==> props[i].key !in Keys(result)
    ensures FlattenInto(result, props, "", separator) == result + props
    decreases |props|
  {
    if props != [] {
      var p := props[0];
      var rest := props[1..];
      FlatStep(result, props, separator);
      assert Keys(result + [p]) == Keys(result) + [p.key];
      forall i | 0 <= i < |rest|
        ensures rest[i].key !in Keys(result + [p])
      {
        assert rest[i] == props[i + 1];
      }
      assert NoObjects(rest) by {
        forall i | 0 <= i < |rest|
          ensures !IsObject(rest[i].val)
        {
          assert rest[i] == props[i + 1];
        }
      }
      FlattenIntoFlat(result + [p], rest, separator);
      AppendFirst(result, props);
    }
  }

  /** At the top, a leaf whose key is new is appended. */
  lemma FlatStep(result: seq<Prop>, props: seq<Prop>, separator: string)
    requires props != [] && !IsObject(props[0].val) && props[0].key !in Keys(result)
    ensures FlattenInto(result, props, "", separator) == FlattenInto(result + [props[0]], props[1..], "", separator)
  {
  }

  lemma AppendFirst(result: seq<Prop>, props: seq<Prop>)
    requires props != []
    ensures (result + [props[0]]) + props[1..] == result + props
  {
    assert props == [props[0]] + props[1..];
  }
}
