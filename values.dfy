/** The untyped JavaScript values the scanner's configuration and object
    utilities work on. An object is the ordered list of its own enumerable
    properties, in insertion order; `obj[key] = v` replaces the value of an
    existing key in place and appends a new key at the end. */
module Values {
  import opened Js
  import opened Wrappers

  datatype Value =
    | Undefined
    | Null
    | Bool(b: bool)
    | Num(n: JsNumber)
    | Str(s: string)
    | Arr(items: seq<Value>)
    | Obj(props: seq<Prop>)

  datatype Prop = Prop(key: string, val: Value)

  // ---------------------------------------------------------------------
  // Truthiness and `typeof`
  // ---------------------------------------------------------------------

  /** JavaScript truthiness: `undefined`, `null`, `false`, `0`, `NaN` and
      `''` are falsy, everything else (arrays and objects included) truthy. */
  predicate Truthy(v: Value)
  {
    match v
    case Undefined => false
    case Null => false
    case Bool(b) => b
    case Num(n) => n.Int? && n.val != 0
    case Str(s) => s != ""
    case Arr(_) => true
    case Obj(_) => true
  }

  /** `typeof v`; `null` and arrays are `'object'`. */
  function TypeOf(v: Value): string
  {
    match v
    case Undefined => "undefined"
    case Null => "object"
    case Bool(_) => "boolean"
    case Num(_) => "number"
    case Str(_) => "string"
    case Arr(_) => "object"
    case Obj(_) => "object"
  }

  /** `item && typeof item === 'object' && !Array.isArray(item)`: a plain object. */
  predicate IsObject(v: Value)
  {
    Truthy(v) && TypeOf(v) == "object" && !v.Arr?
  }

  /** The plain-object test holds exactly for objects: `null` is falsy and
      arrays are excluded. */
  lemma IsObjectIff(v: Value)
    ensures IsObject(v) <==> v.Obj?
  {
  }

  /** A JavaScript object never holds the same key twice, at any depth. */
  predicate WellFormed(v: Value)
    decreases v
  {
    match v
    case Obj(ps) => UniqueKeys(ps) && forall i :: 0 <= i < |ps| ==> WellFormed(ps[i].val)
    case _ => true
  }

  /** A size that shrinks from an object to the values of its properties. */
  function Size(v: Value): (n: nat)
    ensures n >= 1
    decreases v
  {
    match v
    case Obj(ps) => 1 + SizeProps(ps)
    case _ => 1
  }

  function SizeProps(ps: seq<Prop>): nat
    decreases ps
  {
    if ps == [] then 0 else 1 + Size(ps[0].val) + SizeProps(ps[1..])
  }

  /** Each property value is smaller than the property list holding it. */
  lemma {:induction false} SizeOfProp(ps: seq<Prop>, i: nat)
    requires i < |ps|
    ensures Size(ps[i].val) < SizeProps(ps)
  {
    if i > 0 {
      SizeOfProp(ps[1..], i - 1);
    }
  }

  // ---------------------------------------------------------------------
  // Own properties
  // ---------------------------------------------------------------------

  function Keys(props: seq<Prop>): (ks: seq<string>)
    ensures |ks| == |props|
    ensures forall i :: 0 <= i < |props| ==> ks[i] == props[i].key
  {
    if props == [] then [] else [props[0].key] + Keys(props[1..])
  }

  /** No key appears twice in a property list. */
  predicate UniqueKeys(props: seq<Prop>)
  {
    forall i, j :: 0 <= i < j < |props| ==> props[i].key != props[j].key
  }

  /** `key in obj` for an own property: the value, if the key is there. */
  function Get(props: seq<Prop>, key: string): (r: Option<Value>)
    ensures r.None? <==> key !in Keys(props)
    ensures r.Some? ==> exists i :: 0 <= i < |props| && props[i] == Prop(key, r.value)
  {
    if props == [] then None
    else if props[0].key == key then Some(props[0].val)
    else
      var r := Get(props[1..], key);
      assert r.Some? ==> props[1..][IndexIn(props[1..], key, r.value)] == Prop(key, r.value);
      r
  }

  /** An index at which a found property sits. */
  function IndexIn(props: seq<Prop>, key: string, v: Value): (i: nat)
    requires exists i :: 0 <= i < |props| && props[i] == Prop(key, v)
    ensures i < |props| && props[i] == Prop(key, v)
  {
    if props[0] == Prop(key, v) then 0
    else
      assert exists i :: 0 <= i < |props[1..]| && props[1..][i] == Prop(key, v) by {
        var i :| 0 <= i < |props| && props[i] == Prop(key, v);
        assert props[1..][i - 1] == props[i];
      }
      1 + IndexIn(props[1..], key, v)
  }

  /** With unique keys, the value found under a property's key is that property's. */
  lemma GetAt(props: seq<Prop>, i: nat)
    requires UniqueKeys(props) && i < |props|
    ensures Get(props, props[i].key) == Some(props[i].val)
  {
    assert Keys(props)[i] == props[i].key;
  }

  /** `obj[key]`: the own value, or `undefined` when the key is missing. */
  function Lookup(props: seq<Prop>, key: string): Value
  {
    match Get(props, key)
    case Some(v) => v
    case None => Undefined
  }

  /** `obj[key] = v`: the value of an existing key is replaced where it
      stands, a new key goes at the end. */
  function Put(props: seq<Prop>, key: string, v: Value): (r: seq<Prop>)
    ensures key in Keys(props) ==> |r| == |props|
    ensures key !in Keys(props) ==> r == props + [Prop(key, v)]
  {
    if props == [] then [Prop(key, v)]
    else if props[0].key == key then [Prop(key, v)] + props[1..]
    else [props[0]] + Put(props[1..], key, v)
  }

  /** After `obj[key] = v`, `obj[key]` is `v` and every other key is untouched. */
  lemma GetPut(props: seq<Prop>, key: string, v: Value, other: string)
    ensures Get(Put(props, key, v), key) == Some(v)
    ensures other != key ==> Get(Put(props, key, v), other) == Get(props, other)
  {
    GetPutSame(props, key, v);
    if other != key {
      GetPutOther(props, key, v, other);
    }
  }

  lemma {:induction false} GetPutSame(props: seq<Prop>, key: string, v: Value)
    ensures Get(Put(props, key, v), key) == Some(v)
  {
    if props != [] && props[0].key != key {
      GetPutSame(props[1..], key, v);
      assert Put(props, key, v)[1..] == Put(props[1..], key, v);
    }
  }

  lemma {:induction false} GetPutOther(props: seq<Prop>, key: string, v: Value, other: string)
    requires other != key
    ensures Get(Put(props, key, v), other) == Get(props, other)
  {
    if props != [] && props[0].key != key {
      GetPutOther(props[1..], key, v, other);
      assert Put(props, key, v)[1..] == Put(props[1..], key, v);
    }
  }

  /** Assigning a key twice leaves the second value where the first one went. */
  lemma {:induction false} PutPut(props: seq<Prop>, key: string, v: Value, w: Value)
    ensures Put(Put(props, key, v), key, w) == Put(props, key, w)
  {
    if props != [] && props[0].key != key {
      PutPut(props[1..], key, v, w);
      assert Put(props, key, v)[1..] == Put(props[1..], key, v);
    }
  }

  /** Every property value in the list is well formed. */
  predicate AllWellFormed(props: seq<Prop>)
  {
    forall i :: 0 <= i < |props| ==> WellFormed(props[i].val)
  }

  /** Assigning a well-formed value keeps every value well formed. */
  lemma {:induction false} PutWellFormed(props: seq<Prop>, key: string, v: Value)
    requires AllWellFormed(props) && WellFormed(v)
    ensures AllWellFormed(Put(props, key, v))
  {
    if props != [] && props[0].key != key {
      PutWellFormed(props[1..], key, v);
      var r := Put(props, key, v);
      assert r == [props[0]] + Put(props[1..], key, v);
      forall i | 1 <= i < |r|
        ensures WellFormed(r[i].val)
      {
        assert r[i] == Put(props[1..], key, v)[i - 1];
      }
    }
  }

  /** A value read from a list of well-formed values is well formed. */
  lemma LookupWellFormed(props: seq<Prop>, key: string)
    requires AllWellFormed(props)
    ensures WellFormed(Lookup(props, key))
  {
    if key in Keys(props) {
      var i := IndexIn(props, key, Get(props, key).value);
    }
  }

  /** Assignment keeps the key order and adds the key at the end when it is new. */
  lemma {:induction false} KeysPut(props: seq<Prop>, key: string, v: Value)
    ensures Keys(Put(props, key, v)) ==
      if key in Keys(props) then Keys(props) else Keys(props) + [key]
  {
    if props != [] {
      var p, rest := props[0], props[1..];
      assert props == [p] + rest;
      KeysCons(p, rest);
      if p.key == key {
        assert Put(props, key, v) == [Prop(key, v)] + rest;
        KeysCons(Prop(key, v), rest);
      } else {
        KeysPut(rest, key, v);
        assert Put(props, key, v) == [p] + Put(rest, key, v);
        KeysCons(p, Put(rest, key, v));
        if key !in Keys(rest) {
          assert [p.key] + (Keys(rest) + [key]) == ([p.key] + Keys(rest)) + [key];
        }
      }
    }
  }

  /** The keys of a list with one more property in front. */
  lemma KeysCons(p: Prop, rest: seq<Prop>)
    ensures Keys([p] + rest) == [p.key] + Keys(rest)
  {
    assert ([p] + rest)[1..] == rest;
  }

  /** Assignment keeps the keys unique. */
  lemma {:induction false} UniquePut(props: seq<Prop>, key: string, v: Value)
    requires UniqueKeys(props)
    ensures UniqueKeys(Put(props, key, v))
  {
    if props != [] && props[0].key != key {
      var rest := props[1..];
      UniquePut(rest, key, v);
      KeysPut(rest, key, v);
      var r := Put(props, key, v);
      assert r == [props[0]] + Put(rest, key, v);
      assert props[0].key !in Keys(rest) by {
        forall i | 0 <= i < |rest|
          ensures Keys(rest)[i] != props[0].key
        {
          assert rest[i] == props[i + 1];
        }
      }
      assert props[0].key !in Keys(Put(rest, key, v));
      forall i, j | 0 <= i < j < |r|
        ensures r[i].key != r[j].key
      {
        if i == 0 {
          assert r[j] == Put(rest, key, v)[j - 1];
          assert Keys(Put(rest, key, v))[j - 1] == r[j].key;
        }
      }
    }
  }

  /** `Object.assign(target, source)` and `{...target, ...source}`: the own
      properties of the source are assigned onto the target, in order. */
  function Assign(target: seq<Prop>, source: seq<Prop>): seq<Prop>
    decreases |source|
  {
    if source == [] then target
    else Assign(Put(target, source[0].key, source[0].val), source[1..])
  }

  /** After the assignment, a key holds the source's value when the source
      has it and keeps the target's otherwise. */
  lemma {:induction false} GetAssign(target: seq<Prop>, source: seq<Prop>, key: string)
    requires UniqueKeys(source)
    ensures Get(Assign(target, source), key) ==
      if key in Keys(source) then Get(source, key) else Get(target, key)
    decreases |source|
  {
    if source != [] {
      var p := source[0];
      var rest := source[1..];
      assert UniqueKeys(rest);
      GetAssign(Put(target, p.key, p.val), rest, key);
      GetPut(target, p.key, p.val, key);
      assert Keys(source) == [p.key] + Keys(rest);
      if key == p.key {
        assert key !in Keys(rest) by {
          forall i | 0 <= i < |rest|
            ensures Keys(rest)[i] != key
          {
            assert rest[i] == source[i + 1];
          }
        }
      }
    }
  }

  /** After the assignment the keys are those of the target and of the source. */
  lemma {:induction false} KeysAssign(target: seq<Prop>, source: seq<Prop>, key: string)
    ensures key in Keys(Assign(target, source)) <==> key in Keys(target) || key in Keys(source)
    decreases |source|
  {
    if source != [] {
      KeysPut(target, source[0].key, source[0].val);
      KeysAssign(Put(target, source[0].key, source[0].val), source[1..], key);
      assert Keys(source) == [source[0].key] + Keys(source[1..]);
    }
  }

  /** The assignment keeps the target's keys unique. */
  lemma {:induction false} AssignUnique(target: seq<Prop>, source: seq<Prop>)
    requires UniqueKeys(target)
    ensures UniqueKeys(Assign(target, source))
    decreases |source|
  {
    if source != [] {
      UniquePut(target, source[0].key, source[0].val);
      AssignUnique(Put(target, source[0].key, source[0].val), source[1..]);
    }
  }
}
