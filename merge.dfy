/** Deep merge of plain objects (`src/utils/object/merge.ts`): later objects
    override earlier ones, nested plain objects are merged recursively, and
    everything else (primitives, arrays, `null`) is assigned as it is. */
module Merge {
  import opened Values
  import opened Wrappers

  // ---------------------------------------------------------------------
  // Specification
  // ---------------------------------------------------------------------

  /** One `deepMerge(target, source)` call: when both are plain objects the
      source's properties are merged into the target in order; otherwise the
      target is left as it is. */
  function MergeInto(target: Value, source: Value): Value
    decreases Size(source), 1
  {
    if IsObject(target) && IsObject(source) then Obj(MergeProps(target.props, source.props))
    else target
  }

  /** The loop over the source's keys, as a left fold. */
  function MergeProps(tp: seq<Prop>, sp: seq<Prop>): seq<Prop>
    decreases SizeProps(sp), 0
  {
    if sp == [] then tp else MergeProps(MergeStep(tp, sp[0]), sp[1..])
  }

  /** One key of the source: the target's key receives the merged value. */
  function MergeStep(tp: seq<Prop>, p: Prop): seq<Prop>
    decreases Size(p.val), 3
  {
    Put(tp, p.key, MergeValue(Lookup(tp, p.key), p.val))
  }

  /** The new value of a key whose current value is `cur` and whose source
      value is `sv`: a plain object is merged into the current value, or into
      a fresh `{}` when the current value is falsy; anything else replaces it. */
  function MergeValue(cur: Value, sv: Value): Value
    decreases Size(sv), 2
  {
    if IsObject(sv) then MergeInto(if Truthy(cur) then cur else Obj([]), sv) else sv
  }

  /** `deepMerge(target, ...sources)`: the sources merged in one by one. */
  function MergeAll(target: Value, sources: seq<Value>): Value
    decreases |sources|
  {
    if sources == [] then target else MergeAll(MergeInto(target, sources[0]), sources[1..])
  }

  function SizeAll(vs: seq<Value>): nat
  {
    if vs == [] then 0 else Size(vs[0]) + SizeAll(vs[1..])
  }

  lemma {:induction false} SizeAllElem(vs: seq<Value>, i: nat)
    requires i < |vs|
    ensures Size(vs[i]) <= SizeAll(vs)
  {
    if i > 0 {
      SizeAllElem(vs[1..], i - 1);
    }
  }

  // ---------------------------------------------------------------------
  // The merge itself
  // ---------------------------------------------------------------------

  /** `deepMerge`: works through the sources in turn and, for a plain-object
      source, through its keys, recursing into nested plain objects. The
      nested call updates `target[key]` in place in the source; here the
      merged value is written back under the same key. */
  method DeepMerge(target: Value, sources: seq<Value>) returns (r: Value)
    ensures r == MergeAll(target, sources)
    decreases SizeAll(sources)
  {
    r := target;
    var i := 0;
    while i < |sources|
      invariant 0 <= i <= |sources|
      invariant MergeAll(r, sources[i..]) == MergeAll(target, sources)
    {
      var source := sources[i];
      assert sources[i..][1..] == sources[i + 1..];
      if IsObject(r) && IsObject(source) {
        var props := r.props;
        var j := 0;
        while j < |source.props|
          invariant 0 <= j <= |source.props|
          invariant MergeProps(props, source.props[j..]) == MergeProps(r.props, source.props)
        {
          var p := source.props[j];
          assert source.props[j..][1..] == source.props[j + 1..];
          ghost var before := props;
          if IsObject(p.val) {
            var cur := Lookup(props, p.key);
            if !Truthy(cur) {
              PutPut(props, p.key, Obj([]), MergeInto(Obj([]), p.val));
              props := Put(props, p.key, Obj([]));
              cur := Obj([]);
            }
            assert MergeValue(Lookup(before, p.key), p.val) == MergeInto(cur, p.val);
            SizeOfProp(source.props, j);
            SizeAllElem(sources, i);
            assert SizeAll([p.val]) == Size(p.val);
            var merged := DeepMerge(cur, [p.val]);
            assert merged == MergeInto(cur, p.val) by {
              assert MergeAll(cur, [p.val]) == MergeAll(MergeInto(cur, p.val), []);
            }
            props := Put(props, p.key, merged);
          } else {
            props := Put(props, p.key, p.val);
          }
          assert props == MergeStep(before, p);
          j := j + 1;
        }
        r := Obj(props);
      }
      i := i + 1;
    }
  }

  /** `mergeObjects(...objects)`: everything merged into a fresh `{}`. */
  method MergeObjects(objects: seq<Value>) returns (r: Value)
    ensures r == MergeAll(Obj([]), objects)
  {
    r := DeepMerge(Obj([]), objects);
  }

  // ---------------------------------------------------------------------
  // Properties
  // ---------------------------------------------------------------------

  /** Key by key, merging a property list into another gives the merged
      value for the keys of the source and leaves the other keys alone. */
  lemma {:induction false} GetMergeProps(tp: seq<Prop>, sp: seq<Prop>, k: string)
    requires UniqueKeys(sp)
    ensures Get(MergeProps(tp, sp), k) ==
      if k in Keys(sp) then Some(MergeValue(Lookup(tp, k), Lookup(sp, k))) else Get(tp, k)
    decreases |sp|
  {
    if sp != [] {
      var p := sp[0];
      var rest := sp[1..];
      var tp' := MergeStep(tp, p);
      assert UniqueKeys(rest);
      assert Keys(sp) == [p.key] + Keys(rest);
      GetMergeProps(tp', rest, k);
      if k == p.key {
        assert k !in Keys(rest) by {
          forall i | 0 <= i < |rest|
            ensures Keys(rest)[i] != k
          {
            assert rest[i] == sp[i + 1];
          }
        }
        GetPutSame(tp, p.key, MergeValue(Lookup(tp, p.key), p.val));
      } else {
        GetPutOther(tp, p.key, MergeValue(Lookup(tp, p.key), p.val), k);
      }
    }
  }

  /** The keys after merging are those of the target and those of the source. */
  lemma KeysMergeProps(tp: seq<Prop>, sp: seq<Prop>, k: string)
    requires UniqueKeys(sp)
    ensures k in Keys(MergeProps(tp, sp)) <==> k in Keys(tp) || k in Keys(sp)
  {
    GetMergeProps(tp, sp, k);
  }

  /** Merging two plain objects merges their property lists. */
  lemma MergeObjectsProps(a: seq<Prop>, b: seq<Prop>)
    ensures MergeInto(Obj(a), Obj(b)) == Obj(MergeProps(a, b))
  {
  }

  /** A key only the target has keeps its value. */
  lemma MergeKeepsTargetOnly(a: seq<Prop>, b: seq<Prop>, k: string)
    requires UniqueKeys(b) && k !in Keys(b)
    ensures Get(MergeInto(Obj(a), Obj(b)).props, k) == Get(a, k)
  {
    MergeObjectsProps(a, b);
    GetMergeProps(a, b, k);
  }

  /** A later primitive, array or `null` replaces whatever was there. */
  lemma MergeLaterWins(a: seq<Prop>, b: seq<Prop>, k: string)
    requires UniqueKeys(b) && k in Keys(b) && !IsObject(Lookup(b, k))
    ensures Get(MergeInto(Obj(a), Obj(b)).props, k) == Get(b, k)
  {
    MergeObjectsProps(a, b);
    GetMergeProps(a, b, k);
  }

  /** Two plain objects under the same key are merged, not replaced. */
  lemma MergeNested(a: seq<Prop>, b: seq<Prop>, k: string)
    requires UniqueKeys(b) && IsObject(Lookup(a, k)) && IsObject(Lookup(b, k))
    ensures Get(MergeInto(Obj(a), Obj(b)).props, k) == Some(MergeInto(Lookup(a, k), Lookup(b, k)))
  {
    MergeObjectsProps(a, b);
    GetMergeProps(a, b, k);
  }

  /** A truthy value that is not a plain object (an array, a number, a string)
      is kept when a plain object arrives under its key. */
  lemma MergeKeepsTruthyLeaf(a: seq<Prop>, b: seq<Prop>, k: string)
    requires UniqueKeys(b) && Truthy(Lookup(a, k)) && !IsObject(Lookup(a, k))
    requires IsObject(Lookup(b, k))
    ensures Get(MergeInto(Obj(a), Obj(b)).props, k) == Get(a, k)
  {
    MergeObjectsProps(a, b);
    GetMergeProps(a, b, k);
  }

  /** A plain object arriving under a missing or falsy key is copied as it is. */
  lemma MergeFillsFalsy(a: seq<Prop>, b: seq<Prop>, k: string)
    requires UniqueKeys(b) && !Truthy(Lookup(a, k))
    requires IsObject(Lookup(b, k)) && WellFormed(Lookup(b, k))
    ensures Get(MergeInto(Obj(a), Obj(b)).props, k) == Get(b, k)
  {
    MergeObjectsProps(a, b);
    GetMergeProps(a, b, k);
    CopyValue(Lookup(b, k));
  }

  /** Merging a well-formed plain object into `{}` copies it unchanged. */
  lemma {:induction false} CopyValue(v: Value)
    requires v.Obj? && WellFormed(v)
    ensures MergeInto(Obj([]), v) == v
    decreases Size(v), 1
  {
    CopyProps([], v.props);
  }

  /** Merging properties with new keys appends them, deep-copied. */
  lemma {:induction false} CopyProps(tp: seq<Prop>, sp: seq<Prop>)
    requires UniqueKeys(sp) && AllWellFormed(sp)
    requires forall i :: 0 <= i < |sp| ==> sp[i].key !in Keys(tp)
    ensures MergeProps(tp, sp) == tp + sp
    decreases SizeProps(sp), 0
  {
    if sp != [] {
      var p := sp[0];
      var rest := sp[1..];
      if IsObject(p.val) {
        SizeOfProp(sp, 0);
        CopyValue(p.val);
      }
      StepNewKey(tp, p);
      assert Keys(tp + [p]) == Keys(tp) + [p.key];
      forall i | 0 <= i < |rest|
        ensures rest[i].key !in Keys(tp + [p])
      {
        assert rest[i] == sp[i + 1];
      }
      assert AllWellFormed(rest) by {
        forall i | 0 <= i < |rest|
          ensures WellFormed(rest[i].val)
        {
          assert rest[i] == sp[i + 1];
        }
      }
      CopyProps(tp + [p], rest);
      AppendFirst(tp, sp);
    }
  }

  lemma AppendFirst(tp: seq<Prop>, sp: seq<Prop>)
    requires sp != []
    ensures (tp + [sp[0]]) + sp[1..] == tp + sp
  {
    assert sp == [sp[0]] + sp[1..];
  }

  /** A key the target lacks, whose value merges into `{}` as itself, is appended. */
  lemma StepNewKey(tp: seq<Prop>, p: Prop)
    requires p.key !in Keys(tp)
    requires IsObject(p.val) ==> MergeInto(Obj([]), p.val) == p.val
    ensures MergeStep(tp, p) == tp + [p]
  {
    assert Lookup(tp, p.key) == Undefined;
  }

  /** `mergeObjects(x)` of one well-formed plain object is a copy of it. */
  lemma MergeObjectsSingle(v: Value)
    requires v.Obj? && WellFormed(v)
    ensures MergeAll(Obj([]), [v]) == v
  {
    CopyValue(v);
  }

  /** A target that is not a plain object comes back untouched. */
  lemma {:induction false} MergeAllNonObject(target: Value, sources: seq<Value>)
    requires !IsObject(target)
    ensures MergeAll(target, sources) == target
    decreases |sources|
  {
    if sources != [] {
      MergeAllNonObject(target, sources[1..]);
    }
  }

  /** Every source is an object with unique keys, or not an object at all. */
  predicate SourcesWellKeyed(sources: seq<Value>)
  {
    forall i :: 0 <= i < |sources| && sources[i].Obj? ==> UniqueKeys(sources[i].props)
  }

  /** `k` is a key of one of the plain-object sources. */
  predicate KeyOfSources(sources: seq<Value>, k: string)
  {
    sources != [] && ((sources[0].Obj? && k in Keys(sources[0].props)) || KeyOfSources(sources[1..], k))
  }

  /** Merging into a plain object gives a plain object. */
  lemma {:induction false} MergeAllObject(target: Value, sources: seq<Value>)
    requires target.Obj?
    ensures MergeAll(target, sources).Obj?
    decreases |sources|
  {
    if sources != [] {
      MergeAllObject(MergeInto(target, sources[0]), sources[1..]);
    }
  }

  /** The keys of the result of merging into a plain object are exactly
      those of the target and of the plain-object sources. */
  lemma {:induction false} MergeAllKeys(target: Value, sources: seq<Value>, k: string)
    requires target.Obj? && SourcesWellKeyed(sources)
    ensures MergeAll(target, sources).Obj? &&
      (k in Keys(MergeAll(target, sources).props) <==> k in Keys(target.props) || KeyOfSources(sources, k))
    decreases |sources|
  {
    MergeAllObject(target, sources);
    if sources != [] {
      var s := sources[0];
      var next := MergeInto(target, s);
      assert SourcesWellKeyed(sources[1..]) by {
        forall i | 0 <= i < |sources[1..]| && sources[1..][i].Obj?
          ensures UniqueKeys(sources[1..][i].props)
        {
          assert sources[1..][i] == sources[i + 1];
        }
      }
      MergeAllKeys(next, sources[1..], k);
      if s.Obj? {
        MergeObjectsProps(target.props, s.props);
        KeysMergeProps(target.props, s.props, k);
      }
    }
  }

  /** Merging well-formed values gives a well-formed value. */
  lemma {:induction false} MergeWellFormed(target: Value, source: Value)
    requires WellFormed(target) && WellFormed(source)
    ensures WellFormed(MergeInto(target, source))
    decreases Size(source), 1
  {
    if IsObject(target) && IsObject(source) {
      MergePropsWellFormed(target.props, source.props);
    }
  }

  lemma {:induction false} MergePropsWellFormed(tp: seq<Prop>, sp: seq<Prop>)
    requires UniqueKeys(tp) && AllWellFormed(tp) && AllWellFormed(sp)
    ensures UniqueKeys(MergeProps(tp, sp)) && AllWellFormed(MergeProps(tp, sp))
    decreases SizeProps(sp), 0
  {
    if sp != [] {
      var p := sp[0];
      var cur := Lookup(tp, p.key);
      LookupWellFormed(tp, p.key);
      if IsObject(p.val) {
        assert Size(p.val) < SizeProps(sp);
        MergeWellFormed(if Truthy(cur) then cur else Obj([]), p.val);
      }
      UniquePut(tp, p.key, MergeValue(cur, p.val));
      PutWellFormed(tp, p.key, MergeValue(cur, p.val));
      assert AllWellFormed(sp[1..]) by {
        forall i | 0 <= i < |sp[1..]|
          ensures WellFormed(sp[1..][i].val)
        {
          assert sp[1..][i] == sp[i + 1];
        }
      }
      MergePropsWellFormed(MergeStep(tp, p), sp[1..]);
    }
  }
}
