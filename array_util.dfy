/** `createArrayFromObjectKey` (`src/utils/array/index.ts`): the value of
    one key, read from every record of a list. */
module ArrayUtil {
  import opened Values
  import opened Parallel

  /** `item[key]` for every item, in order. */
  function Pluck(records: seq<seq<Prop>>, key: string): seq<Value>
  {
    Map((item: seq<Prop>) => Lookup(item, key), records)
  }

  /** The loop pushing `item[key]` for each item. */
  method CreateArrayFromObjectKey(records: seq<seq<Prop>>, key: string) returns (items: seq<Value>)
    ensures items == Pluck(records, key)
  {
    items := [];
    var i := 0;
    while i < |records|
      invariant 0 <= i <= |records|
      invariant |items| == i
      invariant forall j :: 0 <= j < i ==> items[j] == Lookup(records[j], key)
    {
      items := items + [Lookup(records[i], key)];
      i := i + 1;
    }
  }

  /** One entry per record, in the same order, each the record's own value
      for the key (`undefined` where the record lacks it). */
  lemma PluckEntries(records: seq<seq<Prop>>, key: string)
    ensures |Pluck(records, key)| == |records|
    ensures forall i :: 0 <= i < |records| ==>
      Pluck(records, key)[i] == (if key in Keys(records[i]) then Get(records[i], key).value else Undefined)
  {
  }

  /** Records that were given a value under the key give that value back. */
  lemma PluckPut(records: seq<seq<Prop>>, values: seq<Value>, key: string)
    requires |records| == |values|
    ensures Pluck(Map2Put(records, values, key), key) == values
  {
    forall i | 0 <= i < |records|
      ensures Lookup(Put(records[i], key, values[i]), key) == values[i]
    {
      GetPutSame(records[i], key, values[i]);
    }
  }

  /** `records[i][key] = values[i]` for every `i`. */
  function Map2Put(records: seq<seq<Prop>>, values: seq<Value>, key: string): (r: seq<seq<Prop>>)
    requires |records| == |values|
    ensures |r| == |records|
    ensures forall i :: 0 <= i < |r| ==> r[i] == Put(records[i], key, values[i])
  {
    seq(|records|, i requires 0 <= i < |records| => Put(records[i], key, values[i]))
  }

  /** The projection keeps every permutation: reordering the records
      reorders the values the same way. */
  lemma PluckPermutation(a: seq<seq<Prop>>, b: seq<seq<Prop>>, key: string)
    requires multiset(a) == multiset(b)
    ensures multiset(Pluck(a, key)) == multiset(Pluck(b, key))
  {
    MapPermutation((item: seq<Prop>) => Lookup(item, key), a, b);
  }
}
