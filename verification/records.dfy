/** A JavaScript `Record<string, string>` as an association list: keys are
    unique and listed in insertion order, which is the order
    `Object.entries` reports for non-numeric keys. */
module Records {
  import opened Wrappers
  import opened Seqs

  type Record = seq<(string, string)>

  function Keys(rec: Record): (ks: seq<string>)
    ensures |ks| == |rec|
    ensures forall i :: 0 <= i < |rec| ==> ks[i] == rec[i].0
  {
    if rec == [] then [] else [rec[0].0] + Keys(rec[1..])
  }

  predicate UniqueKeys(rec: Record) {
    NoDuplicates(Keys(rec))
  }

  /** `rec[key]`, or `None` for a missing key. */
  function Lookup(rec: Record, key: string): (v: Option<string>)
    ensures v.Some? <==> key in Keys(rec)
    ensures v.Some? ==> (key, v.value) in rec
  {
    if rec == [] then None
    else if rec[0].0 == key then Some(rec[0].1)
    else
      Lookup(rec[1..], key)
  }

  /** With unique keys, each entry's key reads that entry's value. */
  lemma LookupAt(rec: Record, i: nat)
    requires UniqueKeys(rec) && i < |rec|
    ensures Lookup(rec, rec[i].0) == Some(rec[i].1)
  {
  }


  /** `rec[key] = value`: an existing key keeps its position and takes the
      new value; a new key is appended. */
  function Assign(rec: Record, key: string, value: string): (r: Record)
    ensures Keys(r) == if key in Keys(rec) then Keys(rec) else Keys(rec) + [key]
    ensures Lookup(r, key) == Some(value)
    ensures forall k :: k != key ==> Lookup(r, k) == Lookup(rec, k)
  {
    if rec == [] then [(key, value)]
    else
      assert Keys(rec) == [rec[0].0] + Keys(rec[1..]);
      if rec[0].0 == key then
        var r := [(key, value)] + rec[1..];
        assert Keys(r) == [key] + Keys(rec[1..]);
        r
      else
        var t := Assign(rec[1..], key, value);
        var r := [rec[0]] + t;
        assert Keys(r) == [rec[0].0] + Keys(t);
        r
  }

  lemma AssignUniqueKeys(rec: Record, key: string, value: string)
    requires UniqueKeys(rec)
    ensures UniqueKeys(Assign(rec, key, value))
  {
  }

  /** `{ ...base, ...top }`: the entries of `top` assigned, in order, onto a
      copy of `base`. */
  function Overlay(base: Record, top: Record): (r: Record)
    requires UniqueKeys(base)
    ensures UniqueKeys(r)
    ensures Keys(r) == DistinctFrom(Keys(base), Keys(top))
    ensures Keys(base) <= Keys(r)
    ensures forall k :: k in Keys(r) <==> k in Keys(base) || k in Keys(top)
    decreases |top|
  {
    if top == [] then base
    else
      var next := Assign(base, top[0].0, top[0].1);
      AssignUniqueKeys(base, top[0].0, top[0].1);
      var r := Overlay(next, top[1..]);
      assert Keys(top) == [top[0].0] + Keys(top[1..]);
      r
  }

  /** Overlaid values: `top` wins wherever it defines the key. */
  lemma {:induction false} OverlayLookup(base: Record, top: Record, k: string)
    requires UniqueKeys(base) && UniqueKeys(top)
    ensures Lookup(Overlay(base, top), k)
         == if Lookup(top, k).Some? then Lookup(top, k) else Lookup(base, k)
    decreases |top|
  {
    if top != [] {
      assert Keys(top) == [top[0].0] + Keys(top[1..]);
      assert UniqueKeys(top[1..]) by {
        assert Keys(top[1..]) == Keys(top)[1..];
      }
      var next := Assign(base, top[0].0, top[0].1);
      AssignUniqueKeys(base, top[0].0, top[0].1);
      OverlayLookup(next, top[1..], k);
      if k == top[0].0 {
        assert k !in Keys(top[1..]);
      }
    }
  }
}
