/** A JavaScript object used as a string-keyed dictionary (`{ [key: string]: V }`).
    Object.keys enumerates such an object in key insertion order, and the source's
    loops and `find` depend on that order, so a dictionary is an association list in
    insertion order whose keys are distinct: assigning to a present key keeps its
    position, assigning to a new key appends it, and `delete` drops the entry. */
module Dicts {
  import opened Seqs

  datatype Option<T> = None | Some(value: T)

  type Dict<V> = seq<(string, V)>

  /** `Object.keys(d)`. */
  function Keys<V>(d: Dict<V>): (ks: seq<string>)
    ensures |ks| == |d|
    ensures forall i :: 0 <= i < |d| ==> ks[i] == d[i].0
  {
    if d == [] then [] else [d[0].0] + Keys(d[1..])
  }

  /** Every JavaScript object has distinct keys; this is the invariant of the model. */
  ghost predicate DistinctKeys<V>(d: Dict<V>) {
    Distinct(Keys(d))
  }

  /** `d[k]`, with `undefined` as None. */
  function Get<V>(d: Dict<V>, k: string): (r: Option<V>)
    ensures r.Some? <==> k in Keys(d)
    ensures r.Some? ==> (k, r.value) in d
    ensures DistinctKeys(d) ==> forall i :: 0 <= i < |d| && d[i].0 == k ==> r == Some(d[i].1)
  {
    if d == [] then None
    else if d[0].0 == k then Some(d[0].1)
    else
      assert Keys(d) == [d[0].0] + Keys(d[1..]);
      Get(d[1..], k)
  }

  /** `d[k] = v`: a present key keeps its place, a new key goes last (see PutKeys). */
  function Put<V>(d: Dict<V>, k: string, v: V): (r: Dict<V>)
    ensures Get(r, k) == Some(v)
    ensures forall k' :: k' != k ==> Get(r, k') == Get(d, k')
  {
    if d == [] then [(k, v)]
    else if d[0].0 == k then [(k, v)] + d[1..]
    else [d[0]] + Put(d[1..], k, v)
  }

  /** `delete d[k]`: drops the entry for `k`, if any, and keeps the order of the rest. */
  function Remove<V>(d: Dict<V>, k: string): (r: Dict<V>)
    ensures Get(r, k) == None
    ensures forall k' :: k' != k ==> Get(r, k') == Get(d, k')
    ensures forall i :: 0 <= i < |r| ==> r[i].0 != k
    ensures forall i :: 0 <= i < |d| && d[i].0 != k ==> d[i] in r
    ensures IsSubsequence(r, d)
    ensures k !in Keys(d) ==> r == d
  {
    if d == [] then []
    else
      assert Keys(d) == [d[0].0] + Keys(d[1..]);
      if d[0].0 == k then Remove(d[1..], k)
      else [d[0]] + Remove(d[1..], k)
  }

  /** The entries whose value satisfies `p`, in the order of `d` (lodash `pickBy`). */
  function Filter<V>(d: Dict<V>, p: V -> bool): (r: Dict<V>)
    ensures forall i :: 0 <= i < |r| ==> p(r[i].1)
    ensures forall i :: 0 <= i < |d| && p(d[i].1) ==> d[i] in r
    ensures IsSubsequence(r, d)
  {
    if d == [] then []
    else if p(d[0].1) then [d[0]] + Filter(d[1..], p)
    else Filter(d[1..], p)
  }

  /** The first key, in the order of `d`, whose value satisfies `p`
      (`Object.keys(d).find(key => p(d[key]))`). */
  function FindKey<V>(d: Dict<V>, p: V -> bool): (r: Option<string>)
    ensures r.None? <==> forall i :: 0 <= i < |d| ==> !p(d[i].1)
    ensures r.Some? ==> exists i :: 0 <= i < |d| && d[i].0 == r.value && p(d[i].1) &&
                                    forall j :: 0 <= j < i ==> !p(d[j].1)
  {
    if d == [] then None
    else if p(d[0].1) then Some(d[0].0)
    else
      var r := FindKey(d[1..], p);
      assert r.Some? ==> exists i :: 0 <= i < |d[1..]| && d[1..][i].0 == r.value && p(d[1..][i].1) &&
                                     forall j :: 0 <= j < i ==> !p(d[1..][j].1);
      assert r.Some? ==> exists i :: 1 <= i < |d| && d[i].0 == r.value && p(d[i].1) &&
                                     forall j :: 0 <= j < i ==> !p(d[j].1);
      r
  }

  /** Assigns every entry of `d`, in order, into `base` (right-biased union). */
  function Overlay<V>(base: Dict<V>, d: Dict<V>): (r: Dict<V>)
    ensures DistinctKeys(base) ==> DistinctKeys(r)
  {
    if d == [] then base
    else
      var prev := Overlay(base, d[..|d| - 1]);
      PutDistinct(prev, d[|d| - 1].0, d[|d| - 1].1);
      Put(prev, d[|d| - 1].0, d[|d| - 1].1)
  }

  /** The same keys, each value passed through `f`. */
  function MapValues<V, W>(d: Dict<V>, f: V -> W): (r: Dict<W>)
    ensures Keys(r) == Keys(d)
  {
    if d == [] then []
    else
      assert Keys(d) == [d[0].0] + Keys(d[1..]);
      var r := [(d[0].0, f(d[0].1))] + MapValues(d[1..], f);
      assert Keys(r) == [d[0].0] + Keys(MapValues(d[1..], f));
      r
  }

  /** Every key passed through `f`, in place, values untouched. */
  function Renamed<V>(d: Dict<V>, f: string -> string): (r: Dict<V>)
    ensures |r| == |d|
    ensures forall i :: 0 <= i < |d| ==> r[i] == (f(d[i].0), d[i].1)
  {
    if d == [] then [] else [(f(d[0].0), d[0].1)] + Renamed(d[1..], f)
  }

  /** lodash `mapKeys(d, (_, key) => f(key))`: every entry of `d`, in order, assigned
      into a new object under `f` of its key, so that the later of two entries whose
      keys `f` merges wins. */
  function MapKeys<V>(d: Dict<V>, f: string -> string): (r: Dict<V>)
    ensures DistinctKeys(r)
  {
    Overlay([], Renamed(d, f))
  }

  /** `f` sends no two of the keys `ks` to the same key. */
  ghost predicate InjectiveOn(f: string -> string, ks: seq<string>) {
    forall i, j :: 0 <= i < |ks| && 0 <= j < |ks| && f(ks[i]) == f(ks[j]) ==> ks[i] == ks[j]
  }

  /** The keys of `ks` that are not in `present`, in the order of `ks`. */
  function NewKeys(ks: seq<string>, present: seq<string>): (r: seq<string>)
    ensures forall k :: k in r <==> k in ks && k !in present
  {
    if ks == [] then []
    else NewKeys(ks[..|ks| - 1], present) + (if ks[|ks| - 1] in present then [] else [ks[|ks| - 1]])
  }

  // ---- lemmas

  lemma AppendAssoc<T>(a: seq<T>, b: seq<T>, c: seq<T>)
    ensures a + b + c == a + (b + c)
  {
  }

  /** Assigning keeps the position of a present key and appends a new one. */
  lemma {:induction false} PutKeys<V>(d: Dict<V>, k: string, v: V)
    ensures Keys(Put(d, k, v)) == if k in Keys(d) then Keys(d) else Keys(d) + [k]
  {
    if d != [] {
      assert Keys(d) == [d[0].0] + Keys(d[1..]);
      if d[0].0 != k {
        PutKeys(d[1..], k, v);
        assert Keys(Put(d, k, v)) == [d[0].0] + Keys(Put(d[1..], k, v));
      }
    }
  }

  lemma PutDistinct<V>(d: Dict<V>, k: string, v: V)
    ensures DistinctKeys(d) ==> DistinctKeys(Put(d, k, v))
  {
    PutKeys(d, k, v);
  }

  /** Splitting off the last entry of a dictionary. */
  lemma {:induction false} KeysSnoc<V>(d: Dict<V>)
    requires d != []
    ensures Keys(d) == Keys(d[..|d| - 1]) + [d[|d| - 1].0]
    ensures DistinctKeys(d) ==> DistinctKeys(d[..|d| - 1]) && d[|d| - 1].0 !in Keys(d[..|d| - 1])
  {
    var n := |d| - 1;
    var ks, pre := Keys(d), Keys(d[..n]);
    assert ks == pre + [d[n].0];
    if DistinctKeys(d) {
      assert Distinct(pre) by {
        forall i, j | 0 <= i < j < |pre| ensures pre[i] != pre[j] {
          assert pre[i] == ks[i] && pre[j] == ks[j];
        }
      }
      assert d[n].0 !in pre by {
        forall i | 0 <= i < |pre| ensures pre[i] != d[n].0 {
          assert pre[i] == ks[i] && ks[n] == d[n].0;
        }
      }
    }
  }

  lemma {:induction false} GetPrefix<V>(d: Dict<V>, k: string)
    requires DistinctKeys(d) && d != [] && k != d[|d| - 1].0
    ensures Get(d, k) == Get(d[..|d| - 1], k)
  {
    var n := |d| - 1;
    KeysSnoc(d);
    if k in Keys(d) {
      var v := Get(d, k).value;
      var i :| 0 <= i < |d| && d[i] == (k, v);
      assert i < n;
      assert d[..n][i] == (k, v);
    }
  }

  /** Looking up a key after Overlay: `d` wins where it has the key. */
  lemma {:induction false} OverlayGet<V>(base: Dict<V>, d: Dict<V>, k: string)
    requires DistinctKeys(d)
    ensures Get(Overlay(base, d), k) == if k in Keys(d) then Get(d, k) else Get(base, k)
  {
    if d != [] {
      var n := |d| - 1;
      var prev := d[..n];
      KeysSnoc(d);
      OverlayGet(base, prev, k);
      assert Overlay(base, d) == Put(Overlay(base, prev), d[n].0, d[n].1);
      if k == d[n].0 {
        assert Get(d, k) == Some(d[n].1);
      } else {
        GetPrefix(d, k);
      }
    }
  }

  /** Looking up a key after Overlay when `d` may repeat keys: the LAST entry of `d`
      under the key wins, and `base` answers when `d` has none. */
  lemma {:induction false} OverlayGetLast<V>(base: Dict<V>, d: Dict<V>, k: string)
    ensures (forall i :: 0 <= i < |d| ==> d[i].0 != k) ==> Get(Overlay(base, d), k) == Get(base, k)
    ensures forall i :: 0 <= i < |d| && d[i].0 == k && (forall j :: i < j < |d| ==> d[j].0 != k) ==>
      Get(Overlay(base, d), k) == Some(d[i].1)
  {
    if d != [] {
      var n := |d| - 1;
      var prev := d[..n];
      OverlayGetLast(base, prev, k);
      var o := Overlay(base, prev);
      var r := Overlay(base, d);
      assert r == Put(o, d[n].0, d[n].1);
      forall i | 0 <= i < |d| && d[i].0 == k && (forall j :: i < j < |d| ==> d[j].0 != k)
        ensures Get(r, k) == Some(d[i].1)
      {
        if i == n {
          assert Get(r, k) == Some(d[n].1);
        } else {
          assert d[n].0 != k && prev[i] == d[i];
          forall j | i < j < n
            ensures prev[j].0 != k
          {
            assert prev[j] == d[j];
          }
          assert Get(o, k) == Some(prev[i].1);
          assert Get(r, k) == Get(o, k);
        }
      }
      if forall i :: 0 <= i < |d| ==> d[i].0 != k {
        forall i | 0 <= i < n
          ensures prev[i].0 != k
        {
          assert prev[i] == d[i];
        }
      }
    }
  }

  /** The keys after Overlay: those of `base`, then the new keys of `d` in `d`'s order. */
  lemma {:induction false} OverlayKeys<V>(base: Dict<V>, d: Dict<V>)
    requires DistinctKeys(d)
    ensures Keys(Overlay(base, d)) == Keys(base) + NewKeys(Keys(d), Keys(base))
  {
    if d != [] {
      var n := |d| - 1;
      var prev := d[..n];
      var last := d[n].0;
      KeysSnoc(d);
      OverlayKeys(base, prev);
      var o := Overlay(base, prev);
      assert Overlay(base, d) == Put(o, last, d[n].1);
      PutKeys(o, last, d[n].1);
      var tail := NewKeys(Keys(prev), Keys(base));
      assert Keys(o) == Keys(base) + tail;
      assert last in Keys(o) <==> last in Keys(base);
      assert Keys(d)[..n] == Keys(prev);
      assert NewKeys(Keys(d), Keys(base)) == tail + (if last in Keys(base) then [] else [last]);
      if last in Keys(base) {
        assert Keys(Overlay(base, d)) == Keys(o);
      } else {
        assert Keys(Overlay(base, d)) == Keys(o) + [last];
        AppendAssoc(Keys(base), tail, [last]);
      }
    }
  }

  lemma {:induction false} PutPresent<V>(d: Dict<V>, k: string, v: V)
    requires DistinctKeys(d) && (k, v) in d
    ensures Put(d, k, v) == d
  {
    assert Keys(d) == [d[0].0] + Keys(d[1..]);
    if d[0].0 != k {
      assert DistinctKeys(d[1..]) by {
        assert Keys(d[1..]) == Keys(d)[1..];
      }
      PutPresent(d[1..], k, v);
    } else {
      assert d[0] == (k, v) by {
        var i :| 0 <= i < |d| && d[i] == (k, v);
        assert Keys(d)[i] == k;
      }
      assert d == [(k, v)] + d[1..];
    }
  }

  /** Overlaying entries that are already present changes nothing; in particular a
      dictionary overlaid with itself is unchanged. */
  lemma {:induction false} OverlayContained<V>(base: Dict<V>, d: Dict<V>)
    requires DistinctKeys(base)
    requires forall e :: e in d ==> e in base
    ensures Overlay(base, d) == base
  {
    if d != [] {
      var n := |d| - 1;
      OverlayContained(base, d[..n]);
      PutPresent(base, d[n].0, d[n].1);
    }
  }

  lemma OverlaySnoc<V>(base: Dict<V>, d: Dict<V>, e: (string, V))
    ensures Overlay(base, d + [e]) == Put(Overlay(base, d), e.0, e.1)
  {
    assert (d + [e])[..|d|] == d;
  }

  /** One step of a loop that assigns each entry of `d` into `base`. */
  lemma OverlayStep<V>(base: Dict<V>, d: Dict<V>, i: nat)
    requires i < |d|
    ensures Overlay(base, d[..i + 1]) == Put(Overlay(base, d[..i]), d[i].0, d[i].1)
  {
    assert d[..i + 1][..i] == d[..i];
  }

  /** One step of a loop that assigns `f` of each entry of `d` into `base`. */
  lemma OverlayMapStep<V, W>(base: Dict<W>, d: Dict<V>, i: nat, f: V -> W)
    requires i < |d|
    ensures Overlay(base, MapValues(d[..i + 1], f)) == Put(Overlay(base, MapValues(d[..i], f)), d[i].0, f(d[i].1))
  {
    assert d[..i + 1] == d[..i] + [d[i]];
    MapValuesSnoc(d[..i], d[i], f);
    OverlaySnoc(base, MapValues(d[..i], f), (d[i].0, f(d[i].1)));
  }

  /** A key of the mapped object holds `f` of its value in `d`; other keys are absent. */
  lemma {:induction false} MapValuesGet<V, W>(d: Dict<V>, f: V -> W, k: string)
    ensures Get(MapValues(d, f), k) == if Get(d, k).Some? then Some(f(Get(d, k).value)) else None
  {
    if d != [] {
      MapValuesGet(d[1..], f, k);
      assert MapValues(d, f) == [(d[0].0, f(d[0].1))] + MapValues(d[1..], f);
    }
  }

  /** After the values of `d` are mapped through `f` and assigned over `base`, a key of
      `d` holds its mapped value and any other key keeps its value in `base`. */
  lemma MappedLookup<V, W>(base: Dict<W>, d: Dict<V>, f: V -> W, k: string)
    requires DistinctKeys(d)
    ensures Get(Overlay(base, MapValues(d, f)), k) ==
      if Get(d, k).Some? then Some(f(Get(d, k).value)) else Get(base, k)
  {
    MapValuesGet(d, f, k);
    OverlayGet(base, MapValues(d, f), k);
  }

  /** Assigning entries with distinct keys into an empty object rebuilds them as they are. */
  lemma {:induction false} OverlayOntoEmpty<V>(d: Dict<V>)
    requires DistinctKeys(d)
    ensures Overlay([], d) == d
  {
    if d != [] {
      var n := |d| - 1;
      var prev := d[..n];
      KeysSnoc(d);
      OverlayOntoEmpty(prev);
      PutNew(prev, d[n].0, d[n].1);
      assert Overlay([], d) == Put(Overlay([], prev), d[n].0, d[n].1);
      assert prev + [d[n]] == d;
    }
  }

  /** Renaming the keys of an object through a function that merges none of them keeps
      them distinct. */
  lemma RenamedDistinct<V>(d: Dict<V>, f: string -> string)
    requires DistinctKeys(d) && InjectiveOn(f, Keys(d))
    ensures DistinctKeys(Renamed(d, f))
  {
    var r := Renamed(d, f);
    var kr, kd := Keys(r), Keys(d);
    forall i, j | 0 <= i < j < |kr| ensures kr[i] != kr[j] {
      assert kr[i] == f(kd[i]) && kr[j] == f(kd[j]);
      assert kd[i] != kd[j];
    }
    assert Distinct(kr);
  }

  /** When `f` merges no two keys, mapKeys renames every entry in place: same order, same
      values, keys passed through `f`. */
  lemma MapKeysRenames<V>(d: Dict<V>, f: string -> string)
    requires DistinctKeys(d) && InjectiveOn(f, Keys(d))
    ensures MapKeys(d, f) == Renamed(d, f)
  {
    RenamedDistinct(d, f);
    OverlayOntoEmpty(Renamed(d, f));
  }

  /** lodash `mapKeys` for any key map, merging or not: `k` holds the value of the LAST
      entry whose key `f` sends to `k`, and nothing when there is none. */
  lemma MapKeysGet<V>(d: Dict<V>, f: string -> string, k: string)
    ensures (forall i :: 0 <= i < |d| ==> f(d[i].0) != k) ==> Get(MapKeys(d, f), k) == None
    ensures forall i :: 0 <= i < |d| && f(d[i].0) == k && (forall j :: i < j < |d| ==> f(d[j].0) != k) ==>
      Get(MapKeys(d, f), k) == Some(d[i].1)
  {
    OverlayGetLast([], Renamed(d, f), k);
  }

  /** A key map with a left inverse on the keys of `d` merges none of them. */
  lemma LeftInverseInjective<V>(d: Dict<V>, f: string -> string, g: string -> string)
    requires forall i :: 0 <= i < |d| ==> g(f(d[i].0)) == d[i].0
    ensures InjectiveOn(f, Keys(d))
  {
    var kd := Keys(d);
    forall i, j | 0 <= i < |kd| && 0 <= j < |kd| && f(kd[i]) == f(kd[j])
      ensures kd[i] == kd[j]
    {
      assert g(f(d[i].0)) == g(f(d[j].0));
    }
  }

  /** Renaming with `f` and then with its left inverse `g` gives back `d`. */
  lemma RenamedBack<V>(d: Dict<V>, f: string -> string, g: string -> string)
    requires forall i :: 0 <= i < |d| ==> g(f(d[i].0)) == d[i].0
    ensures Renamed(Renamed(d, f), g) == d
  {
    var r := Renamed(d, f);
    var rr := Renamed(r, g);
    forall i | 0 <= i < |d| ensures rr[i] == d[i] {
      assert r[i] == (f(d[i].0), d[i].1);
    }
  }

  /** mapKeys with `g` undoes mapKeys with `f` when `g` inverts `f` on the keys. */
  lemma MapKeysRoundTrip<V>(d: Dict<V>, f: string -> string, g: string -> string)
    requires DistinctKeys(d)
    requires forall i :: 0 <= i < |d| ==> g(f(d[i].0)) == d[i].0
    ensures MapKeys(MapKeys(d, f), g) == d
  {
    LeftInverseInjective(d, f, g);
    MapKeysRenames(d, f);
    var r := Renamed(d, f);
    RenamedDistinct(d, f);
    RenamedBack(d, f, g);
    LeftInverseInjective(r, g, f);
    MapKeysRenames(r, g);
  }

  /** Mapping values with `g` undoes mapping them with `f` when `g` inverts `f` on them. */
  lemma {:induction false} MapValuesRoundTrip<V, W>(d: Dict<V>, f: V -> W, g: W -> V)
    requires forall i :: 0 <= i < |d| ==> g(f(d[i].1)) == d[i].1
    ensures MapValues(MapValues(d, f), g) == d
  {
    if d != [] {
      MapValuesRoundTrip(d[1..], f, g);
      assert MapValues(d, f) == [(d[0].0, f(d[0].1))] + MapValues(d[1..], f);
      assert MapValues(d, f)[1..] == MapValues(d[1..], f);
    }
  }

  /** Assigning a key that is not present appends the entry. */
  lemma {:induction false} PutNew<V>(d: Dict<V>, k: string, v: V)
    requires k !in Keys(d)
    ensures Put(d, k, v) == d + [(k, v)]
  {
    if d != [] {
      assert Keys(d) == [d[0].0] + Keys(d[1..]);
      PutNew(d[1..], k, v);
      assert d == [d[0]] + d[1..];
    }
  }

  /** One step of the loop that builds `Filter(d, p)` by assignment: the entry at `i` is
      either skipped or, its key being new, appended. */
  lemma FilterStep<V>(d: Dict<V>, i: nat, p: V -> bool)
    requires DistinctKeys(d) && i < |d|
    ensures Filter(d[..i + 1], p) == if p(d[i].1) then Put(Filter(d[..i], p), d[i].0, d[i].1) else Filter(d[..i], p)
  {
    assert d[..i + 1] == d[..i] + [d[i]];
    FilterSnoc(d[..i], d[i], p);
    if p(d[i].1) {
      var r := Filter(d[..i], p);
      assert d[i].0 !in Keys(r) by {
        KeysSnoc(d[..i + 1]);
        assert d[..i + 1][..i] == d[..i];
        SubsequenceKeys(r, d[..i]);
        SubsequenceMembers(Keys(r), Keys(d[..i]));
      }
      PutNew(r, d[i].0, d[i].1);
    }
  }

  lemma {:induction false} FilterSnoc<V>(d: Dict<V>, e: (string, V), p: V -> bool)
    ensures Filter(d + [e], p) == Filter(d, p) + (if p(e.1) then [e] else [])
  {
    if d == [] {
      assert d + [e] == [e];
    } else {
      assert (d + [e])[1..] == d[1..] + [e];
      FilterSnoc(d[1..], e, p);
    }
  }

  lemma {:induction false} MapValuesSnoc<V, W>(d: Dict<V>, e: (string, V), f: V -> W)
    ensures MapValues(d + [e], f) == MapValues(d, f) + [(e.0, f(e.1))]
  {
    if d == [] {
      assert d + [e] == [e];
    } else {
      assert (d + [e])[1..] == d[1..] + [e];
      MapValuesSnoc(d[1..], e, f);
    }
  }

  /** The keys of a subsequence form a subsequence of the keys. */
  lemma {:induction false} SubsequenceKeys<V>(a: Dict<V>, b: Dict<V>)
    requires IsSubsequence(a, b)
    ensures IsSubsequence(Keys(a), Keys(b))
  {
    if a != [] && b != [] {
      assert Keys(a) == [a[0].0] + Keys(a[1..]);
      assert Keys(b) == [b[0].0] + Keys(b[1..]);
      if a[0] == b[0] {
        SubsequenceKeys(a[1..], b[1..]);
      } else {
        SubsequenceKeys(a, b[1..]);
        SubsequenceCons(Keys(a), Keys(b[1..]), b[0].0);
      }
    }
  }

  /** Deleting entries keeps the keys distinct. */
  lemma SubsequenceDistinctKeys<V>(a: Dict<V>, b: Dict<V>)
    requires IsSubsequence(a, b)
    ensures DistinctKeys(b) ==> DistinctKeys(a)
  {
    SubsequenceKeys(a, b);
    if DistinctKeys(b) {
      SubsequenceDistinct(Keys(a), Keys(b));
    }
  }
}
