/**
 * The tag container of handshake messages (quic/tags.py): a dictionary keyed
 * by 32-bit tag numbers, where a tag given by name ("VER") is first turned into
 * its number by reading its ASCII bytes little-endian, and whose every read view
 * lists the entries in ascending order of that number, whatever the order of
 * insertion.
 */
module Tags {

  import opened Wrappers
  import opened Bytes
  import opened Seqs

  /** A key as callers pass it: a tag name such as "VER", or a number. */
  datatype TagKey = Name(s: string) | Number(n: int)

  /**
   * `_int_tag_name`: a name becomes the number whose little-endian bytes are its
   * ASCII codes; a number is returned unchanged. None where `bytes(s, 'ascii')`
   * raises UnicodeEncodeError.
   */
  function IntTagName(key: TagKey): (r: Option<int>)
    ensures key.Number? ==> r == Some(key.n)
    ensures key.Name? ==> (r.Some? <==> IsAscii(key.s))
    ensures key.Name? && r.Some? ==>
      0 <= r.value < Pow256(|key.s|) && LeBytes(r.value, |key.s|) == AsciiEncode(key.s).value
  {
    match key
    case Number(n) => Some(n)
    case Name(s) =>
      match AsciiEncode(s)
      case Some(b) => LeBytesOfValue(b); Some(LeValue(b))
      case None => None
  }

  /** Normalising a normalised key changes nothing. */
  lemma IntTagNameIdempotent(key: TagKey)
    requires IntTagName(key).Some?
    ensures IntTagName(Number(IntTagName(key).value)) == IntTagName(key)
  {
  }

  /** A tag name of at most four ASCII characters is a 32-bit number. */
  lemma TagNameFits32(s: string)
    requires IsAscii(s) && |s| <= 4
    ensures 0 <= IntTagName(Name(s)).value < 0x1_0000_0000
  {
    Pow256Monotone(|s|, 4);
  }

  lemma IntTagNameExample()
    ensures IntTagName(Name("1234")) == Some(0x34333231)
  {
    var b := AsciiEncode("1234").value;
    assert b == [0x31, 0x32, 0x33, 0x34];
  }

  // ---------------------------------------------------------------------------
  // The underlying dict: entries in insertion order, keys distinct.

  /** The pairs with key k given value v: in place if k is present, appended otherwise. */
  function Assign<V>(ps: seq<(int, V)>, k: int, v: V): (r: seq<(int, V)>)
    requires DistinctKeys(ps)
    ensures DistinctKeys(r) && KeySet(r) == KeySet(ps) + {k}
  {
    if k in KeySet(ps) then
      SameKeys(ps, Replace(ps, k, v));
      Replace(ps, k, v)
    else
      AppendKey(ps, (k, v));
      ps + [(k, v)]
  }

  /** The pairs with the value of every pair keyed k replaced by v. */
  function Replace<V>(ps: seq<(int, V)>, k: int, v: V): (r: seq<(int, V)>)
    ensures |r| == |ps| && forall i :: 0 <= i < |ps| ==> r[i] == if ps[i].0 == k then (k, v) else ps[i]
  {
    if ps == [] then [] else [if ps[0].0 == k then (k, v) else ps[0]] + Replace(ps[1..], k, v)
  }

  /** Pairs with the same keys in the same places have the same key set, distinct alike. */
  lemma SameKeys<V>(ps: seq<(int, V)>, r: seq<(int, V)>)
    requires |r| == |ps| && forall i :: 0 <= i < |ps| ==> r[i].0 == ps[i].0
    ensures KeySet(r) == KeySet(ps) && (DistinctKeys(ps) ==> DistinctKeys(r))
  {
    assert forall x :: x in KeySet(r) ==> x in KeySet(ps) by {
      forall x | x in KeySet(r) ensures x in KeySet(ps) {
        var i :| 0 <= i < |r| && r[i].0 == x;
      }
    }
  }

  /** Appending a pair with a new key keeps the keys distinct and adds that key. */
  lemma AppendKey<V>(ps: seq<(int, V)>, p: (int, V))
    requires DistinctKeys(ps) && p.0 !in KeySet(ps)
    ensures DistinctKeys(ps + [p]) && KeySet(ps + [p]) == KeySet(ps) + {p.0}
  {
    var r := ps + [p];
    assert r[|ps|].0 == p.0;
    forall i | 0 <= i < |ps| ensures r[i] == ps[i] && r[i].0 in KeySet(ps) {
    }
    assert forall x :: x in KeySet(r) ==> x in KeySet(ps) + {p.0} by {
      forall x | x in KeySet(r) ensures x in KeySet(ps) + {p.0} {
        var i :| 0 <= i < |r| && r[i].0 == x;
      }
    }
  }

  /** Setting a key in the underlying dict is a map update of its contents. */
  lemma AssignContents<V>(ps: seq<(int, V)>, k: int, v: V)
    requires DistinctKeys(ps)
    ensures DictOf(Assign(ps, k, v)) == DictOf(ps)[k := v]
  {
    if k !in KeySet(ps) {
      DictOfAppend(ps, (k, v));
    } else {
      AssignInPlaceContents(ps, k, v);
    }
  }

  lemma AssignInPlaceContents<V>(ps: seq<(int, V)>, k: int, v: V)
    requires DistinctKeys(ps) && k in KeySet(ps)
    ensures DictOf(Assign(ps, k, v)) == DictOf(ps)[k := v]
  {
    var r := Assign(ps, k, v);
    var m := DictOf(ps)[k := v];
    AssignKeys(ps, k, v);
    forall key | key in DictOf(r) ensures DictOf(r)[key] == m[key] {
      AssignInPlaceValue(ps, k, v, key);
    }
  }

  lemma AssignInPlaceValue<V>(ps: seq<(int, V)>, k: int, v: V, key: int)
    requires DistinctKeys(ps) && k in KeySet(ps) && key in KeySet(Assign(ps, k, v))
    ensures var r := Assign(ps, k, v);
      key in DictOf(r) && key in DictOf(ps)[k := v] && DictOf(r)[key] == DictOf(ps)[k := v][key]
  {
    var r := Assign(ps, k, v);
    var i :| 0 <= i < |r| && r[i].0 == key;
    AssignInPlaceAt(ps, k, v, i);
  }

  lemma AssignKeys<V>(ps: seq<(int, V)>, k: int, v: V)
    requires DistinctKeys(ps)
    ensures DictOf(Assign(ps, k, v)).Keys == DictOf(ps)[k := v].Keys == KeySet(Assign(ps, k, v))
  {
    DictOfKeys(Assign(ps, k, v));
    DictOfKeys(ps);
  }

  lemma AssignInPlaceAt<V>(ps: seq<(int, V)>, k: int, v: V, i: nat)
    requires DistinctKeys(ps) && k in KeySet(ps) && i < |ps|
    ensures i < |Assign(ps, k, v)|
    ensures var r := Assign(ps, k, v);
      r[i].0 in DictOf(r) && r[i].0 in DictOf(ps)[k := v] && DictOf(r)[r[i].0] == DictOf(ps)[k := v][r[i].0]
  {
    var r := Assign(ps, k, v);
    DictOfDistinct(r, i);
    DictOfDistinct(ps, i);
  }

  /** The underlying dict after `c[k] = v` for every pair of kvs in turn, starting from ps. */
  function AssignAll<V>(ps: seq<(int, V)>, kvs: seq<(TagKey, V)>): (r: seq<(int, V)>)
    requires DistinctKeys(ps)
    requires forall i :: 0 <= i < |kvs| ==> IntTagName(kvs[i].0).Some?
    ensures DistinctKeys(r)
  {
    if kvs == [] then ps
    else
      var last := kvs[|kvs| - 1];
      Assign(AssignAll(ps, kvs[..|kvs| - 1]), IntTagName(last.0).value, last.1)
  }

  /** The pairs of kvs with their keys normalised. */
  function Normalised<V>(kvs: seq<(TagKey, V)>): (r: seq<(int, V)>)
    requires forall i :: 0 <= i < |kvs| ==> IntTagName(kvs[i].0).Some?
    ensures |r| == |kvs|
  {
    seq(|kvs|, i requires 0 <= i < |kvs| => (IntTagName(kvs[i].0).value, kvs[i].1))
  }

  lemma NormalisedSnoc<V>(kvs: seq<(TagKey, V)>)
    requires kvs != []
    requires forall i :: 0 <= i < |kvs| ==> IntTagName(kvs[i].0).Some?
    ensures Normalised(kvs) == Normalised(kvs[..|kvs| - 1]) + [Normalised(kvs)[|kvs| - 1]]
  {
    var init := kvs[..|kvs| - 1];
    assert forall i :: 0 <= i < |init| ==> init[i] == kvs[i];
  }

  /** `dict(ps + [p])` is `dict(ps)` with p's key set to p's value. */
  lemma {:induction false} DictOfAppend<K, V>(ps: seq<(K, V)>, p: (K, V))
    ensures DictOf(ps + [p]) == DictOf(ps)[p.0 := p.1]
  {
    if ps != [] {
      assert (ps + [p])[1..] == ps[1..] + [p];
      DictOfAppend(ps[1..], p);
    } else {
      assert (ps + [p])[1..] == [];
    }
  }

  /**
   * Inserting the pairs one by one through `__setitem__` gives the contents of
   * `dict` over the normalised keys: a later pair wins over an earlier one.
   */
  lemma {:induction false} AssignAllContents<V>(kvs: seq<(TagKey, V)>)
    requires forall i :: 0 <= i < |kvs| ==> IntTagName(kvs[i].0).Some?
    ensures DictOf(AssignAll([], kvs)) == DictOf(Normalised(kvs))
  {
    if kvs != [] {
      var init := kvs[..|kvs| - 1];
      AssignAllContents(init);
      AssignContents(AssignAll([], init), IntTagName(kvs[|kvs| - 1].0).value, kvs[|kvs| - 1].1);
      NormalisedSnoc(kvs);
      DictOfAppend(Normalised(init), Normalised(kvs)[|kvs| - 1]);
    }
  }

  // ---------------------------------------------------------------------------
  // The sorted views: Python's `sorted` over the entries and over the keys.

  predicate StrictlyAscending<V>(ps: seq<(int, V)>)
  {
    forall i, j :: 0 <= i < j < |ps| ==> ps[i].0 < ps[j].0
  }

  function InsertByKey<V>(p: (int, V), s: seq<(int, V)>): seq<(int, V)>
  {
    if s == [] then [p]
    else if p.0 <= s[0].0 then [p] + s
    else [s[0]] + InsertByKey(p, s[1..])
  }

  /** `sorted(d.items())`; the keys of a dict are distinct, so values are never compared. */
  function SortByKey<V>(ps: seq<(int, V)>): seq<(int, V)>
  {
    if ps == [] then [] else InsertByKey(ps[0], SortByKey(ps[1..]))
  }

  function InsertInt(k: int, s: seq<int>): seq<int>
  {
    if s == [] then [k]
    else if k <= s[0] then [k] + s
    else [s[0]] + InsertInt(k, s[1..])
  }

  /** `sorted(d.keys())`. */
  function SortInts(ks: seq<int>): seq<int>
  {
    if ks == [] then [] else InsertInt(ks[0], SortInts(ks[1..]))
  }

  function Firsts<V>(ps: seq<(int, V)>): (r: seq<int>)
    ensures |r| == |ps| && forall i :: 0 <= i < |ps| ==> r[i] == ps[i].0
  {
    seq(|ps|, i requires 0 <= i < |ps| => ps[i].0)
  }

  function Seconds<V>(ps: seq<(int, V)>): (r: seq<V>)
    ensures |r| == |ps| && forall i :: 0 <= i < |ps| ==> r[i] == ps[i].1
  {
    seq(|ps|, i requires 0 <= i < |ps| => ps[i].1)
  }

  lemma {:induction false} InsertByKeyPermutation<V>(p: (int, V), s: seq<(int, V)>)
    ensures multiset(InsertByKey(p, s)) == multiset(s) + multiset{p}
  {
    if s != [] && p.0 > s[0].0 {
      InsertByKeyPermutation(p, s[1..]);
      assert s == [s[0]] + s[1..];
    }
  }

  /** Sorting the entries neither loses nor adds any. */
  lemma {:induction false} SortByKeyPermutation<V>(ps: seq<(int, V)>)
    ensures multiset(SortByKey(ps)) == multiset(ps)
  {
    if ps != [] {
      SortByKeyPermutation(ps[1..]);
      InsertByKeyPermutation(ps[0], SortByKey(ps[1..]));
      assert ps == [ps[0]] + ps[1..];
    }
  }

  lemma {:induction false} InsertByKeyAscending<V>(p: (int, V), s: seq<(int, V)>)
    requires StrictlyAscending(s)
    requires forall i :: 0 <= i < |s| ==> s[i].0 != p.0
    ensures StrictlyAscending(InsertByKey(p, s))
  {
    if s != [] && p.0 > s[0].0 {
      InsertByKeyAscending(p, s[1..]);
      InsertByKeyAbove(p, s[1..], s[0].0);
    }
  }

  /** Inserting keeps every key above a bound that all keys were above. */
  lemma {:induction false} InsertByKeyAbove<V>(p: (int, V), s: seq<(int, V)>, b: int)
    requires b < p.0 && forall i :: 0 <= i < |s| ==> b < s[i].0
    ensures forall i :: 0 <= i < |InsertByKey(p, s)| ==> b < InsertByKey(p, s)[i].0
  {
    if s != [] && p.0 > s[0].0 {
      InsertByKeyAbove(p, s[1..], b);
    }
  }

  /** The entries of a dict, sorted, have strictly ascending keys. */
  lemma {:induction false} SortByKeyAscending<V>(ps: seq<(int, V)>)
    requires DistinctKeys(ps)
    ensures StrictlyAscending(SortByKey(ps))
  {
    if ps != [] {
      var rest := SortByKey(ps[1..]);
      SortByKeyAscending(ps[1..]);
      SortByKeyPermutation(ps[1..]);
      forall i | 0 <= i < |rest| ensures rest[i].0 != ps[0].0 {
        assert rest[i] in multiset(ps[1..]);
        var j :| 0 <= j < |ps[1..]| && ps[1..][j] == rest[i];
        assert ps[j + 1] == rest[i];
      }
      InsertByKeyAscending(ps[0], rest);
    }
  }

  /** Two dicts with distinct keys holding the same entries have the same contents. */
  lemma DictOfPermutation<V>(a: seq<(int, V)>, b: seq<(int, V)>)
    requires DistinctKeys(a) && DistinctKeys(b) && multiset(a) == multiset(b)
    ensures DictOf(a) == DictOf(b)
  {
    DictOfKeys(a);
    DictOfKeys(b);
    forall k | k in KeySet(a) ensures k in KeySet(b) {
      var i :| 0 <= i < |a| && a[i].0 == k;
      assert a[i] in multiset(b);
    }
    forall k | k in KeySet(b) ensures k in KeySet(a) {
      var i :| 0 <= i < |b| && b[i].0 == k;
      assert b[i] in multiset(a);
    }
    forall k | k in DictOf(a) ensures DictOf(a)[k] == DictOf(b)[k] {
      var i :| 0 <= i < |a| && a[i].0 == k;
      assert a[i] in multiset(b);
      var j :| 0 <= j < |b| && b[j] == a[i];
      DictOfDistinct(a, i);
      DictOfDistinct(b, j);
    }
  }

  /** The first entry of a key-ascending list has the least key. */
  lemma HeadIsLeast<V>(a: seq<(int, V)>)
    requires StrictlyAscending(a) && a != []
    ensures forall k :: k in KeySet(a) ==> a[0].0 <= k
  {
    forall k | k in KeySet(a) ensures a[0].0 <= k {
      var i :| 0 <= i < |a| && a[i].0 == k;
    }
  }

  /** Two key-ascending entry lists with the same contents are the same list. */
  lemma {:induction false} AscendingUnique<V>(a: seq<(int, V)>, b: seq<(int, V)>)
    requires StrictlyAscending(a) && StrictlyAscending(b)
    requires DictOf(a) == DictOf(b)
    ensures a == b
  {
    DictOfKeys(a);
    DictOfKeys(b);
    if a != [] && b != [] {
      assert a[0].0 in KeySet(a) && b[0].0 in KeySet(b);
      HeadIsLeast(a);
      HeadIsLeast(b);
      DictOfTail(a);
      DictOfTail(b);
      AscendingUnique(a[1..], b[1..]);
      assert a == [a[0]] + a[1..] && b == [b[0]] + b[1..];
    } else {
      KeySetEmpty(a);
      KeySetEmpty(b);
    }
  }

  /**
   * The sorted entries depend only on the dict's contents: two insertion
   * histories that end with the same contents list the same items.
   */
  lemma SortIndependentOfInsertionOrder<V>(ps: seq<(int, V)>, qs: seq<(int, V)>)
    requires DistinctKeys(ps) && DistinctKeys(qs) && DictOf(ps) == DictOf(qs)
    ensures SortByKey(ps) == SortByKey(qs)
  {
    SortByKeyContents(ps);
    SortByKeyContents(qs);
    AscendingUnique(SortByKey(ps), SortByKey(qs));
  }

  /** The sorted entries are ascending and hold exactly the dict's contents. */
  lemma SortByKeyContents<V>(ps: seq<(int, V)>)
    requires DistinctKeys(ps)
    ensures StrictlyAscending(SortByKey(ps)) && DistinctKeys(SortByKey(ps))
    ensures DictOf(SortByKey(ps)) == DictOf(ps) && |SortByKey(ps)| == |ps|
  {
    SortByKeyAscending(ps);
    SortByKeyPermutation(ps);
    assert |multiset(SortByKey(ps))| == |multiset(ps)|;
    DictOfPermutation(SortByKey(ps), ps);
  }

  lemma {:induction false} InsertFirsts<V>(p: (int, V), s: seq<(int, V)>)
    ensures Firsts(InsertByKey(p, s)) == InsertInt(p.0, Firsts(s))
  {
    if s == [] {
    } else if p.0 <= s[0].0 {
      FirstsCons(p, s);
    } else {
      InsertFirsts(p, s[1..]);
      FirstsCons(s[0], InsertByKey(p, s[1..]));
      FirstsCons(s[0], s[1..]);
      assert [s[0]] + s[1..] == s;
    }
  }

  lemma FirstsCons<V>(p: (int, V), s: seq<(int, V)>)
    ensures Firsts([p] + s) == [p.0] + Firsts(s)
  {
  }

  /** Sorting the keys alone gives the keys of the sorted entries, in the same order. */
  lemma {:induction false} SortIntsFirsts<V>(ps: seq<(int, V)>)
    ensures SortInts(Firsts(ps)) == Firsts(SortByKey(ps))
  {
    if ps != [] {
      SortIntsFirsts(ps[1..]);
      assert Firsts(ps)[1..] == Firsts(ps[1..]);
      InsertFirsts(ps[0], SortByKey(ps[1..]));
    }
  }

  // ---------------------------------------------------------------------------

  /** `tags.Container`: a dict keyed by normalised tag numbers with sorted read views. */
  class Container<V> {
    /** The underlying dict's entries in insertion order, keys already normalised. */
    var pairs: seq<(int, V)>

    predicate Valid()
      reads this
    {
      DistinctKeys(pairs)
    }

    /** The entries held, as a map from tag number to value. */
    function Contents(): map<int, V>
      reads this
    {
      DictOf(pairs)
    }

    /** `Container(init_tags)`: every pair of the dict is set in turn through `__setitem__`. */
    constructor (init: seq<(TagKey, V)>)
      requires forall i :: 0 <= i < |init| ==> IntTagName(init[i].0).Some?
      ensures Valid() && pairs == AssignAll([], init)
    {
      pairs := [];
      new;
      var i := 0;
      while i < |init|
        invariant 0 <= i <= |init|
        invariant Valid() && pairs == AssignAll([], init[..i])
      {
        var ok := Set(init[i].0, init[i].1);
        assert init[..i + 1][..i] == init[..i];
        i := i + 1;
      }
      assert init[..i] == init;
    }

    /** `c[key] = value`: an existing entry takes the new value in place, a new key is appended. */
    method Set(key: TagKey, value: V) returns (ok: bool)
      requires Valid()
      modifies this
      ensures Valid()
      ensures ok <==> IntTagName(key).Some?
      ensures !ok ==> pairs == old(pairs)
      ensures ok ==> pairs == Assign(old(pairs), IntTagName(key).value, value)
      ensures ok ==> Contents() == old(Contents())[IntTagName(key).value := value]
      ensures ok ==> Get(key) == Some(value)
    {
      var k := IntTagName(key);
      if k.None? {
        return false;
      }
      AssignContents(pairs, k.value, value);
      pairs := Assign(pairs, k.value, value);
      ok := true;
    }

    /** `c[key]`: None where Python raises KeyError (or UnicodeEncodeError for the key). */
    function Get(key: TagKey): (r: Option<V>)
      reads this
      ensures r.Some? <==> IntTagName(key).Some? && IntTagName(key).value in Contents()
      ensures r.Some? ==> r.value == Contents()[IntTagName(key).value]
    {
      match IntTagName(key)
      case None => None
      case Some(k) => if k in Contents() then Some(Contents()[k]) else None
    }

    /** `c.items()`: every entry, by strictly ascending tag number. */
    function Items(): (r: seq<(int, V)>)
      reads this
      requires Valid()
      ensures StrictlyAscending(r) && DictOf(r) == Contents() && |r| == |pairs|
    {
      SortByKeyContents(pairs);
      SortByKey(pairs)
    }

    /** `c.keys()`: the tag numbers, ascending; the same as the keys of `items()`. */
    function Keys(): (r: seq<int>)
      reads this
      requires Valid()
      ensures r == Firsts(Items())
    {
      SortIntsFirsts(pairs);
      SortInts(Firsts(pairs))
    }

    /** `c.values()`: the value of the i-th smallest tag number at position i. */
    function Values(): (r: seq<V>)
      reads this
      requires Valid()
      ensures |r| == |Keys()|
      ensures forall i :: 0 <= i < |r| ==> Keys()[i] in Contents() && r[i] == Contents()[Keys()[i]]
    {
      var items := Items();
      forall i | 0 <= i < |items| ensures items[i].0 in Contents() && items[i].1 == Contents()[items[i].0] {
        DictOfDistinct(items, i);
      }
      Seconds(items)
    }
  }
}
