/**
 * Sequence combinators the codec is written with: concatenation of chunks,
 * the `dict(pairs)` constructor (a later pair wins), and the map/zip/drop
 * pipeline steps of the decoders.
 */
module Seqs {

  import opened Wrappers

  /** The concatenation of chunks, in order (`b''.join(vs)`). */
  function Concat<T>(vs: seq<seq<T>>): seq<T>
  {
    if vs == [] then [] else Concat(vs[..|vs| - 1]) + vs[|vs| - 1]
  }

  /** The chunks before index i form a prefix of the concatenation. */
  lemma {:induction false} ConcatPrefix<T>(vs: seq<seq<T>>, i: nat)
    requires i <= |vs|
    ensures |Concat(vs[..i])| <= |Concat(vs)|
    ensures Concat(vs)[..|Concat(vs[..i])|] == Concat(vs[..i])
  {
    if i < |vs| {
      var init := vs[..|vs| - 1];
      assert init[..i] == vs[..i];
      ConcatPrefix(init, i);
      assert Concat(vs) == Concat(init) + vs[|vs| - 1];
    } else {
      assert vs[..i] == vs;
    }
  }

  /** Chunk i sits between the lengths of the first i and the first i + 1 chunks. */
  lemma ConcatPart<T>(vs: seq<seq<T>>, i: nat)
    requires i < |vs|
    ensures |Concat(vs[..i])| + |vs[i]| == |Concat(vs[..i + 1])| <= |Concat(vs)|
    ensures Concat(vs)[|Concat(vs[..i])|..|Concat(vs[..i + 1])|] == vs[i]
  {
    ConcatPrefix(vs, i + 1);
    assert vs[..i + 1][..i] == vs[..i];
    assert Concat(vs[..i + 1]) == Concat(vs[..i]) + vs[i];
  }

  /** Chunks of one width w concatenate to w times as many elements. */
  lemma {:induction false} ConcatUniform<T>(vs: seq<seq<T>>, w: nat)
    requires forall k :: 0 <= k < |vs| ==> |vs[k]| == w
    ensures |Concat(vs)| == w * |vs|
  {
    if vs != [] {
      var init := vs[..|vs| - 1];
      assert forall k :: 0 <= k < |init| ==> init[k] == vs[k];
      ConcatUniform(init, w);
      assert |Concat(vs)| == w * |init| + w;
      assert w * |vs| == w * |init| + w;
    }
  }

  /** With chunks of one width w, chunk i sits at w * i. */
  lemma ConcatUniformPart<T>(vs: seq<seq<T>>, w: nat, i: nat)
    requires forall k :: 0 <= k < |vs| ==> |vs[k]| == w
    requires i < |vs|
    ensures |Concat(vs)| == w * |vs| && w * i + w <= |Concat(vs)|
    ensures Concat(vs)[w * i..w * i + w] == vs[i]
  {
    ConcatUniform(vs, w);
    ConcatPart(vs, i);
    ConcatUniform(vs[..i], w);
    assert w * i + w <= w * |vs| by {
      assert w * |vs| == w * i + w * (|vs| - i);
    }
  }

  lemma SliceOfSuffix<T>(s: seq<T>, k: nat, lo: nat, hi: nat)
    requires lo <= hi && k + hi <= |s|
    ensures s[k + lo..k + hi] == s[k..][lo..hi]
  {
  }

  lemma ConcatAppend<T>(vs: seq<seq<T>>, v: seq<T>)
    ensures Concat(vs + [v]) == Concat(vs) + v
  {
    assert (vs + [v])[..|vs|] == vs;
  }

  /** `f` applied to every element (`seq.map`). */
  function MapSeq<A, B>(f: A -> B, s: seq<A>): (r: seq<B>)
    ensures |r| == |s| && forall i :: 0 <= i < |s| ==> r[i] == f(s[i])
  {
    seq(|s|, i requires 0 <= i < |s| => f(s[i]))
  }

  /** Pairs of corresponding elements, as long as the shorter input (`seq.zip`). */
  function Zip<A, B>(a: seq<A>, b: seq<B>): (r: seq<(A, B)>)
    ensures |r| == if |a| < |b| then |a| else |b|
    ensures forall i :: 0 <= i < |r| ==> r[i] == (a[i], b[i])
  {
    var n := if |a| < |b| then |a| else |b|;
    seq(n, i requires 0 <= i < n => (a[i], b[i]))
  }

  /** Everything but the first element; empty stays empty (`seq.drop(1)`). */
  function Drop1<T>(s: seq<T>): (r: seq<T>)
    ensures |r| == if s == [] then 0 else |s| - 1
    ensures forall i :: 0 <= i < |r| ==> r[i] == s[i + 1]
  {
    if s == [] then [] else s[1..]
  }

  /** Zipping a sequence with its own tail pairs each element with the next. */
  lemma ZipDrop1At<T>(s: seq<T>, i: nat)
    requires i + 1 < |s|
    ensures |Zip(s, Drop1(s))| == |s| - 1 && Zip(s, Drop1(s))[i] == (s[i], s[i + 1])
  {
  }

  /** The values, when every element is present; None as soon as one is missing. */
  function AllSome<T>(os: seq<Option<T>>): (r: Option<seq<T>>)
    ensures r.Some? <==> forall i :: 0 <= i < |os| ==> os[i].Some?
    ensures r.Some? ==> |r.value| == |os| && forall i :: 0 <= i < |os| ==> r.value[i] == os[i].value
  {
    if os == [] then Some([])
    else match (os[0], AllSome(os[1..]))
      case (Some(x), Some(xs)) => Some([x] + xs)
      case _ => None
  }

  function KeySet<K(==), V>(ps: seq<(K, V)>): set<K>
  {
    set i | 0 <= i < |ps| :: ps[i].0
  }

  predicate DistinctKeys<K(==), V>(ps: seq<(K, V)>)
  {
    forall i, j :: 0 <= i < j < |ps| ==> ps[i].0 != ps[j].0
  }

  /**
   * `dict(ps)`: the map holding every key of ps; where a key occurs more than
   * once, the value of its last occurrence.
   */
  function DictOf<K(==), V>(ps: seq<(K, V)>): map<K, V>
  {
    if ps == [] then map[]
    else
      var rest := DictOf(ps[1..]);
      if ps[0].0 in rest then rest else rest[ps[0].0 := ps[0].1]
  }

  lemma {:induction false} DictOfKeys<K, V>(ps: seq<(K, V)>)
    ensures DictOf(ps).Keys == KeySet(ps)
  {
    if ps != [] {
      DictOfKeys(ps[1..]);
      assert KeySet(ps) == {ps[0].0} + KeySet(ps[1..]) by {
        forall k | k in KeySet(ps) ensures k in {ps[0].0} + KeySet(ps[1..]) {
          var i :| 0 <= i < |ps| && ps[i].0 == k;
          if i > 0 { assert ps[1..][i - 1].0 == k; }
        }
      }
    }
  }

  /** A key's value in `dict(ps)` is the one paired with it at its last occurrence. */
  lemma {:induction false} DictOfLastWins<K, V>(ps: seq<(K, V)>, i: nat)
    requires i < |ps|
    requires forall j :: i < j < |ps| ==> ps[j].0 != ps[i].0
    ensures ps[i].0 in DictOf(ps) && DictOf(ps)[ps[i].0] == ps[i].1
  {
    DictOfKeys(ps[1..]);
    if i > 0 {
      DictOfLastWins(ps[1..], i - 1);
    } else {
      assert ps[0].0 !in KeySet(ps[1..]) by {
        forall j | 0 <= j < |ps[1..]| ensures ps[1..][j].0 != ps[0].0 {
          assert ps[1..][j] == ps[j + 1];
        }
      }
    }
  }

  lemma DictOfDistinct<K, V>(ps: seq<(K, V)>, i: nat)
    requires DistinctKeys(ps) && i < |ps|
    ensures ps[i].0 in DictOf(ps) && DictOf(ps)[ps[i].0] == ps[i].1
  {
    DictOfLastWins(ps, i);
  }

  /** `dict(ps)` has at most as many entries as ps has pairs. */
  lemma {:induction false} DictOfSize<K, V>(ps: seq<(K, V)>)
    ensures |DictOf(ps)| <= |ps|
  {
    if ps != [] {
      DictOfSize(ps[1..]);
    }
  }

  /** With distinct keys, `dict(ps)` has exactly one entry per pair. */
  lemma {:induction false} DictOfSizeDistinct<K, V>(ps: seq<(K, V)>)
    requires DistinctKeys(ps)
    ensures |DictOf(ps)| == |ps|
  {
    if ps != [] {
      DictOfSizeDistinct(ps[1..]);
      DictOfKeys(ps[1..]);
      assert ps[0].0 !in KeySet(ps[1..]) by {
        forall j | 0 <= j < |ps[1..]| ensures ps[1..][j].0 != ps[0].0 {
          assert ps[1..][j] == ps[j + 1];
        }
      }
    }
  }


  lemma HeadNotInTail<K, V>(ps: seq<(K, V)>)
    requires ps != [] && DistinctKeys(ps)
    ensures ps[0].0 !in KeySet(ps[1..])
  {
    forall j | 0 <= j < |ps[1..]| ensures ps[1..][j].0 != ps[0].0 {
      assert ps[1..][j] == ps[j + 1];
    }
  }

  /** Without its first pair, a dict with distinct keys loses exactly that key. */
  lemma DictOfTail<K, V>(ps: seq<(K, V)>)
    requires ps != [] && DistinctKeys(ps)
    ensures ps[0].0 in DictOf(ps) && DictOf(ps)[ps[0].0] == ps[0].1
    ensures DictOf(ps[1..]) == DictOf(ps) - {ps[0].0}
  {
    HeadNotInTail(ps);
    DictOfKeys(ps[1..]);
  }

  lemma KeySetEmpty<K, V>(ps: seq<(K, V)>)
    ensures KeySet(ps) == {} <==> ps == []
  {
    if ps != [] {
      assert ps[0].0 in KeySet(ps);
    }
  }
}
