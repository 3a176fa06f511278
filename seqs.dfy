/** Sequence helpers shared by the pipeline stages: flattening, first-occurrence
    deduplication, order-preserving filters, fixed-size chunking, counting,
    joining and "last assignment wins" dictionaries. */
module Seqs {

  predicate Distinct<T(==)>(s: seq<T>) {
    forall i, j :: 0 <= i < j < |s| ==> s[i] != s[j]
  }

  /** Concatenation of a list of lists, in order. */
  function Flatten<T>(xss: seq<seq<T>>): seq<T> {
    if xss == [] then [] else Flatten(xss[..|xss| - 1]) + xss[|xss| - 1]
  }

  lemma {:induction false} FlattenAppend<T>(a: seq<seq<T>>, b: seq<seq<T>>)
    ensures Flatten(a + b) == Flatten(a) + Flatten(b)
    decreases |b|
  {
    if b == [] {
      assert a + b == a;
    } else {
      var front := b[..|b| - 1];
      var last := b[|b| - 1];
      assert (a + b)[..|a + b| - 1] == a + front && (a + b)[|a + b| - 1] == last;
      assert Flatten(a + b) == Flatten(a + front) + last;
      FlattenAppend(a, front);
      assert Flatten(b) == Flatten(front) + last;
    }
  }

  lemma FlattenSnoc<T>(xss: seq<seq<T>>, i: nat)
    requires i < |xss|
    ensures Flatten(xss[..i + 1]) == Flatten(xss[..i]) + xss[i]
  {
    assert xss[..i + 1][..i] == xss[..i];
  }

  lemma {:induction false} FlattenMember<T>(xss: seq<seq<T>>, x: T)
    requires x in Flatten(xss)
    ensures exists i :: 0 <= i < |xss| && x in xss[i]
    decreases |xss|
  {
    var front := xss[..|xss| - 1];
    if x !in xss[|xss| - 1] {
      FlattenMember(front, x);
      var i :| 0 <= i < |front| && x in front[i];
      assert xss[i] == front[i];
    }
  }

  lemma {:induction false} FlattenContains<T>(xss: seq<seq<T>>, i: nat, x: T)
    requires i < |xss| && x in xss[i]
    ensures x in Flatten(xss)
    decreases |xss|
  {
    if i < |xss| - 1 {
      FlattenContains(xss[..|xss| - 1], i, x);
    }
  }

  /** Order-preserving filter (a Python list comprehension with an `if`). */
  function Filter<T(!new)>(s: seq<T>, p: T -> bool): (r: seq<T>)
    ensures |r| <= |s|
    ensures forall x :: x in r <==> x in s && p(x)
  {
    if s == [] then []
    else
      var rest := Filter(s[..|s| - 1], p);
      assert forall x :: x in s <==> x in s[..|s| - 1] || x == s[|s| - 1];
      if p(s[|s| - 1]) then rest + [s[|s| - 1]] else rest
  }

  /** The positions of the elements `Filter` keeps, left to right. */
  function KeptPositions<T(!new)>(s: seq<T>, p: T -> bool): seq<nat> {
    if s == [] then []
    else
      var rest := KeptPositions(s[..|s| - 1], p);
      if p(s[|s| - 1]) then rest + [|s| - 1] else rest
  }

  /** `Filter` keeps exactly the elements at `KeptPositions`. */
  lemma {:induction false} KeptPositionsPick<T(!new)>(s: seq<T>, p: T -> bool)
    ensures |KeptPositions(s, p)| == |Filter(s, p)|
    ensures forall k :: 0 <= k < |KeptPositions(s, p)| ==>
      KeptPositions(s, p)[k] < |s| && Filter(s, p)[k] == s[KeptPositions(s, p)[k]]
    decreases |s|
  {
    if s != [] {
      var front := s[..|s| - 1];
      KeptPositionsPick(front, p);
      var rest := KeptPositions(front, p);
      var kept := Filter(front, p);
      var idx := KeptPositions(s, p);
      if p(s[|s| - 1]) {
        assert idx == rest + [|s| - 1] && Filter(s, p) == kept + [s[|s| - 1]];
        forall k | 0 <= k < |idx|
          ensures idx[k] < |s| && Filter(s, p)[k] == s[idx[k]]
        {
          if k < |rest| {
            assert idx[k] == rest[k] && Filter(s, p)[k] == kept[k];
            assert s[rest[k]] == front[rest[k]];
          }
        }
      } else {
        assert idx == rest && Filter(s, p) == kept;
        forall k | 0 <= k < |idx| ensures idx[k] < |s| && Filter(s, p)[k] == s[idx[k]] {
          assert s[rest[k]] == front[rest[k]];
        }
      }
    }
  }

  /** The kept positions increase strictly, and all lie before `|s|`. */
  lemma {:induction false} KeptPositionsIncrease<T(!new)>(s: seq<T>, p: T -> bool)
    ensures forall k :: 0 <= k < |KeptPositions(s, p)| ==> KeptPositions(s, p)[k] < |s|
    ensures forall k, l :: 0 <= k < l < |KeptPositions(s, p)| ==>
      KeptPositions(s, p)[k] < KeptPositions(s, p)[l]
    decreases |s|
  {
    if s != [] {
      var front := s[..|s| - 1];
      KeptPositionsIncrease(front, p);
      var rest := KeptPositions(front, p);
      var idx := KeptPositions(s, p);
      if p(s[|s| - 1]) {
        assert idx == rest + [|s| - 1];
        forall k | 0 <= k < |idx| ensures idx[k] < |s| {
          if k < |rest| { assert idx[k] == rest[k]; }
        }
        forall k, l | 0 <= k < l < |idx| ensures idx[k] < idx[l] {
          assert idx[k] == rest[k];
          if l < |rest| { assert idx[l] == rest[l]; }
        }
      }
    }
  }

  /** Every position `KeptPositions` leaves out holds an element the filter rejects. */
  lemma {:induction false} KeptPositionsRejectRest<T(!new)>(s: seq<T>, p: T -> bool)
    ensures forall j :: 0 <= j < |s| && j !in KeptPositions(s, p) ==> !p(s[j])
    decreases |s|
  {
    if s != [] {
      var front := s[..|s| - 1];
      KeptPositionsRejectRest(front, p);
      var rest := KeptPositions(front, p);
      var idx := KeptPositions(s, p);
      forall j | 0 <= j < |s| && j !in idx ensures !p(s[j]) {
        if p(s[|s| - 1]) {
          assert idx == rest + [|s| - 1];
          assert j != |s| - 1 && j !in rest;
        } else {
          assert idx == rest;
        }
        if j < |front| { assert s[j] == front[j]; }
      }
    }
  }

  lemma {:induction false} FilterNone<T(!new)>(s: seq<T>, p: T -> bool)
    requires forall x :: x in s ==> !p(x)
    ensures Filter(s, p) == []
    decreases |s|
  {
    if s != [] {
      assert s[|s| - 1] in s;
      assert forall x :: x in s[..|s| - 1] ==> x in s;
      FilterNone(s[..|s| - 1], p);
    }
  }

  lemma {:induction false} FilterAppend<T(!new)>(a: seq<T>, b: seq<T>, p: T -> bool)
    ensures Filter(a + b, p) == Filter(a, p) + Filter(b, p)
    decreases |b|
  {
    if b == [] {
      assert a + b == a;
    } else {
      assert (a + b)[..|a + b| - 1] == a + b[..|b| - 1];
      FilterAppend(a, b[..|b| - 1], p);
    }
  }

  lemma FilterSnoc<T(!new)>(s: seq<T>, x: T, p: T -> bool)
    ensures Filter(s + [x], p) == if p(x) then Filter(s, p) + [x] else Filter(s, p)
  {
    assert (s + [x])[..|s|] == s;
  }

  lemma {:induction false} FilterAll<T(!new)>(s: seq<T>, p: T -> bool)
    requires forall x :: x in s ==> p(x)
    ensures Filter(s, p) == s
    decreases |s|
  {
    if s != [] {
      var front := s[..|s| - 1];
      var last := s[|s| - 1];
      assert forall x :: x in front ==> x in s;
      assert last in s && p(last);
      FilterAll(front, p);
      assert Filter(s, p) == Filter(front, p) + [last];
      assert front + [last] == s;
    }
  }

  lemma {:induction false} FilterDistinct<T(!new)>(s: seq<T>, p: T -> bool)
    requires Distinct(s)
    ensures Distinct(Filter(s, p))
    decreases |s|
  {
    if s != [] {
      var front := s[..|s| - 1];
      assert Distinct(front);
      FilterDistinct(front, p);
      assert s[|s| - 1] !in front;
    }
  }

  /** A filter and its complement split the sequence. */
  lemma {:induction false} FilterPartition<T(!new)>(s: seq<T>, p: T -> bool, q: T -> bool)
    requires forall x :: q(x) == !p(x)
    ensures |Filter(s, p)| + |Filter(s, q)| == |s|
    decreases |s|
  {
    if s != [] {
      FilterPartition(s[..|s| - 1], p, q);
    }
  }

  /** Position of the first occurrence of `x` in `s`. */
  function FirstIndex<T(==)>(s: seq<T>, x: T): (i: nat)
    requires x in s
    ensures i < |s| && s[i] == x
    ensures forall j :: 0 <= j < i ==> s[j] != x
  {
    if s[0] == x then 0 else 1 + FirstIndex(s[1..], x)
  }

  /** In a list without repeats, the first occurrence is the only one. */
  lemma DistinctFirstIndex<T>(s: seq<T>, i: nat)
    requires Distinct(s) && i < |s|
    ensures FirstIndex(s, s[i]) == i
  {
  }

  lemma FirstIndexAppend<T>(a: seq<T>, b: seq<T>, x: T)
    requires x in a
    ensures FirstIndex(a + b, x) == FirstIndex(a, x)
  {
    var i := FirstIndex(a, x);
    var k := FirstIndex(a + b, x);
    assert (a + b)[i] == x;
    assert a[k] == x by { if k > i { } }
  }

  /** The list of distinct elements of `s` in order of first occurrence
      (an insertion-ordered set, or the keys of an OrderedDict). */
  function Dedupe<T(==,!new)>(s: seq<T>): (r: seq<T>)
    ensures Distinct(r)
    ensures forall x :: x in r <==> x in s
    ensures |r| <= |s|
  {
    if s == [] then []
    else
      var d := Dedupe(s[..|s| - 1]);
      assert forall x :: x in s <==> x in s[..|s| - 1] || x == s[|s| - 1];
      if s[|s| - 1] in d then d else d + [s[|s| - 1]]
  }

  lemma {:induction false} DedupeOfDistinct<T(!new)>(s: seq<T>)
    requires Distinct(s)
    ensures Dedupe(s) == s
    decreases |s|
  {
    if s != [] {
      var p := s[..|s| - 1];
      assert Distinct(p);
      DedupeOfDistinct(p);
      assert s[|s| - 1] !in p;
      assert p + [s[|s| - 1]] == s;
    }
  }

  lemma DedupeSnoc<T(!new)>(s: seq<T>, x: T)
    ensures Dedupe(s + [x]) == if x in Dedupe(s) then Dedupe(s) else Dedupe(s) + [x]
  {
    assert (s + [x])[..|s|] == s;
  }

  /** Dedupe keeps the order of first occurrence. */
  lemma {:induction false} DedupeFirstOccurrenceOrder<T(!new)>(s: seq<T>)
    ensures forall i, j :: 0 <= i < j < |Dedupe(s)| ==>
      FirstIndex(s, Dedupe(s)[i]) < FirstIndex(s, Dedupe(s)[j])
    decreases |s|
  {
    if s != [] {
      var p := s[..|s| - 1];
      var x := s[|s| - 1];
      DedupeFirstOccurrenceOrder(p);
      var d := Dedupe(p);
      assert s == p + [x];
      forall y | y in d ensures FirstIndex(s, y) == FirstIndex(p, y) {
        FirstIndexAppend(p, [x], y);
      }
      if x !in d {
        assert x !in p;
        assert FirstIndex(s, x) == |s| - 1;
        forall y | y in d ensures FirstIndex(s, y) < |s| - 1 {
          assert FirstIndex(p, y) < |p|;
        }
      }
    }
  }

  /** The deduplication of a prefix is a prefix of the deduplication. */
  lemma {:induction false} DedupePrefix<T(!new)>(a: seq<T>, b: seq<T>)
    ensures |Dedupe(a)| <= |Dedupe(a + b)|
    ensures Dedupe(a + b)[..|Dedupe(a)|] == Dedupe(a)
    decreases |b|
  {
    if b == [] {
      assert a + b == a;
    } else {
      var ab := a + b;
      assert ab[..|ab| - 1] == a + b[..|b| - 1];
      DedupePrefix(a, b[..|b| - 1]);
    }
  }

  /** The parts of a concatenation. */
  lemma ConcatParts<T>(a: seq<T>, b: seq<T>)
    requires b != []
    ensures |a| < |a + b| && (a + b)[..|a|] == a && (a + b)[|a|] == b[0]
  {
  }

  /** One more element of a prefix. */
  lemma PrefixSnoc<T>(s: seq<T>, i: nat)
    requires i < |s|
    ensures s[..i + 1] == s[..i] + [s[i]]
  {
  }

  /** Python's `s[:n]` for a non-negative `n`. */
  function Take<T>(s: seq<T>, n: nat): (r: seq<T>)
    ensures |r| == if n < |s| then n else |s|
    ensures r <= s
  {
    if n < |s| then s[..n] else s
  }

  /** Length of the longest prefix of `s` whose elements satisfy `p`. */
  function LeadingCount<T>(s: seq<T>, p: T -> bool): (n: nat)
    ensures n <= |s|
    ensures forall i :: 0 <= i < n ==> p(s[i])
    ensures n < |s| ==> !p(s[n])
  {
    if s == [] || !p(s[0]) then 0 else 1 + LeadingCount(s[1..], p)
  }

  /** Consecutive slices `s[k*i : k*i + k]`: what `for offset in range(0, len(s), k)`
      walks over. */
  function Chunks<T>(s: seq<T>, k: nat): seq<seq<T>>
    requires k > 0
    decreases |s|
  {
    if s == [] then []
    else if |s| <= k then [s]
    else [s[..k]] + Chunks(s[k..], k)
  }

  /** The chunks concatenate back to `s`; each is non-empty and at most `k` long, and
      all but the last are exactly `k` long. */
  lemma {:induction false} ChunksShape<T>(s: seq<T>, k: nat)
    requires k > 0
    ensures Flatten(Chunks(s, k)) == s
    ensures forall i :: 0 <= i < |Chunks(s, k)| ==> 0 < |Chunks(s, k)[i]| <= k
    ensures forall i :: 0 <= i < |Chunks(s, k)| - 1 ==> |Chunks(s, k)[i]| == k
    decreases |s|
  {
    if s == [] {
    } else if |s| <= k {
      assert Flatten([s]) == Flatten([]) + s;
    } else {
      var rest := Chunks(s[k..], k);
      ChunksShape(s[k..], k);
      FlattenAppend([s[..k]], rest);
      assert Flatten([s[..k]]) == Flatten([]) + s[..k];
      assert s[..k] + s[k..] == s;
      var r := Chunks(s, k);
      assert r == [s[..k]] + rest;
      forall i | 0 < i < |r| ensures r[i] == rest[i - 1] { }
    }
  }

  /** One step of `Chunks` on a sequence longer than `k`. */
  lemma ChunksStep<T>(s: seq<T>, k: nat)
    requires 0 < k < |s|
    ensures Chunks(s, k) == [s[..k]] + Chunks(s[k..], k)
  {
  }

  /** The chunks of `s[offset:]` start with the chunk `s[offset : offset + k]`. */
  lemma ChunksFrom<T>(s: seq<T>, k: nat, offset: nat)
    requires k > 0 && offset < |s|
    ensures var end := if offset + k < |s| then offset + k else |s|;
      Chunks(s[offset..], k) == [s[offset..end]] + Chunks(s[end..], k)
  {
    var rest := s[offset..];
    if |rest| > k {
      ChunksStep(rest, k);
      assert rest[k..] == s[offset + k..];
      assert rest[..k] == s[offset..offset + k];
    } else {
      assert Chunks(rest, k) == [rest];
      assert s[offset..|s|] == rest;
      assert Chunks(s[|s|..], k) == [];
    }
  }

  /** Concatenating `n` lists of length `k` gives `n*k` elements. */
  lemma {:induction false} FlattenUniform<T>(xss: seq<seq<T>>, k: nat)
    requires forall i :: 0 <= i < |xss| ==> |xss[i]| == k
    ensures |Flatten(xss)| == k * |xss|
    decreases |xss|
  {
    if xss != [] {
      var n := |xss|;
      FlattenUniform(xss[..n - 1], k);
      assert k * n == k * (n - 1) + k;
    }
  }

  /** The chunks before chunk `n` are full: they hold `k*n` elements. */
  lemma ChunksBeforeFull<T>(s: seq<T>, k: nat, n: nat)
    requires k > 0 && n < |Chunks(s, k)|
    ensures |Flatten(Chunks(s, k)[..n])| == k * n
  {
    var c := Chunks(s, k);
    ChunksShape(s, k);
    forall i | 0 <= i < n ensures |c[..n][i]| == k {
      assert c[..n][i] == c[i];
    }
    FlattenUniform(c[..n], k);
  }

  /** The chunks before chunk `n` are the first `k*n` elements, and at least one
      element follows them. */
  lemma ChunksBeforeIndex<T>(s: seq<T>, k: nat, n: nat)
    requires k > 0 && n < |Chunks(s, k)|
    ensures |Flatten(Chunks(s, k)[..n])| == k * n < |s|
    ensures Flatten(Chunks(s, k)[..n]) == s[..k * n]
  {
    var c := Chunks(s, k);
    var before := Flatten(c[..n]);
    ChunksBeforeFull(s, k, n);
    assert s == before + Flatten(c[n..]) by {
      ChunksShape(s, k);
      FlattenAppend(c[..n], c[n..]);
      assert c[..n] + c[n..] == c;
    }
    assert |s| >= |Flatten(c[..n + 1])| by {
      FlattenAppend(c[..n + 1], c[n + 1..]);
      assert c[..n + 1] + c[n + 1..] == c;
      ChunksShape(s, k);
    }
    assert |Flatten(c[..n + 1])| > |before| by {
      FlattenSnoc(c, n);
      ChunksShape(s, k);
      assert 0 < |c[n]|;
    }
    assert s[..k * n] == before;
  }

  /** Number of occurrences of `x` in `s`. */
  function Count<T(==)>(s: seq<T>, x: T): nat {
    if s == [] then 0 else Count(s[..|s| - 1], x) + (if s[|s| - 1] == x then 1 else 0)
  }

  lemma {:induction false} CountIsMultiplicity<T>(s: seq<T>, x: T)
    ensures Count(s, x) == multiset(s)[x]
    decreases |s|
  {
    if s != [] {
      CountIsMultiplicity(s[..|s| - 1], x);
      assert s == s[..|s| - 1] + [s[|s| - 1]];
      assert multiset(s) == multiset(s[..|s| - 1]) + multiset{s[|s| - 1]};
    }
  }

  /** `sep.join(parts)`. */
  function Join<T>(parts: seq<seq<T>>, sep: seq<T>): seq<T> {
    if parts == [] then []
    else if |parts| == 1 then parts[0]
    else parts[0] + sep + Join(parts[1..], sep)
  }

  lemma {:induction false} JoinElements<T>(parts: seq<seq<T>>, sep: seq<T>, c: T)
    requires c in Join(parts, sep)
    ensures c in sep || exists p :: p in parts && c in p
    decreases |parts|
  {
    if |parts| > 1 {
      var rest := Join(parts[1..], sep);
      assert Join(parts, sep) == parts[0] + sep + rest;
      if c !in parts[0] && c !in sep {
        JoinElements(parts[1..], sep, c);
        var p :| p in parts[1..] && c in p;
        assert p in parts;
      }
    } else {
      assert parts[0] in parts;
    }
  }

  /** Some pair of `pairs` has key `k`. */
  ghost predicate HasKey<K, V>(pairs: seq<(K, V)>, k: K) {
    exists i :: 0 <= i < |pairs| && pairs[i].0 == k
  }

  /** A dictionary built by assigning `m[k] = v` for each pair in order:
      a later pair for the same key overrides an earlier one. */
  function LastWins<K(!new), V>(pairs: seq<(K, V)>): (m: map<K, V>)
    ensures forall k :: k in m <==> HasKey(pairs, k)
  {
    if pairs == [] then map[]
    else
      var last := pairs[|pairs| - 1];
      var front := pairs[..|pairs| - 1];
      var m := LastWins(front)[last.0 := last.1];
      assert forall k :: HasKey(pairs, k) <==> k == last.0 || HasKey(front, k) by {
        forall k | HasKey(pairs, k) && k != last.0 ensures HasKey(front, k) {
          var i :| 0 <= i < |pairs| && pairs[i].0 == k;
          assert front[i].0 == k;
        }
        forall k | HasKey(front, k) ensures HasKey(pairs, k) {
          var i :| 0 <= i < |front| && front[i].0 == k;
          assert pairs[i].0 == k;
        }
        assert pairs[|pairs| - 1].0 == last.0;
      }
      m
  }

  /** The value stored for a key is the one of its last pair. */
  lemma {:induction false} LastWinsValue<K(!new), V>(pairs: seq<(K, V)>, i: nat)
    requires i < |pairs|
    requires forall j :: i < j < |pairs| ==> pairs[j].0 != pairs[i].0
    ensures pairs[i].0 in LastWins(pairs) && LastWins(pairs)[pairs[i].0] == pairs[i].1
    decreases |pairs|
  {
    if i < |pairs| - 1 {
      LastWinsValue(pairs[..|pairs| - 1], i);
    }
  }
}
