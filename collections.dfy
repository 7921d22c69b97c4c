/** List and dictionary idioms of the source: filtering and nested
    comprehensions, `dict(zip(...))` and dict comprehensions in which a later entry
    overwrites an earlier one, and the subsequence relation. */
module Collections {

  /** `[y for x in xs for y in f(x)]`. */
  function FlatMap<T, U>(f: T -> seq<U>, xs: seq<T>): seq<U> {
    if xs == [] then [] else FlatMap(f, xs[..|xs| - 1]) + f(xs[|xs| - 1])
  }

  /** Concatenated inputs give concatenated outputs. */
  lemma {:induction false} FlatMapConcat<T, U>(f: T -> seq<U>, a: seq<T>, b: seq<T>)
    ensures FlatMap(f, a + b) == FlatMap(f, a) + FlatMap(f, b)
    decreases |b|
  {
    if b == [] {
      assert a + b == a;
    } else {
      var front := b[..|b| - 1];
      assert (a + b)[..|a + b| - 1] == a + front;
      assert (a + b)[|a + b| - 1] == b[|b| - 1];
      FlatMapConcat(f, a, front);
    }
  }

  /** `[x for x in s if p(x)]`. */
  function Filter<T(!new)>(p: T -> bool, s: seq<T>): (r: seq<T>)
    ensures forall k :: 0 <= k < |r| ==> p(r[k])
    ensures forall x :: x in r <==> x in s && p(x)
    ensures IsSubsequence(r, s)
  {
    if s == [] then []
    else
      var front := s[..|s| - 1];
      var last := s[|s| - 1];
      assert s == front + [last];
      assert forall x :: x in s <==> x in front || x == last;
      var kept := Filter(p, front);
      if p(last) then
        SubsequenceSnoc(kept, front, last);
        kept + [last]
      else
        SubsequenceAppend(kept, front, [last]);
        kept
  }

  lemma FilterSnoc<T(!new)>(p: T -> bool, s: seq<T>, x: T)
    ensures Filter(p, s + [x]) == Filter(p, s) + (if p(x) then [x] else [])
  {
    assert (s + [x])[..|s|] == s;
  }

  /** Filtering a prefix one element longer. */
  lemma FilterPrefix<T(!new)>(p: T -> bool, s: seq<T>, i: nat)
    requires i < |s|
    ensures Filter(p, s[..i + 1]) == Filter(p, s[..i]) + (if p(s[i]) then [s[i]] else [])
  {
    assert s[..i + 1][..i] == s[..i];
  }

  /** Filtering distributes over concatenation. */
  lemma {:induction false} FilterConcat<T(!new)>(p: T -> bool, a: seq<T>, b: seq<T>)
    ensures Filter(p, a + b) == Filter(p, a) + Filter(p, b)
    decreases |b|
  {
    if b == [] {
      assert a + b == a;
    } else {
      var front := b[..|b| - 1];
      var last := b[|b| - 1];
      FilterConcat(p, a, front);
      assert (a + b)[..|a + b| - 1] == a + front;
      assert (a + b)[|a + b| - 1] == last;
      var tail := if p(last) then [last] else [];
      assert Filter(p, a + b) == Filter(p, a + front) + tail;
      assert Filter(p, b) == Filter(p, front) + tail;
      AppendAssoc(Filter(p, a), Filter(p, front), tail);
    }
  }

  lemma FlatMapSnoc<T, U>(f: T -> seq<U>, xs: seq<T>, i: nat)
    requires i < |xs|
    ensures FlatMap(f, xs[..i + 1]) == FlatMap(f, xs[..i]) + f(xs[i])
  {
    assert xs[..i + 1][..i] == xs[..i];
  }

  /** The keys of a list of pairs. */
  function Keys<K, V>(pairs: seq<(K, V)>): set<K> {
    set k | 0 <= k < |pairs| :: pairs[k].0
  }

  /** Appending a pair adds its key. */
  lemma KeysSnoc<K, V>(pairs: seq<(K, V)>, x: (K, V))
    ensures Keys(pairs + [x]) == Keys(pairs) + {x.0}
  {
    var ext := pairs + [x];
    assert ext[|pairs|] == x;
    forall k | k in Keys(pairs) ensures k in Keys(ext) {
      var j :| 0 <= j < |pairs| && pairs[j].0 == k;
      assert ext[j] == pairs[j];
    }
  }

  /** No element occurs twice. */
  predicate Distinct<T(==)>(s: seq<T>) {
    forall i, j :: 0 <= i < j < |s| ==> s[i] != s[j]
  }

  /** A duplicate-free list of pairs has as many keys as pairs when no key
      repeats. */
  lemma {:induction false} DistinctKeysCount<K, V>(pairs: seq<(K, V)>)
    requires forall i, j :: 0 <= i < j < |pairs| ==> pairs[i].0 != pairs[j].0
    ensures |Keys(pairs)| == |pairs|
  {
    if pairs != [] {
      var front := pairs[..|pairs| - 1];
      var last := pairs[|pairs| - 1];
      DistinctKeysCount(front);
      KeysSnoc(front, last);
      assert pairs == front + [last];
      assert last.0 !in Keys(front);
    }
  }

  /** There are never more keys than pairs, and exactly as many when no
      key repeats. */
  lemma {:induction false} KeysCount<K, V>(pairs: seq<(K, V)>)
    ensures |Keys(pairs)| <= |pairs|
    ensures |Keys(pairs)| == |pairs| <==> forall i, j :: 0 <= i < j < |pairs| ==> pairs[i].0 != pairs[j].0
  {
    if pairs != [] {
      var front := pairs[..|pairs| - 1];
      var last := pairs[|pairs| - 1];
      KeysCount(front);
      KeysSnoc(front, last);
      assert pairs == front + [last];
      if |Keys(pairs)| == |pairs| {
        assert last.0 !in Keys(front);
        forall i, j | 0 <= i < j < |pairs| ensures pairs[i].0 != pairs[j].0 {
          assert pairs[i] == front[i];
          if j < |front| {
            assert pairs[j] == front[j];
          } else {
            assert pairs[i].0 in Keys(front);
          }
        }
      }
      if forall i, j :: 0 <= i < j < |pairs| ==> pairs[i].0 != pairs[j].0 {
        DistinctKeysCount(pairs);
      }
    }
  }

  /** The elements of `s`, each once, in order of first occurrence. */
  function Dedup<T(==,!new)>(s: seq<T>): (r: seq<T>)
    ensures forall x :: x in r <==> x in s
    ensures Distinct(r)
  {
    if s == [] then []
    else
      var front := Dedup(s[..|s| - 1]);
      var last := s[|s| - 1];
      assert forall x :: x in s <==> x in s[..|s| - 1] || x == last;
      if last in front then front else front + [last]
  }

  /** A duplicate-free sequence holds each value at most once. */
  lemma {:induction false} DistinctMultiplicity<T>(s: seq<T>, x: T)
    requires Distinct(s)
    ensures multiset(s)[x] <= 1
  {
    if s != [] {
      var front := s[..|s| - 1];
      DistinctMultiplicity(front, x);
      assert s == front + [s[|s| - 1]];
      if x == s[|s| - 1] {
        assert x !in front;
      }
    }
  }

  /** Two equal entries make a value occur twice. */
  lemma RepeatMultiplicity<T>(s: seq<T>, i: nat, j: nat)
    requires i < j < |s| && s[i] == s[j]
    ensures multiset(s)[s[i]] >= 2
  {
    assert s == s[..j] + s[j..];
    assert s[i] in s[..j] && s[j] in s[j..];
  }

  /** `dict(pairs)`: later pairs overwrite earlier ones with the same key. */
  function ToMap<K, V>(pairs: seq<(K, V)>): (m: map<K, V>)
    ensures m.Keys == Keys(pairs)
  {
    if pairs == [] then map[]
    else
      var front := pairs[..|pairs| - 1];
      var last := pairs[|pairs| - 1];
      assert Keys(pairs) == Keys(front) + {last.0} by {
        assert forall k :: 0 <= k < |front| ==> pairs[k] == front[k];
      }
      ToMap(front)[last.0 := last.1]
  }

  /** Later wins: a key is mapped to the value of its LAST pair. */
  lemma {:induction false} ToMapLastWins<K, V>(pairs: seq<(K, V)>, k: nat)
    requires k < |pairs|
    requires forall j :: k < j < |pairs| ==> pairs[j].0 != pairs[k].0
    ensures pairs[k].0 in ToMap(pairs) && ToMap(pairs)[pairs[k].0] == pairs[k].1
  {
    if k < |pairs| - 1 {
      var front := pairs[..|pairs| - 1];
      assert front[k] == pairs[k];
      ToMapLastWins(front, k);
    }
  }

  /** `a` is obtained from `b` by deleting elements. */
  predicate IsSubsequence<T(==)>(a: seq<T>, b: seq<T>)
    decreases |b|
  {
    a == [] || (b != [] && ((a[0] == b[0] && IsSubsequence(a[1..], b[1..])) || IsSubsequence(a, b[1..])))
  }

  lemma {:induction false} SubsequenceLength<T>(a: seq<T>, b: seq<T>)
    requires IsSubsequence(a, b)
    ensures |a| <= |b|
    decreases |b|
  {
    if a != [] {
      if a[0] == b[0] && IsSubsequence(a[1..], b[1..]) {
        SubsequenceLength(a[1..], b[1..]);
      } else {
        SubsequenceLength(a, b[1..]);
      }
    }
  }

  lemma {:induction false} SubsequenceReflexive<T>(a: seq<T>)
    ensures IsSubsequence(a, a)
  {
    if a != [] { SubsequenceReflexive(a[1..]); }
  }

  lemma {:induction false} SubsequenceTransitive<T>(a: seq<T>, b: seq<T>, c: seq<T>)
    requires IsSubsequence(a, b) && IsSubsequence(b, c)
    ensures IsSubsequence(a, c)
    decreases |c|
  {
    if a != [] {
      assert b != [] && c != [];
      if IsSubsequence(b, c[1..]) {
        SubsequenceTransitive(a, b, c[1..]);
      } else {
        assert b[0] == c[0] && IsSubsequence(b[1..], c[1..]);
        if a[0] == b[0] && IsSubsequence(a[1..], b[1..]) {
          SubsequenceTransitive(a[1..], b[1..], c[1..]);
        } else {
          SubsequenceTransitive(a, b[1..], c[1..]);
        }
      }
    }
  }

  /** Deleting elements in front keeps a subsequence a subsequence. */
  lemma {:induction false} SubsequencePrepend<T>(a: seq<T>, p: seq<T>, b: seq<T>)
    requires IsSubsequence(a, b)
    ensures IsSubsequence(a, p + b)
    decreases |p|
  {
    if p != [] {
      SubsequencePrepend(a, p[1..], b);
      assert (p + b)[1..] == p[1..] + b;
    } else {
      assert p + b == b;
    }
  }

  /** Any slice of a sequence is a subsequence of it. */
  lemma {:induction false} SliceIsSubsequence<T>(b: seq<T>, lo: nat, hi: nat)
    requires lo <= hi <= |b|
    ensures IsSubsequence(b[lo..hi], b)
    decreases |b|
  {
    if hi == |b| {
      assert b[lo..hi] == b[lo..];
      SubsequenceReflexive(b[lo..]);
      SubsequencePrepend(b[lo..], b[..lo], b[lo..]);
      assert b[..lo] + b[lo..] == b;
    } else {
      // b[lo..hi] is a subsequence of b without its last element
      var front := b[..|b| - 1];
      SliceIsSubsequence(front, lo, hi);
      assert front[lo..hi] == b[lo..hi];
      SubsequenceAppend(b[lo..hi], front, [b[|b| - 1]]);
      assert front + [b[|b| - 1]] == b;
    }
  }

  /** Elements after the end may be added to the larger sequence. */
  lemma {:induction false} SubsequenceAppend<T>(a: seq<T>, b: seq<T>, s: seq<T>)
    requires IsSubsequence(a, b)
    ensures IsSubsequence(a, b + s)
    decreases |b|
  {
    if a != [] {
      assert (b + s)[0] == b[0] && (b + s)[1..] == b[1..] + s;
      if a[0] == b[0] && IsSubsequence(a[1..], b[1..]) {
        SubsequenceAppend(a[1..], b[1..], s);
      } else {
        SubsequenceAppend(a, b[1..], s);
      }
    }
  }

  /** Keeping the first element on both sides. */
  lemma SubsequenceCons<T>(x: T, a: seq<T>, b: seq<T>)
    requires IsSubsequence(a, b)
    ensures IsSubsequence([x] + a, [x] + b)
  {
    assert ([x] + a)[1..] == a && ([x] + b)[1..] == b;
  }

  /** Keeping the last element on both sides. */
  lemma {:induction false} SubsequenceSnoc<T>(a: seq<T>, b: seq<T>, x: T)
    requires IsSubsequence(a, b)
    ensures IsSubsequence(a + [x], b + [x])
    decreases |b|
  {
    if a == [] {
      SubsequenceReflexive([x]);
      SubsequencePrepend([x], b, [x]);
      assert a + [x] == [x];
    } else {
      assert (a + [x])[0] == a[0] && (a + [x])[1..] == a[1..] + [x];
      assert (b + [x])[0] == b[0] && (b + [x])[1..] == b[1..] + [x];
      if a[0] == b[0] && IsSubsequence(a[1..], b[1..]) {
        SubsequenceSnoc(a[1..], b[1..], x);
      } else {
        SubsequenceSnoc(a, b[1..], x);
      }
    }
  }

  /** An element-wise map keeps the subsequence relation. */
  lemma {:induction false} SubsequenceMap<T, U>(f: T -> U, a: seq<T>, b: seq<T>)
    requires IsSubsequence(a, b)
    ensures IsSubsequence(MapSeq(f, a), MapSeq(f, b))
    decreases |b|
  {
    if a != [] {
      assert MapSeq(f, a)[1..] == MapSeq(f, a[1..]);
      assert MapSeq(f, b)[1..] == MapSeq(f, b[1..]);
      if a[0] == b[0] && IsSubsequence(a[1..], b[1..]) {
        SubsequenceMap(f, a[1..], b[1..]);
      } else {
        SubsequenceMap(f, a, b[1..]);
      }
    }
  }

  function MapSeq<T, U>(f: T -> U, s: seq<T>): (r: seq<U>)
    ensures |r| == |s| && forall i :: 0 <= i < |s| ==> r[i] == f(s[i])
  {
    seq(|s|, i requires 0 <= i < |s| => f(s[i]))
  }

  /** The images of the kept elements are the images of the elements that
      pass the filter. */
  lemma MapOfKept<T, U>(f: T -> U, p: T -> bool, kept: seq<T>, s: seq<T>, x: U)
    requires forall y :: y in s && p(y) <==> y in kept
    ensures x in MapSeq(f, kept) <==> exists j :: 0 <= j < |s| && p(s[j]) && x == f(s[j])
  {
    var m := MapSeq(f, kept);
    if x in m {
      var k :| 0 <= k < |m| && m[k] == x;
      assert kept[k] in s;
      var j :| 0 <= j < |s| && s[j] == kept[k];
    }
    if exists j :: 0 <= j < |s| && p(s[j]) && x == f(s[j]) {
      var j :| 0 <= j < |s| && p(s[j]) && x == f(s[j]);
      assert s[j] in kept;
      var k :| 0 <= k < |kept| && kept[k] == s[j];
      assert m[k] == x;
    }
  }

  /** Mapping keeps a subsequence a subsequence. */
  lemma {:induction false} MapSubsequence<T, U>(f: T -> U, a: seq<T>, b: seq<T>)
    requires IsSubsequence(a, b)
    ensures IsSubsequence(MapSeq(f, a), MapSeq(f, b))
    decreases |b|
  {
    if a != [] {
      assert MapSeq(f, b)[1..] == MapSeq(f, b[1..]);
      if a[0] == b[0] && IsSubsequence(a[1..], b[1..]) {
        MapSubsequence(f, a[1..], b[1..]);
        assert MapSeq(f, a)[1..] == MapSeq(f, a[1..]);
      } else {
        MapSubsequence(f, a, b[1..]);
      }
    }
  }

  /** Mapping a sequence with one more element appends that element's image. */
  lemma MapSeqSnoc<T, U>(f: T -> U, s: seq<T>, i: nat)
    requires i < |s|
    ensures MapSeq(f, s[..i + 1]) == MapSeq(f, s[..i]) + [f(s[i])]
  {
  }

  /** The image of a member is a member of the image. */
  lemma MapSeqMember<T, U>(f: T -> U, s: seq<T>, y: T)
    requires y in s
    ensures f(y) in MapSeq(f, s)
  {
    var i :| 0 <= i < |s| && s[i] == y;
    assert MapSeq(f, s)[i] == f(y);
  }

  /** Being a prefix is transitive. */
  lemma PrefixTransitive<T>(a: seq<T>, b: seq<T>, c: seq<T>)
    requires a <= b && b <= c
    ensures a <= c
  {
    assert b == c[..|b|];
    assert c[..|b|][..|a|] == c[..|a|];
  }

  /** Appending to a concatenation appends to its second part. */
  lemma AppendAssoc<T>(a: seq<T>, b: seq<T>, c: seq<T>)
    ensures (a + b) + c == a + (b + c)
  {
  }
}
