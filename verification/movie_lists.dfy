/**
 * The array operations the two stores compose (`some`, `filter`, `slice(0, n)`)
 * over lists of entries whose id is read by a key function, and the list
 * properties the stores keep: distinct ids, newest first, relative order.
 */
module MovieLists {

  /** `s.some((m) => key(m) === id)`: some entry carries the id. */
  function HasId<T>(s: seq<T>, key: T -> int, id: int): (r: bool)
    ensures r <==> exists i :: 0 <= i < |s| && key(s[i]) == id
  {
    if s == [] then false
    else if key(s[0]) == id then true
    else
      var rest := HasId(s[1..], key, id);
      assert rest ==> exists i :: 0 <= i < |s| && key(s[i]) == id by {
        if rest {
          var i :| 0 <= i < |s[1..]| && key(s[1..][i]) == id;
          assert key(s[i + 1]) == id;
        }
      }
      rest
  }

  /**
   * `s.filter((m) => key(m) !== id)`: the entries whose id differs, and only
   * those.
   */
  function Without<T>(s: seq<T>, key: T -> int, id: int): (r: seq<T>)
    ensures |r| <= |s|
    ensures forall i :: 0 <= i < |r| ==> r[i] in s && key(r[i]) != id
    ensures forall i :: 0 <= i < |s| && key(s[i]) != id ==> s[i] in r
    ensures !HasId(r, key, id)
  {
    if s == [] then []
    else if key(s[0]) == id then Without(s[1..], key, id)
    else [s[0]] + Without(s[1..], key, id)
  }

  /** `s.slice(0, n)`: the first `n` entries, or all of them when there are fewer. */
  function Take<T>(s: seq<T>, n: nat): (r: seq<T>)
    ensures |r| == if |s| < n then |s| else n
    ensures r <= s
  {
    if |s| <= n then s else s[..n]
  }

  /** No two entries share an id. */
  ghost predicate DistinctIds<T>(s: seq<T>, key: T -> int) {
    forall i, j :: 0 <= i < j < |s| ==> key(s[i]) != key(s[j])
  }

  /** Timestamps never increase along the list: the newest entry is first. */
  ghost predicate Descending<T>(s: seq<T>, stamp: T -> int) {
    forall i, j :: 0 <= i < j < |s| ==> stamp(s[i]) >= stamp(s[j])
  }

  /** `r` is `s` with some entries dropped and the rest in their original order. */
  ghost predicate Subsequence<T>(r: seq<T>, s: seq<T>)
    decreases |s|
  {
    r == [] || (s != [] && ((r[0] == s[0] && Subsequence(r[1..], s[1..])) || Subsequence(r, s[1..])))
  }

  /** Prepending keeps ids distinct exactly when the new id is not already there. */
  lemma PrependDistinct<T>(x: T, s: seq<T>, key: T -> int)
    ensures DistinctIds([x] + s, key) <==> DistinctIds(s, key) && !HasId(s, key, key(x))
  {
    var t := [x] + s;
    if DistinctIds(t, key) {
      forall i, j | 0 <= i < j < |s| ensures key(s[i]) != key(s[j]) {
        assert s[i] == t[i + 1] && s[j] == t[j + 1];
      }
      forall i | 0 <= i < |s| ensures key(s[i]) != key(x) {
        assert s[i] == t[i + 1] && x == t[0];
      }
    }
  }

  /** Prepending keeps the list newest first exactly when the new stamp is the largest. */
  lemma PrependDescending<T>(x: T, s: seq<T>, stamp: T -> int)
    ensures Descending([x] + s, stamp) <==>
      Descending(s, stamp) && forall i :: 0 <= i < |s| ==> stamp(s[i]) <= stamp(x)
  {
    var t := [x] + s;
    if Descending(t, stamp) {
      forall i, j | 0 <= i < j < |s| ensures stamp(s[i]) >= stamp(s[j]) {
        assert s[i] == t[i + 1] && s[j] == t[j + 1];
      }
      forall i | 0 <= i < |s| ensures stamp(s[i]) <= stamp(x) {
        assert s[i] == t[i + 1] && x == t[0];
      }
    }
  }

  /** Filtering keeps every copy of each entry whose id differs and no copy of the others. */
  lemma {:induction false} WithoutKeepsCopies<T>(s: seq<T>, key: T -> int, id: int)
    ensures forall x :: multiset(Without(s, key, id))[x] == if key(x) == id then 0 else multiset(s)[x]
  {
    if s != [] {
      WithoutKeepsCopies(s[1..], key, id);
      assert s == [s[0]] + s[1..];
    }
  }

  /** Filtering out an id that is not there changes nothing. */
  lemma {:induction false} WithoutAbsent<T>(s: seq<T>, key: T -> int, id: int)
    requires !HasId(s, key, id)
    ensures Without(s, key, id) == s
  {
    if s != [] {
      assert key(s[0]) != id;
      WithoutAbsent(s[1..], key, id);
      assert [s[0]] + s[1..] == s;
    }
  }

  /** Filtering out an id that occurs once removes exactly one entry. */
  lemma {:induction false} WithoutPresentLength<T>(s: seq<T>, key: T -> int, id: int)
    requires DistinctIds(s, key) && HasId(s, key, id)
    ensures |Without(s, key, id)| == |s| - 1
  {
    PrependDistinct(s[0], s[1..], key);
    assert [s[0]] + s[1..] == s;
    if key(s[0]) == id {
      WithoutAbsent(s[1..], key, id);
    } else {
      assert HasId(s[1..], key, id) by {
        var i :| 0 <= i < |s| && key(s[i]) == id;
        assert i != 0 && s[1..][i - 1] == s[i];
      }
      WithoutPresentLength(s[1..], key, id);
    }
  }

  /** Filtering keeps the remaining entries in their original relative order. */
  lemma {:induction false} WithoutIsSubsequence<T>(s: seq<T>, key: T -> int, id: int)
    ensures Subsequence(Without(s, key, id), s)
    decreases |s|
  {
    if s != [] {
      var rest := Without(s[1..], key, id);
      WithoutIsSubsequence(s[1..], key, id);
      if key(s[0]) != id {
        assert ([s[0]] + rest)[1..] == rest;
      }
    }
  }

  /** Filtering keeps ids distinct. */
  lemma {:induction false} WithoutKeepsDistinct<T>(s: seq<T>, key: T -> int, id: int)
    requires DistinctIds(s, key)
    ensures DistinctIds(Without(s, key, id), key)
  {
    if s != [] {
      PrependDistinct(s[0], s[1..], key);
      assert [s[0]] + s[1..] == s;
      var rest := Without(s[1..], key, id);
      WithoutKeepsDistinct(s[1..], key, id);
      if key(s[0]) != id {
        PrependDistinct(s[0], rest, key);
      }
    }
  }

  /** Filtering keeps the list newest first. */
  lemma {:induction false} WithoutKeepsDescending<T>(s: seq<T>, key: T -> int, id: int, stamp: T -> int)
    requires Descending(s, stamp)
    ensures Descending(Without(s, key, id), stamp)
  {
    if s != [] {
      PrependDescending(s[0], s[1..], stamp);
      assert [s[0]] + s[1..] == s;
      var rest := Without(s[1..], key, id);
      WithoutKeepsDescending(s[1..], key, id, stamp);
      if key(s[0]) != id {
        forall i | 0 <= i < |rest| ensures stamp(rest[i]) <= stamp(s[0]) {
          assert rest[i] in s[1..];
          var k :| 0 <= k < |s[1..]| && s[1..][k] == rest[i];
        }
        PrependDescending(s[0], rest, stamp);
      }
    }
  }

  /** A prefix keeps ids distinct. */
  lemma PrefixKeepsDistinct<T>(r: seq<T>, s: seq<T>, key: T -> int)
    requires r <= s && DistinctIds(s, key)
    ensures DistinctIds(r, key)
  {
  }

  /** A prefix keeps the list newest first. */
  lemma PrefixKeepsDescending<T>(r: seq<T>, s: seq<T>, stamp: T -> int)
    requires r <= s && Descending(s, stamp)
    ensures Descending(r, stamp)
  {
  }
}
