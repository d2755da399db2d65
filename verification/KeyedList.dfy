/** Lists that are searched linearly by key: the shape shared by the scene's
    node and link vectors and by the route table.  A list stands for the map
    that `Find` reads from it. */
module KeyedList {
  import opened Basics

  function Keys<T, K>(s: seq<T>, key: T -> K): (ks: seq<K>)
    ensures |ks| == |s| && forall i :: 0 <= i < |s| ==> ks[i] == key(s[i])
  {
    seq(|s|, i requires 0 <= i < |s| => key(s[i]))
  }

  ghost predicate Unique<T, K>(s: seq<T>, key: T -> K)
  {
    forall i, j :: 0 <= i < j < |s| ==> key(s[i]) != key(s[j])
  }

  ghost predicate Absent<T, K>(s: seq<T>, k: K, key: T -> K)
  {
    forall i :: 0 <= i < |s| ==> key(s[i]) != k
  }

  /** The first entry with key `k`. */
  function Find<T, K(==)>(s: seq<T>, k: K, key: T -> K): Option<T>
  {
    if s == [] then None else if key(s[0]) == k then Some(s[0]) else Find(s[1..], k, key)
  }

  /** Replace the first entry with the same key in place, or append. */
  function Upsert<T, K(==)>(s: seq<T>, x: T, key: T -> K): seq<T>
  {
    if s == [] then [x]
    else if key(s[0]) == key(x) then [x] + s[1..]
    else [s[0]] + Upsert(s[1..], x, key)
  }

  function UpsertAll<T, K(==)>(s: seq<T>, xs: seq<T>, key: T -> K): seq<T>
  {
    if xs == [] then s else Upsert(UpsertAll(s, xs[..|xs| - 1], key), xs[|xs| - 1], key)
  }

  /** Erase the first entry with key `k`. */
  function Delete<T, K(==)>(s: seq<T>, k: K, key: T -> K): seq<T>
  {
    if s == [] then [] else if key(s[0]) == k then s[1..] else [s[0]] + Delete(s[1..], k, key)
  }

  lemma {:induction false} DeleteAt<T, K>(s: seq<T>, i: nat, k: K, key: T -> K)
    requires i <= |s| && Absent(s[..i], k, key) && (i < |s| ==> key(s[i]) == k)
    ensures Delete(s, k, key) == if i < |s| then s[..i] + s[i + 1..] else s
  {
    if 0 < i {
      assert key(s[..i][0]) != k;
      assert Delete(s, k, key) == [s[0]] + Delete(s[1..], k, key);
      hide Delete;
      assert s[1..][..i - 1] == s[..i][1..];
      DeleteAt(s[1..], i - 1, k, key);
      if i < |s| { CutShifted(s, i); }
    }
  }

  lemma CutShifted<T>(s: seq<T>, i: nat)
    requires 0 < i < |s|
    ensures [s[0]] + (s[1..][..i - 1] + s[1..][i..]) == s[..i] + s[i + 1..]
  {
  }

  /** Deleting is removal of the key from the map. */
  lemma {:induction false} DeleteIsMapRemoval<T, K>(s: seq<T>, k: K, other: K, key: T -> K)
    requires Unique(s, key)
    ensures Unique(Delete(s, k, key), key)
    ensures Find(Delete(s, k, key), other, key) == if other == k then None else Find(s, other, key)
    ensures forall x :: x in Delete(s, k, key) ==> x in s
  {
    if s != [] {
      DeleteIsMapRemoval(s[1..], k, other, key);
      if key(s[0]) == k {
        AbsentNotFound(s[1..], k, key);
      } else {
        UniqueCons(s[0], s[1..], Delete(s[1..], k, key), key);
      }
    }
  }

  lemma AbsentNotFound<T, K>(s: seq<T>, k: K, key: T -> K)
    requires Absent(s, k, key)
    ensures Find(s, k, key) == None
  {
    var i := FirstPosition(s, k, key);
  }

  lemma UniqueCons<T, K>(x: T, s: seq<T>, r: seq<T>, key: T -> K)
    requires Unique(r, key) && (forall y :: y in r ==> y in s) && Absent(s, key(x), key)
    ensures Unique([x] + r, key)
  {
    forall i | 0 <= i < |r| ensures key(r[i]) != key(x) {
      assert r[i] in s;
    }
  }

  lemma {:induction false} UpsertAt<T, K>(s: seq<T>, i: nat, x: T, key: T -> K)
    requires i < |s| && key(s[i]) == key(x) && Absent(s[..i], key(x), key)
    ensures Upsert(s, x, key) == s[i := x]
  {
    if i > 0 {
      assert key(s[..i][0]) != key(x);
      assert s[1..][..i - 1] == s[..i][1..];
      UpsertAt(s[1..], i - 1, x, key);
    }
  }

  lemma {:induction false} UpsertNew<T, K>(s: seq<T>, x: T, key: T -> K)
    requires Absent(s, key(x), key)
    ensures Upsert(s, x, key) == s + [x]
  {
    if s != [] {
      UpsertNew(s[1..], x, key);
    }
  }

  /** Either the key is new, or it has a first position. */
  lemma {:induction false} FirstPosition<T, K>(s: seq<T>, k: K, key: T -> K) returns (i: nat)
    ensures i <= |s| && Absent(s[..i], k, key)
    ensures i < |s| ==> key(s[i]) == k && Find(s, k, key) == Some(s[i])
    ensures i == |s| ==> Absent(s, k, key) && Find(s, k, key) == None
  {
    if s == [] || key(s[0]) == k {
      i := 0;
    } else {
      var j := FirstPosition(s[1..], k, key);
      i := j + 1;
      assert s[..i] == [s[0]] + s[1..][..j];
    }
  }

  /** An upsert is a map update that keeps the position of every key it had. */
  lemma UpsertIsMapUpdate<T, K>(s: seq<T>, x: T, k: K, key: T -> K)
    requires Unique(s, key)
    ensures Unique(Upsert(s, x, key), key)
    ensures Find(Upsert(s, x, key), k, key) == if k == key(x) then Some(x) else Find(s, k, key)
    ensures Keys(s, key) <= Keys(Upsert(s, x, key), key)
  {
    hide Upsert, Find;
    var i := FirstPosition(s, key(x), key);
    var r := Upsert(s, x, key);
    if i < |s| { UpsertAt(s, i, x, key); } else { UpsertNew(s, x, key); }
    var j := FirstPosition(s, k, key);
    var j' := FirstPosition(r, k, key);
    SamePosition(s, r, k, key, j, j');
    assert r[i] == x;
    assert k == key(x) ==> j' == i;
  }

  /** First positions of a key in a list and in the list after one write agree. */
  lemma SamePosition<T, K>(s: seq<T>, r: seq<T>, k: K, key: T -> K, j: nat, j': nat)
    requires Unique(r, key) && |s| <= |r| <= |s| + 1
    requires forall i :: 0 <= i < |s| ==> key(r[i]) == key(s[i])
    requires j <= |s| && Absent(s[..j], k, key) && (j < |s| ==> key(s[j]) == k)
    requires j' <= |r| && Absent(r[..j'], k, key) && (j' < |r| ==> key(r[j']) == k)
    ensures j < |s| ==> j' == j
    ensures j == |s| && j' < |r| ==> j' == |s|
  {
  }

  /** The keys after an upsert depend only on the keys before it. */
  lemma KeysOfUpsert<T, K>(s: seq<T>, s': seq<T>, x: T, x': T, key: T -> K)
    requires Keys(s, key) == Keys(s', key) && key(x) == key(x')
    ensures Keys(Upsert(s, x, key), key) == Keys(Upsert(s', x', key), key)
  {
    hide Upsert, Find;
    var i := FirstPosition(s, key(x), key);
    forall j | 0 <= j < |s| ensures key(s'[j]) == key(s[j]) {
      assert Keys(s, key)[j] == Keys(s', key)[j];
    }
    if i < |s| {
      UpsertAt(s, i, x, key);
      UpsertAt(s', i, x', key);
    } else {
      UpsertNew(s, x, key);
      UpsertNew(s', x', key);
    }
  }

  /** The laws of a whole batch: keys keep their positions, stay unique, and
      each key reads as its last write, or as before if it was not written. */
  lemma {:induction false} UpsertAllIsOverride<T, K>(s: seq<T>, xs: seq<T>, k: K, key: T -> K)
    requires Unique(s, key) && Unique(xs, key)
    ensures Unique(UpsertAll(s, xs, key), key)
    ensures Keys(s, key) <= Keys(UpsertAll(s, xs, key), key)
    ensures Find(UpsertAll(s, xs, key), k, key) ==
            if Find(xs, k, key).Some? then Find(xs, k, key) else Find(s, k, key)
  {
    if xs != [] {
      var front, last := xs[..|xs| - 1], xs[|xs| - 1];
      UpsertAllIsOverride(s, front, k, key);
      UpsertIsMapUpdate(UpsertAll(s, front, key), last, k, key);
      FindLast(xs, k, key);
    }
  }

  lemma FindLast<T, K>(xs: seq<T>, k: K, key: T -> K)
    requires Unique(xs, key) && xs != []
    ensures Find(xs, k, key) ==
            if k == key(xs[|xs| - 1]) then Some(xs[|xs| - 1]) else Find(xs[..|xs| - 1], k, key)
  {
    var front, last := xs[..|xs| - 1], xs[|xs| - 1];
    var i := FirstPosition(xs, k, key);
    var j := FirstPosition(front, k, key);
    SamePosition(front, xs, k, key, j, i);
  }

  /** A batch adds at most its own entries. */
  lemma {:induction false} UpsertAllFits<T, K>(s: seq<T>, xs: seq<T>, key: T -> K)
    ensures |UpsertAll(s, xs, key)| <= |s| + |xs|
    ensures forall x :: x in UpsertAll(s, xs, key) ==> x in s || x in xs
  {
    if xs != [] {
      hide Upsert;
      var front, last := xs[..|xs| - 1], xs[|xs| - 1];
      UpsertAllFits(s, front, key);
      var before := UpsertAll(s, front, key);
      var i := FirstPosition(before, key(last), key);
      if i < |before| { UpsertAt(before, i, last, key); } else { UpsertNew(before, last, key); }
      assert xs == front + [last];
    }
  }

  /** Uniqueness alone survives any batch, duplicates included. */
  lemma {:induction false} UpsertAllUnique<T, K>(s: seq<T>, xs: seq<T>, key: T -> K)
    requires Unique(s, key)
    ensures Unique(UpsertAll(s, xs, key), key)
  {
    if xs != [] {
      var front, last := xs[..|xs| - 1], xs[|xs| - 1];
      UpsertAllUnique(s, front, key);
      UpsertIsMapUpdate(UpsertAll(s, front, key), last, key(last), key);
    }
  }

  /** The batch `b` written over `a` gives exactly `b` if and only if the keys of
      `a` are the first keys of `b`, in order: upserts cannot delete or reorder. */
  lemma OverrideIsReplacement<T, K>(a: seq<T>, b: seq<T>, key: T -> K)
    requires Unique(a, key) && Unique(b, key)
    ensures UpsertAll(a, b, key) == b <==> Keys(a, key) <= Keys(b, key)
  {
    if Keys(a, key) <= Keys(b, key) {
      Overwritten(a, b, |b|, key);
      assert b[..|b|] == b;
    }
    if UpsertAll(a, b, key) == b {
      if b == [] {
        assert UpsertAll(a, b, key) == a;
      } else {
        UpsertAllIsOverride(a, b, key(b[0]), key);
      }
    }
  }

  lemma {:induction false} Overwritten<T, K>(a: seq<T>, b: seq<T>, n: nat, key: T -> K)
    requires Unique(b, key) && Keys(a, key) <= Keys(b, key) && n <= |b|
    ensures UpsertAll(a, b[..n], key) == b[..n] + if n <= |a| then a[n..] else []
  {
    hide Upsert, Unique;
    if n > 0 {
      Overwritten(a, b, n - 1, key);
      assert b[..n][..n - 1] == b[..n - 1] && b[..n][n - 1] == b[n - 1];
      if n <= |a| {
        assert Keys(a, key)[n - 1] == Keys(b, key)[n - 1];
        ReplaceNext(a, b, n, key);
      } else {
        assert b[..n - 1] + [] == b[..n - 1];
        AppendNext(b, n, key);
        assert b[..n] + [] == b[..n];
      }
    }
  }

  lemma ReplaceNext<T, K>(a: seq<T>, b: seq<T>, n: nat, key: T -> K)
    requires Unique(b, key) && 0 < n <= |a| && n <= |b| && key(a[n - 1]) == key(b[n - 1])
    ensures Upsert(b[..n - 1] + a[n - 1..], b[n - 1], key) == b[..n] + a[n..]
  {
    hide Upsert;
    var before := b[..n - 1] + a[n - 1..];
    assert before[..n - 1] == b[..n - 1];
    UpsertAt(before, n - 1, b[n - 1], key);
  }

  lemma AppendNext<T, K>(b: seq<T>, n: nat, key: T -> K)
    requires Unique(b, key) && 0 < n <= |b|
    ensures Upsert(b[..n - 1], b[n - 1], key) == b[..n]
  {
    hide Upsert;
    UpsertNew(b[..n - 1], b[n - 1], key);
  }

  /** A list of distinct keys is rebuilt by inserting its entries one by one. */
  lemma Rebuild<T, K>(b: seq<T>, key: T -> K)
    requires Unique(b, key)
    ensures UpsertAll([], b, key) == b
  {
    OverrideIsReplacement([], b, key);
  }

  /** The linear search every list operation starts with. */
  method FindFirst<T, K(==)>(s: seq<T>, k: K, key: T -> K) returns (i: nat)
    ensures i <= |s| && Absent(s[..i], k, key)
    ensures i < |s| ==> key(s[i]) == k
    ensures Find(s, k, key) == if i < |s| then Some(s[i]) else None
  {
    i := 0;
    while i < |s| && key(s[i]) != k
      invariant i <= |s| && Absent(s[..i], k, key)
      invariant Find(s, k, key) == Find(s[i..], k, key)
    {
      i := i + 1;
    }
  }

  /** What the search result makes of an upsert. */
  lemma UpsertFound<T, K>(s: seq<T>, i: nat, x: T, key: T -> K)
    requires Unique(s, key)
    requires i <= |s| && Absent(s[..i], key(x), key) && (i < |s| ==> key(s[i]) == key(x))
    ensures Upsert(s, x, key) == if i < |s| then s[i := x] else s + [x]
    ensures Unique(Upsert(s, x, key), key)
  {
    UpsertIsMapUpdate(s, x, key(x), key);
    if i < |s| {
      UpsertAt(s, i, x, key);
    } else {
      assert s[..i] == s;
      UpsertNew(s, x, key);
    }
  }
}
