// Container/Associative/hashtable.hpp keeps the elements of one key next to each other:
// insert_equal_noresize links a new node right after the first node with its key, and
// every other operation only unlinks nodes. This module states that property of the
// table's iteration order and proves what the inserts and erases do to it, and that
// equal_range then spans every element with its key.
module HashtableGroups {
  import opened Hashtable

  /** Elements with the same key form one contiguous run of s. */
  ghost predicate Grouped<V, K>(s: seq<V>, key: V -> K)
  {
    forall i, j, l :: Between(s, key, i, j, l)
  }

  /** An element between two with the same key has their key too. */
  ghost predicate Between<V, K>(s: seq<V>, key: V -> K, i: int, j: int, l: int)
  {
    0 <= i < j < l < |s| && key(s[i]) == key(s[l]) ==> key(s[j]) == key(s[i])
  }

  /** Inserting x at p keeps the runs when p splits no run and, if x's key is present, p
      touches its run. */
  lemma InsertGrouped<V, K>(s: seq<V>, key: V -> K, p: int, x: V)
    requires Grouped(s, key) && 0 <= p <= |s|
    requires 0 < p < |s| ==> key(s[p - 1]) != key(s[p]) || key(s[p - 1]) == key(x)
    requires forall q :: 0 <= q < |s| && key(s[q]) == key(x) ==>
      (0 < p && key(s[p - 1]) == key(x)) || (p < |s| && key(s[p]) == key(x))
    ensures Grouped(s[..p] + [x] + s[p..], key)
  {
    forall i, j, l ensures Between(s[..p] + [x] + s[p..], key, i, j, l) {
      var t := s[..p] + [x] + s[p..];
      if 0 <= i < j < l < |t| && key(t[i]) == key(t[l]) {
        if j == p {
          InsertSplits(s, key, p, x, i, l);
        } else if i == p || l == p {
          InsertJoins(s, key, p, x, i, j, l);
        } else {
          var i', j', l' := if i < p then i else i - 1, if j < p then j else j - 1,
                            if l < p then l else l - 1;
          assert t[i] == s[i'] && t[j] == s[j'] && t[l] == s[l'];
          assert Between(s, key, i', j', l');
        }
      }
    }
  }

  /** x lands inside a run only when it has the run's key. */
  lemma InsertSplits<V, K>(s: seq<V>, key: V -> K, p: int, x: V, i: int, l: int)
    requires Grouped(s, key) && 0 <= i < p < l <= |s|
    requires 0 < p < |s| ==> key(s[p - 1]) != key(s[p]) || key(s[p - 1]) == key(x)
    requires key(s[i]) == key(s[l - 1])
    ensures key(x) == key(s[i])
  {
    assert Between(s, key, i, p - 1, l - 1);
    assert Between(s, key, i, p, l - 1);
  }

  /** Elements between x and another element with x's key have that key: x touches its
      run. */
  lemma InsertJoins<V, K>(s: seq<V>, key: V -> K, p: int, x: V, i: int, j: int, l: int)
    requires Grouped(s, key) && 0 <= p <= |s| && 0 <= i < j < l <= |s| && (i == p || l == p)
    requires forall q :: 0 <= q < |s| && key(s[q]) == key(x) ==>
      (0 < p && key(s[p - 1]) == key(x)) || (p < |s| && key(s[p]) == key(x))
    ensures var t := s[..p] + [x] + s[p..];
      key(t[i]) == key(t[l]) ==> key(t[j]) == key(t[i])
  {
    var t := s[..p] + [x] + s[p..];
    if key(t[i]) == key(t[l]) {
      if i == p {
        assert t[i] == x && t[l] == s[l - 1] && t[j] == s[j - 1];
        assert Between(s, key, p - 1, j - 1, l - 1);
        assert Between(s, key, p, j - 1, l - 1);
      } else {
        assert t[l] == x && t[i] == s[i] && t[j] == s[j];
        assert Between(s, key, i, j, p - 1);
        assert Between(s, key, i, j, p);
      }
    }
  }

  /** Cutting out s[i..j] keeps the runs. */
  lemma CutGrouped<V, K>(s: seq<V>, key: V -> K, i: int, j: int)
    requires Grouped(s, key) && 0 <= i <= j <= |s|
    ensures Grouped(s[..i] + s[j..], key)
  {
    var t := s[..i] + s[j..];
    forall a, b, c ensures Between(t, key, a, b, c) {
      if 0 <= a < b < c < |t| {
        var a', b', c' := if a < i then a else a + (j - i), if b < i then b else b + (j - i),
                          if c < i then c else c + (j - i);
        assert t[a] == s[a'] && t[b] == s[b'] && t[c] == s[c'];
        assert Between(s, key, a', b', c');
      }
    }
  }

  /** The head of a bucket splits no run: the elements on either side of it lie in
      different buckets, so their keys differ. */
  lemma HeadSplitsNone<V, K>(bs: seq<seq<V>>, hash: K -> nat, key: V -> K, n: int)
    requires Placed(bs, hash, key) && 0 <= n < |bs|
    ensures var F, p := Flat(bs), |Chains(bs, 0, n)|;
      p <= |F| && (0 < p < |F| ==> key(F[p - 1]) != key(F[p]))
  {
    var F, A, B := Flat(bs), Chains(bs, 0, n), Chains(bs, n, |bs|);
    ChainsSplit(bs, 0, n, |bs|);
    var p := |A|;
    if 0 < p < |F| {
      var k := key(F[p - 1]);
      assert F[p - 1] == A[p - 1] && A[p - 1] in A;
      assert F[p] == B[0] && B[0] in B;
      if hash(k) % |bs| < n {
        ChainsAvoid(bs, hash, key, k, n, |bs|);
      } else {
        ChainsAvoid(bs, hash, key, k, 0, n);
      }
    }
  }

  /** insert_equal_noresize keeps the runs: obj goes right after the first element with
      its key, or, when there is none, to the head of its bucket. */
  lemma InsertEqualGrouped<V, K>(bs: seq<seq<V>>, hash: K -> nat, key: V -> K, obj: V)
    requires Placed(bs, hash, key) && Grouped(Flat(bs), key)
    ensures var F, f := Flat(bs), FirstKey(Flat(bs), key, key(obj));
      var p := if f < |F| then f + 1 else |Chains(bs, 0, hash(key(obj)) % |bs|)|;
      p <= |F| && Grouped(F[..p] + [obj] + F[p..], key)
  {
    var F, f := Flat(bs), FirstKey(Flat(bs), key, key(obj));
    if f < |F| {
      InsertGrouped(F, key, f + 1, obj);
    } else {
      FirstKeyAbsent(F, key, key(obj));
      InsertAbsentGrouped(bs, hash, key, obj);
    }
  }

  /** A key not in the table goes to the head of its bucket without splitting a run, as in
      insert_unique_noresize and insert_equal_noresize. */
  lemma InsertAbsentGrouped<V, K>(bs: seq<seq<V>>, hash: K -> nat, key: V -> K, obj: V)
    requires Placed(bs, hash, key) && Grouped(Flat(bs), key)
    requires Absent(Flat(bs), key, key(obj))
    ensures var F, p := Flat(bs), |Chains(bs, 0, hash(key(obj)) % |bs|)|;
      p <= |F| && Grouped(F[..p] + [obj] + F[p..], key)
  {
    var F, n := Flat(bs), hash(key(obj)) % |bs|;
    HeadSplitsNone(bs, hash, key, n);
    forall q | 0 <= q < |F| ensures key(F[q]) != key(obj) {
      assert F[q] in F;
    }
    InsertGrouped(F, key, |Chains(bs, 0, n)|, obj);
  }

  /** In a grouped sequence, the run equal_range finds (from the first element with key k
      to the first after it without) holds every element with key k, and nothing else. */
  lemma GroupedRun<V, K>(s: seq<V>, key: V -> K, k: K, l: int)
    requires Grouped(s, key)
    requires FirstKey(s, key, k) <= l <= |s|
    requires forall q :: FirstKey(s, key, k) <= q < l ==> key(s[q]) == k
    requires l < |s| ==> key(s[l]) != k
    ensures forall q :: 0 <= q < |s| ==> (key(s[q]) == k <==> FirstKey(s, key, k) <= q < l)
    ensures Hits(s, key, k) == s[FirstKey(s, key, k)..l]
  {
    var f := FirstKey(s, key, k);
    FirstKeyBefore(s, key, k);
    forall q | l <= q < |s| ensures key(s[q]) != k {
      assert Between(s, key, f, l, q);
    }
    RunHits(s, key, k, f, l);
  }

  /** When exactly the elements of s[f..l] have key k, they are its hits. */
  lemma RunHits<V, K>(s: seq<V>, key: V -> K, k: K, f: int, l: int)
    requires 0 <= f <= l <= |s|
    requires forall q :: 0 <= q < |s| ==> (key(s[q]) == k <==> f <= q < l)
    ensures Hits(s, key, k) == s[f..l]
  {
    var a, b, c := s[..f], s[f..l], s[l..];
    assert s == a + b + c;
    assert Absent(a, key, k) by {
      forall x | x in a ensures key(x) != k {
        var q :| 0 <= q < |a| && a[q] == x;
        assert s[q] == x;
      }
    }
    assert Absent(c, key, k) by {
      forall x | x in c ensures key(x) != k {
        var q :| 0 <= q < |c| && c[q] == x;
        assert s[l + q] == x;
      }
    }
    assert forall q :: 0 <= q < |b| ==> key(b[q]) == k by {
      forall q | 0 <= q < |b| ensures key(b[q]) == k {
        assert b[q] == s[f + q];
      }
    }
    HitsAround(a, b, c, key, k);
  }

  /** Hits of a run of key k between two stretches without it. */
  lemma HitsAround<V, K>(a: seq<V>, b: seq<V>, c: seq<V>, key: V -> K, k: K)
    requires Absent(a, key, k) && Absent(c, key, k)
    requires forall q :: 0 <= q < |b| ==> key(b[q]) == k
    ensures Hits(a + b + c, key, k) == b
  {
    SelectAppend(a + b, c, key, k, true);
    SelectAppend(a, b, key, k, true);
    SelectNone(a, key, k);
    SelectNone(c, key, k);
    SelectAll(b, key, k);
  }

  /** A sequence all of whose keys are k is its own hits. */
  lemma {:induction false} SelectAll<V, K>(s: seq<V>, key: V -> K, k: K)
    requires forall q :: 0 <= q < |s| ==> key(s[q]) == k
    ensures Hits(s, key, k) == s
    decreases |s|
  {
    if s != [] {
      SelectAll(s[..|s| - 1], key, k);
      assert s == s[..|s| - 1] + [s[|s| - 1]];
    }
  }
}
