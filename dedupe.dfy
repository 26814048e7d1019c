/** The in-run deduplication every paginated script performs: a set of identity
    keys, seeded empty, and a row is kept only when its key is not in the set yet.
    `Dedupe` is the specification of that loop; the scripts' own loops are proved
    against it. */
module KeyedDedupe {

  /** The keys of `rows`. */
  function KeySet<R, K(==)>(rows: seq<R>, key: R -> K): set<K>
    decreases |rows|
  {
    if rows == [] then {} else KeySet(rows[..|rows| - 1], key) + {key(rows[|rows| - 1])}
  }

  /** No two of `rows` share a key: each row's key is new among the rows before it. */
  ghost predicate DistinctKeys<R, K>(rows: seq<R>, key: R -> K)
    decreases |rows|
  {
    rows == [] ||
    (DistinctKeys(rows[..|rows| - 1], key) && key(rows[|rows| - 1]) !in KeySet(rows[..|rows| - 1], key))
  }

  /** The rows a first-wins dedupe loop keeps, scanning `rows` in order with the
      keys already in `seen`. */
  function Dedupe<R, K(==)>(rows: seq<R>, key: R -> K, seen: set<K>): seq<R>
    decreases |rows|
  {
    if rows == [] then []
    else
      var init := rows[..|rows| - 1];
      var last := rows[|rows| - 1];
      if key(last) in seen + KeySet(init, key) then Dedupe(init, key, seen)
      else Dedupe(init, key, seen) + [last]
  }

  /** Row `i` is the first of its key and the key was not seen before. */
  ghost predicate IsFirstNew<R, K>(rows: seq<R>, key: R -> K, seen: set<K>, i: nat)
    requires i < |rows|
  {
    key(rows[i]) !in seen && forall j :: 0 <= j < i ==> key(rows[j]) != key(rows[i])
  }

  /** Independent reference: the rows among the first `n` that are first-new, in order. */
  ghost function FirstNew<R, K>(rows: seq<R>, key: R -> K, seen: set<K>, n: nat): seq<R>
    requires n <= |rows|
  {
    if n == 0 then []
    else FirstNew(rows, key, seen, n - 1) + (if IsFirstNew(rows, key, seen, n - 1) then [rows[n - 1]] else [])
  }

  lemma KeySetSnoc<R, K>(rows: seq<R>, x: R, key: R -> K)
    ensures KeySet(rows + [x], key) == KeySet(rows, key) + {key(x)}
  {
    assert (rows + [x])[..|rows|] == rows;
  }

  /** Every row's key is in the key set. */
  lemma {:induction false} KeySetHas<R, K>(rows: seq<R>, key: R -> K, i: nat)
    requires i < |rows|
    ensures key(rows[i]) in KeySet(rows, key)
    decreases |rows|
  {
    if i < |rows| - 1 {
      KeySetHas(rows[..|rows| - 1], key, i);
    }
  }

  /** Every key of the key set is the key of some row. */
  lemma {:induction false} KeySetIndex<R, K>(rows: seq<R>, key: R -> K, k: K) returns (i: nat)
    requires k in KeySet(rows, key)
    ensures i < |rows| && key(rows[i]) == k
    decreases |rows|
  {
    if k == key(rows[|rows| - 1]) {
      i := |rows| - 1;
    } else {
      i := KeySetIndex(rows[..|rows| - 1], key, k);
    }
  }

  lemma {:induction false} KeySetConcat<R, K>(a: seq<R>, b: seq<R>, key: R -> K)
    ensures KeySet(a + b, key) == KeySet(a, key) + KeySet(b, key)
    decreases |b|
  {
    if b == [] {
      assert a + b == a;
    } else {
      var init := b[..|b| - 1];
      var x := b[|b| - 1];
      assert a + b == (a + init) + [x];
      KeySetConcat(a, init, key);
      KeySetSnoc(a + init, x, key);
    }
  }

  /** The recursive definition of distinct keys is the pairwise one. */
  lemma {:induction false} DistinctKeysPairwise<R, K>(rows: seq<R>, key: R -> K)
    ensures DistinctKeys(rows, key) <==> forall i, j :: 0 <= i < j < |rows| ==> key(rows[i]) != key(rows[j])
    decreases |rows|
  {
    if rows != [] {
      var n := |rows|;
      var init := rows[..n - 1];
      DistinctKeysPairwise(init, key);
      if DistinctKeys(rows, key) {
        forall i, j | 0 <= i < j < n ensures key(rows[i]) != key(rows[j]) {
          if j == n - 1 {
            KeySetHas(init, key, i);
          } else {
            assert rows[i] == init[i] && rows[j] == init[j];
          }
        }
      } else if DistinctKeys(init, key) {
        var i := KeySetIndex(init, key, key(rows[n - 1]));
        assert key(rows[i]) == key(rows[n - 1]);
      } else {
        var i, j :| 0 <= i < j < n - 1 && key(init[i]) == key(init[j]);
        assert key(rows[i]) == key(rows[j]);
      }
    }
  }

  /** Two runs of distinct keys, with no key in common, make one. */
  lemma {:induction false} DistinctKeysConcat<R, K>(a: seq<R>, b: seq<R>, key: R -> K)
    requires DistinctKeys(a, key) && DistinctKeys(b, key)
    requires KeySet(a, key) !! KeySet(b, key)
    ensures DistinctKeys(a + b, key)
    decreases |b|
  {
    if b == [] {
      assert a + b == a;
    } else {
      var init := b[..|b| - 1];
      var x := b[|b| - 1];
      assert a + b == (a + init) + [x];
      assert (a + b)[..|a + b| - 1] == a + init;
      DistinctKeysConcat(a, init, key);
      KeySetConcat(a, init, key);
    }
  }

  /** One step of a dedupe loop: the next row is kept exactly when its key is new. */
  lemma DedupeSnoc<R, K>(rows: seq<R>, x: R, key: R -> K, seen: set<K>)
    ensures Dedupe(rows + [x], key, seen) ==
      Dedupe(rows, key, seen) + (if key(x) in seen + KeySet(rows, key) then [] else [x])
    ensures KeySet(rows + [x], key) == KeySet(rows, key) + {key(x)}
  {
    assert (rows + [x])[..|rows|] == rows;
    KeySetSnoc(rows, x, key);
  }

  /** The dedupe of a prefix of a prefix is the dedupe of that prefix. */
  lemma DedupeTakeTake<R, K>(rows: seq<R>, n: nat, k: nat, key: R -> K, seen: set<K>)
    requires k <= n <= |rows|
    ensures Dedupe(rows[..n][..k], key, seen) == Dedupe(rows[..k], key, seen)
  {
    assert rows[..n][..k] == rows[..k];
  }

  /** A row whose key was seen adds nothing. */
  lemma DedupeSnocSeen<R, K>(rows: seq<R>, x: R, key: R -> K, seen: set<K>)
    requires key(x) in seen + KeySet(rows, key)
    ensures Dedupe(rows + [x], key, seen) == Dedupe(rows, key, seen)
    ensures seen + KeySet(rows + [x], key) == seen + KeySet(rows, key)
  {
    DedupeSnoc(rows, x, key, seen);
  }

  /** A row whose key is new is kept. */
  lemma DedupeSnocNew<R, K>(rows: seq<R>, x: R, key: R -> K, seen: set<K>)
    requires key(x) !in seen + KeySet(rows, key)
    ensures Dedupe(rows + [x], key, seen) == Dedupe(rows, key, seen) + [x]
    ensures seen + KeySet(rows + [x], key) == seen + KeySet(rows, key) + {key(x)}
  {
    DedupeSnoc(rows, x, key, seen);
  }

  /** The last row is dropped exactly when its key is known, and its key joins the
      known ones either way. */
  lemma DedupeLast<R, K>(rows: seq<R>, key: R -> K, seen: set<K>)
    requires rows != []
    ensures key(rows[|rows| - 1]) in seen + KeySet(rows[..|rows| - 1], key) ==>
      Dedupe(rows, key, seen) == Dedupe(rows[..|rows| - 1], key, seen) &&
      seen + KeySet(rows, key) == seen + KeySet(rows[..|rows| - 1], key)
    ensures key(rows[|rows| - 1]) !in seen + KeySet(rows[..|rows| - 1], key) ==>
      Dedupe(rows, key, seen) == Dedupe(rows[..|rows| - 1], key, seen) + [rows[|rows| - 1]] &&
      seen + KeySet(rows, key) == seen + KeySet(rows[..|rows| - 1], key) + {key(rows[|rows| - 1])}
  {
  }

  /** Deduping two batches one after the other with one shared set is deduping their
      concatenation: the second batch meets the seen keys plus the first batch's keys. */
  lemma {:induction false} DedupeConcat<R, K>(a: seq<R>, b: seq<R>, key: R -> K, seen: set<K>)
    ensures Dedupe(a + b, key, seen) == Dedupe(a, key, seen) + Dedupe(b, key, seen + KeySet(a, key))
    decreases |b|
  {
    if b == [] {
      assert a + b == a;
    } else {
      var init := b[..|b| - 1];
      var x := b[|b| - 1];
      assert a + b == (a + init) + [x];
      assert b == init + [x];
      DedupeConcat(a, init, key, seen);
      DedupeSnoc(a + init, x, key, seen);
      DedupeSnoc(init, x, key, seen + KeySet(a, key));
      KeySetConcat(a, init, key);
    }
  }

  /** A dedupe loop resumed on a new batch, with the output and the key set it had
      reached, continues the dedupe of everything fed so far. */
  lemma DedupeResume<R, K>(out: seq<R>, outSeen: set<K>, prior: seq<R>, done: seq<R>, rows: seq<R>,
                           key: R -> K, seen: set<K>)
    requires out == prior + Dedupe(done, key, seen)
    requires outSeen == seen + KeySet(done, key)
    ensures out + Dedupe(rows, key, outSeen) == prior + Dedupe(done + rows, key, seen)
    ensures outSeen + KeySet(rows, key) == seen + KeySet(done + rows, key)
  {
    DedupeConcat(done, rows, key, seen);
    KeySetConcat(done, rows, key);
    assert out + Dedupe(rows, key, outSeen) == prior + (Dedupe(done, key, seen) + Dedupe(rows, key, outSeen));
  }

  /** What the dedupe keeps: rows of the input, with pairwise distinct keys, whose
      keys are exactly the input's keys that were not seen before. */
  lemma {:induction false} DedupeKeys<R, K>(rows: seq<R>, key: R -> K, seen: set<K>)
    ensures KeySet(Dedupe(rows, key, seen), key) == KeySet(rows, key) - seen
    ensures DistinctKeys(Dedupe(rows, key, seen), key)
    ensures forall r :: r in Dedupe(rows, key, seen) ==> r in rows
    ensures |Dedupe(rows, key, seen)| <= |rows|
    decreases |rows|
  {
    if rows != [] {
      var init := rows[..|rows| - 1];
      var last := rows[|rows| - 1];
      assert rows == init + [last];
      DedupeKeys(init, key, seen);
      var d := Dedupe(init, key, seen);
      if key(last) !in seen + KeySet(init, key) {
        KeySetSnoc(d, last, key);
        assert (d + [last])[..|d|] == d;
      }
    }
  }

  /** `rows` are sorted by `rank`. */
  ghost predicate RankSorted<R>(rows: seq<R>, rank: R -> int) {
    forall p, q :: 0 <= p < q < |rows| ==> rank(rows[p]) <= rank(rows[q])
  }

  lemma SortedSnoc<R>(rows: seq<R>, x: R, rank: R -> int)
    requires RankSorted(rows, rank)
    requires forall y :: y in rows ==> rank(y) <= rank(x)
    ensures RankSorted(rows + [x], rank)
  {
    var e := rows + [x];
    forall p, q | 0 <= p < q < |e| ensures rank(e[p]) <= rank(e[q]) {
      assert e[p] == rows[p] && e[p] in rows;
      if q < |rows| { assert e[q] == rows[q]; }
    }
  }

  lemma SortedInit<R>(rows: seq<R>, rank: R -> int)
    requires RankSorted(rows, rank) && rows != []
    ensures RankSorted(rows[..|rows| - 1], rank)
    ensures forall y :: y in rows[..|rows| - 1] ==> rank(y) <= rank(rows[|rows| - 1])
  {
    var init := rows[..|rows| - 1];
    forall y | y in init ensures rank(y) <= rank(rows[|rows| - 1]) {
      var j :| 0 <= j < |init| && init[j] == y;
      assert rows[j] == y;
    }
  }

  /** The dedupe keeps the input's order: rows sorted by `rank` stay sorted. */
  lemma {:induction false} DedupeKeepsOrder<R, K>(rows: seq<R>, key: R -> K, seen: set<K>, rank: R -> int)
    requires RankSorted(rows, rank)
    ensures RankSorted(Dedupe(rows, key, seen), rank)
    decreases |rows|
  {
    if rows != [] {
      var init := rows[..|rows| - 1];
      var last := rows[|rows| - 1];
      SortedInit(rows, rank);
      DedupeKeepsOrder(init, key, seen, rank);
      DedupeLast(rows, key, seen);
      if key(last) !in seen + KeySet(init, key) {
        DedupeKeys(init, key, seen);
        SortedSnoc(Dedupe(init, key, seen), last, rank);
      }
    }
  }

  lemma {:induction false} FirstNewPrefix<R, K>(rows: seq<R>, m: nat, key: R -> K, seen: set<K>, n: nat)
    requires n <= m <= |rows|
    ensures FirstNew(rows[..m], key, seen, n) == FirstNew(rows, key, seen, n)
  {
    if n > 0 {
      FirstNewPrefix(rows, m, key, seen, n - 1);
      assert IsFirstNew(rows[..m], key, seen, n - 1) == IsFirstNew(rows, key, seen, n - 1);
    }
  }

  /** First occurrence wins: the dedupe keeps row `i` exactly when its key was not
      seen before and no earlier row has it, in input order. */
  lemma {:induction false} DedupeFirstWins<R, K>(rows: seq<R>, key: R -> K, seen: set<K>)
    ensures Dedupe(rows, key, seen) == FirstNew(rows, key, seen, |rows|)
    decreases |rows|
  {
    if rows != [] {
      var n := |rows|;
      var init := rows[..n - 1];
      DedupeFirstWins(init, key, seen);
      FirstNewPrefix(rows, n - 1, key, seen, n - 1);
      var last := rows[n - 1];
      if key(last) in KeySet(init, key) {
        var j := KeySetIndex(init, key, key(last));
        assert key(rows[j]) == key(rows[n - 1]);
      }
      if !IsFirstNew(rows, key, seen, n - 1) && key(last) !in seen {
        var j :| 0 <= j < n - 1 && key(rows[j]) == key(rows[n - 1]);
        assert rows[j] == init[j];
        KeySetHas(init, key, j);
      }
    }
  }

  lemma {:induction false} DistinctKeysCard<R, K>(rows: seq<R>, key: R -> K)
    requires DistinctKeys(rows, key)
    ensures |KeySet(rows, key)| == |rows|
    decreases |rows|
  {
    if rows != [] {
      DistinctKeysCard(rows[..|rows| - 1], key);
    }
  }

  /** The dedupe keeps one row per new key: as many rows as there are distinct keys
      in the input that were not seen before. */
  lemma DedupeCount<R, K>(rows: seq<R>, key: R -> K, seen: set<K>)
    ensures |Dedupe(rows, key, seen)| == |KeySet(rows, key) - seen|
  {
    DedupeKeys(rows, key, seen);
    DistinctKeysCard(Dedupe(rows, key, seen), key);
  }

  /** Feeding a page whose keys are all known again keeps nothing. */
  lemma DedupeRepeat<R, K>(rows: seq<R>, key: R -> K, seen: set<K>)
    requires KeySet(rows, key) <= seen
    ensures Dedupe(rows, key, seen) == []
  {
    DedupeCount(rows, key, seen);
    assert KeySet(rows, key) - seen == {};
  }

  /** Appending a dedupe's output to data whose keys are `seen` and distinct keeps the
      keys distinct, and the key set grows by the input's keys. */
  lemma AppendDedupe<R, K>(data: seq<R>, rows: seq<R>, key: R -> K, seen: set<K>)
    requires DistinctKeys(data, key) && KeySet(data, key) == seen
    ensures DistinctKeys(data + Dedupe(rows, key, seen), key)
    ensures KeySet(data + Dedupe(rows, key, seen), key) == seen + KeySet(rows, key)
  {
    var d := Dedupe(rows, key, seen);
    DedupeKeys(rows, key, seen);
    KeySetConcat(data, d, key);
    DistinctKeysConcat(data, d, key);
  }
}
