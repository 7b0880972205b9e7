/**
 The visible list of a notebook kernel manager, as values: the records it
 holds, and what the manager's shutdown pruning loop does to that list.
 */
module KernelRecords {

  /** Kernel ids are opaque strings handed out by the kernel registry. */
  type KernelId = string

  /** The model `{"id": ..., "ws_url": ...}` that the manager appends to its list. */
  datatype KernelRecord = KernelRecord(id: KernelId, wsUrl: string)

  /** Number of records in `s` whose id is `k`. */
  function Count(s: seq<KernelRecord>, k: KernelId): nat
  {
    if s == [] then 0
    else (if s[0].id == k then 1 else 0) + Count(s[1..], k)
  }

  /** The records of `s` whose id is not `k`, in their order in `s`. */
  function Others(s: seq<KernelRecord>, k: KernelId): (r: seq<KernelRecord>)
    ensures Count(r, k) == 0
    ensures |r| == |s| - Count(s, k)
  {
    if s == [] then []
    else if s[0].id == k then Others(s[1..], k)
    else [s[0]] + Others(s[1..], k)
  }

  /** `a` can be obtained from `b` by dropping some of its elements. */
  ghost predicate IsSubsequence(a: seq<KernelRecord>, b: seq<KernelRecord>)
    decreases |b|
  {
    if b == [] then a == []
    else (a != [] && a[0] == b[0] && IsSubsequence(a[1..], b[1..]))
         || IsSubsequence(a, b[1..])
  }

  /**
   What the shutdown loop leaves of the list `s` when pruning id `k`.
   The loop walks an index upwards, deletes the record at the index when it
   matches and then advances the index anyway, so the record that slides into
   the deleted slot is never looked at: it stays, whatever its id.
   */
  function Prune(s: seq<KernelRecord>, k: KernelId): (r: seq<KernelRecord>)
    ensures |r| <= |s|
    decreases |s|
  {
    if s == [] then []
    else if s[0].id != k then [s[0]] + Prune(s[1..], k)
    else if |s| == 1 then []
    else [s[1]] + Prune(s[2..], k)
  }

  /** Counting distributes over concatenation. */
  lemma {:induction false} CountAppend(s: seq<KernelRecord>, t: seq<KernelRecord>, k: KernelId)
    ensures Count(s + t, k) == Count(s, k) + Count(t, k)
    decreases |s|
  {
    if s == [] {
      assert s + t == t;
    } else {
      assert (s + t)[0] == s[0];
      assert (s + t)[1..] == s[1..] + t;
      CountAppend(s[1..], t, k);
    }
  }

  /** Appending one record raises the count of its id by one and no other count. */
  lemma {:induction false} CountAppendOne(s: seq<KernelRecord>, rec: KernelRecord, k: KernelId)
    ensures Count(s + [rec], k) == Count(s, k) + (if rec.id == k then 1 else 0)
  {
    CountAppend(s, [rec], k);
    assert [rec][1..] == [];
  }

  /** Pruning never adds a record and never reorders: the result is a subsequence. */
  lemma {:induction false} PruneIsSubsequence(s: seq<KernelRecord>, k: KernelId)
    ensures IsSubsequence(Prune(s, k), s)
    decreases |s|
  {
    if s == [] {
    } else if s[0].id != k {
      PruneIsSubsequence(s[1..], k);
      var r := Prune(s, k);
      assert r[0] == s[0] && r[1..] == Prune(s[1..], k);
    } else if |s| == 1 {
      assert IsSubsequence([], s[1..]);
    } else {
      PruneIsSubsequence(s[2..], k);
      var r := Prune(s, k);
      assert r[0] == s[1..][0] && r[1..] == Prune(s[2..], k);
      assert s[1..][1..] == s[2..];
      assert IsSubsequence(r, s[1..]);
    }
  }

  /** Every record whose id differs from `k` survives pruning, in its original order. */
  lemma {:induction false} PruneKeepsOthers(s: seq<KernelRecord>, k: KernelId)
    ensures Others(Prune(s, k), k) == Others(s, k)
    decreases |s|
  {
    if s == [] {
    } else if s[0].id != k {
      PruneKeepsOthers(s[1..], k);
      var r := Prune(s, k);
      assert r[0] == s[0] && r[1..] == Prune(s[1..], k);
    } else if |s| == 1 {
    } else {
      PruneKeepsOthers(s[2..], k);
      var r := Prune(s, k);
      assert r[0] == s[1] && r[1..] == Prune(s[2..], k);
      assert s[1..][0] == s[1] && s[1..][1..] == s[2..];
    }
  }

  /**
   Exact bookkeeping of a prune: the records it deletes plus the matching
   records it skips are all the matching records of the list.
   */
  lemma {:induction false} PruneCounts(s: seq<KernelRecord>, k: KernelId)
    ensures (|s| - |Prune(s, k)|) + Count(Prune(s, k), k) == Count(s, k)
    decreases |s|
  {
    if s == [] {
    } else if s[0].id != k {
      PruneCounts(s[1..], k);
      var r := Prune(s, k);
      assert r[0] == s[0] && r[1..] == Prune(s[1..], k);
    } else if |s| == 1 {
    } else {
      PruneCounts(s[2..], k);
      var r := Prune(s, k);
      assert r[0] == s[1] && r[1..] == Prune(s[2..], k);
      assert s[1..][0] == s[1] && s[1..][1..] == s[2..];
    }
  }

  /** At most half of the matching records survive a prune. */
  lemma {:induction false} PruneSurvivorsBound(s: seq<KernelRecord>, k: KernelId)
    ensures 2 * Count(Prune(s, k), k) <= Count(s, k)
    decreases |s|
  {
    if s == [] {
    } else if s[0].id != k {
      PruneSurvivorsBound(s[1..], k);
      var r := Prune(s, k);
      assert r[0] == s[0] && r[1..] == Prune(s[1..], k);
    } else if |s| == 1 {
    } else {
      PruneSurvivorsBound(s[2..], k);
      var r := Prune(s, k);
      assert r[0] == s[1] && r[1..] == Prune(s[2..], k);
      assert s[1..][0] == s[1] && s[1..][1..] == s[2..];
    }
  }

  /** The list shrinks by at most the number of matching records. */
  lemma {:induction false} PruneLengthBounds(s: seq<KernelRecord>, k: KernelId)
    ensures |s| - Count(s, k) <= |Prune(s, k)| <= |s|
  {
    PruneCounts(s, k);
  }

  /**
   When `k` occurs at most once, pruning removes every record with id `k`
   and the list shrinks by exactly that count.
   */
  lemma {:induction false} PruneAtMostOnce(s: seq<KernelRecord>, k: KernelId)
    requires Count(s, k) <= 1
    ensures Count(Prune(s, k), k) == 0
    ensures |Prune(s, k)| == |s| - Count(s, k)
    ensures Prune(s, k) == Others(s, k)
  {
    PruneSurvivorsBound(s, k);
    PruneCounts(s, k);
    PruneKeepsOthers(s, k);
    OthersOfUnmatched(Prune(s, k), k);
  }

  /** A list with no record of id `k` is its own `Others`. */
  lemma {:induction false} OthersOfUnmatched(s: seq<KernelRecord>, k: KernelId)
    requires Count(s, k) == 0
    ensures Others(s, k) == s
    decreases |s|
  {
    if s != [] {
      OthersOfUnmatched(s[1..], k);
    }
  }

  /** Pruning an id the list does not hold leaves the list as it was. */
  lemma {:induction false} PruneAbsent(s: seq<KernelRecord>, k: KernelId)
    requires Count(s, k) == 0
    ensures Prune(s, k) == s
  {
    PruneAtMostOnce(s, k);
    OthersOfUnmatched(s, k);
  }

  /**
   One step of the shutdown loop over a record it keeps: the index moves
   past the record, and what is left to prune still yields the same list.
   */
  lemma PruneStepKeep(s: seq<KernelRecord>, i: nat, k: KernelId)
    requires i < |s| && s[i].id != k
    ensures s[..i + 1] + Prune(s[i + 1..], k) == s[..i] + Prune(s[i..], k)
  {
    assert s[i..][0] == s[i] && s[i..][1..] == s[i + 1..];
    assert s[..i + 1] == s[..i] + [s[i]];
  }

  /**
   One step of the shutdown loop over a record it deletes: after deleting
   at `i` and moving the index to `i + 1`, the loop's view of the list
   still yields the same pruned list.
   */
  lemma PruneStepDelete(s: seq<KernelRecord>, i: nat, k: KernelId)
    requires i < |s| && s[i].id == k
    ensures var t := s[..i] + s[i + 1..];
      && (i + 1 <= |t| ==> t[..i + 1] + Prune(t[i + 1..], k) == s[..i] + Prune(s[i..], k))
      && (i + 1 > |t| ==> t == s[..i] + Prune(s[i..], k))
  {
    var t := s[..i] + s[i + 1..];
    if i + 1 < |s| {
      assert s[i..][0] == s[i] && s[i..][1] == s[i + 1] && s[i..][2..] == s[i + 2..];
      assert t[..i + 1] == s[..i] + [s[i + 1]];
      assert t[i + 1..] == s[i + 2..];
    } else {
      assert s[i..] == [s[i]];
      assert t == s[..i];
    }
  }

  /**
   Two neighbouring matches: the first is deleted, the second is skipped and
   survives. So `[A, A]` pruned by A's id leaves `[A]`.
   */
  lemma PruneSkipsAdjacentMatch(a: KernelRecord, b: KernelRecord, rest: seq<KernelRecord>)
    requires a.id == b.id
    ensures Prune([a, b] + rest, a.id) == [b] + Prune(rest, a.id)
    ensures Prune([a, b], a.id) == [b]
  {
    var s := [a, b] + rest;
    assert s[0] == a && s[1] == b && s[2..] == rest;
    assert [a, b][2..] == [];
  }
}
