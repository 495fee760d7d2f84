/**
 * The two pieces of logic inside app2.py's user interface: the artwork lookup of the verify
 * tab and the owner statistics of the statistics tab. Rendering is not modelled.
 */
module Explorer {
  import opened PlainChain

  /**
   * `[block for block in chain if block.art_hash == art_hash]`: exactly the blocks of the
   * artwork, genesis included if it matches; an empty list means the artwork is not on the chain.
   */
  function Lookup(chain: seq<Block>, artHash: string): (matches: seq<Block>)
    ensures forall b :: b in matches <==> b in chain && b.artHash == artHash
    ensures matches == [] <==> forall i :: 0 <= i < |chain| ==> chain[i].artHash != artHash
    ensures |matches| <= |chain|
  {
    if chain == [] then []
    else
      assert chain[0] in chain;
      (if chain[0].artHash == artHash then [chain[0]] else []) + Lookup(chain[1..], artHash)
  }

  /** The lookup keeps chain order: the matches of two stretches of chain, one after the other. */
  lemma {:induction false} LookupConcat(c1: seq<Block>, c2: seq<Block>, artHash: string)
    ensures Lookup(c1 + c2, artHash) == Lookup(c1, artHash) + Lookup(c2, artHash)
    decreases |c1|
  {
    if c1 == [] {
      assert c1 + c2 == c2;
    } else {
      assert (c1 + c2)[1..] == c1[1..] + c2;
      LookupConcat(c1[1..], c2, artHash);
    }
  }

  /** After minting block `b`, looking up its artwork gives the earlier matches, then `b`. */
  lemma LookupAfterMint(chain: seq<Block>, b: Block)
    ensures Lookup(chain + [b], b.artHash) == Lookup(chain, b.artHash) + [b]
  {
    LookupConcat(chain, [b], b.artHash);
    assert Lookup([b], b.artHash) == [b] + Lookup([], b.artHash);
  }

  /** One row of the leaderboard: an owner and the number of artworks they minted. */
  datatype Tally = Tally(owner: string, minted: nat)

  /** What the statistics tab shows. */
  datatype Stats = Stats(totalNfts: int, uniqueOwners: nat, leaderboard: seq<Tally>)

  /** The owners of `chain[1:]`: every block but genesis, in chain order. */
  function MintOwners(chain: seq<Block>): (owners: seq<string>)
    ensures |owners| == if |chain| <= 1 then 0 else |chain| - 1
    ensures forall i :: 0 <= i < |owners| ==> owners[i] == chain[i + 1].owner
  {
    if |chain| <= 1 then []
    else seq(|chain| - 1, i requires 0 <= i < |chain| - 1 => chain[i + 1].owner)
  }

  function OwnersOf(ts: seq<Tally>): (os: seq<string>)
    ensures |os| == |ts| && forall i :: 0 <= i < |ts| ==> os[i] == ts[i].owner
  {
    seq(|ts|, i requires 0 <= i < |ts| => ts[i].owner)
  }

  /** No owner has two rows: the rows are the items of a dictionary keyed by owner. */
  predicate DistinctOwners(ts: seq<Tally>) {
    forall i, j :: 0 <= i < j < |ts| ==> ts[i].owner != ts[j].owner
  }

  /** The position at which `x` first occurs in `xs`. */
  ghost function FirstIndex(xs: seq<string>, x: string): (k: nat)
    requires x in xs
    ensures k < |xs| && xs[k] == x && x !in xs[..k]
  {
    if xs[0] == x then 0
    else
      assert x in xs[1..];
      var k := FirstIndex(xs[1..], x);
      assert xs[..k + 1] == [xs[0]] + xs[1..][..k];
      k + 1
  }

  lemma FirstIndexExtend(xs: seq<string>, y: string, x: string)
    requires x in xs
    ensures FirstIndex(xs + [y], x) == FirstIndex(xs, x)
  {
    var k := FirstIndex(xs, x);
    assert (xs + [y])[k] == x;
    assert (xs + [y])[..k] == xs[..k];
  }

  /** The sum of the `minted` column. */
  function Total(ts: seq<Tally>): nat {
    if ts == [] then 0 else Total(ts[..|ts| - 1]) + ts[|ts| - 1].minted
  }

  lemma {:induction false} TotalUpdate(ts: seq<Tally>, j: int, t: Tally)
    requires 0 <= j < |ts|
    ensures Total(ts[j := t]) == Total(ts) - ts[j].minted + t.minted
    decreases |ts|
  {
    var last := |ts| - 1;
    if j < last {
      assert ts[j := t][..last] == ts[..last][j := t];
      TotalUpdate(ts[..last], j, t);
    } else {
      assert ts[j := t][..last] == ts[..last];
    }
  }

  /** The row of `owner` in `counts`, or `|counts|` when there is none: `owner_counts.get`. */
  function RowOf(counts: seq<Tally>, owner: string): (j: nat)
    ensures j <= |counts|
    ensures j < |counts| ==> counts[j].owner == owner
    ensures j == |counts| ==> owner !in OwnersOf(counts)
    decreases |counts|
  {
    if counts == [] then 0
    else if counts[|counts| - 1].owner == owner then |counts| - 1
    else
      var j := RowOf(counts[..|counts| - 1], owner);
      if j == |counts| - 1 then |counts| else j
  }

  /** One turn of the `owner_counts` loop: add one to the row of `owner`, or open it at 1. */
  function Bump(counts: seq<Tally>, owner: string): seq<Tally> {
    var j := RowOf(counts, owner);
    if j < |counts| then counts[j := Tally(owner, counts[j].minted + 1)]
    else counts + [Tally(owner, 1)]
  }

  /**
   * `counts` is the dictionary built from the owners `seen` so far: one row per owner seen, in
   * the order they were first seen, each with the number of times it was seen.
   */
  ghost predicate Tallies(counts: seq<Tally>, seen: seq<string>) {
    && DistinctOwners(counts)
    && (forall o :: o in OwnersOf(counts) <==> o in seen)
    && (forall j :: 0 <= j < |counts| ==> counts[j].owner in seen)
    && (forall j :: 0 <= j < |counts| ==> counts[j].minted == multiset(seen)[counts[j].owner])
    && (forall j, k :: 0 <= j < k < |counts| ==>
          FirstIndex(seen, counts[j].owner) < FirstIndex(seen, counts[k].owner))
    && Total(counts) == |seen|
  }

  lemma BumpOwners(counts: seq<Tally>, owner: string)
    ensures RowOf(counts, owner) < |counts| ==> OwnersOf(Bump(counts, owner)) == OwnersOf(counts)
    ensures RowOf(counts, owner) == |counts| ==>
              OwnersOf(Bump(counts, owner)) == OwnersOf(counts) + [owner]
  {
  }

  lemma BumpKeepsDistinct(counts: seq<Tally>, owner: string)
    requires DistinctOwners(counts)
    ensures DistinctOwners(Bump(counts, owner))
  {
    BumpOwners(counts, owner);
    var c' := Bump(counts, owner);
    forall i, j | 0 <= i < j < |c'|
      ensures c'[i].owner != c'[j].owner
    {
      assert OwnersOf(c')[i] == c'[i].owner && OwnersOf(c')[j] == c'[j].owner;
      if RowOf(counts, owner) == |counts| && j == |counts| {
        assert OwnersOf(counts)[i] == counts[i].owner;
      }
    }
  }

  lemma BumpKeepsCounts(counts: seq<Tally>, seen: seq<string>, owner: string)
    requires DistinctOwners(counts)
    requires forall j :: 0 <= j < |counts| ==> counts[j].minted == multiset(seen)[counts[j].owner]
    requires forall o :: o in OwnersOf(counts) <==> o in seen
    ensures forall j :: 0 <= j < |Bump(counts, owner)| ==>
              Bump(counts, owner)[j].minted == multiset(seen + [owner])[Bump(counts, owner)[j].owner]
  {
    var c' := Bump(counts, owner);
    var m := multiset(seen + [owner]);
    assert m == multiset(seen) + multiset{owner};
    forall j | 0 <= j < |c'|
      ensures c'[j].minted == m[c'[j].owner]
    {
      var r := RowOf(counts, owner);
      if j == |counts| {
        assert owner !in seen;
      } else if j == r {
        assert c'[j] == Tally(owner, counts[j].minted + 1);
      } else {
        assert c'[j] == counts[j];
        assert r < |counts| ==> counts[j].owner != counts[r].owner;
        assert r == |counts| ==> OwnersOf(counts)[j] != owner;
      }
    }
  }

  /** An owner not seen before first occurs at the end. */
  lemma NewOwnerLast(seen: seq<string>, owner: string)
    requires owner !in seen
    ensures FirstIndex(seen + [owner], owner) == |seen|
  {
    var s' := seen + [owner];
    var f := FirstIndex(s', owner);
    assert s'[..|seen|] == seen;
  }

  lemma BumpKeepsOrder(counts: seq<Tally>, seen: seq<string>, owner: string)
    requires forall j :: 0 <= j < |counts| ==> counts[j].owner in seen
    requires forall o :: o in OwnersOf(counts) <==> o in seen
    requires forall j, k :: 0 <= j < k < |counts| ==>
               FirstIndex(seen, counts[j].owner) < FirstIndex(seen, counts[k].owner)
    ensures forall j :: 0 <= j < |Bump(counts, owner)| ==> Bump(counts, owner)[j].owner in seen + [owner]
    ensures forall j, k :: 0 <= j < k < |Bump(counts, owner)| ==>
              FirstIndex(seen + [owner], Bump(counts, owner)[j].owner)
                < FirstIndex(seen + [owner], Bump(counts, owner)[k].owner)
  {
    var c' := Bump(counts, owner);
    var s' := seen + [owner];
    BumpOwners(counts, owner);
    forall j | 0 <= j < |counts|
      ensures c'[j].owner == counts[j].owner
      ensures FirstIndex(s', c'[j].owner) == FirstIndex(seen, counts[j].owner) < |seen|
    {
      assert OwnersOf(c')[j] == OwnersOf(counts)[j];
      FirstIndexExtend(seen, owner, counts[j].owner);
    }
    if RowOf(counts, owner) == |counts| {
      assert owner !in seen;
      NewOwnerLast(seen, owner);
      assert c'[|counts|].owner == owner;
    }
    forall j, k | 0 <= j < k < |c'|
      ensures FirstIndex(s', c'[j].owner) < FirstIndex(s', c'[k].owner)
    {
      assert j < |counts|;
    }
  }

  /** Every turn of the loop counts one more block. */
  lemma BumpAddsOne(counts: seq<Tally>, owner: string)
    ensures Total(Bump(counts, owner)) == Total(counts) + 1
  {
    var j := RowOf(counts, owner);
    if j < |counts| {
      TotalUpdate(counts, j, Tally(owner, counts[j].minted + 1));
    } else {
      assert Bump(counts, owner)[..|counts|] == counts;
    }
  }

  lemma BumpKeepsTallies(counts: seq<Tally>, seen: seq<string>, owner: string)
    requires Tallies(counts, seen)
    ensures Tallies(Bump(counts, owner), seen + [owner])
  {
    var c' := Bump(counts, owner);
    var s' := seen + [owner];
    BumpOwners(counts, owner);
    BumpKeepsDistinct(counts, owner);
    BumpKeepsCounts(counts, seen, owner);
    BumpKeepsOrder(counts, seen, owner);
    BumpAddsOne(counts, owner);
  }

  /**
   * The `owner_counts` loop: one row per owner of `chain[1:]`, in the order the owners first
   * minted (a dictionary keeps insertion order), each with the number of blocks they own.
   */
  method OwnerCounts(chain: seq<Block>) returns (counts: seq<Tally>)
    ensures Tallies(counts, MintOwners(chain))
  {
    ghost var owners := MintOwners(chain);
    ghost var seen: seq<string> := [];
    counts := [];
    var i := 1;
    while i < |chain|
      invariant 1 <= i && (i <= |chain| || |chain| == 0) && i - 1 <= |owners|
      invariant seen == owners[..i - 1]
      invariant Tallies(counts, seen)
    {
      var owner := chain[i].owner;
      assert owners[..i] == seen + [owner];
      BumpKeepsTallies(counts, seen, owner);
      counts := Bump(counts, owner);
      seen := seen + [owner];
      i := i + 1;
    }
    assert seen == owners;
  }

  /** Rows in the order of the leaderboard: the most minted first. */
  predicate NonIncreasing(ts: seq<Tally>) {
    forall i, j :: 0 <= i < j < |ts| ==> ts[i].minted >= ts[j].minted
  }

  /** Put `t` after every row minting at least as many as it does. */
  function Insert(t: Tally, sorted: seq<Tally>): seq<Tally> {
    if sorted == [] then [t]
    else if sorted[0].minted >= t.minted then [sorted[0]] + Insert(t, sorted[1..])
    else [t] + sorted
  }

  /**
   * `sorted(owner_counts.items(), key=lambda x: x[1], reverse=True)`: by count, most first;
   * Python's sort is stable, also in reverse, so rows with equal counts keep their order.
   */
  function Leaderboard(ts: seq<Tally>): seq<Tally>
    decreases |ts|
  {
    if ts == [] then [] else Insert(ts[|ts| - 1], Leaderboard(ts[..|ts| - 1]))
  }

  /** The rows with count `n`, in order. */
  function WithCount(ts: seq<Tally>, n: nat): seq<Tally> {
    if ts == [] then []
    else (if ts[0].minted == n then [ts[0]] else []) + WithCount(ts[1..], n)
  }

  /** Inserting adds exactly the one row. */
  lemma {:induction false} InsertPermutes(t: Tally, sorted: seq<Tally>)
    ensures multiset(Insert(t, sorted)) == multiset(sorted) + multiset{t}
    decreases |sorted|
  {
    if sorted != [] && sorted[0].minted >= t.minted {
      InsertPermutes(t, sorted[1..]);
      assert sorted == [sorted[0]] + sorted[1..];
    }
  }

  lemma {:induction false} InsertSorts(t: Tally, sorted: seq<Tally>)
    requires NonIncreasing(sorted)
    ensures NonIncreasing(Insert(t, sorted))
    ensures multiset(Insert(t, sorted)) == multiset(sorted) + multiset{t}
    decreases |sorted|
  {
    InsertPermutes(t, sorted);
    if sorted != [] && sorted[0].minted >= t.minted {
      InsertSorts(t, sorted[1..]);
      var r := Insert(t, sorted[1..]);
      InsertBelow(t, sorted[1..], sorted[0].minted);
      var r' := [sorted[0]] + r;
      forall i, j | 0 <= i < j < |r'|
        ensures r'[i].minted >= r'[j].minted
      {
        assert r'[j] == r[j - 1];
      }
    }
  }

  /** Inserting a row into rows that all mint at most `m` gives rows that all mint at most `m`. */
  lemma InsertBelow(t: Tally, rows: seq<Tally>, m: nat)
    requires t.minted <= m && forall i :: 0 <= i < |rows| ==> rows[i].minted <= m
    ensures forall i :: 0 <= i < |Insert(t, rows)| ==> Insert(t, rows)[i].minted <= m
  {
    var r := Insert(t, rows);
    InsertPermutes(t, rows);
    forall i | 0 <= i < |r|
      ensures r[i].minted <= m
    {
      assert r[i] in multiset(r);
      if r[i] != t {
        assert r[i] in multiset(rows);
      }
    }
  }

  /** Inserting a row puts it after every row with the same count. */
  lemma {:induction false} InsertKeepsTies(t: Tally, sorted: seq<Tally>, n: nat)
    requires NonIncreasing(sorted)
    ensures WithCount(Insert(t, sorted), n)
            == WithCount(sorted, n) + (if t.minted == n then [t] else [])
    decreases |sorted|
  {
    if sorted != [] && sorted[0].minted >= t.minted {
      InsertKeepsTies(t, sorted[1..], n);
      TiesBehind(t, sorted, n);
    } else {
      TiesInFront(t, sorted, n);
    }
  }

  /** The step of `InsertKeepsTies` where the row goes behind the first one. */
  lemma TiesBehind(t: Tally, sorted: seq<Tally>, n: nat)
    requires sorted != [] && sorted[0].minted >= t.minted
    requires WithCount(Insert(t, sorted[1..]), n)
             == WithCount(sorted[1..], n) + (if t.minted == n then [t] else [])
    ensures WithCount(Insert(t, sorted), n)
            == WithCount(sorted, n) + (if t.minted == n then [t] else [])
  {
    var e := if t.minted == n then [t] else [];
    var h := if sorted[0].minted == n then [sorted[0]] else [];
    var rest := sorted[1..];
    assert Insert(t, sorted) == [sorted[0]] + Insert(t, rest);
    assert WithCount(Insert(t, sorted), n) == h + WithCount(Insert(t, rest), n) by {
      WithCountCons(sorted[0], Insert(t, rest), n);
    }
    assert WithCount(sorted, n) == h + WithCount(rest, n) by {
      WithCountCons(sorted[0], rest, n);
      assert sorted == [sorted[0]] + rest;
    }
    assert h + (WithCount(rest, n) + e) == (h + WithCount(rest, n)) + e;
  }

  /** The case of `InsertKeepsTies` where the row goes in front: no row left has its count. */
  lemma TiesInFront(t: Tally, sorted: seq<Tally>, n: nat)
    requires NonIncreasing(sorted)
    requires sorted == [] || sorted[0].minted < t.minted
    ensures WithCount(Insert(t, sorted), n)
            == WithCount(sorted, n) + (if t.minted == n then [t] else [])
  {
    var e := if t.minted == n then [t] else [];
    WithCountCons(t, sorted, n);
    if t.minted == n {
      NoneWithCount(sorted, n);
      assert e + [] == [] + e;
    }
  }

  /** The rows with count `n` of a list with one more row in front. */
  lemma WithCountCons(x: Tally, r: seq<Tally>, n: nat)
    ensures WithCount([x] + r, n) == (if x.minted == n then [x] else []) + WithCount(r, n)
  {
    assert ([x] + r)[0] == x && ([x] + r)[1..] == r;
  }

  /** When no row mints `n`, none is kept. */
  lemma {:induction false} NoneWithCount(ts: seq<Tally>, n: nat)
    requires forall i :: 0 <= i < |ts| ==> ts[i].minted != n
    ensures WithCount(ts, n) == []
    decreases |ts|
  {
    if ts != [] {
      NoneWithCount(ts[1..], n);
    }
  }

  lemma {:induction false} WithCountAppend(ts: seq<Tally>, t: Tally, n: nat)
    ensures WithCount(ts + [t], n) == WithCount(ts, n) + (if t.minted == n then [t] else [])
    decreases |ts|
  {
    if ts == [] {
      assert ts + [t] == [t];
    } else {
      var h := if ts[0].minted == n then [ts[0]] else [];
      var e := if t.minted == n then [t] else [];
      assert (ts + [t])[0] == ts[0];
      assert (ts + [t])[1..] == ts[1..] + [t];
      WithCountAppend(ts[1..], t, n);
      calc {
        WithCount(ts + [t], n);
        h + WithCount(ts[1..] + [t], n);
        h + (WithCount(ts[1..], n) + e);
        (h + WithCount(ts[1..], n)) + e;
      }
    }
  }

  /** The leaderboard is ordered by count, most first, and holds exactly the rows it was given. */
  lemma {:induction false} LeaderboardSorts(ts: seq<Tally>)
    ensures NonIncreasing(Leaderboard(ts))
    ensures multiset(Leaderboard(ts)) == multiset(ts)
    decreases |ts|
  {
    if ts != [] {
      var init := ts[..|ts| - 1];
      LeaderboardSorts(init);
      InsertSorts(ts[|ts| - 1], Leaderboard(init));
      assert ts == init + [ts[|ts| - 1]];
    }
  }

  /** Stability: the rows of any one count appear in the leaderboard in their original order. */
  lemma {:induction false} LeaderboardStable(ts: seq<Tally>, n: nat)
    ensures WithCount(Leaderboard(ts), n) == WithCount(ts, n)
    decreases |ts|
  {
    if ts != [] {
      var init, last := ts[..|ts| - 1], ts[|ts| - 1];
      var lb := Leaderboard(init);
      var e := if last.minted == n then [last] else [];
      assert WithCount(lb, n) == WithCount(init, n) by {
        LeaderboardStable(init, n);
      }
      assert WithCount(Insert(last, lb), n) == WithCount(lb, n) + e by {
        LeaderboardSorts(init);
        InsertKeepsTies(last, lb, n);
      }
      assert WithCount(ts, n) == WithCount(init, n) + e by {
        WithCountAppend(init, last, n);
        assert ts == init + [last];
      }
      assert Leaderboard(ts) == Insert(last, lb);
    }
  }

  /** A list without repeats has as many distinct elements as entries. */
  lemma {:induction false} DistinctCount(ts: seq<Tally>)
    requires DistinctOwners(ts)
    ensures |set o | o in OwnersOf(ts)| == |ts|
    decreases |ts|
  {
    if ts != [] {
      var init := ts[..|ts| - 1];
      DistinctCount(init);
      var s, s' := set o | o in OwnersOf(init), set o | o in OwnersOf(ts);
      assert s' == s + {ts[|ts| - 1].owner};
      assert ts[|ts| - 1].owner !in s;
    }
  }

  /** Total of rows is preserved by reordering them. */
  lemma {:induction false} TotalInsert(t: Tally, sorted: seq<Tally>)
    ensures Total(Insert(t, sorted)) == Total(sorted) + t.minted
    decreases |sorted|
  {
    TotalFront([t] + sorted);
    if sorted != [] {
      TotalFront(sorted);
      TotalFront(Insert(t, sorted));
      if sorted[0].minted >= t.minted {
        TotalInsert(t, sorted[1..]);
        assert Insert(t, sorted)[1..] == Insert(t, sorted[1..]);
        TotalFront([t] + sorted[1..]);
      } else {
        assert ([t] + sorted)[1..] == sorted;
      }
    } else {
      assert ([t] + sorted)[1..] == sorted;
    }
  }

  /** The total is also the first count plus the total of the rest. */
  lemma {:induction false} TotalFront(ts: seq<Tally>)
    requires ts != []
    ensures Total(ts) == ts[0].minted + Total(ts[1..])
    decreases |ts|
  {
    if |ts| > 1 {
      TotalFront(ts[..|ts| - 1]);
      assert ts[..|ts| - 1][1..] == ts[1..][..|ts| - 2];
    }
  }

  lemma {:induction false} LeaderboardTotal(ts: seq<Tally>)
    ensures Total(Leaderboard(ts)) == Total(ts)
    decreases |ts|
  {
    if ts != [] {
      LeaderboardTotal(ts[..|ts| - 1]);
      TotalInsert(ts[|ts| - 1], Leaderboard(ts[..|ts| - 1]));
    }
  }

  /** A dictionary's items hold each row once. */
  lemma {:induction false} DistinctAtMostOnce(ts: seq<Tally>, t: Tally)
    requires DistinctOwners(ts)
    ensures multiset(ts)[t] <= 1
    decreases |ts|
  {
    if ts != [] {
      var init := ts[..|ts| - 1];
      DistinctAtMostOnce(init, t);
      assert ts == init + [ts[|ts| - 1]];
      assert forall i :: 0 <= i < |init| ==> init[i].owner != ts[|ts| - 1].owner;
    }
  }

  /** Reordering the rows of a dictionary's items keeps one row per owner. */
  lemma PermutationKeepsDistinct(a: seq<Tally>, b: seq<Tally>)
    requires multiset(a) == multiset(b) && DistinctOwners(a)
    ensures DistinctOwners(b)
  {
    forall i, j | 0 <= i < j < |b|
      ensures b[i].owner != b[j].owner
    {
      assert b[i] in multiset(a) && b[j] in multiset(a);
      var p :| 0 <= p < |a| && a[p] == b[i];
      var q :| 0 <= q < |a| && a[q] == b[j];
      if b[i] == b[j] {
        assert b == b[..j] + [b[j]] + b[j + 1..];
        assert b[i] in b[..j];
        DistinctAtMostOnce(a, b[i]);
      } else {
        assert p != q;
      }
    }
  }

  /** Rows with the same elements name the same owners. */
  lemma SameRowsSameOwners(a: seq<Tally>, b: seq<Tally>)
    requires forall t :: t in a <==> t in b
    ensures forall o :: o in OwnersOf(a) <==> o in OwnersOf(b)
  {
    forall o | o in OwnersOf(a)
      ensures o in OwnersOf(b)
    {
      var i :| 0 <= i < |a| && OwnersOf(a)[i] == o;
      assert a[i] in b;
      var j :| 0 <= j < |b| && b[j] == a[i];
      assert OwnersOf(b)[j] == o;
    }
    forall o | o in OwnersOf(b)
      ensures o in OwnersOf(a)
    {
      var j :| 0 <= j < |b| && OwnersOf(b)[j] == o;
      assert b[j] in a;
      var i :| 0 <= i < |a| && a[i] == b[j];
      assert OwnersOf(a)[i] == o;
    }
  }

  /**
   * The leaderboard of a dictionary's items: the same rows, one per owner, most minted first,
   * with the same total.
   */
  lemma LeaderboardRows(counts: seq<Tally>)
    requires DistinctOwners(counts)
    ensures NonIncreasing(Leaderboard(counts))
    ensures DistinctOwners(Leaderboard(counts))
    ensures |Leaderboard(counts)| == |counts|
    ensures forall t :: t in Leaderboard(counts) <==> t in counts
    ensures forall o :: o in OwnersOf(Leaderboard(counts)) <==> o in OwnersOf(counts)
    ensures Total(Leaderboard(counts)) == Total(counts)
  {
    var lb := Leaderboard(counts);
    LeaderboardSorts(counts);
    LeaderboardTotal(counts);
    PermutationKeepsDistinct(counts, lb);
    assert |multiset(lb)| == |multiset(counts)|;
    forall t
      ensures t in lb <==> t in counts
    {
      assert t in lb <==> t in multiset(lb);
      assert t in counts <==> t in multiset(counts);
    }
    SameRowsSameOwners(lb, counts);
  }

  /** `set(block.owner for block in chain[1:])` is the set of the minting owners. */
  lemma UniqueOwners(chain: seq<Block>)
    ensures (set i | 1 <= i < |chain| :: chain[i].owner) == set o | o in MintOwners(chain)
  {
    var owners := MintOwners(chain);
    forall o
      ensures o in (set i | 1 <= i < |chain| :: chain[i].owner) <==> o in owners
    {
      if o in (set i | 1 <= i < |chain| :: chain[i].owner) {
        var i :| 1 <= i < |chain| && chain[i].owner == o;
        assert owners[i - 1] == o;
      }
      if o in owners {
        var i :| 0 <= i < |owners| && owners[i] == o;
        assert chain[i + 1].owner == o;
      }
    }
  }

  /** The leaderboard of the counts of `seen`: one row per owner seen, with their count. */
  lemma LeaderboardOfCounts(counts: seq<Tally>, seen: seq<string>)
    requires Tallies(counts, seen)
    ensures |set o | o in seen| == |Leaderboard(counts)|
    ensures NonIncreasing(Leaderboard(counts)) && DistinctOwners(Leaderboard(counts))
    ensures forall o :: o in OwnersOf(Leaderboard(counts)) <==> o in seen
    ensures forall t | t in Leaderboard(counts) :: t.minted == multiset(seen)[t.owner]
    ensures Total(Leaderboard(counts)) == |seen|
  {
    LeaderboardRows(counts);
    DistinctCount(counts);
    assert (set o | o in seen) == set o | o in OwnersOf(counts);
    forall t | t in Leaderboard(counts)
      ensures t.minted == multiset(seen)[t.owner]
    {
      var j :| 0 <= j < |counts| && counts[j] == t;
    }
  }

  /**
   * The statistics tab: the number of NFTs is the chain length minus genesis, the unique owners
   * are those of `chain[1:]`, and the leaderboard lists every owner once with their count,
   * most first.
   */
  method Statistics(chain: seq<Block>) returns (s: Stats)
    ensures s.totalNfts == |chain| - 1
    ensures s.uniqueOwners == |s.leaderboard|
    ensures NonIncreasing(s.leaderboard)
    ensures DistinctOwners(s.leaderboard)
    ensures forall o :: o in OwnersOf(s.leaderboard) <==> o in MintOwners(chain)
    ensures forall t | t in s.leaderboard :: t.minted == multiset(MintOwners(chain))[t.owner]
    ensures Total(s.leaderboard) == |MintOwners(chain)|
    ensures chain != [] ==> Total(s.leaderboard) == s.totalNfts
  {
    var totalNfts := |chain| - 1;
    var uniqueOwners := set i | 1 <= i < |chain| :: chain[i].owner;
    var counts := OwnerCounts(chain);
    var leaderboard := Leaderboard(counts);
    UniqueOwners(chain);
    LeaderboardOfCounts(counts, MintOwners(chain));
    s := Stats(totalNfts, |uniqueOwners|, leaderboard);
  }
}
