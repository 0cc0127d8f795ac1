/** Where single-threaded .xz compression ends its Blocks: the plan that
    --block-size and --block-list make, and the counters of coder_normal and
    split_block that follow it (src/xz/coder.c). */
module BlockSplit {
  import opened Common

  const MAX: nat := 0xFFFF_FFFF_FFFF_FFFF  // UINT64_MAX

  // ---------- the plan ----------

  /** --block-size and --block-list.  `list` is opt_block_list with its terminating
      0, or empty when --block-list was not used. */
  datatype Options = Options(blockSize: nat, list: seq<nat>, multiThreaded: bool) {

    predicate Valid() {
      && blockSize < MAX
      && (list != [] ==>
            |list| >= 2 && list[|list| - 1] == 0 && forall i :: 0 <= i < |list| - 1 ==> 0 < list[i] <= MAX)
    }

    /** The limit that coder_normal itself enforces; threaded encoding leaves
        --block-size to the library. */
    function Limit(): nat {
      if multiThreaded then 0 else blockSize
    }

    /** The k-th size the user asked for: the last list entry goes on forever; with
        no list it is --block-size, or a single endless Block. */
    function Entry(k: nat): (n: nat)
      requires Valid()
      ensures 0 < n <= MAX
    {
      if list != [] then list[if k < |list| - 1 then k else |list| - 2]
      else if Limit() > 0 then Limit() else MAX
    }
  }

  /** An entry cut into pieces of at most `limit` (0: no limit). */
  function Chop(n: nat, limit: nat): (pieces: seq<nat>)
    ensures pieces != []
    ensures n > 0 ==> forall i :: 0 <= i < |pieces| ==> pieces[i] > 0
    ensures limit > 0 ==> forall i :: 0 <= i < |pieces| ==> pieces[i] <= limit
  {
    if limit == 0 || n <= limit then [n] else [limit] + Chop(n - limit, limit)
  }

  /** Only the last piece may be shorter than the limit. */
  lemma {:induction false} ChopIsGreedy(n: nat, limit: nat, i: nat)
    requires i < |Chop(n, limit)| - 1
    ensures Chop(n, limit)[i] == limit
    decreases n
  {
    if i > 0 {
      ChopIsGreedy(n - limit, limit, i - 1);
    }
  }

  /** The Block sizes of the first m entries. */
  function Plan(o: Options, m: nat): (p: seq<nat>)
    requires o.Valid()
    ensures |p| >= m
    ensures forall i :: 0 <= i < |p| ==> p[i] > 0
  {
    if m == 0 then [] else Plan(o, m - 1) + Chop(o.Entry(m - 1), o.Limit())
  }

  /** The size of the k-th Block of the endless plan. */
  function BlockAt(o: Options, k: nat): (n: nat)
    requires o.Valid()
    ensures n > 0
  {
    Plan(o, k + 1)[k]
  }

  lemma {:induction false} PlanGrows(o: Options, m: nat, n: nat)
    requires o.Valid() && m <= n
    ensures Plan(o, m) <= Plan(o, n)
    decreases n
  {
    if m < n {
      PlanGrows(o, m, n - 1);
    }
  }

  /** Every finite plan is the beginning of the endless one. */
  lemma PlanIsBlockAt(o: Options, m: nat, k: nat)
    requires o.Valid() && k < |Plan(o, m)|
    ensures Plan(o, m)[k] == BlockAt(o, k)
  {
    hide Plan;
    if m <= k + 1 {
      PlanGrows(o, m, k + 1);
    } else {
      PlanGrows(o, k + 1, m);
    }
  }

  /** Cutting loses nothing, so every boundary of the list is a Block boundary. */
  lemma {:induction false} ChopSums(n: nat, limit: nat)
    ensures Sum(Chop(n, limit)) == n
  {
    if limit == 0 || n <= limit {
      assert [n][..0] == [];
    } else {
      ChopSums(n - limit, limit);
      SumAppend([limit], Chop(n - limit, limit));
      assert [limit][..0] == [];
    }
  }

  /** Concretely: --block-list=5,3 with --block-size=2, four entries long. */
  lemma PlanOfFiveThree()
    ensures var o := Options(2, [5, 3, 0], false);
            o.Valid() && Plan(o, 4) == [2, 2, 1] + [2, 1] + [2, 1] + [2, 1]
  {
    var o := Options(2, [5, 3, 0], false);
    assert o.Entry(0) == 5 && o.Entry(1) == 3 && o.Entry(2) == 3 && o.Entry(3) == 3;
    assert Chop(1, 2) == [1] && Chop(3, 2) == [2, 1] && Chop(5, 2) == [2, 2, 1];
    hide Chop, Options.Entry;
    assert Plan(o, 0) == [] && Plan(o, 1) == [2, 2, 1];
  }

  function EntrySum(o: Options, m: nat): nat
    requires o.Valid()
  {
    if m == 0 then 0 else EntrySum(o, m - 1) + o.Entry(m - 1)
  }

  /** The Blocks of the first m entries add up to exactly those entries. */
  lemma {:induction false} ListBoundariesAreHit(o: Options, m: nat)
    requires o.Valid()
    ensures Sum(Plan(o, m)) == EntrySum(o, m)
  {
    hide Sum, Chop;
    if m == 0 {
      SumNothing();
    } else {
      ListBoundariesAreHit(o, m - 1);
      NextEntrySums(Plan(o, m - 1), o.Entry(m - 1), o.Limit());
    }
  }

  lemma NextEntrySums(plan: seq<nat>, n: nat, limit: nat)
    ensures Sum(plan + Chop(n, limit)) == Sum(plan) + n
  {
    hide Sum, Chop;
    ChopSums(n, limit);
    SumAppend(plan, Chop(n, limit));
  }

  // ---------- the counters ----------

  /** The rest of an entry whose first Block is under way. */
  function Rest(next: nat, limit: nat): seq<nat> {
    if next == 0 then [] else Chop(next, limit)
  }

  function Piece(n: nat, limit: nat): nat {
    if limit == 0 || n <= limit then n else limit
  }

  lemma ChopBegins(n: nat, limit: nat)
    ensures Chop(n, limit) == [Piece(n, limit)] + Rest(n - Piece(n, limit), limit)
  {
    ChopUnfolds(n, limit);
    hide *;
    PieceIs(n, limit);
    RestIs(n - Piece(n, limit), limit);
    if limit == 0 || n <= limit {
      assert [n] + [] == [n];
    }
  }

  lemma RestIs(n: nat, limit: nat)
    ensures Rest(n, limit) == if n == 0 then [] else Chop(n, limit)
  {
    hide Chop;
  }

  lemma PieceIs(n: nat, limit: nat)
    ensures Piece(n, limit) == if limit == 0 || n <= limit then n else limit
  {
  }

  lemma ChopUnfolds(n: nat, limit: nat)
    ensures Chop(n, limit) == if limit == 0 || n <= limit then [n] else [limit] + Chop(n - limit, limit)
  {
  }

  /** Within an entry the next Block is its next piece. */
  lemma PlanWithin(blocks: seq<nat>, current: nat, next: nat, limit: nat)
    requires next > 0
    ensures blocks + [current] + Rest(next, limit)
         == (blocks + [current]) + [Piece(next, limit)] + Rest(next - Piece(next, limit), limit)
  {
    hide Chop;
    ChopBegins(next, limit);
  }

  /** At the end of an entry the plan is extended by the next one. */
  lemma PlanExtended(o: Options, m: nat)
    requires o.Valid()
    ensures var n: nat := Piece(o.Entry(m), o.Limit());
            Plan(o, m + 1) == Plan(o, m) + [n] + Rest(o.Entry(m) - n, o.Limit())
  {
    hide Chop;
    ChopBegins(o.Entry(m), o.Limit());
  }

  lemma StartsPlanned(o: Options)
    requires o.Valid()
    ensures var n: nat := Piece(o.Entry(0), o.Limit());
            [] + [n] + Rest(o.Entry(0) - n, o.Limit()) == Plan(o, 1)
  {
    hide Chop;
    PlanExtended(o, 0);
  }

  lemma EntryFinished(blocks: seq<nat>, current: nat, o: Options, m: nat)
    requires o.Valid() && blocks + [current] + Rest(0, o.Limit()) == Plan(o, m)
    ensures blocks + [current] == Plan(o, m)
  {
    assert blocks + [current] + [] == blocks + [current];
  }

  /** The variables of coder_normal that decide where Blocks end.  `blocks` are
      the sizes of the Blocks finished, `current` is the size planned for the open
      one, and `entries` list entries have been started. */
  class Counters {
    const o: Options
    var blockRemaining: nat
    var nextBlockRemaining: nat
    var listPos: nat
    ghost var blocks: seq<nat>
    ghost var current: nat
    ghost var entries: nat

    ghost predicate Planned()
      reads this
    {
      && o.Valid() && entries > 0 && 0 < current <= MAX
      && (nextBlockRemaining > 0 ==> o.Limit() > 0 && o.list != [])
      && nextBlockRemaining <= MAX
      && (o.list == [] ==> current == if o.Limit() > 0 then o.Limit() else MAX)
      && (o.list != [] ==> listPos == (if entries - 1 < |o.list| - 1 then entries - 1 else |o.list| - 2))
      && blocks + [current] + Rest(nextBlockRemaining, o.Limit()) == Plan(o, entries)
    }

    /** A Block begins. */
    ghost predicate AtStart()
      reads this
    {
      Planned() && blockRemaining == current
    }

    /** The initialisation in coder_normal. */
    constructor (o: Options)
      requires o.Valid()
      ensures this.o == o && AtStart() && blocks == []
    {
      hide Plan, Chop, Rest;
      var block, next := MAX, 0;
      if !o.multiThreaded && o.blockSize > 0 {
        block := o.blockSize;
      }
      if o.list != [] {
        if block < o.list[0] {
          assert !o.multiThreaded;
          next := o.list[0] - block;
        } else {
          block := o.list[0];
        }
      }
      StartsPlanned(o);
      assert block == Piece(o.Entry(0), o.Limit()) && next == o.Entry(0) - block;
      this.o := o;
      blockRemaining, nextBlockRemaining, listPos := block, next, 0;
      blocks, current, entries := [], block, 1;
    }

    /** split_block in the middle of an entry. */
    method SplitRest()
      requires Planned() && nextBlockRemaining > 0
      modifies this
      ensures AtStart() && blocks == old(blocks) + [old(current)]
    {
      hide Plan, Chop, Rest;
      assert !o.multiThreaded && o.blockSize > 0 && o.list != [];
      PlanWithin(blocks, current, nextBlockRemaining, o.Limit());
      if nextBlockRemaining > o.blockSize {
        blockRemaining := o.blockSize;
      } else {
        blockRemaining := nextBlockRemaining;
      }
      nextBlockRemaining := nextBlockRemaining - blockRemaining;
      blocks, current := blocks + [current], blockRemaining;
    }

    /** split_block at the end of an entry. */
    method SplitNext()
      requires Planned() && nextBlockRemaining == 0 && o.list != []
      modifies this
      ensures AtStart() && blocks == old(blocks) + [old(current)]
    {
      hide Plan, Chop, Rest;
      EntryFinished(blocks, current, o, entries);
      PlanExtended(o, entries);
      if o.list[listPos + 1] != 0 {
        listPos := listPos + 1;
      }
      blockRemaining := o.list[listPos];
      assert blockRemaining == o.Entry(entries);
      if !o.multiThreaded && o.blockSize > 0 && blockRemaining > o.blockSize {
        nextBlockRemaining := blockRemaining - o.blockSize;
        blockRemaining := o.blockSize;
      }
      entries := entries + 1;
      blocks, current := blocks + [current], blockRemaining;
    }

    /** split_block, after the Block with `current` bytes. */
    method SplitBlock()
      requires Planned() && o.list != []
      modifies this
      ensures AtStart() && blocks == old(blocks) + [old(current)]
    {
      hide Plan, Chop, Rest;
      if nextBlockRemaining > 0 {
        SplitRest();
      } else {
        SplitNext();
      }
    }

    /** The Blocks so far, the open one included, are those of the plan. */
    lemma OpenBlock()
      requires Planned()
      ensures forall k :: 0 <= k < |blocks| ==> blocks[k] == BlockAt(o, k)
      ensures current == BlockAt(o, |blocks|)
    {
      hide Plan, Chop, Rest, BlockAt;
      var p := Plan(o, entries);
      forall k | 0 <= k <= |blocks|
        ensures k < |p| && p[k] == BlockAt(o, k) && p[k] == (blocks + [current])[k]
      {
        PlanIsBlockAt(o, entries, k);
      }
      assert p[|blocks|] == current;
      assert forall k :: 0 <= k < |blocks| ==> blocks[k] == p[k];
    }

    /** What follows a FULL_BARRIER. */
    method NextBlock()
      requires Planned() && (o.list == [] ==> o.Limit() > 0)
      modifies this
      ensures AtStart() && blocks == old(blocks) + [old(current)]
    {
      hide Plan, Chop, Rest;
      if o.list == [] {
        EntryFinished(blocks, current, o, entries);
        PlanExtended(o, entries);
        assert Piece(o.Entry(entries), o.Limit()) == o.blockSize;
        blocks, current, entries := blocks + [current], o.blockSize, entries + 1;
        blockRemaining := o.blockSize;
      } else {
        SplitBlock();
      }
    }
  }
}
