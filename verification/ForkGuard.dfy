/** The memory check of sys_fork against what a child really needs. */
module ForkGuard {
  import opened Basics
  import opened PageTree
  import opened Spaces
  import opened MemorySets
  import opened Mmap
  import opened Forks

  /** sys_fork goes on when this many frames are free: the caller's own count of pages, a reserve, and initproc's. */
  predicate Passes(areas: seq<MapArea>, usable: nat, initFrames: nat) {
    usable >= RangeTotal(areas) + 100 + initFrames
  }

  // ----- frames_used counts the pages

  ghost function KeysTo(s: Space, n: nat): set<Key> {
    set k | k in s.home && s.home[k].a < n
  }

  lemma {:induction false} PagesTo(areas: seq<MapArea>, s: Space, managed: set<nat>, n: nat)
    requires Placed(areas, s, managed) && AllFull(areas) && n <= |areas|
    ensures |KeysTo(s, n)| == RangeTotal(areas[..n])
  {
    if n == 0 {
      assert KeysTo(s, 0) == {};
    } else {
      var a := n - 1;
      var keys := KeysFrom(areas[a].start, areas[a].end);
      PagesTo(areas, s, managed, a);
      assert areas[..n][..a] == areas[..a];
      AreaOf(areas, s, managed, a);
      AllKeysCount(areas[a].start, areas[a].end);
      forall k ensures k in KeysTo(s, n) <==> k in KeysTo(s, a) + keys {
        AreaKeys(areas, s, managed, a, k);
      }
      forall k | k in keys ensures k !in KeysTo(s, a) {
        AreaKeys(areas, s, managed, a, k);
      }
      assert KeysTo(s, n) == KeysTo(s, a) + keys && KeysTo(s, a) !! keys;
    }
  }

  lemma {:induction false} UsedIsPages(areas: seq<MapArea>, s: Space, managed: set<nat>)
    requires Placed(areas, s, managed) && AllFull(areas)
    ensures RangeTotal(areas) == |s.home|
  {
    PagesTo(areas, s, managed, |areas|);
    assert areas[..|areas|] == areas;
    forall k | k in s.home ensures k in KeysTo(s, |areas|) {
      SlotOf(areas, s, managed, k);
    }
    assert KeysTo(s, |areas|) == s.home.Keys;
    assert |s.home| == |s.home.Keys|;
  }

  // ----- when the check is enough

  /** The reserve has to pay for the nodes of the child's table. When it can, what passes the check has all frames. */
  lemma {:induction false} GuardCovers(areas: seq<MapArea>, s: Space, managed: set<nat>, initFrames: nat)
    requires Placed(areas, s, managed) && AllFull(areas) && Passes(areas, |s.free|, initFrames)
    requires |Needed(s)| <= 100 + initFrames
    ensures |s.free| >= |Needed(s)| + |s.home|
  {
    UsedIsPages(areas, s, managed);
  }

  /** When it cannot, the check lets pass what has too few frames. */
  lemma {:induction false} GuardMisses(areas: seq<MapArea>, s: Space, managed: set<nat>, initFrames: nat)
    requires Placed(areas, s, managed) && AllFull(areas) && |s.free| == RangeTotal(areas) + 100 + initFrames
    requires |Needed(s)| > 100 + initFrames
    ensures Passes(areas, |s.free|, initFrames) && |s.free| < |Needed(s)| + |s.home|
  {
    UsedIsPages(areas, s, managed);
  }

  // ----- a process that gets past the check and has too few frames

  lemma {:induction false} LeavesDiffer(n: nat, q: nat)
    requires n <= q < 0x4_0000
    ensures LeafNode(q) !in Leaves(0, n)
  {
    if n > 0 {
      LeavesDiffer(n - 1, q);
      LeafNodesDiffer(n - 1, q);
    }
  }

  lemma {:induction false} LeafNodesDiffer(p: nat, q: nat)
    requires p < q < 0x4_0000
    ensures LeafNode(p) != LeafNode(q)
  {
    assert p == 512 * (p / 512) + p % 512 && q == 512 * (q / 512) + q % 512;
    Below512(p / 512);
    Below512(q / 512);
  }

  lemma {:induction false} Below512(x: nat)
    requires x < 512
    ensures x % 512 == x
  {
  }

  lemma {:induction false} LeavesExact(n: nat)
    requires n <= 0x4_0000
    ensures |Leaves(0, n)| == n && forall l :: l in Leaves(0, n) ==> l != Root
  {
    if n > 0 {
      LeavesExact(n - 1);
      LeavesDiffer(n - 1, n - 1);
    }
  }

  /** The first n pages of a leaf table each. */
  ghost predicate Sparse(s: Space, n: nat) {
    forall j :: 0 <= j < n ==> KeyOf(512 * j) in s.home
  }

  lemma {:induction false} SparseLeaves(s: Space, n: nat)
    requires Sparse(s, n)
    ensures Leaves(0, n) <= Needed(s)
  {
    if n > 0 {
      SparseLeaves(s, n - 1);
      PathIs(512 * (n - 1));
      assert 512 * (n - 1) / 512 == n - 1;
      PathNeeded(s, KeyOf(512 * (n - 1)));
    }
  }

  lemma {:induction false} SparseNeeds(s: Space, n: nat)
    requires n <= 0x4_0000 && Sparse(s, n)
    ensures |Needed(s)| > n
  {
    SparseLeaves(s, n);
    LeavesExact(n);
    PathNeeded(s, TrampolineKey());
    SubsetCount(Leaves(0, n) + {Root}, Needed(s));
  }

  /** A process with 100 + initFrames pages, each in a leaf table of its own, that finds exactly as many free frames as
      sys_fork asks for, gets past its check and then cannot be copied. */
  lemma {:induction false} SparseFork(areas: seq<MapArea>, s: Space, managed: set<nat>, initFrames: nat)
    requires Placed(areas, s, managed) && AllFull(areas) && 100 + initFrames <= 0x4_0000 && Sparse(s, 100 + initFrames)
    requires |s.free| == RangeTotal(areas) + 100 + initFrames
    ensures Passes(areas, |s.free|, initFrames) && |s.free| < |Needed(s)| + |s.home|
  {
    SparseNeeds(s, 100 + initFrames);
    GuardMisses(areas, s, managed, initFrames);
  }
}
