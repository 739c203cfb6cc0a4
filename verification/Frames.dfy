/** Physical frames and the stack allocator that hands them out. */
module Frames {
  import opened Basics

  type u64 = w: nat | w < 0x1_0000_0000_0000_0000

  /** One frame: 4096 bytes, as 512 words. */
  type Frame = f: seq<u64> | |f| == 512 witness seq(512, _ => 0)

  /** Physical page numbers have 44 bits. */
  const PPN_LIMIT := 0x1000_0000_0000

  function ZeroFrame(): Frame {
    seq(512, _ => 0)
  }

  predicate Reaches(lo: nat, p: nat) {
    lo <= p
  }

  ghost function Interval(lo: nat, hi: nat): set<nat> {
    set p: nat | p < hi && Reaches(lo, p)
  }

  lemma {:induction false} IntervalSize(lo: nat, hi: nat)
    requires lo <= hi
    ensures |Interval(lo, hi)| == hi - lo
  {
    if lo == hi {
      assert Interval(lo, hi) == {};
    } else {
      IntervalSize(lo, hi - 1);
      assert Interval(lo, hi) == Interval(lo, hi - 1) + {hi - 1};
    }
  }

  lemma {:induction false} ElementsPush(s: seq<nat>, x: nat)
    ensures Elements(s + [x]) == Elements(s) + {x}
  {
    var t := s + [x];
    assert t[|s|] == x;
    assert forall i :: 0 <= i < |s| ==> t[i] == s[i];
    forall y | y in Elements(s) ensures y in Elements(t) {
      var i :| 0 <= i < |s| && s[i] == y;
      assert t[i] == y;
    }
  }

  lemma {:induction false} ElementsSize(s: seq<nat>)
    requires Distinct(s)
    ensures |Elements(s)| == |s|
  {
    if s == [] {
      assert Elements(s) == {};
    } else {
      var n := |s| - 1;
      ElementsSize(s[..n]);
      ElementsPush(s[..n], s[n]);
      assert s[..n] + [s[n]] == s;
    }
  }

  class FrameMemory {
    /** All of physical memory, indexed by physical page number. */
    var ram: seq<Frame>

    // StackFrameAllocator: [current, end) was never handed out, `recycled` was handed out and came back
    var current: nat
    var end: nat
    var recycled: seq<nat>

    /** The first managed frame, and the frames that are free now. */
    ghost const base: nat
    ghost const limit: nat
    ghost var free: set<nat>

    ghost predicate Sound()
      reads this
    {
      && base <= current <= end == limit <= |ram| && limit <= PPN_LIMIT
      && Distinct(recycled) && (forall i :: 0 <= i < |recycled| ==> base <= recycled[i] < current)
      && free == Elements(recycled) + Interval(current, end)
    }

    /** Sealed: clients work with `free` and `ram`. */
    ghost predicate Valid()
      reads this
    {
      forall k: nat {:trigger Open(k)} :: Sound()
    }

    /** Every frame the allocator manages. */
    ghost function Managed(): set<nat> {
      Interval(base, limit)
    }

    /** new followed by init(l, r). */
    constructor (ram: seq<Frame>, l: nat, r: nat)
      requires l <= r <= |ram| && r <= PPN_LIMIT
      ensures Valid() && this.ram == ram && free == Managed() && base == l && limit == r
    {
      this.ram := ram;
      current, end, recycled := l, r, [];
      base, limit, free := l, r, Interval(l, r);
      new;
      assert Elements(recycled) == {};
    }

    lemma FreeIsManaged()
      requires Valid()
      ensures free <= Managed() && forall p :: p in Managed() ==> p < |ram| && p < PPN_LIMIT
    {
      assert Open(0);
    }

    method UsableFrames() returns (n: nat)
      requires Valid()
      ensures n == |free|
    {
      assert Open(0);
      ElementsSize(recycled);
      IntervalSize(current, end);
      assert Elements(recycled) !! Interval(current, end);
      n := end - current + |recycled|;
    }

    /** StackFrameAllocator::alloc: the latest returned frame, else the next new one; None only when none is free. */
    method Take() returns (r: Option<nat>)
      requires Valid()
      modifies this`current, this`recycled, this`free
      ensures Valid() && (r.None? <==> old(free) == {})
      ensures r.Some? ==> r.value in old(free) && free == old(free) - {r.value}
      ensures r.None? ==> free == old(free)
      ensures r == if |old(recycled)| > 0 then Some(old(recycled)[|old(recycled)| - 1])
                   else if old(current) == end then None else Some(old(current))
    {
      assert Open(0);
      if |recycled| > 0 {
        var p := recycled[|recycled| - 1];
        ElementsPush(recycled[..|recycled| - 1], p);
        assert recycled[..|recycled| - 1] + [p] == recycled;
        recycled := recycled[..|recycled| - 1];
        free := free - {p};
        r := Some(p);
        assert p !in Elements(recycled);
      } else if current == end {
        r := None;
      } else {
        assert Elements(recycled) == {};
        current := current + 1;
        r := Some(current - 1);
        free := free - {current - 1};
      }
    }

    /** frame_alloc: FrameTracker::new clears the frame. */
    method Alloc() returns (r: Option<nat>)
      requires Valid()
      modifies this`current, this`recycled, this`free, this`ram
      ensures Valid() && (r.None? <==> old(free) == {})
      ensures r.None? ==> free == old(free) && ram == old(ram)
      ensures r.Some? ==> r.value in old(free) && r.value in Managed() && r.value < |old(ram)| && r.value < PPN_LIMIT
      ensures r.Some? ==> free == old(free) - {r.value} && ram == old(ram)[r.value := ZeroFrame()]
    {
      FreeIsManaged();
      r := Take();
      if r.Some? {
        assert Sound() by {
          assert Open(0);
        }
        ClearFrame(r.value);
      }
    }

    method ClearFrame(p: nat)
      requires Sound() && p < |ram|
      modifies this`ram
      ensures Valid() && ram == old(ram)[p := ZeroFrame()]
    {
      var i := 0;
      while i < 512
        invariant i <= 512 && |ram| == |old(ram)|
        invariant ram == old(ram)[p := ram[p]] && forall j :: 0 <= j < i ==> ram[p][j] == 0
      {
        ram := ram[p := ram[p][i := 0]];
        i := i + 1;
      }
      assert ram[p] == ZeroFrame();
    }

    /** StackFrameAllocator::dealloc, run when a FrameTracker is dropped. Of the managed frames, its check (below
        current, not recycled already) lets exactly those pass that are not free. */
    method Dealloc(p: nat)
      requires Valid() && p in Managed() && p !in free
      modifies this`recycled, this`free
      ensures Valid() && free == old(free) + {p}
    {
      assert Open(0);
      assert p < current && p !in Elements(recycled);
      assert p !in recycled;
      ElementsPush(recycled, p);
      recycled := recycled + [p];
      free := free + {p};
    }

    /** A frame the kernel may write: any frame that exists. */
    method Store(p: nat, f: Frame)
      requires Valid() && p < |ram|
      modifies this`ram
      ensures Valid() && ram == old(ram)[p := f]
    {
      assert Open(0);
      ram := ram[p := f];
    }
  }
}
