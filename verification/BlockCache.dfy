/** The write-back block cache of easy-fs over one block device.
    `Store` and the functions on it say what each cache operation does to the queue and the device;
    the class runs the same operations in place.
    A handle (an Arc and its lock) is named by its block id: `held` is the set of blocks that have one. */
module BlockCaching {
  import opened Basics
  import opened Bytes

  const BLOCK_CACHE_SIZE := 16

  datatype BlockCache = BlockCache(id: nat, cache: Block, modified: bool)

  datatype Store = Store(queue: seq<BlockCache>, device: seq<Block>, held: set<nat>)

  /** Position of the first entry for block id, or |q|. */
  function IndexOf(q: seq<BlockCache>, id: nat): (r: nat)
    ensures r <= |q| && (r < |q| ==> q[r].id == id)
    ensures forall j :: 0 <= j < r ==> q[j].id != id
  {
    if q == [] || q[0].id == id then 0 else 1 + IndexOf(q[1..], id)
  }

  /** Position of the first entry without an outside handle, or |q|. */
  function FirstUnused(q: seq<BlockCache>, held: set<nat>): (r: nat)
    ensures r <= |q| && (r < |q| ==> q[r].id !in held)
    ensures forall j :: 0 <= j < r ==> q[j].id in held
  {
    if q == [] || q[0].id !in held then 0 else 1 + FirstUnused(q[1..], held)
  }

  /** Dropping an entry writes it back exactly when it was modified. */
  function Synced(e: BlockCache, device: seq<Block>): (d: seq<Block>)
    ensures |d| == |device|
  {
    if e.modified && e.id < |device| then device[e.id := e.cache] else device
  }

  ghost function Ids(q: seq<BlockCache>): set<nat> {
    set i | 0 <= i < |q| :: q[i].id
  }

  /** v is the disk as every client sees it: the cached buffer if there is one, else the device block.
      At most 16 entries, one per block id; unmodified entries equal the device; handles are on entries. */
  ghost predicate Represents(s: Store, v: seq<Block>) {
    && |v| == |s.device|
    && |s.queue| <= BLOCK_CACHE_SIZE
    && (forall i, j :: 0 <= i < j < |s.queue| ==> s.queue[i].id != s.queue[j].id)
    && (forall i :: 0 <= i < |s.queue| ==> s.queue[i].id < |v| && s.queue[i].cache == v[s.queue[i].id])
    && (forall i :: 0 <= i < |s.queue| && !s.queue[i].modified ==> s.queue[i].cache == s.device[s.queue[i].id])
    && (forall b :: 0 <= b < |v| && b !in Ids(s.queue) ==> v[b] == s.device[b])
    && s.held <= Ids(s.queue)
  }

  /** What a request for block id does; `None` is the "Run out of BlockCache" panic. */
  datatype GetResult = RunOut | Got(s: Store)

  function Dropped(s: Store, k: nat): Store
    requires k < |s.queue|
  {
    s.(queue := s.queue[..k] + s.queue[k + 1..], device := Synced(s.queue[k], s.device))
  }

  function Loaded(s: Store, id: nat): Store
    requires id < |s.device|
  {
    s.(queue := s.queue + [BlockCache(id, s.device[id], false)], held := s.held + {id})
  }

  function Get(s: Store, id: nat): (r: GetResult)
    requires id < |s.device|
  {
    if IndexOf(s.queue, id) < |s.queue| then Got(s.(held := s.held + {id}))
    else if |s.queue| != BLOCK_CACHE_SIZE then Got(Loaded(s, id))
    else
      var k := FirstUnused(s.queue, s.held);
      if k < |s.queue| then Got(Loaded(Dropped(s, k), id)) else RunOut
  }

  function Stored(s: Store, k: nat, data: Block): Store
    requires k < |s.queue|
  {
    s.(queue := s.queue[k := s.queue[k].(cache := data, modified := true)])
  }

  lemma {:induction false} IdsFitIn(q: seq<BlockCache>, held: set<nat>)
    requires forall i, j :: 0 <= i < j < |q| ==> q[i].id != q[j].id
    requires forall i :: 0 <= i < |q| ==> q[i].id in held
    ensures |q| <= |held|
  {
    if q != [] {
      var last := q[|q| - 1];
      IdsFitIn(q[..|q| - 1], held - {last.id});
    }
  }

  /** Every entry apart from the k-th survives a drop. */
  lemma DropIds(s: Store, k: nat)
    requires k < |s.queue| && forall i, j :: 0 <= i < j < |s.queue| ==> s.queue[i].id != s.queue[j].id
    ensures Ids(Dropped(s, k).queue) == Ids(s.queue) - {s.queue[k].id}
    ensures forall i :: 0 <= i < |s.queue| && i != k ==> s.queue[i] in Dropped(s, k).queue
  {
    var t := Dropped(s, k).queue;
    assert forall i :: 0 <= i < |t| ==> t[i] == if i < k then s.queue[i] else s.queue[i + 1];
    forall i | 0 <= i < |s.queue| && i != k ensures s.queue[i] in t && s.queue[i].id in Ids(t) {
      assert t[if i < k then i else i - 1] == s.queue[i];
    }
  }

  /** An entry that stays is the one it was, and the device block under it is untouched. */
  lemma {:induction false} DropEntry(s: Store, v: seq<Block>, k: nat, i: nat)
    requires Represents(s, v) && k < |s.queue| && i < |s.queue| - 1
    ensures var t, j := Dropped(s, k), if i < k then i else i + 1;
      && t.queue[i] == s.queue[j] && t.queue[i].id != s.queue[k].id && t.queue[i].id < |v|
      && t.device[t.queue[i].id] == s.device[t.queue[i].id]
  {
    var j := if i < k then i else i + 1;
    assert Dropped(s, k).queue[i] == s.queue[j];
    assert s.queue[j].id != s.queue[k].id;
  }

  lemma {:induction false} DropOutside(s: Store, v: seq<Block>, k: nat, b: nat)
    requires Represents(s, v) && k < |s.queue| && b < |v| && b !in Ids(s.queue) - {s.queue[k].id}
    ensures v[b] == Dropped(s, k).device[b]
  {
    if b != s.queue[k].id {
      assert b !in Ids(s.queue);
    }
  }

  /** Evicting an entry without a handle changes nothing for the clients: a modified one reaches the device, a clean one
      is what the device holds. */
  lemma {:induction false} DropKeeps(s: Store, v: seq<Block>, k: nat)
    requires Represents(s, v) && k < |s.queue| && s.queue[k].id !in s.held
    ensures Represents(Dropped(s, k), v)
  {
    var t := Dropped(s, k);
    DropIds(s, k);
    forall i | 0 <= i < |t.queue|
      ensures t.queue[i].id < |v| && t.queue[i].cache == v[t.queue[i].id]
      ensures !t.queue[i].modified ==> t.queue[i].cache == t.device[t.queue[i].id]
    {
      DropEntry(s, v, k, i);
    }
    forall i, j | 0 <= i < j < |t.queue| ensures t.queue[i].id != t.queue[j].id {
      DropEntry(s, v, k, i);
      DropEntry(s, v, k, j);
    }
    forall b | 0 <= b < |v| && b !in Ids(t.queue) ensures v[b] == t.device[b] {
      DropOutside(s, v, k, b);
    }
  }

  lemma LoadKeeps(s: Store, v: seq<Block>, id: nat)
    requires Represents(s, v) && id < |v| && |s.queue| < BLOCK_CACHE_SIZE && id !in Ids(s.queue)
    ensures Represents(Loaded(s, id), v)
  {
    var t := Loaded(s, id);
    assert forall i :: 0 <= i < |s.queue| ==> t.queue[i] == s.queue[i];
    assert Ids(t.queue) == Ids(s.queue) + {id} by {
      assert t.queue[|s.queue|].id == id;
    }
  }

  /** The cache is transparent: hit, miss and eviction all leave the whole view alone, entries with an
      outside handle stay, and fewer than 16 handles mean the request never runs out of cache. */
  lemma GetRefinesFlatDisk(s: Store, v: seq<Block>, id: nat)
    requires Represents(s, v) && id < |v|
    ensures |s.held| < BLOCK_CACHE_SIZE ==> Get(s, id).Got?
    ensures Get(s, id).Got? ==>
      var t := Get(s, id).s;
      && Represents(t, v) && t.held == s.held + {id}
      && forall i :: 0 <= i < |s.queue| && s.queue[i].id in s.held ==> s.queue[i] in t.queue
  {
    if IndexOf(s.queue, id) == |s.queue| {
      if |s.queue| != BLOCK_CACHE_SIZE {
        LoadKeeps(s, v, id);
      } else {
        var k := FirstUnused(s.queue, s.held);
        if k < |s.queue| {
          DropKeeps(s, v, k);
          DropIds(s, k);
          LoadKeeps(Dropped(s, k), v, id);
        } else if |s.held| < BLOCK_CACHE_SIZE {
          IdsFitIn(s.queue, s.held);
        }
      }
    }
  }

  /** A modification changes the view of its own block only. */
  lemma StoreRefinesFlatDisk(s: Store, v: seq<Block>, k: nat, data: Block)
    requires Represents(s, v) && k < |s.queue|
    ensures Represents(Stored(s, k, data), v[s.queue[k].id := data])
  {
    var t := Stored(s, k, data);
    assert forall i :: 0 <= i < |s.queue| ==> t.queue[i].id == s.queue[i].id;
    assert Ids(t.queue) == Ids(s.queue);
  }

  /** The cache never holds more than 16 blocks, and it evicts one only for a block it does not hold, when it is full:
      the first entry in the queue that has no handle. The new entry goes to the back. */
  lemma {:induction false} EvictsInOrder(s: Store, v: seq<Block>, id: nat)
    requires Represents(s, v) && id < |v|
    ensures |s.queue| <= 16
    ensures id in Ids(s.queue) ==> Get(s, id) == Got(s.(held := s.held + {id}))
    ensures id !in Ids(s.queue) && |s.queue| < 16 ==>
      Get(s, id).Got? && Get(s, id).s.queue == s.queue + [BlockCache(id, v[id], false)]
    ensures id !in Ids(s.queue) && |s.queue| == 16 && Get(s, id).Got? ==>
      exists k :: 0 <= k < 16 && s.queue[k].id !in s.held && (forall i :: 0 <= i < k ==> s.queue[i].id in s.held)
        && Get(s, id).s.queue == s.queue[..k] + s.queue[k + 1..] + [BlockCache(id, v[id], false)]
  {
    var i := IndexOf(s.queue, id);
    if i == |s.queue| {
      assert id !in Ids(s.queue);
      var k := FirstUnused(s.queue, s.held);
      if |s.queue| == 16 && k < 16 {
        DropKeeps(s, v, k);
        assert Dropped(s, k).device[id] == v[id] by {
          DropIds(s, k);
        }
      }
    } else {
      assert s.queue[i].id in Ids(s.queue);
    }
  }

  class BlockCacheManager {
    var queue: seq<BlockCache>
    var device: seq<Block>
    var held: set<nat>
    ghost var view: seq<Block>

    /** How many handles may exist at once. Every value from 3 to 16 will do: clients are proved for all of
        them, so they never nest more than three, and the cache is proved never to run out with 16. */
    ghost const depth: nat

    ghost function Contents(): Store
      reads this
    {
      Store(queue, device, held)
    }

    /** The invariant sits behind a trigger that clients never mention, so that their proofs use Valid()
        as a whole; the methods here open it with `assert Open(0)`. */
    ghost predicate Valid()
      reads this
    {
      |view| == |device| && 3 <= depth <= BLOCK_CACHE_SIZE
      && forall k: nat {:trigger Open(k)} :: Represents(Contents(), view)
    }

    constructor (blocks: seq<Block>, ghost depth: nat)
      requires 3 <= depth <= BLOCK_CACHE_SIZE
      ensures Valid() && view == blocks && held == {} && this.depth == depth
    {
      this.depth := depth;
      queue, device, held, view := [], blocks, {}, blocks;
    }

    method Find(id: nat) returns (i: nat)
      ensures i == IndexOf(queue, id)
    {
      i := 0;
      while i < |queue| && queue[i].id != id
        invariant i <= |queue| && forall j :: 0 <= j < i ==> queue[j].id != id
      {
        i := i + 1;
      }
    }

    method FindUnused() returns (k: nat)
      ensures k == FirstUnused(queue, held)
    {
      k := 0;
      while k < |queue| && queue[k].id in held
        invariant k <= |queue| && forall j :: 0 <= j < k ==> queue[j].id in held
      {
        k := k + 1;
      }
    }

    /** queue.drain(k..=k): the drained entry is dropped, which writes it back if modified. */
    method Drain(k: nat)
      requires k < |queue| && queue[k].id < |device|
      modifies this`queue, this`device
      ensures Contents() == Dropped(old(Contents()), k)
    {
      var victim := queue[k];
      queue := queue[..k] + queue[k + 1..];
      if victim.modified {
        device := device[victim.id := victim.cache];
      }
    }

    /** BlockCache::new reads the device; the entry goes to the back of the queue. */
    method Load(id: nat)
      requires id < |device|
      modifies this`queue, this`held
      ensures Contents() == Loaded(old(Contents()), id)
    {
      queue := queue + [BlockCache(id, device[id], false)];
      held := held + {id};
    }

    /** get_block_cache: the queue changes exactly as `Get` says. */
    method Request(id: nat)
      requires id < |device| && Get(Contents(), id).Got?
      requires forall i :: 0 <= i < |queue| ==> queue[i].id < |device|
      modifies this`queue, this`device, this`held
      ensures Got(Contents()) == Get(old(Contents()), id)
    {
      var i := Find(id);
      if i < |queue| {
        held := held + {id};
      } else {
        if |queue| == BLOCK_CACHE_SIZE {
          var k := FindUnused();
          Drain(k);
        }
        Load(id);
      }
    }

    /** get_block_cache followed by lock(). Locking a block that is already held would never return, so
        the caller owes `id !in held`; at most `depth` handles exclude the panic. */
    method Acquire(id: nat) returns (data: Block)
      requires Valid() && id < |view| && id !in held && |held| < depth
      modifies this
      ensures Valid() && view == old(view) && held == old(held) + {id} && data == view[id]
      ensures Got(Contents()) == Get(old(Contents()), id)
    {
      assert Open(0);
      GetRefinesFlatDisk(Contents(), view, id);
      Request(id);
      var i := Find(id);
      data := queue[i].cache;
    }

    /** modify() through a held handle: the closure's result replaces the buffer, `modified` is set. */
    method Modify(id: nat, data: Block)
      requires Valid() && id in held
      modifies this
      ensures id < |old(view)|
      ensures Valid() && view == old(view)[id := data] && held == old(held)
      ensures device == old(device)
    {
      assert Open(0);
      var i := Find(id);
      StoreRefinesFlatDisk(Contents(), view, i, data);
      queue := queue[i := queue[i].(cache := data, modified := true)];
      view := view[id := data];
    }

    /** The handle and its lock go out of scope. */
    method Release(id: nat)
      requires Valid() && id in held
      modifies this`held
      ensures Valid() && view == old(view) && held == old(held) - {id}
    {
      assert Open(0);
      held := held - {id};
    }

    /** get_block_cache(id).lock().read(..) as one statement. */
    method Read(id: nat) returns (data: Block)
      requires Valid() && id < |view| && id !in held && |held| < depth
      modifies this
      ensures Valid() && view == old(view) && held == old(held) && data == view[id]
    {
      data := Acquire(id);
      Release(id);
    }

    /** get_block_cache(id).lock().modify(..) as one statement. */
    method Write(id: nat, data: Block)
      requires Valid() && id < |view| && id !in held && |held| < depth
      modifies this
      ensures Valid() && view == old(view)[id := data] && held == old(held)
    {
      var _ := Acquire(id);
      Modify(id, data);
      Release(id);
    }
  }
}
