/**
 * ImageCache: the map from paths to decoded images, the least-recently-used
 * access order kept beside it, and the FIFO queue of paths waiting for the
 * background loader. Only the sequential bookkeeping is modelled: the mutex,
 * the condition variable and the worker thread are not.
 */
module ImageCache {

  import opened Wrappers
  import opened Paths
  import opened Sequences
  import opened ImageLoader

  const DefaultMaxSize: nat := 10

  /** The access order after a hit on p: its first occurrence moves to the back. */
  function Touched(order: seq<Path>, p: Path): seq<Path>
  {
    var i := FirstIndex(order, p);
    if i < |order| then order[..i] + order[i + 1..] + [p] else order
  }

  /** The paths of order before and after its first p, the part that a hit keeps in place. */
  lemma TouchedSplit(order: seq<Path>, p: Path)
    requires p in order
    ensures var i := FirstIndex(order, p);
      i < |order| && order == order[..i] + [p] + order[i + 1..] &&
      Touched(order, p) == order[..i] + order[i + 1..] + [p]
  {
    var i := FirstIndex(order, p);
    var k :| 0 <= k < |order| && order[k] == p;
    assert i <= k;
    assert order == order[..i] + [order[i]] + order[i + 1..];
  }

  /** A hit makes p the most recently used path and keeps the same paths. */
  lemma TouchedMovesToBack(order: seq<Path>, p: Path)
    requires p in order
    ensures var t := Touched(order, p);
      |t| == |order| && t[|t| - 1] == p && multiset(t) == multiset(order)
  {
    TouchedSplit(order, p);
    var i := FirstIndex(order, p);
    var before, after := order[..i], order[i + 1..];
    assert multiset(before + [p] + after) == multiset(before + after + [p]);
  }

  /** A hit keeps the relative order of every other path. */
  lemma TouchedKeepsOthersOrder(order: seq<Path>, p: Path)
    requires p in order
    ensures Without(Touched(order, p), p) == Without(order, p)
  {
    TouchedSplit(order, p);
    var i := FirstIndex(order, p);
    var before, after := order[..i], order[i + 1..];
    assert Without([p], p) == [];
    calc {
      Without(order, p);
      Without(before + [p] + after, p);
      { WithoutAppend(before + [p], after, p); WithoutAppend(before, [p], p); }
      Without(before, p) + Without(after, p);
      { WithoutAppend(before, after, p); }
      Without(before + after, p);
      { WithoutAppend(before + after, [p], p); }
      Without(before + after + [p], p);
      Without(Touched(order, p), p);
    }
  }

  /** A miss leaves the access order as it was. */
  lemma TouchedMissUnchanged(order: seq<Path>, p: Path)
    requires p !in order
    ensures Touched(order, p) == order
  {
  }

  /** Moving a path to the back never introduces a duplicate. */
  lemma TouchedKeepsNoDuplicates(order: seq<Path>, p: Path)
    requires NoDuplicates(order)
    ensures NoDuplicates(Touched(order, p))
  {
    var i := FirstIndex(order, p);
    if i < |order| {
      var rest := order[..i] + order[i + 1..];
      assert forall k :: 0 <= k < |rest| ==> rest[k] == (if k < i then order[k] else order[k + 1]);
      assert NoDuplicates(rest);
      assert forall k :: 0 <= k < |rest| ==> rest[k] != p;
    }
  }

  /**
   * The load queue after Prefetch(paths): each path, in input order, is
   * appended unless it is cached or already queued (by an earlier call or
   * earlier in the same call).
   */
  function Enqueued(queue: seq<Path>, cached: set<Path>, paths: seq<Path>): seq<Path>
    decreases |paths|
  {
    if paths == [] then queue
    else
      var p := paths[0];
      Enqueued(if p in cached || p in queue then queue else queue + [p], cached, paths[1..])
  }

  /** Prefetch over a concatenation is Prefetch over the first part, then over the second. */
  lemma {:induction false} EnqueuedConcat(queue: seq<Path>, cached: set<Path>, ps1: seq<Path>, ps2: seq<Path>)
    ensures Enqueued(queue, cached, ps1 + ps2) == Enqueued(Enqueued(queue, cached, ps1), cached, ps2)
    decreases |ps1|
  {
    if ps1 != [] {
      var p := ps1[0];
      var next := if p in cached || p in queue then queue else queue + [p];
      assert (ps1 + ps2)[0] == p && (ps1 + ps2)[1..] == ps1[1..] + ps2;
      assert Enqueued(queue, cached, ps1 + ps2) == Enqueued(next, cached, ps1[1..] + ps2);
      assert Enqueued(queue, cached, ps1) == Enqueued(next, cached, ps1[1..]);
      EnqueuedConcat(next, cached, ps1[1..], ps2);
    } else {
      assert ps1 + ps2 == ps2;
    }
  }

  /** New paths land at the back in input order: the last path is appended last, if at all. */
  lemma EnqueuedSnoc(queue: seq<Path>, cached: set<Path>, ps: seq<Path>, p: Path)
    ensures var q := Enqueued(queue, cached, ps);
      Enqueued(queue, cached, ps + [p]) == if p in cached || p in q then q else q + [p]
  {
    EnqueuedConcat(queue, cached, ps, [p]);
    var q := Enqueued(queue, cached, ps);
    assert [p][1..] == [];
  }

  /**
   * The old queue is kept as a prefix, and a path is queued afterwards exactly
   * when it was queued before or is a requested path that is not cached.
   */
  lemma {:induction false} EnqueuedContents(queue: seq<Path>, cached: set<Path>, paths: seq<Path>)
    ensures var q := Enqueued(queue, cached, paths);
      |queue| <= |q| && q[..|queue|] == queue &&
      forall x :: x in q <==> x in queue || (x in paths && x !in cached)
    decreases |paths|
  {
    if paths != [] {
      var p := paths[0];
      var next := if p in cached || p in queue then queue else queue + [p];
      EnqueuedContents(next, cached, paths[1..]);
      var q := Enqueued(queue, cached, paths);
      assert q[..|queue|] == q[..|next|][..|queue|];
      assert paths == [p] + paths[1..];
    }
  }

  /** Prefetch never creates a duplicate in the queue, not even from a repeated request. */
  lemma {:induction false} EnqueuedKeepsNoDuplicates(queue: seq<Path>, cached: set<Path>, paths: seq<Path>)
    requires NoDuplicates(queue)
    ensures NoDuplicates(Enqueued(queue, cached, paths))
    decreases |paths|
  {
    if paths != [] {
      var p := paths[0];
      var next := if p in cached || p in queue then queue else queue + [p];
      assert NoDuplicates(next);
      EnqueuedKeepsNoDuplicates(next, cached, paths[1..]);
    }
  }

  /** A cached path is never queued by Prefetch. */
  lemma CachedNeverQueued(queue: seq<Path>, cached: set<Path>, paths: seq<Path>, x: Path)
    requires x in cached && x !in queue
    ensures x !in Enqueued(queue, cached, paths)
  {
    EnqueuedContents(queue, cached, paths);
  }

  /** The queue scan in Prefetch: walk a copy of the queue from the front until the path turns up. */
  method InQueue(queue: seq<Path>, path: Path) returns (inQueue: bool)
    ensures inQueue <==> path in queue
  {
    inQueue := false;
    var tempQueue := queue;
    while tempQueue != []
      invariant |tempQueue| <= |queue| && tempQueue == queue[|queue| - |tempQueue|..]
      invariant path !in queue[..|queue| - |tempQueue|]
    {
      if tempQueue[0] == path {
        inQueue := true;
        break;
      }
      assert queue[..|queue| - |tempQueue| + 1] == queue[..|queue| - |tempQueue|] + [tempQueue[0]];
      tempQueue := tempQueue[1..];
    }
    assert queue[..|queue|] == queue;
  }

  /** The sequential state of the cache. */
  datatype CacheState = CacheState(
    entries: map<Path, ImageData>,
    accessOrder: seq<Path>,
    loadQueue: seq<Path>,
    maxSize: nat)

  /** The state a lookup leaves: a hit moves the path to the back of the access order, a miss changes nothing. */
  function Looked(s: CacheState, p: Path): (r: CacheState)
    ensures r.entries == s.entries && r.loadQueue == s.loadQueue && r.maxSize == s.maxSize
    ensures p !in s.entries ==> r == s
  {
    if p in s.entries then s.(accessOrder := Touched(s.accessOrder, p)) else s
  }

  class Cache {
    var entries: map<Path, ImageData>
    var accessOrder: seq<Path>     // most recently used at the back
    var loadQueue: seq<Path>       // front is loaded first
    var maxSize: nat

    /** Neither the access order nor the load queue ever holds a path twice. */
    ghost predicate Valid()
      reads this
    {
      NoDuplicates(accessOrder) && NoDuplicates(loadQueue)
    }

    function State(): CacheState
      reads this
    {
      CacheState(entries, accessOrder, loadQueue, maxSize)
    }

    constructor()
      ensures Valid()
      ensures State() == CacheState(map[], [], [], DefaultMaxSize)
    {
      entries := map[];
      accessOrder := [];
      loadQueue := [];
      maxSize := DefaultMaxSize;
    }

    /** Get: a hit returns the entry and makes its path the most recently used; a miss changes nothing. */
    method Get(filePath: Path) returns (r: Option<ImageData>)
      requires Valid()
      modifies this
      ensures Valid()
      ensures filePath in old(entries) ==>
        r == Some(old(entries)[filePath]) && State() == old(State()).(accessOrder := Touched(old(accessOrder), filePath))
      ensures filePath !in old(entries) ==> r.None? && State() == old(State())
      ensures State() == Looked(old(State()), filePath)
    {
      if filePath !in entries {
        return None;
      }
      var i := 0;
      while i < |accessOrder| && accessOrder[i] != filePath
        invariant i <= |accessOrder|
        invariant forall j :: 0 <= j < i ==> accessOrder[j] != filePath
      {
        i := i + 1;
      }
      assert i == FirstIndex(accessOrder, filePath);
      TouchedKeepsNoDuplicates(accessOrder, filePath);
      if i < |accessOrder| {
        accessOrder := accessOrder[..i] + accessOrder[i + 1..] + [filePath];
      }
      r := Some(entries[filePath]);
    }

    /** Prefetch: queue every requested path that is neither cached nor already queued. */
    method Prefetch(filePaths: seq<Path>)
      requires Valid()
      modifies this
      ensures Valid()
      ensures State() == old(State()).(loadQueue := Enqueued(old(loadQueue), entries.Keys, filePaths))
    {
      ghost var q0 := loadQueue;
      for i := 0 to |filePaths|
        invariant entries == old(entries) && accessOrder == old(accessOrder) && maxSize == old(maxSize)
        invariant Enqueued(loadQueue, entries.Keys, filePaths[i..]) == Enqueued(q0, entries.Keys, filePaths)
        invariant NoDuplicates(loadQueue)
      {
        var path := filePaths[i];
        assert filePaths[i..][0] == path && filePaths[i..][1..] == filePaths[i + 1..];
        if path in entries {
          continue;
        }
        var inQueue := InQueue(loadQueue, path);
        if !inQueue {
          loadQueue := loadQueue + [path];
        }
      }
      assert filePaths[|filePaths|..] == [];
    }

    /** Clear: the cache, the access order and the queue all become empty. */
    method Clear()
      modifies this
      ensures Valid()
      ensures State() == old(State()).(entries := map[], accessOrder := [], loadQueue := [])
    {
      entries := map[];
      accessOrder := [];
      loadQueue := [];
    }

    /**
     * One step of the worker: take the front of the queue (FIFO), or the empty
     * path when the queue is empty. Loading is left unimplemented by the
     * worker, so nothing is inserted into the cache.
     */
    method PopNext() returns (pathToLoad: Path)
      requires Valid()
      modifies this
      ensures Valid()
      ensures old(loadQueue) == [] ==> pathToLoad == "" && State() == old(State())
      ensures old(loadQueue) != [] ==>
        pathToLoad == old(loadQueue)[0] && State() == old(State()).(loadQueue := old(loadQueue)[1..])
    {
      pathToLoad := "";
      if loadQueue != [] {
        pathToLoad := loadQueue[0];
        loadQueue := loadQueue[1..];
      }
    }

    /** SetMaxSize: records the bound, which no other operation consults. */
    method SetMaxSize(n: nat)
      requires Valid()
      modifies this
      ensures Valid()
      ensures State() == old(State()).(maxSize := n)
    {
      maxSize := n;
    }
  }
}
