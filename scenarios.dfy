/** A short client session against `BSTree`, for an arbitrary key and value,
    stated as a method whose contract pins down every result. */
module Scenarios {
  import opened Wrappers
  import opened BinarySearchTree

  /** Insert one entry and remove it again with `deleteMin()`. Afterwards
      `keys()` as written fails, because it asks `min()` of an empty map,
      while the corrected listing is empty. */
  method LastKeyRemoved(k: int, v: int) returns (removed: Result<()>, listed: Result<seq<int>>, all: seq<int>)
    ensures removed.Ok?
    ensures listed == Err(NoSuchElement) && all == []
  {
    var m := new BSTree<int>();
    m.Put(k, Some(v));
    assert k in m.Contents();
    removed := m.DeleteMin();
    listed := m.Keys();
    all := m.AllKeys();
  }
}
