/** The three iteration protocols of the fixed-capacity arrays. Both containers hand out
    iterators that hold nothing but a cursor into the backing storage, so the storage is
    modelled here as the raw `array<T>` and the cursors as indices into it. */
module ArrayIters {
  import opened Wrappers

  /** Borrowing iterator: yields the elements at `ptr`, `ptr + 1`, ... up to `end`. */
  class Iter<T> {
    const buf: array<T>
    var ptr: nat
    const end: nat

    ghost predicate Valid()
      reads this
    {
      ptr <= end <= buf.Length
    }

    /** The elements still to be yielded, in the order they will be yielded. */
    ghost function Remaining(): seq<T>
      reads this, buf
      requires Valid()
    {
      buf[ptr..end]
    }

    /** `iter()`: a cursor from the first slot to one past the last. */
    constructor Over(a: array<T>)
      ensures Valid() && buf == a && ptr == 0 && end == a.Length
      ensures Remaining() == a[..]
    {
      buf, ptr, end := a, 0, a.Length;
    }

    method Next() returns (r: Option<T>)
      requires Valid()
      modifies this`ptr
      ensures Valid()
      ensures r == if old(ptr) == end then None else Some(buf[old(ptr)])
      ensures ptr == if old(ptr) == end then old(ptr) else old(ptr) + 1
    {
      if ptr == end {
        r := None;
      } else {
        var old_ := ptr;
        ptr := ptr + 1;
        r := Some(buf[old_]);
      }
    }

    /** Both bounds of the hint are the number of elements still to be yielded. */
    function SizeHint(): (h: (nat, Option<nat>))
      reads this
      requires Valid()
      ensures h.0 == end - ptr && h.1 == Some(h.0)
      ensures h.0 == |Remaining()|
    {
      (end - ptr, Some(end - ptr))
    }
  }

  /** Mutable iterator: yields the slots `ptr`, `ptr + 1`, ... up to `end`; a mutable
      reference is modelled as the index of the slot it designates. */
  class IterMut<T> {
    const buf: array<T>
    var ptr: nat
    const end: nat

    ghost predicate Valid()
      reads this
    {
      ptr <= end <= buf.Length
    }

    /** The slots still to be yielded, in the order they will be yielded. */
    ghost function Remaining(): seq<nat>
      reads this
      requires Valid()
    {
      var p := ptr;
      seq(end - p, k => p + k)
    }

    /** `iter_mut()`: a cursor from the first slot to one past the last. */
    constructor Over(a: array<T>)
      ensures Valid() && buf == a && ptr == 0 && end == a.Length
      ensures Remaining() == seq(a.Length, k => k)
    {
      buf, ptr, end := a, 0, a.Length;
      new;
      assert forall k :: 0 <= k < a.Length ==> Remaining()[k] == k;
    }

    method Next() returns (r: Option<nat>)
      requires Valid()
      modifies this`ptr
      ensures Valid()
      ensures r == if old(ptr) == end then None else Some(old(ptr))
      ensures ptr == if old(ptr) == end then old(ptr) else old(ptr) + 1
      ensures r.Some? ==> r.value < buf.Length
    {
      if ptr == end {
        r := None;
      } else {
        var old_ := ptr;
        ptr := ptr + 1;
        r := Some(old_);
        assert Remaining() == old(Remaining())[1..] by {
          assert forall k :: 0 <= k < end - ptr ==> Remaining()[k] == old(Remaining())[1..][k];
        }
      }
    }

    function SizeHint(): (h: (nat, Option<nat>))
      reads this
      requires Valid()
      ensures h.0 == end - ptr && h.1 == Some(h.0)
      ensures h.0 == |Remaining()|
    {
      (end - ptr, Some(end - ptr))
    }
  }

  /** Consuming iterator: takes the elements at `start`, `start + 1`, ... up to `end` out of
      the storage it now owns; dropping it takes out whatever is left. */
  class IntoIter<T> {
    const buf: array<T>
    var start: nat
    const end: nat

    ghost predicate Valid()
      reads this
    {
      start <= end <= buf.Length
    }

    /** The elements not yet taken, in the order they will be taken. */
    ghost function Remaining(): seq<T>
      reads this, buf
      requires Valid()
    {
      buf[start..end]
    }

    /** `into_iter(self)`: the storage moves into the iterator, cursor at 0, end at `len`. */
    constructor Take(a: array<T>)
      ensures Valid() && buf == a && start == 0 && end == a.Length
      ensures Remaining() == a[..]
    {
      buf, start, end := a, 0, a.Length;
    }

    method Next() returns (r: Option<T>)
      requires Valid()
      modifies this`start
      ensures Valid()
      ensures r == if old(start) == end then None else Some(buf[old(start)])
      ensures start == if old(start) == end then old(start) else old(start) + 1
    {
      if start == end {
        r := None;
      } else {
        var item := buf[start];
        start := start + 1;
        r := Some(item);
      }
    }

    function SizeHint(): (h: (nat, Option<nat>))
      reads this
      requires Valid()
      ensures h.0 == end - start && h.1 == Some(h.0)
      ensures h.0 == |Remaining()|
    {
      (end - start, Some(end - start))
    }

    /** Dropping the iterator runs `next` until it reports the end; `dropped` lists the
        elements torn down that way, in the order they were taken. */
    method Drop() returns (dropped: seq<T>)
      requires Valid()
      modifies this`start
      ensures Valid() && start == end
      ensures dropped == old(Remaining())
    {
      dropped := [];
      ghost var first := start;
      ghost var all := buf[..];
      while true
        invariant Valid() && first <= start
        invariant dropped == all[first..start]
        decreases end - start
      {
        var item := Next();
        if item.None? {
          break;
        }
        dropped := dropped + [item.value];
      }
    }
  }
}
