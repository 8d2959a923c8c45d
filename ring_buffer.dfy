/** `RingBuffer<T>`: a `HeapArray` used as circular storage, with a read cursor and the
    last-written cursor, both taken modulo the store's length. Each method is proved to
    take the state `State()` exactly as the matching RingModel function does. */
module RingBuffers {
  import opened Wrappers
  import opened HeapArrays
  import RingModel

  class RingBuffer<T(0)> {
    var nextRead: nat
    var lastWrite: nat
    const data: HeapArray<T>

    /** The whole state as a value. */
    ghost function State(): RingModel.Ring<T>
      reads this, data, data.buf
      requires data.Valid()
    {
      RingModel.Ring(data.AsSlice(), nextRead, lastWrite)
    }

    /** The store is non-empty, `next_read < len` and `last_write == len - 1`. */
    ghost predicate Valid()
      reads this, data, data.buf
    {
      data.Valid() && RingModel.Inv(State())
    }

    /** `from_slice(s)`; an empty `s` would underflow `s.len() - 1`. */
    constructor FromSlice(s: seq<T>)
      requires |s| >= 1
      ensures Valid() && fresh(data) && fresh(data.buf)
      ensures State() == RingModel.FromSlice(s)
    {
      nextRead := 0;
      lastWrite := |s| - 1;
      data := new HeapArray.FromSlice(s);
    }

    method Read() returns (r: Option<T>)
      requires Valid()
      modifies this`nextRead
      ensures Valid()
      ensures (r, State()) == RingModel.Read(old(State()))
    {
      if nextRead == (lastWrite + 1) % data.Len() {
        r := None;
      } else {
        var value := data.Index(nextRead).value;
        nextRead := (nextRead + 1) % data.Len();
        r := Some(value);
      }
    }

    method Write(value: T)
      requires Valid()
      modifies this`nextRead, data.buf
      ensures Valid()
      ensures State() == RingModel.Write(old(State()), value)
    {
      var nextLastWrite := (lastWrite + 1) % data.Len();
      var _ := data.SetIndex(nextLastWrite, value);
      if nextRead == nextLastWrite {
        nextRead := (nextRead + 1) % data.Len();
      }
    }

    method ReadAll() returns (items: seq<T>)
      requires Valid()
      modifies this`nextRead
      ensures Valid()
      ensures (items, State()) == RingModel.ReadAll(old(State()))
    {
      ghost var start := State();
      items := [];
      while nextRead != (lastWrite + 1) % data.Len()
        invariant Valid() && State().data == start.data && State().lastWrite == start.lastWrite
        invariant items + RingModel.ReadAll(State()).0 == RingModel.ReadAll(start).0
        invariant RingModel.ReadAll(State()).1 == RingModel.ReadAll(start).1
        decreases RingModel.Pending(State())
      {
        ghost var before := State();
        RingModel.ReadAllStep(before);
        ghost var after := RingModel.Read(before).1;
        items := items + [data.Index(nextRead).value];
        nextRead := (nextRead + 1) % data.Len();
        assert nextRead == after.nextRead;
        assert State() == after;
      }
      RingModel.ReadAllOfEmpty(State());
      assert items == RingModel.ReadAll(start).0;
      assert State() == RingModel.ReadAll(start).1;
    }

    method WriteAll(values: seq<T>)
      requires Valid()
      modifies this`nextRead, data.buf
      ensures Valid()
      ensures State() == RingModel.WriteAll(old(State()), values)
    {
      for i := 0 to |values|
        invariant Valid()
        invariant State() == RingModel.WriteAll(old(State()), values[..i])
      {
        assert values[..i + 1][..i] == values[..i];
        Write(values[i]);
      }
      assert values[..|values|] == values;
    }

    /** `to_vec()`: clones of what `read_all` returns; it drains the buffer as that does. */
    method ToVec() returns (items: seq<T>)
      requires Valid()
      modifies this`nextRead
      ensures Valid()
      ensures (items, State()) == RingModel.ReadAll(old(State()))
    {
      items := ReadAll();
    }
  }

  /** A drain returns exactly the unread elements, oldest first, and the buffer then
      reads as empty. */
  method ReadAllDrains<T(0)>(b: RingBuffer<T>) returns (items: seq<T>)
    requires b.Valid()
    modifies b`nextRead
    ensures b.Valid()
    ensures items == RingModel.Unread(old(b.State()))
    ensures RingModel.Unread(b.State()) == []
  {
    items := b.ReadAll();
    RingModel.ReadAllIsUnread(old(b.State()));
  }
}
