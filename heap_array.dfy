/** The fixed-capacity array `HeapArray<T>`: a length chosen at construction and one
    backing store of exactly that many initialised slots. Raw allocation is modelled by a
    Dafny array; the length is a constant, so no operation can change it. */
module HeapArrays {
  import opened Wrappers
  import opened ArrayIters

  class HeapArray<T(0)> {
    const buf: array<T>
    const len: nat

    ghost predicate Valid()
    {
      buf.Length == len
    }

    /** Struct literal `Self { ptr, len, .. }`: wraps the given store itself, not a copy.
        Only `Clone` calls it, on storage it has just allocated and filled. */
    constructor FromRaw(a: array<T>)
      ensures Valid() && buf == a && len == a.Length
    {
      buf, len := a, a.Length;
    }

    /** `default()`: the empty sentinel, with no element storage. */
    constructor Default()
      ensures Valid() && fresh(buf) && len == 0
    {
      buf, len := new T[0], 0;
    }

    /** `new(value, len)`: every one of the `n` slots holds `value`. */
    constructor New(value: T, n: nat)
      ensures Valid() && fresh(buf) && len == n
      ensures forall i :: 0 <= i < n ==> buf[i] == value
      ensures AsSlice() == seq(n, _ => value)
    {
      var a;
      if n == 0 {
        a := new T[0];
      } else {
        a := new T[n];
        for i := 0 to n
          invariant forall k :: 0 <= k < i ==> a[k] == value
        {
          a[i] := value;
        }
      }
      buf, len := a, n;
    }

    /** `from_slice(slice)`: a copy of `s`, element by element, in order. */
    constructor FromSlice(s: seq<T>)
      ensures Valid() && fresh(buf) && len == |s|
      ensures AsSlice() == s
    {
      var a;
      if |s| == 0 {
        a := new T[0];
      } else {
        a := new T[|s|];
        for i := 0 to |s|
          invariant a[..i] == s[..i]
        {
          a[i] := s[i];
        }
      }
      buf, len := a, |s|;
      new;
      assert a[..] == a[..|s|] && s == s[..|s|];
    }

    /** `as_slice()`: the whole read-only view. */
    function AsSlice(): (s: seq<T>)
      reads this, buf
      requires Valid()
      ensures |s| == len
    {
      buf[..]
    }

    /** `as_mut_slice()`: the whole mutable view, as the slots it lets the caller write. */
    function AsMutSlice(): (slots: seq<nat>)
      requires Valid()
      ensures |slots| == len
      ensures forall i :: 0 <= i < |slots| ==> slots[i] == i
    {
      seq(len, i => i)
    }

    /** `to_vec()`: an owned copy of the whole view. */
    function ToVec(): (v: seq<T>)
      reads this, buf
      requires Valid()
      ensures v == AsSlice() && |v| == len
    {
      AsSlice()
    }

    function Len(): (n: nat)
      requires Valid()
      ensures n == buf.Length
    {
      len
    }

    function IsEmpty(): (b: bool)
      reads this, buf
      requires Valid()
      ensures b <==> AsSlice() == []
    {
      len == 0
    }

    /** `get(index)`: the element at `index` when it is in range, otherwise absent. */
    function Get(index: nat): (r: Option<T>)
      reads this, buf
      requires Valid()
      ensures r.Some? <==> index < len
      ensures r.Some? ==> r.value == AsSlice()[index]
    {
      if index < len then Some(buf[index]) else None
    }

    /** `get_mut(index)`: the slot `index` when it is in range, otherwise absent. */
    function GetMut(index: nat): (r: Option<nat>)
      requires Valid()
      ensures r.Some? <==> index < len
      ensures r.Some? ==> r.value == index && r.value < |AsMutSlice()|
    {
      if index < len then Some(index) else None
    }

    /** `self[index]`: goes through `get`, and panics where `get` reports absent. */
    function Index(index: nat): (r: Checked<T>)
      reads this, buf
      requires Valid()
      ensures r.Ok? <==> index < len
      ensures r.Ok? ==> Get(index) == Some(r.value)
      ensures r.Panic? ==> r == Panic(len, index) && Get(index) == None
    {
      match Get(index)
      case Some(v) => Ok(v)
      case None => Panic(len, index)
    }

    /** `&mut self[index]`: goes through `get_mut`, and panics where it reports absent. */
    function IndexMut(index: nat): (r: Checked<nat>)
      requires Valid()
      ensures r.Ok? <==> index < len
      ensures r.Ok? ==> GetMut(index) == Some(r.value)
      ensures r.Panic? ==> r == Panic(len, index) && GetMut(index) == None
    {
      var n := len;
      match GetMut(index)
      case Some(slot) => Ok(slot)
      case None => Panic(n, index)
    }

    /** A write through a mutable reference to `slot`: that slot changes, nothing else. */
    method Store(slot: nat, v: T)
      requires Valid() && slot < len
      modifies buf
      ensures AsSlice() == old(AsSlice())[slot := v]
    {
      buf[slot] := v;
    }

    /** `self[index] = v`: writes slot `index` when in range, panics (no write) otherwise. */
    method SetIndex(index: nat, v: T) returns (r: Checked<nat>)
      requires Valid()
      modifies buf
      ensures r == IndexMut(index)
      ensures r.Ok? ==> AsSlice() == old(AsSlice())[index := v]
      ensures r.Panic? ==> AsSlice() == old(AsSlice())
    {
      r := IndexMut(index);
      if r.Ok? {
        Store(r.value, v);
      }
    }

    /** `clone()`: a fresh store holding the same elements in the same order. */
    method Clone() returns (c: HeapArray<T>)
      requires Valid()
      ensures fresh(c) && fresh(c.buf) && c.Valid()
      ensures c.len == len && c.AsSlice() == AsSlice()
    {
      var a;
      if len == 0 {
        a := new T[0];
      } else {
        a := new T[len];
        for i := 0 to len
          invariant a[..i] == buf[..i]
        {
          a[i] := buf[i];
        }
        assert a[..] == a[..len] && buf[..] == buf[..len];
      }
      c := new HeapArray.FromRaw(a);
    }

    /** `drop()`: tears the elements down in index order; `torn` lists them in that order. */
    method Drop() returns (torn: seq<T>)
      requires Valid()
      ensures torn == AsSlice()
    {
      torn := [];
      if len != 0 {
        for i := 0 to len
          invariant torn == buf[..i]
        {
          torn := torn + [buf[i]];
        }
        assert buf[..] == buf[..len];
      }
    }

    method Iter() returns (it: Iter<T>)
      requires Valid()
      ensures fresh(it) && it.Valid() && it.buf == buf && it.ptr == 0 && it.end == len
    {
      it := new Iter.Over(buf);
    }

    method IterMut() returns (it: IterMut<T>)
      requires Valid()
      ensures fresh(it) && it.Valid() && it.buf == buf && it.ptr == 0 && it.end == len
    {
      it := new IterMut.Over(buf);
    }

    /** `into_iter(self)`: the storage moves into a consuming iterator over `0..len`. */
    method IntoIter() returns (it: IntoIter<T>)
      requires Valid()
      ensures fresh(it) && it.Valid() && it.buf == buf && it.start == 0 && it.end == len
      ensures it.Remaining() == AsSlice()
    {
      it := new IntoIter.Take(buf);
    }
  }

  /** `from_iter(iter)`: collects the items, then copies them as `from_slice` does. */
  method FromIter<T(0)>(items: seq<T>) returns (a: HeapArray<T>)
    ensures fresh(a) && fresh(a.buf) && a.Valid()
    ensures a.len == |items| && a.AsSlice() == items
  {
    a := new HeapArray.FromSlice(items);
  }

  /** `for x in &a`: the borrowing iterator yields exactly the `len` elements, in index
      order, and its size hint is the number still to come at every step. */
  method CollectIter<T(0)>(a: HeapArray<T>) returns (items: seq<T>)
    requires a.Valid()
    ensures items == a.AsSlice()
  {
    var it := a.Iter();
    ghost var all := a.AsSlice();
    items := [];
    while true
      invariant it.Valid() && it.buf == a.buf && it.end == a.len == |all|
      invariant items == all[..it.ptr]
      invariant it.SizeHint().0 == a.len - |items|
      decreases it.end - it.ptr
    {
      var x := it.Next();
      if x.None? {
        break;
      }
      items := items + [x.value];
    }
    assert all[..a.len] == all;
  }

  /** `for r in &mut a`: the mutable iterator yields every slot once, in index order. */
  method CollectIterMut<T(0)>(a: HeapArray<T>) returns (slots: seq<nat>)
    requires a.Valid()
    ensures slots == a.AsMutSlice()
  {
    var it := a.IterMut();
    ghost var all := a.AsMutSlice();
    slots := [];
    while true
      invariant it.Valid() && it.buf == a.buf && it.end == a.len == |all|
      invariant slots == all[..it.ptr]
      invariant it.SizeHint().0 == a.len - |slots|
      decreases it.end - it.ptr
    {
      var x := it.Next();
      if x.None? {
        break;
      }
      slots := slots + [x.value];
    }
    assert all[..a.len] == all;
  }

  /** Consume `k` items of `a.into_iter()`, then drop the iterator: every element is
      either yielded or torn down, exactly once, in index order. */
  method ConsumeThenDrop<T(0)>(a: HeapArray<T>, k: nat) returns (yielded: seq<T>, dropped: seq<T>)
    requires a.Valid()
    ensures yielded + dropped == a.AsSlice()
    ensures |yielded| == if k < a.len then k else a.len
  {
    var it := a.IntoIter();
    ghost var all := a.AsSlice();
    yielded := [];
    while |yielded| < k
      invariant |yielded| <= k
      invariant it.Valid() && it.buf == a.buf && it.end == a.len == |all|
      invariant yielded == all[..it.start]
      decreases k - |yielded|
    {
      var x := it.Next();
      if x.None? {
        break;
      }
      yielded := yielded + [x.value];
    }
    ghost var mid := it.start;
    assert it.Remaining() == all[mid..];
    dropped := it.Drop();
    assert yielded + dropped == all[..mid] + all[mid..] == all;
  }

  /** Writing to a clone leaves the original as it was. */
  method CloneIsIndependent<T(0)>(a: HeapArray<T>, index: nat, v: T) returns (c: HeapArray<T>)
    requires a.Valid()
    ensures fresh(c) && c.Valid() && c.len == a.len
    ensures a.AsSlice() == old(a.AsSlice())
    ensures index < a.len ==> c.AsSlice() == a.AsSlice()[index := v]
  {
    c := a.Clone();
    var _ := c.SetIndex(index, v);
  }
}
