/** The state of `RingBuffer<T>` as a value: the backing elements and the two cursors, and
    every operation as a function of that state. The class in RingBuffers is proved to
    follow these functions; the lemmas here say what the functions mean. */
module RingModel {
  import opened Wrappers

  datatype Ring<T> = Ring(data: seq<T>, nextRead: nat, lastWrite: nat)

  /** A non-empty backing store and both cursors inside it: what makes `% len` defined. */
  predicate Valid<T>(r: Ring<T>)
  {
    |r.data| >= 1 && r.nextRead < |r.data| && r.lastWrite < |r.data|
  }

  /** The invariant the code actually keeps: `write` never assigns `last_write`, so it
      stays where `from_slice` put it, at the last slot. */
  predicate Inv<T>(r: Ring<T>)
  {
    Valid(r) && r.lastWrite == |r.data| - 1
  }

  /** The slot the next write goes to, `(last_write + 1) % len`. */
  function WriteSlot<T>(r: Ring<T>): (s: nat)
    requires Valid(r)
    ensures s < |r.data|
    ensures Inv(r) ==> s == 0
  {
    (r.lastWrite + 1) % |r.data|
  }

  /** Empty when the read cursor has caught up with the next write slot. */
  predicate IsEmpty<T>(r: Ring<T>)
    requires Valid(r)
  {
    r.nextRead == WriteSlot(r)
  }

  /** The `i`-th slot after `start`, wrapping once past the end of a store of length `n`. */
  function Slot(start: nat, i: nat, n: nat): (s: nat)
    requires start < n && i < n
    ensures s < n
  {
    if start + i < n then start + i else start + i - n
  }

  /** Number of unread elements: the distance from the read cursor to the write slot. */
  function Pending<T>(r: Ring<T>): (k: nat)
    requires Valid(r)
    ensures k < |r.data|
    ensures k == 0 <==> IsEmpty(r)
    ensures Slot(r.nextRead, k, |r.data|) == WriteSlot(r)
  {
    var t := WriteSlot(r);
    if r.nextRead <= t then t - r.nextRead else |r.data| - r.nextRead + t
  }

  /** The unread elements in FIFO order: the slots from the read cursor up to, and not
      including, the write slot. An independent description of what reads will yield. */
  function Unread<T>(r: Ring<T>): (s: seq<T>)
    requires Valid(r)
    ensures |s| == Pending(r)
  {
    seq(Pending(r), i requires 0 <= i < Pending(r) => r.data[Slot(r.nextRead, i, |r.data|)])
  }

  /** `from_slice(s)`: the store is `s`, `next_read = 0`, `last_write = len - 1`; the
      source's `s.len() - 1` underflows on an empty slice, hence the precondition. */
  function FromSlice<T>(s: seq<T>): (r: Ring<T>)
    requires |s| >= 1
    ensures Inv(r) && r.data == s && r.nextRead == 0
  {
    Ring(s, 0, |s| - 1)
  }

  /** `read()`: absent and no change on an empty buffer; otherwise the element at the read
      cursor, and the cursor moves one slot on. The store and `last_write` never change. */
  function Read<T>(r: Ring<T>): (res: (Option<T>, Ring<T>))
    requires Valid(r)
    ensures Valid(res.1) && res.1.data == r.data && res.1.lastWrite == r.lastWrite
    ensures Inv(r) ==> Inv(res.1)
    ensures res.0 == None <==> IsEmpty(r)
    ensures res.0 == None ==> res.1 == r
    ensures res.0.Some? ==> res.0 == Some(r.data[r.nextRead])
    ensures res.0.Some? ==> res.1.nextRead == (r.nextRead + 1) % |r.data|
  {
    if r.nextRead == (r.lastWrite + 1) % |r.data| then
      (None, r)
    else
      (Some(r.data[r.nextRead]), r.(nextRead := (r.nextRead + 1) % |r.data|))
  }

  /** `write(v)`, as written: `v` goes to the write slot, the read cursor moves on when it
      sat on that slot, and `last_write` is left as it was. */
  function Write<T>(r: Ring<T>, v: T): (w: Ring<T>)
    requires Valid(r)
    ensures Valid(w) && |w.data| == |r.data| && w.lastWrite == r.lastWrite
    ensures Inv(r) ==> Inv(w)
    ensures w.data == r.data[WriteSlot(r) := v]
    ensures forall i :: 0 <= i < |r.data| && i != WriteSlot(r) ==> w.data[i] == r.data[i]
    ensures r.nextRead != WriteSlot(r) ==> w.nextRead == r.nextRead
    ensures r.nextRead == WriteSlot(r) ==> w.nextRead == (r.nextRead + 1) % |r.data|
  {
    var slot := (r.lastWrite + 1) % |r.data|;
    var d := r.data[slot := v];
    if r.nextRead == slot then Ring(d, (r.nextRead + 1) % |d|, r.lastWrite)
    else Ring(d, r.nextRead, r.lastWrite)
  }

  /** `read_all()`: `read` repeated until it reports absent, collecting what it returned. */
  function ReadAll<T>(r: Ring<T>): (res: (seq<T>, Ring<T>))
    requires Valid(r)
    ensures Valid(res.1) && IsEmpty(res.1)
    ensures res.1.data == r.data && res.1.lastWrite == r.lastWrite
    ensures |res.0| == Pending(r)
    decreases Pending(r)
  {
    var (x, next) := Read(r);
    if x.None? then
      ([], r)
    else
      ReadShrinksPending(r);
      var (rest, last) := ReadAll(next);
      ([x.value] + rest, last)
  }

  /** `write_all(vs)`: `write` applied to each element of `vs`, first to last. */
  function WriteAll<T>(r: Ring<T>, vs: seq<T>): (w: Ring<T>)
    requires Valid(r)
    ensures Valid(w) && |w.data| == |r.data| && w.lastWrite == r.lastWrite
    ensures Inv(r) ==> Inv(w)
    decreases |vs|
  {
    if vs == [] then r else Write(WriteAll(r, vs[..|vs| - 1]), vs[|vs| - 1])
  }

  /** One step of a cursor taken modulo `m`: it moves to the next slot or wraps to 0. */
  lemma ModStep(x: nat, m: nat)
    requires x < m
    ensures (x + 1) % m == if x + 1 < m then x + 1 else 0
  {
  }

  /** Shifting the start one slot on is the same as looking one slot further. */
  lemma SlotShift(start: nat, i: nat, n: nat)
    requires start < n && i + 1 < n
    ensures Slot((start + 1) % n, i, n) == Slot(start, i + 1, n)
  {
  }

  /** Each successful read leaves one element fewer unread: `read_all` terminates. */
  lemma ReadShrinksPending<T>(r: Ring<T>)
    requires Valid(r) && !IsEmpty(r)
    ensures Pending(Read(r).1) == Pending(r) - 1
  {
    var n, t := |r.data|, WriteSlot(r);
    ModStep(r.nextRead, n);
  }

  /** `read` takes the oldest unread element off the front, and reports absent exactly
      when there is none. */
  lemma ReadPopsFront<T>(r: Ring<T>)
    requires Valid(r)
    ensures Read(r).0 == if Unread(r) == [] then None else Some(Unread(r)[0])
    ensures Unread(Read(r).1) == if Unread(r) == [] then [] else Unread(r)[1..]
  {
    if !IsEmpty(r) {
      var (x, next) := Read(r);
      ReadShrinksPending(r);
      var n := |r.data|;
      forall i | 0 <= i < Pending(next)
        ensures Unread(next)[i] == Unread(r)[1..][i]
      {
        SlotShift(r.nextRead, i, n);
      }
    }
  }

  /** `read_all` returns exactly the unread elements, oldest first, and leaves the buffer
      reading as empty. */
  lemma {:induction false} ReadAllIsUnread<T>(r: Ring<T>)
    requires Valid(r)
    ensures ReadAll(r).0 == Unread(r)
    ensures Unread(ReadAll(r).1) == []
    decreases Pending(r)
  {
    ReadPopsFront(r);
    if !IsEmpty(r) {
      ReadShrinksPending(r);
      ReadAllIsUnread(Read(r).1);
    }
  }

  /** One round of `read_all` on a buffer with something unread. */
  lemma ReadAllStep<T>(r: Ring<T>)
    requires Valid(r) && !IsEmpty(r)
    ensures Pending(Read(r).1) < Pending(r)
    ensures Read(r).1 == Ring(r.data, (r.nextRead + 1) % |r.data|, r.lastWrite)
    ensures ReadAll(r).0 == [r.data[r.nextRead]] + ReadAll(Read(r).1).0
    ensures ReadAll(r).1 == ReadAll(Read(r).1).1
  {
    ReadShrinksPending(r);
  }

  /** `read_all` on a buffer that reads as empty returns nothing and changes nothing. */
  lemma ReadAllOfEmpty<T>(r: Ring<T>)
    requires Valid(r) && IsEmpty(r)
    ensures ReadAll(r) == ([], r)
  {
  }

  /** Right after `from_slice`, the buffer reads as empty, although the store holds `s`. */
  lemma FromSliceReadsEmpty<T>(s: seq<T>)
    requires |s| >= 1
    ensures Read(FromSlice(s)) == (None, FromSlice(s))
    ensures Unread(FromSlice(s)) == [] && ReadAll(FromSlice(s)).0 == []
  {
  }

  /** Under the invariant the code keeps, what is unread is the tail of the store from the
      read cursor on, and nothing when the cursor is at slot 0. */
  lemma UnreadUnderInv<T>(r: Ring<T>)
    requires Inv(r)
    ensures Unread(r) == if r.nextRead == 0 then [] else r.data[r.nextRead..]
  {
  }

  /** As written, `write(v)` replaces slot 0, which is never unread: the unread elements
      do not change, except that a write into an empty buffer makes the stale slots
      `1..len` unread. */
  lemma WriteAsWritten<T>(r: Ring<T>, v: T)
    requires Inv(r)
    ensures Write(r, v).data == r.data[0 := v]
    ensures Unread(Write(r, v)) == if r.nextRead == 0 then r.data[1..] else Unread(r)
  {
    var w := Write(r, v);
    UnreadUnderInv(r);
    UnreadUnderInv(w);
    if r.nextRead == 0 && |r.data| == 1 {
      assert w.nextRead == 0;
    }
  }

  /** `write_all` of one sequence after another is `write_all` of both. */
  lemma {:induction false} WriteAllAppend<T>(r: Ring<T>, a: seq<T>, b: seq<T>)
    requires Valid(r)
    ensures WriteAll(r, a + b) == WriteAll(WriteAll(r, a), b)
    decreases |b|
  {
    if b == [] {
      assert a + b == a;
    } else {
      var b' := b[..|b| - 1];
      assert (a + b)[..|a + b| - 1] == a + b';
      assert (a + b)[|a + b| - 1] == b[|b| - 1];
      WriteAllAppend(r, a, b');
    }
  }

  /** As written, no value given to `write_all` is ever read back: afterwards the unread
      elements are those of the original store. */
  lemma {:induction false} WriteAllAsWritten<T>(r: Ring<T>, vs: seq<T>)
    requires Inv(r)
    ensures WriteAll(r, vs).data[1..] == r.data[1..]
    ensures Unread(WriteAll(r, vs)) ==
      if vs == [] then Unread(r) else if r.nextRead == 0 then r.data[1..] else Unread(r)
    decreases |vs|
  {
    if vs != [] {
      var prefix := vs[..|vs| - 1];
      var p := WriteAll(r, prefix);
      WriteAllAsWritten(r, prefix);
      WriteAsWritten(p, vs[|vs| - 1]);
      assert WriteAll(r, vs).data[1..] == p.data[1..];
      if prefix != [] && r.nextRead == 0 && |r.data| > 1 {
        UnreadUnderInv(p);
        assert p.nextRead != 0;
      }
      if prefix != [] && |r.data| == 1 {
        assert Unread(p) == [];
      }
    }
  }

  /** The trace from `from_slice([1, 2, 3])` and `write(4)`: the store becomes
      `[4, 2, 3]`, the read cursor 1, and reads yield 2 then 3, never 4. */
  lemma WriteThenReadTrace()
    ensures Write(FromSlice([1, 2, 3]), 4) == Ring([4, 2, 3], 1, 2)
    ensures Read(Write(FromSlice([1, 2, 3]), 4)).0 == Some(2)
    ensures ReadAll(Write(FromSlice([1, 2, 3]), 4)).0 == [2, 3]
  {
    var w := Write(FromSlice([1, 2, 3]), 4);
    assert w == Ring([4, 2, 3], 1, 2);
    ReadAllIsUnread(w);
    assert Unread(w) == [2, 3];
  }

  // The write the overwrite-oldest design calls for.

  /** The last `n` elements of `s` (all of `s` when it is no longer). */
  function KeepLast<T>(s: seq<T>, n: nat): (k: seq<T>)
    ensures |k| == if |s| <= n then |s| else n
    ensures forall i :: 0 <= i < |k| ==> k[i] == s[|s| - |k| + i]
  {
    if |s| <= n then s else s[|s| - n..]
  }

  /** `write(v)` corrected: `last_write` moves to the slot written, and the read cursor moves
      on only when the buffer was full, so that the oldest unread element is evicted. */
  function WriteIntended<T>(r: Ring<T>, v: T): (w: Ring<T>)
    requires Valid(r)
    ensures Valid(w) && |w.data| == |r.data|
  {
    var slot := (r.lastWrite + 1) % |r.data|;
    var d := r.data[slot := v];
    if r.nextRead == (slot + 1) % |d| then Ring(d, (r.nextRead + 1) % |d|, slot)
    else Ring(d, r.nextRead, slot)
  }

  /** Distinct offsets from one start name distinct slots. */
  lemma SlotInjective(start: nat, i: nat, j: nat, n: nat)
    requires start < n && i < n && j < n
    ensures Slot(start, i, n) == Slot(start, j, n) <==> i == j
  {
  }

  /** The corrected write into a buffer that is not full appends `v` to the unread run. */
  lemma WriteIntendedNotFull<T>(r: Ring<T>, v: T)
    requires Valid(r) && r.nextRead != (WriteSlot(r) + 1) % |r.data|
    ensures Unread(WriteIntended(r, v)) == Unread(r) + [v]
  {
    var n, t, p := |r.data|, WriteSlot(r), Pending(r);
    var w := WriteIntended(r, v);
    assert w == Ring(r.data[t := v], r.nextRead, t);
    ModStep(t, n);
    assert Slot(r.nextRead, p, n) == t;
    if p == n - 1 {
      assert false;
    }
    assert Slot(r.nextRead, p + 1, n) == (t + 1) % n;
    assert Slot(r.nextRead, Pending(w), n) == WriteSlot(w) == (t + 1) % n;
    SlotInjective(r.nextRead, p + 1, Pending(w), n);
    forall i | 0 <= i < p
      ensures Unread(w)[i] == Unread(r)[i]
    {
      SlotInjective(r.nextRead, i, p, n);
    }
  }

  /** The corrected write into a full buffer evicts the oldest unread element. */
  lemma WriteIntendedFull<T>(r: Ring<T>, v: T)
    requires Valid(r) && r.nextRead == (WriteSlot(r) + 1) % |r.data|
    ensures Unread(WriteIntended(r, v)) == (Unread(r) + [v])[1..]
  {
    var n, t, p := |r.data|, WriteSlot(r), Pending(r);
    var w := WriteIntended(r, v);
    var nr' := (r.nextRead + 1) % n;
    assert w == Ring(r.data[t := v], nr', t);
    ModStep(t, n);
    ModStep(r.nextRead, n);
    assert Slot(r.nextRead, n - 1, n) == t;
    SlotInjective(r.nextRead, p, n - 1, n);
    assert Slot(nr', n - 1, n) == r.nextRead == WriteSlot(w);
    SlotInjective(nr', n - 1, Pending(w), n);
    var s := Unread(r) + [v];
    forall i | 0 <= i < n - 1
      ensures Unread(w)[i] == s[1..][i]
    {
      SlotShift(r.nextRead, i, n);
      SlotInjective(r.nextRead, i + 1, p, n);
    }
  }

  /** The corrected write is a bounded FIFO push: `v` joins the back of the unread
      elements, and only the `len - 1` newest are kept, evicting the oldest when full. */
  lemma WriteIntendedIsFifo<T>(r: Ring<T>, v: T)
    requires Valid(r)
    ensures Unread(WriteIntended(r, v)) == KeepLast(Unread(r) + [v], |r.data| - 1)
  {
    if r.nextRead == (WriteSlot(r) + 1) % |r.data| {
      WriteIntendedFull(r, v);
      assert Pending(r) == |r.data| - 1 by {
        var n, t := |r.data|, WriteSlot(r);
        ModStep(t, n);
        assert Slot(r.nextRead, n - 1, n) == t;
        SlotInjective(r.nextRead, Pending(r), n - 1, n);
      }
    } else {
      WriteIntendedNotFull(r, v);
      assert Pending(r) < |r.data| - 1 by {
        var n, t := |r.data|, WriteSlot(r);
        ModStep(t, n);
      }
    }
  }

  /** The same trace with the corrected write: `read()` after `write(4)` yields 4. */
  lemma WriteIntendedTrace()
    ensures WriteIntended(FromSlice([1, 2, 3]), 4) == Ring([4, 2, 3], 0, 0)
    ensures Read(WriteIntended(FromSlice([1, 2, 3]), 4)).0 == Some(4)
  {
    assert WriteIntended(FromSlice([1, 2, 3]), 4) == Ring([4, 2, 3], 0, 0);
  }
}
