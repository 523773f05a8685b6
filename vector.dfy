// vector of mini_container_vector.h for int elements.  The storage
// [begin_, end_of_storage_) is an array, and end_ is the element count
// `size`; uninitialized_copy and uninitialized_fill_n on ints are plain
// copies and fills.

module Vector {
  import AlgoBase

  /** max_size(): the largest ptrdiff_t. */
  const MaxSize: nat := 0x7fff_ffff_ffff_ffff

  /** Result of at(n): the element, or the out_of_range exception. */
  datatype Access = Value(v: int) | OutOfRange

  /** Result of reserve: done, or the length_error exception. */
  datatype Reserved = Done | LengthError

  /** [pos, pos + n) of the result holds n copies of v; the rest is s. */
  function InsertedFill(s: seq<int>, pos: nat, n: nat, v: int): seq<int>
    requires pos <= |s|
  {
    s[..pos] + seq(n, _ => v) + s[pos..]
  }

  /** s without [first, last). */
  function Erased(s: seq<int>, first: nat, last: nat): seq<int>
    requires first <= last <= |s|
  {
    s[..first] + s[last..]
  }

  /** resize(k, v): the first k elements, or s padded with v up to k. */
  function Resized(s: seq<int>, k: nat, v: int): seq<int>
  {
    if k < |s| then s[..k] else s + seq(k - |s|, _ => v)
  }

  /** The capacity insert_aux allocates when the storage is full. */
  function GrownCapacity(size: nat): (c: nat)
    ensures size < c && (size == 0 || c == 2 * size)
  {
    if size != 0 then size * 2 else 1
  }

  /** Capacity after push_back on `size` elements in `cap` slots. */
  function PushBackCapacity(cap: nat, size: nat): (c: nat)
    ensures size < c && cap <= c
    ensures size < cap ==> c == cap
  {
    if size < cap then cap else GrownCapacity(size)
  }

  function Max(a: nat, b: nat): nat
  {
    if a < b then b else a
  }

  /** Capacity after insert(pos, n, v), n > 0, on `size` elements in `cap` slots. */
  function FillCapacity(cap: nat, size: nat, n: nat): (c: nat)
    requires size <= cap
    ensures size + n <= c && cap <= c
    ensures cap - size >= n <==> c == cap
  {
    if cap - size >= n then cap else size + Max(size, n)
  }

  /** The long-tail steps of insert(pos, n, value) on the m elements of a:
      the last n go to [m, m + n), the rest of the tail moves back by n,
      and [pos, pos + n) is filled with value. */
  method ShiftLongTail(a: array<int>, pos: nat, m: nat, n: nat, value: int)
    requires pos + n < m && m + n <= a.Length
    modifies a
    ensures a[..m + n] == InsertedFill(old(a[..m]), pos, n, value)
  {
    ghost var d0 := a[..];
    var _ := AlgoBase.Copy(a, m - n, m, a, m);
    ghost var d1 := a[..];
    var _ := AlgoBase.CopyBackward(a, pos, m - n, a, m);
    ghost var d2 := a[..];
    Fill(a, pos, pos + n, value);
    LongTailResult(d0, d1, d2, a[..], pos, m, n, value);
  }

  /** std::fill(first, last, value). */
  method Fill(a: array<int>, first: nat, last: nat, value: int)
    requires first <= last <= a.Length
    modifies a
    ensures AlgoBase.Copied(a[..], old(a[..]), first, seq(last - first, _ => value))
  {
    forall k | first <= k < last {
      a[k] := value;
    }
  }

  /** The elements of InsertedFill, one by one. */
  lemma InsertedFillAt(s: seq<int>, pos: nat, n: nat, v: int, k: nat)
    requires pos <= |s| && k < |s| + n
    ensures InsertedFill(s, pos, n, v)[k] == if k < pos then s[k] else if k < pos + n then v else s[k - n]
  {
  }

  /** insert_aux in spare room: the last element copied one further, the
      range [pos, end-1) moved right by copy_backward, then value at pos. */
  lemma AuxShiftResult(d0: seq<int>, d1: seq<int>, d2: seq<int>, d3: seq<int>, pos: nat, m: nat, value: int)
    requires pos < m < |d0| && d1 == d0[m := d0[m - 1]]
    requires AlgoBase.Copied(d2, d1, pos + 1, d1[pos..m - 1]) && d3 == d2[pos := value]
    ensures d3[..m + 1] == InsertedFill(d0[..m], pos, 1, value)
  {
    forall k | 0 <= k < m + 1 ensures d3[k] == InsertedFill(d0[..m], pos, 1, value)[k] {
      InsertedFillAt(d0[..m], pos, 1, value, k);
      if k != pos {
        AlgoBase.CopiedAt(d2, d1, pos + 1, d1[pos..m - 1], k);
      }
    }
  }

  /** A fresh storage receiving the prefix, the fill and the suffix. */
  lemma ReallocResult(d: seq<int>, z0: seq<int>, z1: seq<int>, z2: seq<int>, z3: seq<int>,
                      pos: nat, m: nat, n: nat, value: int)
    requires pos <= m <= |d| && m + n <= |z0|
    requires AlgoBase.Copied(z1, z0, 0, d[0..pos])
    requires AlgoBase.Copied(z2, z1, pos, seq(n, _ => value))
    requires AlgoBase.Copied(z3, z2, pos + n, d[pos..m])
    ensures z3[..m + n] == InsertedFill(d[..m], pos, n, value)
  {
    forall k | 0 <= k < m + n ensures z3[k] == InsertedFill(d[..m], pos, n, value)[k] {
      InsertedFillAt(d[..m], pos, n, value, k);
      AlgoBase.CopiedAt(z3, z2, pos + n, d[pos..m], k);
      AlgoBase.CopiedAt(z2, z1, pos, seq(n, _ => value), k);
      AlgoBase.CopiedAt(z1, z0, 0, d[0..pos], k);
    }
  }

  /** insert(pos, n, value) in spare room with more than n elements after
      pos: the last n copied past the end, the rest moved right, the fill. */
  lemma LongTailResult(d0: seq<int>, d1: seq<int>, d2: seq<int>, d3: seq<int>, pos: nat, m: nat, n: nat, value: int)
    requires pos + n < m && m + n <= |d0|
    requires AlgoBase.Copied(d1, d0, m, d0[m - n..m])
    requires AlgoBase.Copied(d2, d1, pos + n, d1[pos..m - n])
    requires AlgoBase.Copied(d3, d2, pos, seq(n, _ => value))
    ensures d3[..m + n] == InsertedFill(d0[..m], pos, n, value)
  {
    forall k | 0 <= k < m + n ensures d3[k] == InsertedFill(d0[..m], pos, n, value)[k] {
      InsertedFillAt(d0[..m], pos, n, value, k);
      AlgoBase.CopiedAt(d3, d2, pos, seq(n, _ => value), k);
      AlgoBase.CopiedAt(d2, d1, pos + n, d1[pos..m - n], k);
      AlgoBase.CopiedAt(d1, d0, m, d0[m - n..m], k);
      if pos + n <= k < m {
        AlgoBase.CopiedAt(d1, d0, m, d0[m - n..m], k - n);
      }
    }
  }

  /** insert(pos, n, value) in spare room with at most n elements after
      pos: the excess fill past the end, the tail after it, the fill. */
  lemma ShortTailResult(d0: seq<int>, d1: seq<int>, d2: seq<int>, d3: seq<int>, pos: nat, m: nat, n: nat, value: int)
    requires pos <= m <= pos + n && m + n <= |d0|
    requires AlgoBase.Copied(d1, d0, m, seq(pos + n - m, _ => value))
    requires AlgoBase.Copied(d2, d1, pos + n, d1[pos..m])
    requires AlgoBase.Copied(d3, d2, pos, seq(m - pos, _ => value))
    ensures d3[..m + n] == InsertedFill(d0[..m], pos, n, value)
  {
    forall k | 0 <= k < m + n ensures d3[k] == InsertedFill(d0[..m], pos, n, value)[k] {
      InsertedFillAt(d0[..m], pos, n, value, k);
      AlgoBase.CopiedAt(d3, d2, pos, seq(m - pos, _ => value), k);
      AlgoBase.CopiedAt(d2, d1, pos + n, d1[pos..m], k);
      AlgoBase.CopiedAt(d1, d0, m, seq(pos + n - m, _ => value), k);
      if pos + n <= k {
        AlgoBase.CopiedAt(d1, d0, m, seq(pos + n - m, _ => value), k - n);
      }
    }
  }

  class Vector {
    var data: array<int>
    var size: nat

    ghost predicate Valid()
      reads this
    {
      size <= data.Length
    }

    /** The elements [begin_, end_). */
    function Contents(): seq<int>
      reads this, data
      requires Valid()
    {
      data[..size]
    }

    function Capacity(): nat
      reads this
    {
      data.Length
    }

    /** empty(): begin_ == end_. */
    predicate Empty()
      reads this
    {
      size == 0
    }

    /** vector(): no storage. */
    constructor ()
      ensures Valid() && Contents() == [] && Capacity() == 0 && fresh(data)
    {
      data := new int[0];
      size := 0;
    }

    /** vector(n, value): fill_initialize, exactly n slots. */
    constructor Filled(n: nat, value: int)
      ensures Valid() && Contents() == seq(n, _ => value) && Capacity() == n && fresh(data)
    {
      var res := new int[n];
      Fill(res, 0, n, value);
      data := res;
      size := n;
    }

    /** vector(first, last): range_initialize from [first, last) of `a`. */
    constructor FromRange(a: array<int>, first: nat, last: nat)
      requires first <= last <= a.Length
      ensures Valid() && Contents() == a[first..last] && Capacity() == last - first && fresh(data)
    {
      var res := new int[last - first];
      var _ := AlgoBase.Copy(a, first, last, res, 0);
      data := res;
      size := last - first;
    }

    /** operator[](n). */
    function Get(n: nat): (x: int)
      reads this, data
      requires Valid() && n < size
      ensures x == Contents()[n]
    {
      data[n]
    }

    /** at(n): out_of_range exactly when n >= size(). */
    function At(n: nat): (r: Access)
      reads this, data
      requires Valid()
      ensures r.OutOfRange? <==> size <= n
      ensures r.Value? ==> r.v == Contents()[n]
    {
      if n >= size then OutOfRange else Value(data[n])
    }

    /** operator[](n) as an lvalue: `vec[n] = x`. */
    method Set(n: nat, x: int)
      requires Valid() && n < size
      modifies data
      ensures Valid() && Contents() == old(Contents())[n := x]
    {
      data[n] := x;
    }

    /** reserve(new_cap): a larger storage holding the same elements. */
    method Reserve(newCap: nat) returns (r: Reserved)
      requires Valid()
      modifies this
      ensures Valid() && Contents() == old(Contents())
      ensures r == LengthError <==> old(Capacity()) < newCap && MaxSize < newCap
      ensures Capacity() == if newCap <= old(Capacity()) || r == LengthError then old(Capacity()) else newCap
      ensures data == old(data) || fresh(data)
    {
      if newCap <= data.Length {
        return Done;
      }
      if newCap > MaxSize {
        return LengthError;
      }
      var newStart := new int[newCap];
      var newFinish := AlgoBase.Copy(data, 0, size, newStart, 0);
      assert newStart[..newFinish] == data[..size];
      data := newStart;
      size := newFinish;
      r := Done;
    }

    /** push_back(value): in place while there is room, else through insert_aux. */
    method PushBack(value: int)
      requires Valid()
      modifies this, data
      ensures Valid() && Contents() == old(Contents()) + [value]
      ensures Capacity() == PushBackCapacity(old(Capacity()), old(size))
      ensures data == old(data) || fresh(data)
    {
      if size != data.Length {
        data[size] := value;
        size := size + 1;
      } else {
        InsertAux(size, value);
        assert InsertedFill(old(Contents()), old(size), 1, value) == old(Contents()) + [value];
      }
    }

    /** pop_back(). */
    method PopBack()
      requires Valid() && 0 < size
      modifies this
      ensures Valid() && Contents() == old(Contents())[..old(size) - 1] && Capacity() == old(Capacity())
    {
      size := size - 1;
    }

    /** insert_aux(pos, value): shifts the tail right by one inside spare
        room, or moves everything to a storage of twice the size (1 from
        empty).  Within spare room, pos must be before the end. */
    method InsertAux(pos: nat, value: int)
      requires Valid() && pos <= size
      requires size < data.Length ==> pos < size
      modifies this, data
      ensures Valid() && Contents() == InsertedFill(old(Contents()), pos, 1, value)
      ensures Capacity() == PushBackCapacity(old(Capacity()), old(size))
      ensures data == old(data) || fresh(data)
    {
      if size != data.Length {
        InsertAuxSpare(pos, value);
      } else {
        InsertAuxRealloc(pos, value);
      }
    }

    /** insert_aux with spare room: the last element is copied one slot
        further, [pos, end - 1) moves right by copy_backward, value goes to pos. */
    method InsertAuxSpare(pos: nat, value: int)
      requires Valid() && pos < size < data.Length
      modifies this, data
      ensures Valid() && Contents() == InsertedFill(old(Contents()), pos, 1, value)
      ensures Capacity() == old(Capacity())
      ensures data == old(data) || fresh(data)
    {
      ghost var m := size;
      ghost var d0 := data[..];
      data[size] := data[size - 1];
      size := size + 1;
      ghost var d1 := data[..];
      var _ := AlgoBase.CopyBackward(data, pos, size - 2, data, size - 1);
      ghost var d2 := data[..];
      data[pos] := value;
      AuxShiftResult(d0, d1, d2, data[..], pos, m, value);
    }

    /** insert_aux on full storage: a storage of twice the size (1 from
        empty) receives the prefix, value and the suffix. */
    method InsertAuxRealloc(pos: nat, value: int)
      requires Valid() && pos <= size == data.Length
      modifies this
      ensures Valid() && Contents() == InsertedFill(old(Contents()), pos, 1, value)
      ensures Capacity() == GrownCapacity(old(size))
      ensures data == old(data) || fresh(data)
    {
      var len := if size != 0 then size * 2 else 1;
      var newStart := new int[len];
      ghost var z0 := newStart[..];
      var newFinish := AlgoBase.Copy(data, 0, pos, newStart, 0);
      ghost var z1 := newStart[..];
      newStart[newFinish] := value;
      newFinish := newFinish + 1;
      assert AlgoBase.Copied(newStart[..], z1, pos, seq(1, _ => value)) by {
        forall k | 0 <= k < newStart.Length && AlgoBase.Outside(k, pos, pos + 1)
          ensures newStart[k] == z1[k] {
        }
      }
      ghost var z2 := newStart[..];
      newFinish := AlgoBase.Copy(data, pos, size, newStart, newFinish);
      ReallocResult(data[..], z0, z1, z2, newStart[..], pos, size, 1, value);
      data := newStart;
      size := newFinish;
    }

    /** erase(pos): the tail moves left by one; returns pos. */
    method EraseAt(pos: nat) returns (it: nat)
      requires Valid() && pos < size
      modifies data, this
      ensures Valid() && Contents() == Erased(old(Contents()), pos, pos + 1)
      ensures Capacity() == old(Capacity()) && it == pos
      ensures data == old(data)
    {
      ghost var s := data[..size];
      ghost var d0 := data[..];
      if pos + 1 != size {
        var _ := AlgoBase.Copy(data, pos + 1, size, data, pos);
      } else {
        assert AlgoBase.Copied(data[..], d0, pos, d0[pos + 1..size]);
      }
      size := size - 1;
      assert data[..size] == Erased(s, pos, pos + 1) by {
        forall k | 0 <= k < size ensures data[k] == Erased(s, pos, pos + 1)[k] {
          AlgoBase.CopiedAt(data[..], d0, pos, d0[pos + 1..size + 1], k);
        }
      }
      it := pos;
    }

    /** erase(first, last): the tail moves left over the range; returns first. */
    method EraseRange(first: nat, last: nat) returns (it: nat)
      requires Valid() && first <= last <= size
      modifies data, this
      ensures Valid() && Contents() == Erased(old(Contents()), first, last)
      ensures Capacity() == old(Capacity()) && it == first
      ensures data == old(data)
    {
      ghost var s := data[..size];
      ghost var d0 := data[..];
      ghost var m := size;
      var _ := AlgoBase.Copy(data, last, size, data, first);
      size := size - (last - first);
      assert data[..size] == Erased(s, first, last) by {
        forall k | 0 <= k < size ensures data[k] == Erased(s, first, last)[k] {
          AlgoBase.CopiedAt(data[..], d0, first, d0[last..m], k);
        }
      }
      it := first;
    }

    /** clear(): erase(begin(), end()). */
    method Clear()
      requires Valid()
      modifies data, this
      ensures Valid() && Contents() == [] && Capacity() == old(Capacity())
      ensures data == old(data)
    {
      var _ := EraseRange(0, size);
    }

    /** insert(pos, n, value): n copies of value before pos. */
    method InsertFill(pos: nat, n: nat, value: int)
      requires Valid() && pos <= size
      modifies this, data
      ensures Valid() && Contents() == InsertedFill(old(Contents()), pos, n, value)
      ensures Capacity() == if n == 0 then old(Capacity()) else FillCapacity(old(Capacity()), old(size), n)
      ensures data == old(data) || fresh(data)
    {
      if n == 0 {
        assert InsertedFill(data[..size], pos, n, value) == data[..size];
        return;
      }
      if data.Length - size >= n {
        var numElementsAfter := size - pos;
        if numElementsAfter > n {
          InsertSpareLongTail(pos, n, value);
        } else {
          InsertSpareShortTail(pos, n, value);
        }
      } else {
        InsertRealloc(pos, n, value);
      }
    }

    /** insert(pos, n, value) in spare room, more than n elements after pos:
        the last n move to the end, the rest shift right, then the fill. */
    method InsertSpareLongTail(pos: nat, n: nat, value: int)
      requires Valid() && pos + n < size && n <= data.Length - size
      modifies this, data
      ensures Valid() && Contents() == InsertedFill(old(Contents()), pos, n, value)
      ensures Capacity() == old(Capacity())
      ensures data == old(data) || fresh(data)
    {
      ShiftLongTail(data, pos, size, n, value);
      size := size + n;
    }

    /** insert(pos, n, value) in spare room, at most n elements after pos:
        the excess copies go to the end, then the tail, then the fill. */
    method InsertSpareShortTail(pos: nat, n: nat, value: int)
      requires Valid() && pos <= size <= pos + n && n <= data.Length - size
      modifies this, data
      ensures Valid() && Contents() == InsertedFill(old(Contents()), pos, n, value)
      ensures Capacity() == old(Capacity())
      ensures data == old(data) || fresh(data)
    {
      ghost var d0 := data[..];
      var numElementsAfter := size - pos;
      var oldFinish := size;
      Fill(data, size, size + (n - numElementsAfter), value);
      ghost var d1 := data[..];
      size := size + (n - numElementsAfter);
      var _ := AlgoBase.Copy(data, pos, oldFinish, data, size);
      ghost var d2 := data[..];
      size := size + numElementsAfter;
      Fill(data, pos, oldFinish, value);
      ShortTailResult(d0, d1, d2, data[..], pos, oldFinish, n, value);
    }

    /** insert(pos, n, value) without room: a storage of
        size + max(size, n) receives prefix, fill and suffix. */
    method InsertRealloc(pos: nat, n: nat, value: int)
      requires Valid() && pos <= size && data.Length - size < n
      modifies this
      ensures Valid() && Contents() == InsertedFill(old(Contents()), pos, n, value)
      ensures Capacity() == old(size) + Max(old(size), n)
      ensures data == old(data) || fresh(data)
    {
      var len := size + Max(size, n);
      var newStart := new int[len];
      ghost var z0 := newStart[..];
      var newFinish := AlgoBase.Copy(data, 0, pos, newStart, 0);
      ghost var z1 := newStart[..];
      Fill(newStart, newFinish, newFinish + n, value);
      ghost var z2 := newStart[..];
      newFinish := newFinish + n;
      newFinish := AlgoBase.Copy(data, pos, size, newStart, newFinish);
      ReallocResult(data[..], z0, z1, z2, newStart[..], pos, size, n, value);
      data := newStart;
      size := newFinish;
    }

    /** resize(new_size, value): erase the excess or insert the padding at the end. */
    method Resize(newSize: nat, value: int)
      requires Valid()
      modifies this, data
      ensures Valid() && Contents() == Resized(old(Contents()), newSize, value)
      ensures Capacity() == if newSize <= old(size) then old(Capacity())
                            else FillCapacity(old(Capacity()), old(size), newSize - old(size))
      ensures data == old(data) || fresh(data)
    {
      if newSize < size {
        var _ := EraseRange(newSize, size);
      } else {
        InsertFill(size, newSize - size, value);
      }
    }

    /** swap(rhs): the two vectors exchange their storage. */
    method Swap(rhs: Vector)
      requires Valid() && rhs.Valid()
      modifies this, rhs
      ensures Valid() && rhs.Valid()
      ensures Contents() == old(rhs.Contents()) && rhs.Contents() == old(Contents())
      ensures Capacity() == old(rhs.Capacity()) && rhs.Capacity() == old(Capacity())
    {
      data, rhs.data := rhs.data, data;
      size, rhs.size := rhs.size, size;
    }
  }

  /** Erasing the inserted range gives back the original sequence. */
  lemma EraseInserted(s: seq<int>, pos: nat, n: nat, v: int)
    requires pos <= |s|
    ensures |InsertedFill(s, pos, n, v)| == |s| + n
    ensures Erased(InsertedFill(s, pos, n, v), pos, pos + n) == s
  {
    var t := InsertedFill(s, pos, n, v);
    assert t[..pos] == s[..pos];
    assert t[pos + n..] == s[pos..];
    assert s[..pos] + s[pos..] == s;
  }

  /** resize(k) gives exactly k elements: the old ones first, then copies of v. */
  lemma ResizedShape(s: seq<int>, k: nat, v: int)
    ensures |Resized(s, k, v)| == k
    ensures forall i :: 0 <= i < k ==> Resized(s, k, v)[i] == if i < |s| then s[i] else v
  {
  }

  /** Capacity after k push_backs on a fresh vector. */
  function PushesCapacity(k: nat): nat
  {
    if k == 0 then 0 else PushBackCapacity(PushesCapacity(k - 1), k - 1)
  }

  predicate IsPowerOfTwo(c: nat)
  {
    c == 1 || (c % 2 == 0 && c > 0 && IsPowerOfTwo(c / 2))
  }

  /** Pushing k >= 1 elements one by one onto a fresh vector leaves a power
      of two capacity c with k <= c < 2k. */
  lemma {:induction false} PushesCapacityBounds(k: nat)
    requires 1 <= k
    ensures IsPowerOfTwo(PushesCapacity(k)) && k <= PushesCapacity(k) < 2 * k
  {
    if k > 1 {
      PushesCapacityBounds(k - 1);
      var c := PushesCapacity(k - 1);
      if c == k - 1 {
        assert PushesCapacity(k) == 2 * c;
        assert (2 * c) / 2 == c;
      }
    }
  }

  /** push_back of 1..5 onto an empty vector: capacities 1, 2, 4, 4, 8. */
  method PushScenario() returns (vec: Vector, caps: seq<nat>)
    ensures fresh(vec) && fresh(vec.data) && vec.Valid()
    ensures vec.Contents() == [1, 2, 3, 4, 5] && caps == [1, 2, 4, 4, 8] && vec.Capacity() == 8
  {
    vec := new Vector();
    vec.PushBack(1);
    var c1 := vec.Capacity();
    vec.PushBack(2);
    var c2 := vec.Capacity();
    vec.PushBack(3);
    var c3 := vec.Capacity();
    vec.PushBack(4);
    var c4 := vec.Capacity();
    vec.PushBack(5);
    caps := [c1, c2, c3, c4, vec.Capacity()];
  }

  /** The push_back and insert sequence of the unit test: after the five
      pushes, five 10s inserted at the front give capacity 10; clear keeps it. */
  method GrowthScenario() returns (caps: seq<nat>, afterInsert: seq<int>, insertCap: nat, clearedCap: nat)
    ensures caps == [1, 2, 4, 4, 8]
    ensures afterInsert == [10, 10, 10, 10, 10, 1, 2, 3, 4, 5] && insertCap == 10 && clearedCap == 10
  {
    var vec;
    vec, caps := PushScenario();
    vec.InsertFill(0, 5, 10);
    afterInsert := vec.Contents();
    insertCap := vec.Capacity();
    vec.Clear();
    clearedCap := vec.Capacity();
  }

  /** The second half of the unit test, set-up: twelve 20s into an empty
      vector of capacity 10 reallocate to exactly 12, then vec[i] = i. */
  method RenumberScenario() returns (vec: Vector, filled: seq<int>)
    ensures fresh(vec) && fresh(vec.data) && vec.Valid() && vec.Capacity() == 12
    ensures filled == seq(12, _ => 20)
    ensures vec.Contents() == [0, 1, 2, 3, 4, 5, 6, 7, 8, 9, 10, 11]
  {
    vec := new Vector();
    var _ := vec.Reserve(10);
    vec.InsertFill(0, 12, 20);
    filled := vec.Contents();
    var i := 0;
    while i < 12
      invariant 0 <= i <= 12 && vec.Valid() && fresh(vec.data) && vec.size == 12 && vec.Capacity() == 12
      invariant forall k :: 0 <= k < i ==> vec.Contents()[k] == k
    {
      vec.Set(i, i);
      i := i + 1;
    }
  }

  /** Erasing index 10 and then [1, 3) from 0..11. */
  method EraseScenario() returns (afterFirst: seq<int>, afterSecond: seq<int>)
    ensures afterFirst == [0, 1, 2, 3, 4, 5, 6, 7, 8, 9, 11]
    ensures afterSecond == [0, 3, 4, 5, 6, 7, 8, 9, 11]
  {
    var vec, _ := RenumberScenario();
    var _ := vec.EraseAt(10);
    afterFirst := vec.Contents();
    var _ := vec.EraseRange(1, 3);
    afterSecond := vec.Contents();
  }

  /** reserve in the unit test: 0 does nothing, 10 on an empty vector gives
      capacity 10; on vector(2, 2), 1 does nothing and 3 gives capacity 3 with
      the elements kept. */
  method ReserveScenario() returns (cap0: nat, cap1: nat, cap2: nat, elems: seq<int>)
    ensures cap0 == 0 && cap1 == 10 && cap2 == 3 && elems == [2, 2]
  {
    var vec := new Vector();
    var r := vec.Reserve(0);
    cap0 := vec.Capacity();
    r := vec.Reserve(10);
    cap1 := vec.Capacity();
    var vec2 := new Vector.Filled(2, 2);
    r := vec2.Reserve(1);
    r := vec2.Reserve(3);
    cap2 := vec2.Capacity();
    elems := vec2.Contents();
  }
}
