/**
 * The growable array of include/vec.h. A vector is a pointer that is either
 * NULL or points just past a header holding the capacity m and the count n
 * of the buffer that follows it; the macros read and write the header and
 * the slots in place and replace the buffer when it has to grow.
 */
module Vec {

  /**
   * The capacity __vec_growf asks for when k more slots are wanted: twice the
   * old capacity plus k, or k + 1 for a NULL vector.
   */
  function NewCapacity(live: bool, m: nat, k: nat): (r: nat)
    ensures live ==> r >= 2 * m && r - k == 2 * m
    ensures !live ==> r == k + 1
  {
    if live then 2 * m + k else k + 1
  }

  /** After growing, the count and the k wanted slots fit below the new capacity. */
  lemma GrowthFits(live: bool, m: nat, n: nat, k: nat)
    requires live ==> n < m
    ensures (if live then n else 0) + k < NewCapacity(live, m, k)
  {
  }

  /** s without its element i. */
  function Erased<T>(s: seq<T>, i: nat): (r: seq<T>)
    requires i < |s|
    ensures |r| == |s| - 1
    ensures forall j :: 0 <= j < i ==> r[j] == s[j]
    ensures forall j :: i <= j < |r| ==> r[j] == s[j + 1]
  {
    s[..i] + s[i + 1..]
  }

  /** Erasing the last element is dropping it: a push undone by an erase. */
  lemma EraseLast<T>(s: seq<T>, v: T)
    ensures Erased(s + [v], |s|) == s
  {
  }

  /** An erase keeps every element but the erased one, in order. */
  lemma {:induction false} ErasedSplit<T>(s: seq<T>, i: nat)
    requires i < |s|
    ensures s == Erased(s, i)[..i] + [s[i]] + Erased(s, i)[i..]
  {
    assert Erased(s, i)[..i] == s[..i];
    assert Erased(s, i)[i..] == s[i + 1..];
  }

  /** s with v put in at position i: what an insertion at i is meant to give. */
  function Inserted<T>(s: seq<T>, i: nat, v: T): (r: seq<T>)
    requires i <= |s|
    ensures |r| == |s| + 1 && r[i] == v
    ensures forall j :: 0 <= j < i ==> r[j] == s[j]
    ensures forall j :: i < j < |r| ==> r[j] == s[j - 1]
  {
    s[..i] + [v] + s[i..]
  }

  /** Erasing what was inserted at i gives the sequence back. */
  lemma EraseInserted<T>(s: seq<T>, i: nat, v: T)
    requires i <= |s|
    ensures Erased(Inserted(s, i, v), i) == s
  {
    assert Erased(Inserted(s, i, v), i) == s[..i] + s[i..];
    assert s[..i] + s[i..] == s;
  }

  /**
   * What vec_insert(a, i, v) leaves, as the macro is written: the elements
   * from i move up one slot, but v is stored at the old count instead of at
   * i, so element i appears twice and the old last element is overwritten.
   */
  function InsertedAsWritten<T>(s: seq<T>, i: nat, v: T): (r: seq<T>)
    requires i <= |s|
    ensures |r| == |s| + 1 && r[|s|] == v
    ensures forall j :: 0 <= j <= i && j < |s| ==> r[j] == s[j]
    ensures forall j :: i < j < |s| ==> r[j] == s[j - 1]
  {
    if i == |s| then s + [v] else s[..i + 1] + s[i..|s| - 1] + [v]
  }

  /** As written, inserting 9 at 0 into [1, 2] gives [1, 1, 9] instead of [9, 1, 2]. */
  lemma InsertAsWrittenLoses()
    ensures InsertedAsWritten([1, 2], 0, 9) == [1, 1, 9]
    ensures Inserted([1, 2], 0, 9) == [9, 1, 2]
  {
  }

  class Vector<T(0)> {
    /** The pointer is not NULL. */
    var live: bool
    /** The buffer; its length is the capacity __vec_m. */
    var data: array<T>
    /** __vec_n: how many slots hold elements. */
    var count: nat

    /**
     * On a live vector the count stays below the capacity: growth is asked
     * for whenever n + k would reach m.
     */
    ghost predicate Valid()
      reads this
    {
      live ==> count < data.Length
    }

    /** The elements the vector holds: none for NULL. */
    ghost function Contents(): seq<T>
      reads this, data
      requires Valid()
    {
      if live then data[..count] else []
    }

    /** A NULL vector. */
    constructor Null()
      ensures Valid() && !live && Contents() == []
    {
      live := false;
      data := new T[0];
      count := 0;
    }

    /** vec_init(a, n): NULL grown by n, so empty with capacity n + 1. */
    constructor Init(n: nat)
      ensures Valid() && live && Contents() == [] && data.Length == n + 1
    {
      live := true;
      data := new T[n + 1];
      count := 0;
    }

    /** vec_size: the number of elements, 0 for NULL. */
    function Size(): (r: nat)
      reads this
      requires Valid()
      ensures r == |Contents()|
    {
      if live then count else 0
    }

    /**
     * __vec_needgrow(a, k): NULL, or the count plus k reaches the capacity,
     * that is, the buffer has no room for k more elements and a spare slot.
     */
    predicate NeedGrow(k: nat): (r: bool)
      reads this, data
      ensures Valid() ==> (!r <==> live && |Contents()| + k < data.Length)
    {
      !live || count + k >= data.Length
    }

    /**
     * __vec_growf: a buffer of NewCapacity slots that keeps the old slots;
     * a NULL vector gets the count 0. The allocation is taken to succeed.
     */
    method Grow(k: nat)
      requires Valid()
      modifies this
      ensures Valid() && live && fresh(data)
      ensures data.Length == NewCapacity(old(live), old(data.Length), k)
      ensures count == (if old(live) then old(count) else 0)
      ensures Contents() == old(Contents())
    {
      var m := NewCapacity(live, data.Length, k);
      var p := new T[m];
      if live {
        forall j | 0 <= j < data.Length {
          p[j] := data[j];
        }
      } else {
        count := 0;
      }
      data := p;
      live := true;
    }

    /** __vec_maybegrow(a, k): grow only when needed; afterwards k more elements fit. */
    method MaybeGrow(k: nat)
      requires Valid()
      modifies this
      ensures Valid() && live && count + k < data.Length
      ensures Contents() == old(Contents())
      ensures !old(NeedGrow(k)) ==> data == old(data) && data.Length == old(data.Length)
      ensures old(NeedGrow(k)) ==> fresh(data) && data.Length == NewCapacity(old(live), old(data.Length), k)
    {
      if NeedGrow(k) {
        GrowthFits(live, data.Length, count, k);
        Grow(k);
      }
    }

    /** vec_push(a, v): v is appended, the elements before it unchanged. */
    method Push(v: T)
      requires Valid()
      modifies this, data
      ensures Valid() && live
      ensures Contents() == old(Contents()) + [v]
    {
      MaybeGrow(1);
      data[count] := v;
      count := count + 1;
    }

    /**
     * vec_pop(a): the last element is dropped; the result is the old count,
     * or 0 for NULL, which is left as it is.
     */
    method Pop() returns (r: nat)
      requires Valid() && (live ==> count > 0)
      modifies this
      ensures Valid() && live == old(live) && data == old(data)
      ensures r == old(Size())
      ensures Contents() == if old(live) then old(Contents())[..old(count) - 1] else []
    {
      if live {
        r := count;
        count := count - 1;
      } else {
        r := 0;
      }
    }

    /**
     * vec_erase(a, i): element i is removed and the ones above it move down
     * one slot; NULL is left as it is.
     */
    method Erase(i: nat)
      requires Valid() && (live ==> i < count)
      modifies this, data
      ensures Valid() && live == old(live) && data == old(data)
      ensures old(live) ==> Contents() == Erased(old(Contents()), i)
      ensures !old(live) ==> Contents() == []
    {
      if live {
        ghost var s := data[..count];
        var a := data;
        var n := count - 1;
        count := n;
        var j := i;
        while j < n
          invariant |s| == n + 1 <= a.Length && i <= j <= n
          invariant forall t :: 0 <= t < i ==> a[t] == s[t]
          invariant forall t :: i <= t < j ==> a[t] == s[t + 1]
          invariant forall t :: j <= t <= n ==> a[t] == s[t]
          modifies a
          decreases n - j
        {
          a[j] := a[j + 1];
          j := j + 1;
        }
        assert a[..n] == Erased(s, i);
      }
    }
    /**
     * __vec_rshift(a, i, n - i): the n - i elements from slot i move up one
     * slot; slot i keeps its value.
     */
    method ShiftUp(i: nat)
      requires Valid() && live && i <= count && count + 1 < data.Length
      modifies data
      ensures forall j :: 0 <= j <= i ==> data[j] == old(data[j])
      ensures forall j :: i < j <= count ==> data[j] == old(data[j - 1])
      ensures forall j :: count < j < data.Length ==> data[j] == old(data[j])
    {
      var j := count;
      while j > i
        invariant i <= j <= count
        invariant forall t :: 0 <= t <= j ==> data[t] == old(data[t])
        invariant forall t :: j < t <= count ==> data[t] == old(data[t - 1])
        invariant forall t :: count < t < data.Length ==> data[t] == old(data[t])
        decreases j
      {
        data[j] := data[j - 1];
        j := j - 1;
      }
    }

    /** vec_insert(a, i, v) as the macro is written: v ends up at the old count. */
    method InsertAsWritten(i: nat, v: T)
      requires Valid() && i <= Size()
      modifies this, data
      ensures Valid() && live
      ensures Contents() == InsertedAsWritten(old(Contents()), i, v)
    {
      ghost var s := Contents();
      MaybeGrow(1);
      ShiftUp(i);
      data[count] := v;
      count := count + 1;
      assert Contents() == InsertedAsWritten(s, i, v);
    }

    /** vec_insert(a, i, v) as intended: v is stored at i, after the shift. */
    method Insert(i: nat, v: T)
      requires Valid() && i <= Size()
      modifies this, data
      ensures Valid() && live
      ensures Contents() == Inserted(old(Contents()), i, v)
    {
      ghost var s := Contents();
      MaybeGrow(1);
      ShiftUp(i);
      data[i] := v;
      count := count + 1;
      assert Contents() == Inserted(s, i, v);
    }
  }
}
