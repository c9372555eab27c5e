/// The gap buffer that stores every sort of the text editor
/// (src/core/state/text_editor/buffer.rs; src/core/state/text_editor.rs carries an
/// identical copy). The class is generic in the entry type so that both editor
/// generations, whose `SortEntry` records differ, share one definition; `blank`
/// plays the part of `SortEntry::default()`.
module GapBuffer {
  import opened Wrappers

  /// Capacity of a freshly created buffer.
  const InitialCapacity: nat := 1024

  /// The logical sequence `s` with `x` inserted before position `i`.
  function InsertAt<T>(s: seq<T>, i: nat, x: T): seq<T>
    requires i <= |s|
  {
    s[..i] + [x] + s[i..]
  }

  /// The logical sequence `s` without its element at position `i`.
  function RemoveAt<T>(s: seq<T>, i: nat): seq<T>
    requires i < |s|
  {
    s[..i] + s[i + 1..]
  }

  /// What an insertion does to each position: the prefix stays, `x` lands at `i`,
  /// and everything from `i` on moves one place to the right.
  lemma InsertAtShifts<T>(s: seq<T>, i: nat, x: T)
    requires i <= |s|
    ensures |InsertAt(s, i, x)| == |s| + 1 && InsertAt(s, i, x)[i] == x
    ensures forall k :: 0 <= k < i ==> InsertAt(s, i, x)[k] == s[k]
    ensures forall k :: i < k <= |s| ==> InsertAt(s, i, x)[k] == s[k - 1]
  {
  }

  /// Two insertions side by side: `x` at `i`, `y` right after it, and the rest
  /// moved two places to the right.
  lemma InsertPairShifts<T>(s: seq<T>, i: nat, x: T, y: T)
    requires i <= |s|
    ensures var w := InsertAt(InsertAt(s, i, x), i + 1, y);
      |w| == |s| + 2 && w[i] == x && w[i + 1] == y &&
      (forall k :: 0 <= k < i ==> w[k] == s[k]) &&
      (forall k :: i + 2 <= k < |w| ==> w[k] == s[k - 2])
  {
    InsertAtShifts(s, i, x);
    InsertAtShifts(InsertAt(s, i, x), i + 1, y);
  }

  /// Deleting the element just inserted at `i` restores the original sequence.
  lemma RemoveAfterInsert<T>(s: seq<T>, i: nat, x: T)
    requires i <= |s|
    ensures RemoveAt(InsertAt(s, i, x), i) == s
  {
    assert InsertAt(s, i, x)[..i] == s[..i];
    assert InsertAt(s, i, x)[i + 1..] == s[i..];
  }

  /// Re-inserting a deleted element at its old position restores the sequence.
  lemma InsertAfterRemove<T>(s: seq<T>, i: nat)
    requires i < |s|
    ensures InsertAt(RemoveAt(s, i), i, s[i]) == s
  {
    assert RemoveAt(s, i)[..i] == s[..i];
    assert RemoveAt(s, i)[i..] == s[i + 1..];
    assert s == s[..i] + [s[i]] + s[i + 1..];
  }

  /// The logical content of raw storage `slots` whose gap is `gapStart .. gapEnd`.
  function Logical<T>(slots: seq<T>, gapStart: nat, gapEnd: nat): seq<T>
    requires gapStart <= gapEnd <= |slots|
  {
    slots[..gapStart] + slots[gapEnd..]
  }

  /// Logical position `k` lives in slot `k` before the gap and `k + gap size` after it.
  lemma LogicalAt<T>(slots: seq<T>, gapStart: nat, gapEnd: nat, k: nat)
    requires gapStart <= gapEnd <= |slots| && k < |slots| - (gapEnd - gapStart)
    ensures |Logical(slots, gapStart, gapEnd)| == |slots| - (gapEnd - gapStart)
    ensures Logical(slots, gapStart, gapEnd)[k] ==
      if k < gapStart then slots[k] else slots[k + (gapEnd - gapStart)]
  {
  }

  /// `Vec::resize`: a fresh array of `n` slots holding `a`'s slots first and
  /// `blank` in the rest.
  method Resized<T>(a: array<T>, n: nat, blank: T) returns (r: array<T>)
    requires a.Length <= n
    ensures fresh(r) && r.Length == n
    ensures forall k :: 0 <= k < a.Length ==> r[k] == a[k]
    ensures forall k :: a.Length <= k < n ==> r[k] == blank
  {
    r := new T[n](_ => blank);
    forall k | 0 <= k < a.Length {
      r[k] := a[k];
    }
  }

  /// Doubling the storage and moving the slots after the gap to the end of
  /// the new storage keeps the logical content: `resized` is `slots` followed
  /// by new room, and `grown` is `resized` with its tail moved up by the old
  /// capacity.
  lemma GrownLogical<T>(slots: seq<T>, resized: seq<T>, grown: seq<T>, gs: nat, ge: nat)
    requires gs <= ge <= |slots|
    requires |resized| == |grown| == 2 * |slots|
    requires forall k :: 0 <= k < |slots| ==> resized[k] == slots[k]
    requires forall k :: 0 <= k < ge ==> grown[k] == resized[k]
    requires forall k :: ge + |slots| <= k < |grown| ==> grown[k] == resized[k - |slots|]
    ensures Logical(grown, gs, ge + |slots|) == Logical(slots, gs, ge)
  {
    forall k | 0 <= k < |slots| - (ge - gs)
      ensures Logical(grown, gs, ge + |slots|)[k] == Logical(slots, gs, ge)[k]
    {
      LogicalAt(grown, gs, ge + |slots|, k);
      LogicalAt(slots, gs, ge, k);
    }
  }

  /// Copy `a[src .. src + n]` to `a[dst .. dst + n]`, highest index first, which is
  /// safe when the destination lies to the right of the source.
  method CopyDown<T>(a: array<T>, src: nat, dst: nat, n: nat)
    requires src <= dst && dst + n <= a.Length
    modifies a
    ensures forall k :: dst <= k < dst + n ==> a[k] == old(a[k - (dst - src)])
    ensures forall k :: 0 <= k < dst || dst + n <= k < a.Length ==> a[k] == old(a[k])
  {
    var i := n;
    while i > 0
      invariant 0 <= i <= n
      invariant forall k :: dst + i <= k < dst + n ==> a[k] == old(a[k - (dst - src)])
      invariant forall k :: 0 <= k < dst + i || dst + n <= k < a.Length ==> a[k] == old(a[k])
    {
      i := i - 1;
      a[dst + i] := a[src + i];
    }
  }

  /// Copy `a[src .. src + n]` to `a[dst .. dst + n]`, lowest index first, which is
  /// safe when the destination lies to the left of the source.
  method CopyUp<T>(a: array<T>, src: nat, dst: nat, n: nat)
    requires dst <= src && src + n <= a.Length
    modifies a
    ensures forall k :: dst <= k < dst + n ==> a[k] == old(a[k + (src - dst)])
    ensures forall k :: 0 <= k < dst || dst + n <= k < a.Length ==> a[k] == old(a[k])
  {
    var i := 0;
    while i < n
      invariant 0 <= i <= n
      invariant forall k :: dst <= k < dst + i ==> a[k] == old(a[k + (src - dst)])
      invariant forall k :: 0 <= k < dst || dst + i <= k < a.Length ==> a[k] == old(a[k])
    {
      a[dst + i] := a[src + i];
      i := i + 1;
    }
  }

  /// Move `a[src .. src + n]` to the disjoint range `a[dst .. dst + n]` further
  /// right, highest index first, resetting each source slot to `blank`.
  method MoveAndClear<T>(a: array<T>, src: nat, dst: nat, n: nat, blank: T)
    requires src + n <= dst && dst + n <= a.Length
    modifies a
    ensures forall k :: dst <= k < dst + n ==> a[k] == old(a[k - (dst - src)])
    ensures forall k :: src <= k < src + n ==> a[k] == blank
    ensures forall k :: 0 <= k < src || src + n <= k < dst || dst + n <= k < a.Length ==> a[k] == old(a[k])
  {
    var i := n;
    while i > 0
      invariant 0 <= i <= n
      invariant forall k :: dst + i <= k < dst + n ==> a[k] == old(a[k - (dst - src)])
      invariant forall k :: src + i <= k < src + n ==> a[k] == blank
      invariant forall k :: 0 <= k < src + i || src + n <= k < dst + i || dst + n <= k < a.Length ==>
        a[k] == old(a[k])
    {
      i := i - 1;
      a[dst + i] := a[src + i];
      a[src + i] := blank;
    }
  }

  /// Storage `after` results from `slots` by carrying the elements between `position`
  /// and the gap across it (in either direction): the logical content is unchanged.
  lemma GapMoved<T>(slots: seq<T>, after: seq<T>, gapStart: nat, gapEnd: nat, position: nat)
    requires gapStart <= gapEnd <= |slots| == |after|
    requires position <= |slots| - (gapEnd - gapStart)
    requires position < gapStart ==>
      (forall k :: 0 <= k < position + (gapEnd - gapStart) ==> after[k] == slots[k]) &&
      (forall k :: position + (gapEnd - gapStart) <= k < gapEnd ==> after[k] == slots[k - (gapEnd - gapStart)]) &&
      (forall k :: gapEnd <= k < |after| ==> after[k] == slots[k])
    requires gapStart <= position ==>
      (forall k :: 0 <= k < gapStart ==> after[k] == slots[k]) &&
      (forall k :: gapStart <= k < position ==> after[k] == slots[k + (gapEnd - gapStart)]) &&
      (forall k :: position + (gapEnd - gapStart) <= k < |after| ==> after[k] == slots[k])
    ensures Logical(after, position, position + (gapEnd - gapStart)) == Logical(slots, gapStart, gapEnd)
  {
    var gapSize := gapEnd - gapStart;
    forall k | 0 <= k < |slots| - gapSize
      ensures Logical(after, position, position + gapSize)[k] == Logical(slots, gapStart, gapEnd)[k]
    {
      LogicalAt(after, position, position + gapSize, k);
      LogicalAt(slots, gapStart, gapEnd, k);
    }
  }

  /// Slot-by-slot copy of `n` elements from `src` to `dst`, lowest index first, each
  /// step reading the storage as the previous steps left it.
  function CopyAscending<T>(slots: seq<T>, src: nat, dst: nat, n: nat): (r: seq<T>)
    requires src + n <= |slots| && dst + n <= |slots|
    ensures |r| == |slots|
    decreases n
  {
    if n == 0 then slots else CopyAscending(slots[dst := slots[src]], src + 1, dst + 1, n - 1)
  }

  /// The leftward gap move as buffer.rs writes it: the `gapStart - position`
  /// elements before the gap are copied, lowest index first, to the slots that end
  /// at `gapEnd`. Returns the new storage; the new gap is `position .. position + gap size`.
  function MoveGapLeftAsWritten<T>(slots: seq<T>, gapStart: nat, gapEnd: nat, position: nat): (r: seq<T>)
    requires position < gapStart <= gapEnd <= |slots|
    ensures |r| == |slots|
  {
    CopyAscending(slots, position, gapEnd - (gapStart - position), gapStart - position)
  }

  /// When the destination lies wholly to the right of the source, the ascending copy
  /// is a faithful copy and touches nothing else.
  lemma {:induction false} CopyAscendingDisjoint<T>(slots: seq<T>, src: nat, dst: nat, n: nat)
    requires src + n <= dst && dst + n <= |slots|
    ensures forall k :: dst <= k < dst + n ==>
      CopyAscending(slots, src, dst, n)[k] == slots[k - (dst - src)]
    ensures forall k :: 0 <= k < dst || dst + n <= k < |slots| ==>
      CopyAscending(slots, src, dst, n)[k] == slots[k]
    decreases n
  {
    if n > 0 {
      CopyAscendingDisjoint(slots[dst := slots[src]], src + 1, dst + 1, n - 1);
    }
  }

  /// The code as written is correct as long as the distance moved does not exceed
  /// the gap size.
  lemma MoveGapLeftAsWrittenSound<T>(slots: seq<T>, gapStart: nat, gapEnd: nat, position: nat)
    requires position < gapStart <= gapEnd <= |slots|
    requires gapStart - position <= gapEnd - gapStart
    ensures Logical(MoveGapLeftAsWritten(slots, gapStart, gapEnd, position), position,
                    position + (gapEnd - gapStart)) == Logical(slots, gapStart, gapEnd)
  {
    var moveCount := gapStart - position;
    CopyAscendingDisjoint(slots, position, gapEnd - moveCount, moveCount);
    GapMoved(slots, MoveGapLeftAsWritten(slots, gapStart, gapEnd, position), gapStart, gapEnd, position);
  }

  /// When the gap is smaller than the distance moved, the ascending copy reads
  /// slots it has already overwritten: storage `a b c _` with gap 3 .. 4, moved to
  /// position 0, becomes `a a a a`, so the content `a b c` turns into `a a a`.
  lemma MoveGapLeftAsWrittenCorrupts()
    ensures Logical(['a', 'b', 'c', '_'], 3, 4) == ['a', 'b', 'c']
    ensures Logical(MoveGapLeftAsWritten(['a', 'b', 'c', '_'], 3, 4, 0), 0, 1) == ['a', 'a', 'a']
  {
    var s0 := ['a', 'b', 'c', '_'];
    assert CopyAscending(s0, 0, 1, 3) == CopyAscending(['a', 'a', 'c', '_'], 1, 2, 2);
    assert CopyAscending(['a', 'a', 'c', '_'], 1, 2, 2) == CopyAscending(['a', 'a', 'a', '_'], 2, 3, 1);
    assert CopyAscending(['a', 'a', 'a', '_'], 2, 3, 1) == ['a', 'a', 'a', 'a'];
  }

  class SortBuffer<T> {
    /// The storage: logical content before the gap, the gap, logical content after it.
    var buf: array<T>
    var gapStart: nat
    /// Exclusive end of the gap.
    var gapEnd: nat
    /// The entry written into slots that hold no sort.
    const blank: T

    ghost predicate Valid()
      reads this
    {
      gapStart <= gapEnd <= buf.Length && 0 < buf.Length
    }

    /// The sorts in logical order: every slot outside the gap.
    ghost function Contents(): seq<T>
      reads this, buf
      requires Valid()
    {
      Logical(buf[..], gapStart, gapEnd)
    }

    /// An empty buffer of 1024 blank slots, all of them gap.
    constructor (blank: T)
      ensures Valid() && fresh(buf) && this.blank == blank
      ensures buf.Length == InitialCapacity && Contents() == []
    {
      this.blank := blank;
      buf := new T[InitialCapacity](_ => blank);
      gapStart, gapEnd := 0, InitialCapacity;
    }

    /// A buffer holding `sorts` followed by a gap; the capacity is twice the
    /// number of sorts, but never below 1024.
    constructor FromSorts(sorts: seq<T>, blank: T)
      ensures Valid() && fresh(buf) && this.blank == blank
      ensures buf.Length == if 2 * |sorts| > InitialCapacity then 2 * |sorts| else InitialCapacity
      ensures gapStart == |sorts| && gapEnd == buf.Length
      ensures Contents() == sorts
    {
      this.blank := blank;
      var capacity := if 2 * |sorts| > InitialCapacity then 2 * |sorts| else InitialCapacity;
      var slots := new T[capacity](k => if 0 <= k < |sorts| then sorts[k] else blank);
      assert slots[..|sorts|] == sorts;
      buf := slots;
      gapStart, gapEnd := |sorts|, capacity;
    }

    /// The logical length is the capacity minus the gap size.
    function Len(): (n: nat)
      reads this, buf
      requires Valid()
      ensures n == |Contents()|
      ensures n + (gapEnd - gapStart) == buf.Length
    {
      buf.Length - (gapEnd - gapStart)
    }

    function IsEmpty(): (b: bool)
      reads this, buf
      requires Valid()
      ensures b <==> Contents() == []
    {
      Len() == 0
    }

    /// The sort at logical position `index`, skipping over the gap; None past the end.
    function Get(index: nat): (r: Option<T>)
      reads this, buf
      requires Valid()
      ensures index < |Contents()| ==> r == Some(Contents()[index])
      ensures index >= |Contents()| ==> r.None?
    {
      if index >= Len() then None
      else if index < gapStart then Some(buf[index])
      else Some(buf[index + (gapEnd - gapStart)])
    }

    /// Overwrite the sort at logical position `index` (what a write through
    /// `get_mut` does); out of range nothing changes.
    method SetAt(index: nat, x: T) returns (ok: bool)
      requires Valid()
      modifies buf
      ensures Valid()
      ensures ok == (index < |old(Contents())|)
      ensures Contents() == if ok then old(Contents())[index := x] else old(Contents())
    {
      if index >= Len() {
        return false;
      }
      ghost var before := Contents();
      if index < gapStart {
        buf[index] := x;
      } else {
        buf[index + (gapEnd - gapStart)] := x;
      }
      assert Contents() == before[index := x] by {
        assert forall k :: 0 <= k < |before| ==> Contents()[k] == before[index := x][k];
      }
      return true;
    }

    /// Move the gap so that it starts at `position`. The elements between the old
    /// and the new gap position are copied across the gap; a leftward move copies
    /// from the highest index down, so that a gap smaller than the distance moved
    /// never overwrites a slot before it has been read.
    method MoveGapTo(position: nat)
      requires Valid() && position <= |Contents()|
      modifies buf, this`gapStart, this`gapEnd
      ensures Valid() && buf == old(buf)
      ensures gapStart == position && gapEnd - gapStart == old(gapEnd - gapStart)
      ensures Contents() == old(Contents())
    {
      if position == gapStart {
        return;
      }
      ghost var slots := buf[..];
      var gs, ge := gapStart, gapEnd;
      var gapSize := ge - gs;
      if position < gs {
        CopyDown(buf, position, position + gapSize, gs - position);
      } else {
        CopyUp(buf, ge, gs, position - gs);
      }
      gapStart, gapEnd := position, position + gapSize;
      GapMoved(slots, buf[..], gs, ge, position);
    }

    /// Double the capacity; the elements after the gap move to the end of the
    /// enlarged storage (from the highest index down, clearing each vacated
    /// slot) and the gap absorbs all the new room.
    method GrowGap()
      requires Valid()
      modifies this`buf, this`gapEnd
      ensures Valid() && fresh(buf) && buf.Length == 2 * old(buf.Length)
      ensures gapStart == old(gapStart)
      ensures gapEnd - gapStart == old(gapEnd - gapStart) + old(buf.Length)
      ensures Contents() == old(Contents())
    {
      var oldCapacity := buf.Length;
      var newCapacity := oldCapacity * 2;
      var gs, ge := gapStart, gapEnd;
      var newGapSize := (ge - gs) + (newCapacity - oldCapacity);
      var grown := Resized(buf, newCapacity, blank);
      ghost var slots, resized := buf[..], grown[..];
      var elementsAfterGap := oldCapacity - ge;
      if elementsAfterGap > 0 {
        MoveAndClear(grown, ge, newCapacity - elementsAfterGap, elementsAfterGap, blank);
      }
      GrownLogical(slots, resized, grown[..], gs, ge);
      buf := grown;
      gapEnd := gs + newGapSize;
    }

    /// Insert `x` before logical position `index`, growing the storage first when
    /// the gap is empty. An index past the end leaves the buffer unchanged.
    method Insert(index: nat, x: T)
      requires Valid()
      modifies this, buf
      ensures Valid() && (buf == old(buf) || fresh(buf))
      ensures index > |old(Contents())| ==> Contents() == old(Contents())
      ensures index <= |old(Contents())| ==> Contents() == InsertAt(old(Contents()), index, x)
    {
      if index > Len() {
        return;
      }
      if gapStart >= gapEnd {
        GrowGap();
      }
      ghost var before := Contents();
      MoveGapTo(index);
      buf[gapStart] := x;
      gapStart := gapStart + 1;
      assert buf[..gapStart] == before[..index] + [x];
      assert buf[gapEnd..] == before[index..];
    }

    /// Remove and return the sort at logical position `index`; None when the
    /// index is past the end, in which case nothing changes. The vacated slot is
    /// reset to `blank`.
    method Delete(index: nat) returns (r: Option<T>)
      requires Valid()
      modifies buf, this`gapStart, this`gapEnd
      ensures Valid() && buf == old(buf)
      ensures index >= |old(Contents())| ==> r.None? && Contents() == old(Contents())
      ensures index < |old(Contents())| ==>
        r == Some(old(Contents())[index]) && Contents() == RemoveAt(old(Contents()), index)
    {
      if index >= Len() {
        return None;
      }
      ghost var before := Contents();
      MoveGapTo(index);
      var deleted := buf[gapEnd];
      buf[gapEnd] := blank;
      gapEnd := gapEnd + 1;
      assert buf[..gapStart] == before[..index];
      assert buf[gapEnd..] == before[index + 1..];
      return Some(deleted);
    }

    /// Reset every slot to `blank` and make the whole storage gap.
    method Clear()
      requires Valid()
      modifies buf, this`gapStart, this`gapEnd
      ensures Valid() && buf == old(buf)
      ensures Contents() == []
      ensures forall k :: 0 <= k < buf.Length ==> buf[k] == blank
    {
      for k := 0 to buf.Length
        invariant forall j :: 0 <= j < k ==> buf[j] == blank
      {
        buf[k] := blank;
      }
      gapStart, gapEnd := 0, buf.Length;
    }

    /// Collect the sorts in logical order by reading positions 0 .. len through
    /// `Get`, as the iterator and `to_vec` do.
    method ToVec() returns (s: seq<T>)
      requires Valid()
      ensures s == Contents()
    {
      s := [];
      var i := 0;
      while i < Len()
        invariant i <= Len()
        invariant s == Contents()[..i]
      {
        var item := Get(i);
        if item.Some? {
          s := s + [item.value];
        }
        i := i + 1;
      }
    }
  }

  /// Building a buffer from a list of sorts and reading it back gives the list.
  method FromSortsToVec<T>(sorts: seq<T>, blank: T) returns (out: seq<T>)
    ensures out == sorts
  {
    var b := new SortBuffer.FromSorts(sorts, blank);
    out := b.ToVec();
  }

  /// A buffer that received `x` at position `i` and then lost position `i`
  /// holds what it held before.
  method InsertThenDelete<T>(b: SortBuffer<T>, i: nat, x: T) returns (removed: Option<T>)
    requires b.Valid() && i <= |b.Contents()|
    modifies b, b.buf
    ensures b.Valid() && removed == Some(x)
    ensures b.Contents() == old(b.Contents())
  {
    b.Insert(i, x);
    InsertAtShifts(old(b.Contents()), i, x);
    removed := b.Delete(i);
    RemoveAfterInsert(old(b.Contents()), i, x);
  }
}
