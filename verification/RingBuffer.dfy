/** The fixed-capacity ring buffer of the kernel (kernel/src/ring_buffer.rs), proved to be a bounded
    sequence. */
module Ring {
  import opened Options

  /** The elements between two positions of a circular buffer. */
  function Window<T>(b: seq<T>, first: nat, last: nat, empty: bool): (s: seq<T>)
    requires first < |b| && last < |b|
  {
    if empty then [] else if first < last then b[first..last] else b[first..] + b[..last]
  }

  /** The position behind i. */
  function Next(i: nat, cap: nat): nat { if i + 1 >= cap then 0 else i + 1 }

  /** Writing at the end of a window that does not fill the buffer appends to it. */
  lemma WindowPush<T>(b: seq<T>, first: nat, last: nat, empty: bool, x: T)
    requires first < |b| && last < |b| && if empty then first == last else first != last
    ensures Window(b[last := x], first, Next(last, |b|), false) == Window(b, first, last, empty) + [x]
  {
    var c := b[last := x];
    assert c[..last] == b[..last] && c[..last + 1] == c[..last] + [x];
    if first <= last {
      assert c[first..last + 1] == b[first..last] + [x];
      assert last + 1 == |b| ==> c[first..] == c[first..last + 1] && c[..0] == [];
    } else {
      assert c[first..] == b[first..];
    }
  }

  /** Writing at the end of a full window drops its first element and appends. */
  lemma WindowForce<T>(b: seq<T>, first: nat, x: T)
    requires first < |b|
    ensures Window(b[first := x], Next(first, |b|), Next(first, |b|), false) == Window(b, first, first, false)[1..] + [x]
  {
    var c := b[first := x];
    assert c[..first] == b[..first] && c[..first + 1] == c[..first] + [x];
    assert c[first + 1..] == b[first + 1..] == b[first..][1..];
    if first + 1 == |b| {
      assert c[0..] == c == c[..first + 1];
    } else {
      assert (b[first..] + b[..first])[1..] == b[first + 1..] + b[..first];
    }
  }

  class RingBuffer<T> {
    const buffer: array<T>
    var first: nat
    var last: nat
    var empty: bool

    ghost predicate Valid()
      reads this
    {
      first < buffer.Length && last < buffer.Length && (empty ==> first == last)
    }

    /** Where the element at a logical index sits. */
    function Slot(i: nat): nat
      reads this
    {
      if first + i < buffer.Length then first + i else first + i - buffer.Length
    }

    function Size(): nat
      requires Valid()
      reads this
    {
      if empty then 0 else if first < last then last - first else last + buffer.Length - first
    }

    ghost function Contents(): (s: seq<T>)
      requires Valid()
      reads this, buffer
      ensures |s| == Size() <= buffer.Length
      ensures forall i :: 0 <= i < |s| ==> s[i] == buffer[Slot(i)]
    {
      Window(buffer[..], first, last, empty)
    }

    constructor (capacity: nat, initial: T)
      requires capacity > 0
      ensures Valid() && Contents() == [] && buffer.Length == capacity && fresh(buffer)
    {
      buffer := new T[capacity](_ => initial);
      first, last, empty := 0, 0, true;
    }

    method Len() returns (n: nat)
      requires Valid()
      ensures n == |Contents()|
    {
      if empty {
        n := 0;
      } else if first < last {
        n := last - first;
      } else {
        n := last + buffer.Length - first;
      }
    }

    method WrapIndex(index: nat) returns (r: Option<nat>)
      requires Valid()
      ensures r == if index < |Contents()| then Some(Slot(index)) else None
    {
      var p := first + index;
      var n := Len();
      if index >= n {
        r := None;
      } else if p < buffer.Length {
        r := Some(p);
      } else {
        r := Some(p - buffer.Length);
      }
    }

    /** get; a None is the out-of-bound panic of the indexing operator. */
    method Get(index: nat) returns (r: Option<T>)
      requires Valid()
      ensures r == if index < |Contents()| then Some(Contents()[index]) else None
    {
      var w := WrapIndex(index);
      match w
      case Some(x) => r := Some(buffer[x]);
      case None => r := None;
    }

    /** Writing through get_mut. */
    method Put(index: nat, data: T)
      requires Valid() && index < |Contents()|
      modifies buffer
      ensures Valid() && Contents() == old(Contents())[index := data]
    {
      var w := WrapIndex(index);
      buffer[w.value] := data;
      assert forall i :: 0 <= i < Size() && i != index ==> Slot(i) != Slot(index);
    }

    method TryPeek() returns (r: Option<T>)
      requires Valid()
      ensures r == if Contents() == [] then None else Some(Contents()[0])
    {
      r := if !empty then Some(buffer[first]) else None;
    }

    method TryPush(data: T) returns (ok: bool)
      requires Valid()
      modifies this, buffer
      ensures Valid()
      ensures ok <==> |old(Contents())| < buffer.Length
      ensures Contents() == if ok then old(Contents()) + [data] else old(Contents())
    {
      hide Window;
      Shape();
      ok := empty || first != last;
      if ok {
        WindowPush(buffer[..], first, last, empty, data);
        buffer[last] := data;
        last := last + 1;
        if last >= buffer.Length {
          last := 0;
        }
        empty := false;
      }
    }

    method PushForce(data: T) returns (forced: bool)
      requires Valid()
      modifies this, buffer
      ensures Valid()
      ensures forced <==> |old(Contents())| == buffer.Length
      ensures Contents() == (if forced then old(Contents())[1..] else old(Contents())) + [data]
    {
      hide Window;
      Shape();
      ghost var b := buffer[..];
      if !empty && first == last {
        WindowForce(b, first, data);
      } else {
        WindowPush(b, first, last, empty, data);
      }
      forced := false;
      buffer[last] := data;
      assert buffer[..] == b[last := data];
      if !empty && first == last {
        forced := true;
        first := first + 1;
        if first >= buffer.Length {
          first := 0;
        }
      }
      last := last + 1;
      if last >= buffer.Length {
        last := 0;
      }
      empty := false;
    }

    method TryPop() returns (r: Option<T>)
      requires Valid()
      modifies this
      ensures Valid()
      ensures old(Contents()) == [] ==> r == None && Contents() == []
      ensures old(Contents()) != [] ==> r == Some(old(Contents())[0]) && Contents() == old(Contents())[1..]
    {
      if !empty {
        r := Some(buffer[first]);
        first := first + 1;
        if first >= buffer.Length {
          first := 0;
        }
        if first == last {
          empty := true;
        }
      } else {
        r := None;
      }
    }

    /** The buffer is full exactly if it is not empty and its ends have met. */
    lemma Shape()
      requires Valid()
      ensures |Contents()| == 0 <==> empty
      ensures |Contents()| == buffer.Length <==> !empty && first == last
    {
    }

    /** insert_force; pos beyond the length is its panic. A full buffer loses its oldest element; the new
        one is at pos, or at the end if pos was the length. */
    method InsertForce(pos: nat, data: T) returns (forced: bool)
      requires Valid() && pos <= |Contents()|
      modifies this, buffer
      ensures Valid()
      ensures forced <==> |old(Contents())| == buffer.Length
      ensures !forced ==> Contents() == old(Contents()[..pos]) + [data] + old(Contents()[pos..])
      ensures forced && pos < buffer.Length ==>
                Contents() == old(Contents()[1..pos + 1]) + [data] + old(Contents()[pos + 1..])
      ensures forced && pos == buffer.Length ==> Contents() == old(Contents()[1..]) + [data]
    {
      hide Contents, Valid, Size, Slot;
      ghost var s := Contents();
      var len := Len();
      Shape();
      if empty || pos == len {
        forced := PushForce(data);
        assert s == s[..pos] && s[pos..] == [];
      } else if first != last {
        var ok := TryPush(data);
        ShiftUp(pos, len);
        Put(pos, data);
        assert Contents() == s[..pos] + [data] + s[pos..];
        forced := false;
      } else {
        ShiftDown(pos);
        Put(pos, data);
        assert Contents() == s[1..pos + 1] + [data] + s[pos + 1..];
        forced := true;
      }
    }

    /** The loop that makes a gap at pos in a buffer that was not full. */
    method ShiftUp(pos: nat, len: nat)
      requires Valid() && pos < len && |Contents()| == len + 1
      modifies buffer
      ensures Valid() && |Contents()| == len + 1
      ensures Contents()[..pos] == old(Contents()[..pos])
      ensures Contents()[pos + 1..] == old(Contents()[pos..len])
    {
      hide Contents, Valid, Size, Slot;
      ghost var s := Contents();
      var i := len;
      while i > pos
        invariant pos <= i <= len
        invariant Valid() && |Contents()| == len + 1
        invariant forall k :: 0 <= k <= i ==> k < len ==> Contents()[k] == s[k]
        invariant forall k :: i < k <= len ==> Contents()[k] == s[k - 1]
      {
        i := i - 1;
        var x := Get(i);
        Put(i + 1, x.value);
      }
    }

    /** The loop that closes the gap the oldest element leaves in a full buffer. */
    method ShiftDown(pos: nat)
      requires Valid() && pos < |Contents()|
      modifies buffer
      ensures Valid() && |Contents()| == |old(Contents())|
      ensures Contents()[..pos] == old(Contents()[1..pos + 1])
      ensures Contents()[pos + 1..] == old(Contents()[pos + 1..])
    {
      hide Contents, Valid, Size, Slot;
      ghost var s := Contents();
      var i := 0;
      while i < pos
        invariant 0 <= i <= pos
        invariant Valid() && |Contents()| == |s|
        invariant forall k :: 0 <= k < i ==> Contents()[k] == s[k + 1]
        invariant forall k :: i <= k < |s| ==> Contents()[k] == s[k]
      {
        var x := Get(i + 1);
        Put(i, x.value);
        i := i + 1;
      }
    }
  }
}
