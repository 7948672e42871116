/** The fixed-capacity ring buffer of internal/util/ring_buf.go. */
module RingBuffers {
  import opened Basics

  class RingBuf<T(0)> {
    var start: nat
    var end: int
    var size: nat
    const buf: array<T>

    /** While the buffer fills up it starts at slot 0; once full, `end` trails `start` by one. */
    ghost predicate Valid()
      reads this
    {
      && size <= buf.Length
      && (size < buf.Length || buf.Length == 0 ==> start == 0 && end == size - 1)
      && (size == buf.Length > 0 ==>
            start < buf.Length && end == if start == 0 then buf.Length - 1 else start - 1)
    }

    /** The stored items, oldest first. */
    ghost function Contents(): (s: seq<T>)
      requires Valid()
      reads this, buf
      ensures |s| == size
    {
      if size < buf.Length then buf[..size] else buf[start..] + buf[..start]
    }

    constructor (capacity: nat)
      ensures Valid() && fresh(buf) && buf.Length == capacity && Contents() == []
    {
      start, end, size := 0, -1, 0;
      buf := new T[capacity];
    }

    /** An append keeps exactly the newest `capacity` items. */
    method Add(item: T)
      requires Valid()
      requires buf.Length > 0
      modifies this, buf
      ensures Valid()
      ensures Contents() == LastN(old(Contents()) + [item], buf.Length)
    {
      ghost var was := Contents();
      ModWrap(start + 1, buf.Length);
      ModWrap(end + 1, buf.Length);
      if size == buf.Length {
        start := (start + 1) % buf.Length;
      } else {
        size := size + 1;
      }
      end := (end + 1) % buf.Length;
      buf[end] := item;
      assert |was| == buf.Length ==> LastN(was + [item], buf.Length) == was[1..] + [item];
    }

    /** Slot arithmetic of the Go code: item `i` counted from the oldest one. */
    function Get(i: nat): (x: T)
      requires Valid()
      requires i < size
      reads this, buf
      ensures x == Contents()[i]
    {
      ModWrap(start + i, buf.Length);
      buf[(start + i) % buf.Length]
    }

    /** `count` items from item `from` on. The Go code clamps `count` to the size only, so a request
        that runs past the newest item goes round: the result is the stretch of stored items the
        caller asked for exactly when it does not. */
    method Slice(from: int, count: int) returns (res: seq<T>)
      requires Valid()
      ensures from < 0 || count <= 0 || from >= size ==> res == []
      ensures 0 <= from < size && 0 < count ==>
                |res| == Min(count, size)
                && (from + |res| <= size <==> res == Contents()[from..Min(from + |res|, size)])
                && Contents()[from..Min(from + |res|, size)] <= res
                && (from + |res| > size == buf.Length ==> res == Contents()[from..] + Contents()[..from + |res| - size])
    {
      if size == 0 || from < 0 || count <= 0 || from >= size {
        return [];
      }
      var n := Min(count, size);
      res := [];
      for i := 0 to n
        invariant |res| == i
        invariant forall j :: 0 <= j < i ==> res[j] == buf[(start + from + j) % buf.Length]
      {
        res := res + [buf[(start + from + i) % buf.Length]];
      }
      forall j | 0 <= j < n
        ensures from + j < size ==> res[j] == Contents()[from + j]
        ensures from + j >= size == buf.Length ==> res[j] == Contents()[from + j - size]
      {
        if from + j < size {
          assert res[j] == Get(from + j);
        } else if size == buf.Length {
          ModPeriod(start + from + j, buf.Length);
          assert res[j] == Get(from + j - size);
        }
      }
    }

    method Values() returns (res: seq<T>)
      requires Valid()
      ensures res == Contents()
    {
      res := Slice(0, size);
    }
  }
}
