// The fixed-capacity circular buffer (internal/store/ring.go).
module Rings {
  import opened Common

  lemma WrapMod(i: nat, cap: nat)
    requires 0 < cap && i < 2 * cap
    ensures i % cap == if i < cap then i else i - cap
  {
    if i >= cap {
      assert i % cap == (i - cap) % cap;
    }
  }

  /** The count newest cells of a circular buffer whose next write goes to head, oldest first. */
  ghost function Window<T>(b: seq<T>, head: nat, count: nat): (s: seq<T>)
    requires head <= |b| && count <= |b|
    ensures |s| == count
  {
    if count <= head then b[head - count..head] else b[head - count + |b|..] + b[..head]
  }

  function Advance(head: nat, cap: nat): nat { if head + 1 == cap then 0 else head + 1 }

  lemma WindowGrows<T>(b: seq<T>, head: nat, count: nat, v: T)
    requires head < |b| && count < |b|
    ensures Window(b[head := v], Advance(head, |b|), count + 1) == Window(b, head, count) + [v]
  {
    var b', w := b[head := v], Window(b, head, count);
    assert Window(b', Advance(head, |b|), count + 1)[count] == v;
    forall i | 0 <= i < count ensures Window(b', Advance(head, |b|), count + 1)[i] == w[i] {}
  }

  lemma WindowSlides<T>(b: seq<T>, head: nat, v: T)
    requires head < |b|
    ensures Window(b[head := v], Advance(head, |b|), |b|) == Window(b, head, |b|)[1..] + [v]
  {
    assert head > 0 ==> Window(b, head, |b|) == b[head..] + b[..head];
  }

  /** Writing at head and advancing it appends to the window, dropping the oldest when it is full. */
  lemma WindowPush<T>(b: seq<T>, head: nat, count: nat, v: T)
    requires head < |b| && count <= |b|
    ensures Window(b[head := v], Advance(head, |b|), if count < |b| then count + 1 else count)
         == LastN(Window(b, head, count) + [v], |b|)
  {
    if count < |b| {
      WindowGrows(b, head, count, v);
    } else {
      WindowSlides(b, head, v);
      var w := Window(b, head, |b|);
      assert (w + [v])[1..] == w[1..] + [v];
    }
  }

  class Ring<T(0)> {
    const buf: array<T>
    var head: nat   // next write index
    var count: nat  // number of valid entries
    const cap: nat

    ghost predicate Valid()
      reads this, buf
    {
      buf.Length == cap && head < cap && count <= cap
    }

    /** What the ring holds, oldest first. */
    ghost function Contents(): (s: seq<T>)
      requires Valid()
      reads this, buf
      ensures |s| == count
    {
      Window(buf[..], head, count)
    }

    constructor (capacity: int)
      ensures Valid() && fresh(buf)
      ensures cap == if capacity < 1 then 1 else capacity
      ensures Contents() == []
    {
      var c: nat := if capacity < 1 then 1 else capacity;
      buf := new T[c];
      cap := c;
      head, count := 0, 0;
    }

    method Push(v: T)
      requires Valid()
      modifies this`head, this`count, buf
      ensures Valid()
      ensures Contents() == LastN(old(Contents()) + [v], cap)
    {
      WindowPush(buf[..], head, count, v);
      buf[head] := v;
      WrapMod(head + 1, cap);
      head := (head + 1) % cap;
      if count < cap {
        count := count + 1;
      }
    }

    /** Copies the ring out oldest to newest. */
    method Slice() returns (out: seq<T>)
      requires Valid()
      ensures out == Contents()
    {
      out := [];
      if count == 0 { return; }
      WrapMod(head - count + cap, cap);
      var start := (head - count + cap) % cap;
      for i := 0 to count
        invariant |out| == i && forall j :: 0 <= j < i ==> out[j] == Contents()[j]
      {
        WrapMod(start + i, cap);
        out := out + [buf[(start + i) % cap]];
      }
    }

    method Len() returns (n: nat)
      requires Valid()
      ensures n == |Contents()|
    {
      n := count;
    }
  }

  /** The contents after pushing every element of s into an empty ring, one at a time. */
  function Pushed<T>(s: seq<T>, cap: nat): seq<T> {
    if s == [] then [] else LastN(Pushed(s[..|s| - 1], cap) + [s[|s| - 1]], cap)
  }

  /** A ring is exactly a window on the newest cap elements ever pushed. */
  lemma {:induction false} PushedIsWindow<T>(s: seq<T>, cap: nat)
    requires 0 < cap
    ensures Pushed(s, cap) == LastN(s, cap)
  {
    if s != [] {
      var s' := s[..|s| - 1];
      PushedIsWindow(s', cap);
      LastNPush(s', s[|s| - 1], cap);
      assert s == s' + [s[|s| - 1]];
    }
  }
}
