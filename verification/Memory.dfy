/** The memory functions mpack.c brings along for builds without the standard library. */
module Memory {
  import opened Bytes

  /** mpack_memcpy into an array. */
  method MemCpy(dest: array<byte>, at: nat, src: seq<byte>)
    requires at + |src| <= dest.Length
    modifies dest
    ensures dest[at..at + |src|] == src
    ensures dest[..at] == old(dest[..at]) && dest[at + |src|..] == old(dest[at + |src|..])
  {
    var n := 0;
    while n < |src|
      invariant n <= |src|
      invariant forall k :: at <= k < at + n ==> dest[k] == src[k - at]
      invariant forall k :: 0 <= k < at || at + n <= k < dest.Length ==> dest[k] == old(dest[k])
    {
      dest[at + n] := src[n];
      n := n + 1;
    }
  }

  /** The bytes from to on are the count bytes that were from from on, and nothing else has changed. */
  twostate predicate Moved(a: array<byte>, to: nat, from: nat, count: nat)
    requires to + count <= a.Length && from + count <= a.Length
    reads a
  {
    && (forall k :: to <= k < to + count ==> a[k] == old(a[k - to + from]))
    && (forall k :: 0 <= k < to || to + count <= k < a.Length ==> a[k] == old(a[k]))
  }

  /** mpack_memmove within one array: backwards when the ranges overlap that way round, forwards otherwise. */
  method MemMove(a: array<byte>, to: nat, from: nat, count: nat)
    requires to + count <= a.Length && from + count <= a.Length
    modifies a
    ensures a[to..to + count] == old(a[from..from + count])
    ensures a[..to] == old(a[..to]) && a[to + count..] == old(a[to + count..])
  {
    if from < to < from + count {
      MoveBackwards(a, to, from, count);
    } else {
      MoveForwards(a, to, from, count);
    }
  }

  method MoveBackwards(a: array<byte>, to: nat, from: nat, count: nat)
    requires from < to && to + count <= a.Length
    modifies a
    ensures Moved(a, to, from, count)
  {
    var n := count;
    while n != 0
      invariant 0 <= n <= count
      invariant forall k :: to + n <= k < to + count ==> a[k] == old(a[k - to + from])
      invariant forall k :: 0 <= k < to + n || to + count <= k < a.Length ==> a[k] == old(a[k])
    {
      n := n - 1;
      a[to + n] := a[from + n];
    }
  }

  method MoveForwards(a: array<byte>, to: nat, from: nat, count: nat)
    requires (to <= from || from + count <= to) && to + count <= a.Length && from + count <= a.Length
    modifies a
    ensures Moved(a, to, from, count)
  {
    var n := 0;
    while n != count
      invariant 0 <= n <= count
      invariant forall k :: to <= k < to + n ==> a[k] == old(a[k - to + from])
      invariant forall k :: 0 <= k < to || to + n <= k < a.Length ==> a[k] == old(a[k])
      decreases count - n
    {
      a[to + n] := a[from + n];
      n := n + 1;
    }
  }

  /** mpack_memset with zero. */
  method Clear(dest: array<byte>, at: nat, count: nat)
    requires at + count <= dest.Length
    modifies dest
    ensures forall k :: at <= k < at + count ==> dest[k] == 0
    ensures forall k :: 0 <= k < at || at + count <= k < dest.Length ==> dest[k] == old(dest[k])
  {
    var n := 0;
    while n < count
      invariant n <= count
      invariant forall k :: at <= k < at + n ==> dest[k] == 0
      invariant forall k :: 0 <= k < at || at + n <= k < dest.Length ==> dest[k] == old(dest[k])
    {
      dest[at + n] := 0;
      n := n + 1;
    }
  }

  /** The bytes before the first NUL; all of them when there is none. */
  function CStr(memory: seq<byte>): (text: seq<byte>)
    ensures 0 !in text
  {
    if memory == [] || memory[0] == 0 then [] else [memory[0]] + CStr(memory[1..])
  }

  /** A terminated string in memory is shorter than the memory. */
  lemma CStrShorter(memory: seq<byte>)
    requires 0 in memory
    ensures |CStr(memory)| < |memory|
  {
    if memory[0] != 0 {
      assert memory == [memory[0]] + memory[1..];
      CStrShorter(memory[1..]);
    }
  }

  /** What is behind the first NUL does not matter. */
  lemma CStrStops(text: seq<byte>, rest: seq<byte>)
    ensures CStr(text + [0] + rest) == CStr(text)
  {
    if text == [] {
      assert ([] + [0] + rest)[0] == 0;
    } else {
      assert (text + [0] + rest)[1..] == text[1..] + [0] + rest;
      CStrStops(text[1..], rest);
    }
  }

  /** mpack_strlen of a terminated string. */
  method StrLen(memory: seq<byte>) returns (n: nat)
    requires 0 in memory
    ensures n < |memory| && memory[..n] == CStr(memory) && memory[n] == 0
  {
    n := 0;
    while memory[n] != 0
      invariant n < |memory| && 0 in memory[n..]
      invariant CStr(memory) == memory[..n] + CStr(memory[n..])
      decreases |memory| - n
    {
      CStrNext(memory, n);
      n := n + 1;
    }
  }

  lemma CStrNext(memory: seq<byte>, n: nat)
    requires n < |memory| && memory[n] != 0
    ensures memory[..n] + CStr(memory[n..]) == memory[..n + 1] + CStr(memory[n + 1..])
    ensures 0 in memory[n..] ==> 0 in memory[n + 1..]
  {
    assert memory[n..] == [memory[n]] + memory[n + 1..];
    assert memory[..n + 1] == memory[..n] + [memory[n]];
  }
}
