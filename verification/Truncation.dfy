/** What bytes behind a payload can change: nothing, unless the payload ends before its object does. */
module Truncation {
  import opened Bytes
  import opened Tags
  import opened Decoder
  import opened Walks

  // ----- What does not depend on them -----

  lemma HeadKept(data: seq<byte>, trailing: seq<byte>, pos: nat)
    requires !ReadHead(data, pos).Short?
    ensures ReadHead(data + trailing, pos) == ReadHead(data, pos)
  {
    var more := data + trailing;
    assert more[pos] == data[pos];
    if ReadHead(data, pos).Tagged? {
      var size := ReadHead(data, pos).size;
      assert more[pos..pos + size] == data[pos..pos + size];
      HeadLocal(data, pos, more, pos);
    }
  }

  lemma GotKept(data: seq<byte>, trailing: seq<byte>, pos: nat)
    requires Decode(data, pos).Got?
    ensures Decode(data + trailing, pos) == Decode(data, pos)
  {
    hide Decode;
    var next := Decode(data, pos).next;
    assert (data + trailing)[pos..next] == data[pos..next];
    DecodeLocal(data, pos, data + trailing, pos);
  }

  /** An object is what it is, and a bad lead byte is in the way, whatever follows. */
  lemma {:induction false} DecodeKept(data: seq<byte>, trailing: seq<byte>, pos: nat)
    requires Decode(data, pos) != NoValue(Io)
    ensures Decode(data + trailing, pos) == Decode(data, pos)
    decreases |data| - pos, 0, 0
  {
    hide ReadHead, Decode, DecodeAll;
    if Decode(data, pos).Got? {
      GotKept(data, trailing, pos);
    } else if pos <= |data| {
      DecodeHead(data, pos);
      DecodeHead(data + trailing, pos);
      HeadKept(data, trailing, pos);
      match ReadHead(data, pos) {
        case Rejected(_) =>
        case Tagged(tag, size) => DecodeAllKept(data, trailing, pos + size + PayloadSize(tag), ChildCount(tag));
      }
    } else {
      PastTheEnd(data, pos);
    }
  }

  lemma PastTheEnd(data: seq<byte>, pos: nat)
    requires pos >= |data|
    ensures Decode(data, pos) == NoValue(Io)
  {
  }

  lemma {:induction false} DecodeAllKept(data: seq<byte>, trailing: seq<byte>, pos: nat, n: nat)
    requires pos <= |data| && DecodeAll(data, pos, n) != NoValues(Io)
    ensures DecodeAll(data + trailing, pos, n) == DecodeAll(data, pos, n)
    decreases |data| - pos, 1, n
  {
    hide Decode;
    if n > 0 {
      DecodeKept(data, trailing, pos);
      if Decode(data, pos).Got? {
        DecodeAllKept(data, trailing, Decode(data, pos).next, n - 1);
      }
    }
  }

  // ----- How to complete a truncated object -----

  const NIL: byte := 0xc0

  function Nils(n: nat): (nils: seq<byte>)
    ensures |nils| == n && forall k :: 0 <= k < n ==> nils[k] == NIL
  {
    seq(n, _ => NIL)
  }

  /** As many nils as there are objects missing are those objects. */
  lemma {:induction false} NilsDecode(data: seq<byte>, pos: nat, n: nat)
    requires pos + n == |data| && forall k :: pos <= k < |data| ==> data[k] == NIL
    ensures DecodeAll(data, pos, n).GotAll? && DecodeAll(data, pos, n).next == |data|
    decreases n
  {
    if n == 0 {
      DecodeNothing(data, pos);
    } else {
      NilDecodes(data, pos);
      NilsDecode(data, pos + 1, n - 1);
      hide Decode, DecodeAll;
      DecodeAllCons(data, pos, n);
    }
  }

  lemma NilDecodes(data: seq<byte>, pos: nat)
    requires pos < |data| && data[pos] == NIL
    ensures Decode(data, pos) == Got(NilV, pos + 1)
  {
    assert ReadHead(data, pos) == Tagged(Nil, 1);
    DecodeNothing(data, pos + 1);
  }

  /** Behind its tag an object is completed by its payload and a nil for each child. */
  lemma CompleteTagged(data: seq<byte>, pos: nat) returns (t: seq<byte>)
    requires var head := ReadHead(data, pos); head.Tagged? && pos + head.size + PayloadSize(head.tag) >= |data|
    ensures Decode(data + t, pos).Got? && Decode(data + t, pos).next == |data + t|
  {
    hide ReadHead, Decode, DecodeAll;
    var head := ReadHead(data, pos);
    var rest := pos + head.size + PayloadSize(head.tag);
    t := Nils(rest - |data| + ChildCount(head.tag));
    HeadKept(data, t, pos);
    NilsDecode(data + t, rest, ChildCount(head.tag));
    DecodeHead(data + t, pos);
  }

  /** What is missing of a tag can be anything. */
  lemma CompleteHead(data: seq<byte>, pos: nat) returns (t: seq<byte>)
    requires pos < |data| && ReadHead(data, pos).Short?
    ensures ReadHead(data + t, pos).Tagged? && pos + ReadHead(data + t, pos).size == |data + t|
  {
    var width := Classify(data[pos]).width;
    t := Nils(pos + 1 + width - |data|);
    assert (data + t)[pos] == data[pos];
  }

  lemma {:induction false} Complete(data: seq<byte>, pos: nat) returns (t: seq<byte>)
    requires pos <= |data| && Decode(data, pos) == NoValue(Io)
    ensures Decode(data + t, pos).Got? && Decode(data + t, pos).next == |data + t|
    decreases |data| - pos, 0, 0
  {
    hide ReadHead, Decode, DecodeAll;
    DecodeHead(data, pos);
    var head := ReadHead(data, pos);
    if pos == |data| {
      t := [NIL];
      NilDecodes(data + t, pos);
    } else if head.Short? {
      var h := CompleteHead(data, pos);
      var u := CompleteTagged(data + h, pos);
      t := h + u;
      assert data + h + u == data + t;
    } else {
      var rest := pos + head.size + PayloadSize(head.tag);
      if rest > |data| {
        t := CompleteTagged(data, pos);
      } else {
        t := CompleteAll(data, rest, ChildCount(head.tag));
        HeadKept(data, t, pos);
        DecodeHead(data + t, pos);
      }
    }
  }

  lemma {:induction false} CompleteAll(data: seq<byte>, pos: nat, n: nat) returns (t: seq<byte>)
    requires pos <= |data| && DecodeAll(data, pos, n) == NoValues(Io)
    ensures DecodeAll(data + t, pos, n).GotAll? && DecodeAll(data + t, pos, n).next == |data + t|
    decreases |data| - pos, 1, n
  {
    hide Decode, DecodeAll;
    if n == 0 {
      DecodeNothing(data, pos);
    } else if Decode(data, pos).Got? {
      DecodeAllCons(data, pos, n);
      t := CompleteAll(data, Decode(data, pos).next, n - 1);
      GotKept(data, t, pos);
      DecodeAllCons(data + t, pos, n);
    } else {
      DecodeAllNone(data, pos, n);
      var u := Complete(data, pos);
      t := u + Nils(n - 1);
      assert data + u + Nils(n - 1) == data + t;
      GotKept(data + u, Nils(n - 1), pos);
      NilsDecode(data + t, |data + u|, n - 1);
      DecodeAllCons(data + t, pos, n);
    }
  }

  // ----- The exact condition -----

  /** What a payload decodes to does not depend on what follows it exactly if the payload does not end too early. */
  lemma TrailingMatters(data: seq<byte>)
    ensures (forall t :: Decode(data + t, 0) == Decode(data, 0)) <==> Decode(data, 0) != NoValue(Io)
  {
    hide Decode;
    if Decode(data, 0) == NoValue(Io) {
      var t := Complete(data, 0);
      assert Decode(data + t, 0) != Decode(data, 0);
    } else {
      forall t ensures Decode(data + t, 0) == Decode(data, 0) {
        DecodeKept(data, t, 0);
      }
    }
  }

  // ----- The same of a parse, which gives up sooner -----

  lemma GoesInKept(data: seq<byte>, trailing: seq<byte>, pos: nat, nodes: nat, depth: nat, n: nat, others: nat,
                   poolCount: nat, capacity: nat)
    requires 0 < n && GoesIn(data, pos, nodes, depth, n, others, poolCount, capacity)
    ensures GoesIn(data + trailing, pos, nodes, depth, n, others, poolCount, capacity)
    ensures ReadHead(data + trailing, pos) == ReadHead(data, pos)
  {
    hide ReadHead;
    HeadKept(data, trailing, pos);
  }

  /** A walk that is not short of bytes goes the same way and ends for the same reason, whatever follows. */
  lemma {:induction false} WalkKept(data: seq<byte>, trailing: seq<byte>, pos: nat, nodes: nat, depth: nat, n: nat,
                                    others: nat, poolCount: nat, capacity: nat)
    requires pos <= |data| && Walk(data, pos, nodes, depth, n, others, poolCount, capacity) != Halted(Io)
    ensures Walk(data + trailing, pos, nodes, depth, n, others, poolCount, capacity)
         == Walk(data, pos, nodes, depth, n, others, poolCount, capacity)
    decreases |data| - pos, n
  {
    hide ReadHead, Walk, GoesIn;
    var more := data + trailing;
    if n == 0 {
      WalkNothing(data, pos, nodes, depth, others, poolCount, capacity);
      WalkNothing(more, pos, nodes, depth, others, poolCount, capacity);
    } else if GoesIn(data, pos, nodes, depth, n, others, poolCount, capacity) {
      var head := ReadHead(data, pos);
      GoesInKept(data, trailing, pos, nodes, depth, n, others, poolCount, capacity);
      WalkFirst(data, pos, nodes, depth, n, others, poolCount, capacity);
      WalkFirst(more, pos, nodes, depth, n, others, poolCount, capacity);
      GoesInRoom(data, pos, nodes, depth, n, others, poolCount, capacity);
      var rest, kids := pos + head.size + PayloadSize(head.tag), ChildCount(head.tag);
      WalkKept(data, trailing, rest, nodes + kids, depth + 1, kids, n - 1 + others, poolCount, capacity);
      var inner := Walk(data, rest, nodes + kids, depth + 1, kids, n - 1 + others, poolCount, capacity);
      if inner.Past? {
        WalkKept(data, trailing, inner.next, inner.nodes, depth, n - 1, others, poolCount, capacity);
      }
    } else {
      StopKept(data, trailing, pos, nodes, depth, n, others, poolCount, capacity);
    }
  }

  lemma GoesInRoom(data: seq<byte>, pos: nat, nodes: nat, depth: nat, n: nat, others: nat,
                   poolCount: nat, capacity: nat)
    requires 0 < n && GoesIn(data, pos, nodes, depth, n, others, poolCount, capacity)
    ensures var head := ReadHead(data, pos);
            var rest, kids := pos + head.size + PayloadSize(head.tag), ChildCount(head.tag);
            head.Tagged? && pos < rest && rest + kids + (n - 1) + others <= |data| && nodes + kids <= poolCount
  {
    hide ReadHead;
  }

  lemma StopKept(data: seq<byte>, trailing: seq<byte>, pos: nat, nodes: nat, depth: nat, n: nat, others: nat,
                 poolCount: nat, capacity: nat)
    requires pos <= |data| && 0 < n && !GoesIn(data, pos, nodes, depth, n, others, poolCount, capacity)
    requires Walk(data, pos, nodes, depth, n, others, poolCount, capacity) != Halted(Io)
    ensures Walk(data + trailing, pos, nodes, depth, n, others, poolCount, capacity)
         == Walk(data, pos, nodes, depth, n, others, poolCount, capacity)
  {
    hide ReadHead;
    HeadKept(data, trailing, pos);
  }

  /** Behind the limit there are only nils, and more of them than a parse can come to claim. */
  ghost predicate Padded(data: seq<byte>, limit: nat, poolCount: nat) {
    && limit + 9 + 3 * U32_MAX + poolCount + 1 <= |data|
    && forall k :: limit <= k < |data| ==> data[k] == NIL
  }

  /** A walk over such data is not short of bytes: once behind the limit, every object pending finds its nil. */
  lemma {:induction false} PaddedWalk(data: seq<byte>, limit: nat, pos: nat, nodes: nat, depth: nat, n: nat,
                                      others: nat, poolCount: nat, capacity: nat)
    requires Padded(data, limit, poolCount)
    requires pos + n + others <= |data| && n + others <= nodes <= poolCount + 1
    ensures var walked := Walk(data, pos, nodes, depth, n, others, poolCount, capacity);
            && walked != Halted(Io)
            && (walked.Past? ==> walked.next + others <= |data| && nodes <= walked.nodes <= poolCount + 1)
    decreases |data| - pos, n
  {
    hide ReadHead, Walk, GoesIn, Padded;
    if n == 0 {
      WalkNothing(data, pos, nodes, depth, others, poolCount, capacity);
    } else if GoesIn(data, pos, nodes, depth, n, others, poolCount, capacity) {
      var head := ReadHead(data, pos);
      WalkFirst(data, pos, nodes, depth, n, others, poolCount, capacity);
      GoesInRoom(data, pos, nodes, depth, n, others, poolCount, capacity);
      var rest, kids := pos + head.size + PayloadSize(head.tag), ChildCount(head.tag);
      PaddedWalk(data, limit, rest, nodes + kids, depth + 1, kids, n - 1 + others, poolCount, capacity);
      var inner := Walk(data, rest, nodes + kids, depth + 1, kids, n - 1 + others, poolCount, capacity);
      if inner.Past? {
        PaddedWalk(data, limit, inner.next, inner.nodes, depth, n - 1, others, poolCount, capacity);
      }
    } else {
      PaddedStop(data, limit, pos, nodes, depth, n, others, poolCount, capacity);
    }
  }

  lemma PaddedStop(data: seq<byte>, limit: nat, pos: nat, nodes: nat, depth: nat, n: nat, others: nat,
                   poolCount: nat, capacity: nat)
    requires Padded(data, limit, poolCount) && 0 < n
    requires pos + n + others <= |data| && n + others <= nodes <= poolCount + 1
    requires !GoesIn(data, pos, nodes, depth, n, others, poolCount, capacity)
    ensures Walk(data, pos, nodes, depth, n, others, poolCount, capacity).Halted?
    ensures Walk(data, pos, nodes, depth, n, others, poolCount, capacity) != Halted(Io)
  {
    hide ReadHead;
    PaddedHead(data, limit, pos, poolCount);
  }

  /** A tag is there, or a bad lead byte, and there is room for what the tag can claim. */
  lemma PaddedHead(data: seq<byte>, limit: nat, pos: nat, poolCount: nat)
    requires Padded(data, limit, poolCount) && pos < |data|
    ensures var head := ReadHead(data, pos);
            && !head.Short?
            && (limit <= pos ==> head == Tagged(Nil, 1))
            && (pos < limit && head.Tagged? ==>
                  pos + head.size + PayloadSize(head.tag) + ChildCount(head.tag) + poolCount + 1 <= |data|)
  {
    if limit <= pos {
      assert data[pos] == NIL;
    }
  }

  lemma ParseKept(data: seq<byte>, trailing: seq<byte>, poolCount: nat, capacity: nat)
    requires Parsed(data, poolCount, capacity) != Halted(Io)
    ensures Parsed(data + trailing, poolCount, capacity) == Parsed(data, poolCount, capacity)
    ensures Outcome(data + trailing, poolCount, capacity) == Outcome(data, poolCount, capacity)
  {
    hide Walk;
    WalkKept(data, trailing, 0, 1, 1, 1, 0, poolCount, capacity);
  }

  /** A parse goes the same way whatever follows the data exactly if it is not short of bytes. */
  lemma TrailingMattersToParse(data: seq<byte>, poolCount: nat, capacity: nat)
    ensures (forall t :: Parsed(data + t, poolCount, capacity) == Parsed(data, poolCount, capacity))
       <==> Parsed(data, poolCount, capacity) != Halted(Io)
  {
    hide Walk;
    if Parsed(data, poolCount, capacity) == Halted(Io) {
      var t := Nils(9 + 3 * U32_MAX + poolCount + 1);
      assert Padded(data + t, |data|, poolCount);
      PaddedWalk(data + t, |data|, 0, 1, 1, 1, 0, poolCount, capacity);
      assert Parsed(data + t, poolCount, capacity) != Parsed(data, poolCount, capacity);
    } else {
      forall t ensures Parsed(data + t, poolCount, capacity) == Parsed(data, poolCount, capacity) {
        ParseKept(data, t, poolCount, capacity);
      }
    }
  }
}
