/**
  How a parse ends, told without its stack: the walk of a recursive decoder that also keeps the
  parser's accounts, so that it stops where the parser stops and for the same reason.
 */
module Walks {
  import opened Bytes
  import opened Tags
  import opened Decoder
  import opened Parser

  /** Where the walk has come and the nodes handed out by then, or why it has ended: Io for want of bytes. */
  datatype Walked = Past(next: nat, nodes: nat) | Halted(error: Error)

  /**
    The n objects from pos on, at a depth, with others pending behind them and some nodes handed out
    already. A container claims a byte for each of its children, a node for each, and a level.
   */
  function Walk(data: seq<byte>, pos: nat, nodes: nat, depth: nat, n: nat, others: nat, poolCount: nat, capacity: nat)
    : (r: Walked)
    requires pos <= |data|
    ensures r.Past? ==> pos + n <= r.next <= |data|
    ensures r.Halted? ==> r.error in {Io, Invalid, Unsupported, Undefined, TooBig}
    decreases |data| - pos, n
  {
    if n == 0 then Past(pos, nodes)
    else match ReadHead(data, pos)
      case Short => Halted(Io)
      case Rejected(error) => Halted(error)
      case Tagged(tag, size) =>
        var rest, kids := pos + size + PayloadSize(tag), ChildCount(tag);
        if rest + kids + (n - 1) + others > |data| then Halted(Io)
        else if nodes + kids > poolCount || (kids > 0 && depth == capacity) then Halted(TooBig)
        else
          var inner := Walk(data, rest, nodes + kids, depth + 1, kids, n - 1 + others, poolCount, capacity);
          if inner.Halted? then inner
          else Walk(data, inner.next, inner.nodes, depth, n - 1, others, poolCount, capacity)
  }

  /** The walk of a whole parse. */
  function Parsed(data: seq<byte>, poolCount: nat, capacity: nat): Walked {
    Walk(data, 0, 1, 1, 1, 0, poolCount, capacity)
  }

  /** The error a parse of data ends with: Ok, or why it stopped, where missing bytes make the data invalid. */
  function Outcome(data: seq<byte>, poolCount: nat, capacity: nat): (error: Error)
    ensures error in {Ok, Invalid, Unsupported, Undefined, TooBig}
  {
    match Parsed(data, poolCount, capacity)
    case Past(_, _) => Ok
    case Halted(error) => if error == Io then Invalid else error
  }

  /** The parse comes to a lead byte 0xca or 0xcb as the tag of a node, for which its switch has no answer. */
  predicate MeetsUndefined(data: seq<byte>, poolCount: nat, capacity: nat) {
    Outcome(data, poolCount, capacity) == Undefined
  }

  // ----- The parser walks -----

  /** What is left of the walk when the levels of a stack are left, from the innermost one on. */
  function WalkLevels(data: seq<byte>, pos: nat, nodes: nat, stack: seq<Level>, poolCount: nat, capacity: nat): Walked
    requires pos <= |data|
    decreases |stack|
  {
    if stack == [] then Past(pos, nodes)
    else
      var below := stack[..|stack| - 1];
      var walked := Walk(data, pos, nodes, |stack|, Top(stack).left, Pending(below), poolCount, capacity);
      if walked.Halted? then walked
      else WalkLevels(data, walked.next, walked.nodes, below, poolCount, capacity)
  }

  /** How the parse goes on from where it is. */
  function Ahead(data: seq<byte>, p: Progress, capacity: nat): Walked
    requires p.size <= |data|
  {
    WalkLevels(data, p.size, p.next, p.stack, |p.pool|, capacity)
  }

  lemma LevelsTop(data: seq<byte>, pos: nat, nodes: nat, below: seq<Level>, level: Level, poolCount: nat, capacity: nat)
    requires pos <= |data|
    ensures WalkLevels(data, pos, nodes, below + [level], poolCount, capacity) ==
      (var walked := Walk(data, pos, nodes, |below| + 1, level.left, Pending(below), poolCount, capacity);
       if walked.Halted? then walked else WalkLevels(data, walked.next, walked.nodes, below, poolCount, capacity))
  {
    hide Walk, Pending;
    assert (below + [level])[..|below|] == below;
  }

  /** The walk gets past the tag at pos, into the object's children. */
  predicate GoesIn(data: seq<byte>, pos: nat, nodes: nat, depth: nat, n: nat, others: nat,
                   poolCount: nat, capacity: nat)
    requires 0 < n
  {
    var head := ReadHead(data, pos);
    && head.Tagged?
    && var kids := ChildCount(head.tag);
       && pos + head.size + PayloadSize(head.tag) + kids + (n - 1) + others <= |data|
       && nodes + kids <= poolCount && (kids == 0 || depth != capacity)
  }

  /** The first of some objects is walked, with its children, and then the others are. */
  lemma WalkFirst(data: seq<byte>, pos: nat, nodes: nat, depth: nat, n: nat, others: nat, poolCount: nat, capacity: nat)
    requires pos <= |data| && 0 < n && GoesIn(data, pos, nodes, depth, n, others, poolCount, capacity)
    ensures var head := ReadHead(data, pos);
            var rest, kids := pos + head.size + PayloadSize(head.tag), ChildCount(head.tag);
            var inner := Walk(data, rest, nodes + kids, depth + 1, kids, n - 1 + others, poolCount, capacity);
            Walk(data, pos, nodes, depth, n, others, poolCount, capacity) ==
              (if inner.Halted? then inner
               else Walk(data, inner.next, inner.nodes, depth, n - 1, others, poolCount, capacity))
  {
    hide ReadHead;
  }

  /** Otherwise it ends there: for want of bytes, beyond a limit, or at a bad lead byte, with that byte's error. */
  lemma WalkStops(data: seq<byte>, pos: nat, nodes: nat, depth: nat, n: nat, others: nat, poolCount: nat, capacity: nat)
    requires pos <= |data| && 0 < n && !GoesIn(data, pos, nodes, depth, n, others, poolCount, capacity)
    ensures var walked := Walk(data, pos, nodes, depth, n, others, poolCount, capacity);
            && walked.Halted?
            && (walked.error !in {Io, TooBig} ==> ReadHead(data, pos) == Rejected(walked.error))
            && (ReadHead(data, pos).Rejected? ==> walked.error == ReadHead(data, pos).error)
  {
    hide ReadHead;
  }

  lemma WalkNothing(data: seq<byte>, pos: nat, nodes: nat, depth: nat, others: nat, poolCount: nat, capacity: nat)
    requires pos <= |data|
    ensures Walk(data, pos, nodes, depth, 0, others, poolCount, capacity) == Past(pos, nodes)
  {
  }

  lemma StepWalks(data: seq<byte>, p: Progress, capacity: nat, tag: Tag, headSize: nat)
    requires Steps(data, p, capacity, tag, headSize)
    ensures Advance(p, tag, headSize).size <= |data|
    ensures Ahead(data, p, capacity) == Ahead(data, Advance(p, tag, headSize), capacity)
  {
    hide ReadHead, Walk, WalkLevels, Pending, Within;
    StepRoom(data, p, capacity, tag, headSize);
    var below, top, kids := p.stack[..|p.stack| - 1], Top(p.stack), ChildCount(tag);
    var level := Level(top.child + 1, top.left - 1);
    var rest := p.size + headSize + PayloadSize(tag);
    assert p.stack == below + [top];
    PendingPush(below, top);
    PendingPush(below, level);
    LevelsTop(data, p.size, p.next, below, top, |p.pool|, capacity);
    var inner := Walk(data, rest, p.next + kids, |p.stack| + 1, kids, Pending(below + [level]), |p.pool|, capacity);
    WalkFirst(data, p.size, p.next, |p.stack|, top.left, Pending(below), |p.pool|, capacity);
    if inner.Past? {
      LevelsTop(data, inner.next, inner.nodes, below, level, |p.pool|, capacity);
    }
    if kids > 0 {
      LevelsTop(data, rest, p.next + kids, below + [level], Level(p.next, kids), |p.pool|, capacity);
    } else {
      WalkNothing(data, rest, p.next, |p.stack| + 1, Pending(below + [level]), |p.pool|, capacity);
    }
  }

  lemma {:induction false} PopWalks(data: seq<byte>, p: Progress, capacity: nat)
    requires p.size <= |data| && p.stack != []
    ensures Ahead(data, p.(stack := Popped(p.stack)), capacity) == Ahead(data, p, capacity)
    decreases |p.stack|
  {
    hide Pending;
    if Top(p.stack).left == 0 && |p.stack| > 1 {
      var q := p.(stack := p.stack[..|p.stack| - 1]);
      PopWalks(data, q, capacity);
      assert q.(stack := Popped(q.stack)) == p.(stack := Popped(p.stack));
    }
  }

  /** The error of a parse that stops at a node; Ok from the node's own checks means that bytes are missing. */
  lemma StopWalks(data: seq<byte>, p: Progress, capacity: nat)
    requires AtNode(data, p, capacity)
    requires NodeEffect(data, p.size, p.possible, |p.pool| - p.next, |p.stack|, capacity).Stop?
    ensures var e := NodeEffect(data, p.size, p.possible, |p.pool| - p.next, |p.stack|, capacity).error;
            e != Io && Ahead(data, p, capacity) == Halted(if e == Ok then Io else e)
  {
    hide Classify, Within;
    var below := p.stack[..|p.stack| - 1];
    assert p.stack == below + [Top(p.stack)];
    PendingPush(below, Top(p.stack));
  }

  lemma StartWalks(data: seq<byte>, p: Progress, capacity: nat)
    requires Started(data, p)
    ensures Ahead(data, p, capacity) == Walk(data, 0, 1, 1, 1, 0, |p.pool|, capacity)
  {
    hide Walk;
    AheadRoot(data, p, capacity);
  }

  lemma AheadRoot(data: seq<byte>, p: Progress, capacity: nat)
    requires p.size <= |data| && |p.stack| == 1
    ensures Ahead(data, p, capacity) == Walk(data, p.size, p.next, 1, Top(p.stack).left, 0, |p.pool|, capacity)
  {
    hide Walk;
    assert p.stack[..0] == [];
    var walked := Walk(data, p.size, p.next, 1, Top(p.stack).left, 0, |p.pool|, capacity);
    if walked.Past? {
      assert WalkLevels(data, walked.next, walked.nodes, [], |p.pool|, capacity) == walked;
    }
  }

  lemma FinishWalks(data: seq<byte>, p: Progress, capacity: nat)
    requires p.size <= |data| && |p.stack| == 1 && Top(p.stack).left == 0
    ensures Ahead(data, p, capacity) == Past(p.size, p.next)
  {
    AheadRoot(data, p, capacity);
  }

  // ----- When the walk gets through -----

  /** From any point of a parse, what is ahead gets through exactly if the data holds an object within the limits. */
  lemma {:induction false} AheadFits(data: seq<byte>, p: Progress, capacity: nat, want: seq<Value>, parsed: set<nat>,
                                     visited: nat)
    requires AtNode(data, p, capacity) && OnTrack(data, p, capacity, want, parsed, visited)
    ensures Ahead(data, p, capacity).Past? <==> Fits(data, |p.pool|, capacity)
    decreases |data| - p.size
  {
    hide NodeEffect, Fits, Decode, OnTrack, Advance, Popped, Represents, Separated, Pending, Ahead;
    var effect := NodeEffect(data, p.size, p.possible, |p.pool| - p.next, |p.stack|, capacity);
    match effect {
      case Stop(_) =>
        StopsOnTrack(data, p, capacity, want, parsed, visited);
        StopWalks(data, p, capacity);
      case Node(tag, headSize) =>
        StepRoom(data, p, capacity, tag, headSize);
        var items := StepsOnTrack(data, p, capacity, tag, headSize, want, parsed, visited);
        var after := Advance(p, tag, headSize);
        var q := after.(stack := Popped(after.stack));
        StepWalks(data, p, capacity, tag, headSize);
        PopWalks(data, after, capacity);
        SamePool(p, tag, headSize);
        if Top(q.stack).left == 0 {
          FinishesOnTrack(data, q, capacity, want + items, parsed + {Top(p.stack).child}, visited + 1);
          FinishWalks(data, q, capacity);
        } else {
          AheadFits(data, q, capacity, want + items, parsed + {Top(p.stack).child}, visited + 1);
        }
    }
  }

  lemma SamePool(p: Progress, tag: Tag, headSize: nat)
    requires p.stack != [] && Top(p.stack).left > 0 && Top(p.stack).child < |p.pool|
    requires 1 <= headSize && headSize - 1 + PayloadSize(tag) + ChildCount(tag) <= p.possible
    ensures var q := Advance(p, tag, headSize);
            |q.pool| == |p.pool| && q.stack != [] && (Top(Popped(q.stack)).left > 0 || |Popped(q.stack)| == 1)
  {
  }

  /** A parse ends without an error exactly on an object within the limits; none of those meets the undefined bytes. */
  lemma OutcomeOk(data: seq<byte>, poolCount: nat, capacity: nat)
    requires 1 <= poolCount && 1 <= capacity
    ensures Outcome(data, poolCount, capacity) == Ok <==> Fits(data, poolCount, capacity)
  {
    hide Fits, Walk, WalkLevels, OnTrack, Decode;
    if data == [] {
      NothingDecodes(data, poolCount, capacity);
    } else {
      var p := Progress(0, |data| - 1, 1, [Level(0, 1)], seq(poolCount, _ => Unset));
      StartsOnTrack(data, p, capacity);
      AheadFits(data, p, capacity, RootValues(data), {}, 0);
      StartWalks(data, p, capacity);
    }
  }

  lemma NothingDecodes(data: seq<byte>, poolCount: nat, capacity: nat)
    requires data == []
    ensures !Fits(data, poolCount, capacity) && Outcome(data, poolCount, capacity) == Invalid
  {
  }

  // ----- When it meets the undefined bytes -----

  /** Where the walk ends at a bad lead byte, so does the decoder without limits. */
  lemma {:induction false} WalkDecodes(data: seq<byte>, pos: nat, nodes: nat, depth: nat, n: nat, others: nat,
                                       poolCount: nat, capacity: nat)
    requires pos <= |data|
    ensures match Walk(data, pos, nodes, depth, n, others, poolCount, capacity)
            case Past(next, _) => DecodeAll(data, pos, n).GotAll? && DecodeAll(data, pos, n).next == next
            case Halted(e) => e !in {Io, TooBig} ==> DecodeAll(data, pos, n) == NoValues(e)
    decreases |data| - pos, n
  {
    hide ReadHead, Walk, Decode, DecodeAll;
    if n == 0 {
      WalkNothing(data, pos, nodes, depth, others, poolCount, capacity);
      DecodeNothing(data, pos);
    } else if GoesIn(data, pos, nodes, depth, n, others, poolCount, capacity) {
      var head := ReadHead(data, pos);
      var rest, kids := pos + head.size + PayloadSize(head.tag), ChildCount(head.tag);
      var inner := Walk(data, rest, nodes + kids, depth + 1, kids, n - 1 + others, poolCount, capacity);
      DecodeHead(data, pos);
      WalkFirst(data, pos, nodes, depth, n, others, poolCount, capacity);
      WalkDecodes(data, rest, nodes + kids, depth + 1, kids, n - 1 + others, poolCount, capacity);
      if inner.Past? {
        DecodeAllCons(data, pos, n);
        WalkDecodes(data, inner.next, inner.nodes, depth, n - 1, others, poolCount, capacity);
      } else if inner.error !in {Io, TooBig} {
        DecodeAllNone(data, pos, n);
      }
    } else {
      WalkStops(data, pos, nodes, depth, n, others, poolCount, capacity);
      DecodeHead(data, pos);
      if ReadHead(data, pos).Rejected? {
        DecodeAllNone(data, pos, n);
      }
    }
  }

  /** And where objects are complete, a walk over them can only end beyond a limit. */
  lemma {:induction false} ObjectsWalk(data: seq<byte>, pos: nat, nodes: nat, depth: nat, n: nat, others: nat,
                                       poolCount: nat, capacity: nat)
    requires pos <= |data| && DecodeAll(data, pos, n).GotAll? && DecodeAll(data, pos, n).next + others <= |data|
    ensures var walked := Walk(data, pos, nodes, depth, n, others, poolCount, capacity);
            walked.Past? || walked.error == TooBig
    decreases |data| - pos, n
  {
    hide ReadHead, Walk, Decode, DecodeAll;
    if n == 0 {
      WalkNothing(data, pos, nodes, depth, others, poolCount, capacity);
    } else {
      FirstOfAll(data, pos, n);
      DecodeHead(data, pos);
      DecodeAllCons(data, pos, n);
      var head := ReadHead(data, pos);
      var rest, kids := pos + head.size + PayloadSize(head.tag), ChildCount(head.tag);
      if GoesIn(data, pos, nodes, depth, n, others, poolCount, capacity) {
        WalkFirst(data, pos, nodes, depth, n, others, poolCount, capacity);
        ObjectsWalk(data, rest, nodes + kids, depth + 1, kids, n - 1 + others, poolCount, capacity);
        var inner := Walk(data, rest, nodes + kids, depth + 1, kids, n - 1 + others, poolCount, capacity);
        if inner.Past? {
          WalkDecodes(data, rest, nodes + kids, depth + 1, kids, n - 1 + others, poolCount, capacity);
          ObjectsWalk(data, inner.next, inner.nodes, depth, n - 1, others, poolCount, capacity);
        }
      } else {
        BeyondLimit(data, pos, nodes, depth, n, others, poolCount, capacity);
      }
    }
  }

  lemma FirstOfAll(data: seq<byte>, pos: nat, n: nat)
    requires pos <= |data| && 0 < n && DecodeAll(data, pos, n).GotAll?
    ensures Decode(data, pos).Got?
  {
  }

  lemma BeyondLimit(data: seq<byte>, pos: nat, nodes: nat, depth: nat, n: nat, others: nat,
                    poolCount: nat, capacity: nat)
    requires pos <= |data| && 0 < n && !GoesIn(data, pos, nodes, depth, n, others, poolCount, capacity)
    requires var head := ReadHead(data, pos);
             head.Tagged? && pos + head.size + PayloadSize(head.tag) + ChildCount(head.tag) + (n - 1) + others <= |data|
    ensures Walk(data, pos, nodes, depth, n, others, poolCount, capacity) == Halted(TooBig)
  {
    hide ReadHead;
  }

  /** The error of a parse that is given an object: none, or that it is too big. */
  lemma ObjectOutcome(data: seq<byte>, poolCount: nat, capacity: nat)
    requires 1 <= poolCount && 1 <= capacity && Decode(data, 0).Got?
    ensures Outcome(data, poolCount, capacity) == if Fits(data, poolCount, capacity) then Ok else TooBig
  {
    hide Decode, Walk, Fits;
    DecodeAllCons(data, 0, 1);
    DecodeNothing(data, Decode(data, 0).next);
    ObjectsWalk(data, 0, 1, 1, 1, 0, poolCount, capacity);
    OutcomeOk(data, poolCount, capacity);
  }

  /** A parse that ends at a bad lead byte is given no object, and the decoder ends there, too. */
  lemma BadOutcome(data: seq<byte>, poolCount: nat, capacity: nat)
    ensures var walked := Parsed(data, poolCount, capacity);
            walked.Halted? && walked.error !in {Io, TooBig} ==> Decode(data, 0) == NoValue(walked.error)
  {
    hide Decode, Walk;
    WalkDecodes(data, 0, 1, 1, 1, 0, poolCount, capacity);
    OnlyOne(data);
  }

  /** An undefined parse is one that reaches such a byte, at the very place where the reader would reach it. */
  lemma UndefinedDecodes(data: seq<byte>, poolCount: nat, capacity: nat)
    requires MeetsUndefined(data, poolCount, capacity)
    ensures Decode(data, 0) == NoValue(Undefined)
  {
    hide Decode, Parsed;
    BadOutcome(data, poolCount, capacity);
  }

  lemma OnlyOne(data: seq<byte>)
    ensures DecodeAll(data, 0, 1).NoValues? ==> Decode(data, 0) == NoValue(DecodeAll(data, 0, 1).why)
  {
    hide Decode;
    if Decode(data, 0).Got? {
      DecodeAllCons(data, 0, 1);
      DecodeNothing(data, Decode(data, 0).next);
    }
  }

  ghost predicate HasUndefinedByte(data: seq<byte>) {
    exists k :: 0 <= k < |data| && data[k] in {0xca, 0xcb}
  }

  /** Data without the bytes 0xca and 0xcb never meets them. */
  lemma {:induction false} UndefinedNeedsByte(data: seq<byte>, pos: nat)
    requires Decode(data, pos) == NoValue(Undefined)
    ensures HasUndefinedByte(data)
    decreases |data| - pos, 0, 0
  {
    hide ReadHead;
    match ReadHead(data, pos) {
      case Rejected(_) => RejectedByte(data, pos);
      case Tagged(tag, size) => AllUndefinedNeedsByte(data, pos + size + PayloadSize(tag), ChildCount(tag));
    }
  }

  lemma {:induction false} AllUndefinedNeedsByte(data: seq<byte>, pos: nat, n: nat)
    requires pos <= |data| && DecodeAll(data, pos, n) == NoValues(Undefined)
    ensures HasUndefinedByte(data)
    decreases |data| - pos, 1, n
  {
    hide Decode;
    if Decode(data, pos).Got? {
      AllUndefinedNeedsByte(data, Decode(data, pos).next, n - 1);
    } else {
      UndefinedNeedsByte(data, pos);
    }
  }

  /** In particular, every parse of data without these bytes has an answer. */
  lemma PlainDataHasAnswer(data: seq<byte>, poolCount: nat, capacity: nat)
    requires !HasUndefinedByte(data)
    ensures !MeetsUndefined(data, poolCount, capacity) && Decode(data, 0) != NoValue(Undefined)
  {
    hide Decode, MeetsUndefined;
    if MeetsUndefined(data, poolCount, capacity) {
      UndefinedDecodes(data, poolCount, capacity);
    }
    if Decode(data, 0) == NoValue(Undefined) {
      UndefinedNeedsByte(data, 0);
    }
  }

  lemma RejectedByte(data: seq<byte>, pos: nat)
    ensures ReadHead(data, pos) == Rejected(Undefined) <==> pos < |data| && data[pos] in {0xca, 0xcb}
  {
  }

  /** A received array that holds a float meets them. */
  lemma FloatIsUndefined()
    ensures MeetsUndefined([0x91, 0xca], 50, 32)
    ensures Decode([0x91, 0xca], 0) == NoValue(Undefined)
  {
    var data: seq<byte> := [0x91, 0xca];
    assert ReadHead(data, 0) == Tagged(Array(1), 1) && ReadHead(data, 1) == Rejected(Undefined);
    DecodeAllNone(data, 1, 1);
  }

  /** The reader meets them where the parser, which misses a byte for the second child, has given up before. */
  lemma ReaderMeetsMore()
    ensures Decode([0x92, 0xca], 0) == NoValue(Undefined)
    ensures Outcome([0x92, 0xca], 50, 32) == Invalid
  {
    var data: seq<byte> := [0x92, 0xca];
    assert ReadHead(data, 0) == Tagged(Array(2), 1) && ReadHead(data, 1) == Rejected(Undefined);
    DecodeAllNone(data, 1, 2);
  }
}
