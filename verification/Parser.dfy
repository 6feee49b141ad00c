/**
  One step of the tree parser, and what every step keeps. The parser has no recursion: it holds a
  stack of levels, each with the children still to be parsed, a pool of nodes handed out from the
  front, and a count of the bytes no open container has claimed yet.
 */
module Parser {
  import opened Bytes
  import opened Tags
  import opened Decoder

  /** mpack_node_data_t: the type, the length and the union. */
  datatype NodeData =
    | Unset
    | NilNode
    | BoolNode(b: bool)
    | IntNode(i: int)
    | UintNode(u: nat)
    | StrNode(len: nat, offset: nat)
    | BinNode(len: nat, offset: nat)
    | ArrayNode(len: nat, children: nat)
    | MapNode(len: nat, children: nat)

  /** mpack_level_t: the next child to parse and how many are left. */
  datatype Level = Level(child: nat, left: nat)

  /** What a parse changes, apart from its error. The levels run from the root to the innermost one. */
  datatype Progress = Progress(size: nat, possible: nat, next: nat, stack: seq<Level>, pool: seq<NodeData>)

  function NodeFor(tag: Tag, offset: nat, children: nat): NodeData {
    match tag
    case Nil => NilNode
    case Bool(b) => BoolNode(b)
    case Int(i) => IntNode(i)
    case Uint(u) => UintNode(u)
    case Str(l) => StrNode(l, offset)
    case Bin(l) => BinNode(l, offset)
    case Array(n) => ArrayNode(n, children)
    case Map(n) => MapNode(n, children)
  }

  /** What parsing one node does: it stops, with Ok when bytes are missing, or yields the node. */
  datatype Effect =
    | Stop(error: Error)
    | Node(tag: Tag, headSize: nat)

  /** The checks of mpack_tree_parse_node_contents, in its order. */
  function NodeEffect(data: seq<byte>, size: nat, possible: nat, room: nat, levels: nat, capacity: nat): (r: Effect) {
    match ReadHead(data, size)
    case Short => Stop(Ok)
    case Rejected(error) => Stop(error)
    case Tagged(tag, headSize) =>
      var kids := ChildCount(tag);
      if headSize - 1 + PayloadSize(tag) + kids > possible then Stop(Ok)
      else if kids > room then Stop(TooBig)
      else if kids > 0 && levels == capacity then Stop(TooBig)
      else Node(tag, headSize)
  }

  // ----- Stacks -----

  /** The children left over all levels. */
  function Pending(stack: seq<Level>): nat {
    if stack == [] then 0 else stack[|stack| - 1].left + Pending(stack[..|stack| - 1])
  }

  lemma PendingPush(stack: seq<Level>, level: Level)
    ensures Pending(stack + [level]) == Pending(stack) + level.left
  {
    assert (stack + [level])[..|stack|] == stack;
  }

  /** The children of every level lie among the first n nodes. */
  ghost predicate Within(stack: seq<Level>, n: nat) {
    forall l :: 0 <= l < |stack| ==> stack[l].child + stack[l].left <= n
  }

  function Top(stack: seq<Level>): Level
    requires stack != []
  {
    stack[|stack| - 1]
  }

  /** The stack after one child of its top level has been parsed into kids children of its own. */
  function Descend(stack: seq<Level>, next: nat, kids: nat): seq<Level>
    requires stack != [] && Top(stack).left > 0
  {
    var parsed := stack[..|stack| - 1] + [Level(Top(stack).child + 1, Top(stack).left - 1)];
    if kids == 0 then parsed else parsed + [Level(next, kids)]
  }

  /** The stack without the finished levels on top; the root level stays. */
  function Popped(stack: seq<Level>): (r: seq<Level>)
    requires stack != []
    ensures 1 <= |r| <= |stack| && r == stack[..|r|] && Pending(r) == Pending(stack)
    ensures Top(r).left > 0 || |r| == 1
  {
    if Top(stack).left == 0 && |stack| > 1 then Popped(stack[..|stack| - 1]) else stack
  }

  /** The progress after a node has been parsed, before finished levels are popped. */
  function Advance(p: Progress, tag: Tag, headSize: nat): Progress
    requires p.stack != [] && Top(p.stack).left > 0 && Top(p.stack).child < |p.pool|
    requires 1 <= headSize && headSize - 1 + PayloadSize(tag) + ChildCount(tag) <= p.possible
  {
    var kids := ChildCount(tag);
    Progress(p.size + headSize + PayloadSize(tag),
             p.possible - (headSize - 1 + PayloadSize(tag) + kids),
             p.next + kids,
             Descend(p.stack, p.next, kids),
             p.pool[Top(p.stack).child := NodeFor(tag, p.size + headSize, p.next)])
  }

  // ----- Conservation -----

  /** Bytes are parsed, claimed by a pending child, or free; nodes are handed out or not. */
  ghost predicate Conserved(data: seq<byte>, p: Progress, capacity: nat) {
    && 1 <= |p.stack| <= capacity
    && p.size + Pending(p.stack) + p.possible == |data|
    && 1 <= p.next <= |p.pool|
    && Within(p.stack, p.next)
  }

  /** The parser is about to parse the next child of the top level. */
  ghost predicate AtNode(data: seq<byte>, p: Progress, capacity: nat) {
    Conserved(data, p, capacity) && Top(p.stack).left > 0
  }

  ghost predicate Steps(data: seq<byte>, p: Progress, capacity: nat, tag: Tag, headSize: nat) {
    && AtNode(data, p, capacity)
    && NodeEffect(data, p.size, p.possible, |p.pool| - p.next, |p.stack|, capacity) == Node(tag, headSize)
  }

  lemma DescendPending(stack: seq<Level>, next: nat, kids: nat)
    requires stack != [] && Top(stack).left > 0
    ensures Pending(Descend(stack, next, kids)) == Pending(stack) - 1 + kids
  {
    var below := stack[..|stack| - 1];
    var parsed := below + [Level(Top(stack).child + 1, Top(stack).left - 1)];
    PendingPush(below, Level(Top(stack).child + 1, Top(stack).left - 1));
    PendingPush(parsed, Level(next, kids));
  }

  /** Every step keeps the accounts, and moves on by at least one byte. */
  lemma StepConserves(data: seq<byte>, p: Progress, capacity: nat, tag: Tag, headSize: nat)
    requires Steps(data, p, capacity, tag, headSize)
    ensures Conserved(data, Advance(p, tag, headSize), capacity)
    ensures p.size < Advance(p, tag, headSize).size
  {
    hide ReadHead;
    DescendPending(p.stack, p.next, ChildCount(tag));
  }

  lemma PopConserves(data: seq<byte>, p: Progress, capacity: nat)
    requires Conserved(data, p, capacity)
    ensures Conserved(data, p.(stack := Popped(p.stack)), capacity)
  {
  }

  // ----- Nothing but the objects pending decides whether the bytes decode -----

  ghost predicate Decodes(data: seq<byte>, p: Progress) {
    p.size <= |data| && DecodeAll(data, p.size, Pending(p.stack)).GotAll?
  }

  lemma StepDecodes(data: seq<byte>, p: Progress, capacity: nat, tag: Tag, headSize: nat)
    requires Steps(data, p, capacity, tag, headSize)
    ensures Decodes(data, p) <==> Decodes(data, Advance(p, tag, headSize))
    ensures Decodes(data, p) ==>
              var kids := DecodeAll(data, Advance(p, tag, headSize).size, ChildCount(tag));
              var body := p.size + headSize;
              && kids.GotAll?
              && Decode(data, p.size) == Got(Build(tag, data[body..body + PayloadSize(tag)], kids.vs), kids.next)
  {
    hide ReadHead, DecodeAll, Descend;
    StepConserves(data, p, capacity, tag, headSize);
    DescendPending(p.stack, p.next, ChildCount(tag));
    var pending := Pending(p.stack);
    assert pending >= 1;
    var rest := p.size + headSize + PayloadSize(tag);
    assert rest <= |data|;
    DecodeAllSplit(data, rest, ChildCount(tag), pending - 1);
    var kids := DecodeAll(data, rest, ChildCount(tag));
    if kids.GotAll? {
      DecodeAllCons(data, p.size, pending);
      assert Decode(data, p.size).next == kids.next;
    } else {
      assert Decode(data, p.size).NoValue?;
      DecodeAllNone(data, p.size, pending);
    }
  }

  /** When a step stops for want of bytes, or at a byte that starts no object, the bytes do not decode. */
  lemma StopDecodes(data: seq<byte>, p: Progress, capacity: nat)
    requires AtNode(data, p, capacity)
    requires var e := NodeEffect(data, p.size, p.possible, |p.pool| - p.next, |p.stack|, capacity);
             e.Stop? && e.error != TooBig
    ensures !Decodes(data, p)
  {
    hide ReadHead, DecodeAll;
    var pending := Pending(p.stack);
    assert pending >= 1;
    if Decode(data, p.size).Got? {
      // its own bytes and children are there, and so are at least as many bytes as there are objects behind it
      DecodeAllCons(data, p.size, pending);
    } else {
      DecodeAllNone(data, p.size, pending);
    }
  }

  // ----- The tree being built -----

  /** The values of the pending nodes, in the order the parser will reach them. */
  ghost function Wanted(want: seq<Value>, stack: seq<Level>): (r: seq<Value>)
    requires Within(stack, |want|)
    ensures |r| == Pending(stack)
  {
    if stack == [] then []
    else
      var top := Top(stack);
      want[top.child..top.child + top.left] + Wanted(want, stack[..|stack| - 1])
  }

  ghost predicate IsPending(stack: seq<Level>, i: nat) {
    exists l :: 0 <= l < |stack| && stack[l].child <= i < stack[l].child + stack[l].left
  }

  /** A parsed node says what its value says, its children being the values of its block. */
  ghost predicate Matches(data: seq<byte>, node: NodeData, want: seq<Value>, v: Value) {
    match v
    case NilV => node == NilNode
    case BoolV(b) => node == BoolNode(b)
    case IntV(i) => node == IntNode(i)
    case UintV(u) => node == UintNode(u)
    case StrV(text) => node.StrNode? && node.len == |text| && At(data, node.offset, text)
    case BinV(blob) => node.BinNode? && node.len == |blob| && At(data, node.offset, blob)
    case ArrayV(items) =>
      && node.ArrayNode? && node.len == |items| && node.children + node.len <= |want|
      && want[node.children..node.children + node.len] == items
    case MapV(pairs) =>
      && node.MapNode? && 2 * node.len == |pairs| && node.children + 2 * node.len <= |want|
      && want[node.children..node.children + 2 * node.len] == pairs
  }

  /** The pending children of level l have room on the stack for their own nesting. */
  ghost predicate LevelDeep(want: seq<Value>, level: Level, l: nat, capacity: nat)
    requires level.child + level.left <= |want|
  {
    forall k :: level.child <= k < level.child + level.left ==> l + 1 + Depth(want[k]) <= capacity
  }

  ghost predicate DeepEnough(want: seq<Value>, stack: seq<Level>, capacity: nat)
    requires Within(stack, |want|)
  {
    forall l :: 0 <= l < |stack| ==> LevelDeep(want, stack[l], l, capacity)
  }

  /**
    The nodes handed out so far stand for the values in want: the bytes ahead decode to the pending
    ones, the parsed ones match, and the counts and depths of the whole are those of the pending ones.
   */
  ghost predicate Tracks(data: seq<byte>, p: Progress, capacity: nat, v: Value, end: nat,
                         want: seq<Value>, parsed: set<nat>)
    requires Conserved(data, p, capacity)
  {
    && |want| == p.next && want[0] == v
    && DecodeAll(data, p.size, Pending(p.stack)) == GotAll(Wanted(want, p.stack), end)
    && Count(v) == p.next + CountAll(Wanted(want, p.stack)) - Pending(p.stack)
    && (Depth(v) + 1 <= capacity <==> DeepEnough(want, p.stack, capacity))
    && (forall i :: 0 <= i < p.next ==> i in parsed || IsPending(p.stack, i))
    && (forall i :: i in parsed ==> i < p.next && Matches(data, p.pool[i], want, want[i]))
  }

  lemma {:induction false} WantedGrows(want: seq<Value>, items: seq<Value>, stack: seq<Level>)
    requires Within(stack, |want|)
    ensures Within(stack, |want + items|) && Wanted(want + items, stack) == Wanted(want, stack)
  {
    hide Pending;
    if stack != [] {
      var top, below := Top(stack), stack[..|stack| - 1];
      WantedGrows(want, items, below);
      assert (want + items)[top.child..top.child + top.left] == want[top.child..top.child + top.left];
    }
  }

  lemma {:induction false} WantedPush(want: seq<Value>, below: seq<Level>, level: Level)
    requires Within(below, |want|) && level.child + level.left <= |want|
    ensures Within(below + [level], |want|)
    ensures Wanted(want, below + [level]) == want[level.child..level.child + level.left] + Wanted(want, below)
  {
    hide Pending;
    assert (below + [level])[..|below|] == below;
  }

  /** The first pending value is the next child of the top level. */
  lemma WantedFirst(want: seq<Value>, below: seq<Level>, top: Level)
    requires Within(below, |want|) && top.child + top.left <= |want| && top.left > 0
    ensures var parsed := below + [Level(top.child + 1, top.left - 1)];
            && Within(below + [top], |want|) && Within(parsed, |want|)
            && Wanted(want, below + [top]) == [want[top.child]] + Wanted(want, parsed)
  {
    hide Wanted, Pending;
    WantedPush(want, below, top);
    WantedPush(want, below, Level(top.child + 1, top.left - 1));
    var rest := want[top.child + 1..top.child + top.left];
    assert want[top.child..top.child + top.left] == [want[top.child]] + rest;
    assert [want[top.child]] + rest + Wanted(want, below) == [want[top.child]] + (rest + Wanted(want, below));
  }

  /** Parsing a child replaces it, at the front of the pending values, by its own children. */
  lemma WantedStep(want: seq<Value>, items: seq<Value>, stack: seq<Level>)
    requires Within(stack, |want|) && stack != [] && Top(stack).left > 0
    ensures Within(Descend(stack, |want|, |items|), |want + items|)
    ensures Wanted(want, stack) != [] && Wanted(want, stack)[0] == want[Top(stack).child]
    ensures Wanted(want + items, Descend(stack, |want|, |items|)) == items + Wanted(want, stack)[1..]
  {
    hide Wanted, Pending;
    var top, below := Top(stack), stack[..|stack| - 1];
    var parsed := below + [Level(top.child + 1, top.left - 1)];
    assert stack == below + [top];
    WantedFirst(want, below, top);
    WantedGrows(want, items, parsed);
    if items != [] {
      WantedPush(want + items, parsed, Level(|want|, |items|));
      assert (want + items)[|want|..|want| + |items|] == items;
    }
  }

  lemma DeepGrows(want: seq<Value>, items: seq<Value>, stack: seq<Level>, capacity: nat)
    requires Within(stack, |want|)
    ensures DeepEnough(want + items, stack, capacity) <==> DeepEnough(want, stack, capacity)
  {
    forall l | 0 <= l < |stack|
      ensures LevelDeep(want + items, stack[l], l, capacity) <==> LevelDeep(want, stack[l], l, capacity)
    {
      assert forall k :: 0 <= k < |want| ==> (want + items)[k] == want[k];
    }
  }

  lemma DeepPush(want: seq<Value>, below: seq<Level>, level: Level, capacity: nat)
    requires Within(below, |want|) && level.child + level.left <= |want|
    ensures DeepEnough(want, below + [level], capacity)
       <==> (DeepEnough(want, below, capacity) && LevelDeep(want, level, |below|, capacity))
  {
    hide LevelDeep;
    assert forall l :: 0 <= l < |below| ==> (below + [level])[l] == below[l];
    assert (below + [level])[|below|] == level;
  }

  lemma DeepTop(want: seq<Value>, top: Level, l: nat, capacity: nat)
    requires top.child + top.left <= |want| && top.left > 0
    ensures LevelDeep(want, top, l, capacity)
       <==> (l + 1 + Depth(want[top.child]) <= capacity
             && LevelDeep(want, Level(top.child + 1, top.left - 1), l, capacity))
  {
  }

  lemma DeepItems(want: seq<Value>, items: seq<Value>, l: nat, capacity: nat)
    requires l <= capacity
    ensures LevelDeep(want + items, Level(|want|, |items|), l, capacity)
       <==> (items == [] || l + 1 + DepthAll(items) <= capacity)
  {
    assert forall k :: 0 <= k < |items| ==> (want + items)[|want| + k] == items[k];
    if l + 1 <= capacity {
      DepthAllBound(items, capacity - l - 1);
    } else if items != [] {
      assert (want + items)[|want|] == items[0];
    }
  }

  lemma DeepStep(want: seq<Value>, items: seq<Value>, stack: seq<Level>, capacity: nat)
    requires Within(stack, |want|) && stack != [] && Top(stack).left > 0 && |stack| <= capacity
    requires Items(want[Top(stack).child]) == items
    requires Within(Descend(stack, |want|, |items|), |want + items|)
    ensures DeepEnough(want, stack, capacity)
       <==> DeepEnough(want + items, Descend(stack, |want|, |items|), capacity)
  {
    hide DeepEnough, LevelDeep;
    var top, below := Top(stack), stack[..|stack| - 1];
    var level := Level(top.child + 1, top.left - 1);
    var parsed := below + [level];
    assert stack == below + [top];
    DeepPush(want, below, top, capacity);
    DeepPush(want, below, level, capacity);
    DeepTop(want, top, |below|, capacity);
    DeepGrows(want, items, parsed, capacity);
    MeasuresByItems(want[top.child]);
    DeepItems(want, items, |stack|, capacity);
    if items != [] {
      DeepPush(want + items, parsed, Level(|want|, |items|), capacity);
    }
  }

  lemma MatchesGrows(data: seq<byte>, node: NodeData, want: seq<Value>, items: seq<Value>, v: Value)
    requires Matches(data, node, want, v)
    ensures Matches(data, node, want + items, v)
  {
    if v.ArrayV? {
      assert (want + items)[node.children..node.children + node.len] == want[node.children..node.children + node.len];
    } else if v.MapV? {
      assert (want + items)[node.children..node.children + 2 * node.len]
          == want[node.children..node.children + 2 * node.len];
    }
  }

  /** The node made for a tag matches the value decoded there, once its children are at the end of want. */
  lemma NodeMatches(data: seq<byte>, tag: Tag, offset: nat, want: seq<Value>, items: seq<Value>)
    requires offset + PayloadSize(tag) <= |data| && |items| == ChildCount(tag)
    ensures Matches(data, NodeFor(tag, offset, |want|), want + items,
                    Build(tag, data[offset..offset + PayloadSize(tag)], items))
  {
    assert (want + items)[|want|..|want| + |items|] == items;
  }

  lemma BuildItems(tag: Tag, payload: seq<byte>, items: seq<Value>)
    requires |items| == ChildCount(tag)
    ensures Items(Build(tag, payload, items)) == items
  {
  }

  /** The step does what the recursive decoder does: the next pending value becomes a node and its children pend. */
  lemma StepValue(data: seq<byte>, p: Progress, capacity: nat, tag: Tag, headSize: nat,
                  v: Value, end: nat, want: seq<Value>, parsed: set<nat>)
    returns (items: seq<Value>)
    requires Steps(data, p, capacity, tag, headSize)
    requires Tracks(data, p, capacity, v, end, want, parsed)
    ensures |items| == ChildCount(tag) && Items(want[Top(p.stack).child]) == items
    ensures Matches(data, NodeFor(tag, p.size + headSize, p.next), want + items, want[Top(p.stack).child])
    ensures var q := Advance(p, tag, headSize);
            q.size <= |data| && DecodeAll(data, q.size, Pending(q.stack))
                                == GotAll(items + Wanted(want, p.stack)[1..], end)
  {
    hide ReadHead, Decode, DecodeAll, Matches, DeepEnough, Wanted, Pending, Descend, IsPending, Build, Items, NodeFor;
    var q := Advance(p, tag, headSize);
    StepDecodes(data, p, capacity, tag, headSize);
    StepConserves(data, p, capacity, tag, headSize);
    DescendPending(p.stack, p.next, ChildCount(tag));
    var kids := DecodeAll(data, q.size, ChildCount(tag));
    items := kids.vs;
    WantedStep(want, items, p.stack);
    DecodeAllCons(data, p.size, Pending(p.stack));
    NodeMatches(data, tag, p.size + headSize, want, items);
    BuildItems(tag, data[p.size + headSize..q.size], items);
    DecodeAllSplit(data, q.size, ChildCount(tag), Pending(p.stack) - 1);
  }

  lemma StepPending(stack: seq<Level>, next: nat, kids: nat, i: nat)
    requires stack != [] && Top(stack).left > 0
    requires (IsPending(stack, i) && i != Top(stack).child) || next <= i < next + kids
    ensures IsPending(Descend(stack, next, kids), i)
  {
    var after := Descend(stack, next, kids);
    if next <= i < next + kids {
      assert after[|stack|] == Level(next, kids);
    } else {
      var l :| 0 <= l < |stack| && stack[l].child <= i < stack[l].child + stack[l].left;
      assert after[l].child <= i < after[l].child + after[l].left;
    }
  }

  lemma StepMembers(data: seq<byte>, p: Progress, capacity: nat, tag: Tag, headSize: nat,
                    want: seq<Value>, items: seq<Value>, parsed: set<nat>)
    requires Steps(data, p, capacity, tag, headSize)
    requires |want| == p.next && |items| == ChildCount(tag)
    requires Matches(data, NodeFor(tag, p.size + headSize, p.next), want + items, want[Top(p.stack).child])
    requires forall i :: 0 <= i < p.next ==> i in parsed || IsPending(p.stack, i)
    requires forall i :: i in parsed ==> i < p.next && Matches(data, p.pool[i], want, want[i])
    ensures var q := Advance(p, tag, headSize);
            var now := parsed + {Top(p.stack).child};
            && (forall i :: 0 <= i < q.next ==> i in now || IsPending(q.stack, i))
            && (forall i :: i in now ==> i < q.next && Matches(data, q.pool[i], want + items, (want + items)[i]))
  {
    hide ReadHead, Matches, IsPending;
    var q := Advance(p, tag, headSize);
    var now := parsed + {Top(p.stack).child};
    forall i | 0 <= i < q.next ensures i in now || IsPending(q.stack, i) {
      if i !in now {
        StepPending(p.stack, p.next, ChildCount(tag), i);
      }
    }
    forall i | i in now ensures i < q.next && Matches(data, q.pool[i], want + items, (want + items)[i]) {
      if i != Top(p.stack).child {
        MatchesGrows(data, p.pool[i], want, items, want[i]);
      }
    }
  }

  /** Every step keeps the tree in step with the value being decoded. */
  lemma StepTracks(data: seq<byte>, p: Progress, capacity: nat, tag: Tag, headSize: nat,
                   v: Value, end: nat, want: seq<Value>, parsed: set<nat>)
    returns (items: seq<Value>)
    requires Steps(data, p, capacity, tag, headSize)
    requires Tracks(data, p, capacity, v, end, want, parsed)
    ensures Conserved(data, Advance(p, tag, headSize), capacity)
    ensures Tracks(data, Advance(p, tag, headSize), capacity, v, end, want + items, parsed + {Top(p.stack).child})
  {
    hide ReadHead, Decode, DecodeAll, Matches, DeepEnough, Wanted, Count, Depth;
    var q := Advance(p, tag, headSize);
    var child := Top(p.stack).child;
    StepConserves(data, p, capacity, tag, headSize);
    items := StepValue(data, p, capacity, tag, headSize, v, end, want, parsed);
    WantedStep(want, items, p.stack);
    DeepStep(want, items, p.stack, capacity);
    MeasuresByItems(want[child]);
    DescendPending(p.stack, p.next, ChildCount(tag));
    var wanted := Wanted(want, p.stack);
    assert wanted == [want[child]] + wanted[1..];
    assert CountAll(wanted) == Count(want[child]) + CountAll(wanted[1..]);
    CountAllConcat(items, wanted[1..]);
    StepMembers(data, p, capacity, tag, headSize, want, items, parsed);
  }

  /** A step stops for want of nodes or levels only when the whole object exceeds those limits. */
  lemma StopTracks(data: seq<byte>, p: Progress, capacity: nat, v: Value, end: nat,
                   want: seq<Value>, parsed: set<nat>)
    requires AtNode(data, p, capacity)
    requires NodeEffect(data, p.size, p.possible, |p.pool| - p.next, |p.stack|, capacity) == Stop(TooBig)
    requires Tracks(data, p, capacity, v, end, want, parsed)
    ensures Count(v) > |p.pool| || Depth(v) + 1 > capacity
  {
    hide ReadHead, DecodeAll, Matches, Pending, IsPending, Count, Depth, CountAll;
    var child, wanted := Top(p.stack).child, Wanted(want, p.stack);
    StopValue(data, p, want, end);
    MeasuresByItems(want[child]);
    CountFirst(wanted);
    var last := |p.stack| - 1;
    assert DeepEnough(want, p.stack, capacity) ==> LevelDeep(want, p.stack[last], last, capacity);
  }

  lemma CountFirst(vs: seq<Value>)
    requires vs != []
    ensures CountAll(vs) >= Count(vs[0]) + |vs| - 1
  {
  }

  lemma StopValue(data: seq<byte>, p: Progress, want: seq<Value>, end: nat)
    requires ReadHead(data, p.size).Tagged?
    requires p.stack != [] && Top(p.stack).left > 0 && Within(p.stack, |want|) && p.size <= |data|
    requires DecodeAll(data, p.size, Pending(p.stack)) == GotAll(Wanted(want, p.stack), end)
    ensures Wanted(want, p.stack) != [] && Wanted(want, p.stack)[0] == want[Top(p.stack).child]
    ensures |Items(want[Top(p.stack).child])| == ChildCount(ReadHead(data, p.size).tag)
  {
    hide ReadHead;
    DecodeAllCons(data, p.size, Pending(p.stack));
  }

  // ----- The finished tree -----

  /** The node at index i of the pool, with the nodes it points to, is the value v. */
  ghost predicate Represents(data: seq<byte>, pool: seq<NodeData>, i: nat, v: Value)
    decreases v, 1
  {
    i < |pool| && match v
      case NilV => pool[i] == NilNode
      case BoolV(b) => pool[i] == BoolNode(b)
      case IntV(n) => pool[i] == IntNode(n)
      case UintV(u) => pool[i] == UintNode(u)
      case StrV(text) => pool[i].StrNode? && pool[i].len == |text| && At(data, pool[i].offset, text)
      case BinV(blob) => pool[i].BinNode? && pool[i].len == |blob| && At(data, pool[i].offset, blob)
      case ArrayV(items) => pool[i].ArrayNode? && pool[i].len == |items|
                            && RepresentsAll(data, pool, pool[i].children, items)
      case MapV(pairs) => pool[i].MapNode? && 2 * pool[i].len == |pairs|
                          && RepresentsAll(data, pool, pool[i].children, pairs)
  }

  ghost predicate RepresentsAll(data: seq<byte>, pool: seq<NodeData>, i: nat, vs: seq<Value>)
    decreases vs, 0
  {
    vs == [] || (Represents(data, pool, i, vs[0]) && RepresentsAll(data, pool, i + 1, vs[1..]))
  }

  /** A node holds one value. */
  lemma {:induction false} RepresentsOnce(data: seq<byte>, pool: seq<NodeData>, i: nat, v: Value, w: Value)
    requires Represents(data, pool, i, v) && Represents(data, pool, i, w)
    ensures v == w
    decreases v, 1
  {
    if v.ArrayV? || v.MapV? {
      RepresentsAllOnce(data, pool, pool[i].children, Items(v), Items(w));
    }
  }

  lemma {:induction false} RepresentsAllOnce(data: seq<byte>, pool: seq<NodeData>, i: nat,
                                             vs: seq<Value>, ws: seq<Value>)
    requires |vs| == |ws| && RepresentsAll(data, pool, i, vs) && RepresentsAll(data, pool, i, ws)
    ensures vs == ws
    decreases vs, 0
  {
    if vs != [] {
      RepresentsOnce(data, pool, i, vs[0], ws[0]);
      RepresentsAllOnce(data, pool, i + 1, vs[1..], ws[1..]);
      assert vs == [vs[0]] + vs[1..] && ws == [ws[0]] + ws[1..];
    }
  }

  lemma {:induction false} MatchedRepresents(data: seq<byte>, pool: seq<NodeData>, want: seq<Value>, i: nat)
    requires i < |want| <= |pool|
    requires forall k :: 0 <= k < |want| ==> Matches(data, pool[k], want, want[k])
    ensures Represents(data, pool, i, want[i])
    decreases want[i], 1
  {
    assert Matches(data, pool[i], want, want[i]);
    match want[i] {
      case ArrayV(items) => MatchedRepresentsAll(data, pool, want, pool[i].children, items);
      case MapV(pairs) => MatchedRepresentsAll(data, pool, want, pool[i].children, pairs);
      case _ =>
    }
  }

  lemma {:induction false} MatchedRepresentsAll(data: seq<byte>, pool: seq<NodeData>, want: seq<Value>, i: nat,
                                                vs: seq<Value>)
    requires i + |vs| <= |want| <= |pool| && want[i..i + |vs|] == vs
    requires forall k :: 0 <= k < |want| ==> Matches(data, pool[k], want, want[k])
    ensures RepresentsAll(data, pool, i, vs)
    decreases vs, 0
  {
    if vs != [] {
      assert want[i] == want[i..i + |vs|][0] == vs[0];
      assert want[i + 1..i + |vs|] == vs[1..];
      MatchedRepresents(data, pool, want, i);
      MatchedRepresentsAll(data, pool, want, i + 1, vs[1..]);
    }
  }

  /** The limits of a parse: the object's nodes fit the pool and its nesting fits the stack below the root. */
  ghost predicate Fits(data: seq<byte>, poolCount: nat, capacity: nat) {
    var r := Decode(data, 0);
    r.Got? && Count(r.v) <= poolCount && Depth(r.v) + 1 <= capacity
  }

  /** The state mpack_tree_parse_start leaves. */
  ghost predicate Started(data: seq<byte>, p: Progress) {
    && 1 <= |data| && 1 <= |p.pool|
    && p.size == 0 && p.possible == |data| - 1 && p.next == 1 && p.stack == [Level(0, 1)]
  }

  lemma StartConserves(data: seq<byte>, p: Progress, capacity: nat)
    requires Started(data, p) && 1 <= capacity
    ensures AtNode(data, p, capacity)
  {
    assert p.stack[..0] == [];
    assert Pending(p.stack) == 1;
  }

  lemma StartTracks(data: seq<byte>, p: Progress, capacity: nat)
    requires Started(data, p) && 1 <= capacity
    ensures AtNode(data, p, capacity)
    ensures Decodes(data, p) <==> Decode(data, 0).Got?
    ensures var r := Decode(data, 0); r.Got? ==> Tracks(data, p, capacity, r.v, r.next, [r.v], {})
  {
    hide ReadHead;
    assert p.stack[..0] == [];
    assert Pending(p.stack) == 1;
    var r := Decode(data, 0);
    if r.Got? {
      DecodeAllCons(data, 0, 1);
      assert DecodeAll(data, r.next, 0) == GotAll([], r.next);
      assert Wanted([r.v], p.stack) == [r.v];
      assert CountAll([r.v]) == Count(r.v);
      assert p.stack[0] == Level(0, 1);
      assert DeepEnough([r.v], p.stack, capacity) <==> LevelDeep([r.v], p.stack[0], 0, capacity);
      assert IsPending(p.stack, 0);
    }
  }

  /** With nothing pending, the bytes are an object within the limits, and the pool holds it. */
  lemma FinishTracks(data: seq<byte>, p: Progress, capacity: nat, v: Value, end: nat,
                     want: seq<Value>, parsed: set<nat>)
    requires Conserved(data, p, capacity) && Pending(p.stack) == 0
    requires Tracks(data, p, capacity, v, end, want, parsed)
    ensures p.size == end && Count(v) == p.next <= |p.pool| && Depth(v) + 1 <= capacity
    ensures Represents(data, p.pool, 0, v)
  {
    hide Matches;
    NothingPending(p.stack);
    forall k | 0 <= k < |want| ensures Matches(data, p.pool[k], want, want[k]) {
      assert !IsPending(p.stack, k);
    }
    MatchedRepresents(data, p.pool, want, 0);
  }

  lemma NothingPending(stack: seq<Level>)
    requires Pending(stack) == 0
    ensures forall l :: 0 <= l < |stack| ==> stack[l].left == 0
  {
    if stack != [] {
      NothingPending(stack[..|stack| - 1]);
      assert forall l :: 0 <= l < |stack| - 1 ==> stack[l] == stack[..|stack| - 1][l];
    }
  }

  /** A finished level on top plays no part in what is tracked. */
  lemma DropTracks(data: seq<byte>, p: Progress, capacity: nat, v: Value, end: nat, want: seq<Value>, parsed: set<nat>)
    requires Conserved(data, p, capacity) && Tracks(data, p, capacity, v, end, want, parsed)
    requires Top(p.stack).left == 0 && |p.stack| > 1
    ensures var q := p.(stack := p.stack[..|p.stack| - 1]);
            Conserved(data, q, capacity) && Tracks(data, q, capacity, v, end, want, parsed)
  {
    hide DecodeAll, Matches, Count, Depth, CountAll, LevelDeep, Wanted, Pending;
    var top, below := Top(p.stack), p.stack[..|p.stack| - 1];
    assert p.stack == below + [top];
    WantedPush(want, below, top);
    assert want[top.child..top.child + top.left] + Wanted(want, below) == Wanted(want, below);
    DeepPush(want, below, top, capacity);
    assert LevelDeep(want, top, |below|, capacity) by { DeepEmpty(want, top, |below|, capacity); }
    PendingPush(below, top);
    forall i | 0 <= i < p.next && i !in parsed ensures IsPending(below, i) {
      var l :| 0 <= l < |p.stack| && p.stack[l].child <= i < p.stack[l].child + p.stack[l].left;
      assert below[l] == p.stack[l];
    }
  }

  lemma DeepEmpty(want: seq<Value>, level: Level, l: nat, capacity: nat)
    requires level.child <= |want| && level.left == 0
    ensures LevelDeep(want, level, l, capacity)
  {
  }

  /** Popping finished levels changes nothing that is tracked. */
  lemma PopTracks(data: seq<byte>, p: Progress, capacity: nat, v: Value, end: nat,
                  want: seq<Value>, parsed: set<nat>)
    requires Conserved(data, p, capacity) && Tracks(data, p, capacity, v, end, want, parsed)
    ensures Conserved(data, p.(stack := Popped(p.stack)), capacity)
    ensures Tracks(data, p.(stack := Popped(p.stack)), capacity, v, end, want, parsed)
    decreases |p.stack|
  {
    hide Within, Pending, Tracks;
    if Top(p.stack).left == 0 && |p.stack| > 1 {
      var q := p.(stack := p.stack[..|p.stack| - 1]);
      DropTracks(data, p, capacity, v, end, want, parsed);
      assert q.(stack := Popped(q.stack)) == p.(stack := Popped(p.stack));
      PopTracks(data, q, capacity, v, end, want, parsed);
    } else {
      assert p.(stack := Popped(p.stack)) == p;
    }
  }

  // ----- No two nodes share anything -----

  /** A range of the data or of the pool: where it starts and how long it is. */
  datatype Range = Range(start: nat, len: nat)

  predicate Apart(a: Range, b: Range) {
    a.len == 0 || b.len == 0 || a.start + a.len <= b.start || b.start + b.len <= a.start
  }

  /** The nodes a container owns. */
  function Block(node: NodeData): Range {
    match node
    case ArrayNode(len, children) => Range(children, len)
    case MapNode(len, children) => Range(children, 2 * len)
    case _ => Range(0, 0)
  }

  /** The bytes a string or blob owns. */
  function Span(node: NodeData): Range {
    match node
    case StrNode(len, offset) => Range(offset, len)
    case BinNode(len, offset) => Range(offset, len)
    case _ => Range(0, 0)
  }

  /**
    Blocks of children lie past the root and among the nodes handed out, payloads among the bytes
    parsed, and those of different nodes have nothing in common.
   */
  ghost predicate Separate(pool: seq<NodeData>, next: nat, size: nat, parsed: set<nat>) {
    && (forall i :: i in parsed ==> i < |pool| && Owned(pool[i], next, size))
    && (forall i, j :: i in parsed && j in parsed && i != j ==>
          Apart(Block(pool[i]), Block(pool[j])) && Apart(Span(pool[i]), Span(pool[j])))
  }

  /** The same of all the nodes handed out. */
  ghost predicate Separated(pool: seq<NodeData>, next: nat, size: nat) {
    && next <= |pool|
    && (forall i :: 0 <= i < next ==> Owned(pool[i], next, size))
    && (forall i, j :: 0 <= i < j < next ==>
          Apart(Block(pool[i]), Block(pool[j])) && Apart(Span(pool[i]), Span(pool[j])))
  }

  predicate Owned(node: NodeData, next: nat, size: nat) {
    && (Block(node).len > 0 ==> 1 <= Block(node).start && Block(node).start + Block(node).len <= next)
    && (Span(node).len > 0 ==> Span(node).start + Span(node).len <= size)
  }

  lemma StepSeparates(p: Progress, tag: Tag, headSize: nat, parsed: set<nat>)
    requires p.stack != [] && Top(p.stack).left > 0 && Top(p.stack).child < |p.pool| && 1 <= p.next
    requires 1 <= headSize && headSize - 1 + PayloadSize(tag) + ChildCount(tag) <= p.possible
    requires Separate(p.pool, p.next, p.size, parsed)
    ensures var q := Advance(p, tag, headSize);
            Separate(q.pool, q.next, q.size, parsed + {Top(p.stack).child})
  {
    var child, q := Top(p.stack).child, Advance(p, tag, headSize);
    forall i | i in parsed && i != child
      ensures Apart(Block(q.pool[i]), Block(q.pool[child])) && Apart(Span(q.pool[i]), Span(q.pool[child]))
    {
      assert Owned(p.pool[i], p.next, p.size);
    }
  }

  // ----- A whole run -----

  /** What holds between any two nodes of a parse, after the given number of them. */
  ghost predicate OnTrack(data: seq<byte>, p: Progress, capacity: nat, want: seq<Value>, parsed: set<nat>,
                          visited: nat)
  {
    && Conserved(data, p, capacity)
    && Separate(p.pool, p.next, p.size, parsed)
    && visited + Pending(p.stack) == p.next && visited <= p.size
    && var goal := Decode(data, 0);
       if goal.Got? then Tracks(data, p, capacity, goal.v, goal.next, want, parsed) else !Decodes(data, p)
  }

  ghost function RootValues(data: seq<byte>): seq<Value> {
    var goal := Decode(data, 0);
    if goal.Got? then [goal.v] else []
  }

  lemma StartsOnTrack(data: seq<byte>, p: Progress, capacity: nat)
    requires Started(data, p) && 1 <= capacity
    ensures AtNode(data, p, capacity) && OnTrack(data, p, capacity, RootValues(data), {}, 0)
  {
    hide Decode, Tracks, Decodes;
    StartTracks(data, p, capacity);
    assert p.stack[..0] == [];
  }

  lemma StepsOnTrack(data: seq<byte>, p: Progress, capacity: nat, tag: Tag, headSize: nat,
                     want: seq<Value>, parsed: set<nat>, visited: nat)
    returns (items: seq<Value>)
    requires Steps(data, p, capacity, tag, headSize) && OnTrack(data, p, capacity, want, parsed, visited)
    ensures var q := Advance(p, tag, headSize).(stack := Popped(Advance(p, tag, headSize).stack));
            && OnTrack(data, q, capacity, want + items, parsed + {Top(p.stack).child}, visited + 1)
            && Conserved(data, q, capacity) && p.size < q.size
  {
    hide NodeEffect, Decode, Tracks, Separate, Pending, Descend, Popped, Within;
    StepRoom(data, p, capacity, tag, headSize);
    var q := Advance(p, tag, headSize);
    var goal := Decode(data, 0);
    StepConserves(data, p, capacity, tag, headSize);
    PopConserves(data, q, capacity);
    DescendPending(p.stack, p.next, ChildCount(tag));
    items := [];
    StepSeparates(p, tag, headSize, parsed);
    if goal.Got? {
      items := StepTracks(data, p, capacity, tag, headSize, goal.v, goal.next, want, parsed);
      PopTracks(data, q, capacity, goal.v, goal.next, want + items, parsed + {Top(p.stack).child});
    } else {
      StepDecodes(data, p, capacity, tag, headSize);
    }
  }

  lemma StepRoom(data: seq<byte>, p: Progress, capacity: nat, tag: Tag, headSize: nat)
    requires Steps(data, p, capacity, tag, headSize)
    ensures 1 <= headSize && headSize - 1 + PayloadSize(tag) + ChildCount(tag) <= p.possible
    ensures p.next + ChildCount(tag) <= |p.pool| && Top(p.stack).child < |p.pool|
  {
    hide ReadHead;
  }

  /** A parse that stops at a node was given no object, or one beyond the limits. */
  lemma StopsOnTrack(data: seq<byte>, p: Progress, capacity: nat, want: seq<Value>, parsed: set<nat>, visited: nat)
    requires AtNode(data, p, capacity) && OnTrack(data, p, capacity, want, parsed, visited)
    requires NodeEffect(data, p.size, p.possible, |p.pool| - p.next, |p.stack|, capacity).Stop?
    ensures !Fits(data, |p.pool|, capacity)
    ensures visited <= p.size && visited <= |p.pool|
  {
    hide NodeEffect, Decode, Separate, Pending, Within, DecodeAll, IsPending, Matches, DeepEnough, Wanted;
    var goal := Decode(data, 0);
    if goal.Got? {
      if NodeEffect(data, p.size, p.possible, |p.pool| - p.next, |p.stack|, capacity).error == TooBig {
        StopTracks(data, p, capacity, goal.v, goal.next, want, parsed);
      } else {
        StopDecodes(data, p, capacity);
      }
    }
  }

  /** A parse that has nothing left to do was given an object within the limits, and has built it. */
  lemma FinishesOnTrack(data: seq<byte>, p: Progress, capacity: nat, want: seq<Value>, parsed: set<nat>, visited: nat)
    requires OnTrack(data, p, capacity, want, parsed, visited)
    requires |p.stack| == 1 && Top(p.stack).left == 0
    ensures Fits(data, |p.pool|, capacity)
    ensures Decode(data, 0).Got? && p.size == Decode(data, 0).next
    ensures Represents(data, p.pool, 0, Decode(data, 0).v)
    ensures visited == p.next == Count(Decode(data, 0).v) && visited <= p.size
    ensures Separated(p.pool, p.next, p.size)
  {
    hide ReadHead, Owned, Apart, Represents, Matches, Count, Depth;
    var goal := Decode(data, 0);
    assert Pending(p.stack) == 0;
    assert DecodeAll(data, p.size, 0) == GotAll([], p.size);
    if goal.Got? {
      FinishTracks(data, p, capacity, goal.v, goal.next, want, parsed);
      NothingPending(p.stack);
      forall i | 0 <= i < p.next ensures i in parsed {
        assert !IsPending(p.stack, i);
      }
    }
  }
}
