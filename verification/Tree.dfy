/** mpack_tree_t over a caller's pool of nodes, without an allocator and without a read function. */
module Tree {
  import opened Bytes
  import opened Tags
  import opened Decoder
  import opened Parser
  import opened Walks
  import opened Utf8
  import opened Memory

  /** mpack_node_t: a node of the pool, or the nil node of the tree. */
  datatype Handle = Nowhere | Index(i: nat)

  datatype ParseState = NotStarted | InProgress | ParsedTree

  /** node->len * 2 in the uint32_t arithmetic of mpack_tree_parse_node. */
  function Twice(len: nat): nat {
    (2 * len) % 0x1_0000_0000
  }

  /** The product is exact up to 2^31 - 1 pairs; a longer map would be charged 2^32 bytes too many. */
  lemma TwiceIsExact(len: nat)
    requires len <= U32_MAX
    ensures Twice(len) == 2 * len <==> 2 * len <= U32_MAX
    ensures 2 * len > U32_MAX ==> Twice(len) == 2 * len - 0x1_0000_0000
  {
  }

  class Tree {
    var data: seq<byte>       // from the message to be parsed next (or parsed last) to the end
    var size: nat             // bytes of the tree
    var nodeCount: nat
    var error: Error
    var state: ParseState
    var possibleNodesLeft: nat
    var nodes: nat            // index of the next free node of the pool
    var nodesLeft: nat
    var currentNodeReserved: nat
    var level: nat
    const pool: array<NodeData>
    const stack: array<Level>

    /** Sizes for which the 32-bit product in ParseNode is exact. */
    ghost predicate Addressable()
      reads this
    {
      pool.Length <= U32_MAX || |data| <= U32_MAX
    }

    ghost predicate Valid()
      reads this
    {
      && 1 <= stack.Length && Addressable() && size <= |data|
      && (pool.Length == 0 || state == InProgress ==> error != Ok)
    }

    ghost function Stack(): seq<Level>
      reads this, stack
      requires level < stack.Length
    {
      stack[..level + 1]
    }

    ghost function Snapshot(): Progress
      reads this, pool, stack
      requires level < stack.Length
    {
      Progress(size, possibleNodesLeft, nodes, Stack(), pool[..])
    }

    /** Between two nodes of a parse. */
    ghost predicate Parsing()
      reads this, pool, stack
    {
      && 1 <= pool.Length && 1 <= stack.Length && Addressable()
      && level < stack.Length && error == Ok && state == InProgress
      && nodes + nodesLeft == pool.Length && nodeCount == nodes
      && Conserved(data, Snapshot(), stack.Length)
    }

    /** mpack_tree_init_pool, with memory of its own for the pool and the stack; there is no parsing into no pool. */
    constructor InitPool(data: seq<byte>, poolCount: nat, stackCapacity: nat)
      requires 1 <= stackCapacity
      requires poolCount <= U32_MAX || |data| <= U32_MAX
      ensures Valid() && fresh(pool) && fresh(stack)
      ensures this.data == (if poolCount == 0 then [] else data) && size == 0 && state == NotStarted
      ensures error == if poolCount == 0 then Bug else Ok
      ensures pool.Length == poolCount && stack.Length == stackCapacity
    {
      this.data := if poolCount == 0 then [] else data;
      size, nodeCount, error, state := 0, 0, if poolCount == 0 then Bug else Ok, NotStarted;
      possibleNodesLeft, nodes, nodesLeft, currentNodeReserved, level := 0, 0, 0, 0, 0;
      pool := new NodeData[poolCount](_ => Unset);
      stack := new Level[stackCapacity](_ => Level(0, 0));
    }

    /** mpack_tree_flag_error: the first error stays. */
    method FlagError(e: Error)
      modifies this`error
      ensures error == if old(error) == Ok then e else old(error)
    {
      if error == Ok {
        error := e;
      }
    }

    /** mpack_tree_reserve_bytes. */
    method ReserveBytes(extra: nat) returns (ok: bool)
      modifies this`currentNodeReserved
      ensures currentNodeReserved == old(currentNodeReserved) + extra
      ensures ok <==> currentNodeReserved <= possibleNodesLeft
    {
      currentNodeReserved := currentNodeReserved + extra;
      ok := currentNodeReserved <= possibleNodesLeft;
    }

    /** mpack_tree_push_stack. */
    method PushStack(firstChild: nat, total: nat) returns (ok: bool)
      requires error == Ok && level < stack.Length
      modifies this`level, this`error, stack
      ensures ok <==> total == 0 || level == old(level) + 1
      ensures total == 0 ==> level == old(level) && error == Ok && stack[..] == old(stack[..])
      ensures total > 0 ==> ok == (old(level) + 1 < stack.Length)
      ensures !ok ==> error == TooBig
      ensures ok && total > 0 ==> error == Ok && level < stack.Length
                                  && Stack() == old(Stack()) + [Level(firstChild, total)]
    {
      if total == 0 {
        return true;
      }
      if level + 1 == stack.Length {
        FlagError(TooBig);
        return false;
      }
      level := level + 1;
      stack[level] := Level(firstChild, total);
      return true;
    }

    /** The effect of the node at the top of the stack. */
    ghost function Effect(): Effect
      reads this, pool, stack
      requires nodes <= pool.Length
    {
      NodeEffect(data, size, possibleNodesLeft, pool.Length - nodes, level + 1, stack.Length)
    }

    /** mpack_tree_parse_children, of an array of len elements or a map of len pairs. */
    method ParseChildren(node: nat, isMap: bool, len: nat) returns (ok: bool)
      requires error == Ok && level < stack.Length && node < pool.Length
      requires nodes + nodesLeft == pool.Length && nodeCount == nodes
      modifies this`currentNodeReserved, this`error, this`nodeCount, this`nodes, this`nodesLeft, this`level, pool, stack
      ensures var total := if isMap then 2 * len else len;
              var reserved := old(currentNodeReserved) + total;
              && (ok <==> (reserved <= possibleNodesLeft && total <= old(nodesLeft)
                           && (total == 0 || old(level) + 1 < stack.Length)))
              && (!ok ==> error == if reserved <= possibleNodesLeft then TooBig else Ok)
              && (ok ==>
                && error == Ok && currentNodeReserved == reserved
                && nodes == old(nodes) + total && nodes + nodesLeft == pool.Length && nodeCount == nodes
                && pool[..] == old(pool[..])[node := if isMap then MapNode(len, old(nodes))
                                                     else ArrayNode(len, old(nodes))]
                && level == old(level) + (if total == 0 then 0 else 1) < stack.Length
                && Stack() == old(Stack()) + (if total == 0 then [] else [Level(old(nodes), total)]))
    {
      var total := if isMap then 2 * len else len;
      nodeCount := nodeCount + total;
      ok := ReserveBytes(total);
      if !ok {
        return;
      }
      if total <= nodesLeft {
        pool[node] := if isMap then MapNode(len, nodes) else ArrayNode(len, nodes);
        nodes := nodes + total;
        nodesLeft := nodesLeft - total;
      } else {
        FlagError(TooBig);
        return false;
      }
      ok := PushStack(nodes - total, total);
    }

    /** mpack_tree_parse_bytes, of a string or a blob. */
    method ParseBytes(node: nat, isStr: bool, len: nat) returns (ok: bool)
      requires node < pool.Length
      modifies this`currentNodeReserved, pool
      ensures currentNodeReserved == old(currentNodeReserved) + len
      ensures ok <==> currentNodeReserved <= possibleNodesLeft
      ensures var offset := size + old(currentNodeReserved) + 1;
              pool[..] == old(pool[..])[node := if isStr then StrNode(len, offset) else BinNode(len, offset)]
    {
      var offset := size + currentNodeReserved + 1;
      pool[node] := if isStr then StrNode(len, offset) else BinNode(len, offset);
      ok := ReserveBytes(len);
    }

    /** The part of mpack_tree_parse_node_contents that reads the lead byte and what it announces. */
    method ParseHead() returns (ok: bool, tag: Tag)
      requires error == Ok && size + possibleNodesLeft < |data|
      modifies this`currentNodeReserved, this`error
      ensures var head := ReadHead(data, size);
              && (ok <==> head.Tagged? && head.size - 1 <= possibleNodesLeft)
              && (ok ==> error == Ok && tag == head.tag && currentNodeReserved == head.size - 1)
              && (!ok ==> error == if head.Rejected? then head.error else Ok)
    {
      tag := Nil;
      currentNodeReserved := 0;
      match Classify(data[size]) {
        case Bad(e) =>
          FlagError(e);
          ok := false;
        case Whole(t) =>
          tag := t;
          ok := true;
        case Extended(kind, width) =>
          ok := ReserveBytes(width);
          if ok {
            tag := Extend(kind, width, Load(data, size + 1, width));
          }
      }
    }

    /** The part of mpack_tree_parse_node_contents behind the tag: what it announces is claimed and handed out. */
    method ParseBody(node: nat, tag: Tag) returns (ok: bool)
      requires error == Ok && currentNodeReserved <= possibleNodesLeft && node < pool.Length
      requires level < stack.Length && nodes + nodesLeft == pool.Length && nodeCount == nodes
      modifies this`currentNodeReserved, this`error, this`nodeCount, this`nodes, this`nodesLeft, this`level, pool, stack
      ensures var kids := ChildCount(tag);
              var reserved := old(currentNodeReserved) + PayloadSize(tag) + kids;
              && (ok <==> reserved <= possibleNodesLeft && kids <= old(nodesLeft)
                          && (kids == 0 || old(level) + 1 < stack.Length))
              && (!ok ==> error == if reserved <= possibleNodesLeft then TooBig else Ok)
              && (ok ==>
                && error == Ok && currentNodeReserved == reserved
                && nodes == old(nodes) + kids && nodes + nodesLeft == pool.Length && nodeCount == nodes
                && pool[..] == old(pool[..])[node := NodeFor(tag, size + old(currentNodeReserved) + 1, old(nodes))]
                && level == old(level) + (if kids == 0 then 0 else 1) < stack.Length
                && Stack() == old(Stack()) + (if kids == 0 then [] else [Level(old(nodes), kids)]))
    {
      match tag {
        case Str(l) => ok := ParseBytes(node, true, l);
        case Bin(l) => ok := ParseBytes(node, false, l);
        case Array(n) => ok := ParseChildren(node, false, n);
        case Map(n) => ok := ParseChildren(node, true, n);
        case _ =>
          pool[node] := NodeFor(tag, 0, 0);
          ok := true;
      }
    }

    /** mpack_tree_parse_node_contents. */
    method ParseNodeContents(node: nat) returns (ok: bool)
      requires Parsing() && Top(Stack()).left > 0 && node < pool.Length
      modifies this`currentNodeReserved, this`error, this`nodeCount, this`nodes, this`nodesLeft, this`level, pool, stack
      ensures ok <==> old(Effect()).Node?
      ensures !ok ==> error == old(Effect()).error
      ensures ok ==>
        var tag, headSize, kids := old(Effect()).tag, old(Effect()).headSize, ChildCount(old(Effect()).tag);
        && error == Ok && currentNodeReserved == headSize - 1 + PayloadSize(tag) + kids
        && nodes == old(nodes) + kids && nodes + nodesLeft == pool.Length && nodeCount == nodes
        && pool[..] == old(pool[..])[node := NodeFor(tag, size + headSize, old(nodes))]
        && level == old(level) + (if kids == 0 then 0 else 1) < stack.Length
        && Stack() == old(Stack()) + (if kids == 0 then [] else [Level(old(nodes), kids)])
    {
      hide ReadHead, NodeFor;
      PendingTop(Stack());
      var tag;
      ok, tag := ParseHead();
      if ok {
        ok := ParseBody(node, tag);
      }
    }

    /** mpack_tree_parse_node: everything Advance says, except that the parsed child still counts as left. */
    method ParseNode(node: nat) returns (ok: bool)
      requires Parsing() && Top(Stack()).left > 0 && node < pool.Length
      modifies this`currentNodeReserved, this`error, this`nodeCount, this`nodes, this`nodesLeft, this`level,
               this`possibleNodesLeft, this`size, pool, stack
      ensures ok <==> old(Effect()).Node?
      ensures !ok ==> error == old(Effect()).error && size == old(size)
      ensures ok ==>
        var tag, headSize, kids := old(Effect()).tag, old(Effect()).headSize, ChildCount(old(Effect()).tag);
        && error == Ok
        && size == old(size) + headSize + PayloadSize(tag)
        && possibleNodesLeft == old(possibleNodesLeft) - (headSize - 1 + PayloadSize(tag) + kids)
        && nodes == old(nodes) + kids && nodes + nodesLeft == pool.Length && nodeCount == nodes
        && pool[..] == old(pool[..])[node := NodeFor(tag, old(size) + headSize, old(nodes))]
        && level == old(level) + (if kids == 0 then 0 else 1) < stack.Length
        && Stack() == old(Stack()) + (if kids == 0 then [] else [Level(old(nodes), kids)])
    {
      hide ReadHead;
      ok := ParseNodeContents(node);
      if !ok {
        return;
      }
      assert pool[node] == NodeFor(old(Effect()).tag, size + old(Effect()).headSize, old(nodes));
      possibleNodesLeft := possibleNodesLeft - currentNodeReserved;
      var nodeSize := currentNodeReserved + 1;
      match pool[node] {
        case ArrayNode(len, _) => nodeSize := nodeSize - len;
        case MapNode(len, _) => nodeSize := nodeSize - Twice(len);
        case _ =>
      }
      size := size + nodeSize;
    }

    /** The loop at the end of mpack_tree_continue_parsing's that pops empty levels. */
    method Pop()
      requires level < stack.Length
      modifies this`level
      ensures level <= old(level) && Stack() == Popped(old(Stack()))
    {
      while stack[level].left == 0 && level != 0
        invariant level <= old(level)
        invariant Popped(Stack()) == Popped(old(Stack()))
        decreases level
      {
        assert Stack()[..level] == stack[..level - 1 + 1];
        level := level - 1;
      }
    }

    /** The pool holds the object that stands at the start of data, and size is its length. */
    ghost predicate Holds()
      reads this, pool
    {
      var r := Decode(data, 0);
      && r.Got? && size == r.next && Represents(data, pool[..], 0, r.v)
      && nodes == nodeCount == Count(r.v) <= pool.Length
      && Separated(pool[..], nodes, size)
    }

    /** The body of mpack_tree_continue_parsing's loop, up to its test for the end. */
    method ParseNext() returns (ok: bool)
      requires Parsing() && Top(Stack()).left > 0
      modifies this`currentNodeReserved, this`error, this`nodeCount, this`nodes, this`nodesLeft, this`level,
               this`possibleNodesLeft, this`size, pool, stack
      ensures ok <==> old(Effect()).Node?
      ensures !ok ==> error == old(Effect()).error && size == old(size)
      ensures ok ==>
        && error == Ok && level < stack.Length && nodes + nodesLeft == pool.Length && nodeCount == nodes
        && var before, effect := old(Snapshot()), old(Effect());
           && Steps(data, before, stack.Length, effect.tag, effect.headSize)
           && var after := Advance(before, effect.tag, effect.headSize);
              Snapshot() == after.(stack := Popped(after.stack))
    {
      hide ReadHead, Popped, Pending, NodeFor, Descend;
      var node, current := stack[level].child, level;
      ok := ParseNode(node);
      if !ok {
        return;
      }
      ghost var grown := Stack();
      stack[current] := Level(stack[current].child + 1, stack[current].left - 1);
      assert Stack() == grown[current := stack[current]];
      ghost var p, effect := old(Snapshot()), old(Effect());
      CountDown(p.stack, p.next, ChildCount(effect.tag));
      assert pool[..] == p.pool[Top(p.stack).child := NodeFor(effect.tag, p.size + effect.headSize, p.next)];
      assert Snapshot() == Advance(p, effect.tag, effect.headSize);
      hide Advance;
      Pop();
    }

    /** mpack_tree_continue_parsing: true iff the object fits, and then the pool holds it. */
    method ContinueParsing() returns (ok: bool, ghost visited: nat)
      requires Parsing() && Started(data, Snapshot())
      modifies this`currentNodeReserved, this`error, this`nodeCount, this`nodes, this`nodesLeft, this`level,
               this`possibleNodesLeft, this`size, pool, stack
      ensures ok <==> Fits(data, pool.Length, stack.Length)
      ensures ok <==> Outcome(data, pool.Length, stack.Length) == Ok
      ensures (if !ok && error == Ok then Invalid else error) == Outcome(data, pool.Length, stack.Length)
      ensures ok ==> error == Ok && level == 0
      ensures size <= |data| && visited <= size && visited <= pool.Length
      ensures ok ==> Holds()
    {
      hide NodeEffect, Fits, Decode, OnTrack, Advance, Popped, Represents, Separated, Pending, Ahead, Walk;
      ghost var want, parsed := RootValues(data), {};
      visited := 0;
      StartsOnTrack(data, Snapshot(), stack.Length);
      StartWalks(data, Snapshot(), stack.Length);
      ghost var way := Ahead(data, Snapshot(), stack.Length);
      while true
        invariant Parsing() && Top(Stack()).left > 0
        invariant Ahead(data, Snapshot(), stack.Length) == way
        invariant OnTrack(data, Snapshot(), stack.Length, want, parsed, visited)
        decreases |data| - size
      {
        ghost var before, effect := Snapshot(), Effect();
        ok := ParseNext();
        if !ok {
          StopsOnTrack(data, before, stack.Length, want, parsed, visited);
          StopWalks(data, before, stack.Length);
          return;
        }
        StepRoom(data, before, stack.Length, effect.tag, effect.headSize);
        StepWalks(data, before, stack.Length, effect.tag, effect.headSize);
        PopWalks(data, Advance(before, effect.tag, effect.headSize), stack.Length);
        ghost var items := StepsOnTrack(data, before, stack.Length, effect.tag, effect.headSize, want, parsed, visited);
        want, parsed, visited := want + items, parsed + {Top(before.stack).child}, visited + 1;
        if level == 0 && stack[0].left == 0 {
          FinishesOnTrack(data, Snapshot(), stack.Length, want, parsed, visited);
          FinishWalks(data, Snapshot(), stack.Length);
          return;
        }
      }
    }

    /** The part of mpack_tree_parse_start that advances past the message parsed last. */
    method SkipParsed()
      requires size <= |data|
      modifies this`data, this`size, this`nodeCount
      ensures data == old(data[size..]) && size == 0
    {
      if size > 0 {
        data := data[size..];
        size := 0;
        nodeCount := 0;
      }
    }

    /** mpack_tree_parse_start: forgets the last message, if there was one, and readies the root. */
    method ParseStart() returns (ok: bool)
      requires Valid() && error == Ok
      modifies this, stack
      ensures data == old(data[size..]) && error == Ok && size == 0
      ensures ok <==> data != []
      ensures ok ==> Parsing() && Started(data, Snapshot()) && pool[..] == old(pool[..])
      ensures !ok ==> Valid() && state == NotStarted
    {
      hide Parsing, Started, Snapshot;
      state := InProgress;
      currentNodeReserved := 0;
      SkipParsed();
      possibleNodesLeft := |data|;
      ok := ReserveBytes(1);
      if !ok {
        state := NotStarted;
        return;
      }
      StartRoot();
    }

    /** The part of mpack_tree_parse_start that hands out the root. */
    method StartRoot()
      requires 1 <= pool.Length && 1 <= stack.Length && Addressable() && data != [] && size == 0
      requires error == Ok && state == InProgress && possibleNodesLeft == |data|
      modifies this`possibleNodesLeft, this`nodeCount, this`nodes, this`nodesLeft, this`level, stack
      ensures Parsing() && Started(data, Snapshot())
    {
      hide Parsing, Started, Snapshot;
      possibleNodesLeft := possibleNodesLeft - 1;
      nodeCount := 1;
      nodes, nodesLeft := 0, pool.Length;
      nodes, nodesLeft := nodes + 1, nodesLeft - 1;
      level := 0;
      stack[0] := Level(0, 1);
      RootReady();
    }

    /** What mpack_tree_parse_start leaves is the start of a parse. */
    lemma RootReady()
      requires 1 <= pool.Length && 1 <= stack.Length && Addressable() && data != [] && size == 0
      requires error == Ok && state == InProgress && level == 0 && stack[0] == Level(0, 1)
      requires nodes == nodeCount == 1 && nodesLeft == pool.Length - 1 && possibleNodesLeft == |data| - 1
      ensures Parsing() && Started(data, Snapshot())
    {
      hide Conserved, Pending;
      assert Snapshot().stack == [Level(0, 1)];
      StartConserves(data, Snapshot(), stack.Length);
    }

    /**
      mpack_tree_parse: unless an error is flagged already, the message that follows the one parsed
      last is parsed, and that succeeds exactly when it is an object within the limits. The error says
      why it does not; Undefined stands for a lead byte 0xca or 0xcb, at which C gives no answer at all.
     */
    method Parse() returns (ghost visited: nat)
      requires Valid()
      modifies this, pool, stack
      ensures Valid()
      ensures old(error) != Ok ==> error == old(error) && data == old(data) && size == old(size)
      ensures old(error) == Ok ==>
        && data == old(data[size..])
        && (error == Ok <==> Fits(data, pool.Length, stack.Length))
        && error == Outcome(data, pool.Length, stack.Length)
        && (error == Ok ==> state == ParsedTree && Holds())
        && visited <= |data| && visited <= pool.Length
    {
      hide Fits, Conserved, Outcome;
      visited := 0;
      if error != Ok {
        return;
      }
      var ok := ParseStart();
      if !ok {
        FlagError(Invalid);
        NothingDecodes(data, pool.Length, stack.Length);
        return;
      }
      ok, visited := ContinueParsing();
      if !ok {
        FlagError(Invalid);
        return;
      }
      state := ParsedTree;
    }

    // ----- Node accessors -----

    /** The node a handle shows holds the value v; the nil node of the tree holds nil. */
    ghost predicate Shows(node: Handle, v: Value)
      reads this, pool
    {
      match node
      case Nowhere => v == NilV
      case Index(i) => Represents(data, pool[..], i, v)
    }

    /** mpack_tree_root. */
    method Root() returns (node: Handle)
      requires error == Ok && state == ParsedTree ==> Holds()
      modifies this`error
      ensures error == if old(error) == Ok && state != ParsedTree then Bug else old(error)
      ensures error == Ok ==> Shows(node, Decode(data, 0).v)
    {
      if error != Ok {
        return Nowhere;
      }
      if state != ParsedTree {
        FlagError(Bug);
        return Nowhere;
      }
      node := Index(0);
    }

    function DataOf(node: Handle): (d: NodeData)
      reads pool
      requires node.Index? ==> node.i < pool.Length
    {
      if node.Index? then pool[node.i] else NilNode
    }

    /** The value a node shows, read through its type, its length, its bytes and its children. */
    method ReadNode(node: Handle, ghost v: Value) returns (r: Value)
      requires Shows(node, v)
      ensures r == v
    {
      match node {
        case Nowhere => r := NilV;
        case Index(i) => r := ReadIndex(i, v);
      }
    }

    method ReadIndex(i: nat, ghost v: Value) returns (r: Value)
      requires Represents(data, pool[..], i, v)
      ensures r == v
      decreases v, 1
    {
      match pool[i] {
        case NilNode => r := NilV;
        case BoolNode(b) => r := BoolV(b);
        case IntNode(n) => r := IntV(n);
        case UintNode(u) => r := UintV(u);
        case StrNode(len, offset) => r := StrV(data[offset..offset + len]);
        case BinNode(len, offset) => r := BinV(data[offset..offset + len]);
        case ArrayNode(len, children) =>
          var items := ReadBlock(children, len, Items(v));
          r := ArrayV(items);
        case MapNode(len, children) =>
          var pairs := ReadBlock(children, 2 * len, Items(v));
          r := MapV(pairs);
      }
    }

    method ReadBlock(first: nat, count: nat, ghost vs: seq<Value>) returns (rs: seq<Value>)
      requires |vs| == count && RepresentsAll(data, pool[..], first, vs)
      ensures rs == vs
      decreases vs, 0
    {
      if count == 0 {
        return [];
      }
      var r := ReadIndex(first, vs[0]);
      var others := ReadBlock(first + 1, count - 1, vs[1..]);
      assert vs == [vs[0]] + vs[1..];
      rs := [r] + others;
    }

    /** mpack_node_array_at: the element at the index, if the node is an array that has it. */
    method ArrayAt(node: Handle, index: nat, ghost v: Value) returns (child: Handle)
      requires error == Ok ==> Shows(node, v)
      modifies this`error
      ensures error == if old(error) != Ok then old(error)
                       else if !v.ArrayV? then Type
                       else if index >= |v.items| then Data else Ok
      ensures error == Ok ==> Shows(child, v.items[index])
    {
      if error != Ok {
        return Nowhere;
      }
      if !DataOf(node).ArrayNode? {
        FlagError(Type);
        return Nowhere;
      }
      if index >= DataOf(node).len {
        FlagError(Data);
        return Nowhere;
      }
      RepresentsAt(data, pool[..], DataOf(node).children, v.items, index);
      child := Index(DataOf(node).children + index);
    }

    /** mpack_node_u32: the number, if the node is an integer that a uint32_t holds. */
    method U32(node: Handle, ghost v: Value) returns (u: nat)
      requires error == Ok ==> Shows(node, v)
      modifies this`error
      ensures error == if old(error) != Ok then old(error) else if IsU32(v) then Ok else Type
      ensures u == if error == Ok then NumberOf(v) else 0
    {
      if error != Ok {
        return 0;
      }
      match DataOf(node) {
        case UintNode(n) =>
          if n <= U32_MAX {
            return n;
          }
        case IntNode(n) =>
          if 0 <= n <= U32_MAX {
            return n;
          }
        case _ =>
      }
      FlagError(Type);
      return 0;
    }

    /** mpack_node_i32. */
    method I32(node: Handle, ghost v: Value) returns (i: int)
      requires error == Ok ==> Shows(node, v)
      modifies this`error
      ensures error == if old(error) != Ok then old(error) else if IsI32(v) then Ok else Type
      ensures i == if error == Ok then NumberOf(v) else 0
    {
      if error != Ok {
        return 0;
      }
      match DataOf(node) {
        case UintNode(n) =>
          if n <= S32_MAX {
            return n;
          }
        case IntNode(n) =>
          if S32_MIN <= n <= S32_MAX {
            return n;
          }
        case _ =>
      }
      FlagError(Type);
      return 0;
    }

    /** mpack_node_copy_utf8_cstr: NUL-free UTF-8 that leaves room for a terminator. */
    method CopyUtf8Cstr(node: Handle, buffer: array<byte>, ghost v: Value)
      requires error == Ok ==> Shows(node, v)
      requires 1 <= buffer.Length
      modifies this`error, buffer
      ensures error == Ok <==> old(error) == Ok && IsCstr(v, buffer.Length)
      ensures error == if old(error) != Ok then old(error)
                       else if IsCstr(v, buffer.Length) then Ok
                       else if v.StrV? && |v.text| >= buffer.Length then TooBig else Type
      ensures if error == Ok then buffer[..|v.text| + 1] == v.text + [0] else buffer[0] == 0
    {
      if error != Ok {
        buffer[0] := 0;
        return;
      }
      if !DataOf(node).StrNode? {
        buffer[0] := 0;
        FlagError(Type);
        return;
      }
      var len, offset := DataOf(node).len, DataOf(node).offset;
      assert len == |v.text| && At(data, offset, v.text);
      hide Represents, Octets, CStr;
      if len > buffer.Length - 1 {
        assert !IsCstr(v, buffer.Length);
        buffer[0] := 0;
        FlagError(TooBig);
        return;
      }
      var text := data[offset..offset + len];
      assert text == v.text;
      var ok := CheckNoNull(text);
      assert ok <==> IsCstr(v, buffer.Length);
      hide IsCstr;
      if !ok {
        buffer[0] := 0;
        FlagError(Type);
        return;
      }
      MemCpy(buffer, 0, text);
      assert buffer[..len] == text;
      buffer[len] := 0;
      assert buffer[..len + 1] == buffer[..len] + [0];
    }
  }

  /** Pushing the children's level and then counting their parent down is descending. */
  lemma CountDown(stack: seq<Level>, next: nat, kids: nat)
    requires stack != [] && Top(stack).left > 0
    ensures var grown := stack + if kids == 0 then [] else [Level(next, kids)];
            grown[|stack| - 1 := Level(Top(stack).child + 1, Top(stack).left - 1)] == Descend(stack, next, kids)
  {
  }

  lemma PendingTop(stack: seq<Level>)
    requires stack != []
    ensures Pending(stack) >= Top(stack).left
  {
  }

  lemma RepresentsAt(data: seq<byte>, pool: seq<NodeData>, i: nat, vs: seq<Value>, k: nat)
    requires RepresentsAll(data, pool, i, vs) && k < |vs|
    ensures Represents(data, pool, i + k, vs[k])
    decreases k
  {
    if k > 0 {
      RepresentsAt(data, pool, i + 1, vs[1..], k - 1);
    }
  }

  predicate IsNumber(v: Value) {
    v.IntV? || v.UintV?
  }

  function NumberOf(v: Value): int
    requires IsNumber(v)
  {
    if v.IntV? then v.i else v.u
  }

  predicate IsU32(v: Value) {
    IsNumber(v) && 0 <= NumberOf(v) <= U32_MAX
  }

  predicate IsI32(v: Value) {
    IsNumber(v) && S32_MIN <= NumberOf(v) <= S32_MAX
  }

  /** A string that a C string in a buffer of the given size can hold. */
  ghost predicate IsCstr(v: Value, bufferSize: nat) {
    v.StrV? && |v.text| < bufferSize && IsUtf8(v.text) && 0 !in v.text
  }
}
