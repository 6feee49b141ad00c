/** The tree parser and the reader of mpack.c are two decoders of one format. */
module Agreement {
  import opened Bytes
  import opened Tags
  import opened Decoder
  import opened Parser
  import opened Tree
  import opened Walks
  import opened Reader
  import opened Memory

  /** The tags of an object's nodes, depth first. */
  function NodeTags(v: Value): seq<Tag>
    decreases v, 1
  {
    match v
    case ArrayV(items) => [TagOf(v)] + NodeTagsAll(items)
    case MapV(pairs) => [TagOf(v)] + NodeTagsAll(pairs)
    case _ => [TagOf(v)]
  }

  function NodeTagsAll(vs: seq<Value>): seq<Tag>
    decreases vs, 0
  {
    if vs == [] then [] else NodeTags(vs[0]) + NodeTagsAll(vs[1..])
  }

  lemma NodeTagsConcat(a: seq<Value>, b: seq<Value>)
    ensures NodeTagsAll(a + b) == NodeTagsAll(a) + NodeTagsAll(b)
  {
    if a == [] {
      assert a + b == b;
    } else {
      assert (a + b)[1..] == a[1..] + b;
      NodeTagsConcat(a[1..], b);
    }
  }

  lemma BuildTags(tag: Tag, payload: seq<byte>, items: seq<Value>)
    requires |payload| == PayloadSize(tag) && |items| == ChildCount(tag)
    ensures NodeTags(Build(tag, payload, items)) == [tag] + NodeTagsAll(items)
  {
    assert items == [] ==> NodeTagsAll(items) == [];
    assert [tag] + [] == [tag];
  }

  /** Reading a tag and its payload turns the first object pending into its children. */
  lemma FlatStep(data: seq<byte>, pos: nat, pending: nat)
    requires 0 < pending && pos <= |data| && ReadHead(data, pos).Tagged?
    ensures var head := ReadHead(data, pos);
            var rest := pos + head.size + PayloadSize(head.tag);
            var before := DecodeAll(data, pos, pending);
            if rest > |data| then before == NoValues(Io)
            else var after := DecodeAll(data, rest, ChildCount(head.tag) + (pending - 1));
              && SameEnd(before, after)
              && (before.GotAll? ==> NodeTagsAll(before.vs) == [head.tag] + NodeTagsAll(after.vs))
  {
    hide ReadHead, DecodeAll, NodeTagsAll;
    var head := ReadHead(data, pos);
    var body := pos + head.size;
    var rest := body + PayloadSize(head.tag);
    if rest > |data| {
      DecodeAllNone(data, pos, pending);
    } else {
      DecodeAllSplit(data, rest, ChildCount(head.tag), pending - 1);
      var kids := DecodeAll(data, rest, ChildCount(head.tag));
      if kids.NoValues? {
        DecodeAllNone(data, pos, pending);
      } else {
        DecodeAllCons(data, pos, pending);
        var others := DecodeAll(data, kids.next, pending - 1);
        if others.GotAll? {
          BuildTags(head.tag, data[body..rest], kids.vs);
          NodeTagsConcat(kids.vs, others.vs);
          TagsFirst(Decode(data, pos).v, others.vs);
        }
      }
    }
  }

  lemma TagsFirst(v: Value, vs: seq<Value>)
    ensures NodeTagsAll([v] + vs) == NodeTags(v) + NodeTagsAll(vs)
  {
    assert ([v] + vs)[1..] == vs;
  }

  lemma FlatFails(data: seq<byte>, pos: nat, pending: nat)
    requires 0 < pending && pos <= |data| && !ReadHead(data, pos).Tagged?
    ensures var head := ReadHead(data, pos);
            DecodeAll(data, pos, pending) == NoValues(if head.Short? then Io else head.error)
  {
  }

  /** The tags read so far, and the tags of the objects pending at pos, are those of the object at the start. */
  ghost predicate FlatSoFar(data: seq<byte>, pos: nat, pending: nat, tags: seq<Tag>) {
    && pos <= |data|
    && var goal, ahead := Decode(data, 0), DecodeAll(data, pos, pending);
       && (goal.Got? <==> ahead.GotAll?)
       && (goal.NoValue? ==> ahead == NoValues(goal.why))
       && (goal.Got? ==> goal.next == ahead.next && NodeTags(goal.v) == tags + NodeTagsAll(ahead.vs))
  }

  lemma FlatStart(data: seq<byte>)
    ensures FlatSoFar(data, 0, 1, [])
  {
    OneObject(data);
  }

  lemma FlatAdvance(data: seq<byte>, pos: nat, pending: nat, tags: seq<Tag>)
    requires 0 < pending && FlatSoFar(data, pos, pending, tags)
    ensures var head := ReadHead(data, pos);
            if head.Tagged? && pos + head.size + PayloadSize(head.tag) <= |data| then
              FlatSoFar(data, pos + head.size + PayloadSize(head.tag),
                        ChildCount(head.tag) + (pending - 1), tags + [head.tag])
            else Decode(data, 0) == NoValue(if head.Rejected? then head.error else Io)
  {
    hide ReadHead, Decode, DecodeAll, NodeTags, NodeTagsAll;
    if ReadHead(data, pos).Tagged? {
      FlatStep(data, pos, pending);
    } else {
      FlatFails(data, pos, pending);
    }
  }

  lemma FlatEnd(data: seq<byte>, pos: nat, tags: seq<Tag>)
    requires FlatSoFar(data, pos, 0, tags)
    ensures Decode(data, 0).Got? && Decode(data, 0).next == pos && NodeTags(Decode(data, 0).v) == tags
  {
    hide Decode, NodeTags;
    DecodeNothing(data, pos);
  }

  /** One tag, and its payload skipped. */
  method ReadOne(reader: Reader, ghost all: seq<byte>, ghost pos: nat) returns (tag: Tag)
    requires reader.Valid() && reader.error == Ok && pos <= |all| && reader.Stream() == all[pos..]
    modifies reader.buffer, reader`data, reader`end, reader`source, reader`error
    ensures reader.Valid()
    ensures var head := ReadHead(all, pos);
            if head.Tagged? && pos + head.size + PayloadSize(head.tag) <= |all| then
              reader.error == Ok && tag == head.tag && reader.Stream() == all[pos + head.size + PayloadSize(head.tag)..]
            else reader.error != Ok && reader.Tells(NoValue(if head.Rejected? then head.error else Io))
  {
    hide ReadHead;
    HeadShifted(all, pos, pos);
    tag := reader.ReadTag();
    if reader.error != Ok {
      return;
    }
    ghost var body := pos + ReadHead(all, pos).size;
    SuffixOfSuffix(all, pos, body);
    reader.SkipBytes(PayloadSize(tag));
    if reader.error == Ok {
      SuffixOfSuffix(all, body, body + PayloadSize(tag));
    }
  }

  /** Reading tags until nothing is pending, skipping payloads: the tags of the object's nodes, depth first. */
  method ReadTags(reader: Reader) returns (tags: seq<Tag>)
    requires reader.Valid() && reader.error == Ok
    modifies reader.buffer, reader`data, reader`end, reader`source, reader`error
    ensures reader.Valid()
    ensures reader.error == Ok <==> Decode(old(reader.Stream()), 0).Got?
    ensures reader.Tells(Decode(old(reader.Stream()), 0))
    ensures reader.error == Ok ==> var r := Decode(old(reader.Stream()), 0);
                                   tags == NodeTags(r.v) && reader.Stream() == old(reader.Stream())[r.next..]
  {
    hide ReadHead, Decode, NodeTags, FlatSoFar;
    ghost var all := reader.Stream();
    assert all[0..] == all;
    FlatStart(all);
    ghost var pos := 0;
    var pending: nat := 1;
    tags := [];
    while pending > 0
      invariant pos <= |all| && reader.Valid() && reader.error == Ok && reader.Stream() == all[pos..]
      invariant FlatSoFar(all, pos, pending, tags)
      decreases |all| - pos
    {
      FlatAdvance(all, pos, pending, tags);
      var tag := ReadOne(reader, all, pos);
      if reader.error != Ok {
        return;
      }
      pos := pos + ReadHead(all, pos).size + PayloadSize(tag);
      tags, pending := tags + [tag], ChildCount(tag) + (pending - 1);
    }
    FlatEnd(all, pos, tags);
  }

  lemma SuffixOfSuffix(s: seq<byte>, a: nat, b: nat)
    requires a <= b <= |s|
    ensures s[a..][b - a..] == s[b..]
  {
  }

  lemma OneObject(data: seq<byte>)
    ensures match Decode(data, 0)
            case NoValue(why) => DecodeAll(data, 0, 1) == NoValues(why)
            case Got(v, next) => DecodeAll(data, 0, 1) == GotAll([v], next) && NodeTagsAll([v]) == NodeTags(v)
  {
    hide Decode;
    if Decode(data, 0).Got? {
      DecodeAllCons(data, 0, 1);
      DecodeNothing(data, Decode(data, 0).next);
      TagsFirst(Decode(data, 0).v, []);
      assert [Decode(data, 0).v] + [] == [Decode(data, 0).v];
    } else {
      DecodeAllNone(data, 0, 1);
    }
  }

  /**
    What the tree parser accepts, mpack_discard accepts, and both take the same number of bytes. Bytes on
    which the parser has no answer are bytes on which the reader has none.
   */
  method ParseAndDiscard(bytes: seq<byte>, poolCount: nat, capacity: nat)
    returns (treeError: Error, treeSize: nat, readerError: Error, remaining: nat)
    requires poolCount <= U32_MAX && 1 <= capacity
    ensures readerError == Ok <==> Decode(bytes, 0).Got?
    ensures readerError == Undefined <==> Decode(bytes, 0) == NoValue(Undefined)
    ensures treeError == if poolCount == 0 then Bug else Outcome(bytes, poolCount, capacity)
    ensures treeError == Undefined ==> readerError == Undefined
    ensures treeError == Ok <==> readerError == Ok && Count(Decode(bytes, 0).v) <= poolCount
                                 && Depth(Decode(bytes, 0).v) + 1 <= capacity
    ensures treeError == Ok ==> treeSize + remaining == |bytes|
  {
    hide Decode, Represents, Separated, Count, Depth, Outcome;
    var tree := new Tree.InitPool(bytes, poolCount, capacity);
    assert bytes[0..] == bytes;
    var _ := tree.Parse();
    var buffer := new byte[|bytes|](_ => 0);
    MemCpy(buffer, 0, bytes);
    assert buffer[..|bytes|] == bytes;
    var reader := new Reader.InitData(buffer, |bytes|);
    reader.Discard();
    treeError, readerError := tree.error, reader.error;
    treeSize, remaining := tree.size, reader.end - reader.data;
    assert treeError == Ok ==> |reader.Stream()| == |bytes[treeSize..]|;
    if treeError == Undefined {
      UndefinedDecodes(bytes, poolCount, capacity);
    }
  }
}
