/**
  mpack_reader_t: a window on a stream. A fill function hands out the stream piece by piece, any
  number of bytes at a time; without one, the data given at the start is all there is.
 */
module Reader {
  import opened Bytes
  import opened Options
  import opened Tags
  import opened Decoder
  import opened Memory

  /** MPACK_READER_MINIMUM_BUFFER_SIZE and MPACK_READER_SMALL_FRACTION_DENOMINATOR. */
  const MINIMUM_BUFFER_SIZE: nat := 32
  const SMALL_FRACTION: nat := 32

  class Reader {
    const buffer: array<byte>
    const size: nat              // of a buffer to fill; 0 when the buffer is the data
    var data: nat                // the next byte to read
    var end: nat                 // the end of the bytes in the buffer
    var error: Error
    const hasFill: bool
    const hasSkip: bool
    var source: seq<byte>        // what the fill function has still to hand out

    ghost predicate Valid()
      reads this
    {
      && data <= end <= buffer.Length
      && (if hasFill then size == buffer.Length >= MINIMUM_BUFFER_SIZE else size == 0 && source == [] && !hasSkip)
      && (error != Ok ==> data == end)
    }

    /** All the bytes still to be read, in the buffer or not. */
    ghost function Stream(): seq<byte>
      reads this, buffer
      requires data <= end <= buffer.Length
    {
      buffer[data..end] + source
    }

    /**
      mpack_reader_init with mpack_reader_set_fill, which wants a buffer of at least the minimum size;
      the first count bytes are in the buffer already.
     */
    constructor Init(buffer: array<byte>, count: nat, source: seq<byte>, hasSkip: bool)
      requires count <= buffer.Length
      ensures Valid() && this.buffer == buffer
      ensures error == if buffer.Length >= 32 then Ok else Bug
      ensures error == Ok ==> hasFill && this.hasSkip == hasSkip && Stream() == buffer[..count] + source
    {
      var accepted := buffer.Length >= MINIMUM_BUFFER_SIZE;
      this.buffer, this.size, this.data := buffer, if accepted then buffer.Length else 0, 0;
      this.end, this.error := if accepted then count else 0, if accepted then Ok else Bug;
      this.hasFill, this.hasSkip, this.source := accepted, accepted && hasSkip, if accepted then source else [];
    }

    /** mpack_reader_init_data. */
    constructor InitData(buffer: array<byte>, count: nat)
      requires count <= buffer.Length
      ensures Valid() && error == Ok && !hasFill && this.buffer == buffer && data == 0 && end == count
      ensures Stream() == buffer[..count]
    {
      this.buffer, this.size, this.data, this.end := buffer, 0, 0, count;
      this.error, this.hasFill, this.hasSkip, this.source := Ok, false, false, [];
    }

    /** mpack_reader_flag_error: the bytes left are forgotten. */
    method FlagError(e: Error)
      requires e != Ok
      modifies this`error, this`end
      ensures error == if old(error) == Ok then e else old(error)
      ensures end == if old(error) == Ok then data else old(end)
    {
      if error == Ok {
        error := e;
        end := data;
      }
    }

    /** The error says what is wrong with a lead byte, when that is why nothing decodes. */
    ghost predicate Tells(one: One)
      reads this
    {
      && (one.NoValue? && one.why != Io ==> error == one.why)
      && (one.NoValue? && one.why == Io ==> error in {Invalid, Io})
    }

    // ----- Filling -----

    /** A fill function: at least one byte of the stream and at most count, or 0 at its end. */
    method Fill(dest: array<byte>, at: nat, count: nat) returns (n: nat)
      requires at + count <= dest.Length && 0 < count
      modifies dest, this`source
      ensures n <= count && n <= |old(source)| && (n == 0 <==> old(source) == [])
      ensures source == old(source[n..]) && dest[at..at + n] == old(source[..n])
      ensures forall k :: 0 <= k < at ==> dest[k] == old(dest[k])
      ensures forall k :: at + count <= k < dest.Length ==> dest[k] == old(dest[k])
    {
      if source == [] {
        return 0;
      }
      n :| 1 <= n <= count && n <= |source|;
      MemCpy(dest, at, source[..n]);
      Outside(dest[..], old(dest[..]), at, at + n);
      source := source[n..];
    }

    /** mpack_fill_range: between min and max bytes, unless the stream has fewer than min. */
    method FillRange(dest: array<byte>, at: nat, min: nat, max: nat) returns (count: nat)
      requires error == Ok && hasFill && 0 < min <= max && at + max <= dest.Length
      modifies dest, this`source, this`error, this`end
      ensures error == Ok <==> min <= |old(source)|
      ensures error == Ok ==> min <= count <= max && count <= |old(source)| && end == old(end)
      ensures error == Ok ==> source == old(source[count..]) && dest[at..at + count] == old(source[..count])
      ensures error != Ok ==> count == 0 && end == data && error == Io
      ensures forall k :: 0 <= k < at ==> dest[k] == old(dest[k])
    {
      count := 0;
      while count < min
        invariant count <= max && count <= |old(source)| && error == Ok && end == old(end)
        invariant source == old(source[count..]) && dest[at..at + count] == old(source[..count])
        invariant forall k :: 0 <= k < at ==> dest[k] == old(dest[k])
        decreases min - count
      {
        ghost var before := dest[at..at + count];
        var read := Fill(dest, at + count, max - count);
        if read == 0 {
          FlagError(Io);
          return 0;
        }
        assert dest[at..at + count] == before;
        assert dest[at..at + count + read] == dest[at..at + count] + dest[at + count..at + count + read];
        count := count + read;
      }
    }

    /** mpack_reader_ensure_straddle: what is left moves to the front and the buffer is filled up. */
    method EnsureStraddle(count: nat) returns (ok: bool)
      requires Valid() && error == Ok && end - data < count
      modifies buffer, this`data, this`end, this`source, this`error
      ensures Valid() && (ok <==> error == Ok)
      ensures ok <==> hasFill && count <= size && count <= |old(Stream())|
      ensures !ok ==> error == if !hasFill then Invalid else if count > size then TooBig else Io
      ensures ok ==> Stream() == old(Stream()) && count <= end - data
    {
      if !hasFill {
        FlagError(Invalid);
        return false;
      }
      if count > size {
        FlagError(TooBig);
        return false;
      }
      var left := end - data;
      ghost var window := buffer[data..end];
      MemMove(buffer, 0, data, left);
      end := end - data;
      data := 0;
      assert buffer[data..end] == window;
      ok := FillUp(count);
    }

    /** The rest of the buffer is filled until it holds count bytes. */
    method FillUp(count: nat) returns (ok: bool)
      requires Valid() && error == Ok && hasFill && data == 0 && end < count <= size
      modifies buffer, this`end, this`source, this`error
      ensures Valid() && (ok <==> error == Ok)
      ensures error == if count <= |old(Stream())| then Ok else Io
      ensures ok ==> Stream() == old(Stream()) && count <= end - data
    {
      ghost var window := buffer[..end];
      var left := end;
      var read := FillRange(buffer, left, count - left, size - left);
      if error != Ok {
        return false;
      }
      end := end + read;
      assert buffer[..left] == window;
      assert buffer[..end] == buffer[..left] + buffer[left..left + read];
      ok := true;
    }

    /** mpack_reader_ensure. */
    method Ensure(count: nat) returns (ok: bool)
      requires Valid() && error == Ok
      modifies buffer, this`data, this`end, this`source, this`error
      ensures Valid() && (ok <==> error == Ok)
      ensures ok <==> count <= |old(Stream())| && (hasFill ==> count <= size)
      ensures !ok ==> error == if !hasFill then Invalid else if count > size then TooBig else Io
      ensures ok ==> Stream() == old(Stream()) && count <= end - data
    {
      if count <= end - data {
        return true;
      }
      ok := EnsureStraddle(count);
    }

    // ----- Reading bytes -----

    /** The bytes in the buffer are the front of the stream. */
    lemma StreamFront(count: nat)
      requires Valid() && count <= end - data
      ensures Stream()[..count] == buffer[data..data + count]
      ensures Stream()[count..] == buffer[data + count..end] + source
    {
      assert Stream() == buffer[data..data + count] + (buffer[data + count..end] + source);
    }

    /** mpack_read_native_straddle: more bytes than are left in the buffer. */
    method ReadNativeStraddle(p: array<byte>, at: nat, count: nat)
      requires Valid() && p != buffer && at + count <= p.Length && end - data < count
      modifies p, buffer, this`data, this`end, this`source, this`error
      ensures Valid() && (old(error) != Ok ==> error == old(error) && Stream() == old(Stream()))
      ensures old(error) == Ok ==> (error == Ok <==> count <= |old(Stream())|)
      ensures error == Ok ==> p[at..at + count] == old(Stream()[..count]) && Stream() == old(Stream()[count..])
    {
      if error != Ok {
        Clear(p, at, count);
        return;
      }
      if !hasFill {
        FlagError(Invalid);
        Clear(p, at, count);
        return;
      }
      if size == 0 {
        assert false;  // a reader with a fill function has a buffer
      }
      var left := end - data;
      if left > 0 {
        MemCpy(p, at, buffer[data..end]);
        data := data + left;
      }
      ghost var window, ahead := p[at..at + left], source;
      assert old(Stream()) == window + ahead;
      Take(window, ahead, count);
      ReadRest(p, at + left, count - left);
      assert p[at..at + left] == p[..at + left][at..] == window;
      if error == Ok {
        hide Valid;
        assert p[at..at + count] == p[at..at + left] + p[at + left..at + count] == window + ahead[..count - left];
      }
    }

    /** The part of mpack_read_native_straddle after the bytes in the buffer are used up. */
    method ReadRest(p: array<byte>, at: nat, count: nat)
      requires Valid() && error == Ok && hasFill && data == end
      requires p != buffer && at + count <= p.Length && 0 < count
      modifies p, buffer, this`data, this`end, this`source, this`error
      ensures Valid()
      ensures error == Ok <==> count <= |old(source)|
      ensures error == Ok ==> p[at..at + count] == old(source[..count]) && Stream() == old(source[count..])
      ensures p[..at] == old(p[..at])
    {
      if count <= size / SMALL_FRACTION {
        ReadThroughBuffer(p, at, count);
      } else {
        ReadDirect(p, at, count);
      }
    }

    /** The path for a small fraction of the buffer: the buffer is filled up and the bytes copied out. */
    method ReadThroughBuffer(p: array<byte>, at: nat, count: nat)
      requires Valid() && error == Ok && hasFill && data == end
      requires p != buffer && at + count <= p.Length && 0 < count <= size
      modifies p, buffer, this`data, this`end, this`source, this`error
      ensures Valid()
      ensures error == Ok <==> count <= |old(source)|
      ensures error == Ok ==> p[at..at + count] == old(source[..count]) && Stream() == old(source[count..])
      ensures p[..at] == old(p[..at])
    {
      var read := FillRange(buffer, 0, count, size);
      if error != Ok {
        return;
      }
      MemCpy(p, at, buffer[..count]);
      data := count;
      end := read;
      assert buffer[..read] == old(source[..read]);
      assert old(source[..count]) == old(source[..read])[..count];
      assert buffer[count..read] == old(source[..read])[count..];
    }

    /** The path for more than that: the bytes go straight to their target. */
    method ReadDirect(p: array<byte>, at: nat, count: nat)
      requires Valid() && error == Ok && hasFill && data == end
      requires p != buffer && at + count <= p.Length && 0 < count
      modifies p, this`source, this`error, this`end
      ensures Valid()
      ensures error == Ok <==> count <= |old(source)|
      ensures error == Ok ==> p[at..at + count] == old(source[..count]) && Stream() == old(source[count..])
      ensures p[..at] == old(p[..at])
    {
      var _ := FillRange(p, at, count, count);
      assert buffer[data..end] == [];
    }

    /** mpack_read_native: count bytes of the stream into p, if it has that many. */
    method ReadNative(p: array<byte>, at: nat, count: nat)
      requires Valid() && p != buffer && at + count <= p.Length
      modifies p, buffer, this`data, this`end, this`source, this`error
      ensures Valid() && (old(error) != Ok ==> error == old(error) && Stream() == old(Stream()))
      ensures old(error) == Ok ==> (error == Ok <==> count <= |old(Stream())|)
      ensures error == Ok ==> p[at..at + count] == old(Stream()[..count]) && Stream() == old(Stream()[count..])
    {
      if count > end - data {
        ReadNativeStraddle(p, at, count);
      } else {
        StreamFront(count);
        MemCpy(p, at, buffer[data..data + count]);
        data := data + count;
      }
    }

    /** mpack_read_bytes_inplace: where the bytes stand in the buffer, which must be able to hold them. */
    method ReadInplace(count: nat) returns (at: Option<nat>)
      requires Valid()
      modifies buffer, this`data, this`end, this`source, this`error
      ensures Valid() && (at.Some? <==> error == Ok)
      ensures old(error) != Ok ==> error == old(error) && Stream() == old(Stream())
      ensures old(error) == Ok ==> (error == Ok <==> count <= |old(Stream())| && (hasFill ==> count <= size))
      ensures at.Some? ==> at.value + count <= buffer.Length
                           && buffer[at.value..at.value + count] == old(Stream()[..count])
                           && Stream() == old(Stream()[count..])
    {
      if error != Ok {
        return None;
      }
      if count > end - data {
        var ok := Ensure(count);
        if !ok {
          return None;
        }
      }
      at := Some(data);
      StreamFront(count);
      data := data + count;
    }

    // ----- Skipping -----

    /** A skip function. */
    method SkipSource(count: nat)
      requires error == Ok
      modifies this`source, this`error, this`end
      ensures error == if count <= |old(source)| then Ok else Io
      ensures error == Ok ==> source == old(source[count..]) && end == old(end)
      ensures error != Ok ==> end == data
    {
      if count <= |source| {
        source := source[count..];
      } else {
        FlagError(Io);
      }
    }

    /** mpack_reader_skip_using_fill: whole buffers are filled and dropped, the rest is skipped in the buffer. */
    method SkipUsingFill(count: nat)
      requires Valid() && error == Ok && hasFill && data == end && 0 < count
      modifies buffer, this`data, this`end, this`source, this`error
      ensures Valid()
      ensures error == if count <= |old(source)| then Ok else Io
      ensures error == Ok ==> Stream() == old(source[count..])
    {
      var skipped := 0;
      while count - skipped > size
        invariant skipped < count && skipped <= |old(source)|
        invariant Valid() && error == Ok && data == end && source == old(source[skipped..])
        decreases count - skipped
      {
        var read := FillRange(buffer, 0, size, size);
        if read < size {
          FlagError(Io);
          return;
        }
        skipped := skipped + size;
      }
      data := 0;
      end := 0;
      var rest := count - skipped;
      var read := FillRange(buffer, 0, rest, size);
      if read < rest {
        FlagError(Io);
        return;
      }
      end := data + read;
      data := data + rest;
      assert buffer[data..end] == buffer[..read][rest..];
    }

    /** mpack_skip_bytes_straddle. */
    method SkipBytesStraddle(count: nat)
      requires Valid() && error == Ok && end - data < count
      modifies buffer, this`data, this`end, this`source, this`error
      ensures Valid()
      ensures error == if count <= |old(Stream())| then Ok else if hasFill then Io else Invalid
      ensures error == Ok ==> Stream() == old(Stream()[count..])
    {
      if !hasFill {
        FlagError(Invalid);
        return;
      }
      var left := end - data;
      data := end;
      Take(old(buffer[data..end]), source, count);
      if hasSkip && count - left > size / 16 {
        SkipSource(count - left);
        return;
      }
      SkipUsingFill(count - left);
    }

    /** mpack_skip_bytes. */
    method SkipBytes(count: nat)
      requires Valid()
      modifies buffer, this`data, this`end, this`source, this`error
      ensures Valid() && (old(error) != Ok ==> error == old(error) && Stream() == old(Stream()))
      ensures old(error) == Ok ==> error == if count <= |old(Stream())| then Ok else if hasFill then Io else Invalid
      ensures error == Ok ==> Stream() == old(Stream()[count..])
    {
      if error != Ok {
        return;
      }
      if count <= end - data {
        data := data + count;
        return;
      }
      SkipBytesStraddle(count);
    }

    // ----- Tags -----

    /** mpack_parse_tag: 0 stands for an error. */
    method ParseTag() returns (tag: Tag, count: nat)
      requires Valid() && error == Ok
      modifies buffer, this`data, this`end, this`source, this`error
      ensures Valid()
      ensures match ReadHead(old(Stream()), 0)
              case Tagged(t, n) => error == Ok && tag == t && count == n <= end - data && Stream() == old(Stream())
              case Short => error in {Invalid, Io} && count == 0
              case Rejected(e) => error == e && count == 0
    {
      tag := Nil;
      var ok := Ensure(1);
      if !ok {
        return tag, 0;
      }
      assert Stream()[0] == buffer[data];
      match Classify(buffer[data]) {
        case Whole(t) =>
          return t, 1;
        case Extended(kind, width) =>
          ok := Ensure(1 + width);
          if !ok {
            return tag, 0;
          }
          WindowLoad(width);
          var raw := Load(buffer[..], data + 1, width);
          return Extend(kind, width, raw), 1 + width;
        case Bad(e) =>
          FlagError(e);
          return tag, 0;
      }
    }

    /** A load from the buffer is a load from the stream. */
    lemma WindowLoad(width: Width)
      requires data <= end <= buffer.Length && 1 + width <= end - data
      ensures |Stream()| >= 1 + width && Stream()[0] == buffer[data]
      ensures Load(buffer[..], data + 1, width) == Load(Stream(), 1, width)
    {
      var e := buffer[data + 1..data + 1 + width];
      forall k | 0 <= k < width ensures Stream()[1 + k] == e[k] {
      }
      assert Stream()[1..1 + width] == e;
      LoadLocal(buffer[..], data + 1, e, width);
      LoadLocal(Stream(), 1, e, width);
    }

    /** mpack_read_tag: the tag at the head of the stream, which moves past it. */
    method ReadTag() returns (tag: Tag)
      requires Valid()
      modifies buffer, this`data, this`end, this`source, this`error
      ensures Valid() && (old(error) != Ok ==> error == old(error) && tag == Nil)
      ensures old(error) == Ok ==>
        match ReadHead(old(Stream()), 0)
        case Tagged(t, n) => error == Ok && tag == t && Stream() == old(Stream()[n..])
        case Short => error in {Invalid, Io} && tag == Nil
        case Rejected(e) => error == e && tag == Nil
    {
      hide ReadHead;
      if error != Ok {
        return Nil;
      }
      var count;
      tag, count := ParseTag();
      if count == 0 {
        return Nil;
      }
      data := data + count;
    }

    // ----- Whole objects -----

    /** mpack_discard: exactly the bytes of one object go, if there is one. */
    method Discard()
      requires Valid()
      modifies buffer, this`data, this`end, this`source, this`error
      ensures Valid() && (old(error) != Ok ==> error == old(error))
      ensures old(error) == Ok ==> (error == Ok <==> Decode(old(Stream()), 0).Got?)
      ensures old(error) == Ok ==> Tells(Decode(old(Stream()), 0))
      ensures error == Ok ==> Stream() == old(Stream())[Decode(old(Stream()), 0).next..]
      decreases if error == Ok then 1 + |Stream()| else 0, 0
    {
      hide ReadHead, Decode, DecodeAll, Build;
      ghost var all := Stream();
      DecodeHead(all, 0);
      var tag := ReadTag();
      if error == Ok {
        DiscardBody(tag, all, ReadHead(all, 0).size);
      }
    }

    /** The part of mpack_discard behind the tag. */
    method DiscardBody(tag: Tag, ghost all: seq<byte>, ghost body: nat)
      requires Valid() && error == Ok && body <= |all| && Stream() == all[body..]
      modifies buffer, this`data, this`end, this`source, this`error
      ensures Valid()
      ensures var rest := body + PayloadSize(tag);
              if rest > |all| then error != Ok && Tells(NoValue(Io))
              else match DecodeAll(all, rest, ChildCount(tag))
                case NoValues(why) => error != Ok && Tells(NoValue(why))
                case GotAll(_, next) => error == Ok && Stream() == all[next..]
      decreases 1 + |Stream()|, 2
    {
      hide Decode, DecodeAll;
      ghost var rest := body + PayloadSize(tag);
      match tag {
        case Str(l) => SkipBytes(l);
        case Bin(l) => SkipBytes(l);
        case Array(n) => DiscardChildren(n, all, body);
        case Map(n) => DiscardChildren(2 * n, all, body);
        case _ =>
      }
      if ChildCount(tag) == 0 && rest <= |all| {
        DecodeNothing(all, rest);
      }
    }

    /**
      The loops of mpack_discard over the elements of an array, or over the pairs of a map; in the
      latter the discard that follows a failed one does nothing.
     */
    method DiscardChildren(count: nat, ghost all: seq<byte>, ghost body: nat)
      requires Valid() && error == Ok && body <= |all| && Stream() == all[body..]
      modifies buffer, this`data, this`end, this`source, this`error
      ensures Valid()
      ensures error == Ok <==> DecodeAll(all, body, count).GotAll?
      ensures DecodeAll(all, body, count).NoValues? ==> Tells(NoValue(DecodeAll(all, body, count).why))
      ensures error == Ok ==> Stream() == all[DecodeAll(all, body, count).next..]
      decreases 1 + |Stream()|, 1
    {
      hide Decode;
      var left: nat := count;
      ghost var pos := body;
      while left > 0
        invariant left <= count && body <= pos <= |all|
        invariant Valid() && error == Ok && Stream() == all[pos..]
        invariant SameEnd(DecodeAll(all, body, count), DecodeAll(all, pos, left))
      {
        DecodeSuffix(all, pos);
        Discard();
        if error != Ok {
          DecodeAllNone(all, pos, left);
          return;
        }
        DecodeAllCons(all, pos, left);
        ghost var next := Decode(all, pos).next;
        assert all[pos..][next - pos..] == all[next..];
        left, pos := left - 1, next;
      }
      DecodeNothing(all, pos);
    }
  }

  /** Sequences that agree everywhere but between two indices, index by index. */
  lemma Outside(a: seq<byte>, b: seq<byte>, low: nat, high: nat)
    requires low <= high <= |a| == |b| && a[..low] == b[..low] && a[high..] == b[high..]
    ensures forall k :: 0 <= k < low || high <= k < |a| ==> a[k] == b[k]
  {
    forall k | high <= k < |a| ensures a[k] == b[k] {
      assert a[k] == a[high..][k - high];
      assert b[k] == b[high..][k - high];
    }
  }

  /** The first count bytes of a window and what follows it, when the window is too short. */
  lemma Take(window: seq<byte>, rest: seq<byte>, count: nat)
    requires |window| <= count
    ensures count <= |window + rest| ==>
              && (window + rest)[..count] == window + rest[..count - |window|]
              && (window + rest)[count..] == rest[count - |window|..]
  {
  }

  ghost predicate SameEnd(a: Many, b: Many) {
    if a.GotAll? then b.GotAll? && a.next == b.next else a == b
  }
}
