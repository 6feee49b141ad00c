/**
  mpack_writer_t: a buffer, an optional flush function, and tracking as a build option. The flush
  functions modelled are none at all, one that hands the bytes to a sink, and the growable one that
  keeps them by enlarging the buffer.
 */
module Writer {
  import opened Bytes
  import opened Options
  import opened Tags
  import opened Tracking
  import opened Memory
  import opened Utf8

  datatype FlushKind = NoFlush | ToSink | Growable

  /** MPACK_WRITER_MINIMUM_BUFFER_SIZE. */
  const MINIMUM_BUFFER_SIZE: nat := 32

  /** The size mpack_growable_writer_flush asks for: at least double, and enough. */
  method GrownSize(size: nat, needed: nat) returns (newSize: nat)
    requires size > 0
    ensures newSize >= 2 * size && newSize >= needed
  {
    newSize := size * 2;
    while newSize < needed
      invariant newSize >= 2 * size
    {
      newSize := newSize * 2;
    }
  }

  class Writer {
    var buffer: array<byte>
    var current: nat
    var error: Error
    var flush: FlushKind
    var sink: seq<byte>          // what a ToSink flush has been given
    const tracking: bool
    var track: seq<Open>

    ghost predicate Valid()
      reads this
    {
      && current <= buffer.Length
      && (flush != NoFlush ==> buffer.Length >= MINIMUM_BUFFER_SIZE)
      && (flush != ToSink ==> sink == [])
    }

    /** Everything written: what was flushed and what is in the buffer. */
    ghost function Out(): seq<byte>
      reads this, buffer
      requires Valid()
    {
      sink + buffer[..current]
    }

    function Left(): (n: int)
      reads this
    {
      buffer.Length - current
    }

    ghost function CurrentStage(): Stage
      reads this, buffer
      requires Valid()
    {
      Stage(Out(), track)
    }

    /** mpack_writer_init, and mpack_writer_set_flush, which wants a buffer of at least the minimum size. */
    constructor Init(buffer: array<byte>, flush: FlushKind, tracking: bool)
      ensures var refused := flush != NoFlush && buffer.Length < 32;
              this.flush == (if refused then NoFlush else flush) && error == if refused then Bug else Ok
      ensures Valid() && this.buffer == buffer && this.tracking == tracking
      ensures current == 0 && CurrentStage() == Stage([], [])
    {
      var refused := flush != NoFlush && buffer.Length < MINIMUM_BUFFER_SIZE;
      this.buffer, this.current, this.error := buffer, 0, if refused then Bug else Ok;
      this.flush := if refused then NoFlush else flush;
      this.sink, this.track, this.tracking := [], [], tracking;
    }

    /**
      The bytes e were appended, or an error is flagged; with a fixed buffer and no tracking, exactly
      when they do not fit.
     */
    twostate predicate Appended(e: seq<byte>)
      reads this, buffer
      requires old(Valid())
    {
      && Valid() && flush == old(flush) && (buffer == old(buffer) || fresh(buffer))
      && (error == Ok ==> old(error) == Ok && Out() == old(Out()) + e)
      && (old(error) != Ok ==> error == old(error))
      && (flush == NoFlush ==> buffer == old(buffer))
      && (flush == NoFlush && !tracking && old(error) == Ok ==> (error == Ok <==> |e| <= old(Left())))
    }

    /** mpack_writer_flag_error. */
    method FlagError(e: Error)
      modifies this`error
      ensures error == if old(error) == Ok then e else old(error)
    {
      if error == Ok {
        error := e;
      }
    }

    // ----- Tracking -----

    /** mpack_writer_track_element. */
    method MarkElement()
      modifies this`error, this`track
      ensures old(error) != Ok || !tracking ==> error == old(error) && track == old(track)
      ensures old(error) == Ok && tracking ==>
        match TrackElement(old(track))
        case Some(after) => error == Ok && track == after
        case None => error == Bug
    {
      if error == Ok && tracking {
        if |track| > 0 {
          var top := track[|track| - 1];
          if !IsContainer(top.kind) || top.left == 0 {
            FlagError(Bug);
          } else {
            track := track[|track| - 1 := top.(left := top.left - 1)];
          }
        }
      }
    }

    /** mpack_writer_track_push. Growing the track can run out of memory. */
    method MarkOpen(tag: Tag)
      requires OpenFor(tag).Some?
      modifies this`error, this`track
      ensures old(error) != Ok || !tracking ==> error == old(error) && track == old(track)
      ensures old(error) == Ok && tracking ==> error == Memory || (error == Ok && track == TrackPush(old(track), tag))
    {
      if error == Ok && tracking {
        if * {
          FlagError(Memory);
        } else {
          track := track + [OpenFor(tag).value];
        }
      }
    }

    /** mpack_writer_track_bytes. */
    method MarkBytes(count: nat)
      modifies this`error, this`track
      ensures old(error) != Ok || !tracking ==> error == old(error) && track == old(track)
      ensures old(error) == Ok && tracking ==>
        match TrackBytes(old(track), count)
        case Some(after) => error == Ok && track == after
        case None => error == Bug
    {
      if error == Ok && tracking {
        if |track| == 0 {
          FlagError(Bug);
          return;
        }
        var top := track[|track| - 1];
        if IsContainer(top.kind) || top.left < count {
          FlagError(Bug);
        } else {
          track := track[|track| - 1 := top.(left := top.left - count)];
        }
      }
    }

    /** mpack_finish_type: mpack_writer_track_pop. */
    method Finish(kind: OpenKind)
      requires Valid()
      modifies this`error, this`track
      ensures Appended([])
      ensures tracking && error == Ok ==> Apply(old(CurrentStage()), Call.Finish(kind)) == Some(CurrentStage())
      ensures !tracking ==> error == old(error) && track == old(track)
    {
      if error == Ok && tracking {
        if |track| == 0 {
          FlagError(Bug);
          return;
        }
        var top := track[|track| - 1];
        if top.kind != kind || top.left != 0 {
          FlagError(Bug);
        } else {
          track := track[..|track| - 1];
        }
      }
      assert Out() + [] == Out();
    }

    // ----- Flushing -----

    /** A flush function that hands the bytes on. It may fail. */
    method SinkFlush(bytes: seq<byte>)
      requires error == Ok
      modifies this`error, this`sink
      ensures error == Ok ==> sink == old(sink) + bytes
    {
      if * {
        FlagError(Io);
      } else {
        sink := sink + bytes;
      }
    }

    /**
      mpack_growable_writer_flush in its three modes: at the end, when the buffer is flushed with its
      bytes still counted as used, it does nothing; while writing, the bytes of the buffer stay and the
      buffer grows, or bytes from elsewhere are added to a buffer grown to hold them.
     */
    method GrowableFlush(own: bool, bytes: seq<byte>)
      requires Valid() && flush == Growable && error == Ok
      requires own ==> |bytes| <= buffer.Length && buffer[..|bytes|] == bytes
      modifies this`buffer, this`current, this`error
      ensures Valid() && (buffer == old(buffer) || fresh(buffer))
      ensures own && old(current) == |bytes| ==> error == Ok && buffer == old(buffer) && current == old(current)
      ensures own && old(current) != |bytes| && error == Ok ==>
                buffer[..current] == bytes && buffer.Length >= 2 * old(buffer.Length)
      ensures !own && error == Ok ==> buffer[..current] == old(buffer[..current]) + bytes
    {
      var count := |bytes|;
      if own {
        if current == count {
          return;
        }
        current := count;
        count := 0;
      }
      var used, size := current, buffer.Length;
      var newSize := GrownSize(size, used + count);
      if * {
        FlagError(Memory);
        return;
      }
      var newBuffer := new byte[newSize](_ => 0);
      MemCpy(newBuffer, 0, buffer[..used]);
      buffer := newBuffer;
      if count > 0 {
        MemCpy(newBuffer, used, bytes);
        current := current + count;
        assert newBuffer[..current] == newBuffer[..used] + newBuffer[used..used + count];
      } else if !own {
        assert bytes == [];
      }
    }

    /** mpack_writer_flush_unchecked: the buffer has room again, and nothing is lost. */
    method FlushUnchecked()
      requires Valid() && flush != NoFlush && error == Ok
      modifies this`buffer, this`current, this`error, this`sink
      ensures Valid() && (buffer == old(buffer) || fresh(buffer))
      ensures error == Ok ==> Out() == old(Out()) && Left() >= MINIMUM_BUFFER_SIZE
      ensures error == Ok && flush == ToSink ==> current == 0
    {
      var used := current;
      current := 0;
      match flush {
        case ToSink => SinkFlush(buffer[..used]);
        case Growable => GrowableFlush(true, buffer[..used]);
      }
    }

    // ----- Raw writes -----

    /** mpack_memcpy to writer->current. */
    method CopyIn(e: seq<byte>)
      requires Valid() && |e| <= Left()
      modifies this`current, buffer
      ensures Valid() && Out() == old(Out()) + e
    {
      MemCpy(buffer, current, e);
      current := current + |e|;
      assert buffer[..current] == buffer[..current - |e|] + buffer[current - |e|..current];
    }

    /** mpack_writer_ensure. */
    method Ensure(count: nat) returns (ok: bool)
      requires Valid() && Left() < count <= MINIMUM_BUFFER_SIZE
      modifies this`buffer, this`current, this`error, this`sink
      ensures Valid() && flush == old(flush) && (old(error) != Ok ==> error == old(error))
      ensures error == Ok ==> old(error) == Ok && flush != NoFlush && Out() == old(Out())
      ensures flush == NoFlush ==> buffer == old(buffer)
      ensures buffer == old(buffer) || fresh(buffer)
      ensures ok <==> error == Ok
      ensures ok ==> count <= Left()
    {
      if error != Ok {
        return false;
      }
      if flush == NoFlush {
        FlagError(TooBig);
        return false;
      }
      FlushUnchecked();
      if error != Ok {
        return false;
      }
      if Left() < count {
        assert false;  // where the source flags an error for a flush that made no room
      }
      ok := true;
    }

    /** mpack_write_native_straddle: the bytes do not fit in what is left of the buffer. */
    method WriteNativeStraddle(p: seq<byte>)
      requires Valid() && |p| > Left()
      modifies this`buffer, this`current, this`error, this`sink, buffer
      ensures Appended(p)
    {
      if error != Ok {
        return;
      }
      if flush == NoFlush {
        FlagError(TooBig);
        return;
      }
      FlushUnchecked();
      if error != Ok {
        return;
      }
      if |p| > Left() {
        match flush {
          case ToSink => SinkFlush(p);
          case Growable => GrowableFlush(false, p);
        }
      } else {
        CopyIn(p);
      }
    }

    /** mpack_write_native. */
    method WriteNative(p: seq<byte>)
      requires Valid()
      modifies this`buffer, this`current, this`error, this`sink, buffer
      ensures Appended(p)
    {
      if Left() < |p| {
        WriteNativeStraddle(p);
      } else {
        CopyIn(p);
      }
    }

    /** MPACK_WRITE_ENCODED, for encodings no longer than the minimum buffer size. */
    method WriteEncoded(e: seq<byte>)
      requires Valid() && 1 <= |e| <= MINIMUM_BUFFER_SIZE
      modifies this`buffer, this`current, this`error, this`sink, buffer
      ensures Appended(e)
    {
      var ok := Left() >= |e|;
      if !ok {
        ok := Ensure(|e|);
      }
      if ok {
        CopyIn(e);
      }
    }

    // ----- The writers -----

    /** The call put out the bytes e, and the tracking, if built in, went along with it. */
    twostate predicate Did(call: Call, e: seq<byte>)
      reads this, buffer
      requires old(Valid()) && Callable(call)
    {
      && Appended(e)
      && (tracking && error == Ok ==> Apply(old(CurrentStage()), call) == Some(CurrentStage()))
      && (!tracking ==> track == old(track))
    }

    /** What every writer of a scalar does once it has chosen the bytes of its tag. */
    method WriteScalar(ghost tag: Tag, e: seq<byte>)
      requires Valid() && InRange(tag) && OpenFor(tag).None? && e == EncodeTag(tag)
      modifies this, buffer
      ensures Did(Call.WriteTag(tag), e)
    {
      hide EncodeTag;
      MarkElement();
      WriteEncoded(e);
    }

    /** And what every writer does that opens an element. */
    method WriteStart(tag: Tag, e: seq<byte>)
      requires Valid() && InRange(tag) && OpenFor(tag).Some? && e == EncodeTag(tag)
      modifies this, buffer
      ensures Did(Call.WriteTag(tag), e)
    {
      hide EncodeTag;
      MarkElement();
      WriteEncoded(e);
      MarkOpen(tag);
    }

    /** mpack_write_nil. */
    method WriteNil()
      requires Valid()
      modifies this, buffer
      ensures Did(Call.WriteTag(Nil), EncodeTag(Nil))
    {
      WriteScalar(Nil, [0xc0]);
    }

    /** mpack_write_bool. */
    method WriteBool(value: bool)
      requires Valid()
      modifies this, buffer
      ensures Did(Call.WriteTag(Bool(value)), EncodeTag(Bool(value)))
    {
      WriteScalar(Bool(value), [if value then 0xc3 else 0xc2]);
    }

    /** mpack_write_u32. */
    method WriteU32(value: nat)
      requires Valid() && value <= U32_MAX
      modifies this, buffer
      ensures Did(Call.WriteTag(Uint(value)), EncodeTag(Uint(value)))
    {
      hide Store, Unsigned, Valid, Did;
      var e;
      if value <= 127 {
        e := [value];
      } else if value <= U8_MAX {
        e := [0xcc] + Store(value, 1);
      } else if value <= U16_MAX {
        e := [0xcd] + Store(value, 2);
      } else {
        e := [0xce] + Store(value, 4);
      }
      WriteScalar(Uint(value), e);
    }

    /** mpack_write_u64. */
    method WriteU64(value: nat)
      requires Valid() && value <= U64_MAX
      modifies this, buffer
      ensures Did(Call.WriteTag(Uint(value)), EncodeTag(Uint(value)))
    {
      hide Store, Unsigned, Valid, Did;
      var e;
      if value <= 127 {
        e := [value];
      } else if value <= U8_MAX {
        e := [0xcc] + Store(value, 1);
      } else if value <= U16_MAX {
        e := [0xcd] + Store(value, 2);
      } else if value <= U32_MAX {
        e := [0xce] + Store(value, 4);
      } else {
        e := [0xcf] + Store(value, 8);
      }
      WriteScalar(Uint(value), e);
    }

    /** mpack_write_i32. */
    method WriteI32(value: int)
      requires Valid() && S32_MIN <= value <= S32_MAX
      modifies this, buffer
      ensures Did(Call.WriteTag(Int(value)), EncodeTag(Int(value)))
    {
      hide Store, Unsigned, Valid, Did;
      var e;
      if value >= -32 {
        if value <= 127 {
          e := [value % 0x100];
        } else if value <= U8_MAX {
          e := [0xcc] + Store(value, 1);
        } else if value <= U16_MAX {
          e := [0xcd] + Store(value, 2);
        } else {
          e := [0xce] + Store(value, 4);
        }
      } else if value >= -0x80 {
        e := [0xd0] + Store(Unsigned(value, 1), 1);
      } else if value >= -0x8000 {
        e := [0xd1] + Store(Unsigned(value, 2), 2);
      } else {
        e := [0xd2] + Store(Unsigned(value, 4), 4);
      }
      WriteScalar(Int(value), e);
    }

    /** mpack_write_i64. */
    method WriteI64(value: int)
      requires Valid() && S64_MIN <= value <= S64_MAX
      modifies this, buffer
      ensures Did(Call.WriteTag(Int(value)), EncodeTag(Int(value)))
    {
      hide Store, Unsigned, Valid, Did;
      var e;
      if value >= -32 {
        if value <= 127 {
          e := [value % 0x100];
        } else if value <= U8_MAX {
          e := [0xcc] + Store(value, 1);
        } else if value <= U16_MAX {
          e := [0xcd] + Store(value, 2);
        } else if value <= U32_MAX {
          e := [0xce] + Store(value, 4);
        } else {
          e := [0xcf] + Store(value, 8);
        }
      } else if value >= -0x80 {
        e := [0xd0] + Store(Unsigned(value, 1), 1);
      } else if value >= -0x8000 {
        e := [0xd1] + Store(Unsigned(value, 2), 2);
      } else if value >= S32_MIN {
        e := [0xd2] + Store(Unsigned(value, 4), 4);
      } else {
        e := [0xd3] + Store(Unsigned(value, 8), 8);
      }
      WriteScalar(Int(value), e);
    }

    /** mpack_start_array. */
    method StartArray(count: nat)
      requires Valid() && count <= U32_MAX
      modifies this, buffer
      ensures Did(Call.WriteTag(Array(count)), EncodeTag(Array(count)))
    {
      var e;
      if count <= 15 {
        e := [0x90 + count];
      } else if count <= U16_MAX {
        e := [0xdc] + Store(count, 2);
      } else {
        e := [0xdd] + Store(count, 4);
      }
      WriteStart(Array(count), e);
    }

    /** mpack_start_map. */
    method StartMap(count: nat)
      requires Valid() && count <= U32_MAX
      modifies this, buffer
      ensures Did(Call.WriteTag(Map(count)), EncodeTag(Map(count)))
    {
      var e;
      if count <= 15 {
        e := [0x80 + count];
      } else if count <= U16_MAX {
        e := [0xde] + Store(count, 2);
      } else {
        e := [0xdf] + Store(count, 4);
      }
      WriteStart(Map(count), e);
    }

    /** mpack_start_str_notrack. */
    method StartStrNoTrack(count: nat)
      requires Valid() && count <= U32_MAX
      modifies this`buffer, this`current, this`error, this`sink, buffer
      ensures Appended(EncodeTag(Str(count)))
    {
      if count <= 31 {
        WriteEncoded([0xa0 + count]);
      } else if count <= U8_MAX {
        WriteEncoded([0xd9] + Store(count, 1));
      } else if count <= U16_MAX {
        WriteEncoded([0xda] + Store(count, 2));
      } else {
        WriteEncoded([0xdb] + Store(count, 4));
      }
    }

    /** mpack_start_str. */
    method StartStr(count: nat)
      requires Valid() && count <= U32_MAX
      modifies this, buffer
      ensures Did(Call.WriteTag(Str(count)), EncodeTag(Str(count)))
    {
      MarkElement();
      StartStrNoTrack(count);
      MarkOpen(Str(count));
    }

    /** mpack_start_bin. */
    method StartBin(count: nat)
      requires Valid() && count <= U32_MAX
      modifies this, buffer
      ensures Did(Call.WriteTag(Bin(count)), EncodeTag(Bin(count)))
    {
      var e;
      if count <= U8_MAX {
        e := [0xc4] + Store(count, 1);
      } else if count <= U16_MAX {
        e := [0xc5] + Store(count, 2);
      } else {
        e := [0xc6] + Store(count, 4);
      }
      WriteStart(Bin(count), e);
    }

    /** mpack_write_bytes. */
    method WriteBytes(p: seq<byte>)
      requires Valid()
      modifies this, buffer
      ensures Did(Call.WriteBytes(p), p)
    {
      MarkBytes(|p|);
      WriteNative(p);
    }

    lemma ShortStrTags(count: nat)
      requires count <= U32_MAX
      ensures count <= 31 ==> EncodeTag(Str(count)) == [0xa0 + count]
      ensures 31 < count <= U8_MAX ==> EncodeTag(Str(count)) == [0xd9] + Store(count, 1)
    {
    }

    /** mpack_write_str: a short string takes its room at once, a longer one at once if it fits. */
    method WriteStr(text: seq<byte>)
      requires Valid() && |text| <= U32_MAX
      modifies this, buffer
      ensures Did(Call.WriteStr(text), EncodeTag(Str(|text|)) + text)
    {
      ShortStrTags(|text|);
      hide EncodeTag, Store;
      MarkElement();
      var count := |text|;
      if count <= 31 {
        WriteEncoded([0xa0 + count] + text);
      } else if count <= U8_MAX && count + 2 <= Left() {
        CopyIn([0xd9] + Store(count, 1) + text);
      } else {
        StartStrNoTrack(count);
        WriteNative(text);
        assert old(Out()) + EncodeTag(Str(count)) + text == old(Out()) + (EncodeTag(Str(count)) + text);
      }
    }

    /** mpack_write_bin. */
    method WriteBin(blob: seq<byte>)
      requires Valid() && |blob| <= U32_MAX
      modifies this, buffer
      ensures Appended(EncodeTag(Bin(|blob|)) + blob)
      ensures tracking && error == Ok ==> Some(track) == TrackElement(old(track))
    {
      hide EncodeTag;
      ghost var after := TrackElement(track);
      StartBin(|blob|);
      WriteBytes(blob);
      Finish(OpenBin);
      assert old(Out()) + EncodeTag(Bin(|blob|)) + blob + [] == old(Out()) + (EncodeTag(Bin(|blob|)) + blob);
    }

    /** mpack_write_utf8. */
    method WriteUtf8(text: seq<byte>)
      requires Valid() && |text| <= U32_MAX
      modifies this, buffer
      ensures IsUtf8(text) ==> Did(Call.WriteStr(text), EncodeTag(Str(|text|)) + text)
      ensures !IsUtf8(text) ==> Valid() && flush == old(flush) && buffer == old(buffer) && error != Ok
                                && (old(error) != Ok ==> error == old(error))
    {
      hide EncodeTag, IsUtf8;
      var ok := Check(text);
      if !ok {
        FlagError(Invalid);
        return;
      }
      WriteStr(text);
    }

    /** mpack_write_utf8_cstr_or_nil: None stands for a null pointer. */
    method WriteUtf8CstrOrNil(cstr: Option<seq<byte>>)
      requires Valid() && (cstr.Some? ==> 0 in cstr.value)
      modifies this, buffer
      ensures cstr.None? ==> Did(Call.WriteTag(Nil), EncodeTag(Nil))
      ensures cstr.Some? ==>
                var text := CStr(cstr.value);
                if |text| <= U32_MAX && IsUtf8(text) then Did(Call.WriteStr(text), EncodeTag(Str(|text|)) + text)
                else Valid() && flush == old(flush) && buffer == old(buffer) && error != Ok
                     && (old(error) != Ok ==> error == old(error))
    {
      hide EncodeTag, IsUtf8;
      match cstr {
        case None => WriteNil();
        case Some(memory) =>
          var length := StrLen(memory);
          if length > U32_MAX {
            FlagError(Invalid);
            return;
          }
          WriteUtf8(memory[..length]);
      }
    }

    /** mpack_write_tag. */
    method WriteTag(tag: Tag)
      requires Valid() && InRange(tag)
      modifies this, buffer
      ensures Did(Call.WriteTag(tag), EncodeTag(tag))
    {
      hide EncodeTag, Did, Valid;
      match tag {
        case Nil => WriteNil();
        case Bool(b) => WriteBool(b);
        case Int(i) => WriteI64(i);
        case Uint(u) => WriteU64(u);
        case Str(l) => StartStr(l);
        case Bin(l) => StartBin(l);
        case Array(n) => StartArray(n);
        case Map(n) => StartMap(n);
      }
    }

    /** Any one call. */
    method Perform(call: Call)
      requires Valid() && Callable(call)
      modifies this, buffer
      ensures Valid() && (buffer == old(buffer) || fresh(buffer)) && flush == old(flush)
      ensures tracking && error == Ok ==> Apply(old(CurrentStage()), call) == Some(CurrentStage())
      ensures error == Ok ==> old(error) == Ok
    {
      hide EncodeTag, Apply;
      match call {
        case WriteTag(tag) => WriteTag(tag);
        case WriteBytes(p) => WriteBytes(p);
        case Finish(kind) => Finish(kind);
        case WriteStr(text) => WriteStr(text);
      }
    }

    /**
      Whatever calls are made of a tracked writer: unless they flag an error, what is open says exactly
      what the bytes still lack, and the bytes are complete objects exactly if that is nothing.
     */
    method PerformAll(calls: seq<Call>)
      requires Valid() && tracking && error == Ok && CurrentStage() == Stage([], []) && AllCallable(calls)
      modifies this, buffer
      ensures Valid() && (buffer == old(buffer) || fresh(buffer)) && flush == old(flush)
      ensures error == Ok ==> Run(calls) == Some(CurrentStage()) && Outstanding(Out(), track)
      ensures error == Ok ==> (Objects(Out(), 0) <==> NothingLacks(track))
    {
      hide Apply, Callable, Outstanding, Objects, NothingLacks;
      for n := 0 to |calls|
        invariant Valid() && (buffer == old(buffer) || fresh(buffer)) && flush == old(flush)
        invariant error == Ok ==> Run(calls[..n]) == Some(CurrentStage())
      {
        assert calls[..n + 1][..n] == calls[..n];
        Perform(calls[n]);
      }
      assert calls[..|calls|] == calls;
      if error == Ok {
        RunOutstanding(calls);
        RunIsWellFormed(calls);
      }
    }

    /** mpack_writer_destroy, with the teardown of the growable writer: what is left is handed over. */
    method Destroy() returns (result: Error)
      requires Valid()
      modifies this, buffer
      ensures result == error && (old(error) != Ok ==> error == old(error))
      ensures old(flush) == NoFlush ==> error == old(error) && buffer == old(buffer) && current == old(current)
                                        && buffer[..] == old(buffer[..])
      ensures error == Ok ==> old(error) == Ok && current <= buffer.Length
      ensures error == Ok && old(flush) != ToSink ==> buffer[..current] == old(Out())
      ensures error == Ok && old(flush) == ToSink ==> sink == old(Out())
    {
      var growable := flush == Growable;
      if error == Ok && current != 0 && flush != NoFlush {
        match flush {
          case ToSink => SinkFlush(buffer[..current]);
          case Growable => GrowableFlush(true, buffer[..current]);
        }
        flush := NoFlush;
      }
      if growable && error == Ok && current < buffer.Length / 2 {
        Shrink();
      }
      result := error;
    }

    /** What a writer that flushed one way or another hands over in the end. */
    ghost function HandedOver(how: FlushKind): seq<byte>
      reads this, buffer
      requires current <= buffer.Length
    {
      if how == ToSink then sink else buffer[..current]
    }

    /** Destroying a tracked writer flags no error for what is still open, so it may hand over incomplete objects. */
    method PerformAndDestroy(calls: seq<Call>) returns (result: Error)
      requires Valid() && tracking && error == Ok && CurrentStage() == Stage([], []) && AllCallable(calls)
      modifies this, buffer
      ensures result == Ok ==> current <= buffer.Length && Run(calls).Some?
                               && HandedOver(old(flush)) == Run(calls).value.out
      ensures result == Ok ==>
                (Objects(HandedOver(old(flush)), 0) <==> NothingLacks(Run(calls).value.track))
    {
      hide Objects, NothingLacks;
      PerformAll(calls);
      result := Destroy();
    }

    /** The part of mpack_growable_writer_teardown that gives back the unused space. */
    method Shrink()
      requires current <= buffer.Length && error == Ok
      modifies this`buffer, this`error
      ensures error == Ok ==> current <= buffer.Length && buffer[..current] == old(buffer[..current])
    {
      if * {
        FlagError(Memory);
        return;
      }
      var shrunk := new byte[if current != 0 then current else 1](_ => 0);
      MemCpy(shrunk, 0, buffer[..current]);
      buffer := shrunk;
    }
  }
}
