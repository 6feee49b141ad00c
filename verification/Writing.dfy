/** Writing to an open toot: how device_store.c cuts a text into chunks, and when all of it arrives. */
module Writing {
  import opened Bytes
  import opened Options
  import opened Memory
  import opened Store
  import opened Utf8
  import Handlers
  import Runs

  // ----- Cutting UTF-8 -----

  /** A cut at n does not fall inside a character. */
  predicate Boundary(s: seq<byte>, n: nat) {
    !Tail(s, n)
  }

  /** Up to a cut, the grammar derives what it derives without it exactly if the cut is a boundary. */
  lemma {:induction false} OctetsBefore(s: seq<byte>, i: nat, n: nat)
    requires i <= n <= |s| && Octets(s, i)
    ensures Octets(s[..n], i) <==> Boundary(s, n)
    ensures Boundary(s, n) ==> Octets(s, n)
    decreases n - i
  {
    if i < n {
      CharBefore(s, i, n);
      hide CharLength;
      if i + CharLength(s, i) <= n {
        OctetsBefore(s, i + CharLength(s, i), n);
      }
    }
  }

  /** A character is cut off as a whole, or kept as a whole, or its second part starts with a tail. */
  lemma CharBefore(s: seq<byte>, i: nat, n: nat)
    requires i < n <= |s| && CharLength(s, i) > 0
    ensures if i + CharLength(s, i) <= n then CharLength(s[..n], i) == CharLength(s, i)
            else CharLength(s[..n], i) == 0 && Tail(s, n)
  {
  }

  lemma {:induction false} OctetsAfter(s: seq<byte>, n: nat, i: nat)
    requires n <= i <= |s|
    ensures Octets(s[n..], i - n) <==> Octets(s, i)
    decreases |s| - i
  {
    CharAfter(s, n, i);
    hide CharLength;
    if i < |s| && CharLength(s, i) > 0 {
      OctetsAfter(s, n, i + CharLength(s, i));
    }
  }

  lemma CharAfter(s: seq<byte>, n: nat, i: nat)
    requires n <= i <= |s|
    ensures CharLength(s[n..], i - n) == CharLength(s, i)
  {
  }

  lemma {:induction false} OctetsJoin(s: seq<byte>, i: nat, n: nat)
    requires i <= n <= |s| && Octets(s[..n], i) && Octets(s, n)
    ensures Octets(s, i)
    decreases n - i
  {
    if i < n {
      CharKept(s, i, n);
      hide CharLength;
      OctetsJoin(s, i + CharLength(s, i), n);
    }
  }

  lemma CharKept(s: seq<byte>, i: nat, n: nat)
    requires i < n <= |s| && CharLength(s[..n], i) > 0
    ensures CharLength(s, i) == CharLength(s[..n], i)
  {
  }

  /** Both parts of a cut are UTF-8 exactly if the whole is and no character is cut. */
  lemma CutUtf8(s: seq<byte>, n: nat)
    requires n <= |s|
    ensures IsUtf8(s[..n]) && IsUtf8(s[n..]) <==> IsUtf8(s) && Boundary(s, n)
    ensures IsUtf8(s) ==> (IsUtf8(s[..n]) <==> Boundary(s, n))
  {
    hide IsUtf8;
    OctetsAreUtf8(s);
    OctetsAreUtf8(s[..n]);
    OctetsAreUtf8(s[n..]);
    OctetsAfter(s, n, n);
    if Octets(s, 0) {
      OctetsBefore(s, 0, n);
    }
    if Octets(s[..n], 0) && Octets(s, n) {
      OctetsJoin(s, 0, n);
      assert n < |s| ==> CharLength(s, n) > 0;
    }
  }

  // ----- toot_write -----

  /** The bytes of a write that fit its buffer, which keeps one for a NUL. */
  const PIECE: nat := Runs.CHUNK - 1

  const EFAULT: int := 14

  /** What toot_write takes of a write. */
  function Taken(user: seq<byte>): (taken: seq<byte>)
    ensures |taken| <= PIECE && taken <= user
  {
    if |user| < PIECE then user else user[..PIECE]
  }

  /** The buffer of toot_write: what it takes, and then zeros. */
  function Chunk(user: seq<byte>): (chunk: seq<byte>)
    ensures |chunk| == Runs.CHUNK && 0 in chunk && CStr(chunk) == CStr(Taken(user))
  {
    var zeros := seq(Runs.CHUNK - |Taken(user)| - 1, _ => 0);
    CStrStops(Taken(user), zeros);
    Taken(user) + [0] + zeros
  }

  /** A write of up to 99 bytes is taken whole, of a longer one the first 99; NULs fill the buffer of 100. */
  lemma TakenWhole(user: seq<byte>)
    ensures |user| <= 99 ==> Taken(user) == user
    ensures |user| > 99 ==> Taken(user) == user[..99]
    ensures |Chunk(user)| == 100 && Chunk(user)[..|Taken(user)|] == Taken(user)
    ensures forall k :: |Taken(user)| <= k < 100 ==> Chunk(user)[k] == 0
    ensures Runs.Possible(Runs.AddTootElement(0, Chunk(user), true, true))
  {
  }

  /** What toot_write returns in the end: the bytes it took, or an error. */
  function Returned(user: seq<byte>, ok: bool): int {
    if ok then |Taken(user)| else -EFAULT
  }

  /**
    toot_write, up to its wait: the toot id may be missing, and copying from the user may fail. What it
    returns is known when it does not wait; otherwise it is Returned for the outcome of the wait.
   */
  method TootWrite(store: Store, tootId: Option<nat>, user: seq<byte>, copied: bool, memory: bool, sent: bool)
    returns (waits: bool, returned: int, message: Option<Handlers.Message>)
    requires store.Valid() && (tootId.Some? ==> tootId.value <= U32_MAX)
    modifies store
    ensures !waits ==> returned == Returned(user, false) == -14
    ensures tootId.None? || !copied ==> !waits && message.None? && store.View() == old(store.View())
    ensures tootId.Some? && copied ==>
              Handlers.Handled(store, old(store.View()), Runs.AddTootElement(tootId.value, Chunk(user), memory, sent),
                               waits, message)
  {
    if tootId.None? {
      return false, -EFAULT, None;
    }
    var stored := new byte[Runs.CHUNK](_ => 0);
    var count := if |user| < PIECE then |user| else PIECE;
    if !copied {
      return false, -EFAULT, None;
    }
    forall k | 0 <= k < count {
      stored[k] := user[k];
    }
    assert stored[..] == Chunk(user);
    waits, message := Handlers.AddTootElement(store, tootId.value, stored[..], memory, sent);
    returned := if waits then 0 else -EFAULT;
  }

  /** The end of toot_write, once the wait for its element is over. */
  method FinishWrite(store: Store, elementId: nat, user: seq<byte>, ok: bool) returns (returned: int)
    requires store.Valid()
    modifies store
    ensures Handlers.Handled(store, old(store.View()), Runs.AddTootElementResume(elementId, ok), ok, None)
    ensures returned == Returned(user, ok) == if !ok then -14 else if |user| > 99 then 99 else |user|
  {
    if !ok {
      store.RemoveElement(elementId);
      return -EFAULT;
    }
    returned := if |user| < PIECE then |user| else PIECE;
  }

  // ----- A text written by repeated writes -----

  /** The chunks of a text when each write takes up where the last one left off. */
  function Chunks(user: seq<byte>): seq<seq<byte>> {
    if user == [] then [] else [Chunk(user)] + Chunks(user[|Taken(user)|..])
  }

  /** And their texts. */
  function Texts(user: seq<byte>): seq<seq<byte>> {
    if user == [] then [] else [CStr(Chunk(user))] + Texts(user[|Taken(user)|..])
  }

  lemma TextsOfChunks(user: seq<byte>)
    ensures |Texts(user)| == |Chunks(user)|
    ensures forall k :: 0 <= k < |Chunks(user)| ==> Texts(user)[k] == CStr(Chunks(user)[k])
  {
    hide CStr, Chunk, Taken;
    if user != [] {
      TakesSome(user);
      TextsOfChunks(user[|Taken(user)|..]);
    }
  }

  /** There are as many as the text has begun pieces of 99 bytes. */
  lemma ChunkCount(user: seq<byte>)
    ensures |Chunks(user)| == (|user| + 98) / 99
  {
    hide Chunk, Taken;
    if user != [] {
      var rest := user[|Taken(user)|..];
      TakesSome(user);
      ChunkCount(rest);
      assert |Chunks(user)| == 1 + |Chunks(rest)|;
      if rest == [] {
        assert 1 <= |user| <= PIECE;
      } else {
        assert |user| == |rest| + PIECE;
      }
    }
  }

  function Joined(texts: seq<seq<byte>>): seq<byte> {
    if texts == [] then [] else texts[0] + Joined(texts[1..])
  }

  lemma CStrWhole(s: seq<byte>)
    ensures |CStr(s)| <= |s|
    ensures 0 !in s ==> CStr(s) == s
    ensures 0 in s ==> |CStr(s)| < |s|
  {
    if 0 in s {
      CStrShorter(s);
    } else if s != [] {
      CStrWhole(s[1..]);
    }
  }

  /** Nothing of a text is lost exactly if it holds no NUL. */
  lemma {:induction false} TextsAreWhole(user: seq<byte>)
    ensures Joined(Texts(user)) == user <==> 0 !in user
    ensures |Joined(Texts(user))| <= |user|
  {
    if user != [] {
      hide CStr, Taken, Chunk;
      var taken, rest := Taken(user), user[|Taken(user)|..];
      assert user == taken + rest;
      TakesSome(user);
      CStrWhole(taken);
      TextsAreWhole(rest);
      assert Texts(user)[1..] == Texts(rest);
      assert Joined(Texts(user)) == CStr(taken) + Joined(Texts(rest));
      if Joined(Texts(user)) == user {
        assert |CStr(taken)| == |taken|;
        assert Joined(Texts(rest)) == (CStr(taken) + Joined(Texts(rest)))[|taken|..] == rest;
      }
    }
  }

  lemma TakesSome(user: seq<byte>)
    requires user != []
    ensures |user[|Taken(user)|..]| < |user| && (user[|Taken(user)|..] != [] ==> |Taken(user)| == PIECE)
  {
  }

  /** No cut of the repeated writes, one every 99 bytes, falls inside a character. */
  predicate CutsBetween(user: seq<byte>) {
    forall n :: 0 <= n < |user| && n % 99 == 0 ==> Boundary(user, n)
  }

  ghost predicate AllUtf8(texts: seq<seq<byte>>) {
    forall k :: 0 <= k < |texts| ==> IsUtf8(texts[k])
  }

  lemma AllUtf8First(text: seq<byte>, texts: seq<seq<byte>>)
    ensures AllUtf8([text] + texts) <==> IsUtf8(text) && AllUtf8(texts)
  {
    hide IsUtf8;
    var all := [text] + texts;
    assert all[0] == text && forall k :: 0 <= k < |texts| ==> all[k + 1] == texts[k];
  }

  lemma CutsOfRest(user: seq<byte>)
    requires |user| > PIECE
    ensures CutsBetween(user) <==> Boundary(user, 0) && CutsBetween(user[PIECE..])
    ensures CutsBetween(user[PIECE..]) ==> Boundary(user, PIECE)
  {
    var rest := user[PIECE..];
    assert Boundary(rest, 0) <==> Boundary(user, PIECE);
    forall n | 0 <= n < |rest| && n % PIECE == 0 ensures Boundary(rest, n) <==> Boundary(user, n + PIECE) {
    }
    if Boundary(user, 0) && CutsBetween(rest) {
      forall n | 0 <= n < |user| && n % PIECE == 0 ensures Boundary(user, n) {
        if n > 0 {
          assert Boundary(rest, n - PIECE);
        }
      }
    }
    if CutsBetween(user) {
      forall n | 0 <= n < |rest| && n % PIECE == 0 ensures Boundary(rest, n) {
        assert Boundary(user, n + PIECE);
      }
    }
  }

  /**
    Each write of a text without NULs is accepted by the validator exactly if the text is UTF-8 and no
    character of it lies across a multiple of 99 bytes.
   */
  lemma {:induction false} TextsAreUtf8(user: seq<byte>)
    requires 0 !in user
    ensures AllUtf8(Texts(user)) <==> IsUtf8(user) && CutsBetween(user)
  {
    hide IsUtf8, AllUtf8, CutsBetween;
    if user == [] {
      NoTexts();
    } else {
      var taken, rest := Taken(user), user[|Taken(user)|..];
      CStrWhole(taken);
      TakesSome(user);
      TextsAreUtf8(rest);
      AllUtf8First(taken, Texts(rest));
      CutUtf8(user, |taken|);
      FirstByte(user);
      if rest == [] {
        NoTexts();
        OneCut(user);
        assert Boundary(user, |user|);
      } else {
        CutsOfRest(user);
      }
    }
  }

  lemma NoTexts()
    ensures AllUtf8([]) && IsUtf8([]) && CutsBetween([])
  {
    OctetsAreUtf8([]);
  }

  lemma FirstByte(user: seq<byte>)
    ensures IsUtf8(user) ==> Boundary(user, 0)
  {
    OctetsAreUtf8(user);
  }

  lemma OneCut(user: seq<byte>)
    requires user[|Taken(user)|..] == []
    ensures Taken(user) == user && (CutsBetween(user) <==> user == [] || Boundary(user, 0))
  {
    assert |user| <= PIECE;
    assert 0 % PIECE == 0;
  }

  /** A valid text fails at the first cut that falls inside a character: here an e with an accent from byte 98 on. */
  lemma ValidTextFails()
    ensures var user := seq(98, _ => 0x61) + [0xc3, 0xa9];
            IsUtf8(user) && 0 !in user && !AllUtf8(Texts(user))
  {
    var user: seq<byte> := seq(98, _ => 0x61) + [0xc3, 0xa9];
    AsciiThen(user, 0);
    OctetsAreUtf8(user);
    assert !Boundary(user, 99) && 99 % PIECE == 0;
    TextsAreUtf8(user);
  }

  lemma {:induction false} AsciiThen(user: seq<byte>, i: nat)
    requires |user| == 100 && i <= 98 && user[98] == 0xc3 && user[99] == 0xa9
    requires forall k :: 0 <= k < 98 ==> user[k] == 0x61
    ensures Octets(user, i)
    decreases 98 - i
  {
    if i == 98 {
      assert CharLength(user, 98) == 2 && Octets(user, 100);
    } else {
      AsciiThen(user, i + 1);
    }
  }
}
