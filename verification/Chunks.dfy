// controller/users_chunk.go and the receive loops of controller/rpc/user.go and
// controller/rest/user.go: putting a chunked user list back together.
module Chunks {
  import opened Wrappers

  const MAX_UINT64 := 0xffff_ffff_ffff_ffff

  type Index = i: nat | i <= MAX_UINT64

  type Buffers<T> = map<Index, seq<T>>

  // A received frame; Empty: a length of zero (REST only); Broken: a read or decode error.
  datatype Frame<T> = Chunk(index: Index, users: seq<T>, last: bool) | Empty | Broken

  datatype ChunkError = NoFinalChunk | MissingChunk(index: Index) | NoUsers | Unreadable

  // ----- BuildUsersFromChunks

  function JoinTo<T>(chunks: Buffers<T>, n: nat): seq<T>
    requires forall i: Index :: i < n ==> i in chunks
    requires n <= MAX_UINT64 + 1
  {
    if n == 0 then [] else JoinTo(chunks, n - 1) + chunks[n - 1]
  }

  // The next value of a uint64 counter.
  function Successor(i: Index): Index {
    if i == MAX_UINT64 then 0 else i + 1
  }

  function IndicesTo(n: nat): (s: set<nat>)
    ensures |s| == n && forall i :: i in s <==> 0 <= i < n
  {
    if n == 0 then {} else IndicesTo(n - 1) + {n - 1}
  }

  lemma SubsetSize<U>(a: set<U>, b: set<U>)
    requires a <= b
    ensures |a| <= |b|
  {
    assert b == a + (b - a);
  }

  // A run 0..n of present indices is no longer than the map.
  lemma RunFitsMap<T>(chunks: Buffers<T>, n: nat)
    requires n <= MAX_UINT64 + 1 && forall i: Index :: i < n ==> i in chunks
    ensures n <= |chunks|
  {
    var keys := set i: nat | i in chunks.Keys :: i;
    assert keys == chunks.Keys;
    SubsetSize(IndicesTo(n), keys);
    assert |chunks| == |chunks.Keys|;
  }

  // The counter wraps around, yet the loop ends: no map in memory holds all 2^64 indices. rounds
  // counts its iterations.
  method BuildUsersFromChunks<T>(chunks: Buffers<T>, lastIndex: Index, sawLast: bool)
    returns (r: Result<seq<T>, ChunkError>, ghost rounds: nat)
    requires |chunks| <= MAX_UINT64
    ensures rounds <= |chunks| + 1
    ensures r == Built(Inbox(chunks, lastIndex, sawLast))
  {
    rounds := 0;
    if !sawLast { return Err(NoFinalChunk), 0; }
    var users: seq<T> := [];
    var i: Index := 0;
    while i <= lastIndex
      invariant rounds == i && i <= lastIndex + 1
      invariant forall k: Index :: k < i ==> k in chunks
      invariant users == JoinTo(chunks, i)
      decreases lastIndex + 1 - i
    {
      RunFitsMap(chunks, i);
      rounds := rounds + 1;
      if i !in chunks {
        FirstMissingShape(chunks, 0, lastIndex);
        return Err(MissingChunk(i)), rounds;
      }
      users := users + chunks[i];
      RunFitsMap(chunks, i + 1);
      i := Successor(i);
    }
    RunFitsMap(chunks, i);
    FirstMissingShape(chunks, 0, lastIndex);
    if |users| == 0 { return Err(NoUsers), rounds; }
    r := Ok(users);
  }

  // ----- the receive loop

  datatype Inbox<T> = Inbox(chunks: Buffers<T>, lastIndex: Index, sawLast: bool)

  function Appended<T>(chunks: Buffers<T>, f: Frame<T>): Buffers<T>
    requires f.Chunk?
  {
    chunks[f.index := (if f.index in chunks then chunks[f.index] else []) + f.users]
  }

  // Frames until a last one, a broken one or the end; what comes later is not read.
  function Received<T>(inbox: Inbox<T>, frames: seq<Frame<T>>): Option<Inbox<T>>
    decreases |frames|
  {
    if frames == [] then Some(inbox)
    else match frames[0]
      case Broken => None
      case Empty => Received(inbox, frames[1..])
      case Chunk(index, users, last) =>
        var chunks := Appended(inbox.chunks, frames[0]);
        if last then Some(Inbox(chunks, index, true)) else Received(inbox.(chunks := chunks), frames[1..])
  }

  method Receive<T>(frames: seq<Frame<T>>) returns (r: Option<Inbox<T>>)
    ensures r == Received(Inbox(map[], 0, false), frames)
  {
    var inbox: Inbox<T> := Inbox(map[], 0, false);
    for n := 0 to |frames|
      invariant Received(inbox, frames[n..]) == Received(Inbox(map[], 0, false), frames)
    {
      assert frames[n..][1..] == frames[n + 1..];
      var f := frames[n];
      if f.Broken? { return None; }
      if f.Empty? { continue; }
      inbox := inbox.(chunks := Appended(inbox.chunks, f));
      if f.last {
        return Some(inbox.(sawLast := true, lastIndex := f.index));
      }
    }
    r := Some(inbox);
  }

  method SyncUsersChunked<T>(frames: seq<Frame<T>>) returns (r: Result<seq<T>, ChunkError>)
    requires |frames| <= MAX_UINT64
    ensures r == Assembled(frames)
  {
    var inbox := Receive(frames);
    if inbox.None? { return Err(Unreadable); }
    InboxSize(Inbox(map[], 0, false), frames);
    ghost var rounds;
    r, rounds := BuildUsersFromChunks(inbox.value.chunks, inbox.value.lastIndex, inbox.value.sawLast);
  }

  function FirstMissing<T>(chunks: Buffers<T>, from: nat, last: Index): Option<Index>
    requires from <= last + 1
    decreases last + 1 - from
  {
    if from > last then None else if from !in chunks then Some(from) else FirstMissing(chunks, from + 1, last)
  }

  lemma {:induction false} FirstMissingShape<T>(chunks: Buffers<T>, from: nat, last: Index)
    requires from <= last + 1
    ensures FirstMissing(chunks, from, last).None? <==> forall i: Index :: from <= i <= last ==> i in chunks
    ensures FirstMissing(chunks, from, last).Some? ==>
              var m := FirstMissing(chunks, from, last).value;
              from <= m <= last && m !in chunks && forall i: Index :: from <= i < m ==> i in chunks
    decreases last + 1 - from
  {
    if from <= last && from in chunks {
      FirstMissingShape(chunks, from + 1, last);
    }
  }

  // The whole of SyncUsersChunked up to the hand-over, as a function of the frames.
  function Assembled<T>(frames: seq<Frame<T>>): Result<seq<T>, ChunkError> {
    match Received(Inbox(map[], 0, false), frames)
    case None => Err(Unreadable)
    case Some(inbox) => Built(inbox)
  }

  function Built<T>(inbox: Inbox<T>): Result<seq<T>, ChunkError> {
    if !inbox.sawLast then Err(NoFinalChunk)
    else if FirstMissing(inbox.chunks, 0, inbox.lastIndex).Some? then
      Err(MissingChunk(FirstMissing(inbox.chunks, 0, inbox.lastIndex).value))
    else
      FirstMissingShape(inbox.chunks, 0, inbox.lastIndex);
      if JoinTo(inbox.chunks, inbox.lastIndex + 1) == [] then Err(NoUsers) else Ok(JoinTo(inbox.chunks, inbox.lastIndex + 1))
  }

  lemma {:induction false} InboxSize<T>(inbox: Inbox<T>, frames: seq<Frame<T>>)
    requires Received(inbox, frames).Some?
    ensures |Received(inbox, frames).value.chunks| <= |inbox.chunks| + |frames|
    decreases |frames|
  {
    if frames != [] {
      var f := frames[0];
      if f.Empty? {
        InboxSize(inbox, frames[1..]);
      } else {
        assert Appended(inbox.chunks, f).Keys == inbox.chunks.Keys + {f.index};
        assert |Appended(inbox.chunks, f)| <= |inbox.chunks| + 1;
        if !f.last { InboxSize(inbox.(chunks := Appended(inbox.chunks, f)), frames[1..]); }
      }
    }
  }

  // ----- what is assembled, frame by frame

  // The frames of one index, in the order they came.
  function FramesAt<T>(frames: seq<Frame<T>>, index: Index): seq<Frame<T>> {
    if frames == [] then []
    else (if frames[0].Chunk? && frames[0].index == index then [frames[0]] else []) + FramesAt(frames[1..], index)
  }

  function UsersOf<T>(frames: seq<Frame<T>>): seq<T> {
    if frames == [] then [] else (if frames[0].Chunk? then frames[0].users else []) + UsersOf(frames[1..])
  }

  function UsersAt<T>(frames: seq<Frame<T>>, index: Index): seq<T> {
    UsersOf(FramesAt(frames, index))
  }

  // All users of the indices below n, index by index.
  function InIndexOrder<T>(frames: seq<Frame<T>>, n: nat): seq<T>
    requires n <= MAX_UINT64 + 1
  {
    if n == 0 then [] else InIndexOrder(frames, n - 1) + UsersAt(frames, n - 1)
  }

  // A readable stream that ends with its final chunk.
  ghost predicate EndsWithLast<T>(frames: seq<Frame<T>>) {
    && frames != [] && frames[|frames| - 1].Chunk? && frames[|frames| - 1].last
    && forall i :: 0 <= i < |frames| - 1 ==> frames[i].Empty? || (frames[i].Chunk? && !frames[i].last)
  }

  // What receiving frames adds to the buffers.
  ghost predicate Gathers<T>(before: Buffers<T>, frames: seq<Frame<T>>, after: Buffers<T>) {
    forall i: Index ::
      && (i in after <==> i in before || FramesAt(frames, i) != [])
      && (i in after ==> after[i] == (if i in before then before[i] else []) + UsersAt(frames, i))
  }

  lemma GathersHead<T>(before: Buffers<T>, frames: seq<Frame<T>>, after: Buffers<T>)
    requires frames != [] && frames[0].Chunk?
    requires Gathers(Appended(before, frames[0]), frames[1..], after)
    ensures Gathers(before, frames, after)
  {
    forall i: Index
      ensures i in after <==> i in before || FramesAt(frames, i) != []
      ensures i in after ==> after[i] == (if i in before then before[i] else []) + UsersAt(frames, i)
    {
      GathersHeadAt(before, frames, frames[1..], after, i);
    }
  }

  lemma GathersHeadAt<T>(before: Buffers<T>, frames: seq<Frame<T>>, tail: seq<Frame<T>>, after: Buffers<T>, i: Index)
    requires frames != [] && frames[0].Chunk? && tail == frames[1..]
    requires var mid := Appended(before, frames[0]);
             && (i in after <==> i in mid || FramesAt(tail, i) != [])
             && (i in after ==> after[i] == (if i in mid then mid[i] else []) + UsersAt(tail, i))
    ensures i in after <==> i in before || FramesAt(frames, i) != []
    ensures i in after ==> after[i] == (if i in before then before[i] else []) + UsersAt(frames, i)
  {
    HeadUsers(frames, i);
    HeadFrames(frames, i);
    BufferGrows(before, frames[0], i, FramesAt(tail, i) != [], UsersAt(tail, i),
                FramesAt(frames, i) != [], UsersAt(frames, i), after);
  }

  // One index: what more frames add after one frame is what all of them add.
  lemma BufferGrows<T>(before: Buffers<T>, f: Frame<T>, i: Index, moreFrames: bool, moreUsers: seq<T>,
                       anyFrames: bool, allUsers: seq<T>, after: Buffers<T>)
    requires f.Chunk?
    requires anyFrames <==> f.index == i || moreFrames
    requires allUsers == (if f.index == i then f.users else []) + moreUsers
    requires i in after <==> i in Appended(before, f) || moreFrames
    requires i in after ==> after[i] == (if i in Appended(before, f) then Appended(before, f)[i] else []) + moreUsers
    ensures i in after <==> i in before || anyFrames
    ensures i in after ==> after[i] == (if i in before then before[i] else []) + allUsers
  {
    var buffered := if i in before then before[i] else [];
    if i == f.index {
      assert (buffered + f.users) + moreUsers == buffered + (f.users + moreUsers);
    } else {
      assert [] + moreUsers == moreUsers;
    }
  }

  lemma HeadFrames<T>(frames: seq<Frame<T>>, i: Index)
    requires frames != [] && frames[0].Chunk?
    ensures frames[0].index == i ==> FramesAt(frames, i) != []
    ensures frames[0].index != i ==> FramesAt(frames, i) == FramesAt(frames[1..], i)
  {
  }

  lemma {:induction false} ReceivedShape<T>(inbox: Inbox<T>, frames: seq<Frame<T>>)
    requires EndsWithLast(frames)
    ensures var r := Received(inbox, frames);
            && r.Some? && r.value.sawLast && r.value.lastIndex == frames[|frames| - 1].index
            && Gathers(inbox.chunks, frames, r.value.chunks)
    decreases |frames|
  {
    var f := frames[0];
    if |frames| == 1 {
      var after := Appended(inbox.chunks, f);
      assert forall i: Index :: FramesAt(frames[1..], i) == [];
      assert Gathers(after, frames[1..], after);
      GathersHead(inbox.chunks, frames, after);
    } else {
      assert EndsWithLast(frames[1..]);
      if f.Empty? {
        ReceivedShape(inbox, frames[1..]);
        assert forall i: Index :: FramesAt(frames, i) == FramesAt(frames[1..], i);
      } else {
        var inbox' := inbox.(chunks := Appended(inbox.chunks, f));
        ReceivedShape(inbox', frames[1..]);
        GathersHead(inbox.chunks, frames, Received(inbox', frames[1..]).value.chunks);
      }
    }
  }

  lemma HeadUsers<T>(frames: seq<Frame<T>>, i: Index)
    requires frames != [] && frames[0].Chunk?
    ensures UsersAt(frames, i) == (if frames[0].index == i then frames[0].users else []) + UsersAt(frames[1..], i)
  {
    var tail := FramesAt(frames[1..], i);
    if frames[0].index == i {
      assert FramesAt(frames, i) == [frames[0]] + tail;
      assert ([frames[0]] + tail)[1..] == tail;
    } else {
      assert FramesAt(frames, i) == tail;
    }
  }

  lemma {:induction false} JoinedInOrder<T>(chunks: Buffers<T>, frames: seq<Frame<T>>, n: nat)
    requires n <= MAX_UINT64 + 1
    requires forall i: Index :: i < n ==> i in chunks && chunks[i] == UsersAt(frames, i)
    ensures JoinTo(chunks, n) == InIndexOrder(frames, n)
  {
    if n > 0 { JoinedInOrder(chunks, frames, n - 1); }
  }

  // Success exactly when every index up to that of the final chunk occurred and some user came; the result is
  // the concatenation by index, and by arrival within an index. A missing index is reported exactly when there
  // is one, and it is the first; no users exactly when all occurred without any.
  ghost predicate Delivers<T>(r: Result<seq<T>, ChunkError>, frames: seq<Frame<T>>, last: Index) {
    && (r.Ok? <==> (forall i: Index :: i <= last ==> FramesAt(frames, i) != []) && InIndexOrder(frames, last + 1) != [])
    && (r.Ok? ==> r.value == InIndexOrder(frames, last + 1))
    && (r.Err? && r.error.MissingChunk? ==>
         var m := r.error.index;
         m <= last && FramesAt(frames, m) == [] && forall i: Index :: i < m ==> FramesAt(frames, i) != [])
    && (r.Err? && r.error.MissingChunk? <==> exists i: Index :: i <= last && FramesAt(frames, i) == [])
    && (r == Err(NoUsers) <==>
         (forall i: Index :: i <= last ==> FramesAt(frames, i) != []) && InIndexOrder(frames, last + 1) == [])
  }

  lemma AssembledIff<T>(frames: seq<Frame<T>>)
    requires EndsWithLast(frames)
    ensures Delivers(Assembled(frames), frames, frames[|frames| - 1].index)
  {
    var inbox: Inbox<T> := Inbox(map[], 0, false);
    ReceivedShape(inbox, frames);
    var r := Received(inbox, frames).value;
    forall i: Index | i in r.chunks ensures r.chunks[i] == UsersAt(frames, i) {
      assert r.chunks[i] == [] + UsersAt(frames, i);
    }
    BuiltIff(r, frames);
  }

  lemma BuiltIff<T>(inbox: Inbox<T>, frames: seq<Frame<T>>)
    requires inbox.sawLast
    requires forall i: Index :: i in inbox.chunks <==> FramesAt(frames, i) != []
    requires forall i: Index :: i in inbox.chunks ==> inbox.chunks[i] == UsersAt(frames, i)
    ensures Delivers(Built(inbox), frames, inbox.lastIndex)
  {
    FirstMissingShape(inbox.chunks, 0, inbox.lastIndex);
    if FirstMissing(inbox.chunks, 0, inbox.lastIndex).None? {
      forall i: Index | i <= inbox.lastIndex ensures FramesAt(frames, i) != [] { assert i in inbox.chunks; }
      JoinedInOrder(inbox.chunks, frames, inbox.lastIndex + 1);
    } else {
      var m := FirstMissing(inbox.chunks, 0, inbox.lastIndex).value;
      assert FramesAt(frames, m) == [];
      forall i: Index | i < m ensures FramesAt(frames, i) != [] { assert i in inbox.chunks; }
    }
  }

  // Only the order within one index matters.
  ghost predicate SamePerIndex<T>(fs: seq<Frame<T>>, gs: seq<Frame<T>>) {
    forall i: Index :: FramesAt(fs, i) == FramesAt(gs, i)
  }

  lemma {:induction false} SameOrder<T>(fs: seq<Frame<T>>, gs: seq<Frame<T>>, n: nat)
    requires n <= MAX_UINT64 + 1 && SamePerIndex(fs, gs)
    ensures InIndexOrder(fs, n) == InIndexOrder(gs, n)
  {
    if n > 0 {
      SameOrder(fs, gs, n - 1);
      var i: Index := n - 1;
      assert FramesAt(fs, i) == FramesAt(gs, i);
    }
  }

  lemma AssemblyOrderFree<T>(fs: seq<Frame<T>>, gs: seq<Frame<T>>)
    requires EndsWithLast(fs) && EndsWithLast(gs)
    requires fs[|fs| - 1].index == gs[|gs| - 1].index && SamePerIndex(fs, gs)
    ensures Assembled(fs) == Assembled(gs)
  {
    var inbox: Inbox<T> := Inbox(map[], 0, false);
    ReceivedShape(inbox, fs);
    ReceivedShape(inbox, gs);
    SameBuffers(fs, gs, Received(inbox, fs).value.chunks, Received(inbox, gs).value.chunks);
  }

  lemma SameBuffers<T>(fs: seq<Frame<T>>, gs: seq<Frame<T>>, a: Buffers<T>, b: Buffers<T>)
    requires SamePerIndex(fs, gs) && Gathers(map[], fs, a) && Gathers(map[], gs, b)
    ensures a == b
  {
  }

  lemma {:induction false} FramesAtConcat<T>(a: seq<Frame<T>>, b: seq<Frame<T>>, i: Index)
    ensures FramesAt(a + b, i) == FramesAt(a, i) + FramesAt(b, i)
  {
    if a == [] {
      assert a + b == b;
    } else {
      assert (a + b)[1..] == a[1..] + b;
      FramesAtConcat(a[1..], b, i);
    }
  }

  // In particular two neighbouring frames of different indices may be exchanged.
  lemma NeighboursMayBeExchanged<T>(before: seq<Frame<T>>, x: Frame<T>, y: Frame<T>, after: seq<Frame<T>>)
    requires x.Chunk? && y.Chunk? && x.index != y.index
    requires EndsWithLast(before + [x, y] + after) && EndsWithLast(before + [y, x] + after)
    requires after != []
    ensures Assembled(before + [x, y] + after) == Assembled(before + [y, x] + after)
  {
    var fs, gs := before + [x, y] + after, before + [y, x] + after;
    forall i: Index ensures FramesAt(fs, i) == FramesAt(gs, i) {
      FramesAtConcat(before + [x, y], after, i);
      FramesAtConcat(before + [y, x], after, i);
      FramesAtConcat(before, [x, y], i);
      FramesAtConcat(before, [y, x], i);
      PairAt(x, y, i);
      PairAt(y, x, i);
    }
    assert fs[|fs| - 1] == after[|after| - 1] == gs[|gs| - 1];
    AssemblyOrderFree(fs, gs);
  }

  lemma PairAt<T>(x: Frame<T>, y: Frame<T>, i: Index)
    requires x.Chunk? && y.Chunk? && x.index != y.index
    ensures FramesAt([x, y], i) == if x.index == i then [x] else if y.index == i then [y] else []
  {
    assert [x, y][1..] == [y] && [y][1..] == [];
    assert FramesAt([y], i) == if y.index == i then [y] else [];
  }

  // ----- every stream

  // A frame after which nothing is read.
  predicate Stops<T>(f: Frame<T>) {
    f.Broken? || (f.Chunk? && f.last)
  }

  ghost predicate StopsAt<T>(frames: seq<Frame<T>>, n: nat) {
    n < |frames| && Stops(frames[n]) && forall i :: 0 <= i < n ==> !Stops(frames[i])
  }

  ghost predicate NeverStops<T>(frames: seq<Frame<T>>) {
    forall i :: 0 <= i < |frames| ==> !Stops(frames[i])
  }

  lemma {:induction false} ReceivedToEnd<T>(inbox: Inbox<T>, frames: seq<Frame<T>>)
    requires NeverStops(frames)
    ensures Received(inbox, frames).Some? && Received(inbox, frames).value.sawLast == inbox.sawLast
    decreases |frames|
  {
    if frames != [] {
      assert !Stops(frames[0]);
      assert NeverStops(frames[1..]);
      if frames[0].Empty? {
        ReceivedToEnd(inbox, frames[1..]);
      } else {
        ReceivedToEnd(inbox.(chunks := Appended(inbox.chunks, frames[0])), frames[1..]);
      }
    }
  }

  lemma {:induction false} ReceivedToStop<T>(inbox: Inbox<T>, frames: seq<Frame<T>>, n: nat)
    requires StopsAt(frames, n)
    ensures frames[n].Broken? ==> Received(inbox, frames).None?
    ensures frames[n].Chunk? ==> Received(inbox, frames) == Received(inbox, frames[..n + 1])
    decreases |frames|
  {
    if n > 0 {
      assert !Stops(frames[0]);
      assert StopsAt(frames[1..], n - 1);
      assert frames[..n + 1][1..] == frames[1..][..n];
      if frames[0].Empty? {
        ReceivedToStop(inbox, frames[1..], n - 1);
      } else {
        ReceivedToStop(inbox.(chunks := Appended(inbox.chunks, frames[0])), frames[1..], n - 1);
      }
    }
  }

  lemma {:induction false} StopExists<T>(frames: seq<Frame<T>>) returns (n: nat)
    requires !NeverStops(frames)
    ensures StopsAt(frames, n)
  {
    if Stops(frames[0]) {
      n := 0;
    } else {
      var k :| 0 <= k < |frames| && Stops(frames[k]);
      assert frames[1..][k - 1] == frames[k];
      var m := StopExists(frames[1..]);
      n := m + 1;
      forall i | 0 <= i < n ensures !Stops(frames[i]) { assert i > 0 ==> frames[i] == frames[1..][i - 1]; }
    }
  }

  // A stream without a last or a broken frame has no final chunk. Otherwise the first such frame decides: a
  // broken one makes the stream unreadable, and what comes after a last one changes nothing.
  lemma StreamOutcome<T>(frames: seq<Frame<T>>)
    ensures NeverStops(frames) ==> Assembled(frames) == Err(NoFinalChunk)
    ensures forall n: nat :: StopsAt(frames, n) ==>
              if frames[n].Broken? then Assembled(frames) == Err(Unreadable)
              else EndsWithLast(frames[..n + 1]) && Assembled(frames) == Assembled(frames[..n + 1])
  {
    var inbox: Inbox<T> := Inbox(map[], 0, false);
    if NeverStops(frames) { ReceivedToEnd(inbox, frames); }
    forall n: nat | StopsAt(frames, n)
      ensures if frames[n].Broken? then Assembled(frames) == Err(Unreadable)
              else EndsWithLast(frames[..n + 1]) && Assembled(frames) == Assembled(frames[..n + 1])
    {
      ReceivedToStop(inbox, frames, n);
      if frames[n].Chunk? { UpToLast(frames, n); }
    }
  }

  lemma UpToLast<T>(frames: seq<Frame<T>>, n: nat)
    requires StopsAt(frames, n) && frames[n].Chunk?
    ensures EndsWithLast(frames[..n + 1])
  {
    var head := frames[..n + 1];
    forall i | 0 <= i < |head| - 1 ensures head[i].Empty? || (head[i].Chunk? && !head[i].last) { assert !Stops(frames[i]); }
  }

  // Which streams end in which error: no final chunk exactly when nothing stops them, unreadable exactly when
  // a broken frame does; success needs a last chunk before any broken frame.
  lemma StreamErrorsIff<T>(frames: seq<Frame<T>>)
    ensures Assembled(frames) == Err(NoFinalChunk) <==> NeverStops(frames)
    ensures Assembled(frames) == Err(Unreadable) <==> exists n: nat :: StopsAt(frames, n) && frames[n].Broken?
    ensures Assembled(frames).Ok? ==> exists n: nat :: StopsAt(frames, n) && frames[n].Chunk?
  {
    StreamOutcome(frames);
    if !NeverStops(frames) {
      var n := StopExists(frames);
      if frames[n].Chunk? { AssembledIff(frames[..n + 1]); }
      forall m: nat | StopsAt(frames, m) ensures m == n {}
    }
  }
}
