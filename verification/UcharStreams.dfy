/**
 Whole conversions over `Uchar`: what a caller gets who drives a text through the restartable
 functions, however the text is cut into calls.
 */
module UcharStreams {
  import opened Options
  import opened Unicode
  import opened Uchar

  // ---------------------------------------------------------------- one character, many calls

  // A caller that passes chunk after chunk until a call answers something other than -2.
  // The count in the outcome is the number of bytes consumed over all calls.
  function Feed(st: State, chunks: seq<seq<Byte>>): (r: (State, Outcome))
    requires Valid(st)
    decreases |chunks|
  {
    if chunks == [] then (st, Incomplete)
    else
      var (next, o) := Decode(st, Bytes(chunks[0]));
      if !o.Incomplete? then (next, o)
      else
        var (last, final) := Feed(next, chunks[1..]);
        (last, if final.Stored? then final.(consumed := |chunks[0]| + final.consumed) else final)
  }

  lemma EmptyChunkIsIncomplete(st: State)
    requires Valid(st) && st.mode == NO_UNIT
    ensures Decode(st, Bytes([])) == (st, Incomplete)
  {
    assert Pending(st) + [] == Pending(st);
  }

  // Two calls in a row decide exactly what one call on the joined bytes decides.
  lemma TwoCalls(st: State, a: seq<Byte>, b: seq<Byte>)
    requires Valid(st)
    ensures var (mid, o) := Decode(st, Bytes(a)); var (last, final) := Decode(mid, Bytes(b));
      Decode(st, Bytes(a + b)) ==
        if !o.Incomplete? then (mid, o)
        else (last, if final.Stored? then final.(consumed := |a| + final.consumed) else final)
    ensures Decode(st, Bytes(a)).1.Incomplete? ==> Decode(st, Bytes(a)).0.mode == NO_UNIT
  {
    hide Scan;
    hide IsUtf8Char;
    hide Packed;
    hide Utf8;
    hide CodePoint;
    hide ByteOf;
    if st.mode == NO_UNIT {
      var t := Pending(st) + a;
      assert Pending(st) + (a + b) == t + b;
      if Scan(t).Partial? {
        HoldingIsValid(t);
        CompletesLater(t, b);
      } else {
        ScanIsStable(t, b);
      }
    }
  }

  lemma {:induction false} ChunkInvariance(st: State, chunks: seq<seq<Byte>>)
    requires Valid(st) && (st.mode == NO_UNIT || chunks != [])
    ensures Feed(st, chunks) == Decode(st, Bytes(Concat(chunks)))
    decreases |chunks|
  {
    hide Scan;
    hide Valid;
    hide Decode;
    if chunks == [] {
      EmptyChunkIsIncomplete(st);
    } else {
      var next := Decode(st, Bytes(chunks[0])).0;
      TwoCalls(st, chunks[0], Concat(chunks[1..]));
      if Decode(st, Bytes(chunks[0])).1.Incomplete? {
        ChunkInvariance(next, chunks[1..]);
      }
    }
  }

  // ---------------------------------------------------------------- UTF-8 to UTF-16

  datatype End = Finished | Truncated | Rejected

  datatype Run<T> = Run(out: seq<T>, end: End)

  function Prepend<T>(first: seq<T>, rest: Run<T>): Run<T> {
    Run(first + rest.out, rest.end)
  }

  function Size(chunks: seq<seq<Byte>>): nat {
    if chunks == [] then 0 else |chunks[0]| + 1 + Size(chunks[1..])
  }

  // The caller of mbrtoc16: collects units, advances by the consumed bytes, passes the next chunk
  // after -2 and the same one after -3. A unit still pending at the end is fetched by a call
  // with no bytes.
  function Collect16(st: State, chunks: seq<seq<Byte>>): Run<int>
    requires Valid(st)
    decreases Size(chunks), st.mode
  {
    if chunks == [] then
      var (next, o) := Mbrtoc16(st, Bytes([]));
      if o.Second? then Run([o.unit], Finished)
      else if st == INITIAL then Run([], Finished)
      else Run([], Truncated)
    else
      var (next, o) := Mbrtoc16(st, Bytes(chunks[0]));
      match o
      case Second(u) => Prepend([u], Collect16(next, chunks))
      case Incomplete => Collect16(next, chunks[1..])
      case Stored(u, n) =>
        StoredConsumes(st, Bytes(chunks[0]));
        Prepend([u], Collect16(next, [chunks[0][n..]] + chunks[1..]))
      case _ => Run([], Rejected)
  }

  // The same conversion without states: split off the first character, convert, go on.
  function Transcode(t: seq<Byte>): Run<int>
    decreases |t|
  {
    match Scan(t)
    case Partial => Run([], if t == [] then Finished else Truncated)
    case Bad => Run([], Rejected)
    case Complete(value, length) => Prepend(Utf16(value), Transcode(t[length..]))
  }

  // What a state in the middle of a run still owes, followed by the rest of the text.
  function Owed(st: State, rest: seq<Byte>): Run<int>
    requires Valid(st)
  {
    if st.mode == LOW_PENDING then Prepend([st.unit], Transcode(rest))
    else Transcode(Pending(st) + rest)
  }

  // A call that stores a character: its first unit, then whatever the next state owes.
  lemma OwedAfterStored(st: State, chunk: seq<Byte>, rest: seq<Byte>)
    requires Valid(st) && st.mode == NO_UNIT && Decode(st, Bytes(chunk)).1.Stored?
    ensures var (next, o) := Mbrtoc16(st, Bytes(chunk));
      && 0 < o.consumed <= |chunk|
      && Owed(st, chunk + rest) == Prepend([o.value], Owed(next, chunk[o.consumed..] + rest))
  {
    hide Utf8;
    hide IsUtf8Char;
    hide CodePoint;
    hide Scan;
    hide Utf16;
    StoredConsumes(st, Bytes(chunk));
    var (next, o) := Mbrtoc16(st, Bytes(chunk));
    var p, tail := Pending(st), chunk[o.consumed..] + rest;
    var t := p + (chunk + rest);
    assert t == p + chunk + rest;
    ScanIsStable(p + chunk, rest);
    assert t[|p| + o.consumed..] == tail;
    assert Pending(next) + tail == tail;
    var us := Utf16(Decode(st, Bytes(chunk)).1.value);
    assert Transcode(t) == Prepend(us, Transcode(tail));
    if |us| == 2 {
      assert us + Transcode(tail).out == [us[0]] + ([us[1]] + Transcode(tail).out);
    }
  }

  lemma OwedAfterIncomplete(st: State, chunk: seq<Byte>, rest: seq<Byte>)
    requires Valid(st) && Decode(st, Bytes(chunk)).1.Incomplete?
    ensures Owed(st, chunk + rest) == Owed(Decode(st, Bytes(chunk)).0, rest)
  {
    HoldingIsValid(Pending(st) + chunk);
    assert Pending(st) + (chunk + rest) == Pending(st) + chunk + rest;
  }

  lemma OwedAfterIllegal(st: State, chunk: seq<Byte>, rest: seq<Byte>)
    requires Valid(st) && st.mode == NO_UNIT && Decode(st, Bytes(chunk)).1.Illegal?
    ensures Owed(st, chunk + rest) == Run([], Rejected)
  {
    assert Pending(st) + (chunk + rest) == Pending(st) + chunk + rest;
    ScanIsStable(Pending(st) + chunk, rest);
  }

  lemma ModeIsKnown(st: State)
    requires Valid(st)
    ensures st.mode in {NO_UNIT, LOW_PENDING, HIGH_SEEN}
  {}

  lemma OwedAtEnd(st: State)
    requires Valid(st) && st.mode != HIGH_SEEN
    ensures Collect16(st, []) == Owed(st, [])
  {
    assert Pending(st) + [] == Pending(st);
  }

  // Chunking does not matter to a whole stream.
  lemma {:induction false} CollectIsTranscode(st: State, chunks: seq<seq<Byte>>)
    requires Valid(st) && st.mode != HIGH_SEEN
    ensures Collect16(st, chunks) == Owed(st, Concat(chunks))
    decreases Size(chunks), st.mode
  {
    hide Scan;
    hide Valid;
    hide Transcode;
    ModeIsKnown(st);
    if chunks == [] {
      OwedAtEnd(st);
    } else if st.mode == LOW_PENDING {
      CollectIsTranscode(Start(), chunks);
      assert Pending(INITIAL) + Concat(chunks) == Concat(chunks);
    } else {
      var chunk, rest := chunks[0], Concat(chunks[1..]);
      var (next, o) := Mbrtoc16(st, Bytes(chunk));
      match Decode(st, Bytes(chunk)).1 {
        case Incomplete =>
          OwedAfterIncomplete(st, chunk, rest);
          CollectIsTranscode(next, chunks[1..]);
        case Stored(_, n) =>
          OwedAfterStored(st, chunk, rest);
          var shorter := [chunk[n..]] + chunks[1..];
          assert shorter[1..] == chunks[1..];
          CollectIsTranscode(next, shorter);
        case _ =>
          OwedAfterIllegal(st, chunk, rest);
      }
    }
  }

  // Exactly the UTF-8 texts are accepted, and they come out as their UTF-16.
  lemma {:induction false} TranscodeOfUtf8(vs: seq<Scalar>)
    ensures Transcode(Utf8All(vs)) == Run(Utf16All(vs), Finished)
  {
    if vs != [] {
      ScanAccepts(vs[0], Utf8All(vs[1..]), 0);
      assert Utf8All(vs)[|Utf8(vs[0])|..] == Utf8All(vs[1..]);
      TranscodeOfUtf8(vs[1..]);
    }
  }

  lemma {:induction false} TranscodeAcceptsOnlyUtf8(t: seq<Byte>) returns (vs: seq<Scalar>)
    requires Transcode(t).end.Finished?
    ensures Utf8All(vs) == t
    decreases |t|
  {
    hide Utf8;
    hide Utf16;
    hide IsUtf8Char;
    hide CodePoint;
    match Scan(t) {
      case Complete(value, length) =>
        var rest := TranscodeAcceptsOnlyUtf8(t[length..]);
        vs := [value] + rest;
        assert vs[1..] == rest;
        assert t == t[..length] + t[length..];
      case _ => vs := [];
    }
  }

  lemma Mbrtoc16Stream(chunks: seq<seq<Byte>>)
    ensures var run := Collect16(Start(), chunks);
      && (run.end.Finished? <==> IsUtf8(Concat(chunks)))
      && forall vs: seq<Scalar> :: Utf8All(vs) == Concat(chunks) ==> run == Run(Utf16All(vs), Finished)
  {
    HoldingIsValid([]);
    CollectIsTranscode(INITIAL, chunks);
    assert Pending(INITIAL) + Concat(chunks) == Concat(chunks);
    if Transcode(Concat(chunks)).end.Finished? {
      var ws := TranscodeAcceptsOnlyUtf8(Concat(chunks));
    }
    forall vs: seq<Scalar> | Utf8All(vs) == Concat(chunks)
      ensures Collect16(Start(), chunks) == Run(Utf16All(vs), Finished)
    {
      TranscodeOfUtf8(vs);
    }
  }

  // ---------------------------------------------------------------- a caller in C

  const LOST := Run([-1], Rejected)

  function StoredBy(o: Outcome): int {
    if o.Written().Some? then o.Written().value else -1
  }

  // A caller that sees only what the C function returns, and what it stores: a positive result says how
  // many bytes to go on by, 0 that the character is NUL and took one byte, -2 that the next chunk is
  // needed, -3 that nothing was consumed, and -1 stops the run. With any other answer the caller is lost.
  function Caller16(st: State, chunks: seq<seq<Byte>>): Run<int>
    requires Valid(st)
    decreases Size(chunks), st.mode
  {
    if chunks == [] then
      var (next, o) := Mbrtoc16(st, Bytes([]));
      if o.Code() == -3 then Run([StoredBy(o)], Finished)
      else Run([], if st == INITIAL then Finished else Truncated)
    else
      var (next, o) := Mbrtoc16(st, Bytes(chunks[0]));
      if o.Code() == -1 then Run([], Rejected)
      else if o.Code() == -2 then Caller16(next, chunks[1..])
      else if o.Code() == -3 then
        if next.mode < st.mode then Prepend([StoredBy(o)], Caller16(next, chunks)) else LOST
      else
        var n := if o.Code() == 0 then 1 else o.Code();
        if 0 < n <= |chunks[0]| then Prepend([StoredBy(o)], Caller16(next, [chunks[0][n..]] + chunks[1..]))
        else LOST
  }

  // The numbers tell such a caller all that a conversion comes to.
  lemma {:induction false} CallerIsCollect(st: State, chunks: seq<seq<Byte>>)
    requires Valid(st)
    ensures Caller16(st, chunks) == Collect16(st, chunks)
    decreases Size(chunks), st.mode
  {
    hide Scan;
    hide Valid;
    hide Utf16;
    hide Decode;
    if chunks == [] {
      NoBytesNoCharacter(st);
    } else {
      var chunk := chunks[0];
      var (next, o) := Mbrtoc16(st, Bytes(chunk));
      CodeOfStored(st, chunk);
      ModeIsKnown(st);
      ModeIsKnown(next);
      match o {
        case Second(u) => CallerIsCollect(next, chunks);
        case Incomplete => CallerIsCollect(next, chunks[1..]);
        case Stored(u, n) => CallerIsCollect(next, [chunk[n..]] + chunks[1..]);
        case _ =>
      }
    }
  }

  lemma CodeOfStored(st: State, chunk: seq<Byte>)
    requires Valid(st)
    ensures var (next, o) := Mbrtoc16(st, Bytes(chunk));
      && !o.Cleared?
      && (o.Second? ==> next.mode < st.mode)
      && (o.Stored? ==> 0 < o.consumed <= |chunk| && (o.value == 0 ==> o.consumed == 1))
  {
    hide Scan;
    if Decode(st, Bytes(chunk)).1.Stored? {
      StoredConsumes(st, Bytes(chunk));
    }
  }

  lemma NoBytesNoCharacter(st: State)
    requires Valid(st)
    ensures var o := Mbrtoc16(st, Bytes([])).1; o.Second? || o.Incomplete? || o.Illegal?
  {
    hide Scan;
    CodeOfStored(st, []);
  }

  // What a caller in C gets of a text in any chunks: all of its UTF-16 exactly if it is UTF-8.
  lemma CallerStream(chunks: seq<seq<Byte>>)
    ensures var run := Caller16(Start(), chunks);
      && (run.end.Finished? <==> IsUtf8(Concat(chunks)))
      && forall vs: seq<Scalar> :: Utf8All(vs) == Concat(chunks) ==> run == Run(Utf16All(vs), Finished)
  {
    CallerIsCollect(Start(), chunks);
    Mbrtoc16Stream(chunks);
  }

  // The same for mbrtoc32, which stores whole scalars and never answers -3.
  function Caller32(st: State, chunks: seq<seq<Byte>>): Run<int>
    requires Valid(st)
    decreases Size(chunks)
  {
    if chunks == [] then Run([], if st == INITIAL then Finished else Truncated)
    else
      var (next, o) := Decode(st, Bytes(chunks[0]));
      if o.Code() == -1 then Run([], Rejected)
      else if o.Code() == -2 then Caller32(next, chunks[1..])
      else
        var n := if o.Code() == 0 then 1 else o.Code();
        if 0 < n <= |chunks[0]| then Prepend([StoredBy(o)], Caller32(next, [chunks[0][n..]] + chunks[1..]))
        else LOST
  }

  // The scalars of a text, split off one by one.
  function Scalars(t: seq<Byte>): Run<int>
    decreases |t|
  {
    match Scan(t)
    case Partial => Run([], if t == [] then Finished else Truncated)
    case Bad => Run([], Rejected)
    case Complete(value, length) => Prepend([value], Scalars(t[length..]))
  }

  lemma {:induction false} Caller32IsScalars(st: State, chunks: seq<seq<Byte>>)
    requires Valid(st) && st.mode == NO_UNIT
    ensures Caller32(st, chunks) == Scalars(Pending(st) + Concat(chunks))
    decreases Size(chunks)
  {
    hide *;
    HaveIsSmall(st);
    if chunks == [] {
      assert Pending(st) + [] == Pending(st);
      ScalarsAtEnd(st);
      Caller32AtEnd(st);
      NoChunks();
    } else {
      var chunk, rest := chunks[0], Concat(chunks[1..]);
      var (next, o) := Decode(st, Bytes(chunk));
      HaveIsSmall(next);
      FirstChunk(chunks);
      assert Pending(st) + (chunk + rest) == Pending(st) + chunk + rest;
      if o.Incomplete? {
        ScalarsGoOn(st, chunk);
        Caller32Step(st, chunks);
        Caller32IsScalars(next, chunks[1..]);
      } else if o.Stored? {
        ScalarsStep(st, chunk, rest);
        Caller32Step(st, chunks);
        var shorter := [chunk[o.consumed..]] + chunks[1..];
        assert shorter[1..] == chunks[1..];
        FirstChunk(shorter);
        Caller32IsScalars(next, shorter);
        assert [] + (chunk[o.consumed..] + rest) == chunk[o.consumed..] + rest;
      } else {
        ScalarsStop(st, chunk, rest);
        Caller32Step(st, chunks);
      }
    }
  }

  lemma NoChunks()
    ensures Concat<Byte>([]) == []
  {}

  lemma FirstChunk(chunks: seq<seq<Byte>>)
    requires chunks != []
    ensures Concat(chunks) == chunks[0] + Concat(chunks[1..])
    ensures Size(chunks) == |chunks[0]| + 1 + Size(chunks[1..])
  {}

  lemma Caller32AtEnd(st: State)
    requires Valid(st)
    ensures Caller32(st, []) == Run([], if st == INITIAL then Finished else Truncated)
  {}

  lemma Caller32Step(st: State, chunks: seq<seq<Byte>>)
    requires Valid(st) && chunks != []
    requires
      var o := Decode(st, Bytes(chunks[0])).1;
      o.Incomplete? || o.Illegal? || (o.Stored? && 0 < o.consumed <= |chunks[0]| && (o.value == 0 ==> o.consumed == 1))
    ensures
      var (next, o) := Decode(st, Bytes(chunks[0]));
      && (o.Incomplete? ==> Caller32(st, chunks) == Caller32(next, chunks[1..]))
      && (o.Illegal? ==> Caller32(st, chunks) == Run([], Rejected))
      && (o.Stored? ==> Caller32(st, chunks) == Prepend([o.value], Caller32(next, [chunks[0][o.consumed..]] + chunks[1..])))
  {
    hide *;
    CodeSays(Decode(st, Bytes(chunks[0])).1);
    Caller32Unfolds(st, chunks);
  }

  lemma CodeSays(o: Outcome)
    ensures o.Incomplete? ==> o.Code() == -2
    ensures o.Illegal? ==> o.Code() == -1
    ensures o.Stored? ==> o.Code() == (if o.value == 0 then 0 else o.consumed) && StoredBy(o) == o.value
  {}

  lemma Caller32Unfolds(st: State, chunks: seq<seq<Byte>>)
    requires Valid(st) && chunks != []
    ensures
      var (next, o) := Decode(st, Bytes(chunks[0]));
      var n := if o.Code() == 0 then 1 else o.Code();
      && (o.Code() == -1 ==> Caller32(st, chunks) == Run([], Rejected))
      && (o.Code() == -2 ==> Caller32(st, chunks) == Caller32(next, chunks[1..]))
      && (0 < n <= |chunks[0]| ==>
        Caller32(st, chunks) == Prepend([StoredBy(o)], Caller32(next, [chunks[0][n..]] + chunks[1..])))
  {
    hide Decode;
    hide Valid;
    hide Outcome.Code;
    hide StoredBy;
    hide Prepend;
  }

  lemma HaveIsSmall(st: State)
    requires Valid(st)
    ensures 0 <= st.have <= 3
  {}

  lemma ScalarsAtEnd(st: State)
    requires Valid(st) && st.mode == NO_UNIT
    ensures Scalars(Pending(st)) == Run([], if st == INITIAL then Finished else Truncated)
  {}

  lemma ScalarsGoOn(st: State, chunk: seq<Byte>)
    requires Valid(st) && st.mode == NO_UNIT && Decode(st, Bytes(chunk)).1.Incomplete?
    ensures Decode(st, Bytes(chunk)).0.mode == NO_UNIT && Pending(Decode(st, Bytes(chunk)).0) == Pending(st) + chunk
  {
    HoldingIsValid(Pending(st) + chunk);
  }

  lemma ScalarsStep(st: State, chunk: seq<Byte>, rest: seq<Byte>)
    requires Valid(st) && st.mode == NO_UNIT && Decode(st, Bytes(chunk)).1.Stored?
    ensures
      var (next, o) := Decode(st, Bytes(chunk));
      && next.mode == NO_UNIT && Pending(next) == []
      && 0 < o.consumed <= |chunk| && (o.value == 0 ==> o.consumed == 1)
      && Scalars(Pending(st) + chunk + rest) == Prepend([o.value], Scalars(chunk[o.consumed..] + rest))
  {
    hide Utf8;
    hide IsUtf8Char;
    hide CodePoint;
    hide Scan;
    StoredConsumes(st, Bytes(chunk));
    var t, n := Pending(st) + chunk, Decode(st, Bytes(chunk)).1.consumed;
    ScanIsStable(t, rest);
    assert (t + rest)[st.have + n..] == chunk[n..] + rest;
  }

  lemma ScalarsStop(st: State, chunk: seq<Byte>, rest: seq<Byte>)
    requires Valid(st) && st.mode == NO_UNIT
    requires !Decode(st, Bytes(chunk)).1.Incomplete? && !Decode(st, Bytes(chunk)).1.Stored?
    ensures Decode(st, Bytes(chunk)).1 == Illegal && Scalars(Pending(st) + chunk + rest) == Run([], Rejected)
  {
    hide Utf8;
    hide IsUtf8Char;
    hide Scan;
    ScanIsStable(Pending(st) + chunk, rest);
  }

  lemma {:induction false} ScalarsOfUtf8(vs: seq<Scalar>)
    ensures Scalars(Utf8All(vs)) == Run(vs, Finished)
  {
    if vs != [] {
      ScanAccepts(vs[0], Utf8All(vs[1..]), 0);
      assert Utf8All(vs)[|Utf8(vs[0])|..] == Utf8All(vs[1..]);
      ScalarsOfUtf8(vs[1..]);
      assert vs == [vs[0]] + vs[1..];
    }
  }

  lemma {:induction false} ScalarsEndLikeTranscode(t: seq<Byte>)
    ensures Scalars(t).end == Transcode(t).end
    decreases |t|
  {
    hide Utf16;
    match Scan(t) {
      case Complete(_, length) => ScalarsEndLikeTranscode(t[length..]);
      case _ =>
    }
  }

  lemma Caller32Stream(chunks: seq<seq<Byte>>)
    ensures var run := Caller32(Start(), chunks);
      && (run.end.Finished? <==> IsUtf8(Concat(chunks)))
      && forall vs: seq<Scalar> :: Utf8All(vs) == Concat(chunks) ==> run == Run(vs, Finished)
  {
    hide Transcode;
    hide Scalars;
    HoldingIsValid([]);
    Caller32IsScalars(Start(), chunks);
    assert Pending(INITIAL) + Concat(chunks) == Concat(chunks);
    ScalarsEndLikeTranscode(Concat(chunks));
    if Transcode(Concat(chunks)).end.Finished? {
      var ws := TranscodeAcceptsOnlyUtf8(Concat(chunks));
    }
    forall vs: seq<Scalar> | Utf8All(vs) == Concat(chunks) ensures Scalars(Concat(chunks)) == Run(vs, Finished) {
      ScalarsOfUtf8(vs);
    }
  }

  // A null pointer asks for the initial state, whatever the state is.
  lemma NullStartsAnew(st: State, chunks: seq<seq<Byte>>)
    requires Valid(st)
    ensures var (next, o) := Mbrtoc16(st, Null);
      o.Code() == 0 && o.Written() == None && Caller16(next, chunks) == Caller16(Start(), chunks)
    ensures var (next, o) := Decode(st, Null);
      o.Code() == 0 && o.Written() == None && Caller32(next, chunks) == Caller32(Start(), chunks)
  {}

  // ---------------------------------------------------------------- UTF-16 to UTF-8

  // The caller of c16rtomb: one call a unit, stopping at the first error.
  function CollectBytes(st: State, units: seq<Unit16>): Run<Byte>
    requires Valid(st)
    decreases |units|
  {
    if units == [] then Run([], if st.mode == HIGH_SEEN then Truncated else Finished)
    else
      var (next, stored) := C16rtomb(st, units[0]);
      match stored
      case None => Run([], Rejected)
      case Some(bytes) => Prepend(bytes, CollectBytes(next, units[1..]))
  }

  // The state between two whole characters; a high surrogate moves away from it.
  lemma CollectOne(v: Scalar, units: seq<Unit16>)
    ensures CollectBytes(Start(), Utf16(v) + units) == Prepend(Utf8(v), CollectBytes(Start(), units))
  {
    var us := Utf16(v) + units;
    if |Utf16(v)| == 1 {
      assert us[1..] == units;
    } else {
      var mid := C16rtomb(INITIAL, us[0]).0;
      assert us[1..][1..] == units;
      assert CollectBytes(mid, us[1..]) == Prepend(Utf8(v), CollectBytes(Start(), units));
      assert [] + (Utf8(v) + CollectBytes(Start(), units).out) == Utf8(v) + CollectBytes(Start(), units).out;
    }
  }

  lemma {:induction false} CollectOfUtf16(vs: seq<Scalar>)
    ensures CollectBytes(Start(), Utf16All(vs)) == Run(Utf8All(vs), Finished)
  {
    if vs != [] {
      CollectOne(vs[0], Utf16All(vs[1..]));
      CollectOfUtf16(vs[1..]);
    }
  }

  lemma HighNeedsLow(st: State, units: seq<Unit16>)
    requires Valid(st) && st.mode == HIGH_SEEN && CollectBytes(st, units).end.Finished?
    ensures units != [] && IsLowSurrogate(units[0])
  {}

  lemma LowAloneIsRejected(units: seq<Unit16>)
    requires units != [] && CollectBytes(Start(), units).end.Finished?
    ensures !IsLowSurrogate(units[0])
    ensures IsHighSurrogate(units[0]) ==> |units| > 1 && IsLowSurrogate(units[1])
  {
    hide Utf8;
    if IsHighSurrogate(units[0]) {
      HighNeedsLow(C16rtomb(Start(), units[0]).0, units[1..]);
    }
  }

  // The first character of an accepted sequence of units.
  lemma AcceptedStart(units: seq<Unit16>) returns (v: Scalar, rest: seq<Unit16>)
    requires units != [] && CollectBytes(Start(), units).end.Finished?
    ensures units == Utf16(v) + rest
  {
    hide CollectBytes;
    LowAloneIsRejected(units);
    if IsHighSurrogate(units[0]) {
      v, rest := PairValue(units[0], units[1]), units[2..];
      assert Utf16(v) == [units[0], units[1]];
      assert units == [units[0], units[1]] + units[2..];
    } else {
      v, rest := units[0], units[1..];
    }
  }

  lemma {:induction false} CollectAcceptsOnlyUtf16(units: seq<Unit16>) returns (vs: seq<Scalar>)
    requires CollectBytes(Start(), units).end.Finished?
    ensures Utf16All(vs) == units
    decreases |units|
  {
    if units == [] {
      vs := [];
    } else {
      var v, rest := AcceptedStart(units);
      CollectOne(v, rest);
      var ws := CollectAcceptsOnlyUtf16(rest);
      vs := [v] + ws;
    }
  }

  lemma C16rtombStream(units: seq<Unit16>)
    ensures var run := CollectBytes(Start(), units);
      && (run.end.Finished? <==> exists vs: seq<Scalar> :: Utf16All(vs) == units)
      && forall vs: seq<Scalar> :: Utf16All(vs) == units ==> run == Run(Utf8All(vs), Finished)
  {
    if CollectBytes(Start(), units).end.Finished? {
      var ws := CollectAcceptsOnlyUtf16(units);
    }
    forall vs: seq<Scalar> | Utf16All(vs) == units
      ensures CollectBytes(Start(), units) == Run(Utf8All(vs), Finished)
    {
      CollectOfUtf16(vs);
    }
  }

  // A unit that is refused leaves nothing behind: what follows is converted like a text of its own.
  lemma RefusalStartsAnew(st: State, u: Unit16, units: seq<Unit16>)
    requires Valid(st) && (st == INITIAL || st.mode == HIGH_SEEN) && C16rtomb(st, u).1.None?
    ensures CollectBytes(C16rtomb(st, u).0, units) == CollectBytes(Start(), units)
  {}

  // There and back: what mbrtoc16 makes of a text in any chunks, c16rtomb turns into the text again.
  lemma RoundTrip(chunks: seq<seq<Byte>>, units: seq<Unit16>)
    requires Collect16(Start(), chunks) == Run(units, Finished)
    ensures CollectBytes(Start(), units) == Run(Concat(chunks), Finished)
  {
    Mbrtoc16Stream(chunks);
    var vs: seq<Scalar> :| Utf8All(vs) == Concat(chunks);
    CollectOfUtf16(vs);
  }
}
