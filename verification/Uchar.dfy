/**
 The conversion functions of <uchar.h>: a restartable UTF-8 decoder over a packed state, the
 UTF-16 pairing on top of it, and the encoders of the opposite direction.

 `Mbstate` carries the words the C code updates. Each of its methods is tied to a function on
 `State` values; the laws of whole conversions are proved about those functions.
 Masks and shifts are written as the arithmetic they compute on unsigned words:
 `x & 0x3f` is `x % 0x40`, `x >> 6` is `x / 0x40`, and `|` of disjoint bits is `+`.
 */
module Uchar {
  import opened Options
  import opened Unicode

  // The first five words of mbstate_t.
  datatype State = State(bytes: int, have: int, need: int, unit: int, mode: int)

  const INITIAL := State(0, 0, 0, 0, 0)

  const NO_UNIT := 0
  const LOW_PENDING := 1
  const HIGH_SEEN := 2

  // The `s` and `n` arguments of the decoders; `Null` is the null pointer.
  datatype Input = Null | Bytes(bytes: seq<Byte>)

  datatype Outcome =
    | Cleared
    | Illegal
    | Incomplete
    | Second(unit: int)
    | Stored(value: int, consumed: nat)
  {
    // The size_t the C function returns, with -1, -2 and -3 for the wrapped constants.
    function Code(): int {
      match this
      case Cleared => 0
      case Illegal => -1
      case Incomplete => -2
      case Second(_) => -3
      case Stored(value, consumed) => if value == 0 then 0 else consumed
    }

    // What the C function stores in its output parameter, if anything.
    function Written(): Option<int> {
      match this
      case Second(unit) => Some(unit)
      case Stored(value, _) => Some(value)
      case _ => None
    }
  }

  // ---------------------------------------------------------------- packed words

  function At(p: seq<Byte>, i: nat): int {
    if i < |p| then p[i] else 0
  }

  function Packed(p: seq<Byte>): int {
    At(p, 0) + 0x100 * At(p, 1) + 0x1_0000 * At(p, 2) + 0x100_0000 * At(p, 3)
  }

  function ByteOf(word: int, i: nat): (b: Byte) {
    match i
    case 0 => word % 0x100
    case 1 => word / 0x100 % 0x100
    case 2 => word / 0x1_0000 % 0x100
    case _ => word / 0x100_0000 % 0x100
  }

  function Shifted(b: int, bytes: nat): int {
    match bytes
    case 0 => b
    case 1 => 0x100 * b
    case 2 => 0x1_0000 * b
    case _ => 0x100_0000 * b
  }

  lemma Unpack(p: seq<Byte>, i: nat)
    requires i < |p| <= 4
    ensures ByteOf(Packed(p), i) == p[i]
  {
    var w, b0, b1, b2, b3 := Packed(p), At(p, 0), At(p, 1), At(p, 2), At(p, 3);
    assert w / 0x100 == b1 + 0x100 * b2 + 0x1_0000 * b3;
    assert w / 0x1_0000 == b2 + 0x100 * b3;
    assert w / 0x100_0000 == b3;
  }

  // `__o[0] |= byte << (__o[1] * 8)` appends a byte to the packed ones.
  lemma PackAppend(p: seq<Byte>, b: Byte)
    requires |p| <= 3
    ensures Packed(p + [b]) == Packed(p) + Shifted(b, |p|)
  {}

  // ---------------------------------------------------------------- reading one character

  function Utf8Need(b: Byte): (n: nat)
    ensures n <= 4
  {
    if b < 0x80 then 1
    else if 0xC2 <= b <= 0xDF then 2
    else if 0xE0 <= b <= 0xEF then 3
    else if 0xF0 <= b <= 0xF4 then 4
    else 0
  }

  // The value of the packed bytes, or -1 where the C function returns 0.
  function Utf8Value(word: int, need: nat): int {
    CheckedValue(ByteOf(word, 0), ByteOf(word, 1), ByteOf(word, 2), ByteOf(word, 3), need)
  }

  function CheckedValue(b0: int, b1: int, b2: int, b3: int, need: nat): int {
    var value :=
      if need == 1 then b0
      else if need == 2 then b0 % 0x20 * 0x40 + b1 % 0x40
      else if need == 3 then b0 % 0x10 * 0x1000 + b1 % 0x40 * 0x40 + b2 % 0x40
      else b0 % 0x08 * 0x4_0000 + b1 % 0x40 * 0x1000 + b2 % 0x40 * 0x40 + b3 % 0x40;
    if || (need == 2 && value < 0x80)
       || (need == 3 && value < 0x800)
       || (need == 4 && value < 0x1_0000)
       || 0xD800 <= value <= 0xDFFF
       || value > 0x10_FFFF
    then -1
    else value
  }

  predicate TailsFrom1(t: seq<Byte>) {
    forall i :: 1 <= i < |t| ==> IsTail(t[i])
  }

  lemma LowBits(b: int)
    ensures IsTail(b) ==> b % 0x40 == b - 0x80
    ensures 0xC0 <= b <= 0xDF ==> b % 0x20 == b - 0xC0
    ensures 0xE0 <= b <= 0xEF ==> b % 0x10 == b - 0xE0
    ensures 0xF0 <= b <= 0xF7 ==> b % 0x08 == b - 0xF0
  {}

  // The octets of a character without their marker bits, put together.
  function Assembled(b0: int, b1: int, b2: int, b3: int, need: nat): int {
    match need
    case 1 => b0
    case 2 => Extend(b0 - 0xC0, b1)
    case 3 => Extend(Extend(b0 - 0xE0, b1), b2)
    case _ => Extend(Extend(Extend(b0 - 0xF0, b1), b2), b3)
  }

  lemma CheckedIsAssembled(b0: Byte, b1: Byte, b2: Byte, b3: Byte)
    requires var need := Utf8Need(b0);
      need > 0 && (need > 1 ==> IsTail(b1)) && (need > 2 ==> IsTail(b2)) && (need > 3 ==> IsTail(b3))
    ensures var need, v := Utf8Need(b0), Assembled(b0, b1, b2, b3, Utf8Need(b0));
      CheckedValue(b0, b1, b2, b3, need) ==
        if IsScalar(v) && v >= [0, 0, 0x80, 0x800, 0x1_0000][need] then v else -1
  {
    LowBits(b0);
    LowBits(b1);
    LowBits(b2);
    LowBits(b3);
  }

  // Rejecting by decoded value and rejecting by the byte ranges of RFC 3629 are the same.
  lemma ValueCheckIsRangeCheck(t: seq<Byte>)
    requires t != [] && |t| == Utf8Need(t[0]) && TailsFrom1(t)
    ensures IsUtf8Char(t) <==> Utf8Value(Packed(t), |t|) >= 0
    ensures IsUtf8Char(t) ==> Utf8Value(Packed(t), |t|) == CodePoint(t)
  {
    var w := Packed(t);
    forall i: nat | i < |t| ensures ByteOf(w, i) == t[i] { Unpack(t, i); }
    CheckedIsAssembled(ByteOf(w, 0), ByteOf(w, 1), ByteOf(w, 2), ByteOf(w, 3));
  }

  datatype Scanned = Partial | Bad | Complete(value: int, length: nat)

  // What a text that starts at a character boundary begins with.
  function Scan(t: seq<Byte>): (r: Scanned)
    ensures r.Complete? ==>
      && 0 < r.length <= |t|
      && IsUtf8Char(t[..r.length])
      && r.value == CodePoint(t[..r.length])
      && IsScalar(r.value)
      && t[..r.length] == Utf8(r.value)
  {
    if t == [] then Partial
    else
      var need := Utf8Need(t[0]);
      if need == 0 || !TailsFrom1(t[..if need < |t| then need else |t|]) then Bad
      else if |t| < need then Partial
      else if IsUtf8Char(t[..need]) then Utf8IsOnto(t[..need]); Complete(CodePoint(t[..need]), need)
      else Bad
  }

  // A decided text stays decided, whatever follows.
  lemma ScanIsStable(t: seq<Byte>, u: seq<Byte>)
    requires !Scan(t).Partial?
    ensures Scan(t + u) == Scan(t)
  {
    var need := Utf8Need(t[0]);
    if need <= |t| {
      assert (t + u)[..need] == t[..need];
    } else {
      var i :| 1 <= i < |t| && !IsTail(t[i]);
      assert need > 0 ==> (t + u)[..if need < |t + u| then need else |t + u|][i] == t[i];
    }
  }

  // No well-formed character is rejected, whole or cut short.
  lemma ScanAccepts(v: Scalar, u: seq<Byte>, k: nat)
    requires k < |Utf8(v)|
    ensures Scan(Utf8(v) + u) == Complete(v, |Utf8(v)|)
    ensures Scan(Utf8(v)[..k]) == Partial
  {
    var s := Utf8(v);
    assert (s + u)[0] == s[0] && |s| == Utf8Need(s[0]);
    assert (s + u)[..|s|] == s;
  }

  predicate NarrowsSecond(b0: Byte, b1: Byte) {
    || (b0 == 0xE0 && b1 < 0xA0)
    || (b0 == 0xED && b1 > 0x9F)
    || (b0 == 0xF0 && b1 < 0x90)
    || (b0 == 0xF4 && b1 > 0x8F)
  }

  // C11 7.28.1.1 promises -2 for a character that is "potentially valid". The decoder also
  // answers -2 after some first two bytes that no character starts with; these are all of them.
  lemma IncompleteIsCompletable(t: seq<Byte>)
    requires t != [] && Scan(t).Partial?
    ensures (exists v: Scalar :: t <= Utf8(v)) <==> !(|t| >= 2 && NarrowsSecond(t[0], t[1]))
  {
    if |t| >= 2 && NarrowsSecond(t[0], t[1]) {
      forall v: Scalar ensures !(t <= Utf8(v)) { assert IsUtf8Char(Utf8(v)); }
    } else {
      var whole := Completed(t);
      Utf8IsOnto(whole);
      assert t <= Utf8(CodePoint(whole));
    }
  }

  // A character that starts with the bytes received so far.
  function Completed(t: seq<Byte>): (whole: seq<Byte>)
    requires t != [] && Scan(t).Partial? && !(|t| >= 2 && NarrowsSecond(t[0], t[1]))
    ensures t <= whole && IsUtf8Char(whole)
  {
    assert TailsFrom1(t) by { assert t[..|t|] == t; }
    var second: Byte := if |t| >= 2 then t[1] else if t[0] == 0xE0 || t[0] == 0xF0 then 0xA0 else 0x80;
    var third: Byte := if |t| >= 3 then t[2] else 0x80;
    if t[0] < 0xE0 then [t[0], second]
    else if t[0] < 0xF0 then [t[0], second, third]
    else [t[0], second, third, 0x80]
  }

  // The smallest such input: 0xE0 0x80 is answered with -2, and starts no character.
  lemma IncompleteButHopeless()
    ensures Scan([0xE0, 0x80]) == Partial && forall v: Scalar :: !([0xE0, 0x80] <= Utf8(v))
  {
    IncompleteIsCompletable([0xE0, 0x80]);
  }

  // ---------------------------------------------------------------- the state

  function Pending(st: State): (p: seq<Byte>)
    requires 0 <= st.have <= 4
    ensures |p| == st.have
  {
    seq(st.have, i requires 0 <= i => ByteOf(st.bytes, i))
  }

  function Holding(p: seq<Byte>): State {
    if p == [] then INITIAL else State(Packed(p), |p|, Utf8Need(p[0]), NO_UNIT, NO_UNIT)
  }

  predicate Valid(st: State) {
    && 0 <= st.have <= 3
    && Scan(Pending(st)).Partial?
    && st.(unit := NO_UNIT, mode := NO_UNIT) == Holding(Pending(st))
    && match st.mode
       case 0 => st.unit == 0
       case 1 => st.have == 0 && IsLowSurrogate(st.unit)
       case 2 => IsHighSurrogate(st.unit)
       case _ => false
  }

  lemma HoldingIsValid(p: seq<Byte>)
    requires Scan(p).Partial?
    ensures Valid(Holding(p)) && Pending(Holding(p)) == p
  {
    if p != [] {
      assert |p| <= 3;
      forall i: nat | i < |p| ensures ByteOf(Packed(p), i) == p[i] { Unpack(p, i); }
    }
    assert Pending(Holding(p)) == p;
  }

  function Start(): (st: State)
    ensures st == INITIAL && Valid(st)
  {
    HoldingIsValid([]);
    INITIAL
  }

  // A character continued from `p` ends after it.
  lemma CompletesLater(p: seq<Byte>, bytes: seq<Byte>)
    requires Scan(p).Partial?
    ensures Scan(p + bytes).Complete? ==> |p| < Scan(p + bytes).length
    ensures p != [] && Scan(p + bytes).Complete? ==> Scan(p + bytes).value >= 0x80
  {
    if p != [] {
      assert (p + bytes)[0] == p[0];
    }
  }

  // mbrtoc32 and the inner decoder.
  function Decode(st: State, s: Input): (r: (State, Outcome))
    requires Valid(st)
    ensures Valid(r.0)
    ensures r.1.Stored? ==> IsScalar(r.1.value)
  {
    HoldingIsValid([]);
    match s
    case Null => (INITIAL, Cleared)
    case Bytes(bytes) =>
      if st.mode != NO_UNIT then (INITIAL, Illegal)
      else
        CompletesLater(Pending(st), bytes);
        var t := Pending(st) + bytes;
        match Scan(t)
        case Partial => HoldingIsValid(t); (Holding(t), Incomplete)
        case Bad => (INITIAL, Illegal)
        case Complete(value, length) => (INITIAL, Stored(value, length - st.have))
  }

  function Mbrtoc16(st: State, s: Input): (r: (State, Outcome))
    requires Valid(st)
    ensures Valid(r.0)
  {
    HoldingIsValid([]);
    if s.Bytes? && st.mode == LOW_PENDING then (INITIAL, Second(st.unit))
    else
      var (next, o) := Decode(st, s);
      if o.Stored? && |Utf16(o.value)| == 2 then
        (next.(unit := Utf16(o.value)[1], mode := LOW_PENDING), o.(value := Utf16(o.value)[0]))
      else (next, o)
  }

  function C16rtomb(st: State, u: Unit16): (r: (State, Option<seq<Byte>>))
    requires Valid(st)
    ensures Valid(r.0)
  {
    HoldingIsValid([]);
    if st.mode == HIGH_SEEN then
      if IsLowSurrogate(u) then (INITIAL, Some(Utf8(PairValue(st.unit, u)))) else (INITIAL, None)
    else if IsHighSurrogate(u) then (st.(unit := u, mode := HIGH_SEEN), Some([]))
    else if IsLowSurrogate(u) then (st, None)
    else (st, Some(Utf8(u)))
  }

  // A stored character uses up at least one byte of the input it was completed from.
  lemma StoredConsumes(st: State, s: Input)
    requires Valid(st) && Decode(st, s).1.Stored?
    ensures var o := Decode(st, s).1;
      && 0 < o.consumed <= |s.bytes|
      && Scan(Pending(st) + s.bytes) == Complete(o.value, st.have + o.consumed)
      && (o.value == 0 ==> st.have == 0 && o.consumed == 1)
  {
    CompletesLater(Pending(st), s.bytes);
  }

  // ---------------------------------------------------------------- what is announced and does not come

  // A hopeless second byte is not rejected before the announced length is reached.
  lemma HopelessScan(t: seq<Byte>, u: seq<Byte>)
    requires |t| >= 2 && Scan(t).Partial? && NarrowsSecond(t[0], t[1])
    ensures Scan(t + u) == if (forall b <- u :: IsTail(b)) && |t + u| < Utf8Need(t[0]) then Partial else Bad
  {
    var whole, need := t + u, Utf8Need(t[0]);
    var n := if need < |whole| then need else |whole|;
    assert whole[0] == t[0] && whole[1] == t[1];
    assert t == t[..|t|];
    if |whole| < need {
      assert whole[..n] == whole;
      assert forall i :: 0 <= i < |u| ==> whole[|t| + i] == u[i];
      assert TailsFrom1(whole) <==> forall b <- u :: IsTail(b);
    } else if TailsFrom1(whole[..n]) {
      assert whole[..need][0] == t[0] && whole[..need][1] == t[1];
      assert !IsUtf8Char(whole[..need]);
    }
  }

  // mbrtoc32 asks for more exactly as the scan of all bytes received does, and what it holds can be
  // completed unless the first two bytes already exclude every character.
  lemma IncompleteDecodes(st: State, bytes: seq<Byte>)
    requires Valid(st) && st.mode == NO_UNIT && Pending(st) + bytes != []
    requires Decode(st, Bytes(bytes)).1 == Incomplete
    ensures Mbrtoc16(st, Bytes(bytes)) == Decode(st, Bytes(bytes))
    ensures
      var t := Pending(st) + bytes;
      Pending(Decode(st, Bytes(bytes)).0) == t &&
      ((exists v: Scalar :: t <= Utf8(v)) <==> !(|t| >= 2 && NarrowsSecond(t[0], t[1])))
  {
    var t := Pending(st) + bytes;
    HoldingIsValid(t);
    IncompleteIsCompletable(t);
  }

  // Once such two bytes are held, no character is ever delivered: more tails are asked for up to the
  // announced length, and the byte that reaches it, or one that is no tail, is answered with an error.
  lemma HopelessIsRejectedLast(st: State, bytes: seq<Byte>)
    requires Valid(st) && st.mode == NO_UNIT && st.have >= 2 && NarrowsSecond(Pending(st)[0], Pending(st)[1])
    ensures Mbrtoc16(st, Bytes(bytes)) == Decode(st, Bytes(bytes))
    ensures
      Decode(st, Bytes(bytes)).1 ==
      if (forall b <- bytes :: IsTail(b)) && st.have + |bytes| < st.need then Incomplete else Illegal
  {
    HopelessScan(Pending(st), bytes);
  }
}
