/**
 The message buffer of the RPC framework: values are marshalled into a byte buffer of fixed
 capacity, each piece padded to whole machine words, and capabilities into a separate
 table. The unmarshaller reads them back by a list of types.
 */
module IpcMessage {
  import opened Arithmetic
  import opened MachineWords

  newtype byte = x: int | 0 <= x < 256

  const MAX_CAPS_PER_MSG: nat := 4
  const WORD: nat := 8

  function AlignNatural(n: nat): nat {
    (n + (WORD - 1)) / WORD * WORD
  }

  lemma PaddingMeaning(n: nat)
    ensures n <= AlignNatural(n) < n + WORD && AlignNatural(n) % WORD == 0
  {
  }

  lemma PaddedSum(words: nat, n: nat)
    requires words % WORD == 0
    ensures AlignNatural(words + n) == words + AlignNatural(n)
  {
  }

  /** Padding never exceeds a capacity of whole words. */
  lemma PaddedFits(n: nat, capacity: nat)
    requires capacity % WORD == 0
    ensures n <= capacity <==> AlignNatural(n) <= capacity
  {
  }

  lemma PaddedMax(a: nat, b: nat)
    ensures AlignNatural(Max(a, b)) == Max(AlignNatural(a), AlignNatural(b))
  {
  }

  datatype Capability = Invalid | Capability(id: nat)

  /** The types handled by the `insert` and `extract` overloads. */
  datatype Type =
    | ScalarType(size: nat)
    | BufferType(max: nat)
    | CapType
    | AttemptType(result: Type, error: Type)

  datatype Value =
    | Scalar(bytes: seq<byte>)
    | Buffer(bytes: seq<byte>)
    | Cap(cap: Capability)
    | Attempt(ok: bool, value: Value)

  predicate HasType(v: Value, t: Type) {
    match (v, t)
    case (Scalar(bytes), ScalarType(size)) => |bytes| == size
    case (Buffer(bytes), BufferType(max)) => |bytes| <= max && |bytes| < TWO_64
    case (Cap(_), CapType) => true
    case (Attempt(ok, value), AttemptType(result, error)) => HasType(value, if ok then result else error)
    case _ => false
  }

  predicate HaveTypes(vs: seq<Value>, ts: seq<Type>) {
    |vs| == |ts| && forall i :: 0 <= i < |vs| ==> HasType(vs[i], ts[i])
  }

  // ---- size words --------------------------------------------------------------------------

  /** The `k` low bytes of `n`, least significant byte first. */
  function LittleEndian(n: nat, k: nat): (bs: seq<byte>)
    ensures |bs| == k
  {
    if k == 0 then [] else [(n % 256) as byte] + LittleEndian(n / 256, k - 1)
  }

  function FromLittleEndian(bs: seq<byte>): nat {
    if bs == [] then 0 else bs[0] as nat + 256 * FromLittleEndian(bs[1..])
  }

  function Power256(k: nat): nat {
    if k == 0 then 1 else 256 * Power256(k - 1)
  }

  lemma {:induction false} LittleEndianRoundTrip(n: nat, k: nat)
    requires n < Power256(k)
    ensures FromLittleEndian(LittleEndian(n, k)) == n
  {
    if k > 0 {
      LittleEndianRoundTrip(n / 256, k - 1);
    }
  }

  function SizeWord(n: nat): (bs: seq<byte>)
    ensures |bs| == WORD
  {
    LittleEndian(n, WORD)
  }

  lemma SizeWordRoundTrip(n: nat)
    requires n < TWO_64
    ensures FromLittleEndian(SizeWord(n)) == n
  {
    assert Power256(WORD) == TWO_64;
    LittleEndianRoundTrip(n, WORD);
  }

  lemma {:induction false} LittleEndianIsBounded(bs: seq<byte>)
    ensures FromLittleEndian(bs) < Power256(|bs|)
  {
    if bs != [] {
      LittleEndianIsBounded(bs[1..]);
    }
  }

  lemma SizeWordIsBounded(bs: seq<byte>)
    requires |bs| == WORD
    ensures FromLittleEndian(bs) < TWO_64
  {
    assert Power256(WORD) == TWO_64;
    LittleEndianIsBounded(bs);
  }

  /** The least significant byte of a length comes first. */
  lemma LengthOnTheWire(bs: seq<byte>)
    requires |bs| == 8
    ensures FromLittleEndian(bs) ==
            bs[0] as nat + 0x100 * bs[1] as nat + 0x1_0000 * bs[2] as nat + 0x100_0000 * bs[3] as nat
            + 0x1_0000_0000 * bs[4] as nat + 0x100_0000_0000 * bs[5] as nat
            + 0x1_0000_0000_0000 * bs[6] as nat + 0x100_0000_0000_0000 * bs[7] as nat
  {
    LittleEndianPair(bs, 0);
    LittleEndianPair(bs, 2);
    LittleEndianPair(bs, 4);
    LittleEndianPair(bs, 6);
    assert bs[8..] == [];
  }

  lemma LittleEndianPair(bs: seq<byte>, i: nat)
    requires i + 1 < |bs|
    ensures FromLittleEndian(bs[i..]) == bs[i] as nat + 0x100 * bs[i + 1] as nat + 0x1_0000 * FromLittleEndian(bs[i + 2..])
  {
    assert bs[i..][1..] == bs[i + 1..] && bs[i + 1..][1..] == bs[i + 2..];
  }

  // ---- marshalling ---------------------------------------------------------------------------

  /** What is handed to the buffer in one piece. */
  datatype Piece = Data(bytes: seq<byte>) | Delegate(cap: Capability)

  function Pieces(v: Value): seq<Piece> {
    match v
    case Scalar(bytes) => [Data(bytes)]
    case Buffer(bytes) => [Data(SizeWord(|bytes|)), Data(bytes)]
    case Cap(cap) => [Delegate(cap)]
    case Attempt(ok, value) => [Data([if ok then 1 else 0])] + Pieces(value)
  }

  function AllPieces(vs: seq<Value>): seq<Piece> {
    if vs == [] then [] else Pieces(vs[0]) + AllPieces(vs[1..])
  }

  /** The content of a message buffer; the capacity is the length of `data`. */
  datatype Message = Message(data: seq<byte>, size: nat, caps: seq<Capability>)

  datatype Outcome = Done(msg: Message) | TooManyCaps(msg: Message)

  /** Insert one piece. Data beyond the capacity is dropped silently. */
  function Put(m: Message, p: Piece): Outcome {
    match p
    case Data(bytes) =>
      if m.size + |bytes| > |m.data| then Done(m)
      else Done(m.(data := m.data[..m.size] + bytes + m.data[m.size + |bytes|..],
                   size := m.size + AlignNatural(|bytes|)))
    case Delegate(cap) =>
      if |m.caps| == MAX_CAPS_PER_MSG then TooManyCaps(m)
      else Done(m.(caps := m.caps + [cap]))
  }

  function PutAll(m: Message, ps: seq<Piece>): Outcome
    decreases |ps|
  {
    if ps == [] then Done(m)
    else
      match Put(m, ps[0])
      case Done(m') => PutAll(m', ps[1..])
      case TooManyCaps(m') => TooManyCaps(m')
  }

  /** Bytes that do not fit change nothing; others follow the content so far, padded to whole words. */
  lemma InsertedBytes(m: Message, bytes: seq<byte>, m': Message)
    requires m.size <= |m.data| && Put(m, Data(bytes)) == Done(m')
    ensures |m'.data| == |m.data| && m'.caps == m.caps && m'.data[..m.size] == m.data[..m.size]
    ensures m.size + |bytes| > |m.data| ==> m' == m
    ensures m.size + |bytes| <= |m.data| ==>
              && m'.data[m.size..m.size + |bytes|] == bytes
              && m'.data[m.size + |bytes|..] == m.data[m.size + |bytes|..]
              && (m'.size - m.size) % WORD == 0 && |bytes| <= m'.size - m.size < |bytes| + WORD
  {
  }

  lemma PutAllStep(m: Message, p: Piece, ps: seq<Piece>)
    ensures PutAll(m, [p]) == Put(m, p)
    ensures Put(m, p).Done? ==> PutAll(m, [p] + ps) == PutAll(Put(m, p).msg, ps)
    ensures Put(m, p).TooManyCaps? ==> PutAll(m, [p] + ps) == Put(m, p)
  {
    assert ([p] + ps)[1..] == ps;
    assert [p][1..] == [];
  }

  lemma {:induction false} PutAllConcat(m: Message, ps: seq<Piece>, qs: seq<Piece>)
    ensures PutAll(m, ps + qs) ==
            match PutAll(m, ps)
            case Done(m') => PutAll(m', qs)
            case TooManyCaps(m') => TooManyCaps(m')
    decreases |ps|
  {
    if ps == [] {
      assert ps + qs == qs;
    } else {
      assert (ps + qs)[0] == ps[0] && (ps + qs)[1..] == ps[1..] + qs;
      if Put(m, ps[0]).Done? {
        PutAllConcat(Put(m, ps[0]).msg, ps[1..], qs);
      }
    }
  }

  // ---- unmarshalling -------------------------------------------------------------------------

  datatype Reader = Reader(offset: nat, capIndex: nat)

  /**
   A value, an exception, or a reference to bytes of which some lie behind the buffer; in each
   case with the position at which reading goes on.
   */
  datatype Result<T> =
    | Ok(value: T, next: Reader)
    | IpcError(next: Reader)
    | Stray(offset: nat, length: nat, next: Reader)

  /** The result of one kind, if it is no value, as one of another kind. */
  function Failure<T, U>(r: Result<T>): Result<U>
    requires !r.Ok?
  {
    match r
    case IpcError(next) => IpcError(next)
    case Stray(offset, length, next) => Stray(offset, length, next)
  }

  /** Behind `n` bytes and their padding, in 64-bit arithmetic. */
  function Skip(r: Reader, n: nat): Reader {
    r.(offset := U64(r.offset + AlignNatural(n)))
  }

  /** The bytes from the current position on. */
  function Refer(m: Message, r: Reader, n: nat, next: Reader): Result<seq<byte>> {
    if r.offset + n <= |m.data| then Ok(m.data[r.offset..r.offset + n], next) else Stray(r.offset, n, next)
  }

  function GetBytes(m: Message, r: Reader, n: nat): Result<seq<byte>> {
    if U64(r.offset + n) > |m.data| then IpcError(r) else Refer(m, r, n, Skip(r, n))
  }

  /** A buffer refers to the received bytes in place. The range check is on the length received, not on the one used. */
  function GetBuffer(m: Message, r: Reader, size: nat, max: nat): Result<seq<byte>> {
    if U64(r.offset + size) > |m.data| then IpcError(r)
    else Refer(m, r, Min(size, max), Skip(r, size))
  }

  function Get(m: Message, r: Reader, t: Type): Result<Value>
    decreases t
  {
    match t
    case ScalarType(size) =>
      var bytes := GetBytes(m, r, size);
      if bytes.Ok? then Ok(Scalar(bytes.value), bytes.next) else Failure(bytes)
    case BufferType(max) =>
      var word := GetBytes(m, r, WORD);
      if !word.Ok? then Failure(word)
      else
        var bytes := GetBuffer(m, word.next, FromLittleEndian(word.value), max);
        if bytes.Ok? then Ok(Buffer(bytes.value), bytes.next) else Failure(bytes)
    case CapType =>
      Ok(Cap(if r.capIndex < |m.caps| then m.caps[r.capIndex] else Invalid), r.(capIndex := r.capIndex + 1))
    case AttemptType(result, error) =>
      var flag := GetBytes(m, r, 1);
      if !flag.Ok? then Failure(flag)
      else
        var ok := flag.value[0] != 0;
        var inner := Get(m, flag.next, if ok then result else error);
        if inner.Ok? then Ok(Attempt(ok, inner.value), inner.next) else inner
  }

  function GetAll(m: Message, r: Reader, ts: seq<Type>): Result<seq<Value>>
    decreases |ts|
  {
    if ts == [] then Ok([], r)
    else
      var first := Get(m, r, ts[0]);
      if !first.Ok? then Failure(first)
      else
        var rest := GetAll(m, first.next, ts[1..]);
        if rest.Ok? then Ok([first.value] + rest.value, rest.next) else rest
  }

  /**
   For any received bytes: a buffer of at most `max` bytes lies partly behind the message if and
   only if its position and its length add up to 2^64 or more, and so many bytes do not fit.
   */
  lemma BufferIsStrayIff(m: Message, r: Reader, max: nat)
    requires |m.data| < TWO_64 && GetBytes(m, r, WORD).Ok?
    ensures var word := GetBytes(m, r, WORD);
            var offset, size := word.next.offset, FromLittleEndian(word.value);
            Get(m, r, BufferType(max)).Stray? <==> offset + size >= TWO_64 && offset + max > |m.data|
  {
    var word := GetBytes(m, r, WORD);
    var offset, size := word.next.offset, FromLittleEndian(word.value);
    PaddingMeaning(WORD);
    SizeWordIsBounded(word.value);
    if offset + size >= TWO_64 {
      assert U64(offset + size) == offset + size - TWO_64;
    } else {
      assert U64(offset + size) == offset + size;
    }
  }

  lemma BufferWithin(m: Message, r: Reader, size: nat, max: nat)
    requires r.offset <= |m.data| < 0x1_0000_0000 && r.offset + size < TWO_64
    ensures r.offset + size <= |m.data| ==>
              GetBuffer(m, r, size, max) == Ok(m.data[r.offset..r.offset + Min(size, max)],
                                               r.(offset := r.offset + (size + 7) / 8 * 8))
    ensures |m.data| < r.offset + size ==> GetBuffer(m, r, size, max) == IpcError(r)
  {
    PaddingMeaning(size);
  }

  /**
   A buffer behind a length word refers to the bytes received, up to its own maximum, and reading
   goes on behind all of them. A length that exceeds the message is an error.
   */
  lemma ReceivedBuffer(m: Message, r: Reader, max: nat)
    requires r.offset + 8 <= |m.data| < 0x1_0000_0000
    ensures var start := r.offset + 8;
            var size := FromLittleEndian(m.data[r.offset..start]);
            && (start + size <= |m.data| ==>
                  Get(m, r, BufferType(max)) == Ok(Buffer(m.data[start..start + Min(size, max)]),
                                                   r.(offset := start + (size + 7) / 8 * 8)))
            && (|m.data| < start + size < TWO_64 ==>
                  Get(m, r, BufferType(max)) == IpcError(r.(offset := start)))
  {
    hide FromLittleEndian, GetBuffer;
    var start := r.offset + 8;
    PaddingMeaning(8);
    assert GetBytes(m, r, WORD) == Ok(m.data[r.offset..start], r.(offset := start));
    var size := FromLittleEndian(m.data[r.offset..start]);
    if start + size < TWO_64 {
      BufferWithin(m, r.(offset := start), size, max);
    }
  }

  lemma OneByte(m: Message, r: Reader)
    requires r.offset < |m.data| < 0x1_0000_0000
    ensures GetBytes(m, r, 1) == Ok([m.data[r.offset]], r.(offset := r.offset + 8))
  {
    assert m.data[r.offset..r.offset + 1] == [m.data[r.offset]];
    assert AlignNatural(1) == 8 && U64(r.offset + 1) == r.offset + 1 && U64(r.offset + 8) == r.offset + 8;
  }

  /** The first byte of an `Attempt` tells result from error, which follows in the next word. */
  lemma ReceivedAttempt(m: Message, r: Reader, result: Type, error: Type)
    requires r.offset < |m.data| < 0x1_0000_0000
    ensures var ok := m.data[r.offset] != 0;
            var inner := Get(m, r.(offset := r.offset + 8), if ok then result else error);
            Get(m, r, AttemptType(result, error)) ==
            if inner.Ok? then Ok(Attempt(ok, inner.value), inner.next) else inner
  {
    hide GetBytes, GetBuffer, FromLittleEndian;
    OneByte(m, r);
  }

  /** The length word 2^64 - 8 in a message of 1024 bytes passes the check, and reading starts over. */
  lemma WrappedLength(m: Message, max: nat)
    requires |m.data| == 1024 && m.data[..WORD] == SizeWord(TWO_64 - WORD) && max < TWO_64 - WORD
    ensures var r := Get(m, Reader(0, 0), BufferType(max));
            r.next.offset == 0 && !r.IpcError? && (r.Stray? <==> max > 1024 - WORD)
  {
    SizeWordRoundTrip(TWO_64 - WORD);
    var word := GetBytes(m, Reader(0, 0), WORD);
    assert word == Ok(SizeWord(TWO_64 - WORD), Reader(WORD, 0));
    WrappedPosition();
  }

  lemma WrappedPosition()
    ensures U64(WORD + (TWO_64 - WORD)) == 0 && U64(WORD + AlignNatural(TWO_64 - WORD)) == 0
  {
  }

  // ---- round trip ----------------------------------------------------------------------------

  /** No piece is dropped, and no capability is rejected. */
  predicate Fits(m: Message, ps: seq<Piece>)
    decreases |ps|
  {
    if ps == [] then true
    else
      && (match ps[0]
          case Data(bytes) => m.size + |bytes| <= |m.data|
          case Delegate(_) => |m.caps| < MAX_CAPS_PER_MSG)
      && Fits(Put(m, ps[0]).msg, ps[1..])
  }

  lemma {:induction false} FitsConcat(m: Message, ps: seq<Piece>, qs: seq<Piece>)
    ensures Fits(m, ps + qs) <==> Fits(m, ps) && Fits(PutAll(m, ps).msg, qs)
    decreases |ps|
  {
    if ps == [] {
      assert ps + qs == qs;
    } else {
      assert (ps + qs)[0] == ps[0] && (ps + qs)[1..] == ps[1..] + qs;
      FitsConcat(Put(m, ps[0]).msg, ps[1..], qs);
    }
  }

  /** What was inserted into `m` is still in `n`, the same buffer later or another one that holds the data. */
  predicate Extends(m: Message, n: Message) {
    && (|m.data| <= |n.data| || m.size <= |n.data|) && m.size <= n.size && m.caps <= n.caps
    && forall i :: 0 <= i < m.size && i < |m.data| ==> n.data[i] == m.data[i]
  }

  lemma {:induction false} PutAllExtends(m: Message, ps: seq<Piece>)
    ensures Extends(m, PutAll(m, ps).msg) && |PutAll(m, ps).msg.data| == |m.data|
    ensures Fits(m, ps) ==> PutAll(m, ps).Done?
    decreases |ps|
  {
    if ps != [] {
      if Put(m, ps[0]).Done? {
        PutAllExtends(Put(m, ps[0]).msg, ps[1..]);
      }
    }
  }

  function At(m: Message): Reader {
    Reader(m.size, |m.caps|)
  }

  /** Positions in the message are 64-bit numbers, with room for padding. */
  predicate Addressable(m: Message) {
    |m.data| <= TWO_64 - WORD
  }

  lemma InRange(size: nat, n: nat, capacity: nat)
    requires size + n <= capacity <= TWO_64 - WORD
    ensures U64(size + n) == size + n && U64(size + AlignNatural(n)) == size + AlignNatural(n)
  {
    PaddingMeaning(n);
  }

  /** A piece of data is read back from any later state of the buffer. */
  lemma DataRoundTrip(m: Message, bytes: seq<byte>, n: Message)
    requires m.size + |bytes| <= |m.data| && Addressable(m)
    requires Extends(Put(m, Data(bytes)).msg, n)
    ensures GetBytes(n, At(m), |bytes|) == Ok(bytes, At(Put(m, Data(bytes)).msg))
  {
    var m' := Put(m, Data(bytes)).msg;
    PaddingMeaning(|bytes|);
    InRange(m.size, |bytes|, |m.data|);
    assert m.size + |bytes| <= m'.size;
    forall i | 0 <= i < |bytes|
      ensures n.data[m.size + i] == bytes[i]
    {
      assert m'.data[m.size + i] == bytes[i];
    }
    assert n.data[m.size..m.size + |bytes|] == bytes;
  }

  lemma ExtendsTransitive(a: Message, b: Message, c: Message)
    requires Extends(a, b) && Extends(b, c)
    ensures Extends(a, c)
  {
  }

  lemma PutFirst(m: Message, p: Piece, ps: seq<Piece>)
    requires Fits(m, [p] + ps)
    ensures Put(m, p).Done? && Fits(Put(m, p).msg, ps)
    ensures PutAll(m, [p] + ps) == PutAll(Put(m, p).msg, ps)
    ensures Extends(Put(m, p).msg, PutAll(m, [p] + ps).msg)
  {
    assert ([p] + ps)[1..] == ps;
    PutAllExtends(Put(m, p).msg, ps);
  }

  lemma {:induction false} ValueRoundTrip(m: Message, v: Value, t: Type, n: Message)
    requires HasType(v, t) && Fits(m, Pieces(v)) && Addressable(m)
    requires Extends(PutAll(m, Pieces(v)).msg, n)
    ensures Get(n, At(m), t) == Ok(v, At(PutAll(m, Pieces(v)).msg))
    decreases v
  {
    match v
    case Scalar(bytes) =>
      assert PutAll(m, [Data(bytes)]) == Put(m, Data(bytes));
      DataRoundTrip(m, bytes, n);
    case Buffer(bytes) =>
      BufferRoundTrip(m, bytes, t.max, n);
    case Cap(cap) =>
      assert PutAll(m, [Delegate(cap)]) == Put(m, Delegate(cap));
      assert Put(m, Delegate(cap)).msg.caps[|m.caps|] == cap;
    case Attempt(ok, value) =>
      var flag: seq<byte> := [if ok then 1 else 0];
      var m1 := Put(m, Data(flag)).msg;
      PutFirst(m, Data(flag), Pieces(value));
      ExtendsTransitive(m1, PutAll(m1, Pieces(value)).msg, n);
      DataRoundTrip(m, flag, n);
      ValueRoundTrip(m1, value, if ok then t.result else t.error, n);
  }

  lemma BufferRoundTrip(m: Message, bytes: seq<byte>, max: nat, n: Message)
    requires |bytes| <= max && |bytes| < TWO_64 && Fits(m, Pieces(Buffer(bytes))) && Addressable(m)
    requires Extends(PutAll(m, Pieces(Buffer(bytes))).msg, n)
    ensures Get(n, At(m), BufferType(max)) == Ok(Buffer(bytes), At(PutAll(m, Pieces(Buffer(bytes))).msg))
  {
    var word := SizeWord(|bytes|);
    var m1 := Put(m, Data(word)).msg;
    assert Pieces(Buffer(bytes)) == [Data(word)] + [Data(bytes)];
    PutFirst(m, Data(word), [Data(bytes)]);
    assert PutAll(m1, [Data(bytes)]) == Put(m1, Data(bytes));
    ExtendsTransitive(m1, Put(m1, Data(bytes)).msg, n);
    DataRoundTrip(m, word, n);
    DataRoundTrip(m1, bytes, n);
    SizeWordRoundTrip(|bytes|);
  }

  lemma GetAllFirst(m: Message, r: Reader, ts: seq<Type>, v: Value, next: Reader, vs: seq<Value>, end: Reader)
    requires ts != [] && Get(m, r, ts[0]) == Ok(v, next) && GetAll(m, next, ts[1..]) == Ok(vs, end)
    ensures GetAll(m, r, ts) == Ok([v] + vs, end)
  {
  }

  /** Values that fit are returned unchanged and in order, whatever is inserted behind them. */
  lemma {:induction false} RoundTrip(m: Message, vs: seq<Value>, ts: seq<Type>, n: Message)
    requires HaveTypes(vs, ts) && Fits(m, AllPieces(vs)) && Addressable(m)
    requires Extends(PutAll(m, AllPieces(vs)).msg, n)
    ensures GetAll(n, At(m), ts) == Ok(vs, At(PutAll(m, AllPieces(vs)).msg))
    decreases |vs|
  {
    if vs != [] {
      var first, rest := Pieces(vs[0]), AllPieces(vs[1..]);
      var m1 := PutAll(m, first).msg;
      FitsConcat(m, first, rest);
      PutAllConcat(m, first, rest);
      PutAllExtends(m, first);
      PutAllExtends(m1, rest);
      ExtendsTransitive(m1, PutAll(m1, rest).msg, n);
      ValueRoundTrip(m, vs[0], ts[0], n);
      RoundTrip(m1, vs[1..], ts[1..], n);
      assert vs == [vs[0]] + vs[1..];
      GetAllFirst(n, At(m), ts, vs[0], At(m1), vs[1..], At(PutAll(m1, rest).msg));
    }
  }

  // ---- the buffer object -----------------------------------------------------------------------

  class Msgbuf {
    const data: array<byte>
    var dataSize: nat
    const caps: array<Capability>
    var usedCaps: nat

    /** The bytes and capability slots behind the content are clear, as far as whole words are. */
    ghost predicate Valid()
      reads this, data, caps
    {
      && caps.Length == MAX_CAPS_PER_MSG && usedCaps <= MAX_CAPS_PER_MSG
      && dataSize % WORD == 0
      && (forall i :: dataSize <= i < data.Length / WORD * WORD ==> data[i] == 0)
      && forall i :: usedCaps <= i < MAX_CAPS_PER_MSG ==> caps[i] == Invalid
    }

    ghost function Content(): Message
      requires usedCaps <= caps.Length
      reads this, data, caps
    {
      Message(data[..], dataSize, caps[..usedCaps])
    }

    constructor (capacity: nat)
      ensures Valid() && fresh(data) && fresh(caps) && data.Length == capacity
      ensures Content().size == 0 && Content().caps == []
    {
      data := new byte[capacity](_ => 0);
      caps := new Capability[MAX_CAPS_PER_MSG](_ => Invalid);
      dataSize, usedCaps := 0, 0;
    }

    /** Set the leading whole words to zero. */
    method Clear(numBytes: nat)
      modifies data
      ensures forall i :: 0 <= i < data.Length ==>
                data[i] == if i < (if numBytes < data.Length then numBytes else data.Length) / WORD * WORD
                           then 0 else old(data[i])
    {
      var numWords := (if numBytes < data.Length then numBytes else data.Length) / WORD;
      for i := 0 to numWords
        invariant forall j :: 0 <= j < data.Length ==> data[j] == if j < i * WORD then 0 else old(data[j])
      {
        forall k | 0 <= k < WORD {
          data[i * WORD + k] := 0;
        }
      }
    }

    /** Prepare the buffer for the next request: it is like new, except for bytes behind the last whole word. */
    method Reset()
      requires Valid()
      modifies this, data, caps
      ensures Valid() && Content().size == 0 && Content().caps == []
      ensures forall i :: 0 <= i < MAX_CAPS_PER_MSG ==> caps[i] == Invalid
      ensures forall i :: 0 <= i < data.Length / WORD * WORD ==> data[i] == 0
    {
      for i := 0 to usedCaps
        modifies caps
        invariant forall j :: 0 <= j < i || usedCaps <= j < MAX_CAPS_PER_MSG ==> caps[j] == Invalid
      {
        caps[i] := Invalid;
      }
      Clear(dataSize);
      usedCaps := 0;
      dataSize := 0;
    }

    /** Append bytes, unless they exceed the capacity. */
    method InsertBytes(bytes: seq<byte>)
      requires Valid()
      modifies this`dataSize, data
      ensures Valid() && Content() == Put(old(Content()), Data(bytes)).msg
    {
      if dataSize + |bytes| > data.Length {
        return;
      }
      forall i | 0 <= i < |bytes| {
        data[dataSize + i] := bytes[i];
      }
      dataSize := dataSize + AlignNatural(|bytes|);
    }

    method InsertCap(cap: Capability) returns (thrown: bool)
      requires Valid()
      modifies this`usedCaps, caps
      ensures Valid() && Content() == Put(old(Content()), Delegate(cap)).msg
      ensures thrown <==> Put(old(Content()), Delegate(cap)).TooManyCaps?
      ensures thrown <==> old(usedCaps) == 4
      ensures caps[..usedCaps] == old(caps[..usedCaps]) + if thrown then [] else [cap]
    {
      if usedCaps == MAX_CAPS_PER_MSG {
        return true;
      }
      caps[usedCaps] := cap;
      usedCaps := usedCaps + 1;
      return false;
    }

    method Insert(v: Value) returns (thrown: bool)
      requires Valid()
      modifies this, data, caps
      ensures Valid() && Content() == PutAll(old(Content()), Pieces(v)).msg
      ensures thrown <==> PutAll(old(Content()), Pieces(v)).TooManyCaps?
      decreases v
    {
      ghost var was := Content();
      match v {
        case Scalar(bytes) =>
          PutAllStep(was, Data(bytes), []);
          InsertBytes(bytes);
          thrown := false;
        case Buffer(bytes) =>
          var word := SizeWord(|bytes|);
          assert Pieces(v) == [Data(word)] + [Data(bytes)];
          PutAllStep(was, Data(word), [Data(bytes)]);
          PutAllStep(Put(was, Data(word)).msg, Data(bytes), []);
          InsertBytes(word);
          InsertBytes(bytes);
          thrown := false;
        case Cap(cap) =>
          PutAllStep(was, Delegate(cap), []);
          thrown := InsertCap(cap);
        case Attempt(ok, value) =>
          var flag: seq<byte> := [if ok then 1 else 0];
          PutAllStep(was, Data(flag), Pieces(value));
          InsertBytes(flag);
          thrown := Insert(value);
      }
    }
  }

  class IpcUnmarshaller {
    const rcvMsg: Msgbuf
    var readOffset: nat
    var readCapIndex: nat

    constructor (rcvMsg: Msgbuf)
      ensures this.rcvMsg == rcvMsg && Position() == Reader(0, 0)
    {
      this.rcvMsg, readOffset, readCapIndex := rcvMsg, 0, 0;
    }

    ghost function Position(): Reader
      reads this
    {
      Reader(readOffset, readCapIndex)
    }

    /** Skip bytes and padding, and refer to the leading `n` bytes from the former position on. */
    method Take(n: nat, skipped: nat) returns (r: Result<seq<byte>>)
      requires rcvMsg.Valid()
      modifies this`readOffset
      ensures r == Refer(rcvMsg.Content(), old(Position()), n, Skip(old(Position()), skipped))
      ensures Position() == r.next
    {
      var offset := readOffset;
      readOffset := U64(readOffset + AlignNatural(skipped));
      var next := Reader(readOffset, readCapIndex);
      if offset + n <= rcvMsg.data.Length {
        r := Ok(rcvMsg.data[offset..offset + n], next);
      } else {
        r := Stray(offset, n, next);
      }
    }

    method ExtractBytes(n: nat) returns (r: Result<seq<byte>>)
      requires rcvMsg.Valid()
      modifies this`readOffset
      ensures r == GetBytes(rcvMsg.Content(), old(Position()), n) && Position() == r.next
      ensures old(readOffset) + n <= rcvMsg.data.Length < TWO_64 ==>
                && r == Ok(rcvMsg.data[old(readOffset)..old(readOffset) + n], Position())
                && readOffset == U64(old(readOffset) + AlignNatural(n))
      ensures rcvMsg.data.Length < old(readOffset) + n < TWO_64 ==>
                r.IpcError? && readOffset == old(readOffset)
    {
      if U64(readOffset + n) > rcvMsg.data.Length {
        return IpcError(Reader(readOffset, readCapIndex));
      }
      r := Take(n, n);
    }

    method ExtractBuffer(max: nat) returns (r: Result<Value>)
      requires rcvMsg.Valid()
      modifies this`readOffset
      ensures r == Get(rcvMsg.Content(), old(Position()), BufferType(max)) && Position() == r.next
    {
      var word := ExtractBytes(WORD);
      if !word.Ok? {
        return Failure(word);
      }
      var size := FromLittleEndian(word.value);
      if U64(readOffset + size) > rcvMsg.data.Length {
        return IpcError(Reader(readOffset, readCapIndex));
      }
      var bytes := Take(Min(size, max), size);
      r := if bytes.Ok? then Ok(Buffer(bytes.value), bytes.next) else Failure(bytes);
    }

    /** Read a value of the given type. */
    method Extract(t: Type) returns (r: Result<Value>)
      requires rcvMsg.Valid()
      modifies this
      ensures r == Get(rcvMsg.Content(), old(Position()), t) && Position() == r.next
      ensures t.CapType? ==> readOffset == old(readOffset) && readCapIndex == old(readCapIndex) + 1
      ensures t.CapType? && old(readCapIndex) < rcvMsg.usedCaps ==>
                r == Ok(Cap(rcvMsg.caps[old(readCapIndex)]), Position())
      ensures t.CapType? && old(readCapIndex) >= rcvMsg.usedCaps ==> r == Ok(Cap(Invalid), Position())
      decreases t
    {
      match t {
        case ScalarType(size) =>
          var bytes := ExtractBytes(size);
          r := if bytes.Ok? then Ok(Scalar(bytes.value), bytes.next) else Failure(bytes);
        case BufferType(max) =>
          r := ExtractBuffer(max);
        case CapType =>
          var cap := if readCapIndex < rcvMsg.usedCaps then rcvMsg.caps[readCapIndex] else Invalid;
          readCapIndex := readCapIndex + 1;
          r := Ok(Cap(cap), Reader(readOffset, readCapIndex));
        case AttemptType(result, error) =>
          var flag := ExtractBytes(1);
          if !flag.Ok? {
            return Failure(flag);
          }
          var ok := flag.value[0] != 0;
          r := Extract(if ok then result else error);
          if r.Ok? {
            r := Ok(Attempt(ok, r.value), r.next);
          }
      }
    }
  }
}
