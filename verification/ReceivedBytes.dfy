/**
 Reading a list of types from arbitrary received bytes: when all that is read lies within the
 message. A length word that makes the range check wrap around takes the reader to any earlier
 position, so that after a buffer, whoever sent the bytes decides where reading goes on.
 */
module ReceivedBytes {
  import opened IpcMessage
  import opened MachineWords

  /**
   Plain data that is not excessively large, capabilities, buffers that hold more than the bytes
   behind the last whole word of a message of some capacity, and attempts of such types.
   */
  predicate Usual(t: Type, capacity: nat) {
    match t
    case ScalarType(size) => size + capacity + 2 * WORD <= TWO_64
    case BufferType(max) => max > capacity % WORD
    case CapType => true
    case AttemptType(result, error) => Usual(result, capacity) && Usual(error, capacity)
  }

  predicate AllUsual(ts: seq<Type>, capacity: nat) {
    forall t :: t in ts ==> Usual(t, capacity)
  }

  predicate NoAttempts(ts: seq<Type>) {
    forall t :: t in ts ==> !t.AttemptType?
  }

  function Nodes(t: Type): nat {
    1 + if t.AttemptType? then Nodes(t.result) + Nodes(t.error) else 0
  }

  function TotalNodes(ts: seq<Type>): nat {
    if ts == [] then 0 else Nodes(ts[0]) + TotalNodes(ts[1..])
  }

  /**
   Some message of this capacity makes the reader refer to bytes behind it, as far as positions
   are concerned. Up to the first buffer, `offset` is the position of the reader. Once it has
   `moved`, it is the number of bytes read since.
   */
  predicate CanStray(ts: seq<Type>, offset: nat, capacity: nat, moved: bool)
    decreases TotalNodes(ts)
  {
    ts != [] &&
    match ts[0]
    case ScalarType(size) => offset + size <= capacity && CanStray(ts[1..], offset + AlignNatural(size), capacity, moved)
    case BufferType(max) =>
      && offset + WORD <= capacity
      && (moved || offset + WORD + max > capacity || CanStray(ts[1..], 0, capacity, true))
    case CapType => CanStray(ts[1..], offset, capacity, moved)
    case AttemptType(result, error) =>
      var ifOk, ifError := [result] + ts[1..], [error] + ts[1..];
      assert ifOk[1..] == ts[1..] && ifError[1..] == ts[1..];
      offset + 1 <= capacity
      && (CanStray(ifOk, offset + WORD, capacity, moved) || CanStray(ifError, offset + WORD, capacity, moved))
  }

  lemma TailHasNoAttempts(ts: seq<Type>)
    requires NoAttempts(ts) && ts != []
    ensures NoAttempts(ts[1..]) && !ts[0].AttemptType?
  {
    assert ts[0] in ts;
    assert forall t :: t in ts[1..] ==> t in ts;
  }

  lemma TailIsUsual(ts: seq<Type>, capacity: nat)
    requires AllUsual(ts, capacity) && ts != []
    ensures AllUsual(ts[1..], capacity) && Usual(ts[0], capacity)
  {
    assert ts[0] in ts;
    assert forall t :: t in ts[1..] ==> t in ts;
  }

  /** The reader is at a word boundary, at most right behind the message. */
  predicate Positioned(m: Message, r: Reader) {
    r.offset % WORD == 0 && r.offset <= AlignNatural(|m.data|) && |m.data| + 3 * WORD <= TWO_64
  }

  lemma NoWrap(n: nat)
    requires n < TWO_64
    ensures U64(n) == n
  {
  }

  lemma ReadScalar(m: Message, r: Reader, n: nat)
    requires Positioned(m, r) && n + |m.data| + 2 * WORD <= TWO_64
    ensures var bytes := GetBytes(m, r, n);
            if r.offset + n <= |m.data|
            then && bytes == Ok(m.data[r.offset..r.offset + n], r.(offset := r.offset + AlignNatural(n)))
                 && Positioned(m, bytes.next)
            else bytes.IpcError?
  {
    hide U64;
    PaddingMeaning(|m.data|);
    PaddingMeaning(n);
    NoWrap(r.offset + n);
    if r.offset + n <= |m.data| {
      PaddedSum(r.offset, n);
      PaddedMonotonic(r.offset + n, |m.data|);
      NoWrap(r.offset + AlignNatural(n));
    }
  }

  /** A length that passes the range check leaves the reader at a word boundary. */
  lemma ReadBuffer(m: Message, r: Reader, size: nat)
    requires Positioned(m, r) && r.offset <= |m.data| && size < TWO_64 && U64(r.offset + size) <= |m.data|
    ensures Positioned(m, Skip(r, size)) && Skip(r, size).offset == AlignNatural(U64(r.offset + size))
  {
    PaddedSum(r.offset, size);
    var sum := r.offset + size;
    assert AlignNatural(sum) == r.offset + AlignNatural(size);
    if sum < TWO_64 {
      assert U64(sum) == sum;
      PaddingMeaning(sum);
      assert U64(AlignNatural(sum)) == AlignNatural(sum);
    } else {
      assert U64(sum) == sum - TWO_64;
      WrappedPadding(sum - TWO_64);
      PaddingMeaning(sum - TWO_64);
    }
    PaddedMonotonic(U64(sum), |m.data|);
  }

  lemma PaddedMonotonic(a: nat, b: nat)
    requires a <= b
    ensures AlignNatural(a) <= AlignNatural(b) && AlignNatural(a) % WORD == 0
  {
  }

  lemma WrappedPadding(n: nat)
    requires n + WORD < TWO_64
    ensures AlignNatural(n + TWO_64) == AlignNatural(n) + TWO_64 && U64(AlignNatural(n) + TWO_64) == AlignNatural(n)
  {
    PaddingMeaning(n);
  }

  /** An attempt is read like its flag, followed by one of the two types. */
  lemma ReadAttempt(m: Message, r: Reader, ts: seq<Type>)
    requires ts != [] && ts[0].AttemptType? && Positioned(m, r) && GetAll(m, r, ts).Stray?
    ensures var flag := GetBytes(m, r, 1);
            && r.offset + 1 <= |m.data| && flag.Ok? && Positioned(m, flag.next) && flag.next.offset == r.offset + WORD
            && var chosen := if flag.value[0] != 0 then ts[0].result else ts[0].error;
               GetAll(m, flag.next, [chosen] + ts[1..]).Stray?
  {
    hide U64;
    ReadScalar(m, r, 1);
    var flag := GetBytes(m, r, 1);
    if flag.Ok? {
      var chosen := if flag.value[0] != 0 then ts[0].result else ts[0].error;
      assert ([chosen] + ts[1..])[1..] == ts[1..];
    }
  }

  lemma CapsKeepPosition(m: Message, r: Reader)
    requires Positioned(m, r)
    ensures Positioned(m, r.(capIndex := r.capIndex + 1))
  {
  }

  lemma ReadAnyBuffer(m: Message, r: Reader, max: nat)
    requires Positioned(m, r)
    ensures var buffer := Get(m, r, BufferType(max));
            && (!buffer.IpcError? ==> r.offset + WORD <= |m.data|)
            && (buffer.Ok? ==> Positioned(m, buffer.next))
            && (buffer.Stray? ==> r.offset + WORD + max > |m.data|)
  {
    ReadScalar(m, r, WORD);
    var word := GetBytes(m, r, WORD);
    if word.Ok? {
      BufferIsStrayIff(m, r, max);
      SizeWordIsBounded(word.value);
      if U64(word.next.offset + FromLittleEndian(word.value)) <= |m.data| {
        ReadBuffer(m, word.next, FromLittleEndian(word.value));
      }
    }
  }

  /** Whatever the bytes: the reader strays only if the types and the capacity allow it. */
  lemma {:induction false} StrayMeansCanStray(m: Message, r: Reader, ts: seq<Type>, offset: nat, moved: bool)
    requires Positioned(m, r) && AllUsual(ts, |m.data|) && GetAll(m, r, ts).Stray?
    requires if moved then offset <= r.offset else offset == r.offset
    ensures CanStray(ts, offset, |m.data|, moved)
    decreases TotalNodes(ts), 1
  {
    hide U64, FromLittleEndian, GetBuffer, Positioned, AlignNatural;
    var first := Get(m, r, ts[0]);
    TailIsUsual(ts, |m.data|);
    match ts[0]
    case ScalarType(size) =>
      ReadScalar(m, r, size);
      assert first.next.offset == r.offset + AlignNatural(size);
      StrayMeansCanStray(m, first.next, ts[1..], offset + AlignNatural(size), moved);
    case CapType =>
      CapsKeepPosition(m, r);
      StrayMeansCanStray(m, first.next, ts[1..], offset, moved);
    case BufferType(max) =>
      ReadAnyBuffer(m, r, max);
      if !moved && first.Ok? {
        StrayMeansCanStray(m, first.next, ts[1..], 0, true);
      }
    case AttemptType(result, error) =>
      AttemptCanStray(m, r, ts, offset, moved);
  }

  lemma {:induction false} AttemptCanStray(m: Message, r: Reader, ts: seq<Type>, offset: nat, moved: bool)
    requires Positioned(m, r) && AllUsual(ts, |m.data|) && GetAll(m, r, ts).Stray?
    requires if moved then offset <= r.offset else offset == r.offset
    requires ts != [] && ts[0].AttemptType?
    ensures CanStray(ts, offset, |m.data|, moved)
    decreases TotalNodes(ts), 0
  {
    hide U64, FromLittleEndian, GetAll, Positioned, AlignNatural;
    ReadAttempt(m, r, ts);
    TailIsUsual(ts, |m.data|);
    var flag := GetBytes(m, r, 1);
    var chosen := if flag.value[0] != 0 then ts[0].result else ts[0].error;
    var rest := [chosen] + ts[1..];
    assert rest[1..] == ts[1..];
    assert forall t :: t in rest ==> t == chosen || t in ts[1..];
    StrayMeansCanStray(m, flag.next, rest, offset + WORD, moved);
  }

  /** All that is read by a list of types lies within the message if they do not allow the reader to stray. */
  lemma ReadsWithin(ts: seq<Type>, m: Message)
    requires AllUsual(ts, |m.data|) && |m.data| + 3 * WORD <= TWO_64 && !CanStray(ts, 0, |m.data|, false)
    ensures !GetAll(m, Reader(0, 0), ts).Stray?
  {
    if GetAll(m, Reader(0, 0), ts).Stray? {
      StrayMeansCanStray(m, Reader(0, 0), ts, 0, false);
    }
  }

  // ---- bytes that make the reader stray -------------------------------------------------------

  /** The bytes from the beginning up to the length word of the first buffer, and including it. */
  function UpToBuffer(ts: seq<Type>): nat {
    if ts == [] then 0
    else
      match ts[0]
      case ScalarType(size) => AlignNatural(size) + UpToBuffer(ts[1..])
      case BufferType(_) => WORD
      case CapType => UpToBuffer(ts[1..])
      case AttemptType(_, _) => 0
  }

  function WholeWords(capacity: nat): nat {
    capacity / WORD * WORD
  }

  lemma {:induction false} BufferFits(ts: seq<Type>, offset: nat, capacity: nat, moved: bool)
    requires CanStray(ts, offset, capacity, moved) && offset % WORD == 0 && NoAttempts(ts)
    ensures offset + UpToBuffer(ts) <= WholeWords(capacity) && UpToBuffer(ts) % WORD == 0 && UpToBuffer(ts) >= WORD
    decreases |ts|
  {
    TailHasNoAttempts(ts);
    match ts[0]
    case ScalarType(size) =>
      PaddingMeaning(size);
      BufferFits(ts[1..], offset + AlignNatural(size), capacity, moved);
    case BufferType(max) =>
    case CapType =>
      BufferFits(ts[1..], offset, capacity, moved);
  }

  /** A length word in the last whole word. */
  predicate EndsWithLargeWord(m: Message) {
    var end := WholeWords(|m.data|);
    WORD <= end && FromLittleEndian(m.data[end - WORD..end]) + end >= TWO_64
  }

  /** A buffer whose length word is the last whole word of the message makes the reader stray. */
  lemma {:induction false} LastWordStrays(m: Message, r: Reader, ts: seq<Type>, seg: nat)
    requires Positioned(m, r) && AllUsual(ts, |m.data|) && NoAttempts(ts) && CanStray(ts, seg, |m.data|, true)
    requires r.offset + UpToBuffer(ts) == WholeWords(|m.data|) && EndsWithLargeWord(m)
    ensures GetAll(m, r, ts).Stray?
    decreases |ts|
  {
    hide U64, FromLittleEndian;
    TailIsUsual(ts, |m.data|);
    TailHasNoAttempts(ts);
    match ts[0]
    case ScalarType(size) =>
      PaddingMeaning(size);
      ReadScalar(m, r, size);
      LastWordStrays(m, Get(m, r, ts[0]).next, ts[1..], seg + AlignNatural(size));
    case BufferType(max) =>
      ReadScalar(m, r, WORD);
      BufferIsStrayIff(m, r, max);
    case CapType =>
      LastWordStrays(m, Get(m, r, ts[0]).next, ts[1..], seg);
  }

  /** The length that makes the reader go on at a given position. */
  function LengthTo(offset: nat, target: nat): nat
    requires offset <= TWO_64
  {
    if offset <= target then target - offset else TWO_64 + target - offset
  }

  /** Where to begin so that the length word of the first buffer is the last whole word. */
  function Target(ts: seq<Type>, capacity: nat): nat {
    if UpToBuffer(ts) <= WholeWords(capacity) then WholeWords(capacity) - UpToBuffer(ts) else 0
  }

  function AfterBuffer(ts: seq<Type>): seq<Type> {
    if ts == [] then [] else if ts[0].BufferType? then ts[1..] else AfterBuffer(ts[1..])
  }

  function FirstMax(ts: seq<Type>): nat {
    if ts == [] then 0 else if ts[0].BufferType? then ts[0].max else FirstMax(ts[1..])
  }

  /** The length of the first buffer, at some position, for which the reader strays there or at the next buffer. */
  function StrayLength(ts: seq<Type>, offset: nat, capacity: nat): nat
    requires offset <= TWO_64
  {
    if offset + FirstMax(ts) > capacity then TWO_64 - 1 else LengthTo(offset, Target(AfterBuffer(ts), capacity))
  }

  predicate Prepared(m: Message, ts: seq<Type>, offset: nat) {
    var first := offset + UpToBuffer(ts);
    && WORD <= first <= |m.data| < TWO_64
    && FromLittleEndian(m.data[first - WORD..first]) == StrayLength(ts, first, |m.data|)
    && (first + FirstMax(ts) <= |m.data| ==> EndsWithLargeWord(m))
  }

  lemma PreparedTail(m: Message, ts: seq<Type>, offset: nat)
    requires Prepared(m, ts, offset) && ts != []
    ensures ts[0].ScalarType? ==> Prepared(m, ts[1..], offset + AlignNatural(ts[0].size))
    ensures ts[0].CapType? ==> Prepared(m, ts[1..], offset)
  {
  }

  lemma {:induction false} PreparedStrays(m: Message, r: Reader, ts: seq<Type>)
    requires Positioned(m, r) && AllUsual(ts, |m.data|) && NoAttempts(ts)
    requires CanStray(ts, r.offset, |m.data|, false) && Prepared(m, ts, r.offset)
    ensures GetAll(m, r, ts).Stray?
    decreases |ts|
  {
    hide Prepared;
    TailIsUsual(ts, |m.data|);
    TailHasNoAttempts(ts);
    PreparedTail(m, ts, r.offset);
    match ts[0]
    case ScalarType(size) =>
      ReadScalar(m, r, size);
      PreparedStrays(m, Get(m, r, ts[0]).next, ts[1..]);
    case CapType =>
      PreparedStrays(m, Get(m, r, ts[0]).next, ts[1..]);
    case BufferType(max) =>
      if r.offset + WORD + max > |m.data| {
        FirstStrays(m, r, ts, max);
      } else {
        JumpStrays(m, r, ts, max);
      }
  }

  lemma FirstStrays(m: Message, r: Reader, ts: seq<Type>, max: nat)
    requires Positioned(m, r) && Prepared(m, ts, r.offset) && r.offset + WORD + max > |m.data|
    requires ts != [] && ts[0] == BufferType(max)
    ensures GetAll(m, r, ts).Stray?
  {
    ReadScalar(m, r, WORD);
    BufferIsStrayIff(m, r, max);
  }

  lemma SumLeadsTo(offset: nat, target: nat)
    requires offset < TWO_64 && target < TWO_64
    ensures LengthTo(offset, target) < TWO_64 && U64(offset + LengthTo(offset, target)) == target
  {
  }

  /** The length word of a buffer that fits, and the position to which it leads. */
  lemma JumpReads(m: Message, r: Reader, max: nat, target: nat)
    requires Positioned(m, r) && r.offset + WORD + max <= |m.data| && target <= |m.data| && target % WORD == 0
    requires FromLittleEndian(m.data[r.offset..r.offset + WORD]) == LengthTo(r.offset + WORD, target)
    ensures var buffer := Get(m, r, BufferType(max));
            buffer.Ok? && buffer.next.offset == target && Positioned(m, buffer.next)
  {
    hide FromLittleEndian, LengthTo;
    var offset := r.offset + WORD;
    var size := LengthTo(offset, target);
    ReadScalar(m, r, WORD);
    BufferIsStrayIff(m, r, max);
    SumLeadsTo(offset, target);
    var word := GetBytes(m, r, WORD);
    ReadBuffer(m, word.next, size);
    PaddedFits(target, target);
    assert AlignNatural(target) == target;
  }

  /** A buffer that fits takes the reader to where the next one makes it stray. */
  lemma JumpStrays(m: Message, r: Reader, ts: seq<Type>, max: nat)
    requires Positioned(m, r) && AllUsual(ts, |m.data|) && NoAttempts(ts) && Prepared(m, ts, r.offset)
    requires ts != [] && ts[0] == BufferType(max) && r.offset + WORD + max <= |m.data|
    requires CanStray(ts[1..], 0, |m.data|, true)
    ensures GetAll(m, r, ts).Stray?
  {
    hide GetAll, Get, CanStray, LengthTo, FromLittleEndian, EndsWithLargeWord, Positioned;
    TailIsUsual(ts, |m.data|);
    TailHasNoAttempts(ts);
    BufferFits(ts[1..], 0, |m.data|, true);
    JumpReads(m, r, max, Target(ts[1..], |m.data|));
    var next := Get(m, r, ts[0]).next;
    LastWordStrays(m, next, ts[1..], 0);
    StraysLater(m, r, ts);
  }

  lemma StraysLater(m: Message, r: Reader, ts: seq<Type>)
    requires ts != [] && Get(m, r, ts[0]).Ok? && GetAll(m, Get(m, r, ts[0]).next, ts[1..]).Stray?
    ensures GetAll(m, r, ts).Stray?
  {
  }

  /** All bytes set, except for the length word of the first buffer. */
  function StrayMessage(ts: seq<Type>, capacity: nat): Message
    requires UpToBuffer(ts) <= TWO_64
  {
    var first := UpToBuffer(ts);
    var word := SizeWord(StrayLength(ts, first, capacity));
    Message(seq(capacity, i => if first - WORD <= i < first then word[i - (first - WORD)] else 255), 0, [])
  }

  lemma {:induction false} AllOnes(bs: seq<byte>)
    requires forall i :: 0 <= i < |bs| ==> bs[i] == 255
    ensures FromLittleEndian(bs) == Power256(|bs|) - 1
  {
    if bs != [] {
      AllOnes(bs[1..]);
    }
  }

  /** What follows the first buffer can make the reader stray if the buffer itself cannot. */
  lemma {:induction false} StraysAfterBuffer(ts: seq<Type>, offset: nat, capacity: nat)
    requires NoAttempts(ts) && CanStray(ts, offset, capacity, false) && offset + UpToBuffer(ts) + FirstMax(ts) <= capacity
    ensures CanStray(AfterBuffer(ts), 0, capacity, true) && NoAttempts(AfterBuffer(ts))
    decreases |ts|
  {
    TailHasNoAttempts(ts);
    match ts[0]
    case ScalarType(size) => StraysAfterBuffer(ts[1..], offset + AlignNatural(size), capacity);
    case BufferType(_) =>
    case CapType => StraysAfterBuffer(ts[1..], offset, capacity);
  }

  lemma LastWordIsSet(data: seq<byte>, end: nat)
    requires WORD <= end <= |data| && forall i :: end - WORD <= i < end ==> data[i] == 255
    ensures FromLittleEndian(data[end - WORD..end]) == TWO_64 - 1
  {
    AllOnes(data[end - WORD..end]);
    assert Power256(WORD) == TWO_64;
  }

  lemma StrayMessageIsPrepared(ts: seq<Type>, capacity: nat)
    requires NoAttempts(ts) && capacity + 3 * WORD <= TWO_64 && CanStray(ts, 0, capacity, false)
    ensures UpToBuffer(ts) <= TWO_64 && |StrayMessage(ts, capacity).data| == capacity
    ensures Prepared(StrayMessage(ts, capacity), ts, 0)
  {
    hide FromLittleEndian, LittleEndian, CanStray;
    BufferFits(ts, 0, capacity, false);
    var first := UpToBuffer(ts);
    var m := StrayMessage(ts, capacity);
    if first + FirstMax(ts) <= capacity {
      StraysAfterBuffer(ts, 0, capacity);
      BufferFits(AfterBuffer(ts), 0, capacity, true);
    }
    var length := StrayLength(ts, first, capacity);
    assert m.data[first - WORD..first] == SizeWord(length);
    SizeWordRoundTrip(length);
    if first + FirstMax(ts) <= capacity {
      LastWordIsLarge(m, first, length);
    }
  }

  lemma LastWordIsLarge(m: Message, first: nat, length: nat)
    requires WORD <= first <= WholeWords(|m.data|) && first % WORD == 0
    requires FromLittleEndian(m.data[first - WORD..first]) == length
    requires first == WholeWords(|m.data|) ==> first + length >= TWO_64
    requires forall i :: first <= i < |m.data| ==> m.data[i] == 255
    ensures EndsWithLargeWord(m)
  {
    hide FromLittleEndian;
    var end := WholeWords(|m.data|);
    if first != end {
      var i, j := first / WORD, |m.data| / WORD;
      assert first == i * WORD && end == j * WORD && i < j;
      LastWordIsSet(m.data, end);
    }
  }

  /**
   For any received bytes of a message of some capacity: all that is read by a list of types without
   attempts lies within the message if and only if they do not allow the reader to stray.
   */
  lemma ReadsWithinIff(ts: seq<Type>, capacity: nat)
    requires AllUsual(ts, capacity) && NoAttempts(ts) && capacity + 3 * WORD <= TWO_64
    ensures (forall m: Message :: |m.data| == capacity ==> !GetAll(m, Reader(0, 0), ts).Stray?)
            <==> !CanStray(ts, 0, capacity, false)
  {
    forall m: Message | |m.data| == capacity && !CanStray(ts, 0, capacity, false)
      ensures !GetAll(m, Reader(0, 0), ts).Stray?
    {
      ReadsWithin(ts, m);
    }
    if CanStray(ts, 0, capacity, false) {
      StrayMessageIsPrepared(ts, capacity);
      PreparedStrays(StrayMessage(ts, capacity), Reader(0, 0), ts);
    }
  }
}
