/**
 The compile-time dimensioning of RPC message buffers, and its relation to what marshalling
 actually inserts. Buffers that are too small would lose data silently.
 */
module RpcSize {
  import opened Arithmetic
  import opened IpcMessage
  import opened MachineWords

  /** Argument and return types as far as they matter for their size in memory and in messages. */
  datatype RpcType =
    | Pod(size: nat, align: nat)
    | InBuffer(max: nat)
    | CapabilityType
    | AttemptOf(result: RpcType, error: RpcType)
  {
    predicate WellFormed() {
      match this
      case Pod(size, align) => 0 < align <= size && size % align == 0
      case InBuffer(max) => 0 < max < TWO_64
      case CapabilityType => true
      case AttemptOf(result, error) => result.WellFormed() && error.WellFormed()
    }

    predicate HasAttempt() {
      AttemptOf?
    }

    function AlignOf(): nat {
      match this
      case Pod(_, align) => align
      case InBuffer(_) => WORD
      case CapabilityType => WORD
      case AttemptOf(result, error) => Max(result.AlignOf(), error.AlignOf())
    }

    /** The C++ size: a flag, the result and the error, each at its natural alignment. */
    function SizeOf(): nat {
      match this
      case Pod(size, _) => size
      case InBuffer(max) => AlignNatural(2 * WORD + max)
      case CapabilityType => WORD
      case AttemptOf(result, error) =>
        RoundUp(RoundUp(RoundUp(1, result.AlignOf()) + result.SizeOf(), error.AlignOf()) + error.SizeOf(), AlignOf())
    }

    /** The type as the marshalling sees it. */
    function Marshalled(): Type {
      match this
      case Pod(size, _) => ScalarType(size)
      case InBuffer(max) => BufferType(max)
      case CapabilityType => CapType
      case AttemptOf(result, error) => AttemptType(result.Marshalled(), error.Marshalled())
    }

    /** The most bytes that marshalling a value takes. */
    function MaxNeed(): nat {
      match this
      case Pod(size, _) => AlignNatural(size)
      case InBuffer(max) => WORD + AlignNatural(max)
      case CapabilityType => 0
      case AttemptOf(result, error) => WORD + Max(result.MaxNeed(), error.MaxNeed())
    }

    /** The most capabilities that marshalling a value takes. */
    function MaxCaps(): nat {
      match this
      case Pod(_, _) => 0
      case InBuffer(_) => 0
      case CapabilityType => 1
      case AttemptOf(result, error) => Max(result.MaxCaps(), error.MaxCaps())
    }

    /** Only capabilities are passed outside of the data. */
    predicate HasData() {
      !CapabilityType?
    }

    /** The most bytes up to the end of the last datum of a value, which needs no padding behind it. */
    function End(): nat
      decreases this, 0
    {
      match this
      case Pod(size, _) => size
      case InBuffer(max) => WORD + max
      case CapabilityType => 0
      case AttemptOf(result, error) => Max(EndAfterFlag(result), EndAfterFlag(error))
    }

    static function EndAfterFlag(t: RpcType): nat
      decreases t, 1
    {
      if t.HasData() then WORD + t.End() else 1
    }

    function TransferSize(): nat {
      AlignNatural(SizeOf())
    }
  }

  function RoundUp(n: nat, align: nat): nat {
    if align == 0 then n else (n + align - 1) / align * align
  }

  // ---- sizes computed from an RPC function's declaration ---------------------------------------

  datatype Passing = ByValue | ConstPointer | ConstReference | Pointer | Reference

  datatype Arg = Arg(t: RpcType, passing: Passing) {
    /** Non-const pointers and references travel in both directions, all others only to the server. */
    predicate Out() { passing.Pointer? || passing.Reference? }
  }

  const PROTOCOL_OVERHEAD: nat := 4 * WORD

  function ArgsSize(args: seq<Arg>, takeIn: bool, takeOut: bool): nat {
    if args == [] then 0
    else
      (if takeIn then args[0].t.TransferSize() else 0)
      + (if takeOut && args[0].Out() then args[0].t.TransferSize() else 0)
      + ArgsSize(args[1..], takeIn, takeOut)
  }

  datatype Return = Void | Returns(t: RpcType) {
    function Size(): nat {
      if Void? then 0 else t.SizeOf()
    }

    /** Without a return value, an object of an empty class is transferred. */
    function Transferred(): RpcType {
      if Void? then Pod(1, 1) else t
    }
  }

  /** The capacity of the buffer for the call: arguments, opcode and overhead. */
  function CallBufferSize(args: seq<Arg>): nat {
    ArgsSize(args, true, false) + WORD + PROTOCOL_OVERHEAD
  }

  /** The capacity of the buffer for the reply: results, return value, exception code and overhead. */
  function ReplyBufferSize(args: seq<Arg>, ret: Return): nat {
    ArgsSize(args, false, true) + ret.Size() + WORD + PROTOCOL_OVERHEAD
  }

  // ---- what is transferred -----------------------------------------------------------------------

  function InTypes(args: seq<Arg>): seq<RpcType> {
    if args == [] then [] else [args[0].t] + InTypes(args[1..])
  }

  function OutTypes(args: seq<Arg>): seq<RpcType> {
    if args == [] then []
    else (if args[0].Out() then [args[0].t] else []) + OutTypes(args[1..])
  }

  function MarshalledTypes(ts: seq<RpcType>): seq<Type> {
    seq(|ts|, i requires 0 <= i < |ts| => ts[i].Marshalled())
  }

  const OPCODE: RpcType := Pod(WORD, WORD)

  function CallTypes(args: seq<Arg>): seq<RpcType> {
    [OPCODE] + InTypes(args)
  }

  function ReplyTypes(args: seq<Arg>, ret: Return): seq<RpcType> {
    OutTypes(args) + [ret.Transferred()]
  }

  predicate AllWellFormed(ts: seq<RpcType>) {
    forall i :: 0 <= i < |ts| ==> ts[i].WellFormed()
  }

  function SumNeed(ts: seq<RpcType>): nat {
    if ts == [] then 0 else ts[0].MaxNeed() + SumNeed(ts[1..])
  }

  function SumCaps(ts: seq<RpcType>): nat {
    if ts == [] then 0 else ts[0].MaxCaps() + SumCaps(ts[1..])
  }

  function Empty(capacity: nat): Message {
    Message(seq(capacity, _ => 0), 0, [])
  }

  /** No value of the given types is ever cut or rejected by a buffer of this capacity. */
  ghost predicate AlwaysFits(ts: seq<RpcType>, capacity: nat) {
    forall vs :: HaveTypes(vs, MarshalledTypes(ts)) ==> Fits(Empty(capacity), AllPieces(vs))
  }

  // ---- space taken by pieces -----------------------------------------------------------------------

  function Need(ps: seq<Piece>): nat {
    if ps == [] then 0
    else (match ps[0] case Data(bytes) => AlignNatural(|bytes|) case Delegate(_) => 0) + Need(ps[1..])
  }

  function CapCount(ps: seq<Piece>): nat {
    if ps == [] then 0 else (if ps[0].Delegate? then 1 else 0) + CapCount(ps[1..])
  }

  lemma {:induction false} NeedConcat(ps: seq<Piece>, qs: seq<Piece>)
    ensures Need(ps + qs) == Need(ps) + Need(qs) && CapCount(ps + qs) == CapCount(ps) + CapCount(qs)
  {
    if ps == [] {
      assert ps + qs == qs;
    } else {
      assert (ps + qs)[0] == ps[0] && (ps + qs)[1..] == ps[1..] + qs;
      NeedConcat(ps[1..], qs);
    }
  }

  predicate HasData(ps: seq<Piece>) {
    exists i :: 0 <= i < |ps| && ps[i].Data?
  }

  /** Where the last datum ends. */
  function End(ps: seq<Piece>): nat {
    if ps == [] then 0
    else
      match ps[0]
      case Data(bytes) => if HasData(ps[1..]) then AlignNatural(|bytes|) + End(ps[1..]) else |bytes|
      case Delegate(_) => End(ps[1..])
  }

  lemma HasDataConcat(ps: seq<Piece>, qs: seq<Piece>)
    ensures HasData(ps + qs) <==> HasData(ps) || HasData(qs)
  {
    if HasData(ps) {
      var i :| 0 <= i < |ps| && ps[i].Data?;
      assert (ps + qs)[i].Data?;
    }
    if HasData(qs) {
      var i :| 0 <= i < |qs| && qs[i].Data?;
      assert (ps + qs)[|ps| + i].Data?;
    }
  }

  lemma {:induction false} EndWithoutData(ps: seq<Piece>)
    requires !HasData(ps)
    ensures End(ps) == 0
  {
    if ps != [] {
      assert ps[0].Delegate?;
      assert forall i :: 0 <= i < |ps[1..]| ==> ps[1..][i] == ps[i + 1];
      EndWithoutData(ps[1..]);
    }
  }

  lemma HasDataFirst(p: Piece, ps: seq<Piece>)
    ensures HasData([p] + ps) <==> p.Data? || HasData(ps)
  {
    HasDataConcat([p], ps);
    assert p.Data? ==> [p][0].Data?;
  }

  lemma {:induction false} EndConcat(ps: seq<Piece>, qs: seq<Piece>)
    ensures End(ps + qs) == if HasData(qs) then Need(ps) + End(qs) else End(ps)
  {
    if ps == [] {
      assert ps + qs == qs;
      if !HasData(qs) {
        EndWithoutData(qs);
      }
    } else {
      assert (ps + qs)[0] == ps[0] && (ps + qs)[1..] == ps[1..] + qs;
      EndConcat(ps[1..], qs);
      HasDataConcat(ps[1..], qs);
    }
  }

  /** Pieces fit exactly if the last datum ends within the capacity. */
  lemma {:induction false} FitsByEnd(m: Message, ps: seq<Piece>)
    requires |m.caps| + CapCount(ps) <= MAX_CAPS_PER_MSG
    ensures Fits(m, ps) <==> (HasData(ps) ==> m.size + End(ps) <= |m.data|)
    decreases |ps|
  {
    if ps != [] {
      assert ps == [ps[0]] + ps[1..];
      HasDataFirst(ps[0], ps[1..]);
      match ps[0]
      case Data(bytes) =>
        if m.size + |bytes| <= |m.data| {
          FitsByEnd(Put(m, ps[0]).msg, ps[1..]);
        }
      case Delegate(cap) =>
        FitsByEnd(Put(m, ps[0]).msg, ps[1..]);
    }
  }

  /** What a value of a type inserts at most. */
  predicate Bounded(v: Value, t: RpcType) {
    && Need(Pieces(v)) <= t.MaxNeed() && CapCount(Pieces(v)) <= t.MaxCaps()
    && End(Pieces(v)) <= t.End() && (HasData(Pieces(v)) <==> t.HasData())
  }

  /** The value reaches both bounds for data. */
  predicate Widest(v: Value, t: RpcType) {
    HasType(v, t.Marshalled()) && Need(Pieces(v)) == t.MaxNeed() && End(Pieces(v)) == t.End()
  }

  lemma OneDatum(bytes: seq<byte>)
    ensures var ps := [Data(bytes)];
            Need(ps) == AlignNatural(|bytes|) && End(ps) == |bytes| && CapCount(ps) == 0 && HasData(ps)
  {
    var ps := [Data(bytes)];
    assert ps[0].Data? && ps[1..] == [];
  }

  lemma DatumFirst(bytes: seq<byte>, ps: seq<Piece>)
    ensures var all := [Data(bytes)] + ps;
            && Need(all) == AlignNatural(|bytes|) + Need(ps) && CapCount(all) == CapCount(ps) && HasData(all)
            && End(all) == if HasData(ps) then AlignNatural(|bytes|) + End(ps) else |bytes|
  {
    OneDatum(bytes);
    NeedConcat([Data(bytes)], ps);
    EndConcat([Data(bytes)], ps);
    HasDataFirst(Data(bytes), ps);
  }

  lemma BufferExtent(bytes: seq<byte>)
    ensures var ps := Pieces(Buffer(bytes));
            && Need(ps) == WORD + AlignNatural(|bytes|) && End(ps) == WORD + |bytes|
            && CapCount(ps) == 0 && HasData(ps)
  {
    var word := SizeWord(|bytes|);
    assert Pieces(Buffer(bytes)) == [Data(word)] + [Data(bytes)];
    DatumFirst(word, [Data(bytes)]);
    OneDatum(bytes);
  }

  lemma AttemptExtent(ok: bool, value: Value)
    ensures var ps, inner := Pieces(Attempt(ok, value)), Pieces(value);
            && Need(ps) == WORD + Need(inner) && CapCount(ps) == CapCount(inner) && HasData(ps)
            && End(ps) == if HasData(inner) then WORD + End(inner) else 1
  {
    var flag: seq<byte> := [if ok then 1 else 0];
    DatumFirst(flag, Pieces(value));
  }

  lemma {:induction false} ValueIsBounded(v: Value, t: RpcType)
    requires HasType(v, t.Marshalled())
    ensures Bounded(v, t)
    decreases v
  {
    match v
    case Scalar(bytes) => OneDatum(bytes);
    case Buffer(bytes) => BufferExtent(bytes);
    case Cap(cap) => EndWithoutData(Pieces(v));
    case Attempt(ok, value) =>
      ValueIsBounded(value, if ok then t.result else t.error);
      AttemptIsBounded(ok, value, t.result, t.error);
  }

  lemma AttemptIsBounded(ok: bool, value: Value, result: RpcType, error: RpcType)
    requires Bounded(value, if ok then result else error)
    ensures Bounded(Attempt(ok, value), AttemptOf(result, error))
  {
    AttemptExtent(ok, value);
  }

  function WidestValue(t: RpcType): Value {
    match t
    case Pod(size, _) => Scalar(seq(size, _ => 0))
    case InBuffer(max) => Buffer(seq(max, _ => 0))
    case CapabilityType => Cap(Invalid)
    case AttemptOf(result, error) =>
      if RpcType.EndAfterFlag(result) < RpcType.EndAfterFlag(error) then Attempt(false, WidestValue(error))
      else Attempt(true, WidestValue(result))
  }

  /** With padding behind it, the last datum takes whole words. */
  lemma {:induction false} NeedIsPaddedEnd(t: RpcType)
    ensures t.MaxNeed() == AlignNatural(t.End())
    decreases t, 0
  {
    if t.AttemptOf? {
      NeedAfterFlag(t.result);
      NeedAfterFlag(t.error);
      PaddedMax(RpcType.EndAfterFlag(t.result), RpcType.EndAfterFlag(t.error));
    } else if t.InBuffer? {
      PaddedSum(WORD, t.max);
    }
  }

  lemma NeedAfterFlag(t: RpcType)
    ensures WORD + t.MaxNeed() == AlignNatural(RpcType.EndAfterFlag(t))
    decreases t, 1
  {
    NeedIsPaddedEnd(t);
    PaddedSum(WORD, t.End());
  }

  lemma {:induction false} WidestValueIsWidest(t: RpcType)
    requires t.WellFormed()
    ensures Widest(WidestValue(t), t)
  {
    var v := WidestValue(t);
    match t
    case Pod(size, _) => OneDatum(v.bytes);
    case InBuffer(max) => BufferExtent(v.bytes);
    case CapabilityType => EndWithoutData(Pieces(v));
    case AttemptOf(result, error) =>
      WidestValueIsWidest(result);
      WidestValueIsWidest(error);
      WidestAttempt(v, result, error);
  }

  lemma WidestAttempt(v: Value, result: RpcType, error: RpcType)
    requires v.Attempt? && v == WidestValue(AttemptOf(result, error))
    requires Widest(v.value, if v.ok then result else error)
    ensures Widest(v, AttemptOf(result, error))
  {
    hide Need, Pieces, AlignNatural;
    AttemptExtent(v.ok, v.value);
    ValueIsBounded(v.value, if v.ok then result else error);
    NeedAfterFlag(result);
    NeedAfterFlag(error);
    PaddedMax(RpcType.EndAfterFlag(result), RpcType.EndAfterFlag(error));
  }

  predicate AnyData(ts: seq<RpcType>) {
    exists i :: 0 <= i < |ts| && ts[i].HasData()
  }

  /** The most bytes up to the end of the last datum of all values. */
  function TotalEnd(ts: seq<RpcType>): nat {
    if ts == [] then 0
    else if AnyData(ts[1..]) then ts[0].MaxNeed() + TotalEnd(ts[1..])
    else ts[0].End()
  }

  lemma AnyDataFirst(ts: seq<RpcType>)
    requires ts != []
    ensures AnyData(ts) <==> ts[0].HasData() || AnyData(ts[1..])
  {
    if AnyData(ts[1..]) {
      var i :| 0 <= i < |ts[1..]| && ts[1..][i].HasData();
      assert ts[i + 1].HasData();
    }
    if i :| 0 <= i < |ts| && ts[i].HasData() {
      assert i > 0 ==> ts[1..][i - 1].HasData();
    }
  }

  lemma TailHasTypes(vs: seq<Value>, ts: seq<RpcType>)
    requires HaveTypes(vs, MarshalledTypes(ts)) && vs != []
    ensures HasType(vs[0], ts[0].Marshalled()) && HaveTypes(vs[1..], MarshalledTypes(ts[1..]))
  {
    assert MarshalledTypes(ts)[0] == ts[0].Marshalled();
    forall i | 0 <= i < |vs[1..]|
      ensures HasType(vs[1..][i], MarshalledTypes(ts[1..])[i])
    {
      assert HasType(vs[i + 1], MarshalledTypes(ts)[i + 1]);
    }
  }

  lemma {:induction false} ValuesAreBounded(vs: seq<Value>, ts: seq<RpcType>)
    requires HaveTypes(vs, MarshalledTypes(ts))
    ensures var ps := AllPieces(vs);
            CapCount(ps) <= SumCaps(ts) && End(ps) <= TotalEnd(ts) && (HasData(ps) <==> AnyData(ts))
    decreases |vs|
  {
    if vs != [] {
      TailHasTypes(vs, ts);
      ValueIsBounded(vs[0], ts[0]);
      ValuesAreBounded(vs[1..], ts[1..]);
      AnyDataFirst(ts);
      var first, rest := Pieces(vs[0]), AllPieces(vs[1..]);
      NeedConcat(first, rest);
      EndConcat(first, rest);
      HasDataConcat(first, rest);
    }
  }

  function WidestValues(ts: seq<RpcType>): seq<Value> {
    if ts == [] then [] else [WidestValue(ts[0])] + WidestValues(ts[1..])
  }

  lemma {:induction false} WidestValuesAreWidest(ts: seq<RpcType>)
    requires AllWellFormed(ts)
    ensures HaveTypes(WidestValues(ts), MarshalledTypes(ts)) && End(AllPieces(WidestValues(ts))) == TotalEnd(ts)
    decreases |ts|
  {
    if ts != [] {
      var vs := WidestValues(ts);
      WidestValueIsWidest(ts[0]);
      WidestValuesAreWidest(ts[1..]);
      ValuesAreBounded(vs[1..], ts[1..]);
      EndConcat(Pieces(vs[0]), AllPieces(vs[1..]));
      forall i | 0 <= i < |vs|
        ensures HasType(vs[i], MarshalledTypes(ts)[i])
      {
        if i > 0 {
          assert HasType(vs[1..][i - 1], MarshalledTypes(ts[1..])[i - 1]);
        }
      }
    }
  }

  /** A value with as many capabilities as the type allows. */
  function CapRichValue(t: RpcType): Value {
    match t
    case Pod(_, _) => WidestValue(t)
    case InBuffer(_) => WidestValue(t)
    case CapabilityType => Cap(Invalid)
    case AttemptOf(result, error) =>
      if result.MaxCaps() < error.MaxCaps() then Attempt(false, CapRichValue(error)) else Attempt(true, CapRichValue(result))
  }

  lemma {:induction false} CapRichValueIsRich(t: RpcType)
    requires t.WellFormed()
    ensures HasType(CapRichValue(t), t.Marshalled()) && CapCount(Pieces(CapRichValue(t))) == t.MaxCaps()
  {
    match t
    case Pod(size, _) => OneDatum(CapRichValue(t).bytes);
    case InBuffer(max) => BufferExtent(CapRichValue(t).bytes);
    case CapabilityType => assert Pieces(CapRichValue(t))[1..] == [];
    case AttemptOf(result, error) =>
      CapRichValueIsRich(result);
      CapRichValueIsRich(error);
      AttemptExtent(CapRichValue(t).ok, CapRichValue(t).value);
  }

  function CapRichValues(ts: seq<RpcType>): seq<Value> {
    if ts == [] then [] else [CapRichValue(ts[0])] + CapRichValues(ts[1..])
  }

  lemma {:induction false} CapRichValuesAreRich(ts: seq<RpcType>)
    requires AllWellFormed(ts)
    ensures HaveTypes(CapRichValues(ts), MarshalledTypes(ts)) && CapCount(AllPieces(CapRichValues(ts))) == SumCaps(ts)
    decreases |ts|
  {
    if ts != [] {
      var vs := CapRichValues(ts);
      CapRichValueIsRich(ts[0]);
      CapRichValuesAreRich(ts[1..]);
      NeedConcat(Pieces(vs[0]), AllPieces(vs[1..]));
      forall i | 0 <= i < |vs|
        ensures HasType(vs[i], MarshalledTypes(ts)[i])
      {
        if i > 0 {
          assert HasType(vs[1..][i - 1], MarshalledTypes(ts[1..])[i - 1]);
        }
      }
    }
  }

  /** What fits has no capability too many. */
  lemma {:induction false} FitsByCaps(m: Message, ps: seq<Piece>)
    requires Fits(m, ps) && |m.caps| <= MAX_CAPS_PER_MSG
    ensures |m.caps| + CapCount(ps) <= MAX_CAPS_PER_MSG
    decreases |ps|
  {
    if ps != [] {
      FitsByCaps(Put(m, ps[0]).msg, ps[1..]);
    }
  }

  /** A capacity suffices for all values exactly if the widest ones fit, and the most capabilities do. */
  lemma AlwaysFitsIff(ts: seq<RpcType>, capacity: nat)
    requires AllWellFormed(ts)
    ensures AlwaysFits(ts, capacity) <==> TotalEnd(ts) <= capacity && SumCaps(ts) <= MAX_CAPS_PER_MSG
  {
    var m := Empty(capacity);
    if AlwaysFits(ts, capacity) {
      CapRichValuesAreRich(ts);
      FitsByCaps(m, AllPieces(CapRichValues(ts)));
    }
    if SumCaps(ts) <= MAX_CAPS_PER_MSG {
      WidestFitsIff(ts, capacity);
      forall vs | HaveTypes(vs, MarshalledTypes(ts))
        ensures TotalEnd(ts) <= capacity ==> Fits(m, AllPieces(vs))
      {
        ValuesAreBounded(vs, ts);
        FitsByEnd(m, AllPieces(vs));
      }
    }
  }

  lemma WidestFitsIff(ts: seq<RpcType>, capacity: nat)
    requires AllWellFormed(ts) && SumCaps(ts) <= MAX_CAPS_PER_MSG
    ensures HaveTypes(WidestValues(ts), MarshalledTypes(ts))
    ensures Fits(Empty(capacity), AllPieces(WidestValues(ts))) <==> TotalEnd(ts) <= capacity
  {
    var widest := WidestValues(ts);
    WidestValuesAreWidest(ts);
    ValuesAreBounded(widest, ts);
    FitsByEnd(Empty(capacity), AllPieces(widest));
    if !HasData(AllPieces(widest)) {
      EndWithoutData(AllPieces(widest));
    }
  }

  lemma PaddedStep(first: nat, rest: nat, more: bool)
    requires !more ==> AlignNatural(rest) == 0
    ensures AlignNatural(first) + AlignNatural(rest) ==
            AlignNatural(if more then AlignNatural(first) + rest else first)
    ensures (AlignNatural(first) + AlignNatural(rest)) % WORD == 0
  {
    PaddingMeaning(first);
    PaddingMeaning(rest);
    PaddedSum(AlignNatural(first), rest);
  }

  /** All data together, with padding behind the last datum. */
  lemma {:induction false} SumIsPaddedEnd(ts: seq<RpcType>)
    ensures SumNeed(ts) == AlignNatural(TotalEnd(ts)) && SumNeed(ts) % WORD == 0
    ensures !AnyData(ts) ==> SumNeed(ts) == 0
    decreases |ts|
  {
    if ts != [] {
      NeedIsPaddedEnd(ts[0]);
      SumIsPaddedEnd(ts[1..]);
      PaddedStep(ts[0].End(), TotalEnd(ts[1..]), AnyData(ts[1..]));
      AnyDataFirst(ts);
    }
  }

  // ---- main results --------------------------------------------------------------------------------

  /** Without `Attempt`, a type's size in memory covers what is inserted, even for buffers. */
  lemma TransferSizeCovers(t: RpcType)
    requires t.WellFormed() && !t.HasAttempt()
    ensures t.MaxNeed() <= t.TransferSize()
  {
  }

  /** By how much the inserted data of a type can exceed the space reserved for it. */
  function Excess(ts: seq<RpcType>): int {
    if ts == [] then 0 else ts[0].MaxNeed() - ts[0].TransferSize() + Excess(ts[1..])
  }

  lemma {:induction false} ExcessOfArguments(args: seq<Arg>)
    ensures SumNeed(InTypes(args)) == ArgsSize(args, true, false) + Excess(InTypes(args))
    decreases |args|
  {
    if args != [] {
      ExcessOfArguments(args[1..]);
      assert InTypes(args)[1..] == InTypes(args[1..]);
    }
  }

  lemma {:induction false} ExcessOfResults(args: seq<Arg>)
    ensures SumNeed(OutTypes(args)) == ArgsSize(args, false, true) + Excess(OutTypes(args))
    decreases |args|
  {
    if args != [] {
      ExcessOfResults(args[1..]);
      if args[0].Out() {
        assert OutTypes(args)[0] == args[0].t && OutTypes(args)[1..] == OutTypes(args[1..]);
      } else {
        assert OutTypes(args) == OutTypes(args[1..]);
      }
    }
  }

  lemma {:induction false} ArgsSizeIsAligned(args: seq<Arg>)
    ensures ArgsSize(args, true, false) % WORD == 0
    decreases |args|
  {
    if args != [] {
      ArgsSizeIsAligned(args[1..]);
    }
  }

  lemma {:induction false} NoExcess(ts: seq<RpcType>)
    requires AllWellFormed(ts) && forall i :: 0 <= i < |ts| ==> !ts[i].HasAttempt()
    ensures Excess(ts) <= 0
    decreases |ts|
  {
    if ts != [] {
      TransferSizeCovers(ts[0]);
      NoExcess(ts[1..]);
    }
  }

  /** The opcode comes first. */
  lemma NeedWithOpcode(ts: seq<RpcType>)
    requires AllWellFormed(ts)
    ensures AllWellFormed([OPCODE] + ts)
    ensures SumNeed([OPCODE] + ts) == WORD + SumNeed(ts) && SumCaps([OPCODE] + ts) == SumCaps(ts)
  {
    assert ([OPCODE] + ts)[1..] == ts;
  }

  lemma NeedOfCall(args: seq<Arg>)
    requires AllWellFormed(InTypes(args))
    ensures TotalEnd(CallTypes(args)) <= CallBufferSize(args) <==> Excess(InTypes(args)) <= PROTOCOL_OVERHEAD
  {
    NeedWithOpcode(InTypes(args));
    ExcessOfArguments(args);
    ArgsSizeIsAligned(args);
    SumIsPaddedEnd(CallTypes(args));
    PaddedFits(TotalEnd(CallTypes(args)), CallBufferSize(args));
  }

  /**
   The call buffer suffices for all argument values exactly if the arguments' excess over
   their own sizes stays within the protocol overhead, and the capabilities are not too many.
   */
  lemma CallBufferSufficesIff(args: seq<Arg>)
    requires AllWellFormed(InTypes(args))
    ensures AlwaysFits(CallTypes(args), CallBufferSize(args)) <==>
            Excess(InTypes(args)) <= PROTOCOL_OVERHEAD && SumCaps(InTypes(args)) <= MAX_CAPS_PER_MSG
  {
    NeedWithOpcode(InTypes(args));
    NeedOfCall(args);
    AlwaysFitsIff(CallTypes(args), CallBufferSize(args));
  }

  /** It does so for every function whose arguments are plain data, buffers and capabilities. */
  lemma CallBufferSuffices(args: seq<Arg>)
    requires AllWellFormed(InTypes(args)) && SumCaps(InTypes(args)) <= MAX_CAPS_PER_MSG
    requires forall i :: 0 <= i < |InTypes(args)| ==> !InTypes(args)[i].HasAttempt()
    ensures AlwaysFits(CallTypes(args), CallBufferSize(args))
  {
    NoExcess(InTypes(args));
    CallBufferSufficesIff(args);
  }

  const BOOL: RpcType := Pod(1, 1)
  const BYTE_ENUM: RpcType := Pod(1, 1)

  /** `n` arguments of type `Attempt<bool, E>`, with an enumeration `E` of one byte, each passed by value. */
  function SmallAttempts(n: nat): (args: seq<Arg>)
    ensures |args| == n
  {
    if n == 0 then [] else [Arg(AttemptOf(BOOL, BYTE_ENUM), ByValue)] + SmallAttempts(n - 1)
  }

  lemma {:induction false} SmallAttemptsExcess(n: nat)
    ensures var ts := InTypes(SmallAttempts(n));
            AllWellFormed(ts) && SumCaps(ts) == 0 && Excess(ts) == 8 * n
  {
    if n > 0 {
      var t := AttemptOf(BOOL, BYTE_ENUM);
      assert t.SizeOf() == 3 && t.TransferSize() == 8 && t.MaxNeed() == 16 && t.MaxCaps() == 0;
      SmallAttemptsExcess(n - 1);
      assert SmallAttempts(n)[1..] == SmallAttempts(n - 1);
      assert InTypes(SmallAttempts(n)) == [t] + InTypes(SmallAttempts(n - 1));
      assert InTypes(SmallAttempts(n))[1..] == InTypes(SmallAttempts(n - 1));
    }
  }

  /** An RPC function with five, six or seven such arguments, the most there can be, would lose data. */
  lemma SmallAttemptsFitIff(n: nat)
    ensures AlwaysFits(CallTypes(SmallAttempts(n)), CallBufferSize(SmallAttempts(n))) <==> n <= 4
  {
    SmallAttemptsExcess(n);
    CallBufferSufficesIff(SmallAttempts(n));
  }

  lemma RoundUpBound(n: nat, align: nat)
    ensures n <= RoundUp(n, align)
  {
    if align > 0 {
      assert n + align - 1 == (n + align - 1) / align * align + (n + align - 1) % align;
    }
  }

  lemma RoundedSumBound(low: nat, n: nat, align: nat, size: nat)
    requires low <= n
    ensures low + size <= RoundUp(n, align) + size
  {
    RoundUpBound(n, align);
  }

  lemma AttemptHoldsBoth(result: RpcType, error: RpcType)
    ensures AttemptOf(result, error).SizeOf() > result.SizeOf() + error.SizeOf()
  {
    var ra, rs, ea, es := result.AlignOf(), result.SizeOf(), error.AlignOf(), error.SizeOf();
    var r := RoundUp(1, ra) + rs;
    var e := RoundUp(r, ea) + es;
    RoundedSumBound(1, 1, ra, rs);
    RoundedSumBound(1 + rs, r, ea, es);
    RoundUpBound(e, AttemptOf(result, error).AlignOf());
  }

  lemma RoundUpMeaning(n: nat, align: nat)
    requires align > 0
    ensures RoundUp(n, align) % align == 0 && n <= RoundUp(n, align) < n + align
  {
    var q := (n + align - 1) / align;
    Quotient(q, align, 0);
  }

  /** Objects in an array keep their alignment. */
  lemma {:induction false} SizeIsMultipleOfAlignment(t: RpcType)
    requires t.WellFormed()
    ensures t.AlignOf() > 0 && t.SizeOf() % t.AlignOf() == 0
  {
    if t.AttemptOf? {
      SizeIsMultipleOfAlignment(t.result);
      SizeIsMultipleOfAlignment(t.error);
      var r := RoundUp(1, t.result.AlignOf()) + t.result.SizeOf();
      RoundUpMeaning(RoundUp(r, t.error.AlignOf()) + t.error.SizeOf(), t.AlignOf());
    }
  }

  /**
   The layout of an `Attempt`: result and error begin at the first multiples of their alignments
   behind the flag and behind the result, and the size is the first multiple of the larger
   alignment that holds the error.
   */
  lemma AttemptLayout(t: RpcType) returns (result: nat, error: nat)
    requires t.WellFormed() && t.AttemptOf?
    ensures t.AlignOf() >= t.result.AlignOf() && t.AlignOf() >= t.error.AlignOf()
    ensures t.AlignOf() in [t.result.AlignOf(), t.error.AlignOf()]
    ensures t.result.AlignOf() > 0 && t.error.AlignOf() > 0
    ensures result % t.result.AlignOf() == 0 && 1 <= result < 1 + t.result.AlignOf()
    ensures error % t.error.AlignOf() == 0
    ensures result + t.result.SizeOf() <= error < result + t.result.SizeOf() + t.error.AlignOf()
    ensures t.SizeOf() % t.AlignOf() == 0
    ensures error + t.error.SizeOf() <= t.SizeOf() < error + t.error.SizeOf() + t.AlignOf()
  {
    SizeIsMultipleOfAlignment(t.result);
    SizeIsMultipleOfAlignment(t.error);
    result := RoundUp(1, t.result.AlignOf());
    error := RoundUp(result + t.result.SizeOf(), t.error.AlignOf());
    RoundUpMeaning(1, t.result.AlignOf());
    RoundUpMeaning(result + t.result.SizeOf(), t.error.AlignOf());
    RoundUpMeaning(error + t.error.SizeOf(), t.AlignOf());
  }

  /** Every argument travels to the server, and those passed by non-const pointer or reference also back. */
  lemma Directions(t: RpcType, passing: Passing, rest: seq<Arg>)
    ensures InTypes([Arg(t, passing)] + rest) == [t] + InTypes(rest)
    ensures passing in {ByValue, ConstPointer, ConstReference} ==>
              OutTypes([Arg(t, passing)] + rest) == OutTypes(rest)
    ensures passing in {Pointer, Reference} ==> OutTypes([Arg(t, passing)] + rest) == [t] + OutTypes(rest)
  {
    assert ([Arg(t, passing)] + rest)[1..] == rest;
  }

  /** A returned `Attempt` of plain types exceeds its own size by less than two words. */
  lemma ReturnValueExcess(t: RpcType)
    requires t.WellFormed() && (t.AttemptOf? ==> !t.result.HasAttempt() && !t.error.HasAttempt())
    ensures t.MaxNeed() < t.SizeOf() + 2 * WORD
  {
    if t.AttemptOf? {
      AttemptHoldsBoth(t.result, t.error);
    }
  }

  /** The capacity of the buffer in which the server puts its results, whatever the client expects. */
  const SND_BUF_SIZE: nat := 128 * WORD

  /** What a receiver of some capacity gets of a message: whole words only. */
  function Received(sent: Message, capacity: nat): Message {
    var n := Min(Min(sent.size, |sent.data|), capacity / WORD * WORD);
    Message(sent.data[..n] + seq(capacity - n, _ => 0), n, sent.caps)
  }

  /** No value of the given types is cut or rejected by the server's buffer or by the one of the client. */
  ghost predicate AlwaysArrives(ts: seq<RpcType>, capacity: nat) {
    forall vs :: HaveTypes(vs, MarshalledTypes(ts)) ==>
      && Fits(Empty(SND_BUF_SIZE), AllPieces(vs))
      && PutAll(Empty(SND_BUF_SIZE), AllPieces(vs)).msg.size <= capacity
  }

  /** Pieces that fit take their padded sizes. */
  lemma {:induction false} FitsBySize(m: Message, ps: seq<Piece>)
    requires Fits(m, ps)
    ensures PutAll(m, ps).msg.size == m.size + Need(ps)
    decreases |ps|
  {
    if ps != [] {
      FitsBySize(Put(m, ps[0]).msg, ps[1..]);
    }
  }

  lemma {:induction false} NeedsAreBounded(vs: seq<Value>, ts: seq<RpcType>)
    requires HaveTypes(vs, MarshalledTypes(ts))
    ensures Need(AllPieces(vs)) <= SumNeed(ts)
    decreases |vs|
  {
    if vs != [] {
      TailHasTypes(vs, ts);
      ValueIsBounded(vs[0], ts[0]);
      NeedsAreBounded(vs[1..], ts[1..]);
      NeedConcat(Pieces(vs[0]), AllPieces(vs[1..]));
    }
  }

  lemma {:induction false} WidestNeed(ts: seq<RpcType>)
    requires AllWellFormed(ts)
    ensures Need(AllPieces(WidestValues(ts))) == SumNeed(ts)
    decreases |ts|
  {
    if ts != [] {
      WidestValueIsWidest(ts[0]);
      WidestNeed(ts[1..]);
      NeedConcat(Pieces(WidestValue(ts[0])), AllPieces(WidestValues(ts[1..])));
      assert WidestValues(ts)[1..] == WidestValues(ts[1..]);
    }
  }

  /** Both buffers must hold the data with all padding. */
  lemma AlwaysArrivesIff(ts: seq<RpcType>, capacity: nat)
    requires AllWellFormed(ts)
    ensures AlwaysArrives(ts, capacity) <==>
            SumNeed(ts) <= SND_BUF_SIZE && SumNeed(ts) <= capacity && SumCaps(ts) <= MAX_CAPS_PER_MSG
  {
    var m := Empty(SND_BUF_SIZE);
    SumIsPaddedEnd(ts);
    PaddedFits(TotalEnd(ts), SND_BUF_SIZE);
    AlwaysFitsIff(ts, SND_BUF_SIZE);
    if AlwaysFits(ts, SND_BUF_SIZE) {
      WidestFitsIff(ts, SND_BUF_SIZE);
      WidestNeed(ts);
      FitsBySize(m, AllPieces(WidestValues(ts)));
      forall vs | HaveTypes(vs, MarshalledTypes(ts))
        ensures Fits(m, AllPieces(vs)) && PutAll(m, AllPieces(vs)).msg.size <= SumNeed(ts)
      {
        NeedsAreBounded(vs, ts);
        FitsBySize(m, AllPieces(vs));
      }
    }
  }

  lemma {:induction false} NeedWithLast(ts: seq<RpcType>, t: RpcType)
    ensures SumNeed(ts + [t]) == SumNeed(ts) + t.MaxNeed()
    decreases |ts|
  {
    if ts == [] {
      assert (ts + [t])[1..] == [];
    } else {
      assert (ts + [t])[0] == ts[0] && (ts + [t])[1..] == ts[1..] + [t];
      NeedWithLast(ts[1..], t);
    }
  }

  /**
   All results and return values arrive exactly if the server's buffer holds them, the excess of the
   results together with the return value stays within its own size, the exception code and the
   overhead, and the capabilities are not too many.
   */
  lemma ReplyBufferSufficesIff(args: seq<Arg>, ret: Return)
    requires AllWellFormed(ReplyTypes(args, ret))
    ensures AlwaysArrives(ReplyTypes(args, ret), ReplyBufferSize(args, ret)) <==>
            && SumNeed(ReplyTypes(args, ret)) <= SND_BUF_SIZE && SumCaps(ReplyTypes(args, ret)) <= MAX_CAPS_PER_MSG
            && Excess(OutTypes(args)) + ret.Transferred().MaxNeed() <= ret.Size() + WORD + PROTOCOL_OVERHEAD
  {
    ExcessOfResults(args);
    NeedWithLast(OutTypes(args), ret.Transferred());
    AlwaysArrivesIff(ReplyTypes(args, ret), ReplyBufferSize(args, ret));
  }

  /** They do so for plain results and any return value, an `Attempt` of plain types included. */
  lemma ReplyBufferSuffices(args: seq<Arg>, ret: Return)
    requires AllWellFormed(ReplyTypes(args, ret)) && SumCaps(ReplyTypes(args, ret)) <= MAX_CAPS_PER_MSG
    requires SumNeed(ReplyTypes(args, ret)) <= SND_BUF_SIZE
    requires forall i :: 0 <= i < |OutTypes(args)| ==> !OutTypes(args)[i].HasAttempt()
    requires var t := ret.Transferred(); t.AttemptOf? ==> !t.result.HasAttempt() && !t.error.HasAttempt()
    ensures AlwaysArrives(ReplyTypes(args, ret), ReplyBufferSize(args, ret))
  {
    var ts, t := ReplyTypes(args, ret), ret.Transferred();
    assert ts[|ts| - 1] == t;
    assert forall i :: 0 <= i < |OutTypes(args)| ==> ts[i] == OutTypes(args)[i];
    NoExcess(OutTypes(args));
    ReturnValueExcess(t);
    ReplyBufferSufficesIff(args, ret);
  }

  lemma {:induction false} SizeIsAligned(m: Message, ps: seq<Piece>)
    requires m.size % WORD == 0
    ensures PutAll(m, ps).msg.size % WORD == 0
    decreases |ps|
  {
    if ps != [] && Put(m, ps[0]).Done? {
      if ps[0].Data? {
        PaddingMeaning(|ps[0].bytes|);
      }
      SizeIsAligned(Put(m, ps[0]).msg, ps[1..]);
    }
  }

  lemma ReceivedHoldsAll(sent: Message, capacity: nat)
    requires sent.size % WORD == 0 && sent.size <= |sent.data| && sent.size <= capacity
    ensures Extends(sent, Received(sent, capacity))
  {
  }

  /** Hence a reply delivers all results and the return value exactly as the server inserted them. */
  lemma ReplyDeliversResults(args: seq<Arg>, ret: Return, vs: seq<Value>)
    requires AllWellFormed(ReplyTypes(args, ret)) && AlwaysArrives(ReplyTypes(args, ret), ReplyBufferSize(args, ret))
    requires HaveTypes(vs, MarshalledTypes(ReplyTypes(args, ret)))
    ensures var sent := PutAll(Empty(SND_BUF_SIZE), AllPieces(vs));
            && sent.Done?
            && GetAll(Received(sent.msg, ReplyBufferSize(args, ret)), Reader(0, 0), MarshalledTypes(ReplyTypes(args, ret)))
               == Ok(vs, At(sent.msg))
  {
    var m, ps, ts := Empty(SND_BUF_SIZE), AllPieces(vs), ReplyTypes(args, ret);
    var sent := PutAll(m, ps).msg;
    AlwaysArrivesIff(ts, ReplyBufferSize(args, ret));
    NeedsAreBounded(vs, ts);
    FitsBySize(m, ps);
    PutAllExtends(m, ps);
    SizeIsAligned(m, ps);
    ReceivedHoldsAll(sent, ReplyBufferSize(args, ret));
    RoundTrip(m, vs, MarshalledTypes(ts), Received(sent, ReplyBufferSize(args, ret)));
  }

  /**
   Hence a call delivers its opcode and all arguments exactly as they were passed, into any
   buffer of the server that holds the data sent.
   */
  lemma CallDeliversArguments(args: seq<Arg>, vs: seq<Value>, received: Message)
    requires AllWellFormed(InTypes(args)) && SumCaps(InTypes(args)) <= MAX_CAPS_PER_MSG
    requires Excess(InTypes(args)) <= PROTOCOL_OVERHEAD && CallBufferSize(args) <= TWO_64 - WORD
    requires HaveTypes(vs, MarshalledTypes(CallTypes(args)))
    requires Extends(PutAll(Empty(CallBufferSize(args)), AllPieces(vs)).msg, received)
    ensures var sent := PutAll(Empty(CallBufferSize(args)), AllPieces(vs));
            sent.Done? && GetAll(received, Reader(0, 0), MarshalledTypes(CallTypes(args))) == Ok(vs, At(sent.msg))
  {
    var m := Empty(CallBufferSize(args));
    CallBufferSufficesIff(args);
    PutAllExtends(m, AllPieces(vs));
    RoundTrip(m, vs, MarshalledTypes(CallTypes(args)), received);
  }
}
