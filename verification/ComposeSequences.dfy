/**
 The search for dead-key and compose sequences of the character-map generator: all words
 over the keysyms of a keyboard layout that an arbitrary compose automaton accepts.
 */
module ComposeSequences {
  import opened Sequences

  datatype Status = Nothing | Composing | Composed | Cancelled

  /** `utf32` is the code point of the keysym that a completed sequence results in, or 0. */
  datatype Automaton<!S> = Automaton(start: S, feed: (S, nat) -> S, status: S -> Status, utf32: S -> nat)

  datatype Keysym = Keysym(composing: bool, keysym: nat, utf32: nat)

  /** A generated node: the code points of the keys, and the resulting one. */
  datatype Node = Node(keys: seq<nat>, code: nat)

  type Word = seq<Keysym>

  const MAX: nat := 4

  // ---- which words are to be generated --------------------------------------------------------

  function StateAfter<S>(a: Automaton<S>, w: Word): S {
    if w == [] then a.start else a.feed(StateAfter(a, w[..|w| - 1]), w[|w| - 1].keysym)
  }

  function StatusOf<S>(a: Automaton<S>, w: Word): Status {
    a.status(StateAfter(a, w))
  }

  function CodeOf<S>(a: Automaton<S>, w: Word): nat {
    a.utf32(StateAfter(a, w))
  }

  /** The word `v` results from `w`, as yet incomplete if it is shorter, by adding keysyms. */
  predicate Completes<S>(a: Automaton<S>, keysyms: seq<Keysym>, w: Word, v: Word) {
    && w <= v && |v| <= MAX
    && (forall i :: |w| <= i < |v| ==> v[i] in keysyms && StatusOf(a, v[..i]) == Composing)
    && StatusOf(a, v) == Composed && CodeOf(a, v) != 0
  }

  /** The words of a layout that are compose sequences. */
  predicate IsSequence<S>(a: Automaton<S>, keysyms: seq<Keysym>, v: Word) {
    && 1 <= |v| <= MAX && v[0].composing
    && (forall i :: 0 <= i < |v| ==> v[i] in keysyms)
    && (forall i :: 1 <= i < |v| ==> StatusOf(a, v[..i]) == Composing)
    && StatusOf(a, v) == Composed && CodeOf(a, v) != 0
  }

  /** The order of keysyms at the first position where two words differ. */
  predicate Before(u: Word, v: Word) {
    exists i :: 0 <= i < |u| && i < |v| && u[..i] == v[..i] && u[i].keysym < v[i].keysym
  }

  predicate InOrder(words: seq<Word>) {
    forall i, j :: 0 <= i < j < |words| ==> Before(words[i], words[j])
  }

  predicate Ascending(keysyms: seq<Keysym>) {
    forall i, j :: 0 <= i < j < |keysyms| ==> keysyms[i].keysym < keysyms[j].keysym
  }

  // ---- feeding from the front -----------------------------------------------------------------

  /** The states of the automaton from its start, while the keysyms of a word are fed one after the other. */
  predicate IsTrace<S(==)>(a: Automaton<S>, w: Word, trace: seq<S>) {
    && |trace| == |w| + 1 && trace[0] == a.start
    && forall i :: 0 <= i < |w| ==> trace[i + 1] == a.feed(trace[i], w[i].keysym)
  }

  function Feed<S>(a: Automaton<S>, s: S, w: Word): S {
    if w == [] then s else Feed(a, a.feed(s, w[0].keysym), w[1..])
  }

  /** The state after a word, continued by feeding another one from its front. */
  lemma {:induction false} StateAfterConcat<S>(a: Automaton<S>, u: Word, v: Word)
    ensures StateAfter(a, u + v) == Feed(a, StateAfter(a, u), v)
    decreases |v|
  {
    if v == [] {
      assert u + v == u;
    } else {
      assert (u + [v[0]])[..|u|] == u;
      StateAfterConcat(a, u + [v[0]], v[1..]);
      assert u + [v[0]] + v[1..] == u + v;
    }
  }

  lemma {:induction false} TraceMeaning<S>(a: Automaton<S>, w: Word, trace: seq<S>, n: nat)
    requires IsTrace(a, w, trace) && n <= |w|
    ensures trace[n] == StateAfter(a, w[..n])
  {
    if n > 0 {
      TraceMeaning(a, w, trace, n - 1);
      assert w[..n][..n - 1] == w[..n - 1];
    }
  }

  /** Compose sequences, and the node for a word, in terms of the states that the word leads through. */
  lemma SequenceMeaning<S>(a: Automaton<S>, keysyms: seq<Keysym>, v: Word, trace: seq<S>)
    requires IsTrace(a, v, trace)
    ensures IsSequence(a, keysyms, v) <==>
            && 1 <= |v| <= MAX && v[0].composing && (forall i :: 0 <= i < |v| ==> v[i] in keysyms)
            && (forall i :: 1 <= i < |v| ==> a.status(trace[i]) == Composing)
            && a.status(trace[|v|]) == Composed && a.utf32(trace[|v|]) != 0
    ensures ToNode(a, v).code == a.utf32(trace[|v|]) && |ToNode(a, v).keys| == |v|
    ensures forall i :: 0 <= i < |v| ==> ToNode(a, v).keys[i] == v[i].utf32
  {
    forall i | 0 <= i <= |v|
      ensures trace[i] == StateAfter(a, v[..i])
    {
      TraceMeaning(a, v, trace, i);
    }
    assert v[..|v|] == v;
  }

  // ---- specification of the search ------------------------------------------------------------

  function Gen<S>(a: Automaton<S>, keysyms: seq<Keysym>, w: Word): seq<Word>
    decreases MAX + 1 - |w|, 0, 0
  {
    if |w| > MAX then []
    else match StatusOf(a, w)
      case Composed => if CodeOf(a, w) == 0 then [] else [w]
      case Composing => GenAll(a, keysyms, w, keysyms)
      case _ => []
  }

  /** All words that continue `w` with one of the keysyms in `rest`. */
  function GenAll<S>(a: Automaton<S>, keysyms: seq<Keysym>, w: Word, rest: seq<Keysym>): seq<Word>
    requires |w| <= MAX
    decreases MAX - |w|, 1, |rest|
  {
    if rest == [] then [] else Gen(a, keysyms, w + [rest[0]]) + GenAll(a, keysyms, w, rest[1..])
  }

  function GenFirst<S>(a: Automaton<S>, keysyms: seq<Keysym>, rest: seq<Keysym>): seq<Word> {
    if rest == [] then []
    else (if rest[0].composing then Gen(a, keysyms, [rest[0]]) else []) + GenFirst(a, keysyms, rest[1..])
  }

  function ToNode<S>(a: Automaton<S>, w: Word): Node {
    Node(seq(|w|, i requires 0 <= i < |w| => w[i].utf32), CodeOf(a, w))
  }

  function Nodes<S>(a: Automaton<S>, words: seq<Word>): seq<Node> {
    seq(|words|, i requires 0 <= i < |words| => ToNode(a, words[i]))
  }

  // ---- soundness and completeness ---------------------------------------------------------------

  /** Exactly the completions of a word are generated from it. */
  lemma {:induction false} GenMeaning<S>(a: Automaton<S>, keysyms: seq<Keysym>, w: Word, v: Word)
    requires w != []
    ensures v in Gen(a, keysyms, w) <==> Completes(a, keysyms, w, v)
    decreases MAX + 1 - |w|, 0, 0
  {
    assert w <= v && !(w < v) ==> v == w;
    assert w < v ==> v[..|w|] == w;
    if |w| <= MAX {
      if StatusOf(a, w) == Composing {
        GenAllMeaning(a, keysyms, w, keysyms, v);
        if Completes(a, keysyms, w, v) {
          assert v != w && v[|w|] in keysyms;
        }
      }
    }
  }

  lemma {:induction false} GenAllMeaning<S>(a: Automaton<S>, keysyms: seq<Keysym>, w: Word, rest: seq<Keysym>, v: Word)
    requires |w| <= MAX && forall k :: k in rest ==> k in keysyms
    requires StatusOf(a, w) == Composing
    ensures v in GenAll(a, keysyms, w, rest) <==> w < v && v[|w|] in rest && Completes(a, keysyms, w, v)
    decreases MAX - |w|, 1, |rest|
  {
    if rest != [] {
      var w' := w + [rest[0]];
      GenMeaning(a, keysyms, w', v);
      GenAllMeaning(a, keysyms, w, rest[1..], v);
      assert w < v && v[|w|] == rest[0] ==> w' <= v && v[..|w|] == w;
      assert w' <= v ==> v[|w|] == rest[0] && v[..|w|] == w;
    }
  }

  lemma {:induction false} GenFirstMeaning<S>(a: Automaton<S>, keysyms: seq<Keysym>, rest: seq<Keysym>, v: Word)
    requires forall k :: k in rest ==> k in keysyms
    ensures v in GenFirst(a, keysyms, rest) <==> v != [] && v[0] in rest && IsSequence(a, keysyms, v)
    decreases |rest|
  {
    if rest != [] {
      GenMeaning(a, keysyms, [rest[0]], v);
      GenFirstMeaning(a, keysyms, rest[1..], v);
      assert v != [] && v[0] == rest[0] ==> [rest[0]] <= v;
    }
  }

  // ---- order --------------------------------------------------------------------------------------

  lemma BranchesInOrder(w: Word, k: Keysym, k': Keysym, u: Word, v: Word)
    requires w + [k] <= u && w + [k'] <= v && k.keysym < k'.keysym
    ensures Before(u, v)
  {
    var i := |w|;
    assert u[..i] == (w + [k])[..i] == w == (w + [k'])[..i] == v[..i];
    assert u[i] == k && v[i] == k';
  }

  lemma ConcatInOrder(us: seq<Word>, vs: seq<Word>)
    requires InOrder(us) && InOrder(vs)
    requires forall u, v :: u in us && v in vs ==> Before(u, v)
    ensures InOrder(us + vs)
  {
  }

  lemma {:induction false} GenInOrder<S>(a: Automaton<S>, keysyms: seq<Keysym>, w: Word)
    requires Ascending(keysyms) && w != []
    ensures InOrder(Gen(a, keysyms, w))
    decreases MAX + 1 - |w|, 0, 0
  {
    if |w| <= MAX && StatusOf(a, w) == Composing {
      GenAllInOrder(a, keysyms, w, keysyms);
    }
  }

  lemma {:induction false} GenAllInOrder<S>(a: Automaton<S>, keysyms: seq<Keysym>, w: Word, rest: seq<Keysym>)
    requires |w| <= MAX && Ascending(keysyms) && Ascending(rest) && StatusOf(a, w) == Composing
    requires forall k :: k in rest ==> k in keysyms
    ensures InOrder(GenAll(a, keysyms, w, rest))
    decreases MAX - |w|, 1, |rest|
  {
    if rest != [] {
      var us, vs := Gen(a, keysyms, w + [rest[0]]), GenAll(a, keysyms, w, rest[1..]);
      GenInOrder(a, keysyms, w + [rest[0]]);
      GenAllInOrder(a, keysyms, w, rest[1..]);
      forall u, v | u in us && v in vs
        ensures Before(u, v)
      {
        GenMeaning(a, keysyms, w + [rest[0]], u);
        GenAllMeaning(a, keysyms, w, rest[1..], v);
        assert w + [v[|w|]] <= v;
        BranchesInOrder(w, rest[0], v[|w|], u, v);
      }
      ConcatInOrder(us, vs);
    }
  }

  lemma {:induction false} GenFirstInOrder<S>(a: Automaton<S>, keysyms: seq<Keysym>, rest: seq<Keysym>)
    requires Ascending(keysyms) && Ascending(rest) && forall k :: k in rest ==> k in keysyms
    ensures InOrder(GenFirst(a, keysyms, rest))
    decreases |rest|
  {
    if rest != [] {
      var us := if rest[0].composing then Gen(a, keysyms, [rest[0]]) else [];
      var vs := GenFirst(a, keysyms, rest[1..]);
      GenInOrder(a, keysyms, [rest[0]]);
      GenFirstInOrder(a, keysyms, rest[1..]);
      forall u, v | u in us && v in vs
        ensures Before(u, v)
      {
        GenMeaning(a, keysyms, [rest[0]], u);
        GenFirstMeaning(a, keysyms, rest[1..], v);
        assert [] + [v[0]] <= v && [] + [rest[0]] == [rest[0]];
        BranchesInOrder([], rest[0], v[0], u, v);
      }
      ConcatInOrder(us, vs);
    }
  }

  /**
   The search finds each compose sequence of the layout exactly once, in lexicographic order,
   and nothing else.
   */
  lemma SearchIsExact<S>(a: Automaton<S>, keysyms: seq<Keysym>)
    requires Ascending(keysyms)
    ensures forall v :: v in GenFirst(a, keysyms, keysyms) <==> IsSequence(a, keysyms, v)
    ensures InOrder(GenFirst(a, keysyms, keysyms)) && Distinct(GenFirst(a, keysyms, keysyms))
  {
    forall v
      ensures v in GenFirst(a, keysyms, keysyms) <==> IsSequence(a, keysyms, v)
    {
      GenFirstMeaning(a, keysyms, keysyms, v);
    }
    GenFirstInOrder(a, keysyms, keysyms);
  }

  // ---- the search -----------------------------------------------------------------------------------

  class Sequence<S> {
    const automaton: Automaton<S>
    const keysyms: seq<Keysym>
    var state: S
    var word: Word
    var output: seq<Node>

    constructor (automaton: Automaton<S>, keysyms: seq<Keysym>)
      ensures output == Nodes(automaton, GenFirst(automaton, keysyms, keysyms)) && word == []
    {
      this.automaton, this.keysyms := automaton, keysyms;
      state, word, output := automaton.start, [], [];
      new;
      for i := 0 to |keysyms|
        invariant this.automaton == automaton && this.keysyms == keysyms && word == []
        invariant output + Nodes(automaton, GenFirst(automaton, keysyms, keysyms[i..]))
               == Nodes(automaton, GenFirst(automaton, keysyms, keysyms))
      {
        NodesOfFirst(automaton, keysyms, i, output);
        if !keysyms[i].composing {
          continue;
        }
        Generate(keysyms[i]);
      }
    }

    /** Reset the automaton and feed all keysyms of the word; `trace` are the states on the way. */
    method FeedWord() returns (ghost trace: seq<S>)
      modifies this`state
      ensures |trace| == |word| + 1 && trace[0] == automaton.start && trace[|word|] == state
      ensures forall i :: 0 <= i < |word| ==> trace[i + 1] == automaton.feed(trace[i], word[i].keysym)
      ensures state == StateAfter(automaton, word)
    {
      state := automaton.start;
      trace := [state];
      for i := 0 to |word|
        invariant |trace| == i + 1 && trace[0] == automaton.start && trace[i] == state
        invariant forall j :: 0 <= j < i ==> trace[j + 1] == automaton.feed(trace[j], word[j].keysym)
      {
        state := automaton.feed(state, word[i].keysym);
        trace := trace + [state];
      }
      TraceMeaning(automaton, word, trace, |word|);
      assert word[..|word|] == word;
    }

    /** Generate a node for a completed word, unless there is no code point for it. */
    method Emit()
      requires state == StateAfter(automaton, word)
      modifies this`output
      ensures output == old(output) + Nodes(automaton, if CodeOf(automaton, word) == 0 then [] else [word])
      ensures automaton.utf32(state) == 0 ==> output == old(output)
      ensures automaton.utf32(state) != 0 ==>
                && |output| == |old(output)| + 1 && output[..|old(output)|] == old(output)
                && var node := output[|old(output)|];
                   && node.code == automaton.utf32(state) && |node.keys| == |word|
                   && forall i :: 0 <= i < |word| ==> node.keys[i] == word[i].utf32
    {
      assert Nodes(automaton, []) == [];
      var utf32 := automaton.utf32(state);
      if utf32 != 0 {
        ghost var w := word;
        var keys := seq(|word|, i requires 0 <= i < |word| reads this => word[i].utf32);
        assert keys == ToNode(automaton, w).keys;
        assert Nodes(automaton, [w]) == [ToNode(automaton, w)];
        output := output + [Node(keys, utf32)];
      }
    }

    method Generate(keysym: Keysym)
      requires |word| <= MAX
      modifies this
      ensures word == old(word)
      ensures output == old(output) + Nodes(automaton, Gen(automaton, keysyms, old(word) + [keysym]))
      decreases MAX - |word|, 1
    {
      NoNodes(automaton, output);
      hide Nodes, StateAfter;
      word := word + [keysym];
      if |word| > MAX {
        word := word[..|word| - 1];
        return;
      }
      ghost var _ := FeedWord();
      match automaton.status(state) {
        case Composed => Emit();
        case Composing => GenerateAll();
        case Cancelled =>
        case Nothing =>
      }
      word := word[..|word| - 1];
    }

    method GenerateAll()
      requires |word| <= MAX
      modifies this
      ensures word == old(word)
      ensures output == old(output) + Nodes(automaton, GenAll(automaton, keysyms, word, keysyms))
      decreases MAX - |word|, 2
    {
      ghost var w, was := word, output;
      for i := 0 to |keysyms|
        invariant word == w
        invariant Progress(automaton, keysyms, w, i, was, output)
      {
        ghost var before := output;
        Generate(keysyms[i]);
        NextProgress(automaton, keysyms, w, i, was, before, output);
      }
    }
  }

  /** What was generated, followed by what is still to be, is what the whole loop generates. */
  predicate Progress<S>(a: Automaton<S>, keysyms: seq<Keysym>, w: Word, i: nat, was: seq<Node>, output: seq<Node>)
    requires i <= |keysyms| && |w| <= MAX
  {
    output + Nodes(a, GenAll(a, keysyms, w, keysyms[i..])) == was + Nodes(a, GenAll(a, keysyms, w, keysyms))
  }

  lemma NextProgress<S>(a: Automaton<S>, keysyms: seq<Keysym>, w: Word, i: nat, was: seq<Node>,
                        before: seq<Node>, after: seq<Node>)
    requires i < |keysyms| && |w| <= MAX && Progress(a, keysyms, w, i, was, before)
    requires after == before + Nodes(a, Gen(a, keysyms, w + [keysyms[i]]))
    ensures Progress(a, keysyms, w, i + 1, was, after)
  {
    NodesOfNext(a, keysyms, w, i);
    Assoc(before, Nodes(a, Gen(a, keysyms, w + [keysyms[i]])), Nodes(a, GenAll(a, keysyms, w, keysyms[i + 1..])));
  }

  lemma Assoc(xs: seq<Node>, ys: seq<Node>, zs: seq<Node>)
    ensures xs + ys + zs == xs + (ys + zs)
  {
  }

  lemma NodesOfFirst<S>(a: Automaton<S>, keysyms: seq<Keysym>, i: nat, output: seq<Node>)
    requires i < |keysyms|
    ensures output + Nodes(a, GenFirst(a, keysyms, keysyms[i..])) ==
            output + Nodes(a, if keysyms[i].composing then Gen(a, keysyms, [] + [keysyms[i]]) else [])
            + Nodes(a, GenFirst(a, keysyms, keysyms[i + 1..]))
  {
    assert keysyms[i..][1..] == keysyms[i + 1..] && [] + [keysyms[i]] == [keysyms[i]];
    var first := if keysyms[i].composing then Gen(a, keysyms, [keysyms[i]]) else [];
    NodesConcat(a, first, GenFirst(a, keysyms, keysyms[i + 1..]));
    Assoc(output, Nodes(a, first), Nodes(a, GenFirst(a, keysyms, keysyms[i + 1..])));
  }

  lemma NoNodes<S>(a: Automaton<S>, output: seq<Node>)
    ensures Nodes(a, []) == [] && output == output + Nodes(a, [])
  {
  }

  lemma NodesConcat<S>(a: Automaton<S>, us: seq<Word>, vs: seq<Word>)
    ensures Nodes(a, us + vs) == Nodes(a, us) + Nodes(a, vs)
  {
  }

  lemma NodesOfNext<S>(a: Automaton<S>, keysyms: seq<Keysym>, w: Word, i: nat)
    requires i < |keysyms| && |w| <= MAX
    ensures Nodes(a, GenAll(a, keysyms, w, keysyms[i..])) ==
            Nodes(a, Gen(a, keysyms, w + [keysyms[i]])) + Nodes(a, GenAll(a, keysyms, w, keysyms[i + 1..]))
  {
    assert keysyms[i..][1..] == keysyms[i + 1..];
    NodesConcat(a, Gen(a, keysyms, w + [keysyms[i]]), GenAll(a, keysyms, w, keysyms[i + 1..]));
  }
}
