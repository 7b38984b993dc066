/**
 * What `tokenize` promises the FTS5 host, stated on `TokenStream.Tokenize`
 * (which the imperative `Tokenizer.Tokenize` is proved equal to).
 */
module Properties {
  import opened Ffi
  import opened NodeStats
  import opened TokenStream

  /** The tokens `tokenize` hands out when the host accepts every one of them. */
  function Tokens(nodes: seq<Node>): (ts: seq<Token>)
    requires AllReadable(nodes)
    ensures |ts| == |Emittable(nodes)|
  {
    EmittableCopyable(nodes);
    Layout(Emittable(nodes), 0)
  }

  /**
   * The tokens of the emittable nodes, k by k: flags 0, the first `length`
   * bytes of the node's surface, reported length `length`, end == start +
   * length, the first starting at 0, each next one where the previous one
   * ended, all within the bytes of the emitted nodes.
   */
  lemma TokensShape(nodes: seq<Node>)
    requires AllReadable(nodes)
    ensures Copyable(Emittable(nodes))
    ensures var ts := Tokens(nodes);
      var es := Emittable(nodes);
      && (forall k | 0 <= k < |ts| ::
            && !IsBoundary(es[k].stat)
            && ts[k].flags == 0
            && ts[k].length == es[k].length
            && ts[k].bytes == es[k].surface[..es[k].length]
            && ts[k].end == ts[k].start + ts[k].length
            && 0 <= ts[k].start <= ts[k].end <= Span(es))
      && (|ts| > 0 ==> ts[0].start == 0)
      && (forall k | 0 <= k < |ts| - 1 :: ts[k + 1].start == ts[k].end)
  {
    var es := Emittable(nodes);
    EmittableCopyable(nodes);
    LayoutContiguous(es, 0);
    forall k | 0 <= k < |es|
      ensures !IsBoundary(es[k].stat)
      ensures Layout(es, 0)[k].flags == 0 && Layout(es, 0)[k].length == es[k].length
      ensures Layout(es, 0)[k].bytes == es[k].surface[..es[k].length]
      ensures Layout(es, 0)[k].end == Layout(es, 0)[k].start + Layout(es, 0)[k].length
    {
      EmittableMembers(nodes, es[k]);
      LayoutAt(es, 0, k);
    }
  }

  /**
   * Every token delivered is the token of a non-boundary node, in list
   * order, with the shape TokensShape gives: the calls `tokenize` makes are a
   * prefix of `Tokens(nodes)`.
   */
  lemma TokenizeTokens(nodes: seq<Node>, xToken: Callback)
    requires AllReadable(nodes) && AllKnown(nodes)
    ensures Copyable(Emittable(nodes))
    ensures var tr := Tokenize(Some(nodes), xToken).trace;
      var es := Emittable(nodes);
      && |tr| <= |es|
      && (forall k | 0 <= k < |tr| ::
            && !IsBoundary(es[k].stat)
            && tr[k].flags == 0
            && tr[k].length == es[k].length
            && tr[k].bytes == es[k].surface[..es[k].length]
            && tr[k].end == tr[k].start + tr[k].length
            && 0 <= tr[k].start <= tr[k].end <= Span(es))
      && (|tr| > 0 ==> tr[0].start == 0)
      && (forall k | 0 <= k < |tr| - 1 :: tr[k + 1].start == tr[k].end)
  {
    TokensShape(nodes);
    TokenizeOutcome(nodes, xToken);
    var tr := Tokenize(Some(nodes), xToken).trace;
    var ts := Tokens(nodes);
    assert forall k | 0 <= k < |tr| :: tr[k] == ts[k];
  }

  /**
   * If the host accepts every call, `tokenize` returns SQLITE_OK after the
   * whole list, having called the host once per non-boundary node.
   */
  lemma TokenizeAllAccepted(nodes: seq<Node>, xToken: Callback)
    requires AllReadable(nodes) && AllKnown(nodes)
    requires forall j | 1 <= j <= |Tokens(nodes)| :: xToken(Tokens(nodes)[..j]) == SQLITE_OK
    ensures Tokenize(Some(nodes), xToken) == Run(Returned(SQLITE_OK), Tokens(nodes))
    ensures |Tokenize(Some(nodes), xToken).trace| == |Emittable(nodes)|
  {
    var ts := Tokens(nodes);
    WalkComposes(xToken, nodes);
    forall j | 1 <= j <= |ts| ensures xToken([] + ts[..j]) == SQLITE_OK {
      assert [] + ts[..j] == ts[..j];
    }
    DriveAllAccepted(xToken, [], ts);
    assert [] + ts == ts;
  }

  /**
   * If the host first refuses its k-th call, `tokenize` returns exactly that
   * status and the host was called exactly k times, with the first k tokens.
   */
  lemma TokenizeStopsAtFirstRefusal(nodes: seq<Node>, xToken: Callback, k: nat)
    requires AllReadable(nodes) && AllKnown(nodes)
    requires 1 <= k <= |Tokens(nodes)|
    requires forall j | 1 <= j < k :: xToken(Tokens(nodes)[..j]) == SQLITE_OK
    requires xToken(Tokens(nodes)[..k]) != SQLITE_OK
    ensures Tokenize(Some(nodes), xToken) == Run(Returned(xToken(Tokens(nodes)[..k])), Tokens(nodes)[..k])
    ensures |Tokenize(Some(nodes), xToken).trace| == k
  {
    var ts := Tokens(nodes);
    WalkComposes(xToken, nodes);
    forall j | 1 <= j < k ensures xToken([] + ts[..j]) == SQLITE_OK {
      assert [] + ts[..j] == ts[..j];
    }
    assert [] + ts[..k] == ts[..k];
    DriveStopsAtFirstRefusal(xToken, [], ts, k);
  }

  /**
   * Conversely, whatever `tokenize` returns on known categories: a status,
   * after delivering a prefix of the tokens; a refusal status is that of the
   * last call, every earlier call was accepted; SQLITE_OK means all tokens were
   * delivered.
   */
  lemma TokenizeOutcome(nodes: seq<Node>, xToken: Callback)
    requires AllReadable(nodes) && AllKnown(nodes)
    ensures var r := Tokenize(Some(nodes), xToken);
      var ts := Tokens(nodes);
      && r.outcome.Returned?
      && |r.trace| <= |ts| && r.trace == ts[..|r.trace|]
      && (forall j | 1 <= j < |r.trace| :: xToken(ts[..j]) == SQLITE_OK)
      && (r.outcome.status == SQLITE_OK <==> r.trace == ts && (ts != [] ==> xToken(ts) == SQLITE_OK))
      && (r.outcome.status != SQLITE_OK ==> |r.trace| > 0 && xToken(r.trace) == r.outcome.status)
  {
    var ts := Tokens(nodes);
    WalkComposes(xToken, nodes);
    DriveStatus(xToken, [], ts);
    var r := Tokenize(Some(nodes), xToken);
    assert [] + ts[..|r.trace|] == ts[..|r.trace|];
    forall j | 1 <= j < |r.trace| ensures xToken(ts[..j]) == SQLITE_OK {
      assert [] + ts[..j] == ts[..j];
    }
    assert [] + ts == ts;
  }

  /** A BOS or EOS node changes nothing, wherever it stands in the list. */
  lemma BoundaryNodeIsInvisible(a: seq<Node>, boundary: Node, b: seq<Node>, xToken: Callback)
    requires IsBoundary(boundary.stat)
    requires AllReadable(a + b) && AllKnown(a + b)
    ensures AllReadable(a + [boundary] + b)
    ensures Tokenize(Some(a + [boundary] + b), xToken) == Tokenize(Some(a + b), xToken)
  {
    InsertBoundary(a, boundary, b);
    WalkComposes(xToken, a + [boundary] + b);
    WalkComposes(xToken, a + b);
  }

  /** Inserting a boundary node keeps the list readable and known, and filters away. */
  lemma InsertBoundary(a: seq<Node>, boundary: Node, b: seq<Node>)
    requires IsBoundary(boundary.stat)
    requires AllReadable(a + b) && AllKnown(a + b)
    ensures AllReadable(a + [boundary] + b) && AllKnown(a + [boundary] + b)
    ensures Emittable(a + [boundary] + b) == Emittable(a + b)
  {
    var with := a + [boundary] + b;
    forall k | 0 <= k < |with| ensures Readable(with[k]) && IsKnown(with[k].stat) {
      if k < |a| {
        assert with[k] == (a + b)[k];
      } else if k > |a| {
        assert with[k] == (a + b)[k - 1];
      }
    }
    EmittableAppend(a, [boundary]);
    EmittableAppend(a + [boundary], b);
    EmittableAppend(a, b);
    assert [boundary][1..] == [];
  }

  /** A list of boundary nodes only (what an empty input yields) produces no call and SQLITE_OK. */
  lemma {:induction false} BoundariesOnly(nodes: seq<Node>, xToken: Callback, cursor: int, trace: seq<Token>)
    requires forall k | 0 <= k < |nodes| :: IsBoundary(nodes[k].stat)
    ensures AllReadable(nodes)
    ensures Walk(xToken, nodes, cursor, trace) == Run(Returned(SQLITE_OK), trace)
    decreases |nodes|
  {
    if nodes != [] {
      assert TryFrom(nodes[0].stat).Success?;
      BoundariesOnly(nodes[1..], xToken, cursor, trace);
    }
  }

  /**
   * At the first node of unknown category, `tokenize` panics (`unwrap` on
   * `Err`) after delivering the tokens before it, unless the host refused one
   * of those first.
   */
  lemma TokenizePanics(nodes: seq<Node>, xToken: Callback, p: nat)
    requires AllReadable(nodes) && p < |nodes|
    requires AllKnown(nodes[..p]) && !IsKnown(nodes[p].stat)
    ensures Copyable(Emittable(nodes[..p]))
    ensures var d := Drive(xToken, [], Layout(Emittable(nodes[..p]), 0));
      Tokenize(Some(nodes), xToken)
      == if d.outcome == Returned(SQLITE_OK) then Run(Panicked(nodes[p].stat), d.trace) else d
  {
    WalkUntil(xToken, nodes, p, 0, []);
  }

  /** With only known categories `tokenize` never panics. */
  lemma KnownNeverPanics(nodes: seq<Node>, xToken: Callback)
    requires AllReadable(nodes) && AllKnown(nodes)
    ensures Tokenize(Some(nodes), xToken).outcome.Returned?
  {
    WalkComposes(xToken, nodes);
    DriveStatus(xToken, [], Tokens(nodes));
  }

  /**
   * No node after the stopping point is visited: once `tokenize` stops early
   * within the first `q` nodes, appending more nodes changes nothing.
   */
  lemma TokenizeIgnoresRest(nodes: seq<Node>, xToken: Callback, q: nat)
    requires AllReadable(nodes) && q <= |nodes|
    ensures AllReadable(nodes[..q])
    ensures Tokenize(Some(nodes[..q]), xToken).outcome != Returned(SQLITE_OK)
        ==> Tokenize(Some(nodes), xToken) == Tokenize(Some(nodes[..q]), xToken)
  {
    WalkIgnoresRest(xToken, nodes, q, 0, []);
  }

  /**
   * The analyzer's output for "すも" split into "す" and "も": BOS, two
   * normal nodes of 3 bytes each (surface pointers into the input), EOS. The
   * host sees exactly two tokens, [0, 3) and [3, 6).
   */
  lemma TwoMorphemes()
    ensures var su: seq<byte> := [0xE3, 0x81, 0x99];
      var mo: seq<byte> := [0xE3, 0x82, 0x82];
      var nodes := [Node(MECAB_BOS_NODE, 0, su + mo), Node(MECAB_NOR_NODE, 3, su + mo),
                    Node(MECAB_NOR_NODE, 3, mo), Node(MECAB_EOS_NODE, 0, [])];
      AllReadable(nodes)
      && Tokenize(Some(nodes), _ => SQLITE_OK)
         == Run(Returned(SQLITE_OK), [Token(0, su, 3, 0, 3), Token(0, mo, 3, 3, 6)])
  {
    var su: seq<byte> := [0xE3, 0x81, 0x99];
    var mo: seq<byte> := [0xE3, 0x82, 0x82];
    var nodes := [Node(MECAB_BOS_NODE, 0, su + mo), Node(MECAB_NOR_NODE, 3, su + mo),
                  Node(MECAB_NOR_NODE, 3, mo), Node(MECAB_EOS_NODE, 0, [])];
    var accept: Callback := _ => SQLITE_OK;
    var t1 := Token(0, su, 3, 0, 3);
    var t2 := Token(0, mo, 3, 3, 6);
    assert (su + mo)[..3] == su && mo[..3] == mo;
    var fromEos := [nodes[3]];
    var fromMo := [nodes[2]] + fromEos;
    var fromSu := [nodes[1]] + fromMo;
    assert nodes == [nodes[0]] + fromSu && fromSu[1..] == fromMo && fromMo[1..] == fromEos;
    assert Walk(accept, fromEos, 6, [t1, t2]) == Run(Returned(SQLITE_OK), [t1, t2]);
    assert Emit(nodes[2], 3) == t2 && [t1] + [t2] == [t1, t2];
    assert Walk(accept, fromMo, 3, [t1]) == Run(Returned(SQLITE_OK), [t1, t2]);
    assert Emit(nodes[1], 0) == t1 && [] + [t1] == [t1];
    assert Walk(accept, fromSu, 0, []) == Run(Returned(SQLITE_OK), [t1, t2]);
  }
}
