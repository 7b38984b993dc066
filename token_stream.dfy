/**
 * The tokenize bridge as pure functions. The analyzer's linked node list is a
 * sequence; the host's `xToken` callback is an oracle that sees every token
 * delivered so far (the last one being the token of the current call) and
 * answers with a status. `Walk` is the source's loop written as recursion; the
 * rest splits what it does into three independent steps: drop the boundary
 * nodes (`Emittable`), lay the remaining nodes out at contiguous offsets
 * (`Layout`), and deliver the tokens until the host refuses one (`Drive`).
 */
module TokenStream {
  import opened Ffi
  import opened NodeStats

  /** One `mecab_node_t`: its category code, its byte length, and the bytes readable from its `surface` pointer. */
  datatype Node = Node(stat: byte, length: u16, surface: seq<byte>)

  /** The arguments of one `xToken(pCtx, tflags, pToken, nToken, iStart, iEnd)` call. */
  datatype Token = Token(flags: int, bytes: seq<byte>, length: int, start: int, end: int)

  /** What `tokenize` does in the end: return a status, or panic on an unknown node category. */
  datatype Outcome = Returned(status: int) | Panicked(stat: byte)

  /** The outcome together with every token handed to the callback, one entry per call, in order. */
  datatype Run = Run(outcome: Outcome, trace: seq<Token>)

  /** The host callback: the status it answers, given all tokens delivered so far. */
  type Callback = seq<Token> -> int

  /** Sentence-begin and sentence-end nodes. */
  predicate IsBoundary(stat: byte)
  {
    stat == MECAB_BOS_NODE || stat == MECAB_EOS_NODE
  }

  /** The surface pointer of a node that is copied has at least `length` bytes behind it. */
  predicate Readable(n: Node)
  {
    IsBoundary(n.stat) || n.length <= |n.surface|
  }

  predicate AllReadable(nodes: seq<Node>)
  {
    forall k | 0 <= k < |nodes| :: Readable(nodes[k])
  }

  predicate AllKnown(nodes: seq<Node>)
  {
    forall k | 0 <= k < |nodes| :: IsKnown(nodes[k].stat)
  }

  /** The nodes that produce a token: every node but BOS and EOS, in list order. */
  function Emittable(nodes: seq<Node>): (r: seq<Node>)
    ensures |r| <= |nodes|
  {
    if nodes == [] then []
    else if IsBoundary(nodes[0].stat) then Emittable(nodes[1..])
    else [nodes[0]] + Emittable(nodes[1..])
  }

  /** The number of bytes a run of nodes covers. */
  function Span(ns: seq<Node>): nat
  {
    if ns == [] then 0 else ns[0].length + Span(ns[1..])
  }

  /** The token of one node placed at offset `at`: flags 0, its first `length` surface bytes, the span [at, at + length). */
  function Emit(n: Node, at: int): Token
    requires n.length <= |n.surface|
  {
    Token(0, n.surface[..n.length], n.length, at, at + n.length)
  }

  predicate Copyable(ns: seq<Node>)
  {
    forall k | 0 <= k < |ns| :: ns[k].length <= |ns[k].surface|
  }

  /** The tokens of `ns`, each starting where the previous one ends, the first at `at`. */
  function Layout(ns: seq<Node>, at: int): (r: seq<Token>)
    requires Copyable(ns)
    ensures |r| == |ns|
  {
    if ns == [] then [] else [Emit(ns[0], at)] + Layout(ns[1..], at + ns[0].length)
  }

  /**
   * Hands the tokens `ts` to the callback one by one after the `delivered` ones,
   * stopping at the first call that does not answer SQLITE_OK and returning that
   * status; SQLITE_OK once all are accepted.
   */
  function Drive(xToken: Callback, delivered: seq<Token>, ts: seq<Token>): (r: Run)
    decreases |ts|
  {
    if ts == [] then Run(Returned(SQLITE_OK), delivered)
    else
      var now := delivered + [ts[0]];
      var status := xToken(now);
      if status != SQLITE_OK then Run(Returned(status), now)
      else
        Drive(xToken, now, ts[1..])
  }

  /**
   * The `while !node.is_null()` loop of `tokenize`: `nodes` is the list from
   * the current node on, `cursor` the offset cursor, `trace` the tokens
   * already delivered.
   */
  function Walk(xToken: Callback, nodes: seq<Node>, cursor: int, trace: seq<Token>): Run
    requires AllReadable(nodes)
    decreases |nodes|
  {
    if nodes == [] then Run(Returned(SQLITE_OK), trace)
    else match TryFrom(nodes[0].stat)
      case Failure(stat) => Run(Panicked(stat), trace)
      case Success(s) =>
        if s == BOS || s == EOS then Walk(xToken, nodes[1..], cursor, trace)
        else
          var now := trace + [Emit(nodes[0], cursor)];
          var status := xToken(now);
          if status != SQLITE_OK then Run(Returned(status), now)
          else Walk(xToken, nodes[1..], cursor + nodes[0].length, now)
  }

  /** `tokenize` after `mecab_sparse_tonode2` returned `head` (None for a null pointer). */
  function Tokenize(head: Option<seq<Node>>, xToken: Callback): (r: Run)
    requires head.Some? ==> AllReadable(head.value)
    ensures head.None? ==> r == Run(Returned(SQLITE_ERROR), [])
    ensures head.Some? ==> |r.trace| <= |Emittable(head.value)|
    ensures head.Some? && r.outcome == Returned(SQLITE_OK) ==> |r.trace| == |Emittable(head.value)|
    ensures r.outcome.Panicked? ==> head.Some? && !IsKnown(r.outcome.stat)
  {
    match head
    case None => Run(Returned(SQLITE_ERROR), [])
    case Some(nodes) => WalkTrace(xToken, nodes, 0, []); Walk(xToken, nodes, 0, [])
  }

  /**
   * What the loop can do to the delivered tokens: it only appends, at most
   * one token per non-boundary node, all of them when it ends with SQLITE_OK;
   * and it panics only on a byte that is no node category.
   */
  lemma {:induction false} WalkTrace(xToken: Callback, nodes: seq<Node>, cursor: int, trace: seq<Token>)
    requires AllReadable(nodes)
    ensures var r := Walk(xToken, nodes, cursor, trace);
      && |trace| <= |r.trace| <= |trace| + |Emittable(nodes)|
      && r.trace[..|trace|] == trace
      && (r.outcome == Returned(SQLITE_OK) ==> |r.trace| == |trace| + |Emittable(nodes)|)
      && (r.outcome.Panicked? ==> !IsKnown(r.outcome.stat))
    decreases |nodes|
  {
    if nodes != [] && TryFrom(nodes[0].stat).Success? {
      assert AllReadable(nodes[1..]) by {
        forall k | 0 <= k < |nodes[1..]| ensures Readable(nodes[1..][k]) {
          assert nodes[1..][k] == nodes[k + 1];
        }
      }
      if IsBoundary(nodes[0].stat) {
        WalkTrace(xToken, nodes[1..], cursor, trace);
      } else {
        assert Readable(nodes[0]);
        var now := trace + [Emit(nodes[0], cursor)];
        if xToken(now) == SQLITE_OK {
          WalkTrace(xToken, nodes[1..], cursor + nodes[0].length, now);
          var r := Walk(xToken, nodes[1..], cursor + nodes[0].length, now);
          assert r.trace[..|trace|] == r.trace[..|now|][..|trace|];
        }
      }
    }
  }

  // ---------------------------------------------------------------------------
  // The three steps, each on its own.

  /** Filtering distributes over concatenation, so it keeps the list order. */
  lemma {:induction false} EmittableAppend(a: seq<Node>, b: seq<Node>)
    ensures Emittable(a + b) == Emittable(a) + Emittable(b)
  {
    if a == [] {
      assert a + b == b;
    } else {
      assert (a + b)[0] == a[0] && (a + b)[1..] == a[1..] + b;
      EmittableAppend(a[1..], b);
    }
  }

  /** Exactly the nodes that are not BOS or EOS survive the filter. */
  lemma {:induction false} EmittableMembers(nodes: seq<Node>, n: Node)
    ensures n in Emittable(nodes) <==> n in nodes && !IsBoundary(n.stat)
  {
    if nodes != [] {
      EmittableMembers(nodes[1..], n);
      assert nodes == [nodes[0]] + nodes[1..];
    }
  }

  /** A readable list yields copyable tokens. */
  lemma {:induction false} EmittableCopyable(nodes: seq<Node>)
    requires AllReadable(nodes)
    ensures Copyable(Emittable(nodes))
  {
    if nodes != [] {
      assert AllReadable(nodes[1..]) by {
        forall k | 0 <= k < |nodes| - 1 ensures Readable(nodes[1..][k]) {
          assert nodes[1..][k] == nodes[k + 1];
        }
      }
      EmittableCopyable(nodes[1..]);
    }
  }

  lemma {:induction false} SpanAppend(a: seq<Node>, b: seq<Node>)
    ensures Span(a + b) == Span(a) + Span(b)
  {
    if a == [] {
      assert a + b == b;
    } else {
      assert (a + b)[0] == a[0] && (a + b)[1..] == a[1..] + b;
      SpanAppend(a[1..], b);
    }
  }

  /**
   * The k-th laid-out token: flags 0, the first `length` bytes of the k-th
   * node's surface, reported length `length`, starting after the bytes of all
   * earlier nodes and ending `length` bytes later.
   */
  lemma {:induction false} LayoutAt(ns: seq<Node>, at: int, k: nat)
    requires Copyable(ns) && k < |ns|
    ensures var t := Layout(ns, at)[k];
      && t.flags == 0
      && t.bytes == ns[k].surface[..ns[k].length]
      && t.length == ns[k].length
      && t.start == at + Span(ns[..k])
      && t.end == t.start + t.length
  {
    if k > 0 {
      assert Copyable(ns[1..]) by {
        forall j | 0 <= j < |ns| - 1 ensures ns[1..][j].length <= |ns[1..][j].surface| {
          assert ns[1..][j] == ns[j + 1];
        }
      }
      LayoutAt(ns[1..], at + ns[0].length, k - 1);
      assert ns[..k] == [ns[0]] + ns[1..][..k - 1];
    }
  }

  /** Where the k-th laid-out token ends, and that it lies inside [at, at + Span(ns)]. */
  lemma LayoutBounds(ns: seq<Node>, at: int, k: nat)
    requires Copyable(ns) && k < |ns|
    ensures Layout(ns, at)[k].end == at + Span(ns[..k + 1])
    ensures at <= Layout(ns, at)[k].start <= Layout(ns, at)[k].end <= at + Span(ns)
  {
    LayoutAt(ns, at, k);
    assert ns[..k + 1] == ns[..k] + [ns[k]];
    SpanAppend(ns[..k], [ns[k]]);
    assert ns == ns[..k + 1] + ns[k + 1..];
    SpanAppend(ns[..k + 1], ns[k + 1..]);
  }

  /**
   * The layout covers [at, at + Span(ns)] without gaps: the first token starts
   * at `at`, each next token starts where the previous one ends, the last one
   * ends at `at + Span(ns)`, and every offset lies in between.
   */
  lemma LayoutContiguous(ns: seq<Node>, at: int)
    requires Copyable(ns)
    ensures var ts := Layout(ns, at);
      && (|ts| > 0 ==> ts[0].start == at && ts[|ts| - 1].end == at + Span(ns))
      && (forall k | 0 <= k < |ts| - 1 :: ts[k + 1].start == ts[k].end)
      && (forall k | 0 <= k < |ts| :: at <= ts[k].start <= ts[k].end <= at + Span(ns))
  {
    var ts := Layout(ns, at);
    forall k | 0 <= k < |ts| ensures at <= ts[k].start <= ts[k].end <= at + Span(ns) {
      LayoutBounds(ns, at, k);
    }
    forall k | 0 <= k < |ts| - 1 ensures ts[k + 1].start == ts[k].end {
      LayoutBounds(ns, at, k);
      LayoutAt(ns, at, k + 1);
    }
    if |ts| > 0 {
      LayoutAt(ns, at, 0);
      LayoutBounds(ns, at, |ts| - 1);
      assert ns[..|ts|] == ns;
    }
  }

  /**
   * Delivery hands over a prefix of the tokens, one call each; every call but
   * the last was accepted; the status returned is the last call's when it
   * refused, and SQLITE_OK only once every token was accepted.
   */
  lemma {:induction false} DriveStatus(xToken: Callback, delivered: seq<Token>, ts: seq<Token>)
    ensures var r := Drive(xToken, delivered, ts);
      && r.outcome.Returned?
      && |delivered| <= |r.trace| <= |delivered| + |ts|
      && r.trace == delivered + ts[..|r.trace| - |delivered|]
      && (forall j | 1 <= j < |r.trace| - |delivered| :: xToken(delivered + ts[..j]) == SQLITE_OK)
      && (r.outcome.status == SQLITE_OK ==> r.trace == delivered + ts && (ts != [] ==> xToken(r.trace) == SQLITE_OK))
      && (r.outcome.status != SQLITE_OK ==> |r.trace| > |delivered| && xToken(r.trace) == r.outcome.status)
    decreases |ts|
  {
    if ts == [] {
      assert ts[..0] == [] && delivered + [] == delivered;
    } else {
      var now := delivered + [ts[0]];
      assert now == delivered + ts[..1];
      if xToken(now) == SQLITE_OK {
        DriveStatus(xToken, now, ts[1..]);
        var r := Drive(xToken, now, ts[1..]);
        var m := |r.trace| - |now|;
        assert r.trace == delivered + ts[..m + 1] by {
          assert now + ts[1..][..m] == delivered + ts[..m + 1];
        }
        forall j | 1 <= j < m + 1 ensures xToken(delivered + ts[..j]) == SQLITE_OK {
          if j > 1 {
            assert delivered + ts[..j] == now + ts[1..][..j - 1];
          }
        }
        assert now + ts[1..] == delivered + ts;
      }
    }
  }

  /** If the k-th call is the first one refused, delivery ends after exactly k calls with that call's status. */
  lemma {:induction false} DriveStopsAtFirstRefusal(xToken: Callback, delivered: seq<Token>, ts: seq<Token>, k: nat)
    requires 1 <= k <= |ts|
    requires forall j | 1 <= j < k :: xToken(delivered + ts[..j]) == SQLITE_OK
    requires xToken(delivered + ts[..k]) != SQLITE_OK
    ensures Drive(xToken, delivered, ts) == Run(Returned(xToken(delivered + ts[..k])), delivered + ts[..k])
    decreases k
  {
    var now := delivered + [ts[0]];
    assert now == delivered + ts[..1];
    if k > 1 {
      assert xToken(now) == SQLITE_OK;
      forall j | 1 <= j < k - 1 ensures xToken(now + ts[1..][..j]) == SQLITE_OK {
        assert now + ts[1..][..j] == delivered + ts[..j + 1];
      }
      assert now + ts[1..][..k - 1] == delivered + ts[..k];
      DriveStopsAtFirstRefusal(xToken, now, ts[1..], k - 1);
    }
  }

  /** If every call is accepted, every token is delivered and SQLITE_OK is returned. */
  lemma {:induction false} DriveAllAccepted(xToken: Callback, delivered: seq<Token>, ts: seq<Token>)
    requires forall j | 1 <= j <= |ts| :: xToken(delivered + ts[..j]) == SQLITE_OK
    ensures Drive(xToken, delivered, ts) == Run(Returned(SQLITE_OK), delivered + ts)
    decreases |ts|
  {
    if ts != [] {
      var now := delivered + [ts[0]];
      assert now == delivered + ts[..1];
      forall j | 1 <= j <= |ts| - 1 ensures xToken(now + ts[1..][..j]) == SQLITE_OK {
        assert now + ts[1..][..j] == delivered + ts[..j + 1];
      }
      DriveAllAccepted(xToken, now, ts[1..]);
      assert now + ts[1..] == delivered + ts;
    }
  }

  // ---------------------------------------------------------------------------
  // The loop is the composition of the three steps.

  /** How the loop ends once it reaches node `p`: SQLITE_OK past the last node, a panic on an unknown category. */
  function Ending(nodes: seq<Node>, p: nat): Outcome
    requires p <= |nodes|
  {
    if p == |nodes| then Returned(SQLITE_OK) else Panicked(nodes[p].stat)
  }

  /**
   * Up to the first node `p` of unknown category (or the end of the list),
   * the loop delivers the laid-out tokens of the emittable nodes before `p`;
   * if the host accepts them all, it then ends as `Ending(nodes, p)` says.
   */
  lemma {:induction false} WalkUntil(xToken: Callback, nodes: seq<Node>, p: nat, cursor: int, trace: seq<Token>)
    requires p <= |nodes| && AllReadable(nodes) && AllKnown(nodes[..p])
    requires p < |nodes| ==> !IsKnown(nodes[p].stat)
    ensures Copyable(Emittable(nodes[..p]))
    ensures var d := Drive(xToken, trace, Layout(Emittable(nodes[..p]), cursor));
      Walk(xToken, nodes, cursor, trace)
      == if d.outcome == Returned(SQLITE_OK) then Run(Ending(nodes, p), d.trace) else d
    decreases p
  {
    PrefixReadable(nodes, p);
    EmittableCopyable(nodes[..p]);
    if p == 0 {
      assert nodes[..p] == [];
      if nodes != [] {
        assert TryFrom(nodes[0].stat).Failure?;
      }
    } else {
      var tail := nodes[1..];
      assert nodes[..p][0] == nodes[0] && nodes[..p][1..] == tail[..p - 1];
      assert IsKnown(nodes[0].stat);
      var pre := tail[..p - 1];
      assert AllKnown(pre) by {
        forall k | 0 <= k < p - 1 ensures IsKnown(pre[k].stat) {
          assert pre[k] == nodes[..p][k + 1];
        }
      }
      assert Ending(nodes, p) == Ending(tail, p - 1);
      if IsBoundary(nodes[0].stat) {
        assert Emittable(nodes[..p]) == Emittable(tail[..p - 1]);
        WalkUntil(xToken, tail, p - 1, cursor, trace);
      } else {
        WalkUntilEmit(xToken, nodes, p, cursor, trace);
      }
    }
  }

  lemma PrefixReadable(nodes: seq<Node>, p: nat)
    requires p <= |nodes| && AllReadable(nodes)
    ensures AllReadable(nodes[..p])
  {
    forall k | 0 <= k < p ensures Readable(nodes[..p][k]) {
      assert nodes[..p][k] == nodes[k];
    }
  }

  /** WalkUntil at a node that produces a token. */
  lemma {:induction false} WalkUntilEmit(xToken: Callback, nodes: seq<Node>, p: nat, cursor: int, trace: seq<Token>)
    requires 0 < p <= |nodes| && AllReadable(nodes) && IsKnown(nodes[0].stat) && !IsBoundary(nodes[0].stat)
    requires AllKnown(nodes[1..][..p - 1])
    requires p < |nodes| ==> !IsKnown(nodes[p].stat)
    requires nodes[..p][0] == nodes[0] && nodes[..p][1..] == nodes[1..][..p - 1]
    requires Ending(nodes, p) == Ending(nodes[1..], p - 1)
    requires Copyable(Emittable(nodes[..p]))
    ensures var d := Drive(xToken, trace, Layout(Emittable(nodes[..p]), cursor));
      Walk(xToken, nodes, cursor, trace)
      == if d.outcome == Returned(SQLITE_OK) then Run(Ending(nodes, p), d.trace) else d
    decreases p, 0
  {
    var n := nodes[0];
    var tail := nodes[1..];
    assert Readable(n);
    assert TryFrom(n.stat).Success?;
    var es := Emittable(tail[..p - 1]);
    var at := cursor + n.length;
    var now := trace + [Emit(n, cursor)];
    assert Emittable(nodes[..p]) == [n] + es;
    var ts := Layout([n] + es, cursor);
    assert ts[0] == Emit(n, cursor) && ts[1..] == Layout(es, at);
    if xToken(now) == SQLITE_OK {
      WalkUntil(xToken, tail, p - 1, at, now);
    }
  }

  /** One turn of the loop at a node of known category. */
  lemma WalkStep(xToken: Callback, nodes: seq<Node>, cursor: int, trace: seq<Token>)
    requires nodes != [] && AllReadable(nodes) && IsKnown(nodes[0].stat)
    ensures AllReadable(nodes[1..])
    ensures IsBoundary(nodes[0].stat) ==> Walk(xToken, nodes, cursor, trace) == Walk(xToken, nodes[1..], cursor, trace)
    ensures !IsBoundary(nodes[0].stat) ==>
      nodes[0].length <= |nodes[0].surface| &&
      var now := trace + [Emit(nodes[0], cursor)];
      Walk(xToken, nodes, cursor, trace)
      == if xToken(now) != SQLITE_OK then Run(Returned(xToken(now)), now)
         else Walk(xToken, nodes[1..], cursor + nodes[0].length, now)
  {
    assert Readable(nodes[0]);
    assert TryFrom(nodes[0].stat).Success?;
  }

  /** With only known categories, the loop is filter, then layout from 0, then delivery. */
  lemma WalkComposes(xToken: Callback, nodes: seq<Node>)
    requires AllReadable(nodes) && AllKnown(nodes)
    ensures Copyable(Emittable(nodes))
    ensures Walk(xToken, nodes, 0, []) == Drive(xToken, [], Layout(Emittable(nodes), 0))
  {
    assert nodes[..|nodes|] == nodes;
    WalkUntil(xToken, nodes, |nodes|, 0, []);
  }

  /**
   * Nothing after the stopping point is looked at: if the loop stops early on
   * the first `q` nodes (a refused token or a panic), it stops identically on
   * any longer list that starts with them.
   */
  lemma {:induction false} WalkIgnoresRest(xToken: Callback, nodes: seq<Node>, q: nat, cursor: int, trace: seq<Token>)
    requires q <= |nodes| && AllReadable(nodes)
    ensures AllReadable(nodes[..q])
    ensures Walk(xToken, nodes[..q], cursor, trace).outcome != Returned(SQLITE_OK)
        ==> Walk(xToken, nodes, cursor, trace) == Walk(xToken, nodes[..q], cursor, trace)
    decreases q
  {
    PrefixReadable(nodes, q);
    if q > 0 {
      var tail := nodes[1..];
      assert nodes[..q][0] == nodes[0] && nodes[..q][1..] == tail[..q - 1];
      WalkIgnoresRest(xToken, tail, q - 1, cursor, trace);
      if !IsBoundary(nodes[0].stat) && IsKnown(nodes[0].stat) {
        assert Readable(nodes[0]);
        var now := trace + [Emit(nodes[0], cursor)];
        WalkIgnoresRest(xToken, tail, q - 1, cursor + nodes[0].length, now);
      }
    }
  }
}
