/**
 * The FTS5 `xTokenize` entry point of the "mecab" tokenizer, step by step as
 * the Rust code runs it: a null check on the analyzer's output, then a walk
 * over the node list with a running `c_int` offset cursor.
 */
module Tokenizer {
  import opened Ffi
  import opened NodeStats
  import opened TokenStream

  /**
   * `check`: a null analyzer result becomes an error carrying the analyzer's
   * last-error text (`mecab_strerror`, given here as `lastError`).
   */
  function Check(head: Option<seq<Node>>, lastError: seq<byte>): (r: Result<(), seq<byte>>)
    ensures r.Failure? <==> head.None?
    ensures r.Failure? ==> r.error == lastError
  {
    if head.None? then Failure(lastError) else Success(())
  }

  /** The `for i in 0..length { buf.push(..) }` copy of a node's surface into an owned buffer. */
  method CopySurface(surface: seq<byte>, length: i32) returns (buf: seq<byte>)
    requires 0 <= length as int <= |surface|
    ensures |buf| == length as int
    ensures forall k | 0 <= k < |buf| :: buf[k] == surface[k]
  {
    buf := [];
    var i: i32 := 0;
    while i < length
      invariant 0 <= i <= length
      invariant buf == surface[..i]
    {
      buf := buf + [surface[i]];
      i := i + 1;
    }
  }

  /**
   * `tokenize`, given the node list `mecab_sparse_tonode2` returned (None for
   * a null head) and the host's `xToken` callback. Returns the outcome and the
   * token of every callback invocation, in order.
   */
  method Tokenize(head: Option<seq<Node>>, lastError: seq<byte>, xToken: Callback)
    returns (outcome: Outcome, trace: seq<Token>)
    requires head.Some? ==> AllReadable(head.value) && Span(Emittable(head.value)) <= I32_MAX
    ensures Run(outcome, trace) == TokenStream.Tokenize(head, xToken)
    ensures head.None? ==> outcome == Returned(SQLITE_ERROR) && trace == []
    ensures head.Some? && AllKnown(head.value) ==>
      Copyable(Emittable(head.value))
      && Run(outcome, trace) == Drive(xToken, [], Layout(Emittable(head.value), 0))
  {
    if Check(head, lastError).Failure? {
      return Returned(SQLITE_ERROR), [];
    }
    var nodes := head.value;
    var node := nodes;
    var cursor: i32 := 0;
    trace := [];
    while node != []
      invariant AllReadable(node)
      invariant AllKnown(nodes) ==> AllKnown(node)
      invariant 0 <= cursor as int
      invariant cursor as int + Span(Emittable(node)) == Span(Emittable(nodes))
      invariant Walk(xToken, node, cursor as int, trace) == Walk(xToken, nodes, 0, [])
      decreases |node|
    {
      var stat := TryFrom(node[0].stat);
      if stat.Failure? {
        assert Walk(xToken, node, cursor as int, trace) == Run(Panicked(stat.error), trace);
        return Panicked(stat.error), trace;
      }
      WalkStep(xToken, node, cursor as int, trace);
      assert node == [node[0]] + node[1..];
      if stat.value == BOS || stat.value == EOS {
        node := node[1..];
      } else {
        assert Readable(node[0]);
        var length: i32 := node[0].length;
        var surface := CopySurface(node[0].surface, length);
        assert surface == node[0].surface[..length];
        var next: i32 := cursor + length;
        assert Token(0, surface, length as int, cursor as int, next as int) == Emit(node[0], cursor as int);
        trace := trace + [Token(0, surface, length as int, cursor as int, next as int)];
        var status := xToken(trace);
        if status != SQLITE_OK {
          if AllKnown(nodes) {
            WalkComposes(xToken, nodes);
          }
          return Returned(status), trace;
        }
        cursor := next;
        node := node[1..];
      }
    }
    outcome := Returned(SQLITE_OK);
    assert Walk(xToken, node, cursor as int, trace) == Run(outcome, trace);
    if AllKnown(nodes) {
      WalkComposes(xToken, nodes);
    }
  }
}
