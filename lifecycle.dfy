/**
 * One analyzer instance per FTS5 table: `create` builds a `TokenizerContext`
 * owning a `mecab_t` handle, `delete` drops it, and the drop destroys the
 * handle when it is not null.
 */
module Lifecycle {
  import opened Ffi

  /** A `*mut mecab_t`: null, or a live analyzer instance. */
  datatype Handle = Null | Engine(id: nat)

  /**
   * The analyzer library as `mecab_new` and `mecab_destroy` see it,
   * instrumented: the number of instances handed out, the ones alive, and
   * the ones destroyed, in order of destruction.
   */
  class Analyzer {
    var constructed: nat
    var live: set<nat>
    var destroyed: seq<nat>

    /** Every instance handed out is either alive or destroyed, never both, and destroyed at most once. */
    ghost predicate Valid()
      reads this
    {
      && (forall id | id in live :: id < constructed)
      && (forall k | 0 <= k < |destroyed| :: destroyed[k] < constructed && destroyed[k] !in live)
      && (forall k, l | 0 <= k < l < |destroyed| :: destroyed[k] != destroyed[l])
      && |live| + |destroyed| == constructed
    }

    constructor ()
      ensures Valid() && constructed == 0 && live == {} && destroyed == []
    {
      constructed, live, destroyed := 0, {}, [];
    }

    /** `mecab_new(argc, argv)`; `accepts` says whether the analyzer accepted the arguments. */
    method New(accepts: bool) returns (h: Handle)
      requires Valid()
      modifies this
      ensures Valid() && destroyed == old(destroyed)
      ensures accepts ==>
        h == Engine(old(constructed)) && h.id !in old(live)
        && constructed == old(constructed) + 1 && live == old(live) + {h.id}
      ensures !accepts ==> h == Null && constructed == old(constructed) && live == old(live)
    {
      if accepts {
        h := Engine(constructed);
        live := live + {constructed};
        constructed := constructed + 1;
      } else {
        h := Null;
      }
    }

    /** `mecab_destroy(h)` on a live instance. */
    method Destroy(h: Handle)
      requires Valid() && h.Engine? && h.id in live
      modifies this
      ensures Valid() && constructed == old(constructed)
      ensures live == old(live) - {h.id} && destroyed == old(destroyed) + [h.id]
    {
      assert live == (live - {h.id}) + {h.id};
      live := live - {h.id};
      destroyed := destroyed + [h.id];
    }
  }

  /** `struct TokenizerContext { mecab: *mut mecab_t }`; `dropped` records that its drop has run. */
  class TokenizerContext {
    const mecab: Handle
    ghost var dropped: bool

    constructor (mecab: Handle)
      ensures this.mecab == mecab && !dropped
    {
      this.mecab := mecab;
      dropped := false;
    }

    /** `impl Drop for TokenizerContext`: `mecab_destroy` only when the handle is not null. */
    method Drop(analyzer: Analyzer)
      requires !dropped && analyzer.Valid() && (mecab.Engine? ==> mecab.id in analyzer.live)
      modifies this, analyzer
      ensures dropped && analyzer.Valid() && analyzer.constructed == old(analyzer.constructed)
      ensures mecab.Null? ==> analyzer.live == old(analyzer.live) && analyzer.destroyed == old(analyzer.destroyed)
      ensures mecab.Engine? ==>
        analyzer.live == old(analyzer.live) - {mecab.id}
        && analyzer.destroyed == old(analyzer.destroyed) + [mecab.id]
    {
      if mecab.Engine? {
        analyzer.Destroy(mecab);
      }
      dropped := true;
    }
  }

  /**
   * `create`: a context owning a fresh analyzer instance. The status is
   * SQLITE_OK whatever `mecab_new` returned, a null handle included.
   */
  method Create(analyzer: Analyzer, accepts: bool) returns (status: int, context: TokenizerContext)
    requires analyzer.Valid()
    modifies analyzer
    ensures status == SQLITE_OK
    ensures fresh(context) && !context.dropped && analyzer.Valid()
    ensures analyzer.destroyed == old(analyzer.destroyed)
    ensures accepts ==>
      context.mecab == Engine(old(analyzer.constructed)) && context.mecab.id !in old(analyzer.live)
      && analyzer.constructed == old(analyzer.constructed) + 1
      && analyzer.live == old(analyzer.live) + {context.mecab.id}
    ensures !accepts ==>
      context.mecab == Null && analyzer.constructed == old(analyzer.constructed)
      && analyzer.live == old(analyzer.live)
  {
    var mecab := analyzer.New(accepts);
    context := new TokenizerContext(mecab);
    status := SQLITE_OK;
  }

  /** `delete`: takes the context back and drops it, exactly once. */
  method Delete(analyzer: Analyzer, context: TokenizerContext)
    requires !context.dropped && analyzer.Valid()
    requires context.mecab.Engine? ==> context.mecab.id in analyzer.live
    modifies context, analyzer
    ensures context.dropped && analyzer.Valid() && analyzer.constructed == old(analyzer.constructed)
    ensures context.mecab.Null? ==> analyzer.live == old(analyzer.live) && analyzer.destroyed == old(analyzer.destroyed)
    ensures context.mecab.Engine? ==>
      analyzer.live == old(analyzer.live) - {context.mecab.id}
      && analyzer.destroyed == old(analyzer.destroyed) + [context.mecab.id]
  {
    context.Drop(analyzer);
  }

  /**
   * A table's whole life, `create` then `delete`: the analyzer is back where
   * it was, and an instance was constructed exactly when one was destroyed.
   * Starting with no live instance, destructions then equal constructions.
   */
  method TableLifetime(analyzer: Analyzer, accepts: bool) returns (status: int)
    requires analyzer.Valid()
    modifies analyzer
    ensures status == SQLITE_OK && analyzer.Valid()
    ensures analyzer.live == old(analyzer.live)
    ensures analyzer.constructed == old(analyzer.constructed) + (if accepts then 1 else 0)
    ensures |analyzer.destroyed| == |old(analyzer.destroyed)| + (if accepts then 1 else 0)
    ensures old(analyzer.live) == {} ==> |analyzer.destroyed| == analyzer.constructed
  {
    var context;
    status, context := Create(analyzer, accepts);
    Delete(analyzer, context);
  }

  /** Two tables get two contexts that share no analyzer instance. */
  method TwoTables(analyzer: Analyzer, acceptsA: bool, acceptsB: bool)
    returns (a: TokenizerContext, b: TokenizerContext)
    requires analyzer.Valid()
    modifies analyzer
    ensures fresh(a) && fresh(b) && a != b && analyzer.Valid()
    ensures a.mecab.Engine? && b.mecab.Engine? ==> a.mecab.id != b.mecab.id
    ensures a.mecab.Engine? ==> a.mecab.id in analyzer.live
    ensures b.mecab.Engine? ==> b.mecab.id in analyzer.live
  {
    var status;
    status, a := Create(analyzer, acceptsA);
    status, b := Create(analyzer, acceptsB);
  }
}
