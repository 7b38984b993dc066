# fts-mecab-rs tokenizer bridge, modelled in Dafny

fts-mecab-rs is an SQLite loadable extension that registers an FTS5 custom
tokenizer named "mecab". Each FTS5 table gets its own MeCab analyzer from
`create`, which `delete` releases again. FTS5 calls `tokenize` with a text.
The extension asks MeCab for the morpheme node list (`mecab_sparse_tonode2`).
If the head is null, the call fails with SQLITE_ERROR. Otherwise it walks the
list: it skips the sentence-boundary nodes (BOS, EOS) and gives every other
node to the host's `xToken` callback as one token. A token is the node's
first `length` surface bytes, with start and end byte offsets kept by a
running `c_int` cursor that begins at 0. The walk stops, returning the
callback's status, at the first status other than SQLITE_OK. A node whose
`stat` byte is none of MeCab's five categories makes the code panic.

The project has six modules:

- `Ffi` (`ffi.dfy`) holds the C-level types and constants: `unsigned char`,
  `unsigned short`, `c_int`, SQLITE_OK/SQLITE_ERROR and MECAB_*_NODE.
- `NodeStats` (`node_stat.dfy`) holds the `NodeStat` enum, its `try_from`
  and its `Display` names.
- `TokenStream` (`token_stream.dfy`) is the value-level meaning of
  `tokenize`, built from three parts. `Emittable` filters out BOS and EOS.
  `Layout` assigns contiguous offsets. `Drive` delivers tokens to the
  callback and aborts on a refusal. It also has `Walk`, which is the
  source's loop written as recursion over the list. The lemmas show that
  `Walk` is these three parts composed.
- `Tokenizer` (`tokenizer.dfy`) is `check` and `tokenize` as imperative
  code. `tokenize` is a `while` loop over the list with an `i32` cursor,
  proved equal to `Walk`.
- `Properties` (`properties.dfy`) holds what a host of the tokenizer can
  rely on. This covers the token shapes and offsets, the callback protocol,
  panics, and a concrete two-morpheme run.
- `Lifecycle` (`lifecycle.dfy`) covers `TokenizerContext`, `create`,
  `delete` and the drop. It uses an instrumented analyzer library that
  counts the instances it hands out and destroys.

How the interfaces are modelled:

- The MeCab node list is a `seq<Node>`. A null head is `None`.
- The host callback is a function from the tokens delivered so far,
  current one included, to a status. So it may answer differently on every
  call, as a stateful host can.
- A run's result is its `Outcome`: either the returned status, or a panic
  with the offending `stat` byte. The run also records every token the
  callback was given, in order.

## Model

| member | source | states |
|---|---|---|
| NodeStats.TryFrom | src/lib.rs:283-296 | succeeds exactly when the byte is one of MECAB_NOR/UNK/BOS/EOS/EON_NODE (0..4). On success the variant's code is the byte. Otherwise the error carries the byte itself. |
| NodeStats.TryFromCode | src/lib.rs:283-296 | converting a category's own code back gives that category. |
| NodeStats.Name | src/lib.rs:298-309 | every category displays as a 14-character `MECAB_xxx_NODE` name. |
| NodeStats.NameInjective | src/lib.rs:298-309 | distinct categories display as distinct names. |
| Tokenizer.Check | src/lib.rs:266-272 | fails exactly on a null analyzer result, and the error is the analyzer's last-error text. |
| Tokenizer.CopySurface | src/lib.rs:239-249 | the copied buffer has `length` bytes, and each one equals the surface byte at the same index. |
| Tokenizer.Tokenize | src/lib.rs:193-264 | a null head returns SQLITE_ERROR with no callback. Otherwise outcome and callback trace equal `Walk` over the list from cursor 0. With known categories they equal `Drive` over `Layout(Emittable(nodes), 0)`: the boundary-free tokens, laid out contiguously from 0, delivered until the first refusal. The `i32` cursor never overflows while the emitted lengths fit in `c_int`. |
| TokenStream.EmittableAppend | src/lib.rs:229-237 | filtering distributes over concatenation of node lists. |
| TokenStream.EmittableMembers | src/lib.rs:229-237 | a node is emitted iff it is in the list and is not BOS/EOS. |
| TokenStream.EmittableCopyable | src/lib.rs:239-249 | every emitted node has at least `length` surface bytes to copy. |
| TokenStream.SpanAppend | src/lib.rs:259 | total length is additive over concatenation. |
| TokenStream.LayoutAt | src/lib.rs:239-260 | token k has flags 0 and the first `length` surface bytes of node k. Its start is the base offset plus the lengths of the nodes before it, and its end is start + length. |
| TokenStream.LayoutBounds | src/lib.rs:253-260 | token k ends at the base plus the lengths of nodes 0..k, and lies within [base, base + total length]. |
| TokenStream.LayoutContiguous | src/lib.rs:228-260 | the first token starts at the base offset, each token starts where the previous one ended, and the last one ends at base + total length. |
| TokenStream.DriveStatus | src/lib.rs:253-263 | delivery always returns a status. The trace is a prefix of the tokens, and every call before the last was accepted. OK means all tokens were delivered. Otherwise the status is exactly what the last call returned. |
| TokenStream.DriveStopsAtFirstRefusal | src/lib.rs:253-257 | if call k is the first refusal, delivery returns its status after exactly k tokens. |
| TokenStream.DriveAllAccepted | src/lib.rs:253-263 | if every call accepts, delivery returns SQLITE_OK having delivered every token. |
| TokenStream.WalkTrace | src/lib.rs:228-263 | the loop only appends to the delivered tokens, at most one per non-boundary node. It has appended one for every non-boundary node when it ends with SQLITE_OK, and it panics only on a byte that is no MeCab node category. |
| TokenStream.Tokenize | src/lib.rs:219-263 | a null node list returns SQLITE_ERROR with no token delivered. Otherwise no more tokens are delivered than there are non-boundary nodes, all of them on SQLITE_OK, and a panic carries an unknown category byte. |
| TokenStream.WalkUntil | src/lib.rs:229-263 | walking up to the first unknown category at position p gives delivery over the emitted prefix, and then a panic on `nodes[p].stat` (or OK at the end of the list) if every prefix token was accepted. |
| TokenStream.WalkComposes | src/lib.rs:228-263 | with known categories, the loop from cursor 0 equals filter, then layout, then delivery. |
| TokenStream.WalkIgnoresRest | src/lib.rs:229-261 | once the loop stops early within a prefix of the list, nodes after that prefix change nothing. |
| Properties.Tokens | src/lib.rs:228-260 | there is one token per non-boundary node. |
| Properties.TokensShape | src/lib.rs:228-260 | token k comes from the k-th non-boundary node. It has flags 0, the first `length` surface bytes, and end == start + length, and it lies within [0, total]. The first starts at 0, and the spans are contiguous. |
| Properties.TokenizeTokens | src/lib.rs:193-264 | the same facts hold for every token the callback actually receives, and no more tokens are delivered than there are non-boundary nodes. |
| Properties.TokenizeAllAccepted | src/lib.rs:253-263 | if every callback returns OK, the result is SQLITE_OK and the call count equals the number of non-BOS/EOS nodes. |
| Properties.TokenizeStopsAtFirstRefusal | src/lib.rs:253-257 | if the first non-OK status comes on call k, that status is returned exactly, after exactly k calls. |
| Properties.TokenizeOutcome | src/lib.rs:253-263 | the result is SQLITE_OK exactly when all tokens were delivered and the last was accepted. A non-OK result is the status of the last call made. |
| Properties.InsertBoundary | src/lib.rs:232-235 | inserting a BOS/EOS node leaves the emitted nodes unchanged. |
| Properties.BoundaryNodeIsInvisible | src/lib.rs:232-235 | a BOS/EOS node anywhere in the list changes neither the outcome nor any token or offset. |
| Properties.BoundariesOnly | src/lib.rs:229-235 | a list of only BOS/EOS nodes returns SQLITE_OK without any callback. |
| Properties.TokenizePanics | src/lib.rs:230 | at the first node of unknown category the call panics with that byte, after delivering the preceding tokens, unless one of them was refused. |
| Properties.KnownNeverPanics | src/lib.rs:230 | with only known categories the call always returns a status. |
| Properties.TokenizeIgnoresRest | src/lib.rs:255-257 | no node after an early return is visited. |
| Properties.TwoMorphemes | src/lib.rs:193-264 | BOS, "す" (3 bytes), "も" (3 bytes), EOS with an accepting host gives SQLITE_OK and exactly the tokens [0,3) and [3,6) with those bytes. |
| Lifecycle.Analyzer.New | src/lib.rs:159-161 | `mecab_new` hands out a fresh instance that was not alive before, or null. |
| Lifecycle.Analyzer.Destroy | src/lib.rs:132-135 | `mecab_destroy` retires a live instance exactly once. |
| Lifecycle.TokenizerContext.constructor | src/lib.rs:159-161 | the context owns the handle `mecab_new` returned. |
| Lifecycle.TokenizerContext.Drop | src/lib.rs:128-138 | dropping destroys the owned instance when the handle is non-null, and does nothing to the analyzer when it is null. |
| Lifecycle.Create | src/lib.rs:144-178 | always returns SQLITE_OK, also when `mecab_new` returned null. The new context owns a fresh instance or null, and nothing is destroyed. |
| Lifecycle.Delete | src/lib.rs:184-189 | drops the context, destroying its instance if it has one. |
| Lifecycle.TableLifetime | src/lib.rs:144-189 | `create` then `delete` leaves the set of live instances unchanged, and destroys an instance exactly when one was constructed. |
| Lifecycle.TwoTables | src/lib.rs:159-161 | two tables get distinct contexts that never share an analyzer instance. |

## Left out

- Tokenizer.Tokenize: requires the emitted lengths to sum to at most `i32::MAX`. It does not model `c_int` overflow of the offset cursor (a debug build would panic, a release build would wrap).
- Tokenizer.Tokenize: the offsets are the running sum of node `length`. When MeCab skips white space before a morpheme (`rlength` greater than `length`), they are not positions in the input text. The model states what the code computes.
- The `to_str().unwrap()` panics on input text, feature and surface that are not UTF-8 (src/lib.rs:215-216, 241, 250) are left out. Those strings feed only the log lines.
- The `xToken.unwrap()` panic on a missing callback, and the ignored `pCtx` and `flags` arguments, are left out.
- The MeCab and SQLite foreign calls are parameters: `mecab_sparse_tonode2` (the node list), `mecab_strerror` (the error text), `mecab_new` (whether it accepted the arguments) and the host callback. Calling `tokenize` with a null analyzer handle is up to MeCab and is not modelled.
- `Box::into_raw`, `Box::from_raw` and the raw-pointer casts are modelled as object ownership. Each context is deleted once, which is how SQLite drives the tokenizer.
- Lifecycle.Create: the null-handle case assumes `mecab_dictionary_info` returns (null) when given the null handle `mecab_new` produced (src/lib.rs:163), rather than faulting. That call is foreign MeCab code, not modelled here.
- The dictionary-info logging loop in `create` (src/lib.rs:163-173) and all tracing output are left out.
- The extension entry point `sqlite3_ftsmecabrs_init`, `fts5_api_from_db` and `StatementWrapper` (src/lib.rs:32-122) are left out. They are registration plumbing over SQLite calls; the entry point returns SQLITE_ERROR when no `fts5_api` can be obtained.
- build.rs and src/ffi.rs are not part of this model. The constants they bind are written out in `Ffi`.
