/** C-level types and status codes shared by the SQLite FTS5 host and the MeCab analyzer. */
module Ffi {

  /** `unsigned char` (MeCab's node category `stat`, raw text bytes). */
  type byte = x: int | 0 <= x < 0x100

  /** `unsigned short` (MeCab's node `length`). */
  type u16 = x: int | 0 <= x < 0x1_0000

  /** `c_int`, the width of every offset and status the FTS5 callback sees. */
  type i32 = x: int | -0x8000_0000 <= x < 0x8000_0000

  const I32_MAX: int := 0x7fff_ffff

  /** SQLite result codes. */
  const SQLITE_OK: int := 0
  const SQLITE_ERROR: int := 1

  /** MeCab node categories (`MECAB_*_NODE` in mecab.h). */
  const MECAB_NOR_NODE: byte := 0
  const MECAB_UNK_NODE: byte := 1
  const MECAB_BOS_NODE: byte := 2
  const MECAB_EOS_NODE: byte := 3
  const MECAB_EON_NODE: byte := 4

  /** A nullable pointer. */
  datatype Option<+T> = None | Some(value: T)

  /** Rust's `Result<T, E>`. */
  datatype Result<+T, +E> = Success(value: T) | Failure(error: E)
}
