/** The category of a MeCab node, decoded from the raw `stat` byte. */
module NodeStats {
  import opened Ffi

  datatype NodeStat = NOR | UNK | BOS | EOS | EON

  /** The `MECAB_*_NODE` code a category stands for. */
  function Code(s: NodeStat): byte
  {
    match s
    case NOR => MECAB_NOR_NODE
    case UNK => MECAB_UNK_NODE
    case BOS => MECAB_BOS_NODE
    case EOS => MECAB_EOS_NODE
    case EON => MECAB_EON_NODE
  }

  /** True for the five codes MeCab defines. */
  predicate IsKnown(value: byte)
  {
    value == MECAB_NOR_NODE || value == MECAB_UNK_NODE || value == MECAB_BOS_NODE
    || value == MECAB_EOS_NODE || value == MECAB_EON_NODE
  }

  /** `NodeStat::try_from`: decodes a known code, hands any other code back unchanged. */
  function TryFrom(value: byte): (r: Result<NodeStat, byte>)
    ensures r.Success? <==> IsKnown(value)
    ensures r.Success? ==> Code(r.value) == value
    ensures r.Failure? ==> r.error == value
  {
    if value == MECAB_NOR_NODE then Success(NOR)
    else if value == MECAB_UNK_NODE then Success(UNK)
    else if value == MECAB_BOS_NODE then Success(BOS)
    else if value == MECAB_EOS_NODE then Success(EOS)
    else if value == MECAB_EON_NODE then Success(EON)
    else Failure(value)
  }

  /** Decoding the code of a category gives that category back. */
  lemma TryFromCode(s: NodeStat)
    ensures TryFrom(Code(s)) == Success(s)
  {
  }

  /** `impl Display for NodeStat`: the C macro name of the category. */
  function Name(s: NodeStat): (r: string)
    ensures |r| == 14 && r[..6] == "MECAB_" && r[9..] == "_NODE"
  {
    match s
    case NOR => "MECAB_NOR_NODE"
    case UNK => "MECAB_UNK_NODE"
    case BOS => "MECAB_BOS_NODE"
    case EOS => "MECAB_EOS_NODE"
    case EON => "MECAB_EON_NODE"
  }

  /** Distinct categories are displayed differently. */
  lemma NameInjective(s: NodeStat, t: NodeStat)
    ensures Name(s) == Name(t) ==> s == t
  {
    if Name(s) == Name(t) {
      assert Name(s)[6] == Name(t)[6] && Name(s)[8] == Name(t)[8];
    }
  }
}
