/**
  The operator table of util/uriTemplate.js: the leading character of an
  expression selects how its variables are prefixed, separated, named and
  encoded. It is the table of Appendix A of RFC 6570; the characters
  `= , ! @ |` are the operators section 2.2 of RFC 6570 reserves for
  future extensions.
 */
module Operators {
  import opened Wrappers

  /** Which collaborator encoder an operator uses: `uriEncoder.encode` or `uriEncoder.encodeURL`. */
  datatype Mode = Strict | ReservedPreserving

  /**
    The percent-encoding collaborator, which is not part of this model:
    `encode` escapes everything outside the RFC 3986 unreserved set,
    `encodeURL` also keeps the reserved set, `decode` undoes percent-escapes.
   */
  datatype Codec = Codec(encode: string -> string, encodeURL: string -> string, decode: string -> string)

  function Encoder(codec: Codec, mode: Mode): (r: string -> string) {
    match mode
    case Strict => codec.encode
    case ReservedPreserving => codec.encodeURL
  }

  /** One operator record: `first`, `separator`, `named`, `empty` and the encoder. */
  datatype Op = Op(first: string, separator: string, named: bool, empty: string, mode: Mode)

  /** A table entry: a usable operator, or one marked `reserved`. */
  datatype Entry = Active(op: Op) | Reserved

  /** The entry under the empty key, used when an expression has no operator character. */
  const DefaultOp: Op := Op("", ",", false, "", Strict)

  const ActiveKeys: set<string> := {"", "+", "#", ".", "/", ";", "?", "&"}
  const ReservedKeys: set<string> := {"=", ",", "!", "@", "|"}

  /** `operations[key]`: the entry stored under `key`, or `None` when the table has none. */
  function Lookup(key: string): (e: Option<Entry>)
    ensures e.Some? <==> key in ActiveKeys + ReservedKeys
    ensures e == Some(Reserved) <==> key in ReservedKeys
    // every named operator encodes with the strict encoder, so names are always strictly encoded
    ensures e.Some? && e.value.Active? && e.value.op.named ==> e.value.op.mode == Strict
    // only `+` and `#` keep reserved characters
    ensures e.Some? && e.value.Active? ==> (e.value.op.mode == ReservedPreserving <==> key in {"+", "#"})
    // the prefix is the operator character itself, except for `+` and the default
    ensures e.Some? && e.value.Active? ==> e.value.op.first == if key == "+" then "" else key
  {
    match key
    case "" => Some(Active(DefaultOp))
    case "+" => Some(Active(Op("", ",", false, "", ReservedPreserving)))
    case "#" => Some(Active(Op("#", ",", false, "", ReservedPreserving)))
    case "." => Some(Active(Op(".", ".", false, "", Strict)))
    case "/" => Some(Active(Op("/", "/", false, "", Strict)))
    case ";" => Some(Active(Op(";", ";", true, "", Strict)))
    case "?" => Some(Active(Op("?", "&", true, "=", Strict)))
    case "&" => Some(Active(Op("&", "&", true, "=", Strict)))
    case "=" => Some(Reserved)
    case "," => Some(Reserved)
    case "!" => Some(Reserved)
    case "@" => Some(Reserved)
    case "|" => Some(Reserved)
    case _ => None
  }

  /**
    The entry an expression selects and the text left for its variables:
    a key found in the table is stripped, anything else is kept and the
    default operator applies.
   */
  function Select(expr: string): (r: (Entry, string))
    ensures r.0 == Reserved <==> |expr| > 0 && expr[..1] in ReservedKeys
    ensures |expr| > 0 && expr[..1] in ActiveKeys + ReservedKeys ==> r.1 == expr[1..]
    ensures !(|expr| > 0 && expr[..1] in ActiveKeys + ReservedKeys) ==> r == (Active(DefaultOp), expr)
  {
    var key := if |expr| > 0 then expr[..1] else "";
    match Lookup(key)
    case Some(entry) => (entry, expr[|key|..])
    case None => (Active(DefaultOp), expr)
  }
}
