/**
 * The records that flow through ingestion and search: a LangChain
 * `Document` (text plus a metadata dict) and the hex digests stamped on it.
 */
module Documents {
  import opened PyDict

  /** The values the loaders and the pipeline put into metadata: strings and integers. */
  datatype MetaValue = Str(s: string) | Int(n: int)

  type Metadata = Dict<string, MetaValue>

  /** `Document(page_content, metadata)`, used for loaded pages and for chunks alike. */
  datatype Document = Document(pageContent: string, metadata: Metadata)

  newtype byte = x: int | 0 <= x < 256

  predicate IsHexDigit(c: char)
  {
    '0' <= c <= '9' || 'a' <= c <= 'f'
  }

  predicate IsHex(s: string)
  {
    forall i :: 0 <= i < |s| ==> IsHexDigit(s[i])
  }

  /** `hashlib.md5(...).hexdigest()`: 32 lower-case hex characters. */
  type Md5Hex = s: string | |s| == 32 && IsHex(s)
    witness seq(32, _ => '0')

  /** `hashlib.sha256(...).hexdigest()`: 64 lower-case hex characters. */
  type Sha256Hex = s: string | |s| == 64 && IsHex(s)
    witness seq(64, _ => '0')
}
