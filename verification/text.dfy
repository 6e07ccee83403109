/** Byte strings as the decoder sees them: C `char` buffers read from the key
    file and the ciphertext file, and the search primitives the decoder's
    loops perform over them. */
module Text {

  /** One C `char` of a file buffer, read as an unsigned octet. */
  type byte = x: int | 0 <= x < 256

  const NUL: byte := 0
  const NEWLINE: byte := 10
  const SPACE: byte := 32
  const COMMA: byte := 44

  /** The outcome of a step that can fail: the decoder's fatal exits. */
  datatype Result<T, E> = Success(value: T) | Failure(error: E)

  /** Index of the first `x` in `s`, or `|s|` when there is none: the length
      of the maximal run of bytes before the first `x`. With `x == NUL` this
      is `strlen` of a C string held in `s`. */
  function FirstIndex(s: seq<byte>, x: byte): (k: nat)
    ensures k <= |s|
    ensures forall j :: 0 <= j < k ==> s[j] != x
    ensures k < |s| ==> s[k] == x
    decreases |s|
  {
    if s == [] then 0
    else if s[0] == x then 0
    else 1 + FirstIndex(s[1..], x)
  }

  /** Index of the last `x` in `s`, or -1 when there is none. */
  function LastIndex(s: seq<byte>, x: byte): (k: int)
    ensures -1 <= k < |s|
    ensures 0 <= k ==> s[k] == x
    ensures forall j :: k < j < |s| ==> s[j] != x
    decreases |s|
  {
    if s == [] then -1
    else if s[|s| - 1] == x then |s| - 1
    else LastIndex(s[..|s| - 1], x)
  }

  /** The first index is determined by the bytes before it and the byte at it. */
  lemma FirstIndexUnique(s: seq<byte>, x: byte, k: nat)
    requires k <= |s|
    requires forall j :: 0 <= j < k ==> s[j] != x
    requires k < |s| ==> s[k] == x
    ensures FirstIndex(s, x) == k
  {
  }
}
