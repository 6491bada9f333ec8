/** What several modules share: options, bytes, error codes and two facts about texts. */
module Basics {

  datatype Option<+T> = None | Some(value: T)

  type Byte = b: int | 0 <= b < 256 witness 0

  const EPERM: int := 1
  const ENOENT: int := 2
  const EIO: int := 5
  const ENOMEM: int := 12
  const EACCES: int := 13
  const EBUSY: int := 16
  const EEXIST: int := 17
  const EINVAL: int := 22
  const EFBIG: int := 27
  const ENOSPC: int := 28
  const ENAMETOOLONG: int := 91
  const EDQUOT: int := 132

  lemma Assoc(a: string, b: string, c: string)
    ensures a + b + c == a + (b + c)
  {
  }

  lemma WholeAndNothing(text: string)
    ensures text[0..] == text && text[|text|..] == ""
    ensures "" + text == text && text + "" == text
  {
  }
}
