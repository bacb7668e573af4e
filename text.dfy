// Engine string helpers and the optional-value type shared by every module.
module Text {

  /** An optional value, shared by every module of the model. */
  datatype Option<T> = None | Some(value: T)

  /** ASCII lower-casing, as used by the engine's case-insensitive comparison. */
  function Lower(c: char): char
  {
    if 'A' <= c <= 'Z' then (c as int + 32) as char else c
  }

  /** Q_stricmp(a, b) == 0: equal up to ASCII case. */
  predicate SameIgnoringCase(a: string, b: string)
  {
    |a| == |b| && forall i :: 0 <= i < |a| ==> Lower(a[i]) == Lower(b[i])
  }

  /** The comparison does not depend on argument order. */
  lemma SameIgnoringCaseSym(a: string, b: string)
    requires SameIgnoringCase(a, b)
    ensures SameIgnoringCase(b, a)
  {
  }

  /** Q_strncpyz(dest, src, destSize): at most destSize - 1 characters are kept. */
  function CopyBounded(src: string, destSize: int): (r: string)
    requires destSize >= 1
    ensures r <= src && |r| <= destSize - 1
    ensures |src| < destSize ==> r == src
    ensures |src| >= destSize ==> |r| == destSize - 1
  {
    if |src| < destSize then src else src[..destSize - 1]
  }
}
