/** The fingerprint record and the content-equality predicate shared by both
    commands (`FileFingerprint` / `firmedFile`, `FilesAreTheSame`, `min`). */
module Comparisons {

  datatype Fingerprint = Fingerprint(path: string, size: nat, hash: string)

  /** Two fingerprints denote the same content when hash and size agree. */
  predicate FilesAreTheSame(file1: Fingerprint, file2: Fingerprint): (r: bool)
    ensures r <==> file1.(path := "") == file2.(path := "")
  {
    if file1.hash != file2.hash then false
    else if file1.size != file2.size then false
    else true
  }

  /** Being "the same" is equality once the path is disregarded. */
  lemma SameIsEqualityUpToPath(a: Fingerprint, b: Fingerprint)
    ensures FilesAreTheSame(a, b) <==> a.(path := b.path) == b
  {
  }

  /** Renaming either side never changes the verdict. */
  lemma PathIrrelevant(a: Fingerprint, b: Fingerprint, p: string, q: string)
    ensures FilesAreTheSame(a, b) <==> FilesAreTheSame(a.(path := p), b.(path := q))
  {
  }

  lemma SameIsEquivalence(a: Fingerprint, b: Fingerprint, c: Fingerprint)
    ensures FilesAreTheSame(a, a)
    ensures FilesAreTheSame(a, b) ==> FilesAreTheSame(b, a)
    ensures FilesAreTheSame(a, b) && FilesAreTheSame(b, c) ==> FilesAreTheSame(a, c)
  {
  }

  /** The smaller argument; on a tie the second, which is the same value. */
  function Min(x: int, y: int): (r: int)
    ensures r <= x && r <= y
    ensures r == x || r == y
  {
    if x < y then x else y
  }
}
