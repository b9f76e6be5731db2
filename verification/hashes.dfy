/** The fingerprinter: the MD5 digest of a file's leading bytes, rendered as
    lowercase hex. MD5 itself is a parameter: any function from byte strings
    to 16-byte sums. */
module Hashes {
  import opened Wrappers
  import opened Bytes
  import opened Hex
  import opened FileTree
  import opened Comparisons

  type Md5Sum = s: seq<byte> | |s| == 16
    witness [0, 0, 0, 0, 0, 0, 0, 0, 0, 0, 0, 0, 0, 0, 0, 0]

  type Md5 = seq<byte> -> Md5Sum

  /** How many leading bytes are hashed: `bytesForHash`, capped by the
      listed size. A zero `bytesForHash` hashes nothing. */
  function HeaderSize(bytesForHash: nat, info: FileEntry): (n: nat)
    ensures n <= bytesForHash && n <= info.listedSize
    ensures n == bytesForHash || n == info.listedSize
  {
    Min(bytesForHash, info.listedSize)
  }

  /** The hash of `folderPath/info.name`. Opening can fail; reading can
      fail, though only when at least one byte is asked for, since
      `io.ReadFull` never reads into an empty buffer; reading fewer than the
      header size bytes fails too (a short read is never hashed). */
  function FileHash(folderPath: string, info: FileEntry, bytesForHash: nat, md5: Md5): (r: Result<string, Error>)
    ensures r.Success? <==> && info.openable
                            && (info.readable || HeaderSize(bytesForHash, info) == 0)
                            && HeaderSize(bytesForHash, info) <= |info.content|
    ensures !info.openable ==> r == Failure(OpenFailed(Join(folderPath, info.name)))
    ensures info.openable && !info.readable && HeaderSize(bytesForHash, info) > 0 ==>
              r == Failure(ReadFailed(Join(folderPath, info.name)))
    ensures info.openable && info.readable && |info.content| < HeaderSize(bytesForHash, info) ==>
              r == Failure(if |info.content| == 0 then Eof else UnexpectedEof)
    ensures r.Success? ==> |r.value| == 32 && IsLowerHex(r.value)
    ensures r.Success? ==> Decode(r.value) == Some(md5(info.content[..HeaderSize(bytesForHash, info)]))
  {
    var headerSize := HeaderSize(bytesForHash, info);
    if !info.openable then
      Failure(OpenFailed(Join(folderPath, info.name)))
    else if !info.readable && headerSize > 0 then
      Failure(ReadFailed(Join(folderPath, info.name)))
    else if |info.content| < headerSize then
      Failure(if |info.content| == 0 then Eof else UnexpectedEof)
    else
      var header := info.content[..headerSize];
      DecodeEncode(md5(header));
      Success(Encode(md5(header)))
  }

  /** The hash depends on nothing but the hashed header: two files whose
      headers agree get the same hash, wherever they live, and equal hashes
      mean equal digests of the headers. */
  lemma HashDependsOnlyOnHeader(folder1: string, info1: FileEntry, folder2: string, info2: FileEntry,
                                bytesForHash: nat, md5: Md5)
    requires FileHash(folder1, info1, bytesForHash, md5).Success?
    requires FileHash(folder2, info2, bytesForHash, md5).Success?
    ensures FileHash(folder1, info1, bytesForHash, md5) == FileHash(folder2, info2, bytesForHash, md5)
            <==> md5(info1.content[..HeaderSize(bytesForHash, info1)])
                 == md5(info2.content[..HeaderSize(bytesForHash, info2)])
  {
    var h1 := info1.content[..HeaderSize(bytesForHash, info1)];
    var h2 := info2.content[..HeaderSize(bytesForHash, info2)];
    EncodeInjective(md5(h1), md5(h2));
  }

  /** With `bytesForHash = 0` every openable file hashes successfully, to
      the digest of the empty input, even one that cannot be read. */
  lemma ZeroBytesHashEmptyPrefix(folderPath: string, info: FileEntry, md5: Md5)
    requires info.openable
    ensures FileHash(folderPath, info, 0, md5) == Success(Encode(md5([])))
  {
    assert info.content[..0] == [];
  }

  /** Two files of the same listed size whose contents agree on the first
      `bytesForHash` bytes are the same file to the engine, even if they
      differ later: the false-positive window of partial hashing. */
  lemma AgreeingHeadersAreTheSame(folder1: string, info1: FileEntry, folder2: string, info2: FileEntry,
                                  bytesForHash: nat, md5: Md5)
    requires info1.openable && info2.openable
    requires info1.readable && info2.readable
    requires info1.listedSize == info2.listedSize
    requires HeaderSize(bytesForHash, info1) <= |info1.content|
    requires HeaderSize(bytesForHash, info2) <= |info2.content|
    requires info1.content[..HeaderSize(bytesForHash, info1)] == info2.content[..HeaderSize(bytesForHash, info2)]
    ensures FileHash(folder1, info1, bytesForHash, md5).Success?
    ensures FilesAreTheSame(
              Fingerprint(Join(folder1, info1.name), info1.listedSize, FileHash(folder1, info1, bytesForHash, md5).value),
              Fingerprint(Join(folder2, info2.name), info2.listedSize, FileHash(folder2, info2, bytesForHash, md5).value))
  {
    HashDependsOnlyOnHeader(folder1, info1, folder2, info2, bytesForHash, md5);
  }

  /** With `bytesForHash = 0` the hash carries no information about the
      content: any two openable files of the same listed size are the same
      file to the engine, whatever their bytes. */
  lemma ZeroBytesSameSizeIsSame(folder1: string, info1: FileEntry, folder2: string, info2: FileEntry, md5: Md5)
    requires info1.openable && info2.openable
    requires info1.listedSize == info2.listedSize
    ensures FileHash(folder1, info1, 0, md5).Success? && FileHash(folder2, info2, 0, md5).Success?
    ensures FilesAreTheSame(
              Fingerprint(Join(folder1, info1.name), info1.listedSize, FileHash(folder1, info1, 0, md5).value),
              Fingerprint(Join(folder2, info2.name), info2.listedSize, FileHash(folder2, info2, 0, md5).value))
  {
    ZeroBytesHashEmptyPrefix(folder1, info1, md5);
    ZeroBytesHashEmptyPrefix(folder2, info2, md5);
  }
}
