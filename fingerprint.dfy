/** `calculate_file_hash`: the content fingerprint is the MD5 digest of the
    first mebibyte of a file followed by its last mebibyte. MD5 itself is not
    modelled: it is the parameter `md5`, and what is modelled is which bytes
    reach it and in which order. */
module Fingerprint {
  import opened Maybe
  import opened Disk

  const MiB: nat := 1024 * 1024

  /** `f.read(k)` at position `pos`: up to `k` bytes, fewer at the end of the file. */
  function ReadAt(content: seq<Byte>, pos: nat, k: nat): (r: seq<Byte>)
    requires pos <= |content|
    ensures |r| <= k && pos + |r| <= |content| && r == content[pos..pos + |r|]
    ensures pos + k <= |content| ==> |r| == k
    ensures pos + k > |content| ==> pos + |r| == |content|
  {
    content[pos..if pos + k <= |content| then pos + k else |content|]
  }

  /** `f.seek(offset, os.SEEK_END)` with `offset <= 0`: the new position, or
      `None` when it would fall before the start of the file, where the
      operating system refuses the seek with `OSError`. */
  function SeekFromEnd(size: nat, offset: int): (pos: Option<nat>)
    requires offset <= 0
    ensures pos.None? <==> size + offset < 0
    ensures pos.Some? ==> pos.value == size + offset && pos.value <= size
  {
    if size + offset < 0 then None else Some(size + offset)
  }

  /** Everything passed to `md5_hash.update`, concatenated: the head read and,
      when the backward seek succeeded, the tail read. (`update` with empty
      bytes is skipped by the code and would change nothing anyway.) */
  function DigestInput(content: seq<Byte>): (fed: seq<Byte>)
    ensures |fed| == if |content| < MiB then |content| else 2 * MiB
  {
    var head := ReadAt(content, 0, MiB);
    var tail := match SeekFromEnd(|content|, -(MiB as int))
      case None => []
      case Some(pos) => ReadAt(content, pos, MiB);
    head + tail
  }

  /** The hexadecimal digest `calculate_file_hash` returns for readable bytes. */
  function FingerprintOf(md5: seq<Byte> -> string, content: seq<Byte>): string {
    md5(DigestInput(content))
  }

  /** What `calculate_file_hash` ends with: a digest, `None` when the file is
      missing at open time, or the `PermissionError` it lets escape. */
  datatype HashResult = Digest(hex: string) | NoFile | Escaped(error: Failure)

  function CalculateFileHash<P>(d: DiskState<P>, path: P, md5: seq<Byte> -> string): (h: HashResult)
    ensures h.NoFile? <==> path !in d.files
    ensures h.Escaped? <==> path in d.files && path in d.locked
    ensures h.Digest? ==> h.hex == FingerprintOf(md5, d.files[path].content)
  {
    if path !in d.files then NoFile
    else if path in d.locked then Escaped(Denied)
    else Digest(FingerprintOf(md5, d.files[path].content))
  }

  /** A file shorter than one mebibyte is hashed whole; from one mebibyte on,
      exactly its first and its last mebibyte are hashed, in that order. */
  lemma DigestInputShape(content: seq<Byte>)
    ensures |content| < MiB ==> DigestInput(content) == content
    ensures |content| >= MiB ==>
      DigestInput(content) == content[..MiB] + content[|content| - MiB..]
  {
    var n := |content|;
    if n < MiB {
      assert ReadAt(content, 0, MiB) == content;
    } else {
      assert ReadAt(content, 0, MiB) == content[..MiB];
      assert ReadAt(content, n - MiB, MiB) == content[n - MiB..];
    }
  }

  /** Between one and two mebibytes the two windows overlap: the middle bytes
      `content[n - MiB .. MiB]` are fed to the digest twice. */
  lemma WindowsOverlap(content: seq<Byte>, i: nat)
    requires MiB <= |content| < 2 * MiB
    requires |content| - MiB <= i < MiB
    ensures var fed := DigestInput(content);
      |fed| == 2 * MiB && fed[i] == content[i] && fed[MiB + i - (|content| - MiB)] == content[i]
  {
    DigestInputShape(content);
  }

  /** Two files that agree on their first and last mebibyte get the same
      fingerprint, whatever their middle bytes and their lengths. */
  lemma SameWindowsSameFingerprint(md5: seq<Byte> -> string, a: seq<Byte>, b: seq<Byte>)
    requires |a| >= MiB && |b| >= MiB
    requires a[..MiB] == b[..MiB] && a[|a| - MiB..] == b[|b| - MiB..]
    ensures FingerprintOf(md5, a) == FingerprintOf(md5, b)
  {
    DigestInputShape(a);
    DigestInputShape(b);
  }

  /** Small files are told apart by their whole content: below one mebibyte
      two files have equal digest input only when they are equal. */
  lemma SmallFilesHashedWhole(a: seq<Byte>, b: seq<Byte>)
    requires |a| < MiB && |b| < MiB
    ensures DigestInput(a) == DigestInput(b) <==> a == b
  {
    DigestInputShape(a);
    DigestInputShape(b);
  }

  /** All empty files share one fingerprint: that of the empty input. */
  lemma EmptyFilesShareFingerprint(md5: seq<Byte> -> string, a: seq<Byte>)
    requires |a| == 0
    ensures FingerprintOf(md5, a) == md5([])
  {
    DigestInputShape(a);
  }

  /** The accepted trade-off made concrete: a three-mebibyte file and a
      two-mebibyte file of zero bytes differ, yet share one fingerprint. */
  lemma DistinctFilesCanShareFingerprint(md5: seq<Byte> -> string)
    ensures var a := seq(3 * MiB, _ => 0 as Byte);
            var b := seq(2 * MiB, _ => 0 as Byte);
            a != b && FingerprintOf(md5, a) == FingerprintOf(md5, b)
  {
    var a := seq(3 * MiB, _ => 0 as Byte);
    var b := seq(2 * MiB, _ => 0 as Byte);
    assert |a| != |b|;
    assert a[..MiB] == b[..MiB];
    assert a[|a| - MiB..] == b[|b| - MiB..];
    SameWindowsSameFingerprint(md5, a, b);
  }
}
