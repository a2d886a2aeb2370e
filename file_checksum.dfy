/**
 * `File.checksum()`: the text that stands for one file in a publication's
 * fingerprint. An existing file is read and stands for the standard Base64
 * encoding of its SHA-256 digest; a file that does not exist stands for the
 * word `missing`.
 */
module FileChecksums {
  import opened Wrappers
  import opened Binary
  import opened Text
  import opened Disk
  import Base64

  /** A SHA-256 digest: 32 bytes. */
  type Digest = d: seq<byte> | |d| == 32 witness seq(32, _ => 0)

  /** What an absent file stands for. */
  const MissingChecksum: string := "missing"

  /** One word: not empty, without whitespace (so without line breaks) and without `:`. */
  predicate IsToken(s: string) {
    s != [] && forall i :: 0 <= i < |s| ==> !IsWhitespace(s[i]) && s[i] != ':'
  }

  /**
   * The checksum of the file whose state is `s`, given the digest function `sha256`.
   * Reading a directory fails, and then there is no checksum.
   */
  function Checksum(s: Stat, sha256: seq<byte> -> Digest): (r: Option<string>)
    ensures r.None? <==> s.Directory?
    ensures r == Some(MissingChecksum) <==> s.Missing?
    ensures s.Regular? ==> r.Some? && |r.value| == 44 && Base64.Decode(r.value) == sha256(s.data)
    ensures r.Some? ==> IsToken(r.value)
  {
    match s
    case Missing => Some(MissingChecksum)
    case Regular(data) =>
      Base64.DecodeEncode(sha256(data));
      EncodedDigest(sha256(data));
      Some(Base64.Encode(sha256(data)))
    case Directory => None
  }

  /** The encoding of a digest is a 44-character word. */
  lemma EncodedDigest(d: Digest)
    ensures |Base64.Encode(d)| == 44 && IsToken(Base64.Encode(d))
  {
    var e := Base64.Encode(d);
    forall i | 0 <= i < |e|
      ensures !IsWhitespace(e[i]) && e[i] != ':'
    {
      assert Base64.IsSymbol(e[i]) || e[i] == '=';
    }
  }

  /** Two files have the same checksum exactly when their contents have the same digest. */
  lemma ChecksumInjective(a: seq<byte>, b: seq<byte>, sha256: seq<byte> -> Digest)
    ensures Checksum(Regular(a), sha256) == Checksum(Regular(b), sha256) <==> sha256(a) == sha256(b)
  {
    Base64.EncodeInjective(sha256(a), sha256(b));
  }
}
