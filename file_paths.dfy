/**
 * The two `java.io.File` path operations the fingerprints use: `relativeTo(base)`
 * and `invariantSeparatorsPath`, on paths that are already normalised.
 */
module FilePaths {
  import opened Text
  import opened Disk

  /** No segment holds a line break. */
  predicate PlainPath(p: Path) {
    forall i :: 0 <= i < |p| ==> NoLineBreak(p[i])
  }

  /** The number of leading segments `a` and `b` share. */
  function CommonPrefixLength(a: Path, b: Path): (k: nat)
    ensures k <= |a| && k <= |b| && a[..k] == b[..k]
    ensures k < |a| && k < |b| ==> a[k] != b[k]
  {
    if |a| == 0 || |b| == 0 || a[0] != b[0] then 0
    else
      var k := CommonPrefixLength(a[1..], b[1..]);
      assert a[..k + 1] == [a[0]] + a[1..][..k];
      assert b[..k + 1] == [b[0]] + b[1..][..k];
      k + 1
  }

  /** `f.relativeTo(base)`: up (`..`) out of what `base` does not share with `f`, then down to `f`. */
  function RelativeTo(f: Path, base: Path): (r: Path)
    ensures var k := CommonPrefixLength(f, base);
      |r| == |base| - k + |f| - k
      && (forall i :: 0 <= i < |base| - k ==> r[i] == "..")
      && r[|base| - k..] == f[k..]
  {
    var k := CommonPrefixLength(f, base);
    seq(|base| - k, _ => "..") + f[k..]
  }

  /** A path inside `base` is relative to it by the segments below `base`. */
  lemma RelativeToUnder(f: Path, base: Path)
    requires Under(f, base)
    ensures RelativeTo(f, base) == f[|base|..]
  {
    CommonPrefixOfUnder(f, base);
  }

  lemma {:induction false} CommonPrefixOfUnder(f: Path, base: Path)
    requires Under(f, base)
    ensures CommonPrefixLength(f, base) == |base|
  {
    if |base| > 0 {
      assert f[0] == f[..|base|][0] == base[0];
      assert f[1..][..|base| - 1] == f[..|base|][1..];
      CommonPrefixOfUnder(f[1..], base[1..]);
    }
  }

  lemma PlainAppend(a: Path, b: Path)
    requires PlainPath(a) && PlainPath(b)
    ensures PlainPath(a + b)
  {
    forall i | 0 <= i < |a + b|
      ensures NoLineBreak((a + b)[i])
    {
      if i >= |a| {
        assert (a + b)[i] == b[i - |a|];
      }
    }
  }

  /** Relativising adds only `..` segments, which hold no line break. */
  lemma RelativeToPlain(f: Path, base: Path)
    requires PlainPath(f)
    ensures PlainPath(RelativeTo(f, base))
  {
    var k := CommonPrefixLength(f, base);
    var up: Path := seq(|base| - k, _ => "..");
    assert PlainPath(up);
    assert PlainPath(f[k..]);
    PlainAppend(up, f[k..]);
  }

  /** `invariantSeparatorsPath`: the segments joined with `/`. */
  function InvariantSeparatorsPath(p: Path): string {
    Join(p, "/")
  }

  /** A path whose segments hold no line break is written on one line. */
  lemma {:induction false} InvariantPathPlain(p: Path)
    requires PlainPath(p)
    ensures NoLineBreak(InvariantSeparatorsPath(p))
  {
    if |p| > 1 {
      InvariantPathPlain(p[1..]);
      var t := InvariantSeparatorsPath(p[1..]);
      assert InvariantSeparatorsPath(p) == p[0] + "/" + t;
      forall i | 0 <= i < |p[0] + "/" + t|
        ensures !IsLineBreak((p[0] + "/" + t)[i])
      {
        if i > |p[0]| {
          assert (p[0] + "/" + t)[i] == t[i - |p[0]| - 1];
        }
      }
    }
  }
}
