/** Unix file names (`path/filepath`) and the name a rotated store is archived under. */
module Paths {
  import opened Evidence

  const SECOND: int := 1_000_000_000

  /** The whole second a time falls in; the division rounds down, as formatting does. */
  function Second(t: Time): int { t / SECOND }

  function ExtBefore(p: string, i: nat): (e: string)
    requires i <= |p|
    ensures |e| <= |p| && p[|p| - |e|..] == e
  {
    if i == 0 || p[i - 1] == '/' then "" else if p[i - 1] == '.' then p[i - 1..] else ExtBefore(p, i - 1)
  }

  /** `filepath.Ext`: the suffix of the last element from its last dot on. */
  function Ext(p: string): (e: string)
    ensures |e| <= |p| && p[|p| - |e|..] == e
  {
    ExtBefore(p, |p|)
  }

  function Stem(p: string): string { p[..|p| - |Ext(p)|] }

  function LastElement(p: string, i: nat): string
    requires i <= |p|
  {
    if i == 0 || p[i - 1] == '/' then p[i..] else LastElement(p, i - 1)
  }

  function TrimSlashes(p: string): string {
    if p != "" && p[|p| - 1] == '/' then TrimSlashes(p[..|p| - 1]) else p
  }

  /** `filepath.Base`. */
  function Base(p: string): string {
    if p == "" then "."
    else if TrimSlashes(p) == "" then "/"
    else LastElement(TrimSlashes(p), |TrimSlashes(p)|)
  }

  function ArchiveName(c: Codec, path: string, now: Time): string {
    Stem(path) + "-" + c.stamp(Second(now)) + Ext(path)
  }

  lemma {:induction false} ExtScan(p: string, k: nat, i: nat)
    requires k <= i <= |p| && '.' !in p[k..i] && '/' !in p[k..i]
    ensures ExtBefore(p, i) == ExtBefore(p, k)
    decreases i
  {
    if k < i {
      assert p[i - 1] == p[k..i][i - 1 - k] && p[k..i - 1] == p[k..i][..i - 1 - k];
      ExtScan(p, k, i - 1);
    }
  }

  /** The time goes before the extension, which starts at the last dot. */
  lemma ArchiveNameMeans(c: Codec, stem: string, ext: string, now: Time)
    requires '.' !in ext && '/' !in ext
    ensures Ext(stem + "." + ext) == "." + ext
    ensures ArchiveName(c, stem + "." + ext, now) == stem + "-" + c.stamp(now / 1_000_000_000) + "." + ext
  {
    ExtAfterDot(stem, ext);
    WholeSecond(now);
    hide Ext, Stem, Second;
    Regroup(stem + "-" + c.stamp(Second(now)), ext);
  }

  lemma ExtAfterDot(stem: string, ext: string)
    requires '.' !in ext && '/' !in ext
    ensures Ext(stem + "." + ext) == "." + ext && Stem(stem + "." + ext) == stem
  {
    var p := stem + "." + ext;
    DotSplits(stem, ext);
    ExtScan(p, |stem| + 1, |p|);
  }

  lemma DotSplits(stem: string, ext: string)
    ensures var p := stem + "." + ext;
            && p[|stem| + 1..|p|] == ext && p[|stem|] == '.' && p[|stem|..] == "." + ext
            && p[..|p| - |"." + ext|] == stem
  {
  }

  lemma Regroup(a: string, b: string)
    ensures a + ("." + b) == a + "." + b
  {
  }

  lemma WholeSecond(t: Time)
    ensures Second(t) == t / 1_000_000_000
  {
  }

  /** Or at the end, when the last element has no dot. */
  lemma ArchiveNameWithoutExt(c: Codec, dir: string, name: string, now: Time)
    requires (dir == "" || dir[|dir| - 1] == '/') && '.' !in name && '/' !in name
    ensures Ext(dir + name) == ""
    ensures ArchiveName(c, dir + name, now) == dir + name + "-" + c.stamp(now / 1_000_000_000)
  {
    var p := dir + name;
    NoExt(dir, name);
    WholeSecond(now);
    hide Ext, Stem, Second;
    assert p + "-" + c.stamp(Second(now)) + "" == p + "-" + c.stamp(Second(now));
  }

  lemma NoExt(dir: string, name: string)
    requires (dir == "" || dir[|dir| - 1] == '/') && '.' !in name && '/' !in name
    ensures Ext(dir + name) == "" && Stem(dir + name) == dir + name
  {
    var p := dir + name;
    assert p[|dir|..|p|] == name;
    ExtScan(p, |dir|, |p|);
    assert dir != "" ==> p[|dir| - 1] == '/';
    assert p[..|p|] == p;
  }

  lemma {:induction false} LastElementScan(p: string, k: nat, i: nat)
    requires k <= i <= |p| && '/' !in p[k..i] && (k == 0 || p[k - 1] == '/')
    ensures LastElement(p, i) == p[k..]
    decreases i
  {
    if k < i {
      assert p[i - 1] == p[k..i][i - 1 - k] && p[k..i - 1] == p[k..i][..i - 1 - k];
      LastElementScan(p, k, i - 1);
    }
  }

  lemma {:induction false} SlashesTrimmed(p: string, slashes: string)
    requires forall i | 0 <= i < |slashes| :: slashes[i] == '/'
    ensures TrimSlashes(p + slashes) == TrimSlashes(p)
  {
    if slashes == "" {
      assert p + slashes == p;
    } else {
      assert (p + slashes)[..|p + slashes| - 1] == p + slashes[..|slashes| - 1];
      SlashesTrimmed(p, slashes[..|slashes| - 1]);
    }
  }

  /** The last element of a path, trailing slashes aside. */
  lemma BaseMeans(dir: string, name: string, slashes: string)
    requires (dir == "" || dir[|dir| - 1] == '/') && name != "" && '/' !in name
    requires forall i | 0 <= i < |slashes| :: slashes[i] == '/'
    ensures Base(dir + name + slashes) == name
  {
    var p := dir + name;
    SlashesTrimmed(p, slashes);
    assert name[|name| - 1] in name && p[|p| - 1] == name[|name| - 1];
    assert TrimSlashes(p) == p && p[|dir|..|p|] == name && (dir != "" ==> p[|dir| - 1] == '/');
    LastElementScan(p, |dir|, |p|);
    assert p + slashes != "" && dir + name + slashes == p + slashes;
  }

  /** An archive never has the store's own name, and two archives share a name exactly when they were
      made in the same second. */
  lemma ArchiveNames(c: Codec, path: string, t: Time, u: Time)
    requires Lawful(c)
    ensures ArchiveName(c, path, t) != path
    ensures ArchiveName(c, path, t) == ArchiveName(c, path, u) <==> Second(t) == Second(u)
  {
    hide Second, ExtBefore;
    var a, b := ArchiveName(c, path, t), ArchiveName(c, path, u);
    assert |a| == |Stem(path)| + 1 + |c.stamp(Second(t))| + |Ext(path)|;
    assert |path| == |Stem(path)| + |Ext(path)|;
    if a == b {
      assert |c.stamp(Second(t))| == |c.stamp(Second(u))|;
      var k := |Stem(path)| + 1;
      var x, y := c.stamp(Second(t)), c.stamp(Second(u));
      assert x == a[k..k + |x|] == b[k..k + |y|] == y;
    }
  }

  const MAX_DURATION: int := 0x7FFF_FFFF_FFFF_FFFF

  /** `now.Sub(first)`, which saturates at the ends of the 64-bit range. */
  function Elapsed(now: Time, first: Time): int {
    if now - first > MAX_DURATION then MAX_DURATION
    else if now - first < -MAX_DURATION - 1 then -MAX_DURATION - 1
    else now - first
  }
}
