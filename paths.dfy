/** Paths under the public directory, built from `/`-separated segments. */
module Paths {
  import opened Text

  function Join(dir: Str, name: Str): Str
  {
    dir + "/" + name
  }

  /** The text after the last `/` (the whole string if it has none). */
  function NamePart(s: Str): Str
    decreases |s|
  {
    if s == [] || s[|s| - 1] == '/' then [] else NamePart(s[..|s| - 1]) + [s[|s| - 1]]
  }

  /** The text before the last `/` (empty if it has none). */
  function DirPart(s: Str): Str
    decreases |s|
  {
    if s == [] then [] else if s[|s| - 1] == '/' then s[..|s| - 1] else DirPart(s[..|s| - 1])
  }

  /** A path built with Join splits back into its directory and its name. */
  lemma {:induction false} SplitJoin(dir: Str, name: Str)
    requires '/' !in name
    ensures NamePart(Join(dir, name)) == name
    ensures DirPart(Join(dir, name)) == dir
    decreases |name|
  {
    var p := Join(dir, name);
    if name == [] {
      assert p == dir + "/";
      assert p[..|p| - 1] == dir;
    } else {
      var shorter, last := name[..|name| - 1], name[|name| - 1];
      assert name == shorter + [last];
      assert '/' !in shorter && last != '/';
      SplitJoin(dir, shorter);
      assert p == Join(dir, shorter) + [last];
      assert p[..|p| - 1] == Join(dir, shorter);
    }
  }

  lemma JoinInjective(a: Str, b: Str, c: Str, d: Str)
    requires '/' !in b && '/' !in d
    ensures Join(a, b) == Join(c, d) <==> a == c && b == d
  {
    SplitJoin(a, b);
    SplitJoin(c, d);
  }

  /** `assets/shared/blog/upload`: where freshly uploaded images wait. */
  const StagingDir: Str := Join(Join(Join("assets", "shared"), "blog"), "upload")

  /** `assets/shared/blog/upload/uploadThumbs`: thumbnails made at upload time. */
  const ThumbsDir: Str := Join(StagingDir, "uploadThumbs")

  /** `assets/<folder>/blog`: a scope's blog images. */
  function BlogDir(folder: Str): Str
  {
    Join(Join("assets", folder), "blog")
  }

  /** `assets/<folder>/blog/scaled`: a scope's scaled variants. */
  function ScaledDir(folder: Str): Str
  {
    Join(BlogDir(folder), "scaled")
  }

  /** The four kinds of directory never coincide, and a scope's directories are its own. */
  lemma DirsDistinct(f: Str, g: Str)
    ensures BlogDir(f) != StagingDir && BlogDir(f) != ThumbsDir && BlogDir(f) != ScaledDir(g)
    ensures ScaledDir(f) != StagingDir && ScaledDir(f) != ThumbsDir && StagingDir != ThumbsDir
    ensures '/' !in f && '/' !in g ==> (BlogDir(f) == BlogDir(g) <==> f == g)
    ensures '/' !in f && '/' !in g ==> (ScaledDir(f) == ScaledDir(g) <==> f == g)
  {
    SplitJoin(Join("assets", f), "blog");
    SplitJoin(BlogDir(g), "scaled");
    SplitJoin(BlogDir(f), "scaled");
    SplitJoin(Join(Join("assets", "shared"), "blog"), "upload");
    SplitJoin(StagingDir, "uploadThumbs");
    assert "scaled"[0] != "upload"[0];
    JoinInjective(Join("assets", f), "blog", Join("assets", g), "blog");
    JoinInjective(BlogDir(f), "scaled", BlogDir(g), "scaled");
    if '/' !in f && '/' !in g {
      JoinInjective("assets", f, "assets", g);
    }
  }
}
