/**
 * The parts of Node's POSIX `path` module the backend relies on:
 * `path.basename`, `path.parse(p).name` and `path.extname`.
 * Trailing '/'s are ignored. A base name is split at its last '.', except
 * when that dot is the first character (".profile") or the base name is "..".
 */
module NodePath {
  import opened Types

  /** Index of the last occurrence of `c` in `s`. */
  function LastIndexOf(s: string, c: char): (r: Option<nat>)
    ensures r.None? <==> c !in s
    ensures r.Some? ==> r.value < |s| && s[r.value] == c
    ensures r.Some? ==> forall j :: r.value < j < |s| ==> s[j] != c
  {
    if |s| == 0 then None
    else if s[|s| - 1] == c then Some(|s| - 1)
    else LastIndexOf(s[..|s| - 1], c)
  }

  /** The path without its trailing '/' characters. */
  function StripTrailingSlashes(p: string): (r: string)
    ensures |r| <= |p| && r == p[..|r|]
    ensures forall j :: |r| <= j < |p| ==> p[j] == '/'
    ensures r == [] || r[|r| - 1] != '/'
  {
    if |p| > 0 && p[|p| - 1] == '/' then StripTrailingSlashes(p[..|p| - 1]) else p
  }

  /** The text after the last '/'. */
  function LastSegment(p: string): (r: string)
    ensures '/' !in r
    ensures |r| <= |p| && r == p[|p| - |r|..]
    ensures |r| < |p| ==> p[|p| - |r| - 1] == '/'
  {
    if '/' in p then LastSegment(p[1..]) else p
  }

  /** `path.basename(p)`: the last segment once the trailing '/'s are
      ignored; empty exactly when the path is nothing but '/'s. */
  function BaseName(p: string): (r: string)
    ensures '/' !in r
    ensures var t := StripTrailingSlashes(p);
      |r| <= |t| && r == t[|t| - |r|..] && (|r| < |t| ==> t[|t| - |r| - 1] == '/')
    ensures r == [] <==> forall j :: 0 <= j < |p| ==> p[j] == '/'
  {
    var t := StripTrailingSlashes(p);
    if t == [] then
      assert forall j :: 0 <= j < |p| ==> p[j] == '/';
      LastSegment(t)
    else
      assert p[|t| - 1] != '/';
      LastSegment(t)
  }

  /** A trailing '/' changes no base name. */
  lemma BaseNameIgnoresTrailingSlash(p: string)
    ensures BaseName(p + "/") == BaseName(p)
  {
    assert (p + "/")[..|p|] == p;
  }

  /** The segment after the last '/' is the last segment. */
  lemma {:induction false} LastSegmentOf(dir: string, file: string)
    requires '/' !in file
    ensures LastSegment(dir + "/" + file) == file
  {
    var p := dir + "/" + file;
    assert p[|dir|] == '/';
    if |dir| == 0 {
      assert p[1..] == file;
    } else {
      assert p[1..] == dir[1..] + "/" + file;
      LastSegmentOf(dir[1..], file);
    }
  }

  /** `basename(dir + "/" + file)` is `file`, with or without a trailing '/'. */
  lemma BaseNameOfPath(dir: string, file: string)
    requires '/' !in file && file != []
    ensures BaseName(dir + "/" + file) == file
    ensures BaseName(dir + "/" + file + "/") == file
  {
    var p := dir + "/" + file;
    assert p[|p| - 1] == file[|file| - 1];
    assert StripTrailingSlashes(p) == p;
    LastSegmentOf(dir, file);
    BaseNameIgnoresTrailingSlash(p);
  }

  /** A trailing '/' changes neither the name nor the extension. */
  lemma NameExtIgnoreTrailingSlash(p: string)
    ensures Name(p + "/") == Name(p) && ExtName(p + "/") == ExtName(p)
  {
    BaseNameIgnoresTrailingSlash(p);
  }

  /** A path without '/' is its own base name. */
  lemma BaseNameOfName(p: string)
    requires '/' !in p
    ensures BaseName(p) == p
  {
    assert StripTrailingSlashes(p) == p;
  }

  /** Position of the dot that starts the extension of a base name, if any. */
  function ExtensionDot(base: string): (r: Option<nat>)
    ensures r.Some? ==> 0 < r.value < |base| && base[r.value] == '.'
    ensures r.Some? ==> forall j :: r.value < j < |base| ==> base[j] != '.'
  {
    match LastIndexOf(base, '.')
    case None => None
    case Some(d) => if d == 0 || base == ".." then None else Some(d)
  }

  /** `path.parse(p).name`: the base name without its extension. */
  function Name(p: string): string {
    var base := BaseName(p);
    match ExtensionDot(base)
    case None => base
    case Some(d) => base[..d]
  }

  /** `path.extname(p)`: the extension, dot included, or "". */
  function ExtName(p: string): string {
    var base := BaseName(p);
    match ExtensionDot(base)
    case None => []
    case Some(d) => base[d..]
  }

  /** `name` and `ext` split the base name: together they give it back, the
      extension is empty or a dot followed by dot-free text, and a name is
      only empty when the base name is. */
  lemma NameExtSplitBase(p: string)
    ensures Name(p) + ExtName(p) == BaseName(p)
    ensures ExtName(p) == [] || (ExtName(p)[0] == '.' && '.' !in ExtName(p)[1..])
    ensures Name(p) == [] ==> BaseName(p) == []
  {
    var base := BaseName(p);
    match ExtensionDot(base)
    case None =>
    case Some(d) =>
      SplitAtDot(base, d);
  }

  /** Splitting at the last dot gives a non-empty name and a dot followed by dot-free text. */
  lemma SplitAtDot(base: string, d: nat)
    requires 0 < d < |base| && base[d] == '.'
    requires forall j :: d < j < |base| ==> base[j] != '.'
    ensures base[..d] + base[d..] == base && base[..d] != []
    ensures base[d..][0] == '.' && '.' !in base[d..][1..]
  {
    assert base == base[..d] + base[d..];
    assert forall j :: 0 <= j < |base[d..]| - 1 ==> base[d..][1..][j] == base[d + 1 + j];
  }

  /** A base name `stem.ext` with a non-empty, dot-free extension splits at that dot. */
  lemma {:induction false} SplitAtLastDot(stem: string, ext: string)
    requires |stem| > 0 && |ext| > 0 && '/' !in stem && '/' !in ext && '.' !in ext
    ensures ExtName(stem + "." + ext) == "." + ext
    ensures Name(stem + "." + ext) == stem
  {
    var p := stem + "." + ext;
    var d := |stem|;
    assert '/' !in p by {
      forall i | 0 <= i < |p| ensures p[i] != '/' {
        if i < d { assert p[i] == stem[i]; }
        else if i > d { assert p[i] == ext[i - d - 1]; }
      }
    }
    BaseNameOfName(p);
    assert p[d] == '.';
    assert forall j :: d < j < |p| ==> p[j] == ext[j - d - 1];
    assert LastIndexOf(p, '.') == Some(d);
    assert |p| > 2;
    assert p[d..] == "." + ext;
    assert p[..d] == stem;
  }
}
