/** The sibling style sheet convention of openFile and saveHTML: the CSS of
    `dir/name.ext` lives in `dir/name.css`, built from QFileInfo's
    absolutePath and baseName. */
module Paths {

  /** A path as the file dialogs hand it over: absolute, starting with `/`. */
  predicate IsAbsolute(p: string)
  {
    |p| > 0 && p[0] == '/'
  }

  /** Index of the last `c` in `s`, or -1 when there is none. */
  function LastIndexOf(s: string, c: char): (k: int)
    ensures -1 <= k < |s|
    ensures k == -1 ==> c !in s
    ensures k >= 0 ==> s[k] == c && c !in s[k + 1..]
  {
    if s == [] then -1
    else if s[|s| - 1] == c then |s| - 1
    else
      assert s[..|s| - 1] + [s[|s| - 1]] == s;
      LastIndexOf(s[..|s| - 1], c)
  }

  /** The last `c` of `x + [c] + t` is the one after `x` when `t` has none. */
  lemma LastIndexOfAfter(x: string, c: char, t: string)
    requires c !in t
    ensures LastIndexOf(x + [c] + t, c) == |x|
  {
    var s := x + [c] + t;
    assert s[|x|] == c;
    assert s[|x| + 1..] == t;
  }

  /** QFileInfo::fileName: the part after the last `/`. */
  function FileName(p: string): (name: string)
    requires IsAbsolute(p)
    ensures '/' !in name
    ensures |name| < |p| && p[|p| - |name| - 1] == '/' && p[|p| - |name|..] == name
  {
    p[LastIndexOf(p, '/') + 1..]
  }

  /** QFileInfo::absolutePath: the directory part without its trailing `/`,
      except for a file right under the root, whose directory is "/". */
  function AbsolutePath(p: string): (dir: string)
    requires IsAbsolute(p)
    ensures IsAbsolute(dir)
    ensures p == dir + "/" + FileName(p) || (dir == "/" && p == "/" + FileName(p))
  {
    var k := LastIndexOf(p, '/');
    if k == 0 then "/" else p[..k]
  }

  /** The characters of a file name before its first `.`. */
  function UpToFirstDot(name: string): (stem: string)
    ensures stem <= name && '.' !in stem
    ensures |stem| < |name| ==> name[|stem|] == '.'
  {
    if name == [] || name[0] == '.' then [] else [name[0]] + UpToFirstDot(name[1..])
  }

  /** A dot right after a dot-free prefix ends the stem there. */
  lemma {:induction false} UpToFirstDotAppend(stem: string, rest: string)
    requires '.' !in stem
    ensures UpToFirstDot(stem + "." + rest) == stem
  {
    if stem != [] {
      assert (stem + "." + rest)[1..] == stem[1..] + "." + rest;
      UpToFirstDotAppend(stem[1..], rest);
    }
  }

  /** QFileInfo::baseName: the file name up to, not including, its first
      `.`; like the file name, it has no `/`. */
  function BaseName(p: string): (base: string)
    requires IsAbsolute(p)
    ensures base <= FileName(p) && '.' !in base && '/' !in base
    ensures |base| < |FileName(p)| ==> FileName(p)[|base|] == '.'
  {
    UpToFirstDot(FileName(p))
  }

  /** Directory and file name of `dir + "/" + name`. */
  lemma PartsOf(dir: string, name: string)
    requires IsAbsolute(dir) && '/' !in name
    ensures IsAbsolute(dir + ['/'] + name)
    ensures AbsolutePath(dir + ['/'] + name) == dir
    ensures FileName(dir + ['/'] + name) == name
  {
    var s := dir + ['/'] + name;
    LastIndexOfAfter(dir, '/', name);
    assert s[|dir| + 1..] == name;
    assert s[..|dir|] == dir;
  }

  /** The CSS file that openFile looks for and saveHTML writes beside `p`:
      an absolute path, five characters (`/` and `.css`) longer than the
      directory and base name it is built from. `SiblingParts` takes it
      apart again. */
  function SiblingCssPath(p: string): (css: string)
    requires IsAbsolute(p)
    ensures IsAbsolute(css)
    ensures |css| == |AbsolutePath(p)| + |BaseName(p)| + 5
  {
    AbsolutePath(p) + "/" + BaseName(p) + ".css"
  }

  /** The sibling is `dir + "/" + name` with no `/` in `name`. */
  lemma SiblingShape(p: string)
    requires IsAbsolute(p)
    ensures SiblingCssPath(p) == AbsolutePath(p) + ['/'] + (BaseName(p) + ".css")
    ensures '/' !in BaseName(p) + ".css"
  {
    CssNameHasNoSlash(BaseName(p));
  }

  /** Appending `.css` to a name without `/` adds none. */
  lemma CssNameHasNoSlash(base: string)
    requires '/' !in base
    ensures '/' !in base + ".css"
  {
    assert (base + ".css")[|base|..] == ".css";
  }

  /** The sibling sits in the same directory as `p`, is named after `p`'s
      base name with extension `.css`, and has the same base name. */
  lemma SiblingParts(p: string)
    requires IsAbsolute(p)
    ensures AbsolutePath(SiblingCssPath(p)) == AbsolutePath(p)
    ensures FileName(SiblingCssPath(p)) == BaseName(p) + ".css"
    ensures BaseName(SiblingCssPath(p)) == BaseName(p)
  {
    var base := BaseName(p);
    SiblingShape(p);
    PartsOf(AbsolutePath(p), base + ".css");
    assert base + ".css" == base + "." + "css";
    UpToFirstDotAppend(base, "css");
  }

  /** Deriving the sibling of a sibling gives the sibling again. */
  lemma SiblingIdempotent(p: string)
    requires IsAbsolute(p)
    ensures SiblingCssPath(SiblingCssPath(p)) == SiblingCssPath(p)
  {
    SiblingParts(p);
  }

  /** Two files share a style sheet exactly when they lie in the same
      directory and have the same base name (so `a.html`, `a.htm` and
      `a.en.html` all use `a.css`). */
  lemma SharedSiblingIff(p: string, q: string)
    requires IsAbsolute(p) && IsAbsolute(q)
    ensures SiblingCssPath(p) == SiblingCssPath(q)
            <==> AbsolutePath(p) == AbsolutePath(q) && BaseName(p) == BaseName(q)
  {
    SiblingParts(p);
    SiblingParts(q);
  }

  /** A file is its own sibling exactly when its name is its base name plus
      `.css` and it is not directly under the root (there the sibling is
      spelt with a doubled leading slash). */
  lemma SiblingIsSelfIff(p: string)
    requires IsAbsolute(p)
    ensures SiblingCssPath(p) == p
            <==> FileName(p) == BaseName(p) + ".css" && p != "/" + FileName(p)
  {
    SiblingParts(p);
  }
}
