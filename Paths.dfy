/**
 * The two output paths of `main`: the annotated book goes to
 * `temp/annotated_<basename of the input>`, and the converted document to
 * the same path with its extension replaced by `.pdf`. Path rules are those
 * of POSIX `os.path` (separator `/`): `basename` keeps what follows the last
 * separator, `join` inserts one separator, and `splitext` splits at the last
 * dot of the final component unless that component is only dots up to it.
 */
module Paths {

  /** Python's `s.rfind(c)`: the last position holding `c`, or -1. */
  function LastIndexOf(s: string, c: char): (r: int)
    ensures -1 <= r < |s|
    ensures r >= 0 ==> s[r] == c
    ensures forall k :: r < k < |s| ==> s[k] != c
    decreases |s|
  {
    if s == [] then -1
    else if s[|s| - 1] == c then |s| - 1
    else LastIndexOf(s[..|s| - 1], c)
  }

  /** `os.path.basename(p)`: the final path component. */
  function Basename(p: string): (r: string)
    ensures '/' !in r
    ensures |r| <= |p| && p[|p| - |r|..] == r
    ensures |r| == |p| || p[|p| - |r| - 1] == '/'
  {
    p[LastIndexOf(p, '/') + 1..]
  }

  /** `os.path.join(a, b)`: an absolute `b` wins; otherwise one separator between them. */
  function Join(a: string, b: string): (r: string)
    ensures |b| > 0 && b[0] == '/' ==> r == b
    ensures !(|b| > 0 && b[0] == '/') && (a == "" || a[|a| - 1] == '/') ==> r == a + b
    ensures !(|b| > 0 && b[0] == '/') && a != "" && a[|a| - 1] != '/' ==> r == a + "/" + b
    ensures |b| <= |r| && r[|r| - |b|..] == b
  {
    if |b| > 0 && b[0] == '/' then b
    else if a == "" || a[|a| - 1] == '/' then a + b
    else a + "/" + b
  }

  /** The working directory the annotated book is written to. */
  const TempDir: string := "temp"

  /** The prefix of the annotated book's file name. */
  const OutputPrefix: string := "annotated_"

  /** The annotated book's path: `annotated_` plus the input's base name, inside `temp`. */
  function OutputPath(epub: string): (r: string)
    ensures r == "temp" + "/" + ("annotated_" + Basename(epub))
    ensures Basename(r) == "annotated_" + Basename(epub)
  {
    var name := OutputPrefix + Basename(epub);
    PrefixedNameIsRelative(Basename(epub));
    NameAfterSeparator(TempDir, name);
    Join(TempDir, name)
  }

  /** A name made by prefixing `annotated_` has no separator and does not start with one. */
  lemma PrefixedNameIsRelative(b: string)
    requires '/' !in b
    ensures var name := "annotated_" + b; name[0] == 'a' && '/' !in name
  {
    assert '/' !in "annotated_";
  }

  /** The final component of a joined path is the final component of its second part. */
  lemma JoinKeepsBasename(a: string, b: string)
    ensures Basename(Join(a, b)) == Basename(b)
  {
    if |b| > 0 && b[0] == '/' {
    } else if a == "" || a[|a| - 1] == '/' {
      BasenameAfter(a, b);
    } else {
      assert a + "/" + b == (a + "/") + b;
      BasenameAfter(a + "/", b);
    }
  }

  /** When `x` is empty or ends in a separator, `x + y` has `y`'s base name. */
  lemma BasenameAfter(x: string, y: string)
    requires x == "" || x[|x| - 1] == '/'
    ensures Basename(x + y) == Basename(y)
  {
    LastIndexAfterPrefix(x, y, '/');
    var ly := LastIndexOf(y, '/');
    var start := if ly >= 0 then |x| + ly + 1 else |x|;
    assert LastIndexOf(x + y, '/') + 1 == start by {
      if ly < 0 {
        assert LastIndexOf(x, '/') == |x| - 1;
      }
    }
    assert (x + y)[start..] == y[ly + 1..];
  }

  /** The base name of `dir/name` is `name` when `name` holds no separator. */
  lemma NameAfterSeparator(dir: string, name: string)
    requires '/' !in name
    ensures Basename(dir + "/" + name) == name
  {
    var x := dir + "/";
    assert LastIndexOf(name, '/') == -1;
    LastIndexAfterPrefix(x, name, '/');
    assert dir + "/" + name == x + name;
    assert LastIndexOf(x, '/') == |dir| by {
      assert x[..|x| - 1] == dir;
    }
  }

  /** The last occurrence in `x + y` is in `y` when `y` has one, else it is `x`'s. */
  lemma {:induction false} LastIndexAfterPrefix(x: string, y: string, c: char)
    ensures LastIndexOf(x + y, c) == if LastIndexOf(y, c) >= 0 then |x| + LastIndexOf(y, c) else LastIndexOf(x, c)
    decreases |y|
  {
    if y == [] {
      assert x + y == x;
    } else if y[|y| - 1] != c {
      assert (x + y)[..|x + y| - 1] == x + y[..|y| - 1];
      LastIndexAfterPrefix(x, y[..|y| - 1], c);
    }
  }

  /** Some position in `p[lo..hi]` holds a character other than a dot. */
  function HasNonDot(p: string, lo: int, hi: int): (r: bool)
    requires 0 <= lo && hi <= |p|
    ensures r <==> exists k :: lo <= k < hi && p[k] != '.'
    decreases hi - lo
  {
    if lo >= hi then false
    else if p[lo] != '.' then true
    else HasNonDot(p, lo + 1, hi)
  }

  /** `os.path.splitext(p)`: `(root, ext)`. */
  function SplitExt(p: string): (r: (string, string))
    ensures r.0 + r.1 == p
    ensures r.1 != [] ==> r.1[0] == '.' && forall k :: 1 <= k < |r.1| ==> r.1[k] != '.' && r.1[k] != '/'
    // the dot that starts an extension follows a non-dot in the final component
    ensures r.1 != [] ==> exists k :: LastIndexOf(p, '/') < k < |r.0| && p[k] != '.'
    // with no extension, no dot of the final component follows a non-dot
    ensures r.1 == [] ==> forall i, j :: LastIndexOf(p, '/') < i < j < |p| && p[i] != '.' ==> p[j] != '.'
  {
    var sepIndex := LastIndexOf(p, '/');
    var dotIndex := LastIndexOf(p, '.');
    if dotIndex > sepIndex && HasNonDot(p, sepIndex + 1, dotIndex) then
      assert p[..dotIndex] + p[dotIndex..] == p;
      (p[..dotIndex], p[dotIndex..])
    else
      assert p + "" == p;
      (p, "")
  }

  /** The PDF path: the output path's root (extension removed) followed by `.pdf`. */
  function PdfPath(out: string): (r: string)
    ensures |r| >= 4 && r[|r| - 4..] == ".pdf"
    ensures r[..|r| - 4] == SplitExt(out).0
  {
    var root := SplitExt(out).0;
    assert (root + ".pdf")[..|root|] == root;
    root + ".pdf"
  }

  /**
   * Splitting `dir/name` where `name` is a plain file name that does not
   * start with a dot: the extension is `name`'s from its last dot, if any.
   */
  lemma {:induction false} RootOfFileInDir(dir: string, name: string)
    requires '/' !in name && name != [] && name[0] != '.'
    ensures var d := LastIndexOf(name, '.');
            SplitExt(dir + "/" + name).0 == dir + "/" + (if d >= 0 then name[..d] else name)
  {
    var x := dir + "/";
    var p := x + name;
    assert dir + "/" + name == p;
    var d := LastIndexOf(name, '.');
    assert LastIndexOf(name, '/') == -1;
    assert LastIndexOf(x, '/') == |dir| by {
      assert x[..|x| - 1] == dir;
    }
    LastIndexAfterPrefix(x, name, '/');
    LastIndexAfterPrefix(x, name, '.');
    assert LastIndexOf(p, '/') == |dir|;
    if d >= 0 {
      assert d > 0;
      assert LastIndexOf(p, '.') == |x| + d;
      assert p[|x|] == name[0];
      assert HasNonDot(p, |x|, |x| + d);
      assert p[..|x| + d] == x + name[..d];
    } else {
      assert LastIndexOf(p, '.') <= |dir|;
    }
  }

  /**
   * The PDF path of the annotated book: the extension of the input's base
   * name (from its last dot) is replaced by `.pdf`, or `.pdf` is appended
   * when the base name has no dot. Because the file name starts with
   * `annotated_`, a base name such as `.epub` counts as an extension here.
   */
  lemma PdfOfOutput(epub: string)
    ensures var b := Basename(epub);
            var d := LastIndexOf(b, '.');
            PdfPath(OutputPath(epub)) == "temp" + "/" + ("annotated_" + (if d >= 0 then b[..d] else b)) + ".pdf"
  {
    var b := Basename(epub);
    PrefixedNameIsRelative(b);
    assert '.' !in OutputPrefix;
    FileInDirPdf(TempDir, OutputPrefix, b);
  }

  /** The PDF path of `dir/pre+b` when `pre` starts with a non-dot and holds no dot or separator. */
  lemma FileInDirPdf(dir: string, pre: string, b: string)
    requires pre != [] && pre[0] != '.' && '.' !in pre && '/' !in pre + b
    ensures var d := LastIndexOf(b, '.');
            PdfPath(dir + "/" + (pre + b)) == dir + "/" + (pre + (if d >= 0 then b[..d] else b)) + ".pdf"
  {
    var name := pre + b;
    var d := LastIndexOf(b, '.');
    RootOfFileInDir(dir, name);
    assert LastIndexOf(pre, '.') == -1;
    LastIndexAfterPrefix(pre, b, '.');
    if d >= 0 {
      assert name[..|pre| + d] == pre + b[..d];
    }
  }

  /** `books/novel.epub` is written to `temp/annotated_novel.epub`, then `temp/annotated_novel.pdf`. */
  lemma ScenarioPaths()
    ensures OutputPath("books/novel.epub") == "temp/annotated_novel.epub"
    ensures PdfPath(OutputPath("books/novel.epub")) == "temp/annotated_novel.pdf"
  {
    NovelBasename();
    NovelStem();
    PdfOfOutput("books/novel.epub");
    NovelLiterals();
  }

  /**
   * The two literal concatenations of the scenario. A separate lemma because
   * asserting them inside `ScenarioPaths` exceeds the solver's resource limit
   * on some solver seeds.
   */
  lemma NovelLiterals()
    ensures "temp" + "/" + ("annotated_" + "novel.epub") == "temp/annotated_novel.epub"
    ensures "temp" + "/" + ("annotated_" + "novel") + ".pdf" == "temp/annotated_novel.pdf"
  {
  }

  lemma NovelBasename()
    ensures Basename("books/novel.epub") == "novel.epub"
  {
    var p := "books/novel.epub";
    assert LastIndexOf(p, '/') == 5 by {
      assert p[5] == '/';
      assert forall k :: 5 < k < |p| ==> p[k] != '/';
    }
  }

  lemma NovelStem()
    ensures LastIndexOf("novel.epub", '.') == 5 && "novel.epub"[..5] == "novel"
  {
    assert "novel.epub"[5] == '.';
    assert forall k :: 5 < k < |"novel.epub"| ==> "novel.epub"[k] != '.';
  }
}
