/** The POSIX `os.path` functions the batch driver and the upload handler
    use to build paths: `join` with one component, `basename` and the root
    part of `splitext`. */
module PyPath {
  import opened PyText

  /** `os.path.join(a, b)`. */
  function Join(a: string, b: string): string {
    if |b| > 0 && b[0] == '/' then b
    else if a == [] || a[|a| - 1] == '/' then a + b
    else a + "/" + b
  }

  /** `os.path.basename(p)`: the text after the last '/'. */
  function BaseName(p: string): string {
    p[RFind(p, '/') + 1..]
  }

  /** The base name is the longest '/'-free suffix of the path. */
  lemma BaseNameIsLastComponent(p: string)
    ensures var r := BaseName(p);
      && |r| <= |p| && r == p[|p| - |r|..]
      && '/' !in r
      && (|r| < |p| ==> p[|p| - |r| - 1] == '/')
  {
    var r := BaseName(p);
    assert forall k :: 0 <= k < |r| ==> r[k] == p[RFind(p, '/') + 1 + k];
  }

  /** True when some character of p[lo..hi] is not a dot. */
  predicate HasNonDot(p: string, lo: int, hi: int)
    requires 0 <= lo && hi <= |p|
  {
    exists k :: lo <= k < hi && p[k] != '.'
  }

  /** `os.path.splitext(p)[0]`: `p` without its extension, where the
      extension runs from the last '.' of the last path component, unless
      only dots precede that '.' in the component (a leading-dot name such
      as ".webp" has no extension). */
  function SplitExtRoot(p: string): string {
    var sep := RFind(p, '/');
    var dot := RFind(p, '.');
    if dot > sep && HasNonDot(p, sep + 1, dot) then p[..dot] else p
  }

  /** The root is a prefix of the path; when it is shorter, what was cut is
      one '.' followed by characters that are neither '.' nor '/'. */
  lemma SplitExtRootIsPrefix(p: string)
    ensures var root := SplitExtRoot(p);
      && |root| <= |p| && root == p[..|root|]
      && (root != p ==> p[|root|] == '.' && '.' !in p[|root| + 1..] && '/' !in p[|root|..])
  {
  }

  /** The base name of a joined path is the name joined on, whatever the
      directory, when the name holds no '/'. */
  lemma BaseNameOfJoin(dir: string, name: string)
    requires |name| > 0 && '/' !in name
    ensures BaseName(Join(dir, name)) == name
  {
    var p := Join(dir, name);
    var r := BaseName(p);
    BaseNameIsLastComponent(p);
    assert p[|p| - |name|..] == name;
    assert p == name || (|p| > |name| && p[|p| - |name| - 1] == '/');
  }

  /** `join` with a fixed directory never maps two names without a leading
      '/' to one path. */
  lemma JoinInjective(dir: string, n1: string, n2: string)
    requires |n1| > 0 && n1[0] != '/' && |n2| > 0 && n2[0] != '/'
    requires Join(dir, n1) == Join(dir, n2)
    ensures n1 == n2
  {
    var p := Join(dir, n1);
    var k := |p| - |n1|;
    assert n1 == p[k..];
    assert n2 == Join(dir, n2)[k..];
  }

  /** A file name `stem + ".webp"` whose stem does not start with '.' keeps
      `stem` as its `splitext` root. */
  lemma SplitExtOfWebPName(stem: string)
    requires |stem| > 0 && stem[0] != '.' && '/' !in stem
    ensures SplitExtRoot(stem + ".webp") == stem
  {
    var p := stem + ".webp";
    assert '/' !in p by {
      assert forall k :: 0 <= k < |p| ==> p[k] == (if k < |stem| then stem[k] else ".webp"[k - |stem|]);
    }
    var dot := RFind(p, '.');
    assert p[|stem|] == '.';
    assert dot == |stem|;
    assert RFind(p, '/') == -1;
    assert HasNonDot(p, 0, dot) by { assert p[0] == stem[0]; }
    assert p[..dot] == stem;
  }
}
