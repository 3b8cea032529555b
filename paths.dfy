/** An optional value, for Python's `None` defaults. */
module Options {
  datatype Option<+T> = None | Some(value: T)
}

/** The `os.path` functions the converter calls, on POSIX paths. */
module Paths {
  import opened Seqs
  import opened Strings

  /** `s.rfind(c)`: the index of the last occurrence of `c` in `s`, or -1. */
  function RFind(s: string, c: char): (i: int)
    ensures -1 <= i < |s|
    ensures i >= 0 ==> s[i] == c
    ensures forall j :: i < j < |s| ==> s[j] != c
  {
    if s == [] then -1
    else if s[|s| - 1] == c then |s| - 1
    else RFind(s[..|s| - 1], c)
  }

  /** Appending a text that does not contain `c` leaves the last `c` where it was. */
  lemma RFindAppend(a: string, b: string, c: char)
    requires c !in b
    ensures RFind(a + b, c) == RFind(a, c)
  {
    var k := RFind(a, c);
    forall j | k < j < |a + b|
      ensures (a + b)[j] != c
    {
      if j < |a| {
        assert (a + b)[j] == a[j];
      } else {
        assert (a + b)[j] == b[j - |a|];
      }
    }
    if k >= 0 {
      assert (a + b)[k] == a[k];
    }
  }

  predicate HasNonDot(s: string)
  {
    exists i :: 0 <= i < |s| && s[i] != '.'
  }

  /** `os.path.basename(p)`: everything after the last '/'. */
  function Basename(p: string): (r: string)
    ensures '/' !in r
    ensures EndsWith(p, r)
    ensures |r| < |p| ==> p[|p| - |r| - 1] == '/'
  {
    p[RFind(p, '/') + 1..]
  }

  /** `os.path.splitext(p)`: the extension runs from the last '.' of the final
      path component, unless only dots precede that '.' in the component, in
      which case there is no extension. */
  function SplitExt(p: string): (r: (string, string))
    ensures r.0 + r.1 == p
    ensures r.1 == [] || (r.1[0] == '.' && '.' !in r.1[1..] && '/' !in r.1)
  {
    var sep := RFind(p, '/');
    var dot := RFind(p, '.');
    if dot > sep && HasNonDot(p[sep + 1..dot]) then
      SplitExtAt(p, sep, dot);
      (p[..dot], p[dot..])
    else
      (p, "")
  }

  lemma SplitExtAt(p: string, sep: int, dot: int)
    requires sep == RFind(p, '/') && dot == RFind(p, '.') && dot > sep
    requires HasNonDot(p[sep + 1..dot])
    ensures var ext := p[dot..];
            p[..dot] + ext == p && ext[0] == '.' && '.' !in ext[1..] && '/' !in ext
    ensures HasNonDot(Basename(p[..dot]))
  {
    var ext := p[dot..];
    RFindAppend(p[..dot], ext, '/');
    assert p[..dot] + ext == p;
    assert Basename(p[..dot]) == p[sep + 1..dot];
    assert ext[1..] == p[dot + 1..];
  }

  /** An extension is split off only when the last component of the root
      has a character other than '.', so ".bashrc" or "..pdf" keep theirs. */
  lemma SplitExtRoot(p: string)
    ensures SplitExt(p).1 != [] ==> HasNonDot(Basename(SplitExt(p).0))
    ensures HasNonDot(Basename(p)) ==> HasNonDot(Basename(SplitExt(p).0))
  {
    var sep := RFind(p, '/');
    var dot := RFind(p, '.');
    if dot > sep && HasNonDot(p[sep + 1..dot]) {
      SplitExtAt(p, sep, dot);
    }
  }

  /** Splitting `root + ext` recovers both parts when `ext` is a single
      extension and the last component of `root` is not made of dots only. */
  lemma SplitExtJoin(root: string, ext: string)
    requires ext != [] && ext[0] == '.' && '.' !in ext[1..] && '/' !in ext
    requires HasNonDot(Basename(root))
    ensures SplitExt(root + ext) == (root, ext)
  {
    var p := root + ext;
    RFindAppend(root, ext, '/');
    var sep := RFind(p, '/');
    var dot := RFind(p, '.');
    assert p[|root|] == '.';
    assert dot == |root|;
    assert p[sep + 1..dot] == Basename(root);
    assert p[..dot] == root && p[dot..] == ext;
  }

  /** The default output path of a conversion: the input path with its
      extension, if any, replaced by ".md". */
  function MarkdownPathFor(p: string): (r: string)
    ensures EndsWith(r, ".md")
    ensures StartsWith(r, SplitExt(p).0)
  {
    SplitExt(p).0 + ".md"
  }

  /** The derived path has the input's root and the extension ".md". */
  lemma MarkdownPathSplits(p: string)
    requires HasNonDot(Basename(p))
    ensures SplitExt(MarkdownPathFor(p)) == (SplitExt(p).0, ".md")
  {
    MarkdownExt();
    SplitExtRoot(p);
    SplitExtJoin(SplitExt(p).0, ".md");
  }

  lemma MarkdownExt()
    ensures ".md"[0] == '.' && '.' !in ".md"[1..] && '/' !in ".md"
  {
    assert ".md"[1..] == "md";
  }

  /** The root of a path without '/' is a prefix of it without '/'. */
  lemma FlatRoot(p: string)
    requires '/' !in p
    ensures '/' !in SplitExt(p).0 && StartsWith(p, SplitExt(p).0)
  {
    var root := SplitExt(p).0;
    AppendDrop(root, SplitExt(p).1);
    assert forall i :: 0 <= i < |root| ==> root[i] == p[i];
  }

  /** A file name without '/' keeps none when its extension becomes ".md". */
  lemma MarkdownNameFlat(file: string)
    requires '/' !in file
    ensures '/' !in SplitExt(file).0 + ".md"
  {
    FlatRoot(file);
  }

  /** A relative file name stays relative when its extension becomes ".md". */
  lemma MarkdownNameRelative(file: string)
    requires !StartsWith(file, "/")
    ensures !StartsWith(SplitExt(file).0 + ".md", "/")
  {
    var root := SplitExt(file).0;
    AppendDrop(root, SplitExt(file).1);
    if root != [] {
      assert (root + ".md")[0] == file[0];
      assert file[..1] == [file[0]];
    } else {
      AppendEmpty(".md");
      assert ".md"[0] == '.';
    }
  }

  /** `os.path.join(a, b)` with two components: an absolute `b` replaces
      `a`; otherwise `b` follows `a`, with a '/' put between them unless `a`
      is empty or already ends with one. */
  function PathJoin(a: string, b: string): string
  {
    if StartsWith(b, "/") then b
    else if a == [] || EndsWith(a, "/") then a + b
    else a + "/" + b
  }

  /** The joined path ends with `b`, and starts with `a` unless `b` is absolute. */
  lemma PathJoinParts(a: string, b: string)
    ensures EndsWith(PathJoin(a, b), b)
    ensures !StartsWith(b, "/") ==> StartsWith(PathJoin(a, b), a)
  {
    if StartsWith(b, "/") {
      DropNone(b);
    } else if a == [] || EndsWith(a, "/") {
      AppendDrop(a, b);
    } else {
      AppendDrop(a + "/", b);
      Assoc(a, "/", b);
      AppendDrop(a, "/" + b);
    }
  }

  /** Joining a non-empty directory and a relative name puts exactly one '/'
      between them. */
  lemma PathJoinSeparator(dir: string, name: string)
    requires dir != [] && !StartsWith(name, "/")
    ensures PathJoin(dir, name) == (if dir[|dir| - 1] == '/' then dir else dir + "/") + name
  {
    if dir[|dir| - 1] == '/' {
      assert EndsWith(dir, "/");
    } else {
      assert !EndsWith(dir, "/");
    }
  }

  /** Joining a directory and a name without '/' gives a path inside that
      directory whose base name is the name. */
  lemma SubdirJoin(dir: string, name: string)
    requires '/' !in name
    ensures Basename(PathJoin(dir, name)) == name
    ensures StartsWith(PathJoin(dir, name), dir)
  {
    BasenameOfJoin(dir, name);
    FlatIsRelative(name);
    PathJoinParts(dir, name);
  }

  /** A name without '/' does not start with one. */
  lemma FlatIsRelative(name: string)
    requires '/' !in name
    ensures !StartsWith(name, "/")
  {
    if name != [] {
      assert name[..1] == [name[0]];
    }
  }

  /** Joining a directory and a plain file name, the file name is the base name. */
  lemma BasenameOfJoin(dir: string, name: string)
    requires '/' !in name
    ensures Basename(PathJoin(dir, name)) == name
  {
    if dir == [] {
      DropNone(name);
    } else if EndsWith(dir, "/") {
      assert dir[|dir| - 1] == '/';
      RFindAppend(dir, name, '/');
      AppendDrop(dir, name);
    } else {
      RFindAppend(dir + "/", name, '/');
      AppendDrop(dir + "/", name);
    }
  }
}
