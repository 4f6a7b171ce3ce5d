/** The browser stand-in for Node's `path` module: string functions over
    `/`-separated paths. The arguments of `join` and `resolve` may be any
    values; only non-empty strings take part. */
module PathPolyfill {
  import opened Text
  import opened Lists

  /** An argument of `join` or `resolve`: a string or a value of another type. */
  datatype Arg = Str(s: string) | NonString

  /** `args.filter(part => part && typeof part === 'string')`: the non-empty
      strings, in order. */
  function Parts(args: seq<Arg>): (parts: seq<string>)
    ensures |parts| <= |args|
  {
    if args == [] then []
    else
      var last := args[|args| - 1];
      Parts(args[..|args| - 1]) + (if last.Str? && last.s != "" then [last.s] else [])
  }

  lemma {:induction false} PartsAppend(a: seq<Arg>, b: seq<Arg>)
    ensures Parts(a + b) == Parts(a) + Parts(b)
    decreases |b|
  {
    if b == [] {
      assert a + b == a;
    } else {
      var b0 := b[..|b| - 1];
      assert (a + b)[..|a + b| - 1] == a + b0;
      PartsAppend(a, b0);
    }
  }

  /** Every part is non-empty. */
  lemma {:induction false} PartsNonEmpty(args: seq<Arg>, i: nat)
    requires i < |Parts(args)|
    ensures Parts(args)[i] != ""
  {
    var init := args[..|args| - 1];
    if i < |Parts(init)| {
      PartsNonEmpty(init, i);
    }
  }

  // ---- collapsing runs of slashes ----

  /** No two slashes in a row. */
  predicate NoDoubleSlash(s: string) {
    forall i :: 0 <= i < |s| - 1 ==> !(s[i] == '/' && s[i + 1] == '/')
  }

  /** `replace(/\/+/g, '/')`: a slash that follows a slash is dropped, so every
      run of slashes becomes one. */
  function Collapse(s: string): (r: string)
    ensures |r| <= |s|
  {
    if s == [] then []
    else
      var init := s[..|s| - 1];
      if s[|s| - 1] == '/' && init != [] && init[|init| - 1] == '/' then Collapse(init)
      else Collapse(init) + [s[|s| - 1]]
  }

  /** The last character survives. */
  lemma {:induction false} CollapseLast(s: string)
    requires s != []
    ensures Collapse(s) != [] && Collapse(s)[|Collapse(s)| - 1] == s[|s| - 1]
  {
    var init := s[..|s| - 1];
    if s[|s| - 1] == '/' && init != [] && init[|init| - 1] == '/' {
      CollapseLast(init);
    }
  }

  /** Only an empty path collapses to the empty string. */
  lemma CollapseEmpty(s: string)
    ensures Collapse(s) == [] <==> s == []
  {
    if s != [] {
      CollapseLast(s);
    }
  }

  /** No run of slashes is left. */
  lemma {:induction false} CollapseNoDouble(s: string)
    ensures NoDoubleSlash(Collapse(s))
  {
    if s != [] {
      var init := s[..|s| - 1];
      CollapseNoDouble(init);
      if !(s[|s| - 1] == '/' && init != [] && init[|init| - 1] == '/') && init != [] {
        CollapseLast(init);
      }
    }
  }

  /** A path without runs of slashes is left as it is. */
  lemma {:induction false} CollapseOfNoDouble(s: string)
    requires NoDoubleSlash(s)
    ensures Collapse(s) == s
  {
    if s != [] {
      var init := s[..|s| - 1];
      assert NoDoubleSlash(init);
      CollapseOfNoDouble(init);
      assert init + [s[|s| - 1]] == s;
    }
  }

  predicate NotSlash(c: char) { c != '/' }

  /** Only slashes are removed: the other characters stay, in order. */
  lemma {:induction false} CollapseKeepsText(s: string)
    ensures Filter(NotSlash, Collapse(s)) == Filter(NotSlash, s)
  {
    if s != [] {
      var init := s[..|s| - 1];
      CollapseKeepsText(init);
      var last := s[|s| - 1];
      if !(last == '/' && init != [] && init[|init| - 1] == '/') {
        FilterAppend(NotSlash, Collapse(init), [last]);
        assert [last][..0] == [];
      }
    }
  }

  /** Prefixes of a path without runs of slashes have none either. */
  lemma NoDoubleSlashPrefix(s: string, n: nat)
    requires NoDoubleSlash(s) && n <= |s|
    ensures NoDoubleSlash(s[..n])
  {
  }

  // ---- join and resolve ----

  /** `join`: `.` without parts; otherwise the parts joined by `/`, runs of
      slashes collapsed, and a trailing slash dropped unless the result is `/`. */
  function JoinPath(args: seq<Arg>): string {
    var parts := Parts(args);
    if parts == [] then "."
    else
      var joined := Collapse(Join(parts, "/"));
      if |joined| > 1 && joined[|joined| - 1] == '/' then joined[..|joined| - 1] else joined
  }

  lemma JoinNonEmpty(parts: seq<string>, sep: string)
    requires parts != [] && parts[0] != ""
    ensures Join(parts, sep) != ""
  {
  }

  /** A joined path is never empty, has no run of slashes, and ends with a
      slash only when it is `/`; with no part it is `.`. */
  lemma JoinPathShape(args: seq<Arg>)
    ensures var r := JoinPath(args);
      r != "" && NoDoubleSlash(r) && (r[|r| - 1] == '/' ==> r == "/")
      && (Parts(args) == [] ==> r == ".")
  {
    var parts := Parts(args);
    if parts != [] {
      PartsNonEmpty(args, 0);
      JoinNonEmpty(parts, "/");
      var joined := Collapse(Join(parts, "/"));
      CollapseEmpty(Join(parts, "/"));
      CollapseNoDouble(Join(parts, "/"));
      if |joined| > 1 && joined[|joined| - 1] == '/' {
        NoDoubleSlashPrefix(joined, |joined| - 1);
      }
    }
  }

  /** Arguments that are not strings, and empty strings, are ignored. */
  lemma JoinPathIgnores(a: seq<Arg>, x: Arg, b: seq<Arg>)
    requires x.NonString? || x.s == ""
    ensures JoinPath(a + [x] + b) == JoinPath(a + b)
    ensures ResolvePath(a + [x] + b) == ResolvePath(a + b)
  {
    assert [x][..0] == [];
    assert Parts([x]) == [];
    PartsAppend(a, [x]);
    PartsAppend(a + [x], b);
    PartsAppend(a, b);
    assert Parts(a + [x] + b) == Parts(a + b);
  }

  /** `resolve`: the parts joined by `/` with runs of slashes collapsed. */
  function ResolvePath(args: seq<Arg>): string {
    Collapse(Join(Parts(args), "/"))
  }

  lemma JoinLast(parts: seq<string>, sep: string)
    requires parts != [] && parts[|parts| - 1] != ""
    ensures var j := Join(parts, sep); var l := parts[|parts| - 1];
      j != "" && j[|j| - 1] == l[|l| - 1]
  {
    if |parts| > 1 {
      var init := parts[..|parts| - 1];
      assert init + [parts[|parts| - 1]] == parts;
      JoinAppend(init, parts[|parts| - 1], sep);
    }
  }

  /** `resolve` gives `''` without parts; otherwise a non-empty path without
      runs of slashes. */
  lemma ResolvePathShape(args: seq<Arg>)
    ensures NoDoubleSlash(ResolvePath(args))
    ensures ResolvePath(args) == "" <==> Parts(args) == []
  {
    var parts := Parts(args);
    CollapseNoDouble(Join(parts, "/"));
    CollapseEmpty(Join(parts, "/"));
    if parts != [] {
      PartsNonEmpty(args, 0);
      JoinNonEmpty(parts, "/");
    }
  }

  /** `resolve` keeps a trailing slash exactly when the last part has one. */
  lemma ResolvePathTrailing(args: seq<Arg>)
    requires Parts(args) != []
    ensures EndsWith(ResolvePath(args), "/") <==> EndsWith(Parts(args)[|Parts(args)| - 1], "/")
  {
    var parts := Parts(args);
    PartsNonEmpty(args, |parts| - 1);
    JoinLast(parts, "/");
    CollapseLast(Join(parts, "/"));
    EndsWithSlash(ResolvePath(args));
    EndsWithSlash(parts[|parts| - 1]);
  }

  lemma EndsWithSlash(s: string)
    requires s != []
    ensures EndsWith(s, "/") <==> s[|s| - 1] == '/'
  {
  }

  /** Joining by `/` adds only slashes to the concatenated parts. */
  lemma {:induction false} JoinKeepsText(parts: seq<string>)
    ensures Filter(NotSlash, Join(parts, "/")) == Filter(NotSlash, Join(parts, ""))
  {
    if |parts| > 1 {
      var rest := parts[1..];
      assert parts == [parts[0]] + rest;
      JoinCons(parts[0], rest, "/");
      JoinCons(parts[0], rest, "");
      JoinKeepsText(rest);
      FilterAppend(NotSlash, parts[0] + "/", Join(rest, "/"));
      FilterAppend(NotSlash, parts[0], "/");
      assert Filter(NotSlash, "/") == [];
      assert parts[0] + "" == parts[0];
      FilterAppend(NotSlash, parts[0], Join(rest, ""));
    }
  }

  /** `join` and `resolve` differ only in slashes: both hold the characters of
      the string arguments, in order, with nothing else but `/` between them. */
  lemma JoinPathText(args: seq<Arg>)
    ensures Filter(NotSlash, ResolvePath(args)) == Filter(NotSlash, Join(Parts(args), ""))
    ensures Parts(args) != [] ==>
      Filter(NotSlash, JoinPath(args)) == Filter(NotSlash, Join(Parts(args), ""))
  {
    var parts := Parts(args);
    var joined := Collapse(Join(parts, "/"));
    CollapseKeepsText(Join(parts, "/"));
    JoinKeepsText(parts);
    if parts != [] && |joined| > 1 && joined[|joined| - 1] == '/' {
      var n := |joined| - 1;
      assert joined == joined[..n] + ['/'];
      FilterAppend(NotSlash, joined[..n], ['/']);
      assert ['/'][..0] == [];
    }
  }

  // ---- dirname, basename, extname, normalize ----

  /** `dirname`: `.` for a path without a slash; otherwise the pieces before the
      last one joined back, or `/` when that is empty. */
  function Dirname(p: string): string {
    var parts := Split(p, '/');
    if |parts| <= 1 then "."
    else
      var head := Join(parts[..|parts| - 1], "/");
      if head != "" then head else "/"
  }

  /** `dirname` is `.` without a slash, and otherwise the text before the last
      slash, or `/` when that text is empty. */
  lemma DirnameSpec(p: string)
    ensures '/' !in p ==> Dirname(p) == "."
    ensures '/' in p ==> (LastIndexOf(p, '/') >= 0 &&
      Dirname(p) == if LastIndexOf(p, '/') == 0 then "/" else p[..LastIndexOf(p, '/')])
  {
    SplitCount(p, '/');
    if '/' in p {
      SplitInitJoin(p, '/');
    }
  }

  /** `posix.dirname`: the pieces before the last one joined back, or `/` when
      that is empty. */
  function PosixDirname(p: string): string {
    var parts := Split(p, '/');
    var head := Join(parts[..|parts| - 1], "/");
    if head != "" then head else "/"
  }

  /** `posix.dirname` gives `/` for a path without a slash, agrees with
      `dirname` otherwise, and is `.` only when the text before the last slash
      is `.`. */
  lemma PosixDirnameSpec(p: string)
    ensures '/' !in p ==> PosixDirname(p) == "/"
    ensures '/' in p ==> PosixDirname(p) == Dirname(p)
    ensures PosixDirname(p) == "." <==> '/' in p && LastIndexOf(p, '/') >= 0 && p[..LastIndexOf(p, '/')] == "."
  {
    DirnameSpec(p);
    SplitCount(p, '/');
    if '/' in p {
      SplitInitJoin(p, '/');
    } else {
      var parts := Split(p, '/');
      assert parts[..|parts| - 1] == [];
    }
  }

  /** The last `/`-separated piece, what `split('/').pop()` gives. */
  function LastSegment(p: string): string {
    var parts := Split(p, '/');
    parts[|parts| - 1]
  }

  /** The last piece is the text after the last slash, and has no slash. */
  lemma LastSegmentSpec(p: string)
    ensures LastSegment(p) == p[LastIndexOf(p, '/') + 1..]
    ensures '/' !in LastSegment(p)
  {
    SplitLastPiece(p, '/');
    LastIndexOfSuffix(p, '/');
  }

  /** `basename`: the last piece, without `ext` when `ext` is non-empty and
      ends it. */
  function Basename(p: string, ext: string): string {
    var name := LastSegment(p);
    if ext != "" && EndsWith(name, ext) then name[..|name| - |ext|] else name
  }

  /** The base name has no slash, and adding back a stripped `ext` gives the
      last piece. */
  lemma BasenameSpec(p: string, ext: string)
    ensures '/' !in Basename(p, ext)
    ensures var name := LastSegment(p);
      if ext != "" && EndsWith(name, ext) then Basename(p, ext) + ext == name else Basename(p, ext) == name
  {
    LastSegmentSpec(p);
    var name := LastSegment(p);
    if ext != "" && EndsWith(name, ext) {
      assert name == name[..|name| - |ext|] + name[|name| - |ext|..];
    }
  }

  /** `extname`: from the last dot of the last piece when that dot is not its
      first character, else `''`. */
  function Extname(p: string): string {
    var name := LastSegment(p);
    var dot := LastIndexOf(name, '.');
    if dot > 0 then name[dot..] else ""
  }

  /** An extension is empty or a dot followed by dot-free text that ends the last
      piece without being all of it; a piece whose only dot is its first
      character (a dotfile) has none. */
  lemma ExtnameSpec(p: string)
    ensures var e := Extname(p); var name := LastSegment(p);
      (e == "" || (e[0] == '.' && '.' !in e[1..] && EndsWith(name, e) && |e| < |name|))
      && (name != [] && name[0] == '.' && '.' !in name[1..] ==> e == "")
  {
    var name := LastSegment(p);
    var dot := LastIndexOf(name, '.');
    LastIndexOfSuffix(name, '.');
    if dot > 0 {
      assert name[dot..][1..] == name[dot + 1..];
    }
    if name != [] && name[0] == '.' && '.' !in name[1..] {
      DotfileDot(name);
    }
  }

  /** In a name whose only dot is its first character, the last dot is at 0. */
  lemma DotfileDot(name: string)
    requires name != [] && name[0] == '.' && '.' !in name[1..]
    ensures LastIndexOf(name, '.') == 0
  {
    LastIndexOfFound(name, '.');
    assert forall i :: 1 <= i < |name| ==> name[i] == name[1..][i - 1];
  }

  /** Stripping the extension from the base name and adding it back gives the
      base name. */
  lemma BasenameExtname(p: string)
    ensures Basename(p, Extname(p)) + Extname(p) == Basename(p, "")
  {
    ExtnameSpec(p);
    BasenameSpec(p, Extname(p));
  }

  /** `normalize`: runs of slashes collapsed. */
  function Normalize(p: string): string {
    Collapse(p)
  }

  /** A normalised path has no run of slashes, only slashes were removed, and
      normalising again changes nothing. */
  lemma NormalizeSpec(p: string)
    ensures NoDoubleSlash(Normalize(p))
    ensures Filter(NotSlash, Normalize(p)) == Filter(NotSlash, p)
    ensures Normalize(Normalize(p)) == Normalize(p)
  {
    CollapseNoDouble(p);
    CollapseKeepsText(p);
    CollapseOfNoDouble(Collapse(p));
  }
}
