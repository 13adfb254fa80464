/** The parts of Go's `path/filepath` package the pipeline relies on, with
    their Unix behaviour: `Clean`, `Join`, `Base`, `Dir` and `Ext`. Paths are
    plain strings separated by '/'; there are no volume names. */
module FilePath {
  import Text

  const Separator: char := '/'

  /** A single path element that `Clean` keeps as it is. */
  predicate IsPlainName(b: string)
  {
    b != "" && Separator !in b && b != "." && b != ".."
  }

  predicate IsRooted(p: string)
  {
    |p| > 0 && p[0] == Separator
  }

  /** The lexical processing of `Clean` over the elements of a path, kept as
      a stack: empty and "." elements vanish, ".." pops the previous real
      element, is dropped at the root of a rooted path, and is kept when
      nothing can be popped in a relative path. */
  function Resolve(elems: seq<string>, rooted: bool): (stack: seq<string>)
    ensures forall i :: 0 <= i < |stack| ==> stack[i] != "" && stack[i] != "."
    ensures forall i :: 0 <= i < |stack| ==> stack[i] in elems
    decreases |elems|
  {
    if |elems| == 0 then []
    else
      var stack := Resolve(elems[..|elems| - 1], rooted);
      var e := elems[|elems| - 1];
      if e == "" || e == "." then stack
      else if e == ".." then
        if |stack| > 0 && stack[|stack| - 1] != ".." then stack[..|stack| - 1]
        else if rooted then stack
        else stack + [".."]
      else stack + [e]
  }

  /** `filepath.Clean`: the shortest lexically equivalent path; "." for an
      empty result. */
  function Clean(p: string): (c: string)
    ensures c != ""
  {
    var rooted := IsRooted(p);
    Assemble(rooted, Text.Join(Resolve(Text.Split(p, Separator), rooted), Separator))
  }

  /** The cleaned path from its resolved elements joined by separators. */
  function Assemble(rooted: bool, body: string): (c: string)
    ensures c != ""
  {
    if rooted then [Separator] + body
    else if body == "" then "."
    else body
  }

  lemma AssembleSnoc(rooted: bool, body: string, tail: string, b: string)
    requires b != ""
    requires (body == "" && tail == b) || (body != "" && body != "." && body != "/" && tail == body + "/" + b)
    ensures var c := Assemble(rooted, body);
            Assemble(rooted, tail) == if c == "/" then "/" + b else if c == "." then b else c + "/" + b
  {
    if body != "" && rooted {
      assert "/" + (body + "/" + b) == ("/" + body) + "/" + b;
    }
  }

  /** `filepath.Join` of two elements: empty elements are ignored and the
      result is cleaned. */
  function Join(a: string, b: string): string
  {
    if a != "" then Clean(a + [Separator] + b)
    else if b != "" then Clean(b)
    else ""
  }

  function TrimTrailingSeparators(p: string): (q: string)
    ensures |q| <= |p|
    decreases |p|
  {
    if |p| > 0 && p[|p| - 1] == Separator then TrimTrailingSeparators(p[..|p| - 1]) else p
  }

  /** The characters after the last separator. */
  function LastElement(p: string): (e: string)
    ensures Separator !in e
    decreases |p|
  {
    if |p| == 0 || p[|p| - 1] == Separator then ""
    else LastElement(p[..|p| - 1]) + [p[|p| - 1]]
  }

  /** `filepath.Base`: the last element, ignoring trailing separators; "."
      for the empty path and "/" for a path of separators only. */
  function Base(p: string): string
  {
    if p == "" then "."
    else
      var q := TrimTrailingSeparators(p);
      if q == "" then [Separator] else LastElement(q)
  }

  /** Everything up to and including the last separator. */
  function DirPrefix(p: string): string
    decreases |p|
  {
    if |p| == 0 || p[|p| - 1] == Separator then p else DirPrefix(p[..|p| - 1])
  }

  /** `filepath.Dir`: all but the last element, cleaned. */
  function Dir(p: string): string
  {
    Clean(DirPrefix(p))
  }

  /** `filepath.Ext`: the suffix from the last '.' of the last element, or
      "" when the last element has no dot. */
  function Ext(p: string): (e: string)
    ensures Text.HasSuffix(p, e)
    decreases |p|
  {
    if |p| == 0 || p[|p| - 1] == Separator then ""
    else if p[|p| - 1] == '.' then "."
    else
      var e := Ext(p[..|p| - 1]);
      if e == "" then ""
      else
        Text.SuffixSnoc(p, e);
        e + [p[|p| - 1]]
  }

  /** The test the restore command makes (`strings.HasSuffix(p, ".gz")`) and
      the test `DecompressFile` makes (`filepath.Ext(p) == ".gz"`) agree on
      every path. */
  lemma ExtGzIffSuffix(p: string)
    ensures Ext(p) == ".gz" <==> Text.HasSuffix(p, ".gz")
  {
    if Text.HasSuffix(p, ".gz") {
      var q := p[..|p| - 3];
      assert p[..|p| - 1] == q + ".g";
      assert (q + ".g")[..|q| + 1] == q + ".";
      assert Ext(q + ".") == ".";
      assert Ext(q + ".g") == ".g";
    }
  }

  /** Appending ".gz" always yields a path whose extension is ".gz". */
  lemma ExtOfGzName(p: string)
    ensures Ext(p + ".gz") == ".gz"
  {
    ExtGzIffSuffix(p + ".gz");
  }

  /** A last element without a dot has no extension. */
  lemma {:induction false} ExtWithoutDot(x: string, t: string)
    requires Separator !in t && '.' !in t
    requires x == "" || x[|x| - 1] == Separator
    ensures Ext(x + t) == ""
    decreases |t|
  {
    if |t| == 0 {
      assert x + t == x;
    } else {
      var t' := t[..|t| - 1];
      assert (x + t)[..|x + t| - 1] == x + t';
      ExtWithoutDot(x, t');
    }
  }

  /** The extension test is case-sensitive and looks at the last element only. */
  lemma ExtExamples()
    ensures Ext("backup.sql.gz") == ".gz"
    ensures Ext("backup.sql.GZ") == ".GZ"
    ensures Ext("archive.gz/backup") == ""
  {
    ExtOfDottedTail("backup.sql", "gz");
    assert "backup.sql.gz" == "backup.sql" + "." + "gz";
    ExtOfDottedTail("backup.sql", "GZ");
    assert "backup.sql.GZ" == "backup.sql" + "." + "GZ";
    ExtWithoutDot("archive.gz/", "backup");
    assert "archive.gz/backup" == "archive.gz/" + "backup";
  }

  /** The extension of a name whose last dot is followed by `t`. */
  lemma {:induction false} ExtOfDottedTail(x: string, t: string)
    requires Separator !in t && '.' !in t
    ensures Ext(x + "." + t) == "." + t
    decreases |t|
  {
    if |t| == 0 {
      assert x + "." + t == x + ".";
    } else {
      var t' := t[..|t| - 1];
      assert (x + "." + t)[..|x + "." + t| - 1] == x + "." + t';
      ExtOfDottedTail(x, t');
      assert "." + t' + [t[|t| - 1]] == "." + t;
    }
  }

  /** The last element of `x + b`, when `x` ends at an element boundary. */
  lemma {:induction false} LastElementOfTail(x: string, b: string)
    requires Separator !in b
    requires x == "" || x[|x| - 1] == Separator
    ensures LastElement(x + b) == b
    decreases |b|
  {
    if |b| == 0 {
      assert x + b == x;
    } else {
      var b' := b[..|b| - 1];
      assert (x + b)[..|x + b| - 1] == x + b';
      LastElementOfTail(x, b');
      assert b == b' + [b[|b| - 1]];
    }
  }

  /** The base name of `x + b` is `b` when `b` is a non-empty element and `x`
      ends at an element boundary. */
  lemma BaseOfTail(x: string, b: string)
    requires b != "" && Separator !in b
    requires x == "" || x[|x| - 1] == Separator
    ensures Base(x + b) == b
  {
    var p := x + b;
    assert p[|p| - 1] == b[|b| - 1];
    assert TrimTrailingSeparators(p) == p;
    LastElementOfTail(x, b);
  }

  /** A suffix without separators stays at the end of the base name. */
  lemma {:induction false} LastElementOfSuffix(x: string, t: string)
    requires Separator !in t
    ensures LastElement(x + t) == LastElement(x) + t
    decreases |t|
  {
    if |t| > 0 {
      var u := t[..|t| - 1];
      assert x + t == (x + u) + [t[|t| - 1]];
      assert (x + t)[..|x + t| - 1] == x + u;
      LastElementOfSuffix(x, u);
      assert u + [t[|t| - 1]] == t;
    } else {
      assert x + t == x;
    }
  }

  /** The base name of a path ending in a separator-free `t` ends in `t`. */
  lemma BaseOfSuffix(x: string, t: string)
    requires t != "" && Separator !in t
    ensures Base(x + t) == LastElement(x) + t
  {
    assert (x + t)[|x + t| - 1] == t[|t| - 1];
    LastElementOfSuffix(x, t);
  }

  /** A plain name is its own base name. */
  lemma BaseOfPlainName(b: string)
    requires b != "" && Separator !in b
    ensures Base(b) == b
  {
    BaseOfTail("", b);
    assert "" + b == b;
  }

  /** A plain name is already clean. */
  lemma CleanPlainName(b: string)
    requires IsPlainName(b)
    ensures Clean(b) == b
  {
    Text.SplitNoSeparator(b, Separator);
    assert Resolve([b], false) == [b] by {
      assert [b][..0] == [];
    }
  }

  /** Resolving one more plain element pushes it. */
  lemma ResolveSnocPlain(elems: seq<string>, b: string, rooted: bool)
    requires IsPlainName(b)
    ensures Resolve(elems + [b], rooted) == Resolve(elems, rooted) + [b]
  {
    assert (elems + [b])[..|elems|] == elems;
  }

  /** The elements of `a + "/" + b` for a plain name `b`. */
  lemma SplitWithPlainTail(a: string, b: string)
    requires IsPlainName(b)
    ensures Text.Split(a + [Separator] + b, Separator) == Text.Split(a, Separator) + [b]
  {
    var S := Text.Split(a, Separator);
    var x := [Separator] + b;
    SplitSeparatorThenName(b);
    Text.SplitAppend(a, x, Separator);
    assert a + [Separator] + b == a + x;
    Text.FuseEmptyHead(S, b);
  }

  /** A separator followed by a plain name splits into an empty piece and
      the name. */
  lemma SplitSeparatorThenName(b: string)
    requires IsPlainName(b)
    ensures Text.Split([Separator] + b, Separator) == ["", b]
  {
    Text.SplitAfterHead("", b, Separator);
    assert "" + [Separator] + b == [Separator] + b;
    Text.SplitNoSeparator(b, Separator);
  }

  /** Joining a resolved stack, with and without one more plain name. */
  lemma JoinStack(R: seq<string>, b: string)
    requires forall i :: 0 <= i < |R| ==> R[i] != "" && R[i] != "." && Separator !in R[i]
    ensures Text.Join(R + [b], Separator) ==
            if |R| == 0 then b else Text.Join(R, Separator) + "/" + b
    ensures |R| > 0 ==> var body := Text.Join(R, Separator);
                        body != "" && body != "." && body != "/"
  {
    Text.JoinSnoc(R, b, Separator);
    if |R| > 0 {
      Text.JoinNonEmpty(R, Separator);
      if |R| > 1 {
        assert |Text.Join(R, Separator)| >= |R[0]| + 1;
      }
    }
  }

  /** `filepath.Join(a, b)` for a non-empty directory `a` and a plain name
      `b`: `b` placed under the cleaned directory. */
  lemma JoinPlainName(a: string, b: string)
    requires a != "" && IsPlainName(b)
    ensures var c := Clean(a);
            Join(a, b) == if c == "/" then "/" + b else if c == "." then b else c + "/" + b
  {
    var p := a + [Separator] + b;
    var rooted := IsRooted(a);
    assert IsRooted(p) == rooted;
    var S := Text.Split(a, Separator);
    SplitWithPlainTail(a, b);
    var R := Resolve(S, rooted);
    ResolveSnocPlain(S, b, rooted);
    assert forall i :: 0 <= i < |R| ==> Separator !in R[i] by {
      forall i | 0 <= i < |R| ensures Separator !in R[i] {
        assert R[i] in S;
      }
    }
    JoinStack(R, b);
    var body := Text.Join(R, Separator);
    var tail := Text.Join(R + [b], Separator);
    assert Clean(p) == Assemble(rooted, tail);
    assert Clean(a) == Assemble(rooted, body);
    AssembleSnoc(rooted, body, tail, b);
  }

  /** `filepath.Join(a, b)` with a plain name `b` ends in `b` at an element
      boundary, so its base name is `b`. */
  lemma BaseOfJoin(a: string, b: string)
    requires IsPlainName(b)
    ensures Base(Join(a, b)) == b
    ensures Text.HasSuffix(Join(a, b), b)
  {
    if a == "" {
      CleanPlainName(b);
      BaseOfPlainName(b);
    } else {
      JoinPlainName(a, b);
      var c := Clean(a);
      if c == "/" {
        BaseOfTail("/", b);
      } else if c == "." {
        BaseOfPlainName(b);
      } else {
        BaseOfTail(c + "/", b);
        assert c + "/" + b == (c + "/") + b;
      }
    }
  }

  /** Joining a plain name onto "." yields the bare name. */
  lemma JoinDot(b: string)
    requires IsPlainName(b)
    ensures Join(".", b) == b
  {
    JoinPlainName(".", b);
    assert Clean(".") == "." by {
      Text.SplitNoSeparator(".", Separator);
      assert Resolve(["."], false) == [] by {
        assert ["."][..0] == [];
      }
    }
  }
}
