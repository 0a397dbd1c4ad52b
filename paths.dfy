/** A model of the POSIX flavour of Python's `pathlib.PurePath`, as far as the
    icon manager uses it: building paths with `/`, `parent`, `name`,
    `suffix`, `parts`, `relative_to`, conversion to `str` and parsing a string
    back with `Path(s)`.  A path is its anchor (absolute or not) and its list
    of names; `Path(s)` drops empty and "." components, so a well-formed name
    is non-empty, is not "." and contains no '/'. */
module Paths {
  import opened Text

  datatype Path = Path(absolute: bool, names: seq<string>)

  predicate ValidName(n: string) {
    n != "" && n != "." && '/' !in n
  }

  predicate Valid(p: Path) {
    forall i :: 0 <= i < |p.names| ==> ValidName(p.names[i])
  }

  /** `p / n` */
  function Child(p: Path, n: string): Path {
    Path(p.absolute, p.names + [n])
  }

  /** `p / a / b / ...` */
  function Descend(p: Path, ns: seq<string>): Path {
    Path(p.absolute, p.names + ns)
  }

  /** `p.parent`; the parent of "/" is "/" and that of "." is ".". */
  function Parent(p: Path): Path {
    if p.names == [] then p else Path(p.absolute, p.names[..|p.names| - 1])
  }

  /** `p.name`: the last name, "" for "/" and ".". */
  function Name(p: Path): string {
    if p.names == [] then "" else p.names[|p.names| - 1]
  }

  /** `p.suffix` for a name: from its last '.', provided that dot is neither
      the first nor the last character; otherwise "". */
  function Suffix(name: string): string {
    var i := RFind(name, '.');
    if 0 < i < |name| - 1 then name[i..] else ""
  }

  /** `p.parts`: the anchor "/" (for an absolute path) followed by the names. */
  function Parts(p: Path): seq<string> {
    if p.absolute then ["/"] + p.names else p.names
  }

  /** `str(p)` */
  function Str(p: Path): string {
    if p.absolute then "/" + Join(p.names, "/")
    else if p.names == [] then "."
    else Join(p.names, "/")
  }

  /** `p.relative_to(root)`: None where Python raises ValueError, that is,
      when `root` is not `p` itself or one of its ancestors. */
  function RelativeTo(p: Path, root: Path): (r: Option<Path>)
    ensures r.Some? ==> !r.value.absolute && Descend(root, r.value.names) == p
    ensures r.None? ==> forall ns :: Descend(root, ns) != p
  {
    if p.absolute == root.absolute && |root.names| <= |p.names| && p.names[..|root.names|] == root.names
    then
      assert root.names + p.names[|root.names|..] == p.names;
      Some(Path(false, p.names[|root.names|..]))
    else
      None
  }

  /** `s.split(c)` */
  function Split(s: string, c: char): (r: seq<string>)
    ensures |r| >= 1
  {
    if s == [] then [""]
    else if s[0] == c then [""] + Split(s[1..], c)
    else
      var rest := Split(s[1..], c);
      [[s[0]] + rest[0]] + rest[1..]
  }

  /** Drops the empty and "." components, as `Path(s)` does. */
  function Clean(ns: seq<string>): seq<string> {
    if ns == [] then []
    else if ns[0] == "" || ns[0] == "." then Clean(ns[1..])
    else [ns[0]] + Clean(ns[1..])
  }

  /** `PurePosixPath(s)`, leaving out the special "//" anchor. */
  function Parse(s: string): Path {
    if |s| > 0 && s[0] == '/' then Path(true, Clean(Split(s[1..], '/')))
    else Path(false, Clean(Split(s, '/')))
  }

  /** `p / s` for a string `s`: an absolute `s` replaces `p`, a relative one
      is appended name by name. */
  function JoinStr(p: Path, s: string): Path {
    var q := Parse(s);
    if q.absolute then q else Descend(p, q.names)
  }

  lemma {:induction false} CleanKeepsValid(ns: seq<string>)
    requires forall i :: 0 <= i < |ns| ==> ValidName(ns[i])
    ensures Clean(ns) == ns
  {
    if ns != [] {
      CleanKeepsValid(ns[1..]);
    }
  }

  /** Splitting a word without separators followed by more text. */
  lemma {:induction false} SplitWord(w: string, rest: string, c: char)
    requires c !in w
    ensures Split(w + rest, c) == [w + Split(rest, c)[0]] + Split(rest, c)[1..]
  {
    if w != [] {
      assert (w + rest)[1..] == w[1..] + rest;
      SplitWord(w[1..], rest, c);
      assert [w[0]] + (w[1..] + Split(rest, c)[0]) == w + Split(rest, c)[0];
    } else {
      assert w + rest == rest;
      var r := Split(rest, c);
      assert w + r[0] == r[0];
      assert r == [r[0]] + r[1..];
    }
  }

  /** Splitting undoes joining, for pieces that avoid the separator. */
  lemma {:induction false} SplitJoin(ns: seq<string>, c: char)
    requires |ns| >= 1
    requires forall i :: 0 <= i < |ns| ==> c !in ns[i]
    ensures Split(Join(ns, [c]), c) == ns
  {
    if |ns| == 1 {
      SplitWord(ns[0], "", c);
      assert ns[0] + "" == ns[0];
    } else {
      SplitJoin(ns[1..], c);
      var tail := [c] + Join(ns[1..], [c]);
      assert Join(ns, [c]) == ns[0] + tail;
      SplitWord(ns[0], tail, c);
      assert tail[1..] == Join(ns[1..], [c]);
      assert Split(tail, c) == [""] + ns[1..];
      assert ns[0] + "" == ns[0];
      assert ns == [ns[0]] + ns[1..];
    }
  }

  /** Round trip: parsing the string of a well-formed path gives the path back,
      so `Path(str(p)).parts == p.parts`. */
  lemma ParseStr(p: Path)
    requires Valid(p)
    ensures Parse(Str(p)) == p
  {
    var ns := p.names;
    if ns == [] {
      assert Split("", '/') == [""];
      assert Clean([""]) == [];
      if !p.absolute {
        assert "."[1..] == "";
        assert Split(".", '/') == [['.'] + ""] + [];
        assert Clean(["."]) == [];
      }
    } else {
      SplitJoin(ns, '/');
      CleanKeepsValid(ns);
      if p.absolute {
        assert Str(p)[1..] == Join(ns, "/");
      } else {
        assert Join(ns, "/") == ns[0] + Join(ns, "/")[|ns[0]|..] by {
          if |ns| > 1 {
            assert Join(ns, "/") == ns[0] + ("/" + Join(ns[1..], "/"));
          }
        }
        assert ns[0][0] != '/';
      }
    }
  }
}
