/** The handful of Python `str` operations the icon manager relies on, with
    Python's semantics: `endswith`, `in` (substring test), `"sep".join`,
    `replace`, `lower` (restricted to ASCII, which is all the callers compare
    against) and `rfind`. */
module Text {

  datatype Option<T> = None | Some(value: T)

  /** `s.startswith(p)` */
  predicate StartsWith(s: string, p: string) {
    |p| <= |s| && s[..|p|] == p
  }

  /** `s.endswith(p)` */
  predicate EndsWith(s: string, p: string) {
    |p| <= |s| && s[|s| - |p|..] == p
  }

  /** `sub in s` for two strings: `sub` starts at some position of `s`. */
  predicate Contains(s: string, sub: string)
    decreases |s|
  {
    StartsWith(s, sub) || (|s| > 0 && Contains(s[1..], sub))
  }

  /** `sep.join(parts)` */
  function Join(parts: seq<string>, sep: string): string {
    if |parts| == 0 then ""
    else if |parts| == 1 then parts[0]
    else parts[0] + sep + Join(parts[1..], sep)
  }

  /** `s.replace(pat, rep)`: every non-overlapping occurrence of `pat`,
      scanning from the left, is replaced by `rep`. */
  function Replace(s: string, pat: string, rep: string): string
    requires |pat| > 0
    decreases |s|
  {
    if |s| < |pat| then s
    else if StartsWith(s, pat) then rep + Replace(s[|pat|..], pat, rep)
    else [s[0]] + Replace(s[1..], pat, rep)
  }

  function LowerChar(c: char): char {
    if 'A' <= c <= 'Z' then (c as int + 32) as char else c
  }

  /** `s.lower()` on the ASCII range. */
  function Lower(s: string): (r: string)
    ensures |r| == |s|
  {
    seq(|s|, i requires 0 <= i < |s| => LowerChar(s[i]))
  }

  /** `s.lower() == t`, compared character by character. */
  function LowerEquals(s: string, t: string): bool
    decreases |s|
  {
    if s == [] then t == []
    else t != [] && LowerChar(s[0]) == t[0] && LowerEquals(s[1..], t[1..])
  }

  /** The character-by-character comparison agrees with lower-casing the
      whole string first. */
  lemma {:induction false} LowerEqualsIff(s: string, t: string)
    ensures LowerEquals(s, t) <==> Lower(s) == t
    decreases |s|
  {
    if s != [] && t != [] {
      LowerEqualsIff(s[1..], t[1..]);
      assert Lower(s) == [LowerChar(s[0])] + Lower(s[1..]);
      if Lower(s) == t {
        assert Lower(s)[1..] == t[1..];
      }
    }
  }

  /** `s.rfind(c)`: the last index holding `c`, or -1. */
  function RFind(s: string, c: char): (i: int)
    ensures -1 <= i < |s|
    ensures i >= 0 ==> s[i] == c
  {
    if s == [] then -1
    else if s[|s| - 1] == c then |s| - 1
    else RFind(s[..|s| - 1], c)
  }

  /** `rfind` finds the last occurrence: no `c` follows the index it gives. */
  lemma {:induction false} RFindIsLast(s: string, c: char)
    ensures forall j :: RFind(s, c) < j < |s| ==> s[j] != c
    decreases |s|
  {
    if s != [] && s[|s| - 1] != c {
      var t := s[..|s| - 1];
      RFindIsLast(t, c);
      forall j | RFind(s, c) < j < |s| ensures s[j] != c {
        if j < |s| - 1 {
          assert s[j] == t[j];
        }
      }
    }
  }

  /** Replacing a single character by a string that does not contain it
      leaves no occurrence of that character. */
  lemma {:induction false} ReplaceRemovesChar(s: string, c: char, rep: string)
    requires c !in rep
    ensures c !in Replace(s, [c], rep)
    decreases |s|
  {
    if |s| >= 1 {
      if StartsWith(s, [c]) {
        ReplaceRemovesChar(s[1..], c, rep);
      } else {
        ReplaceRemovesChar(s[1..], c, rep);
        assert s[0] != c;
      }
    }
  }

  /** `replace` keeps a character out, as long as the replacement itself
      does not bring it in. */
  lemma {:induction false} ReplaceKeepsCharOut(s: string, pat: string, rep: string, d: char)
    requires |pat| > 0
    requires d !in s && d !in rep
    ensures d !in Replace(s, pat, rep)
    decreases |s|
  {
    if |s| >= |pat| {
      if StartsWith(s, pat) {
        ReplaceKeepsCharOut(s[|pat|..], pat, rep, d);
      } else {
        ReplaceKeepsCharOut(s[1..], pat, rep, d);
      }
    }
  }

  /** A character that does not occur is left alone by `replace`. */
  lemma {:induction false} ReplaceAbsentChar(s: string, c: char, rep: string)
    requires c !in s
    ensures Replace(s, [c], rep) == s
    decreases |s|
  {
    if |s| >= 1 {
      assert s[..1] == [s[0]];
      ReplaceAbsentChar(s[1..], c, rep);
      assert [s[0]] + s[1..] == s;
    }
  }

  /** Joining pieces that avoid a character, with a separator that avoids it,
      gives a string that avoids it. */
  lemma {:induction false} JoinAvoids(parts: seq<string>, sep: string, c: char)
    requires forall i :: 0 <= i < |parts| ==> c !in parts[i]
    requires c !in sep
    ensures c !in Join(parts, sep)
    decreases |parts|
  {
    if |parts| > 1 {
      JoinAvoids(parts[1..], sep, c);
    }
  }

  /** Joining splits over concatenation of the part lists. */
  lemma {:induction false} JoinAppend(a: seq<string>, b: seq<string>, sep: string)
    requires |a| > 0 && |b| > 0
    ensures Join(a + b, sep) == Join(a, sep) + sep + Join(b, sep)
    decreases |a|
  {
    if |a| == 1 {
      assert (a + b)[1..] == b;
    } else {
      assert (a + b)[1..] == a[1..] + b;
      JoinAppend(a[1..], b, sep);
    }
  }

  /** For a one-character pattern, `sub in s` is membership of the character. */
  lemma {:induction false} ContainsChar(s: string, c: char)
    ensures Contains(s, [c]) <==> c in s
    decreases |s|
  {
    if |s| > 0 {
      ContainsChar(s[1..], c);
      assert s == [s[0]] + s[1..];
    }
  }

  /** Lexicographic order on strings, by character code, as Python's `<=`. */
  predicate LexLe(a: string, b: string)
    decreases |a|
  {
    a == [] || (b != [] && (a[0] < b[0] || (a[0] == b[0] && LexLe(a[1..], b[1..]))))
  }

  /** Any two strings are ordered one way or the other. */
  lemma {:induction false} LexLeTotal(a: string, b: string)
    ensures LexLe(a, b) || LexLe(b, a)
    decreases |a|
  {
    if a != [] && b != [] && a[0] == b[0] {
      LexLeTotal(a[1..], b[1..]);
    }
  }

  lemma {:induction false} LexLeTrans(a: string, b: string, c: string)
    requires LexLe(a, b) && LexLe(b, c)
    ensures LexLe(a, c)
    decreases |a|
  {
    if a != [] && b != [] && c != [] && a[0] == b[0] && b[0] == c[0] {
      LexLeTrans(a[1..], b[1..], c[1..]);
    }
  }
}
