/** The two operations of Rust's `std::path` that the core uses, on Unix paths held as
    strings: `Path::join` of a relative name and `Path::file_name`. */
module Paths {
  import opened Wrappers
  import Text

  /** What `PathBuf::push` puts before a relative name: nothing after an empty path or a
      trailing separator, a `/` otherwise. */
  function DirPrefix(dir: string): string {
    if dir == [] || dir[|dir| - 1] == '/' then dir else dir + "/"
  }

  /** `Path::join` of a name that does not start with `/`. */
  function Join(dir: string, name: string): (r: string)
    ensures |r| >= |name| && r[|r| - |name|..] == name
  {
    DirPrefix(dir) + name
  }

  /** A single path component: no separator, and neither empty, `.` nor `..`. */
  predicate PlainName(n: string) {
    '/' !in n && n != "" && n != "." && n != ".."
  }

  /** Glues segments back together with `/`; the inverse of `Split`. */
  function JoinSegments(segs: seq<string>): string
    requires |segs| >= 1
  {
    if |segs| == 1 then segs[0]
    else JoinSegments(segs[..|segs| - 1]) + "/" + segs[|segs| - 1]
  }

  /** The pieces of `s` between separators, empty pieces included. */
  function Split(s: string): (r: seq<string>)
    ensures |r| >= 1
  {
    if s == [] then [""]
    else
      var prev := Split(s[..|s| - 1]);
      var c := s[|s| - 1];
      if c == '/' then prev + [""]
      else
        var m := |prev|;
        prev[..m - 1] + [prev[m - 1] + [c]]
  }

  /** No piece holds a separator. */
  predicate NoSeparator(segs: seq<string>) {
    forall k :: 0 <= k < |segs| ==> '/' !in segs[k]
  }

  lemma {:induction false} SplitNoSeparator(s: string)
    ensures NoSeparator(Split(s))
    decreases |s|
  {
    if s != [] {
      var p, c := s[..|s| - 1], s[|s| - 1];
      SplitNoSeparator(p);
      var prev := Split(p);
      if c != '/' {
        var m := |prev|;
        var r := prev[..m - 1] + [prev[m - 1] + [c]];
        assert Split(s) == r;
        forall k | 0 <= k < |r| ensures '/' !in r[k] {
          if k < m - 1 { assert r[k] == prev[k]; }
        }
      }
    }
  }

  /** Gluing the pieces back together gives the original string. */
  lemma {:induction false} SplitRoundTrip(s: string)
    ensures JoinSegments(Split(s)) == s
    decreases |s|
  {
    if s != [] {
      var p, c := s[..|s| - 1], s[|s| - 1];
      SplitRoundTrip(p);
      var prev := Split(p);
      assert s == p + [c];
      if c == '/' {
        JoinSeparator(prev);
      } else {
        JoinExtendLast(prev, c);
      }
    }
  }

  lemma JoinSeparator(segs: seq<string>)
    requires |segs| >= 1
    ensures JoinSegments(segs + [""]) == JoinSegments(segs) + "/"
  {
    var r := segs + [""];
    assert r[..|r| - 1] == segs;
    assert JoinSegments(segs) + "/" + "" == JoinSegments(segs) + "/";
  }

  lemma JoinExtendLast(segs: seq<string>, c: char)
    requires |segs| >= 1
    ensures JoinSegments(segs[..|segs| - 1] + [segs[|segs| - 1] + [c]]) == JoinSegments(segs) + [c]
  {
    var m := |segs|;
    var init, last := segs[..m - 1], segs[m - 1];
    var r := init + [last + [c]];
    assert r[..|r| - 1] == init;
    if m > 1 {
      assert segs[..m - 1][..m - 2] == segs[..m - 2];
      var j := JoinSegments(init);
      assert JoinSegments(segs) == j + "/" + last;
      assert j + "/" + (last + [c]) == j + "/" + last + [c];
    }
  }

  /** Drops the empty and `.` segments, as `Path::components` normalises them away. */
  function Keep(segs: seq<string>): (r: seq<string>)
    ensures forall k :: 0 <= k < |r| ==> r[k] != "" && r[k] != "."
  {
    if segs == [] then []
    else
      var last := segs[|segs| - 1];
      var prev := Keep(segs[..|segs| - 1]);
      if last == "" || last == "." then prev else prev + [last]
  }

  lemma {:induction false} KeepNoSeparator(segs: seq<string>)
    requires NoSeparator(segs)
    ensures NoSeparator(Keep(segs))
    decreases |segs|
  {
    if segs != [] {
      var init := segs[..|segs| - 1];
      assert NoSeparator(init) by {
        forall k | 0 <= k < |init| ensures '/' !in init[k] { assert init[k] == segs[k]; }
      }
      KeepNoSeparator(init);
    }
  }

  /** The normal components of a path, in order. */
  function Components(p: string): seq<string> {
    Keep(Split(p))
  }

  /** `Path::file_name`: the last component, absent for an empty path, the root, `.` or a
      path ending in `..`. */
  function FileName(p: string): (r: Option<string>)
    ensures r.Some? ==> PlainName(r.value)
  {
    var cs := Components(p);
    if cs == [] || cs[|cs| - 1] == ".." then None
    else
      SplitNoSeparator(p);
      KeepNoSeparator(Split(p));
      Some(cs[|cs| - 1])
  }

  lemma {:induction false} SplitPlain(n: string)
    requires '/' !in n
    ensures Split(n) == [n]
    decreases |n|
  {
    if n != [] {
      assert '/' !in n[..|n| - 1];
      SplitPlain(n[..|n| - 1]);
      assert n[..|n| - 1] + [n[|n| - 1]] == n;
    }
  }

  /** `Split` of a string with one more character. */
  lemma SplitSnoc(s: string, c: char)
    ensures Split(s + [c]) == if c == '/' then Split(s) + [""]
                              else Split(s)[..|Split(s)| - 1] + [Split(s)[|Split(s)| - 1] + [c]]
  {
    assert (s + [c])[..|s|] == s;
  }

  lemma {:induction false} SplitAfterSeparator(a: string, n: string)
    requires '/' !in n
    ensures Split(a + "/" + n) == Split(a) + [n]
    decreases |n|
  {
    if n == [] {
      assert a + "/" + n == a + ['/'];
      SplitSnoc(a, '/');
    } else {
      var n', c := n[..|n| - 1], n[|n| - 1];
      var s0 := a + "/" + n';
      assert n == n' + [c];
      assert a + "/" + n == s0 + [c] by {
        Text.AppendAssoc(a + "/", n', [c]);
      }
      SplitAfterSeparator(a, n');
      SplitSnoc(s0, c);
      ReplaceLast(Split(a), n', c);
    }
  }

  /** Extending the last of a run of pieces. */
  lemma ReplaceLast(init: seq<string>, x: string, c: char)
    ensures var prev := init + [x];
      prev[..|prev| - 1] + [prev[|prev| - 1] + [c]] == init + [x + [c]]
  {
    var prev := init + [x];
    assert prev[..|prev| - 1] == init;
  }

  lemma KeepAppendPlain(segs: seq<string>, n: string)
    requires PlainName(n)
    ensures Keep(segs + [n]) == Keep(segs) + [n]
  {
    assert (segs + [n])[..|segs|] == segs;
  }

  /** Joining a plain name onto any directory and taking the file name gives the name back. */
  lemma FileNameOfJoin(dir: string, n: string)
    requires PlainName(n)
    ensures FileName(Join(dir, n)) == Some(n)
  {
    var p := Join(dir, n);
    if dir == [] {
      assert p == n;
      SplitPlain(n);
      assert Split(p) == [] + [n];
      FileNameOfLastPiece(p, [], n);
    } else if dir[|dir| - 1] == '/' {
      var d := dir[..|dir| - 1];
      assert p == d + "/" + n;
      SplitAfterSeparator(d, n);
      FileNameOfLastPiece(p, Split(d), n);
    } else {
      assert p == dir + "/" + n;
      SplitAfterSeparator(dir, n);
      FileNameOfLastPiece(p, Split(dir), n);
    }
  }

  lemma FileNameOfLastPiece(p: string, segs: seq<string>, n: string)
    requires PlainName(n) && Split(p) == segs + [n]
    ensures FileName(p) == Some(n)
  {
    KeepAppendPlain(segs, n);
    var cs := Components(p);
    assert cs == Keep(segs) + [n];
    assert cs[|cs| - 1] == n;
  }

  /** Joining is injective in the name: distinct names under one directory are distinct paths. */
  lemma JoinInjective(dir: string, m: string, n: string)
    requires Join(dir, m) == Join(dir, n)
    ensures m == n
  {
    var pre := DirPrefix(dir);
    assert m == (pre + m)[|pre|..];
    assert n == (pre + n)[|pre|..];
  }
}
