/** POSIX path text operations as Python's `posixpath` performs them:
    `basename`, `dirname`, `join`, `splitext`, and the last component of
    `normpath`. Paths are plain strings; nothing here touches a filesystem. */
module Paths {
  import opened Text

  type Path = string

  /** Python's `s.rfind(c)`: the last index holding `c`, or -1. */
  function LastIndexOf(s: string, c: char): (r: int)
    ensures -1 <= r < |s|
    ensures r >= 0 ==> s[r] == c
    ensures forall i :: r < i < |s| ==> s[i] != c
  {
    if s == [] then -1
    else if s[|s| - 1] == c then |s| - 1
    else LastIndexOf(s[..|s| - 1], c)
  }

  /** `os.path.basename`: everything after the last separator. */
  function Basename(p: Path): (r: string)
    ensures '/' !in r
    ensures EndsWith(p, r)
  {
    p[LastIndexOf(p, '/') + 1..]
  }

  predicate AllSeps(s: string) {
    forall i :: 0 <= i < |s| ==> s[i] == '/'
  }

  /** `s.rstrip('/')`. */
  function RStripSeps(s: string): (r: string)
    ensures |r| <= |s| && r == s[..|r|]
    ensures r == [] || r[|r| - 1] != '/'
  {
    if s != [] && s[|s| - 1] == '/' then RStripSeps(s[..|s| - 1]) else s
  }

  /** `os.path.dirname`: the text before the last separator, with trailing
      separators removed unless it consists of separators only. */
  function Dirname(p: Path): Path {
    var head := p[..LastIndexOf(p, '/') + 1];
    if head != [] && !AllSeps(head) then RStripSeps(head) else head
  }

  /** What `os.path.join(a, b)` puts in front of a relative `b`. */
  function JoinPrefix(a: Path): Path {
    if a == [] || a[|a| - 1] == '/' then a else a + "/"
  }

  /** `os.path.join(a, b)`: an absolute `b` replaces `a`; otherwise `b` is
      appended after a separator unless `a` is empty or already ends in one. */
  function Join(a: Path, b: Path): (r: Path)
    ensures EndsWith(r, b)
    ensures a == [] ==> r == b
  {
    if |b| > 0 && b[0] == '/' then b else JoinPrefix(a) + b
  }

  /** `os.path.splitext`: the extension starts at the last dot of the last
      component, provided that component has something other than dots
      before it (so `.bashrc` has no extension). */
  function SplitExt(p: Path): (r: (string, string))
    ensures r.0 + r.1 == p
    ensures r.1 == [] || r.1[0] == '.'
    ensures '/' !in r.1
  {
    var sepIndex := LastIndexOf(p, '/');
    var dotIndex := LastIndexOf(p, '.');
    if dotIndex > sepIndex && exists i :: sepIndex + 1 <= i < dotIndex && p[i] != '.' then
      (p[..dotIndex], p[dotIndex..])
    else
      (p, [])
  }

  /** `s.split('/')`: the texts between separators, one more than there are
      separators. */
  function SplitSeps(s: string): (r: seq<string>)
    ensures |r| >= 1
    ensures forall j :: 0 <= j < |r| ==> '/' !in r[j]
    decreases |s|
  {
    var i := LastIndexOf(s, '/');
    if i < 0 then [s] else SplitSeps(s[..i]) + [s[i + 1..]]
  }

  /** `'/'.join(cs)`. */
  function JoinSeps(cs: seq<string>): string
    decreases |cs|
  {
    if cs == [] then ""
    else if |cs| == 1 then cs[0]
    else JoinSeps(cs[..|cs| - 1]) + "/" + cs[|cs| - 1]
  }

  /** A component `normpath` keeps as it is. */
  predicate PlainComponent(c: string) {
    c != "" && c != "." && c != ".." && '/' !in c
  }

  /** One turn of the `normpath` loop: empty and `.` components are dropped;
      `..` is kept where nothing is left to remove (at the start of a relative
      path, or after other `..`), removes the previous component otherwise,
      and is dropped at the root of an absolute path; anything else is kept. */
  function NormStep(acc: seq<string>, c: string, absolute: bool): seq<string> {
    if c == "" || c == "." then acc
    else if c != ".." || (!absolute && acc == []) || (acc != [] && acc[|acc| - 1] == "..") then acc + [c]
    else if acc != [] then acc[..|acc| - 1]
    else acc
  }

  /** The components `normpath` keeps, the loop run over `cs` in order. */
  function NormComps(cs: seq<string>, absolute: bool): seq<string>
    decreases |cs|
  {
    if cs == [] then []
    else NormStep(NormComps(cs[..|cs| - 1], absolute), cs[|cs| - 1], absolute)
  }

  /** What `normpath` keeps: no component is empty or `.`, every `..` comes
      before every other component, and an absolute path keeps no `..`. */
  ghost predicate NormShape(r: seq<string>, absolute: bool) {
    && (forall j :: 0 <= j < |r| ==> r[j] == ".." || PlainComponent(r[j]))
    && (forall i, j :: 0 <= i < j < |r| && r[j] == ".." ==> r[i] == "..")
    && (absolute ==> forall j :: 0 <= j < |r| ==> r[j] != "..")
  }

  /** The components of a path have the shape `normpath` promises once the
      loop has run over them. */
  lemma {:induction false} NormCompsShape(cs: seq<string>, absolute: bool)
    requires forall j :: 0 <= j < |cs| ==> '/' !in cs[j]
    ensures NormShape(NormComps(cs, absolute), absolute)
    decreases |cs|
  {
    if cs != [] {
      var init := cs[..|cs| - 1];
      assert forall j :: 0 <= j < |init| ==> '/' !in init[j] by {
        forall j | 0 <= j < |init| ensures '/' !in init[j] {
          assert init[j] == cs[j];
        }
      }
      NormCompsShape(init, absolute);
      NormStepShape(NormComps(init, absolute), cs[|cs| - 1], absolute);
    }
  }

  /** One turn of the loop keeps the shape. */
  lemma NormStepShape(acc: seq<string>, c: string, absolute: bool)
    requires NormShape(acc, absolute)
    requires '/' !in c
    ensures NormShape(NormStep(acc, c, absolute), absolute)
  {
    var r := NormStep(acc, c, absolute);
    if c == "" || c == "." {
    } else if c != ".." || (!absolute && acc == []) || (acc != [] && acc[|acc| - 1] == "..") {
      assert r == acc + [c];
      forall i, j | 0 <= i < j < |r| && r[j] == ".." ensures r[i] == ".." {
        if j == |acc| {
          if c != ".." {
          } else if acc != [] {
            assert acc[|acc| - 1] == "..";
          }
        } else {
          assert r[j] == acc[j] && r[i] == acc[i];
        }
      }
    } else if acc != [] {
      assert r == acc[..|acc| - 1];
      forall i, j | 0 <= i < j < |r| && r[j] == ".." ensures r[i] == ".." {
        assert r[j] == acc[j] && r[i] == acc[i];
      }
    }
  }

  /** A path that starts at the root: `normpath` drops `..` right after it. */
  predicate IsAbsolute(p: Path) {
    p != [] && p[0] == '/'
  }

  /** The separators `normpath` keeps in front: two for a path starting with
      exactly two, one for any other absolute path, none for a relative one. */
  function LeadingSeps(p: Path): string {
    if |p| >= 2 && p[0] == '/' && p[1] == '/' && !(|p| >= 3 && p[2] == '/') then "//"
    else if p != [] && p[0] == '/' then "/"
    else ""
  }

  /** `os.path.normpath`: the kept components joined by separators after the
      leading ones, or `.` when that is empty. */
  function Normpath(p: Path): Path {
    var lead := LeadingSeps(p);
    var r := lead + JoinSeps(NormComps(SplitSeps(p), IsAbsolute(p)));
    if r == [] then "." else r
  }

  /** `os.path.basename(os.path.normpath(p))`. */
  function NormLast(p: Path): string {
    Basename(Normpath(p))
  }

  /** Splitting at separators and joining again gives the text back. */
  lemma {:induction false} JoinSplitSeps(s: string)
    ensures JoinSeps(SplitSeps(s)) == s
    decreases |s|
  {
    var i := LastIndexOf(s, '/');
    if i >= 0 {
      var init, t := SplitSeps(s[..i]), s[i + 1..];
      var cs := init + [t];
      assert SplitSeps(s) == cs;
      assert cs[..|cs| - 1] == init;
      assert JoinSeps(cs) == JoinSeps(init) + "/" + t;
      JoinSplitSeps(s[..i]);
      assert s == s[..i] + "/" + t;
    }
  }

  /** Joining components that hold no separator and splitting again gives the
      components back. */
  lemma {:induction false} SplitJoinSeps(cs: seq<string>)
    requires |cs| >= 1
    requires forall j :: 0 <= j < |cs| ==> '/' !in cs[j]
    ensures SplitSeps(JoinSeps(cs)) == cs
    decreases |cs|
  {
    var last := cs[|cs| - 1];
    if |cs| == 1 {
      assert JoinSeps(cs) == last;
      NoSepSplit(last);
      assert [last] == cs;
    } else {
      var init := cs[..|cs| - 1];
      assert JoinSeps(cs) == JoinSeps(init) + "/" + last;
      forall j | 0 <= j < |init| ensures '/' !in init[j] {
        assert init[j] == cs[j];
      }
      SplitJoinSeps(init);
      SplitSnoc(JoinSeps(init), last);
      assert init + [last] == cs;
    }
  }

  /** A text without separators is a single part. */
  lemma NoSepSplit(c: string)
    requires '/' !in c
    ensures SplitSeps(c) == [c]
  {
    LastIndexAfterSep([], c);
    assert [] + c == c;
  }

  /** Splitting a text with one more component after a separator gives one
      more part. */
  lemma SplitSnoc(a: string, last: string)
    requires '/' !in last
    ensures SplitSeps(a + "/" + last) == SplitSeps(a) + [last]
  {
    var u := a + "/";
    var s := u + last;
    LastIndexAfterSep(u, last);
    SplitAtLastSep(s);
    assert s[..|a|] == a;
    assert s[|u|..] == last;
  }

  /** After a text ending in a separator, the last separator is its last
      character when what follows holds none. */
  lemma {:induction false} LastIndexAfterSep(u: string, c: string)
    requires u == [] || u[|u| - 1] == '/'
    requires '/' !in c
    ensures LastIndexOf(u + c, '/') == |u| - 1
    decreases |c|
  {
    if c != [] {
      assert (u + c)[..|u + c| - 1] == u + c[..|c| - 1];
      assert c[|c| - 1] in c;
      LastIndexAfterSep(u, c[..|c| - 1]);
    } else {
      assert u + c == u;
    }
  }

  /** No component is `.` or `..`. */
  predicate NoDotComponents(cs: seq<string>) {
    forall j :: 0 <= j < |cs| ==> cs[j] != "." && cs[j] != ".."
  }

  /** For a path none of whose components is `.` or `..`, the last component
      of `normpath` is the basename once trailing separators are removed. */
  lemma NormLastPlain(p: Path)
    requires NoDotComponents(SplitSeps(p))
    requires RStripSeps(p) != []
    ensures NormLast(p) == Basename(RStripSeps(p))
  {
    LastKeptComponent(p, IsAbsolute(p));
    NormLastOfKept(p);
  }

  /** When `normpath` keeps a last component, that is its basename. */
  lemma NormLastOfKept(p: Path)
    requires var cs := NormComps(SplitSeps(p), IsAbsolute(p));
             cs != [] && '/' !in cs[|cs| - 1]
    ensures var cs := NormComps(SplitSeps(p), IsAbsolute(p));
            NormLast(p) == cs[|cs| - 1]
  {
    NormpathOfKept(p);
    BasenameOfJoined(LeadingSeps(p), NormComps(SplitSeps(p), IsAbsolute(p)));
  }

  /** When `normpath` keeps a component, its result is the leading separators
      followed by the kept components. */
  lemma NormpathOfKept(p: Path)
    requires NormComps(SplitSeps(p), IsAbsolute(p)) != []
    ensures LeadingSeps(p) == "" || LeadingSeps(p) == "/" || LeadingSeps(p) == "//"
    ensures Normpath(p) == LeadingSeps(p) + JoinSeps(NormComps(SplitSeps(p), IsAbsolute(p)))
  {
    var cs := NormComps(SplitSeps(p), IsAbsolute(p));
    assert |JoinSeps(cs)| > 0 by {
      if |cs| > 1 {
        assert JoinSeps(cs) == JoinSeps(cs[..|cs| - 1]) + "/" + cs[|cs| - 1];
      } else {
        NormCompsShape(SplitSeps(p), IsAbsolute(p));
        assert cs[0] == ".." || PlainComponent(cs[0]);
      }
    }
  }

  /** The basename of components joined after leading separators is the last
      component. */
  lemma BasenameOfJoined(lead: string, cs: seq<string>)
    requires lead == "" || lead == "/" || lead == "//"
    requires cs != [] && '/' !in cs[|cs| - 1]
    ensures Basename(lead + JoinSeps(cs)) == cs[|cs| - 1]
  {
    if |cs| == 1 {
      BasenameOfSingle(lead, cs);
    } else {
      BasenameOfSeveral(lead, cs);
    }
  }

  /** One component: the basename is that component. */
  lemma BasenameOfSingle(lead: string, cs: seq<string>)
    requires lead == "" || lead == "/" || lead == "//"
    requires |cs| == 1 && '/' !in cs[0]
    ensures Basename(lead + JoinSeps(cs)) == cs[0]
  {
    assert lead + JoinSeps(cs) == lead + cs[0];
    assert lead == [] || lead[|lead| - 1] == '/';
    BasenameAfterSep(lead, cs[0]);
  }

  /** Several components: the basename is the one after the last separator. */
  lemma BasenameOfSeveral(lead: string, cs: seq<string>)
    requires |cs| > 1 && '/' !in cs[|cs| - 1]
    ensures Basename(lead + JoinSeps(cs)) == cs[|cs| - 1]
  {
    var u := lead + JoinSeps(cs[..|cs| - 1]) + "/";
    assert lead + JoinSeps(cs) == u + cs[|cs| - 1];
    BasenameAfterSep(u, cs[|cs| - 1]);
  }

  /** After a text ending in a separator, the basename is what follows. */
  lemma BasenameAfterSep(u: string, c: string)
    requires u == [] || u[|u| - 1] == '/'
    requires '/' !in c
    ensures Basename(u + c) == c
  {
    LastIndexAfterSep(u, c);
    assert (u + c)[|u|..] == c;
  }

  /** The components of a path are those before its last separator followed
      by the text after it. */
  lemma SplitAtLastSep(p: Path)
    requires LastIndexOf(p, '/') >= 0
    ensures SplitSeps(p) == SplitSeps(p[..LastIndexOf(p, '/')]) + [p[LastIndexOf(p, '/') + 1..]]
  {
  }

  /** `normpath` takes the components one at a time, from the first. */
  lemma NormCompsSnoc(init: seq<string>, t: string, absolute: bool)
    ensures NormComps(init + [t], absolute) == NormStep(NormComps(init, absolute), t, absolute)
  {
    assert (init + [t])[..|init|] == init;
  }

  /** A path ending in its last separator loses it to `rstrip`. */
  lemma RStripAtLastSep(p: Path, i: int)
    requires i == LastIndexOf(p, '/') && i >= 0 && p[i + 1..] == []
    ensures RStripSeps(p) == RStripSeps(p[..i])
  {
    assert p[..i] == p[..|p| - 1];
  }

  /** A path with text after its last separator is unchanged by `rstrip`. */
  lemma RStripAfterLastSep(p: Path, i: int)
    requires i == LastIndexOf(p, '/') && p[i + 1..] != []
    ensures RStripSeps(p) == p
  {
    assert p[|p| - 1] == p[i + 1..][|p[i + 1..]| - 1];
  }

  /** The parts of components without `.` and `..` have none either. */
  lemma NoDotParts(init: seq<string>, t: string)
    requires NoDotComponents(init + [t])
    ensures NoDotComponents(init) && t != "." && t != ".."
  {
    assert (init + [t])[|init|] == t;
    forall j | 0 <= j < |init| ensures init[j] != "." && init[j] != ".." {
      assert init[j] == (init + [t])[j];
    }
  }

  /** Without `.` and `..` components, the last component `normpath` keeps is
      the last non-empty one. */
  lemma {:induction false} LastKeptComponent(p: Path, absolute: bool)
    requires NoDotComponents(SplitSeps(p))
    requires RStripSeps(p) != []
    ensures var cs := NormComps(SplitSeps(p), absolute);
            cs != [] && cs[|cs| - 1] == Basename(RStripSeps(p))
    decreases |p|
  {
    var i := LastIndexOf(p, '/');
    if i >= 0 {
      var t := p[i + 1..];
      var init := SplitSeps(p[..i]);
      SplitAtLastSep(p);
      NoDotParts(init, t);
      NormCompsSnoc(init, t, absolute);
      if t == [] {
        RStripAtLastSep(p, i);
        LastKeptComponent(p[..i], absolute);
        assert NormStep(NormComps(init, absolute), t, absolute) == NormComps(init, absolute);
      } else {
        RStripAfterLastSep(p, i);
      }
    } else {
      assert SplitSeps(p) == [p];
      assert RStripSeps(p) == p;
    }
  }

  /** `normpath` resolves `..` before the last component is taken: the last
      component of `/x/y/..` is `x`, not `..`. */
  lemma NormLastParent(x: string, y: string)
    requires PlainComponent(x) && PlainComponent(y)
    ensures NormLast("/" + x + "/" + y + "/..") == x
  {
    var p := "/" + x + "/" + y + "/..";
    var cs := ["", x, y, ".."];
    JoinParentPath(x, y);
    SplitJoinSeps(cs);
    assert IsAbsolute(p);
    NormCompsParentPath(x, y);
    NormLastOfKept(p);
  }

  /** The components of `/x/y/..` joined back. */
  lemma JoinParentPath(x: string, y: string)
    ensures JoinSeps(["", x, y, ".."]) == "/" + x + "/" + y + "/.."
  {
    var c1, c2, c3 := [""], ["", x], ["", x, y];
    JoinSepsSnoc(c1, x);
    assert c1 + [x] == c2;
    JoinSepsSnoc(c2, y);
    assert c2 + [y] == c3;
    JoinSepsSnoc(c3, "..");
    assert c3 + [".."] == ["", x, y, ".."];
  }

  /** `normpath` keeps only `x` of the components of `/x/y/..`. */
  lemma NormCompsParentPath(x: string, y: string)
    requires PlainComponent(x) && PlainComponent(y)
    ensures NormComps(["", x, y, ".."], true) == [x]
  {
    var c1, c2, c3 := [""], ["", x], ["", x, y];
    assert NormComps(c1, true) == [];
    NormCompsSnoc(c1, x, true);
    assert c1 + [x] == c2;
    NormCompsSnoc(c2, y, true);
    assert c2 + [y] == c3;
    NormCompsSnoc(c3, "..", true);
    assert c3 + [".."] == ["", x, y, ".."];
  }

  /** Joining one more component appends a separator and the component. */
  lemma JoinSepsSnoc(init: seq<string>, t: string)
    requires init != []
    ensures JoinSeps(init + [t]) == JoinSeps(init) + "/" + t
  {
    assert (init + [t])[..|init|] == init;
  }

  /** A name without separators joined under a directory that does not end
      in one has that directory as its `dirname`. */
  lemma DirnameOfChild(d: Path, name: string)
    requires d != [] && d[|d| - 1] != '/'
    requires '/' !in name
    ensures Dirname(Join(d, name)) == d
  {
    JoinRelative(d, name);
    var pre := d + "/";
    var out := pre + name;
    assert Join(d, name) == out;
    forall i | |pre| <= i < |out| ensures out[i] != '/' {
      assert out[i] == name[i - |pre|];
      assert name[i - |pre|] in name;
    }
    assert out[|pre| - 1] == '/';
    assert LastIndexOf(out, '/') == |d|;
    var head := out[..|d| + 1];
    assert head == pre;
    assert head[|d| - 1] != '/';
    assert head[..|head| - 1] == d;
    assert RStripSeps(head) == RStripSeps(d) == d;
  }

  /** Joining a relative name with no separator in it yields a direct child:
      the directory text, one separator where needed, then the name. */
  lemma JoinRelative(a: Path, b: string)
    requires '/' !in b
    ensures Join(a, b) == JoinPrefix(a) + b
  {
    if |b| > 0 {
      assert b[0] in b;
    }
  }

  /** `join` discards the directory for an absolute name; for a relative one
      the result is the directory, a separator when the directory is
      non-empty and does not end in one, and the name. */
  lemma JoinRule(a: Path, b: Path)
    ensures |b| > 0 && b[0] == '/' ==> Join(a, b) == b
    ensures !(|b| > 0 && b[0] == '/') ==>
              && |Join(a, b)| == |a| + |b| + (if a != [] && a[|a| - 1] != '/' then 1 else 0)
              && Join(a, b)[..|a|] == a
              && (a != [] && a[|a| - 1] != '/' ==> Join(a, b)[|a|] == '/')
  {
  }

  /** The basename is the whole last component: it holds no separator, and
      it is either the whole path or preceded by a separator. */
  lemma BasenameIsLastComponent(p: Path)
    ensures var r := Basename(p);
            && '/' !in r
            && EndsWith(p, r)
            && (|r| < |p| ==> p[|p| - |r| - 1] == '/')
  {
  }

  /** Where `splitext` splits: at the last dot when the last component has
      something other than dots before it, and nowhere otherwise. */
  lemma SplitExtAtLastDot(p: Path)
    ensures var r := SplitExt(p);
            && (r.1 != [] ==> |r.0| == LastIndexOf(p, '.'))
            && (r.1 != [] <==> LastIndexOf(p, '/') < LastIndexOf(p, '.')
                               && exists i :: LastIndexOf(p, '/') < i < LastIndexOf(p, '.') && p[i] != '.')
  {
  }

  /** The splitting of `splitext` on a basename gives parts without separators. */
  lemma SplitExtOfBasename(p: Path)
    ensures '/' !in SplitExt(Basename(p)).0
    ensures '/' !in SplitExt(Basename(p)).1
  {
  }
}
