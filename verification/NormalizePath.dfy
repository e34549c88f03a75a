/** `nfs_normalize_path`: an in-place rewriter of a NUL-terminated buffer,
    proved to compute the component-stack meaning of `PathSpec`. */
module NormalizePath {
  import opened Prelude
  import opened PathSpec

  /** The C string held by a buffer: everything before the first NUL. */
  function Text(buf: seq<char>): string {
    if buf == [] || buf[0] == '\0' then "" else [buf[0]] + Text(buf[1..])
  }

  /** `buf` holds a C string of length `n`. */
  predicate Holds(buf: seq<char>, n: nat) {
    n < |buf| && buf[n] == '\0' && forall i :: 0 <= i < n ==> buf[i] != '\0'
  }

  predicate At(s: string, pat: string, i: nat) {
    i + |pat| <= |s| && s[i..i + |pat|] == pat
  }

  ghost predicate Free(s: string, pat: string) {
    forall i: nat :: !At(s, pat, i)
  }

  lemma {:induction false} TextIs(buf: seq<char>, n: nat)
    requires Holds(buf, n)
    ensures Text(buf) == buf[..n]
    decreases n
  {
    if n > 0 {
      TextIs(buf[1..], n - 1);
      assert buf[..n] == [buf[0]] + buf[1..][..n - 1];
    }
  }

  // ---- the rewriting rules on strings ----

  /** What every rewriting rule keeps. */
  predicate SameMeaning(s: string, t: string) {
    Eval(s) == Eval(t) && Absolute(s) == Absolute(t) && EndsInSlash(s) == EndsInSlash(t)
  }

  lemma Cut(s: string, u: string, mid: string, v: string)
    requires s == u + "/" + mid + "/" + v
    requires forall st: Option<seq<string>> :: Run(st, Split(mid)) == st
    ensures SameMeaning(s, u + "/" + v)
  {
    CutOut(u, mid, v);
  }

  lemma SlashRule(s: string, i: nat)
    requires At(s, "//", i)
    ensures SameMeaning(s, s[..i] + s[i + 1..])
  {
    var u, v := s[..i], s[i + 2..];
    assert s[i..i + 2] == "//";
    assert s == s[..i] + s[i..i + 2] + s[i + 2..];
    assert s == u + "/" + "" + "/" + v;
    assert s[..i] + s[i + 1..] == u + "/" + v by {
      assert s[i + 1] == s[i..i + 2][1];
      assert s[i + 1..] == [s[i + 1]] + s[i + 2..];
    }
    forall st: Option<seq<string>> ensures Run(st, Split("")) == st {
      RunOne(st, "");
    }
    Cut(s, u, "", v);
  }

  lemma DotRule(s: string, i: nat)
    requires At(s, "/./", i)
    ensures SameMeaning(s, s[..i] + s[i + 2..])
  {
    var u, v := s[..i], s[i + 3..];
    assert s[i..i + 3] == "/./";
    assert s == s[..i] + s[i..i + 3] + s[i + 3..];
    assert s == u + "/" + "." + "/" + v;
    assert s[..i] + s[i + 2..] == u + "/" + v by {
      assert s[i + 2] == s[i..i + 3][2];
      assert s[i + 2..] == [s[i + 2]] + s[i + 3..];
    }
    SplitPlain(".");
    forall st: Option<seq<string>> ensures Run(st, Split(".")) == st {
      RunOne(st, ".");
    }
    Cut(s, u, ".", v);
  }

  lemma NamedThenParent(x: string, st: Option<seq<string>>)
    requires Named(x)
    ensures Run(st, Split(x + "/" + "..")) == st
  {
    SplitOfJoin(x, "..");
    SplitPlain(x);
    SplitPlain("..");
    RunConcat(st, [x], [".."]);
    RunOne(st, x);
    RunOne(Push(st, x), "..");
    if st.Some? {
      assert (st.value + [x])[..|st.value|] == st.value;
    }
  }

  lemma Regroup(s: string, j: nat, i: nat)
    requires j < i && At(s, "/../", i) && s[j] == '/'
    ensures s == s[..j] + "/" + (s[j + 1..i] + "/" + "..") + "/" + s[i + 4..]
    ensures s[..j] + s[i + 3..] == s[..j] + "/" + s[i + 4..]
  {
    var p := s[i..i + 4];
    assert p == "/../";
    assert s[i] == p[0] && s[i + 1] == p[1] && s[i + 2] == p[2] && s[i + 3] == p[3];
  }

  /** "/x/../" at `j` collapses to "/" for a named `x`. */
  lemma ParentRule(s: string, j: nat, i: nat)
    requires j < i && At(s, "/../", i) && s[j] == '/' && Named(s[j + 1..i])
    ensures SameMeaning(s, s[..j] + s[i + 3..])
  {
    var u, x, v := s[..j], s[j + 1..i], s[i + 4..];
    Regroup(s, j, i);
    forall st: Option<seq<string>> ensures Run(st, Split(x + "/" + "..")) == st {
      NamedThenParent(x, st);
    }
    Cut(s, u, x + "/" + "..", v);
  }

  /** Joining a prefix that ends just before a slash to a suffix that starts
      with one cannot create a pattern that begins and ends with a slash. */
  lemma JoinKeepsFree(s: string, j: nat, k: nat, pat: string)
    requires j < k < |s| && s[j] == s[k] == '/'
    requires Free(s, pat)
    requires pat == "//" || pat == "/./"
    ensures Free(s[..j] + s[k..], pat)
  {
    var t := s[..j] + s[k..];
    forall i: nat ensures !At(t, pat, i) {
      if i >= j {
        assert !At(s, pat, i + (k - j));
        SameWindow(s, k - j, t, i, pat);
      } else if i + |pat| <= j + 1 {
        assert !At(s, pat, i);
        SameWindow(s, 0, t, i, pat);
      } else {
        assert t[i + 1] == '/' && pat[1] == '.';
        assert i + |pat| <= |t| ==> t[i..i + |pat|][1] == t[i + 1];
      }
    }
  }

  lemma SameWindow(s: string, d: nat, t: string, b: nat, pat: string)
    requires b + |pat| <= |t| ==> b + d + |pat| <= |s| && forall p :: b <= p < b + |pat| ==> t[p] == s[p + d]
    requires !At(s, pat, b + d)
    ensures !At(t, pat, b)
  {
    if b + |pat| <= |t| {
      assert s[b + d..b + d + |pat|] == t[b..b + |pat|];
    }
  }

  /** In a path free of "//" and "/./", what stands before the first "/../" is a name. */
  lemma BeforeParent(s: string, j: nat, i: nat)
    requires Free(s, "//") && Free(s, "/./")
    requires j < i && At(s, "/../", i) && (forall k: nat :: k < i ==> !At(s, "/../", k))
    requires s[j] == '/' && '/' !in s[j + 1..i]
    ensures Named(s[j + 1..i])
  {
    var x := s[j + 1..i];
    assert s[i..i + 4] == "/../";
    assert s[i] == s[i..i + 4][0] == '/';
    BetweenSlashes(s, j, x);
    assert !At(s, "/../", j);
  }

  /** A piece between two slashes is a name unless one of the patterns stands there. */
  lemma BetweenSlashes(s: string, j: nat, x: string)
    requires j + |x| + 1 < |s| && s[j] == s[j + |x| + 1] == '/'
    requires s[j + 1..j + 1 + |x|] == x && '/' !in x
    requires !At(s, "//", j) && !At(s, "/./", j)
    ensures Named(x) || At(s, "/../", j)
  {
    var pat := "/" + x + "/";
    assert s[j..j + |pat|] == pat;
    assert x == "" ==> pat == "//";
    assert x == "." ==> pat == "/./";
    assert x == ".." ==> pat == "/../";
  }

  lemma StartsWithParent(s: string)
    requires At(s, "/../", 0)
    ensures Eval(s) == None
  {
    var v := s[4..];
    assert s == s[0..4] + v;
    assert s == ("" + "/" + "..") + "/" + v;
    SplitOfJoin("" + "/" + "..", v);
    SplitOfJoin("", "..");
    SplitPlain("");
    SplitPlain("..");
    RunConcat(Some([]), ["", ".."], Split(v));
    RunNone(Split(v));
    assert [""] + [".."] == ["", ".."];
    RunConcat(Some([]), [""], [".."]);
    RunOne(Some([]), "");
    RunOne(Some([]), "..");
  }

  // ---- what is left after the three rewriting loops ----

  ghost predicate Settled(s: string) {
    Absolute(s) && Free(s, "//") && Free(s, "/./") && Free(s, "/../")
  }

  lemma {:induction false} FirstPiece(s: string)
    requires |Split(s)| > 1
    ensures var c := Split(s)[0]; |c| < |s| && s[..|c|] == c && s[|c|] == '/'
  {
    if s[0] != '/' {
      FirstPiece(s[1..]);
      var c := Split(s[1..])[0];
      assert s[..|c| + 1] == [s[0]] + s[1..][..|c|];
    }
  }

  lemma FreeTail(s: string, pat: string)
    requires s != "" && Free(s, pat)
    ensures Free(s[1..], pat)
  {
    forall i: nat | At(s[1..], pat, i) ensures false {
      assert s[i + 1..i + 1 + |pat|] == s[1..][i..i + |pat|];
      assert At(s, pat, i + 1);
    }
  }

  lemma {:induction false} MiddleIsNamed(s: string)
    requires Free(s, "//") && Free(s, "/./") && Free(s, "/../")
    ensures forall k :: 0 < k < |Split(s)| - 1 ==> Named(Split(s)[k])
  {
    if s != "" {
      FreeTail(s, "//");
      FreeTail(s, "/./");
      FreeTail(s, "/../");
      MiddleIsNamed(s[1..]);
      SplitHasNoSlash(s);
      var r := Split(s[1..]);
      if s[0] == '/' && |r| > 1 {
        FirstPiece(s[1..]);
        var c := r[0];
        assert s[1..][..|c|] == s[1..|c| + 1];
        assert s[|c| + 1] == s[1..][|c|];
        SplitHasNoSlash(s[1..]);
        assert !At(s, "/../", 0);
        BetweenSlashes(s, 0, c);
      }
    }
  }

  lemma {:induction false} RenderSnoc(st: seq<string>, t: string)
    ensures Render(st + [t]) == Render(st) + "/" + t
  {
    if st == [] {
      assert [] + [t] == [t];
      assert [t][1..] == [];
      assert Render([t]) == "/" + t + Render([]);
      assert Render([t]) == "/" + t;
    } else {
      RenderSnoc(st[1..], t);
      assert (st + [t])[1..] == st[1..] + [t];
      assert Render(st + [t]) == "/" + st[0] + (Render(st[1..]) + "/" + t);
    }
  }

  /** A settled path is a list of names followed by one last piece `t`. */
  lemma SettledShape(s: string) returns (st: seq<string>, t: string)
    requires Settled(s)
    ensures s == Render(st) + "/" + t && AllNamed(st) && '/' !in t
    ensures Eval(s) == Push(Some(st), t)
  {
    var cs := Split(s);
    MiddleIsNamed(s);
    SplitHasNoSlash(s);
    UnsplitOfSplit(s);
    assert cs[0] == "" && |cs| > 1;
    st, t := cs[1..|cs| - 1], cs[|cs| - 1];
    assert cs == [""] + (st + [t]);
    UnsplitIsRender(st + [t]);
    RenderSnoc(st, t);
    RunConcat(Some([]), [""], st + [t]);
    RunOne(Some([]), "");
    RunConcat(Some([]), st, [t]);
    RunNamed([], st);
    assert [] + st == st;
    RunOne(Some(st), t);
  }

  /** The suffix tests of the last phase are decided by the last piece. */
  lemma SuffixTests(s: string, h: string, t: string)
    requires s == h + "/" + t && '/' !in t
    ensures EndsInSlash(s) <==> t == ""
    ensures |s| >= 2 && s[|s| - 2..] == "/." <==> t == "."
    ensures |s| >= 3 && s[|s| - 3..] == "/.." <==> t == ".."
    ensures s == "/.." <==> h == "" && t == ".."
  {
    assert s[|h|] == '/';
    assert s[|h| + 1..] == t;
    if |s| >= 2 && s[|s| - 2..] == "/." {
      assert s[|s| - 2] == s[|s| - 2..][0] == '/';
      assert s[|s| - 1] == s[|s| - 2..][1] == '.';
      assert |t| < 2;
      assert |t| == 1 && t[0] == '.';
      assert t == ".";
    }
    if t == "." {
      assert s[|s| - 2..] == "/.";
    }
    if |s| >= 3 && s[|s| - 3..] == "/.." {
      assert s[|s| - 3] == s[|s| - 3..][0] == '/';
      assert s[|s| - 2] == s[|s| - 3..][1] == '.';
      assert s[|s| - 1] == s[|s| - 3..][2] == '.';
      assert |t| == 2 && t == "..";
    }
    if t == ".." {
      assert s[|s| - 3..] == "/..";
    }
    if s == "/.." {
      assert s[|s| - 3..] == s;
      assert t == "..";
    }
  }

  // ---- the C library calls ----

  method StrLen(path: array<char>) returns (n: nat)
    requires '\0' in path[..]
    ensures Holds(path[..], n)
  {
    n := 0;
    while path[n] != '\0'
      invariant n < path.Length
      invariant forall i :: 0 <= i < n ==> path[i] != '\0'
      invariant '\0' in path[n..]
      decreases path.Length - n
    {
      n := n + 1;
    }
  }

  /** `strstr`: the first place of `pat`, or -1. */
  method StrStr(path: array<char>, pat: string) returns (i: int)
    requires '\0' in path[..] && '\0' !in pat && pat != ""
    ensures i >= 0 ==> At(Text(path[..]), pat, i) && forall k: nat :: k < i ==> !At(Text(path[..]), pat, k)
    ensures i < 0 ==> Free(Text(path[..]), pat)
  {
    var n := StrLen(path);
    TextIs(path[..], n);
    i := 0;
    while i + |pat| <= n
      invariant 0 <= i
      invariant forall k: nat :: k < i ==> !At(path[..n], pat, k)
    {
      if path[i..i + |pat|] == pat {
        assert path[..n][i..i + |pat|] == pat;
        return;
      }
      assert path[..n][i..i + |pat|] == path[i..i + |pat|];
      i := i + 1;
    }
    i := -1;
  }

  // ---- the rewriting loops ----

  /** The buffer after its text shrank from `s` by dropping `s[i..i + k]`. */
  lemma Shrunk(buf: seq<char>, s: string, i: nat, k: nat)
    requires 0 < k && i + k <= |s| < |buf| && '\0' !in s
    requires forall p :: 0 <= p < i ==> buf[p] == s[p]
    requires forall p :: i <= p < |s| - k ==> buf[p] == s[p + k]
    requires buf[|s| - k] == '\0'
    ensures Text(buf) == s[..i] + s[i + k..] && Holds(buf, |s| - k)
  {
    var n := |s| - k;
    assert Holds(buf, n) by {
      forall p | 0 <= p < n ensures buf[p] != '\0' {
        if p < i { assert buf[p] in s; } else { assert s[p + k] in s; }
      }
    }
    TextIs(buf, n);
    assert buf[..n] == s[..i] + s[i + k..];
  }

  /** Copies the text from `from` on, with its NUL, down to `to`. */
  method CopyDown(path: array<char>, to: nat, from: nat, ghost n: nat)
    requires Holds(path[..], n) && to < from <= n
    modifies path
    ensures Text(path[..]) == old(path[..n])[..to] + old(path[..n])[from..]
    ensures '\0' in path[..]
  {
    ghost var s := path[..n];
    var dst, src := to, from;
    while path[src] != '\0'
      invariant from <= src <= n && dst == to + (src - from)
      invariant forall p :: 0 <= p < to ==> path[p] == s[p]
      invariant forall p :: to <= p < dst ==> path[p] == s[p + (from - to)]
      invariant forall p :: dst <= p < path.Length ==> path[p] == old(path[p])
      decreases n - src
    {
      path[dst] := path[src];
      dst, src := dst + 1, src + 1;
    }
    path[dst] := '\0';
    Shrunk(path[..], s, to, from - to);
    assert path[dst] in path[..];
  }

  /** "//" becomes "/". */
  method SquashSlashes(path: array<char>)
    requires '\0' in path[..]
    modifies path
    ensures '\0' in path[..]
    ensures SameMeaning(Text(path[..]), Text(old(path[..])))
    ensures Free(Text(path[..]), "//")
  {
    hide Text, Eval, Free;
    var str := StrStr(path, "//");
    while str >= 0
      invariant '\0' in path[..]
      invariant SameMeaning(Text(path[..]), Text(old(path[..])))
      invariant str >= 0 ==> At(Text(path[..]), "//", str)
      invariant str < 0 ==> Free(Text(path[..]), "//")
      decreases |Text(path[..])|, str
    {
      ghost var n := |Text(path[..])|;
      HoldsText(path[..]);
      SlashRule(path[..n], str);
      CopyDown(path, str, str + 1, n);
      str := StrStr(path, "//");
    }
  }

  lemma {:induction false} HoldsText(buf: seq<char>)
    requires '\0' in buf
    ensures Holds(buf, |Text(buf)|) && Text(buf) == buf[..|Text(buf)|]
  {
    if buf[0] != '\0' {
      HoldsText(buf[1..]);
      var n := |Text(buf[1..])|;
      assert buf[..n + 1] == [buf[0]] + buf[1..][..n];
      assert buf[n + 1] == buf[1..][n];
    }
  }

  /** "/./" becomes "/". */
  method DropDots(path: array<char>)
    requires '\0' in path[..] && Free(Text(path[..]), "//")
    modifies path
    ensures '\0' in path[..]
    ensures SameMeaning(Text(path[..]), Text(old(path[..])))
    ensures Free(Text(path[..]), "//") && Free(Text(path[..]), "/./")
  {
    hide Text, Eval, Free;
    var str := StrStr(path, "/./");
    while str >= 0
      invariant '\0' in path[..] && Free(Text(path[..]), "//")
      invariant SameMeaning(Text(path[..]), Text(old(path[..])))
      invariant str >= 0 ==> At(Text(path[..]), "/./", str)
      invariant str < 0 ==> Free(Text(path[..]), "/./")
      decreases |Text(path[..])|, str
    {
      ghost var s := Text(path[..]);
      HoldsText(path[..]);
      DotRule(s, str);
      assert s[str] == s[str..str + 3][0] && s[str + 2] == s[str..str + 3][2];
      JoinKeepsFree(s, str, str + 2, "//");
      CopyDown(path, str, str + 2, |s|);
      str := StrStr(path, "/./");
    }
  }

  /** The nearest slash before `from`. */
  method SlashBefore(path: array<char>, from: nat) returns (tmp: nat)
    requires 0 < from <= path.Length && path[0] == '/'
    ensures tmp < from && path[tmp] == '/' && '/' !in path[tmp + 1..from]
  {
    tmp := from - 1;
    while path[tmp] != '/'
      invariant tmp < from && '/' !in path[tmp + 1..from]
      decreases tmp
    {
      tmp := tmp - 1;
    }
  }

  lemma FoldStep(s: string, j: nat, i: nat)
    requires Absolute(s) && Free(s, "//") && Free(s, "/./")
    requires j < i && At(s, "/../", i) && (forall k: nat :: k < i ==> !At(s, "/../", k))
    requires s[j] == '/' && '/' !in s[j + 1..i]
    ensures var t := s[..j] + s[i + 3..];
      SameMeaning(s, t) && Free(t, "//") && Free(t, "/./")
  {
    BeforeParent(s, j, i);
    ParentRule(s, j, i);
    assert s[i + 3] == s[i..i + 4][3];
    JoinKeepsFree(s, j, i + 3, "//");
    JoinKeepsFree(s, j, i + 3, "/./");
  }

  /** "/name/../" becomes "/"; a leading "/../" is refused. */
  method FoldParents(path: array<char>) returns (r: int)
    requires '\0' in path[..] && Absolute(Text(path[..]))
    requires Free(Text(path[..]), "//") && Free(Text(path[..]), "/./")
    modifies path
    ensures r == 0 || r == -1
    ensures '\0' in path[..]
    ensures r != 0 ==> Eval(Text(old(path[..]))) == None
    ensures r == 0 ==> Settled(Text(path[..])) && SameMeaning(Text(path[..]), Text(old(path[..])))
  {
    hide Text, Eval, Free, Named;
    var str := StrStr(path, "/../");
    while str >= 0
      invariant '\0' in path[..] && Absolute(Text(path[..]))
      invariant Free(Text(path[..]), "//") && Free(Text(path[..]), "/./")
      invariant SameMeaning(Text(path[..]), Text(old(path[..])))
      invariant str >= 0 ==>
        At(Text(path[..]), "/../", str) && forall k: nat :: k < str ==> !At(Text(path[..]), "/../", k)
      invariant str < 0 ==> Free(Text(path[..]), "/../")
      decreases |Text(path[..])|, str
    {
      ghost var s := Text(path[..]);
      HoldsText(path[..]);
      if str == 0 {
        StartsWithParent(s);
        return -1;
      }
      var tmp := SlashBefore(path, str);
      assert s[tmp + 1..str] == path[tmp + 1..str];
      FoldStep(s, tmp, str);
      CopyDown(path, tmp, str + 3, |s|);
      str := StrStr(path, "/../");
    }
    return 0;
  }

  /** Cuts the text at `n`. */
  lemma Cropped(buf: seq<char>, buf': seq<char>, n: nat)
    requires Holds(buf, |Text(buf)|) && n <= |Text(buf)| && buf' == buf[n := '\0']
    ensures '\0' in buf' && Text(buf') == Text(buf)[..n] && Holds(buf', n)
  {
    TextIs(buf, |Text(buf)|);
    TextIs(buf', n);
    assert buf'[n] in buf';
    assert buf'[..n] == buf[..|Text(buf)|][..n];
  }

  lemma LastSlash(p: string, h: string, x: string, tmp: nat)
    requires p == h + "/" + x && '/' !in x
    requires tmp < |p| && p[tmp] == '/' && '/' !in p[tmp + 1..]
    ensures tmp == |h|
  {
    assert p[|h|] == '/';
    forall k | |h| < k < |p| ensures p[k] != '/' {
      assert p[k] == x[k - |h| - 1];
    }
    forall k | tmp < k < |p| ensures p[k] != '/' {
      assert p[k] == p[tmp + 1..][k - tmp - 1];
    }
  }

  /** `s` is the names `st` followed by one last piece `t`. */
  predicate Shape(s: string, st: seq<string>, t: string) {
    s == Render(st) + "/" + t && AllNamed(st) && '/' !in t
  }

  lemma RenderStart(st: seq<string>)
    ensures Render(st) == "" <==> st == []
    ensures st != [] ==> Render(st)[0] == '/'
  {
  }

  lemma RenderShape(st: seq<string>)
    requires AllNamed(st) && st != []
    ensures Shape(Render(st), st[..|st| - 1], st[|st| - 1])
  {
    RenderLast(st);
    assert Named(st[|st| - 1]);
  }

  lemma RenderLast(st: seq<string>)
    requires st != []
    ensures Render(st) == Render(st[..|st| - 1]) + "/" + st[|st| - 1]
  {
    hide *;
    var n := |st| - 1;
    RenderSnoc(st[..n], st[n]);
    assert st[..n] + [st[n]] == st;
  }

  /** The slash before a trailing "/.." is where the last name starts. */
  lemma ParentSuffix(s: string, st: seq<string>, tmp: nat)
    requires s == Render(st) + "/" + ".." && AllNamed(st) && st != []
    requires tmp < |s| - 3 && s[tmp] == '/' && '/' !in s[tmp + 1..|s| - 3]
    ensures s[..tmp] == Render(st[..|st| - 1])
  {
    RenderLast(st);
    assert Named(st[|st| - 1]);
    CutAtLast(s, Render(st[..|st| - 1]), st[|st| - 1], tmp);
  }

  lemma CutAtLast(s: string, h: string, x: string, tmp: nat)
    requires s == h + "/" + x + "/" + ".." && '/' !in x
    requires tmp < |s| - 3 && s[tmp] == '/' && '/' !in s[tmp + 1..|s| - 3]
    ensures s[..tmp] == h
  {
    var p := h + "/" + x;
    assert s[..|p|] == p;
    assert p[tmp + 1..] == s[tmp + 1..|p|];
    LastSlash(p, h, x, tmp);
  }

  lemma SlashEnd(s: string, st: seq<string>, t: string)
    requires Shape(s, st, t)
    ensures |s| > 1 && s[|s| - 1] == '/' <==> t == "" && st != []
    ensures t == "" ==> s[..|s| - 1] == Render(st)
  {
    hide Render, AllNamed;
    RenderStart(st);
    SuffixTests(s, Render(st), t);
    assert |s| == |Render(st)| + 1 + |t|;
  }

  lemma DotEnd(s: string, st: seq<string>, t: string)
    requires Shape(s, st, t)
    ensures |s| >= 2 && s[|s| - 2] == '/' && s[|s| - 1] == '.' <==> t == "."
    ensures t == "." ==> s[..|s| - 2] == Render(st)
  {
    hide Render, AllNamed;
    SuffixTests(s, Render(st), t);
    if |s| >= 2 {
      assert s[|s| - 2..] == [s[|s| - 2], s[|s| - 1]];
    }
  }

  /** Cuts a trailing "/" from anything but "/". */
  method TrimSlash(path: array<char>, ghost st: seq<string>, ghost t: string)
    requires '\0' in path[..] && Shape(Text(path[..]), st, t)
    modifies path
    ensures '\0' in path[..]
    ensures Text(path[..]) == if t == "" && st != [] then Render(st) else Text(old(path[..]))
  {
    hide Text, Shape, Render;
    SlashEnd(Text(path[..]), st, t);
    HoldsText(path[..]);
    var len := StrLen(path);
    TextIs(path[..], len);
    ghost var b := path[..];
    if len > 1 && path[len - 1] == '/' {
      path[len - 1] := '\0';
      Cropped(b, path[..], len - 1);
    }
  }

  /** Cuts a trailing "/.". */
  method TrimDot(path: array<char>, ghost st: seq<string>, ghost t: string)
    requires '\0' in path[..] && Shape(Text(path[..]), st, t)
    modifies path
    ensures '\0' in path[..]
    ensures Text(path[..]) == if t == "." then Render(st) else Text(old(path[..]))
  {
    hide Text, Shape, Render;
    DotEnd(Text(path[..]), st, t);
    HoldsText(path[..]);
    var len := StrLen(path);
    TextIs(path[..], len);
    ghost var b := path[..];
    if len >= 2 && path[len - 2] == '/' && path[len - 1] == '.' {
      path[len - 2] := '\0';
      Cropped(b, path[..], len - 2);
    }
  }

  /** Cuts a trailing "/name/.."; refuses "/..". */
  method TrimParent(path: array<char>, ghost st: seq<string>, ghost t: string) returns (r: int)
    requires '\0' in path[..] && (Text(path[..]) == "" || Shape(Text(path[..]), st, t))
    modifies path
    ensures '\0' in path[..]
    ensures Text(old(path[..])) == "" ==> r == 0 && Text(path[..]) == ""
    ensures Text(old(path[..])) != "" ==>
      && r == (if t == ".." && st == [] then -1 else 0)
      && (r == 0 ==> Text(path[..]) == if t == ".." then Render(st[..|st| - 1]) else Text(old(path[..])))
  {
    hide Text, Render, AllNamed;
    ghost var s := Text(path[..]);
    RenderStart(st);
    HoldsText(path[..]);
    var len := StrLen(path);
    TextIs(path[..], len);
    if len == 0 {
      return 0;
    }
    SuffixTests(s, Render(st), t);
    ghost var b := path[..];
    if path[..len] == "/.." {
      return -1;
    }
    if len >= 3 && path[len - 3..len] == "/.." {
      assert s[len - 3..] == "/..";
      assert path[0] == s[0] == '/';
      var tmp := SlashBefore(path, len - 3);
      assert s[tmp + 1..len - 3] == path[tmp + 1..len - 3];
      ParentSuffix(s, st, tmp);
      path[tmp] := '\0';
      Cropped(b, path[..], tmp);
    }
    return 0;
  }

  /** The suffix rules, in the order the code applies them. */
  method TrimEnd(path: array<char>) returns (r: int)
    requires '\0' in path[..] && Settled(Text(path[..]))
    modifies path
    ensures '\0' in path[..]
    ensures r == 0 || r == -1
    ensures r == 0 <==> Eval(Text(old(path[..]))).Some?
    ensures r == 0 ==> Text(path[..]) == Canonical(Text(old(path[..])))
  {
    hide Text, Render, Settled, Split, Run, Free;
    ghost var s := Text(path[..]);
    ghost var st, t := SettledShape(s);
    SuffixTests(s, Render(st), t);
    RenderSnoc(st, t);
    TrimSlash(path, st, t);
    RenderStart(st);
    HoldsText(path[..]);
    if path[0] == '\0' {
      return -1;
    }
    ghost var st1, t1 := st, t;
    if t == "" && st != [] {
      RenderShape(st);
      st1, t1 := st[..|st| - 1], st[|st| - 1];
    }
    TrimDot(path, st1, t1);
    if t == "." && st != [] {
      RenderShape(st);
      st1, t1 := st[..|st| - 1], st[|st| - 1];
    }
    r := TrimParent(path, st1, t1);
  }

  /** The whole of `nfs_normalize_path`: it accepts exactly the absolute paths
      whose ".." components never underflow, and leaves their canonical text. */
  method NormalizePath(path: array<char>) returns (r: int)
    requires '\0' in path[..]
    modifies path
    ensures '\0' in path[..]
    ensures r == 0 || r == -1
    ensures r == 0 <==> Absolute(Text(old(path[..]))) && Eval(Text(old(path[..]))).Some?
    ensures r == 0 ==> Text(path[..]) == Canonical(Text(old(path[..])))
  {
    SquashSlashes(path);
    DropDots(path);
    HoldsText(path[..]);
    if path[0] != '/' {
      return -1;
    }
    r := FoldParents(path);
    if r != 0 {
      return -1;
    }
    r := TrimEnd(path);
  }
}
