/** What an absolute path means: a left-to-right run of its components over a
    stack of directory names. The string rewriting of `nfs_normalize_path` is
    measured against this reference. */
module PathSpec {
  import opened Prelude

  /** The pieces of `s` between slashes; "/a/b" has the pieces "", "a", "b". */
  function Split(s: string): (r: seq<string>)
    ensures |r| > 0
  {
    if s == "" then [""]
    else if s[0] == '/' then [""] + Split(s[1..])
    else
      var r := Split(s[1..]);
      [[s[0]] + r[0]] + r[1..]
  }

  function Unsplit(cs: seq<string>): string
    requires |cs| > 0
  {
    if |cs| == 1 then cs[0] else cs[0] + "/" + Unsplit(cs[1..])
  }

  /** One component acts on the stack; `None` is an underflow by "..". */
  function Push(st: Option<seq<string>>, c: string): Option<seq<string>> {
    if st.None? || c == "" || c == "." then st
    else if c == ".." then
      if st.value == [] then None else Some(st.value[..|st.value| - 1])
    else Some(st.value + [c])
  }

  function Run(st: Option<seq<string>>, cs: seq<string>): Option<seq<string>>
    decreases |cs|
  {
    if cs == [] then st else Run(Push(st, cs[0]), cs[1..])
  }

  function Eval(s: string): Option<seq<string>> {
    Run(Some([]), Split(s))
  }

  predicate Absolute(s: string) {
    s != "" && s[0] == '/'
  }

  predicate EndsInSlash(s: string) {
    s != "" && s[|s| - 1] == '/'
  }

  /** A stack written as a path: every name behind a slash. */
  function Render(st: seq<string>): string {
    if st == [] then "" else "/" + st[0] + Render(st[1..])
  }

  /** The text a successful normalisation leaves behind. The root keeps its
      slash only when the input ended in one. */
  function Canonical(s: string): string
    requires Eval(s).Some?
  {
    var st := Eval(s).value;
    if st == [] && EndsInSlash(s) then "/" else Render(st)
  }

  /** A component that names a directory entry. */
  predicate Named(c: string) {
    c != "" && c != "." && c != ".." && '/' !in c
  }

  predicate AllNamed(st: seq<string>) {
    forall i :: 0 <= i < |st| ==> Named(st[i])
  }

  // ---- splitting ----

  lemma SplitCons(c: char, w: string)
    ensures c == '/' ==> Split([c] + w) == [""] + Split(w)
    ensures c != '/' ==> Split([c] + w) == [[c] + Split(w)[0]] + Split(w)[1..]
  {
    assert ([c] + w)[1..] == w;
  }

  lemma {:induction false} SplitOfJoin(u: string, v: string)
    ensures Split(u + "/" + v) == Split(u) + Split(v)
  {
    if u == "" {
      assert u + "/" + v == ['/'] + v;
      SplitCons('/', v);
    } else {
      var c, u' := u[0], u[1..];
      SplitOfJoin(u', v);
      SplitConsJoin(c, u', v);
      assert u == [c] + u';
    }
  }

  lemma SplitConsJoin(c: char, u: string, v: string)
    requires Split(u + "/" + v) == Split(u) + Split(v)
    ensures Split([c] + u + "/" + v) == Split([c] + u) + Split(v)
  {
    hide Split;
    assert [c] + u + "/" + v == [c] + (u + "/" + v);
    SplitCons(c, u + "/" + v);
    SplitCons(c, u);
    ConcatHead(Split(u), Split(v));
  }

  lemma ConcatHead(a: seq<string>, b: seq<string>)
    requires |a| > 0
    ensures (a + b)[0] == a[0]
    ensures (a + b)[1..] == a[1..] + b
    ensures forall c: string :: [c] + (a + b)[1..] == ([c] + a[1..]) + b
  {
  }

  lemma {:induction false} SplitPlain(s: string)
    requires '/' !in s
    ensures Split(s) == [s]
  {
    if s != "" {
      SplitPlain(s[1..]);
      assert [s[0]] + s[1..] == s;
    }
  }

  lemma {:induction false} SplitHasNoSlash(s: string)
    ensures forall i :: 0 <= i < |Split(s)| ==> '/' !in Split(s)[i]
  {
    if s != "" {
      SplitHasNoSlash(s[1..]);
    }
  }

  lemma {:induction false} UnsplitOfSplit(s: string)
    ensures Unsplit(Split(s)) == s
  {
    if s != "" {
      UnsplitOfSplit(s[1..]);
      var r := Split(s[1..]);
      if s[0] == '/' {
        assert Split(s)[1..] == r;
      } else {
        var c := [s[0]] + r[0];
        assert Split(s) == [c] + r[1..];
        assert Split(s)[1..] == r[1..];
      }
    }
  }

  lemma {:induction false} UnsplitIsRender(st: seq<string>)
    ensures Unsplit([""] + st) == Render(st)
  {
    if st != [] {
      UnsplitIsRender(st[1..]);
      assert ([""] + st)[1..] == st;
      assert ([""] + st[1..])[1..] == st[1..];
      assert st == [st[0]] + st[1..];
      if |st| > 1 {
        assert Unsplit(st) == st[0] + "/" + Unsplit(st[1..]);
        assert Render(st[1..]) == "" + "/" + Unsplit(st[1..]);
      }
    }
  }

  // ---- running components ----

  lemma {:induction false} RunConcat(st: Option<seq<string>>, a: seq<string>, b: seq<string>)
    ensures Run(st, a + b) == Run(Run(st, a), b)
    decreases |a|
  {
    if a == [] {
      assert a + b == b;
    } else {
      RunConcat(Push(st, a[0]), a[1..], b);
      assert (a + b)[1..] == a[1..] + b;
    }
  }

  lemma RunOne(st: Option<seq<string>>, c: string)
    ensures Run(st, [c]) == Push(st, c)
  {
    assert Run(Push(st, c), []) == Push(st, c);
  }

  lemma {:induction false} RunNone(cs: seq<string>)
    ensures Run(None, cs) == None
  {
    if cs != [] {
      RunNone(cs[1..]);
    }
  }

  lemma {:induction false} RunNamed(st: seq<string>, cs: seq<string>)
    requires AllNamed(cs)
    ensures Run(Some(st), cs) == Some(st + cs)
    decreases |cs|
  {
    if cs == [] {
      assert st + cs == st;
    } else {
      RunNamed(st + [cs[0]], cs[1..]);
      assert st + [cs[0]] + cs[1..] == st + cs;
    }
  }

  lemma {:induction false} RunKeepsNamed(st: seq<string>, cs: seq<string>)
    requires AllNamed(st)
    requires forall i :: 0 <= i < |cs| ==> '/' !in cs[i]
    requires Run(Some(st), cs).Some?
    ensures AllNamed(Run(Some(st), cs).value)
    decreases |cs|
  {
    if cs != [] {
      var next := Push(Some(st), cs[0]);
      if next.None? {
        RunNone(cs[1..]);
      } else {
        RunKeepsNamed(next.value, cs[1..]);
      }
    }
  }

  /** A component sequence that leaves every stack alone may be cut out. */
  lemma CutOut(u: string, mid: string, v: string)
    requires forall st: Option<seq<string>> :: Run(st, Split(mid)) == st
    ensures Eval(u + "/" + mid + "/" + v) == Eval(u + "/" + v)
  {
    var su, sm, sv := Split(u), Split(mid), Split(v);
    SplitOfJoin(u, v);
    SplitOfJoin(u + "/" + mid, v);
    SplitOfJoin(u, mid);
    RunConcat(Some([]), su + sm, sv);
    RunConcat(Some([]), su, sm);
    RunConcat(Some([]), su, sv);
  }

  /** No component of a normalised path is empty, "." or "..". */
  lemma EvalIsNamed(s: string)
    requires Eval(s).Some?
    ensures AllNamed(Eval(s).value)
  {
    SplitHasNoSlash(s);
    RunKeepsNamed([], Split(s));
  }
}
