/** The callback-driven path walk of `nfs_v3.c`: LOOKUP per component, READLINK
    per symbolic link, restarted on the rewritten path. */
module LookupWalk {
  import opened Prelude
  import opened PathSpec
  import NormalizePath

  const MAX_LINK_COUNT: nat := 40

  type Fh = nat

  datatype Request =
    | NoRequest
    | Getattr(obj: Fh)
    | Lookup(dir: Fh, name: string)
    | Readlink(link: Fh)

  /** Where the walk stands; `Failed` is the error callback, `Found` the
      continuation, `Refused` a start that failed before any callback. */
  datatype Outcome = Pending | Refused | Failed(code: int) | Found(fh: Fh)

  /** What a request can come back with: a dead transport, an NFS status, or its result. */
  datatype Reply<+T> = RpcFailed(code: int) | NfsError(code: int) | Ok(value: T)

  datatype Node = Node(fh: Fh, isLink: bool)

  /** The names still to be looked up, as they stand in the path text. */
  function Joined(cs: seq<string>): string {
    if cs == [] then "" else Unsplit(cs)
  }

  /** What following a relative link at `done` must lead to: its parent, then
      the target, then the names that were still to come. */
  function Followed(done: seq<string>, target: string, rest: seq<string>): Option<seq<string>> {
    Run(Push(Some(done), ".."), Split(target) + rest)
  }

  /** The text the READLINK callback builds for a relative target. */
  function Rewritten(done: seq<string>, target: string, rest: seq<string>): string {
    if rest == [] then Render(done) + "/" + ".." + "/" + target
    else Render(done) + "/" + ".." + "/" + target + "/" + Joined(rest)
  }

  lemma {:induction false} SplitUnsplit(cs: seq<string>)
    requires |cs| > 0 && forall i :: 0 <= i < |cs| ==> '/' !in cs[i]
    ensures Split(Unsplit(cs)) == cs
  {
    if |cs| == 1 {
      SplitPlain(cs[0]);
    } else {
      SplitUnsplit(cs[1..]);
      SplitOfJoin(cs[0], Unsplit(cs[1..]));
      SplitPlain(cs[0]);
      assert [cs[0]] + cs[1..] == cs;
    }
  }

  lemma RunRender(done: seq<string>, cs: seq<string>)
    requires AllNamed(done)
    ensures Run(Some([]), Split(Render(done)) + cs) == Run(Some(done), cs)
  {
    UnsplitIsRender(done);
    SplitUnsplit([""] + done);
    RunConcat(Some([]), [""] + done, cs);
    RunConcat(Some([]), [""], done);
    RunOne(Some([]), "");
    RunNamed([], done);
    assert [] + done == done;
  }

  lemma SplitJoined(cs: seq<string>)
    requires AllNamed(cs) && cs != []
    ensures Split(Joined(cs)) == cs
  {
    forall i | 0 <= i < |cs| ensures '/' !in cs[i] {
      assert Named(cs[i]);
    }
    SplitUnsplit(cs);
  }

  lemma RewrittenPieces(done: seq<string>, target: string, rest: seq<string>)
    requires AllNamed(rest)
    ensures Split(Rewritten(done, target, rest)) == Split(Render(done)) + ([".."] + (Split(target) + rest))
  {
    hide Render, Split, Unsplit, AllNamed, Joined;
    var d := Render(done);
    SplitOfJoin(d, "..");
    SplitPlain("..");
    SplitOfJoin(d + "/" + "..", target);
    Regroup(Split(d), Split(target), rest);
    if rest != [] {
      SplitOfJoin(d + "/" + ".." + "/" + target, Joined(rest));
      SplitJoined(rest);
    }
  }

  lemma Regroup(d: seq<string>, t: seq<string>, r: seq<string>)
    ensures d + [".."] + t + r == d + ([".."] + (t + r))
    ensures r == [] ==> d + [".."] + t == d + ([".."] + (t + r))
  {
  }

  /** The rewritten text evaluates to what following the link means. */
  lemma FollowRelative(done: seq<string>, target: string, rest: seq<string>)
    requires AllNamed(done) && AllNamed(rest)
    ensures Eval(Rewritten(done, target, rest)) == Followed(done, target, rest)
    ensures Absolute(Rewritten(done, target, rest))
  {
    RewrittenPieces(done, target, rest);
    var tail := Split(target) + rest;
    RunRender(done, [".."] + tail);
    RunConcat(Some(done), [".."], tail);
    RunOne(Some(done), "..");
    if done != [] {
      assert Render(done)[0] == '/';
    }
  }

  /** An absolute target inside the export, seen from there; `None` outside. */
  function Inside(exported: string, target: string): Option<string> {
    if !(exported <= target && (target == exported || target[|exported|] == '/')) then None
    else if target == exported then Some("/")
    else Some(target[|exported|..])
  }

  /** Where the walk goes after a link: an absolute target alone decides. */
  function GoalOf(exported: string, done: seq<string>, target: string, rest: seq<string>): Option<seq<string>> {
    if !Absolute(target) then Followed(done, target, rest)
    else
      var text := Inside(exported, target);
      if text.Some? then Eval(text.value) else None
  }

  /** Where it should go: an absolute target, then the names that were still to come. */
  function Intended(exported: string, done: seq<string>, target: string, rest: seq<string>): Option<seq<string>> {
    if !Absolute(target) then Followed(done, target, rest)
    else
      var text := Inside(exported, target);
      if text.Some? then Run(Some([]), Split(text.value) + rest) else None
  }

  /** The link is followed as intended: it is relative, leads nowhere, or no names are left. */
  predicate Kept(exported: string, target: string, rest: seq<string>) {
    !Absolute(target) || rest == [] ||
    (var text := Inside(exported, target); text.None? || Eval(text.value).None?)
  }

  /** An absolute target loses the names that were still to come, so the walk goes where it should
      exactly when the link is relative, or there were none, or the target leads nowhere anyway. */
  lemma GoalExact(exported: string, done: seq<string>, target: string, rest: seq<string>)
    requires AllNamed(rest)
    ensures GoalOf(exported, done, target, rest) == Intended(exported, done, target, rest) <==>
      Kept(exported, target, rest)
  {
    hide Run, Split, Followed;
    if Absolute(target) && Inside(exported, target).Some? {
      var text := Inside(exported, target).value;
      RunConcat(Some([]), Split(text), rest);
      if Eval(text).None? {
        RunNone(rest);
      } else {
        RunNamed(Eval(text).value, rest);
        if rest == [] {
          assert Eval(text).value + rest == Eval(text).value;
        } else {
          assert |Eval(text).value + rest| > |Eval(text).value|;
        }
      }
    }
  }

  /** Runs the in-place normaliser on a copy of `s`. */
  method Normalize(s: string) returns (ok: bool, t: string)
    requires '\0' !in s
    ensures ok <==> Absolute(s) && Eval(s).Some?
    ensures ok ==> t == Canonical(s)
    ensures '\0' !in t
  {
    hide Eval, Canonical, Absolute;
    var buf := new char[|s| + 1](i requires 0 <= i <= |s| => if i < |s| then s[i] else '\0');
    assert buf[..|s|] == s;
    assert buf[|s|] in buf[..];
    NormalizePath.TextIs(buf[..], |s|);
    assert buf[..][..|s|] == s;
    var r := NormalizePath.NormalizePath(buf);
    ok, t := r == 0, "";
    if ok {
      NormalizePath.HoldsText(buf[..]);
      var n := NormalizePath.StrLen(buf);
      NormalizePath.TextIs(buf[..], n);
      t := buf[..n];
    }
  }

  /** `saved` is the path whose names are `st`; the root may keep its slash. */
  predicate PathOf(saved: string, st: seq<string>) {
    AllNamed(st) && (saved == Render(st) || (st == [] && saved == "/"))
  }

  /** The cursor `at` stands between `done` and `rest`: at the very start, or
      just behind the slash in front of `rest`, or at the end. */
  predicate Placed(saved: string, at: nat, done: seq<string>, rest: seq<string>) {
    && PathOf(saved, done + rest)
    && ((done == [] && at == 0) || (if rest == [] then at == |saved| else at == |Render(done)| + 1))
  }

  lemma CanonicalIsPath(s: string)
    requires Eval(s).Some?
    ensures PathOf(Canonical(s), Eval(s).value)
  {
    EvalIsNamed(s);
  }

  lemma {:induction false} RenderConcat(a: seq<string>, b: seq<string>)
    ensures Render(a + b) == Render(a) + Render(b)
  {
    if a == [] {
      assert a + b == b;
    } else {
      RenderConcat(a[1..], b);
      assert (a + b)[1..] == a[1..] + b;
      var h := "/" + a[0];
      assert h + (Render(a[1..]) + Render(b)) == h + Render(a[1..]) + Render(b);
    }
  }

  lemma RenderIsJoined(cs: seq<string>)
    requires cs != []
    ensures Render(cs) == "/" + Joined(cs)
  {
    UnsplitIsRender(cs);
    assert ([""] + cs)[1..] == cs;
  }

  /** Skipping slashes brings the cursor to `rest`. */
  lemma AtRest(saved: string, at: nat, done: seq<string>, rest: seq<string>)
    requires Placed(saved, at, done, rest) && rest != []
    ensures saved == Render(done) + "/" + Joined(rest)
    ensures at == |Render(done)| + 1 || (done == [] && at == 0)
  {
    hide Render, Joined;
    RenderConcat(done, rest);
    RenderIsJoined(rest);
  }

  lemma JoinedStart(cs: seq<string>)
    requires cs != [] && AllNamed(cs)
    ensures |cs| == 1 ==> Joined(cs) == cs[0]
    ensures |cs| > 1 ==> Joined(cs) == cs[0] + "/" + Joined(cs[1..])
    ensures cs[0] != "" && '/' !in cs[0]
  {
    assert Named(cs[0]);
  }

  /** The text between the cursor and the next slash is the next name, ... */
  lemma NextName(saved: string, at: nat, e: nat, done: seq<string>, rest: seq<string>)
    requires Placed(saved, at, done, rest) && rest != [] && at == |Render(done)| + 1
    requires at <= e <= |saved| && '/' !in saved[at..e] && (e < |saved| ==> saved[e] == '/')
    ensures saved[at..e] == rest[0] && e > at
    ensures e < |saved| <==> |rest| > 1
  {
    AtRest(saved, at, done, rest);
    TailNamed(done, rest);
    JoinedStart(rest);
    hide *;
    NameIn(saved, Render(done), rest[0], if |rest| > 1 then Joined(rest[1..]) else "", |rest| > 1, e);
  }

  lemma NameIn(s: string, h: string, c: string, tail: string, more: bool, e: nat)
    requires s == h + "/" + (if more then c + "/" + tail else c) && '/' !in c
    requires |h| < e <= |s| && '/' !in s[|h| + 1..e] && (e < |s| ==> s[e] == '/')
    ensures e == |h| + 1 + |c| && s[|h| + 1..e] == c
    ensures e < |s| <==> more
  {
    var w := s[|h| + 1..];
    assert w == if more then c + "/" + tail else c;
    assert w[..e - |h| - 1] == s[|h| + 1..e];
    NameEnd(w, c, tail, more, e - |h| - 1);
  }

  /** ... and behind it the cursor stands in front of the names after it. */
  lemma NextPlace(saved: string, at: nat, e: nat, done: seq<string>, rest: seq<string>)
    requires Placed(saved, at, done, rest) && rest != [] && at == |Render(done)| + 1
    requires e == at + |rest[0]| && (e < |saved| <==> |rest| > 1) && e <= |saved|
    ensures Placed(saved, if e < |saved| then e + 1 else e, done + [rest[0]], rest[1..])
  {
    hide Render, AllNamed;
    assert done + [rest[0]] + rest[1..] == done + rest;
    RenderOne(done, rest[0]);
  }

  lemma RenderOne(done: seq<string>, c: string)
    ensures |Render(done + [c])| == |Render(done)| + 1 + |c|
  {
    NormalizePath.RenderSnoc(done, c);
  }

  lemma TailNamed(done: seq<string>, rest: seq<string>)
    requires AllNamed(done + rest)
    ensures AllNamed(done) && AllNamed(rest)
  {
    forall i | 0 <= i < |done| ensures Named(done[i]) {
      assert (done + rest)[i] == done[i];
    }
    forall i | 0 <= i < |rest| ensures Named(rest[i]) {
      assert (done + rest)[|done| + i] == rest[i];
    }
  }

  lemma NameEnd(w: string, c: string, tail: string, more: bool, e: nat)
    requires w == (if more then c + "/" + tail else c) && '/' !in c
    requires e <= |w| && '/' !in w[..e] && (e < |w| ==> w[e] == '/')
    ensures e == |c| && w[..e] == c
  {
    assert forall i :: 0 <= i < |c| ==> w[i] == c[i];
    assert more ==> w[|c|] == '/';
    assert forall i :: 0 <= i < e ==> w[i] == w[..e][i];
  }

  /** The skip loop stops on the next name. */
  lemma SkipStops(saved: string, at: nat, at': nat, done: seq<string>, rest: seq<string>)
    requires Placed(saved, at, done, rest)
    requires at <= at' <= |saved| && (forall i :: at <= i < at' ==> saved[i] == '/')
    requires at' < |saved| ==> saved[at'] != '/'
    ensures at' == if rest == [] then |saved| else |Render(done)| + 1
    ensures Placed(saved, at', done, rest)
  {
    hide Joined, AllNamed;
    if rest != [] {
      AtRest(saved, at, done, rest);
      TailNamed(done, rest);
      JoinedStart(rest);
      var n := |Render(done)| + 1;
      assert saved[n] == Joined(rest)[0] == rest[0][0] != '/';
      assert saved[n - 1] == '/';
    } else {
      assert done + rest == done;
    }
  }

  /** The names that a lookup of `name` in the directory `cwd` is to walk from the root: an absolute path
      by itself; any other from where `cwd` leads, the empty one no further. */
  function Names(name: string, cwd: string): Option<seq<string>> {
    if Absolute(name) then Eval(name)
    else if Absolute(cwd) || cwd == "" then Run(Eval(cwd), Split(name))
    else None
  }

  /** The text that the lookup makes of them. */
  function FullPath(name: string, cwd: string): string {
    if name != "" && name[0] == '/' then name else cwd + "/" + (if name == "" then "." else name)
  }

  lemma FullPathIs(name: string, cwd: string)
    ensures var text := FullPath(name, cwd);
      (if Absolute(text) then Eval(text) else None) == Names(name, cwd)
    ensures EndsInSlash(FullPath(name, cwd)) <==> EndsInSlash(name)
  {
    hide Run, Split;
    if !Absolute(name) {
      var last := if name == "" then "." else name;
      SplitOfJoin(cwd, last);
      RunConcat(Some([]), Split(cwd), Split(last));
      if name == "" {
        SplitPlain(".");
        SplitPlain("");
        RunOne(Eval(cwd), ".");
        RunOne(Eval(cwd), "");
      }
    }
  }

  /** The lookup is of the root, by a path that ends in no slash. */
  predicate OfRoot(name: string, cwd: string) {
    Names(name, cwd) == Some([]) && !EndsInSlash(name)
  }

  /** Plain names: a path in the working directory leads into it, ".." out of it, and an absolute path
      does not depend on it. */
  lemma NamesPlain(up: seq<string>, dir: string, ts: seq<string>)
    requires AllNamed(up) && Named(dir) && AllNamed(ts) && ts != []
    ensures var cwd := Render(up + [dir]);
      && Names(Joined(ts), cwd) == Some(up + [dir] + ts)
      && Names("", cwd) == Some(up + [dir]) && Names("..", cwd) == Some(up)
      && Names(Render(ts), cwd) == Some(ts)
  {
    hide Run, Split, Render;
    var st := up + [dir];
    var cwd := Render(st);
    RunRender(st, []);
    assert Split(cwd) + [] == Split(cwd);
    RunNothing(Some(st));
    RenderAbsolute(st);
    RenderAbsolute(ts);
    JoinedStart(ts);
    SplitJoined(ts);
    RunNamed(st, ts);
    SplitPlain("..");
    SplitPlain("");
    RunOne(Some(st), "..");
    RunOne(Some(st), "");
    assert st[..|st| - 1] == up;
    RunRender(ts, []);
    RunNothing(Some(ts));
    assert Split(Render(ts)) + [] == Split(Render(ts));
  }

  lemma RunNothing(st: Option<seq<string>>)
    ensures Run(st, []) == st
  {
  }

  lemma RenderAbsolute(st: seq<string>)
    requires st != []
    ensures Absolute(Render(st))
  {
  }

  /** The state of one walk: `nfs_cb_data` with the requests it sends. */
  class Walk {
    const exported: string
    const root: Fh
    const noFollow: bool       // stop at a link in last place
    const openNoFollow: bool   // O_NOFOLLOW: any link is an error
    var saved: string          // saved_path
    var path: nat              // data->path, as an index into saved
    var linkCount: nat
    var request: Request       // the request in flight
    var outcome: Outcome
    var callbacks: nat         // calls of cb or continue_cb so far
    var readlinks: nat
    var lookups: nat
    ghost var done: seq<string>
    ghost var rest: seq<string>

    ghost predicate Valid()
      reads this
    {
      && Placed(saved, path, done, rest) && path <= |saved|
      && '\0' !in saved && '\0' !in exported
      && readlinks <= MAX_LINK_COUNT && readlinks <= linkCount <= MAX_LINK_COUNT + 1
      && callbacks == (if outcome.Failed? || outcome.Found? then 1 else 0)
      && (outcome.Pending? ==> linkCount <= MAX_LINK_COUNT)
      && (request != NoRequest ==> outcome.Pending?)
      && (saved == "/" ==> done == [])
      && (request != NoRequest ==> saved == Render(done + rest) && saved != "/")
      && (request.Readlink? ==> rest == [] || path == |Render(done)| + 1)
    }

    constructor (exported: string, root: Fh, noFollow: bool, openNoFollow: bool)
      requires '\0' !in exported
      ensures Valid() && outcome == Pending && request == NoRequest && readlinks == 0 && lookups == 0
      ensures saved == "" && done == [] && rest == [] && linkCount == 0
      ensures this.exported == exported && this.root == root
      ensures this.noFollow == noFollow && this.openNoFollow == openNoFollow
    {
      this.exported, this.root := exported, root;
      this.noFollow, this.openNoFollow := noFollow, openNoFollow;
      saved, path, linkCount := "", 0, 0;
      request, outcome, callbacks := NoRequest, Pending, 0;
      readlinks, lookups := 0, 0;
      done, rest := [], [];
    }

    /** The error callback. */
    method Fail(code: int)
      requires Valid() && outcome.Pending?
      modifies `outcome, `callbacks, `request
      ensures Valid() && outcome == Failed(code) && request == NoRequest
    {
      outcome, callbacks, request := Failed(code), callbacks + 1, NoRequest;
    }

    /** Installs a freshly normalised path. */
    method Install(text: string, ghost s: string)
      requires Valid() && outcome.Pending? && Eval(s).Some? && text == Canonical(s) && '\0' !in text
      modifies this
      ensures Valid() && outcome.Pending? && request == NoRequest
      ensures saved == text && path == 0 && done == [] && rest == Eval(s).value
      ensures linkCount == old(linkCount) && readlinks == old(readlinks) && lookups == old(lookups)
    {
      hide Eval, Canonical, Render, AllNamed;
      CanonicalIsPath(s);
      saved, path, request := text, 0, NoRequest;
      done, rest := [], Eval(s).value;
      assert done + rest == rest;
    }

    /** Steps over slashes to the next name. */
    method SkipSlashes()
      requires Valid() && outcome.Pending? && request == NoRequest
      modifies `path
      ensures Valid() && old(path) <= path
      ensures path == |saved| <==> rest == []
      ensures rest != [] ==> path == |Render(done)| + 1
    {
      hide Render, AllNamed;
      ghost var at := path;
      while path < |saved| && saved[path] == '/'
        invariant at <= path <= |saved| && forall i :: at <= i < path ==> saved[i] == '/'
      {
        path := path + 1;
      }
      SkipStops(saved, at, path, done, rest);
      if rest != [] {
        AtRest(saved, at, done, rest);
        TailNamed(done, rest);
        JoinedStart(rest);
      }
    }

    /** Cuts the next name off the path; the name is empty at the end. */
    method TakeName() returns (name: string)
      requires Valid() && outcome.Pending? && request == NoRequest
      requires (path == |saved| <==> rest == []) && (rest != [] ==> path == |Render(done)| + 1)
      modifies `path, `done, `rest
      ensures Valid() && done + rest == old(done + rest)
      ensures old(rest) == [] ==> name == "" && path == old(path) && done == old(done) && rest == []
      ensures old(rest) != [] ==>
        name == old(rest)[0] && name != "" && path > old(path) && done == old(done) + [name] && rest == old(rest)[1..]
    {
      hide Render, AllNamed;
      var e := path;
      while e < |saved| && saved[e] != '/'
        invariant path <= e <= |saved| && '/' !in saved[path..e]
      {
        e := e + 1;
      }
      name := saved[path..e];
      if name != "" {
        NextName(saved, path, e, done, rest);
        NextPlace(saved, path, e, done, rest);
        path := if e < |saved| then e + 1 else e;
        done, rest := done + [rest[0]], rest[1..];
      } else if rest != [] {
        NextName(saved, path, e, done, rest);
      }
    }

    /** A link was met and has to be followed, unless O_NOFOLLOW or the link count forbid it. */
    method FollowLink(fh: Fh, sent: bool)
      requires Valid() && outcome.Pending? && request == NoRequest
      requires saved == Render(done + rest) && saved != "/" && (rest == [] || path == |Render(done)| + 1)
      modifies `linkCount, `outcome, `callbacks, `request, `readlinks
      ensures Valid()
      ensures openNoFollow ==> outcome == Failed(ELOOP)
      ensures !openNoFollow && old(linkCount) >= MAX_LINK_COUNT ==> outcome == Failed(ELOOP)
      ensures !openNoFollow && old(linkCount) < MAX_LINK_COUNT ==>
        && linkCount == old(linkCount) + 1
        && if sent then outcome == Pending && request == Readlink(fh) else outcome == Failed(ENOMEM)
    {
      hide Render, AllNamed, Placed;
      if openNoFollow {
        Fail(ELOOP);
        return;
      }
      if linkCount >= MAX_LINK_COUNT {
        Fail(ELOOP);
        linkCount := linkCount + 1;
        return;
      }
      linkCount := linkCount + 1;
      if !sent {
        Fail(ENOMEM);
      } else {
        request, readlinks := Readlink(fh), readlinks + 1;
      }
    }

    /** How the walk goes on from `fh` when requests can be sent. */
    predicate Goes(fh: Fh, isLink: bool, links: nat, names: seq<string>)
      reads this
    {
      if isLink && (openNoFollow || !noFollow || names != []) then
        if openNoFollow || links >= MAX_LINK_COUNT then outcome == Failed(ELOOP)
        else request == Readlink(fh) && linkCount == links + 1
      else
        linkCount == links && if names == [] then outcome == Found(fh) else request == Lookup(fh, names[0])
    }

    /** `nfs3_lookup_path_async_internal`: follow the link just found, finish,
        or look up the next name. `sent` tells whether the RPC layer took the request. */
    method Advance(fh: Fh, isLink: bool, sent: bool)
      requires Valid() && outcome.Pending? && request == NoRequest
      requires isLink ==> saved == Render(done + rest) && saved != "/"
      modifies this
      ensures Valid() && saved == old(saved) && done + rest == old(done + rest)
      ensures outcome.Pending? ==> request.Readlink? || request.Lookup?
      ensures request.Readlink? ==> isLink && !openNoFollow && (!noFollow || rest != []) && request.link == fh
      ensures request.Readlink? ==> done == old(done) && linkCount == old(linkCount) + 1 && lookups == old(lookups)
      ensures request.Lookup? ==>
        old(rest) != [] && request == Lookup(fh, old(rest)[0]) && done == old(done) + [old(rest)[0]]
      ensures request.Lookup? ==> linkCount == old(linkCount) && path > old(path) && lookups == old(lookups) + 1
      ensures outcome.Found? ==>
        rest == [] && done == old(done) && outcome.fh == fh && (!isLink || (noFollow && !openNoFollow))
      ensures !isLink ==> linkCount == old(linkCount) && (outcome.Failed? ==> outcome.code == ENOMEM)
      ensures outcome != Refused
      ensures sent ==> Goes(fh, isLink, old(linkCount), old(rest))
    {
      hide Render, AllNamed;
      SkipSlashes();
      if isLink && (openNoFollow || !noFollow || path < |saved|) {
        FollowLink(fh, sent);
        return;
      }
      var name := TakeName();
      if name == "" {
        outcome, callbacks := Found(fh), callbacks + 1;
      } else if !sent {
        Fail(ENOMEM);
      } else {
        request, lookups := Lookup(fh, name), lookups + 1;
      }
    }

    /** `nfs3_lookuppath_async`: the path is made absolute, normalised and started on. */
    method Start(name: string, cwd: string, sent: bool) returns (r: int)
      requires Valid() && outcome.Pending? && request == NoRequest && linkCount == 0
      requires '\0' !in name && '\0' !in cwd
      modifies this
      ensures Valid()
      ensures outcome.Pending? <==> request != NoRequest
      ensures (r == 0 || r == -1) && (r == -1 <==> outcome == Refused)
      ensures linkCount == 0
      ensures r == -1 <==> Names(name, cwd).None? || (OfRoot(name, cwd) && !sent)
      ensures Names(name, cwd).Some? ==> Begun(Names(name, cwd).value, sent)
      ensures Names(name, cwd).Some? && sent ==> (request.Getattr? <==> OfRoot(name, cwd))
    {
      hide Eval, Begun, Names, Render;
      FullPathIs(name, cwd);
      var text := if name == "" then "." else name;
      if text[0] != '/' {
        text := cwd + "/" + text;
      }
      var ok, t := Normalize(text);
      if !ok {
        outcome := Refused;
        return -1;
      }
      NothingRendered(Eval(text).value);
      r := Begin(t, sent, text);
    }

    lemma NothingRendered(st: seq<string>)
      ensures Render(st) == "" <==> st == []
    {
    }

    /** The walk along `names` has been started, or answered at once. */
    ghost predicate Begun(names: seq<string>, sent: bool)
      reads this
    {
      && done + rest == names && (request.Lookup? ==> |done| == 1)
      && (sent ==> (request == Getattr(root) && names == []) || Goes(root, false, 0, names))
    }

    /** The normalised path is walked, or the root itself asked for its attributes. */
    method Begin(t: string, sent: bool, ghost text: string) returns (r: int)
      requires Valid() && outcome.Pending? && request == NoRequest && linkCount == 0
      requires Eval(text).Some? && t == Canonical(text) && '\0' !in t
      modifies this
      ensures Valid()
      ensures outcome.Pending? <==> request != NoRequest
      ensures (r == 0 || r == -1) && (r == -1 <==> outcome == Refused) && (r == -1 <==> t == "" && !sent)
      ensures linkCount == 0 && Begun(Eval(text).value, sent) && (sent ==> (request.Getattr? <==> t == ""))
    {
      hide Eval, Canonical, AllNamed;
      Install(t, text);
      if t != "" {
        AdvanceFromRoot(sent);
        return 0;
      }
      RootText(rest);
      if !sent {
        outcome := Refused;
        return -1;
      }
      request := Getattr(root);
      return 0;
    }

    lemma RootText(st: seq<string>)
      ensures PathOf("", st) ==> st == []
    {
    }

    method AdvanceFromRoot(sent: bool)
      requires Valid() && outcome.Pending? && request == NoRequest
      modifies this
      ensures outcome != Refused
      ensures Valid() && saved == old(saved) && done + rest == old(done + rest) && linkCount == old(linkCount)
      ensures outcome.Pending? <==> request != NoRequest
      ensures outcome.Pending? ==> request.Lookup?
      ensures outcome.Failed? ==> outcome.code == ENOMEM
      ensures request.Lookup? ==> old(rest) != [] && done == old(done) + [old(rest)[0]]
      ensures sent ==> Goes(root, false, old(linkCount), old(rest))
    {
      Advance(root, false, sent);
    }

    /** The LOOKUP and GETATTR callbacks. */
    method OnObject(reply: Reply<Node>, sent: bool)
      requires Valid() && (request.Lookup? || request.Getattr?)
      modifies this
      ensures Valid()
      ensures outcome.Pending? <==> request != NoRequest
      ensures saved == old(saved) && done + rest == old(done + rest)
      ensures request.Readlink? ==> linkCount == old(linkCount) + 1
      ensures outcome.Pending? && !request.Readlink? ==>
        request.Lookup? && linkCount == old(linkCount) && path > old(path)
      ensures request.Readlink? ==> done == old(done)
      ensures request.Lookup? ==> old(rest) != [] && done == old(done) + [old(rest)[0]]
      ensures !reply.Ok? ==> outcome == Failed(reply.code)
      ensures reply.Ok? && sent ==>
        Goes(if old(request).Getattr? then root else reply.value.fh, reply.value.isLink, old(linkCount), old(rest))
    {
      hide Render, AllNamed, Placed;
      match reply
      case RpcFailed(code) => Fail(code);
      case NfsError(code) => Fail(code);
      case Ok(node) =>
        var fh := if request.Getattr? then root else node.fh;
        request := NoRequest;
        Advance(fh, node.isLink, sent);
    }

    /** The text the READLINK callback builds in front of the normaliser, if the target is usable. */
    method Retarget(target: string) returns (ok: bool, text: string)
      requires Valid() && request.Readlink? && '\0' !in target
      ensures '\0' !in text
      ensures !Absolute(target) ==> ok && text == Rewritten(done, target, rest)
      ensures Absolute(target) ==>
        (ok <==> Inside(exported, target).Some?) && (ok ==> Inside(exported, target) == Some(text) && Absolute(text))
    {
      hide Render, Joined, AllNamed, Placed;
      if target != "" && target[0] == '/' {
        text := "";
        ok := exported <= target && (|target| == |exported| || target[|exported|] == '/');
        if ok {
          text := if |target| == |exported| then "/" else target[|exported|..];
        }
        return;
      }
      RestText();
      if path < |saved| {
        text := saved[..path - 1] + "/" + ".." + "/" + target + "/" + saved[path..];
      } else {
        text := saved + "/" + ".." + "/" + target;
      }
      ok := true;
    }

    lemma RestText()
      requires Valid() && request.Readlink?
      ensures path < |saved| <==> rest != []
      ensures rest == [] ==> saved == Render(done)
      ensures rest != [] ==> saved[..path - 1] == Render(done) && saved[path..] == Joined(rest)
    {
      hide Render, AllNamed;
      if rest != [] {
        AtRest(saved, path, done, rest);
        TailNamed(done, rest);
        JoinedStart(rest);
      } else {
        NormalizePath.RenderStart(done);
        assert done + rest == done;
      }
    }

    /** The walk has started again at the root, along `names`. */
    ghost predicate Restarted(names: seq<string>, sent: bool)
      reads this
    {
      && done + rest == names && (request.Lookup? ==> |done| == 1)
      && (sent ==> Goes(root, false, linkCount, names))
    }

    /** Where the walk continues after a link. */
    function Goal(names: seq<string>, target: string, later: seq<string>): Option<seq<string>> {
      GoalOf(exported, names, target, later)
    }

    /** The READLINK callback. A relative target leads exactly where following
        the link means, or to ENOENT when that climbs above the root. */
    method OnTarget(reply: Reply<string>, sent: bool)
      requires Valid() && request.Readlink?
      requires reply.Ok? ==> '\0' !in reply.value
      modifies this
      ensures Valid() && linkCount == old(linkCount)
      ensures outcome.Pending? <==> request != NoRequest
      ensures outcome.Pending? ==> request.Lookup?
      ensures !reply.Ok? ==> outcome == Failed(reply.code)
      ensures reply.Ok? && !Absolute(reply.value) ==>
        var goal := Followed(old(done), reply.value, old(rest));
        if goal.None? then outcome == Failed(ENOENT)
        else outcome != Failed(ENOENT) && done + rest == goal.value
      ensures reply.Ok? ==>
        var goal := Goal(old(done), reply.value, old(rest));
        if goal.None? then outcome == Failed(ENOENT)
        else Restarted(goal.value, sent)
    {
      hide Render, AllNamed, Placed, Followed, Rewritten, Eval;
      if !reply.Ok? {
        Fail(reply.code);
        return;
      }
      var ok, text := Retarget(reply.value);
      if !ok {
        Fail(ENOENT);
        return;
      }
      NamedParts();
      FollowRelative(done, reply.value, rest);
      var good, t := Normalize(text);
      if !good {
        Fail(ENOENT);
        return;
      }
      Install(t, text);
      assert done + rest == Eval(text).value;
      AdvanceFromRoot(sent);
    }

    lemma NamedParts()
      requires Valid()
      ensures AllNamed(done) && AllNamed(rest)
    {
      TailNamed(done, rest);
    }

    /** The whole walk against any server: it ends, having sent at most
        `MAX_LINK_COUNT` READLINKs, in exactly one callback. */
    method Walked(name: string, cwd: string,
                  objects: nat -> Reply<Node>, targets: nat -> Reply<string>, sent: nat -> bool)
      requires Valid() && outcome.Pending? && request == NoRequest && linkCount == 0
      requires '\0' !in name && '\0' !in cwd
      requires forall k: nat :: targets(k).Ok? ==> '\0' !in targets(k).value
      modifies this
      ensures outcome != Pending && readlinks <= MAX_LINK_COUNT
      ensures callbacks == if outcome == Refused then 0 else 1
    {
      var r := Start(name, cwd, sent(0));
      var k := 0;
      while outcome.Pending?
        invariant Valid() && (outcome.Pending? <==> request != NoRequest)
        decreases outcome.Pending?, MAX_LINK_COUNT + 1 - linkCount, request.Readlink?, |saved| - path
      {
        k := k + 1;
        if request.Readlink? {
          OnTarget(targets(k), sent(k));
        } else {
          OnObject(objects(k), sent(k));
        }
      }
    }
  }
}
