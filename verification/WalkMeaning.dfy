/** What a lookup finds: the walk over path text, requests and callbacks is name
    resolution over lists of names. */
module WalkMeaning {
  import opened Prelude
  import opened PathSpec
  import opened LookupWalk

  /** A server whose directories and links do not change during the walk: what LOOKUP, READLINK and the
      GETATTR of the root answer. */
  datatype Server = Server(child: (Fh, string) -> Reply<Node>, target: Fh -> Reply<string>, attr: Reply<Node>)

  /** Name resolution from directory `dir`, reached along `done`, along the names `rest`, with
      `links` more links allowed. */
  function Resolve(w: Walk, s: Server, dir: Fh, done: seq<string>, rest: seq<string>, links: nat): Outcome
    decreases 2 * links, |rest|
  {
    if rest == [] then Found(dir) else
      var reply := s.child(dir, rest[0]);
      if !reply.Ok? then Failed(reply.code)
      else if reply.value.isLink && (w.openNoFollow || !w.noFollow || rest[1..] != []) then
        if w.openNoFollow || links == 0 then Failed(ELOOP)
        else ThroughLink(w, s, reply.value.fh, done + [rest[0]], rest[1..], links - 1)
      else Resolve(w, s, reply.value.fh, done + [rest[0]], rest[1..], links)
  }

  /** Resolution through the link found at `done`: along the names it leads to, from the root. */
  function ThroughLink(w: Walk, s: Server, link: Fh, done: seq<string>, rest: seq<string>, links: nat): Outcome
    decreases 2 * links + 1, 0
  {
    var reply := s.target(link);
    if !reply.Ok? then Failed(reply.code) else
      var names := w.Goal(done, reply.value, rest);
      if names.None? then Failed(ENOENT) else Resolve(w, s, w.root, [], names.value, links)
  }

  /** The empty path: the root is asked for its attributes, and followed if it is a link. */
  function AtRoot(w: Walk, s: Server): Outcome {
    if !s.attr.Ok? then Failed(s.attr.code)
    else if s.attr.value.isLink && (w.openNoFollow || !w.noFollow) then
      if w.openNoFollow then Failed(ELOOP) else ThroughLink(w, s, w.root, [], [], MAX_LINK_COUNT - 1)
    else Found(w.root)
  }

  /** What a lookup of `name` finds. */
  function Finds(w: Walk, s: Server, name: string, cwd: string): Outcome {
    if Names(name, cwd).None? then Refused
    else if OfRoot(name, cwd) then AtRoot(w, s)
    else Resolve(w, s, w.root, [], Names(name, cwd).value, MAX_LINK_COUNT)
  }

  /** The state of the walk stands for the outcome `goal`. */
  ghost predicate StandsFor(w: Walk, s: Server, goal: Outcome)
    reads w
  {
    w.linkCount <= MAX_LINK_COUNT + 1 &&
    match w.request
    case NoRequest => w.outcome == goal
    case Getattr(obj) => w.done == w.rest == [] && w.linkCount == 0 && goal == AtRoot(w, s)
    case Lookup(dir, name) =>
      w.linkCount <= MAX_LINK_COUNT && w.done != [] && w.done[|w.done| - 1] == name &&
      goal == Resolve(w, s, dir, w.done[..|w.done| - 1], [name] + w.rest, MAX_LINK_COUNT - w.linkCount)
    case Readlink(link) =>
      w.linkCount <= MAX_LINK_COUNT && goal == ThroughLink(w, s, link, w.done, w.rest, MAX_LINK_COUNT - w.linkCount)
  }

  /** Starting, or starting again, along `names`. */
  lemma FromRoot(w: Walk, s: Server, names: seq<string>)
    requires w.Valid() && w.done + w.rest == names && (w.request.Lookup? ==> |w.done| == 1)
    requires w.Goes(w.root, false, w.linkCount, names) && w.linkCount <= MAX_LINK_COUNT
    requires w.outcome.Pending? == (w.request != NoRequest)
    ensures StandsFor(w, s, Resolve(w, s, w.root, [], names, MAX_LINK_COUNT - w.linkCount))
  {
    hide Placed;
    if names != [] {
      assert w.done == [names[0]] && w.rest == names[1..];
      assert w.done[..0] == [];
      assert [names[0]] + w.rest == names;
    }
  }

  method ObjectAnswered(w: Walk, s: Server, ghost goal: Outcome)
    requires w.Valid() && (w.request.Lookup? || w.request.Getattr?) && StandsFor(w, s, goal)
    modifies w
    ensures w.Valid() && (w.outcome.Pending? <==> w.request != NoRequest) && StandsFor(w, s, goal)
    ensures w.saved == old(w.saved)
    ensures w.request.Readlink? ==> w.linkCount == old(w.linkCount) + 1
    ensures w.outcome.Pending? && !w.request.Readlink? ==>
      w.request.Lookup? && w.linkCount == old(w.linkCount) && w.path > old(w.path)
  {
    hide Placed;
    ghost var done, rest, links := w.done, w.rest, MAX_LINK_COUNT - w.linkCount;
    ghost var asked := w.request;
    var reply := if w.request.Lookup? then s.child(w.request.dir, w.request.name) else s.attr;
    w.OnObject(reply, true);
    SameNames(done, rest, w.done, w.rest);
    if asked.Lookup? {
      assert done[..|done| - 1] + [asked.name] == done;
      assert ([asked.name] + rest)[1..] == rest;
      Unfold(w, s, asked.dir, done, rest, asked.name, links);
    }
    if w.request.Lookup? {
      assert w.done[..|w.done| - 1] == done;
      assert [rest[0]] + rest[1..] == rest;
    }
  }

  lemma Unfold(w: Walk, s: Server, dir: Fh, done: seq<string>, rest: seq<string>, name: string, links: nat)
    requires done != [] && done[|done| - 1] == name
    ensures Resolve(w, s, dir, done[..|done| - 1], [name] + rest, links) ==
      var reply := s.child(dir, name);
      if !reply.Ok? then Failed(reply.code)
      else if reply.value.isLink && (w.openNoFollow || !w.noFollow || rest != []) then
        if w.openNoFollow || links == 0 then Failed(ELOOP) else ThroughLink(w, s, reply.value.fh, done, rest, links - 1)
      else Resolve(w, s, reply.value.fh, done, rest, links)
  {
    assert done[..|done| - 1] + [name] == done;
    assert ([name] + rest)[1..] == rest;
  }

  lemma SameNames(done: seq<string>, rest: seq<string>, done': seq<string>, rest': seq<string>)
    requires done' + rest' == done + rest
    ensures done' == done ==> rest' == rest
    ensures rest != [] && done' == done + [rest[0]] ==> rest' == rest[1..]
  {
    if done' == done {
      assert rest' == (done' + rest')[|done|..] && rest == (done + rest)[|done|..];
    }
    if rest != [] && done' == done + [rest[0]] {
      assert rest' == (done' + rest')[|done| + 1..] && rest[1..] == (done + rest)[|done| + 1..];
    }
  }

  method TargetAnswered(w: Walk, s: Server, ghost goal: Outcome)
    requires w.Valid() && w.request.Readlink? && StandsFor(w, s, goal)
    requires forall fh :: s.target(fh).Ok? ==> '\0' !in s.target(fh).value
    modifies w
    ensures w.Valid() && (w.outcome.Pending? <==> w.request != NoRequest) && StandsFor(w, s, goal)
    ensures w.linkCount == old(w.linkCount) && (w.outcome.Pending? ==> w.request.Lookup?)
  {
    hide Placed, Resolve, Followed, Eval;
    ghost var done, rest := w.done, w.rest;
    var reply := s.target(w.request.link);
    w.OnTarget(reply, true);
    if reply.Ok? {
      ghost var names := w.Goal(done, reply.value, rest);
      if names.Some? {
        FromRoot(w, s, names.value);
      }
    }
  }

  /** The whole lookup ends with what `Finds` says, and with one callback; it is refused, without one,
      exactly when the path has no evaluation. */
  method Walked(w: Walk, s: Server, name: string, cwd: string)
    requires w.Valid() && w.outcome.Pending? && w.request == NoRequest && w.linkCount == 0
    requires '\0' !in name && '\0' !in cwd
    requires forall fh :: s.target(fh).Ok? ==> '\0' !in s.target(fh).value
    modifies w
    ensures w.outcome == Finds(w, s, name, cwd)
    ensures w.callbacks == (if Names(name, cwd).Some? then 1 else 0) && w.readlinks <= MAX_LINK_COUNT
    ensures Smooth(w, s, name, cwd) ==> w.outcome == Means(w, s, name, cwd)
  {
    hide Placed, Eval, Names;
    FindsAsMeant(w, s, name, cwd);
    var r := w.Start(name, cwd, true);
    if r == -1 {
      return;
    }
    ghost var goal := Finds(w, s, name, cwd);
    if !w.request.Getattr? {
      FromRoot(w, s, Names(name, cwd).value);
    }
    while w.outcome.Pending?
      invariant w.Valid() && (w.outcome.Pending? <==> w.request != NoRequest) && StandsFor(w, s, goal)
      invariant w.outcome.Pending? || w.outcome == goal
      decreases w.outcome.Pending?, MAX_LINK_COUNT + 1 - w.linkCount, w.request.Readlink?, |w.saved| - w.path
    {
      if w.request.Readlink? {
        TargetAnswered(w, s, goal);
      } else {
        ObjectAnswered(w, s, goal);
      }
    }
    FindsSettles(w, s, name, cwd);
  }

  lemma FindsSettles(w: Walk, s: Server, name: string, cwd: string)
    requires Names(name, cwd).Some?
    ensures var o := Finds(w, s, name, cwd); o.Failed? || o.Found?
  {
    hide Names, Resolve;
    var names := Names(name, cwd).value;
    Settles(w, s, [], names, MAX_LINK_COUNT, w.root);
    var target := s.target(w.root);
    if target.Ok? && w.Goal([], target.value, []).Some? {
      Settles(w, s, [], w.Goal([], target.value, []).value, MAX_LINK_COUNT - 1, w.root);
    }
  }

  /** Resolution always ends in an answer. */
  lemma {:induction false} Settles(w: Walk, s: Server, done: seq<string>, rest: seq<string>, links: nat, dir: Fh)
    ensures var o := Resolve(w, s, dir, done, rest, links); o.Failed? || o.Found?
    decreases 2 * links, |rest|
  {
    hide Followed, Eval;
    if rest != [] {
      var reply := s.child(dir, rest[0]);
      if reply.Ok? {
        var node := reply.value;
        if node.isLink && (w.openNoFollow || !w.noFollow || rest[1..] != []) {
          if !w.openNoFollow && links > 0 {
            var target := s.target(node.fh);
            if target.Ok? && w.Goal(done + [rest[0]], target.value, rest[1..]).Some? {
              Settles(w, s, [], w.Goal(done + [rest[0]], target.value, rest[1..]).value, links - 1, w.root);
            }
          }
        } else {
          Settles(w, s, done + [rest[0]], rest[1..], links, node.fh);
        }
      }
    }
  }

  // ---- absolute links ----

  /** Name resolution as it is meant: nothing that was still to come is dropped. */
  function ResolveMeant(w: Walk, s: Server, dir: Fh, done: seq<string>, rest: seq<string>, links: nat): Outcome
    decreases 2 * links, |rest|
  {
    if rest == [] then Found(dir) else
      var reply := s.child(dir, rest[0]);
      if !reply.Ok? then Failed(reply.code)
      else if reply.value.isLink && (w.openNoFollow || !w.noFollow || rest[1..] != []) then
        if w.openNoFollow || links == 0 then Failed(ELOOP)
        else ThroughLinkMeant(w, s, reply.value.fh, done + [rest[0]], rest[1..], links - 1)
      else ResolveMeant(w, s, reply.value.fh, done + [rest[0]], rest[1..], links)
  }

  function ThroughLinkMeant(w: Walk, s: Server, link: Fh, done: seq<string>, rest: seq<string>, links: nat): Outcome
    decreases 2 * links + 1, 0
  {
    var reply := s.target(link);
    if !reply.Ok? then Failed(reply.code) else
      var names := Intended(w.exported, done, reply.value, rest);
      if names.None? then Failed(ENOENT) else ResolveMeant(w, s, w.root, [], names.value, links)
  }

  /** No absolute link that leads somewhere is met with names left. */
  predicate Straight(w: Walk, s: Server, dir: Fh, done: seq<string>, rest: seq<string>, links: nat)
    decreases 2 * links, |rest|
  {
    rest == [] || !s.child(dir, rest[0]).Ok? ||
    (var node := s.child(dir, rest[0]).value;
     if node.isLink && (w.openNoFollow || !w.noFollow || rest[1..] != []) then
       w.openNoFollow || links == 0 || StraightLink(w, s, node.fh, done + [rest[0]], rest[1..], links - 1)
     else Straight(w, s, node.fh, done + [rest[0]], rest[1..], links))
  }

  predicate StraightLink(w: Walk, s: Server, link: Fh, done: seq<string>, rest: seq<string>, links: nat)
    decreases 2 * links + 1, 0
  {
    !s.target(link).Ok? ||
    (var text := s.target(link).value;
     Kept(w.exported, text, rest) && (w.Goal(done, text, rest).None? ||
                                      Straight(w, s, w.root, [], w.Goal(done, text, rest).value, links)))
  }

  /** The walk finds what is meant whenever no absolute link is met with names left. */
  lemma {:induction false} StraightIsMeant(w: Walk, s: Server, dir: Fh, done: seq<string>, rest: seq<string>,
                                           links: nat)
    requires AllNamed(done) && AllNamed(rest) && Straight(w, s, dir, done, rest, links)
    ensures Resolve(w, s, dir, done, rest, links) == ResolveMeant(w, s, dir, done, rest, links)
    decreases 2 * links, |rest|
  {
    hide Followed, Eval, GoalOf, Intended, Kept;
    if rest != [] && s.child(dir, rest[0]).Ok? {
      var node := s.child(dir, rest[0]).value;
      HeadNamed(done, rest);
      if node.isLink && (w.openNoFollow || !w.noFollow || rest[1..] != []) {
        if !w.openNoFollow && links > 0 {
          LinkIsMeant(w, s, node.fh, done + [rest[0]], rest[1..], links - 1);
        }
      } else {
        StraightIsMeant(w, s, node.fh, done + [rest[0]], rest[1..], links);
      }
    }
  }

  lemma HeadNamed(done: seq<string>, rest: seq<string>)
    requires AllNamed(done) && AllNamed(rest) && rest != []
    ensures AllNamed(done + [rest[0]]) && AllNamed(rest[1..])
  {
  }

  lemma GoalIsNamed(exported: string, done: seq<string>, target: string, rest: seq<string>)
    requires AllNamed(done) && AllNamed(rest) && GoalOf(exported, done, target, rest).Some?
    ensures AllNamed(GoalOf(exported, done, target, rest).value)
  {
    hide Run, Split;
    if Absolute(target) {
      EvalIsNamed(Inside(exported, target).value);
    } else if done != [] {
      var up := done[..|done| - 1];
      SplitHasNoSlash(target);
      forall i | 0 <= i < |rest| ensures '/' !in rest[i] {
        assert Named(rest[i]);
      }
      RunKeepsNamed(up, Split(target) + rest);
    } else {
      RunNone(Split(target) + rest);
    }
  }

  lemma {:induction false} LinkIsMeant(w: Walk, s: Server, link: Fh, done: seq<string>, rest: seq<string>, links: nat)
    requires AllNamed(done) && AllNamed(rest) && StraightLink(w, s, link, done, rest, links)
    ensures ThroughLink(w, s, link, done, rest, links) == ThroughLinkMeant(w, s, link, done, rest, links)
    decreases 2 * links + 1, 0
  {
    hide Followed, Eval, GoalOf, Intended, Kept;
    if s.target(link).Ok? {
      var text := s.target(link).value;
      GoalExact(w.exported, done, text, rest);
      var names := w.Goal(done, text, rest);
      if names.Some? {
        GoalIsNamed(w.exported, done, text, rest);
        StraightIsMeant(w, s, w.root, [], names.value, links);
      }
    }
  }

  /** What a lookup of `name` is meant to find. */
  function Means(w: Walk, s: Server, name: string, cwd: string): Outcome {
    if Names(name, cwd).None? then Refused
    else if OfRoot(name, cwd) then
      (if !s.attr.Ok? then Failed(s.attr.code)
       else if s.attr.value.isLink && (w.openNoFollow || !w.noFollow) then
         (if w.openNoFollow then Failed(ELOOP) else ThroughLinkMeant(w, s, w.root, [], [], MAX_LINK_COUNT - 1))
       else Found(w.root))
    else ResolveMeant(w, s, w.root, [], Names(name, cwd).value, MAX_LINK_COUNT)
  }

  /** No absolute link is met with names left anywhere on the way. */
  predicate Smooth(w: Walk, s: Server, name: string, cwd: string) {
    Names(name, cwd).Some? ==>
      if OfRoot(name, cwd) then StraightLink(w, s, w.root, [], [], MAX_LINK_COUNT - 1)
      else Straight(w, s, w.root, [], Names(name, cwd).value, MAX_LINK_COUNT)
  }

  lemma FindsAsMeant(w: Walk, s: Server, name: string, cwd: string)
    ensures Smooth(w, s, name, cwd) ==> Finds(w, s, name, cwd) == Means(w, s, name, cwd)
  {
    hide Eval, Names, FullPath, Resolve, ResolveMeant, ThroughLink, ThroughLinkMeant, Straight, StraightLink;
    if Smooth(w, s, name, cwd) && Names(name, cwd).Some? {
      FullPathIs(name, cwd);
      EvalIsNamed(FullPath(name, cwd));
      if OfRoot(name, cwd) {
        LinkIsMeant(w, s, w.root, [], [], MAX_LINK_COUNT - 1);
      } else {
        StraightIsMeant(w, s, w.root, [], Names(name, cwd).value, MAX_LINK_COUNT);
      }
    }
  }

  lemma SimplePath(st: seq<string>, text: string)
    requires AllNamed(st) && st != [] && text == Render(st)
    ensures Eval(text) == Some(st) && Absolute(text) && Canonical(text) == text
  {
    RunRender(st, []);
    assert Split(text) + [] == Split(text);
    assert text[0] == '/';
  }

  lemma RenderedTwo(a: string, b: string)
    ensures Render([a]) == "/" + a && Render([a, b]) == "/" + a + "/" + b
  {
    assert [a, b][1..] == [b] && [b][1..] == [] && [a][1..] == [];
    assert Render([b]) == "/" + b + Render([]);
    assert Render([a]) == "/" + a + Render([]);
    assert Render([a, b]) == "/" + a + Render([b]);
    assert "/" + a + ("/" + b) == "/" + a + "/" + b;
  }

  /** In the export "/e" the file "/a/b" is looked up and "/a" turns out to be a link to "/e/x": the walk
      asks for "/x" next and has no name left, where "/x/b" was meant. */
  method AbsoluteLinkRun() returns (w: Walk)
    ensures fresh(w) && w.request == Lookup(0, "x") && w.done + w.rest == ["x"]
    ensures Intended(w.exported, ["a"], "/e/x", ["b"]) == Some(["x", "b"])
  {
    hide Eval, Canonical, Placed, Render, Followed, Run, Intended;
    w := new Walk("/e", 0, false, false);
    RenderedTwo("a", "b");
    SimplePath(["a", "b"], "/a/b");
    var r := w.Start("/a/b", "/", true);
    assert w.done == ["a"];
    SameNames([], ["a", "b"], w.done, w.rest);
    w.OnObject(Ok(Node(1, true)), true);
    SameNames(["a"], ["b"], w.done, w.rest);
    TargetMeant();
    w.OnTarget(Ok("/e/x"), true);
  }

  lemma TargetMeant()
    ensures GoalOf("/e", ["a"], "/e/x", ["b"]) == Some(["x"])
    ensures Intended("/e", ["a"], "/e/x", ["b"]) == Some(["x", "b"])
  {
    hide Run, Split;
    assert Inside("/e", "/e/x") == Some("/x");
    RenderedTwo("x", "b");
    SimplePath(["x"], "/x");
    RunRender(["x"], ["b"]);
    RunOne(Some(["x"]), "b");
    assert ["x"] + ["b"] == ["x", "b"];
  }
}
