/** Name resolution in terms of the server's answers alone: directories are walked
    name by name, links are followed or not, and at most forty of them. */
module WalkLaws {
  import opened Prelude
  import opened PathSpec
  import opened LookupWalk
  import opened WalkMeaning
  import NestedMounts

  /** One LOOKUP after the other. */
  function Descend(s: Server, dir: Fh, names: seq<string>): Outcome
    decreases |names|
  {
    if names == [] then Found(dir) else
      var reply := s.child(dir, names[0]);
      if reply.Ok? then Descend(s, reply.value.fh, names[1..]) else Failed(reply.code)
  }

  /** Nothing met on the way is a link. */
  predicate NoLinks(s: Server, dir: Fh, names: seq<string>)
    decreases |names|
  {
    names == [] ||
    (var reply := s.child(dir, names[0]);
     reply.Ok? ==> !reply.value.isLink && NoLinks(s, reply.value.fh, names[1..]))
  }

  /** Without links a lookup is one LOOKUP after the other: the object that the last one names, or the first
      error. */
  lemma {:induction false} PlainPath(w: Walk, s: Server, dir: Fh, done: seq<string>, names: seq<string>, links: nat)
    requires NoLinks(s, dir, names)
    ensures Resolve(w, s, dir, done, names, links) == Descend(s, dir, names)
    decreases |names|
  {
    if names != [] && s.child(dir, names[0]).Ok? {
      PlainPath(w, s, s.child(dir, names[0]).value.fh, done + [names[0]], names[1..], links);
    }
  }

  /** Directories in front of something else are walked first. */
  lemma {:induction false} PlainPrefix(w: Walk, s: Server, dir: Fh, done: seq<string>, names: seq<string>,
                                       rest: seq<string>, links: nat)
    requires NoLinks(s, dir, names)
    ensures Resolve(w, s, dir, done, names + rest, links) ==
      var o := Descend(s, dir, names);
      if o.Found? then Resolve(w, s, o.fh, done + names, rest, links) else o
    decreases |names|
  {
    if names == [] {
      assert names + rest == rest && done + names == done;
    } else {
      assert (names + rest)[1..] == names[1..] + rest;
      if s.child(dir, names[0]).Ok? {
        PlainPrefix(w, s, s.child(dir, names[0]).value.fh, done + [names[0]], names[1..], rest, links);
        assert done + [names[0]] + names[1..] == done + names;
      }
    }
  }

  /** A relative link of plain names leads from the directory it is in. */
  lemma GoalPlain(exported: string, up: seq<string>, link: string, ts: seq<string>, rest: seq<string>)
    requires AllNamed(ts) && ts != [] && AllNamed(rest)
    ensures GoalOf(exported, up + [link], Joined(ts), rest) == Some(up + ts + rest)
  {
    hide Run, Split, Joined;
    JoinedStart(ts);
    SplitJoined(ts);
    assert (up + [link])[..|up + [link]| - 1] == up;
    RunNamed(up, ts + rest);
    assert up + (ts + rest) == up + ts + rest;
  }

  /** An absolute link into the export leads from its root, one to the export to the root itself; outside it
      leads nowhere, and beside it neither, though the text goes on from that of the export. */
  lemma GoalInside(es: seq<string>, done: seq<string>, ts: seq<string>, rest: seq<string>)
    requires AllNamed(ts) && ts != []
    ensures GoalOf(Render(es), done, Render(es) + Render(ts), rest) == Some(ts)
    ensures es != [] ==> GoalOf(Render(es), done, Render(es), rest) == Some([])
    ensures forall exported: string :: !(exported <= Render(ts)) ==> GoalOf(exported, done, Render(ts), rest) == None
    ensures forall t: string :: es != [] && t != "" && t[0] != '/' ==>
      GoalOf(Render(es), done, Render(es) + t, rest) == None
  {
    RootSlash();
    hide Run, Split, Render;
    RenderAbsolute(ts);
    if es != [] {
      RenderAbsolute(es);
    }
    var target := Render(es) + Render(ts);
    assert target[|Render(es)|] == '/' && target[|Render(es)|..] == Render(ts);
    NoneRendered();
    RunRender(ts, []);
    RunNothing(Some(ts));
    assert Split(Render(ts)) + [] == Split(Render(ts));
  }

  lemma NoneRendered()
    ensures Render([]) == ""
  {
  }

  /** A link is met. With O_NOFOLLOW that is an error; in last place of a lookup that does not follow, it is
      what was looked for; otherwise, unless forty have been followed, resolution starts again along the
      names it leads to. */
  lemma LinkMet(w: Walk, s: Server, dir: Fh, done: seq<string>, link: string, rest: seq<string>, links: nat,
                ts: seq<string>)
    requires s.child(dir, link).Ok? && s.child(dir, link).value.isLink && AllNamed(rest) && AllNamed(ts) && ts != []
    requires s.target(s.child(dir, link).value.fh) == Ok(Joined(ts))
    ensures Resolve(w, s, dir, done, [link] + rest, links) ==
      if w.openNoFollow then Failed(ELOOP)
      else if w.noFollow && rest == [] then Found(s.child(dir, link).value.fh)
      else if links == 0 then Failed(ELOOP)
      else Resolve(w, s, w.root, [], done + ts + rest, links - 1)
  {
    hide GoalOf, Joined;
    assert ([link] + rest)[1..] == rest;
    GoalPlain(w.exported, done, link, ts, rest);
    if rest == [] && links > 0 && w.noFollow && !w.openNoFollow {
      assert Resolve(w, s, s.child(dir, link).value.fh, done + [link], [], links) == Found(s.child(dir, link).value.fh);
    }
  }

  /** In the root, each of `names` but the last is a link to the next, and the last is no link. */
  predicate Chained(w: Walk, s: Server, names: seq<string>) {
    && names != [] && AllNamed(names)
    && (forall i :: 0 <= i < |names| ==> s.child(w.root, names[i]).Ok?)
    && (forall i :: 0 <= i < |names| - 1 ==>
          s.child(w.root, names[i]).value.isLink && s.target(s.child(w.root, names[i]).value.fh) == Ok(names[i + 1]))
    && !s.child(w.root, names[|names| - 1]).value.isLink
  }

  lemma {:induction false} ChainResolved(w: Walk, s: Server, names: seq<string>, links: nat)
    requires Chained(w, s, names) && !w.noFollow && !w.openNoFollow
    ensures Resolve(w, s, w.root, [], [names[0]], links) ==
      if |names| - 1 <= links then Found(s.child(w.root, names[|names| - 1]).value.fh) else Failed(ELOOP)
    decreases |names|
  {
    hide Joined;
    if |names| == 1 {
      assert [names[0]][1..] == [];
    } else {
      var ts := [names[1]];
      assert Joined(ts) == names[1] by {
        JoinedOne(names[1]);
      }
      LinkMet(w, s, w.root, [], names[0], [], links, ts);
      assert [names[0]] + [] == [names[0]] && [] + ts + [] == [names[1]];
      if links > 0 {
        ChainResolved(w, s, names[1..], links - 1);
      }
    }
  }

  lemma JoinedOne(name: string)
    ensures Joined([name]) == name
  {
  }

  /** A lookup follows forty links and no more. */
  lemma FortyLinks(w: Walk, s: Server, names: seq<string>)
    requires Chained(w, s, names) && !w.noFollow && !w.openNoFollow
    ensures Finds(w, s, Render([names[0]]), "/") ==
      if |names| <= 41 then Found(s.child(w.root, names[|names| - 1]).value.fh) else Failed(ELOOP)
  {
    hide Names, Resolve, Render;
    var ts := [names[0]];
    NamesAbsolute(ts);
    ChainResolved(w, s, names, MAX_LINK_COUNT);
  }

  lemma NamesAbsolute(ts: seq<string>)
    requires AllNamed(ts) && ts != []
    ensures Names(Render(ts), "/") == Some(ts)
  {
    hide Run, Split, Render;
    RenderAbsolute(ts);
    RunRender(ts, []);
    RunNothing(Some(ts));
    assert Split(Render(ts)) + [] == Split(Render(ts));
  }

  /** The root itself, by a path without a slash at its end: what its attributes say it is. */
  lemma RootLookup(w: Walk, s: Server)
    ensures Finds(w, s, "", "/") ==
      if !s.attr.Ok? then Failed(s.attr.code)
      else if !s.attr.value.isLink || (w.noFollow && !w.openNoFollow) then Found(w.root)
      else if w.openNoFollow then Failed(ELOOP)
      else ThroughLink(w, s, w.root, [], [], 39)
  {
    hide Resolve, ThroughLink;
    assert Split("/") == ["", ""];
    assert Split("") == [""];
    RunOne(Some([]), "");
    assert Run(Some([]), ["", ""]) == Run(Push(Some([]), ""), [""]);
  }

  /** Normalising changes the text and not where it leads; doing it twice is doing it once. The root keeps a
      slash exactly when the path ended in one; no other path keeps it. */
  lemma CanonicalSame(s: string)
    requires Eval(s).Some?
    ensures var t := Canonical(s);
      && Eval(t) == Eval(s) && Canonical(t) == t
      && (t == "/" <==> Eval(s) == Some([]) && EndsInSlash(s)) && (EndsInSlash(t) ==> t == "/")
  {
    hide Run, Split;
    var st := Eval(s).value;
    EvalIsNamed(s);
    RunRender(st, []);
    RunNothing(Some(st));
    assert Split(Render(st)) + [] == Split(Render(st));
    RootSlash();
    RenderedEnd(st);
  }

  lemma RootSlash()
    ensures Eval("/") == Some([]) && Render([]) == ""
  {
    assert Split("/") == ["", ""];
    RunOne(Some([]), "");
    assert Run(Some([]), ["", ""]) == Run(Push(Some([]), ""), [""]);
  }

  lemma {:induction false} RenderedEnd(st: seq<string>)
    requires AllNamed(st)
    ensures !EndsInSlash(Render(st)) && (Render(st) == "" <==> st == [])
  {
    if st != [] {
      var rest := Render(st[1..]);
      RenderedEnd(st[1..]);
      assert Named(st[0]);
      if rest == "" {
        assert Render(st) == "/" + st[0];
        assert Render(st)[|Render(st)| - 1] == st[0][|st[0]| - 1];
      } else {
        assert Render(st)[|Render(st)| - 1] == rest[|rest| - 1];
      }
    }
  }

  /** A mount is above a path exactly when its names are the first names of the path. */
  lemma UnderIsAbove(ms: seq<string>, ps: seq<string>)
    requires AllNamed(ms) && AllNamed(ps)
    ensures NestedMounts.Under(Render(ms), Render(ps)) <==> ms <= ps
  {
    hide Render, Split;
    var m, p := Render(ms), Render(ps);
    SplitRender(ms);
    SplitRender(ps);
    if NestedMounts.Under(m, p) {
      if |p| == |m| {
        assert m == p;
        assert ([""] + ms)[1..] == ms && ([""] + ps)[1..] == ps;
      } else {
        var r := p[|m| + 1..];
        assert p == m + "/" + r;
        SplitOfJoin(m, r);
        assert [""] + ps == ([""] + ms) + Split(r);
        assert ([""] + ps)[1..] == ps;
        assert (([""] + ms) + Split(r))[1..] == ms + Split(r);
      }
    }
    if ms <= ps {
      var qs := ps[|ms|..];
      assert ps == ms + qs;
      RenderConcat(ms, qs);
      NoneRendered();
      if qs != [] {
        RenderAbsolute(qs);
      }
    }
  }

  lemma SplitRender(st: seq<string>)
    requires AllNamed(st)
    ensures Split(Render(st)) == [""] + st
  {
    UnsplitIsRender(st);
    forall i | 0 <= i < |[""] + st| ensures '/' !in ([""] + st)[i] {
      if i > 0 {
        assert Named(st[i - 1]);
      }
    }
    SplitUnsplit([""] + st);
  }
}
