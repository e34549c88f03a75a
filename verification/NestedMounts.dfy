/** The choice among nested mounts at the start of a lookup. The loop matches
    against the path it has already shortened. */
module NestedMounts {
  import opened Prelude

  /** `mount` is `path` or a directory above it. */
  predicate Under(mount: string, path: string) {
    mount <= path && (|path| == |mount| || path[|mount|] == '/')
  }

  /** The loop from mount `i` on: the text left, and the mount taken last. */
  function Matched(path: string, mounts: seq<string>, i: nat, longest: nat, hit: Option<nat>): (string, Option<nat>)
    requires i <= |mounts|
    decreases |mounts| - i
  {
    if i == |mounts| then (path, hit)
    else if |mounts[i]| >= longest && Under(mounts[i], path) then
      Matched(path[|mounts[i]|..], mounts, i + 1, |mounts[i]|, Some(i))
    else Matched(path, mounts, i + 1, longest, hit)
  }

  /** The loop of `nfs3_lookuppath_async` over the nested mounts. */
  method Match(path: string, mounts: seq<string>) returns (saved: string, hit: Option<nat>)
    ensures (saved, hit) == Matched(path, mounts, 0, 0, None)
  {
    saved, hit := path, None;
    var longest: nat := 0;
    for i := 0 to |mounts|
      invariant Matched(path, mounts, 0, 0, None) == Matched(saved, mounts, i, longest, hit)
    {
      if |mounts[i]| >= longest && Under(mounts[i], saved) {
        saved, longest, hit := saved[|mounts[i]|..], |mounts[i]|, Some(i);
      }
    }
  }

  /** Mount `i` is the one meant: the first of the longest above the path. */
  predicate Longest(path: string, mounts: seq<string>, i: nat)
    requires i < |mounts|
  {
    && Under(mounts[i], path)
    && forall j :: 0 <= j < |mounts| && Under(mounts[j], path) ==>
         |mounts[j]| <= |mounts[i]| && (j < i ==> |mounts[j]| < |mounts[i]|)
  }

  /** The first mount above the path, from `i` on. */
  function First(path: string, mounts: seq<string>, i: nat): (f: nat)
    requires i <= |mounts|
    ensures i <= f <= |mounts| && (f < |mounts| ==> Under(mounts[f], path))
    ensures forall j :: i <= j < f ==> !Under(mounts[j], path)
    decreases |mounts| - i
  {
    if i == |mounts| || Under(mounts[i], path) then i else First(path, mounts, i + 1)
  }

  /** Nothing from mount `i` on, of at least that length, lies above the text left. */
  predicate Silent(left: string, mounts: seq<string>, i: nat, longest: nat) {
    forall j :: i <= j < |mounts| && |mounts[j]| >= longest ==> !Under(mounts[j], left)
  }

  lemma {:induction false} UpToFirst(path: string, mounts: seq<string>, i: nat, hit: Option<nat>)
    requires i <= |mounts|
    ensures var f := First(path, mounts, i);
      Matched(path, mounts, i, 0, hit) ==
        if f == |mounts| then (path, hit) else Matched(path[|mounts[f]|..], mounts, f + 1, |mounts[f]|, Some(f))
    decreases |mounts| - i
  {
    if i < |mounts| && !Under(mounts[i], path) {
      UpToFirst(path, mounts, i + 1, hit);
    }
  }

  /** The loop stops shortening exactly when it is silent. */
  lemma {:induction false} KeepsIffSilent(left: string, mounts: seq<string>, i: nat, longest: nat, hit: Option<nat>)
    requires i <= |mounts| && 0 < longest
    ensures |Matched(left, mounts, i, longest, hit).0| <= |left|
    ensures Silent(left, mounts, i, longest) ==> Matched(left, mounts, i, longest, hit) == (left, hit)
    ensures !Silent(left, mounts, i, longest) ==> |Matched(left, mounts, i, longest, hit).0| < |left|
    decreases |mounts| - i
  {
    if i < |mounts| {
      if |mounts[i]| >= longest && Under(mounts[i], left) {
        KeepsIffSilent(left[|mounts[i]|..], mounts, i + 1, |mounts[i]|, Some(i));
      } else {
        KeepsIffSilent(left, mounts, i + 1, longest, hit);
      }
    }
  }

  /** Some mount above the path exists: the loop takes the one meant and leaves what is behind it
      exactly when that one comes first and nothing later lies above what is left. */
  lemma MatchExact(path: string, mounts: seq<string>)
    requires forall j :: 0 <= j < |mounts| ==> mounts[j] != ""
    requires First(path, mounts, 0) < |mounts|
    ensures var f := First(path, mounts, 0);
      (exists i :: 0 <= i < |mounts| && Longest(path, mounts, i) &&
         Matched(path, mounts, 0, 0, None) == (path[|mounts[i]|..], Some(i))) <==>
      Longest(path, mounts, f) && Silent(path[|mounts[f]|..], mounts, f + 1, |mounts[f]|)
  {
    var f := First(path, mounts, 0);
    var left := path[|mounts[f]|..];
    UpToFirst(path, mounts, 0, None);
    KeepsIffSilent(left, mounts, f + 1, |mounts[f]|, Some(f));
    if i :| 0 <= i < |mounts| && Longest(path, mounts, i) &&
            Matched(path, mounts, 0, 0, None) == (path[|mounts[i]|..], Some(i)) {
      if Silent(left, mounts, f + 1, |mounts[f]|) {
        assert i == f;
      } else {
        Later(left, mounts, f + 1, |mounts[f]|, f, i, path);
      }
    }
  }

  /** What is taken after the first mount is taken from a shorter text. */
  lemma {:induction false} Later(left: string, mounts: seq<string>, i: nat, longest: nat, hit: nat, k: nat,
                                 path: string)
    requires i <= |mounts| && 0 < longest && k < |mounts| && hit < i && |left| < |path| && Under(mounts[k], path)
    requires Matched(left, mounts, i, longest, Some(hit)).1 == Some(k) && k != hit
    ensures |Matched(left, mounts, i, longest, Some(hit)).0| < |path| - |mounts[k]|
    decreases |mounts| - i
  {
    if i < |mounts| {
      if |mounts[i]| >= longest && Under(mounts[i], left) {
        var rest := left[|mounts[i]|..];
        if Matched(rest, mounts, i + 1, |mounts[i]|, Some(i)).1 == Some(i) {
          KeepsIffSilent(rest, mounts, i + 1, |mounts[i]|, Some(i));
        } else {
          Later(rest, mounts, i + 1, |mounts[i]|, i, k, path);
        }
      } else {
        Later(left, mounts, i + 1, longest, hit, k, path);
      }
    }
  }

  /** "/a" and "/a/b" are mounted and "/a/b/c" is looked up: the shorter one is taken. */
  lemma ShorterMountTaken()
    ensures Matched("/a/b/c", ["/a", "/a/b"], 0, 0, None) == ("/b/c", Some(0))
    ensures Longest("/a/b/c", ["/a", "/a/b"], 1)
  {
    var mounts := ["/a", "/a/b"];
    assert Under("/a", "/a/b/c") && "/a/b/c"[2..] == "/b/c";
    assert !Under("/a/b", "/b/c") by {
      assert "/a/b"[1] != "/b/c"[1];
    }
    assert Matched("/b/c", mounts, 1, 2, Some(0)) == Matched("/b/c", mounts, 2, 2, Some(0));
    assert Under("/a/b", "/a/b/c");
  }
}
