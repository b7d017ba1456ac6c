/** Symbolic links in an unpacked root file system: rewriting absolute targets relative
to the link (fixup_rootfs, relative_target) and following links as the guest would
(resolve_in_root). */
module Symlinks {
  import opened Descriptors

  type Path = seq<string>

  // ----- Strings and components -----

  /** s.split("/"). */
  function Split(s: string): (r: seq<string>)
    ensures |r| > 0
  {
    if s == "" then [""]
    else
      var r := Split(s[1..]);
      if s[0] == '/' then [""] + r else [[s[0]] + r[0]] + r[1..]
  }

  function Join(cs: seq<string>): string {
    if |cs| == 0 then "" else if |cs| == 1 then cs[0] else cs[0] + "/" + Join(cs[1..])
  }

  /** The components that mean something. */
  function Real(cs: seq<string>): seq<string> {
    if cs == [] then [] else (if cs[0] == "" || cs[0] == "." then [] else [cs[0]]) + Real(cs[1..])
  }

  function Comps(s: string): seq<string> {
    Real(Split(s))
  }

  /** A component as it may come out of Comps. */
  predicate Part(c: string) {
    c != "" && c != "." && '/' !in c
  }

  predicate Name(c: string) {
    Part(c) && c != ".."
  }

  ghost predicate Parts(cs: seq<string>) {
    forall i :: 0 <= i < |cs| ==> Part(cs[i])
  }

  ghost predicate Names(cs: seq<string>) {
    forall i :: 0 <= i < |cs| ==> Name(cs[i])
  }

  lemma {:induction false} SplitSlash(a: string, b: string)
    ensures Split(a + "/" + b) == Split(a) + Split(b)
  {
    if a == "" {
      assert a + "/" + b == "/" + b && ("/" + b)[1..] == b;
    } else {
      var s, rest := a + "/" + b, a[1..];
      assert s[1..] == rest + "/" + b && s[0] == a[0];
      SplitSlash(rest, b);
      JoinHead(s, Split(rest), Split(b));
    }
  }

  lemma JoinHead(s: string, x: seq<string>, y: seq<string>)
    requires s != "" && x != [] && Split(s[1..]) == x + y
    ensures Split(s) == (if s[0] == '/' then [""] + x else [[s[0]] + x[0]] + x[1..]) + y
  {
    SplitOnce(s);
    hide Split;
    DropFirst(x, y);
    Associate([""], x, y);
    Associate([[s[0]] + x[0]], x[1..], y);
  }

  lemma SplitOnce(s: string)
    requires s != ""
    ensures var r := Split(s[1..]);
      Split(s) == if s[0] == '/' then [""] + r else [[s[0]] + r[0]] + r[1..]
  {
  }

  lemma DropFirst(x: seq<string>, y: seq<string>)
    requires x != []
    ensures (x + y)[0] == x[0] && (x + y)[1..] == x[1..] + y
  {
  }

  lemma Associate(x: seq<string>, y: seq<string>, z: seq<string>)
    ensures x + (y + z) == (x + y) + z
  {
  }

  lemma {:induction false} SplitPlain(s: string)
    requires '/' !in s
    ensures Split(s) == [s]
  {
    if s != "" {
      SplitPlain(s[1..]);
      assert s[0] in s;
      assert [s[0]] + s[1..] == s;
    }
  }

  lemma {:induction false} SplitNoSlash(s: string, i: nat)
    requires i < |Split(s)|
    ensures '/' !in Split(s)[i]
  {
    if s != "" {
      var r := Split(s[1..]);
      SplitNoSlash(s[1..], if s[0] == '/' then (if i == 0 then 0 else i - 1) else i);
    }
  }

  lemma {:induction false} RealConcat(a: seq<string>, b: seq<string>)
    ensures Real(a + b) == Real(a) + Real(b)
  {
    if a == [] {
      assert a + b == b;
    } else {
      assert (a + b)[1..] == a[1..] + b;
      RealConcat(a[1..], b);
    }
  }

  lemma {:induction false} RealIs(cs: seq<string>)
    requires forall i :: 0 <= i < |cs| ==> '/' !in cs[i]
    ensures Parts(Real(cs))
  {
    if cs != [] {
      RealIs(cs[1..]);
    }
  }

  lemma CompsAreParts(s: string)
    ensures Parts(Comps(s))
  {
    forall i | 0 <= i < |Split(s)| ensures '/' !in Split(s)[i] {
      SplitNoSlash(s, i);
    }
    RealIs(Split(s));
  }

  lemma CompsSlash(a: string, b: string)
    ensures Comps(a + "/" + b) == Comps(a) + Comps(b)
  {
    SplitSlash(a, b);
    RealConcat(Split(a), Split(b));
  }

  lemma CompsPart(c: string)
    requires Part(c)
    ensures Comps(c) == [c]
  {
    SplitPlain(c);
    assert [c][1..] == [] && Real([c]) == [c] + Real([]);
  }

  lemma {:induction false} CompsJoin(cs: seq<string>)
    requires Parts(cs)
    ensures Comps(Join(cs)) == cs
  {
    if |cs| == 0 {
      assert Split("")[1..] == [];
    } else if |cs| == 1 {
      CompsPart(cs[0]);
    } else {
      CompsJoin(cs[1..]);
      CompsPart(cs[0]);
      CompsSlash(cs[0], Join(cs[1..]));
      assert [cs[0]] + cs[1..] == cs;
    }
  }

  // ----- os.path.normpath, of an absolute path -----

  predicate Absolute(s: string) {
    s != "" && s[0] == '/'
  }

  /** Drop "", "." and, with the component before it, ".."; ".." stops at the root. */
  function Collapse(cs: seq<string>, out: seq<string>): seq<string> {
    if cs == [] then out
    else if cs[0] == "" || cs[0] == "." then Collapse(cs[1..], out)
    else if cs[0] != ".." then Collapse(cs[1..], out + [cs[0]])
    else Collapse(cs[1..], if out == [] then [] else out[..|out| - 1])
  }

  /** An absolute path keeps one leading slash, or exactly two. */
  function Slashes(s: string): string
    requires Absolute(s)
  {
    if |s| >= 2 && s[1] == '/' && !(|s| >= 3 && s[2] == '/') then "//" else "/"
  }

  function NormPath(s: string): string
    requires Absolute(s)
  {
    Slashes(s) + Join(Collapse(Split(s), []))
  }

  function StripSlashes(s: string): string {
    if s != "" && s[0] == '/' then StripSlashes(s[1..]) else s
  }

  function Count(s: string): nat {
    if s == "" then 0 else (if s[0] == '/' then 1 else 0) + Count(s[1..])
  }

  function Ups(k: nat): string {
    if k == 0 then "" else "../" + Ups(k - 1)
  }

  /** relative_target. */
  function RelativeTarget(linkRelpath: string, target: string): string
    requires Absolute(target)
  {
    var r := Ups(Count(linkRelpath)) + StripSlashes(NormPath(target));
    if r == "" then "." else r
  }

  function Dots(k: nat): seq<string> {
    seq(k, _ => "..")
  }

  lemma {:induction false} CompsStrip(s: string)
    ensures Comps(StripSlashes(s)) == Comps(s)
  {
    if s != "" && s[0] == '/' {
      CompsStrip(s[1..]);
      assert s == "" + "/" + s[1..];
      CompsSlash("", s[1..]);
      assert Split("")[1..] == [];
    }
  }

  lemma {:induction false} CompsUps(k: nat, s: string)
    ensures Comps(Ups(k) + s) == Dots(k) + Comps(s)
  {
    hide Comps;
    if k == 0 {
      assert Ups(k) + s == s;
    } else {
      CompsUps(k - 1, s);
      assert Ups(k) + s == ".." + "/" + (Ups(k - 1) + s);
      CompsSlash("..", Ups(k - 1) + s);
      CompsPart("..");
      assert Dots(k) == [".."] + Dots(k - 1);
    }
  }

  lemma {:induction false} CollapseReal(cs: seq<string>, out: seq<string>)
    requires Names(out) && forall i :: 0 <= i < |cs| ==> '/' !in cs[i]
    ensures Collapse(cs, out) == Collapse(Real(cs), out) && Names(Collapse(cs, out))
  {
    if cs != [] {
      var rest := cs[1..];
      assert forall i :: 0 <= i < |rest| ==> rest[i] == cs[i + 1];
      var out' := if cs[0] == "" || cs[0] == "." then out else if cs[0] != ".." then out + [cs[0]]
                  else if out == [] then [] else out[..|out| - 1];
      CollapseReal(rest, out');
      if cs[0] == "" || cs[0] == "." {
        assert Real(cs) == Real(rest);
      } else {
        assert Real(cs) == [cs[0]] + Real(rest) && Real(cs)[1..] == Real(rest);
      }
    }
  }

  lemma {:induction false} CountJoin(cs: seq<string>)
    requires Names(cs) && cs != []
    ensures Count(Join(cs)) == |cs| - 1
  {
    if |cs| == 1 {
      CountPlain(cs[0]);
    } else {
      CountJoin(cs[1..]);
      CountSlash(cs[0], Join(cs[1..]));
      CountPlain(cs[0]);
    }
  }

  lemma {:induction false} CountPlain(s: string)
    requires '/' !in s
    ensures Count(s) == 0
  {
    if s != "" {
      assert s[0] in s;
      CountPlain(s[1..]);
    }
  }

  lemma {:induction false} CountSlash(a: string, b: string)
    ensures Count(a + "/" + b) == Count(a) + 1 + Count(b)
  {
    if a == "" {
      assert a + "/" + b == "/" + b && ("/" + b)[1..] == b;
    } else {
      CountSlash(a[1..], b);
      assert (a + "/" + b)[1..] == a[1..] + "/" + b && (a + "/" + b)[0] == a[0];
    }
  }

  /** A rewritten target climbs from the link to the root and then goes where the
      collapsed target goes. */
  lemma RelativeTargetIs(link: Path, target: string)
    requires link != [] && Names(link) && Absolute(target)
    ensures Comps(RelativeTarget(Join(link), target)) == Dots(|link| - 1) + Collapse(Comps(target), [])
    ensures !Absolute(RelativeTarget(Join(link), target))
  {
    CountJoin(link);
    var k, cs := |link| - 1, Collapse(Split(target), []);
    forall i | 0 <= i < |Split(target)| ensures '/' !in Split(target)[i] {
      SplitNoSlash(target, i);
    }
    CollapseReal(Split(target), []);
    var rel := StripSlashes(NormPath(target));
    CompsStrip(NormPath(target));
    CompsNorm(target, cs);
    CompsUps(k, rel);
    Stripped(NormPath(target));
    if Ups(k) + rel == "" {
      assert Ups(k) == "" && rel == "";
      DotIsNothing();
    }
    UpsRelative(k, rel);
  }

  lemma DotIsNothing()
    ensures Comps(".") == [] && Comps("") == []
  {
    SplitPlain(".");
    assert ["."][1..] == [] && [""][1..] == [];
  }

  lemma CompsNorm(target: string, cs: seq<string>)
    requires Absolute(target) && cs == Collapse(Split(target), []) && Names(cs)
    ensures Comps(NormPath(target)) == cs
  {
    hide Comps, Join, Split, Collapse;
    CompsJoin(cs);
    DotIsNothing();
    CompsSlash("", Join(cs));
    assert "" + "/" + Join(cs) == "/" + Join(cs);
    CompsSlash("", "/" + Join(cs));
    assert "" + "/" + ("/" + Join(cs)) == "//" + Join(cs);
  }

  lemma {:induction false} Stripped(s: string)
    ensures !Absolute(StripSlashes(s))
  {
    if s != "" && s[0] == '/' {
      Stripped(s[1..]);
    }
  }

  lemma UpsRelative(k: nat, s: string)
    requires !Absolute(s)
    ensures !Absolute(Ups(k) + s)
  {
    if k == 0 {
      assert Ups(k) + s == s;
    } else {
      assert (Ups(k) + s)[0] == '.';
    }
  }

  // ----- Following links -----

  /** The symbolic links of a tree, by the real path of each. */
  type Links = map<Path, string>

  function Parent(p: Path): Path {
    if p == [] then [] else p[..|p| - 1]
  }

  /** Follow `parts` from `resolved`, through at most `left` links; None says there were
      more. */
  function Resolve(links: Links, parts: seq<string>, resolved: Path, left: nat, followLast: bool): Option<Path>
    decreases left, |parts|
  {
    if parts == [] then Some(resolved)
    else
      var name, rest := parts[0], parts[1..];
      var p := resolved + [name];
      if name == ".." then Resolve(links, rest, Parent(resolved), left, followLast)
      else if (rest != [] || followLast) && p in links then
        if left == 0 then None
        else Resolve(links, Comps(links[p]) + rest, if Absolute(links[p]) then [] else resolved, left - 1, followLast)
      else Resolve(links, rest, p, left, followLast)
  }

  /** resolve_in_root; None is the error it raises past 40 links. */
  method ResolveInRoot(links: Links, guestPath: string, followLast: bool) returns (r: Option<Path>)
    ensures r == Resolve(links, Comps(guestPath), [], 40, followLast)
    ensures r.Some? ==>
      && Names(r.value) && (forall k :: 0 < k < |r.value| ==> r.value[..k] !in links)
      && (followLast && r.value != [] ==> r.value !in links)
  {
    hide Comps;
    CompsAreParts(guestPath);
    ResolveShape(links, Comps(guestPath), [], 40, followLast);
    var parts, resolved, left := Comps(guestPath), [], 40;
    while parts != []
      invariant left >= 0
      invariant Resolve(links, parts, resolved, left, followLast) ==
        Resolve(links, Comps(guestPath), [], 40, followLast)
      decreases left, |parts|
    {
      var name := parts[0];
      parts := parts[1..];
      if name == ".." {
        if resolved != [] {
          resolved := resolved[..|resolved| - 1];
        }
        continue;
      }
      var host := resolved + [name];
      if (parts != [] || followLast) && host in links {
        left := left - 1;
        if left < 0 {
          return None;
        }
        var target := links[host];
        if Absolute(target) {
          resolved := [];
        }
        parts := Comps(target) + parts;
        continue;
      }
      resolved := host;
    }
    return Some(resolved);
  }

  /** No ".." in the result, and no unresolved link on the way to it. */
  lemma {:induction false} ResolveShape(links: Links, parts: seq<string>, resolved: Path, left: nat, followLast: bool)
    requires Parts(parts) && Names(resolved) && forall k :: 0 < k <= |resolved| ==> resolved[..k] !in links
    ensures var r := Resolve(links, parts, resolved, left, followLast);
      r.Some? ==>
        && Names(r.value) && (forall k :: 0 < k < |r.value| ==> r.value[..k] !in links)
        && (followLast && r.value != [] ==> r.value !in links)
    decreases left, |parts|
  {
    hide Comps;
    if parts == [] {
      assert resolved[..|resolved|] == resolved;
    } else {
      var name, rest := parts[0], parts[1..];
      var p := resolved + [name];
      assert forall k :: 0 < k <= |resolved| ==> p[..k] == resolved[..k];
      assert p[..|p|] == p;
      if name == ".." {
        assert forall k :: 0 < k <= |Parent(resolved)| ==> Parent(resolved)[..k] == resolved[..k];
        ResolveShape(links, rest, Parent(resolved), left, followLast);
      } else if (rest != [] || followLast) && p in links {
        if left > 0 {
          CompsAreParts(links[p]);
          ResolveShape(links, Comps(links[p]) + rest, if Absolute(links[p]) then [] else resolved, left - 1,
                       followLast);
        }
      } else if rest != [] || followLast {
        ResolveShape(links, rest, p, left, followLast);
      }
    }
  }

  // ----- Rewriting -----

  /** No ".." follows a name, so collapsing drops nothing but ".." at the root. */
  ghost predicate Tame(cs: seq<string>) {
    forall i, j :: 0 <= i < j < |cs| && cs[j] == ".." ==> cs[i] == ".."
  }

  /** What fixup_rootfs makes of the links. */
  function Rewritten(links: Links): Links {
    map p | p in links :: if Absolute(links[p]) then RelativeTarget(Join(p), links[p]) else links[p]
  }

  lemma {:induction false} CollapseNames(cs: seq<string>, out: seq<string>)
    requires Names(cs)
    ensures Collapse(cs, out) == out + cs
  {
    if cs != [] {
      CollapseNames(cs[1..], out + [cs[0]]);
      assert out + [cs[0]] + cs[1..] == out + cs;
    } else {
      assert out + cs == out;
    }
  }

  /** From the root, a tame path and its collapsed form lead to the same place. */
  lemma {:induction false} TameCollapses(links: Links, cs: seq<string>, rest: seq<string>, left: nat, followLast: bool)
    requires Tame(cs) && Parts(cs)
    ensures Resolve(links, Collapse(cs, []) + rest, [], left, followLast) ==
      Resolve(links, cs + rest, [], left, followLast)
  {
    if cs != [] {
      if cs[0] == ".." {
        var tail := cs[1..];
        assert forall i :: 0 <= i < |tail| ==> tail[i] == cs[i + 1];
        TameCollapses(links, tail, rest, left, followLast);
        assert (cs + rest)[0] == ".." && (cs + rest)[1..] == tail + rest;
      } else {
        assert forall j :: 0 <= j < |cs| ==> cs[j] != "..";
        CollapseNames(cs, []);
        assert [] + cs == cs;
      }
    }
  }

  /** Climbing as often as there are components ends at the root. */
  lemma {:induction false} ClimbToRoot(links: Links, resolved: Path, cs: seq<string>, left: nat, followLast: bool)
    ensures Resolve(links, Dots(|resolved|) + cs, resolved, left, followLast) ==
      Resolve(links, cs, [], left, followLast)
  {
    var k := |resolved|;
    if k == 0 {
      assert Dots(k) + cs == cs && resolved == [];
    } else {
      ClimbToRoot(links, Parent(resolved), cs, left, followLast);
      assert (Dots(k) + cs)[0] == ".." && (Dots(k) + cs)[1..] == Dots(k - 1) + cs;
    }
  }

  ghost predicate TameTargets(links: Links) {
    forall p :: p in links && Absolute(links[p]) ==> Tame(Comps(links[p]))
  }

  /** A rewritten absolute link leads where the link led. */
  lemma RewrittenLeads(links: Links, resolved: Path, name: string, rest: seq<string>, left: nat, followLast: bool)
    requires Names(resolved + [name]) && resolved + [name] in links && Absolute(links[resolved + [name]])
    requires TameTargets(links)
    ensures var p, links' := resolved + [name], Rewritten(links);
      && !Absolute(links'[p])
      && Resolve(links', Comps(links'[p]) + rest, resolved, left, followLast)
         == Resolve(links', Comps(links[p]) + rest, [], left, followLast)
  {
    hide Comps, Resolve, Collapse;
    var p, links' := resolved + [name], Rewritten(links);
    var cs := Comps(links[p]);
    RelativeTargetIs(p, links[p]);
    CompsAreParts(links[p]);
    assert Comps(links'[p]) + rest == Dots(|resolved|) + (Collapse(cs, []) + rest);
    ClimbToRoot(links', resolved, Collapse(cs, []) + rest, left, followLast);
    TameCollapses(links', cs, rest, left, followLast);
  }

  lemma RewrittenAt(links: Links, p: Path)
    ensures p in Rewritten(links) <==> p in links
    ensures p in links && !Absolute(links[p]) ==> Rewritten(links)[p] == links[p]
  {
  }

  /** Rewriting is invisible to every resolution: same result, or the same error. */
  lemma {:induction false} RewriteKeeps(links: Links, parts: seq<string>, resolved: Path, left: nat, followLast: bool)
    requires TameTargets(links) && Parts(parts) && Names(resolved)
    ensures Resolve(Rewritten(links), parts, resolved, left, followLast) ==
      Resolve(links, parts, resolved, left, followLast)
    decreases left, |parts|
  {
    hide Comps, Rewritten, TameTargets;
    if parts != [] {
      var name, rest := parts[0], parts[1..];
      var p := resolved + [name];
      RewrittenAt(links, p);
      if name == ".." {
        RewriteKeeps(links, rest, Parent(resolved), left, followLast);
      } else if (rest != [] || followLast) && p in links {
        if left > 0 {
          CompsAreParts(links[p]);
          if Absolute(links[p]) {
            RewrittenLeads(links, resolved, name, rest, left - 1, followLast);
            RewriteKeeps(links, Comps(links[p]) + rest, [], left - 1, followLast);
          } else {
            RewriteKeeps(links, Comps(links[p]) + rest, resolved, left - 1, followLast);
          }
        }
      } else {
        RewriteKeeps(links, rest, p, left, followLast);
      }
    }
  }

  /** The walk of fixup_rootfs, which meets every link once, in any order. */
  method RewriteLinks(links: Links) returns (out: Links)
    ensures out == Rewritten(links)
  {
    out := links;
    var todo := links.Keys;
    while todo != {}
      invariant todo <= links.Keys == out.Keys
      invariant forall p :: p in links ==> out[p] == if p in todo then links[p] else Rewritten(links)[p]
      decreases |todo|
    {
      var p :| p in todo;
      if Absolute(out[p]) {
        out := out[p := RelativeTarget(Join(p), out[p])];
      }
      todo := todo - {p};
    }
  }

  /** Afterwards no target is absolute, so rewriting again changes nothing. */
  lemma RewriteSettles(links: Links)
    requires forall p :: p in links ==> p != [] && Names(p)
    ensures forall p :: p in links ==> !Absolute(Rewritten(links)[p])
    ensures Rewritten(Rewritten(links)) == Rewritten(links)
  {
    hide RelativeTarget, Join;
    forall p | p in links ensures !Absolute(Rewritten(links)[p]) {
      if Absolute(links[p]) {
        RelativeTargetIs(p, links[p]);
      }
    }
  }

  /** A link /l to /a/../b, where /a is a link to /d/e. */
  function DotDotLinks(): Links {
    map[["l"] := "/a/../b", ["a"] := "/d/e"]
  }

  lemma SampleBefore()
    ensures Resolve(DotDotLinks(), ["l"], [], 40, true) == Some(["d", "b"])
  {
    hide Comps;
    var links, up := DotDotLinks(), ["a", "..", "b"];
    SampleComps();
    ResolveName(links, "b", ["d"]);
    assert ["d"] + ["b"] == ["d", "b"] && ["..", "b"][1..] == ["b"] && Parent(["d", "e"]) == ["d"];
    assert Resolve(links, ["..", "b"], ["d", "e"], 38, true) == Some(["d", "b"]);
    assert ["e", "..", "b"][1..] == ["..", "b"] && ["d"] + ["e"] == ["d", "e"];
    assert Resolve(links, ["e", "..", "b"], ["d"], 38, true) == Some(["d", "b"]);
    assert ["d", "e", "..", "b"][1..] == ["e", "..", "b"] && [] + ["d"] == ["d"];
    assert Resolve(links, ["d", "e", "..", "b"], [], 38, true) == Some(["d", "b"]);
    assert up[1..] == ["..", "b"] && [] + ["a"] == ["a"] && ["d", "e"] + ["..", "b"] == ["d", "e", "..", "b"];
    assert Resolve(links, up, [], 39, true) == Some(["d", "b"]);
    assert ["l"][1..] == [] && [] + ["l"] == ["l"] && up + [] == up;
  }

  /** A target in which ".." follows a name is not always kept: /l led to /d/b, and
      after rewriting leads to /b. */
  lemma DotDotTargetChanges()
    ensures Resolve(DotDotLinks(), ["l"], [], 40, true) == Some(["d", "b"])
    ensures Resolve(Rewritten(DotDotLinks()), ["l"], [], 40, true) == Some(["b"])
  {
    hide Comps, Rewritten;
    SampleBefore();
    SampleRewritten();
    var links := Rewritten(DotDotLinks());
    assert [] + ["b"] == ["b"] && ["b"] + [] == ["b"];
    ResolveName(links, "b", []);
    assert ["l"][1..] == [] && [] + ["l"] == ["l"];
  }

  lemma ResolveName(links: Links, name: string, at: Path)
    requires name != ".." && at + [name] !in links
    ensures forall left: nat :: Resolve(links, [name], at, left, true) == Some(at + [name])
  {
    assert [name][1..] == [];
  }

  lemma SampleComps()
    ensures Comps("/a/../b") == ["a", "..", "b"] && Comps("/d/e") == ["d", "e"]
  {
    hide Comps;
    DotIsNothing();
    CompsPart("a");
    CompsPart("..");
    CompsPart("b");
    CompsPart("d");
    CompsPart("e");
    assert "/a/../b" == "" + "/" + ("a" + "/" + (".." + "/" + "b")) && "/d/e" == "" + "/" + ("d" + "/" + "e");
    CompsSlash("..", "b");
    CompsSlash("a", ".." + "/" + "b");
    CompsSlash("", "a" + "/" + (".." + "/" + "b"));
    CompsSlash("d", "e");
    CompsSlash("", "d" + "/" + "e");
    assert [] + (["a"] + ([".."] + ["b"])) == ["a", "..", "b"] && [] + (["d"] + ["e"]) == ["d", "e"];
  }

  lemma SampleCollapses()
    ensures Collapse(["a", "..", "b"], []) == ["b"]
  {
    var cs, a := ["a", "..", "b"], [] + ["a"];
    assert cs[1..] == ["..", "b"] && cs[1..][1..] == ["b"] && cs[1..][1..][1..] == [];
    assert a[..|a| - 1] == [] && [] + ["b"] == ["b"];
    assert Collapse(["b"], []) == ["b"];
    assert Collapse(["..", "b"], a) == Collapse(["b"], []);
  }

  lemma SampleRewritten()
    ensures var links' := Rewritten(DotDotLinks());
      ["l"] in links' && !Absolute(links'[["l"]]) && Comps(links'[["l"]]) == ["b"] && ["b"] !in links'
  {
    hide Comps, RelativeTarget, Join, Collapse;
    SampleComps();
    SampleCollapses();
    assert Names(["l"]);
    RelativeTargetIs(["l"], "/a/../b");
    assert Dots(0) + ["b"] == ["b"];
  }

  // ----- Exactly which targets keep their meaning -----

  function DotCount(parts: seq<string>): nat {
    if parts == [] then 0 else (if parts[0] == ".." then 1 else 0) + DotCount(parts[1..])
  }

  /** How many components `q` a path starts with. */
  function Lead(p: Path, q: string): (n: nat)
    ensures n <= |p|
  {
    if p == [] || p[0] != q then 0 else 1 + Lead(p[1..], q)
  }

  lemma {:induction false} LeadAppend(p: Path, q: string, name: string)
    requires name != q
    ensures Lead(p + [name], q) == Lead(p, q)
  {
    if p == [] {
      assert p + [name] == [name];
    } else {
      assert (p + [name])[0] == p[0] && (p + [name])[1..] == p[1..] + [name];
      LeadAppend(p[1..], q, name);
    }
  }

  lemma {:induction false} LeadParent(p: Path, q: string)
    requires p != []
    ensures Lead(p, q) - 1 <= Lead(Parent(p), q) <= Lead(p, q)
  {
    if |p| > 1 && p[0] == q {
      LeadParent(p[1..], q);
      assert Parent(p)[0] == p[0] && Parent(p)[1..] == Parent(p[1..]);
    }
  }

  ghost predicate NoneUnder(links: Links, q: string) {
    forall p :: p in links && p != [] ==> p[0] != q
  }

  /** Below a directory that holds no link, resolving is textual: each ".." takes away
      at most one leading component. */
  lemma {:induction false} WalkUnder(links: Links, parts: seq<string>, at: Path, q: string, left: nat)
    requires NoneUnder(links, q) && Lead(at, q) > DotCount(parts) && q !in parts
    ensures var r := Resolve(links, parts, at, left, true);
      r.Some? && Lead(at, q) - DotCount(parts) <= Lead(r.value, q) <= Lead(at, q)
  {
    hide Comps;
    if parts != [] {
      var name, rest := parts[0], parts[1..];
      assert name in parts && forall x :: x in rest ==> x in parts;
      if name == ".." {
        LeadParent(at, q);
        WalkUnder(links, rest, Parent(at), q, left);
      } else {
        LeadAppend(at, q, name);
        assert (at + [name])[0] == q;
        WalkUnder(links, rest, at + [name], q, left);
      }
    }
  }

  /** Names that meet no link are simply followed. */
  lemma {:induction false} Stroll(links: Links, xs: seq<string>, rest: seq<string>, at: Path, left: nat)
    requires Names(xs) && forall k :: 0 < k <= |xs| ==> at + xs[..k] !in links
    ensures Resolve(links, xs + rest, at, left, true) == Resolve(links, rest, at + xs, left, true)
    decreases |xs|
  {
    hide Comps;
    if xs == [] {
      assert xs + rest == rest && at + xs == at;
    } else {
      var tail, at' := xs[1..], at + [xs[0]];
      assert xs[..1] == [xs[0]];
      assert forall k :: 0 < k <= |tail| ==> at' + tail[..k] == at + xs[..k + 1];
      Stroll(links, tail, rest, at', left);
      assert (xs + rest)[0] == xs[0] && (xs + rest)[1..] == tail + rest && at' + tail == at + xs;
    }
  }

  lemma {:induction false} DropDots(links: Links, d: nat, rest: seq<string>, left: nat)
    ensures Resolve(links, Dots(d) + rest, [], left, true) == Resolve(links, rest, [], left, true)
  {
    if d == 0 {
      assert Dots(d) + rest == rest;
    } else {
      DropDots(links, d - 1, rest, left);
      assert (Dots(d) + rest)[0] == ".." && (Dots(d) + rest)[1..] == Dots(d - 1) + rest;
    }
  }

  function Leading(cs: seq<string>): (d: nat)
    ensures d <= |cs| && (forall i :: 0 <= i < d ==> cs[i] == "..") && (d < |cs| ==> cs[d] != "..")
  {
    if cs == [] || cs[0] != ".." then 0 else 1 + Leading(cs[1..])
  }

  function NameRun(cs: seq<string>): (k: nat)
    ensures k <= |cs| && (forall i :: 0 <= i < k ==> cs[i] != "..") && (k < |cs| ==> cs[k] == "..")
  {
    if cs == [] || cs[0] == ".." then 0 else 1 + NameRun(cs[1..])
  }

  lemma SplitLeading(cs: seq<string>)
    ensures cs == Dots(Leading(cs)) + cs[Leading(cs)..]
  {
    hide Leading;
  }

  lemma TameSplit(cs: seq<string>, d: nat)
    requires d <= |cs| && (forall i :: 0 <= i < d ==> cs[i] == "..") && (forall i :: d <= i < |cs| ==> cs[i] != "..")
    ensures Tame(cs)
  {
  }

  /** Past its leading "..", a path that is not tame is names and then a "..". */
  lemma UntameParts(cs: seq<string>)
    requires Parts(cs) && !Tame(cs)
    ensures var xs := cs[Leading(cs)..];
      0 < NameRun(xs) < |xs| && Names(xs[..NameRun(xs)])
  {
    hide Leading, NameRun, Tame;
    var d := Leading(cs);
    var xs := cs[d..];
    var k := NameRun(xs);
    if k == |xs| {
      forall i | d <= i < |cs| ensures cs[i] != ".." {
        assert cs[i] == xs[i - d];
      }
      TameSplit(cs, d);
    }
    assert d < |cs| ==> xs[0] == cs[d];
    forall n | 0 <= n < k ensures Name(xs[n]) {
      assert xs[n] == cs[d + n];
    }
  }

  // ----- The tree in which an untame target changes -----

  function Repeat(q: string, n: nat): seq<string> {
    seq(n, _ => q)
  }

  lemma {:induction false} LeadRepeat(q: string, n: nat)
    ensures Lead(Repeat(q, n), q) == n
  {
    if n > 0 {
      LeadRepeat(q, n - 1);
      assert Repeat(q, n)[1..] == Repeat(q, n - 1);
    }
  }

  lemma {:induction false} LeadNone(p: Path, q: string)
    requires q !in p
    ensures Lead(p, q) == 0
  {
    if p != [] {
      assert p[0] in p;
    }
  }

  /** A name no part of `cs` can be: longer than all of them. */
  function Longer(cs: seq<string>): (q: string)
    ensures Name(q) && forall c :: c in cs ==> |c| < |q|
  {
    if cs == [] then "qqq"
    else
      var q := Longer(cs[1..]);
      assert forall c :: c in cs ==> c == cs[0] || c in cs[1..];
      if |cs[0]| < |q| then q else Qs(|cs[0]| + 3)
  }

  function Qs(n: nat): (q: string)
    requires n >= 3
    ensures |q| == n && Name(q)
  {
    var q := seq(n, _ => 'q');
    assert '/' !in q;
    q
  }

  /** Two links: [z] to `t`, and `ns` to n components `q` below the root. */
  ghost predicate Decoy(links: Links, t: string, z: string, ns: Path, q: string, n: nat) {
    && links.Keys == {[z], ns} && Name(z) && Name(q) && z != q && ns != [] && Names(ns) && z !in ns && q !in ns
    && links[[z]] == t && Absolute(t) && z !in Comps(t) && q !in Comps(t)
    && Absolute(links[ns]) && Comps(links[ns]) == Repeat(q, n) && n > 0
  }

  lemma DecoyClear(links: Links, t: string, z: string, ns: Path, q: string, n: nat)
    requires Decoy(links, t, z, ns, q, n)
    ensures NoneUnder(links, q) && forall k :: 0 < k < |ns| ==> ns[..k] !in links
  {
    hide Comps, Repeat;
    assert ns[0] in ns;
  }

  lemma FollowLink(links: Links, at: Path, name: string, tail: seq<string>, left: nat)
    requires name != ".." && at + [name] in links && left > 0
    ensures var t := links[at + [name]];
      Resolve(links, [name] + tail, at, left, true) ==
        Resolve(links, Comps(t) + tail, if Absolute(t) then [] else at, left - 1, true)
  {
    hide Comps;
    assert ([name] + tail)[0] == name && ([name] + tail)[1..] == tail;
  }

  lemma ReachLink(links: Links, ns: Path, tail: seq<string>, left: nat)
    requires Names(ns) && ns != [] && ns in links && left > 0 && forall k :: 0 < k < |ns| ==> ns[..k] !in links
    ensures var t := links[ns];
      Resolve(links, ns + tail, [], left, true) ==
        Resolve(links, Comps(t) + tail, if Absolute(t) then [] else Parent(ns), left - 1, true)
  {
    hide Comps, Resolve;
    var body, name := Parent(ns), ns[|ns| - 1];
    assert body + [name] == ns && ns + tail == body + ([name] + tail);
    forall k | 0 < k <= |body| ensures [] + body[..k] !in links {
      assert [] + body[..k] == ns[..k];
    }
    Stroll(links, body, [name] + tail, [], left);
    assert [] + body == body;
    FollowLink(links, body, name, tail, left);
  }

  lemma Descend(links: Links, q: string, n: nat, tail: seq<string>, left: nat)
    requires NoneUnder(links, q) && Name(q)
    ensures Resolve(links, Repeat(q, n) + tail, [], left, true) == Resolve(links, tail, Repeat(q, n), left, true)
  {
    hide Comps, Resolve;
    var qs := Repeat(q, n);
    forall k | 0 < k <= n ensures [] + qs[..k] !in links {
      assert ([] + qs[..k])[0] == q;
    }
    Stroll(links, qs, tail, [], left);
    assert [] + qs == qs;
  }

  /** Before rewriting, the link leads below between 1 and n - 1 components `q`. */
  lemma DecoyBefore(links: Links, t: string, z: string, ns: Path, q: string, n: nat, d: nat, rest: seq<string>)
    requires Decoy(links, t, z, ns, q, n) && Comps(t) == Dots(d) + (ns + ([".."] + rest)) && n == DotCount(rest) + 2
    ensures var r := Resolve(links, [z], [], 40, true);
      r.Some? && 1 <= Lead(r.value, q) < n
  {
    hide Comps, Resolve, DotCount, Lead;
    var tail, qs := [".."] + rest, Repeat(q, n);
    DecoyClear(links, t, z, ns, q, n);
    assert [z] + [] == [z] && [] + [z] == [z] && Comps(t) + [] == Comps(t);
    FollowLink(links, [], z, [], 40);
    DropDots(links, d, ns + tail, 39);
    ReachLink(links, ns, tail, 39);
    Descend(links, q, n, tail, 38);
    StepUp(links, qs, rest, 38);
    assert Parent(qs) == Repeat(q, n - 1);
    LeadRepeat(q, n - 1);
    assert q !in rest by {
      assert forall x :: x in rest ==> x in Comps(t);
    }
    WalkUnder(links, rest, Parent(qs), q, 38);
  }

  lemma StepUp(links: Links, at: Path, rest: seq<string>, left: nat)
    ensures Resolve(links, [".."] + rest, at, left, true) == Resolve(links, rest, Parent(at), left, true)
  {
    assert ([".."] + rest)[0] == ".." && ([".."] + rest)[1..] == rest;
  }

  lemma {:induction false} CollapseFrom(cs: seq<string>, out: seq<string>, x: string)
    requires x in Collapse(cs, out)
    ensures x in cs || x in out
  {
    if cs != [] {
      var out' := if cs[0] == "" || cs[0] == "." then out else if cs[0] != ".." then out + [cs[0]] else Parent(out);
      CollapseFrom(cs[1..], out', x);
    }
  }

  lemma {:induction false} NoDots(xs: seq<string>)
    requires Names(xs)
    ensures DotCount(xs) == 0
  {
    if xs != [] {
      NoDots(xs[1..]);
    }
  }

  /** The same two links after rewriting. */
  ghost predicate Rewired(links: Links, z: string, ns: Path, q: string, n: nat, ws: seq<string>) {
    && links.Keys == {[z], ns} && Name(z) && Name(q) && ns != [] && Names(ns) && z !in ns && q !in ns && n > 0
    && !Absolute(links[[z]]) && Comps(links[[z]]) == ws && Names(ws) && q !in ws && z !in ws
    && !Absolute(links[ns]) && Comps(links[ns]) == Dots(|ns| - 1) + Repeat(q, n) && NoneUnder(links, q)
  }

  lemma DecoyRewired(links: Links, t: string, z: string, ns: Path, q: string, n: nat)
    requires Decoy(links, t, z, ns, q, n)
    ensures Rewired(Rewritten(links), z, ns, q, n, Collapse(Comps(t), []))
  {
    hide Comps, RelativeTarget, Join;
    var ws := Collapse(Comps(t), []);
    DecoyClear(links, t, z, ns, q, n);
    assert Names([z]);
    RelativeTargetIs([z], t);
    RelativeTargetIs(ns, links[ns]);
    CollapseNames(Repeat(q, n), []);
    assert [] + Repeat(q, n) == Repeat(q, n) && Dots(0) + ws == ws;
    CompsAreParts(t);
    CollapseReal(Comps(t), []);
    forall x | x in ws ensures x in Comps(t) {
      CollapseFrom(Comps(t), [], x);
    }
    assert Rewritten(links).Keys == {[z], ns};
  }

  /** After rewriting, it leads below exactly n components `q`, or below none. */
  lemma DecoyAfter(links: Links, z: string, ns: Path, q: string, n: nat, ws: seq<string>)
    requires Rewired(links, z, ns, q, n, ws)
    ensures var r := Resolve(links, [z], [], 40, true);
      r.Some? && (Lead(r.value, q) == 0 || Lead(r.value, q) == n)
  {
    hide Comps, Resolve, Lead;
    assert [z] + [] == [z] && [] + [z] == [z] && ws + [] == ws;
    FollowLink(links, [], z, [], 40);
    if |ns| <= |ws| && ws[..|ns|] == ns {
      ThroughDecoy(links, z, ns, q, n, ws[|ns|..]);
      assert ws == ns + ws[|ns|..];
    } else {
      forall k | 0 < k <= |ws| ensures [] + ws[..k] !in links {
        assert ([] + ws[..k])[0] == ws[0] && ws[0] in ws;
        assert [] + ws[..k] == ws[..k];
      }
      Stroll(links, ws, [], [], 39);
      assert [] + ws == ws;
      Arrived(links, ws, 39);
      LeadNone(ws, q);
    }
  }

  lemma Arrived(links: Links, at: Path, left: nat)
    ensures Resolve(links, [], at, left, true) == Some(at)
  {
  }

  lemma ThroughDecoy(links: Links, z: string, ns: Path, q: string, n: nat, tail: seq<string>)
    requires links.Keys == {[z], ns} && ns != [] && Names(ns) && z !in ns && Name(q) && NoneUnder(links, q) && n > 0
    requires !Absolute(links[ns]) && Comps(links[ns]) == Dots(|ns| - 1) + Repeat(q, n) && Names(tail) && q !in tail
    ensures var r := Resolve(links, ns + tail, [], 39, true);
      r.Some? && Lead(r.value, q) == n
  {
    hide Comps, Resolve, Lead, DotCount;
    assert ns[0] in ns;
    ReachLink(links, ns, tail, 39);
    var qs, up := Repeat(q, n), Parent(ns);
    assert (Dots(|ns| - 1) + qs) + tail == Dots(|up|) + (qs + tail);
    ClimbToRoot(links, up, qs + tail, 38, true);
    Descend(links, q, n, tail, 38);
    LeadRepeat(q, n);
    NoDots(tail);
    WalkUnder(links, tail, qs, q, 38);
  }

  function DecoyLinks(t: string, z: string, ns: Path, q: string, n: nat): Links {
    map[[z] := t, ns := "/" + Join(Repeat(q, n))]
  }

  lemma IsDecoy(t: string, z: string, ns: Path, q: string, n: nat)
    requires Absolute(t) && Name(z) && Name(q) && z != q && ns != [] && Names(ns) && n > 0
    requires z !in ns && q !in ns && z !in Comps(t) && q !in Comps(t)
    ensures Decoy(DecoyLinks(t, z, ns, q, n), t, z, ns, q, n) && Tame(Comps(DecoyLinks(t, z, ns, q, n)[ns]))
  {
    hide Comps, Join;
    RootedJoin(Repeat(q, n));
    assert [z] != ns by {
      assert ns == [z] ==> z in ns;
    }
  }

  /** A path that is not tame, taken apart, and two names that are not in it. */
  lemma UntameShape(cs: seq<string>) returns (d: nat, ns: Path, rest: seq<string>, q: string, z: string)
    requires Parts(cs) && !Tame(cs)
    ensures cs == Dots(d) + (ns + ([".."] + rest)) && ns != [] && Names(ns)
    ensures Name(q) && Name(z) && q != z && q !in cs && z !in cs && q !in ns && z !in ns
  {
    hide Leading, NameRun, Longer, Tame;
    UntameParts(cs);
    SplitLeading(cs);
    d := Leading(cs);
    var xs := cs[d..];
    var k := NameRun(xs);
    ns, rest, q := xs[..k], xs[k + 1..], Longer(cs);
    z := Longer(cs + [q]);
    assert xs == ns + ([".."] + rest);
    SplitNames(cs, d, k, q, z);
  }

  /** For every absolute target in which ".." follows a name there is a tree, with that
      target at [z] and one other link, in which rewriting changes where [z] leads. */
  lemma UntameChanges(t: string) returns (links: Links, z: string)
    requires Absolute(t) && !Tame(Comps(t))
    ensures Name(z) && [z] in links && links[[z]] == t
    ensures forall p :: p in links ==> p == [z] || (p != [] && Names(p) && Absolute(links[p]) && Tame(Comps(links[p])))
    ensures Resolve(Rewritten(links), [z], [], 40, true) != Resolve(links, [z], [], 40, true)
  {
    hide Comps, Resolve, Lead, Collapse, Rewritten, DecoyLinks, DotCount, Tame;
    CompsAreParts(t);
    var d, ns, rest, q;
    d, ns, rest, q, z := UntameShape(Comps(t));
    var n := DotCount(rest) + 2;
    links := DecoyLinks(t, z, ns, q, n);
    IsDecoy(t, z, ns, q, n);
    DecoyBefore(links, t, z, ns, q, n, d, rest);
    DecoyRewired(links, t, z, ns, q, n);
    DecoyAfter(Rewritten(links), z, ns, q, n, Collapse(Comps(t), []));
  }

  lemma SplitNames(cs: seq<string>, d: nat, k: nat, q: string, z: string)
    requires d + k <= |cs| && (forall c :: c in cs ==> |c| < |q|) && (forall c :: c in cs + [q] ==> |c| < |z|)
    ensures q !in cs && z !in cs && q != z && q !in cs[d..][..k] && z !in cs[d..][..k]
  {
    assert q in cs + [q] && forall c :: c in cs ==> c in cs + [q];
    assert forall c :: c in cs[d..][..k] ==> c in cs;
  }

  lemma RootedJoin(cs: seq<string>)
    requires Names(cs)
    ensures Absolute("/" + Join(cs)) && Comps("/" + Join(cs)) == cs && Tame(cs)
  {
    hide Comps;
    CompsJoin(cs);
    DotIsNothing();
    CompsSlash("", Join(cs));
    assert "" + "/" + Join(cs) == "/" + Join(cs);
  }

  /** Rewriting a tree changes no resolution. */
  ghost predicate Invisible(links: Links) {
    forall parts: seq<string>, left: nat, followLast: bool :: Parts(parts) ==>
      Resolve(Rewritten(links), parts, [], left, followLast) == Resolve(links, parts, [], left, followLast)
  }

  /** `t` is the target of a link, and every other absolute target is tame. */
  ghost predicate Hosts(links: Links, t: string) {
    exists p :: p in links && links[p] == t
      && forall o :: o in links && o != p && Absolute(links[o]) ==> Tame(Comps(links[o]))
  }

  /** Whatever tree it is in. */
  ghost predicate KeepsMeaning(t: string) {
    forall links: Links :: Hosts(links, t) ==> Invisible(links)
  }

  /** Exactly the targets in which no ".." follows a name keep their meaning. */
  lemma KeptExactly(t: string)
    requires Absolute(t)
    ensures KeepsMeaning(t) <==> Tame(Comps(t))
  {
    hide Comps, Resolve, Rewritten;
    if Tame(Comps(t)) {
      forall links: Links | Hosts(links, t) ensures Invisible(links) {
        TreeInvisible(links);
      }
    } else {
      var links, z := UntameChanges(t);
      assert Hosts(links, t) by {
        assert [z] in links;
      }
      assert Parts([z]);
      assert !Invisible(links);
    }
  }

  lemma TreeInvisible(links: Links)
    requires TameTargets(links)
    ensures Invisible(links)
  {
    hide Comps, Resolve, Rewritten;
    forall parts: seq<string>, left: nat, followLast: bool | Parts(parts)
      ensures Resolve(Rewritten(links), parts, [], left, followLast) == Resolve(links, parts, [], left, followLast)
    {
      RewriteKeeps(links, parts, [], left, followLast);
    }
  }
}