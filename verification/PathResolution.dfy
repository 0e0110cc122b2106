/** Following a path across mount points, and the cache each Path object keeps of the answer. */
module PathResolution {
  import opened Paths

  datatype Mount = Mount(path: Elements, destination: string, fs: nat)

  /** The mount table, and the filesystems' answers: separator, link destination of a path ("" when it
      is no link), and whether a destination is relative. */
  datatype World = World(
    root: Mount, mounts: seq<Mount>,
    separator: nat -> string, link: (nat, string) -> string, relative: (nat, string) -> bool)

  /** TranverseMountPoints' variables; `followed` records whether any link was followed. */
  datatype Walk = Walk(mount: Mount, realPath: string, inMount: string, unix: Elements, followed: bool)

  datatype Resolution = Resolution(mount: Mount, realPath: string, inMount: string, unixPath: string, win32Path: string)

  function Start(w: World): Walk
  {
    Walk(w.root, w.root.destination, w.separator(w.root.fs), [], false)
  }

  function FinalPath(w: World, k: Walk): string
  {
    (if k.realPath == "" then "" else k.realPath + w.separator(k.mount.fs)) + k.inMount
  }

  /** The inner loop: every mount on exactly this prefix is entered, one after the other. */
  function EnterMounts(mounts: seq<Mount>, prefix: Elements, e: string, k: Walk): Walk
    decreases |mounts|
  {
    if mounts == [] then k
    else
      var k1 := EnterMounts(mounts[..|mounts| - 1], prefix, e, k);
      var m := mounts[|mounts| - 1];
      if m.path != prefix then k1
      else k1.(mount := m, realPath := m.destination, inMount := "/", unix := Append(k1.unix, e))
  }

  /** How many mounts are on exactly this prefix. */
  function Count(mounts: seq<Mount>, prefix: Elements): nat
  {
    if mounts == [] then 0
    else Count(mounts[..|mounts| - 1], prefix) + if mounts[|mounts| - 1].path == prefix then 1 else 0
  }

  /** The name of element `e` in the current mount's filesystem. */
  function NameIn(w: World, e: string, k: Walk): string
  {
    var cur := FinalPath(w, k);
    (if cur == "" then "" else cur + w.separator(k.mount.fs)) + e
  }

  /** An element that is no mount point: a link to follow, or a plain name. */
  function Descend(w: World, follow: bool, e: string, k: Walk): Walk
  {
    var sep := w.separator(k.mount.fs);
    var dest := w.link(k.mount.fs, NameIn(w, e, k) + ".lnk");
    if dest != "" && follow then
      if w.relative(k.mount.fs, dest)
      then k.(inMount := k.inMount + sep + dest, unix := Append(k.unix, dest), followed := true)
      else k.(realPath := "/", inMount := dest, unix := Append([], dest), followed := true)
    else
      k.(inMount := k.inMount + sep + e + (if dest != "" then ".lnk" else ""), unix := Append(k.unix, e))
  }

  /** The walk over the first `n` elements. */
  function WalkTo(w: World, stack: Elements, follow: bool, n: nat): Walk
    requires n <= |stack|
  {
    if n == 0 then Start(w)
    else
      var k := WalkTo(w, stack, follow, n - 1);
      var e := stack[n - 1];
      if Count(w.mounts, stack[..n]) > 0 then EnterMounts(w.mounts, stack[..n], e, k) else Descend(w, follow, e, k)
  }

  function Resolve(w: World, stack: Elements, follow: bool): Resolution
  {
    var k := WalkTo(w, stack, follow, |stack|);
    Resolution(k.mount, k.realPath, k.inMount, "/" + Join(k.unix), FinalPath(w, k))
  }

  // ---- Which mount -------------------------------------------------------------------------

  /** Mount `i` is on the first `n` elements of the path. */
  predicate Matches(w: World, stack: Elements, i: nat, n: nat)
  {
    i < |w.mounts| && 1 <= n <= |stack| && w.mounts[i].path == stack[..n]
  }

  /** `m` is the latest mount on the longest non-empty prefix that has one, up to `max` elements; the root
      mount if there is none. */
  ghost predicate IsBest(w: World, stack: Elements, max: nat, m: Mount)
  {
    || (m == w.root && forall i: nat, n: nat :: n <= max ==> !Matches(w, stack, i, n))
    || exists i: nat, n: nat :: n <= max && Matches(w, stack, i, n) && m == w.mounts[i]
         && forall i': nat, n': nat :: n' <= max && Matches(w, stack, i', n') ==> n' < n || (n' == n && i' <= i)
  }

  /** Entering the mounts of a prefix ends in the latest of them. */
  lemma {:induction false} EnterLatest(mounts: seq<Mount>, prefix: Elements, e: string, k: Walk) returns (i: nat)
    requires Count(mounts, prefix) > 0
    ensures i < |mounts| && mounts[i].path == prefix && EnterMounts(mounts, prefix, e, k).mount == mounts[i]
    ensures forall j :: i < j < |mounts| ==> mounts[j].path != prefix
    decreases |mounts|
  {
    var n := |mounts| - 1;
    if mounts[n].path == prefix {
      i := n;
    } else {
      i := EnterLatest(mounts[..n], prefix, e, k);
      assert forall j :: 0 <= j < n ==> mounts[..n][j] == mounts[j];
    }
  }

  lemma {:induction false} CountZero(mounts: seq<Mount>, prefix: Elements)
    ensures Count(mounts, prefix) == 0 <==> forall i :: 0 <= i < |mounts| ==> mounts[i].path != prefix
  {
    if mounts != [] {
      var n := |mounts| - 1;
      CountZero(mounts[..n], prefix);
      assert forall j :: 0 <= j < n ==> mounts[..n][j] == mounts[j];
    }
  }

  lemma {:induction false} WalkFindsBest(w: World, stack: Elements, follow: bool, n: nat)
    requires n <= |stack|
    ensures IsBest(w, stack, n, WalkTo(w, stack, follow, n).mount)
  {
    if n == 0 {
    } else {
      WalkFindsBest(w, stack, follow, n - 1);
      var k := WalkTo(w, stack, follow, n - 1);
      CountZero(w.mounts, stack[..n]);
      if Count(w.mounts, stack[..n]) > 0 {
        var i := EnterLatest(w.mounts, stack[..n], stack[n - 1], k);
        assert Matches(w, stack, i, n);
      } else {
        BestUnchanged(w, stack, n, k.mount);
      }
    }
  }

  lemma BestUnchanged(w: World, stack: Elements, n: nat, m: Mount)
    requires 1 <= n <= |stack| && IsBest(w, stack, n - 1, m)
    requires forall i :: 0 <= i < |w.mounts| ==> w.mounts[i].path != stack[..n]
    ensures IsBest(w, stack, n, m)
  {
    assert forall i: nat :: !Matches(w, stack, i, n);
    if !(m == w.root && forall i: nat, j: nat :: j <= n - 1 ==> !Matches(w, stack, i, j)) {
      var i: nat, j: nat :| j <= n - 1 && Matches(w, stack, i, j) && m == w.mounts[i]
        && forall i': nat, n': nat :: n' <= n - 1 && Matches(w, stack, i', n') ==> n' < j || (n' == j && i' <= i);
      assert j <= n && Matches(w, stack, i, j);
      forall i': nat, n': nat | n' <= n && Matches(w, stack, i', n')
        ensures n' < j || (n' == j && i' <= i)
      {
        assert n' != n;
      }
    }
  }

  /** Every path resolves to the most recently added mount on its longest mounted prefix, links or not. */
  lemma ResolvesToBestMount(w: World, stack: Elements, follow: bool)
    ensures IsBest(w, stack, |stack|, Resolve(w, stack, follow).mount)
  {
    WalkFindsBest(w, stack, follow, |stack|);
  }

  // ---- The reported unix path --------------------------------------------------------------

  function Copies(e: string, n: nat): Elements
  {
    seq(n, (i: int) => e)
  }

  /** The elements as the walk reports them when it follows no link: one copy for each mount entered. */
  function Expanded(w: World, stack: Elements, n: nat): Elements
    requires n <= |stack|
  {
    if n == 0 then []
    else
      var c := Count(w.mounts, stack[..n]);
      Expanded(w, stack, n - 1) + Copies(stack[n - 1], if c == 0 then 1 else c)
  }

  lemma {:induction false} EnterUnix(mounts: seq<Mount>, prefix: Elements, e: string, k: Walk)
    requires NormalElement(e)
    ensures EnterMounts(mounts, prefix, e, k).unix == k.unix + Copies(e, Count(mounts, prefix))
    ensures EnterMounts(mounts, prefix, e, k).followed == k.followed
    decreases |mounts|
  {
    if mounts != [] {
      var n := |mounts| - 1;
      EnterUnix(mounts[..n], prefix, e, k);
      AppendElement(EnterMounts(mounts[..n], prefix, e, k).unix, e);
      assert Copies(e, Count(mounts[..n], prefix)) + [e] == Copies(e, Count(mounts[..n], prefix) + 1);
    }
  }

  lemma {:induction false} WalkUnix(w: World, stack: Elements, follow: bool, n: nat)
    requires n <= |stack| && Normal(stack) && !WalkTo(w, stack, follow, n).followed
    ensures WalkTo(w, stack, follow, n).unix == Expanded(w, stack, n)
  {
    if n > 0 {
      var k, e := WalkTo(w, stack, follow, n - 1), stack[n - 1];
      EnterUnix(w.mounts, stack[..n], e, k);
      AppendElement(k.unix, e);
      assert Copies(e, 1) == [e];
      WalkUnix(w, stack, follow, n - 1);
    }
  }

  /** No two mounts share any of the path's prefixes. */
  ghost predicate SingleMounts(w: World, stack: Elements, n: nat)
    requires n <= |stack|
  {
    forall j :: 1 <= j <= n ==> Count(w.mounts, stack[..j]) <= 1
  }

  lemma {:induction false} ExpandedExactly(w: World, stack: Elements, n: nat)
    requires n <= |stack|
    ensures |Expanded(w, stack, n)| >= n
    ensures |Expanded(w, stack, n)| == n <==> SingleMounts(w, stack, n)
    ensures SingleMounts(w, stack, n) ==> Expanded(w, stack, n) == stack[..n]
  {
    if n > 0 {
      ExpandedExactly(w, stack, n - 1);
      assert SingleMounts(w, stack, n) <==> SingleMounts(w, stack, n - 1) && Count(w.mounts, stack[..n]) <= 1;
      assert Copies(stack[n - 1], 1) == [stack[n - 1]];
      assert stack[..n] == stack[..n - 1] + [stack[n - 1]];
    }
  }

  lemma {:induction false} ExpandedNormal(w: World, stack: Elements, n: nat)
    requires n <= |stack| && Normal(stack)
    ensures Normal(Expanded(w, stack, n))
  {
    if n > 0 {
      ExpandedNormal(w, stack, n - 1);
    }
  }

  /** When there is no link to follow, the reported unix path is "/" and the joined elements exactly when
      no prefix of the path carries two mounts. */
  lemma UnixPathExactly(w: World, stack: Elements, follow: bool)
    requires Normal(stack) && !(follow && exists j :: 1 <= j <= |stack| && LinkAt(w, stack, j))
    ensures Resolve(w, stack, follow).unixPath == "/" + Join(stack) <==> SingleMounts(w, stack, |stack|)
  {
    var n := |stack|;
    FollowedExactly(w, stack, follow, n);
    WalkUnix(w, stack, follow, n);
    ExpandedExactly(w, stack, n);
    assert stack[..n] == stack;
    var x := Expanded(w, stack, n);
    ExpandedNormal(w, stack, n);
    if "/" + Join(x) == "/" + Join(stack) {
      assert Join(x) == ("/" + Join(x))[1..] == ("/" + Join(stack))[1..] == Join(stack);
      JoinInjective(x, stack);
    }
  }

  /** Element `j` is a link where a walk that follows none meets it, and no mount hides it. */
  predicate LinkAt(w: World, stack: Elements, j: nat)
    requires 1 <= j <= |stack|
  {
    var k := WalkTo(w, stack, false, j - 1);
    Count(w.mounts, stack[..j]) == 0 && w.link(k.mount.fs, NameIn(w, stack[j - 1], k) + ".lnk") != ""
  }

  /** A walk follows a link exactly if it is told to and there is one; up to the first it goes the same way
      as a walk that follows none. */
  lemma {:induction false} FollowedExactly(w: World, stack: Elements, follow: bool, n: nat)
    requires n <= |stack|
    ensures WalkTo(w, stack, follow, n).followed <==> follow && exists j :: 1 <= j <= n && LinkAt(w, stack, j)
    ensures !WalkTo(w, stack, follow, n).followed ==> WalkTo(w, stack, follow, n) == WalkTo(w, stack, false, n)
  {
    if n > 0 {
      FollowedExactly(w, stack, follow, n - 1);
      FollowedNext(w, stack, follow, n);
      assert (exists j :: 1 <= j <= n && LinkAt(w, stack, j))
        <==> (exists j :: 1 <= j <= n - 1 && LinkAt(w, stack, j)) || LinkAt(w, stack, n);
    }
  }

  lemma FollowedNext(w: World, stack: Elements, follow: bool, n: nat)
    requires 1 <= n <= |stack|
    requires var k := WalkTo(w, stack, follow, n - 1); k.followed || k == WalkTo(w, stack, false, n - 1)
    ensures var k, k' := WalkTo(w, stack, follow, n - 1), WalkTo(w, stack, follow, n);
      && (k'.followed <==> k.followed || (follow && LinkAt(w, stack, n)))
      && (k'.followed || k' == WalkTo(w, stack, false, n))
  {
    EnterKeepsFollowed(w.mounts, stack[..n], stack[n - 1], WalkTo(w, stack, follow, n - 1));
  }

  lemma {:induction false} EnterKeepsFollowed(mounts: seq<Mount>, prefix: Elements, e: string, k: Walk)
    ensures EnterMounts(mounts, prefix, e, k).followed == k.followed
    decreases |mounts|
  {
    if mounts != [] {
      EnterKeepsFollowed(mounts[..|mounts| - 1], prefix, e, k);
    }
  }

  /** Two mounts on /mnt: the path /mnt is reported as something else. */
  lemma StackedMountsMisreport(w: World, m: Mount)
    requires w.mounts == [m, m] && m.path == ["mnt"]
    ensures Resolve(w, ["mnt"], false).unixPath != "/" + Join(["mnt"])
  {
    var stack := ["mnt"];
    UnixPathExactly(w, stack, false);
    assert stack[..1] == stack && w.mounts[..1] == [m];
    assert Count(w.mounts, stack[..1]) == Count([m], stack) + 1;
    assert Count([m], stack) == Count([m][..0], stack) + 1;
  }

  // ---- Inside the mount --------------------------------------------------------------------

  /** `m` is on the first `n` elements and is the latest mount on the longest mounted prefix up to `max`
      elements; the root mount is on none. */
  ghost predicate BestAt(w: World, stack: Elements, max: nat, m: Mount, n: nat)
  {
    || (n == 0 && m == w.root && forall i: nat, k: nat :: k <= max ==> !Matches(w, stack, i, k))
    || exists i: nat :: n <= max && Matches(w, stack, i, n) && m == w.mounts[i]
         && forall i': nat, n': nat :: n' <= max && Matches(w, stack, i', n') ==> n' < n || (n' == n && i' <= i)
  }

  /** A path inside a mount, with the mount's destination in front of it if it has one. */
  function Within(w: World, m: Mount, inside: string): string
  {
    if m.destination == "" then inside else m.destination + w.separator(m.fs) + inside
  }

  /** The path of the elements from `n` up to `upTo` inside mount `m`, from where it starts. A link, which is
      not followed, is named as the file it is kept in. */
  function Inside(w: World, m: Mount, start: string, stack: Elements, n: nat, upTo: nat): string
    requires n <= upTo <= |stack|
    decreases upTo - n
  {
    if upTo == n then start
    else
      var before, sep, e := Inside(w, m, start, stack, n, upTo - 1), w.separator(m.fs), stack[upTo - 1];
      var file := (if Within(w, m, before) == "" then "" else Within(w, m, before) + sep) + e + ".lnk";
      before + sep + e + if w.link(m.fs, file) != "" then ".lnk" else ""
  }

  ghost predicate InsideAt(w: World, stack: Elements, upTo: nat, k: Walk, n: nat)
    requires upTo <= |stack|
  {
    && n <= upTo && BestAt(w, stack, upTo, k.mount, n) && k.realPath == k.mount.destination
    && k.inMount == Inside(w, k.mount, if n == 0 then w.separator(w.root.fs) else "/", stack, n, upTo)
  }

  lemma {:induction false} WalkInside(w: World, stack: Elements, follow: bool, upTo: nat) returns (n: nat)
    requires upTo <= |stack| && !WalkTo(w, stack, follow, upTo).followed
    ensures InsideAt(w, stack, upTo, WalkTo(w, stack, follow, upTo), n)
  {
    if upTo == 0 {
      n := 0;
    } else {
      var k, e := WalkTo(w, stack, follow, upTo - 1), stack[upTo - 1];
      EnterKeepsFollowed(w.mounts, stack[..upTo], e, k);
      n := WalkInside(w, stack, follow, upTo - 1);
      CountZero(w.mounts, stack[..upTo]);
      if Count(w.mounts, stack[..upTo]) > 0 {
        EnterSets(w.mounts, stack[..upTo], e, k);
        var i := EnterLatest(w.mounts, stack[..upTo], e, k);
        assert Matches(w, stack, i, upTo);
        n := upTo;
      } else {
        BestAtUnchanged(w, stack, upTo, k.mount, n);
        DescendInside(w, follow, e, k);
      }
    }
  }

  lemma DescendInside(w: World, follow: bool, e: string, k: Walk)
    requires k.realPath == k.mount.destination && !Descend(w, follow, e, k).followed
    ensures var sep, full := w.separator(k.mount.fs), Within(w, k.mount, k.inMount);
            var file := (if full == "" then "" else full + sep) + e + ".lnk";
            var k' := Descend(w, follow, e, k);
            && k'.inMount == k.inMount + sep + e + (if w.link(k.mount.fs, file) != "" then ".lnk" else "")
            && k'.realPath == k.realPath && k'.mount == k.mount
  {
    assert "" + k.inMount == k.inMount;
    assert FinalPath(w, k) == Within(w, k.mount, k.inMount);
  }

  lemma {:induction false} EnterSets(mounts: seq<Mount>, prefix: Elements, e: string, k: Walk)
    requires Count(mounts, prefix) > 0
    ensures var k' := EnterMounts(mounts, prefix, e, k); k'.realPath == k'.mount.destination && k'.inMount == "/"
    decreases |mounts|
  {
    if mounts[|mounts| - 1].path != prefix {
      EnterSets(mounts[..|mounts| - 1], prefix, e, k);
    }
  }

  lemma BestAtUnchanged(w: World, stack: Elements, upTo: nat, m: Mount, n: nat)
    requires 1 <= upTo <= |stack| && BestAt(w, stack, upTo - 1, m, n)
    requires forall i :: 0 <= i < |w.mounts| ==> w.mounts[i].path != stack[..upTo]
    ensures BestAt(w, stack, upTo, m, n)
  {
    assert forall i: nat :: !Matches(w, stack, i, upTo);
    if !(n == 0 && m == w.root && forall i: nat, k: nat :: k <= upTo - 1 ==> !Matches(w, stack, i, k)) {
      var i: nat :| n <= upTo - 1 && Matches(w, stack, i, n) && m == w.mounts[i]
        && forall i': nat, n': nat :: n' <= upTo - 1 && Matches(w, stack, i', n') ==> n' < n || (n' == n && i' <= i);
      forall i': nat, n': nat | n' <= upTo && Matches(w, stack, i', n')
        ensures n' < n || (n' == n && i' <= i)
      {
        assert n' != upTo;
      }
    }
  }

  /** When there is no link to follow, a path is the mount's destination and, inside the mount, the elements that
      the mount is not on. */
  lemma ResolvesInside(w: World, stack: Elements, follow: bool) returns (n: nat)
    requires !(follow && exists j :: 1 <= j <= |stack| && LinkAt(w, stack, j))
    ensures var r := Resolve(w, stack, follow);
            && n <= |stack| && BestAt(w, stack, |stack|, r.mount, n) && r.realPath == r.mount.destination
            && r.inMount == Inside(w, r.mount, if n == 0 then w.separator(w.root.fs) else "/", stack, n, |stack|)
            && r.win32Path == Within(w, r.mount, r.inMount)
  {
    FollowedExactly(w, stack, follow, |stack|);
    n := WalkInside(w, stack, follow, |stack|);
  }

  /** Without mounts and links, /etc is in the root's destination, under its own name. */
  lemma EtcResolves(w: World)
    requires w.mounts == [] && w.root.destination == "C:\\keow" && w.separator(w.root.fs) == "\\"
    requires forall fs: nat, p: string :: w.link(fs, p) == ""
    ensures var r := Resolve(w, ["etc"], true); r.inMount == "\\\\etc" && r.win32Path == "C:\\keow\\\\\\etc"
  {
    var stack, n := ["etc"], 0;
    n := ResolvesInside(w, stack, true);
    assert Inside(w, w.root, "\\", stack, 0, 0) == "\\";
    assert Inside(w, w.root, "\\", stack, 0, 1) == "\\" + "\\" + "etc" + "";
  }

  /** A link in the last element, when it is followed and is the first: a relative destination goes on from the
      directory the link is in, an absolute one starts afresh. */
  lemma ResolvesLink(w: World, stack: Elements)
    requires stack != [] && LinkAt(w, stack, |stack|) && forall j :: 1 <= j < |stack| ==> !LinkAt(w, stack, j)
    ensures var r, dir, e := Resolve(w, stack, true), Resolve(w, stack[..|stack| - 1], false), stack[|stack| - 1];
            var sep := w.separator(dir.mount.fs);
            var dest := w.link(dir.mount.fs, (if dir.win32Path == "" then "" else dir.win32Path + sep) + e + ".lnk");
            && r.mount == dir.mount
            && (if w.relative(dir.mount.fs, dest)
                then && r.realPath == dir.realPath && r.inMount == dir.inMount + sep + dest
                     && exists es :: dir.unixPath == "/" + Join(es) && r.unixPath == "/" + Join(Append(es, dest))
                else r.realPath == "/" && r.inMount == dest && r.unixPath == "/" + Join(Append([], dest)))
  {
    var n := |stack| - 1;
    FollowedExactly(w, stack, true, n);
    WalkOfPrefix(w, stack, n, n);
    assert stack[..n + 1] == stack;
    var k := WalkTo(w, stack, false, n);
    assert Resolve(w, stack[..n], false).unixPath == "/" + Join(k.unix);
  }

  lemma {:induction false} WalkOfPrefix(w: World, stack: Elements, n: nat, upTo: nat)
    requires upTo <= n <= |stack|
    ensures WalkTo(w, stack[..n], false, upTo) == WalkTo(w, stack, false, upTo)
  {
    if upTo > 0 {
      WalkOfPrefix(w, stack, n, upTo - 1);
      assert stack[..n][..upTo] == stack[..upTo];
    }
  }

  // ---- Path objects ------------------------------------------------------------------------

  /** A Path: its elements, and the answer computed last. */
  class Path {
    var stack: Elements
    var follow: bool
    var needCalculation: bool
    var cache: Resolution

    /** The cached answer, if there is one, is what a fresh computation would give. */
    ghost predicate Valid(w: World)
      reads this
    {
      !needCalculation ==> cache == Resolve(w, stack, follow)
    }

    constructor (w: World, follow: bool)
      ensures Valid(w) && stack == [] && this.follow == follow
    {
      this.stack, this.follow, needCalculation := [], follow, true;
      cache := Resolution(w.root, "", "", "", "");
    }

    /** The copy constructor. */
    constructor Copy(w: World, other: Path)
      requires other.Valid(w)
      ensures Valid(w) && stack == other.stack && follow == other.follow
    {
      stack, follow, needCalculation, cache := other.stack, other.follow, other.needCalculation, other.cache;
    }

    /** Field by field. The element list's own assignment empties the list when it is assigned to itself,
        and the cached answer stays. */
    method Assign(w: World, other: Path)
      requires Valid(w) && other.Valid(w)
      modifies this
      ensures follow == old(other.follow) && cache == old(other.cache) && needCalculation == old(other.needCalculation)
      ensures other != this ==> Valid(w) && stack == old(other.stack)
      ensures other == this ==> stack == []
      ensures other == this ==>
        (Valid(w) <==> needCalculation || Resolve(w, old(stack), follow) == Resolve(w, [], follow))
    {
      follow := other.follow;
      stack := if other == this then [] else other.stack;
      cache, needCalculation := other.cache, other.needCalculation;
    }

    method FollowSymLinks(w: World, follow: bool)
      modifies this
      ensures Valid(w) && stack == old(stack) && this.follow == follow
    {
      this.follow := follow;
      needCalculation := true;
    }

    method AppendUnixPath(w: World, p: string)
      modifies this
      ensures Valid(w) && stack == Append(old(stack), p) && follow == old(follow) && needCalculation
    {
      stack := AppendPath(stack, p);
      needCalculation := true;
    }

    /** Absolute, or relative to the current directory of the calling process. When the path being set is
        that directory itself, its elements are already gone, and only a cached answer still knows them. */
    method SetUnixPath(w: World, p: string, pwd: Path)
      requires pwd.Valid(w)
      modifies this, pwd`cache, pwd`needCalculation
      ensures Valid(w) && follow == old(follow)
      ensures pwd != this ==> pwd.Valid(w) && pwd.stack == old(pwd.stack) && pwd.follow == old(pwd.follow)
      ensures
        var known := Resolve(w, old(pwd.stack), old(pwd.follow)).unixPath;
        var dir := if pwd == this && old(needCalculation) then "/" else known;
        stack == Append(if Absolute(p) then [] else Append([], dir), p)
    {
      stack := [];
      if !(p != "" && p[0] == '/') {
        var dir := pwd.GetUnixPath(w);
        AppendUnixPath(w, dir);
      }
      AppendUnixPath(w, p);
      needCalculation := true;
      var _ := GetUnixPath(w);
      var _ := GetWin32Path(w);
    }

    method GetUnixPath(w: World) returns (r: string)
      modifies this`cache, this`needCalculation
      ensures r == if old(needCalculation) then Resolve(w, stack, follow).unixPath else old(cache).unixPath
      ensures old(Valid(w)) ==> Valid(w) && r == Resolve(w, stack, follow).unixPath
      ensures stack == [] && old(needCalculation) ==> r == "/"
      ensures !needCalculation && cache.unixPath == r
    {
      if needCalculation {
        TranverseMountPoints(w);
      }
      r := cache.unixPath;
    }

    method GetWin32Path(w: World) returns (r: string)
      requires Valid(w)
      modifies this`cache, this`needCalculation
      ensures Valid(w) && r == Resolve(w, stack, follow).win32Path
    {
      if needCalculation {
        TranverseMountPoints(w);
      }
      r := cache.win32Path;
    }

    method GetPathInFilesystem(w: World) returns (r: string)
      requires Valid(w)
      modifies this`cache, this`needCalculation
      ensures Valid(w) && r == Resolve(w, stack, follow).inMount
    {
      if needCalculation {
        TranverseMountPoints(w);
      }
      r := cache.inMount;
    }

    /** The inner loop of the traversal, for the first `cnt` elements. */
    method CheckMounts(w: World, cnt: nat, e: string, before: Walk) returns (found: bool, k: Walk)
      requires 1 <= cnt <= |stack|
      ensures k == EnterMounts(w.mounts, stack[..cnt], e, before) && found == (Count(w.mounts, stack[..cnt]) > 0)
    {
      k, found := before, false;
      var i := 0;
      while i < |w.mounts|
        invariant 0 <= i <= |w.mounts|
        invariant k == EnterMounts(w.mounts[..i], stack[..cnt], e, before)
        invariant found == (Count(w.mounts[..i], stack[..cnt]) > 0)
      {
        var m := w.mounts[i];
        assert w.mounts[..i + 1][..i] == w.mounts[..i];
        var hit := EqualsPartialPath(m.path, stack, cnt);
        if hit {
          var unix := AppendPath(k.unix, e);
          k := k.(mount := m, realPath := m.destination, inMount := "/", unix := unix);
          found := true;
        }
        i := i + 1;
      }
      assert w.mounts[..i] == w.mounts;
    }

    method TranverseMountPoints(w: World)
      modifies this`cache, this`needCalculation
      ensures !needCalculation && cache == Resolve(w, stack, follow)
    {
      var k := Start(w);
      var cnt := 0;
      while cnt < |stack|
        invariant 0 <= cnt <= |stack| && k == WalkTo(w, stack, follow, cnt)
      {
        var e := stack[cnt];
        cnt := cnt + 1;
        var found, k1 := CheckMounts(w, cnt, e, k);
        if found {
          k := k1;
          continue;
        }
        var sep := w.separator(k.mount.fs);
        var curpath := FinalPath(w, k);
        if curpath != "" {
          curpath := curpath + sep;
        }
        curpath := curpath + e;
        var dest := w.link(k.mount.fs, curpath + ".lnk");
        var isLnk := dest != "";
        if isLnk && follow {
          if w.relative(k.mount.fs, dest) {
            var unix := AppendPath(k.unix, dest);
            k := k.(inMount := k.inMount + sep + dest, unix := unix, followed := true);
          } else {
            var unix := AppendPath([], dest);
            k := k.(realPath := "/", inMount := dest, unix := unix, followed := true);
          }
          continue;
        }
        var unix := AppendPath(k.unix, e);
        k := k.(inMount := k.inMount + sep + e, unix := unix);
        if isLnk {
          k := k.(inMount := k.inMount + ".lnk");
        }
      }
      var joined := JoinList(k.unix);
      cache := Resolution(k.mount, k.realPath, k.inMount, "/" + joined, FinalPath(w, k));
      needCalculation := false;
    }
  }

  /** A Path for a name in the root directory, assigned to itself once its answer is known: it still gives that
      answer, but has no elements, and a fresh resolution of what it has is the root. */
  method AssignToItself(w: World, pwd: Path, e: string) returns (p: Path, answer: string)
    requires w.mounts == [] && pwd.Valid(w) && NormalElement(e)
    modifies pwd
    ensures p.stack == [] && !p.Valid(w) && answer == "/" + e && Resolve(w, p.stack, p.follow).unixPath == "/"
  {
    p := new Path(w, false);
    var name := "/" + e;
    assert Absolute(name);
    p.SetUnixPath(w, name, pwd);
    OneElement(w, e);
    var first := p.GetUnixPath(w);
    p.Assign(w, p);
    answer := p.GetUnixPath(w);
    assert |answer| > 1;
  }

  lemma OneElement(w: World, e: string)
    requires w.mounts == [] && NormalElement(e)
    ensures Append([], "/" + e) == [e] && Resolve(w, [e], false).unixPath == "/" + e
    ensures Resolve(w, [], false).unixPath == "/"
  {
    var es := [e];
    assert Join(es[..0]) == "" && Join(es) == "" + e == e;
    ParseJoin([], es);
    UnixPathExactly(w, es, false);
  }
}
