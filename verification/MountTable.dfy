/** mount and umount on the kernel's mount list. */
module MountTable {
  import opened Kernel
  import opened Paths
  import opened PathResolution

  /** umount: the latest mount on the target goes; without one, nothing does. */
  function RemoveLatest(ms: seq<Mount>, target: Elements): (r: seq<Mount>)
    ensures |r| <= |ms|
  {
    if ms == [] then []
    else
      var n := |ms| - 1;
      if ms[n].path == target then ms[..n] else RemoveLatest(ms[..n], target) + [ms[n]]
  }

  /** The latest mount on the target, or -1. */
  function Latest(ms: seq<Mount>, target: Elements): (i: int)
    ensures -1 <= i < |ms|
    ensures i >= 0 ==> ms[i].path == target
    ensures forall j :: i < j < |ms| ==> ms[j].path != target
  {
    if ms == [] then -1
    else
      var n := |ms| - 1;
      if ms[n].path == target then n
      else
        assert forall j :: 0 <= j < n ==> ms[..n][j] == ms[j];
        Latest(ms[..n], target)
  }

  lemma LatestIs(ms: seq<Mount>, target: Elements, i: int)
    requires -1 <= i < |ms| && (i >= 0 ==> ms[i].path == target) && forall j :: i < j < |ms| ==> ms[j].path != target
    ensures Latest(ms, target) == i
  {
  }

  /** It removes exactly that one entry and keeps the order of the rest. */
  lemma {:induction false} RemoveLatestIs(ms: seq<Mount>, target: Elements)
    ensures var i := Latest(ms, target); RemoveLatest(ms, target) == if i == -1 then ms else ms[..i] + ms[i + 1..]
  {
    if ms != [] {
      var n := |ms| - 1;
      RemoveLatestIs(ms[..n], target);
      var i := Latest(ms, target);
      if ms[n].path == target {
        assert ms[n + 1..] == [];
      } else if i == -1 {
        assert ms[..n] + [ms[n]] == ms;
      } else {
        DropInFront(ms, i);
      }
    }
  }

  lemma DropInFront<T>(s: seq<T>, i: nat)
    requires i + 1 < |s|
    ensures var n := |s| - 1; s[..n][..i] + s[..n][i + 1..] + [s[n]] == s[..i] + s[i + 1..]
  {
  }

  /** The elements of Path(target) for a process whose current directory is `pwd`. */
  function TargetElements(pwd: string, target: string): Elements
  {
    Append(if Absolute(target) then [] else Append([], pwd), target)
  }

  /** An absolute target stands for itself; a relative one is looked up from the current directory. */
  lemma TargetIs(pwd: string, target: string)
    ensures Absolute(target) ==> TargetElements(pwd, target) == Append([], target)
    ensures !Absolute(target) && pwd != "" ==> TargetElements(pwd, target) == Append([], pwd + "/" + target)
  {
    if !Absolute(target) && pwd != "" {
      AppendCompose([], pwd, target);
    }
  }

  /** They are the elements that a Path gets from the same string. */
  method TargetIsPath(w: World, pwd: Path, target: string) returns (p: Path)
    requires pwd.Valid(w)
    modifies pwd
    ensures p.stack == TargetElements(Resolve(w, old(pwd.stack), old(pwd.follow)).unixPath, target)
  {
    p := new Path(w, false);
    p.SetUnixPath(w, target, pwd);
  }

  /** The arguments of sys_mount, and what it finds out before it mounts. */
  datatype Request = Request(pwd: string, target: string, fsType: string, targetIsDir: bool, sourceOk: bool,
                             source: string, fs: nat) {
    function Entry(): Mount { Mount(TargetElements(pwd, target), source, fs) }
  }

  class Table {
    var mounts: seq<Mount>

    constructor ()
      ensures mounts == []
    {
      mounts := [];
    }

    /** sys_mount. `sourceOk` stands for the checks on a keow source directory. */
    method SysMount(q: Request) returns (eax: int)
      modifies this
      ensures eax == 0 <==>
        && q.target != "" && q.targetIsDir
        && (q.fsType == "proc" || q.fsType == "dev" || (q.fsType == "keow" && q.sourceOk))
      ensures eax == 0 ==> mounts == old(mounts) + [Mount(TargetElements(q.pwd, q.target), q.source, q.fs)]
      ensures eax != 0 ==> mounts == old(mounts)
      ensures eax != 0 ==>
        eax == if q.target == "" || q.fsType == "" then -22
               else if !q.targetIsDir || q.fsType == "keow" then -20
               else -19
    {
      if q.target == "" || q.fsType == "" {
        return -EINVAL;
      }
      if !q.targetIsDir {
        return -ENOTDIR;
      }
      if q.fsType == "keow" {
        if !q.sourceOk {
          return -ENOTDIR;
        }
        var path := PathOf(q.pwd, q.target);
        mounts := mounts + [Mount(path, q.source, q.fs)];
        return 0;
      } else if q.fsType == "proc" || q.fsType == "dev" {
        var path := PathOf(q.pwd, q.target);
        mounts := mounts + [Mount(path, q.source, q.fs)];
        return 0;
      }
      return -ENODEV;
    }

    /** sys_umount: keeps looking after a match, so the last one found is erased. */
    method SysUmount(pwd: string, target: string) returns (eax: int)
      modifies this
      ensures eax == 0 <==> target != "" && Latest(old(mounts), TargetElements(pwd, target)) != -1
      ensures eax == 0 || eax == -22
      ensures mounts == if target == "" then old(mounts) else RemoveLatest(old(mounts), TargetElements(pwd, target))
    {
      if target == "" {
        return -EINVAL;
      }
      var elements := PathOf(pwd, target);
      RemoveLatestIs(mounts, elements);
      var found := FindLast(elements);
      if found != -1 {
        mounts := mounts[..found] + mounts[found + 1..];
        return 0;
      }
      return -EINVAL;
    }

    /** The search of sys_umount, to the end of the list. */
    method FindLast(elements: Elements) returns (found: int)
      ensures found == Latest(mounts, elements)
    {
      found := -1;
      var it := 0;
      while it < |mounts|
        invariant 0 <= it <= |mounts| && -1 <= found < it
        invariant found >= 0 ==> mounts[found].path == elements
        invariant forall j :: found < j < it ==> mounts[j].path != elements
      {
        if mounts[it].path == elements {
          found := it;
        }
        it := it + 1;
      }
      LatestIs(mounts, elements, found);
    }
  }

  method PathOf(pwd: string, target: string) returns (es: Elements)
    ensures es == TargetElements(pwd, target)
  {
    es := [];
    if !(target != "" && target[0] == '/') {
      es := AppendPath(es, pwd);
    }
    es := AppendPath(es, target);
  }

  /** umount of the string that was mounted, from the same directory, finds that mount and restores the table. */
  method MountAndUmount(table: Table, q: Request) returns (mounted: int, unmounted: int)
    modifies table
    ensures mounted == 0 ==> unmounted == 0 && table.mounts == old(table.mounts)
  {
    ghost var before := table.mounts;
    unmounted := 0;
    mounted := table.SysMount(q);
    if mounted == 0 {
      UmountUndoesMount(before, q.Entry());
      RemoveLatestIs(table.mounts, q.Entry().path);
      assert table.mounts[|before|] == q.Entry();
      unmounted := table.SysUmount(q.pwd, q.target);
    }
  }

  // ---- Mounts as stacks --------------------------------------------------------------------

  datatype Op = DoMount(m: Mount) | DoUmount(target: Elements)

  function Apply(ms: seq<Mount>, op: Op): seq<Mount>
  {
    match op
    case DoMount(m) => ms + [m]
    case DoUmount(t) => RemoveLatest(ms, t)
  }

  function Run(ms: seq<Mount>, ops: seq<Op>): seq<Mount>
    decreases |ops|
  {
    if ops == [] then ms else Run(Apply(ms, ops[0]), ops[1..])
  }

  lemma {:induction false} RunConcat(ms: seq<Mount>, a: seq<Op>, b: seq<Op>)
    ensures Run(ms, a + b) == Run(Run(ms, a), b)
    decreases |a|
  {
    if a == [] {
      assert a + b == b;
    } else {
      assert (a + b)[0] == a[0] && (a + b)[1..] == a[1..] + b;
      RunConcat(Apply(ms, a[0]), a[1..], b);
    }
  }

  /** Properly nested mounts and umounts. */
  datatype Nest = Nothing | Around(m: Mount, inner: Nest, later: Nest)

  function Ops(n: Nest): seq<Op>
  {
    match n
    case Nothing => []
    case Around(m, inner, later) => [DoMount(m)] + Ops(inner) + [DoUmount(m.path)] + Ops(later)
  }

  lemma UmountUndoesMount(ms: seq<Mount>, m: Mount)
    ensures RemoveLatest(ms + [m], m.path) == ms
  {
    assert (ms + [m])[..|ms|] == ms;
  }

  /** Nested mounts and umounts, on any targets, leave the table exactly as it was. */
  lemma {:induction false} NestRestores(ms: seq<Mount>, n: Nest)
    ensures Run(ms, Ops(n)) == ms
    decreases n
  {
    match n
    case Nothing =>
    case Around(m, inner, later) =>
      var a, b, c := [DoMount(m)], Ops(inner), [DoUmount(m.path)];
      RunConcat(ms, a + b + c, Ops(later));
      RunConcat(ms, a + b, c);
      RunConcat(ms, a, b);
      assert Run(ms, a) == Run(ms + [m], []) == ms + [m];
      NestRestores(ms + [m], inner);
      UmountUndoesMount(ms, m);
      assert Run(ms + [m], c) == Run(ms, []) == ms;
      NestRestores(ms, later);
  }

  predicate Touches(op: Op, target: Elements)
  {
    match op
    case DoMount(m) => m.path == target
    case DoUmount(t) => t == target
  }

  function Insert<T>(s: seq<T>, p: nat, x: T): seq<T>
    requires p <= |s|
  {
    s[..p] + [x] + s[p..]
  }

  lemma InsertFront<T>(s: seq<T>, p: nat, x: T)
    requires p < |s|
    ensures var n := |s| - 1; var t := Insert(s, p, x); t[..|s|] == Insert(s[..n], p, x) && t[|s|] == s[n]
  {
  }

  lemma InsertThenAppend<T>(s: seq<T>, p: nat, x: T, y: T)
    requires p <= |s|
    ensures Insert(s, p, x) + [y] == Insert(s + [y], p, x)
  {
  }

  lemma InsertAt<T>(s: seq<T>, p: nat, x: T)
    requires p <= |s|
    ensures var t := Insert(s, p, x);
      |t| == |s| + 1 && t[p] == x && (forall j :: p < j < |t| ==> t[j] == s[j - 1]) && t[..p] + t[p + 1..] == s
  {
  }

  lemma InsertAtEnd<T>(s: seq<T>, x: T)
    ensures Insert(s, |s|, x) == s + [x] && (s + [x])[..|s|] == s
  {
  }

  /** Nothing after position `p` is on the target. */
  predicate ClearFrom(ms: seq<Mount>, p: nat, target: Elements)
  {
    forall i :: p <= i < |ms| ==> ms[i].path != target
  }

  /** umount of another target does the same with `m` in the table as without it. */
  lemma {:induction false} UmountAround(ms: seq<Mount>, p: nat, m: Mount, t: Elements) returns (p': nat)
    requires p <= |ms| && m.path != t && ClearFrom(ms, p, m.path)
    ensures p' <= |RemoveLatest(ms, t)| && RemoveLatest(Insert(ms, p, m), t) == Insert(RemoveLatest(ms, t), p', m)
    ensures ClearFrom(RemoveLatest(ms, t), p', m.path)
    decreases |ms| - p
  {
    if p == |ms| {
      InsertAtEnd(ms, m);
      p' := |RemoveLatest(ms, t)|;
      InsertAtEnd(RemoveLatest(ms, t), m);
    } else {
      var n := |ms| - 1;
      InsertFront(ms, p, m);
      if ms[n].path == t {
        p' := p;
      } else {
        p' := UmountAround(ms[..n], p, m, t);
        InsertThenAppend(RemoveLatest(ms[..n], t), p', m, ms[n]);
      }
    }
  }

  /** The invariant of a run that leaves `m`'s target alone: the table is the other table with `m` in it. */
  lemma {:induction false} RunAround(ms: seq<Mount>, p: nat, m: Mount, ops: seq<Op>)
    requires p <= |ms| && ClearFrom(ms, p, m.path) && forall i :: 0 <= i < |ops| ==> !Touches(ops[i], m.path)
    ensures RemoveLatest(Run(Insert(ms, p, m), ops), m.path) == Run(ms, ops)
    decreases |ops|
  {
    if ops == [] {
      RemoveInserted(ms, p, m);
    } else {
      var op := ops[0];
      assert !Touches(op, m.path);
      match op
      case DoMount(m') =>
        InsertThenAppend(ms, p, m, m');
        RunAround(ms + [m'], p, m, ops[1..]);
      case DoUmount(t) =>
        var p' := UmountAround(ms, p, m, t);
        RunAround(RemoveLatest(ms, t), p', m, ops[1..]);
    }
  }

  lemma RemoveInserted(ms: seq<Mount>, p: nat, m: Mount)
    requires p <= |ms| && ClearFrom(ms, p, m.path)
    ensures RemoveLatest(Insert(ms, p, m), m.path) == ms
  {
    var s := Insert(ms, p, m);
    InsertAt(ms, p, m);
    LatestIs(s, m.path, p);
    RemoveLatestIs(s, m.path);
  }

  /** A mount and its umount cancel out, whatever happens on other targets in between: the table, and so
      the resolution of every path, is what those other operations alone would have left. */
  lemma MountUmountCancel(ms: seq<Mount>, m: Mount, ops: seq<Op>)
    requires forall i :: 0 <= i < |ops| ==> !Touches(ops[i], m.path)
    ensures Run(ms, [DoMount(m)] + ops + [DoUmount(m.path)]) == Run(ms, ops)
    ensures forall w: World, stack: Elements, follow: bool ::
              Resolve(w.(mounts := Run(ms, [DoMount(m)] + ops + [DoUmount(m.path)])), stack, follow)
              == Resolve(w.(mounts := Run(ms, ops)), stack, follow)
  {
    var a, c := [DoMount(m)], [DoUmount(m.path)];
    RunConcat(ms, a + ops, c);
    RunConcat(ms, a, ops);
    assert Run(ms, a) == Run(ms + [m], []) == ms + [m];
    InsertAtEnd(ms, m);
    RunAround(ms, |ms|, m, ops);
    var t := Run(ms + [m], ops);
    assert Run(t, c) == Run(RemoveLatest(t, m.path), []) == RemoveLatest(t, m.path);
  }

  // ---- Balanced runs -----------------------------------------------------------------------

  /** Mounts minus umounts on a target. */
  function Depth(ops: seq<Op>, t: Elements): int
  {
    if ops == [] then 0
    else
      var op := ops[|ops| - 1];
      Depth(ops[..|ops| - 1], t) + if !Touches(op, t) then 0 else if op.DoMount? then 1 else -1
  }

  /** No target is ever unmounted more often than it has been mounted. */
  ghost predicate Supported(ops: seq<Op>)
  {
    ops == [] || (Supported(ops[..|ops| - 1]) && forall t :: Depth(ops, t) >= 0)
  }

  lemma RunSnoc(ms: seq<Mount>, ops: seq<Op>)
    requires ops != []
    ensures Run(ms, ops) == Apply(Run(ms, ops[..|ops| - 1]), ops[|ops| - 1])
  {
    var front, op := ops[..|ops| - 1], ops[|ops| - 1];
    assert ops == front + [op];
    RunConcat(ms, front, [op]);
    assert [op][1..] == [];
  }

  lemma {:induction false} CountRemove(ms: seq<Mount>, t: Elements, u: Elements)
    ensures Count(RemoveLatest(ms, t), u) == Count(ms, u) - if u == t && Count(ms, t) > 0 then 1 else 0
  {
    if ms != [] {
      var front, m := ms[..|ms| - 1], ms[|ms| - 1];
      CountRemove(front, t, u);
      CountAppend(RemoveLatest(front, t), m, u);
    }
  }

  lemma CountAppend(ms: seq<Mount>, m: Mount, u: Elements)
    ensures Count(ms + [m], u) == Count(ms, u) + if m.path == u then 1 else 0
  {
    assert (ms + [m])[..|ms|] == ms;
  }

  /** An umount finds its mount in the later part of the table if there is one. */
  lemma {:induction false} RemoveAbove(ms: seq<Mount>, later: seq<Mount>, t: Elements)
    requires Count(later, t) > 0
    ensures RemoveLatest(ms + later, t) == ms + RemoveLatest(later, t)
    decreases |later|
  {
    var front, m := later[..|later| - 1], later[|later| - 1];
    var all := ms + later;
    assert all[..|all| - 1] == ms + front && all[|all| - 1] == m;
    if m.path != t {
      RemoveAbove(ms, front, t);
      assert ms + RemoveLatest(front, t) + [m] == ms + (RemoveLatest(front, t) + [m]);
    }
  }

  /** A supported run leaves what was there before alone, and adds its own depth of mounts on each target. */
  lemma {:induction false} RunAbove(ms: seq<Mount>, ops: seq<Op>)
    requires Supported(ops)
    ensures Run(ms, ops) == ms + Run([], ops)
    ensures forall t :: Count(Run([], ops), t) == Depth(ops, t)
  {
    if ops != [] {
      var front, op := ops[..|ops| - 1], ops[|ops| - 1];
      RunAbove(ms, front);
      RunSnoc(ms, ops);
      RunSnoc([], ops);
      var above := Run([], front);
      forall t ensures Count(Run([], ops), t) == Depth(ops, t) {
        if op.DoMount? {
          CountAppend(above, op.m, t);
        } else {
          assert Depth(ops, op.target) >= 0;
          CountRemove(above, op.target, t);
        }
      }
      if op.DoMount? {
        assert ms + above + [op.m] == ms + (above + [op.m]);
      } else {
        assert Depth(ops, op.target) >= 0;
        RemoveAbove(ms, above, op.target);
      }
    }
  }

  /** Every balanced run of mounts and umounts, interleaved in any way, restores the table and with it the
      resolution of every path. */
  lemma BalancedRestores(ms: seq<Mount>, ops: seq<Op>)
    requires Supported(ops) && forall t :: Depth(ops, t) == 0
    ensures Run(ms, ops) == ms
  {
    RunAbove(ms, ops);
    EmptyExactly(Run([], ops));
  }

  lemma EmptyExactly(ms: seq<Mount>)
    ensures ms == [] <==> forall t :: Count(ms, t) == 0
  {
    if ms != [] {
      assert Count(ms, ms[|ms| - 1].path) > 0;
    }
  }
}
