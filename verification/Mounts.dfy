/** The mount table: which driver serves a path, and how mounting and unmounting change that. */
module Mounts {
  import opened Common
  import opened Paths

  /** A filesystem driver, known only by its identity. */
  datatype Driver = Driver(id: nat)

  datatype Information = Information(device: string, target: string, driver: string)

  datatype Table = Table(points: map<string, Driver>, info: map<string, Information>)

  /** What the drivers answer when asked for a node. */
  type Nodes = (Driver, string) -> bool

  // ----- resolution

  /** The longest mount point among the first n prefixes of p: shorter and shorter prefixes are tried. */
  function Lookup(points: map<string, Driver>, p: string, n: nat): (r: Option<string>)
    requires n <= |p|
    ensures r.Some? ==> r.value in points && r.value <= p
  {
    if p[..n] in points && n > 0 then Some(p[..n])
    else if n == 0 then None
    else Lookup(points, p, n - 1)
  }

  /** The part of p below mount point k, without its last separator. */
  function Rest(p: string, k: string): string
    requires |k| <= |p|
  {
    if |k| == |p| then "" else p[|k|..|p| - 1]
  }

  /** Whether the path with components cs has a node. */
  function HasNode(points: map<string, Driver>, nodes: Nodes, cs: seq<string>): bool {
    match Lookup(points, Key(cs), |Key(cs)|)
    case None => false
    case Some(k) => nodes(points[k], Rest(Key(cs), k))
  }

  lemma {:induction false} LookupIsLongest(points: map<string, Driver>, p: string, n: nat)
    requires n <= |p|
    ensures var r := Lookup(points, p, n);
            && (r == None ==> forall k | k in points && k <= p :: k == "" || |k| > n)
            && (r.Some? ==> 0 < |r.value| <= n && forall k | k in points && k <= p :: |k| <= |r.value| || |k| > n)
  {
    if n == 0 || p[..n] in points {
    } else {
      LookupIsLongest(points, p, n - 1);
      assert forall k | k in points && k <= p :: k == p[..|k|];
    }
  }

  /** Any longest matching mount point is the one found: the order in which keys are visited does not matter. */
  lemma LookupFinds(points: map<string, Driver>, p: string, ret: string)
    requires ret == "" || (ret in points && ret <= p)
    requires forall k | k in points && k <= p :: |k| <= |ret|
    ensures Lookup(points, p, |p|) == if ret == "" then None else Some(ret)
  {
    LookupIsLongest(points, p, |p|);
    var r := Lookup(points, p, |p|);
    if ret != "" && r.Some? {
      assert |r.value| == |ret|;
      assert r.value == p[..|ret|] == ret;
    }
  }

  // ----- the invariant of every reachable table

  ghost predicate IsKey(k: string) {
    exists cs :: Clean(cs) && k == Key(cs)
  }

  /** One mount point lies at or above all the others. */
  ghost predicate Rooted(points: map<string, Driver>) {
    points == map[] || exists r :: r in points && forall k | k in points :: r <= k
  }

  ghost predicate Good(t: Table) {
    t.points.Keys == t.info.Keys && Rooted(t.points) && forall k | k in t.points :: IsKey(k)
  }

  datatype Operation =
    | Mount(registered: bool, device: string, target: string, driverName: string, driver: Option<Driver>)
    | MountVirtual(target: string, virtualDriver: Driver)
    | Unmount(path: string)

  /** One call, with the working directory and the drivers' answers at that moment. */
  datatype Event = Event(op: Operation, cwd: string, nodes: Nodes)

  ghost predicate MayMount(t: Table, e: Event, target: string) {
    var cs := Components(e.cwd, target);
    (HasNode(t.points, e.nodes, cs) || t.points == map[]) && Key(cs) !in t.points
  }

  function Added(t: Table, cs: seq<string>, driver: Driver, info: Information): Table {
    Table(t.points[Key(cs) := driver], t.info[Key(cs) := info])
  }

  function Removed(t: Table, cs: seq<string>): Table {
    Table(t.points - {Key(cs)}, t.info - {Key(cs)})
  }

  /** No mount point lies below this one. */
  ghost predicate NothingBelow(points: map<string, Driver>, key: string) {
    forall k | k in points && key <= k :: k == key
  }

  ghost function Step(t: Table, e: Event): Table {
    match e.op
    case Mount(registered, device, target, driverName, driver) =>
      if registered && MayMount(t, e, target) && driver.Some?
      then Added(t, Components(e.cwd, target), driver.value, Information(device, target, driverName)) else t
    case MountVirtual(target, driver) =>
      if MayMount(t, e, target) then Added(t, Components(e.cwd, target), driver, Information("Virtual", target, "VirtualDriver")) else t
    case Unmount(path) =>
      var cs := Components(e.cwd, path);
      if (HasNode(t.points, e.nodes, cs) || path == "/") && NothingBelow(t.points, Key(cs)) && Key(cs) in t.points
      then Removed(t, cs) else t
  }

  ghost function Run(events: seq<Event>): Table {
    if events == [] then Table(map[], map[]) else Step(Run(events[..|events| - 1]), events[|events| - 1])
  }

  /** A path that has a node lies under some mount point, and so under the root one. */
  lemma NodeUnderRoot(points: map<string, Driver>, nodes: Nodes, cs: seq<string>, r: string)
    requires HasNode(points, nodes, cs) && r in points && forall k | k in points :: r <= k
    ensures r <= Key(cs)
  {
    var k := Lookup(points, Key(cs), |Key(cs)|).value;
    assert r <= k <= Key(cs);
  }

  lemma AddedGood(t: Table, e: Event, target: string, driver: Driver, info: Information)
    requires Good(t) && MayMount(t, e, target)
    ensures Good(Added(t, Components(e.cwd, target), driver, info))
  {
    var cs := Components(e.cwd, target);
    var t' := Added(t, cs, driver, info);
    ComponentsClean(e.cwd, target);
    assert IsKey(Key(cs));
    assert t'.points.Keys == t.points.Keys + {Key(cs)} && t'.info.Keys == t.info.Keys + {Key(cs)};
    if t.points == map[] {
      assert Key(cs) in t'.points && forall k | k in t'.points :: Key(cs) <= k;
    } else {
      var r :| r in t.points && forall k | k in t.points :: r <= k;
      NodeUnderRoot(t.points, e.nodes, cs, r);
      assert r in t'.points && forall k | k in t'.points :: r <= k;
    }
  }

  lemma RemovedGood(t: Table, cs: seq<string>)
    requires Good(t) && NothingBelow(t.points, Key(cs)) && Key(cs) in t.points
    ensures Good(Removed(t, cs))
  {
    hide Key, IsKey;
    var t' := Removed(t, cs);
    var r :| r in t.points && forall k | k in t.points :: r <= k;
    if r == Key(cs) {
      forall k | k in t.points ensures k == r { }
      assert t'.points.Keys == {};
      assert t'.points == map[];
    } else {
      assert r in t'.points && forall k | k in t'.points :: r <= k;
    }
  }

  lemma StepGood(t: Table, e: Event)
    requires Good(t)
    ensures Good(Step(t, e))
  {
    match e.op
    case Mount(registered, device, target, driverName, driver) =>
      if registered && MayMount(t, e, target) && driver.Some? {
        AddedGood(t, e, target, driver.value, Information(device, target, driverName));
      }
    case MountVirtual(target, driver) =>
      if MayMount(t, e, target) { AddedGood(t, e, target, driver, Information("Virtual", target, "VirtualDriver")); }
    case Unmount(path) =>
      var cs := Components(e.cwd, path);
      if NothingBelow(t.points, Key(cs)) && Key(cs) in t.points { RemovedGood(t, cs); }
  }

  /** Whatever is mounted and unmounted, in whatever order and however the drivers answer: the two maps agree on their
      keys, every key is a canonical path, and one mount point lies at or above all others. */
  lemma {:induction false} RunGood(events: seq<Event>)
    ensures Good(Run(events))
  {
    if events == [] {
    } else {
      RunGood(events[..|events| - 1]);
      StepGood(Run(events[..|events| - 1]), events[|events| - 1]);
    }
  }

  /** In terms of components: the mount point found is the longest one that the path's components begin with,
      and together with the rest it gives back the path. */
  lemma LookupByComponents(points: map<string, Driver>, cs: seq<string>, m: seq<string>)
    requires Clean(cs) && Clean(m) && (forall k | k in points :: IsKey(k)) && Key(m) in points && m <= cs
    requires forall m' | Clean(m') && Key(m') in points && m' <= cs :: |m'| <= |m|
    ensures Lookup(points, Key(cs), |Key(cs)|) == Some(Key(m))
    ensures cs != m ==> Key(cs) == Key(m) + Rest(Key(cs), Key(m)) + "/"
    ensures cs == m ==> Rest(Key(cs), Key(m)) == ""
  {
    KeyPrefix(m, cs);
    forall k | k in points && k <= Key(cs) ensures |k| <= |Key(m)| {
      var m' :| Clean(m') && k == Key(m');
      hide Key, Lookup;
      KeyPrefix(m', cs);
      KeyPrefix(m', m);
    }
    LookupFinds(points, Key(cs), Key(m));
    RestRebuilds(cs, m);
  }

  /** Mounting changes what serves the paths at or below the target that no longer mount point serves, and nothing else. */
  lemma MountRoutes(points: map<string, Driver>, target: seq<string>, driver: Driver, path: seq<string>)
    requires Clean(target) && Clean(path) && Key(target) !in points && "" !in points
    ensures var p := Key(path);
            var before, after := Lookup(points, p, |p|), Lookup(points[Key(target) := driver], p, |p|);
            after == if target <= path && (before.None? || |before.value| < |Key(target)|) then Some(Key(target)) else before
  {
    var p, k := Key(path), Key(target);
    var points' := points[k := driver];
    var before := Lookup(points, p, |p|);
    KeyPrefix(target, path);
    LookupIsLongest(points, p, |p|);
    hide Lookup;
    if target <= path && (before.None? || |before.value| < |k|) {
      LookupFinds(points', p, k);
    } else {
      LookupFinds(points', p, if before.None? then "" else before.value);
    }
  }

  /** Unmounting takes back mounting. */
  lemma UnmountAfterMount(t: Table, cs: seq<string>, driver: Driver, info: Information)
    requires Good(t) && Key(cs) !in t.points
    ensures Removed(Added(t, cs, driver, info), cs) == t
  {
    hide Key, Rooted, IsKey;
    var k := Key(cs);
    assert k !in t.info;
    assert t.points[k := driver] - {k} == t.points;
    assert t.info[k := info] - {k} == t.info;
  }

  lemma RestRebuilds(cs: seq<string>, m: seq<string>)
    requires Clean(cs) && Clean(m) && m <= cs
    ensures |Key(m)| <= |Key(cs)|
    ensures cs != m ==> Key(cs) == Key(m) + Rest(Key(cs), Key(m)) + "/"
    ensures cs == m ==> Rest(Key(cs), Key(m)) == ""
  {
    KeyPrefix(m, cs);
    KeyPrefix(cs, m);
    KeyEndsWithSlash(cs);
    hide Key;
    var p, k := Key(cs), Key(m);
    assert cs != m ==> !(p <= k);
  }

  lemma KeyEndsWithSlash(cs: seq<string>)
    ensures Key(cs) != "" && Key(cs)[|Key(cs)| - 1] == '/'
  {
    KeyIsRender(cs);
  }

  // ----- deleting

  /** Whether the loop of deleteFile refuses the path: some key begins with it as a string. */
  ghost predicate Blocked(points: map<string, Driver>, path: string) {
    exists k :: k in points && path <= k
  }

  /** A path that the loop lets through lies neither at nor above a mount point. */
  lemma UnblockedIsBelow(points: map<string, Driver>, cs: seq<string>, m: seq<string>)
    requires Clean(cs) && Clean(m) && Key(m) in points && !Blocked(points, Render(cs))
    ensures !(cs <= m)
  {
    KeyPrefix(cs, m);
    KeyIsRender(cs);
    assert Render(cs) <= Key(cs);
    assert Key(cs) <= Key(m) ==> Render(cs) <= Key(m);
  }

  /** A mount point refuses exactly the root and the paths whose last component begins the name of a directory
      on the way to the mount point, all earlier components being the same. */
  lemma BlockedExactly(front: seq<string>, last: string, m: seq<string>)
    requires Clean(front) && IsName(last) && Clean(m)
    ensures Render([]) <= Key(m)
    ensures Render(front + [last]) <= Key(m) <==> |front| < |m| && front <= m && last <= m[|front|]
  {
    hide *;
    RenderEmpty();
    RenderLast(front, last);
    KeyIsRender(front);
    KeyPrefix(front, m);
    if front <= m { BelowFront(front, last, m); }
    PrefixOfSum(Key(front), last, Key(m));
  }

  lemma PrefixOfSum(a: string, b: string, c: string)
    ensures a + b <= c ==> a <= c
  {
  }

  lemma BelowFront(front: seq<string>, last: string, m: seq<string>)
    requires front <= m && Clean(m) && IsName(last)
    ensures Key(front) + last <= Key(m) <==> |front| < |m| && last <= m[|front|]
  {
    var tail := m[|front|..];
    KeySplit(front, m);
    NameBeginsBody(last, tail);
    hide Key, Body;
    AppendPrefix(Key(front), last, Body(tail));
  }

  lemma AppendPrefix(a: string, x: string, y: string)
    ensures a + x <= a + y <==> x <= y
  {
    assert (a + x)[|a|..] == x && (a + y)[|a|..] == y;
  }

  lemma {:induction false} RenderLast(front: seq<string>, last: string)
    ensures Render(front + [last]) == Render(front) + "/" + last
    decreases |front|
  {
    if front == [] {
      assert front + [last] == [last] && [last][1..] == [];
      assert Render([]) == "";
    } else {
      assert (front + [last])[1..] == front[1..] + [last];
      RenderLast(front[1..], last);
      assert "/" + front[0] + (Render(front[1..]) + "/" + last) == "/" + front[0] + Render(front[1..]) + "/" + last;
    }
  }

  lemma {:induction false} KeySplit(front: seq<string>, m: seq<string>)
    requires front <= m
    ensures Key(m) == Key(front) + Body(m[|front|..])
    decreases |front|
  {
    if front == [] {
      assert m[0..] == m;
    } else {
      assert front[1..] <= m[1..] && m[1..][|front| - 1..] == m[|front|..];
      KeySplit(front[1..], m[1..]);
      assert Body(m[1..]) == Body(front[1..]) + Body(m[|front|..]) by {
        assert Key(m[1..])[1..] == Body(m[1..]);
        assert (Key(front[1..]) + Body(m[|front|..]))[1..] == Body(front[1..]) + Body(m[|front|..]);
      }
      assert Body(m) == front[0] + "/" + (Body(front[1..]) + Body(m[|front|..]));
    }
  }

  lemma NameBeginsBody(last: string, tail: seq<string>)
    requires IsName(last) && (tail == [] || IsName(tail[0]))
    ensures last <= Body(tail) <==> tail != [] && last <= tail[0]
  {
    if tail != [] {
      var b, n := Body(tail), |tail[0]|;
      assert b[n] == '/' && b[..n] == tail[0];
      assert |last| > n && |last| <= |b| ==> b[..|last|][n] == '/';
    }
  }

  /** The path's last component begins the name of a directory on the way to m, all earlier ones being the same. */
  predicate Begins(cs: seq<string>, m: seq<string>) {
    cs == [] || (|cs| <= |m| && cs[..|cs| - 1] <= m && cs[|cs| - 1] <= m[|cs| - 1])
  }

  /** Some mount point keeps the path from being deleted. */
  ghost predicate Protected(points: map<string, Driver>, cs: seq<string>) {
    exists m :: Clean(m) && Key(m) in points && Begins(cs, m)
  }

  /** Some mount point lies at the path or below it. */
  ghost predicate InUse(points: map<string, Driver>, cs: seq<string>) {
    exists m :: Clean(m) && Key(m) in points && cs <= m
  }

  lemma BeginsExactly(cs: seq<string>, m: seq<string>)
    requires Clean(cs) && Clean(m)
    ensures Render(cs) <= Key(m) <==> Begins(cs, m)
  {
    if cs == [] {
      BlockedExactly([], "a", m);
    } else {
      assert cs == cs[..|cs| - 1] + [cs[|cs| - 1]];
      BlockedExactly(cs[..|cs| - 1], cs[|cs| - 1], m);
    }
  }

  /** The loop over the whole table, by components. */
  lemma BlockedTable(points: map<string, Driver>, cs: seq<string>)
    requires Clean(cs) && forall k | k in points :: IsKey(k)
    ensures Blocked(points, Render(cs)) <==> Protected(points, cs)
  {
    if Blocked(points, Render(cs)) {
      var k :| k in points && Render(cs) <= k;
      var m :| Clean(m) && k == Key(m);
      hide Key, Render, Begins;
      BeginsExactly(cs, m);
    }
    if Protected(points, cs) {
      var m :| Clean(m) && Key(m) in points && Begins(cs, m);
      hide Key, Render, Begins;
      BeginsExactly(cs, m);
    }
  }

  /** Paths in use are protected; others are too exactly if their last component is a proper beginning of the name
      of some directory beside them that leads to a mount point. */
  lemma ProtectedExactly(points: map<string, Driver>, cs: seq<string>)
    ensures InUse(points, cs) ==> Protected(points, cs)
    ensures Protected(points, cs) && !InUse(points, cs) <==>
      !InUse(points, cs) && exists m ::
        Clean(m) && Key(m) in points && 0 < |cs| <= |m| && cs[..|cs| - 1] <= m && cs[|cs| - 1] < m[|cs| - 1]
  {
    hide Key;
    if m :| Clean(m) && Key(m) in points && cs <= m { assert Begins(cs, m); }
    if m :| Clean(m) && Key(m) in points && Begins(cs, m) {
      if cs == [] { assert cs <= m; }
      if cs != [] && cs[|cs| - 1] == m[|cs| - 1] {
        assert cs == cs[..|cs| - 1] + [m[|cs| - 1]] <= m;
      }
    }
    if m :| Clean(m) && Key(m) in points && 0 < |cs| <= |m| && cs[..|cs| - 1] <= m && cs[|cs| - 1] < m[|cs| - 1] {
      assert Begins(cs, m);
    }
  }

  // ----- a file that cannot be deleted

  /** A driver mounted at the root, and then another at "/ab". */
  ghost function RootAndAb(nodes: Nodes): seq<Event> {
    [Event(MountVirtual(Key([]), Driver(0)), "", nodes), Event(MountVirtual(Key(["ab"]), Driver(1)), "", nodes)]
  }

  lemma RootLookup(points: map<string, Driver>, nodes: Nodes, c: string)
    requires IsName(c) && Key([]) in points && Key([c]) !in points && forall k | k in points :: IsKey(k)
    ensures HasNode(points, nodes, [c]) <==> nodes(points[Key([])], c)
  {
    assert Clean([]) && Clean([c]);
    forall m | Clean(m) && Key(m) in points && m <= [c] ensures |m| <= 0 {
      assert |m| == 1 ==> m == [c];
    }
    LookupByComponents(points, [c], []);
    assert Key([c]) == Key([]) + c + "/" by { assert [c][1..] == [] && Body([]) == "" && Body([c]) == c + "/" + Body([]); }
    assert Key([c]) == Key([]) + Rest(Key([c]), Key([])) + "/";
    assert Rest(Key([c]), Key([])) == c;
  }

  lemma RunSnoc(es: seq<Event>, e: Event)
    ensures Run(es + [e]) == Step(Run(es), e)
  {
    assert (es + [e])[..|es|] == es;
  }

  lemma MountedVirtual(t: Table, cs: seq<string>, driver: Driver, nodes: Nodes)
    requires Clean(cs) && Key(cs) !in t.points && (t.points == map[] || HasNode(t.points, nodes, cs))
    ensures Step(t, Event(MountVirtual(Key(cs), driver), "", nodes)).points == t.points[Key(cs) := driver]
  {
    hide Key, Components, HasNode;
    CanonicalIdempotent("", cs);
  }

  lemma NothingMounted()
    ensures Clean([]) && Clean(["ab"]) && Run([]) == Table(map[], map[])
  {
  }

  lemma RootAndAbMounted(nodes: Nodes)
    requires nodes(Driver(0), "ab")
    ensures Run(RootAndAb(nodes)).points == map[Key([]) := Driver(0), Key(["ab"]) := Driver(1)]
    ensures forall k | k in Run(RootAndAb(nodes)).points :: IsKey(k)
  {
    hide Key, Components, HasNode, Run, Step, Clean, IsKey;
    var es := RootAndAb(nodes);
    assert es == ([] + [es[0]]) + [es[1]];
    NothingMounted();
    RunGood([es[0]]);
    RunGood(es);
    RunSnoc([], es[0]);
    RunSnoc([es[0]], es[1]);
    assert [] + [es[0]] == [es[0]];
    MountedVirtual(Run([]), [], Driver(0), nodes);
    KeyInjective([], ["ab"]);
    RootLookup(Run([es[0]]).points, nodes, "ab");
    MountedVirtual(Run([es[0]]), ["ab"], Driver(1), nodes);
  }

  /** With drivers at the root and at "/ab", the file "/a" of the root driver is there, nothing is mounted at it or
      below it, and yet it is protected. */
  lemma RefusedWithoutNeed(nodes: Nodes)
    requires nodes(Driver(0), "ab") && nodes(Driver(0), "a")
    ensures var points := Run(RootAndAb(nodes)).points;
      HasNode(points, nodes, ["a"]) && !InUse(points, ["a"]) && Protected(points, ["a"])
  {
    hide *;
    RootAndAbMounted(nodes);
    AUnused(Run(RootAndAb(nodes)).points, nodes);
  }

  lemma AUnused(points: map<string, Driver>, nodes: Nodes)
    requires points == map[Key([]) := Driver(0), Key(["ab"]) := Driver(1)] && nodes(Driver(0), "a")
    requires forall k | k in points :: IsKey(k)
    ensures HasNode(points, nodes, ["a"]) && !InUse(points, ["a"]) && Protected(points, ["a"])
  {
    hide Key, HasNode, IsKey;
    assert Clean([]) && Clean(["ab"]) && Clean(["a"]) && Begins(["a"], ["ab"]);
    hide Clean, Begins;
    KeyInjective(["a"], []);
    KeyInjective(["a"], ["ab"]);
    KeyInjective([], ["ab"]);
    assert Key(["ab"]) in points;
    RootLookup(points, nodes, "a");
    forall m | Clean(m) && Key(m) in points ensures !(["a"] <= m) {
      KeyInjective(m, []);
      KeyInjective(m, ["ab"]);
    }
  }
}
