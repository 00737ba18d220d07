/** The Filesystem class: the operations on the mount table, tied to the steps of Mounts. */
module Filesystem {
  import opened Common
  import opened Paths
  import opened Mounts

  class Filesystem {
    var mountPoints: map<string, Driver>
    var mountInformation: map<string, Information>
    var lockDepth: nat

    constructor ()
      ensures State() == Run([]) && lockDepth == 0
    {
      mountPoints, mountInformation, lockDepth := map[], map[], 0;
    }

    function State(): Table
      reads this
    {
      Table(mountPoints, mountInformation)
    }

    /** HashMap::keys, in whatever order the buckets give. */
    method Keys() returns (keys: seq<string>)
      ensures forall k :: k in keys <==> k in mountPoints
    {
      keys := [];
      var left := mountPoints.Keys;
      while left != {}
        invariant forall k :: k in mountPoints <==> k in left || k in keys
        decreases |left|
      {
        var k :| k in left;
        keys := keys + [k];
        left := left - {k};
      }
    }

    /** The driver that serves an absolute path, and the part of the path that is left for it. */
    method GetMountedDriver(path: string) returns (driver: Option<Driver>, rest: string)
      modifies this`lockDepth
      ensures lockDepth == old(lockDepth)
      ensures var p := if path != "" && path[|path| - 1] == '/' then path else path + "/";
              match Lookup(mountPoints, p, |p|)
              case None => driver == None && rest == p
              case Some(k) => driver == Some(mountPoints[k]) && rest == Rest(p, k)
    {
      var p := path;
      if !(path != "" && path[|path| - 1] == '/') {
        p := path + "/";
      }
      lockDepth := lockDepth + 1;
      var ret := "";
      var keys := Keys();
      for i := 0 to |keys|
        invariant ret == "" || (ret in mountPoints && ret <= p)
        invariant forall j | 0 <= j < i && keys[j] <= p :: |keys[j]| <= |ret|
      {
        if keys[i] <= p && |keys[i]| > |ret| {
          ret := keys[i];
        }
      }
      forall k | k in mountPoints && k <= p ensures |k| <= |ret| {
        assert k in keys;
      }
      LookupFinds(mountPoints, p, ret);
      lockDepth := lockDepth - 1;
      if ret == "" { return None, p; }
      rest := if |ret| > |p| - 1 then "" else p[|ret|..|p| - 1];
      return Some(mountPoints[ret]), rest;
    }

    /** Whether the path has a node. */
    method GetNode(cwd: string, nodes: Nodes, path: string) returns (found: bool)
      modifies this`lockDepth
      ensures lockDepth == old(lockDepth)
      ensures found == HasNode(mountPoints, nodes, Components(cwd, path))
    {
      var parsedPath := Canonical(cwd, path);
      KeyOfCanonical(cwd, path);
      lockDepth := lockDepth + 1;
      var driver, rest := GetMountedDriver(parsedPath);
      lockDepth := lockDepth - 1;
      if driver == None { return false; }
      return nodes(driver.value, rest);
    }

    /** Mounts a device; `driver` is the new driver, or None when it cannot be created or does not accept the device. */
    method MountDevice(cwd: string, nodes: Nodes, registered: bool, device: string, target: string, driverName: string, driver: Option<Driver>)
      returns (ok: bool)
      modifies this
      ensures lockDepth == old(lockDepth)
      ensures State() == Step(old(State()), Event(Mount(registered, device, target, driverName, driver), cwd, nodes))
      ensures ok <==> State() != old(State())
    {
      hide Components, HasNode, Key;
      if !registered { return false; }
      lockDepth := lockDepth + 1;
      var parsedPath := Canonical(cwd, target) + "/";
      CanonicalKey(cwd, target);
      var found := GetNode(cwd, nodes, parsedPath);
      if !found && mountPoints != map[] {
        lockDepth := lockDepth - 1;
        return false;
      }
      if driver == None || parsedPath in mountPoints {
        lockDepth := lockDepth - 1;
        return false;
      }
      mountPoints := mountPoints[parsedPath := driver.value];
      mountInformation := mountInformation[parsedPath := Information(device, target, driverName)];
      lockDepth := lockDepth - 1;
      return true;
    }

    method MountVirtualDriver(cwd: string, nodes: Nodes, target: string, driver: Driver) returns (ok: bool)
      modifies this
      ensures lockDepth == old(lockDepth)
      ensures State() == Step(old(State()), Event(MountVirtual(target, driver), cwd, nodes))
      ensures ok <==> State() != old(State())
    {
      hide Components, HasNode, Key;
      var parsedPath := Canonical(cwd, target) + "/";
      CanonicalKey(cwd, target);
      lockDepth := lockDepth + 1;
      var found := GetNode(cwd, nodes, parsedPath);
      if !found && mountPoints != map[] {
        lockDepth := lockDepth - 1;
        return false;
      }
      if parsedPath in mountPoints {
        lockDepth := lockDepth - 1;
        return false;
      }
      mountPoints := mountPoints[parsedPath := driver];
      mountInformation := mountInformation[parsedPath := Information("Virtual", target, "VirtualDriver")];
      lockDepth := lockDepth - 1;
      return true;
    }

    /** Never removes a mount point while another one lies below it. */
    method UnmountPath(cwd: string, nodes: Nodes, path: string) returns (ok: bool)
      modifies this
      ensures lockDepth == old(lockDepth)
      ensures State() == Step(old(State()), Event(Unmount(path), cwd, nodes))
      ensures ok ==> NothingBelow(old(mountPoints), Key(Components(cwd, path))) && Key(Components(cwd, path)) in old(mountPoints)
      ensures ok <==> State() != old(State())
    {
      hide Components, HasNode, Key;
      var parsedPath := Canonical(cwd, path) + "/";
      CanonicalKey(cwd, path);
      lockDepth := lockDepth + 1;
      var found := GetNode(cwd, nodes, parsedPath);
      if !found && path != "/" {
        lockDepth := lockDepth - 1;
        return false;
      }
      var keys := Keys();
      for i := 0 to |keys|
        invariant forall j | 0 <= j < i && parsedPath <= keys[j] :: keys[j] == parsedPath
      {
        if parsedPath <= keys[i] && keys[i] != parsedPath {
          assert keys[i] in mountPoints;
          lockDepth := lockDepth - 1;
          return false;
        }
      }
      assert NothingBelow(mountPoints, parsedPath) by {
        forall k | k in mountPoints && parsedPath <= k ensures k == parsedPath { assert k in keys; }
      }
      if parsedPath in mountPoints {
        mountInformation := mountInformation - {parsedPath};
        mountPoints := mountPoints - {parsedPath};
        lockDepth := lockDepth - 1;
        return true;
      }
      lockDepth := lockDepth - 1;
      return false;
    }

    /** Deletes through the driver, unless a mount point's key begins with the path; `deleteNode` is the drivers' answer. */
    method DeleteFile(cwd: string, deleteNode: Nodes, path: string) returns (ok: bool)
      modifies this`lockDepth
      ensures lockDepth == old(lockDepth)
      ensures ok <==> !Blocked(mountPoints, Canonical(cwd, path)) && HasNode(mountPoints, deleteNode, Components(cwd, path))
      ensures Good(State()) ==> (ok <==> HasNode(mountPoints, deleteNode, Components(cwd, path)) && !Protected(mountPoints, Components(cwd, path)))
      ensures Good(State()) && ok ==> !InUse(mountPoints, Components(cwd, path))
    {
      hide Good, Protected, InUse, Components, Render, Key, Clean, HasNode;
      var parsedPath := Canonical(cwd, path);
      KeyOfCanonical(cwd, path);
      DeleteFacts(State(), cwd, path);
      lockDepth := lockDepth + 1;
      var keys := Keys();
      for i := 0 to |keys|
        invariant forall j | 0 <= j < i :: !(parsedPath <= keys[j])
      {
        if parsedPath <= keys[i] {
          assert keys[i] in mountPoints;
          lockDepth := lockDepth - 1;
          return false;
        }
      }
      assert !Blocked(mountPoints, parsedPath) by {
        forall k | k in mountPoints ensures !(parsedPath <= k) { assert k in keys; }
      }
      NodeIs(mountPoints, deleteNode, Components(cwd, path));
      var driver, rest := GetMountedDriver(parsedPath);
      lockDepth := lockDepth - 1;
      if driver == None { return false; }
      return deleteNode(driver.value, rest);
    }
  }

  lemma NodeIs(points: map<string, Driver>, nodes: Nodes, cs: seq<string>)
    ensures HasNode(points, nodes, cs) ==
      match Lookup(points, Key(cs), |Key(cs)|)
      case None => false
      case Some(k) => nodes(points[k], Rest(Key(cs), k))
  {
  }

  lemma DeleteFacts(t: Table, cwd: string, path: string)
    ensures Good(t) ==> (Blocked(t.points, Canonical(cwd, path)) <==> Protected(t.points, Components(cwd, path)))
    ensures InUse(t.points, Components(cwd, path)) ==> Protected(t.points, Components(cwd, path))
  {
    hide Components, Render, Key, Protected, InUse;
    ComponentsClean(cwd, path);
    if Good(t) { BlockedTable(t.points, Components(cwd, path)); }
    ProtectedExactly(t.points, Components(cwd, path));
  }

  /** The canonical path with a separator added where it has none is the key of its components. */
  lemma KeyOfCanonical(cwd: string, path: string)
    ensures var c := Canonical(cwd, path);
            (c == "" || c[|c| - 1] != '/') && c + "/" == Key(Components(cwd, path))
  {
    var cs := Components(cwd, path);
    ComponentsClean(cwd, path);
    KeyIsRender(cs);
    if cs != [] {
      var front, last := cs[..|cs| - 1], cs[|cs| - 1];
      assert cs == front + [last];
      RenderLast(front, last);
      assert IsName(last);
      assert last[|last| - 1] in last;
    }
  }

  lemma CanonicalKey(cwd: string, path: string)
    ensures Canonical(cwd, path) + "/" == Key(Components(cwd, path))
    ensures Components(cwd, Key(Components(cwd, path))) == Components(cwd, path)
  {
    KeyOfCanonical(cwd, path);
    ComponentsClean(cwd, path);
    CanonicalIdempotent(cwd, Components(cwd, path));
  }
}
