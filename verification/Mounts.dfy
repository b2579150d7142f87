/** The mount table: mounting, unmounting, and which mount a path belongs to. */
module Mounts {
  import opened Wrappers

  const MAX_MOUNTS := 256

  type Path = seq<string>

  /** A mounted filesystem; `id` stands for the handler, the partition and the driver's data. */
  datatype Mount = Mount(path: Path, id: nat)

  // ---- Comparing paths ----

  /** strncmp(a, b, n) == 0 */
  function SameStart(a: string, b: string, n: nat): bool {
    if n == 0 then true
    else if a == "" || b == "" then a == b
    else a[0] == b[0] && SameStart(a[1..], b[1..], n - 1)
  }

  function Start(s: string, n: nat): string { if |s| <= n then s else s[..n] }

  lemma {:induction false} SameStartExactly(a: string, b: string, n: nat)
    ensures SameStart(a, b, n) <==> Start(a, n) == Start(b, n)
  {
    if n > 0 && a != "" && b != "" {
      SameStartExactly(a[1..], b[1..], n - 1);
      assert Start(a, n) == [a[0]] + Start(a[1..], n - 1);
      assert Start(b, n) == [b[0]] + Start(b[1..], n - 1);
    }
  }

  /** What paths_equal decides: component by component, on the first 255 characters. */
  ghost predicate Equal(p: Path, q: Path) {
    |p| == |q| && forall i :: 0 <= i < |p| ==> Start(p[i], 255) == Start(q[i], 255)
  }

  method PathsEqual(p: Path, q: Path) returns (equal: bool)
    ensures equal == Equal(p, q)
  {
    if |p| != |q| {
      return false;
    }
    for i := 0 to |p|
      invariant forall j :: 0 <= j < i ==> Start(p[j], 255) == Start(q[j], 255)
    {
      SameStartExactly(p[i], q[i], 255);
      if !SameStart(p[i], q[i], 255) {
        return false;
      }
    }
    return true;
  }

  /** On components of at most 255 characters paths_equal is equality. */
  lemma {:induction false} EqualIsEquality(p: Path, q: Path)
    requires forall i :: 0 <= i < |p| ==> |p[i]| <= 255
    requires forall i :: 0 <= i < |q| ==> |q[i]| <= 255
    ensures Equal(p, q) <==> p == q
  {
    if Equal(p, q) {
      forall i | 0 <= i < |p|
        ensures p[i] == q[i]
      {
        assert Start(p[i], 255) == Start(q[i], 255);
      }
    }
  }

  // ---- Resolution ----

  predicate Matches(m: Mount, path: Path) { m.path <= path }

  /** `k` is the mount of `path`: the longest prefix, the latest of those with that path. */
  ghost predicate Resolved(ms: seq<Mount>, path: Path, k: nat) {
    && k < |ms| && Matches(ms[k], path)
    && (forall i :: 0 <= i < |ms| && Matches(ms[i], path) ==> |ms[i].path| <= |ms[k].path|)
    && (forall i :: k < i < |ms| && Matches(ms[i], path) ==> |ms[i].path| < |ms[k].path|)
  }

  ghost predicate Unresolved(ms: seq<Mount>, path: Path) {
    forall i :: 0 <= i < |ms| ==> !Matches(ms[i], path)
  }

  ghost predicate Answers(ms: seq<Mount>, path: Path, r: Option<Mount>) {
    match r
    case None => Unresolved(ms, path)
    case Some(m) => exists k: nat :: Resolved(ms, path, k) && ms[k] == m
  }

  /** A table never answers twice: the resolved mount is unique, and mounts that tie have the very
      same path. */
  lemma ResolvedOnce(ms: seq<Mount>, path: Path, k: nat, l: nat)
    requires Resolved(ms, path, k) && Resolved(ms, path, l)
    ensures k == l
  {
  }

  lemma {:induction false} TiesAgree(m: Mount, n: Mount, path: Path)
    requires Matches(m, path) && Matches(n, path) && |m.path| == |n.path|
    ensures m.path == n.path
  {
    assert m.path == path[..|m.path|] && n.path == path[..|n.path|];
  }

  /** A new mount takes over exactly the paths below it whose mount was no deeper. */
  lemma {:induction false} MountTakesOver(ms: seq<Mount>, m: Mount, path: Path, r: Option<Mount>)
    requires Answers(ms, path, r)
    ensures Answers(ms + [m], path,
                    if Matches(m, path) && (r.None? || |r.value.path| <= |m.path|) then Some(m) else r)
  {
    match r
    case None => {
      if Matches(m, path) {
        assert Resolved(ms + [m], path, |ms|);
      }
    }
    case Some(n) => {
      var k: nat :| Resolved(ms, path, k) && ms[k] == n;
      ResolvedAfterMount(ms, m, path, k);
    }
  }

  lemma {:induction false} ResolvedAfterMount(ms: seq<Mount>, m: Mount, path: Path, k: nat)
    requires Resolved(ms, path, k)
    ensures Resolved(ms + [m], path, if Matches(m, path) && |ms[k].path| <= |m.path| then |ms| else k)
  {
    var all := ms + [m];
    assert all[|ms|] == m;
    assert forall i :: 0 <= i < |ms| ==> all[i] == ms[i];
  }

  /** Taking out a mount that a path does not resolve to leaves its resolution as it was. */
  lemma {:induction false} UnmountKeepsOthers(ms: seq<Mount>, i: nat, path: Path, k: nat)
    requires i < |ms| && Resolved(ms, path, k) && k != i
    ensures Answers(ms[..i] + ms[i + 1..], path, Some(ms[k]))
  {
    var rest, j := ms[..i] + ms[i + 1..], if k < i then k else k - 1;
    assert forall l :: 0 <= l < |rest| ==> rest[l] == ms[if l < i then l else l + 1];
    assert Resolved(rest, path, j) && rest[j] == ms[k];
  }

  lemma UnmountKeepsUnresolved(ms: seq<Mount>, i: nat, path: Path)
    requires i < |ms| && Unresolved(ms, path)
    ensures Unresolved(ms[..i] + ms[i + 1..], path)
  {
  }

  // ---- The table ----

  /** The first entry with an equal path. */
  ghost predicate FirstEqual(ms: seq<Mount>, path: Path, i: nat) {
    i < |ms| && Equal(ms[i].path, path) && forall j :: 0 <= j < i ==> !Equal(ms[j].path, path)
  }

  /** What unmount leaves. */
  ghost predicate Unmounted(before: seq<Mount>, path: Path, after: seq<Mount>, ok: bool) {
    if ok then exists i: nat :: FirstEqual(before, path, i) && after == before[..i] + before[i + 1..]
    else after == before && forall i :: 0 <= i < |before| ==> !Equal(before[i].path, path)
  }

  lemma EqualToItself(p: Path)
    ensures Equal(p, p)
  {
  }

  /** Mounting and then unmounting the same path gives back the table exactly when no mount had an
      equal path before. */
  lemma {:induction false} MountThenUnmount(ms: seq<Mount>, m: Mount, after: seq<Mount>, ok: bool)
    requires Unmounted(ms + [m], m.path, after, ok) && m !in ms
    ensures ok
    ensures after == ms <==> forall i :: 0 <= i < |ms| ==> !Equal(ms[i].path, m.path)
  {
    var all := ms + [m];
    EqualToItself(m.path);
    assert all[|ms|] == m;
    var i: nat :| FirstEqual(all, m.path, i) && after == all[..i] + all[i + 1..];
    if i < |ms| {
      assert Equal(ms[i].path, m.path);
      assert after[|ms| - 1] == m;
    } else {
      forall j | 0 <= j < |ms|
        ensures !Equal(ms[j].path, m.path)
      {
        assert ms[j] == all[j];
      }
    }
  }

  /** Every path then resolves as it did before the mount. */
  lemma {:induction false} MountThenUnmountRestores(ms: seq<Mount>, m: Mount, after: seq<Mount>, ok: bool, path: Path, r: Option<Mount>)
    requires Unmounted(ms + [m], m.path, after, ok) && m !in ms && Answers(ms, path, r)
    requires forall i :: 0 <= i < |ms| ==> !Equal(ms[i].path, m.path)
    ensures Answers(after, path, r)
  {
    MountThenUnmount(ms, m, after, ok);
  }

  class MountTable {
    var filesystems: array<Option<Mount>>
    var count: nat

    ghost predicate Valid()
      reads this, filesystems
    {
      && filesystems.Length == MAX_MOUNTS && count <= MAX_MOUNTS
      && forall i :: 0 <= i < count ==> filesystems[i].Some?
    }

    /** The mounts in the order they were made. */
    ghost function Contents(): (ms: seq<Mount>)
      requires Valid()
      reads this, filesystems
      ensures |ms| == count
    {
      seq(count, i requires 0 <= i < count reads this, filesystems requires Valid() => filesystems[i].value)
    }

    constructor ()
      ensures Valid() && fresh(filesystems) && filesystems.Length == 256 && Contents() == []
    {
      filesystems := new Option<Mount>[MAX_MOUNTS](_ => None);
      count := 0;
    }

    /** mount; `mp` is what the handler's own mount function returned. A failure of that function
        is stored like a mount, and the table is not valid from then on. */
    method MountAt(mp: Option<Mount>)
      requires Valid() && count < MAX_MOUNTS
      modifies this`count, filesystems
      ensures filesystems == old(filesystems) && count == old(count) + 1
      ensures Valid() <==> mp.Some?
      ensures mp.Some? ==> Contents() == old(Contents()) + [mp.value]
    {
      filesystems[count] := mp;
      count := count + 1;
      assert filesystems[count - 1] == mp;
    }

    /** The later entries move down by one. */
    method ShiftDown(i: nat)
      requires Valid() && i < count
      modifies this`count, filesystems
      ensures Valid() && filesystems == old(filesystems)
      ensures Contents() == old(Contents())[..i] + old(Contents())[i + 1..]
    {
      ghost var ms := Contents();
      var j := i;
      while j < count - 1
        invariant i <= j < count == old(count) && filesystems == old(filesystems) && filesystems.Length == MAX_MOUNTS
        invariant forall k :: 0 <= k < i ==> filesystems[k] == Some(ms[k])
        invariant forall k :: i <= k < j ==> filesystems[k] == Some(ms[k + 1])
        invariant forall k :: j <= k < count ==> filesystems[k] == Some(ms[k])
      {
        filesystems[j] := filesystems[j + 1];
        j := j + 1;
      }
      count := count - 1;
      assert Contents() == ms[..i] + ms[i + 1..];
    }

    /** unmount: `ok` unless nothing was mounted at the path. */
    method Unmount(path: Path) returns (ok: bool)
      requires Valid()
      modifies this`count, filesystems
      ensures Valid() && filesystems == old(filesystems)
      ensures Unmounted(old(Contents()), path, Contents(), ok)
    {
      ghost var ms := Contents();
      var i := 0;
      while i < count
        invariant i <= count == old(count) && Valid() && Contents() == ms && filesystems == old(filesystems)
        invariant forall j :: 0 <= j < i ==> !Equal(ms[j].path, path)
        decreases count - i
      {
        var equal := PathsEqual(filesystems[i].value.path, path);
        assert ms[i] == filesystems[i].value;
        if equal {
          ShiftDown(i);
          assert FirstEqual(ms, path, i);
          return true;
        }
        i := i + 1;
      }
      return false;
    }

    /** resolve_mountpoint */
    method ResolveMountpoint(path: Path) returns (r: Option<Mount>)
      requires Valid()
      ensures Answers(Contents(), path, r)
    {
      r := None;
      var highestDepth := 0;
      ghost var ms, best: nat := Contents(), 0;
      var i := 0;
      while i < count
        invariant i <= count
        invariant r.None? ==> highestDepth == 0 && Unresolved(ms[..i], path)
        invariant r.Some? ==> highestDepth == |r.value.path| && Resolved(ms[..i], path, best) && ms[best] == r.value
        decreases count - i
      {
        var mp := filesystems[i].value;
        assert ms[i] == mp && ms[..i + 1] == ms[..i] + [mp];
        if |mp.path| <= |path| {
          var match_ := true;
          var root := PathsEqual(mp.path, []);
          if !root {
            var j := 0;
            while j < |mp.path|
              invariant j <= |mp.path| && match_
              invariant forall k :: 0 <= k < j ==> mp.path[k] == path[k]
            {
              if mp.path[j] != path[j] {
                match_ := false;
                break;
              }
              j := j + 1;
            }
          }
          assert match_ == Matches(mp, path);
          if match_ && |mp.path| >= highestDepth {
            r, highestDepth, best := Some(mp), |mp.path|, i;
          }
        }
        i := i + 1;
      }
      assert ms[..count] == ms;
    }

    /** The first half of fopen: the mount a path belongs to and the path inside it. */
    method Locate(path: Path) returns (r: Option<Mount>, inside: Path)
      requires Valid()
      ensures Answers(Contents(), path, r)
      ensures r.Some? ==> r.value.path + inside == path
    {
      r := ResolveMountpoint(path);
      inside := StripMountpoint(path, r);
    }
  }

  /** strip_mountpoint: what is left of a path below its mount. */
  method StripMountpoint(path: Path, mountpoint: Option<Mount>) returns (inside: Path)
    requires mountpoint.Some? ==> Matches(mountpoint.value, path)
    ensures mountpoint.None? ==> inside == path
    ensures mountpoint.Some? ==> mountpoint.value.path + inside == path
  {
    if mountpoint.None? {
      return path;
    }
    var root := PathsEqual(mountpoint.value.path, []);
    if root {
      return path;
    }
    var d := |mountpoint.value.path|;
    var components := new string[|path| - d](_ => "");
    for i := 0 to |path| - d
      invariant forall k :: 0 <= k < i ==> components[k] == path[k + d]
    {
      components[i] := path[i + d];
    }
    inside := components[..];
    assert inside == path[d..];
  }

  /** Mounting over a mount and unmounting takes the older one away. */
  lemma OlderMountIsRemoved(p: Path)
    ensures Unmounted([Mount(p, 1)] + [Mount(p, 2)], p, [Mount(p, 2)], true)
  {
    var ms := [Mount(p, 1)] + [Mount(p, 2)];
    EqualToItself(p);
    assert FirstEqual(ms, p, 0);
    assert ms[..0] + ms[1..] == [Mount(p, 2)];
  }
}
