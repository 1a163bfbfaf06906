/** The files that applypatch works on, with every state they pass through. */
module Disk {
  import opened Common

  type Path = string

  /** Contents by path, and the files whose contents have not been synced. */
  datatype State = State(files: map<Path, seq<Byte>>, dirty: set<Path>)

  /** Whether a path is the same in two states: its presence, its contents, and whether they are synced. */
  predicate Same(p: Path, a: State, b: State) {
    && (p in a.files <==> p in b.files)
    && (p in a.files ==> a.files[p] == b.files[p])
    && (p in a.dirty <==> p in b.dirty)
  }

  /** Whether two states agree on all the paths of a set. */
  ghost predicate SameOn(keep: iset<Path>, s: State, t: State) {
    forall p :: p in keep ==> Same(p, s, t)
  }

  predicate Other(p: Path, q: Path) { p != q }

  ghost function AllBut(p: Path): (paths: iset<Path>) { iset q | Other(p, q) }

  /** Whether the states from `since` on agree on the set with the state before them. */
  ghost predicate Kept(keep: iset<Path>, trace: seq<State>, since: int) {
    0 < since <= |trace| && forall i :: since <= i < |trace| ==> SameOn(keep, trace[since - 1], trace[i])
  }

  /** What may be found when power is lost in state `s`: unsynced contents are anything. */
  predicate Survives(s: State, t: State) {
    && t.dirty == {} && t.files.Keys == s.files.Keys
    && forall p :: p in s.files && p !in s.dirty ==> t.files[p] == s.files[p]
  }

  function Left(s: State, junk: Path -> seq<Byte>): (files: map<Path, seq<Byte>>) {
    map p | p in s.files :: if p in s.dirty then junk(p) else s.files[p]
  }

  lemma SameOnTransitive(keep: iset<Path>, s: State, t: State, u: State)
    requires SameOn(keep, s, t) && SameOn(keep, t, u)
    ensures SameOn(keep, s, u)
  {
    forall p | p in keep ensures Same(p, s, u) {
      assert Same(p, s, t) && Same(p, t, u);
    }
  }

  lemma KeptNext(keep: iset<Path>, trace: seq<State>, t: State, since: nat)
    requires Kept(keep, trace, since) && SameOn(keep, trace[|trace| - 1], t)
    ensures Kept(keep, trace + [t], since)
  {
    hide SameOn;
    if since < |trace| {
      assert SameOn(keep, trace[since - 1], trace[|trace| - 1]);
      SameOnTransitive(keep, trace[since - 1], trace[|trace| - 1], t);
    }
  }

  lemma KeptMore(keep: iset<Path>, trace: seq<State>, mid: nat, since: nat)
    requires mid <= |trace| && Kept(keep, trace[..mid], since) && Kept(keep, trace, mid)
    ensures Kept(keep, trace, since)
  {
    hide SameOn;
    forall i | since <= i < |trace| ensures SameOn(keep, trace[since - 1], trace[i]) {
      if i < mid {
        assert SameOn(keep, trace[..mid][since - 1], trace[..mid][i]);
      } else if since < mid {
        assert SameOn(keep, trace[..mid][since - 1], trace[..mid][mid - 1]);
        SameOnTransitive(keep, trace[since - 1], trace[mid - 1], trace[i]);
      }
    }
  }

  /**
   The file systems.  Any operation may fail, unless they are `working`.  Unlinking and renaming last once done;
   contents last once they are synced.
   */
  class FileSystem {
    /** The free bytes statfs reports for a path, as a function of the files; it gives a large number on error. */
    const freeSpace: (Path, map<Path, seq<Byte>>) -> nat
    /** The files that /proc shows to be open. */
    const open: set<Path>
    var working: bool
    var files: map<Path, seq<Byte>>
    var dirty: set<Path>
    var trace: seq<State>

    function Now(): (state: State)
      reads this
    {
      State(files, dirty)
    }

    ghost predicate Valid()
      reads this
    {
      trace != [] && trace[|trace| - 1] == Now()
    }

    constructor (freeSpace: (Path, map<Path, seq<Byte>>) -> nat, open: set<Path>, working: bool,
                 files: map<Path, seq<Byte>>)
      ensures Valid() && Now() == State(files, {}) && trace == [Now()] && this.working == working
      ensures this.freeSpace == freeSpace && this.open == open
    {
      this.freeSpace, this.open, this.working, this.files := freeSpace, open, working, files;
      dirty, trace := {}, [State(files, {})];
    }

    method Record()
      modifies `trace
      ensures Valid() && trace == old(trace) + [Now()]
    {
      trace := trace + [Now()];
    }

    /** Success or failure of an operation. */
    method Works() returns (ok: bool)
      ensures working ==> ok
    {
      if working {
        ok := true;
      } else {
        ok := *;
      }
    }

    method Read(p: Path) returns (contents: Option<seq<Byte>>)
      ensures contents.Some? ==> p in files && contents.value == files[p]
      ensures working && p in files ==> contents.Some?
    {
      var ok := Works();
      contents := if ok && p in files then Some(files[p]) else None;
    }

    /** open with O_CREAT and O_TRUNC. */
    method Truncate(p: Path) returns (ok: bool)
      requires Valid()
      modifies `files, `dirty, `trace
      ensures SameOn(AllBut(p), old(Now()), Now())
      ensures Valid() && old(trace) <= trace
      ensures working ==> ok
      ensures if ok then Now() == State(old(files)[p := []], old(dirty) + {p}) && trace == old(trace) + [Now()]
              else Now() == old(Now()) && trace == old(trace)
    {
      ok := Works();
      if ok {
        files, dirty := files[p := []], dirty + {p};
        Record();
      }
    }

    /** write: some of the data is appended to the file, or none on error. */
    method Write(p: Path, data: seq<Byte>) returns (wrote: nat)
      requires Valid() && p in files && data != []
      modifies `files, `dirty, `trace
      ensures SameOn(AllBut(p), old(Now()), Now())
      ensures Valid() && wrote <= |data| && (working ==> wrote > 0)
      ensures Now() == State(old(files)[p := old(files[p]) + data[..wrote]], old(dirty) + {p})
      ensures trace == old(trace) + [Now()]
    {
      var n: int := *;
      wrote := if 0 < n <= |data| then n else if working then |data| else 0;
      files, dirty := files[p := files[p] + data[..wrote]], dirty + {p};
      Record();
    }

    /** A partition, or a file, while it is written over: any contents. */
    method Overwrite(p: Path, contents: seq<Byte>)
      requires Valid()
      modifies `files, `dirty, `trace
      ensures SameOn(AllBut(p), old(Now()), Now())
      ensures Valid() && trace == old(trace) + [Now()]
      ensures Now() == State(old(files)[p := contents], old(dirty) + {p})
    {
      files, dirty := files[p := contents], dirty + {p};
      Record();
    }

    method Sync(p: Path)
      requires Valid()
      modifies `dirty, `trace
      ensures SameOn(AllBut(p), old(Now()), Now())
      ensures Valid() && Now() == State(old(files), old(dirty) - {p}) && trace == old(trace) + [Now()]
    {
      dirty := dirty - {p};
      Record();
    }

    /** chmod and chown: nothing that the model keeps changes. */
    method ChangeMode(p: Path) returns (ok: bool)
      ensures working ==> ok
    {
      ok := Works();
    }

    method Unlink(p: Path) returns (ok: bool)
      requires Valid()
      modifies `files, `dirty, `trace
      ensures SameOn(AllBut(p), old(Now()), Now())
      ensures Valid()
      ensures working && p in old(files) ==> ok
      ensures if ok then Now() == State(old(files) - {p}, old(dirty) - {p}) && trace == old(trace) + [Now()]
              else Now() == old(Now()) && trace == old(trace)
    {
      ok := Works();
      ok := ok && p in files;
      if ok {
        files, dirty := files - {p}, dirty - {p};
        Record();
      }
    }

    method Rename(p: Path, q: Path) returns (ok: bool)
      requires Valid() && p != q
      modifies `files, `dirty, `trace
      ensures Valid()
      ensures working && p in old(files) ==> ok
      ensures ok ==> p in old(files)
      ensures if ok then
                && Now() == State((old(files) - {p})[q := old(files)[p]],
                                  if p in old(dirty) then old(dirty) - {p} + {q} else old(dirty) - {q})
                && trace == old(trace) + [Now()]
              else Now() == old(Now()) && trace == old(trace)
    {
      ok := Works();
      ok := ok && p in files;
      if ok {
        files := (files - {p})[q := files[p]];
        dirty := if p in dirty then dirty - {p} + {q} else dirty - {q};
        Record();
      }
    }

    /** The names in a directory. */
    method ReadDir(dir: Path) returns (names: Option<seq<Path>>)
      ensures names.Some? ==> forall n :: n in names.value ==> '/' !in n
      ensures working ==> names.Some? && forall n :: '/' !in n && dir + "/" + n in files ==> n in names.value
    {
      var ok := Works();
      if !ok {
        return None;
      }
      var found, left := [], files.Keys;
      while left != {}
        invariant left <= files.Keys
        invariant forall n :: n in found ==> '/' !in n
        invariant forall n :: '/' !in n && dir + "/" + n in files.Keys - left ==> n in found
      {
        var p :| p in left;
        if dir + "/" <= p && '/' !in p[|dir| + 1..] {
          assert p == dir + "/" + p[|dir| + 1..];
          found := found + [p[|dir| + 1..]];
        }
        left := left - {p};
      }
      return Some(found);
    }

    /** stat, and whether it says a regular file. */
    method IsRegular(p: Path) returns (yes: bool)
      ensures yes ==> p in files
      ensures working && p in files ==> yes
    {
      var ok := Works();
      yes := ok && p in files;
    }

    /** The links found below /proc. */
    method OpenLinks() returns (links: Option<set<Path>>)
      ensures links.Some? ==> links.value == open
      ensures working ==> links.Some?
    {
      var ok := Works();
      links := if ok then Some(open) else None;
    }

    /** Power was lost in the state `at`, and is back; `junk` is found in place of what was not synced. */
    method LosePower(at: nat, junk: Path -> seq<Byte>, working: bool)
      requires Valid() && at < |trace|
      modifies this
      ensures Valid() && trace == old(trace) + [Now()] && this.working == working
      ensures Survives(old(trace)[at], Now()) && files == Left(old(trace)[at], junk)
    {
      var s := trace[at];
      files, dirty := Left(s, junk), {};
      this.working := working;
      Record();
    }
  }
}
