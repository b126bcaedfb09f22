/**
  general_foreach_inode_entry: a directory iterator kept alive between calls by an item, with
  its buffers on a heap that records what is allocated; and general_find_proc_pid, which drives it.
 */
module DirEntries {
  import opened EarlyStop
  import opened LoopTypes
  import opened Wrappers

  const DT_DIR: int := 4
  const PROC_DIR: string := "/proc"

  datatype Dirent = Dirent(d_name: string, d_type: int)

  // ---------- What an iteration yields ----------

  predicate Wanted(ent: Dirent, kind: int) {
    ent.d_name != "." && ent.d_name != ".." && ent.d_type == kind
  }

  function JoinPath(dir: string, name: string): string
    requires dir != ""
  {
    if dir[|dir| - 1] == '/' then dir + name else dir + "/" + name
  }

  /** The joined paths of the wanted entries, in stream order. */
  function Paths(dir: string, ents: seq<Dirent>, kind: int): seq<string>
    requires dir != ""
  {
    if ents == [] then []
    else (if Wanted(ents[0], kind) then [JoinPath(dir, ents[0].d_name)] else []) + Paths(dir, ents[1..], kind)
  }

  /** The paths come from the entries at the given places, in that order. */
  ghost predicate FromPlaces(dir: string, ents: seq<Dirent>, at: seq<nat>, paths: seq<string>)
    requires dir != ""
  {
    && |at| == |paths|
    && (forall k :: 0 <= k < |at| ==> at[k] < |ents| && paths[k] == JoinPath(dir, ents[at[k]].d_name))
    && (forall k, l :: 0 <= k < l < |at| ==> at[k] < at[l])
  }

  /** The places are those of all entries from n on of the type other than "." and "..". */
  ghost predicate AllOfKind(ents: seq<Dirent>, n: nat, kind: int, at: seq<nat>) {
    forall a: nat :: a in at <==>
      n <= a < |ents| && ents[a].d_type == kind && ents[a].d_name != "." && ents[a].d_name != ".."
  }

  /** The paths are those of all entries of the type other than "." and "..", in stream order. */
  lemma PathsInStreamOrder(dir: string, ents: seq<Dirent>, kind: int) returns (at: seq<nat>)
    requires dir != ""
    ensures FromPlaces(dir, ents, at, Paths(dir, ents, kind)) && AllOfKind(ents, 0, kind, at)
  {
    hide FromPlaces, AllOfKind;
    at := PathsFrom(dir, ents, 0, kind);
    assert ents[0..] == ents;
  }

  lemma {:induction false} PathsFrom(dir: string, ents: seq<Dirent>, n: nat, kind: int) returns (at: seq<nat>)
    requires dir != "" && n <= |ents|
    ensures FromPlaces(dir, ents, at, Paths(dir, ents[n..], kind)) && AllOfKind(ents, n, kind, at)
    decreases |ents| - n
  {
    hide JoinPath, FromPlaces, AllOfKind, Wanted;
    if n == |ents| {
      at := [];
      NoPlaces(dir, ents, kind);
    } else {
      at := PathsFrom(dir, ents, n + 1, kind);
      assert ents[n..][1..] == ents[n + 1..];
      var rest := Paths(dir, ents[n + 1..], kind);
      PlaceOrNot(ents, n, kind, at);
      if Wanted(ents[n], kind) {
        OnePlaceMore(dir, ents, n, at, rest);
        at := [n] + at;
      } else {
        assert Paths(dir, ents[n..], kind) == rest;
      }
    }
  }

  lemma NoPlaces(dir: string, ents: seq<Dirent>, kind: int)
    requires dir != ""
    ensures FromPlaces(dir, ents, [], []) && AllOfKind(ents, |ents|, kind, [])
  {
  }

  lemma PlaceOrNot(ents: seq<Dirent>, n: nat, kind: int, at: seq<nat>)
    requires n < |ents| && AllOfKind(ents, n + 1, kind, at)
    ensures AllOfKind(ents, n, kind, if Wanted(ents[n], kind) then [n] + at else at)
    ensures forall k :: 0 <= k < |at| ==> n < at[k]
  {
    assert forall k :: 0 <= k < |at| ==> at[k] in at;
  }

  lemma OnePlaceMore(dir: string, ents: seq<Dirent>, n: nat, at: seq<nat>, paths: seq<string>)
    requires dir != "" && n < |ents| && FromPlaces(dir, ents, at, paths)
    requires forall k :: 0 <= k < |at| ==> n < at[k]
    ensures FromPlaces(dir, ents, [n] + at, [JoinPath(dir, ents[n].d_name)] + paths)
  {
    hide JoinPath;
  }

  // ---------- The heap and the iterator ----------

  /** malloc and free: a block may be freed only while it is live, so at most once. */
  class Heap {
    var live: set<nat>
    var next: nat

    constructor ()
      ensures live == {} && Valid()
    {
      live, next := {}, 0;
    }

    ghost predicate Valid()
      reads this
    {
      forall b | b in live :: b < next
    }

    method Malloc() returns (b: nat)
      requires Valid()
      modifies this
      ensures Valid() && b !in old(live) && live == old(live) + {b}
    {
      b := next;
      live := live + {b};
      next := next + 1;
    }

    method Free(b: nat)
      requires Valid() && b in live
      modifies this
      ensures Valid() && live == old(live) - {b}
    {
      live := live - {b};
    }
  }

  /** A string in an allocated block. */
  datatype Text = Text(block: nat, chars: string)

  /**
    struct general_inode_entry. The open directory is a block that opendir allocates and closedir
    frees, and what is left of its stream.
   */
  class InodeEntry {
    const block: nat
    const dirpath: Text
    var fullpath: Option<Text>
    var dir: seq<Dirent>
    const handle: nat

    constructor (block: nat, dirpath: Text, handle: nat, dir: seq<Dirent>)
      ensures this.block == block && this.dirpath == dirpath && this.handle == handle && this.dir == dir
      ensures fullpath == None
    {
      this.block, this.dirpath, this.handle, this.dir := block, dirpath, handle, dir;
      fullpath := None;
    }

    /** The blocks the node owns. */
    ghost function Blocks(): set<nat>
      reads this
    {
      {block, dirpath.block, handle} + (if fullpath.Some? then {fullpath.value.block} else {})
    }
  }

  /** struct fcp_one_item; the constructor gives the zeroed item. */
  class Item {
    var node: InodeEntry?
    var data: Option<Text>
    var flag: nat

    constructor ()
      ensures node == null && data == None && flag == LOOP_TYPE_START == 0
    {
      node, data, flag := null, None, LOOP_TYPE_START;
    }

    /**
      Between calls: at START nothing is held; otherwise the node holds itself, the directory
      path, the open directory and at most one entry path, which is what the item's data shows.
     */
    ghost predicate Valid(heap: Heap)
      reads this, node, heap
    {
      && heap.Valid()
      && (flag == LOOP_TYPE_START ==> node == null)
      && (flag != LOOP_TYPE_START ==> node != null)
      && (node == null ==> data == None)
      && (node != null ==>
        && node.dirpath.chars != ""
        && node.block != node.dirpath.block && node.handle !in {node.block, node.dirpath.block}
        && (node.fullpath.Some? ==> node.fullpath.value.block !in {node.block, node.dirpath.block, node.handle})
        && node.Blocks() <= heap.live && data == node.fullpath)
    }

    /** The blocks the item holds on to. */
    ghost function Held(): set<nat>
      reads this, node
    {
      if node == null then {} else node.Blocks()
    }

    /** The paths the coming calls will deliver. */
    ghost function Coming(dirpath: string, stream: Option<seq<Dirent>>, kind: int): seq<string>
      requires stream.Some? ==> dirpath != ""
      requires node != null ==> node.dirpath.chars != ""
      reads this, node
    {
      if flag == LOOP_TYPE_START then (if stream.Some? then Paths(dirpath, stream.value, kind) else [])
      else if flag == LOOP_TYPE_CON && node != null then Paths(node.dirpath.chars, node.dir, kind)
      else []
    }
  }

  /** The stopread part: close the directory, release everything and reset the item. */
  method StopRead(heap: Heap, entry: Item)
    requires entry.Valid(heap) && entry.node != null
    modifies heap, entry, entry.node
    ensures heap.Valid() && heap.live == old(heap.live) - old(entry.Held())
    ensures entry.node == null && entry.data == None && entry.flag == LOOP_TYPE_START
  {
    var node := entry.node;
    if node.fullpath.Some? {
      heap.Free(node.fullpath.value.block);
      node.fullpath := None;
    }
    heap.Free(node.dirpath.block);
    heap.Free(node.handle);
    heap.Free(node.block);
    entry.data := None;
    entry.node := null;
    entry.flag := LOOP_TYPE_START;
  }

  /** readdir until a wanted entry or the end; `ent` is None at the end. The directory must be open. */
  method NextWanted(ghost heap: Heap, node: InodeEntry, kind: int) returns (ent: Option<Dirent>)
    requires node.dirpath.chars != "" && node.handle in heap.live
    modifies node`dir
    ensures ent.None? ==> old(Paths(node.dirpath.chars, node.dir, kind)) == []
    ensures ent.Some? ==>
      old(Paths(node.dirpath.chars, node.dir, kind)) ==
      [JoinPath(node.dirpath.chars, ent.value.d_name)] + Paths(node.dirpath.chars, node.dir, kind)
  {
    while true
      invariant Paths(node.dirpath.chars, node.dir, kind) == old(Paths(node.dirpath.chars, node.dir, kind))
      decreases |node.dir|
    {
      if node.dir == [] {
        return None;
      }
      var e := node.dir[0];
      node.dir := node.dir[1..];
      if !(e.d_name == "." || e.d_name == ".." || e.d_type != kind) {
        return Some(e);
      }
    }
  }

  /** The START part: a node with its own copy of the path, or null when the directory does not open. */
  method OpenNode(heap: Heap, dirpath: string, stream: Option<seq<Dirent>>) returns (node: InodeEntry?)
    requires heap.Valid()
    modifies heap
    ensures heap.Valid()
    ensures stream.None? ==> node == null && heap.live == old(heap.live)
    ensures stream.Some? ==>
      && node != null && fresh(node) && node.fullpath == None
      && node.dir == stream.value && node.dirpath.chars == dirpath
      && node.block != node.dirpath.block && node.handle !in {node.block, node.dirpath.block}
      && node.Blocks() !! old(heap.live) && heap.live == old(heap.live) + node.Blocks()
  {
    var block := heap.Malloc();
    var path := heap.Malloc();
    if stream.None? {
      heap.Free(path);
      heap.Free(block);
      return null;
    }
    var handle := heap.Malloc();
    node := new InodeEntry(block, Text(path, dirpath), handle, stream.value);
  }

  /**
    One call of general_foreach_inode_entry: the next path, or the end with everything released.
    `stream` is what opendir gives for dirpath, None when it fails, as it does for the empty path.
   */
  method ForeachInodeEntry(heap: Heap, dirpath: string, entry: Item, kind: int, stream: Option<seq<Dirent>>)
    returns (r: int)
    requires entry.Valid(heap) && (stream.Some? ==> dirpath != "")
    modifies heap, entry, entry.node
    ensures entry.Valid(heap) && (entry.node == old(entry.node) || entry.node == null || fresh(entry.node))
    ensures heap.live - entry.Held() == old(heap.live - entry.Held())
    ensures old(entry.flag) > 2 ==> r == -1 && unchanged(entry) && unchanged(heap)
    ensures old(entry.flag) <= 2 && old(entry.Coming(dirpath, stream, kind)) == [] ==>
      r == -1 && entry.flag == LOOP_TYPE_START
    ensures old(entry.flag) <= 2 && old(entry.Coming(dirpath, stream, kind)) != [] ==>
      && r == 0 && entry.flag == LOOP_TYPE_CON == 1
      && entry.data.Some?
      && old(entry.Coming(dirpath, stream, kind)) == [entry.data.value.chars] + entry.Coming(dirpath, stream, kind)
  {
    hide Paths, JoinPath;
    if entry.flag == LOOP_TYPE_START {
      var newNode := OpenNode(heap, dirpath, stream);
      if newNode == null {
        return -1;
      }
      entry.flag := LOOP_TYPE_CON;
      entry.node := newNode;
    } else if entry.flag == LOOP_TYPE_CON {
      if entry.node.fullpath.Some? {
        heap.Free(entry.node.fullpath.value.block);
        entry.node.fullpath := None;
        entry.data := None;
      }
    } else if entry.flag == LOOP_TYPE_STOP {
      StopRead(heap, entry);
      return -1;
    } else {
      return -1;
    }
    var node := entry.node;
    var ent := NextWanted(heap, node, kind);
    if ent.None? {
      StopRead(heap, entry);
      return -1;
    }
    var full := heap.Malloc();
    node.fullpath := Some(Text(full, JoinPath(node.dirpath.chars, ent.value.d_name)));
    entry.data := node.fullpath;
    r := 0;
  }

  /**
    A whole run from a zeroed item, the caller setting the flag to LOOP_TYPE_STOP to leave early:
    the wanted paths in stream order, and the heap as it was.
   */
  method ForeachEntry(heap: Heap, dirpath: string, kind: int, stream: Option<seq<Dirent>>, stop: seq<string> -> bool)
    returns (got: seq<string>)
    requires heap.Valid() && (stream.Some? ==> dirpath != "")
    modifies heap
    ensures heap.Valid() && heap.live == old(heap.live)
    ensures CutAfter(if stream.Some? then Paths(dirpath, stream.value, kind) else [], stop, got)
  {
    hide Paths, JoinPath, CutAfter, Going;
    got := [];
    var entry := new Item();
    ghost var all := entry.Coming(dirpath, stream, kind);
    ghost var coming, stopped := all, false;
    Start(all, stop);
    var r := ForeachInodeEntry(heap, dirpath, entry, kind, stream);
    while r == 0
      invariant fresh(entry) && (entry.node != null ==> fresh(entry.node)) && entry.Valid(heap)
      invariant heap.live - entry.Held() == old(heap.live)
      invariant r == 0 ==> !stopped && entry.flag == LOOP_TYPE_CON && entry.data.Some?
      invariant r == 0 ==> coming == [entry.data.value.chars] + entry.Coming(dirpath, stream, kind)
      invariant r != 0 ==> entry.node == null && (stopped || coming == [])
      invariant if stopped then CutAfter(all, stop, got) else Going(all, stop, got, coming)
      decreases r == 0, |coming|
    {
      coming := entry.Coming(dirpath, stream, kind);
      Deliver(all, stop, got, entry.data.value.chars, coming);
      got := got + [entry.data.value.chars];
      if stop(got) {
        entry.flag := LOOP_TYPE_STOP;
        stopped := true;
      }
      r := ForeachInodeEntry(heap, dirpath, entry, kind, stream);
    }
    if !stopped {
      End(all, stop, got);
    }
  }

  // ---------- general_find_proc_pid ----------

  /** strrchr: the last place of c, or -1. */
  function StrRChr(s: string, c: char): (k: int)
    ensures -1 <= k < |s| && (k >= 0 ==> s[k] == c)
    ensures forall i :: k < i < |s| ==> s[i] != c
  {
    if s == "" then -1 else if s[|s| - 1] == c then |s| - 1 else StrRChr(s[..|s| - 1], c)
  }

  predicate IsPid(path: string, atoi: string -> int) {
    var k := StrRChr(path, '/');
    k >= 0 && atoi(path[k + 1..]) != 0
  }

  function PidPaths(paths: seq<string>, atoi: string -> int): seq<string> {
    if paths == [] then [] else (if IsPid(paths[0], atoi) then [paths[0]] else []) + PidPaths(paths[1..], atoi)
  }

  /** The callback's nonzero answer ends the run; it may depend on every call made so far. */
  function Nonzero(answer: seq<string> -> int): seq<string> -> bool {
    calls => answer(calls) != 0
  }

  lemma OnePath(path: string, rest: seq<string>, atoi: string -> int)
    ensures PidPaths([path] + rest, atoi) == (if IsPid(path, atoi) then [path] else []) + PidPaths(rest, atoi)
  {
    assert ([path] + rest)[1..] == rest;
  }

  lemma NoPath(atoi: string -> int)
    ensures PidPaths([], atoi) == []
  {
  }

  /** general_find_proc_pid; the directory's own end and the callback's stop both release everything. */
  method FindProcPid(heap: Heap, stream: Option<seq<Dirent>>, atoi: string -> int, answer: seq<string> -> int)
    returns (r: int, calls: seq<string>)
    requires heap.Valid()
    modifies heap
    ensures r == 0 && heap.Valid() && heap.live == old(heap.live)
    ensures CutAfter(
      PidPaths(if stream.Some? then Paths(PROC_DIR, stream.value, DT_DIR) else [], atoi), Nonzero(answer), calls)
    ensures forall k :: 0 < k < |calls| ==> answer(calls[..k]) == 0
    ensures var paths := PidPaths(if stream.Some? then Paths(PROC_DIR, stream.value, DT_DIR) else [], atoi);
      |calls| < |paths| ==> calls != [] && answer(calls) != 0
  {
    hide Paths, JoinPath, IsPid, PidPaths, CutAfter, Going;
    calls := [];
    var ent := new Item();
    ghost var coming := ent.Coming(PROC_DIR, stream, DT_DIR);
    ghost var all, last, stopped := PidPaths(coming, atoi), Nonzero(answer), false;
    Start(all, last);
    NoPath(atoi);
    var more := ForeachInodeEntry(heap, PROC_DIR, ent, DT_DIR, stream);
    while more == 0
      invariant fresh(ent) && (ent.node != null ==> fresh(ent.node)) && ent.Valid(heap)
      invariant heap.live - ent.Held() == old(heap.live)
      invariant more == 0 ==> ent.flag == LOOP_TYPE_CON && ent.data.Some? && !stopped
      invariant more == 0 ==> coming == [ent.data.value.chars] + ent.Coming(PROC_DIR, stream, DT_DIR)
      invariant more != 0 ==> ent.node == null && (stopped || coming == [])
      invariant if stopped then CutAfter(all, last, calls) else Going(all, last, calls, PidPaths(coming, atoi))
      decreases more == 0, |coming|
    {
      var path := ent.data.value.chars;
      coming := ent.Coming(PROC_DIR, stream, DT_DIR);
      OnePath(path, coming, atoi);
      if IsPid(path, atoi) {
        Deliver(all, last, calls, path, PidPaths(coming, atoi));
        calls := calls + [path];
        if answer(calls) != 0 {
          ent.flag := LOOP_TYPE_STOP;
          stopped := true;
        }
      } else {
        assert [] + PidPaths(coming, atoi) == PidPaths(coming, atoi);
      }
      more := ForeachInodeEntry(heap, PROC_DIR, ent, DT_DIR, stream);
    }
    if !stopped {
      End(all, last, calls);
    }
    CutMeans(all, last, calls);
    forall k | 0 < k < |calls| ensures answer(calls[..k]) == 0 {
      assert calls[..k] == all[..k] && !last(all[..k]);
    }
    r := 0;
  }

  /** Directory entries of the proc tree whose names atoi reads as a nonzero number, in stream order. */
  function PidEntries(ents: seq<Dirent>, atoi: string -> int): seq<string> {
    if ents == [] then []
    else
      (if Wanted(ents[0], DT_DIR) && atoi(ents[0].d_name) != 0 then [PROC_DIR + "/" + ents[0].d_name] else [])
      + PidEntries(ents[1..], atoi)
  }

  /** The places are those of all directories from n on that atoi does not read as 0, "." and ".." left out. */
  ghost predicate AllNumbered(ents: seq<Dirent>, n: nat, atoi: string -> int, at: seq<nat>) {
    forall a: nat :: a in at <==>
      && n <= a < |ents| && ents[a].d_type == 4 && ents[a].d_name != "." && ents[a].d_name != ".."
      && atoi(ents[a].d_name) != 0
  }

  /** They are the paths in /proc of all these, in stream order. */
  lemma PidEntriesInStreamOrder(ents: seq<Dirent>, atoi: string -> int) returns (at: seq<nat>)
    ensures FromPlaces("/proc", ents, at, PidEntries(ents, atoi)) && AllNumbered(ents, 0, atoi, at)
  {
    hide FromPlaces, AllNumbered;
    at := PidEntriesFrom(ents, 0, atoi);
    assert ents[0..] == ents;
  }

  lemma {:induction false} PidEntriesFrom(ents: seq<Dirent>, n: nat, atoi: string -> int) returns (at: seq<nat>)
    requires n <= |ents|
    ensures FromPlaces("/proc", ents, at, PidEntries(ents[n..], atoi)) && AllNumbered(ents, n, atoi, at)
    decreases |ents| - n
  {
    hide JoinPath, FromPlaces, AllNumbered, Wanted;
    if n == |ents| {
      at := [];
      NoneNumbered(ents, atoi);
    } else {
      at := PidEntriesFrom(ents, n + 1, atoi);
      assert ents[n..][1..] == ents[n + 1..];
      var rest := PidEntries(ents[n + 1..], atoi);
      NumberedOrNot(ents, n, atoi, at);
      if Wanted(ents[n], DT_DIR) && atoi(ents[n].d_name) != 0 {
        OnePlaceMore("/proc", ents, n, at, rest);
        JoinProc(ents[n].d_name);
        at := [n] + at;
      } else {
        assert PidEntries(ents[n..], atoi) == rest;
      }
    }
  }

  lemma JoinProc(name: string)
    ensures JoinPath("/proc", name) == PROC_DIR + "/" + name
  {
  }

  lemma NoneNumbered(ents: seq<Dirent>, atoi: string -> int)
    ensures FromPlaces("/proc", ents, [], []) && AllNumbered(ents, |ents|, atoi, [])
  {
  }

  lemma NumberedOrNot(ents: seq<Dirent>, n: nat, atoi: string -> int, at: seq<nat>)
    requires n < |ents| && AllNumbered(ents, n + 1, atoi, at)
    ensures AllNumbered(ents, n, atoi, if Wanted(ents[n], DT_DIR) && atoi(ents[n].d_name) != 0 then [n] + at else at)
    ensures forall k :: 0 <= k < |at| ==> n < at[k]
  {
    assert forall k :: 0 <= k < |at| ==> at[k] in at;
  }

  lemma LastSlash(dir: string, name: string)
    requires '/' !in name
    ensures var path := dir + "/" + name;
      StrRChr(path, '/') == |dir| && path[|dir| + 1..] == name
  {
    var path := dir + "/" + name;
    assert path[|dir|] == '/';
    assert forall i :: |dir| < i < |path| ==> path[i] == name[i - |dir| - 1];
  }

  /** A joined path splits at its last slash into the directory, with one slash, and the name. */
  lemma JoinPathSplits(dir: string, name: string)
    requires dir != "" && '/' !in name
    ensures var path := JoinPath(dir, name);
      var k := StrRChr(path, '/');
      && k >= 0 && path[k + 1..] == name
      && (dir[|dir| - 1] == '/' ==> path[..k + 1] == dir) && (dir[|dir| - 1] != '/' ==> path[..k] == dir)
  {
    if dir[|dir| - 1] == '/' {
      var d := dir[..|dir| - 1];
      LastSlash(d, name);
      assert d + "/" + name == JoinPath(dir, name);
    } else {
      LastSlash(dir, name);
    }
  }

  /** Entry names hold no slash, so what follows the last slash of a path is the entry's name. */
  lemma {:induction false} PidPathsAreEntries(ents: seq<Dirent>, atoi: string -> int)
    requires forall e | e in ents :: '/' !in e.d_name
    ensures PidPaths(Paths(PROC_DIR, ents, DT_DIR), atoi) == PidEntries(ents, atoi)
  {
    hide IsPid, StrRChr, JoinPath;
    if ents != [] {
      PidPathsAreEntries(ents[1..], atoi);
      var rest := Paths(PROC_DIR, ents[1..], DT_DIR);
      if Wanted(ents[0], DT_DIR) {
        var path := JoinPath(PROC_DIR, ents[0].d_name);
        ProcPath(ents[0].d_name, atoi);
        assert ([path] + rest)[1..] == rest;
      } else {
        assert [] + rest == rest;
      }
    }
  }

  lemma ProcPath(name: string, atoi: string -> int)
    requires '/' !in name
    ensures JoinPath(PROC_DIR, name) == PROC_DIR + "/" + name
    ensures IsPid(JoinPath(PROC_DIR, name), atoi) <==> atoi(name) != 0
  {
    LastSlash(PROC_DIR, name);
  }
}
