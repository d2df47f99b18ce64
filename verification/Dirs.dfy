/**
 * The directory tree of kernel/fs/tmpfs.c as a value: inodes numbered in the order in
 * which they are made (0 is the root), each with its link count and its entries.
 */
module Dirs {
  import opened Machine

  datatype Entry = Entry(name: string, ino: nat)
  datatype Inode = Inode(nlink: nat, mode: nat, entries: seq<Entry>)

  type Fs = seq<Inode>

  /** `mode & IT_TYPE`, as a number from 0 to 7. */
  function TypeOf(mode: nat): nat { mode / 512 % 8 }

  const REG := 1
  const DIR := 2
  const BLK := 3
  const CHR := 4

  const EEXIST := 3
  const EPERM := 5

  /** A fresh mount: an empty root, whose mode has no type bits. */
  function Mount(flags: nat): Fs {
    [Inode(0, flags % 512, [])]
  }

  predicate IsDir(fs: Fs, d: nat) {
    d < |fs| && (d == 0 || TypeOf(fs[d].mode) == DIR)
  }

  /** The first entry with that name, from entry `k` on, or the number of entries. */
  function Find(entries: seq<Entry>, name: string, k: nat): (i: nat)
    requires k <= |entries|
    ensures k <= i <= |entries|
    ensures i < |entries| ==> entries[i].name == name
    ensures forall j :: k <= j < i ==> entries[j].name != name
    decreases |entries| - k
  {
    if k == |entries| || entries[k].name == name then k else Find(entries, name, k + 1)
  }

  predicate Exists(fs: Fs, d: nat, name: string)
    requires d < |fs|
  {
    Find(fs[d].entries, name, 0) < |fs[d].entries|
  }

  /** `add_to_dir`: the entry goes to the end, and the 16-bit link count goes up. */
  function AddToDir(fs: Fs, d: nat, name: string, ino: nat): (r: Fs)
    requires d < |fs| && ino < |fs|
    ensures |r| == |fs|
  {
    var counted := fs[ino := fs[ino].(nlink := (fs[ino].nlink + 1) % 0x10000)];
    counted[d := counted[d].(entries := counted[d].entries + [Entry(name, ino)])]
  }

  /** `tmpfs_create`: the tree afterwards and the result. */
  function Create(fs: Fs, d: nat, name: string, mode: nat): (r: (Fs, int))
    requires d < |fs|
    ensures |fs| <= |r.0| <= |fs| + 1
  {
    var n := |fs|;
    var made := fs + [Inode(0, mode, [])];
    if Exists(fs, d, name) then (fs, -EEXIST)
    else if TypeOf(mode) == REG || TypeOf(mode) == CHR || TypeOf(mode) == BLK then
      (AddToDir(made, d, name, n), 0)
    else if TypeOf(mode) == DIR then
      (AddToDir(AddToDir(AddToDir(made, n, ".", n), n, "..", d), d, name, n), 0)
    else (fs, -EPERM)
  }

  // ---------------------------------------------------------------- link counts and names

  predicate IsDots(name: string) {
    name == "." || name == ".."
  }

  /** Entry `k` of directory `d` leads to the inode; `proper` asks for a name other than "." and "..". */
  predicate Leads(fs: Fs, d: nat, k: nat, ino: nat, proper: bool) {
    && d < |fs| && k < |fs[d].entries|
    && fs[d].entries[k].ino == ino && (proper ==> !IsDots(fs[d].entries[k].name))
  }

  /** All entries, by directory and position, that lead to an inode. */
  ghost function Refs(fs: Fs, ino: nat, proper: bool): set<(nat, nat)> {
    set d, k | 0 <= d < |fs| && 0 <= k < |fs[d].entries| && Leads(fs, d, k, ino, proper) :: (d, k)
  }

  ghost predicate NamesDistinct(entries: seq<Entry>) {
    forall i, j :: 0 <= i < j < |entries| ==> entries[i].name != entries[j].name
  }

  /** Entries lead to inodes, names in a directory are distinct, and link counts count entries, to 16 bits. */
  ghost predicate Linked(fs: Fs) {
    && |fs| > 0
    && (forall d, k :: 0 <= d < |fs| && 0 <= k < |fs[d].entries| ==> fs[d].entries[k].ino < |fs|)
    && (forall d :: 0 <= d < |fs| ==> NamesDistinct(fs[d].entries))
    && (forall i :: 0 <= i < |fs| ==> fs[i].nlink == |Refs(fs, i, false)| % 0x10000)
  }

  /** Inode by inode, what `add_to_dir` does. */
  lemma AddToDirAt(fs: Fs, d: nat, name: string, ino: nat, e: nat)
    requires d < |fs| && ino < |fs| && e < |fs|
    ensures var r := AddToDir(fs, d, name, ino);
            && r[e].mode == fs[e].mode
            && r[e].nlink == (if e == ino then (fs[e].nlink + 1) % 0x10000 else fs[e].nlink)
            && r[e].entries == fs[e].entries + (if e == d then [Entry(name, ino)] else [])
  {
  }

  /** The set gains one element, or stays the same. */
  lemma OneMore<T>(a: set<T>, b: set<T>, x: T, more: bool)
    requires x !in a && b == a + if more then {x} else {}
    ensures |b| == |a| + if more then 1 else 0
  {
  }

  lemma AddToDirLeads(fs: Fs, d: nat, name: string, ino: nat, i: nat, proper: bool, e: nat, k: nat)
    requires d < |fs| && ino < |fs|
    ensures Leads(AddToDir(fs, d, name, ino), e, k, i, proper) <==>
            Leads(fs, e, k, i, proper) || (e == d && k == |fs[d].entries| && i == ino && !(proper && IsDots(name)))
  {
  }

  /** One more entry leads to `ino`; every other inode is reached as before. */
  lemma AddToDirRefs(fs: Fs, d: nat, name: string, ino: nat, i: nat, proper: bool)
    requires d < |fs| && ino < |fs|
    ensures |Refs(AddToDir(fs, d, name, ino), i, proper)|
         == |Refs(fs, i, proper)| + if i == ino && !(proper && IsDots(name)) then 1 else 0
  {
    hide *;
    var r, more := AddToDir(fs, d, name, ino), i == ino && !(proper && IsDots(name));
    var before, after, p: (nat, nat) := Refs(fs, i, proper), Refs(r, i, proper), (d, |fs[d].entries|);
    forall q: (nat, nat) ensures q in after <==> q in before || (more && q == p) {
      RefsAre(fs, q, i, proper);
      RefsAre(r, q, i, proper);
      AddToDirLeads(fs, d, name, ino, i, proper, q.0, q.1);
    }
    RefsAre(fs, p, i, proper);
    OneMore(before, after, p, more);
  }

  lemma RefsAre(fs: Fs, p: (nat, nat), i: nat, proper: bool)
    ensures p in Refs(fs, i, proper) <==> Leads(fs, p.0, p.1, i, proper)
    ensures Leads(fs, p.0, p.1, i, proper) ==> p.0 < |fs| && p.1 < |fs[p.0].entries|
  {
  }

  lemma AddToDirKeepsLinked(fs: Fs, d: nat, name: string, ino: nat)
    requires Linked(fs) && d < |fs| && ino < |fs| && !Exists(fs, d, name)
    ensures Linked(AddToDir(fs, d, name, ino))
  {
    hide AddToDir;
    var r := AddToDir(fs, d, name, ino);
    forall e | 0 <= e < |fs|
      ensures NamesDistinct(r[e].entries) && forall k :: 0 <= k < |r[e].entries| ==> r[e].entries[k].ino < |r|
    {
      AddToDirAt(fs, d, name, ino, e);
    }
    LinkCountsAdd(fs, d, name, ino);
  }

  lemma LinkCountsAdd(fs: Fs, d: nat, name: string, ino: nat)
    requires d < |fs| && ino < |fs|
    requires forall i :: 0 <= i < |fs| ==> fs[i].nlink == |Refs(fs, i, false)| % 0x10000
    ensures var r := AddToDir(fs, d, name, ino);
            forall i :: 0 <= i < |r| ==> r[i].nlink == |Refs(r, i, false)| % 0x10000
  {
    hide AddToDir, Refs;
    var r := AddToDir(fs, d, name, ino);
    forall i | 0 <= i < |r| ensures r[i].nlink == |Refs(r, i, false)| % 0x10000 {
      AddToDirAt(fs, d, name, ino, i);
      AddToDirRefs(fs, d, name, ino, i, false);
    }
  }

  lemma NewInodeRefs(fs: Fs, mode: nat, i: nat, proper: bool)
    requires Linked(fs)
    ensures Refs(fs + [Inode(0, mode, [])], i, proper) == Refs(fs, i, proper)
    ensures i >= |fs| ==> Refs(fs, i, proper) == {}
  {
  }

  /** A new inode with no entries and no links. */
  lemma NewInodeKeepsLinked(fs: Fs, mode: nat)
    requires Linked(fs)
    ensures Linked(fs + [Inode(0, mode, [])])
  {
    var r := fs + [Inode(0, mode, [])];
    forall i | 0 <= i < |r| ensures r[i].nlink == |Refs(r, i, false)| % 0x10000 {
      NewInodeRefs(fs, mode, i, false);
    }
  }

  lemma CreateKeepsLinked(fs: Fs, d: nat, name: string, mode: nat)
    requires Linked(fs) && d < |fs|
    ensures Linked(Create(fs, d, name, mode).0)
  {
    var n := |fs|;
    var made := fs + [Inode(0, mode, [])];
    NewInodeKeepsLinked(fs, mode);
    if !Exists(fs, d, name) {
      if TypeOf(mode) == DIR {
        AddToDirKeepsLinked(made, n, ".", n);
        var dot := AddToDir(made, n, ".", n);
        AddToDirKeepsLinked(dot, n, "..", d);
        AddToDirKeepsLinked(AddToDir(dot, n, "..", d), d, name, n);
      } else {
        AddToDirKeepsLinked(made, d, name, n);
      }
    }
  }

  // ---------------------------------------------------------------- the tree

  /** A directory other than the root starts with "." for itself and ".." for an older directory. */
  predicate HasDots(fs: Fs, d: nat)
    requires d < |fs|
  {
    && |fs[d].entries| >= 2
    && fs[d].entries[0] == Entry(".", d)
    && fs[d].entries[1].name == ".." && fs[d].entries[1].ino < d && IsDir(fs, fs[d].entries[1].ino)
  }

  /** A proper entry leads to a younger inode, and a directory reached by it has this directory as "..". */
  predicate IsParent(fs: Fs, d: nat, k: nat)
    requires d < |fs| && k < |fs[d].entries|
  {
    var e := fs[d].entries[k];
    !IsDots(e.name) ==>
      && d < e.ino < |fs|
      && (IsDir(fs, e.ino) ==> |fs[e.ino].entries| >= 2 && fs[e.ino].entries[1] == Entry("..", d))
  }

  /** Parents, ".", ".." and the inodes that have no entries are as they should be. */
  ghost predicate Shaped(fs: Fs) {
    && (forall d, k {:trigger IsParent(fs, d, k)} :: 0 <= d < |fs| && 0 <= k < |fs[d].entries| ==> IsParent(fs, d, k))
    && (forall d {:trigger HasDots(fs, d)} :: 0 < d < |fs| && IsDir(fs, d) ==> HasDots(fs, d))
    && (forall d :: 0 <= d < |fs| && !IsDir(fs, d) ==> fs[d].entries == [])
  }

  ghost predicate Tree(fs: Fs) {
    && Linked(fs) && Shaped(fs)
    && (forall i :: 0 <= i < |fs| ==> |Refs(fs, i, true)| == if i == 0 then 0 else 1)
  }

  /** Callers name existing directories, and do not make "." or ".." in the root. */
  predicate Legal(fs: Fs, d: nat, name: string) {
    IsDir(fs, d) && (d == 0 ==> !IsDots(name))
  }

  /** Every directory but the root has "." and ".." already. */
  lemma DotsExist(fs: Fs, d: nat, name: string)
    requires 0 < d < |fs| && HasDots(fs, d) && IsDots(name)
    ensures Exists(fs, d, name)
  {
  }

  lemma CreateKeepsTree(fs: Fs, d: nat, name: string, mode: nat)
    requires Tree(fs) && Legal(fs, d, name)
    ensures Tree(Create(fs, d, name, mode).0)
  {
    CreateKeepsLinked(fs, d, name, mode);
    if Create(fs, d, name, mode).1 == 0 {
      if IsDots(name) && d > 0 {
        DotsExist(fs, d, name);
        assert false;
      }
      CreatedProperRefs(fs, d, name, mode);
      CreatedStaysShaped(fs, Create(fs, d, name, mode).0, d, name, TypeOf(mode) == DIR);
    }
  }

  /** `CreatedAt`, for every inode. */
  ghost predicate Grown(fs: Fs, r: Fs, d: nat, name: string, isDir: bool) {
    && |r| == |fs| + 1
    && (forall e :: 0 <= e < |r| ==> (IsDir(r, e) <==> if e < |fs| then IsDir(fs, e) else isDir))
    && (forall e :: 0 <= e < |fs| ==> r[e].entries == fs[e].entries + if e == d then [Entry(name, |fs|)] else [])
    && r[|fs|].entries == if isDir then [Entry(".", |fs|), Entry("..", d)] else []
  }

  lemma GrownDirs(fs: Fs, r: Fs, d: nat, name: string, isDir: bool, e: nat)
    requires Tree(fs) && Legal(fs, d, name) && Grown(fs, r, d, name, isDir) && e < |r|
    ensures e > 0 && IsDir(r, e) ==> HasDots(r, e)
    ensures !IsDir(r, e) ==> r[e].entries == []
  {
    hide Linked, Refs, IsParent;
    assert IsDir(fs, d) && IsDir(r, d);
    if 0 < e < |fs| && IsDir(r, e) {
      assert HasDots(fs, e);
      assert r[e].entries[0] == fs[e].entries[0] && r[e].entries[1] == fs[e].entries[1];
    }
  }

  lemma GrownParents(fs: Fs, r: Fs, d: nat, name: string, isDir: bool, e: nat, k: nat)
    requires Tree(fs) && Legal(fs, d, name) && Grown(fs, r, d, name, isDir) && e < |r| && k < |r[e].entries|
    ensures IsParent(r, e, k)
  {
    hide Linked, Refs, HasDots;
    if e < |fs| && k < |fs[e].entries| {
      assert IsParent(fs, e, k);
      assert r[e].entries[k] == fs[e].entries[k];
    }
  }

  lemma CreatedStaysShaped(fs: Fs, r: Fs, d: nat, name: string, isDir: bool)
    requires Tree(fs) && Legal(fs, d, name) && Grown(fs, r, d, name, isDir)
    ensures Shaped(r)
  {
    hide Linked, Refs, IsDir, HasDots, IsParent, Legal, Grown;
    forall e: nat | e < |r| ensures (e > 0 && IsDir(r, e) ==> HasDots(r, e)) && (!IsDir(r, e) ==> r[e].entries == []) {
      GrownDirs(fs, r, d, name, isDir, e);
    }
    forall e, k | 0 <= e < |r| && 0 <= k < |r[e].entries| ensures IsParent(r, e, k) {
      GrownParents(fs, r, d, name, isDir, e, k);
    }
  }

  lemma CreatedProperRefs(fs: Fs, d: nat, name: string, mode: nat)
    requires Tree(fs) && d < |fs| && !IsDots(name) && Create(fs, d, name, mode).1 == 0
    ensures var r := Create(fs, d, name, mode).0;
            forall i :: 0 <= i < |r| ==> |Refs(r, i, true)| == if i == 0 then 0 else 1
  {
    hide AddToDir, Refs;
    var n := |fs|;
    var made := fs + [Inode(0, mode, [])];
    var r := Create(fs, d, name, mode).0;
    forall i | 0 <= i < |r| ensures |Refs(r, i, true)| == if i == 0 then 0 else 1 {
      NewInodeRefs(fs, mode, i, true);
      if TypeOf(mode) == DIR {
        var dot := AddToDir(made, n, ".", n);
        AddToDirRefs(made, n, ".", n, i, true);
        AddToDirRefs(dot, n, "..", d, i, true);
        AddToDirRefs(AddToDir(dot, n, "..", d), d, name, n, i, true);
      } else {
        AddToDirRefs(made, d, name, n, i, true);
      }
    }
  }

  // ---------------------------------------------------------------- runs

  datatype CreateOp = CreateOp(d: nat, name: string, mode: nat)

  ghost predicate LegalRun(flags: nat, ops: seq<CreateOp>)
    decreases |ops|, 0
  {
    ops == [] ||
    (LegalRun(flags, ops[..|ops| - 1]) && Legal(Run(flags, ops[..|ops| - 1]), ops[|ops| - 1].d, ops[|ops| - 1].name))
  }

  /** The tree after a run of `tmpfs_create` on a fresh mount. */
  ghost function Run(flags: nat, ops: seq<CreateOp>): Fs
    requires LegalRun(flags, ops)
    decreases |ops|, 1
  {
    if ops == [] then Mount(flags)
    else
      var op := ops[|ops| - 1];
      Create(Run(flags, ops[..|ops| - 1]), op.d, op.name, op.mode).0
  }

  lemma MountIsTree(flags: nat)
    ensures Tree(Mount(flags))
  {
  }

  /**
   * Over every legal run: link counts count the entries to an inode in all directories (to
   * 16 bits), names are distinct, every inode but the root has exactly one entry of its
   * own, and every directory but the root has its "." and "..".
   */
  lemma {:induction false} RunsKeepTheTree(flags: nat, ops: seq<CreateOp>)
    requires LegalRun(flags, ops)
    ensures Tree(Run(flags, ops))
  {
    if ops == [] {
      MountIsTree(flags);
    } else {
      var op := ops[|ops| - 1];
      RunsKeepTheTree(flags, ops[..|ops| - 1]);
      CreateKeepsTree(Run(flags, ops[..|ops| - 1]), op.d, op.name, op.mode);
    }
  }

  /** `tmpfs_lookup`: the inode of the first entry with the name. */
  function Lookup(fs: Fs, d: nat, name: string): Option<nat>
    requires d < |fs|
  {
    var k := Find(fs[d].entries, name, 0);
    if k < |fs[d].entries| then Some(fs[d].entries[k].ino) else None
  }

  lemma {:induction false} FindAfterAppend(a: seq<Entry>, e: Entry, name: string, k: nat)
    requires k <= |a|
    ensures Find(a + [e], name, k) == if Find(a, name, k) < |a| || name == e.name then Find(a, name, k) else |a| + 1
    decreases |a| - k
  {
    if k < |a| && a[k].name != name {
      FindAfterAppend(a, e, name, k + 1);
    }
  }

  /**
   * Creation succeeds exactly for a new name and a known type; then the name leads to the
   * new inode, and no other lookup changes.
   */
  lemma LookupAfterCreate(fs: Fs, d: nat, name: string, mode: nat, e: nat, other: string)
    requires d < |fs| && e < |fs|
    ensures var (r, code) := Create(fs, d, name, mode);
            && (code == 0 <==> Lookup(fs, d, name) == None && TypeOf(mode) in {REG, DIR, BLK, CHR})
            && (code != 0 ==> r == fs)
            && (code == 0 ==>
                  Lookup(r, e, other) == if e == d && other == name then Some(|fs|) else Lookup(fs, e, other))
  {
    if Create(fs, d, name, mode).1 == 0 {
      FindAfterAppend(fs[e].entries, Entry(name, |fs|), other, 0);
    }
  }

  /**
   * In numbers: 3 for a name that is taken, else 5 unless the type is 01000, 02000, 03000 or 04000 in octal;
   * a directory, 02000, starts with two entries and two links, anything else with none and one.
   */
  ghost predicate IsCreated(fs: Fs, r: Fs, d: nat, name: string, mode: nat, code: int)
    requires d < |fs|
  {
    var n, kind := |fs|, mode % 4096 - mode % 512;
    && code == (if exists e :: e in fs[d].entries && e.name == name then -3
                else if kind in {512, 1024, 1536, 2048} then 0
                else -5)
    && if code != 0 then r == fs
       else && |r| == n + 1
            && r[n].mode == mode && r[n].nlink == (if kind == 1024 then 2 else 1)
            && r[n].entries == (if kind == 1024 then [Entry(".", n), Entry("..", d)] else [])
            && r[d].nlink == (if kind == 1024 then (fs[d].nlink + 1) % 65536 else fs[d].nlink)
            && r[d].mode == fs[d].mode && r[d].entries == fs[d].entries + [Entry(name, n)]
            && forall e :: 0 <= e < n && e != d ==> r[e] == fs[e]
  }

  lemma CreateCreates(fs: Fs, d: nat, name: string, mode: nat)
    requires d < |fs|
    ensures var (r, code) := Create(fs, d, name, mode); IsCreated(fs, r, d, name, mode, code)
  {
    var k := Find(fs[d].entries, name, 0);
    if k < |fs[d].entries| {
      assert fs[d].entries[k] in fs[d].entries;
    }
    TypeInOctal(mode);
  }

  lemma TypeInOctal(mode: nat)
    ensures mode % 4096 - mode % 512 == 512 * TypeOf(mode)
  {
  }

  /** A fresh mount has the root only: no links, no entries, and of the flags the nine permission bits. */
  lemma MountIsEmpty(flags: nat)
    ensures |Mount(flags)| == 1 && Mount(flags)[0].nlink == 0 && Mount(flags)[0].entries == []
    ensures Mount(flags)[0].mode < 512 && (flags - Mount(flags)[0].mode) % 512 == 0
  {
  }

  /** Following ".." by name, `n` times; the root has no "..". */
  function Up(fs: Fs, d: nat, n: nat): (e: nat)
    decreases n
  {
    if n == 0 || d >= |fs| then d
    else
      var k := Find(fs[d].entries, "..", 0);
      if k < |fs[d].entries| then Up(fs, fs[d].entries[k].ino, n - 1) else d
  }

  /** From every directory ".." leads to the root, in no more steps than there are older inodes. */
  lemma {:induction false} DotDotReachesTheRoot(fs: Fs, d: nat) returns (n: nat)
    requires Tree(fs) && IsDir(fs, d)
    ensures n <= d && Up(fs, d, n) == 0
    decreases d
  {
    hide Linked, Refs;
    if d == 0 {
      n := 0;
    } else {
      assert HasDots(fs, d);
      var parent := fs[d].entries[1].ino;
      assert Find(fs[d].entries, "..", 0) == 1;
      n := DotDotReachesTheRoot(fs, parent);
      n := n + 1;
    }
  }
}
