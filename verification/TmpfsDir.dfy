/**
 * Directories of kernel/fs/tmpfs.c: linked lists of entries that point to inodes. The ghost
 * field `view` is the tree they hold; module Dirs says what becomes of it.
 */
module TmpfsDir {
  import opened Strings
  import D = Dirs
  import opened Machine

  /** `first` is used by directories only. The ghost number is the place among all inodes. */
  class Inode {
    ghost const number: nat
    const mode: nat
    var nlink: nat
    var first: Dentry?

    constructor (mode: nat, ghost number: nat)
      ensures this.mode == mode && this.number == number && nlink == 0 && first == null
    {
      this.mode, this.number, nlink, first := mode, number, 0, null;
    }
  }

  /** The ghost numbers are the directory and the place in it. */
  class Dentry {
    ghost const dir: nat
    ghost const place: nat
    const name: string
    const ino: Inode
    var next: Dentry?

    constructor (name: string, ino: Inode, ghost dir: nat, ghost place: nat)
      ensures this.name == name && this.ino == ino && this.dir == dir && this.place == place && next == null
    {
      this.name, this.ino, this.dir, this.place, next := name, ino, dir, place, null;
    }
  }

  class Tmpfs {
    const root: Inode
    ghost var nodes: seq<Inode>
    ghost var lists: seq<seq<Dentry>>
    ghost var view: D.Fs
    ghost var repr: set<object>

    /** Entry `k` of directory `i` is in its place, and the list goes on to the next one. */
    ghost predicate EntryOk(i: nat, k: nat)
      requires i < |lists| == |view| && k < |lists[i]|
      reads this, repr
    {
      && k < |view[i].entries| && lists[i][k] in repr
      && var de, e := lists[i][k], view[i].entries[k];
      && de.dir == i && de.place == k
      && de.name == e.name && IsCString(e.name)
      && e.ino < |nodes| && de.ino == nodes[e.ino]
      && de.next == if k + 1 < |lists[i]| then lists[i][k + 1] else null
    }

    ghost predicate InodeOk(i: nat)
      requires i < |nodes| == |lists| == |view|
      reads this, repr
    {
      && nodes[i] in repr
      && var n := nodes[i];
      && n.number == i && n.mode == view[i].mode && n.nlink == view[i].nlink
      && |lists[i]| == |view[i].entries|
      && n.first == if lists[i] == [] then null else lists[i][0]
    }

    ghost predicate Valid()
      reads this, repr
    {
      && this !in repr
      && |nodes| == |lists| == |view| > 0 && root == nodes[0]
      && (forall i {:trigger InodeOk(i)} :: 0 <= i < |nodes| ==> InodeOk(i))
      && (forall i, k {:trigger EntryOk(i, k)} :: 0 <= i < |nodes| && 0 <= k < |lists[i]| ==> EntryOk(i, k))
    }

    /** `tmpfs_mount` */
    constructor (flags: nat)
      ensures Valid() && fresh(repr) && view == D.Mount(flags)
    {
      root := new Inode(flags % 512, 0);
      new;
      nodes, lists, view, repr := [root], [[]], D.Mount(flags), {root};
    }

    /** A new inode that no entry leads to yet. */
    method NewInode(mode: nat) returns (ino: Inode)
      requires Valid()
      modifies this
      ensures Valid() && fresh(repr - old(repr)) && old(repr) <= repr
      ensures nodes == old(nodes) + [ino]
      ensures view == old(view) + [D.Inode(0, mode, [])]
    {
      ino := new Inode(mode, |nodes|);
      nodes, lists, view, repr := nodes + [ino], lists + [[]], view + [D.Inode(0, mode, [])], repr + {ino};
      forall i, k | 0 <= i < |nodes| && 0 <= k < |lists[i]| ensures EntryOk(i, k) {
        assert old(EntryOk(i, k));
      }
      forall i | 0 <= i < |nodes| ensures InodeOk(i) {
        assert i < |old(nodes)| ==> old(InodeOk(i));
      }
    }

    /** The last entry of a list that is not empty. */
    method Last(dir: Inode, ghost d: nat) returns (last: Dentry)
      requires Valid() && d < |nodes| && dir == nodes[d] && lists[d] != []
      ensures last == lists[d][|lists[d]| - 1]
    {
      assert InodeOk(d);
      last := dir.first;
      ghost var k := 0;
      while last.next != null
        invariant k < |lists[d]| && last == lists[d][k]
        invariant EntryOk(d, k)
        decreases |lists[d]| - k
      {
        last := last.next;
        k := k + 1;
      }
    }

    method CountLink(ino: Inode, ghost i: nat)
      requires Valid() && i < |nodes| && ino == nodes[i]
      modifies this`view, ino`nlink
      ensures Valid() && view == old(view)[i := old(view)[i].(nlink := (old(view)[i].nlink + 1) % 0x10000)]
    {
      assert InodeOk(i);
      ino.nlink := (ino.nlink + 1) % 0x10000;
      view := view[i := view[i].(nlink := ino.nlink)];
      forall j | 0 <= j < |nodes| ensures InodeOk(j) {
        assert old(InodeOk(j));
      }
      forall j, k | 0 <= j < |nodes| && 0 <= k < |lists[j]| ensures EntryOk(j, k) {
        assert old(EntryOk(j, k));
      }
    }

    /** `de` becomes the last entry of the list. */
    method Link(dir: Inode, ghost d: nat, de: Dentry, ghost e: D.Entry)
      requires Valid() && d < |nodes| && dir == nodes[d] && de !in repr
      requires de.dir == d && de.place == |lists[d]| && de.next == null
      requires de.name == e.name && IsCString(e.name) && e.ino < |nodes| && de.ino == nodes[e.ino]
      modifies this`lists, this`view, this`repr, repr
      ensures Valid() && repr == old(repr) + {de}
      ensures view == old(view)[d := old(view)[d].(entries := old(view)[d].entries + [e])]
    {
      assert InodeOk(d);
      if dir.first == null {
        dir.first := de;
      } else {
        var last := Last(dir, d);
        assert EntryOk(d, |lists[d]| - 1);
        last.next := de;
      }
      lists := lists[d := lists[d] + [de]];
      view := view[d := view[d].(entries := view[d].entries + [e])];
      repr := repr + {de};
      forall j | 0 <= j < |nodes| ensures InodeOk(j) {
        assert old(InodeOk(j));
      }
      forall j, k | 0 <= j < |nodes| && 0 <= k < |lists[j]| ensures EntryOk(j, k) {
        assert j != d || k < |old(lists)[d]| ==> old(EntryOk(j, k));
      }
    }

    /** `add_to_dir` */
    method AddToDir(dir: Inode, ghost d: nat, name: string, ino: Inode, ghost i: nat)
      requires Valid() && d < |nodes| && dir == nodes[d] && i < |nodes| && ino == nodes[i]
      requires IsCString(name)
      modifies this`lists, this`view, this`repr, repr
      ensures Valid() && fresh(repr - old(repr)) && old(repr) <= repr
      ensures view == D.AddToDir(old(view), d, name, i)
    {
      var de := new Dentry(name, ino, d, |lists[d]|);
      assert InodeOk(i);
      CountLink(ino, i);
      Link(dir, d, de, D.Entry(name, i));
    }

    /** `tmpfs_lookup` */
    method Lookup(dir: Inode, ghost d: nat, name: string) returns (de: Dentry?)
      requires Valid() && d < |nodes| && dir == nodes[d] && IsCString(name)
      ensures var k := D.Find(view[d].entries, name, 0);
              de == if k < |lists[d]| then lists[d][k] else null
      ensures D.Lookup(view, d, name) == if de == null then None else Some(de.ino.number)
    {
      assert InodeOk(d);
      de := dir.first;
      ghost var k := 0;
      while de != null
        invariant k <= |lists[d]| && de == if k < |lists[d]| then lists[d][k] else null
        invariant D.Find(view[d].entries, name, 0) == D.Find(view[d].entries, name, k)
        decreases |lists[d]| - k
      {
        assert EntryOk(d, k);
        var diff := Strcmp(de.name, name);
        if diff == 0 {
          assert InodeOk(view[d].entries[k].ino);
          return;
        }
        de := de.next;
        k := k + 1;
      }
    }

    /** The branch of `tmpfs_create` for directories. */
    method MakeDirectory(dir: Inode, ghost d: nat, name: string, mode: nat)
      requires Valid() && d < |nodes| && dir == nodes[d] && IsCString(name) && D.TypeOf(mode) == D.DIR
      requires !D.Exists(view, d, name)
      modifies this, repr
      ensures Valid() && fresh(repr - old(repr)) && old(repr) <= repr && old(nodes) <= nodes
      ensures (view, 0) == D.Create(old(view), d, name, mode)
    {
      var sub := NewInode(mode);
      ghost var n := |view| - 1;
      AddToDir(sub, n, ".", sub, n);
      AddToDir(sub, n, "..", dir, d);
      AddToDir(dir, d, name, sub, n);
    }

    /** `tmpfs_create` */
    method Create(dir: Inode, ghost d: nat, name: string, mode: nat) returns (code: int)
      requires Valid() && d < |nodes| && dir == nodes[d] && IsCString(name)
      modifies this, repr
      ensures Valid() && fresh(repr - old(repr)) && old(repr) <= repr && old(nodes) <= nodes
      ensures (view, code) == D.Create(old(view), d, name, mode)
      ensures D.IsCreated(old(view), view, d, name, mode, code)
    {
      D.CreateCreates(view, d, name, mode);
      hide D.IsCreated;
      var de := Lookup(dir, d, name);
      if de != null {
        return -D.EEXIST;
      }
      var kind := D.TypeOf(mode);
      if kind == D.REG || kind == D.CHR || kind == D.BLK {
        var nod := NewInode(mode);
        AddToDir(dir, d, name, nod, |view| - 1);
        return 0;
      } else if kind == D.DIR {
        MakeDirectory(dir, d, name, mode);
        return 0;
      } else {
        return -D.EPERM;
      }
    }

    /** `tmpfs_readdir`: as many names as fit, in the order of their creation. */
    method Readdir(dir: Inode, ghost d: nat, names: array<string>, n: nat) returns (count: nat)
      requires Valid() && d < |nodes| && dir == nodes[d] && n <= names.Length && names !in repr
      modifies names
      ensures count == if n < |view[d].entries| then n else |view[d].entries|
      ensures forall k :: 0 <= k < count ==> names[k] == view[d].entries[k].name
      ensures names[count..] == old(names[count..])
    {
      assert InodeOk(d);
      count := 0;
      var de := dir.first;
      while de != null && count < n
        invariant count <= n && count <= |lists[d]|
        invariant de == if count < |lists[d]| then lists[d][count] else null
        invariant forall k :: 0 <= k < count ==> names[k] == view[d].entries[k].name
        invariant forall k :: count <= k < names.Length ==> names[k] == old(names[k])
        decreases |lists[d]| - count
      {
        assert EntryOk(d, count);
        names[count] := de.name;
        count := count + 1;
        de := de.next;
      }
      assert InodeOk(d);
    }
  }
}
