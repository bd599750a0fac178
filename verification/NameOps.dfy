/** The directory operations of fs/namei.c, one call at a time.  new_inode's choice and
    whether a directory can get another block are parameters. */
module NameOps {
  import opened NameModel
  import opened NameSteps

  const EPERM: int := 1
  const ENOENT: int := 2
  const EEXIST: int := 17
  const ENOTDIR: int := 20
  const ENOSPC: int := 28
  const ENOTEMPTY: int := 39

  /** The name is in directory d and means i. */
  ghost predicate Has(s: Names, d: nat, name: Name, i: nat)
    requires d in s.nodes
  {
    i != 0 && exists k :: 0 <= k < |s.nodes[d].entries| && s.nodes[d].entries[k] == Entry(i, name)
  }

  /** Directory d gained the name, whatever map it was before; all other directories that are
      left are as they were. */
  ghost predicate Gained(s: Names, g: Names, d: nat, name: Name, i: nat)
    requires d in s.nodes && d in g.nodes
  {
    && (forall m: map<Name, nat> | Means(s.nodes[d].entries, m) :: name !in m && Means(g.nodes[d].entries, m[name := i]))
    && (forall x | x in s.nodes && x in g.nodes && x != d :: g.nodes[x].entries == s.nodes[x].entries)
  }

  /** Directory d lost the name; the other directories that are left are as they were. */
  ghost predicate Lost(s: Names, g: Names, d: nat, name: Name)
    requires d in s.nodes && d in g.nodes
  {
    && (forall m: map<Name, nat> | Means(s.nodes[d].entries, m) :: name in m && Means(g.nodes[d].entries, m - {name}))
    && (forall x | x in s.nodes && x in g.nodes && x != d :: g.nodes[x].entries == s.nodes[x].entries)
  }

  /** What mkdir leaves once the slot is found and the parent is given up. */
  lemma DirMade(s: Names, l: Lay, d: nat, k: nat, name: seq<byte>, n: nat)
    requires CanMake(s, l, d, k, name, n)
    ensures var g, m := Closed(MadeDir(s, d, k, name, n), d), MadeLay(l, d, Cut(name), k, n);
      && (d in g.nodes <==> !(s.nodes[d].nlinks == MAX_LINKS && d !in s.held))
      && (d in g.nodes ==> Tree(g, m) && IsDir(g, d) && Gained(s, g, d, Cut(name), n) && g.nodes[d].nlinks == (s.nodes[d].nlinks + 1) % 256)
      && n in g.nodes && g.nodes[n] == Node(Dir, [Entry(n, DOT), Entry(d, DOTDOT)], 2)
      && (Inv(s, l) ==> (Inv(g, m) <==> s.nodes[d].nlinks < MAX_LINKS))
      && (Inv(s, l) && s.nodes[d].nlinks == MAX_LINKS ==> forall l' :: !Inv(g, l'))
  {
    MadeTree(s, l, d, k, name, n);
    PutGains(s, l, d, k, Entry(n, Cut(name)));
    if Inv(s, l) { MakeOk(s, l, d, k, name, n); }
  }

  /** No slot is free, and a new one would need another block. */
  predicate NoRoom(s: Names, d: nat)
    requires d in s.nodes
  {
    |s.nodes[d].entries| % PER_BLOCK == 0 && forall j | 0 <= j < |s.nodes[d].entries| :: s.nodes[d].entries[j].ino != 0
  }

  lemma PutGains(s: Names, l: Lay, d: nat, k: nat, e: Entry)
    requires Tree(s, l) && d in s.nodes && k <= |s.nodes[d].entries| && (k < |s.nodes[d].entries| ==> s.nodes[d].entries[k].ino == 0)
    requires e.ino != 0 && NoName(s.nodes[d].entries, e.name)
    ensures Gained(s, Put(s, d, k, e), d, e.name, e.ino)
  {
    forall m: map<Name, nat> | Means(s.nodes[d].entries, m)
      ensures e.name !in m && Means(WithEntry(s.nodes[d].entries, k, e), m[e.name := e.ino])
    {
      MeansAdded(s.nodes[d].entries, m, k, e);
    }
  }

  lemma PutLoses(s: Names, l: Lay, d: nat, k: nat)
    requires Tree(s, l) && d in s.nodes && k < |s.nodes[d].entries| && s.nodes[d].entries[k].ino != 0
    ensures Lost(s, Put(s, d, k, s.nodes[d].entries[k].(ino := 0)), d, s.nodes[d].entries[k].name)
  {
    var m0 := DirIsMap(s, l, d);
    forall m: map<Name, nat> | Means(s.nodes[d].entries, m)
      ensures s.nodes[d].entries[k].name in m && Means(WithEntry(s.nodes[d].entries, k, s.nodes[d].entries[k].(ino := 0)), m - {s.nodes[d].entries[k].name})
    {
      MeansRemoved(s.nodes[d].entries, m, k);
    }
  }

  lemma HasUnique(s: Names, l: Lay, d: nat, name: Name, k: nat)
    requires Tree(s, l) && d in s.nodes && k < |s.nodes[d].entries| && s.nodes[d].entries[k].ino != 0 && s.nodes[d].entries[k].name == name
    ensures Has(s, d, name, s.nodes[d].entries[k].ino) && forall i | Has(s, d, name, i) :: i == s.nodes[d].entries[k].ino
  {
    var m := DirIsMap(s, l, d);
  }

  /** Freeing another inode takes no name away from the directory. */
  lemma StillGained(s: Names, g: Names, d: nat, name: Name, i: nat, x: nat)
    requires IsDir(s, d) && IsDir(g, d) && x in g.nodes && x != d && Gained(s, g, d, name, i)
    ensures IsDir(Closed(g, x), d) && Gained(s, Closed(g, x), d, name, i)
  {
  }

  class FileSystem {
    var nodes: map<nat, Node>
    const held: set<nat>             // inodes that others have in use
    ghost var lay: Lay

    function Snap(): Names
      reads this
    {
      Names(nodes, held)
    }

    /** The directories are well formed, though link counts may have wrapped. */
    ghost predicate Formed()
      reads this
    {
      Tree(Snap(), lay)
    }

    ghost predicate Valid()
      reads this
    {
      Inv(Snap(), lay)
    }

    /** find_entry: the slot of the name, -1 if there is none. */
    method FindEntry(d: nat, name: seq<byte>) returns (k: int)
      requires Formed() && IsDir(Snap(), d) && UserName(name)
      ensures -1 <= k < |nodes[d].entries|
      ensures k >= 0 ==> nodes[d].entries[k].ino != 0 && nodes[d].entries[k].name == Cut(name)
      ensures k >= 0 ==> Has(Snap(), d, Cut(name), nodes[d].entries[k].ino)
      ensures k == -1 ==> NoName(nodes[d].entries, Cut(name))
    {
      var namelen := if |name| > NAME_LEN then NAME_LEN else |name|;
      var es := nodes[d].entries;
      assert DirOk(Snap(), lay, d);
      k := 0;
      while k < |es|
        invariant 0 <= k <= |es| && forall j | 0 <= j < k && es[j].ino != 0 :: es[j].name != Cut(name)
      {
        assert EntryOk(Snap(), lay, d, k);
        MatchIff(name, es[k]);
        if Match(namelen, name, es[k]) {
          HasUnique(Snap(), lay, d, Cut(name), k);
          return;
        }
        k := k + 1;
      }
      k := -1;
    }

    /** add_entry: the first free slot, or one behind the last; -1 if the directory would
        need another block and cannot get it. */
    method AddEntry(d: nat, name: seq<byte>, canGrow: bool) returns (k: int)
      requires Formed() && IsDir(Snap(), d) && UserName(name)
      ensures -1 <= k <= |nodes[d].entries|
      ensures 0 <= k < |nodes[d].entries| ==> nodes[d].entries[k].ino == 0
      ensures k >= 0 ==> forall j | 0 <= j < k :: nodes[d].entries[j].ino != 0
      ensures k == -1 <==> !canGrow && NoRoom(Snap(), d)
    {
      var es := nodes[d].entries;
      assert DirOk(Snap(), lay, d);
      k := 0;
      while k < |es| && es[k].ino != 0
        invariant 0 <= k <= |es| && forall j | 0 <= j < k :: es[j].ino != 0
      {
        k := k + 1;
      }
      if k == |es| && k % PER_BLOCK == 0 && !canGrow {
        k := -1;
      }
    }

    /** The entry that add_entry found is filled in and counted: the common end of link,
        create and symlink. */
    method Enter(d: nat, k: nat, name: seq<byte>, i: nat)
      requires CanLink(Snap(), lay, d, k, name, i)
      modifies this
      ensures Snap() == Linked(old(Snap()), d, k, name, i) && lay == PlacedAt(old(lay), d, Cut(name), k)
      ensures IsDir(Snap(), d) && Gained(old(Snap()), Snap(), d, Cut(name), i)
    {
      PutGains(Snap(), lay, d, k, Entry(i, Cut(name)));
      ghost var s, l := Snap(), lay;
      assert d != i;
      nodes := nodes[d := nodes[d].(entries := WithEntry(nodes[d].entries, k, Entry(i, Cut(name))))];
      nodes := nodes[i := nodes[i].(nlinks := More(nodes[i].nlinks))];
      lay := PlacedAt(l, d, Cut(name), k);
    }

    /** sys_link, with the iput at its end.  At 255 links the count wraps to 0 and an inode
        that nobody has open is freed, although 256 entries name it. */
    method Link(i: nat, d: nat, name: seq<byte>, canGrow: bool) returns (r: int)
      requires Formed() && i in nodes && IsDir(Snap(), d) && UserName(name)
      modifies this
      ensures r in {0, -EPERM, -EEXIST, -ENOSPC}
      ensures r != 0 ==> Snap() == old(Snap()) && lay == old(lay)
      ensures r == -EPERM <==> old(IsDir(Snap(), i))
      ensures r == -EEXIST ==> exists j :: Has(Snap(), d, Cut(name), j)
      ensures r == -ENOSPC ==> !canGrow && old(NoRoom(Snap(), d))
      ensures r == 0 ==> IsDir(Snap(), d) && Gained(old(Snap()), Snap(), d, Cut(name), i)
      ensures r == 0 ==> nodes.Keys == old(nodes.Keys) - if old(nodes[i].nlinks) == MAX_LINKS && i !in held then {i} else {}
      ensures r == 0 && i in nodes ==> nodes[i] == old(nodes[i]).(nlinks := (old(nodes[i].nlinks) + 1) % 256)
      ensures r == 0 && old(Valid()) ==> (Valid() <==> old(nodes[i].nlinks) < MAX_LINKS)
      ensures r == 0 && old(Valid()) && old(nodes[i].nlinks) == MAX_LINKS ==> forall l :: !Inv(Snap(), l)
    {
      if nodes[i].kind.Dir? {
        return -EPERM;
      }
      var k := FindEntry(d, name);
      if k >= 0 {
        return -EEXIST;
      }
      k := AddEntry(d, name, canGrow);
      if k < 0 {
        return -ENOSPC;
      }
      ghost var s, l := Snap(), lay;
      assert CanLink(s, l, d, k, name, i);
      Enter(d, k, name, i);
      ghost var g := Snap();
      Put(i);
      assert Snap() == Closed(Linked(s, d, k, name, i), i);
      StillGained(s, g, d, Cut(name), i, i);
      if Inv(s, l) { LinkOk(s, l, d, k, name, i); }
      r := 0;
    }

    /** The creating half of open_namei and the end of sys_symlink: n is the inode that
        new_inode found, 0 for none.  If no entry can be made the inode is freed again. */
    method Create(d: nat, name: seq<byte>, kind: Kind, n: nat, canGrow: bool) returns (r: int)
      requires Formed() && IsDir(Snap(), d) && UserName(name) && !kind.Dir? && n !in nodes
      modifies this
      ensures Formed() && (old(Valid()) ==> Valid()) && r in {0, -EEXIST, -ENOSPC}
      ensures r != 0 ==> Snap() == old(Snap())
      ensures r == -EEXIST <==> old(exists j :: Has(Snap(), d, Cut(name), j))
      ensures r == -ENOSPC ==> n == 0 || (!canGrow && old(NoRoom(Snap(), d)))
      ensures r == 0 ==> IsDir(Snap(), d) && Gained(old(Snap()), Snap(), d, Cut(name), n)
      ensures r == 0 ==> n in nodes && nodes[n] == Node(kind, [], 1)
    {
      ghost var s := Snap();
      var k := FindEntry(d, name);
      if k >= 0 {
        return -EEXIST;
      }
      if n == 0 {
        return -ENOSPC;
      }
      k := AddEntry(d, name, canGrow);
      if k < 0 {
        return -ENOSPC;
      }
      NodeAddedOk(s, lay, n, kind);
      nodes := nodes[n := Node(kind, [], 0)];
      LinkedTree(Snap(), lay, d, k, name, n);
      if Inv(Snap(), lay) { LinkOk(Snap(), lay, d, k, name, n); }
      Enter(d, k, name, n);
      r := 0;
    }

    /** iput: what it does with an inode that nobody else uses. */
    method Put(i: nat)
      requires i in nodes
      modifies this`nodes
      ensures Snap() == Closed(old(Snap()), i)
      ensures old(Valid()) && !old(IsDir(Snap(), i)) ==> Valid()
    {
      if nodes[i].nlinks == 0 && i !in held {
        ghost var s := Snap();
        if Inv(s, lay) && !IsDir(s, i) { DropOk(s, lay, i); }
        nodes := nodes - {i};
      }
    }

    /** sys_unlink; noLink is its message about a file without links, which only a count that
        has wrapped can bring about. */
    method Unlink(d: nat, name: seq<byte>) returns (r: int, noLink: bool)
      requires Formed() && IsDir(Snap(), d) && UserName(name)
      modifies this
      ensures old(Valid()) ==> Valid() && !noLink
      ensures r in {0, -ENOENT, -EPERM} && (r != 0 ==> Snap() == old(Snap()) && !noLink)
      ensures r == -ENOENT <==> !old(exists j :: Has(Snap(), d, Cut(name), j))
      ensures r == -EPERM <==> old(exists j :: Has(Snap(), d, Cut(name), j) && IsDir(Snap(), j))
      ensures r == 0 ==> IsDir(Snap(), d) && Lost(old(Snap()), Snap(), d, Cut(name))
      ensures r == 0 ==> forall j | old(Has(Snap(), d, Cut(name), j)) ::
        j in old(nodes) && (noLink <==> old(nodes)[j].nlinks == 0) && Counts(old(Snap()), Snap(), j)
    {
      ghost var s := Snap();
      noLink := false;
      var k := FindEntry(d, name);
      if k < 0 {
        return -ENOENT, false;
      }
      var i := nodes[d].entries[k].ino;
      HasUnique(s, lay, d, Cut(name), k);
      assert DirOk(s, lay, d) && EntryOk(s, lay, d, k);
      if nodes[i].kind.Dir? {
        return -EPERM, false;
      }
      UnlinkOk(s, lay, d, k);
      PutLoses(s, lay, d, k);
      noLink := RemoveEntry(d, k, i);
      Put(i);
      r := 0;
    }

    // namei.c:937-945
    method RemoveEntry(d: nat, k: nat, i: nat) returns (noLink: bool)
      requires IsDir(Snap(), d) && i in nodes && k < |nodes[d].entries| && nodes[d].entries[k].ino == i && i != d
      modifies this`nodes
      ensures Snap() == Unlinked(old(Snap()), d, k) && (noLink <==> old(nodes[i].nlinks) == 0)
    {
      noLink := nodes[i].nlinks == 0;
      if noLink {
        nodes := nodes[i := nodes[i].(nlinks := 1)];
      }
      nodes := nodes[d := nodes[d].(entries := WithEntry(nodes[d].entries, k, nodes[d].entries[k].(ino := 0)))];
      nodes := nodes[i := nodes[i].(nlinks := nodes[i].nlinks - 1)];
    }

    /** The inode lost a link, and is gone with its last unless somebody uses it. */
    ghost predicate Counts(s: Names, g: Names, j: nat)
      requires j in s.nodes
    {
      if s.nodes[j].nlinks <= 1 && j !in s.held then j !in g.nodes
      else j in g.nodes && g.nodes[j] == s.nodes[j].(nlinks := if s.nodes[j].nlinks == 0 then 0 else s.nodes[j].nlinks - 1)
    }

    /** sys_mkdir, with the iput of the parent at its end: n and gotBlock are what new_inode
        and new_block find.  At 255 links the parent's count wraps to 0. */
    method Mkdir(d: nat, name: seq<byte>, n: nat, gotBlock: bool, canGrow: bool) returns (r: int)
      requires Formed() && IsDir(Snap(), d) && UserName(name) && n !in nodes
      modifies this
      ensures r in {0, -EEXIST, -ENOSPC}
      ensures r != 0 ==> Snap() == old(Snap()) && lay == old(lay)
      ensures r == -EEXIST <==> old(exists j :: Has(Snap(), d, Cut(name), j))
      ensures r == -ENOSPC ==> n == 0 || !gotBlock || (!canGrow && old(NoRoom(Snap(), d)))
      ensures r == 0 ==> (d in nodes <==> !(old(nodes[d].nlinks) == MAX_LINKS && d !in held))
      ensures r == 0 && d in nodes ==> IsDir(Snap(), d) && Gained(old(Snap()), Snap(), d, Cut(name), n)
      ensures r == 0 && d in nodes ==> nodes[d].nlinks == (old(nodes[d].nlinks) + 1) % 256
      ensures r == 0 ==> n in nodes && nodes[n] == Node(Dir, [Entry(n, DOT), Entry(d, DOTDOT)], 2)
      ensures r == 0 && old(Valid()) ==> (Valid() <==> old(nodes[d].nlinks) < MAX_LINKS)
      ensures r == 0 && old(Valid()) && old(nodes[d].nlinks) == MAX_LINKS ==> forall l :: !Inv(Snap(), l)
    {
      var k := FindEntry(d, name);
      if k >= 0 {
        return -EEXIST;
      }
      if n == 0 || !gotBlock {
        return -ENOSPC;
      }
      k := AddEntry(d, name, canGrow);
      if k < 0 {
        return -ENOSPC;
      }
      ghost var s, l := Snap(), lay;
      DirMade(s, l, d, k, name, n);
      EnterDir(d, k, name, n);
      Put(d);
      lay := MadeLay(l, d, Cut(name), k, n);
      r := 0;
    }

    // namei.c:748-766
    method EnterDir(d: nat, k: nat, name: seq<byte>, n: nat)
      requires d in nodes && k <= |nodes[d].entries| && n != d
      modifies this`nodes
      ensures Snap() == MadeDir(old(Snap()), d, k, name, n)
    {
      nodes := nodes[n := Node(Dir, [Entry(n, DOT), Entry(d, DOTDOT)], 2)];
      nodes := nodes[d := nodes[d].(entries := WithEntry(nodes[d].entries, k, Entry(n, Cut(name))))];
      nodes := nodes[d := nodes[d].(nlinks := More(nodes[d].nlinks))];
    }

    /** empty_dir; bad stands for its message about a bad directory. */
    method EmptyDir(i: nat) returns (yes: bool, bad: bool)
      requires Formed() && IsDir(Snap(), i)
      ensures !bad && (yes <==> Empty(Snap(), i))
    {
      var es := nodes[i].entries;
      assert DirOk(Snap(), lay, i) && EntryOk(Snap(), lay, i, 0) && EntryOk(Snap(), lay, i, 1);
      bad := |es| < 2 || es[0].ino != i || es[1].ino == 0 || es[0].name != DOT || es[1].name != DOTDOT;
      if bad {
        return false, true;
      }
      var nr := 2;
      while nr < |es|
        invariant 2 <= nr <= |es| && forall k | 2 <= k < nr :: es[k].ino == 0
      {
        if es[nr].ino != 0 {
          return false, false;
        }
        nr := nr + 1;
      }
      yes := true;
    }

    /** sys_rmdir, with the iput of the parent at its end; oddCount is its message about an
        empty directory without two links. */
    method Rmdir(d: nat, name: seq<byte>) returns (r: int, oddCount: bool)
      requires Formed() && IsDir(Snap(), d) && UserName(name)
      modifies this
      ensures old(Valid()) ==> Valid() && !oddCount && d in nodes
      ensures r in {0, -ENOENT, -EPERM, -ENOTDIR, -ENOTEMPTY}
      ensures r != 0 ==> Snap() == old(Snap()) && !oddCount
      ensures r == -ENOENT <==> !old(exists j :: Has(Snap(), d, Cut(name), j))
      ensures r == -EPERM <==> old(exists j :: Has(Snap(), d, Cut(name), j) && (j in held || j == d))
      ensures r == -ENOTDIR ==> old(exists j :: Has(Snap(), d, Cut(name), j) && !IsDir(Snap(), j))
      ensures r == -ENOTEMPTY ==> old(exists j :: Has(Snap(), d, Cut(name), j) && IsDir(Snap(), j) && !Empty(Snap(), j))
      ensures r == 0 ==> old(exists j :: Has(Snap(), d, Cut(name), j) && IsDir(Snap(), j) && Empty(Snap(), j))
      ensures r == 0 ==> (d in nodes <==> !(old(nodes[d].nlinks) == 1 && d !in held))
      ensures r == 0 && d in nodes ==> IsDir(Snap(), d) && Lost(old(Snap()), Snap(), d, Cut(name)) && nodes[d].nlinks == (old(nodes[d].nlinks) + 255) % 256
      ensures r == 0 ==> forall j | old(Has(Snap(), d, Cut(name), j)) ::
        && j in old(nodes) && (oddCount <==> old(nodes)[j].nlinks != 2)
        && nodes.Keys == old(nodes.Keys) - {j} - if d in nodes then {} else {d}
    {
      ghost var s, l := Snap(), lay;
      oddCount := false;
      var k := FindEntry(d, name);
      if k < 0 {
        return -ENOENT, false;
      }
      var i := nodes[d].entries[k].ino;
      HasUnique(s, l, d, Cut(name), k);
      assert DirOk(s, l, d) && EntryOk(s, l, d, k);
      if i in held || i == d {
        return -EPERM, false;
      }
      if !nodes[i].kind.Dir? {
        return -ENOTDIR, false;
      }
      var empty, bad := EmptyDir(i);
      if !empty {
        return -ENOTEMPTY, false;
      }
      oddCount := nodes[i].nlinks != 2;
      RemoveEmpty(d, k, i);
      r := 0;
    }

    // namei.c:882-891
    method RemoveEmpty(d: nat, k: nat, i: nat)
      requires CanRemove(Snap(), lay, d, k) && nodes[d].entries[k].ino == i && i !in held
      modifies this`nodes
      ensures old(Valid()) ==> Valid() && d in nodes && old(nodes[i].nlinks) == 2
      ensures d in nodes <==> !(old(nodes[d].nlinks) == 1 && d !in held)
      ensures d in nodes ==> IsDir(Snap(), d) && Lost(old(Snap()), Snap(), d, old(nodes[d].entries[k].name)) && nodes[d].nlinks == (old(nodes[d].nlinks) + 255) % 256
      ensures nodes.Keys == old(nodes.Keys) - {i} - if d in nodes then {} else {d}
    {
      RemoveOk(Snap(), lay, d, k);
      PutLoses(Snap(), lay, d, k);
      LeaveDir(d, k, i);
      Put(d);
    }

    // namei.c:882-889
    method LeaveDir(d: nat, k: nat, i: nat)
      requires d in nodes && k < |nodes[d].entries| && nodes[d].entries[k].ino == i && i != d
      modifies this`nodes
      ensures Snap() == RemovedDir(old(Snap()), d, k)
    {
      nodes := nodes[d := nodes[d].(entries := WithEntry(nodes[d].entries, k, nodes[d].entries[k].(ino := 0)))];
      nodes := nodes[d := nodes[d].(nlinks := Fewer(nodes[d].nlinks))];
      nodes := nodes - {i};
    }
  }
}
