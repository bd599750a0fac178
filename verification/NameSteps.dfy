/** What link, unlink, create, mkdir and rmdir do to directories and link counts. */
module NameSteps {
  import opened NameModel

  // ---- one entry is written -------------------------------------------------------------------------

  function WithEntry(es: seq<Entry>, k: nat, e: Entry): seq<Entry>
    requires k <= |es|
  {
    if k < |es| then es[k := e] else es + [e]
  }

  function Put(s: Names, d: nat, k: nat, e: Entry): Names
    requires d in s.nodes && k <= |s.nodes[d].entries|
  {
    s.(nodes := s.nodes[d := s.nodes[d].(entries := WithEntry(s.nodes[d].entries, k, e))])
  }

  function Counted(s: Names, i: nat, n: Links): Names
    requires i in s.nodes
  {
    s.(nodes := s.nodes[i := s.nodes[i].(nlinks := n)])
  }

  lemma RefsPut(s: Names, d: nat, k: nat, e: Entry, i: nat)
    requires d in s.nodes && k <= |s.nodes[d].entries|
    ensures Refs(Put(s, d, k, e), i) == Refs(s, i) - {(d, k)} + if e.ino == i then {(d, k)} else {}
  {
  }

  lemma RefsCounted(s: Names, i: nat, n: Links, j: nat)
    requires i in s.nodes
    ensures Refs(Counted(s, i, n), j) == Refs(s, j)
  {
  }

  /** One entry written: one reference more to what it names now, one less to what it named
      before. */
  lemma RefsCount(s: Names, d: nat, k: nat, e: Entry, c: nat, n: Links, i: nat)
    requires d in s.nodes && k <= |s.nodes[d].entries| && c in s.nodes
    ensures |Refs(Counted(Put(s, d, k, e), c, n), i)| ==
      |Refs(s, i)| + (if e.ino == i then 1 else 0) - if k < |s.nodes[d].entries| && s.nodes[d].entries[k].ino == i then 1 else 0
  {
    RefsPut(s, d, k, e, i);
    RefsCounted(Put(s, d, k, e), c, n, i);
    assert (d, k) in Refs(s, i) <==> k < |s.nodes[d].entries| && s.nodes[d].entries[k].ino == i;
    SwapCount(Refs(s, i), (d, k), e.ino == i);
  }

  lemma SwapCount(r: set<(nat, nat)>, p: (nat, nat), there: bool)
    ensures |r - {p} + if there then {p} else {}| == |r| + (if there then 1 else 0) - if p in r then 1 else 0
  {
    if p in r {
      assert r == (r - {p}) + {p};
    } else {
      assert r - {p} == r;
    }
    if !there {
      assert r - {p} + {} == r - {p};
    }
  }

  /** The map gains the name. */
  lemma MeansAdded(es: seq<Entry>, m: map<Name, nat>, k: nat, e: Entry)
    requires Means(es, m) && k <= |es| && (k < |es| ==> es[k].ino == 0) && e.ino != 0 && e.name !in m
    ensures Means(WithEntry(es, k, e), m[e.name := e.ino])
  {
    var fs, n := WithEntry(es, k, e), m[e.name := e.ino];
    forall x | x in n
      ensures exists j :: 0 <= j < |fs| && fs[j].ino == n[x] != 0 && fs[j].name == x
    {
      if x == e.name {
        assert fs[k].name == x;
      } else {
        var j :| 0 <= j < |es| && es[j].ino == m[x] != 0 && es[j].name == x;
        assert fs[j].name == x;
      }
    }
  }

  /** The map loses the name. */
  lemma MeansRemoved(es: seq<Entry>, m: map<Name, nat>, k: nat)
    requires Means(es, m) && k < |es| && es[k].ino != 0 && Only(es, k)
    ensures Means(WithEntry(es, k, es[k].(ino := 0)), m - {es[k].name})
  {
    var fs, n := WithEntry(es, k, es[k].(ino := 0)), m - {es[k].name};
    forall x | x in n
      ensures exists j :: 0 <= j < |fs| && fs[j].ino == n[x] != 0 && fs[j].name == x
    {
      var j :| 0 <= j < |es| && es[j].ino == m[x] != 0 && es[j].name == x;
      assert fs[j].name == x;
    }
  }

  ghost predicate NoName(es: seq<Entry>, name: Name) { forall j | 0 <= j < |es| && es[j].ino != 0 :: es[j].name != name }

  /** A free slot of directory d for a new name. */
  ghost predicate CanAdd(s: Names, l: Lay, d: nat, k: nat, name: seq<byte>) {
    && Tree(s, l) && IsDir(s, d) && k <= |s.nodes[d].entries| && (k < |s.nodes[d].entries| ==> s.nodes[d].entries[k].ino == 0)
    && UserName(name) && NoName(s.nodes[d].entries, Cut(name))
  }

  function PlacedAt(l: Lay, d: nat, name: Name, k: nat): Lay {
    l.(at := l.at[d := (if d in l.at then l.at[d] else map[])[name := k]])
  }

  lemma SlotBehindDots(s: Names, l: Lay, d: nat, k: nat, name: seq<byte>)
    requires CanAdd(s, l, d, k, name)
    ensures k >= 2 && DirOk(s, l, d)
  {
    assert DirOk(s, l, d) && EntryOk(s, l, d, 0);
  }

  // ---- link --------------------------------------------------------------------------------------------

  ghost predicate CanLink(s: Names, l: Lay, d: nat, k: nat, name: seq<byte>, i: nat) {
    CanAdd(s, l, d, k, name) && i in s.nodes && !IsDir(s, i)
  }

  /** A name for inode i, which is no directory; its count goes up. */
  function Linked(s: Names, d: nat, k: nat, name: seq<byte>, i: nat): Names
    requires d in s.nodes && k <= |s.nodes[d].entries| && i in s.nodes
  {
    Counted(Put(s, d, k, Entry(i, Cut(name))), i, More(s.nodes[i].nlinks))
  }

  lemma LinkedParent(s: Names, l: Lay, d: nat, k: nat, name: seq<byte>, i: nat, y: nat)
    requires CanLink(s, l, d, k, name, i)
    ensures IsDir(Linked(s, d, k, name, i), y) == IsDir(s, y)
    ensures IsDir(s, y) ==> Parent(Linked(s, d, k, name, i), y) == Parent(s, y)
  {
    SlotBehindDots(s, l, d, k, name);
    if IsDir(s, y) { assert DirOk(s, l, y); }
  }

  lemma LinkedEntry(s: Names, l: Lay, d: nat, k: nat, name: seq<byte>, i: nat, x: nat, j: nat)
    requires CanLink(s, l, d, k, name, i) && x in s.nodes && j < |Linked(s, d, k, name, i).nodes[x].entries|
    ensures EntryOk(Linked(s, d, k, name, i), PlacedAt(l, d, Cut(name), k), x, j)
  {
    SlotBehindDots(s, l, d, k, name);
    CutPadded(name);
    LinkedParent(s, l, d, k, name, i, Linked(s, d, k, name, i).nodes[x].entries[j].ino);
    if !(x == d && j == k) {
      assert DirOk(s, l, x) && EntryOk(s, l, x, j);
    }
  }

  lemma LinkedDirs(s: Names, l: Lay, d: nat, k: nat, name: seq<byte>, i: nat, x: nat)
    requires CanLink(s, l, d, k, name, i) && x in s.nodes
    ensures DirOk(Linked(s, d, k, name, i), PlacedAt(l, d, Cut(name), k), x)
  {
    SlotBehindDots(s, l, d, k, name);
    assert DirOk(s, l, x);
    var g, m := Linked(s, d, k, name, i), PlacedAt(l, d, Cut(name), k);
    LinkedParent(s, l, d, k, name, i, x);
    if IsDir(s, x) {
      LinkedParent(s, l, d, k, name, i, Parent(s, x));
      if x != ROOT_INO { assert DirOk(s, l, Parent(s, x)); }
    }
    forall j | 0 <= j < |g.nodes[x].entries|
      ensures EntryOk(g, m, x, j)
    {
      LinkedEntry(s, l, d, k, name, i, x, j);
    }
  }

  lemma LinkedTree(s: Names, l: Lay, d: nat, k: nat, name: seq<byte>, i: nat)
    requires CanLink(s, l, d, k, name, i)
    ensures Tree(Linked(s, d, k, name, i), PlacedAt(l, d, Cut(name), k))
  {
    var g, m := Linked(s, d, k, name, i), PlacedAt(l, d, Cut(name), k);
    LinkedParent(s, l, d, k, name, i, ROOT_INO);
    forall x | x in g.nodes
      ensures DirOk(g, m, x)
    {
      LinkedDirs(s, l, d, k, name, i, x);
    }
  }

  lemma LinkedRefs(s: Names, l: Lay, d: nat, k: nat, name: seq<byte>, i: nat, x: nat)
    requires CanLink(s, l, d, k, name, i) && x in s.nodes && CountOk(s, x)
    ensures |Refs(Linked(s, d, k, name, i), x)| == s.nodes[x].nlinks + if x == i then 1 else 0
  {
    RefsCount(s, d, k, Entry(i, Cut(name)), i, More(s.nodes[i].nlinks), x);
  }

  function Dropped(s: Names, i: nat): Names { s.(nodes := s.nodes - {i}) }

  /** iput, when nobody else has the inode: without a link it is freed. */
  function Closed(s: Names, i: nat): Names
    requires i in s.nodes
  {
    if s.nodes[i].nlinks == 0 && i !in s.held then Dropped(s, i) else s
  }

  /** Adding a link keeps every count right exactly if the count of the inode is below 255:
      from there it wraps to 0, and what the entries name is freed. */
  lemma LinkOk(s: Names, l: Lay, d: nat, k: nat, name: seq<byte>, i: nat)
    requires CanLink(s, l, d, k, name, i) && Inv(s, l)
    ensures s.nodes[i].nlinks < MAX_LINKS ==> Inv(Closed(Linked(s, d, k, name, i), i), PlacedAt(l, d, Cut(name), k))
    ensures s.nodes[i].nlinks == MAX_LINKS ==> forall l' :: !Inv(Closed(Linked(s, d, k, name, i), i), l')
  {
    var g, m := Linked(s, d, k, name, i), PlacedAt(l, d, Cut(name), k);
    LinkedTree(s, l, d, k, name, i);
    forall x | x in g.nodes
      ensures |Refs(g, x)| == s.nodes[x].nlinks + if x == i then 1 else 0
    {
      assert CountOk(s, x);
      LinkedRefs(s, l, d, k, name, i, x);
    }
    if s.nodes[i].nlinks < MAX_LINKS {
      forall x | x in g.nodes
        ensures CountOk(g, x)
      {
      }
    } else {
      assert |Refs(g, i)| == 256;
      assert !CountOk(g, i);
      NamedButGone(g, i, d, k);
    }
  }

  /** An inode that an entry names is missed. */
  lemma NamedButGone(s: Names, i: nat, d: nat, k: nat)
    requires i in s.nodes && d in s.nodes && d != i && i != 0 && k < |s.nodes[d].entries| && s.nodes[d].entries[k].ino == i
    ensures forall l :: !Tree(Dropped(s, i), l)
  {
    forall l
      ensures !Tree(Dropped(s, i), l)
    {
      var g := Dropped(s, i);
      assert g.nodes[d].entries[k].ino !in g.nodes;
      assert !EntryOk(g, l, d, k);
      assert !DirOk(g, l, d);
    }
  }

  // ---- a new file ------------------------------------------------------------------------------------------

  function NodeAdded(s: Names, n: nat, kind: Kind): Names { s.(nodes := s.nodes[n := Node(kind, [], 0)]) }

  lemma NodeAddedOk(s: Names, l: Lay, n: nat, kind: Kind)
    requires Tree(s, l) && n != 0 && n !in s.nodes && !kind.Dir?
    ensures Tree(NodeAdded(s, n, kind), l) && (Inv(s, l) ==> Inv(NodeAdded(s, n, kind), l))
  {
    var g := NodeAdded(s, n, kind);
    AddedDirs(s, l, n, Node(kind, [], 0));
    forall i | i in g.nodes
      ensures Inv(s, l) ==> CountOk(g, i)
    {
      AddedRefs(s, l, n, Node(kind, [], 0), i);
      assert Inv(s, l) && i != n ==> CountOk(s, i);
    }
  }

  /** Old directories do not care about a new inode. */
  lemma AddedDirs(s: Names, l: Lay, n: nat, node: Node)
    requires Tree(s, l) && n != 0 && n !in s.nodes
    ensures forall x | x in s.nodes :: DirOk(s.(nodes := s.nodes[n := node]), l, x)
  {
    var g := s.(nodes := s.nodes[n := node]);
    forall x | x in s.nodes
      ensures DirOk(g, l, x)
    {
      assert DirOk(s, l, x);
      forall j | 0 <= j < |g.nodes[x].entries|
        ensures EntryOk(g, l, x, j)
      {
        assert EntryOk(s, l, x, j);
      }
    }
  }

  lemma AddedRefs(s: Names, l: Lay, n: nat, node: Node, i: nat)
    requires Tree(s, l) && n != 0 && n !in s.nodes
    ensures Refs(s.(nodes := s.nodes[n := node]), i) == Refs(s, i) + set k | 0 <= k < |node.entries| && node.entries[k].ino == i :: (n, k)
    ensures i == n ==> Refs(s, i) == {}
  {
    forall d, k | d in s.nodes && 0 <= k < |s.nodes[d].entries|
      ensures s.nodes[d].entries[k].ino != n
    {
      assert DirOk(s, l, d) && EntryOk(s, l, d, k);
    }
  }

  // ---- unlink ---------------------------------------------------------------------------------------------------

  ghost predicate CanUnlink(s: Names, l: Lay, d: nat, k: nat) {
    && Tree(s, l) && IsDir(s, d) && k < |s.nodes[d].entries| && s.nodes[d].entries[k].ino != 0 && !IsDir(s, s.nodes[d].entries[k].ino)
  }

  function Unlinked(s: Names, d: nat, k: nat): Names
    requires d in s.nodes && k < |s.nodes[d].entries| && s.nodes[d].entries[k].ino in s.nodes
  {
    var e := s.nodes[d].entries[k];
    var c := s.nodes[e.ino].nlinks;
    Counted(Put(s, d, k, e.(ino := 0)), e.ino, if c > 0 then c - 1 else 0)
  }

  lemma UnlinkedDirs(s: Names, l: Lay, d: nat, k: nat, x: nat)
    requires CanUnlink(s, l, d, k) && s.nodes[d].entries[k].ino in s.nodes && x in s.nodes
    ensures DirOk(Unlinked(s, d, k), l, x)
  {
    assert DirOk(s, l, x) && DirOk(s, l, d) && EntryOk(s, l, d, k);
    var g := Unlinked(s, d, k);
    forall j | 0 <= j < |g.nodes[x].entries|
      ensures EntryOk(g, l, x, j)
    {
      assert EntryOk(s, l, x, j);
      if x == d && j == k { } else { UnlinkedParent(s, l, d, k, g.nodes[x].entries[j].ino); }
    }
    if IsDir(s, x) && x != ROOT_INO { assert DirOk(s, l, Parent(s, x)); }
  }

  lemma UnlinkedParent(s: Names, l: Lay, d: nat, k: nat, y: nat)
    requires CanUnlink(s, l, d, k) && s.nodes[d].entries[k].ino in s.nodes
    ensures IsDir(Unlinked(s, d, k), y) == IsDir(s, y)
    ensures IsDir(s, y) ==> Parent(Unlinked(s, d, k), y) == Parent(s, y)
  {
    if IsDir(s, y) { assert DirOk(s, l, y); }
  }

  /** The tree stays a tree; and if the counts were right they are, with one link to take. */
  lemma UnlinkOk(s: Names, l: Lay, d: nat, k: nat)
    requires CanUnlink(s, l, d, k)
    ensures s.nodes[d].entries[k].ino in s.nodes && Tree(Unlinked(s, d, k), l)
    ensures Inv(s, l) ==> Inv(Unlinked(s, d, k), l) && s.nodes[s.nodes[d].entries[k].ino].nlinks > 0
  {
    assert DirOk(s, l, d) && EntryOk(s, l, d, k);
    var e := s.nodes[d].entries[k];
    var g := Unlinked(s, d, k);
    UnlinkedParent(s, l, d, k, ROOT_INO);
    forall x | x in g.nodes
      ensures DirOk(g, l, x)
    {
      UnlinkedDirs(s, l, d, k, x);
    }
    if Inv(s, l) {
      assert CountOk(s, e.ino) && (d, k) in Refs(s, e.ino);
      forall x | x in g.nodes
        ensures CountOk(g, x)
      {
        assert CountOk(s, x);
        RefsCount(s, d, k, e.(ino := 0), e.ino, s.nodes[e.ino].nlinks - 1, x);
      }
    }
  }

  // ---- an inode goes away ----------------------------------------------------------------------------------------

  /** An inode that no entry names can be freed. */
  lemma DropOk(s: Names, l: Lay, i: nat)
    requires Inv(s, l) && i in s.nodes && s.nodes[i].nlinks == 0 && !IsDir(s, i)
    ensures Inv(Dropped(s, i), l)
  {
    var g := Dropped(s, i);
    assert CountOk(s, i) && DirOk(s, l, i);
    forall x | x in g.nodes
      ensures DirOk(g, l, x)
    {
      assert DirOk(s, l, x);
      forall j | 0 <= j < |g.nodes[x].entries|
        ensures EntryOk(g, l, x, j)
      {
        assert EntryOk(s, l, x, j);
        assert s.nodes[x].entries[j].ino == i ==> (x, j) in Refs(s, i);
      }
    }
    forall x | x in g.nodes
      ensures CountOk(g, x)
    {
      assert CountOk(s, x);
      assert Refs(g, x) == Refs(s, x);
    }
  }

  // ---- mkdir ---------------------------------------------------------------------------------------------------------

  function NewDir(n: nat, d: nat): seq<Entry> { [Entry(n, DOT), Entry(d, DOTDOT)] }

  /** A new directory n, entered in d. */
  function MadeDir(s: Names, d: nat, k: nat, name: seq<byte>, n: nat): Names
    requires d in s.nodes && k <= |s.nodes[d].entries| && n != d
  {
    var s1 := s.(nodes := s.nodes[n := Node(Dir, NewDir(n, d), 2)]);
    Counted(Put(s1, d, k, Entry(n, Cut(name))), d, More(s.nodes[d].nlinks))
  }

  function DotSlots(): map<Name, nat> { map[DOT := 0, DOTDOT := 1] }

  function MadeLay(l: Lay, d: nat, name: Name, k: nat, n: nat): Lay {
    var m := PlacedAt(l, d, name, k);
    m.(at := m.at[n := DotSlots()], home := m.home[n := k])
  }

  ghost predicate CanMake(s: Names, l: Lay, d: nat, k: nat, name: seq<byte>, n: nat) {
    CanAdd(s, l, d, k, name) && n != 0 && n !in s.nodes
  }

  lemma DotNames()
    ensures Padded(DOT) && Padded(DOTDOT) && DOT[0] != 0 && DOTDOT[0] != 0 && DOT != DOTDOT
  {
    assert DOT[1] == 0 && DOTDOT[1] == 46;
  }

  lemma MadeOldEntry(s: Names, l: Lay, d: nat, k: nat, name: seq<byte>, n: nat, x: nat, j: nat)
    requires CanMake(s, l, d, k, name, n) && x in s.nodes && j < |s.nodes[x].entries| && !(x == d && j == k)
    ensures var g := MadeDir(s, d, k, name, n);
      j < |g.nodes[x].entries| && EntryOk(g, MadeLay(l, d, Cut(name), k, n), x, j)
  {
    SlotBehindDots(s, l, d, k, name);
    assert DirOk(s, l, x) && EntryOk(s, l, x, j);
    var y := s.nodes[x].entries[j].ino;
    if IsDir(s, y) { assert DirOk(s, l, y); }
  }

  lemma MadeOldDir(s: Names, l: Lay, d: nat, k: nat, name: seq<byte>, n: nat, x: nat)
    requires CanMake(s, l, d, k, name, n) && x in s.nodes
    ensures DirOk(MadeDir(s, d, k, name, n), MadeLay(l, d, Cut(name), k, n), x)
  {
    SlotBehindDots(s, l, d, k, name);
    CutPadded(name);
    assert DirOk(s, l, x);
    var g, m := MadeDir(s, d, k, name, n), MadeLay(l, d, Cut(name), k, n);
    if IsDir(s, x) {
      assert IsDir(s, Parent(s, x)) && Parent(g, x) == Parent(s, x);
      if x != ROOT_INO { assert DirOk(s, l, Parent(s, x)); }
    }
    forall j | 0 <= j < |g.nodes[x].entries|
      ensures EntryOk(g, m, x, j)
    {
      if !(x == d && j == k) {
        MadeOldEntry(s, l, d, k, name, n, x, j);
      }
    }
  }

  lemma MadeNewDir(s: Names, l: Lay, d: nat, k: nat, name: seq<byte>, n: nat)
    requires CanMake(s, l, d, k, name, n)
    ensures DirOk(MadeDir(s, d, k, name, n), MadeLay(l, d, Cut(name), k, n), n)
  {
    SlotBehindDots(s, l, d, k, name);
    DotNames();
    var g, m := MadeDir(s, d, k, name, n), MadeLay(l, d, Cut(name), k, n);
    assert g.nodes[n].entries == NewDir(n, d) && IsDir(g, d);
    assert EntryOk(g, m, n, 0) && EntryOk(g, m, n, 1);
  }

  /** The new directory's own two entries. */
  lemma NewDirRefs(s: Names, l: Lay, d: nat, n: nat, x: nat)
    requires Tree(s, l) && n != 0 && n !in s.nodes && d in s.nodes && (x in s.nodes || x == n)
    ensures |Refs(s.(nodes := s.nodes[n := Node(Dir, NewDir(n, d), 2)]), x)| ==
      if x == n then 1 else |Refs(s, x)| + if x == d then 1 else 0
  {
    var node := Node(Dir, NewDir(n, d), 2);
    AddedRefs(s, l, n, node, x);
    var mine := set j | 0 <= j < |node.entries| && node.entries[j].ino == x :: (n, j);
    assert mine == if x == n then {(n, 0)} else if x == d then {(n, 1)} else {};
    assert Refs(s, x) !! mine;
  }

  lemma MadeRefs(s: Names, l: Lay, d: nat, k: nat, name: seq<byte>, n: nat, x: nat)
    requires CanMake(s, l, d, k, name, n) && Inv(s, l) && (x in s.nodes || x == n)
    ensures |Refs(MadeDir(s, d, k, name, n), x)| == if x == n then 2 else s.nodes[x].nlinks + if x == d then 1 else 0
  {
    var s1 := s.(nodes := s.nodes[n := Node(Dir, NewDir(n, d), 2)]);
    NewDirRefs(s, l, d, n, x);
    RefsCount(s1, d, k, Entry(n, Cut(name)), d, More(s.nodes[d].nlinks), x);
    if x != n { assert CountOk(s, x); }
  }

  lemma MadeTree(s: Names, l: Lay, d: nat, k: nat, name: seq<byte>, n: nat)
    requires CanMake(s, l, d, k, name, n)
    ensures Tree(MadeDir(s, d, k, name, n), MadeLay(l, d, Cut(name), k, n))
  {
    SlotBehindDots(s, l, d, k, name);
    assert DirOk(s, l, ROOT_INO);
    var g, m := MadeDir(s, d, k, name, n), MadeLay(l, d, Cut(name), k, n);
    forall x | x in g.nodes
      ensures DirOk(g, m, x)
    {
      if x == n { MadeNewDir(s, l, d, k, name, n); } else { MadeOldDir(s, l, d, k, name, n, x); }
    }
  }

  /** A new directory keeps every count right exactly if its parent's is below 255. */
  lemma MakeOk(s: Names, l: Lay, d: nat, k: nat, name: seq<byte>, n: nat)
    requires CanMake(s, l, d, k, name, n) && Inv(s, l)
    ensures s.nodes[d].nlinks < MAX_LINKS ==> Inv(Closed(MadeDir(s, d, k, name, n), d), MadeLay(l, d, Cut(name), k, n))
    ensures s.nodes[d].nlinks == MAX_LINKS ==> forall l' :: !Inv(Closed(MadeDir(s, d, k, name, n), d), l')
  {
    var g, m := MadeDir(s, d, k, name, n), MadeLay(l, d, Cut(name), k, n);
    MadeTree(s, l, d, k, name, n);
    forall x | x in g.nodes
      ensures |Refs(g, x)| == if x == n then 2 else s.nodes[x].nlinks + if x == d then 1 else 0
    {
      MadeRefs(s, l, d, k, name, n, x);
    }
    if s.nodes[d].nlinks < MAX_LINKS {
      forall x | x in g.nodes
        ensures CountOk(g, x)
      {
      }
    } else {
      assert |Refs(g, d)| == 256;
      assert !CountOk(g, d);
      assert g.nodes[n].entries[1].ino == d;
      NamedButGone(g, d, n, 1);
    }
  }

  // ---- rmdir ---------------------------------------------------------------------------------------------------------------

  /** Nothing but "." and "..". */
  ghost predicate Empty(s: Names, i: nat)
    requires IsDir(s, i)
  {
    forall k | 2 <= k < |s.nodes[i].entries| :: s.nodes[i].entries[k].ino == 0
  }

  ghost predicate CanRemove(s: Names, l: Lay, d: nat, k: nat) {
    && Tree(s, l) && IsDir(s, d) && k < |s.nodes[d].entries| && IsDir(s, s.nodes[d].entries[k].ino)
    && s.nodes[d].entries[k].ino != d && Empty(s, s.nodes[d].entries[k].ino)
  }

  function RemovedDir(s: Names, d: nat, k: nat): Names
    requires d in s.nodes && k < |s.nodes[d].entries| && s.nodes[d].entries[k].ino != d
  {
    var i := s.nodes[d].entries[k].ino;
    var s1 := Counted(Put(s, d, k, s.nodes[d].entries[k].(ino := 0)), d, Fewer(s.nodes[d].nlinks));
    Dropped(s1, i)
  }

  /** A directory other than the root is entered in its parent. */
  lemma HomeEntry(s: Names, l: Lay, y: nat)
    requires Tree(s, l) && IsDir(s, y) && y != ROOT_INO
    ensures IsDir(s, Parent(s, y)) && exists j :: 2 <= j < |s.nodes[Parent(s, y)].entries| && s.nodes[Parent(s, y)].entries[j].ino == y
  {
    assert DirOk(s, l, y);
  }

  /** An empty directory reached by a name is entered there and nowhere else, and its parent
      is the directory with the entry. */
  lemma RemoveFacts(s: Names, l: Lay, d: nat, k: nat)
    requires CanRemove(s, l, d, k)
    ensures k >= 2 && DirOk(s, l, d) && EntryOk(s, l, d, k)
    ensures var i := s.nodes[d].entries[k].ino; i != ROOT_INO && Parent(s, i) == d && Refs(s, i) == {(i, 0), (d, k)}
  {
    var i := s.nodes[d].entries[k].ino;
    assert DirOk(s, l, d) && EntryOk(s, l, d, k) && DirOk(s, l, i) && DirOk(s, l, ROOT_INO);
    if d != ROOT_INO { HomeEntry(s, l, d); }
    assert k >= 2;
    forall r | r in Refs(s, i)
      ensures r == (i, 0) || r == (d, k)
    {
      assert DirOk(s, l, r.0) && EntryOk(s, l, r.0, r.1);
      if IsDir(s, r.0) && r.0 != ROOT_INO { HomeEntry(s, l, r.0); }
    }
  }

  lemma RemovedEntry(s: Names, l: Lay, d: nat, k: nat, x: nat, j: nat)
    requires CanRemove(s, l, d, k) && x in s.nodes && x != s.nodes[d].entries[k].ino && j < |s.nodes[x].entries|
    ensures j < |RemovedDir(s, d, k).nodes[x].entries| && EntryOk(RemovedDir(s, d, k), l, x, j)
  {
    RemoveFacts(s, l, d, k);
    var i, y := s.nodes[d].entries[k].ino, s.nodes[x].entries[j].ino;
    assert DirOk(s, l, x) && EntryOk(s, l, x, j);
    assert y == i ==> (x, j) in Refs(s, i);
    if IsDir(s, y) { assert DirOk(s, l, y); }
  }

  lemma RemovedDirs(s: Names, l: Lay, d: nat, k: nat, x: nat)
    requires CanRemove(s, l, d, k) && x in s.nodes && x != s.nodes[d].entries[k].ino
    ensures DirOk(RemovedDir(s, d, k), l, x)
  {
    RemoveFacts(s, l, d, k);
    var i, g := s.nodes[d].entries[k].ino, RemovedDir(s, d, k);
    assert DirOk(s, l, x);
    if IsDir(s, x) {
      var p := Parent(s, x);
      assert DirOk(s, l, p);
      assert p == i ==> (x, 1) in Refs(s, i);
      assert Parent(g, x) == p;
      if x != ROOT_INO {
        assert (p, l.home[x]) != (d, k);
      }
    }
    forall j | 0 <= j < |g.nodes[x].entries|
      ensures EntryOk(g, l, x, j)
    {
      RemovedEntry(s, l, d, k, x, j);
    }
  }

  lemma RemovedRefs(s: Names, l: Lay, d: nat, k: nat, s1: Names, x: nat)
    requires CanRemove(s, l, d, k) && x in s.nodes && x != s.nodes[d].entries[k].ino
    requires s1 == Counted(Put(s, d, k, s.nodes[d].entries[k].(ino := 0)), d, Fewer(s.nodes[d].nlinks))
    ensures |Refs(RemovedDir(s, d, k), x)| == |Refs(s1, x)| - if x == d then 1 else 0
  {
    RemoveFacts(s, l, d, k);
    var i := s.nodes[d].entries[k].ino;
    assert DirOk(s, l, i) && s1.nodes[i] == s.nodes[i];
    DroppedRefs(s1, i, d, x);
    assert RemovedDir(s, d, k) == Dropped(s1, i);
  }

  lemma DroppedRefs(s: Names, i: nat, d: nat, x: nat)
    requires i in s.nodes && |s.nodes[i].entries| >= 2 && s.nodes[i].entries[0].ino == i && s.nodes[i].entries[1].ino == d
    requires x != i && x != 0 && forall k | 2 <= k < |s.nodes[i].entries| :: s.nodes[i].entries[k].ino == 0
    ensures |Refs(Dropped(s, i), x)| == |Refs(s, x)| - if x == d then 1 else 0
  {
    var r, r' := Refs(s, x), Refs(Dropped(s, i), x);
    if x == d {
      assert (i, 1) in r;
      assert r' == r - {(i, 1)};
    } else {
      assert r' == r;
    }
  }

  lemma RemovedCounts(s: Names, l: Lay, d: nat, k: nat, x: nat)
    requires CanRemove(s, l, d, k) && Inv(s, l) && x in s.nodes && x != s.nodes[d].entries[k].ino
    ensures CountOk(RemovedDir(s, d, k), x)
  {
    var e, n := s.nodes[d].entries[k], Fewer(s.nodes[d].nlinks);
    RemovedRefs(s, l, d, k, Counted(Put(s, d, k, e.(ino := 0)), d, n), x);
    RefsCount(s, d, k, e.(ino := 0), d, n, x);
    assert CountOk(s, x);
    if x == d {
      RemoveFacts(s, l, d, k);
      assert DirOk(s, l, e.ino) && (e.ino, 1) in Refs(s, d);
    }
  }

  lemma RemovedTree(s: Names, l: Lay, d: nat, k: nat)
    requires CanRemove(s, l, d, k)
    ensures Tree(RemovedDir(s, d, k), l)
  {
    RemoveFacts(s, l, d, k);
    var i, g := s.nodes[d].entries[k].ino, RemovedDir(s, d, k);
    assert DirOk(s, l, i) && DirOk(s, l, ROOT_INO);
    forall x | x in g.nodes
      ensures DirOk(g, l, x)
    {
      RemovedDirs(s, l, d, k, x);
    }
  }

  /** The removal of an empty directory keeps the tree; and right counts stay right, that of
      the directory having been 2. */
  lemma RemoveOk(s: Names, l: Lay, d: nat, k: nat)
    requires CanRemove(s, l, d, k)
    ensures Tree(RemovedDir(s, d, k), l)
    ensures Inv(s, l) ==> Inv(RemovedDir(s, d, k), l)
    ensures Inv(s, l) ==> s.nodes[s.nodes[d].entries[k].ino].nlinks == 2 && s.nodes[d].nlinks > 2
  {
    RemovedTree(s, l, d, k);
    if Inv(s, l) {
      RemoveFacts(s, l, d, k);
      var i, g := s.nodes[d].entries[k].ino, RemovedDir(s, d, k);
      assert CountOk(s, i) && CountOk(s, d);
      ThreeLinks(s, l, d, k);
      forall x | x in g.nodes
        ensures CountOk(g, x)
      {
        RemovedCounts(s, l, d, k, x);
      }
    }
  }

  /** A directory with a subdirectory is named by itself, its entry above and the "..". */
  lemma ThreeLinks(s: Names, l: Lay, d: nat, k: nat)
    requires CanRemove(s, l, d, k)
    ensures |Refs(s, d)| > 2
  {
    RemoveFacts(s, l, d, k);
    var i := s.nodes[d].entries[k].ino;
    assert DirOk(s, l, i) && DirOk(s, l, d) && DirOk(s, l, ROOT_INO);
    var p, j := Parent(s, d), if d == ROOT_INO then 1 else l.home[d];
    var three := {(d, 0), (i, 1), (p, j)};
    assert three <= Refs(s, d);
    assert Refs(s, d) == three + (Refs(s, d) - three);
  }

  // ---- counts that wrap --------------------------------------------------------------------------------------------------------

  /** A file system with an empty root directory. */
  function OnlyRoot(held: set<nat>): Names {
    Names(RootNode(Node(Dir, NewDir(ROOT_INO, ROOT_INO), 2)), held)
  }

  function RootNode(n: Node): map<nat, Node> { map[ROOT_INO := n] }

  function RootLay(): Lay { Lay(RootAt(), NoHomes()) }

  function RootAt(): map<nat, map<Name, nat>> { map[ROOT_INO := DotSlots()] }

  function NoHomes(): map<nat, nat> { map[] }

  lemma OnlyRootOk(held: set<nat>)
    ensures Inv(OnlyRoot(held), RootLay())
  {
    var s, l := OnlyRoot(held), RootLay();
    DotNames();
    assert EntryOk(s, l, ROOT_INO, 0) && EntryOk(s, l, ROOT_INO, 1);
    assert DirOk(s, l, ROOT_INO);
    assert Refs(s, ROOT_INO) == {(ROOT_INO, 0), (ROOT_INO, 1)};
  }

  const FILE: nat := 2

  function NameNo(j: nat): seq<byte>
    requires j < 256
  {
    if j < 255 then [1, (j + 1) as byte] else [2, 1]
  }

  /** The root directory has n names for one file, and nothing else. */
  ghost predicate Crowded(s: Names, n: nat) {
    && s.nodes.Keys == {ROOT_INO, FILE} && s.nodes[ROOT_INO].kind.Dir? && s.nodes[FILE].kind.File? && s.nodes[FILE].nlinks == n
    && |s.nodes[ROOT_INO].entries| == n + 2 && n < 256
    && s.nodes[ROOT_INO].entries[0].name == DOT && s.nodes[ROOT_INO].entries[1].name == DOTDOT
    && (forall j: nat {:trigger s.nodes[ROOT_INO].entries[j + 2]} | j < n :: s.nodes[ROOT_INO].entries[j + 2] == Entry(FILE, Cut(NameNo(j))))
  }

  lemma NamesDiffer(i: nat, j: nat)
    requires i < j < 256
    ensures Cut(NameNo(i)) != Cut(NameNo(j)) && UserName(NameNo(j)) && Cut(NameNo(j)) != DOT && Cut(NameNo(j)) != DOTDOT
  {
    assert Cut(NameNo(i))[0] == NameNo(i)[0] && Cut(NameNo(i))[1] == NameNo(i)[1];
    assert Cut(NameNo(j))[0] == NameNo(j)[0] && Cut(NameNo(j))[1] == NameNo(j)[1];
    assert DOT[0] == 46 && DOTDOT[0] == 46;
  }

  lemma CrowdedCanLink(s: Names, l: Lay, n: nat)
    requires Inv(s, l) && Crowded(s, n)
    ensures CanLink(s, l, ROOT_INO, n + 2, NameNo(n), FILE)
  {
    var es := s.nodes[ROOT_INO].entries;
    if n == 0 { assert NameNo(n) == [1, 1] && Cut(NameNo(n))[0] == 1 && DOT[0] == 46 && DOTDOT[0] == 46; } else { NamesDiffer(n - 1, n); }
    forall j | 0 <= j < |es| && es[j].ino != 0
      ensures es[j].name != Cut(NameNo(n))
    {
      if j >= 2 {
        var i: nat := j - 2;
        assert es[i + 2] == Entry(FILE, Cut(NameNo(i)));
        NamesDiffer(i, n);
      }
    }
  }

  /** One file can be given names until its count is 255, one link after the other. */
  lemma {:induction false} Crowd(held: set<nat>, n: nat) returns (s: Names, l: Lay)
    requires n < 256
    ensures Inv(s, l) && Crowded(s, n) && s.held == held
  {
    if n == 0 {
      OnlyRootOk(held);
      NodeAddedOk(OnlyRoot(held), RootLay(), FILE, File);
      s, l := NodeAdded(OnlyRoot(held), FILE, File), RootLay();
    } else {
      var s0, l0 := Crowd(held, n - 1);
      CrowdedCanLink(s0, l0, n - 1);
      LinkOk(s0, l0, ROOT_INO, n + 1, NameNo(n - 1), FILE);
      s, l := Linked(s0, ROOT_INO, n + 1, NameNo(n - 1), FILE), PlacedAt(l0, ROOT_INO, Cut(NameNo(n - 1)), n + 1);
    }
  }

  /** The 256th name of a file takes its count to 0: the file is freed although 256 entries
      name it, or, if it is open, the next unlink finds a "nonexistent file". */
  lemma LinkCountWraps(open: bool) returns (s: Names, l: Lay, g: Names)
    ensures Inv(s, l) && CanLink(s, l, ROOT_INO, 257, NameNo(255), FILE)
    ensures g == Closed(Linked(s, ROOT_INO, 257, NameNo(255), FILE), FILE)
    ensures |Refs(g, FILE)| == 256 && (FILE in g.nodes <==> open)
    ensures open ==> CanUnlink(g, PlacedAt(l, ROOT_INO, Cut(NameNo(255)), 257), ROOT_INO, 257) && g.nodes[FILE].nlinks == 0
  {
    s, l := Crowd(if open then {FILE} else {}, 255);
    CrowdedCanLink(s, l, 255);
    var g0 := Linked(s, ROOT_INO, 257, NameNo(255), FILE);
    g := Closed(g0, FILE);
    assert CountOk(s, FILE);
    LinkedRefs(s, l, ROOT_INO, 257, NameNo(255), FILE, FILE);
    LinkedTree(s, l, ROOT_INO, 257, NameNo(255), FILE);
    assert DirOk(s, l, FILE);
    assert Refs(g, FILE) == Refs(g0, FILE);
  }

  /** The root directory has n subdirectories, numbered from 2, and nothing else. */
  ghost predicate Nested(s: Names, n: nat) {
    && ROOT_INO in s.nodes && s.nodes[ROOT_INO].kind.Dir? && s.nodes[ROOT_INO].nlinks == n + 2 < 256
    && (forall i | i in s.nodes :: i < n + 2)
    && |s.nodes[ROOT_INO].entries| == n + 2
    && s.nodes[ROOT_INO].entries[0].name == DOT && s.nodes[ROOT_INO].entries[1].name == DOTDOT
    && (forall j: nat {:trigger s.nodes[ROOT_INO].entries[j + 2]} | j < n :: s.nodes[ROOT_INO].entries[j + 2] == Entry(j + 2, Cut(NameNo(j))))
  }

  lemma NestedCanMake(s: Names, l: Lay, n: nat)
    requires Inv(s, l) && Nested(s, n)
    ensures CanMake(s, l, ROOT_INO, n + 2, NameNo(n), n + 2)
  {
    var es := s.nodes[ROOT_INO].entries;
    if n == 0 { assert NameNo(n) == [1, 1] && Cut(NameNo(n))[0] == 1 && DOT[0] == 46 && DOTDOT[0] == 46; } else { NamesDiffer(n - 1, n); }
    forall j | 0 <= j < |es| && es[j].ino != 0
      ensures es[j].name != Cut(NameNo(n))
    {
      if j >= 2 {
        var i: nat := j - 2;
        assert es[i + 2] == Entry(i + 2, Cut(NameNo(i)));
        NamesDiffer(i, n);
      }
    }
  }

  lemma {:induction false} Nest(held: set<nat>, n: nat) returns (s: Names, l: Lay)
    requires n < 254
    ensures Inv(s, l) && Nested(s, n) && s.held == held
  {
    if n == 0 {
      OnlyRootOk(held);
      s, l := OnlyRoot(held), RootLay();
    } else {
      s, l := Nest(held, n - 1);
      s, l := NestOne(s, l, n - 1);
    }
  }

  lemma NestOne(s0: Names, l0: Lay, n: nat) returns (s: Names, l: Lay)
    requires n < 253 && Inv(s0, l0) && Nested(s0, n)
    ensures Inv(s, l) && Nested(s, n + 1) && s.held == s0.held
  {
    NestedCanMake(s0, l0, n);
    MakeOk(s0, l0, ROOT_INO, n + 2, NameNo(n), n + 2);
    s, l := MadeDir(s0, ROOT_INO, n + 2, NameNo(n), n + 2), MadeLay(l0, ROOT_INO, Cut(NameNo(n)), n + 2, n + 2);
  }

  /** The 254th subdirectory takes the parent's count to 0, although 256 entries name it. */
  lemma MkdirCountWraps(held: set<nat>) returns (s: Names, l: Lay, g: Names)
    requires ROOT_INO in held
    ensures Inv(s, l) && s.held == held && CanMake(s, l, ROOT_INO, 255, NameNo(253), 255)
    ensures g == Closed(MadeDir(s, ROOT_INO, 255, NameNo(253), 255), ROOT_INO)
    ensures ROOT_INO in g.nodes && g.nodes[ROOT_INO].nlinks == 0 && |Refs(g, ROOT_INO)| == 256
  {
    s, l := Nest(held, 253);
    NestedCanMake(s, l, 253);
    g := Closed(MadeDir(s, ROOT_INO, 255, NameNo(253), 255), ROOT_INO);
    MadeRefs(s, l, ROOT_INO, 255, NameNo(253), 255, ROOT_INO);
  }
}
