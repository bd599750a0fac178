/** Directories as values: entries in their slots, and the link counts of inodes. */
module NameModel {
  const NAME_LEN: nat := 14
  const PER_BLOCK: nat := 64               // entries in a block
  const ROOT_INO: nat := 1

  newtype byte = b: int | 0 <= b < 256
  type Name = s: seq<byte> | |s| == 14 witness seq(14, _ => 0)

  datatype Entry = Entry(ino: nat, name: Name)
  datatype Kind = File | Dir | Symlink
  datatype Node = Node(kind: Kind, entries: seq<Entry>, nlinks: Links)

  type Links = n: nat | n < 256            // i_nlinks is an unsigned char

  const MAX_LINKS: nat := 255

  /** i_nlinks++, which nothing keeps from wrapping. */
  function More(n: Links): Links { if n == MAX_LINKS then 0 else n + 1 }

  function Fewer(n: Links): Links { if n == 0 then MAX_LINKS else n - 1 }

  /** The inodes of a file system, by number, and those in use by somebody. */
  datatype Names = Names(nodes: map<nat, Node>, held: set<nat>)

  /** Where each name of a directory is, and where each directory is entered in its parent. */
  datatype Lay = Lay(at: map<nat, map<Name, nat>>, home: map<nat, nat>)

  /** A name as it is stored: cut to NAME_LEN and padded with 0. */
  function Cut(name: seq<byte>): Name {
    var n := if |name| < 14 then |name| else 14;
    name[..n] + seq(14 - n, _ => 0)
  }

  const DOT: Name := Cut([46])
  const DOTDOT: Name := Cut([46, 46])

  /** Names that a path can contain. */
  predicate UserName(name: seq<byte>) { name != [] && forall k | 0 <= k < |name| :: name[k] != 0 }

  /** match, as written: the length, the end of the entry's name, then the bytes. */
  predicate Match(len: nat, name: seq<byte>, e: Entry)
    requires len <= |name| && len <= NAME_LEN
  {
    if e.ino == 0 then false
    else if len == 0 && e.name[0] == 46 && e.name[1] == 0 then true
    else if len < NAME_LEN && e.name[len] != 0 then false
    else name[..len] == e.name[..len]
  }

  ghost predicate Padded(n: Name) { forall j, k | 0 <= j < k < 14 && n[j] == 0 :: n[k] == 0 }

  /** match finds the entry in use that stores this name. */
  lemma MatchIff(name: seq<byte>, e: Entry)
    requires UserName(name) && Padded(e.name)
    ensures Match(if |name| > NAME_LEN then NAME_LEN else |name|, name, e) <==> e.ino != 0 && e.name == Cut(name)
  {
    var len := if |name| > NAME_LEN then NAME_LEN else |name|;
    if e.name == Cut(name) {
      assert e.name[..len] == name[..len];
    }
    if Match(len, name, e) {
      assert len < NAME_LEN ==> e.name[len] == 0;
      forall k | 0 <= k < 14
        ensures e.name[k] == Cut(name)[k]
      {
        if k < len {
          assert e.name[..len][k] == name[..len][k];
        }
      }
    }
  }

  /** The empty name finds ".". */
  lemma EmptyMatchesDot(e: Entry)
    requires Padded(e.name) && e.name[0] != 0
    ensures Match(0, [], e) <==> e.ino != 0 && e.name == DOT
  {
  }

  lemma CutPadded(name: seq<byte>)
    requires UserName(name)
    ensures Padded(Cut(name)) && Cut(name)[0] != 0
  {
  }

  predicate IsDir(s: Names, d: nat) { d in s.nodes && s.nodes[d].kind.Dir? }

  function Parent(s: Names, d: nat): nat
    requires IsDir(s, d)
  {
    if |s.nodes[d].entries| > 1 then s.nodes[d].entries[1].ino else 0
  }

  // ---- the invariant ---------------------------------------------------------------------------------------

  /** An entry in use names an inode, under a name that no other entry of the directory has;
      behind the first two, a directory is entered only in its parent. */
  ghost predicate EntryOk(s: Names, l: Lay, d: nat, k: nat)
    requires d in s.nodes && k < |s.nodes[d].entries|
  {
    var e := s.nodes[d].entries[k];
    && Padded(e.name) && e.name[0] != 0
    && (e.ino != 0 ==> e.ino in s.nodes && d in l.at && e.name in l.at[d] && l.at[d][e.name] == k)
    && (k >= 2 && IsDir(s, e.ino) ==> Parent(s, e.ino) == d && e.ino != ROOT_INO && e.ino in l.home && l.home[e.ino] == k)
  }

  ghost predicate DirOk(s: Names, l: Lay, d: nat)
    requires d in s.nodes
  {
    var es := s.nodes[d].entries;
    && (s.nodes[d].kind.Dir? ==> |es| >= 2 && es[0] == Entry(d, DOT) && es[1].name == DOTDOT && IsDir(s, es[1].ino))
    && (!s.nodes[d].kind.Dir? ==> es == [])
    && (s.nodes[d].kind.Dir? && d != ROOT_INO ==>
          && Parent(s, d) != d && d in l.home && IsDir(s, Parent(s, d))
          && 2 <= l.home[d] < |s.nodes[Parent(s, d)].entries| && s.nodes[Parent(s, d)].entries[l.home[d]].ino == d)
    && (forall k {:trigger EntryOk(s, l, d, k)} | 0 <= k < |es| :: EntryOk(s, l, d, k))
  }

  /** The entries that name inode i. */
  ghost function Refs(s: Names, i: nat): set<(nat, nat)> {
    set d, k | d in s.nodes && 0 <= k < |s.nodes[d].entries| && s.nodes[d].entries[k].ino == i :: (d, k)
  }

  ghost predicate CountOk(s: Names, i: nat)
    requires i in s.nodes
  {
    s.nodes[i].nlinks == |Refs(s, i)|
  }

  /** The directories form a tree, whatever the link counts say. */
  ghost predicate Tree(s: Names, l: Lay) {
    && 0 !in s.nodes && IsDir(s, ROOT_INO) && Parent(s, ROOT_INO) == ROOT_INO
    && (forall d {:trigger DirOk(s, l, d)} | d in s.nodes :: DirOk(s, l, d))
  }

  ghost predicate Inv(s: Names, l: Lay) {
    && Tree(s, l)
    && (forall i {:trigger CountOk(s, i)} | i in s.nodes :: CountOk(s, i))
  }

  /** The directory as a map from names to inodes. */
  ghost predicate Means(es: seq<Entry>, m: map<Name, nat>) {
    && (forall k | 0 <= k < |es| && es[k].ino != 0 :: es[k].name in m && m[es[k].name] == es[k].ino)
    && (forall n | n in m :: exists k :: 0 <= k < |es| && es[k].ino == m[n] != 0 && es[k].name == n)
  }

  lemma MeaningUnique(es: seq<Entry>, m: map<Name, nat>, m': map<Name, nat>)
    requires Means(es, m) && Means(es, m')
    ensures m == m'
  {
    forall n | n in m ensures n in m' && m'[n] == m[n] {
      var k :| 0 <= k < |es| && es[k].ino == m[n] != 0 && es[k].name == n;
    }
    forall n | n in m' ensures n in m {
      var k :| 0 <= k < |es| && es[k].ino == m'[n] != 0 && es[k].name == n;
    }
  }

  /** Entry k as the only one with its name. */
  ghost predicate Only(es: seq<Entry>, k: nat)
    requires k < |es|
  {
    forall j | 0 <= j < |es| && j != k && es[j].ino != 0 :: es[j].name != es[k].name
  }

  lemma DirIsMap(s: Names, l: Lay, d: nat) returns (m: map<Name, nat>)
    requires Tree(s, l) && d in s.nodes
    ensures Means(s.nodes[d].entries, m)
    ensures forall k | 0 <= k < |s.nodes[d].entries| && s.nodes[d].entries[k].ino != 0 :: Only(s.nodes[d].entries, k)
  {
    var es := s.nodes[d].entries;
    assert DirOk(s, l, d);
    forall j, k | 0 <= j < k < |es| && es[j].ino != 0 && es[k].ino != 0
      ensures es[j].name != es[k].name
    {
      assert EntryOk(s, l, d, j) && EntryOk(s, l, d, k);
    }
    m := MapOf(es, |es|);
    assert es[..|es|] == es;
  }

  lemma {:induction false} MapOf(es: seq<Entry>, n: nat) returns (m: map<Name, nat>)
    requires n <= |es|
    requires forall j, k | 0 <= j < k < |es| && es[j].ino != 0 && es[k].ino != 0 :: es[j].name != es[k].name
    ensures Means(es[..n], m)
  {
    if n == 0 {
      m := map[];
    } else {
      m := MapOf(es, n - 1);
      assert es[..n] == es[..n - 1] + [es[n - 1]];
      MeansLast(es[..n - 1], m, es[n - 1]);
      if es[n - 1].ino != 0 {
        m := m[es[n - 1].name := es[n - 1].ino];
      }
    }
  }

  lemma MeansLast(es: seq<Entry>, m: map<Name, nat>, e: Entry)
    requires Means(es, m) && forall j | 0 <= j < |es| && es[j].ino != 0 && e.ino != 0 :: es[j].name != e.name
    ensures Means(es + [e], if e.ino != 0 then m[e.name := e.ino] else m)
  {
    var fs, n := es + [e], if e.ino != 0 then m[e.name := e.ino] else m;
    forall x | x in n
      ensures exists k :: 0 <= k < |fs| && fs[k].ino == n[x] != 0 && fs[k].name == x
    {
      if e.ino != 0 && x == e.name {
        assert fs[|es|].name == x;
      } else {
        var k :| 0 <= k < |es| && es[k].ino == m[x] != 0 && es[k].name == x;
        assert fs[k].name == x;
      }
    }
  }
}
