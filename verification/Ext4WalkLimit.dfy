/** A directory that the depth limit of the ext4 walk cuts off although it stands two steps below the root. */
module Ext4WalkLimit {
  import opened Ext4Walk

  function From2(n: nat): (r: set<nat>)
    ensures forall k: nat :: k in r <==> 2 <= k < n
  {
    if n <= 2 then {} else From2(n - 1) + {n - 1}
  }

  function CornerListing(i: nat): seq<Entry> {
    if i == ROOT then [Entry(66, "short"), Entry(3, "d")] else if i <= 66 then [Entry(i + 1, "d")] else []
  }

  /** A way down through the directories 2, 3, ..., 67, and an entry of the root that names 66 as well. */
  function Corner(): Tree {
    Tree(map i | i in From2(68) :: Inode(Directory, 2, 0, 0), map i | i in From2(68) :: CornerListing(i))
  }

  lemma CornerAt(i: nat)
    ensures 2 <= i < 68 <==> i in Corner().listings
    ensures 2 <= i < 68 <==> i in Corner().inodes
    ensures 2 <= i < 68 ==> Corner().listings[i] == CornerListing(i) && Corner().inodes[i].kind == Directory
  {
  }

  lemma OneMoreEntry(t: Tree, f: Frame, entries: seq<Entry>, e: Entry)
    requires e !in entries && NamesDirectory(t, e)
    ensures Distinct(entries + [e]) == Distinct(entries) + [e]
    ensures Children(t, f, entries + [e])
         == if f.depth < MAX_DEPTH then Children(t, f, entries) + [Frame(e.ino, f.path + [e.name], f.depth + 1)] else []
  {
    hide NamesDirectory;
    assert (entries + [e])[..|entries|] == entries;
  }

  /** Taking a directory with one entry, the name of another directory. */
  lemma PopOne(t: Tree, rest: seq<Frame>, f: Frame, visited: set<nat>, e: Entry)
    requires Within(t, rest + [f]) && f.ino !in visited && f.ino in t.listings && t.listings[f.ino] == [e]
    requires NamesDirectory(t, e)
    ensures Pop(t, rest + [f], visited)
         == if f.depth < MAX_DEPTH then rest + [Frame(e.ino, f.path + [e.name], f.depth + 1)] else rest
  {
    hide NamesDirectory;
    assert (rest + [f])[..|rest|] == rest;
    OneMoreEntry(t, f, [], e);
    assert [] + [e] == [e];
  }

  lemma PopVisited(t: Tree, f: Frame, visited: set<nat>)
    requires Within(t, [f]) && f.ino in visited
    ensures Visits(t, [f], visited) == []
  {
    VisitsStep(t, [f], visited);
    assert Pop(t, [f], visited) == [];
    VisitsEnd(t, visited + {f.ino});
  }

  const SHORT: Frame := Frame(66, ["short"], 1)

  /** Taken down the long way from directory `i`, the walk meets 66 first at the limit, and passes it later. */
  lemma {:induction false} LongWay(i: nat, path: seq<string>)
    requires 3 <= i <= 66
    ensures Within(Corner(), [SHORT, Frame(i, path, i - 2)])
    ensures forall g :: g in Visits(Corner(), [SHORT, Frame(i, path, i - 2)], From2(i)) ==> g.ino <= 66
    decreases 66 - i
  {
    hide Corner, Visits, Pop, From2;
    var t, f, e := Corner(), Frame(i, path, i - 2), Entry(i + 1, "d");
    var next := Frame(i + 1, path + ["d"], i - 1);
    CornerAt(i);
    CornerAt(i + 1);
    CornerAt(66);
    assert [SHORT] + [f] == [SHORT, f] && [SHORT] + [next] == [SHORT, next];
    VisitsStep(t, [SHORT, f], From2(i));
    PopOne(t, [SHORT], f, From2(i), e);
    assert From2(i) + {i} == From2(i + 1);
    if i < 66 {
      LongWay(i + 1, next.path);
    } else {
      PopVisited(t, SHORT, From2(i + 1));
    }
  }

  /** Taking the root when it names two directories. */
  lemma PopTwo(t: Tree, a: Entry, b: Entry)
    requires ROOT in t.listings && t.listings[ROOT] == [a, b] && a != b && NamesDirectory(t, a) && NamesDirectory(t, b)
    ensures Pop(t, [START], {}) == [Frame(a.ino, [a.name], 1), Frame(b.ino, [b.name], 1)]
  {
    hide NamesDirectory;
    OneMoreEntry(t, START, [], a);
    OneMoreEntry(t, START, [a], b);
    assert [] + [a] == [a] && [a] + [b] == [a, b];
    assert START.path + [a.name] == [a.name] && START.path + [b.name] == [b.name];
    var both := Children(t, START, [a, b]);
    assert both == Children(t, START, []) + [Frame(a.ino, [a.name], 1)] + [Frame(b.ino, [b.name], 1)];
    assert Distinct([a, b]) == [a, b];
    hide Distinct, Children;
    assert [START][..0] + both == both;
  }

  lemma PopRoot()
    ensures Within(Corner(), [START]) && Expands(Corner(), [START], {})
    ensures Pop(Corner(), [START], {}) == [SHORT, Frame(3, ["d"], 1)]
  {
    hide Corner, Pop;
    CornerAt(2);
    CornerAt(3);
    CornerAt(66);
    PopTwo(Corner(), Entry(66, "short"), Entry(3, "d"));
  }

  /** The limit does cut off: directory 67 of `Corner` stands two steps below the root and is not expanded. */
  lemma ShortWayMissed()
    ensures var t := Corner();
            && Leads(t, [2, 66, 67], ["short", "d"]) && 67 in t.listings
            && !IsExpanded(t, 67) && !Complete(t) && !NothingCutOff(t)
  {
    hide Corner, Visits, Pop, From2, NothingCutOff;
    var t := Corner();
    CornerAt(2);
    CornerAt(66);
    CornerAt(67);
    assert Step(t, 2, "short", 66) && Step(t, 66, "d", 67);
    assert Leads(t, [2, 66, 67], ["short", "d"]);
    PopRoot();
    VisitsStep(t, [START], {});
    assert {} + {2} == From2(3);
    LongWay(3, ["d"]);
    assert !IsExpanded(t, 67);
    assert Reachable(t, [2, 66, 67][|["short", "d"]|]);
    CompleteIff(t);
  }
}
