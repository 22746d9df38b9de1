/** The walk over directories that collects deleted files (`walk` in src/ext4.rs). */
module Ext4Walk {
  const ROOT: nat := 2
  const MAX_DEPTH: nat := 64

  datatype Kind = Directory | Regular | Special

  datatype Inode = Inode(kind: Kind, links: nat, dtime: nat, size: nat) {
    predicate Deleted() { links == 0 || dtime != 0 }
  }

  datatype Entry = Entry(ino: nat, name: string)

  /**
   * What the walk reads: the inodes in the inode tables, and for each directory that can be read, live or through the
   * journal, its entries, those of journaled copies behind the live ones. Nothing is assumed of the graph they form.
   */
  datatype Tree = Tree(inodes: map<nat, Inode>, listings: map<nat, seq<Entry>>) {
    function Inos(): set<nat> { inodes.Keys + {ROOT} }
  }

  datatype Frame = Frame(ino: nat, path: seq<string>, depth: nat)

  predicate IsLink(e: Entry) { e.name == "." || e.name == ".." || e.ino == 0 }

  predicate NamesDirectory(t: Tree, e: Entry) {
    !IsLink(e) && e.ino in t.inodes && t.inodes[e.ino].kind == Directory
  }

  predicate NamesDeletedFile(t: Tree, e: Entry) {
    !IsLink(e) && e.ino in t.inodes && t.inodes[e.ino].kind == Regular && t.inodes[e.ino].Deleted()
  }

  // --- repeated entries ---

  /** The first of each entry. */
  function Distinct(entries: seq<Entry>): (r: seq<Entry>)
    ensures forall e :: e in r <==> e in entries
    ensures forall i, k :: 0 <= i < k < |r| ==> r[i] != r[k]
  {
    if entries == [] then []
    else
      var before, e := Distinct(entries[..|entries| - 1]), entries[|entries| - 1];
      if e in before then before else before + [e]
  }

  /** A repeated entry keeps its first place. */
  lemma DistinctExample(a: Entry, b: Entry)
    requires a != b
    ensures Distinct([a, b, a]) == [a, b]
  {
    assert [a, b, a][..2] == [a, b] && [a, b][..1] == [a] && [a][..0] == [];
    assert Distinct([a]) == [a];
    assert Distinct([a, b]) == [a, b];
  }

  method Retain(entries: seq<Entry>) returns (r: seq<Entry>)
    ensures r == Distinct(entries)
  {
    r := [];
    var seen: set<Entry> := {};
    var i := 0;
    while i < |entries|
      invariant i <= |entries| && r == Distinct(entries[..i])
      invariant forall e :: e in seen <==> e in r
    {
      assert entries[..i + 1][..i] == entries[..i];
      if entries[i] !in seen {
        seen := seen + {entries[i]};
        r := r + [entries[i]];
      }
      i := i + 1;
    }
    assert entries[..i] == entries;
  }

  // --- the order of the walk ---

  function Children(t: Tree, f: Frame, entries: seq<Entry>): (r: seq<Frame>)
    ensures forall c :: c in r ==> c.ino in t.inodes
  {
    if entries == [] || f.depth >= MAX_DEPTH then []
    else
      var e := entries[|entries| - 1];
      Children(t, f, entries[..|entries| - 1])
      + (if NamesDirectory(t, e) then [Frame(e.ino, f.path + [e.name], f.depth + 1)] else [])
  }

  predicate Within(t: Tree, stack: seq<Frame>) {
    forall f :: f in stack ==> f.ino in t.Inos()
  }

  /** The walk expands the directory on top of its stack. */
  predicate Expands(t: Tree, stack: seq<Frame>, visited: set<nat>)
    requires stack != []
  {
    stack[|stack| - 1].ino !in visited && stack[|stack| - 1].ino in t.listings
  }

  /** The stack once its top was taken. */
  function Pop(t: Tree, stack: seq<Frame>, visited: set<nat>): (r: seq<Frame>)
    requires stack != [] && Within(t, stack)
    ensures Within(t, r) && (!Expands(t, stack, visited) ==> |r| < |stack|)
  {
    var f, rest := stack[|stack| - 1], stack[..|stack| - 1];
    if Expands(t, stack, visited) then rest + Children(t, f, Distinct(t.listings[f.ino])) else rest
  }

  lemma OneLess(all: set<nat>, visited: set<nat>, ino: nat)
    requires ino in all
    ensures ino in visited ==> visited + {ino} == visited
    ensures ino !in visited ==> |all - (visited + {ino})| < |all - visited|
  {
    var left := all - (visited + {ino});
    if ino !in visited { assert all - visited == left + {ino}; }
  }

  /** A pop visits a new inode or takes the stack down. */
  lemma PopDecreases(t: Tree, stack: seq<Frame>, visited: set<nat>)
    requires stack != [] && Within(t, stack)
    ensures var left := |t.Inos() - (visited + {stack[|stack| - 1].ino})|;
            left < |t.Inos() - visited| || (left == |t.Inos() - visited| && |Pop(t, stack, visited)| < |stack|)
  {
    hide Pop, Tree.Inos;
    OneLess(t.Inos(), visited, stack[|stack| - 1].ino);
  }

  /** The directories a walk from this stack expands, in order. */
  function Visits(t: Tree, stack: seq<Frame>, visited: set<nat>): seq<Frame>
    requires Within(t, stack)
    decreases |t.Inos() - visited|, |stack|
  {
    if stack == [] then []
    else
      var f := stack[|stack| - 1];
      PopDecreases(t, stack, visited);
      (if Expands(t, stack, visited) then [f] else []) + Visits(t, Pop(t, stack, visited), visited + {f.ino})
  }

  const START: Frame := Frame(ROOT, [], 0)

  /** The directories the whole walk expands. */
  function Expanded(t: Tree): seq<Frame> { Visits(t, [START], {}) }

  lemma VisitsStep(t: Tree, stack: seq<Frame>, visited: set<nat>)
    requires stack != [] && Within(t, stack)
    ensures var f := stack[|stack| - 1];
            var later := Visits(t, Pop(t, stack, visited), visited + {f.ino});
            Visits(t, stack, visited) == if Expands(t, stack, visited) then [f] + later else later
  {
    hide Pop, Expands;
  }

  /** Directories that can be read, none of them visited, none twice. */
  ghost predicate Unrepeated(t: Tree, frames: seq<Frame>, visited: set<nat>) {
    && (forall f :: f in frames ==> f.ino !in visited && f.ino in t.listings)
    && (forall i, k :: 0 <= i < k < |frames| ==> frames[i].ino != frames[k].ino)
  }

  lemma UnrepeatedBefore(t: Tree, f: Frame, frames: seq<Frame>, visited: set<nat>)
    requires Unrepeated(t, frames, visited + {f.ino})
    ensures Unrepeated(t, frames, visited)
    ensures f.ino !in visited && f.ino in t.listings ==> Unrepeated(t, [f] + frames, visited)
  {
  }

  /** Each directory is expanded at most once, and none that was visited before. */
  lemma {:induction false} VisitsOnce(t: Tree, stack: seq<Frame>, visited: set<nat>)
    requires Within(t, stack)
    ensures Unrepeated(t, Visits(t, stack, visited), visited)
    decreases |t.Inos() - visited|, |stack|
  {
    if stack != [] {
      hide Pop, Unrepeated, Visits;
      var f, next := stack[|stack| - 1], Pop(t, stack, visited);
      PopDecreases(t, stack, visited);
      VisitsStep(t, stack, visited);
      VisitsOnce(t, next, visited + {f.ino});
      UnrepeatedBefore(t, f, Visits(t, next, visited + {f.ino}), visited);
    }
  }

  // --- what is reached ---

  /** Directory `d` has an entry that names directory `c`. */
  ghost predicate Step(t: Tree, d: nat, name: string, c: nat) {
    d in t.listings && Entry(c, name) in t.listings[d] && NamesDirectory(t, Entry(c, name))
  }

  /** The names in `path` lead from the root through the inodes of `chain`. */
  ghost predicate Leads(t: Tree, chain: seq<nat>, path: seq<string>) {
    && |chain| == |path| + 1 && chain[0] == ROOT
    && forall i :: 0 <= i < |path| ==> Step(t, chain[i], path[i], chain[i + 1])
  }

  ghost predicate NoRepeats(chain: seq<nat>) {
    forall i, k :: 0 <= i < k < |chain| ==> chain[i] != chain[k]
  }

  /** A frame's path leads to its inode without running in a circle, and its depth is the path's length, at most 64. */
  ghost predicate LedBy(t: Tree, f: Frame, chain: seq<nat>) {
    && Leads(t, chain, f.path) && chain[|f.path|] == f.ino && NoRepeats(chain)
    && f.depth == |f.path| <= MAX_DEPTH
  }

  /** As `LedBy`, while the frame waits: all above it was visited. */
  ghost predicate Waits(t: Tree, visited: set<nat>, f: Frame, chain: seq<nat>) {
    && Leads(t, chain, f.path) && chain[|f.path|] == f.ino && NoRepeats(chain[..|f.path|])
    && f.depth == |f.path| <= MAX_DEPTH
    && forall i :: 0 <= i < |f.path| ==> chain[i] in visited
  }

  ghost predicate AllWait(t: Tree, visited: set<nat>, stack: seq<Frame>) {
    forall f :: f in stack ==> HasWay(t, visited, f)
  }

  ghost predicate HasWay(t: Tree, visited: set<nat>, f: Frame) {
    exists chain: seq<nat> :: Waits(t, visited, f, chain)
  }

  lemma StillHasWay(t: Tree, visited: set<nat>, f: Frame, ino: nat)
    requires HasWay(t, visited, f)
    ensures HasWay(t, visited + {ino}, f)
  {
    var chain: seq<nat> :| Waits(t, visited, f, chain);
    assert Waits(t, visited + {ino}, f, chain);
  }

  lemma {:induction false} ChildrenWait(t: Tree, visited: set<nat>, f: Frame, chain: seq<nat>, entries: seq<Entry>)
    requires LedBy(t, f, chain) && f.ino in t.listings && forall e :: e in entries ==> e in t.listings[f.ino]
    requires forall i :: 0 <= i < |chain| ==> chain[i] in visited
    ensures AllWait(t, visited, Children(t, f, entries))
  {
    if entries != [] && f.depth < MAX_DEPTH {
      var e := entries[|entries| - 1];
      ChildrenWait(t, visited, f, chain, entries[..|entries| - 1]);
      if NamesDirectory(t, e) {
        var child, longer := Frame(e.ino, f.path + [e.name], f.depth + 1), chain + [e.ino];
        assert longer[..|child.path|] == chain;
        assert Step(t, chain[|f.path|], e.name, e.ino);
        assert Waits(t, visited, child, longer);
      }
    }
  }

  /** Directory `ino` was visited before, cannot be read, or is among these. */
  ghost predicate Covered(t: Tree, visited: set<nat>, frames: seq<Frame>, ino: nat) {
    ino in visited || ino !in t.listings || exists f :: f in frames && f.ino == ino
  }

  lemma CoveredBefore(t: Tree, f: Frame, visited: set<nat>, frames: seq<Frame>, later: seq<Frame>, ino: nat)
    requires Covered(t, visited + {f.ino}, later, ino)
    requires frames == (if f.ino !in visited && f.ino in t.listings then [f] + later else later)
    ensures Covered(t, visited, frames, ino)
  {
    if g :| g in later && g.ino == ino { assert g in frames; }
    if f.ino !in visited && f.ino in t.listings { assert frames[0] == f; }
  }

  /** A frame led to by directories that were visited before or are among these. */
  ghost predicate IsLed(t: Tree, visited: set<nat>, frames: seq<Frame>, f: Frame) {
    exists chain: seq<nat> :: LedBy(t, f, chain) && AllOnWay(t, visited, frames, chain)
  }

  ghost predicate AllOnWay(t: Tree, visited: set<nat>, frames: seq<Frame>, chain: seq<nat>) {
    forall i :: 0 <= i < |chain| ==> Covered(t, visited, frames, chain[i])
  }

  lemma LedBefore(t: Tree, top: Frame, visited: set<nat>, frames: seq<Frame>, later: seq<Frame>, f: Frame)
    requires IsLed(t, visited + {top.ino}, later, f)
    requires frames == (if top.ino !in visited && top.ino in t.listings then [top] + later else later)
    ensures IsLed(t, visited, frames, f)
  {
    hide Covered, LedBy;
    var chain: seq<nat> :| LedBy(t, f, chain) && AllOnWay(t, visited + {top.ino}, later, chain);
    forall i | 0 <= i < |chain| ensures Covered(t, visited, frames, chain[i]) {
      CoveredBefore(t, top, visited, frames, later, chain[i]);
    }
    assert AllOnWay(t, visited, frames, chain);
  }

  lemma PopWaits(t: Tree, stack: seq<Frame>, visited: set<nat>)
    requires stack != [] && Within(t, stack) && AllWait(t, visited, stack)
    ensures AllWait(t, visited + {stack[|stack| - 1].ino}, Pop(t, stack, visited))
  {
    hide Children, Distinct, LedBy, Waits, HasWay;
    var f, rest := stack[|stack| - 1], stack[..|stack| - 1];
    forall g | g in rest ensures HasWay(t, visited + {f.ino}, g) {
      assert g in stack;
      StillHasWay(t, visited, g, f.ino);
    }
    if Expands(t, stack, visited) {
      var chain := Arrives(t, visited, f);
      ChildrenWait(t, visited + {f.ino}, f, chain, Distinct(t.listings[f.ino]));
    }
  }

  lemma TopIsLed(t: Tree, stack: seq<Frame>, visited: set<nat>, frames: seq<Frame>)
    requires stack != [] && AllWait(t, visited, stack) && Expands(t, stack, visited) && stack[|stack| - 1] in frames
    ensures IsLed(t, visited, frames, stack[|stack| - 1])
  {
    hide LedBy, Waits, HasWay;
    var f := stack[|stack| - 1];
    var chain := Arrives(t, visited, f);
    assert AllOnWay(t, visited, frames, chain);
  }

  ghost predicate AllLed(t: Tree, visited: set<nat>, frames: seq<Frame>, among: seq<Frame>) {
    forall f :: f in among ==> IsLed(t, visited, frames, f)
  }

  /** Every expanded directory is named by its path, at most 64 deep, on a way that meets no directory twice. */
  lemma {:induction false} VisitsAreLed(t: Tree, stack: seq<Frame>, visited: set<nat>)
    requires Within(t, stack) && AllWait(t, visited, stack)
    ensures AllLed(t, visited, Visits(t, stack, visited), Visits(t, stack, visited))
    decreases |t.Inos() - visited|, |stack|
  {
    if stack != [] {
      hide Pop, AllWait, IsLed, Visits;
      var top, next := stack[|stack| - 1], Pop(t, stack, visited);
      PopDecreases(t, stack, visited);
      PopWaits(t, stack, visited);
      VisitsStep(t, stack, visited);
      VisitsAreLed(t, next, visited + {top.ino});
      var frames, later := Visits(t, stack, visited), Visits(t, next, visited + {top.ino});
      forall f | f in frames ensures IsLed(t, visited, frames, f) {
        if f in later { LedBefore(t, top, visited, frames, later, f); } else { TopIsLed(t, stack, visited, frames); }
      }
    }
  }

  lemma Arrives(t: Tree, visited: set<nat>, f: Frame) returns (chain: seq<nat>)
    requires HasWay(t, visited, f) && f.ino !in visited
    ensures LedBy(t, f, chain) && forall i :: 0 <= i < |chain| ==> chain[i] in visited + {f.ino}
  {
    chain :| Waits(t, visited, f, chain);
    assert forall i, k :: 0 <= i < k < |f.path| ==> chain[..|f.path|][i] != chain[..|f.path|][k];
  }

  lemma {:induction false} ChildIsPushed(t: Tree, f: Frame, entries: seq<Entry>, e: Entry)
    requires f.depth < MAX_DEPTH && e in entries && NamesDirectory(t, e)
    ensures Frame(e.ino, f.path + [e.name], f.depth + 1) in Children(t, f, entries)
  {
    var n := |entries| - 1;
    if e != entries[n] {
      assert entries == entries[..n] + [entries[n]];
      ChildIsPushed(t, f, entries[..n], e);
    }
  }

  /** An entry of an expanded directory above the depth limit names a covered directory. */
  ghost predicate Closed(t: Tree, visited: set<nat>, frames: seq<Frame>, f: Frame)
    requires f.ino in t.listings
  {
    forall e :: e in t.listings[f.ino] && NamesDirectory(t, e) && f.depth < MAX_DEPTH ==>
      Covered(t, visited, frames, e.ino)
  }

  lemma ChildrenPushed(t: Tree, stack: seq<Frame>, visited: set<nat>, frames: seq<Frame>)
    requires stack != [] && Within(t, stack) && Expands(t, stack, visited)
    requires forall g :: g in Pop(t, stack, visited) ==> Covered(t, visited, frames, g.ino)
    ensures Closed(t, visited, frames, stack[|stack| - 1])
  {
    hide Covered, Children, Distinct;
    var f := stack[|stack| - 1];
    forall e | e in t.listings[f.ino] && NamesDirectory(t, e) && f.depth < MAX_DEPTH
      ensures Covered(t, visited, frames, e.ino) {
      ChildIsPushed(t, f, Distinct(t.listings[f.ino]), e);
      assert Frame(e.ino, f.path + [e.name], f.depth + 1) in Pop(t, stack, visited);
    }
  }

  ghost predicate AllCovered(t: Tree, visited: set<nat>, frames: seq<Frame>, stack: seq<Frame>) {
    forall f :: f in stack ==> Covered(t, visited, frames, f.ino)
  }

  ghost predicate AllClosed(t: Tree, visited: set<nat>, frames: seq<Frame>, among: seq<Frame>) {
    forall f :: f in among ==> f.ino in t.listings && Closed(t, visited, frames, f)
  }

  /** What holds of the walk from the next stack holds of this one. */
  lemma CoveredStep(t: Tree, stack: seq<Frame>, visited: set<nat>, frames: seq<Frame>, later: seq<Frame>)
    requires stack != [] && Within(t, stack)
    requires frames == if Expands(t, stack, visited) then [stack[|stack| - 1]] + later else later
    requires var seen := visited + {stack[|stack| - 1].ino};
             AllCovered(t, seen, later, Pop(t, stack, visited)) && AllClosed(t, seen, later, later)
    ensures AllCovered(t, visited, frames, stack) && AllClosed(t, visited, frames, frames)
  {
    hide Covered, Pop;
    var f := stack[|stack| - 1];
    forall ino | Covered(t, visited + {f.ino}, later, ino) ensures Covered(t, visited, frames, ino) {
      CoveredBefore(t, f, visited, frames, later, ino);
    }
    TopCovered(t, stack, visited, frames);
    if Expands(t, stack, visited) { ChildrenPushed(t, stack, visited, frames); }
  }

  lemma TopCovered(t: Tree, stack: seq<Frame>, visited: set<nat>, frames: seq<Frame>)
    requires stack != [] && Within(t, stack) && (Expands(t, stack, visited) ==> stack[|stack| - 1] in frames)
    ensures Covered(t, visited, frames, stack[|stack| - 1].ino)
    ensures forall g :: g in stack ==> g in Pop(t, stack, visited) || g == stack[|stack| - 1]
  {
    hide Children, Distinct;
    assert stack == stack[..|stack| - 1] + [stack[|stack| - 1]];
  }

  /** Nothing that waits is lost, and no entry of a directory above the depth limit is. */
  lemma {:induction false} VisitsClosed(t: Tree, stack: seq<Frame>, visited: set<nat>)
    requires Within(t, stack)
    ensures AllCovered(t, visited, Visits(t, stack, visited), stack)
    ensures AllClosed(t, visited, Visits(t, stack, visited), Visits(t, stack, visited))
    decreases |t.Inos() - visited|, |stack|
  {
    if stack != [] {
      hide Pop, AllCovered, AllClosed, Visits;
      var next, seen := Pop(t, stack, visited), visited + {stack[|stack| - 1].ino};
      PopDecreases(t, stack, visited);
      VisitsStep(t, stack, visited);
      VisitsClosed(t, next, seen);
      CoveredStep(t, stack, visited, Visits(t, stack, visited), Visits(t, next, seen));
    }
  }

  // --- the files found ---

  /** A deleted file and the path of the entry that names it. */
  datatype Sighting = Sighting(ino: nat, path: seq<string>)

  function Sightings(t: Tree, f: Frame, entries: seq<Entry>): (r: seq<Sighting>)
    ensures forall x :: x in r ==> x.ino in t.inodes
  {
    if entries == [] then []
    else
      var e := entries[|entries| - 1];
      Sightings(t, f, entries[..|entries| - 1])
      + (if NamesDeletedFile(t, e) then [Sighting(e.ino, f.path + [e.name])] else [])
  }

  /** All that the entries of these directories name, in order. */
  function AllSightings(t: Tree, frames: seq<Frame>): (r: seq<Sighting>)
    ensures forall x :: x in r ==> x.ino in t.inodes
  {
    if frames == [] then []
    else
      var f := frames[|frames| - 1];
      AllSightings(t, frames[..|frames| - 1])
      + (if f.ino in t.listings then Sightings(t, f, Distinct(t.listings[f.ino])) else [])
  }

  /** An inode is found exactly when it was sighted, with its size and the path of the first sighting. */
  ghost predicate FirstSeen(t: Tree, found: map<nat, (seq<string>, nat)>, s: seq<Sighting>, ino: nat) {
    if ino in found then
      && ino in t.inodes && found[ino].1 == t.inodes[ino].size
      && exists k :: IsFirst(s, k, Sighting(ino, found[ino].0))
    else forall k :: 0 <= k < |s| ==> s[k].ino != ino
  }

  ghost predicate IsFirst(s: seq<Sighting>, k: int, x: Sighting) {
    0 <= k < |s| && s[k] == x && forall i :: 0 <= i < k ==> s[i].ino != x.ino
  }

  ghost predicate AllFirstSeen(t: Tree, found: map<nat, (seq<string>, nat)>, s: seq<Sighting>) {
    forall ino: nat :: FirstSeen(t, found, s, ino)
  }

  lemma SeeOne(t: Tree, found: map<nat, (seq<string>, nat)>, s: seq<Sighting>, x: Sighting)
    requires AllFirstSeen(t, found, s) && x.ino in t.inodes
    ensures AllFirstSeen(t, if x.ino in found then found else found[x.ino := (x.path, t.inodes[x.ino].size)], s + [x])
  {
    var later := if x.ino in found then found else found[x.ino := (x.path, t.inodes[x.ino].size)];
    forall ino: nat ensures FirstSeen(t, later, s + [x], ino) {
      assert FirstSeen(t, found, s, ino);
      if ino in found {
        var k :| IsFirst(s, k, Sighting(ino, found[ino].0));
        assert IsFirst(s + [x], k, Sighting(ino, later[ino].0));
      } else if ino == x.ino {
        assert IsFirst(s + [x], |s|, Sighting(ino, later[ino].0));
      }
    }
  }

  /** Handle the entries of one directory: push the directories it names, keep the first path of each deleted file. */
  method VisitEntries(t: Tree, f: Frame, entries: seq<Entry>, stack0: seq<Frame>, found0: map<nat, (seq<string>, nat)>,
                      ghost s: seq<Sighting>)
      returns (stack: seq<Frame>, found: map<nat, (seq<string>, nat)>)
    requires AllFirstSeen(t, found0, s)
    ensures stack == stack0 + Children(t, f, entries)
    ensures AllFirstSeen(t, found, s + Sightings(t, f, entries))
  {
    hide AllFirstSeen;
    stack, found := stack0, found0;
    assert s + Sightings(t, f, []) == s;
    var i := 0;
    while i < |entries|
      invariant i <= |entries|
      invariant stack == stack0 + Children(t, f, entries[..i])
      invariant AllFirstSeen(t, found, s + Sightings(t, f, entries[..i]))
    {
      var e := entries[i];
      assert entries[..i + 1][..i] == entries[..i];
      ghost var before := s + Sightings(t, f, entries[..i]);
      assert !NamesDeletedFile(t, e) ==> Sightings(t, f, entries[..i + 1]) == Sightings(t, f, entries[..i]);
      i := i + 1;
      if e.name == "." || e.name == ".." || e.ino == 0 {
        continue;
      }
      if e.ino !in t.inodes {
        continue;
      }
      var child := t.inodes[e.ino];
      if child.kind == Directory {
        if f.depth < MAX_DEPTH {
          stack := stack + [Frame(e.ino, f.path + [e.name], f.depth + 1)];
        }
      } else if child.kind == Regular && child.Deleted() {
        ghost var x := Sighting(e.ino, f.path + [e.name]);
        SeeOne(t, found, before, x);
        assert s + Sightings(t, f, entries[..i]) == before + [x];
        if e.ino !in found {
          found := found[e.ino := (f.path + [e.name], child.size)];
        }
      }
    }
    assert entries[..i] == entries;
  }

  /** `walk`: every deleted file the expanded directories name, by its first path. Ends on any graph of directories. */
  method Walk(t: Tree) returns (found: map<nat, (seq<string>, nat)>)
    ensures AllFirstSeen(t, found, AllSightings(t, Expanded(t)))
    ensures forall ino :: ino in found ==>
              && ino in t.inodes && t.inodes[ino].kind == Regular && found[ino].1 == t.inodes[ino].size
              && (t.inodes[ino].links == 0 || t.inodes[ino].dtime != 0)
  {
    hide AllFirstSeen, AllSightings, Visits, Children, Distinct, Sightings, Tree.Inos;
    found := map[];
    var visited: set<nat> := {};
    var stack := [START];
    ghost var done: seq<Frame> := [];
    NothingSeen(t);
    while stack != []
      invariant Within(t, stack) && done + Visits(t, stack, visited) == Expanded(t)
      invariant AllFirstSeen(t, found, AllSightings(t, done))
      decreases |t.Inos() - visited|, |stack|
    {
      PopDecreases(t, stack, visited);
      VisitsStep(t, stack, visited);
      var f := stack[|stack| - 1];
      stack := stack[..|stack| - 1];
      if f.ino in visited {
        assert visited + {f.ino} == visited;
        continue;
      }
      visited := visited + {f.ino};
      if f.ino !in t.listings {
        continue;
      }
      var entries := Retain(t.listings[f.ino]);
      SightedMore(t, done, f);
      stack, found := VisitEntries(t, f, entries, stack, found, AllSightings(t, done));
      done := done + [f];
    }
    VisitsEnd(t, visited);
    assert done + [] == done;
    forall ino | ino in found
      ensures ino in t.inodes && t.inodes[ino].kind == Regular && found[ino].1 == t.inodes[ino].size
      ensures t.inodes[ino].links == 0 || t.inodes[ino].dtime != 0
    {
      FoundIsGenuine(t, found, ino);
    }
  }

  lemma SightedMore(t: Tree, done: seq<Frame>, f: Frame)
    requires f.ino in t.listings
    ensures AllSightings(t, done + [f]) == AllSightings(t, done) + Sightings(t, f, Distinct(t.listings[f.ino]))
  {
    hide Sightings, Distinct;
    assert (done + [f])[..|done|] == done;
  }

  lemma VisitsEnd(t: Tree, visited: set<nat>)
    ensures Visits(t, [], visited) == []
  {
  }

  lemma NothingSeen(t: Tree)
    ensures AllFirstSeen(t, map[], AllSightings(t, [])) && Within(t, [START])
  {
  }

  // --- completeness ---

  /** Directory `ino` is on some way from the root. */
  ghost predicate Reachable(t: Tree, ino: nat) {
    exists chain: seq<nat>, path: seq<string> :: Leads(t, chain, path) && chain[|path|] == ino
  }

  ghost predicate IsExpanded(t: Tree, ino: nat) {
    exists f :: f in Expanded(t) && f.ino == ino
  }

  /** The walk reaches every readable directory that can be reached. */
  ghost predicate Complete(t: Tree) {
    forall ino: nat :: Reachable(t, ino) && ino in t.listings ==> IsExpanded(t, ino)
  }

  /** What the depth limit cuts off: a directory named 64 deep that no other entry leads to in time. */
  ghost predicate NothingCutOff(t: Tree) {
    forall f, e ::
      (f in Expanded(t) && f.depth == MAX_DEPTH && f.ino in t.listings
       && e in t.listings[f.ino] && NamesDirectory(t, e) && e.ino in t.listings) ==> IsExpanded(t, e.ino)
  }

  /**
   * A way to an expanded directory that meets no directory twice, is at most 64 long, and passes expanded ones only.
   */
  ghost predicate GoodWay(t: Tree, f: Frame, chain: seq<nat>) {
    LedBy(t, f, chain) && forall i :: 0 <= i < |chain| && chain[i] in t.listings ==> IsExpanded(t, chain[i])
  }

  /** The whole walk: no directory twice, every one named by its path without a circle and at most 64 deep. */
  lemma ExpandedDirectories(t: Tree)
    ensures Unrepeated(t, Expanded(t), {})
    ensures forall f :: f in Expanded(t) ==> Reachable(t, f.ino) && exists chain: seq<nat> :: GoodWay(t, f, chain)
  {
    hide Visits;
    VisitsOnce(t, [START], {});
    assert Waits(t, {}, START, [ROOT]);
    assert HasWay(t, {}, START);
    VisitsAreLed(t, [START], {});
    forall f | f in Expanded(t) ensures Reachable(t, f.ino) && exists chain: seq<nat> :: GoodWay(t, f, chain) {
      assert IsLed(t, {}, Expanded(t), f);
      var chain: seq<nat> :| LedBy(t, f, chain) && AllOnWay(t, {}, Expanded(t), chain);
      forall i | 0 <= i < |chain| && chain[i] in t.listings ensures IsExpanded(t, chain[i]) {
        assert Covered(t, {}, Expanded(t), chain[i]);
      }
      assert GoodWay(t, f, chain);
    }
  }

  lemma {:induction false} AlongTheWay(t: Tree, chain: seq<nat>, path: seq<string>, n: nat)
    requires NothingCutOff(t) && Leads(t, chain, path) && n <= |path| && chain[n] in t.listings
    ensures IsExpanded(t, chain[n])
  {
    hide Visits;
    VisitsClosed(t, [START], {});
    if n == 0 {
      assert START in [START];
      assert Covered(t, {}, Expanded(t), ROOT);
    } else {
      assert Step(t, chain[n - 1], path[n - 1], chain[n]);
      AlongTheWay(t, chain, path, n - 1);
      var f :| f in Expanded(t) && f.ino == chain[n - 1];
      var e := Entry(chain[n], path[n - 1]);
      assert f.depth <= MAX_DEPTH by {
        ExpandedDirectories(t);
        var way: seq<nat> :| GoodWay(t, f, way);
      }
      if f.depth < MAX_DEPTH {
        assert Closed(t, {}, Expanded(t), f);
        assert Covered(t, {}, Expanded(t), e.ino);
      }
    }
  }

  /** The walk expands every reachable directory exactly when the depth limit cuts nothing off. */
  lemma CompleteIff(t: Tree)
    ensures Complete(t) <==> NothingCutOff(t)
  {
    hide Expanded;
    if NothingCutOff(t) {
      forall ino: nat | Reachable(t, ino) && ino in t.listings ensures IsExpanded(t, ino) {
        var chain: seq<nat>, path: seq<string> :| Leads(t, chain, path) && chain[|path|] == ino;
        AlongTheWay(t, chain, path, |path|);
      }
    }
    forall f, e | f in Expanded(t) && f.ino in t.listings && e in t.listings[f.ino] && NamesDirectory(t, e)
      ensures Reachable(t, e.ino)
    {
      ExpandedDirectories(t);
      var chain: seq<nat> :| GoodWay(t, f, chain);
      Further(t, f, chain, e);
    }
  }

  lemma Further(t: Tree, f: Frame, chain: seq<nat>, e: Entry)
    requires LedBy(t, f, chain) && f.ino in t.listings && e in t.listings[f.ino] && NamesDirectory(t, e)
    ensures Leads(t, chain + [e.ino], f.path + [e.name]) && Reachable(t, e.ino)
  {
    assert Step(t, chain[|f.path|], e.name, e.ino);
    assert Leads(t, chain + [e.ino], f.path + [e.name]);
  }

  // --- completeness, told from the graph alone ---

  /** No way to a readable directory that meets no directory twice is longer than 64 steps. */
  ghost predicate Shallow(t: Tree) {
    forall chain: seq<nat>, path: seq<string> ::
      Leads(t, chain, path) && NoRepeats(chain) && chain[|path|] in t.listings ==> |path| <= MAX_DEPTH
  }

  lemma NewOrMet(chain: seq<nat>, ino: nat)
    requires NoRepeats(chain)
    ensures NoRepeats(chain + [ino]) || exists i :: 0 <= i < |chain| && chain[i] == ino
  {
  }

  /** That is enough, because every directory above an expanded one is expanded itself. */
  lemma ShallowIsComplete(t: Tree)
    requires Shallow(t)
    ensures Complete(t)
  {
    hide Expanded;
    forall f, e | f in Expanded(t) && f.depth == MAX_DEPTH && f.ino in t.listings
                  && e in t.listings[f.ino] && NamesDirectory(t, e) && e.ino in t.listings
      ensures IsExpanded(t, e.ino)
    {
      ExpandedDirectories(t);
      var chain: seq<nat> :| GoodWay(t, f, chain);
      Further(t, f, chain, e);
      NewOrMet(chain, e.ino);
      assert !NoRepeats(chain + [e.ino]);
    }
    assert NothingCutOff(t);
    CompleteIff(t);
  }

  /** Some way to the directory meets no directory twice and has at most 64 steps. */
  ghost predicate Near(t: Tree, ino: nat) {
    exists chain: seq<nat>, path: seq<string> ::
      Leads(t, chain, path) && chain[|path|] == ino && NoRepeats(chain) && |path| <= MAX_DEPTH
  }

  /** And this is needed: a directory that the walk reaches is near. */
  lemma CompleteNeedsNear(t: Tree)
    requires Complete(t)
    ensures forall ino: nat :: Reachable(t, ino) && ino in t.listings ==> Near(t, ino)
  {
    hide Expanded;
    ExpandedDirectories(t);
    forall ino: nat | Reachable(t, ino) && ino in t.listings ensures Near(t, ino) {
      var f :| f in Expanded(t) && f.ino == ino;
      var chain: seq<nat> :| GoodWay(t, f, chain);
      assert Leads(t, chain, f.path);
    }
  }

  /** The directories form a tree: each is named by one entry, and the root by none. */
  ghost predicate NamedOnce(t: Tree) {
    && (forall c, n, d, m, k :: Step(t, c, n, d) && Step(t, k, m, d) ==> c == k && n == m)
    && (forall c, n :: !Step(t, c, n, ROOT))
  }

  lemma {:induction false} OneWay(t: Tree, chain: seq<nat>, path: seq<string>, other: seq<nat>, via: seq<string>)
    requires NamedOnce(t) && Leads(t, chain, path) && Leads(t, other, via) && chain[|path|] == other[|via|]
    ensures chain == other && path == via
    decreases |path|
  {
    hide Step;
    if path != [] {
      var n := |path| - 1;
      assert Step(t, chain[n], path[n], chain[n + 1]);
      if via != [] {
        var m := |via| - 1;
        assert Step(t, other[m], via[m], other[m + 1]);
        OneWay(t, chain[..n + 1], path[..n], other[..m + 1], via[..m]);
        assert chain == chain[..n + 1] + [chain[n + 1]] && other == other[..m + 1] + [other[m + 1]];
        assert path == path[..n] + [path[n]] && via == via[..m] + [via[m]];
      }
    } else {
      RootIsFirst(t, other, via);
    }
  }

  lemma RootIsFirst(t: Tree, chain: seq<nat>, path: seq<string>)
    requires NamedOnce(t) && Leads(t, chain, path) && chain[|path|] == ROOT
    ensures path == []
  {
    hide Leads, Step;
    if path != [] { LastStep(t, chain, path); }
  }

  lemma LastStep(t: Tree, chain: seq<nat>, path: seq<string>)
    requires Leads(t, chain, path) && path != []
    ensures exists c: nat, n :: Step(t, c, n, chain[|path|])
  {
    assert Step(t, chain[|path| - 1], path[|path| - 1], chain[|path|]);
  }

  /** In a tree the walk is complete exactly when no readable directory is more than 64 steps down. */
  lemma TreeCompleteIff(t: Tree)
    requires NamedOnce(t)
    ensures Complete(t) <==>
            forall chain: seq<nat>, path: seq<string> ::
              Leads(t, chain, path) && chain[|path|] in t.listings ==> |path| <= 64
  {
    hide Expanded, Step;
    if Complete(t) {
      CompleteNeedsNear(t);
      forall chain: seq<nat>, path: seq<string> | Leads(t, chain, path) && chain[|path|] in t.listings
        ensures |path| <= MAX_DEPTH
      {
        assert Reachable(t, chain[|path|]);
        var other: seq<nat>, via: seq<string> :|
          Leads(t, other, via) && other[|via|] == chain[|path|] && NoRepeats(other) && |via| <= MAX_DEPTH;
        OneWay(t, chain, path, other, via);
      }
    }
    if forall chain: seq<nat>, path: seq<string> :: Leads(t, chain, path) && chain[|path|] in t.listings ==>
      |path| <= MAX_DEPTH {
      ShallowIsComplete(t);
    }
  }

  // --- what is found ---

  /** What a step from directory to directory is, field by field. */
  lemma StepMeans(t: Tree, d: nat, name: string, c: nat)
    ensures Step(t, d, name, c) <==>
            && d in t.listings && Entry(c, name) in t.listings[d] && name != "." && name != ".." && c != 0
            && c in t.inodes && t.inodes[c].kind == Directory
  {
  }

  /** Directory `d` lists regular file `ino` by this name, and the file has no links left or a time of deletion. */
  predicate ListsDeleted(t: Tree, d: nat, name: string, ino: nat) {
    && d in t.listings && Entry(ino, name) in t.listings[d] && name != "." && name != ".." && ino != 0
    && ino in t.inodes && t.inodes[ino].kind == Regular && (t.inodes[ino].links == 0 || t.inodes[ino].dtime != 0)
  }

  lemma ListsDeletedMeans(t: Tree, d: nat, e: Entry)
    requires d in t.listings && e in t.listings[d]
    ensures NamesDeletedFile(t, e) <==> ListsDeleted(t, d, e.name, e.ino)
  {
    assert e == Entry(e.ino, e.name);
  }

  lemma {:induction false} SightedIn(t: Tree, f: Frame, entries: seq<Entry>, x: Sighting)
    ensures x in Sightings(t, f, entries) <==>
            exists e :: e in entries && NamesDeletedFile(t, e) && x == Sighting(e.ino, f.path + [e.name])
  {
    if entries != [] {
      var n := |entries| - 1;
      assert entries == entries[..n] + [entries[n]];
      SightedIn(t, f, entries[..n], x);
    }
  }

  lemma SightedInListing(t: Tree, f: Frame, x: Sighting)
    requires f.ino in t.listings
    ensures x in Sightings(t, f, Distinct(t.listings[f.ino])) <==>
            exists name :: ListsDeleted(t, f.ino, name, x.ino) && x.path == f.path + [name]
  {
    hide Sightings, NamesDeletedFile, ListsDeleted;
    var entries := t.listings[f.ino];
    SightedIn(t, f, Distinct(entries), x);
    forall e | e in entries ensures NamesDeletedFile(t, e) <==> ListsDeleted(t, f.ino, e.name, e.ino) {
      ListsDeletedMeans(t, f.ino, e);
    }
    if name :| ListsDeleted(t, f.ino, name, x.ino) && x.path == f.path + [name] {
      Listed(t, f.ino, name, x.ino);
      assert Entry(x.ino, name) in Distinct(entries);
    }
  }

  lemma Listed(t: Tree, d: nat, name: string, ino: nat)
    requires ListsDeleted(t, d, name, ino)
    ensures d in t.listings && Entry(ino, name) in t.listings[d]
  {
  }

  lemma {:induction false} SightedInAny(t: Tree, frames: seq<Frame>, x: Sighting)
    ensures x in AllSightings(t, frames) <==>
            exists f, name :: f in frames && ListsDeleted(t, f.ino, name, x.ino) && x.path == f.path + [name]
  {
    hide Distinct, Sightings, ListsDeleted;
    if frames != [] {
      var n := |frames| - 1;
      var f := frames[n];
      assert frames == frames[..n] + [f];
      SightedInAny(t, frames[..n], x);
      if f.ino in t.listings { SightedInListing(t, f, x); }
      if name :| ListsDeleted(t, f.ino, name, x.ino) { Listed(t, f.ino, name, x.ino); }
    }
  }

  /** Every file found is deleted, and its path leads to it from the root by entries of directories. */
  lemma FoundIsGenuine(t: Tree, found: map<nat, (seq<string>, nat)>, ino: nat)
    requires AllFirstSeen(t, found, AllSightings(t, Expanded(t))) && ino in found
    ensures ino in t.inodes && t.inodes[ino].kind == Regular && found[ino].1 == t.inodes[ino].size
    ensures t.inodes[ino].links == 0 || t.inodes[ino].dtime != 0
    ensures exists chain: seq<nat>, path: seq<string>, name ::
              Leads(t, chain, path) && ListsDeleted(t, chain[|path|], name, ino) && found[ino].0 == path + [name]
                && |path| <= MAX_DEPTH
  {
    hide Expanded, AllSightings;
    assert FirstSeen(t, found, AllSightings(t, Expanded(t)), ino);
    var x := Sighting(ino, found[ino].0);
    SightedInAny(t, Expanded(t), x);
    var f, name :| f in Expanded(t) && ListsDeleted(t, f.ino, name, ino) && x.path == f.path + [name];
    ExpandedDirectories(t);
    var chain: seq<nat> :| GoodWay(t, f, chain);
    assert Leads(t, chain, f.path) && ListsDeleted(t, chain[|f.path|], name, ino);
  }

  /** Where the walk is complete, the files found are exactly the deleted ones that reachable directories list. */
  lemma FoundIffNamed(t: Tree, found: map<nat, (seq<string>, nat)>, ino: nat)
    requires AllFirstSeen(t, found, AllSightings(t, Expanded(t))) && Complete(t)
    ensures ino in found <==> exists d: nat, name :: Reachable(t, d) && ListsDeleted(t, d, name, ino)
  {
    hide Expanded, AllSightings, ListsDeleted;
    var s := AllSightings(t, Expanded(t));
    assert FirstSeen(t, found, s, ino);
    if ino in found {
      FoundIsGenuine(t, found, ino);
      var chain: seq<nat>, path: seq<string>, name :|
        Leads(t, chain, path) && ListsDeleted(t, chain[|path|], name, ino);
      assert Reachable(t, chain[|path|]);
    }
    if d: nat, name :| Reachable(t, d) && ListsDeleted(t, d, name, ino) {
      Listed(t, d, name, ino);
      var f :| f in Expanded(t) && f.ino == d;
      var x := Sighting(ino, f.path + [name]);
      SightedInAny(t, Expanded(t), x);
      assert x in s;
    }
  }

  // --- a root with a deleted file, a live one and two links ---

  const SMALL: Tree := Tree(
    map[11 := Inode(Regular, 0, 7, 5), 12 := Inode(Regular, 1, 0, 6), 13 := Inode(Regular, 1, 8, 9)],
    map[ROOT := [Entry(ROOT, "."), Entry(ROOT, ".."), Entry(11, "gone"), Entry(12, "kept"), Entry(13, "old")]])

  /** It has no way down. */
  lemma SmallWays(chain: seq<nat>, path: seq<string>)
    requires Leads(SMALL, chain, path)
    ensures path == [] && chain[0] == ROOT
  {
    assert path != [] ==> Step(SMALL, chain[0], path[0], chain[1]);
    forall c, n, d ensures !Step(SMALL, c, n, d) { StepMeans(SMALL, c, n, d); }
  }

  lemma SmallIsComplete()
    ensures Complete(SMALL) && Reachable(SMALL, ROOT)
  {
    hide Complete, Step;
    forall chain: seq<nat>, path: seq<string> | Leads(SMALL, chain, path) ensures path == [] {
      SmallWays(chain, path);
    }
    ShallowIsComplete(SMALL);
    assert Leads(SMALL, [ROOT], []);
  }

  lemma SmallListing(d: nat, name: string, ino: nat)
    ensures ListsDeleted(SMALL, d, name, ino) <==>
            d == ROOT && ((name == "gone" && ino == 11) || (name == "old" && ino == 13))
  {
  }

  lemma SmallFound(found: map<nat, (seq<string>, nat)>, ino: nat)
    requires AllFirstSeen(SMALL, found, AllSightings(SMALL, Expanded(SMALL)))
    ensures ino in found <==> ino == 11 || ino == 13
    ensures ino in found ==> found[ino] == (if ino == 11 then (["gone"], 5) else (["old"], 9))
  {
    SmallInodes();
    hide SMALL, AllFirstSeen, AllSightings, Expanded, Complete, Reachable, ListsDeleted;
    SmallIsComplete();
    FoundIffNamed(SMALL, found, ino);
    forall d, name ensures ListsDeleted(SMALL, d, name, ino) <==>
        d == ROOT && ((name == "gone" && ino == 11) || (name == "old" && ino == 13)) {
      SmallListing(d, name, ino);
    }
    assert ino == 11 ==> ListsDeleted(SMALL, ROOT, "gone", ino);
    assert ino == 13 ==> ListsDeleted(SMALL, ROOT, "old", ino);
    if ino in found {
      FoundIsGenuine(SMALL, found, ino);
      var chain: seq<nat>, path: seq<string>, name :|
        Leads(SMALL, chain, path) && ListsDeleted(SMALL, chain[|path|], name, ino) && found[ino].0 == path + [name];
      SmallWays(chain, path);
      assert found[ino].0 == [name];
    }
  }

  lemma SmallInodes()
    ensures 11 in SMALL.inodes && SMALL.inodes[11].size == 5 && 13 in SMALL.inodes && SMALL.inodes[13].size == 9
  {
  }

  /** What is found in it: the file without links and the one with a time of deletion. */
  method WalkSmall() returns (found: map<nat, (seq<string>, nat)>)
    ensures found == map[11 := (["gone"], 5), 13 := (["old"], 9)]
  {
    hide SMALL, AllFirstSeen, AllSightings, Expanded;
    found := Walk(SMALL);
    forall ino: nat ensures ino in found <==> ino == 11 || ino == 13 { SmallFound(found, ino); }
    SmallFound(found, 11);
    SmallFound(found, 13);
  }
}
