/** The tree of open files of a volume: opening and closing handles, and the reference
    check that frees what is no longer used. */
module References {
  import opened FatTypes
  import opened Lists

  /** FAT_OFILE as a node of the tree.  Nodes are numbered in order of allocation. */
  datatype Node = Node(
    parent: Option<nat>,  // Parent; the root has none
    entry: nat,           // DirEnt
    opens: seq<nat>,      // Opens, the handles
    children: seq<nat>,   // ChildHead
    onCheckList: bool,    // CheckLink.ForwardLink is not NULL
    dirty: bool)

  ghost predicate NodesOk(nodes: map<nat, Node>, limit: nat) {
    forall o :: o in nodes ==> o < limit && NodeOk(nodes, o)
  }

  /** Parent and child links agree, and a parent is older than its children. */
  ghost predicate NodeOk(nodes: map<nat, Node>, o: nat)
    requires o in nodes
  {
    var n := nodes[o];
    && NoRepeats(n.children)
    && (n.parent.Some? ==> n.parent.value < o && n.parent.value in nodes && o in nodes[n.parent.value].children)
    && (forall c :: c in n.children ==> c in nodes && nodes[c].parent == Some(o))
  }

  ghost predicate Referenced(n: Node) {
    n.opens != [] || n.children != []
  }

  /** Every unreferenced file waits on the check list, except perhaps `x`. */
  ghost predicate NoneForgotten(nodes: map<nat, Node>, checkRef: seq<nat>, x: Option<nat>) {
    forall o :: o in nodes && !Referenced(nodes[o]) && Some(o) != x ==> o in checkRef
  }

  ghost predicate CheckListOk(nodes: map<nat, Node>, checkRef: seq<nat>) {
    NoRepeats(checkRef) && forall o :: o in checkRef <==> o in nodes && nodes[o].onCheckList
  }

  /** The fields that no check and no flush touches. */
  ghost predicate SameFile(a: Node, b: Node) {
    a.parent == b.parent && a.entry == b.entry && a.opens == b.opens
  }

  /** Some files were freed, none of them with an open handle. */
  ghost predicate Fewer(nodes: map<nat, Node>, nodes': map<nat, Node>) {
    && (forall o :: o in nodes' ==> o in nodes && SameFile(nodes[o], nodes'[o]))
    && (forall o :: o in nodes && nodes[o].opens != [] ==> o in nodes')
  }

  lemma FewerTrans(a: map<nat, Node>, b: map<nat, Node>, c: map<nat, Node>)
    requires Fewer(a, b) && Fewer(b, c)
    ensures Fewer(a, c)
  {
  }

  /** `o` is `d` or an ancestor of it. */
  ghost predicate Above(nodes: map<nat, Node>, limit: nat, o: nat, d: nat)
    requires NodesOk(nodes, limit) && d in nodes
    decreases d
  {
    assert NodeOk(nodes, d);
    o == d || (nodes[d].parent.Some? && Above(nodes, limit, o, nodes[d].parent.value))
  }

  /** The file or one below it has an open handle. */
  ghost predicate InUse(nodes: map<nat, Node>, limit: nat, o: nat)
    requires NodesOk(nodes, limit)
  {
    exists d :: d in nodes && nodes[d].opens != [] && Above(nodes, limit, o, d)
  }

  /** What lies above a file that is in two trees depends only on the parent links. */
  lemma {:induction false} AboveSame(nodes: map<nat, Node>, nodes': map<nat, Node>, limit: nat, limit': nat, o: nat,
      d: nat)
    requires NodesOk(nodes, limit) && NodesOk(nodes', limit') && d in nodes && d in nodes'
    requires forall a :: a in nodes && a in nodes' ==> nodes[a].parent == nodes'[a].parent
    ensures Above(nodes, limit, o, d) == Above(nodes', limit', o, d)
    ensures Above(nodes, limit, o, d) ==> o in nodes && o in nodes'
    decreases d
  {
    assert NodeOk(nodes, d) && NodeOk(nodes', d);
    if nodes[d].parent.Some? {
      AboveSame(nodes, nodes', limit, limit', o, nodes[d].parent.value);
    }
  }

  /** In a tree without unreferenced files every file is in use. */
  lemma {:induction false} ReferencedInUse(nodes: map<nat, Node>, limit: nat, o: nat)
    requires NodesOk(nodes, limit) && o in nodes && forall a :: a in nodes ==> Referenced(nodes[a])
    ensures InUse(nodes, limit, o)
    decreases limit - o
  {
    assert NodeOk(nodes, o);
    if nodes[o].opens != [] {
      assert Above(nodes, limit, o, o);
    } else {
      var c := nodes[o].children[0];
      assert c in nodes[o].children;
      assert NodeOk(nodes, c);
      ReferencedInUse(nodes, limit, c);
      var d :| d in nodes && nodes[d].opens != [] && Above(nodes, limit, c, d);
      AboveParent(nodes, limit, o, c, d);
    }
  }

  lemma {:induction false} AboveParent(nodes: map<nat, Node>, limit: nat, o: nat, c: nat, d: nat)
    requires NodesOk(nodes, limit) && c in nodes && d in nodes && nodes[c].parent == Some(o)
      && Above(nodes, limit, c, d)
    ensures Above(nodes, limit, o, d)
    decreases d
  {
    assert NodeOk(nodes, d) && NodeOk(nodes, c);
    if c == d {
      assert Above(nodes, limit, o, o);
    } else {
      AboveParent(nodes, limit, o, c, nodes[d].parent.value);
    }
  }

  /** Freeing only files without handles until none is unreferenced leaves exactly the
      files in use. */
  lemma ExactlyInUse(nodes: map<nat, Node>, nodes': map<nat, Node>, limit: nat)
    requires NodesOk(nodes, limit) && NodesOk(nodes', limit) && Fewer(nodes, nodes')
    requires forall a :: a in nodes' ==> Referenced(nodes'[a])
    ensures forall o :: o in nodes' <==> o in nodes && InUse(nodes, limit, o)
  {
    forall o
      ensures o in nodes' <==> o in nodes && InUse(nodes, limit, o)
    {
      if o in nodes' {
        ReferencedInUse(nodes', limit, o);
        var d :| d in nodes' && nodes'[d].opens != [] && Above(nodes', limit, o, d);
        AboveSame(nodes, nodes', limit, limit, o, d);
      }
      if InUse(nodes, limit, o) {
        var d :| d in nodes && nodes[d].opens != [] && Above(nodes, limit, o, d);
        AboveSame(nodes, nodes', limit, limit, o, d);
      }
    }
  }

  /** An entry's OFile pointer and the file's DirEnt pointer agree, so no entry is open twice. */
  ghost predicate EntriesOk(nodes: map<nat, Node>, entryFile: map<nat, nat>) {
    && (forall d :: d in entryFile ==> entryFile[d] in nodes && nodes[entryFile[d]].entry == d)
    && (forall o :: o in nodes ==> nodes[o].entry in entryFile && entryFile[nodes[o].entry] == o)
  }

  /** A file lies in the directory of its parent: `home` is the entry of the directory that an
      entry lies in. */
  ghost predicate HomeOk(nodes: map<nat, Node>, home: nat -> nat) {
    forall o :: o in nodes ==> HomeAt(nodes, home, o)
  }

  ghost predicate HomeAt(nodes: map<nat, Node>, home: nat -> nat, o: nat)
    requires o in nodes
  {
    nodes[o].parent.Some? ==>
        nodes[o].parent.value in nodes && home(nodes[o].entry) == nodes[nodes[o].parent.value].entry
  }

  /** It stays so while files stay where they are. */
  lemma HomeKept(nodes: map<nat, Node>, nodes': map<nat, Node>, limit: nat, home: nat -> nat)
    requires HomeOk(nodes, home) && NodesOk(nodes', limit)
    requires forall o :: o in nodes' ==>
      o in nodes && nodes'[o].parent == nodes[o].parent && nodes'[o].entry == nodes[o].entry
    ensures HomeOk(nodes', home)
  {
    forall o | o in nodes'
      ensures HomeAt(nodes', home, o)
    {
      assert HomeAt(nodes, home, o) && NodeOk(nodes', o);
    }
  }

  ghost predicate RootOk(nodes: map<nat, Node>, root: Option<nat>, rootEntry: nat) {
    && (root.Some? ==> root.value in nodes)
    && (forall o :: o in nodes ==>
      (nodes[o].parent == None <==> root == Some(o)) && (nodes[o].entry == rootEntry <==> root == Some(o)))
  }

  /** The tree without the leaf `o`. */
  ghost function Without(nodes: map<nat, Node>, o: nat): map<nat, Node>
    requires o in nodes && (nodes[o].parent.Some? ==> nodes[o].parent.value in nodes)
  {
    (match nodes[o].parent
     case None => nodes
     case Some(p) => nodes[p := nodes[p].(children := Remove(nodes[p].children, o))]) - {o}
  }

  /** Only the parent's child list changes. */
  lemma WithoutAt(nodes: map<nat, Node>, o: nat)
    requires o in nodes && NodeOk(nodes, o)
    ensures nodes[o].parent.Some? ==> nodes[o].parent.value in nodes
    ensures var nodes' := Without(nodes, o);
      && nodes'.Keys == nodes.Keys - {o}
      && forall a :: a in nodes' ==>
           nodes'[a] == if nodes[o].parent == Some(a) then nodes[a].(children := Remove(nodes[a].children, o))
               else nodes[a]
  {
  }

  lemma WithoutNode(nodes: map<nat, Node>, limit: nat, o: nat, a: nat)
    requires NodesOk(nodes, limit) && o in nodes && nodes[o].children == [] && a in nodes && a != o
    ensures nodes[o].parent.Some? ==> nodes[o].parent.value in nodes
    ensures a in Without(nodes, o) && NodeOk(Without(nodes, o), a)
  {
    assert NodeOk(nodes, o) && NodeOk(nodes, a);
    WithoutAt(nodes, o);
    WithoutSame(nodes, o);
    hide Remove, Without, NodesOk, NoRepeats;
    RemoveIsSet(nodes[a].children, o);
    if nodes[a].parent.Some? {
      NodeOkAt(nodes, limit, nodes[a].parent.value);
      RemoveIsSet(nodes[nodes[a].parent.value].children, o);
    }
  }

  lemma NodeOkAt(nodes: map<nat, Node>, limit: nat, p: nat)
    requires NodesOk(nodes, limit) && p in nodes
    ensures NodeOk(nodes, p) && p < limit
  {
  }

  lemma WithoutOk(nodes: map<nat, Node>, limit: nat, o: nat)
    requires NodesOk(nodes, limit) && o in nodes && !Referenced(nodes[o])
    ensures nodes[o].parent.Some? ==> nodes[o].parent.value in nodes
    ensures NodesOk(Without(nodes, o), limit) && Fewer(nodes, Without(nodes, o))
  {
    NodeOkAt(nodes, limit, o);
    WithoutAt(nodes, o);
    hide Remove, Without, NodeOk;
    forall a | a in Without(nodes, o)
      ensures a < limit && NodeOk(Without(nodes, o), a)
    {
      WithoutNode(nodes, limit, o, a);
    }
  }

  lemma WithoutCheckList(nodes: map<nat, Node>, checkRef: seq<nat>, o: nat)
    requires o in nodes && NodeOk(nodes, o) && !nodes[o].onCheckList
    requires CheckListOk(nodes, checkRef) && NoneForgotten(nodes, checkRef, Some(o))
    ensures nodes[o].parent.Some? ==> nodes[o].parent.value in nodes
    ensures CheckListOk(Without(nodes, o), checkRef) && NoneForgotten(Without(nodes, o), checkRef, nodes[o].parent)
  {
    WithoutAt(nodes, o);
    hide Remove, Without, NodeOk;
  }

  lemma WithoutEntry(nodes: map<nat, Node>, entryFile: map<nat, nat>, o: nat)
    requires o in nodes && NodeOk(nodes, o) && EntriesOk(nodes, entryFile)
    ensures nodes[o].parent.Some? ==> nodes[o].parent.value in nodes
    ensures EntriesOk(Without(nodes, o), entryFile - {nodes[o].entry})
  {
    WithoutSame(nodes, o);
    hide Remove, Without, NodeOk;
  }

  lemma WithoutRoot(nodes: map<nat, Node>, root: Option<nat>, rootEntry: nat, o: nat)
    requires o in nodes && NodeOk(nodes, o) && RootOk(nodes, root, rootEntry)
    ensures nodes[o].parent.Some? ==> nodes[o].parent.value in nodes
    ensures RootOk(Without(nodes, o), if nodes[o].parent.None? then None else root, rootEntry)
  {
    WithoutSame(nodes, o);
    hide Remove, Without, NodeOk;
  }

  lemma WithoutParent(nodes: map<nat, Node>, o: nat)
    requires o in nodes && NodeOk(nodes, o)
    ensures nodes[o].parent.Some? ==> nodes[o].parent.value in nodes && nodes[o].parent.value != o
  {
  }

  lemma WithoutSame(nodes: map<nat, Node>, o: nat)
    requires o in nodes && NodeOk(nodes, o)
    ensures nodes[o].parent.Some? ==> nodes[o].parent.value in nodes
    ensures Without(nodes, o).Keys == nodes.Keys - {o}
    ensures forall a :: a in Without(nodes, o) ==>
      && Without(nodes, o)[a].parent == nodes[a].parent && Without(nodes, o)[a].entry == nodes[a].entry
      && Without(nodes, o)[a].dirty == nodes[a].dirty
  {
    WithoutAt(nodes, o);
    hide Remove, Without, NodeOk;
  }

  /** Only marks and handles differ. */
  ghost predicate SameTree(nodes: map<nat, Node>, nodes': map<nat, Node>) {
    && nodes'.Keys == nodes.Keys
    && forall a :: a in nodes ==> SamePlace(nodes[a], nodes'[a])
  }

  ghost predicate SamePlace(a: Node, b: Node) {
    a.parent == b.parent && a.entry == b.entry && a.children == b.children
  }

  lemma SameTreeOk(nodes: map<nat, Node>, nodes': map<nat, Node>, limit: nat, entryFile: map<nat, nat>,
      root: Option<nat>, rootEntry: nat, home: nat -> nat)
    requires SameTree(nodes, nodes') && NodesOk(nodes, limit) && EntriesOk(nodes, entryFile)
      && RootOk(nodes, root, rootEntry) && HomeOk(nodes, home)
    ensures NodesOk(nodes', limit) && EntriesOk(nodes', entryFile) && RootOk(nodes', root, rootEntry)
      && HomeOk(nodes', home)
  {
    SameTreeNodes(nodes, nodes', limit);
    SameTreeRoot(nodes, nodes', root, rootEntry);
    SameTreeHome(nodes, nodes', limit, home);
    hide NodesOk, RootOk;
    assert forall a :: a in nodes' <==> a in nodes;
  }

  lemma SameTreeHome(nodes: map<nat, Node>, nodes': map<nat, Node>, limit: nat, home: nat -> nat)
    requires SameTree(nodes, nodes') && NodesOk(nodes', limit) && HomeOk(nodes, home)
    ensures HomeOk(nodes', home)
  {
    forall o | o in nodes'
      ensures o in nodes && nodes'[o].parent == nodes[o].parent && nodes'[o].entry == nodes[o].entry
    {
      assert o in nodes && SamePlace(nodes[o], nodes'[o]);
    }
    hide NodesOk, HomeOk;
    HomeKept(nodes, nodes', limit, home);
  }

  lemma SameTreeRoot(nodes: map<nat, Node>, nodes': map<nat, Node>, root: Option<nat>, rootEntry: nat)
    requires SameTree(nodes, nodes') && RootOk(nodes, root, rootEntry)
    ensures RootOk(nodes', root, rootEntry)
  {
    forall o | o in nodes'
      ensures (nodes'[o].parent == None <==> root == Some(o)) && (nodes'[o].entry == rootEntry <==> root == Some(o))
    {
      assert o in nodes && SamePlace(nodes[o], nodes'[o]);
    }
  }

  lemma SameTreeNodes(nodes: map<nat, Node>, nodes': map<nat, Node>, limit: nat)
    requires SameTree(nodes, nodes') && NodesOk(nodes, limit)
    ensures NodesOk(nodes', limit)
  {
    hide NoRepeats;
    forall a | a in nodes'
      ensures a < limit && NodeOk(nodes', a)
    {
      assert a in nodes && NodeOk(nodes, a);
    }
  }

  /** Taking `o` off the check list. */
  lemma TakenOff(nodes: map<nat, Node>, checkRef: seq<nat>, o: nat)
    requires o in nodes && CheckListOk(nodes, checkRef) && NoneForgotten(nodes, checkRef, Some(o))
      && nodes[o].onCheckList
    ensures var nodes' := nodes[o := nodes[o].(onCheckList := false)];
      && CheckListOk(nodes', Remove(checkRef, o)) && NoneForgotten(nodes', Remove(checkRef, o), Some(o))
    ensures Fewer(nodes, nodes[o := nodes[o].(onCheckList := false)]) && |Remove(checkRef, o)| == |checkRef| - 1
  {
    RemoveIsSet(checkRef, o);
    RemoveShrinks(checkRef, o);
    hide Remove;
  }

  /** A flush changes nothing on the check list. */
  lemma Cleaned(nodes: map<nat, Node>, nodes': map<nat, Node>, checkRef: seq<nat>, x: Option<nat>)
    requires CheckListOk(nodes, checkRef) && NoneForgotten(nodes, checkRef, x)
    requires nodes'.Keys == nodes.Keys && forall a :: a in nodes ==> nodes'[a].(dirty := nodes[a].dirty) == nodes[a]
    ensures CheckListOk(nodes', checkRef) && NoneForgotten(nodes', checkRef, x) && SameTree(nodes, nodes')
      && Fewer(nodes, nodes')
  {
    assert forall a :: a in nodes' ==> a in nodes;
  }

  lemma NothingForgotten(nodes: map<nat, Node>, checkRef: seq<nat>, o: nat)
    requires NoneForgotten(nodes, checkRef, Some(o)) && o in nodes && Referenced(nodes[o])
    ensures NoneForgotten(nodes, checkRef, None)
  {
  }

  lemma FewerRefl(nodes: map<nat, Node>)
    ensures Fewer(nodes, nodes)
  {
  }

  lemma NothingExcused(nodes: map<nat, Node>, checkRef: seq<nat>, x: Option<nat>)
    requires NoneForgotten(nodes, checkRef, None)
    ensures NoneForgotten(nodes, checkRef, x)
  {
  }

  lemma AllReferenced(nodes: map<nat, Node>, checkRef: seq<nat>)
    requires NoneForgotten(nodes, checkRef, None) && checkRef == []
    ensures forall o :: o in nodes ==> Referenced(nodes[o])
  {
  }

  /** A file with other handles that is put on the check list. */
  lemma HandlesChange(nodes: map<nat, Node>, checkRef: seq<nat>, o: nat, opens: seq<nat>)
    requires o in nodes && CheckListOk(nodes, checkRef) && NoneForgotten(nodes, checkRef, None)
    ensures var nodes' := nodes[o := nodes[o].(opens := opens, onCheckList := true)];
      var checkRef' := if nodes[o].onCheckList then checkRef else [o] + checkRef;
      && SameTree(nodes, nodes') && CheckListOk(nodes', checkRef') && NoneForgotten(nodes', checkRef', None)
  {
  }

  /** The tree with the new leaf `o`, waiting to be checked. */
  function With(nodes: map<nat, Node>, o: nat, parent: Option<nat>, d: nat): map<nat, Node>
    requires parent.Some? ==> parent.value in nodes
  {
    (match parent
     case None => nodes
     case Some(p) => nodes[p := nodes[p].(children := nodes[p].children + [o])])[o := Node(parent, d, [], [], true,
         false)]
  }

  lemma WithNode(nodes: map<nat, Node>, o: nat, parent: Option<nat>, d: nat, a: nat)
    requires NodesOk(nodes, o) && (parent.Some? ==> parent.value in nodes) && (a in nodes || a == o)
    ensures a in With(nodes, o, parent, d) && NodeOk(With(nodes, o, parent, d), a)
  {
    assert a in nodes ==> NodeOk(nodes, a);
    assert parent.Some? ==> NodeOk(nodes, parent.value);
    var n := With(nodes, o, parent, d)[a];
    if Some(a) == parent {
      forall i, j | 0 <= i < j < |n.children|
        ensures n.children[i] != n.children[j]
      {
        assert n.children[i] in nodes[a].children;
      }
    }
  }

  lemma WithOk(nodes: map<nat, Node>, o: nat, parent: Option<nat>, d: nat)
    requires NodesOk(nodes, o) && (parent.Some? ==> parent.value in nodes)
    ensures NodesOk(With(nodes, o, parent, d), o + 1) && o !in nodes
  {
    forall a | a in With(nodes, o, parent, d)
      ensures a < o + 1 && NodeOk(With(nodes, o, parent, d), a)
    {
      assert a in nodes || a == o;
      WithNode(nodes, o, parent, d, a);
    }
  }

  lemma WithAt(nodes: map<nat, Node>, o: nat, parent: Option<nat>, d: nat)
    requires o !in nodes && (parent.Some? ==> parent.value in nodes)
    ensures var nodes' := With(nodes, o, parent, d);
      && nodes'.Keys == nodes.Keys + {o} && nodes'[o] == Node(parent, d, [], [], true, false)
      && forall a :: a in nodes ==> SameButChildren(nodes[a], nodes'[a]) && |nodes[a].children| <= |nodes'[a].children|
  {
  }

  ghost predicate SameButChildren(a: Node, b: Node) {
    SameFile(a, b) && a.onCheckList == b.onCheckList
  }

  lemma WithCheckList(nodes: map<nat, Node>, o: nat, checkRef: seq<nat>, parent: Option<nat>, d: nat)
    requires o !in nodes && (parent.Some? ==> parent.value in nodes)
    requires CheckListOk(nodes, checkRef) && NoneForgotten(nodes, checkRef, None)
    ensures CheckListOk(With(nodes, o, parent, d), [o] + checkRef)
      && NoneForgotten(With(nodes, o, parent, d), [o] + checkRef, None)
  {
    WithAt(nodes, o, parent, d);
    hide With;
  }

  lemma WithEntries(nodes: map<nat, Node>, o: nat, entryFile: map<nat, nat>, parent: Option<nat>, d: nat)
    requires o !in nodes && (parent.Some? ==> parent.value in nodes) && d !in entryFile && EntriesOk(nodes, entryFile)
    ensures EntriesOk(With(nodes, o, parent, d), entryFile[d := o])
  {
    WithAt(nodes, o, parent, d);
    hide With;
  }

  lemma WithRoot(nodes: map<nat, Node>, o: nat, entryFile: map<nat, nat>, root: Option<nat>, rootEntry: nat,
      parent: Option<nat>, d: nat)
    requires o !in nodes && (parent.Some? ==> parent.value in nodes) && (parent.None? <==> d == rootEntry)
      && d !in entryFile
    requires EntriesOk(nodes, entryFile) && RootOk(nodes, root, rootEntry)
    ensures RootOk(With(nodes, o, parent, d), if parent.None? then Some(o) else root, rootEntry)
  {
    WithAt(nodes, o, parent, d);
    var nodes' := With(nodes, o, parent, d);
    hide With;
    assert root.Some? ==> nodes[root.value].entry == rootEntry;
    var root' := if parent.None? then Some(o) else root;
    forall a | a in nodes'
      ensures (nodes'[a].parent == None <==> root' == Some(a)) && (nodes'[a].entry == rootEntry <==> root' == Some(a))
    {
      assert a == o || (a in nodes && SameButChildren(nodes[a], nodes'[a]));
    }
  }

  lemma WithHome(nodes: map<nat, Node>, o: nat, home: nat -> nat, parent: Option<nat>, d: nat)
    requires o !in nodes && HomeOk(nodes, home)
    requires parent.Some? ==> parent.value in nodes && home(d) == nodes[parent.value].entry
    ensures HomeOk(With(nodes, o, parent, d), home)
  {
    WithAt(nodes, o, parent, d);
    var nodes' := With(nodes, o, parent, d);
    hide With;
    forall a | a in nodes'
      ensures HomeAt(nodes', home, a)
    {
      if a != o {
        assert a in nodes && HomeAt(nodes, home, a);
      }
    }
  }

  /** The file of an entry is a child of the file of its directory. */
  lemma SameParent(nodes: map<nat, Node>, entryFile: map<nat, nat>, root: Option<nat>, rootEntry: nat, home: nat -> nat,
      parent: Option<nat>, d: nat)
    requires EntriesOk(nodes, entryFile) && RootOk(nodes, root, rootEntry) && HomeOk(nodes, home) && d in entryFile
    requires parent.None? <==> d == rootEntry
    requires parent.Some? ==> parent.value in nodes && home(d) == nodes[parent.value].entry
    ensures entryFile[d] in nodes && nodes[entryFile[d]].parent == parent
  {
    assert HomeAt(nodes, home, entryFile[d]);
  }

  lemma EntryAt(nodes: map<nat, Node>, entryFile: map<nat, nat>, d: nat)
    requires EntriesOk(nodes, entryFile)
    ensures d in entryFile ==> entryFile[d] in nodes && nodes[entryFile[d]].entry == d
  {
  }

  /** The files between the calls: those open before are open still, and the handles are
      the old ones and perhaps one more. */
  ghost predicate Opened(nodes: map<nat, Node>, nodes': map<nat, Node>, handle: Option<(nat, nat)>) {
    && (forall o :: o in nodes ==>
      o in nodes' && nodes'[o].parent == nodes[o].parent && nodes'[o].entry == nodes[o].entry)
    && (forall o :: o in nodes' ==> nodes'[o].opens == Handles(nodes, handle, o))
    && (handle.Some? ==> handle.value.0 in nodes')
  }

  ghost function Handles(nodes: map<nat, Node>, handle: Option<(nat, nat)>, o: nat): seq<nat> {
    (if o in nodes then nodes[o].opens else []) + (if handle.Some? && handle.value.0 == o then [handle.value.1] else [])
  }

  lemma OpenedRefl(nodes: map<nat, Node>)
    ensures Opened(nodes, nodes, None)
  {
  }

  lemma OpenedWith(nodes: map<nat, Node>, mid: map<nat, Node>, o: nat, parent: Option<nat>, d: nat)
    requires Opened(nodes, mid, None) && o !in mid && (parent.Some? ==> parent.value in mid)
    ensures Opened(nodes, With(mid, o, parent, d), None)
  {
    WithAt(mid, o, parent, d);
    hide With;
  }

  lemma OpenedHandle(nodes: map<nat, Node>, mid: map<nat, Node>, o: nat, handle: nat)
    requires Opened(nodes, mid, None) && o in mid
    ensures Opened(nodes, mid[o := mid[o].(opens := mid[o].opens + [handle])], Some((o, handle)))
  {
  }

  lemma OpenedFlushed(nodes: map<nat, Node>, mid: map<nat, Node>, mid': map<nat, Node>, handle: Option<(nat, nat)>)
    requires Opened(nodes, mid, handle)
    requires mid'.Keys == mid.Keys && forall a :: a in mid ==> SameFile(mid[a], mid'[a])
    ensures Opened(nodes, mid', handle)
  {
    assert forall a :: a in mid' <==> a in mid;
  }

  /** A check after an open frees nothing that was in use before. */
  lemma OpenedChecked(nodes: map<nat, Node>, limit: nat, mid: map<nat, Node>, handle: Option<(nat, nat)>,
      nodes': map<nat, Node>, limit': nat)
    requires NodesOk(nodes, limit) && NodesOk(nodes', limit') && Opened(nodes, mid, handle) && Fewer(mid, nodes')
    requires forall o :: o in nodes ==> Referenced(nodes[o])
    ensures Opened(nodes, nodes', handle)
  {
    forall o | o in nodes
      ensures o in nodes'
    {
      ReferencedInUse(nodes, limit, o);
      var d :| d in nodes && nodes[d].opens != [] && Above(nodes, limit, o, d);
      assert mid[d].opens == Handles(nodes, handle, d);
      AboveSame(nodes, nodes', limit, limit', o, d);
    }
    if handle.Some? {
      assert mid[handle.value.0].opens == Handles(nodes, handle, handle.value.0);
    }
  }

  /** A component of a file name: `..`, or a name found at a directory entry. */
  datatype Component = Up | Named(entry: nat)

  /** The names were found one after the other, from the directory with the entry `at` on: each
      is that of an entry in the directory reached before. */
  ghost predicate Found(home: nat -> nat, rootEntry: nat, path: seq<Component>, at: nat)
    decreases |path|
  {
    path == [] || match path[0]
      case Up => at == rootEntry || Found(home, rootEntry, path[1..], home(at))
      case Named(d) => d != rootEntry && home(d) == at && Found(home, rootEntry, path[1..], d)
  }

  lemma FoundFrom(home: nat -> nat, rootEntry: nat, path: seq<Component>, i: nat, at: nat)
    requires i < |path| && Found(home, rootEntry, path[i..], at)
    ensures match path[i]
      case Up => at == rootEntry || Found(home, rootEntry, path[i + 1..], home(at))
      case Named(d) => d != rootEntry && home(d) == at && Found(home, rootEntry, path[i + 1..], d)
  {
    assert path[i..][1..] == path[i + 1..];
  }

  lemma HomeOf(nodes: map<nat, Node>, limit: nat, root: Option<nat>, rootEntry: nat, home: nat -> nat, o: nat)
    requires NodesOk(nodes, limit) && RootOk(nodes, root, rootEntry) && HomeOk(nodes, home) && o in nodes
    ensures nodes[o].parent.None? <==> nodes[o].entry == rootEntry
    ensures nodes[o].parent.Some? ==>
      nodes[o].parent.value in nodes && home(nodes[o].entry) == nodes[nodes[o].parent.value].entry
  {
    assert NodeOk(nodes, o) && HomeAt(nodes, home, o);
  }

  /** The files `trail` are those that the components `path` lead to, one after the other. */
  ghost predicate Leads(nodes: map<nat, Node>, path: seq<Component>, trail: seq<nat>) {
    && |trail| == |path| + 1 && (forall k :: 0 <= k < |trail| ==> trail[k] in nodes)
    && forall k :: 0 <= k < |path| ==> LeadsAt(nodes, path, trail, k)
  }

  ghost predicate LeadsAt(nodes: map<nat, Node>, path: seq<Component>, trail: seq<nat>, k: nat)
    requires k < |path| && k + 1 < |trail|
  {
    trail[k] in nodes && trail[k + 1] in nodes && LeadsOn(nodes, path[k], trail[k], trail[k + 1])
  }

  ghost predicate LeadsOn(nodes: map<nat, Node>, c: Component, from: nat, to: nat)
    requires from in nodes && to in nodes
  {
    match c
    case Up => nodes[from].parent == Some(to)
    case Named(d) => nodes[to].entry == d && nodes[to].parent == Some(from)
  }

  lemma LeadsFurther(nodes: map<nat, Node>, nodes': map<nat, Node>, path: seq<Component>, trail: seq<nat>,
      c: Component, to: nat)
    requires Leads(nodes, path, trail) && Opened(nodes, nodes', None)
    requires to in nodes' && LeadsOn(nodes', c, trail[|path|], to)
    ensures Leads(nodes', path + [c], trail + [to])
  {
    hide Opened;
    forall k | 0 <= k < |path|
      ensures LeadsAt(nodes', path + [c], trail + [to], k)
    {
      assert LeadsAt(nodes, path, trail, k);
      OpenedAt(nodes, nodes', trail[k]);
      OpenedAt(nodes, nodes', trail[k + 1]);
    }
    OpenedAt(nodes, nodes', trail[|path|]);
    assert LeadsAt(nodes', path + [c], trail + [to], |path|);
    forall k | 0 <= k < |trail|
      ensures trail[k] in nodes'
    {
      OpenedAt(nodes, nodes', trail[k]);
    }
  }

  lemma OpenedAt(nodes: map<nat, Node>, nodes': map<nat, Node>, o: nat)
    requires Opened(nodes, nodes', None) && o in nodes
    ensures o in nodes' && nodes'[o].parent == nodes[o].parent && nodes'[o].entry == nodes[o].entry
  {
  }

  lemma LeadsNowhere(nodes: map<nat, Node>, start: nat)
    requires start in nodes
    ensures forall path: seq<Component> :: Leads(nodes, path[..0], [start])
  {
  }

  lemma OpenedTrans(nodes: map<nat, Node>, mid: map<nat, Node>, now: map<nat, Node>)
    requires Opened(nodes, mid, None) && Opened(mid, now, None)
    ensures Opened(nodes, now, None)
  {
  }

  /** One component further. */
  lemma Stepped(nodes: map<nat, Node>, mid: map<nat, Node>, now: map<nat, Node>, path: seq<Component>, trail: seq<nat>,
      i: nat, o: nat)
    requires Opened(nodes, mid, None) && Opened(mid, now, None)
    requires i < |path| && |trail| == i + 1 && Leads(mid, path[..i], trail) && trail[i] in now && o in now
    requires LeadsOn(now, path[i], trail[i], o)
    ensures Opened(nodes, now, None) && Leads(now, path[..i + 1], trail + [o])
  {
    hide Opened, LeadsOn, LeadsAt;
    OpenedTrans(nodes, mid, now);
    assert path[..i + 1] == path[..i] + [path[i]];
    LeadsFurther(mid, now, path[..i], trail, path[i], o);
  }

  lemma SameAsWalked(walked: map<nat, Node>, mid: map<nat, Node>, now: map<nat, Node>, o: nat, handle: nat)
    requires o in walked && mid == walked[o := walked[o].(opens := walked[o].opens + [handle])]
    requires now.Keys == mid.Keys && forall a :: a in now ==> SameFile(mid[a], now[a])
    ensures o in now && now[o].parent == walked[o].parent && now[o].entry == walked[o].entry
  {
  }

  lemma StillThere(nodes: map<nat, Node>, flushed: map<nat, Node>, now: map<nat, Node>, o: nat, handle: nat)
    requires o in flushed && Fewer(flushed, now) && Opened(nodes, now, Some((o, handle)))
    ensures o in now && now[o].parent == flushed[o].parent && now[o].entry == flushed[o].entry
  {
  }

  /** Every dirty file is dirty still or was written to its directory; the root has no entry in
      one. */
  ghost predicate Saved(nodes: map<nat, Node>, nodes': map<nat, Node>, wrote: seq<nat>) {
    && (forall a :: a in nodes && nodes[a].dirty && nodes[a].parent.Some? ==>
          nodes[a].entry in wrote || (a in nodes' && nodes'[a].dirty))
    && forall a :: a in nodes' && nodes'[a].dirty ==> a in nodes && nodes[a].dirty
  }

  /** One file more is written. */
  lemma SavedOne(nodes: map<nat, Node>, mid: map<nat, Node>, now: map<nat, Node>, at: nat, was: seq<nat>,
      wrote: seq<nat>, n: nat)
    requires OnlyCleaned(nodes, mid) && at in mid && now == mid[at := mid[at].(dirty := false)]
    requires n <= |was| && Saved(nodes, mid, was[n..])
    requires wrote == was + if mid[at].dirty && mid[at].parent.Some? then [mid[at].entry] else []
    ensures OnlyCleaned(nodes, now) && at in nodes && now[at].parent == nodes[at].parent
    ensures n <= |wrote| && wrote[..n] == was[..n] && Saved(nodes, now, wrote[n..])
  {
    assert wrote[n..] == was[n..] + wrote[|was|..];
  }

  lemma NothingSaved(nodes: map<nat, Node>)
    ensures OnlyCleaned(nodes, nodes) && Saved(nodes, nodes, [])
  {
  }

  lemma SavedTrans(nodes: map<nat, Node>, mid: map<nat, Node>, now: map<nat, Node>, was: seq<nat>, wrote: seq<nat>,
      n: nat)
    requires n <= |was| <= |wrote| && wrote[..|was|] == was && Fewer(nodes, mid)
    requires Saved(nodes, mid, was[n..]) && Saved(mid, now, wrote[|was|..])
    ensures wrote[..n] == was[..n] && Saved(nodes, now, wrote[n..])
  {
    assert wrote[n..] == was[n..] + wrote[|was|..];
  }

  lemma CheckedSaved(nodes: map<nat, Node>, mid: map<nat, Node>, now: map<nat, Node>, o: nat, wrote: seq<nat>)
    requires o in nodes && mid == nodes[o := nodes[o].(onCheckList := false)] && OnlyCleaned(mid, now)
    requires Saved(mid, now, wrote) && !now[o].dirty
    ensures Saved(nodes, now, wrote) && Fewer(nodes, now) && SameTree(nodes, now)
    ensures nodes[o].dirty && nodes[o].parent.Some? ==> nodes[o].entry in wrote
  {
  }

  lemma FreedSaved(nodes: map<nat, Node>, mid: map<nat, Node>, now: map<nat, Node>, o: nat, wrote: seq<nat>)
    requires Saved(nodes, mid, wrote) && o in mid && !mid[o].dirty && now.Keys == mid.Keys - {o}
    requires forall a :: a in now ==> now[a].dirty == mid[a].dirty
    ensures Saved(nodes, now, wrote)
  {
  }

  lemma SavedFreed(nodes: map<nat, Node>, nodes': map<nat, Node>, wrote: seq<nat>)
    requires Saved(nodes, nodes', wrote)
    ensures forall a :: a in nodes && a !in nodes' && nodes[a].dirty && nodes[a].parent.Some? ==>
      nodes[a].entry in wrote
  {
  }

  /** Files above open ones are in use. */
  lemma AboveOpen(nodes: map<nat, Node>, nodes': map<nat, Node>, limit: nat)
    requires NodesOk(nodes, limit) && forall a :: a in nodes' <==> a in nodes && InUse(nodes, limit, a)
    ensures forall a, d :: a in nodes && d in nodes && nodes[d].opens != [] && Above(nodes, limit, a, d) ==>
      a in nodes' && d in nodes'
  {
    hide NodesOk;
    forall a, d | a in nodes && d in nodes && nodes[d].opens != [] && Above(nodes, limit, a, d)
      ensures a in nodes' && d in nodes'
    {
      assert Above(nodes, limit, d, d);
      assert InUse(nodes, limit, a) && InUse(nodes, limit, d);
    }
  }

  lemma AboveClean(nodes: map<nat, Node>, mid: map<nat, Node>, now: map<nat, Node>, limit: nat, o: nat)
    requires NodesOk(nodes, limit) && NodesOk(mid, limit) && o in nodes && mid.Keys == nodes.Keys == now.Keys
    requires forall a :: a in nodes ==> mid[a].parent == nodes[a].parent
    requires forall a :: a in now && Above(mid, limit, a, o) ==> !now[a].dirty
    ensures !now[o].dirty && forall a :: a in now && Above(nodes, limit, a, o) ==> !now[a].dirty
  {
    hide NodesOk;
    assert Above(mid, limit, o, o);
    forall a | a in now && Above(nodes, limit, a, o)
      ensures !now[a].dirty
    {
      AboveSame(nodes, mid, limit, limit, a, o);
    }
  }

  /** A flushed file that a check keeps is clean up to the root. */
  lemma StillClean(nodes: map<nat, Node>, now: map<nat, Node>, limit: nat, limit': nat, o: nat, wrote: seq<nat>)
    requires NodesOk(nodes, limit) && NodesOk(now, limit') && o in nodes && o in now
    requires forall a :: a in nodes && Above(nodes, limit, a, o) ==> !nodes[a].dirty
    requires Saved(nodes, now, wrote) && Fewer(nodes, now)
    ensures forall a :: a in now && Above(now, limit', a, o) ==> !now[a].dirty
  {
    hide NodesOk;
    forall a | a in now && Above(now, limit', a, o)
      ensures !now[a].dirty
    {
      AboveSame(now, nodes, limit', limit, a, o);
    }
  }

  lemma FewerFields(nodes: map<nat, Node>, nodes': map<nat, Node>)
    requires Fewer(nodes, nodes')
    ensures forall a :: a in nodes' ==>
      && a in nodes && nodes'[a].opens == nodes[a].opens && nodes'[a].parent == nodes[a].parent
      && nodes'[a].entry == nodes[a].entry
  {
  }

  /** Only dirty marks differ. */
  ghost predicate OnlyCleaned(nodes: map<nat, Node>, nodes': map<nat, Node>) {
    nodes'.Keys == nodes.Keys && forall a :: a in nodes' ==> nodes'[a].(dirty := nodes[a].dirty) == nodes[a]
  }

  lemma StepUp(nodes: map<nat, Node>, limit: nat, d: nat)
    requires NodesOk(nodes, limit) && d in nodes
    ensures NodeOk(nodes, d) && Above(nodes, limit, d, d)
    ensures forall a :: Above(nodes, limit, a, d) <==>
      a == d || (nodes[d].parent.Some? && Above(nodes, limit, a, nodes[d].parent.value))
  {
    assert NodeOk(nodes, d);
  }

  lemma CleanedOk(nodes: map<nat, Node>, nodes': map<nat, Node>, limit: nat)
    requires NodesOk(nodes, limit) && OnlyCleaned(nodes, nodes')
    ensures NodesOk(nodes', limit)
    ensures nodes'.Keys == nodes.Keys && forall a :: a in nodes' ==> nodes'[a].(dirty := nodes[a].dirty) == nodes[a]
  {
    SameTreeNodes(nodes, nodes', limit);
  }

  lemma ClosedOk(nodes: map<nat, Node>, limit: nat, checkRef: seq<nat>, entryFile: map<nat, nat>, root: Option<nat>,
      rootEntry: nat, home: nat -> nat, o: nat, opens: seq<nat>)
    requires o in nodes && NodesOk(nodes, limit) && EntriesOk(nodes, entryFile) && RootOk(nodes, root, rootEntry)
      && HomeOk(nodes, home)
    requires CheckListOk(nodes, checkRef) && NoneForgotten(nodes, checkRef, None)
    ensures var nodes' := nodes[o := nodes[o].(opens := opens, onCheckList := true)];
      var checkRef' := if nodes[o].onCheckList then checkRef else [o] + checkRef;
      && NodesOk(nodes', limit) && EntriesOk(nodes', entryFile) && RootOk(nodes', root, rootEntry)
      && HomeOk(nodes', home) && CheckListOk(nodes', checkRef') && NoneForgotten(nodes', checkRef', None)
        && nodes'.Keys == nodes.Keys
  {
    hide NodesOk, EntriesOk, RootOk, HomeOk, Remove;
    HandlesChange(nodes, checkRef, o, opens);
    SameTreeOk(nodes, nodes[o := nodes[o].(opens := opens, onCheckList := true)], limit, entryFile, root, rootEntry,
        home);
  }

  /** The open files of FAT_VOLUME. */
  class OpenFiles {
    const rootEntry: nat
    const home: nat -> nat
    var root: Option<nat>
    var nodes: map<nat, Node>
    var checkRef: seq<nat>
    var entryFile: map<nat, nat>
    var next: nat
    ghost var stored: seq<nat>  // the entries written to their directories, in order

    constructor (rootEntry: nat, home: nat -> nat)
      ensures Quiet() && nodes == map[] && this.rootEntry == rootEntry && this.home == home
    {
      this.rootEntry, this.home := rootEntry, home;
      root, nodes, checkRef, entryFile, next, stored := None, map[], [], map[], 0, [];
    }

    /** Consistent, with `x` perhaps unreferenced and not yet looked at. */
    ghost predicate Valid(x: Option<nat>)
      reads this
    {
      && NodesOk(nodes, next) && CheckListOk(nodes, checkRef) && NoneForgotten(nodes, checkRef, x)
      && EntriesOk(nodes, entryFile) && RootOk(nodes, root, rootEntry) && HomeOk(nodes, home)
    }

    /** Between calls: nothing waits to be checked and nothing unreferenced is left. */
    ghost predicate Quiet()
      reads this
    {
      Valid(None) && checkRef == [] && forall o :: o in nodes ==> Referenced(nodes[o])
    }

    /** FatOFileFlush: write the dirty entries on the way up to the root. */
    method FlushUp(o: nat)
      requires NodesOk(nodes, next) && o in nodes
      modifies this`nodes, this`stored
      ensures nodes.Keys == old(nodes).Keys
        && forall a :: a in nodes ==> nodes[a].(dirty := old(nodes)[a].dirty) == old(nodes)[a]
      ensures NodesOk(nodes, next) && forall a :: a in nodes && Above(old(nodes), next, a, o) ==> !nodes[a].dirty
      ensures |old(stored)| <= |stored| && stored[..|old(stored)|] == old(stored)
      ensures Saved(old(nodes), nodes, stored[|old(stored)|..])
    {
      hide NodesOk, NodeOk, Above, Saved, OnlyCleaned;
      var at := Some(o);
      StepUp(nodes, next, o);
      NothingSaved(nodes);
      assert stored[|stored|..] == [];
      while at.Some?
        invariant at.Some? ==> at.value in nodes
        invariant OnlyCleaned(old(nodes), nodes)
        invariant nodes.Keys == old(nodes).Keys
        invariant |old(stored)| <= |stored| && stored[..|old(stored)|] == old(stored)
        invariant Saved(old(nodes), nodes, stored[|old(stored)|..])
        invariant forall a :: a in nodes && Above(old(nodes), next, a, o) ==>
          !nodes[a].dirty || (at.Some? && Above(old(nodes), next, a, at.value))
        decreases if at.Some? then at.value + 1 else 0
      {
        NodeOkAt(old(nodes), next, at.value);
        StepUp(old(nodes), next, at.value);
        ghost var before, was := nodes, stored;
        FlushEntry(at.value);
        SavedOne(old(nodes), before, nodes, at.value, was, stored, |old(stored)|);
        at := nodes[at.value].parent;
      }
      CleanedOk(old(nodes), nodes, next);
    }

    /** One turn of the loop in FatOFileFlush. */
    method FlushEntry(o: nat)
      requires o in nodes
      modifies this`nodes, this`stored
      ensures nodes == old(nodes)[o := old(nodes)[o].(dirty := false)]
      ensures stored == old(stored) +
        if old(nodes)[o].dirty && old(nodes)[o].parent.Some? then [old(nodes)[o].entry] else []
    {
      var n := nodes[o];
      if n.dirty {
        if n.parent.Some? {
          stored := stored + [n.entry];
        }
        nodes := nodes[o := n.(dirty := false)];
      }
    }

    /** FatCloseDirEnt. */
    method CloseDirEnt(o: nat)
      requires Valid(Some(o)) && o in nodes && !Referenced(nodes[o]) && !nodes[o].onCheckList
      modifies this`nodes, this`root, this`entryFile
      ensures nodes.Keys == old(nodes).Keys - {o} && Fewer(old(nodes), nodes)
      ensures Valid(old(nodes)[o].parent) && forall a :: a in nodes ==> nodes[a].dirty == old(nodes)[a].dirty
    {
      hide Remove, NodesOk, NodeOk, CheckListOk, NoneForgotten, EntriesOk, RootOk, HomeOk, Fewer;
      NodeOkAt(nodes, next, o);
      WithoutParent(nodes, o);
      WithoutOk(nodes, next, o);
      WithoutCheckList(nodes, checkRef, o);
      WithoutEntry(nodes, entryFile, o);
      WithoutRoot(nodes, root, rootEntry, o);
      WithoutAt(nodes, o);
      WithoutSame(nodes, o);
      HomeKept(nodes, Without(nodes, o), next, home);
      var n := nodes[o];
      if n.parent.None? {
        root := None;
      } else {
        var p := n.parent.value;
        nodes := nodes[p := nodes[p].(children := Remove(nodes[p].children, o))];
      }
      nodes := nodes - {o};
      entryFile := entryFile - {n.entry};
    }

    /** FatCheckOFileRef: free the file unless a handle or a child refers to it. */
    method CheckOFileRef(o: nat) returns (freed: bool)
      requires Valid(Some(o)) && o in nodes
      modifies this`nodes, this`root, this`entryFile, this`checkRef, this`stored
      ensures NodesOk(old(nodes), next) && forall a :: a in nodes && Above(old(nodes), next, a, o) ==> !nodes[a].dirty
      ensures |old(stored)| <= |stored| && stored[..|old(stored)|] == old(stored)
      ensures Saved(old(nodes), nodes, stored[|old(stored)|..])
      ensures old(nodes)[o].dirty && old(nodes)[o].parent.Some? ==> old(nodes)[o].entry in stored[|old(stored)|..]
      ensures freed == !Referenced(old(nodes)[o]) && Fewer(old(nodes), nodes)
      ensures freed ==> nodes.Keys == old(nodes).Keys - {o} && Valid(old(nodes)[o].parent)
      ensures !freed ==> nodes.Keys == old(nodes).Keys && Valid(None)
      ensures |checkRef| == if old(nodes)[o].onCheckList then |old(checkRef)| - 1 else |old(checkRef)|
    {
      hide NodesOk, CheckListOk, NoneForgotten, EntriesOk, RootOk, HomeOk, Fewer, Above, Saved, SameTree;
      TakeOff(o);
      ghost var before := nodes;
      Flush(o, Some(o));
      AboveClean(old(nodes), before, nodes, next, o);
      CheckedSaved(old(nodes), before, nodes, o, stored[|old(stored)|..]);
      if nodes[o].opens != [] || nodes[o].children != [] {
        NothingForgotten(nodes, checkRef, o);
        return false;
      }
      ghost var flushed := nodes;
      CloseDirEnt(o);
      FewerTrans(old(nodes), flushed, nodes);
      FreedSaved(old(nodes), flushed, nodes, o, stored[|old(stored)|..]);
      return true;
    }

    /** The start of FatCheckOFileRef. */
    method TakeOff(o: nat)
      requires Valid(Some(o)) && o in nodes
      modifies this`nodes, this`checkRef
      ensures Valid(Some(o)) && nodes == old(nodes)[o := old(nodes)[o].(onCheckList := false)]
      ensures |checkRef| == if old(nodes)[o].onCheckList then |old(checkRef)| - 1 else |old(checkRef)|
    {
      hide Remove, NodesOk, CheckListOk, NoneForgotten, EntriesOk, RootOk, HomeOk, Fewer;
      if nodes[o].onCheckList {
        TakenOff(nodes, checkRef, o);
        checkRef := Remove(checkRef, o);
        nodes := nodes[o := nodes[o].(onCheckList := false)];
      }
      SameTreeOk(old(nodes), nodes, next, entryFile, root, rootEntry, home);
    }

    /** FatOFileFlush while the references are consistent. */
    method Flush(o: nat, ghost x: Option<nat>)
      requires Valid(x) && o in nodes
      modifies this`nodes, this`stored
      ensures Valid(x) && nodes.Keys == old(nodes).Keys
        && forall a :: a in nodes ==> nodes[a].(dirty := old(nodes)[a].dirty) == old(nodes)[a]
      ensures NodesOk(old(nodes), next) && forall a :: a in nodes && Above(old(nodes), next, a, o) ==> !nodes[a].dirty
      ensures |old(stored)| <= |stored| && stored[..|old(stored)|] == old(stored)
      ensures Saved(old(nodes), nodes, stored[|old(stored)|..])
    {
      hide NodesOk, CheckListOk, NoneForgotten, EntriesOk, RootOk, HomeOk, Fewer, NoRepeats, Above, Saved;
      FlushUp(o);
      Cleaned(old(nodes), nodes, checkRef, x);
      SameTreeOk(old(nodes), nodes, next, entryFile, root, rootEntry, home);
    }

    /** FatCheckVolumeRef: what stays open is exactly what is in use. */
    method CheckVolumeRef()
      requires Valid(None)
      modifies this`nodes, this`root, this`entryFile, this`checkRef, this`stored
      ensures |old(stored)| <= |stored| && stored[..|old(stored)|] == old(stored)
      ensures Saved(old(nodes), nodes, stored[|old(stored)|..])
      ensures Quiet() && Fewer(old(nodes), nodes)
      ensures NodesOk(old(nodes), next) && forall o :: o in nodes <==> o in old(nodes) && InUse(old(nodes), next, o)
    {
      hide NodesOk, NoneForgotten, EntriesOk, RootOk, HomeOk, Fewer, NoRepeats, Remove;
      FewerRefl(nodes);
      NothingSaved(nodes);
      assert stored[|stored|..] == [];
      while checkRef != []
        invariant Valid(None) && Fewer(old(nodes), nodes)
        invariant |old(stored)| <= |stored| && stored[..|old(stored)|] == old(stored)
        invariant Saved(old(nodes), nodes, stored[|old(stored)|..])
        decreases |checkRef|
      {
        assert checkRef[0] in checkRef;
        var parent := Some(checkRef[0]);
        ghost var waiting := |checkRef|;
        NothingExcused(nodes, checkRef, parent);
        while parent.Some?
          invariant Valid(parent) && Fewer(old(nodes), nodes)
          invariant |old(stored)| <= |stored| && stored[..|old(stored)|] == old(stored)
          invariant Saved(old(nodes), nodes, stored[|old(stored)|..])
          invariant parent.Some? ==> parent.value in nodes
          invariant |checkRef| < waiting
            || (parent == Some(checkRef[0]) && |checkRef| == waiting && nodes[checkRef[0]].onCheckList)
          decreases if parent.Some? then parent.value + 1 else 0
        {
          var file := parent.value;
          NodeOkAt(nodes, next, file);
          ghost var before, was := nodes, stored;
          parent := nodes[file].parent;
          var freed := CheckOFileRef(file);
          FewerTrans(old(nodes), before, nodes);
          SavedTrans(old(nodes), before, nodes, was, stored, |old(stored)|);
          if !freed {
            parent := None;
          }
        }
      }
      AllReferenced(nodes, checkRef);
      ExactlyInUse(old(nodes), nodes, next);
    }

    /** FatIFileClose. */
    method CloseHandle(o: nat, handle: nat) returns (ghost i: nat)
      requires Valid(None) && o in nodes && handle in nodes[o].opens
      modifies this`nodes, this`checkRef
      ensures Valid(None) && nodes.Keys == old(nodes).Keys
      ensures i < |old(nodes)[o].opens| && old(nodes)[o].opens[i] == handle && handle !in old(nodes)[o].opens[..i]
      ensures var opens := old(nodes)[o].opens[..i] + old(nodes)[o].opens[i + 1..];
        nodes == old(nodes)[o := old(nodes)[o].(opens := opens, onCheckList := true)]
    {
      hide NodesOk, CheckListOk, NoneForgotten, EntriesOk, RootOk, HomeOk, Remove;
      i := RemovedAt(nodes[o].opens, handle);
      var opens := Remove(nodes[o].opens, handle);
      ClosedOk(nodes, next, checkRef, entryFile, root, rootEntry, home, o, opens);
      if !nodes[o].onCheckList {
        checkRef := [o] + checkRef;
      }
      nodes := nodes[o := nodes[o].(opens := opens, onCheckList := true)];
    }

    /** FatOpenDirEnt: the file of the entry, allocated unless it is open already. */
    method OpenDirEnt(parent: Option<nat>, d: nat) returns (o: nat)
      requires Valid(None) && (parent.Some? ==> parent.value in nodes) && (parent.None? <==> d == rootEntry)
      requires parent.Some? ==> home(d) == nodes[parent.value].entry
      modifies this
      ensures Valid(None) && o in nodes && nodes[o].entry == d && nodes[o].parent == parent
      ensures d in old(entryFile) ==> nodes == old(nodes) && o == old(entryFile)[d]
      ensures d !in old(entryFile) ==> o == old(next) && o !in old(nodes) && nodes == With(old(nodes), o, parent, d)
    {
      hide NodesOk, CheckListOk, NoneForgotten, EntriesOk, RootOk, HomeOk;
      EntryAt(nodes, entryFile, d);
      if d in entryFile {
        SameParent(nodes, entryFile, root, rootEntry, home, parent, d);
        return entryFile[d];
      }
      WithOk(nodes, next, parent, d);
      WithHome(nodes, next, home, parent, d);
      WithCheckList(nodes, next, checkRef, parent, d);
      WithEntries(nodes, next, entryFile, parent, d);
      WithRoot(nodes, next, entryFile, root, rootEntry, parent, d);
      o := next;
      next := next + 1;
      if parent.Some? {
        var p := nodes[parent.value];
        nodes := nodes[parent.value := p.(children := p.children + [o])];
      } else {
        root := Some(o);
      }
      nodes := nodes[o := Node(parent, d, [], [], true, false)];
      checkRef := [o] + checkRef;
      entryFile := entryFile[d := o];
    }

    /** FatAllocateIFile. */
    method AddHandle(o: nat, handle: nat)
      requires Valid(None) && o in nodes
      modifies this`nodes
      ensures Valid(None) && nodes == old(nodes)[o := old(nodes)[o].(opens := old(nodes)[o].opens + [handle])]
    {
      hide NodesOk, EntriesOk, RootOk, HomeOk, NoRepeats;
      nodes := nodes[o := nodes[o].(opens := nodes[o].opens + [handle])];
      SameTreeOk(old(nodes), nodes, next, entryFile, root, rootEntry, home);
    }

    /** FatOpenVolume. */
    method OpenVolume(handle: nat) returns (o: nat)
      requires Quiet()
      modifies this
      ensures Quiet() && Opened(old(nodes), nodes, Some((o, handle)))
    {
      hide NodesOk, CheckListOk, NoneForgotten, EntriesOk, RootOk, HomeOk, Opened, Fewer, With, Handles;
      OpenedRefl(nodes);
      o := OpenDirEnt(None, rootEntry);
      if rootEntry !in old(entryFile) {
        OpenedWith(old(nodes), old(nodes), o, None, rootEntry);
      }
      OpenedHandle(old(nodes), nodes, o, handle);
      AddHandle(o, handle);
      ghost var mid := nodes;
      CheckVolumeRef();
      OpenedChecked(old(nodes), old(next), mid, Some((o, handle)), nodes, next);
    }

    /** FatOpenEx, as far as it opens files: walk the name from `start` as far as it is
        found, get a handle if that was all of it, and check references in any case.  The
        tree `walked` holds the files `trail` met on the way; `..` at the root ends it. */
    method Open(start: nat, path: seq<Component>, found: bool, handle: nat)
      returns (ok: bool, o: nat, ghost walked: map<nat, Node>, ghost trail: seq<nat>)
      requires Quiet() && start in nodes && Found(home, rootEntry, path, nodes[start].entry)
      modifies this
      ensures Quiet() && Opened(old(nodes), nodes, if ok then Some((o, handle)) else None)
      ensures 0 < |trail| <= |path| + 1 && trail[0] == start && trail[|trail| - 1] == o
      ensures Opened(old(nodes), walked, None) && Leads(walked, path[..|trail| - 1], trail)
      ensures |trail| <= |path| ==> path[|trail| - 1].Up? && walked[o].parent.None?
      ensures ok <==> found && |trail| == |path| + 1
      ensures ok ==> o in nodes && nodes[o].parent == walked[o].parent && nodes[o].entry == walked[o].entry
      ensures ok ==> NodesOk(nodes, next) && forall a :: a in nodes && Above(nodes, next, a, o) ==> !nodes[a].dirty
    {
      hide NodesOk, CheckListOk, NoneForgotten, EntriesOk, RootOk, HomeOk, Opened, Fewer, With, Handles, Leads, Found;
      hide Above, Saved;
      o, ok, trail := Walk(start, path);
      ok := ok && found;
      walked := nodes;
      if ok {
        ghost var mid := nodes[o := nodes[o].(opens := nodes[o].opens + [handle])];
        OpenedHandle(old(nodes), nodes, o, handle);
        GetHandle(o, handle);
        OpenedFlushed(old(nodes), mid, nodes, Some((o, handle)));
        SameAsWalked(walked, mid, nodes, o, handle);
      }
      ghost var flushed, flushedNext, was := nodes, next, |stored|;
      CheckVolumeRef();
      OpenedChecked(old(nodes), old(next), flushed, if ok then Some((o, handle)) else None, nodes, next);
      if ok {
        StillThere(old(nodes), flushed, nodes, o, handle);
        StillClean(flushed, nodes, flushedNext, next, o, stored[was..]);
      }
    }

    /** FatAllocateIFile and the flush after it. */
    method GetHandle(o: nat, handle: nat)
      requires Valid(None) && o in nodes
      modifies this`nodes, this`stored
      ensures Valid(None) && nodes.Keys == old(nodes).Keys
      ensures var mid := old(nodes)[o := old(nodes)[o].(opens := old(nodes)[o].opens + [handle])];
        forall a :: a in mid ==> SameFile(mid[a], nodes[a])
      ensures NodesOk(nodes, next) && forall a :: a in nodes && Above(nodes, next, a, o) ==> !nodes[a].dirty
    {
      hide NodesOk, CheckListOk, NoneForgotten, EntriesOk, RootOk, HomeOk, Fewer, NoRepeats, Above, Saved;
      AddHandle(o, handle);
      ghost var mid := nodes;
      Flush(o, None);
      AboveClean(nodes, mid, nodes, next, o);
    }

    /** The walk of FatLocateOFile. */
    method Walk(start: nat, path: seq<Component>) returns (o: nat, whole: bool, ghost trail: seq<nat>)
      requires Valid(None) && start in nodes && Found(home, rootEntry, path, nodes[start].entry)
      modifies this
      ensures Valid(None) && Opened(old(nodes), nodes, None) && o in nodes
      ensures 0 < |trail| <= |path| + 1 && trail[0] == start && trail[|trail| - 1] == o
      ensures Leads(nodes, path[..|trail| - 1], trail) && whole == (|trail| == |path| + 1)
      ensures |trail| <= |path| ==> path[|trail| - 1].Up? && nodes[o].parent.None?
    {
      hide NodesOk, CheckListOk, NoneForgotten, EntriesOk, RootOk, HomeOk, Opened, With, Leads, LeadsOn, Found, Valid;
      o, whole, trail := start, true, [start];
      OpenedRefl(nodes);
      LeadsNowhere(nodes, start);
      assert path[0..] == path;
      var i := 0;
      while i < |path|
        invariant 0 <= i <= |path| && o in nodes && Valid(None) && whole
        invariant Opened(old(nodes), nodes, None) && Found(home, rootEntry, path[i..], nodes[o].entry)
        invariant |trail| == i + 1 && trail[0] == start && trail[i] == o && Leads(nodes, path[..i], trail)
      {
        FoundFrom(home, rootEntry, path, i, nodes[o].entry);
        ghost var mid := nodes;
        OpenedRefl(mid);
        var at, further := WalkOne(o, path[i]);
        if !further {
          return o, false, trail;
        }
        Stepped(old(nodes), mid, nodes, path, trail, i, at);
        o := at;
        trail := trail + [o];
        i := i + 1;
      }
    }

    /** One component of the walk in FatLocateOFile; it stops at `..` in the root. */
    method WalkOne(o: nat, c: Component) returns (at: nat, further: bool)
      requires Valid(None) && o in nodes && (c.Named? ==> c.entry != rootEntry && home(c.entry) == nodes[o].entry)
      modifies this
      ensures Valid(None) && o in nodes && Opened(old(nodes), nodes, None)
      ensures further <==> c.Named? || old(nodes)[o].entry != rootEntry
      ensures further ==> at in nodes && LeadsOn(nodes, c, o, at)
      ensures further ==> nodes[at].entry == if c.Up? then home(old(nodes)[o].entry) else c.entry
      ensures !further ==> nodes == old(nodes) && nodes[o].parent.None?
    {
      hide NodesOk, CheckListOk, NoneForgotten, EntriesOk, RootOk, HomeOk, Opened, With;
      HomeOf(nodes, next, root, rootEntry, home, o);
      OpenedRefl(nodes);
      at, further := o, true;
      if c.Up? {
        if nodes[o].parent.None? {
          return o, false;
        }
        at := nodes[o].parent.value;
      } else {
        at := OpenDirEnt(Some(o), c.entry);
        if at !in old(nodes) {
          OpenedWith(old(nodes), old(nodes), at, Some(o), c.entry);
        }
        OpenedAt(old(nodes), nodes, o);
      }
    }

    /** Every change of a file marks it. */
    method SetDirty(o: nat)
      requires Quiet() && o in nodes
      modifies this`nodes
      ensures Quiet() && nodes == old(nodes)[o := old(nodes)[o].(dirty := true)]
    {
      hide NodesOk, CheckListOk, NoneForgotten, EntriesOk, RootOk, HomeOk, Fewer, NoRepeats;
      nodes := nodes[o := nodes[o].(dirty := true)];
      Cleaned(old(nodes), nodes, checkRef, None);
      SameTreeOk(old(nodes), nodes, next, entryFile, root, rootEntry, home);
    }

    /** FatClose: the handle goes, number `i` of its file, and with it every file that is then
        not in use; all other handles stay where they are.  `closed` is the tree without it. */
    method Close(o: nat, handle: nat) returns (ghost i: nat, ghost closed: map<nat, Node>)
      requires Quiet() && o in nodes && handle in nodes[o].opens
      modifies this
      ensures Quiet() && NodesOk(closed, next) && closed.Keys == old(nodes).Keys
      ensures i < |old(nodes)[o].opens| && old(nodes)[o].opens[i] == handle && handle !in old(nodes)[o].opens[..i]
      ensures var opens := old(nodes)[o].opens[..i] + old(nodes)[o].opens[i + 1..];
        closed == old(nodes)[o := old(nodes)[o].(opens := opens, onCheckList := true)]
      ensures forall a :: a in nodes ==>
        && a in old(nodes) && nodes[a].opens == closed[a].opens
        && nodes[a].parent == old(nodes)[a].parent && nodes[a].entry == old(nodes)[a].entry
      ensures forall a :: a in nodes <==> a in closed && InUse(closed, next, a)
      ensures forall a, d :: a in closed && d in closed && closed[d].opens != [] && Above(closed, next, a, d) ==>
        a in nodes && d in nodes
      ensures |old(stored)| <= |stored| && stored[..|old(stored)|] == old(stored)
      ensures forall a :: a in old(nodes) && a !in nodes && old(nodes)[a].dirty && old(nodes)[a].parent.Some? ==>
        old(nodes)[a].entry in stored[|old(stored)|..]
    {
      hide NodesOk, CheckListOk, NoneForgotten, EntriesOk, RootOk, HomeOk, Above, InUse, Saved, Fewer;
      i := CloseHandle(o, handle);
      closed := nodes;
      CheckVolumeRef();
      AboveOpen(closed, nodes, next);
      FewerFields(closed, nodes);
      SavedFreed(closed, nodes, stored[|old(stored)|..]);
    }
  }
}
