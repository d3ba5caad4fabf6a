/** The foundation of every node of the editor's scene tree: a display title,
    the storage key of its tree icon, and the live list of its children. */
module SceneNode {
  import opened JavaString
  import opened Sequences

  /** The title a node has after setTitle(candidate) when it had `current`:
      the trimmed candidate, unless trimming leaves nothing, in which case the
      old title stays. */
  function NextTitle(current: string, candidate: string): (r: string)
    ensures IsBlank(candidate) ==> r == current
    ensures !IsBlank(candidate) ==>
      && r == Trim(candidate)
      && r != [] && !IsTrimmable(r[0]) && !IsTrimmable(r[|r| - 1])
      && exists i, j :: TrimmedAt(candidate, i, j) && r == candidate[i..j]
  {
    TrimEmptyIffBlank(candidate);
    TrimEnds(candidate);
    var trimmed := Trim(candidate);
    if |trimmed| > 0 then trimmed else current
  }

  /** Setting the same title twice leaves what setting it once leaves. */
  lemma {:induction false} NextTitleIdempotent(current: string, candidate: string)
    ensures NextTitle(NextTitle(current, candidate), candidate) == NextTitle(current, candidate)
  {
  }

  /** Once a non-blank title has been set, setting the node's own title again
      changes nothing, because trimming an already trimmed title is a no-op. */
  lemma {:induction false} NextTitleOwnTitle(current: string, candidate: string)
    requires !IsBlank(candidate)
    ensures var t := NextTitle(current, candidate); NextTitle(t, t) == t
  {
    var t := NextTitle(current, candidate);
    TrimIdempotent(candidate);
    TrimNotBlank(candidate);
    assert Trim(t) == t;
  }

  /** setTitle never makes a non-blank title blank. The constructor does not
      check its title, so this is kept by setTitle but not established. */
  lemma {:induction false} NextTitleKeepsNonBlank(current: string, candidate: string)
    requires !IsBlank(current)
    ensures !IsBlank(NextTitle(current, candidate))
  {
    if !IsBlank(candidate) {
      TrimNotBlank(candidate);
    }
  }

  /** A blank candidate leaves the title as it was. */
  lemma NextTitleBlankExamples()
    ensures NextTitle("Light", "  ") == "Light"
    ensures NextTitle("Light", "\t \n") == "Light"
  {
    assert IsBlank("  ");
    assert IsBlank("\t \n");
  }

  /** A title set from a padded candidate is the candidate without its
      padding; inner spaces stay. */
  lemma NextTitlePaddedExamples()
    ensures NextTitle("Light", " Sun ") == "Sun"
    ensures NextTitle("Light", "\tA B\t") == "A B"
  {
    assert TrimmedAt(" Sun ", 1, 4);
    TrimIsTrimmedAt(" Sun ", 1, 4);
    assert TrimmedAt("\tA B\t", 1, 4);
    TrimIsTrimmedAt("\tA B\t", 1, 4);
  }

  /** The java.util.ArrayList<NodeBase> that holds a node's children. It is
      handed out by NodeBase.GetChildren itself, not as a copy, so every edit
      made through it is an edit of the node. */
  class NodeList {
    var elems: seq<NodeBase>

    constructor ()
      ensures elems == []
    {
      elems := [];
    }

    /** ArrayList.add(e): appends and reports that the list changed. */
    method Add(n: NodeBase) returns (changed: bool)
      modifies this
      ensures elems == old(elems) + [n]
      ensures changed
    {
      elems := elems + [n];
      changed := true;
    }

    /** ArrayList.add(index, e): inserts before position index, which may be
      the length; any other index is out of bounds and changes nothing. */
    method Insert(index: int, n: NodeBase) returns (ok: bool)
      modifies this
      ensures ok <==> 0 <= index <= |old(elems)|
      ensures ok ==> elems == old(elems)[..index] + [n] + old(elems)[index..]
      ensures !ok ==> elems == old(elems)
    {
      ok := 0 <= index <= |elems|;
      if ok {
        elems := elems[..index] + [n] + elems[index..];
      }
    }

    /** ArrayList.remove(index): takes out and returns the element at index;
      an index outside the list is out of bounds and changes nothing. */
    method RemoveAt(index: int) returns (removed: Option<NodeBase>)
      modifies this
      ensures removed.Some? <==> 0 <= index < |old(elems)|
      ensures removed.Some? ==>
        removed.value == old(elems)[index] && elems == old(elems)[..index] + old(elems)[index + 1..]
      ensures removed.None? ==> elems == old(elems)
    {
      if 0 <= index < |elems| {
        removed := Some(elems[index]);
        elems := elems[..index] + elems[index + 1..];
      } else {
        removed := None;
      }
    }

    /** ArrayList.remove(Object): drops the first occurrence of n and reports
      whether there was one. NodeBase does not override equals, so an
      occurrence is the same object. */
    method Remove(n: NodeBase) returns (found: bool)
      modifies this
      ensures found <==> n in old(elems)
      ensures elems == RemoveFirst(old(elems), n)
      ensures multiset(elems) == multiset(old(elems)) - multiset{n}
    {
      found := IndexOf(elems, n) != -1;
      RemoveFirstMultiset(elems, n);
      elems := RemoveFirst(elems, n);
    }
  }

  class NodeBase {
    var title: string
    const treeIconStorageKey: string
    const children: NodeList

    /** Stores title and icon key as given (the title is neither trimmed nor
        checked) and starts with a list of its own that holds no children. */
    constructor (title: string, treeIconStorageKey: string)
      ensures this.title == title && this.treeIconStorageKey == treeIconStorageKey
      ensures fresh(children) && children.elems == []
    {
      this.title := title;
      this.treeIconStorageKey := treeIconStorageKey;
      children := new NodeList();
    }

    /** The title shown in the scene's node list. */
    function GetTitle(): (r: string)
      reads this
      ensures r == title
    {
      title
    }

    /** Sets the shown title to the candidate with leading and trailing
        whitespace removed; a candidate that is empty or only whitespace is
        ignored and the old title stays. Nothing else of the node changes. */
    method SetTitle(candidate: string)
      modifies this
      ensures title == NextTitle(old(title), candidate)
      ensures IsBlank(candidate) ==> title == old(title)
      ensures !IsBlank(candidate) ==> title == Trim(candidate)
      ensures children.elems == old(children.elems)
    {
      title := NextTitle(title, candidate);
    }

    /** The node's own child list: edits made through it are edits of the
        node. */
    function GetChildren(): (list: NodeList)
      ensures list == children
    {
      children
    }

    /** A node prints as its title. */
    function ToString(): (r: string)
      reads this
      ensures r == GetTitle()
    {
      title
    }
  }

  /** Every node of ns has a child list of its own: no two of them share one,
      as every NodeBase creates its own ArrayList and never replaces it. */
  ghost predicate OwnLists(ns: set<NodeBase>)
    reads ns
  {
    forall a, b :: a in ns && b in ns && a != b ==> a.children != b.children
  }

  /** new NodeBase(title, key) among the nodes ns: the new node's list is
      fresh, so it shares its list with none of them. */
  method CreateNode(ghost ns: set<NodeBase>, title: string, treeIconStorageKey: string)
    returns (n: NodeBase)
    requires OwnLists(ns)
    ensures fresh(n) && fresh(n.children)
    ensures n.title == title && n.treeIconStorageKey == treeIconStorageKey && n.children.elems == []
    ensures OwnLists(ns + {n})
  {
    n := new NodeBase(title, treeIconStorageKey);
  }

  /** node.getChildren().add(child): the child is appended to the node's
      children, the earlier children keep their places, and the title is
      untouched. */
  method AppendChild(node: NodeBase, child: NodeBase)
    modifies node.children
    ensures node.children.elems == old(node.children.elems) + [child]
    ensures node.title == old(node.title)
    ensures forall other: NodeBase :: old(allocated(other)) && other.children != node.children ==>
      other.children.elems == old(other.children.elems)
  {
    var list := node.GetChildren();
    var _ := list.Add(child);
  }

  /** node.getChildren().remove(child): the first occurrence of child leaves
      the node's children, which is then no longer a child at all if it was
      held once. */
  method RemoveChild(node: NodeBase, child: NodeBase) returns (found: bool)
    modifies node.children
    ensures found <==> child in old(node.children.elems)
    ensures node.children.elems == RemoveFirst(old(node.children.elems), child)
    ensures multiset(old(node.children.elems))[child] == 1 ==> child !in node.children.elems
    ensures node.title == old(node.title)
    ensures forall other: NodeBase :: old(allocated(other)) && other.children != node.children ==>
      other.children.elems == old(other.children.elems)
  {
    ghost var before: seq<NodeBase> := node.children.elems;
    var list := node.GetChildren();
    found := list.Remove(child);
    if multiset(before)[child] == 1 {
      RemoveFirstLastCopy(before, child);
    }
  }

  /** Editing the children of one node leaves the children of every other
      node with a list of its own as they were. */
  method AppendLeavesOthers(ns: set<NodeBase>, a: NodeBase, b: NodeBase, x: NodeBase)
    requires OwnLists(ns) && a in ns && b in ns && a != b
    modifies a.children
    ensures a.children.elems == old(a.children.elems) + [x]
    ensures b.children.elems == old(b.children.elems)
  {
    AppendChild(a, x);
  }

  /** Two calls of GetChildren see the same list: what is added through the
      first shows in the second, after the children already there. */
  method ChildrenAreLive(node: NodeBase, a: NodeBase, b: NodeBase)
    modifies node.children
    ensures node.children.elems == old(node.children.elems) + [a, b]
  {
    var first := node.GetChildren();
    var _ := first.Add(a);
    var second := node.GetChildren();
    assert second.elems == old(node.children.elems) + [a];
    var _ := second.Add(b);
  }

  /** A node built with a padded title keeps it; setTitle then ignores a
      blank candidate and trims a padded one. */
  method TitleScenario() returns (node: NodeBase)
    ensures fresh(node) && node.GetTitle() == "Sun" && node.ToString() == "Sun"
    ensures node.treeIconStorageKey == "icons/light" && node.children.elems == []
  {
    node := new NodeBase(" Light ", "icons/light");
    assert node.GetTitle() == " Light ";
    node.SetTitle("  ");
    assert node.GetTitle() == " Light ";
    NextTitleBlankExamples();
    NextTitlePaddedExamples();
    node.SetTitle(" Sun ");
  }
}
