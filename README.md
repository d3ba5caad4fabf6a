# NodeBase: the scene node of the GrapeEngine SDK editor

This project models `NodeBase` and proves properties about it. `NodeBase` is the base class of every node in the editor's scene tree. A node has three parts:

- a display title, shown in the scene's node list;
- the storage key of its tree icon;
- the list of its child nodes.

The model is a Dafny class with the same state. `title` is a mutable field. `treeIconStorageKey` is a `const`, because the source never reassigns it. `children` is a `const` reference to a `NodeList` object, which stands for the `java.util.ArrayList<NodeBase>` the node creates once and never replaces. `GetChildren` returns that object itself. So an edit made through the returned list is an edit of the node, as with the live list in the source.

`setTitle` relies on `java.lang.String.trim`. That method is modelled as a pure function in module `JavaString`. It removes every character whose code is at most U+0020 from both ends of a string. The model does this with the two scans the JDK uses: one forward from the start, one backward from the end, never below the start. The module proves the following about `Trim`:

- It agrees with a declarative description, `TrimmedAt`.
- That description fixes the result uniquely.
- Trimming twice gives the same result as trimming once.
- The result is empty exactly when the input is blank.

Module `Sequences` states the `ArrayList` operations used on the child list as functions on sequences: `indexOf` and `remove(Object)`. Module `SceneNode` holds:

- the title rule, as the function `NextTitle`, with lemmas about it;
- the classes `NodeList` and `NodeBase`;
- the usual ways of editing children through `getChildren()`, written as client methods.

The getters `GetTitle` and `GetChildren` return the node's own title and its own list object (`NodeBase.java:46-48` and `74-76`).

Each node creates its own `ArrayList` and never replaces it (`NodeBase.java:19`). So editing one node's children never changes another node's. The ghost predicate `OwnLists(ns)` states this for a set of nodes: no two of them share a list. `CreateNode` creates a node and keeps `OwnLists`. `AppendChild` and `RemoveChild` promise that every list other than the edited node's stays as it was. `AppendLeavesOthers` combines the two for a pair of distinct nodes.

Two points where a reader might expect more than the code does:

- A title might be expected never to be blank. The constructor (`NodeBase.java:32-35`) stores its title without checking it. So the model claims only that `setTitle` keeps a non-blank title non-blank (`NextTitleKeepsNonBlank`). `TitleScenario` builds a node whose title is padded.
- The doc comment of `setTitle` (`NodeBase.java:60-61`) speaks of "whitespaces and tabs". `String.trim` removes every character up to U+0020, control characters included. `Trim` removes exactly those characters.

## Model

| member | source | states |
|---|---|---|
| JavaString.Trim | src/at/dalex/grape/sdk/scene/node/NodeBase.java:67 | the trimmed title is a contiguous piece `s[i..j]` of the candidate; everything outside it is trimmable; when non-empty it starts and ends with a non-trimmable character |
| JavaString.TrimIsTrimmedAt | src/at/dalex/grape/sdk/scene/node/NodeBase.java:67 | for any positions that satisfy the declarative description of a trim, `Trim` returns exactly the piece between them |
| JavaString.TrimEnds | src/at/dalex/grape/sdk/scene/node/NodeBase.java:67 | a trimmed string has no leading and no trailing character with code at most U+0020 |
| JavaString.TrimKeepsTrimmed | src/at/dalex/grape/sdk/scene/node/NodeBase.java:67 | a string with no trimmable character at either end is returned unchanged |
| JavaString.TrimIdempotent | src/at/dalex/grape/sdk/scene/node/NodeBase.java:66-69 | trimming an already trimmed string changes nothing |
| JavaString.TrimEmptyIffBlank | src/at/dalex/grape/sdk/scene/node/NodeBase.java:60-62 | trimming leaves the empty string if and only if the candidate consists only of whitespace and control characters (or is empty) |
| JavaString.TrimNotBlank | src/at/dalex/grape/sdk/scene/node/NodeBase.java:68 | a candidate that is not blank trims to a non-empty, non-blank title |
| SceneNode.NextTitle | src/at/dalex/grape/sdk/scene/node/NodeBase.java:66-68 | after setTitle, a blank candidate leaves the old title; any other candidate becomes the title trimmed: non-empty, no trimmable character at either end, a contiguous piece of the candidate |
| SceneNode.NextTitleIdempotent | src/at/dalex/grape/sdk/scene/node/NodeBase.java:66-69 | calling setTitle twice with the same candidate leaves the same title as calling it once |
| SceneNode.NextTitleOwnTitle | src/at/dalex/grape/sdk/scene/node/NodeBase.java:66-69 | after a non-blank candidate has been set, setting the node's own title again changes nothing |
| SceneNode.NextTitleKeepsNonBlank | src/at/dalex/grape/sdk/scene/node/NodeBase.java:58-68 | setTitle never turns a non-blank title into a blank one |
| SceneNode.NextTitleBlankExamples | src/at/dalex/grape/sdk/scene/node/NodeBase.java:60-63 | on a node titled "Light", the candidates "  " and tab-space-newline leave "Light" |
| SceneNode.NextTitlePaddedExamples | src/at/dalex/grape/sdk/scene/node/NodeBase.java:66-68 | " Sun " sets "Sun" and a tab-padded "A B" sets "A B": only the ends are stripped |
| SceneNode.NodeBase.constructor | src/at/dalex/grape/sdk/scene/node/NodeBase.java:32-35 | the title and icon key are stored exactly as given; the node starts with a fresh list of its own that holds no children |
| SceneNode.NodeBase.SetTitle | src/at/dalex/grape/sdk/scene/node/NodeBase.java:66-69 | the new title is `NextTitle(old title, candidate)`: the trimmed candidate if it is not blank, otherwise the old title; the children are unchanged; the icon key is a constant |
| SceneNode.NodeBase.GetTitle | src/at/dalex/grape/sdk/scene/node/NodeBase.java:46-48 | the title getter returns the node's current title |
| SceneNode.NodeBase.GetChildren | src/at/dalex/grape/sdk/scene/node/NodeBase.java:74-76 | the children getter returns the node's own list object, not a copy |
| SceneNode.NodeBase.ToString | src/at/dalex/grape/sdk/scene/node/NodeBase.java:79-81 | a node's string form always equals its title |
| SceneNode.NodeList.constructor | src/at/dalex/grape/sdk/scene/node/NodeBase.java:19 | a node's child list starts empty |
| SceneNode.NodeList.Add | src/at/dalex/grape/sdk/scene/node/NodeBase.java:74-76 | adding through the child list appends at the end, keeps the earlier children in order, and reports a change |
| SceneNode.NodeList.Insert | src/at/dalex/grape/sdk/scene/node/NodeBase.java:74-76 | inserting at a position from 0 to the length puts the child there and shifts the rest; any other position is rejected and nothing changes |
| SceneNode.NodeList.RemoveAt | src/at/dalex/grape/sdk/scene/node/NodeBase.java:74-76 | removing at a valid position returns the child that was there and closes the gap; an invalid position returns nothing and changes nothing |
| SceneNode.NodeList.Remove | src/at/dalex/grape/sdk/scene/node/NodeBase.java:74-76 | removing a node by identity reports whether it was a child and drops exactly one occurrence, the first |
| Sequences.IndexOf | src/at/dalex/grape/sdk/scene/node/NodeBase.java:74-76 | the position of the first occurrence of a child, or -1 exactly when it is not in the list |
| Sequences.RemoveFirst | src/at/dalex/grape/sdk/scene/node/NodeBase.java:74-76 | removing an absent node changes nothing; removing a present one shortens the list by one |
| Sequences.RemoveFirstMultiset | src/at/dalex/grape/sdk/scene/node/NodeBase.java:74-76 | removing by value takes away exactly one copy of the node and keeps every other child |
| Sequences.DropMultiset | src/at/dalex/grape/sdk/scene/node/NodeBase.java:74-76 | dropping the element at a position takes one copy of that element out of the list's multiset |
| Sequences.RemoveFirstOrder | src/at/dalex/grape/sdk/scene/node/NodeBase.java:74-76 | children before the removed one keep their positions; children after it move down by one |
| Sequences.RemoveFirstLastCopy | src/at/dalex/grape/sdk/scene/node/NodeBase.java:74-76 | a child held once is no longer a child after it is removed |
| SceneNode.AppendChild | src/at/dalex/grape/sdk/scene/node/NodeBase.java:74-76 | `node.getChildren().add(child)` appends the child to the node's own children after the existing ones, leaves the title alone, and leaves every other list as it was |
| SceneNode.RemoveChild | src/at/dalex/grape/sdk/scene/node/NodeBase.java:74-76 | `node.getChildren().remove(child)` removes the first occurrence from the node's own children; a child held once is then gone; every other list is left as it was |
| SceneNode.CreateNode | src/at/dalex/grape/sdk/scene/node/NodeBase.java:19 | a new node gets a fresh, empty list of its own, so a set of nodes with a list each keeps a list each when the new node joins it |
| SceneNode.AppendLeavesOthers | src/at/dalex/grape/sdk/scene/node/NodeBase.java:19 | among nodes with a list each, adding a child to one node leaves another node's children unchanged |
| SceneNode.ChildrenAreLive | src/at/dalex/grape/sdk/scene/node/NodeBase.java:74-76 | two calls of getChildren return the same list, so what is added through one is seen through the other, in order |
| SceneNode.TitleScenario | src/at/dalex/grape/sdk/scene/node/NodeBase.java:32-68 | a node built with title " Light " keeps it untrimmed; setTitle("  ") leaves it; setTitle(" Sun ") makes title and string form "Sun"; the icon key and the empty child list stay |

## Left out

- `draw` (`NodeBase.java:41`) is abstract and has no body in the source, so it is not declared. `NodeBase` is modelled as a concrete class, and the concrete node kinds are not modelled.
- `getTreeIcon` (`NodeBase.java:53-55`) calls `ResourceLoader`, whose behaviour is not part of this model. Only the key it looks up is kept.
- `Serializable` (`NodeBase.java:14`) is Java's serialization machinery and is not modelled.
- `Window.java` and `ScenePropertyPanel.java` are not part of this model. They are JavaFX window, tree-view and selection wiring.
- `OwnLists` is not an invariant the model maintains by itself. It holds for nodes made with `CreateNode`, and a caller that relies on it states it as a precondition.
- Tree-wide invariants are not modelled: acyclicity, a single parent per node, and traversal order. The source neither implements nor checks them. Nothing in the model stops a node from being its own child.
- `null` values are not modelled. Dafny strings and class references here are never null. So the model does not capture the `NullPointerException` of `setTitle(null)`, a `null` title passed to the constructor, or `null` entries in the child list.
- `ArrayList` operations other than `add`, `add(index, e)`, `remove(index)`, `remove(Object)` and `indexOf` are not modelled: `get`, `size`, `set`, `clear` and iteration. Their results can be read directly from `NodeList.elems`.
- Java exceptions are not raised. An out-of-range index is reported through the `ok` result of `Insert` and the `None` result of `RemoveAt`, and the list is left unchanged, as the exception would leave it.
- The model does not distinguish a string's identity from its value. `String.trim` returns the same object when nothing is trimmed. No observable behaviour of `NodeBase` depends on this.
- Java `char` is a UTF-16 code unit and Dafny `char` is a Unicode scalar value. This does not change trimming, because every trimmable character is a single unit at most U+0020.
