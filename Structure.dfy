/** Document._parse_structure: the section outline of a document, built in
    one pass over its sectioning commands. Each command becomes a node
    (level, title, children); a node goes to the top level, under the last
    top-level node, or under that node's last child. Commands at or past
    the end of the `\appendix` mark are one level deeper, and an
    `Appendix` node is pushed once in front of them. */
module Structure {
  import opened Wrappers

  /** One sectioning command, as the tag search reports it: its offset in
      the body, its base level (`\section` 0, `\subsection` 1,
      `\subsubsection` 2) and its title. */
  datatype Tag = Tag(offset: nat, base: nat, title: string)

  /** A node of the outline: the tuple (level, name, children). */
  datatype Node = Node(level: int, title: string, children: seq<Node>)

  const AppendixTitle := "Appendix"
  const AppendixNode := Node(0, AppendixTitle, [])

  /** A tag's level: its base level, one deeper at or past the boundary. */
  function Level(t: Tag, boundary: nat): (r: nat)
    ensures r == t.base || r == t.base + 1
    ensures r == t.base + 1 <==> t.offset >= boundary
  {
    t.base + if t.offset >= boundary then 1 else 0
  }

  function Last<T>(s: seq<T>): T
    requires s != []
  {
    s[|s| - 1]
  }

  /** Node n appended to p's children. */
  function AddChild(p: Node, n: Node): Node {
    p.(children := p.children + [n])
  }

  /** Where a node goes: a new top-level node when the outline is empty or
      its level does not exceed the last top-level node's; otherwise under
      that node's last child when its level exceeds that child's too;
      otherwise under the last top-level node. */
  function Place(s: seq<Node>, n: Node): seq<Node> {
    if s == [] || n.level <= Last(s).level then s + [n]
    else
      var top := Last(s);
      var front := s[..|s| - 1];
      if top.children != [] && n.level > Last(top.children).level then
        var child := Last(top.children);
        front + [top.(children := top.children[..|top.children| - 1] + [AddChild(child, n)])]
      else
        front + [AddChild(top, n)]
  }

  /** Whether the Appendix node is pushed before tag t: the outline is not
      empty, t is at or past the boundary and the last top-level node is
      not titled Appendix. */
  predicate Pushes(s: seq<Node>, t: Tag, boundary: nat) {
    s != [] && t.offset >= boundary && Last(s).title != AppendixTitle
  }

  /** One iteration of the loop: the tag's node placed, after the Appendix
      node when it is pushed. */
  function Insert(s: seq<Node>, t: Tag, boundary: nat): seq<Node> {
    var n := Node(Level(t, boundary), t.title, []);
    Place(if Pushes(s, t, boundary) then s + [AppendixNode] else s, n)
  }

  /** The outline of the tags, in order. */
  function Outline(tags: seq<Tag>, boundary: nat): seq<Node>
    decreases |tags|
  {
    if tags == [] then [] else Insert(Outline(tags[..|tags| - 1], boundary), Last(tags), boundary)
  }

  /** _parse_structure: the loop over the tags, appending into the nested
      lists of the outline. */
  method ParseStructure(tags: seq<Tag>, boundary: nat) returns (structure: seq<Node>)
    ensures structure == Outline(tags, boundary)
    ensures Within(structure, 3)
    ensures Ordered(structure)
  {
    structure := [];
    var k := 0;
    while k < |tags|
      invariant 0 <= k <= |tags|
      invariant structure == Outline(tags[..k], boundary)
    {
      assert tags[..k + 1][..k] == tags[..k];
      structure := InsertTag(structure, tags[k], boundary);
      k := k + 1;
    }
    assert tags[..|tags|] == tags;
    OutlineShape(tags, boundary);
  }

  /** The body of the loop for one tag. */
  method InsertTag(structure: seq<Node>, tag: Tag, boundary: nat) returns (r: seq<Node>)
    ensures r == Insert(structure, tag, boundary)
  {
    r := structure;
    var level := Level(tag, boundary);
    var attr := Node(level, tag.title, []);
    if |r| == 0 {
      r := r + [attr];
    } else {
      if tag.offset >= boundary && r[|r| - 1].title != AppendixTitle {
        r := r + [AppendixNode];
      }
      var top := r[|r| - 1];
      if level > top.level {
        var last := top.children;
        if |last| > 0 {
          if level > last[|last| - 1].level {
            var child := last[|last| - 1];
            var top' := top.(children := last[..|last| - 1] + [child.(children := child.children + [attr])]);
            r := r[..|r| - 1] + [top'];
          } else {
            r := r[..|r| - 1] + [top.(children := last + [attr])];
          }
        } else {
          r := r[..|r| - 1] + [top.(children := last + [attr])];
        }
      } else {
        r := r + [attr];
      }
    }
  }

  /* ---------- shape: depth at most three, children deeper ---------- */

  /** Every node of s lies at most d levels deep. */
  ghost predicate Within(s: seq<Node>, d: nat)
    decreases d
  {
    forall i :: 0 <= i < |s| ==> d >= 1 && Within(s[i].children, d - 1)
  }

  /** Every child has a greater level than its parent, at every depth up to
      three (the outline has no deeper nodes). */
  ghost predicate Ordered(s: seq<Node>) {
    OrderedTo(s, 3)
  }

  ghost predicate OrderedTo(s: seq<Node>, d: nat)
    decreases d
  {
    forall i :: 0 <= i < |s| ==>
      && (forall j :: 0 <= j < |s[i].children| ==> s[i].children[j].level > s[i].level)
      && (d >= 1 ==> OrderedTo(s[i].children, d - 1))
  }

  lemma WithinSnoc(s: seq<Node>, n: Node, d: nat)
    requires Within(s, d) && Within([n], d)
    ensures Within(s + [n], d)
  {
    var t := s + [n];
    assert forall i :: 0 <= i < |s| ==> t[i] == s[i];
    assert t[|s|] == [n][0];
  }

  lemma OrderedSnoc(s: seq<Node>, n: Node, d: nat)
    requires OrderedTo(s, d) && OrderedTo([n], d)
    ensures OrderedTo(s + [n], d)
  {
    forall i | 0 <= i < |s + [n]|
      ensures (s + [n])[i] == if i < |s| then s[i] else [n][0]
    {
    }
  }

  lemma WithinFront(s: seq<Node>, d: nat)
    requires s != [] && Within(s, d)
    ensures Within(s[..|s| - 1], d) && Within([Last(s)], d)
  {
    var f := s[..|s| - 1];
    forall i | 0 <= i < |f|
      ensures d >= 1 && Within(f[i].children, d - 1)
    {
      assert f[i] == s[i];
    }
    assert [Last(s)][0] == s[|s| - 1];
  }

  lemma OrderedFront(s: seq<Node>, d: nat)
    requires s != [] && OrderedTo(s, d)
    ensures OrderedTo(s[..|s| - 1], d) && OrderedTo([Last(s)], d)
  {
    var f := s[..|s| - 1];
    forall i | 0 <= i < |f|
      ensures forall j :: 0 <= j < |f[i].children| ==> f[i].children[j].level > f[i].level
      ensures d >= 1 ==> OrderedTo(f[i].children, d - 1)
    {
      assert f[i] == s[i];
    }
    assert [Last(s)][0] == s[|s| - 1];
  }

  /** Placing a childless node keeps the outline within depth three and
      every child deeper than its parent. */
  lemma PlaceShape(s: seq<Node>, n: Node)
    requires n.children == []
    requires Within(s, 3) && OrderedTo(s, 3)
    ensures Within(Place(s, n), 3) && OrderedTo(Place(s, n), 3)
  {
    if s == [] || n.level <= Last(s).level {
      assert Within([n], 3) && OrderedTo([n], 3);
      assert Place(s, n) == s + [n];
      WithinSnoc(s, n, 3);
      OrderedSnoc(s, n, 3);
    } else {
      WithinFront(s, 3);
      OrderedFront(s, 3);
      var top := Last(s);
      var cs := top.children;
      assert Within(cs, 2) && OrderedTo(cs, 2);
      var top' := if cs != [] && n.level > Last(cs).level
        then top.(children := cs[..|cs| - 1] + [AddChild(Last(cs), n)])
        else AddChild(top, n);
      assert Place(s, n) == s[..|s| - 1] + [top'];
      if cs != [] && n.level > Last(cs).level {
        GrandchildShape(top, n);
      } else {
        ChildShape(top, n);
      }
      WithinSnoc(s[..|s| - 1], top', 3);
      OrderedSnoc(s[..|s| - 1], top', 3);
    }
  }

  /** A node placed under the last child of a top-level node. */
  lemma GrandchildShape(top: Node, n: Node)
    requires n.children == [] && n.level > top.level
    requires Within(top.children, 2) && OrderedTo(top.children, 2)
    requires top.children != [] && n.level > Last(top.children).level
    requires forall j :: 0 <= j < |top.children| ==> top.children[j].level > top.level
    ensures var cs := top.children;
      var top' := top.(children := cs[..|cs| - 1] + [AddChild(Last(cs), n)]);
      Within([top'], 3) && OrderedTo([top'], 3)
  {
    var cs := top.children;
    var child := Last(cs);
    WithinFront(cs, 2);
    OrderedFront(cs, 2);
    assert Within([n], 1) && OrderedTo([n], 1);
    WithinSnoc(child.children, n, 1);
    OrderedSnoc(child.children, n, 1);
    var child' := AddChild(child, n);
    assert Within([child'], 2) && OrderedTo([child'], 2);
    var cs' := cs[..|cs| - 1] + [child'];
    WithinSnoc(cs[..|cs| - 1], child', 2);
    OrderedSnoc(cs[..|cs| - 1], child', 2);
    var top' := top.(children := cs');
    assert forall j :: 0 <= j < |cs'| ==> cs'[j].level == cs[j].level;
    assert Within([top'], 3) && OrderedTo([top'], 3);
  }

  /** A node placed directly under a top-level node. */
  lemma ChildShape(top: Node, n: Node)
    requires n.children == [] && n.level > top.level
    requires Within(top.children, 2) && OrderedTo(top.children, 2)
    requires forall j :: 0 <= j < |top.children| ==> top.children[j].level > top.level
    ensures Within([AddChild(top, n)], 3) && OrderedTo([AddChild(top, n)], 3)
  {
    var cs := top.children;
    assert Within([n], 2) && OrderedTo([n], 2);
    WithinSnoc(cs, n, 2);
    OrderedSnoc(cs, n, 2);
    var top' := AddChild(top, n);
    assert Within([top'], 3) && OrderedTo([top'], 3);
  }

  /** The outline never nests deeper than three levels, and every child's
      level exceeds its parent's. */
  lemma {:induction false} OutlineShape(tags: seq<Tag>, boundary: nat)
    ensures Within(Outline(tags, boundary), 3) && Ordered(Outline(tags, boundary))
    decreases |tags|
  {
    if tags != [] {
      var s := Outline(tags[..|tags| - 1], boundary);
      OutlineShape(tags[..|tags| - 1], boundary);
      var t := Last(tags);
      if Pushes(s, t, boundary) {
        assert Within([AppendixNode], 3) && OrderedTo([AppendixNode], 3);
        WithinSnoc(s, AppendixNode, 3);
        OrderedSnoc(s, AppendixNode, 3);
        PlaceShape(s + [AppendixNode], Node(Level(t, boundary), t.title, []));
      } else {
        PlaceShape(s, Node(Level(t, boundary), t.title, []));
      }
    }
  }

  /* ---------- order: the pre-order walk lists the tags ---------- */

  /** The (level, title) of every node, parents before their children,
      in outline order. */
  function Walk(s: seq<Node>): seq<(int, string)>
    decreases s
  {
    if s == [] then [] else Walk(s[..|s| - 1]) + WalkNode(s[|s| - 1])
  }

  function WalkNode(n: Node): seq<(int, string)>
    decreases n
  {
    [(n.level, n.title)] + Walk(n.children)
  }

  lemma WalkSnoc(s: seq<Node>, n: Node)
    ensures Walk(s + [n]) == Walk(s) + WalkNode(n)
  {
    assert (s + [n])[..|s|] == s;
  }

  /** A placed node always comes last in the walk: a node is only ever
      added after everything already in the outline. */
  lemma PlaceWalk(s: seq<Node>, n: Node)
    ensures Walk(Place(s, n)) == Walk(s) + WalkNode(n)
  {
    if s == [] || n.level <= Last(s).level {
      PlaceTopWalk(s, n);
    } else if Last(s).children != [] && n.level > Last(Last(s).children).level {
      PlaceGrandchildWalk(s, n);
    } else {
      PlaceChildWalk(s, n);
    }
  }

  lemma PlaceTopWalk(s: seq<Node>, n: Node)
    requires s == [] || n.level <= Last(s).level
    ensures Walk(Place(s, n)) == Walk(s) + WalkNode(n)
  {
    assert Place(s, n) == s + [n];
    WalkSnoc(s, n);
  }

  lemma PlaceGrandchildWalk(s: seq<Node>, n: Node)
    requires s != [] && n.level > Last(s).level
    requires Last(s).children != [] && n.level > Last(Last(s).children).level
    ensures Walk(Place(s, n)) == Walk(s) + WalkNode(n)
  {
    var top := Last(s);
    var cs := top.children;
    var top' := top.(children := cs[..|cs| - 1] + [AddChild(Last(cs), n)]);
    assert Place(s, n) == s[..|s| - 1] + [top'];
    GrandchildWalk(top, n);
    ReplaceLastWalk(s, top', n);
  }

  lemma PlaceChildWalk(s: seq<Node>, n: Node)
    requires s != [] && n.level > Last(s).level
    requires !(Last(s).children != [] && n.level > Last(Last(s).children).level)
    ensures Walk(Place(s, n)) == Walk(s) + WalkNode(n)
  {
    var top := Last(s);
    assert Place(s, n) == s[..|s| - 1] + [AddChild(top, n)];
    ChildWalk(top, n);
    ReplaceLastWalk(s, AddChild(top, n), n);
  }

  /** A node added under p comes last in p's walk. */
  lemma ChildWalk(p: Node, n: Node)
    ensures WalkNode(AddChild(p, n)) == WalkNode(p) + WalkNode(n)
  {
    var head := [(p.level, p.title)];
    assert Walk(p.children + [n]) == Walk(p.children) + WalkNode(n) by {
      WalkSnoc(p.children, n);
    }
    assert head + (Walk(p.children) + WalkNode(n)) == (head + Walk(p.children)) + WalkNode(n);
  }

  /** Replacing the last top-level node by one whose walk is extended by
      n's walk extends the outline's walk by n's walk. */
  lemma ReplaceLastWalk(s: seq<Node>, top': Node, n: Node)
    requires s != []
    requires WalkNode(top') == WalkNode(Last(s)) + WalkNode(n)
    ensures Walk(s[..|s| - 1] + [top']) == Walk(s) + WalkNode(n)
  {
    var front := s[..|s| - 1];
    var top := Last(s);
    assert Walk(s) == Walk(front) + WalkNode(top) by {
      assert s == front + [top];
      WalkSnoc(front, top);
    }
    WalkSnoc(front, top');
    assert Walk(front) + (WalkNode(top) + WalkNode(n)) == (Walk(front) + WalkNode(top)) + WalkNode(n);
  }

  /** A node added under the last child of p comes last in p's walk. */
  lemma GrandchildWalk(p: Node, n: Node)
    requires p.children != []
    ensures var cs := p.children;
      WalkNode(p.(children := cs[..|cs| - 1] + [AddChild(Last(cs), n)])) == WalkNode(p) + WalkNode(n)
  {
    var cs := p.children;
    var child := Last(cs);
    var init := cs[..|cs| - 1];
    ChildWalk(child, n);
    assert Walk(init + [AddChild(child, n)]) == Walk(init) + WalkNode(AddChild(child, n)) by {
      WalkSnoc(init, AddChild(child, n));
    }
    assert Walk(cs) == Walk(init) + WalkNode(child) by {
      assert cs == init + [child];
      WalkSnoc(init, child);
    }
  }

  /** Placing a node deeper than the last top-level node keeps that node
      last, with its level and title. */
  lemma PlaceKeepsLast(s: seq<Node>, n: Node)
    requires s != [] && n.level > Last(s).level
    ensures Place(s, n) != []
    ensures Last(Place(s, n)).level == Last(s).level && Last(Place(s, n)).title == Last(s).title
  {
  }

  /** The (level, title) each tag contributes. */
  function Entries(tags: seq<Tag>, boundary: nat): (r: seq<(int, string)>)
    ensures |r| == |tags|
    ensures forall i :: 0 <= i < |tags| ==> r[i] == (Level(tags[i], boundary) as int, tags[i].title)
  {
    seq(|tags|, i requires 0 <= i < |tags| => (Level(tags[i], boundary) as int, tags[i].title))
  }

  /** The first tag other than the first one at or past the boundary. */
  function FirstPast(tags: seq<Tag>, boundary: nat): (r: Option<nat>)
    ensures r.Some? ==> 1 <= r.value < |tags| && tags[r.value].offset >= boundary
    ensures r.Some? ==> forall j :: 1 <= j < r.value ==> tags[j].offset < boundary
    ensures r.None? ==> forall j :: 1 <= j < |tags| ==> tags[j].offset < boundary
    decreases |tags|
  {
    if |tags| <= 1 then None
    else
      var r := FirstPast(tags[..|tags| - 1], boundary);
      if r.Some? then r
      else if Last(tags).offset >= boundary then Some(|tags| - 1)
      else None
  }

  /** The walk the outline is expected to have: every tag with its level,
      in document order, and the Appendix entry in front of the first
      non-first tag past the boundary. */
  function Expected(tags: seq<Tag>, boundary: nat): seq<(int, string)> {
    var es := Entries(tags, boundary);
    match FirstPast(tags, boundary)
    case None => es
    case Some(i) => es[..i] + [(0, AppendixTitle)] + es[i..]
  }

  /** The tags come in document order: strictly increasing offsets. */
  predicate Increasing(tags: seq<Tag>) {
    forall i, j :: 0 <= i < j < |tags| ==> tags[i].offset < tags[j].offset
  }

  /** Read in pre-order, the outline lists the tags in document order with
      their levels, the Appendix node appearing exactly once, in front of
      the first non-first tag past the boundary. Titles are taken to
      differ from "Appendix". */
  lemma {:induction false} WalkIsTags(tags: seq<Tag>, boundary: nat)
    requires Increasing(tags)
    requires forall i :: 0 <= i < |tags| ==> tags[i].title != AppendixTitle
    ensures Walk(Outline(tags, boundary)) == Expected(tags, boundary)
    ensures FirstPast(tags, boundary).Some? ==>
      Outline(tags, boundary) != [] && Last(Outline(tags, boundary)).level == 0
      && Last(Outline(tags, boundary)).title == AppendixTitle
    ensures FirstPast(tags, boundary).None? && tags != [] ==>
      Outline(tags, boundary) != [] && Last(Outline(tags, boundary)).title != AppendixTitle
    decreases |tags|
  {
    if tags != [] {
      var front := tags[..|tags| - 1];
      assert Increasing(front);
      assert forall i :: 0 <= i < |front| ==> front[i].title != AppendixTitle;
      WalkIsTags(front, boundary);
      match FirstPast(front, boundary)
      case Some(i) => StepAfterAppendix(tags, boundary, i);
      case None =>
        if Pushes(Outline(front, boundary), Last(tags), boundary) {
          StepPushesAppendix(tags, boundary);
        } else {
          StepPlain(tags, boundary);
        }
    }
  }

  /** The tags' entries: the entries of all but the last, then the last's. */
  lemma EntriesSnoc(tags: seq<Tag>, boundary: nat)
    requires tags != []
    ensures Entries(tags, boundary)
      == Entries(tags[..|tags| - 1], boundary) + [(Level(Last(tags), boundary) as int, Last(tags).title)]
  {
  }

  /** Inserting the Appendix entry before position i commutes with
      appending an entry at the end. */
  lemma InsertSnoc<T>(ef: seq<T>, a: T, e: T, i: nat)
    requires i <= |ef|
    ensures (ef + [e])[..i] + [a] + (ef + [e])[i..] == (ef[..i] + [a] + ef[i..]) + [e]
  {
    assert (ef + [e])[..i] == ef[..i];
    assert (ef + [e])[i..] == ef[i..] + [e];
  }

  /** A nonempty list of tags has a nonempty outline. */
  lemma OutlineNonempty(tags: seq<Tag>, boundary: nat)
    requires tags != []
    ensures Outline(tags, boundary) != []
  {
  }

  /** The step of WalkIsTags when the Appendix node is already in place:
      every later tag is past the boundary and nests under it. */
  lemma StepAfterAppendix(tags: seq<Tag>, boundary: nat, i: nat)
    requires tags != [] && Increasing(tags)
    requires FirstPast(tags[..|tags| - 1], boundary) == Some(i)
    requires Walk(Outline(tags[..|tags| - 1], boundary)) == Expected(tags[..|tags| - 1], boundary)
    requires Outline(tags[..|tags| - 1], boundary) != []
    requires Last(Outline(tags[..|tags| - 1], boundary)).level == 0
    requires Last(Outline(tags[..|tags| - 1], boundary)).title == AppendixTitle
    ensures Walk(Outline(tags, boundary)) == Expected(tags, boundary)
    ensures Outline(tags, boundary) != [] && Last(Outline(tags, boundary)).level == 0
      && Last(Outline(tags, boundary)).title == AppendixTitle
  {
    var front := tags[..|tags| - 1];
    var t := Last(tags);
    var s := Outline(front, boundary);
    var n := Node(Level(t, boundary), t.title, []);
    var e := (Level(t, boundary) as int, t.title);
    assert t.offset >= boundary by {
      assert front[i] == tags[i];
      assert tags[i].offset < tags[|tags| - 1].offset;
    }
    assert FirstPast(tags, boundary) == Some(i);
    assert Outline(tags, boundary) == Place(s, n) by {
      assert !Pushes(s, t, boundary);
    }
    PlaceWalk(s, n);
    PlaceKeepsLast(s, n);
    assert WalkNode(n) == [e];
    EntriesSnoc(tags, boundary);
    InsertSnoc(Entries(front, boundary), (0, AppendixTitle), e, i);
  }

  /** The step of WalkIsTags that pushes the Appendix node: the first
      non-first tag past the boundary. */
  lemma StepPushesAppendix(tags: seq<Tag>, boundary: nat)
    requires tags != []
    requires FirstPast(tags[..|tags| - 1], boundary).None?
    requires Pushes(Outline(tags[..|tags| - 1], boundary), Last(tags), boundary)
    requires Walk(Outline(tags[..|tags| - 1], boundary)) == Expected(tags[..|tags| - 1], boundary)
    ensures Walk(Outline(tags, boundary)) == Expected(tags, boundary)
    ensures Outline(tags, boundary) != [] && Last(Outline(tags, boundary)).level == 0
      && Last(Outline(tags, boundary)).title == AppendixTitle
    ensures FirstPast(tags, boundary) == Some(|tags| - 1)
  {
    var front := tags[..|tags| - 1];
    var t := Last(tags);
    var s := Outline(front, boundary);
    var n := Node(Level(t, boundary), t.title, []);
    var e := (Level(t, boundary) as int, t.title);
    assert front != [];
    assert FirstPast(tags, boundary) == Some(|tags| - 1);
    assert Outline(tags, boundary) == Place(s + [AppendixNode], n);
    assert Walk(s + [AppendixNode]) == Walk(s) + [(0, AppendixTitle)] by {
      WalkSnoc(s, AppendixNode);
    }
    PlaceWalk(s + [AppendixNode], n);
    PlaceKeepsLast(s + [AppendixNode], n);
    assert WalkNode(n) == [e];
    EntriesSnoc(tags, boundary);
    var es := Entries(tags, boundary);
    assert es[..|tags| - 1] == Entries(front, boundary);
    assert es[|tags| - 1..] == [e];
  }

  /** The step of WalkIsTags that adds a tag without any Appendix node. */
  lemma StepPlain(tags: seq<Tag>, boundary: nat)
    requires tags != []
    requires forall i :: 0 <= i < |tags| ==> tags[i].title != AppendixTitle
    requires FirstPast(tags[..|tags| - 1], boundary).None?
    requires !Pushes(Outline(tags[..|tags| - 1], boundary), Last(tags), boundary)
    requires Walk(Outline(tags[..|tags| - 1], boundary)) == Expected(tags[..|tags| - 1], boundary)
    requires tags[..|tags| - 1] != [] ==>
      Outline(tags[..|tags| - 1], boundary) != [] && Last(Outline(tags[..|tags| - 1], boundary)).title != AppendixTitle
    ensures Walk(Outline(tags, boundary)) == Expected(tags, boundary)
    ensures FirstPast(tags, boundary).None?
    ensures Outline(tags, boundary) != [] && Last(Outline(tags, boundary)).title != AppendixTitle
  {
    var front := tags[..|tags| - 1];
    var t := Last(tags);
    var s := Outline(front, boundary);
    var n := Node(Level(t, boundary), t.title, []);
    var e := (Level(t, boundary) as int, t.title);
    assert FirstPast(tags, boundary).None? by {
      if front != [] {
        assert t.offset < boundary;
      }
    }
    assert Outline(tags, boundary) == Place(s, n);
    PlaceWalk(s, n);
    assert WalkNode(n) == [e];
    EntriesSnoc(tags, boundary);
    if s != [] && n.level > Last(s).level {
      PlaceKeepsLast(s, n);
      assert front != [];
    } else {
      assert t.title == tags[|tags| - 1].title;
    }
  }

  /** Without an appendix mark the boundary lies past every tag: no level
      is shifted and no Appendix node appears. */
  lemma NoAppendix(tags: seq<Tag>, boundary: nat)
    requires Increasing(tags)
    requires forall i :: 0 <= i < |tags| ==> tags[i].title != AppendixTitle
    requires forall i :: 0 <= i < |tags| ==> tags[i].offset < boundary
    ensures Walk(Outline(tags, boundary)) == seq(|tags|, i requires 0 <= i < |tags| => (tags[i].base as int, tags[i].title))
  {
    WalkIsTags(tags, boundary);
  }
}
