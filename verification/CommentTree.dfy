/** The comment thread builder (`organizeComments`): a flat list of comment rows
    becomes a forest. A node is named by its comment id; the forest is the list
    of root ids plus, for every id, the list of its replies' ids. */
module CommentTree {
  import opened Common

  /** The two columns of a comment row the builder looks at. */
  datatype CommentRow = CommentRow(id: int, parentId: Option<int>)

  /** `roots`: the returned root comments; `replies[id]`: the `replies` array of
      the comment stored under `id` in the builder's map. */
  datatype Forest = Forest(roots: seq<int>, replies: map<int, seq<int>>)

  function Ids(rows: seq<CommentRow>): set<int>
  {
    set i | 0 <= i < |rows| :: rows[i].id
  }

  predicate UniqueIds(rows: seq<CommentRow>)
  {
    forall i, j :: 0 <= i < j < |rows| ==> rows[i].id != rows[j].id
  }

  /** The ids of the rows whose parent column is `parent`, in input order:
      the roots for `None`, the replies of comment `p` for `Some(p)`. */
  function Children(rows: seq<CommentRow>, parent: Option<int>): seq<int>
  {
    if rows == [] then []
    else
      var last := rows[|rows| - 1];
      Children(rows[..|rows| - 1], parent) + (if last.parentId == parent then [last.id] else [])
  }

  function Roots(rows: seq<CommentRow>): seq<int>
  {
    Children(rows, None)
  }

  /** `organizeComments(comments)`: the first pass gives every comment an empty
      `replies` list under its id, the second appends each comment to its
      parent's list (or to the roots when it has no parent), dropping it when
      the parent id names no comment of the input. */
  method OrganizeComments(comments: seq<CommentRow>) returns (forest: Forest)
    ensures forest.roots == Roots(comments)
    ensures forest.replies.Keys == Ids(comments)
    ensures forall id :: id in forest.replies ==> forest.replies[id] == Children(comments, Some(id))
  {
    var commentMap: map<int, seq<int>> := map[];
    for i := 0 to |comments|
      invariant commentMap.Keys == Ids(comments[..i])
      invariant forall id :: id in commentMap ==> commentMap[id] == []
    {
      assert comments[..i + 1] == comments[..i] + [comments[i]];
      commentMap := commentMap[comments[i].id := []];
    }
    assert comments[..|comments|] == comments;
    var rootComments: seq<int> := [];
    for i := 0 to |comments|
      invariant commentMap.Keys == Ids(comments)
      invariant rootComments == Children(comments[..i], None)
      invariant forall id :: id in commentMap ==> commentMap[id] == Children(comments[..i], Some(id))
    {
      var comment := comments[i];
      assert comments[..i + 1][..i] == comments[..i];
      if comment.parentId == None {
        rootComments := rootComments + [comment.id];
      } else if comment.parentId.value in commentMap {
        var p := comment.parentId.value;
        commentMap := commentMap[p := commentMap[p] + [comment.id]];
      }
    }
    forest := Forest(rootComments, commentMap);
  }

  // ---------------------------------------------------------------- what the forest holds

  /** An id is listed under `parent` exactly when some row with that id names
      `parent` as its parent. */
  lemma {:induction false} ChildrenMembership(rows: seq<CommentRow>, parent: Option<int>, x: int)
    ensures x in Children(rows, parent) <==>
      exists i | 0 <= i < |rows| :: rows[i].id == x && rows[i].parentId == parent
  {
    if rows != [] {
      var init := rows[..|rows| - 1];
      ChildrenMembership(init, parent, x);
      assert forall i | 0 <= i < |init| :: init[i] == rows[i];
    }
  }

  /** With unique ids no id is listed twice under the same parent. */
  lemma {:induction false} ChildrenAtMostOnce(rows: seq<CommentRow>, parent: Option<int>, x: int)
    requires UniqueIds(rows)
    ensures multiset(Children(rows, parent))[x] <= 1
  {
    if rows != [] {
      var init := rows[..|rows| - 1];
      var last := rows[|rows| - 1];
      assert UniqueIds(init);
      ChildrenAtMostOnce(init, parent, x);
      if last.parentId == parent && last.id == x {
        ChildrenMembership(init, parent, x);
        assert x !in Children(init, parent);
      }
    }
  }

  /** With unique ids every comment ends up in exactly one place or nowhere: a
      parentless comment once among the roots and in no reply list; a comment
      whose parent is in the input once in that parent's replies and nowhere
      else; an orphan nowhere in the forest. */
  lemma Placement(rows: seq<CommentRow>, k: int)
    requires UniqueIds(rows) && 0 <= k < |rows|
    ensures var x := rows[k].id;
      && (rows[k].parentId.None? ==>
            multiset(Roots(rows))[x] == 1 && forall q :: x !in Children(rows, Some(q)))
      && (rows[k].parentId.Some? && rows[k].parentId.value in Ids(rows) ==>
            && x !in Roots(rows)
            && multiset(Children(rows, rows[k].parentId))[x] == 1
            && forall q :: Some(q) != rows[k].parentId ==> x !in Children(rows, Some(q)))
      && (rows[k].parentId.Some? && rows[k].parentId.value !in Ids(rows) ==>
            x !in Roots(rows) && forall q :: q in Ids(rows) ==> x !in Children(rows, Some(q)))
  {
    var x := rows[k].id;
    forall parent: Option<int>
      ensures x in Children(rows, parent) <==> parent == rows[k].parentId
      ensures multiset(Children(rows, parent))[x] <= 1
    {
      ChildrenMembership(rows, parent, x);
      ChildrenAtMostOnce(rows, parent, x);
    }
  }

  // ---------------------------------------------------------------- reordering

  lemma {:induction false} ChildrenAppend(a: seq<CommentRow>, b: seq<CommentRow>, parent: Option<int>)
    ensures Children(a + b, parent) == Children(a, parent) + Children(b, parent)
  {
    if b != [] {
      var init := b[..|b| - 1];
      ChildrenAppend(a, init, parent);
      assert (a + b)[..|a + b| - 1] == a + init;
    } else {
      assert a + b == a;
    }
  }

  /** Taking one row out of the input takes its id out of one list. */
  lemma ChildrenRemoveAt(rows: seq<CommentRow>, j: int, parent: Option<int>)
    requires 0 <= j < |rows|
    ensures multiset(rows[..j] + rows[j + 1..]) == multiset(rows) - multiset{rows[j]}
    ensures multiset(Children(rows, parent)) ==
      multiset(Children(rows[..j] + rows[j + 1..], parent)) + multiset(Children([rows[j]], parent))
  {
    var left, r, right := rows[..j], rows[j], rows[j + 1..];
    assert rows == left + [r] + right;
    ChildrenAppend(left + [r], right, parent);
    ChildrenAppend(left, [r], parent);
    ChildrenAppend(left, right, parent);
  }

  /** Reordering the input rows changes only the order within each list: every
      reply list and the root list keep the same elements with the same
      multiplicities. */
  lemma {:induction false} ChildrenPermutation(rows1: seq<CommentRow>, rows2: seq<CommentRow>, parent: Option<int>)
    requires multiset(rows1) == multiset(rows2)
    ensures multiset(Children(rows1, parent)) == multiset(Children(rows2, parent))
  {
    if rows1 == [] {
      assert |rows2| == |multiset(rows2)| == 0;
    } else {
      var n := |rows1|;
      var r := rows1[n - 1];
      assert r in multiset(rows2);
      var j :| 0 <= j < |rows2| && rows2[j] == r;
      ChildrenRemoveAt(rows1, n - 1, parent);
      ChildrenRemoveAt(rows2, j, parent);
      ChildrenPermutation(rows1[..n - 1] + rows1[n..], rows2[..j] + rows2[j + 1..], parent);
    }
  }

  /** The forest built from a reordering has the same node set. */
  lemma ReorderingKeepsIds(rows1: seq<CommentRow>, rows2: seq<CommentRow>)
    requires multiset(rows1) == multiset(rows2)
    ensures Ids(rows1) == Ids(rows2)
  {
    forall x | x in Ids(rows1) ensures x in Ids(rows2) {
      var i :| 0 <= i < |rows1| && rows1[i].id == x;
      assert rows1[i] in multiset(rows2);
    }
    forall x | x in Ids(rows2) ensures x in Ids(rows1) {
      var i :| 0 <= i < |rows2| && rows2[i].id == x;
      assert rows2[i] in multiset(rows1);
    }
  }
}
