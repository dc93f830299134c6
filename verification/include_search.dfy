/** The include-graph search inside `IndexerJob::priority`: an Inactive file
    earns a bonus when its dependency node leads, through non-system files,
    to a file whose buffer is not Inactive and that still has an unvisited
    include. The search threads one `seen` set through the whole recursion,
    so it terminates on cyclic include graphs, and the order in which a
    node's includes are iterated can change its answer. */
module IncludeSearch {
  import opened Support

  /** Editor state of a file's buffer (`Server::activeBufferType`). */
  datatype BufferType = Active | Open | Inactive

  /** The dependency graph: each node's includes, keyed by file id, listed in
      the iteration order of the node's `includes` container. A file id with
      no entry has no dependency node. */
  type Graph = map<FileId, seq<FileId>>

  /** The two foreign predicates the search consults. */
  datatype Classifier = Classifier(isSystem: FileId -> bool, bufferType: FileId -> BufferType)

  function Includes(g: Graph, n: FileId): seq<FileId>
  {
    if n in g then g[n] else []
  }

  /** Every node the search can ever put into `seen`. */
  function Nodes(g: Graph): set<FileId>
  {
    g.Keys + set n, t | n in g && t in g[n] :: t
  }

  lemma CardinalityMonotone(a: set<FileId>, b: set<FileId>)
    requires a <= b
    ensures |a| <= |b|
  {
    assert b == a + (b - a);
  }

  /** Marking an unseen include as seen shrinks the set of unseen nodes. */
  lemma MarkingShrinksUnseen(g: Graph, n: FileId, i: nat, seen: set<FileId>)
    requires i < |Includes(g, n)| && Includes(g, n)[i] !in seen
    ensures Includes(g, n)[i] in Nodes(g)
    ensures |Nodes(g) - (seen + {Includes(g, n)[i]})| < |Nodes(g) - seen|
  {
    var t := Includes(g, n)[i];
    assert n in g && t in g[n];
    assert t in Nodes(g);
    assert Nodes(g) - (seen + {t}) == (Nodes(g) - seen) - {t};
  }

  /** The lambda `func` applied to node `n`: searches `n`'s includes in order. */
  function Expand(g: Graph, c: Classifier, n: FileId, seen: set<FileId>): (res: (bool, set<FileId>))
    decreases |Nodes(g) - seen|, |Includes(g, n)| + 1
    ensures seen <= res.1 <= seen + Nodes(g)
  {
    Edges(g, c, n, 0, seen)
  }

  /** The loop of `func` from the `i`-th include of `n` on. */
  function Edges(g: Graph, c: Classifier, n: FileId, i: nat, seen: set<FileId>): (res: (bool, set<FileId>))
    requires i <= |Includes(g, n)|
    decreases |Nodes(g) - seen|, |Includes(g, n)| - i
    ensures seen <= res.1 <= seen + Nodes(g)
  {
    if i == |Includes(g, n)| then (false, seen)
    else
      var t := Includes(g, n)[i];
      if t in seen then Edges(g, c, n, i + 1, seen)
      else
        var seen1 := seen + {t};
        MarkingShrinksUnseen(g, n, i, seen);
        if c.isSystem(n) then Edges(g, c, n, i + 1, seen1)
        else if c.bufferType(n) != Inactive then (true, seen1)
        else
          var sub := Expand(g, c, t, seen1);
          if sub.0 then (true, sub.1)
          else
            CardinalityMonotone(Nodes(g) - sub.1, Nodes(g) - seen1);
            Edges(g, c, n, i + 1, sub.1)
  }

  /** Whether the dependency node of `root` earns the +2 bonus: the search
      starts with only `root` seen. A file without a node earns nothing. */
  function IncludesActiveFile(g: Graph, c: Classifier, root: FileId): (r: bool)
    ensures r ==> root in g && LeadsToQualifying(g, c, root)
  {
    if root in g && Expand(g, c, root, {root}).0 then
      ExpandSound(g, c, root, {root});
      true
    else false
  }

  /** A chain of includes through non-system files. */
  ghost predicate IsChain(g: Graph, c: Classifier, p: seq<FileId>)
  {
    && |p| > 0
    && (forall k :: 0 <= k < |p| ==> !c.isSystem(p[k]))
    && (forall k :: 0 <= k < |p| - 1 ==> p[k + 1] in Includes(g, p[k]))
  }

  /** A file that ends the search successfully: not a system header, its
      buffer not Inactive, and it includes something. */
  ghost predicate Qualifies(g: Graph, c: Classifier, m: FileId)
  {
    !c.isSystem(m) && c.bufferType(m) != Inactive && |Includes(g, m)| > 0
  }

  ghost predicate LeadsToQualifying(g: Graph, c: Classifier, n: FileId)
  {
    exists p :: IsChain(g, c, p) && p[0] == n && Qualifies(g, c, p[|p| - 1])
  }

  /** Soundness: a successful search from `n` is witnessed by a chain of
      non-system includes from `n` to a qualifying file. */
  lemma {:induction false} ExpandSound(g: Graph, c: Classifier, n: FileId, seen: set<FileId>)
    requires Expand(g, c, n, seen).0
    ensures LeadsToQualifying(g, c, n)
    decreases |Nodes(g) - seen|, |Includes(g, n)| + 1
  {
    EdgesSound(g, c, n, 0, seen);
  }

  lemma {:induction false} EdgesSound(g: Graph, c: Classifier, n: FileId, i: nat, seen: set<FileId>)
    requires i <= |Includes(g, n)|
    requires Edges(g, c, n, i, seen).0
    ensures LeadsToQualifying(g, c, n)
    decreases |Nodes(g) - seen|, |Includes(g, n)| - i
  {
    var t := Includes(g, n)[i];
    if t in seen {
      assert Edges(g, c, n, i, seen) == Edges(g, c, n, i + 1, seen);
      EdgesSound(g, c, n, i + 1, seen);
    } else {
      var seen1 := seen + {t};
      MarkingShrinksUnseen(g, n, i, seen);
      if c.isSystem(n) {
        assert Edges(g, c, n, i, seen) == Edges(g, c, n, i + 1, seen1);
        EdgesSound(g, c, n, i + 1, seen1);
      } else if c.bufferType(n) != Inactive {
        assert IsChain(g, c, [n]);
      } else {
        var sub := Expand(g, c, t, seen1);
        if sub.0 {
          ExpandSound(g, c, t, seen1);
          var p :| IsChain(g, c, p) && p[0] == t && Qualifies(g, c, p[|p| - 1]);
          ChainExtend(g, c, n, p);
        } else {
          assert Edges(g, c, n, i, seen) == Edges(g, c, n, i + 1, sub.1);
          CardinalityMonotone(Nodes(g) - sub.1, Nodes(g) - seen1);
          EdgesSound(g, c, n, i + 1, sub.1);
        }
      }
    }
  }

  lemma ChainExtend(g: Graph, c: Classifier, n: FileId, p: seq<FileId>)
    requires IsChain(g, c, p) && !c.isSystem(n) && p[0] in Includes(g, n)
    requires Qualifies(g, c, p[|p| - 1])
    ensures LeadsToQualifying(g, c, n)
  {
    var q := [n] + p;
    assert forall k :: 1 <= k < |q| ==> q[k] == p[k - 1];
    assert IsChain(g, c, q);
    assert q[|q| - 1] == p[|p| - 1];
  }

  /** A non-system file whose buffer is not Inactive succeeds as soon as one
      of its remaining includes is still unseen. */
  lemma {:induction false} EdgesFindUnseenInclude(g: Graph, c: Classifier, n: FileId, i: nat, seen: set<FileId>, k: nat)
    requires !c.isSystem(n) && c.bufferType(n) != Inactive
    requires i <= k < |Includes(g, n)| && Includes(g, n)[k] !in seen
    ensures Edges(g, c, n, i, seen).0
    decreases k - i
  {
    if Includes(g, n)[i] in seen {
      EdgesFindUnseenInclude(g, c, n, i + 1, seen, k);
    }
  }

  /** Whether a node that is expanded succeeds is decided at that node alone
      when it is a non-system file with a non-Inactive buffer: it succeeds
      exactly when one of its includes has not been seen yet. */
  lemma ExpandQualifyingNode(g: Graph, c: Classifier, n: FileId, seen: set<FileId>)
    requires !c.isSystem(n) && c.bufferType(n) != Inactive
    ensures Expand(g, c, n, seen).0 <==> exists k :: 0 <= k < |Includes(g, n)| && Includes(g, n)[k] !in seen
  {
    if exists k :: 0 <= k < |Includes(g, n)| && Includes(g, n)[k] !in seen {
      var k :| 0 <= k < |Includes(g, n)| && Includes(g, n)[k] !in seen;
      EdgesFindUnseenInclude(g, c, n, 0, seen, k);
    } else {
      EdgesAllSeen(g, c, n, 0, seen);
    }
  }

  lemma {:induction false} EdgesAllSeen(g: Graph, c: Classifier, n: FileId, i: nat, seen: set<FileId>)
    requires i <= |Includes(g, n)|
    requires forall k :: i <= k < |Includes(g, n)| ==> Includes(g, n)[k] in seen
    ensures !Edges(g, c, n, i, seen).0
    decreases |Includes(g, n)| - i
  {
    if i < |Includes(g, n)| {
      EdgesAllSeen(g, c, n, i + 1, seen);
    }
  }

  /** A system header never makes the search succeed through its own
      includes, whatever its buffer state; it only marks them seen. */
  lemma {:induction false} SystemNodeEdgesFail(g: Graph, c: Classifier, n: FileId, i: nat, seen: set<FileId>)
    requires c.isSystem(n) && i <= |Includes(g, n)|
    ensures !Edges(g, c, n, i, seen).0
    ensures Edges(g, c, n, i, seen).1 == seen + set k | i <= k < |Includes(g, n)| :: Includes(g, n)[k]
    decreases |Includes(g, n)| - i
  {
    if i < |Includes(g, n)| {
      var t := Includes(g, n)[i];
      var seen1 := if t in seen then seen else seen + {t};
      SystemNodeEdgesFail(g, c, n, i + 1, seen1);
      assert (set k | i <= k < |Includes(g, n)| :: Includes(g, n)[k])
          == {t} + set k | i + 1 <= k < |Includes(g, n)| :: Includes(g, n)[k];
    }
  }

  /** The buffer and system tests look at the node being expanded, not at
      the include reached: an Inactive file whose only include is an Active
      header that itself includes nothing earns no bonus. */
  lemma ActiveLeafIncludeEarnsNothing(c: Classifier)
    requires c.bufferType(1) == Inactive && c.bufferType(2) == Active
    ensures !IncludesActiveFile(map[1 := [2], 2 := []], c, 1)
  {
    var g: Graph := map[1 := [2], 2 := []];
    assert Includes(g, 1) == [2] && Includes(g, 2) == [];
    assert {1} + {2} == {1, 2};
    assert Expand(g, c, 2, {1, 2}) == (false, {1, 2});
    assert Edges(g, c, 1, 1, {1, 2}) == (false, {1, 2});
    assert !Edges(g, c, 1, 0, {1}).0;
  }

  /** Because `seen` is shared across branches, the iteration order of the
      includes decides the answer: file 1 includes the Active file 2 and file
      3, and file 2 includes file 3. Visiting 2 first finds 3 unseen and
      succeeds; visiting 3 first marks it seen, and 2 then fails. */
  lemma IncludeOrderDecides(c: Classifier)
    requires !c.isSystem(1) && !c.isSystem(2)
    requires c.bufferType(1) == Inactive && c.bufferType(2) == Active
    ensures IncludesActiveFile(map[1 := [2, 3], 2 := [3], 3 := []], c, 1)
    ensures !IncludesActiveFile(map[1 := [3, 2], 2 := [3], 3 := []], c, 1)
  {
    var g1: Graph := map[1 := [2, 3], 2 := [3], 3 := []];
    assert Includes(g1, 1) == [2, 3] && Includes(g1, 2) == [3];
    assert {1} + {2} == {1, 2};
    assert Edges(g1, c, 2, 0, {1, 2}).0;
    assert Expand(g1, c, 2, {1, 2}).0;
    assert Edges(g1, c, 1, 0, {1}).0;
    var g2: Graph := map[1 := [3, 2], 2 := [3], 3 := []];
    assert Includes(g2, 1) == [3, 2] && Includes(g2, 2) == [3] && Includes(g2, 3) == [];
    assert {1} + {3} == {1, 3} && {1, 3} + {2} == {1, 2, 3};
    assert Expand(g2, c, 3, {1, 3}) == (false, {1, 3});
    assert Edges(g2, c, 2, 1, {1, 2, 3}) == (false, {1, 2, 3});
    assert Edges(g2, c, 2, 0, {1, 2, 3}) == (false, {1, 2, 3});
    assert Expand(g2, c, 2, {1, 2, 3}) == (false, {1, 2, 3});
    assert Edges(g2, c, 1, 2, {1, 2, 3}) == (false, {1, 2, 3});
    assert Edges(g2, c, 1, 1, {1, 3}) == (false, {1, 2, 3});
    assert !Edges(g2, c, 1, 0, {1}).0;
  }
}
