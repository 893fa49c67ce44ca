/**
 * Index resolution and the edits the builder makes to its list of nodes,
 * stated on values: each function gives the list an edit leaves behind.
 */
module Nodes {
  import opened Outcomes
  import opened Tokens

  /**
   * Resolves a possibly negative index against a list of `size` nodes:
   * -1 is the last node, -size the first. Fails on an empty list and
   * outside -size <= index <= size - 1.
   */
  function FixIndex(index: int, size: nat): (r: Result<nat>)
    ensures r.Success? <==> 0 < size && -(size as int) <= index < size
    ensures r.Success? ==> r.value < size && r.value == index % size
    ensures size == 0 ==> r == Failure(EmptyList)
    ensures 0 < size && !(-(size as int) <= index < size) ==> r == Failure(OutOfRange(index, -(size as int), size - 1))
  {
    if size <= 0 then Failure(EmptyList)
    else
      var lPos, hPos := -(size as int), size - 1;
      if index < lPos || index > hPos then Failure(OutOfRange(index, lPos, hPos))
      else Success(if index >= 0 then index else size + index)
  }

  /** Every node of a non-empty list is reached by exactly two indices, p and p - size. */
  lemma FixIndexReaches(index: int, size: nat, p: nat)
    requires p < size
    ensures FixIndex(index, size) == Success(p) <==> index == p || index == p - size
  {
  }

  /** The documented resolutions on a list of five nodes. */
  lemma FixIndexOnFive()
    ensures FixIndex(-1, 5) == Success(4) && FixIndex(-2, 5) == Success(3)
    ensures FixIndex(0, 5) == Success(0) && FixIndex(1, 5) == Success(1)
    ensures FixIndex(5, 5) == Failure(OutOfRange(5, -5, 4)) && FixIndex(-6, 5) == Failure(OutOfRange(-6, -5, 4))
  {
  }

  /** `t` spliced in before position p (LinkedList.addAll(p, t)). */
  function AddAt(nodes: seq<string>, p: nat, t: seq<string>): (r: seq<string>)
    requires p <= |nodes|
    ensures |r| == |nodes| + |t|
    ensures forall i :: 0 <= i < p ==> r[i] == nodes[i]
    ensures forall j :: 0 <= j < |t| ==> r[p + j] == t[j]
    ensures forall i :: p <= i < |nodes| ==> r[i + |t|] == nodes[i]
  {
    nodes[..p] + t + nodes[p..]
  }

  /** The node at p dropped (LinkedList.remove(p)). */
  function RemoveAt(nodes: seq<string>, p: nat): (r: seq<string>)
    requires p < |nodes|
    ensures |r| == |nodes| - 1
    ensures forall i :: 0 <= i < p ==> r[i] == nodes[i]
    ensures forall i :: p < i < |nodes| ==> r[i - 1] == nodes[i]
  {
    nodes[..p] + nodes[p + 1..]
  }

  /** The nodes at positions from..to, both included, dropped. */
  function RemoveRange(nodes: seq<string>, from: nat, to: nat): (r: seq<string>)
    requires from <= to < |nodes|
    ensures |r| == |nodes| - (to - from + 1)
    ensures forall i :: 0 <= i < from ==> r[i] == nodes[i]
    ensures forall i :: to < i < |nodes| ==> r[i - (to - from + 1)] == nodes[i]
  {
    nodes[..from] + nodes[to + 1..]
  }

  /** The node at p swapped for the run `t`. */
  function ReplaceAt(nodes: seq<string>, p: nat, t: seq<string>): (r: seq<string>)
    requires p < |nodes|
    ensures |r| == |nodes| - 1 + |t|
    ensures forall i :: 0 <= i < p ==> r[i] == nodes[i]
    ensures forall j :: 0 <= j < |t| ==> r[p + j] == t[j]
    ensures forall i :: p < i < |nodes| ==> r[i - 1 + |t|] == nodes[i]
  {
    nodes[..p] + t + nodes[p + 1..]
  }

  /**
   * The text a missing string turns into when it is glued: polling an empty
   * list yields null, and Java's string concatenation writes null as "null".
   */
  const NullText := "null"

  /** The list as a poll at either end sees it: an empty list offers one missing node. */
  function NullIfEmpty(nodes: seq<string>): (r: seq<string>)
    ensures |r| > 0
    ensures |nodes| > 0 ==> r == nodes
  {
    if |nodes| == 0 then [NullText] else nodes
  }

  /**
   * The first fragment of `t` glued onto the right of the node at p, the
   * other fragments inserted right after it. With no fragments, a missing
   * one is glued on.
   */
  function AppendAt(nodes: seq<string>, p: nat, t: seq<string>): (r: seq<string>)
    requires p < |nodes|
    ensures |t| == 0 ==> r == nodes[p := nodes[p] + NullText]
    ensures |t| > 0 ==> |r| == |nodes| + |t| - 1
    ensures forall i :: 0 <= i < p ==> r[i] == nodes[i]
    ensures |t| > 0 ==> r[p] == nodes[p] + t[0]
    ensures forall j :: 1 <= j < |t| ==> r[p + j] == t[j]
    ensures |t| > 0 ==> forall i :: p < i < |nodes| ==> r[i + |t| - 1] == nodes[i]
  {
    var first, rest := if |t| == 0 then NullText else t[0], if |t| == 0 then [] else t[1..];
    nodes[..p] + ([nodes[p] + first] + rest) + nodes[p + 1..]
  }

  /**
   * The last fragment of `t` glued onto the left of the node at p, the
   * other fragments inserted right before it. With no fragments, a missing
   * one is glued on.
   */
  function PrependAt(nodes: seq<string>, p: nat, t: seq<string>): (r: seq<string>)
    requires p < |nodes|
    ensures |t| == 0 ==> r == nodes[p := NullText + nodes[p]]
    ensures |t| > 0 ==> |r| == |nodes| + |t| - 1
    ensures forall i :: 0 <= i < p ==> r[i] == nodes[i]
    ensures forall j :: 0 <= j < |t| - 1 ==> r[p + j] == t[j]
    ensures |t| > 0 ==> r[p + |t| - 1] == t[|t| - 1] + nodes[p]
    ensures |t| > 0 ==> forall i :: p < i < |nodes| ==> r[i + |t| - 1] == nodes[i]
  {
    var rest, last := if |t| == 0 then [] else t[..|t| - 1], if |t| == 0 then NullText else t[|t| - 1];
    nodes[..p] + (rest + [last + nodes[p]]) + nodes[p + 1..]
  }

  /** The nodes other than the empty string, in their order. */
  function WithoutEmpty(nodes: seq<string>): (r: seq<string>)
    ensures |r| <= |nodes|
    ensures forall k :: 0 <= k < |r| ==> r[k] != ""
  {
    if |nodes| == 0 then []
    else (if nodes[0] == "" then [] else [nodes[0]]) + WithoutEmpty(nodes[1..])
  }

  /** Cleaning drops every copy of the empty string and keeps every other node as often as it occurs. */
  lemma {:induction false} WithoutEmptyCounts(nodes: seq<string>)
    ensures multiset(WithoutEmpty(nodes)) == multiset(nodes)["" := 0]
  {
    if |nodes| > 0 {
      WithoutEmptyCounts(nodes[1..]);
      assert nodes == [nodes[0]] + nodes[1..];
    }
  }

  /** Inserting a run and then removing the same positions gives the list back. */
  lemma RemoveRangeUndoesAddAt(nodes: seq<string>, p: nat, t: seq<string>)
    requires p <= |nodes| && |t| > 0
    ensures RemoveRange(AddAt(nodes, p, t), p, p + |t| - 1) == nodes
  {
  }

  /**
   * addFirst then removeFirst: the removal takes away only the first of the
   * added nodes, so the list comes back exactly when the text was one node.
   */
  lemma RemoveAtUndoesAddAtFront(nodes: seq<string>, t: seq<string>)
    requires |t| > 0
    ensures RemoveAt(AddAt(nodes, 0, t), 0) == t[1..] + nodes
    ensures RemoveAt(AddAt(nodes, 0, t), 0) == nodes <==> |t| == 1
  {
    assert AddAt(nodes, 0, t)[1..] == t[1..] + nodes;
    if |t| > 1 {
      assert |t[1..] + nodes| != |nodes|;
    }
  }

  /** Replacing a node is removing it and splicing the run in at its place. */
  lemma ReplaceAtIsRemoveThenAdd(nodes: seq<string>, p: nat, t: seq<string>)
    requires p < |nodes|
    ensures ReplaceAt(nodes, p, t) == AddAt(RemoveAt(nodes, p), p, t)
  {
  }

  /** Removing one position is removing the range from it to itself. */
  lemma RemoveRangeSingle(nodes: seq<string>, p: nat)
    requires p < |nodes|
    ensures RemoveRange(nodes, p, p) == RemoveAt(nodes, p)
  {
  }

  /** Appending text that is a single fragment only lengthens the node at p. */
  lemma AppendAtSingle(nodes: seq<string>, p: nat, x: string)
    requires p < |nodes|
    ensures AppendAt(nodes, p, [x]) == nodes[p := nodes[p] + x]
  {
  }

  /** Prepending text that is a single fragment only lengthens the node at p. */
  lemma PrependAtSingle(nodes: seq<string>, p: nat, x: string)
    requires p < |nodes|
    ensures PrependAt(nodes, p, [x]) == nodes[p := x + nodes[p]]
  {
  }

  /**
   * Joining two runs whose boundary nodes are glued together gives the two
   * joined runs side by side, with no delimiter between them.
   */
  lemma {:induction false} JoinGlued(a: seq<string>, b: seq<string>, delim: string)
    requires |a| > 0 && |b| > 0
    ensures Join(a[..|a| - 1] + [a[|a| - 1] + b[0]] + b[1..], delim) == Join(a, delim) + Join(b, delim)
  {
    var glued := a[..|a| - 1] + [a[|a| - 1] + b[0]] + b[1..];
    if |a| == 1 {
      assert glued == [a[0] + b[0]] + b[1..];
      if |b| > 1 {
        JoinConcat([a[0] + b[0]], b[1..], delim);
        JoinConcat([b[0]], b[1..], delim);
        assert [b[0]] + b[1..] == b;
      }
    } else {
      var a' := a[1..];
      assert glued == [a[0]] + (a'[..|a'| - 1] + [a'[|a'| - 1] + b[0]] + b[1..]);
      JoinGlued(a', b, delim);
      JoinConcat([a[0]], a'[..|a'| - 1] + [a'[|a'| - 1] + b[0]] + b[1..], delim);
      JoinConcat([a[0]], a', delim);
      assert [a[0]] + a' == a;
    }
  }

  /**
   * In the joined string, append(str, p) puts the joined fragments of `str`
   * right after node p, with no delimiter in front of them.
   */
  lemma AppendAtText(nodes: seq<string>, p: nat, t: seq<string>, delim: string)
    requires p < |nodes| && |t| > 0
    ensures Join(AppendAt(nodes, p, t), delim)
            == Join(nodes[..p + 1], delim) + Join(t, delim)
               + (if p + 1 < |nodes| then delim + Join(nodes[p + 1..], delim) else "")
  {
    var a := nodes[..p + 1];
    assert a[..|a| - 1] == nodes[..p] && a[|a| - 1] == nodes[p];
    var glued := a[..|a| - 1] + [a[|a| - 1] + t[0]] + t[1..];
    JoinGlued(a, t, delim);
    assert AppendAt(nodes, p, t) == glued + nodes[p + 1..];
    if p + 1 < |nodes| {
      JoinConcat(glued, nodes[p + 1..], delim);
    } else {
      assert glued + nodes[p + 1..] == glued;
    }
  }

  /** Prepending at p leaves the first p nodes alone and prepends at the front of the rest. */
  lemma PrependAtSplits(nodes: seq<string>, p: nat, t: seq<string>)
    requires p < |nodes| && |t| > 0
    ensures PrependAt(nodes, p, t) == nodes[..p] + PrependAt(nodes[p..], 0, t)
  {
    assert nodes[p..][0] == nodes[p] && nodes[p..][1..] == nodes[p + 1..];
  }

  /** Prepending at the front puts the joined fragments right before the joined nodes. */
  lemma PrependAtFrontText(nodes: seq<string>, t: seq<string>, delim: string)
    requires |nodes| > 0 && |t| > 0
    ensures Join(PrependAt(nodes, 0, t), delim) == Join(t, delim) + Join(nodes, delim)
  {
    assert PrependAt(nodes, 0, t) == t[..|t| - 1] + [t[|t| - 1] + nodes[0]] + nodes[1..] by {
      assert nodes[..0] == [];
    }
    JoinGlued(t, nodes, delim);
  }

  /**
   * In the joined string, prepend(str, p) puts the joined fragments of `str`
   * right before node p, with no delimiter after them.
   */
  lemma PrependAtText(nodes: seq<string>, p: nat, t: seq<string>, delim: string)
    requires p < |nodes| && |t| > 0
    ensures p == 0 ==> Join(PrependAt(nodes, p, t), delim) == Join(t, delim) + Join(nodes, delim)
    ensures p > 0 ==> Join(PrependAt(nodes, p, t), delim)
                      == Join(nodes[..p], delim) + delim + Join(t, delim) + Join(nodes[p..], delim)
  {
    if p == 0 {
      PrependAtFrontText(nodes, t, delim);
    } else {
      var rest := PrependAt(nodes[p..], 0, t);
      PrependAtSplits(nodes, p, t);
      PrependAtFrontText(nodes[p..], t, delim);
      JoinConcat(nodes[..p], rest, delim);
      var front, jt, jb := Join(nodes[..p], delim), Join(t, delim), Join(nodes[p..], delim);
      assert front + delim + (jt + jb) == front + delim + jt + jb;
    }
  }

  /** No node of the list is the empty string. */
  predicate NoEmptyNode(nodes: seq<string>) {
    forall k :: 0 <= k < |nodes| ==> nodes[k] != ""
  }

  /**
   * The splices and removals keep a list free of empty nodes when the
   * inserted fragments are non-empty, as parsed fragments always are, and an
   * empty list polls as the non-empty "null".
   */
  lemma SplicesKeepNoEmptyNode(nodes: seq<string>, p: nat, t: seq<string>)
    requires NoEmptyNode(nodes) && NoEmptyNode(t)
    ensures p <= |nodes| ==> NoEmptyNode(AddAt(nodes, p, t))
    ensures p < |nodes| ==> NoEmptyNode(RemoveAt(nodes, p)) && NoEmptyNode(ReplaceAt(nodes, p, t))
    ensures NoEmptyNode(NullIfEmpty(nodes))
  {
  }

  /** Gluing only lengthens a node, so append keeps a list free of empty nodes. */
  lemma AppendAtKeepsNoEmptyNode(nodes: seq<string>, p: nat, t: seq<string>)
    requires p < |nodes| && NoEmptyNode(nodes) && NoEmptyNode(t)
    ensures NoEmptyNode(AppendAt(nodes, p, t))
  {
    var r := AppendAt(nodes, p, t);
    forall k | 0 <= k < |r| ensures r[k] != "" {
      if |t| > 0 && p < k < p + |t| {
        assert r[k] == t[k - p];
      } else if |t| > 0 && k >= p + |t| {
        assert r[k] == nodes[k - |t| + 1];
      }
    }
  }

  /** Gluing only lengthens a node, so prepend keeps a list free of empty nodes. */
  lemma PrependAtKeepsNoEmptyNode(nodes: seq<string>, p: nat, t: seq<string>)
    requires p < |nodes| && NoEmptyNode(nodes) && NoEmptyNode(t)
    ensures NoEmptyNode(PrependAt(nodes, p, t))
  {
    var r := PrependAt(nodes, p, t);
    forall k | 0 <= k < |r| ensures r[k] != "" {
      if |t| > 0 && p <= k < p + |t| - 1 {
        assert r[k] == t[k - p];
      } else if |t| > 0 && k >= p + |t| {
        assert r[k] == nodes[k - |t| + 1];
      }
    }
  }

  /** Dropping empty nodes works run by run, so the kept nodes stay in order. */
  lemma {:induction false} WithoutEmptyConcat(a: seq<string>, b: seq<string>)
    ensures WithoutEmpty(a + b) == WithoutEmpty(a) + WithoutEmpty(b)
  {
    if |a| > 0 {
      assert (a + b)[1..] == a[1..] + b;
      WithoutEmptyConcat(a[1..], b);
    } else {
      assert a + b == b;
    }
  }

  /** Dropping one empty node does not change what cleaning leaves. */
  lemma WithoutEmptySkipsEmpty(nodes: seq<string>, i: nat)
    requires i < |nodes| && nodes[i] == ""
    ensures WithoutEmpty(nodes[..i] + nodes[i + 1..]) == WithoutEmpty(nodes)
  {
    var before, after := nodes[..i], nodes[i + 1..];
    var rest := [""] + after;
    assert nodes == before + rest;
    assert rest[1..] == after;
    assert WithoutEmpty(rest) == WithoutEmpty(after);
    WithoutEmptyConcat(before, rest);
    WithoutEmptyConcat(before, after);
  }

  /** A list without empty nodes is left as it is: cleaning finds nothing to remove. */
  lemma {:induction false} WithoutEmptyKeepsClean(nodes: seq<string>)
    requires NoEmptyNode(nodes)
    ensures WithoutEmpty(nodes) == nodes
  {
    if |nodes| > 0 {
      WithoutEmptyKeepsClean(nodes[1..]);
    }
  }

  /** Cleaning twice is cleaning once. */
  lemma WithoutEmptyIdempotent(nodes: seq<string>)
    ensures WithoutEmpty(WithoutEmpty(nodes)) == WithoutEmpty(nodes)
  {
    WithoutEmptyKeepsClean(WithoutEmpty(nodes));
  }
}
