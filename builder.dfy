/**
 * The builder: a delimiter and a mutable list of nodes, edited in place.
 *
 * Every editing method parses its text argument with the builder's delimiter
 * and resolves its index before it touches the list, so a call that fails
 * (an Outcome of Fail) leaves the list as it was. The Java methods return the
 * builder itself for chaining; here they return the Outcome of the call.
 */
module Builder {
  import opened Outcomes
  import opened Tokens
  import opened Nodes

  /** The default delimiter. */
  const Period: string := "."

  class FilenameBuilder {
    const delimiter: string
    var nodes: seq<string>

    /** A builder holding the nodes of `filename` split on `delimiter`. */
    constructor (filename: string, delimiter: string)
      ensures this.delimiter == delimiter
      ensures nodes == Tokenize(filename, delimiter)
    {
      var parsed := Parse(filename, delimiter);
      this.delimiter := delimiter;
      nodes := parsed;
    }

    /** A builder holding the nodes of `filename` split on the default delimiter ".". */
    constructor WithPeriod(filename: string)
      ensures delimiter == Period
      ensures nodes == Tokenize(filename, Period)
    {
      var parsed := Parse(filename, Period);
      delimiter := Period;
      nodes := parsed;
    }

    /** Inserts the nodes of `str` before the node at `atIndex`. */
    method Add(str: string, atIndex: int) returns (status: Outcome)
      modifies this
      ensures match FixIndex(atIndex, old(|nodes|))
        case Failure(e) => status == Fail(e) && nodes == old(nodes)
        case Success(p) => status == Pass && nodes == AddAt(old(nodes), p, Tokenize(str, delimiter))
    {
      var nodesNew := Parse(str, delimiter);
      var fixed := FixIndex(atIndex, |nodes|);
      if fixed.Failure? {
        return Fail(fixed.error);
      }
      var realIndex := fixed.value;
      nodes := nodes[..realIndex] + nodesNew + nodes[realIndex..];
      status := Pass;
    }

    /** Inserts the nodes of `str` in front of all nodes; never fails. */
    method AddFirst(str: string)
      modifies this
      ensures nodes == AddAt(old(nodes), 0, Tokenize(str, delimiter))
    {
      var nodesNew := Parse(str, delimiter);
      nodes := nodesNew + nodes;
    }

    /** Inserts the nodes of `str` after all nodes; never fails. */
    method AddLast(str: string)
      modifies this
      ensures nodes == AddAt(old(nodes), |old(nodes)|, Tokenize(str, delimiter))
    {
      var nodesNew := Parse(str, delimiter);
      nodes := nodes + nodesNew;
    }

    /**
     * Glues the first fragment of `str` onto the node at `atIndex` and inserts
     * the rest after it; when `str` has no fragment, "null" is glued on.
     */
    method Append(str: string, atIndex: int) returns (status: Outcome)
      modifies this
      ensures match FixIndex(atIndex, old(|nodes|))
        case Failure(e) => status == Fail(e) && nodes == old(nodes)
        case Success(p) => status == Pass && nodes == AppendAt(old(nodes), p, Tokenize(str, delimiter))
    {
      var nodesNew := Parse(str, delimiter);
      var fixed := FixIndex(atIndex, |nodes|);
      if fixed.Failure? {
        return Fail(fixed.error);
      }
      var realIndex := fixed.value;
      var append := NullText;
      if |nodesNew| > 0 {
        append, nodesNew := nodesNew[0], nodesNew[1..];
      }
      var original := nodes[realIndex];
      nodes := nodes[..realIndex] + nodes[realIndex + 1..];
      nodesNew := [original + append] + nodesNew;
      nodes := nodes[..realIndex] + nodesNew + nodes[realIndex..];
      status := Pass;
    }

    /**
     * Glues the first fragment of `str` onto the first node and inserts the
     * rest after it; a missing fragment or a missing first node reads as "null".
     */
    method AppendFirst(str: string)
      modifies this
      ensures nodes == AppendAt(NullIfEmpty(old(nodes)), 0, Tokenize(str, delimiter))
    {
      var nodesNew := Parse(str, delimiter);
      var append := NullText;
      if |nodesNew| > 0 {
        append, nodesNew := nodesNew[0], nodesNew[1..];
      }
      ghost var polled := NullIfEmpty(nodes);
      var original := NullText;
      if |nodes| > 0 {
        original, nodes := nodes[0], nodes[1..];
      }
      assert original == polled[0] && nodes == polled[1..] && polled[..0] == [];
      nodesNew := [original + append] + nodesNew;
      nodes := nodesNew + nodes;
    }

    /**
     * Glues the first fragment of `str` onto the last node and adds the rest
     * at the end; a missing fragment or a missing last node reads as "null".
     */
    method AppendLast(str: string)
      modifies this
      ensures nodes == AppendAt(NullIfEmpty(old(nodes)), |NullIfEmpty(old(nodes))| - 1, Tokenize(str, delimiter))
    {
      var nodesNew := Parse(str, delimiter);
      var append := NullText;
      if |nodesNew| > 0 {
        append, nodesNew := nodesNew[0], nodesNew[1..];
      }
      ghost var polled := NullIfEmpty(nodes);
      var original := NullText;
      if |nodes| > 0 {
        original, nodes := nodes[|nodes| - 1], nodes[..|nodes| - 1];
      }
      assert original == polled[|polled| - 1] && nodes == polled[..|polled| - 1] && polled[|polled|..] == [];
      nodesNew := [original + append] + nodesNew;
      nodes := nodes + nodesNew;
    }

    /**
     * Glues the last fragment of `str` onto the left of the node at `atIndex`
     * and inserts the rest before it; when `str` has no fragment, "null" is
     * glued on.
     */
    method Prepend(str: string, atIndex: int) returns (status: Outcome)
      modifies this
      ensures match FixIndex(atIndex, old(|nodes|))
        case Failure(e) => status == Fail(e) && nodes == old(nodes)
        case Success(p) => status == Pass && nodes == PrependAt(old(nodes), p, Tokenize(str, delimiter))
    {
      var nodesNew := Parse(str, delimiter);
      var fixed := FixIndex(atIndex, |nodes|);
      if fixed.Failure? {
        return Fail(fixed.error);
      }
      var realIndex := fixed.value;
      var prepend := NullText;
      if |nodesNew| > 0 {
        prepend, nodesNew := nodesNew[|nodesNew| - 1], nodesNew[..|nodesNew| - 1];
      }
      var original := nodes[realIndex];
      nodes := nodes[..realIndex] + nodes[realIndex + 1..];
      nodesNew := nodesNew + [prepend + original];
      nodes := nodes[..realIndex] + nodesNew + nodes[realIndex..];
      status := Pass;
    }

    /**
     * Glues the last fragment of `str` onto the left of the first node and
     * inserts the rest before it; a missing fragment or node reads as "null".
     */
    method PrependFirst(str: string)
      modifies this
      ensures nodes == PrependAt(NullIfEmpty(old(nodes)), 0, Tokenize(str, delimiter))
    {
      var nodesNew := Parse(str, delimiter);
      var prepend := NullText;
      if |nodesNew| > 0 {
        prepend, nodesNew := nodesNew[|nodesNew| - 1], nodesNew[..|nodesNew| - 1];
      }
      ghost var polled := NullIfEmpty(nodes);
      var original := NullText;
      if |nodes| > 0 {
        original, nodes := nodes[0], nodes[1..];
      }
      assert original == polled[0] && nodes == polled[1..] && polled[..0] == [];
      nodesNew := nodesNew + [prepend + original];
      nodes := nodesNew + nodes;
    }

    /**
     * Glues the last fragment of `str` onto the left of the last node and
     * inserts the rest before it; a missing fragment or node reads as "null".
     */
    method PrependLast(str: string)
      modifies this
      ensures nodes == PrependAt(NullIfEmpty(old(nodes)), |NullIfEmpty(old(nodes))| - 1, Tokenize(str, delimiter))
    {
      var nodesNew := Parse(str, delimiter);
      var prepend := NullText;
      if |nodesNew| > 0 {
        prepend, nodesNew := nodesNew[|nodesNew| - 1], nodesNew[..|nodesNew| - 1];
      }
      ghost var polled := NullIfEmpty(nodes);
      var original := NullText;
      if |nodes| > 0 {
        original, nodes := nodes[|nodes| - 1], nodes[..|nodes| - 1];
      }
      assert original == polled[|polled| - 1] && nodes == polled[..|polled| - 1] && polled[|polled|..] == [];
      nodesNew := nodesNew + [prepend + original];
      nodes := nodes + nodesNew;
    }

    /** Removes the node at `atIndex`. */
    method Remove(atIndex: int) returns (status: Outcome)
      modifies this
      ensures match FixIndex(atIndex, old(|nodes|))
        case Failure(e) => status == Fail(e) && nodes == old(nodes)
        case Success(p) => status == Pass && nodes == RemoveAt(old(nodes), p)
    {
      var fixed := FixIndex(atIndex, |nodes|);
      if fixed.Failure? {
        return Fail(fixed.error);
      }
      var realIndex := fixed.value;
      nodes := nodes[..realIndex] + nodes[realIndex + 1..];
      status := Pass;
    }

    /**
     * Removes the nodes from `fromIndexInc` to `toIndexInc`, both included,
     * once both are resolved; fails if the resolved start lies after the end.
     */
    method RemoveBatch(fromIndexInc: int, toIndexInc: int) returns (status: Outcome)
      modifies this
      ensures match (FixIndex(fromIndexInc, old(|nodes|)), FixIndex(toIndexInc, old(|nodes|)))
        case (Failure(e), _) => status == Fail(e) && nodes == old(nodes)
        case (Success(_), Failure(e)) => status == Fail(e) && nodes == old(nodes)
        case (Success(from), Success(to)) =>
          if from > to then status == Fail(StartAfterEnd(from, to)) && nodes == old(nodes)
          else status == Pass && nodes == RemoveRange(old(nodes), from, to)
    {
      var fixedFrom := FixIndex(fromIndexInc, |nodes|);
      if fixedFrom.Failure? {
        return Fail(fixedFrom.error);
      }
      var fixedTo := FixIndex(toIndexInc, |nodes|);
      if fixedTo.Failure? {
        return Fail(fixedTo.error);
      }
      var from, to := fixedFrom.value, fixedTo.value;
      if from > to {
        return Fail(StartAfterEnd(from, to));
      }
      var i := from;
      while i <= to
        invariant from <= i <= to + 1
        invariant nodes == old(nodes)[..from] + old(nodes)[i..]
      {
        nodes := nodes[..from] + nodes[from + 1..];
        i := i + 1;
      }
      status := Pass;
    }

    /** Removes the first node; fails on an empty list. */
    method RemoveFirst() returns (status: Outcome)
      modifies this
      ensures |old(nodes)| == 0 ==> status == Fail(NoSuchElement) && nodes == old(nodes)
      ensures |old(nodes)| > 0 ==> status == Pass && nodes == RemoveAt(old(nodes), 0)
    {
      if |nodes| == 0 {
        return Fail(NoSuchElement);
      }
      nodes := nodes[1..];
      status := Pass;
    }

    /** Removes the last node; fails on an empty list. */
    method RemoveLast() returns (status: Outcome)
      modifies this
      ensures |old(nodes)| == 0 ==> status == Fail(NoSuchElement) && nodes == old(nodes)
      ensures |old(nodes)| > 0 ==> status == Pass && nodes == RemoveAt(old(nodes), |old(nodes)| - 1)
    {
      if |nodes| == 0 {
        return Fail(NoSuchElement);
      }
      nodes := nodes[..|nodes| - 1];
      status := Pass;
    }

    /** Swaps the node at `atIndex` for the nodes of `str`. */
    method Replace(str: string, atIndex: int) returns (status: Outcome)
      modifies this
      ensures match FixIndex(atIndex, old(|nodes|))
        case Failure(e) => status == Fail(e) && nodes == old(nodes)
        case Success(p) => status == Pass && nodes == ReplaceAt(old(nodes), p, Tokenize(str, delimiter))
    {
      var nodesNew := Parse(str, delimiter);
      var fixed := FixIndex(atIndex, |nodes|);
      if fixed.Failure? {
        return Fail(fixed.error);
      }
      var realIndex := fixed.value;
      nodes := nodes[..realIndex] + nodes[realIndex + 1..];
      nodes := nodes[..realIndex] + nodesNew + nodes[realIndex..];
      status := Pass;
    }

    /** Swaps the first node for the nodes of `str`; fails on an empty list. */
    method ReplaceFirst(str: string) returns (status: Outcome)
      modifies this
      ensures |old(nodes)| == 0 ==> status == Fail(NoSuchElement) && nodes == old(nodes)
      ensures |old(nodes)| > 0 ==> status == Pass && nodes == ReplaceAt(old(nodes), 0, Tokenize(str, delimiter))
    {
      var nodesNew := Parse(str, delimiter);
      if |nodes| == 0 {
        return Fail(NoSuchElement);
      }
      nodes := nodes[1..];
      nodes := nodesNew + nodes;
      status := Pass;
    }

    /** Swaps the last node for the nodes of `str`; fails on an empty list. */
    method ReplaceLast(str: string) returns (status: Outcome)
      modifies this
      ensures |old(nodes)| == 0 ==> status == Fail(NoSuchElement) && nodes == old(nodes)
      ensures |old(nodes)| > 0 ==> status == Pass
                                   && nodes == ReplaceAt(old(nodes), |old(nodes)| - 1, Tokenize(str, delimiter))
    {
      var nodesNew := Parse(str, delimiter);
      if |nodes| == 0 {
        return Fail(NoSuchElement);
      }
      nodes := nodes[..|nodes| - 1];
      nodes := nodes + nodesNew;
      status := Pass;
    }

    /** The same edit as ReplaceLast: the extension becomes the nodes of `newExtension`. */
    method ChangeExtension(newExtension: string) returns (status: Outcome)
      modifies this
      ensures |old(nodes)| == 0 ==> status == Fail(NoSuchElement) && nodes == old(nodes)
      ensures |old(nodes)| > 0 ==> status == Pass
                                   && nodes == ReplaceAt(old(nodes), |old(nodes)| - 1, Tokenize(newExtension, delimiter))
    {
      status := ReplaceLast(newExtension);
    }

    /** Walks the list and removes every empty node in place, keeping the others in order. */
    method CleanEmptyNodes()
      modifies this
      ensures nodes == WithoutEmpty(old(nodes))
    {
      var i := 0;
      while i < |nodes|
        invariant 0 <= i <= |nodes|
        invariant forall k :: 0 <= k < i ==> nodes[k] != ""
        invariant WithoutEmpty(nodes) == WithoutEmpty(old(nodes))
        decreases |nodes| - i
      {
        if nodes[i] == "" {
          WithoutEmptySkipsEmpty(nodes, i);
          nodes := RemoveAt(nodes, i);
        } else {
          i := i + 1;
        }
      }
      WithoutEmptyKeepsClean(nodes);
    }

    /** The node at `atIndex`, counted from the end when negative. */
    function Get(atIndex: int): (r: Result<string>)
      reads this
      ensures r.Success? <==> -|nodes| <= atIndex < |nodes|
      ensures r.Success? && atIndex >= 0 ==> r.value == nodes[atIndex]
      ensures r.Success? && atIndex < 0 ==> r.value == nodes[|nodes| + atIndex]
      ensures r.Failure? ==> r.error == FixIndex(atIndex, |nodes|).error
    {
      match FixIndex(atIndex, |nodes|)
      case Failure(e) => Failure(e)
      case Success(p) => Success(nodes[p])
    }

    /** The first node; fails on an empty list. */
    function GetFirst(): (r: Result<string>)
      reads this
      ensures r.Success? <==> |nodes| > 0
      ensures r.Success? ==> r.value == nodes[0]
      ensures r.Failure? ==> r.error == NoSuchElement
    {
      if |nodes| == 0 then Failure(NoSuchElement) else Success(nodes[0])
    }

    /** The last node; fails on an empty list. */
    function GetLast(): (r: Result<string>)
      reads this
      ensures r.Success? <==> |nodes| > 0
      ensures r.Success? ==> r.value == nodes[|nodes| - 1]
      ensures r.Failure? ==> r.error == NoSuchElement
    {
      if |nodes| == 0 then Failure(NoSuchElement) else Success(nodes[|nodes| - 1])
    }

    /** The extension is the last node; fails on an empty list. */
    function GetExtension(): (r: Result<string>)
      reads this
      ensures r.Success? <==> |nodes| > 0
      ensures r.Success? ==> r.value == nodes[|nodes| - 1]
      ensures r.Failure? ==> r.error == NoSuchElement
    {
      GetLast()
    }

    /** The number of nodes, the size every negative index is resolved against. */
    function Size(): (n: nat)
      reads this
      ensures n == |nodes|
    {
      |nodes|
    }

    /** The nodes joined with the delimiter, with none before the first or after the last. */
    method ToString() returns (s: string)
      ensures s == Join(nodes, delimiter)
    {
      s := "";
      var i := 0;
      while i < |nodes|
        invariant 0 <= i <= |nodes|
        invariant s == if i == 0 then "" else Join(nodes[..i], delimiter) + (if i < |nodes| then delimiter else "")
      {
        if i > 0 {
          JoinConcat(nodes[..i], [nodes[i]], delimiter);
          assert nodes[..i] + [nodes[i]] == nodes[..i + 1];
        } else {
          assert nodes[..1] == [nodes[0]];
        }
        s := s + nodes[i];
        i := i + 1;
        if i < |nodes| {
          s := s + delimiter;
        }
      }
      assert nodes[..|nodes|] == nodes;
    }
  }

  /** Reading at 0 and at -1 is reading the first and the last node. */
  lemma GetEnds(b: FilenameBuilder)
    requires |b.nodes| > 0
    ensures b.Get(0) == b.GetFirst()
    ensures b.Get(-1) == b.GetLast() == b.GetExtension()
  {
  }

  /**
   * A builder's string parses back into its nodes whenever every node is
   * non-empty and free of delimiter characters. Construction gives such
   * nodes, and the edits keep them non-empty, but a glued "null" may bring in
   * a delimiter character, so the condition is stated, not assumed.
   */
  lemma ToStringParsesBack(b: FilenameBuilder)
    requires |b.delimiter| > 0
    requires forall k :: 0 <= k < |b.nodes| ==> IsToken(b.nodes[k], b.delimiter)
    ensures Tokenize(Join(b.nodes, b.delimiter), b.delimiter) == b.nodes
    ensures |Tokenize(Join(b.nodes, b.delimiter), b.delimiter)| == b.Size()
  {
    TokenizeJoin(b.nodes, b.delimiter);
  }
}
