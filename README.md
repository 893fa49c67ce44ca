# FilenameBuilder in Dafny

`FilenameBuilder` splits a string such as `org.myname.project.no1180.zip` into
*nodes* on a delimiter (`"."` by default) and keeps them in a mutable linked
list. Chainable methods insert, glue, replace and remove nodes by position, and
`toString` joins the list back with the delimiter. Positions may be negative,
counting from the end (`-1` is the last node).

The model has five modules:

- `Outcomes` (outcomes.dfy): the exceptions the builder throws, as values.
  `Result` carries a value or an `Error`; `Outcome` says whether an editing call
  completed.
- `Tokens` (tokens.dfy): splitting and joining.
  - `Tokenize` specifies what `java.util.StringTokenizer` hands out. Every
    character of the delimiter string is a delimiter on its own, and runs of
    delimiters produce no empty tokens.
  - `Join` specifies `toString`'s output.
  - `Parse` is the tokenizing loop, proved equal to `Tokenize`.
  - The lemmas give the round trip in both directions. Parsing the joined
    nodes gives the nodes back. Joining what a string parses into gives the
    string with its delimiters collapsed (`Collapse`, an independent
    left-to-right definition), which is the string itself when it has no
    delimiter at either end and none twice in a row.
  - Splitting loses only delimiter characters.
- `Nodes` (nodes.dfy): `FixIndex`, which resolves negative positions, and one
  function per list edit, giving the list the edit leaves behind. The lemmas
  relate the edits to each other and to the joined text.
- `Builder` (builder.dfy): the class `FilenameBuilder`, with a `delimiter` and a
  `nodes: seq<string>` field that its methods update in place.
  - Each method mirrors the Java body step by step, with `LinkedList` calls
    written as sequence operations. `CleanEmptyNodes` walks the list and
    removes empty nodes from the field one at a time, as the Java iterator does.
  - Its `ensures` gives the new list through the `Nodes` function, or the
    exception and an unchanged list.
  - `RemoveBatch`, `CleanEmptyNodes` and `ToString` keep their loops, proved
    with invariants.
- `Examples` (examples.dfy): the documented invocation chains and single calls.
  Each one starts from the documented string, runs the documented calls through
  the method contracts, and ends with the documented output.

The Java methods throw; the model's methods return an `Outcome`, and functions
return a `Result`. A failed call leaves the list unchanged, because every Java
method parses its argument and resolves its index before it changes anything.
The Java methods return `this` for chaining; the model chains calls as
statements.

Splitting follows the code rather than a plain reading of "split on the
delimiter". `StringTokenizer` treats the delimiter string as a set of
characters, not as a substring. It yields no empty tokens, so `".rar"` gives
`["rar"]` and `"a..b"` gives `["a", "b"]`.

Gluing follows the code as well. `append`, `prepend` and their First/Last
forms poll a fragment off the parsed text, and the First/Last forms also poll a
node off the list. Polling an empty list yields null, and Java's string
concatenation writes null as the text `"null"`. So `append(".", 0)` on `a.b.txt`
gives `anull.b.txt`, and `appendFirst("x")` on an empty builder gives `nullx`.
The model reproduces this with `Nodes.NullText` and `Nodes.NullIfEmpty`.

Every edit keeps the nodes non-empty. Parsing never hands out an empty node,
and gluing only lengthens a node. So `cleanEmptyNodes` removes nothing from a
builder that was built and edited through its own methods. Freedom from
delimiter characters is not kept in the same way: a glued `"null"` contains
the characters n, u and l, which may be delimiters.

`addFirst` followed by `removeFirst` gives the old list back only when the
added text parses into one node. When it parses into several, `removeFirst`
takes away only the first of them and the others stay at the front.

## Model

| member | source | states |
|---|---|---|
| Tokens.Tokenize | FilenameBuilder.java:122-132 | every node produced by parsing is non-empty and contains no delimiter character |
| Tokens.Parse | FilenameBuilder.java:122-132 | the tokenizer loop hands out exactly the tokens of `Tokenize`, in order |
| Tokens.TokenizeSkipsDelimiters | FilenameBuilder.java:122-132 | delimiter characters in front of a string produce no nodes (so ".rar" parses like "rar") |
| Tokens.TokenizeLeadingToken | FilenameBuilder.java:122-132 | a delimiter-free run followed by a delimiter or by the end is handed out as one whole node |
| Tokens.TokenizeKeepsText | FilenameBuilder.java:122-132 | the parsed nodes, put side by side, are exactly the input's non-delimiter characters in order |
| Tokens.Join | FilenameBuilder.java:634-646 | the text `toString` builds: the nodes in order, the delimiter between neighbours, nothing before the first or after the last; an empty list gives "" |
| Tokens.JoinLength | FilenameBuilder.java:634-646 | the joined text of n > 0 nodes holds all their characters plus n - 1 delimiters; no nodes give "" |
| Tokens.JoinConcat | FilenameBuilder.java:634-646 | joining two non-empty runs of nodes puts exactly one delimiter between them |
| Tokens.TokenizeJoin | FilenameBuilder.java:634-646 | for a non-empty delimiter, parsing the joined nodes gives the nodes back when each is non-empty and delimiter-free |
| Tokens.TokenizeJoinTokenize | FilenameBuilder.java:114-117 | for any delimiter, the empty one included, re-parsing the string of a freshly built builder gives the same nodes |
| Tokens.TokenizeWhole | FilenameBuilder.java:122-132 | with the empty delimiter a non-empty string parses into one node, itself, and the empty string into none |
| Tokens.JoinTokenizeCollapses | FilenameBuilder.java:114-117 | for every string and delimiter, the string of a builder made from s is s with its delimiters collapsed: leading and trailing ones dropped, each run between nodes written as one delimiter |
| Tokens.JoinTokenize | FilenameBuilder.java:114-117 | for a one-character delimiter, a string with no delimiter at either end and none twice in a row is printed back unchanged |
| Nodes.FixIndex | FilenameBuilder.java:405-421 | resolves an index on an n-node list: succeeds iff n > 0 and -n <= index <= n-1, giving index mod n; fails with "empty list" for n = 0 and with the range -n..n-1 otherwise |
| Nodes.FixIndexReaches | FilenameBuilder.java:383-395 | each node p is reached by exactly the two indices p and p - n |
| Nodes.FixIndexOnFive | FilenameBuilder.java:390-395 | on five nodes -1, -2, 0 and 1 resolve to 4, 3, 0 and 1; 5 and -6 are out of range -5..4 |
| Nodes.AddAt | FilenameBuilder.java:167-174 | splicing t in before p keeps the nodes before p, puts t at p, and shifts the rest by \|t\| |
| Nodes.RemoveAt | FilenameBuilder.java:528-534 | dropping node p keeps the nodes before p and shifts the rest down by one |
| Nodes.RemoveRange | FilenameBuilder.java:536-549 | dropping nodes from..to keeps the nodes before `from` and shifts the rest down by to-from+1 |
| Nodes.ReplaceAt | FilenameBuilder.java:565-573 | replacing node p by t keeps the other nodes and puts t where node p was |
| Nodes.NullText | FilenameBuilder.java:272-275 | the text "null" that Java writes when a polled fragment or node is null |
| Nodes.NullIfEmpty | FilenameBuilder.java:308-310 | the list a poll at either end sees: an empty list yields one missing node, written as "null"; a non-empty list is left as it is |
| Nodes.AppendAt | FilenameBuilder.java:268-279 | node p becomes node p + t[0], t[1..] follow it, and every other node is unchanged; with no fragments node p becomes node p + "null" |
| Nodes.PrependAt | FilenameBuilder.java:493-504 | t's last fragment is glued to the left of node p, the rest of t precede it, and every other node is unchanged; with no fragments node p becomes "null" + node p |
| Nodes.WithoutEmpty | FilenameBuilder.java:593-604 | the cleaned list holds no empty node and is no longer than the input |
| Nodes.WithoutEmptyCounts | FilenameBuilder.java:593-604 | cleaning removes every empty node and keeps each other node as often as it occurred |
| Nodes.RemoveRangeUndoesAddAt | FilenameBuilder.java:536-549 | removing the positions a splice filled gives the original list back |
| Nodes.RemoveAtUndoesAddAtFront | FilenameBuilder.java:551-556 | removeFirst after addFirst leaves the added nodes but the first in front of the old list, so it restores the old list iff one node was added |
| Nodes.SplicesKeepNoEmptyNode | FilenameBuilder.java:167-174 | inserting, removing or replacing nodes, and polling an empty list, keep a list free of empty nodes when the inserted nodes are |
| Nodes.AppendAtKeepsNoEmptyNode | FilenameBuilder.java:268-279 | append keeps a list free of empty nodes when the fragments are |
| Nodes.PrependAtKeepsNoEmptyNode | FilenameBuilder.java:493-504 | prepend keeps a list free of empty nodes when the fragments are |
| Nodes.ReplaceAtIsRemoveThenAdd | FilenameBuilder.java:565-573 | replace is remove(p) followed by addAll(p, t) |
| Nodes.RemoveRangeSingle | FilenameBuilder.java:536-549 | removeBatch(p, p) removes the same node as remove(p) |
| Nodes.AppendAtSingle | FilenameBuilder.java:268-279 | appending text that parses to one fragment only lengthens node p |
| Nodes.PrependAtSingle | FilenameBuilder.java:493-504 | prepending text that parses to one fragment only lengthens node p |
| Nodes.JoinGlued | FilenameBuilder.java:634-646 | joining two runs whose boundary nodes are glued gives the two joined texts with no delimiter between them |
| Nodes.AppendAtText | FilenameBuilder.java:268-279 | in the output string, append puts the joined fragments right after node p with no delimiter before them |
| Nodes.PrependAtSplits | FilenameBuilder.java:493-504 | prepending at p leaves the first p nodes alone and prepends at the front of the rest |
| Nodes.PrependAtFrontText | FilenameBuilder.java:506-515 | in the output string, prepending at the first node puts the joined fragments right before the whole text |
| Nodes.PrependAtText | FilenameBuilder.java:493-504 | in the output string, prepend puts the joined fragments right before node p with no delimiter after them |
| Nodes.WithoutEmptyConcat | FilenameBuilder.java:593-604 | cleaning works run by run, so the kept nodes stay in their original order |
| Nodes.WithoutEmptySkipsEmpty | FilenameBuilder.java:596-601 | removing one empty node during the scan does not change what cleaning leaves |
| Nodes.WithoutEmptyKeepsClean | FilenameBuilder.java:593-604 | a list with no empty node is left as it is |
| Nodes.WithoutEmptyIdempotent | FilenameBuilder.java:593-604 | cleaning twice is the same as cleaning once |
| Builder.FilenameBuilder.constructor | FilenameBuilder.java:114-117 | the builder keeps the delimiter and holds the parsed nodes of the filename |
| Builder.FilenameBuilder.WithPeriod | FilenameBuilder.java:73-75 | the one-argument constructor uses "." as the delimiter |
| Builder.FilenameBuilder.Add | FilenameBuilder.java:167-174 | splices the nodes of str in before the resolved index; an unresolvable index fails with the list unchanged |
| Builder.FilenameBuilder.AddFirst | FilenameBuilder.java:198-204 | splices the nodes of str in at the front; never fails |
| Builder.FilenameBuilder.AddLast | FilenameBuilder.java:228-234 | splices the nodes of str in at the end; never fails |
| Builder.FilenameBuilder.Append | FilenameBuilder.java:268-279 | glues str's first fragment ("null" if it has none) onto the resolved node and inserts the rest after it; an unresolvable index fails with the list unchanged |
| Builder.FilenameBuilder.AppendFirst | FilenameBuilder.java:305-314 | same list as append at index 0; on an empty list the missing first node reads as "null" and the call never fails |
| Builder.FilenameBuilder.AppendLast | FilenameBuilder.java:341-350 | same list as append at index -1; on an empty list the missing last node reads as "null" and the call never fails |
| Builder.FilenameBuilder.Prepend | FilenameBuilder.java:493-504 | glues str's last fragment ("null" if it has none) onto the left of the resolved node and inserts the rest before it; an unresolvable index fails with the list unchanged |
| Builder.FilenameBuilder.PrependFirst | FilenameBuilder.java:506-515 | same list as prepend at index 0; on an empty list the missing first node reads as "null" and the call never fails |
| Builder.FilenameBuilder.PrependLast | FilenameBuilder.java:517-526 | same list as prepend at index -1; on an empty list the missing last node reads as "null" and the call never fails |
| Builder.FilenameBuilder.Remove | FilenameBuilder.java:528-534 | removes exactly the resolved node; an unresolvable index fails with the list unchanged |
| Builder.FilenameBuilder.RemoveBatch | FilenameBuilder.java:536-549 | resolves both ends (start first); fails if either is unresolvable or if start > end, with the list unchanged; otherwise removes exactly the nodes start..end |
| Builder.FilenameBuilder.RemoveFirst | FilenameBuilder.java:551-556 | removes the first node; fails with no-such-element on an empty list |
| Builder.FilenameBuilder.RemoveLast | FilenameBuilder.java:558-563 | removes the last node; fails with no-such-element on an empty list |
| Builder.FilenameBuilder.Replace | FilenameBuilder.java:565-573 | replaces exactly the resolved node by the nodes of str; an unresolvable index fails with the list unchanged |
| Builder.FilenameBuilder.ReplaceFirst | FilenameBuilder.java:575-582 | replaces the first node by the nodes of str; fails with no-such-element on an empty list |
| Builder.FilenameBuilder.ReplaceLast | FilenameBuilder.java:584-591 | replaces the last node by the nodes of str; fails with no-such-element on an empty list |
| Builder.FilenameBuilder.ChangeExtension | FilenameBuilder.java:378-380 | the same edit and the same failure as replaceLast |
| Builder.FilenameBuilder.CleanEmptyNodes | FilenameBuilder.java:593-604 | the iterator loop leaves exactly the cleaned list |
| Builder.FilenameBuilder.Get | FilenameBuilder.java:443-448 | succeeds iff -size <= index < size, giving the node counted from the front or from the back; otherwise the fixIndex error |
| Builder.FilenameBuilder.GetFirst | FilenameBuilder.java:450-454 | the first node, or no-such-element on an empty list |
| Builder.FilenameBuilder.GetLast | FilenameBuilder.java:456-460 | the last node, or no-such-element on an empty list |
| Builder.FilenameBuilder.GetExtension | FilenameBuilder.java:477-481 | the last node, or no-such-element on an empty list |
| Builder.FilenameBuilder.Size | FilenameBuilder.java:606-608 | the number of nodes |
| Builder.FilenameBuilder.ToString | FilenameBuilder.java:634-646 | the loop's string is the nodes joined with one delimiter between neighbours, with none at either end |
| Builder.GetEnds | FilenameBuilder.java:443-460 | get(0) is getFirst(), and get(-1) is getLast() and getExtension() |
| Builder.ToStringParsesBack | FilenameBuilder.java:634-646 | a builder whose nodes are non-empty and delimiter-free parses its own string back into its nodes, and into size() of them |
| Examples.RenameArchive | FilenameBuilder.java:45-48 | replaceFirst("com").append("_new", -2).changeExtension("tar.gz") on org.myname.project.no1180.zip gives com.myname.project.no1180_new.tar.gz |
| Examples.PatchAddress | FilenameBuilder.java:57-60 | replace("220", 1).prepend("5", 3).addLast("encrypted") on 192.168.1.3.log gives 192.220.1.53.log.encrypted |
| Examples.EditList | FilenameBuilder.java:86-89 | replace("grape", 2).remove(3).appendLast(" Lin") on 3,green,apple,and,Jenny split on "," gives 3,green,grape,Jenny Lin |
| Examples.EditSentence | FilenameBuilder.java:98-101 | replaceFirst("A new").remove(5).appendLast("!") on the sentence split on " " gives "A new way to rebuild filename!!" |
| Examples.SampleAddAtFront | FilenameBuilder.java:147-148 | add("new", 0) on a.b.txt gives new.a.b.txt |
| Examples.SampleAddBeforeLast | FilenameBuilder.java:147-149 | add("tmp", -1) on a.b.txt gives a.b.tmp.txt |
| Examples.SampleAddFirst | FilenameBuilder.java:185-186 | addFirst("new") on a.b.txt gives new.a.b.txt |
| Examples.SampleAddLast | FilenameBuilder.java:215-216 | addLast("new") on a.b.txt gives a.b.txt.new |
| Examples.SampleAppendToFirst | FilenameBuilder.java:245-246 | append("_new", 0) on a.b.txt gives a_new.b.txt |
| Examples.SampleAppendToLast | FilenameBuilder.java:245-247 | append("_new", -1) on a.b.txt gives a.b.txt_new |
| Examples.SampleAppendFirst | FilenameBuilder.java:290-291 | appendFirst("_new") on a.b.txt gives a_new.b.txt |
| Examples.SampleAppendLast | FilenameBuilder.java:325-326 | appendLast("_new") on a.b.txt gives a.b.txt_new |
| Examples.SampleToRar | FilenameBuilder.java:363-364 | changeExtension(".rar") on a.b.txt gives a.b.rar |
| Examples.SampleToZip | FilenameBuilder.java:363-365 | changeExtension("zip") on a.b.txt gives a.b.zip |
| Examples.SampleToTarGz | FilenameBuilder.java:363-366 | changeExtension(".tar.gz") on a.b.txt gives a.b.tar.gz |
| Examples.SampleAppendNothing | FilenameBuilder.java:268-279 | append(".", 0) on a.b.txt, where "." holds no fragment, gives anull.b.txt |
| Examples.EmptyAppendFirst | FilenameBuilder.java:305-314 | appendFirst("x") on a builder made from "" gives nullx |
| Examples.AddressExtension | FilenameBuilder.java:431-433 | get(-1) on a builder made from 192.168.1.3.log gives "log" |
| Examples.SampleAddFirstRemoveFirst | FilenameBuilder.java:551-556 | addFirst("new") then removeFirst() on a.b.txt gives a.b.txt back |
| Examples.SampleAddTwoRemoveFirst | FilenameBuilder.java:551-556 | addFirst("p.q") then removeFirst() on a.b.txt gives q.a.b.txt: only the first added node is removed |
| Examples.SampleAddLastGetLast | FilenameBuilder.java:443-448 | addLast("x") then get(-1) on a.b.txt gives "x": a negative index is resolved against the current size |
| Examples.RarParses | FilenameBuilder.java:364 | ".rar" parses to the single node "rar" |
| Examples.DottedTarGzParses | FilenameBuilder.java:366 | ".tar.gz" parses to the nodes "tar" and "gz" |

## Left out

- Null arguments are not modelled, because Dafny strings cannot be null. This covers the `IllegalArgumentException("input == null")` that `parse` throws for a null filename or delimiter.
- The `tmp == null` test of `cleanEmptyNodes` is not modelled. No operation stores a null node: a glued null becomes the text "null".
- The `synchronized (nodes)` blocks are left out. They only matter for concurrent callers.
- `iterator()` is left out. It hands a live Java iterator to callers for external mutation.
- `toNodesString()` is left out. Its output is `LinkedList.toString`'s formatting.
- `getDelimiter()` is left out. The delimiter is a public `const` field of the class.
- The `StringBuffer` capacity hint in `toString` is left out. It does not affect the result.
- The delimiter constants other than `PERIOD` are left out. The examples use `","` and `" "` directly.
- Returning `this` for chaining is not modelled. Methods return an `Outcome`, and chains are written as consecutive calls.
- Nodes.FixIndex takes the list size as a parameter. The Java method reads it from the field.
- Tokens.Tokenize works on Unicode code points, as `StringTokenizer` does when its delimiters include supplementary characters. It does not model Java's UTF-16 code units, so unpaired surrogates and the code-unit `length()` are out of scope.
- Java's `int` indices are modelled as unbounded integers. Every index that can resolve lies within the list size, so no overflow can occur for resolvable indices.
