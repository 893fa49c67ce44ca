/**
 * The worked examples of the builder's documentation, run against the
 * builder's contracts. Each documented call is one step method on a builder
 * whose nodes are known; each documented chain builds a builder from the
 * documented string, runs its steps and gets the documented text back. The
 * lemmas settle how the concrete strings split and join.
 */
module Examples {
  import opened Outcomes
  import opened Tokens
  import opened Nodes
  import opened Builder

  /** A single token splits into itself. */
  lemma SplitsAlone(t: string, delim: string)
    requires |delim| > 0 && IsToken(t, delim)
    ensures Tokenize(t, delim) == [t]
  {
    TokenizeJoin([t], delim);
  }

  /** "tar.gz" splits into two nodes. */
  lemma TarGzParses()
    ensures Tokenize("tar.gz", ".") == ["tar", "gz"]
  {
    assert Join(["tar", "gz"], ".") == "tar.gz";
    TokenizeJoin(["tar", "gz"], ".");
  }

  // new FilenameBuilder("org.myname.project.no1180.zip")
  //   .replaceFirst("com").append("_new", -2).changeExtension("tar.gz")
  // prints "com.myname.project.no1180_new.tar.gz".

  lemma ArchiveNameJoined()
    ensures Join(["org", "myname", "project", "no1180", "zip"], ".")
            == "org" + ("." + ("myname" + ("." + ("project" + ("." + ("no1180" + ("." + "zip")))))))
  {
  }

  lemma ArchiveNameSpelled()
    ensures "org" + ("." + ("myname" + ("." + ("project" + ("." + ("no1180" + ("." + "zip")))))))
            == "org.myname.project.no1180.zip"
  {
  }

  lemma ArchiveNameParses()
    ensures Tokenize("org.myname.project.no1180.zip", ".") == ["org", "myname", "project", "no1180", "zip"]
  {
    ArchiveNameJoined();
    ArchiveNameSpelled();
    TokenizeJoin(["org", "myname", "project", "no1180", "zip"], ".");
  }

  lemma RenamedArchiveJoined()
    ensures Join(["com", "myname", "project", "no1180_new", "tar", "gz"], ".")
            == "com" + ("." + ("myname" + ("." + ("project" + ("." + ("no1180_new" + ("." + ("tar" + ("." + "gz")))))))))
  {
    RenamedArchiveTailJoined();
    assert Join(["com", "myname", "project", "no1180_new", "tar", "gz"], ".")
           == "com" + ("." + ("myname" + ("." + Join(["project", "no1180_new", "tar", "gz"], "."))));
  }

  lemma RenamedArchiveTailJoined()
    ensures Join(["project", "no1180_new", "tar", "gz"], ".")
            == "project" + ("." + ("no1180_new" + ("." + ("tar" + ("." + "gz")))))
  {
  }

  lemma RenamedArchiveSpelled()
    ensures "com" + ("." + ("myname" + ("." + ("project" + ("." + ("no1180_new" + ("." + ("tar" + ("." + "gz")))))))))
            == "com.myname.project.no1180_new.tar.gz"
  {
  }

  lemma RenamedArchivePrints()
    ensures Join(["com", "myname", "project", "no1180_new", "tar", "gz"], ".") == "com.myname.project.no1180_new.tar.gz"
  {
    RenamedArchiveJoined();
    RenamedArchiveSpelled();
  }

  /** replaceFirst("com"): the first node is swapped. */
  method ArchiveReplaceFirst(fb: FilenameBuilder)
    requires fb.delimiter == "." && fb.nodes == ["org", "myname", "project", "no1180", "zip"]
    modifies fb
    ensures fb.nodes == ["com", "myname", "project", "no1180", "zip"]
  {
    SplitsAlone("com", ".");
    var status := fb.ReplaceFirst("com");
  }

  /** append("_new", -2): the text is glued onto the last node but one. */
  method ArchiveAppendSuffix(fb: FilenameBuilder)
    requires fb.delimiter == "." && fb.nodes == ["com", "myname", "project", "no1180", "zip"]
    modifies fb
    ensures fb.nodes == ["com", "myname", "project", "no1180_new", "zip"]
  {
    SplitsAlone("_new", ".");
    var status := fb.Append("_new", -2);
    AppendAtSingle(["com", "myname", "project", "no1180", "zip"], 3, "_new");
    assert "no1180" + "_new" == "no1180_new";
  }

  /** changeExtension("tar.gz"): the last node becomes two nodes. */
  method ArchiveChangeExtension(fb: FilenameBuilder)
    requires fb.delimiter == "." && fb.nodes == ["com", "myname", "project", "no1180_new", "zip"]
    modifies fb
    ensures fb.nodes == ["com", "myname", "project", "no1180_new", "tar", "gz"]
  {
    TarGzParses();
    var status := fb.ChangeExtension("tar.gz");
  }

  method RenameArchive() returns (out: string)
    ensures out == "com.myname.project.no1180_new.tar.gz"
  {
    ArchiveNameParses();
    var fb := new FilenameBuilder.WithPeriod("org.myname.project.no1180.zip");
    ArchiveReplaceFirst(fb);
    ArchiveAppendSuffix(fb);
    ArchiveChangeExtension(fb);
    RenamedArchivePrints();
    out := fb.ToString();
  }

  // new FilenameBuilder("192.168.1.3.log")
  //   .replace("220", 1).prepend("5", 3).addLast("encrypted")
  // prints "192.220.1.53.log.encrypted".

  lemma AddressParses()
    ensures Tokenize("192.168.1.3.log", ".") == ["192", "168", "1", "3", "log"]
  {
    assert Join(["192", "168", "1", "3", "log"], ".") == "192.168.1.3.log";
    TokenizeJoin(["192", "168", "1", "3", "log"], ".");
  }

  lemma PatchedAddressJoined()
    ensures Join(["192", "220", "1", "53", "log", "encrypted"], ".")
            == "192" + ("." + ("220" + ("." + ("1" + ("." + ("53" + ("." + ("log" + ("." + "encrypted")))))))))
  {
    PatchedAddressTailJoined();
    assert Join(["192", "220", "1", "53", "log", "encrypted"], ".")
           == "192" + ("." + ("220" + ("." + Join(["1", "53", "log", "encrypted"], "."))));
  }

  lemma PatchedAddressTailJoined()
    ensures Join(["1", "53", "log", "encrypted"], ".")
            == "1" + ("." + ("53" + ("." + ("log" + ("." + "encrypted")))))
  {
  }

  lemma PatchedAddressPrints()
    ensures Join(["192", "220", "1", "53", "log", "encrypted"], ".") == "192.220.1.53.log.encrypted"
  {
    PatchedAddressJoined();
  }

  /** replace("220", 1): the second node is swapped. */
  method AddressReplace(fb: FilenameBuilder)
    requires fb.delimiter == "." && fb.nodes == ["192", "168", "1", "3", "log"]
    modifies fb
    ensures fb.nodes == ["192", "220", "1", "3", "log"]
  {
    SplitsAlone("220", ".");
    var status := fb.Replace("220", 1);
  }

  /** prepend("5", 3): the text is glued onto the front of the fourth node. */
  method AddressPrepend(fb: FilenameBuilder)
    requires fb.delimiter == "." && fb.nodes == ["192", "220", "1", "3", "log"]
    modifies fb
    ensures fb.nodes == ["192", "220", "1", "53", "log"]
  {
    SplitsAlone("5", ".");
    var status := fb.Prepend("5", 3);
    PrependAtSingle(["192", "220", "1", "3", "log"], 3, "5");
    assert "5" + "3" == "53";
  }

  /** addLast("encrypted"): a new last node. */
  method AddressAddLast(fb: FilenameBuilder)
    requires fb.delimiter == "." && fb.nodes == ["192", "220", "1", "53", "log"]
    modifies fb
    ensures fb.nodes == ["192", "220", "1", "53", "log", "encrypted"]
  {
    SplitsAlone("encrypted", ".");
    fb.AddLast("encrypted");
  }

  method PatchAddress() returns (out: string)
    ensures out == "192.220.1.53.log.encrypted"
  {
    AddressParses();
    var fb := new FilenameBuilder.WithPeriod("192.168.1.3.log");
    AddressReplace(fb);
    AddressPrepend(fb);
    AddressAddLast(fb);
    PatchedAddressPrints();
    out := fb.ToString();
  }

  // new FilenameBuilder("3,green,apple,and,Jenny", COMMA)
  //   .replace("grape", 2).remove(3).appendLast(" Lin")
  // prints "3,green,grape,Jenny Lin".

  lemma ListJoined()
    ensures Join(["3", "green", "apple", "and", "Jenny"], ",")
            == "3" + ("," + ("green" + ("," + ("apple" + ("," + ("and" + ("," + "Jenny")))))))
  {
  }

  lemma ListSpelled()
    ensures "3" + ("," + ("green" + ("," + ("apple" + ("," + ("and" + ("," + "Jenny")))))))
            == "3,green,apple,and,Jenny"
  {
  }

  lemma ListParses()
    ensures Tokenize("3,green,apple,and,Jenny", ",") == ["3", "green", "apple", "and", "Jenny"]
  {
    ListJoined();
    ListSpelled();
    TokenizeJoin(["3", "green", "apple", "and", "Jenny"], ",");
  }

  lemma EditedListJoined()
    ensures Join(["3", "green", "grape", "Jenny Lin"], ",") == "3" + ("," + ("green" + ("," + ("grape" + ("," + "Jenny Lin")))))
  {
  }

  lemma EditedListSpelled()
    ensures "3" + ("," + ("green" + ("," + ("grape" + ("," + "Jenny Lin"))))) == "3,green,grape,Jenny Lin"
  {
  }

  lemma EditedListPrints()
    ensures Join(["3", "green", "grape", "Jenny Lin"], ",") == "3,green,grape,Jenny Lin"
  {
    EditedListJoined();
    EditedListSpelled();
  }

  /** replace("grape", 2): the third node is swapped. */
  method ListReplace(fb: FilenameBuilder)
    requires fb.delimiter == "," && fb.nodes == ["3", "green", "apple", "and", "Jenny"]
    modifies fb
    ensures fb.nodes == ["3", "green", "grape", "and", "Jenny"]
  {
    SplitsAlone("grape", ",");
    var status := fb.Replace("grape", 2);
  }

  /** remove(3): the fourth node is dropped. */
  method ListRemove(fb: FilenameBuilder)
    requires fb.delimiter == "," && fb.nodes == ["3", "green", "grape", "and", "Jenny"]
    modifies fb
    ensures fb.nodes == ["3", "green", "grape", "Jenny"]
  {
    var status := fb.Remove(3);
  }

  /** appendLast(" Lin"): the space is no delimiter here, so it is glued on as well. */
  method ListAppendLast(fb: FilenameBuilder)
    requires fb.delimiter == "," && fb.nodes == ["3", "green", "grape", "Jenny"]
    modifies fb
    ensures fb.nodes == ["3", "green", "grape", "Jenny Lin"]
  {
    SplitsAlone(" Lin", ",");
    fb.AppendLast(" Lin");
    AppendAtSingle(["3", "green", "grape", "Jenny"], 3, " Lin");
    assert "Jenny" + " Lin" == "Jenny Lin";
  }

  method EditList() returns (out: string)
    ensures out == "3,green,grape,Jenny Lin"
  {
    ListParses();
    var fb := new FilenameBuilder("3,green,apple,and,Jenny", ",");
    ListReplace(fb);
    ListRemove(fb);
    ListAppendLast(fb);
    EditedListPrints();
    out := fb.ToString();
  }

  // new FilenameBuilder("Another way to rebuild the filename!", SPACE)
  //   .replaceFirst("A new").remove(5).appendLast("!")
  // prints "A new way to rebuild filename!!".

  lemma SentenceJoined()
    ensures Join(["Another", "way", "to", "rebuild", "the", "filename!"], " ")
            == "Another" + (" " + ("way" + (" " + ("to" + (" " + ("rebuild" + (" " + ("the" + (" " + "filename!")))))))))
  {
    SentenceTailJoined();
    assert Join(["Another", "way", "to", "rebuild", "the", "filename!"], " ")
           == "Another" + (" " + ("way" + (" " + Join(["to", "rebuild", "the", "filename!"], " "))));
  }

  lemma SentenceTailJoined()
    ensures Join(["to", "rebuild", "the", "filename!"], " ")
            == "to" + (" " + ("rebuild" + (" " + ("the" + (" " + "filename!")))))
  {
  }

  lemma SentenceSpelled()
    ensures "Another" + (" " + ("way" + (" " + ("to" + (" " + ("rebuild" + (" " + ("the" + (" " + "filename!")))))))))
            == "Another way to rebuild the filename!"
  {
  }

  lemma SentenceParses()
    ensures Tokenize("Another way to rebuild the filename!", " ")
            == ["Another", "way", "to", "rebuild", "the", "filename!"]
  {
    SentenceJoined();
    SentenceSpelled();
    TokenizeJoin(["Another", "way", "to", "rebuild", "the", "filename!"], " ");
  }

  lemma EditedSentenceJoined()
    ensures Join(["A", "new", "way", "to", "rebuild", "filename!!"], " ")
            == "A" + (" " + ("new" + (" " + ("way" + (" " + ("to" + (" " + ("rebuild" + (" " + "filename!!")))))))))
  {
    assert Join(["to", "rebuild", "filename!!"], " ") == "to" + (" " + ("rebuild" + (" " + "filename!!")));
  }

  lemma EditedSentenceSpelled()
    ensures "A" + (" " + ("new" + (" " + ("way" + (" " + ("to" + (" " + ("rebuild" + (" " + "filename!!")))))))))
            == "A new way to rebuild filename!!"
  {
  }

  lemma EditedSentencePrints()
    ensures Join(["A", "new", "way", "to", "rebuild", "filename!!"], " ") == "A new way to rebuild filename!!"
  {
    EditedSentenceJoined();
    EditedSentenceSpelled();
  }

  /** "A new" splits into two nodes on a space. */
  lemma ANewParses()
    ensures Tokenize("A new", " ") == ["A", "new"]
  {
    assert Join(["A", "new"], " ") == "A new";
    TokenizeJoin(["A", "new"], " ");
  }

  /** replaceFirst("A new"): the first node becomes two nodes. */
  method SentenceReplaceFirst(fb: FilenameBuilder)
    requires fb.delimiter == " " && fb.nodes == ["Another", "way", "to", "rebuild", "the", "filename!"]
    modifies fb
    ensures fb.nodes == ["A", "new", "way", "to", "rebuild", "the", "filename!"]
  {
    ANewParses();
    var status := fb.ReplaceFirst("A new");
  }

  /** remove(5): the sixth node is dropped. */
  method SentenceRemove(fb: FilenameBuilder)
    requires fb.delimiter == " " && fb.nodes == ["A", "new", "way", "to", "rebuild", "the", "filename!"]
    modifies fb
    ensures fb.nodes == ["A", "new", "way", "to", "rebuild", "filename!"]
  {
    var status := fb.Remove(5);
  }

  /** appendLast("!"): the mark is glued onto the last node. */
  method SentenceAppendLast(fb: FilenameBuilder)
    requires fb.delimiter == " " && fb.nodes == ["A", "new", "way", "to", "rebuild", "filename!"]
    modifies fb
    ensures fb.nodes == ["A", "new", "way", "to", "rebuild", "filename!!"]
  {
    SplitsAlone("!", " ");
    fb.AppendLast("!");
    AppendAtSingle(["A", "new", "way", "to", "rebuild", "filename!"], 5, "!");
    assert "filename!" + "!" == "filename!!";
  }

  method EditSentence() returns (out: string)
    ensures out == "A new way to rebuild filename!!"
  {
    SentenceParses();
    var fb := new FilenameBuilder("Another way to rebuild the filename!", " ");
    SentenceReplaceFirst(fb);
    SentenceRemove(fb);
    SentenceAppendLast(fb);
    EditedSentencePrints();
    out := fb.ToString();
  }

  // The single calls documented on "a.b.txt".

  lemma SampleParses()
    ensures Tokenize("a.b.txt", ".") == ["a", "b", "txt"]
  {
    assert Join(["a", "b", "txt"], ".") == "a.b.txt";
    TokenizeJoin(["a", "b", "txt"], ".");
  }

  /** A builder made from "a.b.txt". */
  method Sample() returns (fb: FilenameBuilder)
    ensures fresh(fb) && fb.delimiter == "." && fb.nodes == ["a", "b", "txt"]
  {
    SampleParses();
    fb := new FilenameBuilder.WithPeriod("a.b.txt");
  }

  /** ".rar" splits into one node: the leading delimiter yields none. */
  lemma RarParses()
    ensures Tokenize(".rar", ".") == ["rar"]
  {
    assert ".rar"[1..] == "rar";
    SplitsAlone("rar", ".");
  }

  /** ".tar.gz" splits into two nodes: the leading delimiter yields none. */
  lemma DottedTarGzParses()
    ensures Tokenize(".tar.gz", ".") == ["tar", "gz"]
  {
    assert ".tar.gz"[1..] == "tar.gz";
    TarGzParses();
  }

  lemma AddedAtFrontPrints()
    ensures Join(["new", "a", "b", "txt"], ".") == "new.a.b.txt"
  {
  }

  /** add("new", 0) gives new.a.b.txt. */
  method SampleAddAtFront() returns (out: string)
    ensures out == "new.a.b.txt"
  {
    var fb := Sample();
    SplitsAlone("new", ".");
    var status := fb.Add("new", 0);
    assert fb.nodes == ["new", "a", "b", "txt"];
    AddedAtFrontPrints();
    out := fb.ToString();
  }

  lemma AddedBeforeLastPrints()
    ensures Join(["a", "b", "tmp", "txt"], ".") == "a.b.tmp.txt"
  {
  }

  /** add("tmp", -1) gives a.b.tmp.txt. */
  method SampleAddBeforeLast() returns (out: string)
    ensures out == "a.b.tmp.txt"
  {
    var fb := Sample();
    SplitsAlone("tmp", ".");
    var status := fb.Add("tmp", -1);
    assert fb.nodes == ["a", "b", "tmp", "txt"];
    AddedBeforeLastPrints();
    out := fb.ToString();
  }

  lemma AppendedToFirstPrints()
    ensures Join(["a_new", "b", "txt"], ".") == "a_new.b.txt"
  {
  }

  /** append("_new", 0) gives a_new.b.txt. */
  method SampleAppendToFirst() returns (out: string)
    ensures out == "a_new.b.txt"
  {
    var fb := Sample();
    SplitsAlone("_new", ".");
    var status := fb.Append("_new", 0);
    AppendAtSingle(["a", "b", "txt"], 0, "_new");
    assert "a" + "_new" == "a_new";
    assert fb.nodes == ["a_new", "b", "txt"];
    AppendedToFirstPrints();
    out := fb.ToString();
  }

  lemma AppendedToLastPrints()
    ensures Join(["a", "b", "txt_new"], ".") == "a.b.txt_new"
  {
  }

  /** append("_new", -1) gives a.b.txt_new. */
  method SampleAppendToLast() returns (out: string)
    ensures out == "a.b.txt_new"
  {
    var fb := Sample();
    SplitsAlone("_new", ".");
    var status := fb.Append("_new", -1);
    AppendAtSingle(["a", "b", "txt"], 2, "_new");
    assert "txt" + "_new" == "txt_new";
    assert fb.nodes == ["a", "b", "txt_new"];
    AppendedToLastPrints();
    out := fb.ToString();
  }

  lemma RarPrints()
    ensures Join(["a", "b", "rar"], ".") == "a.b.rar"
  {
  }

  /** changeExtension(".rar") gives a.b.rar: the leading delimiter is dropped. */
  method SampleToRar() returns (out: string)
    ensures out == "a.b.rar"
  {
    var fb := Sample();
    RarParses();
    var status := fb.ChangeExtension(".rar");
    assert fb.nodes == ["a", "b", "rar"];
    RarPrints();
    out := fb.ToString();
  }

  lemma ZipPrints()
    ensures Join(["a", "b", "zip"], ".") == "a.b.zip"
  {
  }

  /** changeExtension("zip") gives a.b.zip. */
  method SampleToZip() returns (out: string)
    ensures out == "a.b.zip"
  {
    var fb := Sample();
    SplitsAlone("zip", ".");
    var status := fb.ChangeExtension("zip");
    assert fb.nodes == ["a", "b", "zip"];
    ZipPrints();
    out := fb.ToString();
  }

  lemma TarGzPrints()
    ensures Join(["a", "b", "tar", "gz"], ".") == "a.b.tar.gz"
  {
  }

  /** changeExtension(".tar.gz") gives a.b.tar.gz: the leading delimiter is dropped and one node becomes two. */
  method SampleToTarGz() returns (out: string)
    ensures out == "a.b.tar.gz"
  {
    var fb := Sample();
    DottedTarGzParses();
    var status := fb.ChangeExtension(".tar.gz");
    assert fb.nodes == ["a", "b", "tar", "gz"];
    TarGzPrints();
    out := fb.ToString();
  }

  lemma AddedLastPrints()
    ensures Join(["a", "b", "txt", "new"], ".") == "a.b.txt.new"
  {
  }

  /** addFirst("new") gives new.a.b.txt, as add("new", 0) does. */
  method SampleAddFirst() returns (out: string)
    ensures out == "new.a.b.txt"
  {
    var fb := Sample();
    SplitsAlone("new", ".");
    fb.AddFirst("new");
    assert fb.nodes == ["new", "a", "b", "txt"];
    AddedAtFrontPrints();
    out := fb.ToString();
  }

  /** addLast("new") gives a.b.txt.new. */
  method SampleAddLast() returns (out: string)
    ensures out == "a.b.txt.new"
  {
    var fb := Sample();
    SplitsAlone("new", ".");
    fb.AddLast("new");
    assert fb.nodes == ["a", "b", "txt", "new"];
    AddedLastPrints();
    out := fb.ToString();
  }

  /** appendFirst("_new") gives a_new.b.txt, as append("_new", 0) does. */
  method SampleAppendFirst() returns (out: string)
    ensures out == "a_new.b.txt"
  {
    var fb := Sample();
    SplitsAlone("_new", ".");
    fb.AppendFirst("_new");
    AppendAtSingle(["a", "b", "txt"], 0, "_new");
    assert "a" + "_new" == "a_new";
    assert fb.nodes == ["a_new", "b", "txt"];
    AppendedToFirstPrints();
    out := fb.ToString();
  }

  /** appendLast("_new") gives a.b.txt_new, as append("_new", -1) does. */
  method SampleAppendLast() returns (out: string)
    ensures out == "a.b.txt_new"
  {
    var fb := Sample();
    SplitsAlone("_new", ".");
    fb.AppendLast("_new");
    AppendAtSingle(["a", "b", "txt"], 2, "_new");
    assert "txt" + "_new" == "txt_new";
    assert fb.nodes == ["a", "b", "txt_new"];
    AppendedToLastPrints();
    out := fb.ToString();
  }

  /** "." holds no fragment at all. */
  lemma PeriodParses()
    ensures Tokenize(".", ".") == []
  {
    assert "."[1..] == "";
  }

  lemma NullGluedPrints()
    ensures Join(["anull", "b", "txt"], ".") == "anull.b.txt"
  {
  }

  /** append(".", 0) has no fragment to glue, so the missing one is written out: anull.b.txt. */
  method SampleAppendNothing() returns (out: string)
    ensures out == "anull.b.txt"
  {
    var fb := Sample();
    PeriodParses();
    var status := fb.Append(".", 0);
    assert "a" + NullText == "anull";
    assert fb.nodes == ["anull", "b", "txt"];
    NullGluedPrints();
    out := fb.ToString();
  }

  /** appendFirst("x") on a builder made from "" glues onto the missing first node: nullx. */
  method EmptyAppendFirst() returns (out: string)
    ensures out == "nullx"
  {
    var fb := new FilenameBuilder.WithPeriod("");
    SplitsAlone("x", ".");
    fb.AppendFirst("x");
    assert NullText + "x" == "nullx";
    assert fb.nodes == ["nullx"];
    out := fb.ToString();
  }

  /** get(-1) on a builder made from "192.168.1.3.log" gives "log". */
  method AddressExtension() returns (r: Result<string>)
    ensures r == Success("log")
  {
    AddressParses();
    var fb := new FilenameBuilder.WithPeriod("192.168.1.3.log");
    r := fb.Get(-1);
  }

  /** addFirst("new") then removeFirst() gives a.b.txt back: one node in, one node out. */
  method SampleAddFirstRemoveFirst() returns (out: string)
    ensures out == "a.b.txt"
  {
    var fb := Sample();
    SplitsAlone("new", ".");
    fb.AddFirst("new");
    var status := fb.RemoveFirst();
    RemoveAtUndoesAddAtFront(["a", "b", "txt"], ["new"]);
    assert fb.nodes == ["a", "b", "txt"];
    out := fb.ToString();
  }

  lemma PqParses()
    ensures Tokenize("p.q", ".") == ["p", "q"]
  {
    assert Join(["p", "q"], ".") == "p.q";
    TokenizeJoin(["p", "q"], ".");
  }

  lemma PoppedPrints()
    ensures Join(["q", "a", "b", "txt"], ".") == "q.a.b.txt"
  {
  }

  /**
   * addFirst("p.q") then removeFirst() gives q.a.b.txt: the text added two
   * nodes and removeFirst takes away only the first of them.
   */
  method SampleAddTwoRemoveFirst() returns (out: string)
    ensures out == "q.a.b.txt"
  {
    var fb := Sample();
    PqParses();
    fb.AddFirst("p.q");
    var status := fb.RemoveFirst();
    RemoveAtUndoesAddAtFront(["a", "b", "txt"], ["p", "q"]);
    assert fb.nodes == ["q", "a", "b", "txt"];
    PoppedPrints();
    out := fb.ToString();
  }

  /** addLast("x") then get(-1) gives "x": a negative index counts from the current end. */
  method SampleAddLastGetLast() returns (r: Result<string>)
    ensures r == Success("x")
  {
    var fb := Sample();
    SplitsAlone("x", ".");
    fb.AddLast("x");
    assert fb.nodes == ["a", "b", "txt", "x"];
    r := fb.Get(-1);
  }
}
