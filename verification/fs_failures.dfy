/** A run that breaks the tree, through the one request the server does not check. */
module FsFailures {
  import opened FsSpec
  import opened FsTree
  import opened FsPaths

  lemma MadeDir()
    ensures Run([Mkdir(1, "d")]).nodes ==
            map[1 := Node(true, 1, [], map["d" := 3]), 3 := Node(true, 1, [], map[])]
  {
    RunMore([], Mkdir(1, "d"));
    assert [] + [Mkdir(1, "d")] == [Mkdir(1, "d")];
  }

  lemma MadeFile()
    ensures Run([Mkdir(1, "d")] + [Create(3, "f")]).nodes ==
            map[1 := Node(true, 1, [], map["d" := 3]), 3 := Node(true, 1, [], map["f" := 2]),
                2 := Node(false, 3, [], map[])]
  {
    MadeDir();
    RunMore([Mkdir(1, "d")], Create(3, "f"));
    assert Run([Mkdir(1, "d")]).nextFile == 2;
  }

  /**
   * A directory with a file in it is unlinked. The file is still in the table and still answers, but its parent is
   * gone, no path leads to it any more, and what was looked up in the directory is refused.
   */
  lemma UnlinkedDirectoryOrphans(path: seq<Name>)
    ensures var fs := Run([Mkdir(1, "d")] + [Create(3, "f")] + [Unlink(1, "d")]);
            && !Tree(fs) && 2 in fs.nodes && fs.nodes[2].parent !in fs.nodes
            && Step(fs, GetAttr(2)).1.Entry? && Step(fs, Lookup(3, "f")).1 == Err(ENOTDIR)
            && Resolve(fs, ROOT, path) != Some(2)
  {
    var ops := [Mkdir(1, "d")] + [Create(3, "f")];
    MadeFile();
    RunMore(ops, Unlink(1, "d"));
    var fs := Run(ops + [Unlink(1, "d")]);
    assert fs.nodes == map[1 := Node(true, 1, [], map[]), 2 := Node(false, 3, [], map[])];
    assert !Named(fs, 2);
  }
}
