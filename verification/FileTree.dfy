/** The file objects of file.c: one list from the root, parent links, and lookups that walk both. */
module FileTree {
  import opened Machine
  import opened Text
  import opened FileModel

  const TOKEN: nat := 20 // characters of a token buffer, the NUL included

  // The parts complete before position i and the one begun.
  ghost predicate Splitting(str: CString, i: nat, tokens: seq<string>, token: string)
    requires i <= |str|
  {
    if tokens == [] then |token| == i && UpToDot(str) == token + UpToDot(str[i..])
    else
      && |tokens| == 1 && |UpToDot(str)| < |str| && tokens[0] == UpToDot(str)
      && UpToDot(AfterDot(str)) == token + UpToDot(str[i..])
  }

  lemma SplitStart(str: CString)
    ensures Splitting(str, 0, [], "")
  {
    assert str[0..] == str;
  }

  lemma SplitDot(str: CString, i: nat, tokens: seq<string>, token: string)
    requires i < |str| && str[i] == '.' && Splitting(str, i, tokens, token)
    ensures tokens == [] ==> Splitting(str, i + 1, [token], "")
    ensures tokens != [] ==> |tokens| == 1 && tokens[0] == NameOf(str) && ExtOf(str) == Some(token)
  {
    assert UpToDot(str[i..]) == "" && token + "" == token;
    assert "" + UpToDot(str[i + 1..]) == UpToDot(str[i + 1..]);
  }

  lemma MoreToken(token: string, s: string, i: nat)
    requires i < |s| && s[i] != '.'
    ensures token + UpToDot(s[i..]) == token + [s[i]] + UpToDot(s[i + 1..])
  {
    assert s[i..][1..] == s[i + 1..];
  }

  lemma SplitChar(str: CString, i: nat, tokens: seq<string>, token: string)
    requires i < |str| && str[i] != '.' && Splitting(str, i, tokens, token)
    requires |UpToDot(str)| < TOKEN && |UpToDot(AfterDot(str))| < TOKEN
    ensures Splitting(str, i + 1, tokens, token + [str[i]]) && |token| + 1 < TOKEN
  {
    hide UpToDot, AfterDot;
    MoreToken(token, str, i);
  }

  lemma SplitEnd(str: CString, tokens: seq<string>, token: string)
    requires Splitting(str, |str|, tokens, token)
    ensures tokens == [] ==> token == NameOf(str) && ExtOf(str) == None
    ensures tokens != [] ==> |tokens| == 1 && tokens[0] == NameOf(str) && ExtOf(str) == Some(token)
  {
    assert str[|str|..] == "" && token + "" == token;
  }

  // split_string at '.' into two parts at most: the parts, and how many were begun.
  method SplitString(str: CString) returns (tokens: seq<string>, count: nat)
    requires |UpToDot(str)| < TOKEN && |UpToDot(AfterDot(str))| < TOKEN
    ensures 0 < count <= |tokens| && tokens[0] == NameOf(str)
    ensures if count > 1 then ExtOf(str) == Some(tokens[1]) else ExtOf(str) == None
  {
    hide UpToDot, AfterDot, NameOf, ExtOf, Splitting;
    var token := "";
    tokens, count := [], 0;
    var i := 0;
    SplitStart(str);
    while i < |str|
      invariant i <= |str| && count == |tokens| <= 1 && Splitting(str, i, tokens, token)
    {
      if str[i] == '.' {
        SplitDot(str, i, tokens, token);
        assert tokens == [] ==> tokens + [token] == [token];
        tokens, count, token := tokens + [token], count + 1, "";
        if count >= 2 {
          tokens, count := tokens + [token], count + 1;
          return;
        }
      } else {
        SplitChar(str, i, tokens, token);
        token := token + [str[i]];
        assert |token| < TOKEN;  // the NUL after it still fits the buffer
      }
      i := i + 1;
    }
    SplitEnd(str, tokens, token);
    tokens, count := tokens + [token], count + 1;
  }

  class File {
    var name: string
    var ext: Option<string>
    var offset: u32
    var size: u32
    var next: File?
    var isDirectory: bool
    var isRoot: bool
    var level: u32
    var parent: File?

    // Fields start from zero.
    constructor ()
      ensures name == "" && ext == None && offset == 0 && size == 0 && next == null
      ensures !isDirectory && !isRoot && level == 0 && parent == null
    {
      name, ext, offset, size, next := "", None, 0, 0, null;
      isDirectory, isRoot, level, parent := false, false, 0, null;
    }

    // The fields of a file, apart from the list and the current directory, are those of its node.
    ghost predicate Holds(n: Node, above: File?)
      reads this`name, this`ext, this`isDirectory, this`level, this`parent, this`offset, this`size
    {
      && name == n.name && ext == n.ext && isDirectory == n.dir && level == n.level && parent == above
      && (!n.dir ==> offset == OffsetOf(n.serial) && size == EXTENT)
    }

    method FullNameOf() returns (s: string)
      ensures s == FullName(name, ext)
    {
      if ext.Some? {
        s := name + "." + ext.value;
      } else {
        s := name;
      }
    }
  }

  // What cd answers.
  datatype Outcome = Changed | NotADirectory | NoSuchDirectory

  // Position i of the list; null past its end.
  ghost function FileAt(files: seq<File>, i: nat): File? {
    if i < |files| then files[i] else null
  }

  class FileSystem {
    var root: File
    var current: File
    var lastOffset: u32
    var prompt: string
    ghost var tree: Tree
    ghost var files: seq<File>  // in list order

    ghost predicate Linked()
      reads this`files, files`next
    {
      && (forall i, j | 0 <= i < j < |files| :: files[i] != files[j])
      && (forall i | 0 <= i < |files| :: files[i].next == FileAt(files, i + 1))
    }

    ghost predicate Shows(i: nat)
      requires WellFormed(tree) && |files| == |tree.nodes| && i < |files|
      reads this`tree, this`files, files
    {
      var parent := tree.nodes[i].parent;
      && files[i].Holds(tree.nodes[i], if parent.Some? then FileAt(files, parent.value) else null)
      && (files[i].isRoot <==> i == tree.current)
    }

    ghost predicate Consistent()
      reads this`root, this`current, this`tree, this`files, files
    {
      && WellFormed(tree) && 0 < |files| == |tree.nodes| <= U32 && Linked()
      && root == files[0] && tree.current < |files| && current == files[tree.current]
      && forall i | 0 <= i < |files| :: Shows(i)
    }

    ghost predicate Valid()
      reads this, files
    {
      Consistent() && lastOffset == OffsetOf(tree.files)
    }

    // init_root.
    constructor ()
      ensures Valid() && tree == EMPTY && fresh(files)
    {
      var f := new File();
      f.name, f.isDirectory, f.isRoot := "/", true, true;
      root, current, lastOffset, prompt := f, f, 0, "";
      tree, files := EMPTY, [f];
    }

    // create_file: a file object below the current directory.
    method CreateFile(name: CString) returns (f: File)
      requires Valid() && |files| < U32
      requires |UpToDot(name)| < TOKEN && |UpToDot(AfterDot(name))| < TOKEN
      ensures fresh(f) && f.name == NameOf(name) && f.ext == ExtOf(name)
      ensures f.parent == current && f.level == tree.nodes[tree.current].level + 1
      ensures !f.isDirectory && !f.isRoot && f.next == null && f.offset == 0 && f.size == 0
    {
      hide WellFormed, Linked, UpToDot, AfterDot, OffsetOf;
      f := new File();
      LevelAtMost(tree, tree.current);
      assert Shows(tree.current);
      f.level := (current.level + 1) % U32;
      f.parent := current;
      var tokens, count := SplitString(name);
      f.name := tokens[0];
      if count > 1 {
        f.ext := Some(tokens[1]);
      } else {
        f.ext := None;
      }
    }

    // The end of the list, from position k on.
    method LastOf(from: File, ghost k: nat) returns (last: File)
      requires Valid() && k < |files| && files[k] == from
      ensures last == files[|files| - 1]
    {
      hide WellFormed, Shows;
      last := from;
      ghost var i := k;
      while last.next != null
        invariant i < |files| && last == files[i]
        decreases |files| - i
      {
        last := last.next;
        i := i + 1;
      }
    }

    method Link(last: File, f: File)
      requires Linked() && files != [] && last == files[|files| - 1] && f !in files && f.next == null
      modifies last`next, this`files
      ensures Linked() && files == old(files) + [f]
    {
      ghost var n := |files|;
      last.next := f;
      files := files + [f];
      assert forall i | 0 <= i < n :: FileAt(files, i) == old(files[i]);
      assert FileAt(files, n) == f;
    }

    // The new file goes to the end of the list.
    method Attach(last: File, f: File, ghost node: Node, ghost t: Tree)
      requires Consistent() && |files| < U32 && last == files[|files| - 1] && f !in files
      requires WellFormed(t) && t.nodes == tree.nodes + [node] && t.current == tree.current
      requires f.Holds(node, current) && node.parent == Some(tree.current) && !f.isRoot && f.next == null
      modifies last`next, this`tree, this`files
      ensures Consistent() && tree == t && files == old(files) + [f]
    {
      hide WellFormed, File.Holds, Linked;
      ParentsBefore(tree);
      ghost var n := |files|;
      assert forall i | 0 <= i < n :: Shows(i);
      Link(last, f);
      tree := t;
      forall i | 0 <= i < n ensures Shows(i) {
        assert old(Shows(i)) && tree.nodes[i] == old(tree.nodes[i]);
      }
      assert Shows(n);
    }

    // From is the file at position k, as in the lookups below.
    method AddDirectory(from: File, name: CString, ghost k: nat)
      requires Valid() && |files| < U32 && k < |files| && files[k] == from
      requires |UpToDot(name)| < TOKEN && |UpToDot(AfterDot(name))| < TOKEN
      modifies this, files
      ensures Valid() && tree == After(old(tree), Op.AddDirectory(name))
      ensures |files| == |old(files)| + 1 && old(files) <= files && fresh(files[|old(files)|])
      ensures root == old(root) && current == old(current)
    {
      hide WellFormed, Linked, Shows, UpToDot, OffsetOf, ExtOf;
      StepWellFormed(tree, Op.AddDirectory(name));
      ghost var node, t := NewNode(tree, name, true), After(tree, Op.AddDirectory(name));
      var f := CreateFile(name);
      f.isDirectory := true;
      var last := LastOf(from, k);
      Attach(last, f, node, t);
    }

    method AddFile(from: File, name: CString, ghost k: nat)
      requires Valid() && |files| < U32 && k < |files| && files[k] == from
      requires |UpToDot(name)| < TOKEN && |UpToDot(AfterDot(name))| < TOKEN
      modifies this, files
      ensures Valid() && tree == After(old(tree), Op.AddFile(name))
      ensures |files| == |old(files)| + 1 && old(files) <= files && fresh(files[|old(files)|])
      ensures root == old(root) && current == old(current)
    {
      hide WellFormed, Linked, Shows, UpToDot, OffsetOf, ExtOf;
      StepWellFormed(tree, Op.AddFile(name));
      ghost var node, t := NewNode(tree, name, false), After(tree, Op.AddFile(name));
      OffsetStep(tree.files);
      var f := CreateFile(name);
      f.offset, f.size := lastOffset, EXTENT;
      var last := LastOf(from, k);
      Attach(last, f, node, t);
      lastOffset := (lastOffset + EXTENT) % U32;
    }

    lemma Apart(i: nat, j: nat)
      requires Linked() && i < |files| && j < |files|
      ensures files[i] == files[j] <==> i == j
    {
    }

    lemma NextOf(i: nat)
      requires Linked() && i < |files|
      ensures files[i].next == FileAt(files, i + 1)
    {
    }

    // The test in both scans: is the file at i a child of the one at k, and not the current directory?
    lemma Scanned(i: nat, k: nat)
      requires Valid() && i < |files| && k < |files|
      ensures files[i].isRoot || files[i].parent != files[k] || files[i].level != (files[k].level + 1) % U32
              <==> i == tree.current || tree.nodes[i].parent != Some(k)
      ensures FullName(files[i].name, files[i].ext) == Full(tree.nodes[i])
      ensures files[i].next == FileAt(files, i + 1)
    {
      hide WellFormed, OffsetOf, Linked, FullName;
      assert Shows(i) && Shows(k);
      ParentLevel(tree, i);
      NextOf(i);
      if tree.nodes[i].parent.Some? {
        Apart(tree.nodes[i].parent.value, k);
      }
    }

    // find_file.
    method FindFile(from: File, name: CString, ghost k: nat) returns (found: File?)
      requires Valid() && k < |files| && files[k] == from
      ensures found == match Find(tree, k, name) { case Some(i) => FileAt(files, i) case None => null }
    {
      hide WellFormed, Linked, Shows, Full;
      if name == "/" {
        return root;
      }
      ghost var i := k;
      var node: File? := from;
      while node != null
        invariant i <= |files| && node == FileAt(files, i)
        invariant Find(tree, k, name) == FirstChild(tree, k, name, i)
        decreases |files| - i
      {
        Scanned(i, k);
        if node.isRoot || node.parent != from || node.level != (from.level + 1) % U32 {
          node := node.next;
        } else {
          var full := node.FullNameOf();
          if full == name {
            return node;
          }
          node := node.next;
        }
        i := i + 1;
      }
      return null;
    }

    // What list_files prints, in turn.
    method ListFiles(from: File, ghost k: nat) returns (names: seq<string>)
      requires Valid() && k < |files| && files[k] == from
      ensures names == Listing(tree, k, k)
    {
      hide WellFormed, Linked, Shows, Full, FullName, Listing;
      assert [] + Listing(tree, k, k) == Listing(tree, k, k);
      names := [];
      ghost var i := k;
      var node: File? := from;
      while node != null
        invariant i <= |files| && node == FileAt(files, i)
        invariant Listing(tree, k, k) == names + Listing(tree, k, i)
        decreases |files| - i
      {
        Scanned(i, k);
        ListingStep(tree, k, i, names);
        if !(node.isRoot || node.parent != from || node.level != (from.level + 1) % U32) {
          var full := node.FullNameOf();
          names := names + [full];
        }
        node := node.next;
        i := i + 1;
      }
      ListingStep(tree, k, i, names);
    }

    method MarkCurrent(to: File, ghost k: nat)
      requires Valid() && k < |files| && files[k] == to
      modifies this`current, this`tree, files
      ensures Valid() && tree == After(old(tree), SetCurrent(k)) && files == old(files) && current == to
    {
      hide WellFormed, File.Holds, Linked;
      StepWellFormed(tree, SetCurrent(k));
      ghost var was := tree.current;
      forall i | 0 <= i < |files| ensures (files[i] == to <==> i == k) && (files[i] == current <==> i == was) {
        Apart(i, k);
        Apart(i, was);
      }
      assert forall i | 0 <= i < |files| :: Shows(i);
      current.isRoot := false;
      to.isRoot := true;
      current := to;
      tree := After(tree, SetCurrent(k));
      forall i | 0 <= i < |files| ensures Shows(i) {
        assert old(Shows(i));
      }
    }

    lemma UpStep(i: nat, path: string)
      requires Valid() && i < |files|
      ensures files[i].parent == null <==> i == 0
      ensures i == 0 ==> Path(tree, i) + path == path
      ensures i > 0 ==>
                && tree.nodes[i].parent.Some? && tree.nodes[i].parent.value < i
                && files[i].parent == files[tree.nodes[i].parent.value]
                && Path(tree, i) + path == Path(tree, tree.nodes[i].parent.value) + ("/" + files[i].name + path)
    {
      assert Shows(i);
      assert i > 0 ==> HangsAt(tree.nodes, i);
    }

    method PathTo(to: File, ghost k: nat) returns (path: string)
      requires Valid() && k < |files| && files[k] == to
      ensures path == Path(tree, k)
    {
      hide WellFormed, Linked, Shows, Path;
      assert Path(tree, k) + "" == Path(tree, k);
      path := "";
      var node: File := to;
      ghost var i: nat := k;
      while node.parent != null
        invariant i < |files| && node == files[i] && Path(tree, k) == Path(tree, i) + path
        decreases i
      {
        UpStep(i, path);
        path := "/" + node.name + path;
        node := node.parent;
        i := tree.nodes[i].parent.value;
      }
      UpStep(i, path);
    }

    // set_current_directory, and the path it puts in the prompt.
    method SetCurrentDirectory(to: File, ghost k: nat)
      requires Valid() && k < |files| && files[k] == to
      modifies this, files
      ensures Valid() && tree == After(old(tree), SetCurrent(k))
      ensures files == old(files) && root == old(root) && current == to
      ensures prompt == Path(tree, k) + " $p>"
    {
      hide WellFormed, Linked, File.Holds, Shows, Path;
      MarkCurrent(to, k);
      var path := PathTo(to, k);
      prompt := path + " $p>";
    }

    // cd_command on one name: a step of a walk from the current directory. For a missing name the code looks
    // for the directory flag at address 0 before it asks whether there is a file: atNull is what it reads there.
    method ChangeDirectory(name: CString, atNull: bool) returns (outcome: Outcome)
      requires Valid()
      modifies this, files
      ensures Valid() && files == old(files) && root == old(root)
      ensures outcome == Changed <==> Walk(old(tree), old(tree.current), [name]).Some?
      ensures outcome == NoSuchDirectory <==> Find(old(tree), old(tree.current), name) == None && atNull
      ensures outcome == Changed ==>
                tree == After(old(tree), SetCurrent(Walk(old(tree), old(tree.current), [name]).value))
      ensures outcome != Changed ==> tree == old(tree) && current == old(current)
    {
      hide WellFormed, Linked, Find, Walk;
      WalkStep(tree, tree.current, name);
      var to := FindFile(current, name, tree.current);
      if to == null {
        return if !atNull then NotADirectory else NoSuchDirectory;
      }
      ghost var i := Find(tree, tree.current, name).value;
      assert Shows(i);
      if !to.isDirectory {
        return NotADirectory;
      }
      SetCurrentDirectory(to, i);
      return Changed;
    }
  }
}
