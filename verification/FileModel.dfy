/** The in-memory file tree on values: names, the list of files, lookup, and walks along directories. */
module FileModel {
  import opened Machine
  import opened Text

  const EXTENT: nat := 512
  const EXTENTS: nat := 0x80_0000 // extents before the 32-bit offset wraps

  // ---------- Names ----------

  function UpToDot(s: string): (t: string)
    ensures '.' !in t && |t| <= |s| && t == s[..|t|] && (|t| < |s| ==> s[|t|] == '.')
  {
    if s == "" || s[0] == '.' then "" else [s[0]] + UpToDot(s[1..])
  }

  function AfterDot(s: string): string {
    if |UpToDot(s)| < |s| then s[|UpToDot(s)| + 1..] else ""
  }

  // What create_file keeps of a name: the first two of the parts between dots.
  function NameOf(s: string): string {
    UpToDot(s)
  }

  function ExtOf(s: string): Option<string> {
    if |UpToDot(s)| < |s| then Some(UpToDot(AfterDot(s))) else None
  }

  function FullName(name: string, ext: Option<string>): string {
    match ext
    case Some(e) => name + "." + e
    case None => name
  }

  lemma UpToDotAll(s: string)
    ensures UpToDot(s) == s <==> '.' !in s
  {
    var t := UpToDot(s);
    if |t| < |s| {
      assert s[|t|] in s;
    }
  }

  // A file goes by the name it was created with exactly when that name has at most one dot.
  lemma FullNameExact(s: string)
    ensures FullName(NameOf(s), ExtOf(s)) == s <==> '.' !in AfterDot(s)
  {
    var n := UpToDot(s);
    if |n| < |s| {
      assert s == n + "." + AfterDot(s);
      UpToDotAll(AfterDot(s));
      var e := UpToDot(AfterDot(s));
      assert n + "." + e == s ==> |e| == |AfterDot(s)|;
    }
  }

  // ---------- The tree ----------

  datatype Node = Node(name: string, ext: Option<string>, dir: bool, parent: Option<nat>, level: nat, serial: nat)

  // The files in list order, the current directory, and how many files were given an extent.
  datatype Tree = Tree(nodes: seq<Node>, current: nat, files: nat)

  function Full(n: Node): string {
    FullName(n.name, n.ext)
  }

  const ROOT := Node("/", None, true, None, 0, 0)
  const EMPTY := Tree([ROOT], 0, 0)

  // Node i comes after its parent, one level deeper.
  predicate HangsAt(nodes: seq<Node>, i: nat)
    requires i < |nodes|
  {
    match nodes[i].parent
    case Some(p) => p < i && nodes[i].level == nodes[p].level + 1
    case None => false
  }

  predicate WellFormed(t: Tree) {
    && t.nodes != [] && t.nodes[0] == ROOT && t.current < |t.nodes|
    && (forall i | 0 < i < |t.nodes| :: HangsAt(t.nodes, i))
    && (forall i | 0 <= i < |t.nodes| :: !t.nodes[i].dir ==> t.nodes[i].serial < t.files)
    && (forall i, j | 0 <= i < j < |t.nodes| ::
          !t.nodes[i].dir && !t.nodes[j].dir ==> t.nodes[i].serial < t.nodes[j].serial)
  }

  // The offset in the RAM disk of the file with a serial number: a 32-bit sum.
  function OffsetOf(serial: nat): (o: u32)
    ensures o + EXTENT <= U32
  {
    EXTENT * (serial % EXTENTS)
  }

  lemma OffsetStep(serial: nat)
    ensures OffsetOf(serial + 1) == (OffsetOf(serial) + EXTENT) % U32
  {
    var r := serial % EXTENTS;
    assert (serial + 1) % EXTENTS == if r + 1 == EXTENTS then 0 else r + 1;
  }

  predicate InExtent(b: nat, serial: nat) {
    OffsetOf(serial) <= b < OffsetOf(serial) + EXTENT
  }

  // Two files share bytes of the RAM disk exactly when 2^23 or a multiple of it was added between.
  lemma ExtentsShared(i: nat, j: nat)
    ensures (exists b: nat :: InExtent(b, i) && InExtent(b, j)) <==> i % EXTENTS == j % EXTENTS
  {
    if i % EXTENTS == j % EXTENTS {
      assert InExtent(OffsetOf(i), i) && InExtent(OffsetOf(i), j);
    }
  }

  // So the files of a tree have disjoint extents as long as there are at most 2^23 of them.
  lemma ExtentsDisjoint(t: Tree, i: nat, j: nat, b: nat)
    requires WellFormed(t) && t.files <= EXTENTS && i < |t.nodes| && j < |t.nodes| && i != j
    requires !t.nodes[i].dir && !t.nodes[j].dir && InExtent(b, t.nodes[i].serial)
    ensures !InExtent(b, t.nodes[j].serial)
  {
    ExtentsShared(t.nodes[i].serial, t.nodes[j].serial);
    assert t.nodes[i].serial != t.nodes[j].serial;
  }

  // ---------- Operations ----------

  datatype Op = AddFile(name: string) | AddDirectory(name: string) | SetCurrent(to: nat)

  predicate Legal(t: Tree, op: Op) {
    op.SetCurrent? ==> op.to < |t.nodes|
  }

  function NewNode(t: Tree, name: string, dir: bool): Node
    requires t.current < |t.nodes|
  {
    Node(NameOf(name), ExtOf(name), dir, Some(t.current), t.nodes[t.current].level + 1, if dir then 0 else t.files)
  }

  function After(t: Tree, op: Op): Tree
    requires t.current < |t.nodes|
  {
    match op
    case AddFile(name) => Tree(t.nodes + [NewNode(t, name, false)], t.current, t.files + 1)
    case AddDirectory(name) => Tree(t.nodes + [NewNode(t, name, true)], t.current, t.files)
    case SetCurrent(to) => Tree(t.nodes, to, t.files)
  }

  lemma StepWellFormed(t: Tree, op: Op)
    requires WellFormed(t) && Legal(t, op)
    ensures WellFormed(After(t, op))
  {
    var u := After(t, op);
    forall i | 0 < i < |u.nodes| ensures HangsAt(u.nodes, i) {
      assert i < |t.nodes| ==> HangsAt(t.nodes, i);
    }
  }

  lemma {:induction false} LevelAtMost(t: Tree, i: nat)
    requires WellFormed(t) && i < |t.nodes|
    ensures t.nodes[i].level <= i
    decreases i
  {
    if i > 0 {
      assert HangsAt(t.nodes, i);
      LevelAtMost(t, t.nodes[i].parent.value);
    }
  }

  lemma ParentsBefore(t: Tree)
    requires WellFormed(t)
    ensures forall i | 0 <= i < |t.nodes| :: t.nodes[i].parent.Some? ==> t.nodes[i].parent.value < i
  {
    forall i | 0 <= i < |t.nodes| ensures t.nodes[i].parent.Some? ==> t.nodes[i].parent.value < i {
      assert i > 0 ==> HangsAt(t.nodes, i);
    }
  }

  // A child is one level below its parent, without wrap-around.
  lemma ParentLevel(t: Tree, i: nat)
    requires WellFormed(t) && i < |t.nodes| <= U32
    ensures t.nodes[i].parent.Some? ==>
      t.nodes[i].parent.value < i && t.nodes[i].level == (t.nodes[t.nodes[i].parent.value].level + 1) % U32
  {
    LevelAtMost(t, i);
    assert i > 0 ==> HangsAt(t.nodes, i);
  }

  ghost predicate Leads(t: Tree, ops: seq<Op>, u: Tree)
    decreases |ops|
  {
    if ops == [] then u == t
    else WellFormed(t) && Legal(t, ops[0]) && Leads(After(t, ops[0]), ops[1..], u)
  }

  // Every run keeps the tree well formed, and keeps every node where it is.
  lemma {:induction false} RunWellFormed(t: Tree, ops: seq<Op>, u: Tree)
    requires WellFormed(t) && Leads(t, ops, u)
    ensures WellFormed(u) && t.nodes <= u.nodes
    decreases |ops|
  {
    if ops != [] {
      StepWellFormed(t, ops[0]);
      RunWellFormed(After(t, ops[0]), ops[1..], u);
    }
  }

  // ---------- Lookup ----------

  predicate IsChild(t: Tree, from: nat, name: string, i: nat)
    requires i < |t.nodes|
  {
    t.nodes[i].parent == Some(from) && Full(t.nodes[i]) == name
  }

  // The scan from position k passes over the current directory.
  function FirstChild(t: Tree, from: nat, name: string, k: nat): (r: Option<nat>)
    ensures r.Some? ==> k <= r.value < |t.nodes|
    decreases |t.nodes| - k
  {
    if k >= |t.nodes| then None
    else if k != t.current && IsChild(t, from, name, k) then Some(k)
    else FirstChild(t, from, name, k + 1)
  }

  function Find(t: Tree, from: nat, name: string): Option<nat> {
    if name == "/" then Some(0) else FirstChild(t, from, name, from)
  }

  lemma {:induction false} FirstChildIs(t: Tree, from: nat, name: string, k: nat, i: nat)
    ensures FirstChild(t, from, name, k) == Some(i) <==>
              && k <= i < |t.nodes| && i != t.current && IsChild(t, from, name, i)
              && forall j | k <= j < i :: j == t.current || !IsChild(t, from, name, j)
    decreases |t.nodes| - k
  {
    if k < |t.nodes| && !(k != t.current && IsChild(t, from, name, k)) {
      FirstChildIs(t, from, name, k + 1, i);
    }
  }

  // Children come after their parent, so a scan that starts there misses none.
  lemma ChildrenLater(t: Tree, from: nat, name: string)
    requires WellFormed(t)
    ensures forall i | 0 <= i < |t.nodes| && IsChild(t, from, name, i) :: i > from
  {
    forall i | 0 <= i < |t.nodes| && IsChild(t, from, name, i) ensures i > from {
      assert i > 0 ==> HangsAt(t.nodes, i);
    }
  }

  // From the current directory the scan finds the first child of the name in the whole list; "/" is the root.
  lemma FindFromCurrent(t: Tree, name: string, i: nat)
    requires WellFormed(t)
    ensures Find(t, t.current, name) == Some(i) <==>
              if name == "/" then i == 0
              else
                && i < |t.nodes| && IsChild(t, t.current, name, i)
                && forall j | 0 <= j < i :: !IsChild(t, t.current, name, j)
  {
    FirstChildIs(t, t.current, name, t.current, i);
    ChildrenLater(t, t.current, name);
  }

  lemma {:induction false} NoneLeft(t: Tree, from: nat, name: string, k: nat, i: nat)
    requires FirstChild(t, from, name, k) == None && k <= i < |t.nodes|
    ensures i == t.current || !IsChild(t, from, name, i)
    decreases i - k
  {
    if k < i {
      NoneLeft(t, from, name, k + 1, i);
    }
  }

  // From any directory a child is missed exactly when the only ones of that name are the current directory.
  lemma FindFails(t: Tree, from: nat, name: string)
    requires WellFormed(t)
    ensures Find(t, from, name) == None
            <==> name != "/" && forall i | 0 <= i < |t.nodes| :: IsChild(t, from, name, i) ==> i == t.current
  {
    ChildrenLater(t, from, name);
    if FirstChild(t, from, name, from) == None {
      forall i | 0 <= i < |t.nodes| && IsChild(t, from, name, i) ensures i == t.current {
        NoneLeft(t, from, name, from, i);
      }
    } else {
      FirstChildIs(t, from, name, from, FirstChild(t, from, name, from).value);
    }
  }

  // A file is found under its own name from then on, whatever is added later, from the directory
  // where it was added.
  lemma FoundFromThenOn(t: Tree, ops: seq<Op>, u: Tree, name: string, i: nat)
    requires WellFormed(t) && Leads(t, ops, u) && u.current == t.current
    requires Find(t, t.current, name) == Some(i)
    ensures Find(u, u.current, name) == Some(i)
  {
    RunWellFormed(t, ops, u);
    FindFromCurrent(t, name, i);
    forall j | 0 <= j <= i && j < |t.nodes| ensures IsChild(u, t.current, name, j) == IsChild(t, t.current, name, j) {
      assert u.nodes[j] == t.nodes[j];
    }
    FindFromCurrent(u, name, i);
  }

  // A file just added is found under the name it was added with, exactly when that name is new here
  // and has at most one dot. "/" is never new.
  lemma AddThenFind(t: Tree, name: string, dir: bool)
    requires WellFormed(t)
    ensures var u := After(t, if dir then AddDirectory(name) else AddFile(name));
      Find(u, u.current, name) == Some(|t.nodes|) <==> Find(t, t.current, name) == None && '.' !in AfterDot(name)
  {
    var op := if dir then AddDirectory(name) else AddFile(name);
    var u, n := After(t, op), |t.nodes|;
    StepWellFormed(t, op);
    FindFromCurrent(u, name, n);
    FindFails(t, t.current, name);
    FullNameExact(name);
    assert u.nodes[n] == NewNode(t, name, dir);
    forall j | 0 <= j < n ensures IsChild(u, t.current, name, j) == IsChild(t, t.current, name, j) {
      assert u.nodes[j] == t.nodes[j];
    }
    assert t.current > 0 ==> HangsAt(t.nodes, t.current);
  }

  lemma DottedName()
    ensures FullName(NameOf("a.b.c"), ExtOf("a.b.c")) == "a.b"
  {
    var s, r := "a.b.c", "b.c";
    assert s[1..][0] == '.' && UpToDot(s[1..]) == "" && UpToDot(s) == "a";
    assert r[1..][0] == '.' && UpToDot(r[1..]) == "" && UpToDot(r) == "b";
    assert s[2..] == r && AfterDot(s) == r;
    assert "a" + "." + "b" == "a.b";
  }

  // Inputs that fail: of two dots in a name, the second and what follows are lost, ...
  lemma TwoDotsFail()
    ensures var u := After(EMPTY, AddFile("a.b.c"));
      Find(u, 0, "a.b.c") == None && Find(u, 0, "a.b") == Some(1)
  {
    var u := After(EMPTY, AddFile("a.b.c"));
    assert WellFormed(EMPTY);
    StepWellFormed(EMPTY, AddFile("a.b.c"));
    DottedName();
    assert Full(u.nodes[1]) == "a.b";
    FindFails(u, 0, "a.b.c");
    FindFromCurrent(u, "a.b", 1);
  }

  // ... a directory called "/" is hidden by the root, ...
  lemma RootNameFails()
    ensures var u := After(EMPTY, AddDirectory("/"));
      IsChild(u, 0, "/", 1) && Find(u, 0, "/") == Some(0)
  {
    assert "/"[1..] == "" && UpToDot("") == "" && UpToDot("/") == "/";
  }

  // ... and from the root, the directory that is current is missed.
  lemma CurrentIsMissed()
    ensures var u := After(After(EMPTY, AddDirectory("a")), SetCurrent(1));
      IsChild(u, 0, "a", 1) && Find(u, 0, "a") == None
  {
    var t := After(EMPTY, AddDirectory("a"));
    var u := After(t, SetCurrent(1));
    assert WellFormed(EMPTY);
    StepWellFormed(EMPTY, AddDirectory("a"));
    StepWellFormed(t, SetCurrent(1));
    assert "a"[1..] == "" && UpToDot("") == "" && UpToDot("a") == "a";
    FindFails(u, 0, "a");
  }

  // ---------- Walks ----------

  // cd along a list of names from directory i; each step must find a directory.
  function Walk(t: Tree, i: nat, names: seq<string>): Option<nat>
    decreases |names|
  {
    if names == [] then Some(i)
    else
      var next := Find(Tree(t.nodes, i, t.files), i, names[0]);
      if next.Some? && next.value < |t.nodes| && t.nodes[next.value].dir then Walk(t, next.value, names[1..]) else None
  }

  lemma WalkStep(t: Tree, p: nat, name: string)
    requires WellFormed(t) && p == t.current
    ensures var i := Find(t, p, name);
      && (i.Some? ==> i.value < |t.nodes|)
      && Walk(t, p, [name]) == if i.Some? && t.nodes[i.value].dir then i else None
  {
    assert t == Tree(t.nodes, p, t.files) && [name][1..] == [];
  }

  // What add_directory adds can be entered by cd, what add_file adds cannot.
  lemma AddThenEnter(t: Tree, name: string, dir: bool)
    requires WellFormed(t)
    ensures var u := After(t, if dir then AddDirectory(name) else AddFile(name));
      Walk(u, u.current, [name]) == Some(|t.nodes|)
      <==> dir && Find(t, t.current, name) == None && '.' !in AfterDot(name)
  {
    var op := if dir then AddDirectory(name) else AddFile(name);
    var u := After(t, op);
    assert u.nodes[|t.nodes|] == NewNode(t, name, dir);
    hide Find, Walk, AfterDot;
    StepWellFormed(t, op);
    AddThenFind(t, name, dir);
    WalkStep(u, u.current, name);
  }

  // The files get the 512-byte extents of the RAM disk in turn; directories get none.
  lemma AddedExtent(t: Tree, name: string)
    requires t.current < |t.nodes|
    ensures var u := After(t, AddFile(name));
      && !u.nodes[|t.nodes|].dir && u.files == t.files + 1
      && OffsetOf(u.nodes[|t.nodes|].serial) == 512 * (t.files % 0x80_0000)
      && After(t, AddDirectory(name)).nodes[|t.nodes|].dir && After(t, AddDirectory(name)).files == t.files
  {
  }

  // The names on the way from the root.
  function Names(t: Tree, i: nat): seq<string>
    requires WellFormed(t) && i < |t.nodes|
    decreases i
  {
    if i == 0 then []
    else
      assert HangsAt(t.nodes, i);
      Names(t, t.nodes[i].parent.value) + [Full(t.nodes[i])]
  }

  // Directories all the way, each the first of its name in its parent.
  predicate Reachable(t: Tree, i: nat)
    requires WellFormed(t) && i < |t.nodes|
    decreases i
  {
    i == 0 ||
    (assert HangsAt(t.nodes, i);
     var p := t.nodes[i].parent.value;
     && t.nodes[i].dir && Reachable(t, p)
     && forall j | 0 <= j < i :: !IsChild(t, p, Full(t.nodes[i]), j))
  }

  lemma {:induction false} WalkSnoc(t: Tree, i: nat, names: seq<string>, name: string)
    ensures Walk(t, i, names + [name])
            == match Walk(t, i, names) { case Some(k) => Walk(t, k, [name]) case None => None }
    decreases |names|
  {
    if names == [] {
      assert names + [name] == [name];
    } else {
      assert (names + [name])[1..] == names[1..] + [name];
      var next := Find(Tree(t.nodes, i, t.files), i, names[0]);
      if next.Some? {
        WalkSnoc(t, next.value, names[1..], name);
      }
    }
  }

  // cd / starts over at the root.
  lemma {:induction false} WalkRestarts(t: Tree, i: nat, names: seq<string>, rest: seq<string>)
    requires WellFormed(t)
    ensures Walk(t, i, names + ["/"] + rest) == if Walk(t, i, names).Some? then Walk(t, 0, rest) else None
    decreases |names|
  {
    var all := names + ["/"] + rest;
    if names == [] {
      assert all[0] == "/" && all[1..] == rest;
    } else {
      assert all[0] == names[0] && all[1..] == names[1..] + ["/"] + rest;
      var next := Find(Tree(t.nodes, i, t.files), i, names[0]);
      if next.Some? {
        WalkRestarts(t, next.value, names[1..], rest);
      }
    }
  }

  lemma WalkOne(t: Tree, p: nat, name: string, i: nat)
    requires WellFormed(t) && p < |t.nodes| && name != "/"
    ensures Walk(t, p, [name]) == Some(i) <==>
              && i < |t.nodes| && t.nodes[i].dir && IsChild(t, p, name, i)
              && forall j | 0 <= j < i :: !IsChild(t, p, name, j)
  {
    var u := Tree(t.nodes, p, t.files);
    FindFromCurrent(u, name, i);
    var next := Find(u, p, name);
    if next.Some? {
      FindFromCurrent(u, name, next.value);
      assert Walk(t, next.value, [name][1..]) == next;
    }
    assert IsChild(t, p, name, 0) == IsChild(u, p, name, 0);
    forall j | 0 <= j < |t.nodes| ensures IsChild(t, p, name, j) == IsChild(u, p, name, j) {
    }
  }

  lemma {:induction false} WalkInside(t: Tree, i: nat, names: seq<string>)
    requires i < |t.nodes| && Walk(t, i, names).Some?
    ensures Walk(t, i, names).value < |t.nodes|
    decreases |names|
  {
    if names != [] {
      WalkInside(t, Find(Tree(t.nodes, i, t.files), i, names[0]).value, names[1..]);
    }
  }

  // Walking along names from the root ends at a node exactly when they are the names on its way
  // from the root and it is reachable: the way back is the path.
  lemma {:induction false} WalkIsPath(t: Tree, names: seq<string>, i: nat)
    requires WellFormed(t) && i < |t.nodes| && "/" !in names
    ensures Walk(t, 0, names) == Some(i) <==> names == Names(t, i) && Reachable(t, i)
    decreases |names|
  {
    if names == [] {
      assert i > 0 ==> Names(t, i) != [];
    } else {
      var front, name := names[..|names| - 1], names[|names| - 1];
      assert names == front + [name];
      WalkSnoc(t, 0, front, name);
      if i > 0 {
        assert HangsAt(t.nodes, i);
        var p := t.nodes[i].parent.value;
        WalkIsPath(t, front, p);
        WalkOne(t, p, name, i);
        assert names == Names(t, i) <==> front == Names(t, p) && name == Full(t.nodes[i]);
      }
      var k := Walk(t, 0, front);
      if k.Some? {
        WalkInside(t, 0, front);
        WalkOne(t, k.value, name, i);
      }
    }
  }

  // ---------- Prompt and listing ----------

  // The path in the shell prompt: names without extensions.
  function Path(t: Tree, i: nat): string
    requires WellFormed(t) && i < |t.nodes|
    decreases i
  {
    if i == 0 then ""
    else
      assert HangsAt(t.nodes, i);
      Path(t, t.nodes[i].parent.value) + ("/" + t.nodes[i].name)
  }

  function Slashed(names: seq<string>): string {
    if names == [] then "" else Slashed(names[..|names| - 1]) + "/" + names[|names| - 1]
  }

  ghost predicate NoExtensions(t: Tree, i: nat)
    requires WellFormed(t) && i < |t.nodes|
    decreases i
  {
    i == 0 ||
    (assert HangsAt(t.nodes, i);
     t.nodes[i].ext == None && NoExtensions(t, t.nodes[i].parent.value))
  }

  lemma SlashedOneMore(names: seq<string>, name: string)
    ensures Slashed(names + [name]) == Slashed(names) + ("/" + name)
  {
    assert (names + [name])[..|names|] == names;
    assert Slashed(names) + "/" + name == Slashed(names) + ("/" + name);
  }

  // Without extensions on the way, the path is the names of a walk from the root, each behind a slash.
  lemma {:induction false} PathIsNames(t: Tree, i: nat)
    requires WellFormed(t) && i < |t.nodes| && NoExtensions(t, i)
    ensures Path(t, i) == Slashed(Names(t, i))
    decreases i
  {
    if i > 0 {
      assert HangsAt(t.nodes, i);
      var p := t.nodes[i].parent.value;
      PathIsNames(t, p);
      SlashedOneMore(Names(t, p), Full(t.nodes[i]));
    }
  }

  // What list_files prints of a directory, from position k on.
  function Listing(t: Tree, from: nat, k: nat): seq<string>
    decreases |t.nodes| - k
  {
    if k >= |t.nodes| then []
    else
      (if k != t.current && t.nodes[k].parent == Some(from) then [Full(t.nodes[k])] else []) + Listing(t, from, k + 1)
  }

  lemma ListingStep(t: Tree, from: nat, k: nat, names: seq<string>)
    ensures names + Listing(t, from, k)
            == if k >= |t.nodes| then names
               else (if k != t.current && t.nodes[k].parent == Some(from) then names + [Full(t.nodes[k])] else names)
                    + Listing(t, from, k + 1)
  {
  }

  // A name is listed exactly when it is found.
  lemma {:induction false} ListedIffFound(t: Tree, from: nat, name: string, k: nat)
    ensures name in Listing(t, from, k) <==> FirstChild(t, from, name, k).Some?
    decreases |t.nodes| - k
  {
    if k < |t.nodes| {
      ListedIffFound(t, from, name, k + 1);
    }
  }
}
