/** The build orchestrator of src/core/cbcore.c on the Linux/UNIX branches:
    `needs_compile`, `set_compiler_stub`, `compile` and the order of
    `cb_main`.

    The outside world enters as values: the source tree is what `walk_dir`
    returned, `fileExists` answers `file_exists` for a path, `system` gives the
    exit code of a command, and the timetable file is its bytes (or `None`
    when it cannot be opened). Both oracles are handed the characters a C
    function sees of a buffer: up to its first NUL. */
module CbCore {
  import opened Wrappers
  import opened CbStr
  import opened TimeTable
  import opened Seqs
  import CbConf
  import TimeTableBinary

  /** `COMMAND_SIZE`, the capacity the command buffer starts with. */
  const CommandSize: nat := 1024 * 4

  /** `dir_entry_t`: a file found by the walk, the index of its directory in
      the walk's directory list, and its write time. */
  datatype DirEntry = DirEntry(parent: nat, name: Str, writeTime: int)

  /** `dir_t`: the directories the walk visited and the files it found, in
      walk order. */
  datatype Tree = Tree(dirNames: seq<Str>, entries: seq<DirEntry>) {
    /** What the walk guarantees: every parent index names a directory, and
        every name and directory is a terminated, non-empty string. */
    predicate Valid() {
      && (forall d :: 0 <= d < |dirNames| ==> WellFormed(dirNames[d]))
      && (forall i :: 0 <= i < |entries| ==>
            entries[i].parent < |dirNames| && WellFormed(entries[i].name) && entries[i].name.len >= 2)
    }
  }

  // ---------------------------------------------------------------------
  // Formatting.
  // ---------------------------------------------------------------------

  /** `cbstr_concat_format(a, CB_CSTR(fmt), args...)` for a format written
      as pieces: its text is the pieces rendered, and it appends the
      expansion. */
  function Format(a: Str, ps: seq<Piece>, args: seq<Str>): (r: Str)
    requires a.Valid() && AllValid(args) && PiecesOk(ps) && |args| == Holes(ps)
    ensures r.Valid()
    ensures WellFormed(a) && AllWellFormed(args) ==> WellFormed(r) && Text(r) == Text(a) + Expand(ps, args)
  {
    FormatDemand(ps, Blanks(|args|));
    ConcatFormat(a, Lit(Render(ps)), args)
  }

  /** `n` empty terminated strings. */
  function Blanks(n: nat): (r: seq<Str>)
    ensures |r| == n && AllWellFormed(r)
  {
    seq(n, _ => Str([NUL], 1))
  }

  /** The format `pre%spost`. */
  function Around(pre: seq<char>, post: seq<char>): (ps: seq<Piece>)
    requires '%' !in pre && NUL !in pre && '%' !in post && NUL !in post
    ensures PiecesOk(ps) && Holes(ps) == 1
    ensures Render(ps) == pre + "%s" + post
  {
    var ps := [Chars(pre), Hole, Chars(post)];
    assert ps[1..] == [Hole, Chars(post)] && ps[2..] == [Chars(post)] && ps[3..] == [];
    assert Render(ps[2..]) == post + Render(ps[3..]);
    assert Render(ps[1..]) == "%s" + Render(ps[2..]);
    assert Holes(ps[2..]) == 0;
    assert Holes(ps[1..]) == 1;
    Assoc(pre, "%s", post + []);
    ps
  }

  /** What `pre%spost` makes of `x`. */
  function Word(pre: seq<char>, x: Str, post: seq<char>): seq<char>
    requires x.Valid()
  {
    pre + Text(x) + post
  }

  lemma ExpandAround(pre: seq<char>, post: seq<char>, x: Str)
    requires '%' !in pre && NUL !in pre && '%' !in post && NUL !in post && x.Valid()
    ensures Expand(Around(pre, post), [x]) == Word(pre, x, post)
  {
    var ps := Around(pre, post);
    assert ps[1..] == [Hole, Chars(post)] && ps[2..] == [Chars(post)] && ps[3..] == [];
    assert [x][1..] == [] && [x][0] == x;
    assert Expand(ps[2..], []) == post + [];
    assert Expand(ps[1..], [x]) == Text(x) + Expand(ps[2..], []);
    Assoc(pre, Text(x), post);
  }

  /** `cbstr_concat_format(a, CB_CSTR("pre%spost"), x)`. */
  function FormatOne(a: Str, pre: seq<char>, x: Str, post: seq<char>): (r: Str)
    requires '%' !in pre && NUL !in pre && '%' !in post && NUL !in post
    requires a.Valid() && x.Valid()
    ensures r.Valid()
    ensures WellFormed(a) && WellFormed(x) ==> WellFormed(r) && Text(r) == Text(a) + Word(pre, x, post)
  {
    ExpandAround(pre, post, x);
    Format(a, Around(pre, post), [x])
  }

  /** The words `pre<item>post` for every item, in list order: what a loop
      of `cbstr_concat_format(str, "pre%spost", cbstr_list_get(list, i))`
      over `i < list.len` appends. */
  function Listed(pre: seq<char>, items: seq<Str>, post: seq<char>): seq<char>
    requires AllWellFormed(items)
    decreases |items|
  {
    if items == [] then [] else Word(pre, items[0], post) + Listed(pre, items[1..], post)
  }

  /** That loop from item `i` on. */
  function FormatEach(a: Str, pre: seq<char>, items: seq<Str>, post: seq<char>, i: nat): (r: Str)
    requires '%' !in pre && NUL !in pre && '%' !in post && NUL !in post
    requires a.Valid() && AllValid(items) && i <= |items|
    ensures r.Valid()
    ensures WellFormed(a) && AllWellFormed(items) ==> WellFormed(r)
    decreases |items| - i
  {
    if i == |items| then a
    else FormatEach(FormatOne(a, pre, ListGet(items, i).value, post), pre, items, post, i + 1)
  }

  lemma {:induction false} FormatEachListed(a: Str, pre: seq<char>, items: seq<Str>, post: seq<char>, i: nat)
    requires '%' !in pre && NUL !in pre && '%' !in post && NUL !in post
    requires WellFormed(a) && AllWellFormed(items) && i <= |items|
    ensures Text(FormatEach(a, pre, items, post, i)) == Text(a) + Listed(pre, items[i..], post)
    decreases |items| - i
  {
    if i < |items| {
      var a' := FormatOne(a, pre, items[i], post);
      FormatEachListed(a', pre, items, post, i + 1);
      assert items[i..][1..] == items[i + 1..] && items[i..][0] == items[i];
      var w := Word(pre, items[i], post);
      assert Listed(pre, items[i..], post) == w + Listed(pre, items[i + 1..], post);
      Assoc(Text(a), w, Listed(pre, items[i + 1..], post));
    } else {
      assert items[i..] == [];
    }
  }

  /** Every item of the list, formatted in order. */
  lemma FormatAll(a: Str, pre: seq<char>, items: seq<Str>, post: seq<char>)
    requires '%' !in pre && NUL !in pre && '%' !in post && NUL !in post
    requires WellFormed(a) && AllWellFormed(items)
    ensures Text(FormatEach(a, pre, items, post, 0)) == Text(a) + Listed(pre, items, post)
  {
    FormatEachListed(a, pre, items, post, 0);
    assert items[0..] == items;
  }

  // ---------------------------------------------------------------------
  // set_compiler_stub
  // ---------------------------------------------------------------------

  /** `set_compiler_stub`: `gcc -c `, then `-D<define> ` for every define
      and `<flag> ` for every flag, in configuration order. */
  function SetCompilerStub(conf: CbConf.Config, str: Str): (r: Str)
    requires conf.Valid() && WellFormed(str)
    ensures WellFormed(r)
  {
    var gcc := Lit("gcc -c ");
    assert gcc[7] == NUL;
    var s0 := ConcatCStr(str, gcc, 8);
    var s1 := FormatEach(s0, "-D", conf.defines, " ", 0);
    FormatEach(s1, "", conf.flags, " ", 0)
  }

  /** The text the stub holds. */
  lemma StubText(conf: CbConf.Config, str: Str)
    requires conf.Valid() && WellFormed(str)
    ensures Text(SetCompilerStub(conf, str))
         == Text(str) + "gcc -c " + Listed("-D", conf.defines, " ") + Listed("", conf.flags, " ")
  {
    var gcc := Lit("gcc -c ");
    assert gcc[7] == NUL && gcc[..7] == "gcc -c ";
    var s0 := ConcatCStr(str, gcc, 8);
    FormatAll(s0, "-D", conf.defines, " ");
    FormatAll(FormatEach(s0, "-D", conf.defines, " ", 0), "", conf.flags, " ");
  }

  // ---------------------------------------------------------------------
  // Paths and the compile command.
  // ---------------------------------------------------------------------

  /** A file name with its last character turned into `o`. */
  function ObjectName(name: seq<char>): seq<char>
    requires |name| >= 1
  {
    name[..|name| - 1] + "o"
  }

  /** `obj/linux/<rule>/` and the bytes of the parent directory past the
      source root's length. */
  function ObjectDir(conf: CbConf.Config, parent: Str): (r: Str)
    requires conf.Valid() && WellFormed(parent)
    ensures WellFormed(r) && |Text(r)| >= 11
  {
    var o0 := FormatOne(WithCap(32), "obj/linux/", conf.rule, "/");
    assert |Text(o0)| >= 11;
    ConcatSlice(o0, parent, conf.source.len)
  }

  /** `object.data[object.len-2] = 'o'`: the last visible character of a
      terminated string becomes `o`. */
  function MarkObject(s: Str): (r: Str)
    requires WellFormed(s) && s.len >= 2
    ensures WellFormed(r) && Text(r) == ObjectName(Text(s))
  {
    Str(s.data[s.len - 2 := 'o'], s.len)
  }

  /** The object path of a source file: `obj/linux/<rule>/`, the bytes of
      the parent directory past the source root's length, a `/` unless the
      parent is the source root itself, the file name; then its last
      character becomes `o`. */
  function ObjectPath(conf: CbConf.Config, parent: Str, name: Str): (r: Str)
    requires conf.Valid() && WellFormed(parent) && WellFormed(name)
    ensures WellFormed(r)
  {
    var o1 := ObjectDir(conf, parent);
    var o2 := if parent.len != conf.source.len then FormatOne(o1, "/", name, "")
              else FormatOne(o1, "", name, "");
    MarkObject(o2)
  }

  /** The object name after a directory: what remains after the last
      step marks the whole path. */
  lemma MarkAfter(dir: seq<char>, sep: seq<char>, name: Str)
    requires WellFormed(name) && name.len >= 2
    ensures ObjectName(dir + Word(sep, name, "")) == dir + sep + ObjectName(Text(name))
  {
    var t := Text(name);
    assert Word(sep, name, "") == sep + t;
    assert t == t[..|t| - 1] + [t[|t| - 1]];
    Assoc(dir + sep, t[..|t| - 1], [t[|t| - 1]]);
    Assoc(dir, sep, t);
  }

  /** `obj/linux/<rule>/`, where the objects of a rule go. */
  function ObjectRoot(rule: Str): seq<char>
    requires rule.Valid()
  {
    "obj/linux/" + Text(rule) + "/"
  }

  lemma ObjectDirText(conf: CbConf.Config, parent: Str)
    requires conf.Valid() && WellFormed(parent)
    ensures Text(ObjectDir(conf, parent))
         == ObjectRoot(conf.rule)
            + (if conf.source.len < parent.len then parent.data[conf.source.len..parent.len - 1] else [])
  {
    var o0 := FormatOne(WithCap(32), "obj/linux/", conf.rule, "/");
    assert Text(WithCap(32)) == [];
    assert Text(o0) == Word("obj/linux/", conf.rule, "/");
    assert ObjectDir(conf, parent) == ConcatSlice(o0, parent, conf.source.len);
  }

  /** The bytes past the source root of a sub-directory `rel` of it. */
  lemma SliceOfNested(source: Str, parent: Str, rel: seq<char>)
    requires WellFormed(source) && WellFormed(parent) && source.len >= 1
    requires Text(parent) == Text(source) + "/" + rel
    ensures source.len < parent.len && parent.data[source.len..parent.len - 1] == rel
  {
    var n := source.len;
    assert parent.len == n + 1 + |rel|;
    assert parent.data[..parent.len - 1] == Text(source) + "/" + rel;
  }

  /** For a file in a sub-directory `rel` of the source root, the object
      path mirrors the sub-directory under `obj/linux/<rule>/`. */
  lemma ObjectPathNested(conf: CbConf.Config, parent: Str, name: Str, rel: seq<char>)
    requires conf.Valid() && WellFormed(parent) && WellFormed(name)
    requires conf.source.len >= 1 && name.len >= 2
    requires Text(parent) == Text(conf.source) + "/" + rel
    ensures Text(ObjectPath(conf, parent, name))
         == ObjectRoot(conf.rule) + rel + "/" + ObjectName(Text(name))
  {
    SliceOfNested(conf.source, parent, rel);
    ObjectDirText(conf, parent);
    var o1 := ObjectDir(conf, parent);
    var o2 := FormatOne(o1, "/", name, "");
    assert ObjectPath(conf, parent, name) == MarkObject(o2);
    MarkAfter(Text(o1), "/", name);
  }

  /** For a file whose directory is as long as the source root (the root
      itself), the object path is `obj/linux/<rule>/` and the object name,
      with no separator. */
  lemma ObjectPathAtRoot(conf: CbConf.Config, parent: Str, name: Str)
    requires conf.Valid() && WellFormed(parent) && WellFormed(name) && name.len >= 2
    requires parent.len == conf.source.len
    ensures Text(ObjectPath(conf, parent, name))
         == ObjectRoot(conf.rule) + ObjectName(Text(name))
  {
    ObjectDirText(conf, parent);
    var o1 := ObjectDir(conf, parent);
    var dir := ObjectRoot(conf.rule);
    assert Text(o1) == dir + [] == dir;
    var o2 := FormatOne(o1, "", name, "");
    assert Text(o2) == dir + Word("", name, "");
    assert ObjectPath(conf, parent, name) == MarkObject(o2);
    MarkAfter(dir, "", name);
    assert dir + "" == dir;
  }

  /** The format `%s -o %s`. */
  function CommandFormat(): (ps: seq<Piece>)
    ensures PiecesOk(ps) && Holes(ps) == 2
    ensures Render(ps) == "%s -o %s"
  {
    var ps := [Hole, Chars(" -o "), Hole];
    assert ps[1..] == [Chars(" -o "), Hole] && ps[2..] == [Hole] && ps[3..] == [];
    assert Render(ps[2..]) == "%s" + Render(ps[3..]);
    assert Render(ps[1..]) == " -o " + Render(ps[2..]);
    assert Holes(ps[2..]) == 1;
    assert Holes(ps[1..]) == 1;
    ps
  }

  /** The command for one file: the stub, the source path, ` -o `, the
      object path. */
  function CompileCommand(stub: Str, path: Str, objPath: Str): (r: Str)
    requires WellFormed(stub) && WellFormed(path) && WellFormed(objPath)
    ensures WellFormed(r)
    ensures Text(r) == Text(stub) + (Text(path) + (" -o " + Text(objPath)))
  {
    var ps := CommandFormat();
    assert ps[1..] == [Chars(" -o "), Hole] && ps[2..] == [Hole] && ps[3..] == [];
    var args := [path, objPath];
    assert args[1..] == [objPath] && args[1..][1..] == [] && args[1..][0] == objPath;
    assert Expand(ps[2..], args[1..]) == Text(objPath) + Expand(ps[3..], []);
    assert Expand(ps[1..], args[1..]) == " -o " + Expand(ps[2..], args[1..]);
    assert Expand(ps, args) == Text(path) + Expand(ps[1..], args[1..]);
    Format(stub, ps, args)
  }

  // ---------------------------------------------------------------------
  // needs_compile
  // ---------------------------------------------------------------------

  /** `needs_compile`: the decision, and the row `*entry` points to (`None`
      for `NULL`). */
  function NeedsCompile(t: Table, objPath: Str, file: DirEntry, parent: Str,
                        fileExists: seq<char> -> bool): (r: (bool, Option<nat>))
    requires t.Valid() && file.name.Valid() && parent.Valid()
    ensures r.1 == Search(t, file.name, parent)
    ensures (forall k :: 0 <= k < |t.entries| ==> !Matches(t.entries[k], file.name, parent)) ==> r.0
    ensures !r.0 ==> r.1.Some? && Matches(t.entries[r.1.value], file.name, parent)
                     && file.writeTime <= t.entries[r.1.value].writeTime && fileExists(CStr(objPath))
    ensures r.1.Some? && file.writeTime > t.entries[r.1.value].writeTime ==> r.0
    ensures r.1.Some? && !fileExists(CStr(objPath)) ==> r.0
    // Recompile exactly when there is no row, the row is older, or the object is gone.
    ensures r.0 <==> r.1.None? || file.writeTime > t.entries[r.1.value].writeTime || !fileExists(CStr(objPath))
  {
    var entry := Search(t, file.name, parent);
    if entry.None? then (true, entry)
    else if file.writeTime > t.entries[entry.value].writeTime then (true, entry)
    else (!fileExists(CStr(objPath)), entry)
  }

  // ---------------------------------------------------------------------
  // compile: the per-file loop.
  // ---------------------------------------------------------------------

  /** The strings the link command is made of are terminated: every
      recorded object path and every object in the link set. */
  predicate Terminated(b: Build) {
    ObjectsTerminated(b.table) && AllWellFormed(b.objects)
  }

  /** The file counts as a C source: the character at `len-2`, its last
      visible one, is `c`. */
  predicate IsC(name: Str)
    requires name.Valid() && name.len >= 2
    ensures WellFormed(name) ==> (IsC(name) <==> Text(name)[|Text(name)| - 1] == 'c')
  {
    name.data[name.len - 2] == 'c'
  }

  /** What `compile` carries from one file to the next: the static
      `timetable`, the link set `objects`, `built`, and the commands handed
      to `system` so far; `failed` once a compile has failed. */
  datatype Build = Build(table: Table, objects: seq<Str>, built: bool,
                         commands: seq<seq<char>>, failed: bool)
  {
    predicate Valid() {
      table.Valid() && AllValid(objects)
    }
  }

  /** `<parent>/<name>`, the path of a source file. */
  function SourcePath(parent: Str, name: Str): seq<char>
    requires parent.Valid() && name.Valid()
  {
    Text(parent) + "/" + Text(name)
  }

  /** `cbstr_copy(parent)` followed by `/%s` of the name. */
  function PathOf(parent: Str, name: Str): (r: Str)
    requires WellFormed(parent) && WellFormed(name)
    ensures WellFormed(r) && Text(r) == SourcePath(parent, name)
  {
    var r := FormatOne(Copy(parent), "/", name, "");
    assert Word("/", name, "") == "/" + Text(name) + [];
    assert "/" + Text(name) + [] == "/" + Text(name);
    Assoc(Text(parent), "/", Text(name));
    r
  }

  /** The object path of a file and the command that compiles it: the stub,
      the source path, ` -o `, the object path. */
  function Job(conf: CbConf.Config, stub: Str, parent: Str, name: Str): (r: (Str, Str))
    requires conf.Valid() && WellFormed(stub) && WellFormed(parent) && WellFormed(name)
    ensures WellFormed(r.0) && WellFormed(r.1)
    ensures r.0 == ObjectPath(conf, parent, name)
    ensures Text(r.1) == Text(stub) + (SourcePath(parent, name) + (" -o " + Text(r.0)))
  {
    var objPath := ObjectPath(conf, parent, name);
    (objPath, CompileCommand(stub, PathOf(parent, name), objPath))
  }

  /** What recording a compiled file does to the table, gathered for the
      loop. */
  lemma UpsertFacts(t: Table, file: Str, parent: Str, obj: Str, time: int)
    requires t.Valid() && file.Valid() && parent.Valid() && obj.Valid()
    ensures var r := Upsert(t, Search(t, file, parent), file, parent, obj, time);
            KeysKept(t, r) && Search(r, file, parent).Some? && (UniqueKeys(t) ==> UniqueKeys(r))
  {
    UpsertKeepsKeys(t, file, parent, obj, time);
    UpsertFinds(t, file, parent, obj, time);
    if UniqueKeys(t) {
      UpsertKeepsKeysUnique(t, file, parent, obj, time);
    }
  }

  /** A file that needs compiling: its object joins the link set, the
      command is issued, and its exit code either records the file or ends
      the loop. */
  function RunCompile(b: Build, file: DirEntry, parent: Str, objPath: Str, cmd: seq<char>, exit: int): (r: Build)
    requires b.Valid() && file.name.Valid() && parent.Valid() && objPath.Valid()
    ensures r.Valid() && r.table.buildSuccess == b.table.buildSuccess
    ensures r.objects == b.objects + [objPath] && r.commands == b.commands + [cmd] && r.built
    ensures r.failed == (b.failed || exit != 0)
    ensures KeysKept(b.table, r.table)
    ensures UniqueKeys(b.table) ==> UniqueKeys(r.table)
    ensures exit == 0 ==> Search(r.table, file.name, parent).Some?
    ensures exit == 0 ==>
              r.table == Upsert(b.table, Search(b.table, file.name, parent), file.name, parent, objPath, file.writeTime)
    ensures exit != 0 ==> r.table == b.table
  {
    var b' := b.(objects := ListPush(b.objects, objPath), built := true, commands := b.commands + [cmd]);
    UpsertFacts(b.table, file.name, parent, objPath, file.writeTime);
    if exit == 0 then b'.(table := Upsert(b.table, Search(b.table, file.name, parent), file.name, parent, objPath, file.writeTime))
    else b'.(failed := true)
  }

  /** The rest of a turn once the object path and command are built:
      `needs_compile` decides; an up-to-date file contributes the object
      recorded in its row; otherwise the new object joins the link set, the
      command is run, and its exit code either records the file or ends the
      loop. */
  function Decide(b: Build, file: DirEntry, parent: Str, objPath: Str, cmd: seq<char>,
                  fileExists: seq<char> -> bool, system: seq<char> -> int): (r: Build)
    requires b.Valid() && file.name.Valid() && parent.Valid() && objPath.Valid()
    ensures r.Valid() && r.table.buildSuccess == b.table.buildSuccess
    ensures |r.objects| == |b.objects| + 1 && b.objects <= r.objects
    ensures b.commands <= r.commands && |r.commands| <= |b.commands| + 1
    ensures r.built == (b.built || |r.commands| > |b.commands|)
    ensures r.failed == (b.failed || (|r.commands| > |b.commands| && system(r.commands[|b.commands|]) != 0))
    ensures KeysKept(b.table, r.table)
    ensures UniqueKeys(b.table) ==> UniqueKeys(r.table)
    ensures !r.failed ==> Search(r.table, file.name, parent).Some?
    ensures var decision := NeedsCompile(b.table, objPath, file, parent, fileExists);
            && (!decision.0 ==> r == b.(objects := r.objects)
                                && r.objects[|b.objects|] == Copy(b.table.entries[decision.1.value].obj))
            && (decision.0 ==> r.objects[|b.objects|] == objPath && r.commands == b.commands + [cmd])
            && (decision.0 && system(cmd) == 0 ==>
                  r.table == Upsert(b.table, decision.1, file.name, parent, objPath, file.writeTime))
  {
    var decision := NeedsCompile(b.table, objPath, file, parent, fileExists);
    if !decision.0 then
      b.(objects := ListPush(b.objects, Copy(b.table.entries[decision.1.value].obj)))
    else
      RunCompile(b, file, parent, objPath, cmd, system(cmd))
  }

  /** A turn adds only terminated strings to the link set and the table. */
  lemma DecideKeepsTerminated(b: Build, file: DirEntry, parent: Str, objPath: Str, cmd: seq<char>,
                              fileExists: seq<char> -> bool, system: seq<char> -> int)
    requires b.Valid() && file.name.Valid() && parent.Valid() && WellFormed(objPath) && Terminated(b)
    ensures Terminated(Decide(b, file, parent, objPath, cmd, fileExists, system))
  {
    var r := Decide(b, file, parent, objPath, cmd, fileExists, system);
    var decision := NeedsCompile(b.table, objPath, file, parent, fileExists);
    UpsertKeepsObjectsTerminated(b.table, decision.1, file.name, parent, objPath, file.writeTime);
    assert WellFormed(r.objects[|b.objects|]);
    assert r.objects == b.objects + [r.objects[|b.objects|]];
  }

  /** The directory a file was found in. */
  function ParentOf(tree: Tree, i: nat): (r: Str)
    requires tree.Valid() && i < |tree.entries|
    ensures WellFormed(r)
  {
    ListGet(tree.dirNames, tree.entries[i].parent).value
  }

  /** File `i` is C source and the table has a row for it. */
  predicate Recorded(tree: Tree, t: Table, i: nat)
    requires tree.Valid() && t.Valid() && i < |tree.entries|
  {
    IsC(tree.entries[i].name) ==> Search(t, tree.entries[i].name, ParentOf(tree, i)).Some?
  }

  /** One turn of the loop for file `i`. A file that is not C source is
      passed over; otherwise the object path and command are built, and
      `needs_compile` decides. */
  function StepFile(conf: CbConf.Config, tree: Tree, stub: Str, fileExists: seq<char> -> bool,
                    system: seq<char> -> int, i: nat, b: Build): (r: Build)
    requires conf.Valid() && tree.Valid() && WellFormed(stub) && i < |tree.entries| && b.Valid()
    ensures r.Valid() && r.table.buildSuccess == b.table.buildSuccess
    ensures !IsC(tree.entries[i].name) ==> r == b
    ensures IsC(tree.entries[i].name) ==>
              |r.objects| == |b.objects| + 1 && b.objects <= r.objects
    ensures b.commands <= r.commands && |r.commands| <= |b.commands| + 1
    ensures r.built == (b.built || |r.commands| > |b.commands|)
    ensures r.failed == (b.failed || (|r.commands| > |b.commands| && system(r.commands[|b.commands|]) != 0))
    ensures KeysKept(b.table, r.table)
    ensures !r.failed ==> Recorded(tree, r.table, i)
  {
    var file := tree.entries[i];
    if !IsC(file.name) then b
    else
      var parent := ParentOf(tree, i);
      var job := Job(conf, stub, parent, file.name);
      Decide(b, file, parent, job.0, CStr(job.1), fileExists, system)
  }

  /** A C file whose row is at least as new as the file and whose object
      is on disk issues no command: the turn only adds a copy of the
      recorded object to the link set. Any other C file issues its compile
      command. */
  lemma StepFileSkipsUpToDate(conf: CbConf.Config, tree: Tree, stub: Str, fileExists: seq<char> -> bool,
                              system: seq<char> -> int, i: nat, b: Build)
    requires conf.Valid() && tree.Valid() && WellFormed(stub) && i < |tree.entries| && b.Valid()
    requires IsC(tree.entries[i].name)
    ensures var file := tree.entries[i];
            var parent := ParentOf(tree, i);
            var row := Search(b.table, file.name, parent);
            var r := StepFile(conf, tree, stub, fileExists, system, i, b);
            var upToDate := row.Some? && file.writeTime <= b.table.entries[row.value].writeTime
                            && fileExists(CStr(ObjectPath(conf, parent, file.name)));
            && (upToDate <==> r.commands == b.commands)
            && (upToDate ==> r == b.(objects := b.objects + [Copy(b.table.entries[row.value].obj)]))
            && (!upToDate ==> r.commands == b.commands + [CStr(Job(conf, stub, parent, file.name).1)])
  {
    var file := tree.entries[i];
    var parent := ParentOf(tree, i);
    var job := Job(conf, stub, parent, file.name);
    assert StepFile(conf, tree, stub, fileExists, system, i, b)
        == Decide(b, file, parent, job.0, CStr(job.1), fileExists, system);
    DecideSkipsUpToDate(b, file, parent, job.0, CStr(job.1), fileExists, system);
  }

  /** One turn, for any object path and command: no command exactly for an
      up-to-date file, which only adds a copy of its row's object. */
  lemma DecideSkipsUpToDate(b: Build, file: DirEntry, parent: Str, objPath: Str, cmd: seq<char>,
                            fileExists: seq<char> -> bool, system: seq<char> -> int)
    requires b.Valid() && file.name.Valid() && parent.Valid() && objPath.Valid()
    ensures var row := Search(b.table, file.name, parent);
            var r := Decide(b, file, parent, objPath, cmd, fileExists, system);
            var upToDate := row.Some? && file.writeTime <= b.table.entries[row.value].writeTime
                            && fileExists(CStr(objPath));
            && (upToDate <==> r.commands == b.commands)
            && (upToDate ==> r == b.(objects := b.objects + [Copy(b.table.entries[row.value].obj)]))
            && (!upToDate ==> r.commands == b.commands + [cmd])
  {
    var decision := NeedsCompile(b.table, objPath, file, parent, fileExists);
    var r := Decide(b, file, parent, objPath, cmd, fileExists, system);
    if !decision.0 {
      assert r.objects == b.objects + [r.objects[|b.objects|]];
    } else {
      assert |r.commands| == |b.commands| + 1;
    }
  }

  /** How many of the files from `i` on are C sources. */
  function CFiles(tree: Tree, i: nat): nat
    requires tree.Valid() && i <= |tree.entries|
    decreases |tree.entries| - i
  {
    if i == |tree.entries| then 0
    else (if IsC(tree.entries[i].name) then 1 else 0) + CFiles(tree, i + 1)
  }

  /** The loop from file `i` on; it returns at the first failed compile. */
  function CompileFiles(conf: CbConf.Config, tree: Tree, stub: Str, fileExists: seq<char> -> bool,
                        system: seq<char> -> int, i: nat, b: Build): (r: Build)
    requires conf.Valid() && tree.Valid() && WellFormed(stub) && i <= |tree.entries| && b.Valid() && !b.failed
    ensures r.Valid() && r.table.buildSuccess == b.table.buildSuccess
    ensures b.objects <= r.objects
    ensures !r.failed ==> |r.objects| == |b.objects| + CFiles(tree, i)
    ensures b.commands <= r.commands
    ensures r.built == (b.built || |r.commands| > |b.commands|)
    ensures KeysKept(b.table, r.table)
    decreases |tree.entries| - i
  {
    if i == |tree.entries| then b
    else
      var b' := StepFile(conf, tree, stub, fileExists, system, i, b);
      if b'.failed then b'
      else
        var r := CompileFiles(conf, tree, stub, fileExists, system, i + 1, b');
        KeysKeptTransitive(b.table, b'.table, r.table);
        assert b.objects <= b'.objects && b.commands <= b'.commands;
        r
  }

  /** The commands from index `from` on: all but the last exited with 0,
      and `failed` says whether the last did not. */
  predicate Settled(system: seq<char> -> int, cmds: seq<seq<char>>, from: nat, failed: bool)
    requires from <= |cmds|
  {
    && (failed <==> |cmds| > from && system(cmds[|cmds| - 1]) != 0)
    && (forall k :: from <= k < |cmds| - 1 ==> system(cmds[k]) == 0)
  }

  /** One turn issues at most one command, and fails when it does. */
  lemma TurnSettled(system: seq<char> -> int, c0: seq<seq<char>>, c1: seq<seq<char>>, failed: bool)
    requires |c0| <= |c1| <= |c0| + 1
    requires failed == (|c1| > |c0| && system(c1[|c0|]) != 0)
    ensures Settled(system, c1, |c0|, failed)
  {
  }

  /** A turn that did not fail, followed by the rest of the loop. */
  lemma ThenSettled(system: seq<char> -> int, c0: seq<seq<char>>, c1: seq<seq<char>>, c2: seq<seq<char>>, failed: bool)
    requires c0 <= c1 <= c2 && |c1| <= |c0| + 1
    requires Settled(system, c1, |c0|, false) && Settled(system, c2, |c1|, failed)
    ensures Settled(system, c2, |c0|, failed)
  {
    if |c1| > |c0| {
      assert c2[|c0|] == c1[|c0|];
    }
  }

  /** The loop stops at the first failed compile: every command it issued
      before the last exited with 0, and it failed exactly when the last one
      did not. */
  lemma {:induction false} LoopStopsAtFailure(conf: CbConf.Config, tree: Tree, stub: Str, fileExists: seq<char> -> bool,
                                              system: seq<char> -> int, i: nat, b: Build)
    requires conf.Valid() && tree.Valid() && WellFormed(stub) && i <= |tree.entries| && b.Valid() && !b.failed
    ensures var r := CompileFiles(conf, tree, stub, fileExists, system, i, b);
            Settled(system, r.commands, |b.commands|, r.failed)
    decreases |tree.entries| - i
  {
    if i < |tree.entries| {
      var b' := StepFile(conf, tree, stub, fileExists, system, i, b);
      TurnSettled(system, b.commands, b'.commands, b'.failed);
      if !b'.failed {
        LoopStopsAtFailure(conf, tree, stub, fileExists, system, i + 1, b');
        var r := CompileFiles(conf, tree, stub, fileExists, system, i + 1, b');
        ThenSettled(system, b.commands, b'.commands, r.commands, r.failed);
      }
    }
  }

  /** Every C file from `from` on has a row in `t`. */
  predicate AllRecorded(tree: Tree, t: Table, from: nat)
    requires tree.Valid() && t.Valid() && from <= |tree.entries|
  {
    forall j :: from <= j < |tree.entries| ==> Recorded(tree, t, j)
  }

  /** A row, once there, stays while the table keeps its keys. */
  lemma RecordedKept(tree: Tree, t: Table, u: Table, i: nat)
    requires tree.Valid() && t.Valid() && u.Valid() && i < |tree.entries| && KeysKept(t, u)
    requires Recorded(tree, t, i)
    ensures Recorded(tree, u, i)
  {
    if IsC(tree.entries[i].name) {
      KeysKeptFinds(t, u, tree.entries[i].name, ParentOf(tree, i));
    }
  }

  lemma AllRecordedFrom(tree: Tree, t: Table, i: nat)
    requires tree.Valid() && t.Valid() && i < |tree.entries|
    requires Recorded(tree, t, i) && AllRecorded(tree, t, i + 1)
    ensures AllRecorded(tree, t, i)
  {
  }

  /** A file recorded before the rest of the loop stays recorded after it. */
  lemma RecordedThen(tree: Tree, t: Table, u: Table, i: nat)
    requires tree.Valid() && t.Valid() && u.Valid() && i < |tree.entries| && KeysKept(t, u)
    requires Recorded(tree, t, i) && AllRecorded(tree, u, i + 1)
    ensures AllRecorded(tree, u, i)
  {
    RecordedKept(tree, t, u, i);
    AllRecordedFrom(tree, u, i);
  }

  /** When no compile failed, every C file from `i` on has a row in the
      table the loop leaves behind. */
  lemma {:induction false} LoopRecordsEveryFile(conf: CbConf.Config, tree: Tree, stub: Str, fileExists: seq<char> -> bool,
                                                system: seq<char> -> int, i: nat, b: Build)
    requires conf.Valid() && tree.Valid() && WellFormed(stub) && i <= |tree.entries| && b.Valid() && !b.failed
    ensures var r := CompileFiles(conf, tree, stub, fileExists, system, i, b);
            !r.failed ==> AllRecorded(tree, r.table, i)
    decreases |tree.entries| - i, 1
  {
    if i < |tree.entries| {
      RecordsTurn(conf, tree, stub, fileExists, system, i, b);
    }
  }

  /** The step of `LoopRecordsEveryFile`: the rest of the loop records the
      files after `i`, and file `i`'s row, once made, stays. */
  lemma {:induction false} RecordsTurn(conf: CbConf.Config, tree: Tree, stub: Str, fileExists: seq<char> -> bool,
                                       system: seq<char> -> int, i: nat, b: Build)
    requires conf.Valid() && tree.Valid() && WellFormed(stub) && i < |tree.entries| && b.Valid() && !b.failed
    ensures var r := CompileFiles(conf, tree, stub, fileExists, system, i, b);
            !r.failed ==> AllRecorded(tree, r.table, i)
    decreases |tree.entries| - i, 0
  {
    var b' := StepFile(conf, tree, stub, fileExists, system, i, b);
    if !b'.failed {
      LoopRecordsEveryFile(conf, tree, stub, fileExists, system, i + 1, b');
      var r := CompileFiles(conf, tree, stub, fileExists, system, i + 1, b');
      assert CompileFiles(conf, tree, stub, fileExists, system, i, b) == r;
      if !r.failed {
        RecordedThen(tree, b'.table, r.table, i);
      }
    }
  }

  lemma StepKeepsKeysUnique(conf: CbConf.Config, tree: Tree, stub: Str, fileExists: seq<char> -> bool,
                             system: seq<char> -> int, i: nat, b: Build)
    requires conf.Valid() && tree.Valid() && WellFormed(stub) && i < |tree.entries| && b.Valid()
    requires UniqueKeys(b.table)
    ensures UniqueKeys(StepFile(conf, tree, stub, fileExists, system, i, b).table)
  {
  }

  lemma StepKeepsTerminated(conf: CbConf.Config, tree: Tree, stub: Str, fileExists: seq<char> -> bool,
                             system: seq<char> -> int, i: nat, b: Build)
    requires conf.Valid() && tree.Valid() && WellFormed(stub) && i < |tree.entries| && b.Valid() && Terminated(b)
    ensures Terminated(StepFile(conf, tree, stub, fileExists, system, i, b))
  {
    var file := tree.entries[i];
    if IsC(file.name) {
      var parent := ParentOf(tree, i);
      var job := Job(conf, stub, parent, file.name);
      DecideKeepsTerminated(b, file, parent, job.0, CStr(job.1), fileExists, system);
    }
  }

  /** The link set the loop builds holds terminated strings only, when the
      table's object paths are terminated. */
  lemma {:induction false} LoopKeepsTerminated(conf: CbConf.Config, tree: Tree, stub: Str, fileExists: seq<char> -> bool,
                                               system: seq<char> -> int, i: nat, b: Build)
    requires conf.Valid() && tree.Valid() && WellFormed(stub) && i <= |tree.entries| && b.Valid() && !b.failed
    requires Terminated(b)
    ensures Terminated(CompileFiles(conf, tree, stub, fileExists, system, i, b))
    decreases |tree.entries| - i
  {
    if i < |tree.entries| {
      var b' := StepFile(conf, tree, stub, fileExists, system, i, b);
      StepKeepsTerminated(conf, tree, stub, fileExists, system, i, b);
      if !b'.failed {
        LoopKeepsTerminated(conf, tree, stub, fileExists, system, i + 1, b');
      }
    }
  }

  /** The loop never gives two rows the same keys. */
  lemma {:induction false} LoopKeepsKeysUnique(conf: CbConf.Config, tree: Tree, stub: Str, fileExists: seq<char> -> bool,
                                               system: seq<char> -> int, i: nat, b: Build)
    requires conf.Valid() && tree.Valid() && WellFormed(stub) && i <= |tree.entries| && b.Valid() && !b.failed
    requires UniqueKeys(b.table)
    ensures UniqueKeys(CompileFiles(conf, tree, stub, fileExists, system, i, b).table)
    decreases |tree.entries| - i
  {
    if i < |tree.entries| {
      var b' := StepFile(conf, tree, stub, fileExists, system, i, b);
      StepKeepsKeysUnique(conf, tree, stub, fileExists, system, i, b);
      if !b'.failed {
        LoopKeepsKeysUnique(conf, tree, stub, fileExists, system, i + 1, b');
      }
    }
  }

  // ---------------------------------------------------------------------
  // compile: the link.
  // ---------------------------------------------------------------------

  /** The command buffer: `COMMAND_SIZE` bytes holding the stub. */
  function Stub(conf: CbConf.Config): (r: Str)
    requires conf.Valid()
    ensures WellFormed(r)
  {
    SetCompilerStub(conf, WithCap(CommandSize))
  }

  /** The state the loop starts from: the loaded table, no objects, nothing
      built. */
  function Start(t: Table): (b: Build)
    requires t.Valid()
    ensures b.Valid() && !b.failed && !b.built && b.objects == [] && b.commands == []
  {
    Build(t, [], false, [], false)
  }

  /** The per-file loop over the whole tree. */
  function Loop(conf: CbConf.Config, tree: Tree, t: Table, fileExists: seq<char> -> bool,
                system: seq<char> -> int): (b: Build)
    requires conf.Valid() && tree.Valid() && t.Valid()
    ensures b.Valid() && b.table.buildSuccess == t.buildSuccess && KeysKept(t, b.table)
    ensures b.built == (b.commands != [])
    ensures !b.failed ==> |b.objects| == CFiles(tree, 0)
  {
    CompileFiles(conf, tree, Stub(conf), fileExists, system, 0, Start(t))
  }

  /** `conf->project` after `-%s.out` of the rule: the executable. */
  function ProjectFile(conf: CbConf.Config): (r: Str)
    requires conf.Valid()
    ensures WellFormed(r) && Text(r) == Text(conf.project) + Word("-", conf.rule, ".out")
  {
    FormatOne(conf.project, "-", conf.rule, ".out")
  }

  /** The cleared command buffer, `gcc -g -o <project> `, then `<object> `
      for every object in link order. */
  function LinkCommand(buf: Str, project: Str, objects: seq<Str>): (r: Str)
    requires buf.Valid() && WellFormed(project) && AllValid(objects)
    ensures r.Valid()
    ensures AllWellFormed(objects) ==> WellFormed(r)
  {
    FormatEach(FormatOne(Clear(buf), "gcc -g -o ", project, " "), "", objects, " ", 0)
  }

  lemma LinkCommandText(buf: Str, project: Str, objects: seq<Str>)
    requires buf.Valid() && WellFormed(project) && AllWellFormed(objects)
    ensures Text(LinkCommand(buf, project, objects))
         == Word("gcc -g -o ", project, " ") + Listed("", objects, " ")
  {
    var l0 := FormatOne(Clear(buf), "gcc -g -o ", project, " ");
    var w := Word("gcc -g -o ", project, " ");
    assert Text(Clear(buf)) == [];
    assert [] + w == w;
    assert Text(l0) == w;
    assert LinkCommand(buf, project, objects) == FormatEach(l0, "", objects, " ", 0);
    FormatAll(l0, "", objects, " ");
  }

  /** How `compile` ended: a compile failed, the executable was up to date,
      or the link ran with this exit code. */
  datatype Outcome = Aborted | UpToDate | Linked(exit: int)

  /** What `compile` leaves behind: the timetable, the link set, every
      command handed to `system` in order, and the outcome. */
  datatype Compiled = Compiled(table: Table, objects: seq<Str>, commands: seq<seq<char>>, outcome: Outcome)

  /** What follows a loop that did not fail: the link is skipped when
      nothing was compiled, the last link succeeded and the executable
      exists; otherwise it runs and its success becomes `build_success`. */
  function Finish(conf: CbConf.Config, b: Build, fileExists: seq<char> -> bool, system: seq<char> -> int): (r: Compiled)
    requires conf.Valid() && b.Valid()
    ensures r.table.entries == b.table.entries && r.objects == b.objects && b.commands <= r.commands
    ensures r.outcome.UpToDate? <==> !b.built && b.table.buildSuccess && fileExists(CStr(ProjectFile(conf)))
    ensures r.outcome.UpToDate? ==> r.table == b.table && r.commands == b.commands
    ensures r.outcome.Linked? ==> |r.commands| == |b.commands| + 1
                                  && r.outcome.exit == system(r.commands[|b.commands|])
                                  && r.table.buildSuccess == (r.outcome.exit == 0)
    ensures !r.outcome.Aborted?
  {
    var project := ProjectFile(conf);
    if !b.built && b.table.buildSuccess && fileExists(CStr(project)) then
      Compiled(b.table, b.objects, b.commands, UpToDate)
    else
      var cmd := CStr(LinkCommand(Stub(conf), project, b.objects));
      var exit := system(cmd);
      Compiled(b.table.(buildSuccess := exit == 0), b.objects, b.commands + [cmd], Linked(exit))
  }

  /** `compile`: the per-file loop; then, unless it failed, the link unless
      nothing was compiled, the last link succeeded and the executable
      exists. The link's success becomes `build_success`. */
  function Compile(conf: CbConf.Config, tree: Tree, t: Table, fileExists: seq<char> -> bool,
                   system: seq<char> -> int): (r: Compiled)
    requires conf.Valid() && tree.Valid() && t.Valid()
    ensures r.table.Valid() && KeysKept(t, r.table)
    ensures !r.outcome.Linked? ==> r.table.buildSuccess == t.buildSuccess
    ensures r.outcome.Linked? ==> r.commands != [] && r.outcome.exit == system(r.commands[|r.commands| - 1])
                                  && r.table.buildSuccess == (r.outcome.exit == 0)
    ensures !r.outcome.Aborted? ==> |r.objects| == CFiles(tree, 0)
  {
    var b := Loop(conf, tree, t, fileExists, system);
    if b.failed then Compiled(b.table, b.objects, b.commands, Aborted)
    else
      var r := Finish(conf, b, fileExists, system);
      assert r.outcome.Linked? ==> |r.commands| - 1 == |b.commands|;
      r
  }

  /** A run of `compile` never gives two rows of the timetable the same
      keys. */
  lemma CompileKeepsKeysUnique(conf: CbConf.Config, tree: Tree, t: Table, fileExists: seq<char> -> bool,
                               system: seq<char> -> int)
    requires conf.Valid() && tree.Valid() && t.Valid() && UniqueKeys(t)
    ensures UniqueKeys(Compile(conf, tree, t, fileExists, system).table)
  {
    LoopKeepsKeysUnique(conf, tree, Stub(conf), fileExists, system, 0, Start(t));
    var b := Loop(conf, tree, t, fileExists, system);
    assert UniqueKeys(b.table.(buildSuccess := !b.table.buildSuccess));
  }

  /** `compile` returns without linking exactly when a compile failed: that
      command is the last one issued, every earlier one exited with 0, and
      `build_success` is left as it was. Otherwise every compile exited
      with 0. */
  lemma CompileAborts(conf: CbConf.Config, tree: Tree, t: Table, fileExists: seq<char> -> bool,
                      system: seq<char> -> int)
    requires conf.Valid() && tree.Valid() && t.Valid()
    ensures var r := Compile(conf, tree, t, fileExists, system);
            var compiles := if r.outcome.Linked? then r.commands[..|r.commands| - 1] else r.commands;
            Settled(system, compiles, 0, r.outcome.Aborted?)
  {
    LoopStopsAtFailure(conf, tree, Stub(conf), fileExists, system, 0, Start(t));
    var b := Loop(conf, tree, t, fileExists, system);
    var r := Compile(conf, tree, t, fileExists, system);
    if r.outcome.Linked? {
      assert r.commands[..|r.commands| - 1] == b.commands;
    }
  }

  /** The link is skipped, the executable counting as up to date, exactly
      when the loop compiled nothing, the previous link succeeded and the
      executable exists. */
  lemma CompileSkipsLink(conf: CbConf.Config, tree: Tree, t: Table, fileExists: seq<char> -> bool,
                         system: seq<char> -> int)
    requires conf.Valid() && tree.Valid() && t.Valid()
    ensures Compile(conf, tree, t, fileExists, system).outcome.UpToDate?
        <==> Loop(conf, tree, t, fileExists, system).commands == [] && t.buildSuccess
             && fileExists(CStr(ProjectFile(conf)))
  {
    LoopStopsAtFailure(conf, tree, Stub(conf), fileExists, system, 0, Start(t));
  }

  /** When the link runs, the last command is `gcc -g -o <project> ` and the
      link set in walk order, and the link set has one object per C file. */
  lemma CompileLinks(conf: CbConf.Config, tree: Tree, t: Table, fileExists: seq<char> -> bool,
                     system: seq<char> -> int)
    requires conf.Valid() && tree.Valid() && t.Valid() && ObjectsTerminated(t)
    ensures var r := Compile(conf, tree, t, fileExists, system);
            r.outcome.Linked? ==>
              && AllWellFormed(r.objects) && |r.objects| == CFiles(tree, 0)
              && var link := LinkCommand(Stub(conf), ProjectFile(conf), r.objects);
                 r.commands[|r.commands| - 1] == CStr(link)
                 && Text(link) == Word("gcc -g -o ", ProjectFile(conf), " ") + Listed("", r.objects, " ")
  {
    LoopKeepsTerminated(conf, tree, Stub(conf), fileExists, system, 0, Start(t));
    var b := Loop(conf, tree, t, fileExists, system);
    if !b.failed {
      FinishLinks(conf, b, fileExists, system);
    }
  }

  /** The link `Finish` issues is the last command, and lists the objects. */
  lemma FinishLinks(conf: CbConf.Config, b: Build, fileExists: seq<char> -> bool, system: seq<char> -> int)
    requires conf.Valid() && b.Valid() && AllWellFormed(b.objects)
    ensures var r := Finish(conf, b, fileExists, system);
            r.outcome.Linked? ==>
              var link := LinkCommand(Stub(conf), ProjectFile(conf), b.objects);
              r.commands[|r.commands| - 1] == CStr(link)
              && Text(link) == Word("gcc -g -o ", ProjectFile(conf), " ") + Listed("", b.objects, " ")
  {
    LinkCommandText(Stub(conf), ProjectFile(conf), b.objects);
  }

  /** A run that did not abort leaves a timetable row for every C file of
      the tree. */
  lemma CompileRecordsEveryFile(conf: CbConf.Config, tree: Tree, t: Table, fileExists: seq<char> -> bool,
                                system: seq<char> -> int)
    requires conf.Valid() && tree.Valid() && t.Valid()
    ensures var r := Compile(conf, tree, t, fileExists, system);
            !r.outcome.Aborted? ==> AllRecorded(tree, r.table, 0)
  {
    LoopRecordsEveryFile(conf, tree, Stub(conf), fileExists, system, 0, Start(t));
    var b := Loop(conf, tree, t, fileExists, system);
    var r := Compile(conf, tree, t, fileExists, system);
    if !r.outcome.Aborted? {
      RecordedSameRows(tree, b.table, r.table);
    }
  }

  /** Whether a file is recorded depends on the rows only. */
  lemma RecordedSameRows(tree: Tree, t: Table, u: Table)
    requires tree.Valid() && t.Valid() && u.entries == t.entries
    requires AllRecorded(tree, t, 0)
    ensures u.Valid() && AllRecorded(tree, u, 0)
  {
    assert forall j :: 0 <= j < |tree.entries| ==> Recorded(tree, t, j);
    forall j | 0 <= j < |tree.entries|
      ensures Recorded(tree, u, j)
    {
      assert Recorded(tree, t, j);
    }
  }

  // ---------------------------------------------------------------------
  // cb_main
  // ---------------------------------------------------------------------

  /** `load_timetable`: the table stored in the file, or an empty one (with
      `build_success` false) when the file cannot be opened or does not hold
      a table of this format. */
  function LoadTimetable(stored: Option<seq<TimeTableBinary.byte>>): (r: Table)
    ensures r.Valid() && ObjectsTerminated(r)
    ensures stored.None? ==> r == Empty()
  {
    match stored
    case None => Empty()
    case Some(bs) =>
      match TimeTableBinary.Decode(bs)
      case None => Empty()
      case Some(t) => t
  }

  /** A file whose header is short or carries another magic number or
      version yields an empty table. */
  lemma LoadRejectsForeignFile(bs: seq<TimeTableBinary.byte>)
    requires |bs| < TimeTableBinary.HeaderSize
          || TimeTableBinary.FromLittleEndian(bs[..2]) != TimeTableBinary.Magic
          || TimeTableBinary.FromLittleEndian(bs[2..4]) != TimeTableBinary.Version
    ensures LoadTimetable(Some(bs)) == Empty()
  {
    TimeTableBinary.DecodeChecksHeader(bs);
  }

  /** What `save_timetable` writes, `load_timetable` reads back. */
  lemma LoadSaved(t: Table)
    requires t.Valid() && TimeTableBinary.Storable(t)
    ensures LoadTimetable(Some(TimeTableBinary.Encode(t))) == t
  {
    TimeTableBinary.DecodeEncode(t);
  }

  /** `.cbuild/<rule>-timetable`, in a buffer of `19 + rule.len` bytes. */
  function TimetablePath(conf: CbConf.Config): (r: Str)
    requires conf.Valid()
    ensures WellFormed(r) && Text(r) == Word(".cbuild/", conf.rule, "-timetable")
  {
    var r := FormatOne(WithCap(19 + conf.rule.len), ".cbuild/", conf.rule, "-timetable");
    assert [] + Word(".cbuild/", conf.rule, "-timetable") == Word(".cbuild/", conf.rule, "-timetable");
    r
  }

  /** One invocation: the timetable path, what `compile` did, and the bytes
      `save_timetable` writes. */
  datatype Run = Run(timetablePath: Str, compiled: Compiled, saved: seq<TimeTableBinary.byte>)

  /** The part of `cb_main` after the configuration: walk the source root,
      load the timetable of the rule, compile, and save the timetable,
      whatever `compile` did. `walk` is `walk_dir`, `stored` the content of
      a file (`None` when it cannot be opened). */
  function RunBuild(conf: CbConf.Config, walk: seq<char> -> Tree,
                 stored: seq<char> -> Option<seq<TimeTableBinary.byte>>,
                 fileExists: seq<char> -> bool, system: seq<char> -> int): (r: Run)
    requires conf.Valid() && forall d :: walk(d).Valid()
    ensures r.timetablePath == TimetablePath(conf)
    ensures r.compiled == Compile(conf, walk(CStr(conf.source)), LoadTimetable(stored(CStr(r.timetablePath))),
                                  fileExists, system)
    ensures r.saved == TimeTableBinary.Encode(r.compiled.table)
  {
    var tree := walk(CStr(conf.source));
    var path := TimetablePath(conf);
    var t := LoadTimetable(stored(CStr(path)));
    var compiled := Compile(conf, tree, t, fileExists, system);
    Run(path, compiled, TimeTableBinary.Encode(compiled.table))
  }

  /** `cb_main`: resolve the configuration; a failure stops the program
      before anything is walked, loaded or saved. */
  function CbMain(config: seq<char>, arg: Option<seq<char>>, walk: seq<char> -> Tree,
                  stored: seq<char> -> Option<seq<TimeTableBinary.byte>>,
                  fileExists: seq<char> -> bool, system: seq<char> -> int): (r: Result<Run, CbConf.ConfError>)
    requires arg.Some? ==> |arg.value| >= 1 && NUL !in arg.value
    requires forall d :: walk(d).Valid()
    ensures r.Failure? <==> CbConf.Resolve(config, arg).Failure?
    ensures r.Failure? ==> r.error == CbConf.Resolve(config, arg).error
    ensures r.Success? ==> r.value == RunBuild(CbConf.Resolve(config, arg).value, walk, stored, fileExists, system)
  {
    var conf :- CbConf.Resolve(config, arg);
    Success(RunBuild(conf, walk, stored, fileExists, system))
  }

  /** The timetable is saved even when a compile failed, and the next run
      starts from it: the files compiled before the failure are not
      compiled again unless they change. */
  lemma SavedTableIsNextLoaded(config: seq<char>, arg: Option<seq<char>>, walk: seq<char> -> Tree,
                               stored: seq<char> -> Option<seq<TimeTableBinary.byte>>,
                               fileExists: seq<char> -> bool, system: seq<char> -> int)
    requires arg.Some? ==> |arg.value| >= 1 && NUL !in arg.value
    requires forall d :: walk(d).Valid()
    requires var r := CbMain(config, arg, walk, stored, fileExists, system);
             r.Success? && TimeTableBinary.Storable(r.value.compiled.table)
    ensures var run := CbMain(config, arg, walk, stored, fileExists, system).value;
            LoadTimetable(Some(run.saved)) == run.compiled.table
  {
    var run := CbMain(config, arg, walk, stored, fileExists, system).value;
    LoadSaved(run.compiled.table);
  }

  /** A run whose compile failed still saves the timetable: it keeps every
      row it loaded (and adds the files compiled before the failure), and
      the last link's result is carried over unchanged. */
  lemma AbortedRunKeepsTimetable(conf: CbConf.Config, walk: seq<char> -> Tree,
                                 stored: seq<char> -> Option<seq<TimeTableBinary.byte>>,
                                 fileExists: seq<char> -> bool, system: seq<char> -> int)
    requires conf.Valid() && forall d :: walk(d).Valid()
    ensures var run := RunBuild(conf, walk, stored, fileExists, system);
            var loaded := LoadTimetable(stored(CStr(TimetablePath(conf))));
            run.compiled.outcome.Aborted? && TimeTableBinary.Storable(run.compiled.table) ==>
              var next := LoadTimetable(Some(run.saved));
              KeysKept(loaded, next) && next.buildSuccess == loaded.buildSuccess
  {
    var run := RunBuild(conf, walk, stored, fileExists, system);
    if TimeTableBinary.Storable(run.compiled.table) {
      LoadSaved(run.compiled.table);
    }
  }
}
