/** File discovery: a top-down walk of the directory tree that never enters
    the third-party and tool directories and yields only the files whose
    extension is recognised, together with the merge of extra extensions
    into the recognised set. */
module Discovery {
  import opened Text
  import opened Paths
  import opened FileSystem

  /** Names of the subdirectories the walk never descends into, at any
      depth below the start (the start itself is walked whatever its name). */
  const SkipDirs: set<string> := {".git", "vendor", "node_modules", ".idea", ".vscode"}

  /** The extensions recognised when no extra ones are given. */
  const DefaultExts: set<string> := {".php", ".phtml", ".php5", ".inc"}

  /** A file the walk yields: the names of the directories from the root
      down to it, its name, and what reading it gives. */
  datatype Candidate = Candidate(dirs: seq<string>, name: string, content: ReadResult)

  /** A file is scanned when its lower-cased extension is recognised. */
  predicate Recognised(name: string, exts: set<string>) {
    Lower(Suffix(name)) in exts
  }

  /** No directory on the path is one the walk skips. */
  ghost predicate NoneSkipped(dirs: seq<string>) {
    forall k :: 0 <= k < |dirs| ==> dirs[k] !in SkipDirs
  }

  /** The recognised files among the entries `ch` of the directory at `dirs`,
      in listing order. */
  function Yielded(dirs: seq<string>, ch: seq<Entry>, exts: set<string>): (r: seq<Candidate>)
    ensures |r| <= |ch|
  {
    if ch == [] then []
    else
      var n := |ch| - 1;
      var e := ch[n];
      Yielded(dirs, ch[..n], exts) + (if e.File? && Recognised(e.name, exts) then [Candidate(dirs, e.name, e.content)] else [])
  }

  /** What `Yielded` holds is a recognised file of the directory. */
  lemma {:induction false} YieldedSound(dirs: seq<string>, ch: seq<Entry>, exts: set<string>, c: Candidate)
    requires c in Yielded(dirs, ch, exts)
    ensures c.dirs == dirs && File(c.name, c.content) in ch && Recognised(c.name, exts)
  {
    var n := |ch| - 1;
    var e := ch[n];
    var front := Yielded(dirs, ch[..n], exts);
    var last := if e.File? && Recognised(e.name, exts) then [Candidate(dirs, e.name, e.content)] else [];
    assert Yielded(dirs, ch, exts) == front + last;
    if c in front {
      YieldedSound(dirs, ch[..n], exts, c);
      var k :| 0 <= k < n && ch[..n][k] == File(c.name, c.content);
      assert ch[k] == File(c.name, c.content);
    } else {
      assert c in last;
      assert File(c.name, c.content) == ch[n];
    }
  }

  /** Every recognised file of the directory is in `Yielded`. */
  lemma {:induction false} YieldedComplete(dirs: seq<string>, ch: seq<Entry>, exts: set<string>, e: Entry)
    requires e in ch && e.File? && Recognised(e.name, exts)
    ensures Candidate(dirs, e.name, e.content) in Yielded(dirs, ch, exts)
  {
    var n := |ch| - 1;
    assert ch == ch[..n] + [ch[n]];
    if e != ch[n] {
      YieldedComplete(dirs, ch[..n], exts, e);
    }
  }

  /** The subdirectories the walk enters from a directory with entries `ch`,
      in listing order. */
  function Pruned(ch: seq<Entry>): (r: seq<Entry>)
    ensures |r| <= |ch|
  {
    if ch == [] then []
    else
      var n := |ch| - 1;
      var e := ch[n];
      Pruned(ch[..n]) + (if e.Dir? && e.name !in SkipDirs then [e] else [])
  }

  /** Pruning keeps listing order: the subdirectories entered from two
      listings one after the other are those of the first, then those of the
      second. */
  lemma {:induction false} PrunedAppend(a: seq<Entry>, b: seq<Entry>)
    ensures Pruned(a + b) == Pruned(a) + Pruned(b)
  {
    if b == [] {
      assert a + b == a;
    } else {
      var ab := a + b;
      var n := |b| - 1;
      var e := b[n];
      var last := if e.Dir? && e.name !in SkipDirs then [e] else [];
      assert ab[..|ab| - 1] == a + b[..n];
      assert ab[|ab| - 1] == e;
      assert Pruned(ab) == Pruned(a + b[..n]) + last;
      PrunedAppend(a, b[..n]);
      assert Pruned(b) == Pruned(b[..n]) + last;
      AppendAssociates(Pruned(a), Pruned(b[..n]), last);
    }
  }

  /** The walk enters only subdirectories of the directory that are not skipped. */
  lemma {:induction false} PrunedSound(ch: seq<Entry>, e: Entry)
    requires e in Pruned(ch)
    ensures e in ch && e.Dir? && e.name !in SkipDirs
  {
    var n := |ch| - 1;
    assert ch == ch[..n] + [ch[n]];
    if e in Pruned(ch[..n]) {
      PrunedSound(ch[..n], e);
    }
  }

  /** The walk enters every subdirectory that is not skipped. */
  lemma {:induction false} PrunedComplete(ch: seq<Entry>, e: Entry)
    requires e in ch && e.Dir? && e.name !in SkipDirs
    ensures e in Pruned(ch)
  {
    var n := |ch| - 1;
    assert ch == ch[..n] + [ch[n]];
    if e != ch[n] {
      PrunedComplete(ch[..n], e);
    }
  }

  /** What the walk of `d`, found at `dirs`, yields: the recognised files of
      `d` first, then the walk of each subdirectory that is not skipped, in
      listing order. A file as the root yields nothing. */
  function Walk(dirs: seq<string>, d: Entry, exts: set<string>): seq<Candidate>
    decreases d, 1
  {
    if d.File? then []
    else Yielded(dirs, d.children, exts) + WalkSubdirs(dirs, d, |Pruned(d.children)|, exts)
  }

  /** The walks of the first `k` subdirectories the walk enters from `d`. */
  function WalkSubdirs(dirs: seq<string>, d: Entry, k: nat, exts: set<string>): seq<Candidate>
    requires d.Dir? && k <= |Pruned(d.children)|
    decreases d, 0, k
  {
    if k == 0 then []
    else
      var sub := Pruned(d.children)[k - 1];
      PrunedSound(d.children, sub);
      WalkSubdirs(dirs, d, k - 1, exts) + Walk(dirs + [sub.name], sub, exts)
  }

  /** One more subdirectory adds its walk at the end. */
  lemma WalkSubdirsExtend(dirs: seq<string>, d: Entry, k: nat, exts: set<string>)
    requires d.Dir? && k < |Pruned(d.children)|
    ensures Pruned(d.children)[k] in d.children
    ensures WalkSubdirs(dirs, d, k + 1, exts)
         == WalkSubdirs(dirs, d, k, exts) + Walk(dirs + [Pruned(d.children)[k].name], Pruned(d.children)[k], exts)
  {
    PrunedSound(d.children, Pruned(d.children)[k]);
  }

  lemma AppendAssociates<T>(a: seq<T>, b: seq<T>, c: seq<T>)
    ensures a + b + c == a + (b + c)
  {
  }

  /** The files of one directory listing: the recognised ones, in listing order. */
  method YieldFiles(dirs: seq<string>, children: seq<Entry>, exts: set<string>) returns (out: seq<Candidate>)
    ensures out == Yielded(dirs, children, exts)
  {
    out := [];
    for k := 0 to |children|
      invariant out == Yielded(dirs, children[..k], exts)
    {
      var e := children[k];
      if e.File? && Recognised(e.name, exts) {
        out := out + [Candidate(dirs, e.name, e.content)];
      }
      assert children[..k + 1][..k] == children[..k];
    }
    assert children[..|children|] == children;
  }

  /** Walk the tree below `d`, found at `dirs`: yield the recognised files of
      `d`, prune the skipped subdirectories and walk the others in turn. */
  method IterFiles(dirs: seq<string>, d: Entry, exts: set<string>) returns (out: seq<Candidate>)
    ensures out == Walk(dirs, d, exts)
    decreases d
  {
    if d.File? {
      return [];
    }
    out := YieldFiles(dirs, d.children, exts);
    var dirnames := Pruned(d.children);
    ghost var files := out;
    for k := 0 to |dirnames|
      invariant out == files + WalkSubdirs(dirs, d, k, exts)
    {
      var sub := dirnames[k];
      WalkSubdirsExtend(dirs, d, k, exts);
      var below := IterFiles(dirs + [sub.name], sub, exts);
      AppendAssociates(files, WalkSubdirs(dirs, d, k, exts), below);
      out := out + below;
    }
  }

  /** Everything a walk yields lies below its start, in a directory it did not
      skip, exists in the tree and has a recognised extension. */
  lemma {:induction false} WalkSound(dirs: seq<string>, d: Entry, exts: set<string>, c: Candidate)
    requires c in Walk(dirs, d, exts)
    ensures |dirs| <= |c.dirs| && c.dirs[..|dirs|] == dirs
    ensures Reachable(d, c.dirs[|dirs|..], c.name, c.content)
    ensures Recognised(c.name, exts) && NoneSkipped(c.dirs[|dirs|..])
    decreases d, 1
  {
    if c in Yielded(dirs, d.children, exts) {
      YieldedSound(dirs, d.children, exts, c);
      assert c.dirs[|dirs|..] == [];
    } else {
      WalkSubdirsSound(dirs, d, |Pruned(d.children)|, exts, c);
    }
  }

  lemma {:induction false} WalkSubdirsSound(dirs: seq<string>, d: Entry, k: nat, exts: set<string>, c: Candidate)
    requires d.Dir? && k <= |Pruned(d.children)|
    requires c in WalkSubdirs(dirs, d, k, exts)
    ensures |dirs| < |c.dirs| && c.dirs[..|dirs|] == dirs
    ensures Reachable(d, c.dirs[|dirs|..], c.name, c.content)
    ensures Recognised(c.name, exts) && NoneSkipped(c.dirs[|dirs|..])
    decreases d, 0, k
  {
    var sub := Pruned(d.children)[k - 1];
    if c in WalkSubdirs(dirs, d, k - 1, exts) {
      WalkSubdirsSound(dirs, d, k - 1, exts, c);
    } else {
      PrunedSound(d.children, sub);
      var down := dirs + [sub.name];
      WalkSound(down, sub, exts, c);
      var tail := c.dirs[|down|..];
      PathSplit(dirs, sub.name, c.dirs);
      ReachableThrough(d, sub, tail, c.name, c.content);
      NoneSkippedCons(sub.name, tail);
    }
  }

  lemma PathSplit(dirs: seq<string>, name: string, path: seq<string>)
    requires |dirs| + 1 <= |path| && path[..|dirs| + 1] == dirs + [name]
    ensures path[..|dirs|] == dirs && path[|dirs|..] == [name] + path[|dirs| + 1..]
  {
    assert path[..|dirs|] == path[..|dirs| + 1][..|dirs|];
    assert path[|dirs|] == path[..|dirs| + 1][|dirs|];
  }

  /** A file below a subdirectory is below the directory, one name deeper. */
  lemma ReachableThrough(d: Entry, sub: Entry, rel: seq<string>, name: string, content: ReadResult)
    requires d.Dir? && sub in d.children && sub.Dir? && Reachable(sub, rel, name, content)
    ensures Reachable(d, [sub.name] + rel, name, content)
  {
    assert ([sub.name] + rel)[1..] == rel;
  }

  lemma NoneSkippedCons(x: string, rest: seq<string>)
    ensures NoneSkipped([x] + rest) <==> x !in SkipDirs && NoneSkipped(rest)
  {
    var r := [x] + rest;
    assert r[0] == x;
    assert forall k :: 0 <= k < |rest| ==> r[k + 1] == rest[k];
    assert forall k :: 0 < k < |r| ==> r[k] == rest[k - 1];
  }

  /** The walks of the first `k` subdirectories hold the walk of each of them. */
  lemma {:induction false} WalkSubdirsHolds(dirs: seq<string>, d: Entry, k: nat, j: nat, exts: set<string>, c: Candidate)
    requires d.Dir? && j < k <= |Pruned(d.children)|
    requires c in Walk(dirs + [Pruned(d.children)[j].name], Pruned(d.children)[j], exts)
    ensures c in WalkSubdirs(dirs, d, k, exts)
    decreases k
  {
    if j < k - 1 {
      WalkSubdirsHolds(dirs, d, k - 1, j, exts, c);
    }
  }

  /** The walk yields every recognised file of the tree that does not lie in
      a skipped directory. */
  lemma {:induction false} WalkComplete(dirs: seq<string>, d: Entry, exts: set<string>, rel: seq<string>, name: string, content: ReadResult)
    requires Reachable(d, rel, name, content) && Recognised(name, exts) && NoneSkipped(rel)
    ensures Candidate(dirs + rel, name, content) in Walk(dirs, d, exts)
    decreases d
  {
    if rel == [] {
      YieldedComplete(dirs, d.children, exts, File(name, content));
      assert dirs + rel == dirs;
    } else {
      var sub :| sub in d.children && sub.Dir? && sub.name == rel[0] && Reachable(sub, rel[1..], name, content);
      assert rel == [rel[0]] + rel[1..];
      NoneSkippedCons(rel[0], rel[1..]);
      PrunedComplete(d.children, sub);
      var j :| 0 <= j < |Pruned(d.children)| && Pruned(d.children)[j] == sub;
      WalkComplete(dirs + [sub.name], sub, exts, rel[1..], name, content);
      assert dirs + [sub.name] + rel[1..] == dirs + rel;
      WalkSubdirsHolds(dirs, d, |Pruned(d.children)|, j, exts, Candidate(dirs + rel, name, content));
    }
  }

  /** The walk from the root yields a file exactly when it is in the tree, no
      directory on its path is skipped and its extension is recognised. */
  lemma WalkCharacterization(root: Entry, exts: set<string>, rel: seq<string>, name: string, content: ReadResult)
    ensures Candidate(rel, name, content) in Walk([], root, exts)
        <==> Reachable(root, rel, name, content) && NoneSkipped(rel) && Recognised(name, exts)
  {
    if Candidate(rel, name, content) in Walk([], root, exts) {
      WalkSound([], root, exts, Candidate(rel, name, content));
      assert rel[0..] == rel;
    }
    if Reachable(root, rel, name, content) && NoneSkipped(rel) && Recognised(name, exts) {
      WalkComplete([], root, exts, rel, name, content);
      assert [] + rel == rel;
    }
  }

  /** Top-down order: the recognised files of a directory come first, and
      everything after them lies strictly deeper. */
  lemma WalkFilesFirst(dirs: seq<string>, d: Entry, exts: set<string>)
    requires d.Dir?
    ensures var y := Yielded(dirs, d.children, exts);
      var w := Walk(dirs, d, exts);
      && |y| <= |w| && w[..|y|] == y
      && forall i :: |y| <= i < |w| ==> |w[i].dirs| > |dirs|
  {
    var y := Yielded(dirs, d.children, exts);
    var w := Walk(dirs, d, exts);
    assert w[..|y|] == y;
    forall i | |y| <= i < |w|
      ensures |w[i].dirs| > |dirs|
    {
      assert w[i] == WalkSubdirs(dirs, d, |Pruned(d.children)|, exts)[i - |y|];
      WalkSubdirsSound(dirs, d, |Pruned(d.children)|, exts, w[i]);
    }
  }

  /** A tree whose root holds "app.php" and a "vendor" directory with
      "evil.php": the walk yields only "app.php", because it never descends
      into "vendor". */
  lemma VendorIsSkippedExample(t: string)
    ensures Walk([], Dir("root", [Dir("vendor", [File("evil.php", Decoded(t))]), File("app.php", Decoded(t))]), DefaultExts)
         == [Candidate([], "app.php", Decoded(t))]
  {
    var vendor := Dir("vendor", [File("evil.php", Decoded(t))]);
    var ch := [vendor, File("app.php", Decoded(t))];
    AppPhpIsRecognised();
    assert ch[..1] == [vendor];
    assert [vendor][..0] == [];
    assert Yielded([], ch, DefaultExts) == [Candidate([], "app.php", Decoded(t))];
    assert Pruned(ch) == [];
  }

  /** "app.php" has the recognised extension ".php". */
  lemma AppPhpIsRecognised()
    ensures Suffix("app.php") == ".php" && Recognised("app.php", DefaultExts)
  {
    assert RFind("app.php", '.') == 3;
    assert Lower(".php") == ".php";
  }

  /** The extra extensions, lower-cased. */
  function Lowered(extra: seq<string>): set<string>
  {
    if extra == [] then {} else Lowered(extra[..|extra| - 1]) + {Lower(extra[|extra| - 1])}
  }

  /** The lower-cased extras are exactly the lower-cased forms of the extras. */
  lemma {:induction false} LoweredMembers(extra: seq<string>, x: string)
    ensures x in Lowered(extra) <==> exists e :: e in extra && x == Lower(e)
  {
    if extra != [] {
      var n := |extra| - 1;
      LoweredMembers(extra[..n], x);
      if x in Lowered(extra) && x !in Lowered(extra[..n]) {
        assert extra[n] in extra;
      }
      if exists e :: e in extra && x == Lower(e) {
        var e :| e in extra && x == Lower(e);
        if e != extra[n] {
          assert e in extra[..n];
        }
      }
      assert forall e :: e in extra[..n] ==> e in extra;
    }
  }

  /** The recognised extensions after adding the extra ones, each lower-cased. */
  method MergeExtensions(exts: set<string>, extra: seq<string>) returns (merged: set<string>)
    ensures merged == exts + Lowered(extra)
  {
    merged := exts;
    for k := 0 to |extra|
      invariant merged == exts + Lowered(extra[..k])
    {
      assert extra[..k + 1][..k] == extra[..k];
      merged := merged + {Lower(extra[k])};
    }
    assert extra[..|extra|] == extra;
  }

  /** An extra extension that does not start with a dot changes nothing: no
      file name has that extension. */
  lemma DotlessExtensionIsInert(name: string, exts: set<string>, e: string)
    requires e != "" && e[0] != '.'
    ensures Recognised(name, exts + {Lower(e)}) <==> Recognised(name, exts)
  {
    SuffixShape(name);
    var r := Suffix(name);
    if r != "" {
      LowerAt(r, 0);
      LowerAt(e, 0);
      assert Lower(r)[0] == '.';
      assert Lower(e)[0] != '.';
    }
  }

  /** The empty extra extension makes every file without an extension a
      candidate. */
  lemma EmptyExtensionAdmitsDotlessNames(name: string, exts: set<string>)
    requires '.' !in name
    ensures Recognised(name, exts + {Lower("")})
  {
    var i := RFind(name, '.');
    assert i == -1;
  }
}
