/**
  Path names (fs/fs.c:190-292 and 691-830): taking a path apart, walking it through the tree, and
  building the path of a directory from its inode number.
 */
module Paths {
  import opened Outcomes
  import opened Bytes
  import opened Volume
  import opened Partitions
  import opened Directory
  import opened Directories
  import opened FileTree
  import FileData

  const MAX_PATH := 512              // MAX_PATH_LEN

  // ---------- The components of a path ----------

  /** How many characters come before the first slash. */
  function NameLen(path: seq<byte>): (n: nat)
    ensures n <= |path| && SLASH !in path[..n] && (n < |path| ==> path[n] == SLASH)
  {
    if path == [] || path[0] == SLASH then 0 else
      var n := 1 + NameLen(path[1..]);
      assert path[..n] == [path[0]] + path[1..][..n - 1];
      n
  }

  /** The names between the slashes; empty ones do not count. */
  function Components(path: seq<byte>): seq<seq<byte>>
    decreases |path|
  {
    if path == [] then []
    else if path[0] == SLASH then Components(path[1..])
    else
      assert NameLen(path) > 0;
      [path[..NameLen(path)]] + Components(path[NameLen(path)..])
  }

  predicate Slashes(path: seq<byte>, n: nat)
    requires n <= |path|
  {
    forall j :: 0 <= j < n ==> path[j] == SLASH
  }

  predicate NoSlash(s: seq<byte>) {
    SLASH !in s
  }

  lemma {:induction false} ComponentsSlashes(path: seq<byte>, n: nat)
    requires n <= |path| && Slashes(path, n)
    ensures Components(path) == Components(path[n..])
    decreases n
  {
    if n > 0 {
      ComponentsSlashes(path[1..], n - 1);
      assert path[1..][n - 1..] == path[n..];
    } else {
      assert path[0..] == path;
    }
  }

  lemma {:induction false} NameLenIs(path: seq<byte>, n: nat)
    requires n <= |path| && SLASH !in path[..n] && (n < |path| ==> path[n] == SLASH)
    ensures NameLen(path) == n
    decreases n
  {
    if n > 0 {
      assert path[..n][0] == path[0] && path[1..][..n - 1] == path[1..n] && path[..n][1..] == path[1..n];
      NameLenIs(path[1..], n - 1);
    }
  }

  lemma FirstName(tail: seq<byte>, n: nat)
    requires n <= |tail| && NoSlash(tail[..n]) && (n < |tail| ==> n > 0 && tail[n] == SLASH)
    ensures Components(tail) == if n == 0 then [] else [tail[..n]] + Components(tail[n..])
  {
    NameLenIs(tail, n);
    assert n > 0 ==> tail[..n][0] == tail[0];
  }

  /** A path that starts with the name path[from..to] after slashes only. */
  lemma FirstComponent(path: seq<byte>, from: nat, to: nat)
    requires from <= to <= |path| && Slashes(path, from) && NoSlash(path[from..to]) && (to < |path| ==> path[to] == SLASH && from < to)
    ensures Components(path) == if from == to then [] else [path[from..to]] + Components(path[to..])
  {
    hide *;
    ComponentsSlashes(path, from);
    Slices(path, from, to);
    FirstName(path[from..], to - from);
  }

  lemma Slices(path: seq<byte>, from: nat, to: nat)
    requires from <= to <= |path|
    ensures var tail := path[from..];
            && tail[..to - from] == path[from..to] && tail[to - from..] == path[to..] && |tail| == |path| - from
            && (to < |path| ==> tail[to - from] == path[to])
  {}

  /** path_parse: the first name, and where it ends; None for the null pointer, at the end of the path.
      Without a leading slash the name starts at once. */
  method PathParse(path: seq<byte>) returns (name: seq<byte>, rest: Option<seq<byte>>)
    ensures Components(path) == if name == [] then [] else [name] + (if rest.Some? then Components(rest.value) else [])
    ensures rest.Some? ==> |rest.value| < |path| && name != [] && rest.value != [] && rest.value[0] == SLASH
    ensures SLASH !in name
  {
    var i := 0;
    if path != [] && path[0] == SLASH {
      i := 1;
      while i < |path| && path[i] == SLASH
        invariant 1 <= i <= |path| && forall j :: 0 <= j < i ==> path[j] == SLASH
      {
        i := i + 1;
      }
    }
    var from := i;
    name := [];
    assert path[from..from] == [];
    while i < |path| && path[i] != SLASH
      invariant from <= i <= |path| && name == path[from..i] && SLASH !in name
      decreases |path| - i
    {
      assert path[from..i + 1] == path[from..i] + [path[i]];
      name := name + [path[i]];
      i := i + 1;
    }
    FirstComponent(path, from, i);
    assert path[|path|..] == [];
    if i == |path| {
      return name, None;
    }
    rest := Some(path[i..]);
  }

  /** path_depth_cnt: the number of names. */
  method PathDepth(path: seq<byte>) returns (depth: nat)
    ensures depth == |Components(path)|
  {
    depth := 0;
    var name, p := PathParse(path);
    while name != []
      invariant |Components(path)| == depth + if name == [] then 0 else 1 + if p.Some? then |Components(p.value)| else 0
      decreases if p.Some? then |p.value| + 1 else 0, |name|
    {
      depth := depth + 1;
      name := [];
      if p.Some? {
        name, p := PathParse(p.value);
      }
    }
  }

  /** A path made of names: each after a slash. */
  function Join(names: seq<seq<byte>>): seq<byte> {
    if names == [] then [] else [SLASH] + names[0] + Join(names[1..])
  }

  predicate IsName(name: seq<byte>) {
    GoodName(name) && SLASH !in name
  }

  predicate AllNames(names: seq<seq<byte>>) {
    forall j {:trigger names[j]} :: 0 <= j < |names| ==> IsName(names[j])
  }

  lemma {:induction false} ComponentsOfJoin(names: seq<seq<byte>>)
    requires AllNames(names)
    ensures Components(Join(names)) == names
  {
    if names != [] {
      ComponentsOfJoin(names[1..]);
      OneMoreComponent(names[0], Join(names[1..]));
    }
  }

  lemma OneMoreComponent(n: seq<byte>, rest: seq<byte>)
    requires IsName(n) && (rest != [] ==> rest[0] == SLASH)
    ensures Components([SLASH] + n + rest) == [n] + Components(rest)
  {
    var path := n + rest;
    assert [SLASH] + n + rest == [SLASH] + path && ([SLASH] + path)[1..] == path;
    hide Components;
    assert path[..|n|] == n && path[|n|..] == rest;
    FirstName(path, |n|);
    SlashInFront(path);
  }

  lemma SlashInFront(path: seq<byte>)
    ensures Components([SLASH] + path) == Components(path)
  {
    assert ([SLASH] + path)[1..] == path;
  }

  lemma {:induction false} JoinAppend(a: seq<seq<byte>>, b: seq<seq<byte>>)
    ensures Join(a + b) == Join(a) + Join(b)
  {
    if a == [] {
      assert a + b == b;
    } else {
      assert (a + b)[1..] == a[1..] + b;
      JoinAppend(a[1..], b);
    }
  }

  lemma JoinOne(n: seq<byte>)
    ensures Join([n]) == [SLASH] + n
  {}

  // ---------- Walking ----------

  /** Where a walk ends: at a directory; at a file, after `used` names; or at a name that is not there,
      the last of `used` names. `parent` is the directory that was searched last. */
  datatype Answer = AtDir(inode: nat, parent: nat) | AtFile(inode: nat, parent: nat, used: nat) | Missing(parent: nat, used: nat)

  /** The answer after k names that led to a directory. */
  function Plus(a: Answer, k: nat): Answer {
    match a
    case AtDir(_, _) => a
    case AtFile(i, q, u) => AtFile(i, q, u + k)
    case Missing(q, u) => Missing(q, u + k)
  }

  /** Each name is looked up in the directory that the names before it lead to; a file ends the walk,
      whether names are left or not. */
  ghost function Walk(v: Volume, d: nat, up: nat, names: seq<seq<byte>>): Answer
    decreases |names|
  {
    if names == [] then AtDir(d, up)
    else match Lookup(Listing(v, d), names[0])
      case None => Missing(d, 1)
      case Some(e) => if e.ftype == DIRECTORY then Plus(Walk(v, e.iNo, d, names[1..]), 1) else AtFile(e.iNo, d, 1)
  }

  /** A walk that has found a file, or missed a name, ends there, whatever names come after. */
  lemma {:induction false} WalkStops(v: Volume, d: nat, up: nat, a: seq<seq<byte>>, b: seq<seq<byte>>)
    requires !Walk(v, d, up, a).AtDir?
    ensures Walk(v, d, up, a + b) == Walk(v, d, up, a)
    decreases |a|
  {
    hide Lookup, Listing;
    if a != [] {
      assert (a + b)[1..] == a[1..] + b && (a + b)[0] == a[0];
      var e := Lookup(Listing(v, d), a[0]);
      if e.Some? && e.value.ftype == DIRECTORY {
        WalkStops(v, e.value.iNo, d, a[1..], b);
      }
    }
  }

  /** One name: a directory is entered, a file is found, and anything else is missing from d. */
  lemma WalkOne(v: Volume, d: nat, up: nat, name: seq<byte>)
    ensures Walk(v, d, up, [name]) == match Lookup(Listing(v, d), name)
                                      case None => Missing(d, 1)
                                      case Some(e) => if e.ftype == DIRECTORY then AtDir(e.iNo, d) else AtFile(e.iNo, d, 1)
  {
    hide Lookup, Listing;
    assert [name][1..] == [];
  }

  function Used(a: Answer, names: seq<seq<byte>>): nat {
    match a
    case AtDir(_, _) => |names|
    case AtFile(_, _, u) => u
    case Missing(_, u) => u
  }

  /** The spellings of the root that search_file knows. */
  predicate RootSpelling(path: seq<byte>) {
    path == [SLASH] || path == [SLASH] + DOT || path == [SLASH] + DOTDOT
  }

  /** What search_file answers, by the tree. */
  ghost function Resolve(v: Volume, path: seq<byte>): Answer {
    if RootSpelling(path) then AtDir(0, 0) else Walk(v, 0, 0, Components(path))
  }

  lemma {:induction false} WalkAppend(v: Volume, d: nat, up: nat, a: seq<seq<byte>>, b: seq<seq<byte>>)
    requires Walk(v, d, up, a).AtDir?
    ensures Walk(v, d, up, a + b) == Plus(Walk(v, Walk(v, d, up, a).inode, Walk(v, d, up, a).parent, b), |a|)
    decreases |a|
  {
    hide Lookup, Listing;
    if a == [] {
      assert a + b == b;
    } else {
      assert (a + b)[1..] == a[1..] + b && (a + b)[0] == a[0];
      var e := Lookup(Listing(v, d), a[0]);
      if e.Some? && e.value.ftype == DIRECTORY {
        WalkAppend(v, e.value.iNo, d, a[1..], b);
      }
    }
  }

  /** The dots and the children of a directory of the tree. */
  lemma FoundInTree(f: Fs, d: nat, name: seq<byte>)
    requires FsInv(f) && d in f.tree && f.tree[d].isDir && Lookup(Listing(f.v, d), name).Some?
    ensures var e := Lookup(Listing(f.v, d), name).value;
            && e.iNo in f.tree && (e.ftype == DIRECTORY <==> f.tree[e.iNo].isDir)
            && (if name == DOT then e.iNo == d else if name == DOTDOT then e.iNo == f.tree[d].parent else e.iNo != 0 && f.tree[e.iNo].parent == d)
  {
    hide *;
    FsPlace(f, d);
    ShapeFacts(f, d);
    AnchorFacts(f, d);
    LookupFinds(Listing(f.v, d), name);
    var e := Lookup(Listing(f.v, d), name).value;
    FsEntry(f, d, e);
    if name == DOT || name == DOTDOT {
      DotLookup(f.v, d, name);
    } else {
      NotDot(e, name);
      EntryFacts(f, d, e);
      EntryForFacts(e, e.iNo, f.tree[e.iNo].isDir);
    }
  }

  lemma NotDot(e: Entry, name: seq<byte>)
    requires name != DOT && name != DOTDOT && e.name == name
    ensures !IsDot(e)
  {}

  lemma EntryForFacts(e: Entry, i: nat, isDir: bool)
    requires EntryFor(e, i, isDir)
    ensures !IsDot(e) && SLASH !in e.name && e.iNo == i && (e.ftype == DIRECTORY <==> isDir)
  {}

  lemma DotLookup(v: Volume, d: nat, name: seq<byte>)
    requires DirOk(v, d) && (name == DOT || name == DOTDOT) && Lookup(Listing(v, d), name).Some?
    ensures var e := Lookup(Listing(v, d), name).value; e.ftype == DIRECTORY && e.iNo == if name == DOT then d else UpOf(v, d)
    ensures DOT != DOTDOT
  {
    hide DirOk, Listing, EntriesOf, Lookup, Raw, AllWellFormed, NumbersDistinct;
    ListingStarts(v, d);
    DirFacts(v, d);
    LookupFinds(Listing(v, d), name);
    OnlyOneDot(Listing(v, d), Lookup(Listing(v, d), name).value);
  }

  lemma OnlyOneDot(s: seq<Entry>, e: Entry)
    requires NamesDistinct(s) && |s| >= 2 && e in s && s[0].name == DOT && s[1].name == DOTDOT
    ensures e.name == DOT ==> e == s[0]
    ensures e.name == DOTDOT ==> e == s[1]
  {}

  // ---------- search_file ----------

  /** struct path_search_record. */
  datatype Record = Record(searched: seq<byte>, parent: nat, ftype: nat)

  /** What search_file returns for an answer. */
  predicate Reports(a: Answer, r: Option<nat>, rec: Record) {
    match a
    case AtDir(i, q) => r == Some(i) && rec.ftype == DIRECTORY && rec.parent == q
    case AtFile(i, q, _) => r == Some(i) && rec.ftype == REGULAR && rec.parent == q
    case Missing(q, _) => r == None && rec.ftype == UNKNOWN && rec.parent == q
  }

  /** What is left of the path: the name just parsed and what comes after it. */
  function Rest(name: seq<byte>, sub: Option<seq<byte>>): seq<seq<byte>> {
    if name == [] then [] else [name] + if sub.Some? then Components(sub.value) else []
  }

  lemma {:induction false} JoinFits(path: seq<byte>)
    ensures |Join(Components(path))| <= if path != [] && path[0] != SLASH then |path| + 1 else |path|
    decreases |path|
  {
    if path != [] {
      if path[0] == SLASH {
        JoinFits(path[1..]);
      } else {
        assert NameLen(path) > 0;
        JoinFits(path[NameLen(path)..]);
        JoinHead(path[..NameLen(path)], Components(path[NameLen(path)..]));
      }
    }
  }

  lemma JoinHead(n: seq<byte>, names: seq<seq<byte>>)
    ensures Join([n] + names) == [SLASH] + n + Join(names)
  {
    assert ([n] + names)[1..] == names;
  }

  lemma JoinPrefix(names: seq<seq<byte>>, k: nat)
    requires k < |names|
    ensures Join(names[..k + 1]) == Join(names[..k]) + [SLASH] + names[k] && |Join(names[..k + 1])| <= |Join(names)|
  {
    assert names[..k + 1] == names[..k] + [names[k]];
    JoinAppend(names[..k], [names[k]]);
    assert names == names[..k + 1] + names[k + 1..];
    JoinAppend(names[..k + 1], names[k + 1..]);
    JoinOne(names[k]);
  }

  lemma WalkStep(v: Volume, d: nat, up: nat, names: seq<seq<byte>>, k: nat, start: Answer)
    requires k < |names| && start == Plus(Walk(v, d, up, names[k..]), k)
    ensures match Lookup(Listing(v, d), names[k])
            case None => start == Missing(d, k + 1)
            case Some(e) =>
              if e.ftype == DIRECTORY then start == Plus(Walk(v, e.iNo, d, names[k + 1..]), k + 1) else start == AtFile(e.iNo, d, k + 1)
  {
    hide Lookup, Listing;
    assert names[k..][1..] == names[k + 1..];
  }

  /** The loop of search_file: k names have led from the root to d, and `name` and `sub` are what is left
      of the path. */
  ghost predicate Walked(v: Volume, names: seq<seq<byte>>, k: nat, name: seq<byte>, sub: Option<seq<byte>>, d: nat, up: nat, searched: seq<byte>) {
    && k <= |names| && Rest(name, sub) == names[k..] && searched == Join(names[..k])
    && Walk(v, 0, 0, names) == Plus(Walk(v, d, up, names[k..]), k)
  }

  lemma WalkedStart(v: Volume, path: seq<byte>, name: seq<byte>, sub: Option<seq<byte>>)
    requires Components(path) == Rest(name, sub)
    ensures Walked(v, Components(path), 0, name, sub, 0, 0, [])
  {
    var names := Components(path);
    assert names[0..] == names && names[..0] == [];
    hide Components, Walk;
  }

  /** What a lookup of the next name says about the whole walk. */
  lemma WalkedName(v: Volume, path: seq<byte>, k: nat, name: seq<byte>, sub: Option<seq<byte>>, d: nat, up: nat, searched: seq<byte>)
    requires Walked(v, Components(path), k, name, sub, d, up, searched) && name != [] && AllNames(Components(path))
    requires path != [] && path[0] == SLASH && |path| < MAX_PATH
    ensures k < |Components(path)| && GoodName(name) && |searched| < 512 && searched + [SLASH] + name == Join(Components(path)[..k + 1])
    ensures match Lookup(Listing(v, d), name)
            case None => Walk(v, 0, 0, Components(path)) == Missing(d, k + 1)
            case Some(e) => e.ftype != DIRECTORY ==> Walk(v, 0, 0, Components(path)) == AtFile(e.iNo, d, k + 1)
  {
    var names := Components(path);
    JoinFits(path);
    hide Components, Walk, Lookup, Listing;
    assert names[k..][0] == names[k];
    assert IsName(names[k]);
    JoinPrefix(names, k);
    WalkStep(v, d, up, names, k, Walk(v, 0, 0, names));
  }

  lemma WalkedNext(v: Volume, path: seq<byte>, k: nat, name: seq<byte>, sub: Option<seq<byte>>, d: nat, up: nat, searched: seq<byte>,
                   e: Entry, name': seq<byte>, sub': Option<seq<byte>>)
    requires Walked(v, Components(path), k, name, sub, d, up, searched) && name != []
    requires Lookup(Listing(v, d), name) == Some(e) && e.ftype == DIRECTORY
    requires Rest(name', sub') == if sub.Some? then Components(sub.value) else []
    ensures Walked(v, Components(path), k + 1, name', sub', e.iNo, d, searched + [SLASH] + name)
  {
    var names := Components(path);
    hide Components, Walk, Lookup, Listing;
    assert names[k..][0] == names[k] && names[k..][1..] == names[k + 1..];
    JoinPrefix(names, k);
    WalkStep(v, d, up, names, k, Walk(v, 0, 0, names));
  }

  lemma WalkedEnd(v: Volume, names: seq<seq<byte>>, k: nat, sub: Option<seq<byte>>, d: nat, up: nat, searched: seq<byte>)
    requires Walked(v, names, k, [], sub, d, up, searched)
    ensures k == |names| && Walk(v, 0, 0, names) == AtDir(d, up) && searched == Join(names)
  {
    assert |names[k..]| == |names| - k;
    assert names[..|names|] == names;
  }

  lemma WalkedSize(v: Volume, names: seq<seq<byte>>, k: nat, name: seq<byte>, sub: Option<seq<byte>>, d: nat, up: nat, searched: seq<byte>)
    requires Walked(v, names, k, name, sub, d, up, searched)
    ensures k <= |names| && (name != [] ==> k < |names|)
  {
    hide Walk, Components;
    assert name != [] ==> |Rest(name, sub)| > 0;
  }

  /** What a search returns, and the path it has searched. */
  ghost predicate Searched(v: Volume, path: seq<byte>, r: Option<nat>, rec: Record) {
    var names := if RootSpelling(path) then [] else Components(path);
    var a := Resolve(v, path);
    && (RootSpelling(path) || names != [] ==> Reports(a, r, rec))
    && Used(a, names) <= |names| && rec.searched == Join(names[..Used(a, names)])
  }

  lemma SearchedTo(v: Volume, path: seq<byte>, k: nat, r: Option<nat>, rec: Record)
    requires !RootSpelling(path) && Reports(Walk(v, 0, 0, Components(path)), r, rec)
    requires k <= |Components(path)| && Used(Walk(v, 0, 0, Components(path)), Components(path)) == k && rec.searched == Join(Components(path)[..k])
    ensures Searched(v, path, r, rec)
  {
    hide Walk, Components, Join;
  }

  lemma SearchedAll(v: Volume, path: seq<byte>, d: nat, up: nat, r: Option<nat>, rec: Record)
    requires !RootSpelling(path) && Walk(v, 0, 0, Components(path)) == AtDir(d, up) && rec == Record(Join(Components(path)), up, DIRECTORY)
    requires Components(path) != [] ==> r == Some(d)
    ensures Searched(v, path, r, rec)
  {
    hide Walk, Components, Join;
    assert Components(path)[..|Components(path)|] == Components(path);
  }

  lemma SearchedRoot(v: Volume, path: seq<byte>)
    requires RootSpelling(path)
    ensures Searched(v, path, Some(0), Record([], 0, DIRECTORY))
  {
    hide Walk, Components;
  }

  /** search_file. A path without any name that is not a spelling of the root, such as "//", ends with
      the number that happened to be in dir_e, here `junk`. */
  method SearchFile(p: Partition, ghost f: Fs, path: seq<byte>, junk: nat) returns (r: Option<nat>, rec: Record)
    requires p.Valid() && f.v == p.View() && FsInv(f)
    requires RootSpelling(path) || (path != [] && path[0] == SLASH && 1 < |path| < MAX_PATH && AllNames(Components(path)))
    ensures Searched(f.v, path, r, rec)
    ensures !RootSpelling(path) && Components(path) == [] ==> r == Some(junk)
  {
    hide FsInv, Inv, Lookup, Listing, Walk, Components, DirOk, AllNames, Walked, Searched, RootSpelling, Join, GoodName;
    if RootSpelling(path) {
      SearchedRoot(f.v, path);
      return Some(0), Record([], 0, DIRECTORY);
    }
    ghost var names := Components(path);
    var name, sub := PathParse(path);
    var searched: seq<byte>, d: nat, up: nat, last: nat := [], 0, 0, junk;
    ghost var k: nat := 0;
    WalkedStart(f.v, path, name, sub);
    RootIsDir(f);
    while name != []
      invariant Walked(f.v, names, k, name, sub, d, up, searched) && d in f.tree && f.tree[d].isDir
      invariant last == if k == 0 then junk else d
      decreases |names| - k
    {
      WalkedName(f.v, path, k, name, sub, d, up, searched);
      assert |searched| < 512;
      var before := searched;
      searched := searched + [SLASH] + name;
      DirOfTree(f, d);
      var found := SearchDirEntry(p, d, name);
      if found == None {
        r, rec := None, Record(searched, d, UNKNOWN);
        SearchedTo(f.v, path, k + 1, r, rec);
        return;
      }
      var e := found.value;
      FoundInTree(f, d, name);
      ghost var was, subWas := name, sub;
      name := [];
      if sub.Some? {
        name, sub := PathParse(sub.value);
      }
      if e.ftype != DIRECTORY {
        r, rec := Some(e.iNo), Record(searched, d, REGULAR);
        SearchedTo(f.v, path, k + 1, r, rec);
        return;
      }
      WalkedNext(f.v, path, k, was, subWas, d, up, before, e, name, sub);
      d, up, last := e.iNo, d, e.iNo;
      k := k + 1;
      WalkedSize(f.v, names, k, name, sub, d, up, searched);
    }
    WalkedEnd(f.v, names, k, sub, d, up, searched);
    r, rec := Some(last), Record(searched, up, DIRECTORY);
    SearchedAll(f.v, path, d, up, r, rec);
  }

  lemma WalkEnds(v: Volume, d: nat, up: nat)
    ensures Walk(v, d, up, []) == AtDir(d, up)
  {}

  lemma RootIsDir(f: Fs)
    requires FsInv(f)
    ensures 0 in f.tree && f.tree[0] == Place(true, 0, 0)
  {
    hide *;
    FsFacts(f);
    FsPlace(f, 0);
    ShapeFacts(f, 0);
    AnchorFacts(f, 0);
  }

  lemma DirOfTree(f: Fs, d: nat)
    requires FsInv(f) && d in f.tree && f.tree[d].isDir
    ensures DirOk(f.v, d) && UpOf(f.v, d) == f.tree[d].parent && d < 256
  {
    hide *;
    FsPlace(f, d);
    ShapeFacts(f, d);
  }

  // ---------- Where a walk can end ----------

  /** A walk from a directory of the tree stays in the tree, and says truly what it found. */
  lemma {:induction false} WalkInTree(f: Fs, d: nat, up: nat, names: seq<seq<byte>>)
    requires FsInv(f) && d in f.tree && f.tree[d].isDir
    ensures match Walk(f.v, d, up, names)
            case AtDir(i, _) => i in f.tree && f.tree[i].isDir
            case AtFile(i, q, _) => i in f.tree && !f.tree[i].isDir && f.tree[i].parent == q && q in f.tree && f.tree[q].isDir
            case Missing(q, _) => q in f.tree && f.tree[q].isDir
    decreases |names|
  {
    hide FsInv, Lookup, Listing;
    if names != [] {
      var e := Lookup(Listing(f.v, d), names[0]);
      if e.Some? {
        FoundInTree(f, d, names[0]);
        if e.value.ftype == DIRECTORY {
          WalkInTree(f, e.value.iNo, d, names[1..]);
        } else if names[0] == DOT || names[0] == DOTDOT {
          DirOfTree(f, d);
          RootOrParent(f, d);
          assert false;
        }
      }
    }
  }

  lemma RootOrParent(f: Fs, d: nat)
    requires FsInv(f) && d in f.tree
    ensures f.tree[d].parent in f.tree && f.tree[f.tree[d].parent].isDir
  {
    hide *;
    RootIsDir(f);
    FsPlace(f, d);
    ShapeFacts(f, d);
    AnchorFacts(f, d);
    if d == 0 {
      assert f.tree[d].parent == 0 by { RootParent(f); }
    }
  }

  lemma RootParent(f: Fs)
    requires 0 in f.tree && f.tree[0] == Place(true, 0, 0)
    ensures f.tree[0].parent == 0
  {}

  /** Where the answer was found: in its parent, as "." in itself, or as ".." in a child. */
  lemma {:induction false} WalkFoundIn(f: Fs, d: nat, up: nat, names: seq<seq<byte>>)
    requires FsInv(f) && d in f.tree && f.tree[d].isDir && names != [] && Walk(f.v, d, up, names).AtDir?
    ensures var a := Walk(f.v, d, up, names);
            && a.inode in f.tree && f.tree[a.inode].isDir && a.parent in f.tree && f.tree[a.parent].isDir
            && (a.inode == a.parent || f.tree[a.inode].parent == a.parent || f.tree[a.parent].parent == a.inode)
    decreases |names|
  {
    hide FsInv, Lookup, Listing;
    FoundInTree(f, d, names[0]);
    var e := Lookup(Listing(f.v, d), names[0]).value;
    if |names| == 1 {
      assert Walk(f.v, e.iNo, d, names[1..]) == AtDir(e.iNo, d);
    } else {
      WalkFoundIn(f, e.iNo, d, names[1..]);
    }
  }

  // ---------- sys_getcwd ----------

  /** The first entry for an inode number, dots and dead entries included. */
  function ByNumber(s: seq<Entry>, c: nat): Option<Entry> {
    if s == [] then None else if s[0].iNo == c then Some(s[0]) else ByNumber(s[1..], c)
  }

  lemma {:induction false} ByNumberFinds(s: seq<Entry>, c: nat)
    ensures match ByNumber(s, c)
            case Some(e) => e in s && e.iNo == c
            case None => forall e :: e in s ==> e.iNo != c
  {
    if s != [] {
      assert s == [s[0]] + s[1..];
      ByNumberFinds(s[1..], c);
    }
  }

  lemma {:induction false} ByNumberConcat(a: seq<Entry>, b: seq<Entry>, c: nat)
    ensures ByNumber(a + b, c) == if ByNumber(a, c).Some? then ByNumber(a, c) else ByNumber(b, c)
  {
    if a == [] {
      assert a + b == b;
    } else {
      assert (a + b)[1..] == a[1..] + b;
      ByNumberConcat(a[1..], b, c);
    }
  }

  /** The name that a directory has for an inode. */
  ghost function NameOf(v: Volume, q: nat, c: nat): seq<byte> {
    match ByNumber(Raw(v, q), c)
    case Some(e) => e.name
    case None => []
  }

  method ScanNumber(es: seq<Entry>, c: nat) returns (r: Option<Entry>)
    ensures r == ByNumber(es, c)
  {
    var j := 0;
    assert es[0..] == es;
    while j < |es|
      invariant 0 <= j <= |es| && ByNumber(es, c) == ByNumber(es[j..], c)
    {
      if es[j].iNo == c {
        return Some(es[j]);
      }
      assert es[j..][1..] == es[j + 1..];
      j := j + 1;
    }
    r := None;
  }

  /** get_child_dir_name: the blocks are searched for the number alone. */
  method GetChildName(p: Partition, q: nat, c: nat) returns (r: Option<seq<byte>>)
    requires p.Valid() && DirOk(p.View(), q)
    ensures r == match ByNumber(Raw(p.View(), q), c) case Some(e) => Some(e.name) case None => None
  {
    hide Inv, DirOk, ByNumber, Entries, Stretch;
    ghost var v := p.View();
    DirFacts(v, q);
    var k := 0;
    while k < 12
      invariant 0 <= k <= 12 && ByNumber(Raw(v, q), c) == ByNumber(Stretch(v, q, k, 12), c)
    {
      StretchStep(v, q, k);
      ByNumberConcat(EntriesOf(v, q, k), Stretch(v, q, k + 1, 12), c);
      if p.nodes[q].sectors[k] != 0 {
        var buf := p.ReadBlock(q, k);
        var found := ScanNumber(Entries(buf), c);
        if found.Some? {
          return Some(found.value.name);
        }
      } else {
        NoNumber(c);
      }
      k := k + 1;
    }
    StretchStep(v, q, 0);
    NothingThere(v, q, c);
    r := None;
  }

  lemma NoNumber(c: nat)
    ensures ByNumber([], c) == None
  {}

  lemma NothingThere(v: Volume, q: nat, c: nat)
    ensures ByNumber(Stretch(v, q, 12, 12), c) == None
  {}

  /** get_parent_dir_inode_nr: the second entry of the first block, within the ASSERTs. */
  method GetParent(p: Partition, ghost f: Fs, c: nat) returns (q: nat)
    requires p.Valid() && f.v == p.View() && FsInv(f) && c in f.tree && f.tree[c].isDir
    ensures q == f.tree[c].parent
  {
    hide FsInv, Inv, DirOk, Listing, Entries;
    DirOfTree(f, c);
    ParentEntry(f.v, c);
    RootOrParent(f, c);
    SmallNumber(f, f.tree[c].parent);
    AddressInRange(f.v, c);
    assert p.nodes[c].sectors[0] >= p.dataStart;
    var buf := p.ReadBlock(c, 0);
    var es := Entries(buf);
    assert EntriesOf(f.v, c, 0) == es;
    assert es[1].iNo < 4096 && es[1].ftype == DIRECTORY;
    q := es[1].iNo;
  }

  lemma ParentEntry(v: Volume, c: nat)
    requires DirOk(v, c)
    ensures c in v.nodes && |v.nodes[c].sectors| == 13 && v.nodes[c].sectors[0] != 0
    ensures |EntriesOf(v, c, 0)| == PER_BLOCK && EntriesOf(v, c, 0)[1].iNo == UpOf(v, c) && EntriesOf(v, c, 0)[1].ftype == DIRECTORY
  {
    ListingStarts(v, c);
    DirFacts(v, c);
    hide DirOk, Listing;
  }

  lemma SmallNumber(f: Fs, i: nat)
    requires FsInv(f) && i in f.tree
    ensures i < 256
  {
    hide *;
    FsPlace(f, i);
    ShapeFacts(f, i);
  }

  lemma AddressInRange(v: Volume, c: nat)
    requires Inv(v) && c in v.nodes && |v.nodes[c].sectors| == 13 && v.nodes[c].sectors[0] != 0
    ensures v.nodes[c].sectors[0] >= v.dataStart
  {
    assert SlotOk(v, c, 0);
  }

  /** The number finds the entry of the child: dead entries, "." and ".." have other numbers. */
  lemma ChildName(f: Fs, c: nat)
    requires FsInv(f) && c in f.tree && c != 0
    ensures var q := f.tree[c].parent;
            && q in f.tree && f.tree[q].isDir && ByNumber(Raw(f.v, q), c).Some?
            && var e := ByNumber(Raw(f.v, q), c).value;
            e in Listing(f.v, q) && !IsDot(e) && IsName(e.name) && e.iNo == c && (e.ftype == DIRECTORY <==> f.tree[c].isDir)
            && Lookup(Listing(f.v, q), e.name) == Some(e)
  {
    hide *;
    FsPlace(f, c);
    ShapeFacts(f, c);
    AnchorFacts(f, c);
    var q := f.tree[c].parent;
    DirOfTree(f, q);
    var x := NamedBy(f.v, q, c, f.tree[c].isDir);
    ByNumberFinds(Raw(f.v, q), c);
    var e := ByNumber(Raw(f.v, q), c).value;
    LiveNumber(f.v, q, e, c);
    FsPlace(f, q);
    ShapeFacts(f, q);
    AnchorFacts(f, q);
    if IsDot(e) {
      DotNumber(f.v, q, e);
      Above(f, c);
    }
    FsEntry(f, q, e);
    EntryFacts(f, q, e);
    EntryForFacts(e, c, f.tree[c].isDir);
    LookupItself(f.v, q, e);
  }

  lemma NamedBy(v: Volume, q: nat, c: nat, isDir: bool) returns (x: Entry)
    requires Named(v, q, c, isDir)
    ensures x in Listing(v, q) && x in Raw(v, q) && x.iNo == c
  {
    x :| x in Listing(v, q) && EntryFor(x, c, isDir);
    InAlive(Raw(v, q), x);
  }

  lemma LiveNumber(v: Volume, q: nat, e: Entry, c: nat)
    requires DirOk(v, q) && e in Raw(v, q) && e.iNo == c && c != 0
    ensures e in Listing(v, q) && GoodName(e.name)
  {
    hide *;
    DirFacts(v, q);
    LiveByNumber(Raw(v, q), e);
    InAlive(Raw(v, q), e);
    ListingIs(v, q);
  }

  lemma LiveByNumber(s: seq<Entry>, e: Entry)
    requires AllWellFormed(s) && e in s && e.iNo != 0
    ensures Live(e) && GoodName(e.name)
  {
    assert WellFormed(e);
  }

  lemma ListingIs(v: Volume, q: nat)
    ensures Listing(v, q) == Alive(Raw(v, q))
  {}

  lemma DotNumber(v: Volume, q: nat, e: Entry)
    requires DirOk(v, q) && e in Listing(v, q) && IsDot(e)
    ensures e.iNo == q || e.iNo == UpOf(v, q)
  {
    hide DirOk, Listing, EntriesOf, Raw, AllWellFormed, NumbersDistinct;
    ListingStarts(v, q);
    DirFacts(v, q);
    OnlyOneDot(Listing(v, q), e);
  }

  /** A child is neither its parent nor its grandparent. */
  lemma Above(f: Fs, c: nat)
    requires c in f.tree && c != 0 && Anchored(f, c) && Anchored(f, f.tree[c].parent)
    ensures f.tree[c].parent != c && f.tree[f.tree[c].parent].parent != c
  {
    hide Named, FirstSector;
  }

  lemma LookupItself(v: Volume, q: nat, e: Entry)
    requires DirOk(v, q) && e in Listing(v, q) && GoodName(e.name) && SLASH !in e.name
    ensures Lookup(Listing(v, q), e.name) == Some(e) && IsName(e.name)
  {
    DirFacts(v, q);
    hide DirOk, Listing, Raw, AllWellFormed, NumbersDistinct;
    LookupFinds(Listing(v, q), e.name);
    SameNameSame(Listing(v, q), e, Lookup(Listing(v, q), e.name).value);
  }

  lemma SameNameSame(s: seq<Entry>, x: Entry, y: Entry)
    requires NamesDistinct(s) && x in s && y in s && x.name == y.name
    ensures x == y
  {}

  /** The names from the root down to directory c. */
  ghost function NamesTo(f: Fs, c: nat): seq<seq<byte>>
    requires FsInv(f) && c in f.tree
    decreases f.tree[c].depth
  {
    if c == 0 then [] else
      ParentIsAbove(f, c);
      NamesTo(f, f.tree[c].parent) + [NameOf(f.v, f.tree[c].parent, c)]
  }

  lemma ParentIsAbove(f: Fs, c: nat)
    requires FsInv(f) && c in f.tree && c != 0
    ensures f.tree[c].parent in f.tree && f.tree[f.tree[c].parent].isDir && f.tree[c].depth == f.tree[f.tree[c].parent].depth + 1
  {
    hide *;
    FsPlace(f, c);
    ShapeFacts(f, c);
    AnchorFacts(f, c);
  }

  /** The path that sys_getcwd is to return. */
  ghost function CwdPath(f: Fs, c: nat): seq<byte>
    requires FsInv(f) && c in f.tree
  {
    if c == 0 then [SLASH] else Join(NamesTo(f, c))
  }

  lemma NamesStep(f: Fs, c: nat)
    requires FsInv(f) && c in f.tree && c != 0
    ensures f.tree[c].parent in f.tree
    ensures NamesTo(f, c) == NamesTo(f, f.tree[c].parent) + [NameOf(f.v, f.tree[c].parent, c)]
  {
    hide FsInv, NameOf;
    ParentIsAbove(f, c);
  }

  lemma NoNames(f: Fs)
    requires FsInv(f) && 0 in f.tree
    ensures NamesTo(f, 0) == []
  {
    hide FsInv;
  }

  /** The names from the root lead to the directory. */
  lemma {:induction false} NamesLead(f: Fs, c: nat)
    requires FsInv(f) && c in f.tree && f.tree[c].isDir
    ensures AllNames(NamesTo(f, c)) && (c != 0 ==> NamesTo(f, c) != [] && NamesTo(f, c)[0] != DOT && NamesTo(f, c)[0] != DOTDOT)
    ensures Walk(f.v, 0, 0, NamesTo(f, c)) == AtDir(c, f.tree[c].parent)
    decreases f.tree[c].depth
  {
    hide *;
    RootIsDir(f);
    if c == 0 {
      NoNames(f);
      WalkEnds(f.v, 0, 0);
      NoBadNames();
      RootParent(f);
    } else {
      ParentIsAbove(f, c);
      var q := f.tree[c].parent;
      NamesLead(f, q);
      NamesStep(f, c);
      ChildName(f, c);
      NameIs(f.v, q, c);
      var name := NameOf(f.v, q, c);
      WalkAppend(f.v, 0, 0, NamesTo(f, q), [name]);
      OneStep(f.v, q, f.tree[q].parent, name, ByNumber(Raw(f.v, q), c).value);
      NoShift(c, q, |NamesTo(f, q)|);
      MoreNames(NamesTo(f, q), name);
      NotDotName(ByNumber(Raw(f.v, q), c).value);
      if q == 0 {
        NoNames(f);
      }
    }
  }

  lemma NoBadNames()
    ensures AllNames([])
  {}

  lemma NameIs(v: Volume, q: nat, c: nat)
    requires ByNumber(Raw(v, q), c).Some?
    ensures NameOf(v, q, c) == ByNumber(Raw(v, q), c).value.name
  {}

  lemma OneStep(v: Volume, q: nat, up: nat, name: seq<byte>, e: Entry)
    requires Lookup(Listing(v, q), name) == Some(e) && e.ftype == DIRECTORY
    ensures Walk(v, q, up, [name]) == AtDir(e.iNo, q)
  {
    hide Lookup, Listing;
    assert [name][1..] == [];
    assert Walk(v, e.iNo, q, []) == AtDir(e.iNo, q);
  }

  lemma NoShift(c: nat, q: nat, k: nat)
    ensures Plus(AtDir(c, q), k) == AtDir(c, q)
  {}

  lemma MoreNames(names: seq<seq<byte>>, name: seq<byte>)
    requires AllNames(names) && IsName(name)
    ensures AllNames(names + [name]) && (names + [name])[0] == if names == [] then name else names[0]
  {}

  lemma NotDotName(e: Entry)
    requires !IsDot(e)
    ensures e.name != DOT && e.name != DOTDOT
  {}

  /** search_file finds the directory again by the path of sys_getcwd. */
  lemma CwdResolves(f: Fs, c: nat)
    requires FsInv(f) && c in f.tree && f.tree[c].isDir
    ensures Resolve(f.v, CwdPath(f, c)) == AtDir(c, f.tree[c].parent)
    ensures RootSpelling(CwdPath(f, c)) || (CwdPath(f, c)[..1] == [SLASH] && |CwdPath(f, c)| > 1 && AllNames(Components(CwdPath(f, c))))
    ensures |CwdPath(f, c)| >= 1
  {
    hide FsInv, Walk, NamesTo, Components, AllNames;
    RootIsDir(f);
    if c != 0 {
      NamesLead(f, c);
      var names := NamesTo(f, c);
      ComponentsOfJoin(names);
      NotRoot(names);
      JoinStarts(names);
    }
  }

  lemma NotRoot(names: seq<seq<byte>>)
    requires AllNames(names) && names != [] && names[0] != DOT && names[0] != DOTDOT
    ensures !RootSpelling(Join(names))
  {
    ComponentsOfJoin(names);
    RootComponents();
    hide Join, Components, AllNames;
    assert [DOT][0] == DOT && [DOTDOT][0] == DOTDOT;
  }

  lemma RootComponents()
    ensures Components([SLASH]) == [] && Components([SLASH] + DOT) == [DOT] && Components([SLASH] + DOTDOT) == [DOTDOT]
  {
    SlashInFront([]);
    SlashInFront(DOT);
    SlashInFront(DOTDOT);
    assert [SLASH] + [] == [SLASH];
    FirstName(DOT, 1);
    FirstName(DOTDOT, 2);
    assert DOT[..1] == DOT && DOT[1..] == [] && DOTDOT[..2] == DOTDOT && DOTDOT[2..] == [];
  }

  lemma JoinStarts(names: seq<seq<byte>>)
    requires names != [] && AllNames(names)
    ensures |Join(names)| > 1 && Join(names)[..1] == [SLASH]
  {
    assert IsName(names[0]);
  }

  // ---------- The length of the path ----------

  /** One name of a walk lengthens the path from the root by no more than itself and a slash. */
  lemma NameStepShort(f: Fs, d: nat, name: seq<byte>)
    requires FsInv(f) && d in f.tree && f.tree[d].isDir && Lookup(Listing(f.v, d), name).Some?
    ensures var e := Lookup(Listing(f.v, d), name).value;
            e.iNo in f.tree && |Join(NamesTo(f, e.iNo))| <= |Join(NamesTo(f, d))| + 1 + |name|
  {
    hide *;
    FoundInTree(f, d, name);
    var e := Lookup(Listing(f.v, d), name).value;
    LookupFinds(Listing(f.v, d), name);
    if name == DOTDOT {
      ParentIsShorter(f, d);
    } else if name != DOT {
      NotDot(e, name);
      FsEntry(f, d, e);
      EntryFacts(f, d, e);
      NamesStep(f, e.iNo);
      ChildIsNamed(f, d, e);
      JoinAppend(NamesTo(f, d), [e.name]);
      JoinOne(e.name);
      Lengthens(Join(NamesTo(f, d)), e.name);
    }
    AtLeast(|Join(NamesTo(f, d))|, |name|);
  }

  lemma AtLeast(a: nat, b: nat)
    ensures a <= a + 1 + b
  {}

  lemma Lengthens(a: seq<byte>, n: seq<byte>)
    ensures |a + ([SLASH] + n)| == |a| + 1 + |n|
  {}

  /** ".." never lengthens the path. */
  lemma ParentIsShorter(f: Fs, d: nat)
    requires FsInv(f) && d in f.tree && f.tree[d].isDir
    ensures f.tree[d].parent in f.tree && |Join(NamesTo(f, f.tree[d].parent))| <= |Join(NamesTo(f, d))|
  {
    hide *;
    RootIsDir(f);
    RootParent(f);
    if d != 0 {
      ParentIsAbove(f, d);
      NamesStep(f, d);
      JoinAppend(NamesTo(f, f.tree[d].parent), [NameOf(f.v, f.tree[d].parent, d)]);
      LongerConcat(Join(NamesTo(f, f.tree[d].parent)), Join([NameOf(f.v, f.tree[d].parent, d)]));
    }
  }

  lemma LongerConcat(a: seq<byte>, b: seq<byte>)
    ensures |a| <= |a + b|
  {}

  /** The name of a child is the name of its entry. */
  lemma ChildIsNamed(f: Fs, q: nat, e: Entry)
    requires FsInv(f) && q in f.tree && f.tree[q].isDir && e in Listing(f.v, q) && !IsDot(e)
    ensures e.iNo in f.tree && f.tree[e.iNo].parent == q && e.iNo != 0 && NameOf(f.v, q, e.iNo) == e.name
  {
    hide *;
    FsEntry(f, q, e);
    EntryFacts(f, q, e);
    ChildName(f, e.iNo);
    NameIs(f.v, q, e.iNo);
    DirOfTree(f, q);
    DirFacts(f.v, q);
    SameNumberSame(Listing(f.v, q), e, ByNumber(Raw(f.v, q), e.iNo).value);
  }

  lemma SameNumberSame(s: seq<Entry>, x: Entry, y: Entry)
    requires NumbersDistinct(s) && x in s && y in s && !IsDot(x) && !IsDot(y) && x.iNo == y.iNo
    ensures x == y
  {}

  lemma {:induction false} WalkShort(f: Fs, d: nat, up: nat, names: seq<seq<byte>>)
    requires FsInv(f) && d in f.tree && f.tree[d].isDir && Walk(f.v, d, up, names).AtDir?
    ensures var c := Walk(f.v, d, up, names).inode;
            c in f.tree && |Join(NamesTo(f, c))| <= |Join(NamesTo(f, d))| + |Join(names)|
    decreases |names|
  {
    hide FsInv, Lookup, Listing, NamesTo;
    if names != [] {
      FoundInTree(f, d, names[0]);
      NameStepShort(f, d, names[0]);
      WalkShort(f, Lookup(Listing(f.v, d), names[0]).value.iNo, d, names[1..]);
    }
  }

  /** The path of the current directory is no longer than the path by which one went there. */
  lemma CwdIsShort(f: Fs, path: seq<byte>)
    requires FsInv(f) && Resolve(f.v, path).AtDir? && path != [] && path[0] == SLASH
    ensures Resolve(f.v, path).inode in f.tree && |CwdPath(f, Resolve(f.v, path).inode)| <= |path|
  {
    hide FsInv, NamesTo, Walk, Components;
    RootIsDir(f);
    if !RootSpelling(path) {
      WalkShort(f, 0, 0, Components(path));
      NoNames(f);
      JoinFits(path);
    }
  }

  /** What sys_getcwd needs of the current directory: its path fits the buffer on the stack. Module-wide
      invariant: it holds of the root, sys_chdir establishes it, and it lasts as long as the directory. */
  ghost predicate CwdOk(f: Fs, cwd: nat)
    requires FsInv(f)
  {
    cwd in f.tree && f.tree[cwd].isDir && |CwdPath(f, cwd)| < MAX_PATH
  }

  lemma RootIsCwd(f: Fs)
    requires FsInv(f)
    ensures CwdOk(f, 0)
  {
    hide FsInv;
    RootIsDir(f);
  }

  /** Changing to a directory by any path that search_file accepts, and asking for the path of the
      current directory: this path is one that search_file accepts, and it leads back to the same
      directory. */
  lemma ChdirThenGetcwd(f: Fs, path: seq<byte>)
    requires FsInv(f) && Resolve(f.v, path).AtDir? && path != [] && path[0] == SLASH && |path| < MAX_PATH
    ensures var c := Resolve(f.v, path).inode;
            && CwdOk(f, c) && Resolve(f.v, CwdPath(f, c)) == AtDir(c, f.tree[c].parent) && |CwdPath(f, c)| <= |path|
            && (RootSpelling(CwdPath(f, c))
                || (CwdPath(f, c)[..1] == [SLASH] && 1 < |CwdPath(f, c)| < MAX_PATH && AllNames(Components(CwdPath(f, c)))))
  {
    hide FsInv, Walk, NamesTo, Components, CwdPath;
    RootIsDir(f);
    if !RootSpelling(path) {
      WalkInTree(f, 0, 0, Components(path));
    }
    CwdIsShort(f, path);
    CwdResolves(f, Resolve(f.v, path).inode);
  }

  // ---------- The path while the tree changes ----------

  /** A call moves no inode that survives it, and keeps its parent. */
  lemma TreeStays(f: Fs, g: Fs, c: nat)
    requires FsInv(f) && Step(f, g) && c in f.tree && c in g.tree
    ensures g.tree[c] == f.tree[c] && (c != 0 ==> f.tree[c].parent in g.tree)
  {
    hide FsInv, Writes, Creates, Removes, Leaks, Listing, Inv;
    if c != 0 {
      ParentIsAbove(f, c);
    }
    if i, data :| Writes(f, i, data, g) {
      WritesFacts(f, i, data, g);
    } else if d, e :| Creates(f, d, e, g) {
      CreatesFacts(f, d, e, g);
    } else if d, x, e, t :| Removes(f, d, x, e, t, g) {
      TreeBesideRemoval(f, d, x, e, t, g, c);
    } else if x :| Leaks(f, x, g) {
      LeaksFacts(f, x, g);
    }
  }

  lemma TreeBesideRemoval(f: Fs, d: nat, x: nat, e: Entry, t: Volume, g: Fs, c: nat)
    requires FsInv(f) && Removes(f, d, x, e, t, g) && c in f.tree && c in g.tree
    ensures g.tree[c] == f.tree[c] && (c != 0 ==> f.tree[c].parent in g.tree)
  {
    hide *;
    RemovesFacts(f, d, x, e, t, g);
    if c != 0 {
      ParentIsAbove(f, c);
      NoChildren(f, x, c);
    }
  }

  /** The entry of an inode that survives a call survives too. */
  lemma EntryStays(f: Fs, g: Fs, q: nat, e: Entry)
    requires FsInv(f) && Step(f, g) && q in f.tree && f.tree[q].isDir && q in g.tree
    requires e in Listing(f.v, q) && e.iNo in g.tree
    ensures e in Listing(g.v, q)
  {
    hide FsInv, Writes, Creates, Removes, Leaks, Shape, SameNode, Listing;
    FsPlace(f, q);
    PlaceShape(f, q);
    if i, data :| Writes(f, i, data, g) {
      WritesFacts(f, i, data, g);
      SameShape(f.v, g.v, q, f.tree[q]);
    } else if d, x :| Creates(f, d, x, g) {
      EntryAfterCreation(f, d, x, g, q, e);
    } else if d, c, x, t :| Removes(f, d, c, x, t, g) {
      EntryBesideRemoval(f, d, c, x, t, g, q, e);
    } else if x :| Leaks(f, x, g) {
      LeaksFacts(f, x, g);
      SameShape(f.v, g.v, q, f.tree[q]);
    }
  }

  lemma EntryAfterCreation(f: Fs, d: nat, x: Entry, g: Fs, q: nat, e: Entry)
    requires FsInv(f) && Creates(f, d, x, g) && q in f.tree && f.tree[q].isDir && e in Listing(f.v, q)
    ensures e in Listing(g.v, q)
  {
    hide *;
    CreatesFacts(f, d, x, g);
    GrownFacts(f.v, g.v, d, x.iNo, x);
    if q == d {
      var a, b := GrownList(f.v, g.v, d, x.iNo, x);
      InMore(a, x, b, e);
    } else {
      FsPlace(f, q);
      PlaceShape(f, q);
      SameShape(f.v, g.v, q, f.tree[q]);
    }
  }

  lemma EntryBesideRemoval(f: Fs, d: nat, c: nat, x: Entry, t: Volume, g: Fs, q: nat, e: Entry)
    requires FsInv(f) && Removes(f, d, c, x, t, g) && q in f.tree && f.tree[q].isDir && q in g.tree
    requires e in Listing(f.v, q) && e.iNo in g.tree
    ensures e in Listing(g.v, q)
  {
    hide *;
    RemovesChild(f, d, c, x, t, g);
    RemovesFacts(f, d, c, x, t, g);
    ShrunkFacts(f.v, g.v, d, c, x);
    if q == d {
      var a, b := ShrunkList(f.v, g.v, d, c, x);
      InMore(a, x, b, e);
    } else {
      FsPlace(f, q);
      PlaceShape(f, q);
      SameShape(f.v, g.v, q, f.tree[q]);
    }
  }

  /** A call does not change the path of a directory that survives it. */
  lemma {:induction false} NamesStay(f: Fs, g: Fs, c: nat)
    requires FsInv(f) && FsInv(g) && Step(f, g) && c in f.tree && c in g.tree
    ensures NamesTo(g, c) == NamesTo(f, c)
    decreases f.tree[c].depth
  {
    hide *;
    if c == 0 {
      NoNames(f);
      NoNames(g);
    } else {
      TreeStays(f, g, c);
      ParentIsAbove(f, c);
      var q := f.tree[c].parent;
      TreeStays(f, g, q);
      NamesStay(f, g, q);
      NamesStep(f, c);
      NamesStep(g, c);
      ChildName(f, c);
      NameIs(f.v, q, c);
      var e := ByNumber(Raw(f.v, q), c).value;
      EntryStays(f, g, q, e);
      ChildIsNamed(g, q, e);
    }
  }

  /** Nor does any run of calls during which the directory is always there. */
  lemma {:induction false} CwdStays(s: seq<Fs>, a: nat, k: nat, c: nat)
    requires Run(s) && a <= k < |s| && FsInv(s[0]) && forall j :: a <= j <= k ==> c in s[j].tree
    ensures FsInv(s[a]) && FsInv(s[k]) && CwdPath(s[k], c) == CwdPath(s[a], c) && s[k].tree[c] == s[a].tree[c]
    decreases k
  {
    hide FsInv, Step, NamesTo;
    RunsKeepTheTree(s, k);
    RunsKeepTheTree(s, a);
    if a < k {
      CwdStays(s, a, k - 1, c);
      RunsKeepTheTree(s, k - 1);
      assert Step(s[k - 1], s[k - 1 + 1]);
      TreeStays(s[k - 1], s[k], c);
      NamesStay(s[k - 1], s[k], c);
    }
  }

  /** Going to a directory at one time and asking for its path at a later time, after any calls during
      which it stays: the path still fits, search_file accepts it, and it leads to the directory. */
  lemma GetcwdAfterChanges(s: seq<Fs>, a: nat, k: nat, path: seq<byte>, c: nat)
    requires Run(s) && a <= k < |s| && FsInv(s[0]) && (forall j :: a <= j <= k ==> c in s[j].tree)
    requires path != [] && path[0] == SLASH && |path| < MAX_PATH && Resolve(s[a].v, path).AtDir? && Resolve(s[a].v, path).inode == c
    ensures FsInv(s[k]) && CwdOk(s[k], c) && Resolve(s[k].v, CwdPath(s[k], c)) == AtDir(c, s[k].tree[c].parent)
    ensures |CwdPath(s[k], c)| <= |path|
  {
    hide FsInv, Run, Walk, CwdPath, Components, RootSpelling;
    CwdStays(s, a, k, c);
    ChdirThenGetcwd(s[a], path);
    CwdResolves(s[k], c);
  }

  // ---------- sys_getcwd as a loop ----------

  function Backwards(s: seq<seq<byte>>): (r: seq<seq<byte>>)
    ensures |r| == |s|
  {
    if s == [] then [] else Backwards(s[1..]) + [s[0]]
  }

  lemma {:induction false} BackwardsAppend(a: seq<seq<byte>>, b: seq<seq<byte>>)
    ensures Backwards(a + b) == Backwards(b) + Backwards(a)
  {
    if a == [] {
      assert a + b == b;
    } else {
      assert (a + b)[1..] == a[1..] + b;
      BackwardsAppend(a[1..], b);
    }
  }

  lemma {:induction false} BackwardsTwice(s: seq<seq<byte>>)
    ensures Backwards(Backwards(s)) == s
  {
    if s != [] {
      BackwardsTwice(s[1..]);
      BackwardsAppend(Backwards(s[1..]), [s[0]]);
      assert s == [s[0]] + s[1..] && Backwards([s[0]]) == [s[0]];
    }
  }

  lemma {:induction false} BackwardsNames(s: seq<seq<byte>>)
    requires AllNames(s)
    ensures AllNames(Backwards(s))
  {
    if s != [] {
      BackwardsNames(s[1..]);
      assert IsName(s[0]);
    }
  }

  /** strrchr for a slash. */
  method LastSlash(s: seq<byte>) returns (r: Option<nat>)
    ensures match r
            case Some(i) => i < |s| && s[i] == SLASH && SLASH !in s[i + 1..]
            case None => SLASH !in s
  {
    var i := |s|;
    assert s[i..] == [];
    while i > 0
      invariant 0 <= i <= |s| && SLASH !in s[i..]
    {
      if s[i - 1] == SLASH {
        return Some(i - 1);
      }
      assert s[i - 1..] == [s[i - 1]] + s[i..];
      i := i - 1;
    }
    assert s[0..] == s;
    r := None;
  }

  /** The last slash of a path of names starts the last name. */
  lemma CutAtLast(names: seq<seq<byte>>, i: nat)
    requires AllNames(names) && i < |Join(names)| && Join(names)[i] == SLASH && SLASH !in Join(names)[i + 1..]
    ensures names != [] && Join(names)[..i] == Join(names[..|names| - 1]) && Join(names)[i..] == [SLASH] + names[|names| - 1]
  {
    var k := |names| - 1;
    assert names == names[..k] + [names[k]];
    assert IsName(names[k]);
    JoinAppend(names[..k], [names[k]]);
    JoinOne(names[k]);
    hide Join;
    LastSlashIs(Join(names[..k]), names[k], i);
  }

  lemma LastSlashIs(a: seq<byte>, n: seq<byte>, i: nat)
    requires SLASH !in n && i < |a + ([SLASH] + n)| && (a + ([SLASH] + n))[i] == SLASH && SLASH !in (a + ([SLASH] + n))[i + 1..]
    ensures (a + ([SLASH] + n))[..i] == a && (a + ([SLASH] + n))[i..] == [SLASH] + n
  {
    NoLaterSlash(a + ([SLASH] + n), i, |a|);
    AfterSlash(a, n, i);
  }

  lemma NoLaterSlash(s: seq<byte>, i: nat, j: nat)
    requires i < |s| && j < |s| && SLASH !in s[i + 1..] && s[j] == SLASH
    ensures j <= i
  {
    TailAt(s, i, j);
  }

  lemma TailAt(s: seq<byte>, i: nat, j: nat)
    requires i < |s| && j < |s|
    ensures j > i ==> s[i + 1..][j - i - 1] == s[j]
  {}

  lemma AfterSlash(a: seq<byte>, n: seq<byte>, i: nat)
    requires i < |a + ([SLASH] + n)|
    ensures i > |a| ==> (a + ([SLASH] + n))[i] == n[i - |a| - 1]
  {}

  lemma HasSlash(names: seq<seq<byte>>)
    requires SLASH !in Join(names)
    ensures names == []
  {
    if names != [] {
      JoinNonEmpty(names);
    }
  }

  lemma JoinNonEmpty(names: seq<seq<byte>>)
    requires names != []
    ensures Join(names) != [] && Join(names)[0] == SLASH
  {}

  /** The second loop of sys_getcwd: the names move from the end of one buffer to the end of the other,
      and the first one is cut at each slash. */
  method ReversePath(full: seq<byte>, ghost names: seq<seq<byte>>) returns (buf: seq<byte>)
    requires full == Join(names) && AllNames(names)
    ensures buf == Join(Backwards(names))
  {
    hide AllNames, Join;
    var rev := full;
    buf := [];
    ghost var k: nat := |names|;
    ReverseStarts(names);
    var last: Option<nat> := LastSlash(rev);
    while last.Some?
      invariant k <= |names| && rev == Join(names[..k]) && AllNames(names[..k]) && buf == Join(Backwards(names[k..]))
      invariant last.Some? ==> last.value < |rev| && rev[last.value] == SLASH && SLASH !in rev[last.value + 1..]
      invariant last.None? ==> SLASH !in rev
      decreases k
    {
      CutAtLast(names[..k], last.value);
      ReverseStep(names, k);
      buf := buf + rev[last.value..];
      rev := rev[..last.value];
      k := k - 1;
      last := LastSlash(rev);
    }
    HasSlash(names[..k]);
    assert names[k..] == names;
  }

  lemma ReverseStarts(names: seq<seq<byte>>)
    ensures names[..|names|] == names && names[|names|..] == [] && Join(Backwards([])) == []
  {}

  lemma ReverseStep(names: seq<seq<byte>>, k: nat)
    requires 0 < k <= |names| && AllNames(names[..k])
    ensures names[..k][..k - 1] == names[..k - 1] && names[..k][k - 1] == names[k - 1] && AllNames(names[..k - 1])
    ensures Join(Backwards(names[k - 1..])) == Join(Backwards(names[k..])) + ([SLASH] + names[k - 1])
  {
    assert names[k - 1..] == [names[k - 1]] + names[k..];
    assert names[k - 1..][1..] == names[k..];
    JoinAppend(Backwards(names[k..]), [names[k - 1]]);
    JoinOne(names[k - 1]);
    assert forall j :: 0 <= j < k - 1 ==> names[..k - 1][j] == names[..k][j];
  }

  lemma ClimbStep(f: Fs, cwd: nat, child: nat, done: seq<seq<byte>>)
    requires FsInv(f) && cwd in f.tree && child in f.tree && child != 0 && NamesTo(f, cwd) == NamesTo(f, child) + done && AllNames(done)
    ensures var q := f.tree[child].parent;
            && q in f.tree && f.tree[q].isDir && f.tree[child].depth == f.tree[q].depth + 1
            && NamesTo(f, cwd) == NamesTo(f, q) + ([NameOf(f.v, q, child)] + done) && AllNames([NameOf(f.v, q, child)] + done)
            && Join(Backwards([NameOf(f.v, q, child)] + done)) == Join(Backwards(done)) + [SLASH] + NameOf(f.v, q, child)
            && ByNumber(Raw(f.v, q), child).Some? && ByNumber(Raw(f.v, q), child).value.name == NameOf(f.v, q, child)
  {
    hide *;
    ParentIsAbove(f, child);
    NamesStep(f, child);
    ChildName(f, child);
    var q := f.tree[child].parent;
    NameIs(f.v, q, child);
    MoreBefore(NameOf(f.v, q, child), done);
    Reassociate(NamesTo(f, q), NameOf(f.v, q, child), done);
  }

  lemma Reassociate(a: seq<seq<byte>>, n: seq<byte>, b: seq<seq<byte>>)
    ensures a + [n] + b == a + ([n] + b)
  {}

  lemma MoreBefore(n: seq<byte>, done: seq<seq<byte>>)
    requires IsName(n) && AllNames(done)
    ensures AllNames([n] + done) && Join(Backwards([n] + done)) == Join(Backwards(done)) + [SLASH] + n
  {
    assert ([n] + done)[1..] == done;
    JoinAppend(Backwards(done), [n]);
    JoinOne(n);
    hide Join, Backwards;
    forall j: nat | j < |[n] + done|
      ensures IsName(([n] + done)[j])
    {
      assert j > 0 ==> ([n] + done)[j] == done[j - 1];
    }
  }

  /** sys_getcwd. The climb ends at the root because every step lowers the depth. The path has to fit the
      caller's buffer. */
  method SysGetcwd(p: Partition, ghost f: Fs, cwd: nat, size: nat) returns (path: seq<byte>)
    requires p.Valid() && f.v == p.View() && FsInv(f) && CwdOk(f, cwd) && |CwdPath(f, cwd)| < size
    ensures path == CwdPath(f, cwd)
  {
    hide FsInv, Inv, NamesTo, AllNames, Join, Backwards, NameOf, ByNumber, Raw, DirOk;
    if cwd == 0 {
      return [SLASH];
    }
    var child := cwd;
    var full: seq<byte> := [];
    ghost var done: seq<seq<byte>> := [];
    NothingDone(NamesTo(f, cwd));
    while child != 0
      invariant child in f.tree && f.tree[child].isDir && NamesTo(f, cwd) == NamesTo(f, child) + done
      invariant AllNames(done) && full == Join(Backwards(done))
      decreases f.tree[child].depth
    {
      ClimbStep(f, cwd, child, done);
      var parent := GetParent(p, f, child);
      DirOfTree(f, parent);
      var name := GetChildName(p, parent, child);
      full := full + [SLASH] + name.value;
      FitsSoFar(NamesTo(f, parent), [NameOf(f.v, parent, child)] + done);
      assert |full| < MAX_PATH;
      done := [NameOf(f.v, parent, child)] + done;
      child := parent;
    }
    NoNames(f);
    Climbed(done);
    assert |full| <= size by { SameSize(done); assert [] + done == done; }
    assert [] + done == done;
    path := ReversePath(full, Backwards(done));
  }

  /** What has been collected is no longer than the whole path, so it fits full_path_reverse. */
  lemma FitsSoFar(rest: seq<seq<byte>>, done: seq<seq<byte>>)
    ensures |Join(Backwards(done))| <= |Join(rest + done)|
  {
    SameSize(done);
    JoinAppend(rest, done);
    hide Join, Backwards;
  }

  lemma NothingDone(names: seq<seq<byte>>)
    ensures names + [] == names && AllNames([]) && Join(Backwards([])) == []
  {}

  lemma Climbed(done: seq<seq<byte>>)
    requires AllNames(done)
    ensures AllNames(Backwards(done)) && Backwards(Backwards(done)) == done
  {
    BackwardsNames(done);
    BackwardsTwice(done);
  }

  /** The path has the same length in both directions. */
  lemma {:induction false} SameSize(s: seq<seq<byte>>)
    ensures |Join(Backwards(s))| == |Join(s)|
  {
    if s != [] {
      SameSize(s[1..]);
      JoinAppend(Backwards(s[1..]), [s[0]]);
      JoinOne(s[0]);
    }
  }

  // ---------- sys_chdir ----------

  /** sys_chdir: the current directory changes exactly when the path leads to a directory. */
  method SysChdir(p: Partition, ghost f: Fs, path: seq<byte>, cwd: nat, junk: nat) returns (ret: int, newCwd: nat)
    requires p.Valid() && f.v == p.View() && FsInv(f)
    requires RootSpelling(path) || (path != [] && path[0] == SLASH && 1 < |path| < MAX_PATH && AllNames(Components(path)) && Components(path) != [])
    ensures ret == (if Resolve(f.v, path).AtDir? then 0 else -1)
    ensures newCwd == if ret == 0 then Resolve(f.v, path).inode else cwd
    ensures ret == 0 ==> CwdOk(f, newCwd) && Resolve(f.v, CwdPath(f, newCwd)).AtDir? && Resolve(f.v, CwdPath(f, newCwd)).inode == newCwd
  {
    RootShort(path);
    hide FsInv, Inv, Resolve, RootSpelling, Components, AllNames, CwdPath, Join;
    var r, rec := SearchFile(p, f, path, junk);
    ret, newCwd := -1, cwd;
    if r.Some? {
      if rec.ftype == DIRECTORY {
        newCwd, ret := r.value, 0;
        ChdirThenGetcwd(f, path);
      }
    }
  }

  lemma RootShort(path: seq<byte>)
    requires RootSpelling(path) || (path != [] && path[0] == SLASH && |path| < MAX_PATH)
    ensures path != [] && path[0] == SLASH && |path| < MAX_PATH
  {}
}
