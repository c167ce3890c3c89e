/** The state of `FakeFileSystem` as values: the directory tree held in `files`
    (nested Python dicts whose leaves are content strings) and the cursor
    `current_path`, with the primitive operations `ls`, `touch`, `echo`, `cat`,
    `mkdir` and `cd` as functions from the old state to the new state and the
    reply. The class in fakefs.dfy is proved to follow these functions. */
module Vfs {
  import opened PyStr

  datatype Option<T> = None | Some(value: T)

  /** A file is its content; a directory is a dict from names to nodes, kept as
      the sequence of its (name, node) pairs in the dict's insertion order. */
  datatype Node = File(content: string) | Dir(entries: seq<(string, Node)>)

  type Entries = seq<(string, Node)>

  /** The keys of a directory, in insertion order. */
  function Names(es: Entries): (ns: seq<string>)
    ensures |ns| == |es|
    ensures forall i :: 0 <= i < |es| ==> ns[i] == es[i].0
  {
    if es == [] then [] else [es[0].0] + Names(es[1..])
  }

  predicate Distinct(ns: seq<string>)
  {
    forall i, j :: 0 <= i < j < |ns| ==> ns[i] != ns[j]
  }

  // ---------------------------------------------------------------------------
  // One directory: `d.get(name)` and `d[name] = v`

  /** `d.get(name)`: the node stored under `name`, if any. */
  function Lookup(es: Entries, name: string): (r: Option<Node>)
    ensures r.Some? <==> name in Names(es)
    ensures r.Some? ==> (name, r.value) in es
  {
    if es == [] then None
    else if es[0].0 == name then Some(es[0].1)
    else Lookup(es[1..], name)
  }

  /** `d[name] = v`: an existing key keeps its position and gets the new node, a
      new key is appended; every other key keeps its node. */
  function Put(es: Entries, name: string, v: Node): Entries
  {
    if es == [] then [(name, v)]
    else if es[0].0 == name then [(name, v)] + es[1..]
    else [es[0]] + Put(es[1..], name, v)
  }

  /** After `d[name] = v`, `d.get(name)` is `v` and every other key gets what
      it got before. */
  lemma {:induction false} PutLookup(es: Entries, name: string, v: Node)
    ensures Lookup(Put(es, name, v), name) == Some(v)
    ensures forall other :: other != name ==> Lookup(Put(es, name, v), other) == Lookup(es, other)
  {
    var r := Put(es, name, v);
    if es != [] {
      if es[0].0 == name {
        assert r[1..] == es[1..];
      } else {
        PutLookup(es[1..], name, v);
        assert r[1..] == Put(es[1..], name, v);
      }
    }
  }

  /** `d[name] = v` keeps the keys in place and appends a new one. */
  lemma {:induction false} PutNames(es: Entries, name: string, v: Node)
    ensures Names(Put(es, name, v)) == if name in Names(es) then Names(es) else Names(es) + [name]
  {
    if es != [] {
      var r := Put(es, name, v);
      assert Names(es) == [es[0].0] + Names(es[1..]);
      if es[0].0 == name {
        assert r == [(name, v)] + es[1..];
        assert Names(r) == [name] + Names(es[1..]);
      } else {
        PutNames(es[1..], name, v);
        var tail := Put(es[1..], name, v);
        assert r == [es[0]] + tail;
        assert Names(r) == [es[0].0] + Names(tail);
        assert name in Names(es) <==> name in Names(es[1..]);
      }
    }
  }

  /** `d[name] = v` adds no entry other than `(name, v)`. */
  lemma {:induction false} PutEntries(es: Entries, name: string, v: Node)
    ensures forall e :: e in Put(es, name, v) ==> e in es || e == (name, v)
  {
    if es != [] && es[0].0 != name {
      PutEntries(es[1..], name, v);
      var r := Put(es, name, v);
      assert r == [es[0]] + Put(es[1..], name, v);
    }
  }

  /** Assigning to a dict never creates a second copy of a key. */
  lemma PutKeepsDistinct(es: Entries, name: string, v: Node)
    requires Distinct(Names(es))
    ensures Distinct(Names(Put(es, name, v)))
  {
    PutNames(es, name, v);
    if name !in Names(es) {
      var ns := Names(es) + [name];
      forall i, j | 0 <= i < j < |ns|
        ensures ns[i] != ns[j]
      {
        assert ns[i] == Names(es)[i];
        if j < |ns| - 1 {
          assert ns[j] == Names(es)[j];
        }
      }
    }
  }

  /** In a directory without repeated keys, `get` finds exactly the stored pairs. */
  lemma LookupDistinct(es: Entries, name: string, v: Node)
    requires Distinct(Names(es))
    ensures Lookup(es, name) == Some(v) <==> (name, v) in es
  {
    if (name, v) in es {
      var ns := Names(es);
      var i :| 0 <= i < |es| && es[i] == (name, v);
      assert ns[i] == name;
      var w := Lookup(es, name).value;
      var j :| 0 <= j < |es| && es[j] == (name, w);
      assert ns[j] == name;
      assert i == j;
    }
  }

  // ---------------------------------------------------------------------------
  // The tree: walking a path and replacing the directory at its end

  /** Every directory of the tree has distinct keys, as a Python dict does. */
  predicate WellFormed(n: Node)
  {
    match n
    case File(_) => true
    case Dir(es) =>
      Distinct(Names(es)) && forall i :: 0 <= i < |es| ==> WellFormed(es[i].1)
  }

  /** `cur = cur[d]` for each `d` in `path`, from `n`; None when a step meets a
      file or a missing key (where Python would raise). */
  function Resolve(n: Node, path: seq<string>): Option<Node>
    decreases path
  {
    if path == [] then Some(n)
    else
      match n
      case File(_) => None
      case Dir(es) =>
        match Lookup(es, path[0])
        case None => None
        case Some(c) => Resolve(c, path[1..])
  }

  /** `path` leads from `n` to a directory. */
  predicate IsDirAt(n: Node, path: seq<string>)
  {
    Resolve(n, path).Some? && Resolve(n, path).value.Dir?
  }

  /** Walking `p + q` is walking `p`, then `q` from where `p` ends. */
  lemma {:induction false} ResolveAppend(n: Node, p: seq<string>, q: seq<string>)
    ensures Resolve(n, p + q) == match Resolve(n, p)
                                 case None => None
                                 case Some(m) => Resolve(m, q)
    decreases p
  {
    if p == [] {
      assert p + q == q;
    } else {
      assert (p + q)[0] == p[0] && (p + q)[1..] == p[1..] + q;
      if n.Dir? && Lookup(n.entries, p[0]).Some? {
        ResolveAppend(Lookup(n.entries, p[0]).value, p[1..], q);
      }
    }
  }

  /** Every prefix of a path to a directory is a path to a directory. */
  lemma DirAtPrefix(n: Node, p: seq<string>, k: nat)
    requires IsDirAt(n, p) && k <= |p|
    ensures IsDirAt(n, p[..k])
  {
    ResolveAppend(n, p[..k], p[k..]);
    assert p[..k] + p[k..] == p;
  }

  /** The nodes reachable in a well-formed tree are well formed. */
  lemma {:induction false} ResolveWellFormed(n: Node, p: seq<string>)
    requires WellFormed(n) && Resolve(n, p).Some?
    ensures WellFormed(Resolve(n, p).value)
    decreases p
  {
    if p != [] {
      var c := Lookup(n.entries, p[0]).value;
      var i :| 0 <= i < |n.entries| && n.entries[i] == (p[0], c);
      ResolveWellFormed(c, p[1..]);
    }
  }

  /** The tree with the directory at `path` replaced by one holding `es`; the
      directories along `path` keep their keys, in their order. */
  function Graft(n: Node, path: seq<string>, es: Entries): (r: Node)
    requires IsDirAt(n, path)
    ensures Resolve(r, path) == Some(Dir(es))
    ensures path != [] ==> r.Dir? && Names(r.entries) == Names(n.entries)
    decreases path
  {
    if path == [] then Dir(es)
    else
      var c := Lookup(n.entries, path[0]).value;
      PutNames(n.entries, path[0], Graft(c, path[1..], es));
      PutLookup(n.entries, path[0], Graft(c, path[1..], es));
      Dir(Put(n.entries, path[0], Graft(c, path[1..], es)))
  }

  /** Grafting a well-formed directory keeps the tree well formed. */
  lemma {:induction false} GraftWellFormed(n: Node, path: seq<string>, es: Entries)
    requires IsDirAt(n, path) && WellFormed(n) && WellFormed(Dir(es))
    ensures WellFormed(Graft(n, path, es))
    decreases path
  {
    if path != [] {
      var c := Lookup(n.entries, path[0]).value;
      var i :| 0 <= i < |n.entries| && n.entries[i] == (path[0], c);
      assert WellFormed(c);
      GraftWellFormed(c, path[1..], es);
      var g := Graft(c, path[1..], es);
      var r := Put(n.entries, path[0], g);
      PutKeepsDistinct(n.entries, path[0], g);
      PutEntries(n.entries, path[0], g);
      forall j | 0 <= j < |r|
        ensures WellFormed(r[j].1)
      {
        assert r[j] in r;
        if r[j] != (path[0], g) {
          var k :| 0 <= k < |n.entries| && n.entries[k] == r[j];
          assert WellFormed(n.entries[k].1);
        }
      }
      assert WellFormed(Dir(r));
    }
  }

  /** `a` is a prefix of `b`. */
  predicate IsPrefix(a: seq<string>, b: seq<string>)
  {
    |a| <= |b| && b[..|a|] == a
  }

  lemma PrefixCons(a: seq<string>, b: seq<string>)
    requires a != [] && b != [] && a[0] == b[0]
    ensures IsPrefix(a, b) <==> IsPrefix(a[1..], b[1..])
  {
    if IsPrefix(a[1..], b[1..]) {
      assert b[..|a|] == [b[0]] + b[1..][..|a| - 1];
      assert a == [a[0]] + a[1..];
    }
    if IsPrefix(a, b) {
      assert b[1..][..|a| - 1] == b[..|a|][1..];
    }
  }

  /** Grafting at `path` leaves every path that neither leads to `path` nor
      continues it resolving as before. */
  lemma {:induction false} GraftElsewhere(n: Node, path: seq<string>, es: Entries, q: seq<string>)
    requires IsDirAt(n, path)
    requires !IsPrefix(q, path) && !IsPrefix(path, q)
    ensures Resolve(Graft(n, path, es), q) == Resolve(n, q)
    decreases path
  {
    var c := Lookup(n.entries, path[0]).value;
    var g := Graft(c, path[1..], es);
    PutLookup(n.entries, path[0], g);
    if q[0] == path[0] {
      PrefixCons(q, path);
      PrefixCons(path, q);
      GraftElsewhere(c, path[1..], es, q[1..]);
    }
  }

  /** Below `path`, the grafted tree is the grafted directory. */
  lemma GraftBelow(n: Node, path: seq<string>, es: Entries, q: seq<string>)
    requires IsDirAt(n, path)
    ensures Resolve(Graft(n, path, es), path + q) == Resolve(Dir(es), q)
  {
    ResolveAppend(Graft(n, path, es), path, q);
  }

  // ---------------------------------------------------------------------------
  // The session filesystem

  /** `self.files` and `self.current_path`. */
  datatype Fs = Fs(files: Node, currentPath: seq<string>)

  const RootName: string := "root"

  /** The cursor invariant: the path starts at "root" and walks to a directory;
      the top level holds "root" alone; every dict has distinct keys. */
  predicate Valid(s: Fs)
  {
    && s.files.Dir? && Names(s.files.entries) == [RootName]
    && |s.currentPath| >= 1 && s.currentPath[0] == RootName
    && IsDirAt(s.files, s.currentPath)
    && WellFormed(s.files)
  }

  /** `FakeFileSystem()`: an empty "root" directory, with the cursor on it. */
  function Init(): (s: Fs)
    ensures Valid(s)
    ensures Cwd(s) == []
  {
    var s := Fs(Dir([(RootName, Dir([]))]), [RootName]);
    assert Names(s.files.entries) == [RootName];
    assert Resolve(s.files, [RootName]) == Resolve(Dir([]), []);
    s
  }

  /** `current_dir()`: the directory under the cursor. */
  function Cwd(s: Fs): (es: Entries)
    requires Valid(s)
    ensures WellFormed(Dir(es))
  {
    ResolveWellFormed(s.files, s.currentPath);
    Resolve(s.files, s.currentPath).value.entries
  }

  /** `current_dir()[name] = node`, shared by `touch`, `echo` and `mkdir`: the
      cursor stays, the current directory gets the assignment. */
  function Write(s: Fs, name: string, node: Node): (r: Fs)
    requires Valid(s) && WellFormed(node)
    ensures Valid(r)
    ensures r.currentPath == s.currentPath
    ensures Cwd(r) == Put(Cwd(s), name, node)
  {
    var es := Put(Cwd(s), name, node);
    PutKeepsDistinct(Cwd(s), name, node);
    PutEntries(Cwd(s), name, node);
    assert WellFormed(Dir(es)) by {
      forall j | 0 <= j < |es|
        ensures WellFormed(es[j].1)
      {
        assert es[j] in es;
        if es[j] != (name, node) {
          var i :| 0 <= i < |Cwd(s)| && Cwd(s)[i] == es[j];
        }
      }
    }
    GraftWellFormed(s.files, s.currentPath, es);
    Fs(Graft(s.files, s.currentPath, es), s.currentPath)
  }

  /** A write touches only the current directory's entry `name`: every path that
      neither leads to the current directory nor goes through that entry
      resolves as before. */
  lemma WriteElsewhere(s: Fs, name: string, node: Node, q: seq<string>)
    requires Valid(s) && WellFormed(node)
    requires !IsPrefix(q, s.currentPath) && !IsPrefix(s.currentPath + [name], q)
    ensures Resolve(Write(s, name, node).files, q) == Resolve(s.files, q)
  {
    var es := Put(Cwd(s), name, node);
    assert Write(s, name, node).files == Graft(s.files, s.currentPath, es);
    GraftPutElsewhere(s.files, s.currentPath, name, node, q);
  }

  /** Assigning `name` in the directory at `p` leaves every path that neither
      leads to `p` nor goes through `p + [name]` resolving as before. */
  lemma GraftPutElsewhere(n: Node, p: seq<string>, name: string, v: Node, q: seq<string>)
    requires IsDirAt(n, p)
    requires !IsPrefix(q, p) && !IsPrefix(p + [name], q)
    ensures Resolve(Graft(n, p, Put(Resolve(n, p).value.entries, name, v)), q) == Resolve(n, q)
  {
    var d := Resolve(n, p).value.entries;
    var es := Put(d, name, v);
    if IsPrefix(p, q) {
      var rest := q[|p|..];
      assert q == p + rest;
      assert rest != [] by { assert q[..|q|] == q; }
      assert rest[0] != name by { assert q[..|p| + 1] == p + [rest[0]]; }
      GraftBelow(n, p, es, rest);
      ResolveAppend(n, p, rest);
      ResolveBesidePut(d, name, v, rest);
    } else {
      GraftElsewhere(n, p, es, q);
    }
  }

  /** Below a sibling of `name`, a directory resolves as before `d[name] = v`. */
  lemma ResolveBesidePut(es: Entries, name: string, v: Node, q: seq<string>)
    requires q != [] && q[0] != name
    ensures Resolve(Dir(Put(es, name, v)), q) == Resolve(Dir(es), q)
  {
    PutLookup(es, name, v);
  }

  /** `touch(name)`: `name` becomes an empty file. */
  function Touch(s: Fs, name: string): (r: Fs)
    requires Valid(s)
    ensures Valid(r)
  {
    Write(s, name, File(""))
  }

  /** `echo(text, name)`: `name` becomes a file holding `text`. */
  function Echo(s: Fs, text: string, name: string): (r: (Fs, string))
    requires Valid(s)
    ensures Valid(r.0)
  {
    (Write(s, name, File(text)), "Content written to " + name)
  }

  /** A Python value `handle` can return: None, a string, or (from `cat` on a
      directory) the directory's dict itself. */
  datatype Reply = NoReply | Text(text: string) | Mapping(entries: Entries)

  /** The value of a stored node as Python sees it. */
  function AsReply(n: Node): Reply
  {
    match n
    case File(c) => Text(c)
    case Dir(es) => Mapping(es)
  }

  const FileNotFound: string := "File not found"

  /** `cat(name)`: `current_dir().get(name, "File not found")`, which returns a
      directory's dict as readily as a file's content. */
  function Cat(s: Fs, name: string): (r: Reply)
    requires Valid(s)
    ensures name !in Names(Cwd(s)) ==> r == Text(FileNotFound)
    ensures forall n :: (name, n) in Cwd(s) ==> r == AsReply(n)
  {
    assert forall n :: (name, n) in Cwd(s) ==> Lookup(Cwd(s), name) == Some(n) by {
      forall n | (name, n) in Cwd(s) ensures Lookup(Cwd(s), name) == Some(n) {
        LookupDistinct(Cwd(s), name, n);
      }
    }
    match Lookup(Cwd(s), name)
    case None => Text(FileNotFound)
    case Some(n) => AsReply(n)
  }

  const AlreadyExists: string := "Directory already exists"

  /** `mkdir(name)`. */
  function Mkdir(s: Fs, name: string): (r: (Fs, string))
    requires Valid(s)
    ensures Valid(r.0) && r.0.currentPath == s.currentPath
    ensures name !in Names(Cwd(s)) ==>
      && r.1 == "Directory '" + name + "' created"
      && Names(Cwd(r.0)) == Names(Cwd(s)) + [name]
      && Lookup(Cwd(r.0), name) == Some(Dir([]))
    ensures name !in Names(Cwd(s)) ==>
      r.0 == Write(s, name, Dir([])) && Cwd(r.0) == Cwd(s) + [(name, Dir([]))]
    ensures name in Names(Cwd(s)) ==> r == (s, AlreadyExists)
  {
    if name !in Names(Cwd(s)) then
      PutNames(Cwd(s), name, Dir([]));
      PutLookup(Cwd(s), name, Dir([]));
      PutAppends(Cwd(s), name, Dir([]));
      (Write(s, name, Dir([])), "Directory '" + name + "' created")
    else (s, AlreadyExists)
  }

  const DirNotFound: string := "Directory not found"

  /** `cd(name)`. */
  function Cd(s: Fs, name: string): (r: (Fs, string))
    requires Valid(s)
    ensures Valid(r.0)
    ensures r.0.files == s.files
    ensures name == ".." && |s.currentPath| == 1 ==> r == (s, "")
    ensures name == ".." && |s.currentPath| > 1 ==>
      r.0.currentPath == s.currentPath[..|s.currentPath| - 1] && r.1 == ""
    ensures name != ".." ==>
      if exists es :: (name, Dir(es)) in Cwd(s) then
        r.0.currentPath == s.currentPath + [name] && r.1 == ""
      else r == (s, DirNotFound)
  {
    var p := s.currentPath;
    if name == ".." then
      if |p| > 1 then
        DirAtPrefix(s.files, p, |p| - 1);
        (s.(currentPath := p[..|p| - 1]), "")
      else (s, "")
    else if Lookup(Cwd(s), name).Some? && Lookup(Cwd(s), name).value.Dir? then
      ResolveAppend(s.files, p, [name]);
      (s.(currentPath := p + [name]), "")
    else
      assert !exists es :: (name, Dir(es)) in Cwd(s) by {
        forall es | (name, Dir(es)) in Cwd(s) ensures false {
          LookupDistinct(Cwd(s), name, Dir(es));
        }
      }
      (s, DirNotFound)
  }

  // ---------------------------------------------------------------------------
  // ls

  predicate Hidden(name: string)
  {
    StartsWith(name, ".")
  }

  /** How `ls` shows an entry: a directory with a trailing "/". */
  function Display(e: (string, Node)): string
  {
    if e.1.Dir? then e.0 + "/" else e.0
  }

  /** The strings `ls` collects, built back to front as its loop appends them. */
  function LsItems(es: Entries, all: bool): seq<string>
  {
    if es == [] then []
    else
      var last := es[|es| - 1];
      LsItems(es[..|es| - 1], all) + (if Hidden(last.0) && !all then [] else [Display(last)])
  }

  /** `ls(all)`: the collected strings joined by newlines. */
  function Ls(s: Fs, all: bool): string
    requires Valid(s)
  {
    Join(LsItems(Cwd(s), all), '\n')
  }

  /** The entries `ls` shows: all of them with the flag, else those whose name
      does not start with "."; in directory order. */
  function Visible(es: Entries, all: bool): (r: Entries)
    ensures forall e :: e in r <==> e in es && (all || !Hidden(e.0))
  {
    if es == [] then []
    else (if Hidden(es[0].0) && !all then [] else [es[0]]) + Visible(es[1..], all)
  }

  /** The display strings of some entries, one per entry, in order. */
  function Displays(es: Entries): (r: seq<string>)
    ensures |r| == |es| && forall i :: 0 <= i < |es| ==> r[i] == Display(es[i])
  {
    if es == [] then [] else [Display(es[0])] + Displays(es[1..])
  }

  lemma {:induction false} VisibleAppend(a: Entries, b: Entries, all: bool)
    ensures Visible(a + b, all) == Visible(a, all) + Visible(b, all)
    decreases |a|
  {
    if a == [] {
      assert a + b == b;
    } else {
      assert (a + b)[0] == a[0] && (a + b)[1..] == a[1..] + b;
      VisibleAppend(a[1..], b, all);
    }
  }

  /** `ls` lists exactly the display strings of the visible entries, in
      directory order. */
  lemma {:induction false} LsItemsIsDisplaysOfVisible(es: Entries, all: bool)
    ensures LsItems(es, all) == Displays(Visible(es, all))
    decreases |es|
  {
    if es != [] {
      var init, last := es[..|es| - 1], es[|es| - 1];
      assert es == init + [last];
      var shown := if Hidden(last.0) && !all then [] else [last];
      LsItemsIsDisplaysOfVisible(init, all);
      VisibleAppend(init, [last], all);
      assert Visible([last], all) == shown by {
        assert [last][1..] == [];
      }
      DisplaysAppend(Visible(init, all), shown);
      var item := if Hidden(last.0) && !all then [] else [Display(last)];
      assert Displays(shown) == item;
      assert LsItems(es, all) == LsItems(init, all) + item;
    }
  }

  lemma DisplaysAppend(a: Entries, b: Entries)
    ensures Displays(a + b) == Displays(a) + Displays(b)
  {
  }

  /** `ls -la` shows every entry, in directory order, directories with "/". */
  lemma LsAllShowsEverything(es: Entries)
    ensures |LsItems(es, true)| == |es|
    ensures forall i :: 0 <= i < |es| ==> LsItems(es, true)[i] == Display(es[i])
  {
    LsItemsIsDisplaysOfVisible(es, true);
    assert Visible(es, true) == es by {
      VisibleAll(es);
    }
  }

  lemma {:induction false} VisibleAll(es: Entries)
    ensures Visible(es, true) == es
  {
    if es != [] {
      VisibleAll(es[1..]);
      assert es == [es[0]] + es[1..];
    }
  }

  /** A display string starts with "." exactly when the entry's name does. */
  lemma DisplayHidden(e: (string, Node))
    ensures StartsWith(Display(e), ".") <==> Hidden(e.0)
  {
    var name, d := e.0, Display(e);
    if name != [] {
      assert d[0] == name[0] && name[..1] == [name[0]] && d[..1] == [d[0]];
    } else {
      assert d == [] || (d == "/" && d[..1] == ['/']);
    }
  }

  /** Plain `ls` shows no string starting with "." ... */
  lemma LsHidesDotNames(es: Entries)
    ensures forall k :: 0 <= k < |LsItems(es, false)| ==> !StartsWith(LsItems(es, false)[k], ".")
  {
    LsItemsIsDisplaysOfVisible(es, false);
    var v := Visible(es, false);
    forall k | 0 <= k < |v|
      ensures !StartsWith(Displays(v)[k], ".")
    {
      assert v[k] in v;
      DisplayHidden(v[k]);
    }
  }

  /** ... and shows every entry whose name does not start with ".". */
  lemma LsShowsOtherNames(es: Entries, e: (string, Node))
    requires e in es && !Hidden(e.0)
    ensures Display(e) in LsItems(es, false)
  {
    LsItemsIsDisplaysOfVisible(es, false);
    var v := Visible(es, false);
    assert e in v;
    var i :| 0 <= i < |v| && v[i] == e;
    assert Displays(v)[i] == Display(e);
  }

  /** When no name holds a newline and something is shown, splitting the
      output of `ls` at newlines gives back the shown strings, one per line. */
  lemma LsLines(s: Fs, all: bool)
    requires Valid(s) && LsItems(Cwd(s), all) != []
    requires forall e :: e in Cwd(s) ==> '\n' !in e.0
    ensures SplitOn(Ls(s, all), '\n') == LsItems(Cwd(s), all)
  {
    var es := Cwd(s);
    LsItemsIsDisplaysOfVisible(es, all);
    var v := Visible(es, all);
    forall i | 0 <= i < |v|
      ensures '\n' !in Displays(v)[i]
    {
      assert v[i] in v;
      assert v[i].1.Dir? ==> Display(v[i]) == v[i].0 + "/";
    }
    SplitOnJoin(LsItems(es, all), '\n');
  }

  // ---------------------------------------------------------------------------
  // What the shell's commands promise, stated over the model

  /** `touch X` then `cat X` answers the empty string. */
  lemma TouchThenCat(s: Fs, name: string)
    requires Valid(s)
    ensures Cat(Touch(s, name), name) == Text("")
  {
    PutLookup(Cwd(s), name, File(""));
  }

  /** `echo(text, X)` then `cat X` answers `text`, whatever X held before. */
  lemma EchoThenCat(s: Fs, text: string, name: string)
    requires Valid(s)
    ensures Cat(Echo(s, text, name).0, name) == Text(text)
  {
    PutLookup(Cwd(s), name, File(text));
  }

  /** A write leaves every other name of the current directory as it was,
      and adds `name` at the end only if it was new. */
  lemma WriteBeside(s: Fs, name: string, node: Node, other: string)
    requires Valid(s) && WellFormed(node) && other != name
    ensures Cat(Write(s, name, node), other) == Cat(s, other)
    ensures Names(Cwd(Write(s, name, node))) ==
      if name in Names(Cwd(s)) then Names(Cwd(s)) else Names(Cwd(s)) + [name]
  {
    PutNames(Cwd(s), name, node);
    PutLookup(Cwd(s), name, node);
  }

  /** A second `mkdir X` reports "already exists" and changes nothing. */
  lemma MkdirTwice(s: Fs, name: string)
    requires Valid(s) && name !in Names(Cwd(s))
    ensures Mkdir(Mkdir(s, name).0, name) == (Mkdir(s, name).0, AlreadyExists)
  {
  }

  /** After `cd X`, the current directory is the directory stored under X. */
  lemma CdEntersChild(s: Fs, name: string, es: Entries)
    requires Valid(s) && name != ".." && (name, Dir(es)) in Cwd(s)
    ensures Cwd(Cd(s, name).0) == es
  {
    LookupDistinct(Cwd(s), name, Dir(es));
    ResolveAppend(s.files, s.currentPath, [name]);
  }

  /** `cd X` then `cd ..` comes back to the same state. */
  lemma CdChildThenParent(s: Fs, name: string, es: Entries)
    requires Valid(s) && name != ".." && (name, Dir(es)) in Cwd(s)
    ensures Cd(Cd(s, name).0, "..") == (s, "")
  {
    var t := Cd(s, name).0;
    assert t.currentPath[..|t.currentPath| - 1] == s.currentPath;
  }

  /** `mkdir X; cd X; ls` lists nothing, and back in the parent `ls -la` lists
      what it did before plus "X/" at the end. */
  lemma MkdirThenList(s: Fs, name: string)
    requires Valid(s) && name !in Names(Cwd(s)) && name != ".."
    ensures Ls(Cd(Mkdir(s, name).0, name).0, true) == ""
    ensures LsItems(Cwd(Mkdir(s, name).0), true) == LsItems(Cwd(s), true) + [name + "/"]
  {
    var t := Mkdir(s, name).0;
    LookupDistinct(Cwd(t), name, Dir([]));
    CdEntersChild(t, name, []);
    var es := Cwd(s);
    assert Cwd(t) == Put(es, name, Dir([]));
    PutAppends(es, name, Dir([]));
    assert Cwd(t) == es + [(name, Dir([]))];
    assert (es + [(name, Dir([]))])[..|es|] == es;
  }

  /** Assigning a new key appends it. */
  lemma {:induction false} PutAppends(es: Entries, name: string, v: Node)
    requires name !in Names(es)
    ensures Put(es, name, v) == es + [(name, v)]
  {
    if es == [] {
      assert es + [(name, v)] == [(name, v)];
    } else {
      assert es[0].0 != name by {
        assert Names(es)[0] == es[0].0;
      }
      assert name !in Names(es[1..]) by {
        assert Names(es) == [es[0].0] + Names(es[1..]);
      }
      PutAppends(es[1..], name, v);
      PutCons(es, name, v);
      assert [es[0]] + (es[1..] + [(name, v)]) == es + [(name, v)];
    }
  }

  lemma PutCons(es: Entries, name: string, v: Node)
    requires es != [] && es[0].0 != name
    ensures Put(es, name, v) == [es[0]] + Put(es[1..], name, v)
  {
  }

  /** Replacing a node by one of the same kind does not change what `ls` shows. */
  lemma {:induction false} PutSameKindListing(es: Entries, name: string, v: Node, all: bool)
    requires Lookup(es, name).Some? && Lookup(es, name).value.Dir? == v.Dir?
    ensures LsItems(Put(es, name, v), all) == LsItems(es, all)
  {
    LsItemsIsDisplaysOfVisible(es, all);
    LsItemsIsDisplaysOfVisible(Put(es, name, v), all);
    SameKindShown(es, name, v, all);
  }

  lemma {:induction false} SameKindShown(es: Entries, name: string, v: Node, all: bool)
    requires Lookup(es, name).Some? && Lookup(es, name).value.Dir? == v.Dir?
    ensures Displays(Visible(Put(es, name, v), all)) == Displays(Visible(es, all))
  {
    var r := Put(es, name, v);
    var head := if Hidden(es[0].0) && !all then [] else [es[0]];
    assert Visible(es, all) == head + Visible(es[1..], all);
    DisplaysAppend(head, Visible(es[1..], all));
    if es[0].0 == name {
      var head' := if Hidden(name) && !all then [] else [(name, v)];
      assert r[1..] == es[1..];
      assert Visible(r, all) == head' + Visible(es[1..], all);
      DisplaysAppend(head', Visible(es[1..], all));
      assert Displays(head') == Displays(head);
    } else {
      var tail := Put(es[1..], name, v);
      assert r == [es[0]] + tail && r[1..] == tail;
      SameKindShown(es[1..], name, v, all);
      assert Visible(r, all) == head + Visible(tail, all);
      DisplaysAppend(head, Visible(tail, all));
    }
  }

  /** Grafting at `p` changes nothing that `ls` shows in the directories that
      lead to `p`. */
  lemma GraftKeepsAncestorListing(n: Node, p: seq<string>, es: Entries, k: nat, all: bool)
    requires IsDirAt(n, p) && k < |p|
    ensures IsDirAt(n, p[..k]) && IsDirAt(Graft(n, p, es), p[..k])
    ensures LsItems(Resolve(Graft(n, p, es), p[..k]).value.entries, all)
         == LsItems(Resolve(n, p[..k]).value.entries, all)
  {
    var q, rest := p[..k], p[k..];
    assert p == q + rest;
    DirAtPrefix(n, p, k);
    var d := Resolve(n, q).value;
    ResolveAppend(n, q, rest);
    GraftCompose(n, q, rest, es);
    GraftTopListing(d, rest, es, all);
  }

  /** Grafting at `q + rest` is grafting at `q` the directory found there with
      `rest` grafted inside it. */
  lemma {:induction false} GraftCompose(n: Node, q: seq<string>, rest: seq<string>, es: Entries)
    requires IsDirAt(n, q + rest) && IsDirAt(n, q)
    requires IsDirAt(Resolve(n, q).value, rest)
    ensures Graft(n, q + rest, es) == Graft(n, q, Graft(Resolve(n, q).value, rest, es).entries)
    decreases q
  {
    var d := Resolve(n, q).value;
    if q == [] {
      assert q + rest == rest;
    } else {
      var c := Lookup(n.entries, q[0]).value;
      assert (q + rest)[0] == q[0] && (q + rest)[1..] == q[1..] + rest;
      assert Resolve(c, q[1..]) == Resolve(n, q);
      ResolveAppend(c, q[1..], rest);
      GraftCompose(c, q[1..], rest, es);
    }
  }

  /** Grafting below the top directory changes nothing that `ls` shows there. */
  lemma GraftTopListing(n: Node, p: seq<string>, es: Entries, all: bool)
    requires IsDirAt(n, p) && p != []
    ensures Graft(n, p, es).Dir?
    ensures LsItems(Graft(n, p, es).entries, all) == LsItems(n.entries, all)
  {
    var c := Lookup(n.entries, p[0]).value;
    var g := Graft(c, p[1..], es);
    assert Graft(n, p, es) == Dir(Put(n.entries, p[0], g));
    assert c.Dir? && g.Dir?;
    PutSameKindListing(n.entries, p[0], g, all);
  }

  /** Writing in the current directory changes nothing that `ls` shows one
      level up. */
  lemma WriteKeepsParentListing(s: Fs, name: string, node: Node, all: bool)
    requires Valid(s) && WellFormed(node) && |s.currentPath| > 1
    ensures LsItems(Cwd(Cd(Write(s, name, node), "..").0), all) == LsItems(Cwd(Cd(s, "..").0), all)
  {
    var p := s.currentPath;
    GraftKeepsAncestorListing(s.files, p, Put(Cwd(s), name, node), |p| - 1, all);
  }
}
