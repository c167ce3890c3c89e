/** `FakeFileSystem`: the object the shell drives. Its two fields are updated in
    place by its methods; each method is proved to take the object from a
    state `s` to the state, and to return the value, that the functions of
    `Vfs` and `Interpreter` give for `s`. */
module FakeFs {
  import opened PyStr
  import Vfs
  import Interpreter

  class FakeFileSystem {
    /** `self.files`: a dict whose only key is "root". */
    var files: Vfs.Node
    /** `self.current_path`: the keys leading from `files` to the current
        directory. */
    var currentPath: seq<string>

    /** The object's state as a value. */
    function State(): Vfs.Fs
      reads this
    {
      Vfs.Fs(files, currentPath)
    }

    ghost predicate Valid()
      reads this
    {
      Vfs.Valid(State())
    }

    /** `FakeFileSystem()`. */
    constructor()
      ensures Valid() && State() == Vfs.Init()
    {
      var s := Vfs.Init();
      files := Vfs.Dir([(Vfs.RootName, Vfs.Dir([]))]);
      currentPath := [Vfs.RootName];
      new;
      assert State() == s;
    }

    /** `current_dir()`: follows `currentPath` from the top dict, one key at
        a time. */
    method CurrentDir() returns (cur: Vfs.Entries)
      requires Valid()
      ensures cur == Vfs.Cwd(State())
    {
      var node := files;
      var i := 0;
      while i < |currentPath|
        invariant 0 <= i <= |currentPath|
        invariant Vfs.Resolve(files, currentPath[..i]) == Vfs.Some(node)
      {
        Vfs.DirAtPrefix(files, currentPath, i + 1);
        Vfs.ResolveAppend(files, currentPath[..i], [currentPath[i]]);
        assert currentPath[..i] + [currentPath[i]] == currentPath[..i + 1];
        node := Vfs.Lookup(node.entries, currentPath[i]).value;
        i := i + 1;
      }
      assert currentPath[..i] == currentPath;
      cur := node.entries;
    }

    /** `ls(all)`: one string per shown entry, in the directory's order,
        joined by newlines. */
    method Ls(all: bool) returns (out: string)
      requires Valid()
      ensures out == Vfs.Ls(State(), all)
    {
      var cur := CurrentDir();
      var items: seq<string> := [];
      var i := 0;
      while i < |cur|
        invariant 0 <= i <= |cur|
        invariant items == Vfs.LsItems(cur[..i], all)
      {
        var (name, value) := cur[i];
        assert cur[..i + 1][..i] == cur[..i];
        if !(Vfs.Hidden(name) && !all) {
          items := items + [if value.Dir? then name + "/" else name];
        }
        i := i + 1;
      }
      assert cur[..i] == cur;
      out := Join(items, '\n');
    }

    /** `current_dir()[name] = node`, the assignment shared by `touch`, `echo`
        and `mkdir`. */
    method Assign(name: string, node: Vfs.Node)
      requires Valid() && Vfs.WellFormed(node)
      modifies this
      ensures Valid() && State() == Vfs.Write(old(State()), name, node)
    {
      var cur := CurrentDir();
      ghost var s := State();
      assert Vfs.Write(s, name, node).files == Vfs.Graft(files, currentPath, Vfs.Put(cur, name, node));
      files := Vfs.Graft(files, currentPath, Vfs.Put(cur, name, node));
    }

    /** `touch(name)`. */
    method Touch(name: string)
      requires Valid()
      modifies this
      ensures Valid() && State() == Vfs.Touch(old(State()), name)
    {
      Assign(name, Vfs.File(""));
    }

    /** `echo(text, name)`. */
    method Echo(text: string, name: string) returns (msg: string)
      requires Valid()
      modifies this
      ensures Valid() && (State(), msg) == Vfs.Echo(old(State()), text, name)
    {
      Assign(name, Vfs.File(text));
      msg := "Content written to " + name;
    }

    /** `cat(name)`. */
    method Cat(name: string) returns (r: Vfs.Reply)
      requires Valid()
      ensures r == Vfs.Cat(State(), name)
    {
      var cur := CurrentDir();
      match Vfs.Lookup(cur, name)
      case None => r := Vfs.Text(Vfs.FileNotFound);
      case Some(n) => r := Vfs.AsReply(n);
    }

    /** `mkdir(name)`. */
    method Mkdir(name: string) returns (msg: string)
      requires Valid()
      modifies this
      ensures Valid() && (State(), msg) == Vfs.Mkdir(old(State()), name)
    {
      var cur := CurrentDir();
      if Vfs.Lookup(cur, name).None? {
        Vfs.LookupDistinct(cur, name, Vfs.Dir([]));
        Assign(name, Vfs.Dir([]));
        msg := "Directory '" + name + "' created";
      } else {
        msg := Vfs.AlreadyExists;
      }
    }

    /** `cd(name)`: pops the last key for "..", unless at the top; pushes
        `name` when it names a directory here. */
    method Cd(name: string) returns (msg: string)
      requires Valid()
      modifies this
      ensures Valid() && (State(), msg) == Vfs.Cd(old(State()), name)
    {
      ghost var s := State();
      if name == ".." {
        if |currentPath| > 1 {
          Vfs.DirAtPrefix(files, currentPath, |currentPath| - 1);
          currentPath := currentPath[..|currentPath| - 1];
        }
        msg := "";
        assert Vfs.Cd(s, name) == (State(), msg);
        return;
      }
      var cur := CurrentDir();
      if Vfs.Lookup(cur, name).Some? && Vfs.Lookup(cur, name).value.Dir? {
        currentPath := currentPath + [name];
        msg := "";
        assert Vfs.Cd(s, name) == (State(), msg);
      } else {
        msg := Vfs.DirNotFound;
      }
    }

    /** `handle(cmd)`: the redirect form first, then dispatch on the first
        token of `cmd.split()`. */
    method Handle(cmd: string) returns (r: Vfs.Reply)
      requires Valid()
      modifies this
      ensures Valid() && (State(), r) == Interpreter.Step(old(State()), cmd)
    {
      if StartsWith(cmd, "echo") && '>' in cmd {
        var parts := SplitOnce(cmd, '>');
        var txt := StripQuotes(Strip(RemoveAll(parts.0, "echo")));
        assert Interpreter.Parse(cmd) == Interpreter.Echo(txt, Strip(parts.1));
        var msg := Echo(txt, Strip(parts.1));
        return Vfs.Text(msg);
      }
      var args := Split(cmd);
      assert Interpreter.Parse(cmd) == Interpreter.Dispatch(args);
      if args == [] {
        return Vfs.NoReply;
      }
      var c := args[0];
      if c == "exit" {
        return Vfs.Text(Interpreter.ExitSignal);
      }
      if c == "ls" {
        var out := Ls(|args| > 1 && args[1] == "-la");
        return Vfs.Text(out);
      }
      if c == "touch" && |args| > 1 {
        assert Interpreter.Dispatch(args) == Interpreter.Touch(args[1]);
        Touch(args[1]);
        return Vfs.Text("Created file " + args[1]);
      }
      if c == "mkdir" && |args| > 1 {
        assert Interpreter.Dispatch(args) == Interpreter.Mkdir(args[1]);
        var msg := Mkdir(args[1]);
        return Vfs.Text(msg);
      }
      if c == "cd" && |args| > 1 {
        assert Interpreter.Dispatch(args) == Interpreter.Cd(args[1]);
        var msg := Cd(args[1]);
        return Vfs.Text(msg);
      }
      if c == "cat" && |args| > 1 {
        assert Interpreter.Dispatch(args) == Interpreter.Cat(args[1]);
        r := Cat(args[1]);
        return;
      }
      assert Interpreter.Dispatch(args) == Interpreter.Invalid;
      return Vfs.Text(Interpreter.InvalidCommand);
    }
  }
}
