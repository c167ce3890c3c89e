/** `FakeFileSystem.handle`: the micro-parser that turns one command line into a
    command, and the dispatch of that command to one filesystem operation. */
module Interpreter {
  import opened PyStr
  import Vfs

  /** What `handle` makes of a line. */
  datatype Command =
    | Echo(text: string, target: string)  // `echo ... > target`
    | Empty                               // no token at all
    | Exit
    | Ls(all: bool)
    | Touch(name: string)
    | Mkdir(name: string)
    | Cd(name: string)
    | Cat(name: string)
    | Invalid

  /** Replies `handle` produces itself, besides those of the filesystem. */
  const ExitSignal: string := "exit"
  const InvalidCommand: string := "Invalid command"

  /** The test for the redirect form: a line that starts with "echo" (not
      necessarily as a whole word) and holds a ">" anywhere. */
  predicate IsRedirect(cmd: string)
  {
    StartsWith(cmd, "echo") && '>' in cmd
  }

  /** Dispatch on the whitespace-separated tokens of a line. */
  function Dispatch(args: seq<string>): Command
  {
    if args == [] then Empty
    else if args[0] == "exit" then Exit
    else if args[0] == "ls" then Ls(|args| > 1 && args[1] == "-la")
    else if args[0] == "touch" && |args| > 1 then Touch(args[1])
    else if args[0] == "mkdir" && |args| > 1 then Mkdir(args[1])
    else if args[0] == "cd" && |args| > 1 then Cd(args[1])
    else if args[0] == "cat" && |args| > 1 then Cat(args[1])
    else Invalid
  }

  /** The parsing half of `handle`: the redirect form first, split at the first
      ">", with every "echo" removed from the left part, which is then stripped
      of whitespace and of double quotes; otherwise dispatch on `cmd.split()`. */
  function Parse(cmd: string): Command
  {
    if IsRedirect(cmd) then
      var parts := SplitOnce(cmd, '>');
      Echo(StripQuotes(Strip(RemoveAll(parts.0, "echo"))), Strip(parts.1))
    else
      Dispatch(Split(cmd))
  }

  /** No tokens give None; an unknown verb, or one of the four verbs that take
      an argument without one, gives "Invalid command"; otherwise the argument
      is the second token. */
  lemma DispatchShape(args: seq<string>)
    ensures Dispatch(args) == Empty <==> args == []
    ensures Dispatch(args) == Invalid <==>
      args != [] && args[0] != "exit" && args[0] != "ls"
      && !(|args| > 1 && args[0] in ["touch", "mkdir", "cd", "cat"])
    ensures var c := Dispatch(args);
      c.Touch? || c.Mkdir? || c.Cd? || c.Cat? ==> |args| > 1 && c.name == args[1]
  {
  }

  /** The redirect path is taken exactly for a line starting with "echo" and
      holding ">"; None comes exactly from an all-whitespace line; the names
      the other commands get hold no whitespace. */
  lemma ParseShape(cmd: string)
    ensures Parse(cmd).Echo? <==> IsRedirect(cmd)
    ensures Parse(cmd) == Empty <==> forall k :: 0 <= k < |cmd| ==> IsSpace(cmd[k])
    ensures var c := Parse(cmd);
      c.Touch? || c.Mkdir? || c.Cd? || c.Cat? ==> IsWord(c.name)
  {
    SplitEmptyIff(cmd);
    DispatchShape(Split(cmd));
    if IsRedirect(cmd) {
      assert !IsSpace(cmd[0]) by {
        assert cmd[..4] == "echo";
      }
    }
  }

  /** The acting half of `handle`: the one operation a parsed command names;
      the new state and the returned Python value. */
  function Perform(s: Vfs.Fs, c: Command): (r: (Vfs.Fs, Vfs.Reply))
    requires Vfs.Valid(s)
    ensures Vfs.Valid(r.0)
    ensures r.0.currentPath == s.currentPath || c.Cd?
    ensures r.0.files == s.files || c.Echo? || c.Touch? || c.Mkdir?
    ensures r.1 == Vfs.NoReply <==> c == Empty
  {
    match c
    case Echo(text, target) =>
      var (t, msg) := Vfs.Echo(s, text, target);
      (t, Vfs.Text(msg))
    case Empty => (s, Vfs.NoReply)
    case Exit => (s, Vfs.Text(ExitSignal))
    case Ls(all) => (s, Vfs.Text(Vfs.Ls(s, all)))
    case Touch(name) => (Vfs.Touch(s, name), Vfs.Text("Created file " + name))
    case Mkdir(name) =>
      var (t, msg) := Vfs.Mkdir(s, name);
      (t, Vfs.Text(msg))
    case Cd(name) =>
      var (t, msg) := Vfs.Cd(s, name);
      (t, Vfs.Text(msg))
    case Cat(name) => (s, Vfs.Cat(s, name))
    case Invalid => (s, Vfs.Text(InvalidCommand))
  }

  /** `handle(cmd)`: parse, then perform. */
  function Step(s: Vfs.Fs, cmd: string): (r: (Vfs.Fs, Vfs.Reply))
    requires Vfs.Valid(s)
    ensures Vfs.Valid(r.0)
    ensures r.0.currentPath == s.currentPath || Parse(cmd).Cd?
    ensures r.0.files == s.files || Parse(cmd).Echo? || Parse(cmd).Touch? || Parse(cmd).Mkdir?
    ensures r.1 == Vfs.NoReply <==> Parse(cmd) == Empty
  {
    Perform(s, Parse(cmd))
  }

  // ---------------------------------------------------------------------------
  // What lines of the usual shapes parse to

  /** No character of "echo" is whitespace or a double quote, so padding a text
      with those cannot create an occurrence of "echo". */
  lemma NoEchoInQuoted(text: string)
    requires !Occurs(text, "echo")
    ensures !Occurs(" \"" + text + "\" ", "echo")
  {
    var w := " \"" + text + "\" ";
    forall i | 0 <= i <= |w|
      ensures !StartsWith(w[i..], "echo")
    {
      if i < 2 {
        assert |w[i..]| >= 4 ==> w[i..][..4][0] == w[i] != 'e';
      } else if i + 4 > |w| - 2 {
        assert |w[i..]| >= 4 ==> w[i..][..4][3] == w[i + 3] != 'o';
      } else {
        assert w[i..][..4] == text[i - 2..][..4];
        assert !StartsWith(text[i - 2..], "echo");
      }
    }
  }

  /** The redirect form, for a left part without ">" or a further "echo": the
      text is the left part stripped of whitespace, then of double quotes; the
      target is everything after the first ">", stripped of whitespace. */
  lemma ParseRedirect(a: string, b: string)
    requires '>' !in a && !Occurs(a, "echo")
    ensures Parse("echo" + a + ">" + b) == Echo(StripQuotes(Strip(a)), Strip(b))
  {
    RemoveAllAbsent(a, "echo");
    ParseRedirectBy(a, b, a);
  }

  /** The redirect form with a second "echo" inside the left part: every
      "echo" is deleted, so the text is what surrounds the inner one, joined,
      then stripped of whitespace and of double quotes. */
  lemma ParseRedirectInner(x: string, y: string, b: string)
    requires '>' !in x && '>' !in y && !Occurs(x, "echo") && !Occurs(y, "echo")
    ensures Parse("echo" + x + "echo" + y + ">" + b) == Echo(StripQuotes(Strip(x + y)), Strip(b))
  {
    var a := x + "echo" + y;
    assert "echo" + x + "echo" + y + ">" + b == "echo" + a + ">" + b;
    EchoUnbordered();
    RemoveAllAfterFree(x, "echo", y);
    RemoveAllAbsent(y, "echo");
    ParseRedirectBy(a, b, x + y);
  }

  /** Two occurrences of "echo" cannot overlap. */
  lemma EchoUnbordered()
    ensures Unbordered("echo")
  {
    var pat := "echo";
    forall k | 0 < k < |pat|
      ensures pat[..k] != pat[|pat| - k..]
    {
      assert pat[..k][0] == 'e' && pat[|pat| - k..][0] == pat[|pat| - k] != 'e';
    }
  }

  /** The redirect form, once the "echo"s of the left part are deleted. */
  lemma ParseRedirectBy(a: string, b: string, text: string)
    requires '>' !in a && RemoveAll(a, "echo") == text
    ensures Parse("echo" + a + ">" + b) == Echo(StripQuotes(Strip(text)), Strip(b))
  {
    var cmd := "echo" + a + ">" + b;
    assert cmd == ("echo" + a) + ['>'] + b;
    assert cmd[..4] == "echo";
    assert '>' !in "echo" + a;
    SplitOnceUnique(cmd, '>', "echo" + a, b);
    RemoveAllLeading("echo", a);
  }

  /** `echo "TEXT" > TARGET` writes TEXT to TARGET, the quotes and the padding
      removed, when TEXT holds no ">" and no "echo" and does not itself start
      or end with a double quote. */
  lemma ParseEchoQuoted(text: string, target: string)
    requires '>' !in text && !Occurs(text, "echo")
    requires text == [] || (text[0] != '"' && text[|text| - 1] != '"')
    requires target == [] || (!IsSpace(target[0]) && !IsSpace(target[|target| - 1]))
    ensures Parse("echo \"" + text + "\" > " + target) == Echo(text, target)
  {
    var line := "echo \"" + text + "\" > " + target;
    var a, b := " \"" + text + "\" ", " " + target;
    QuotedLine(text, target);
    assert line == "echo" + a + ">" + b;
    NoEchoInQuoted(text);
    ParseRedirect(a, b);
    assert Parse(line) == Echo(StripQuotes(Strip(a)), Strip(b));
    UnquoteQuoted(text);
    assert StripQuotes(Strip(a)) == text;
    TrimTarget(target);
    assert Strip(b) == target;
  }

  lemma TrimTarget(target: string)
    requires target == [] || (!IsSpace(target[0]) && !IsSpace(target[|target| - 1]))
    ensures Strip(" " + target) == target
  {
    StripPadded(" ", target, [], IsSpace);
    assert " " + target + [] == " " + target;
  }

  lemma QuotedLine(text: string, target: string)
    ensures "echo \"" + text + "\" > " + target
         == "echo" + (" \"" + text + "\" ") + ">" + (" " + target)
  {
  }

  /** Stripping `strip()` then `strip('"')` from ` "TEXT" ` leaves TEXT. */
  lemma UnquoteQuoted(text: string)
    requires text == [] || (text[0] != '"' && text[|text| - 1] != '"')
    ensures StripQuotes(Strip(" \"" + text + "\" ")) == text
  {
    var quoted := "\"" + text + "\"";
    assert " \"" + text + "\" " == " " + quoted + " ";
    StripPadded(" ", quoted, " ", IsSpace);
    StripPadded("\"", text, "\"", IsQuote);
  }

  /** A verb that does not start with "e" followed by one word is dispatched on
      exactly those two tokens. */
  lemma ParseTwoWords(verb: string, spaced: string, arg: string, c: Command)
    requires IsWord(verb) && verb[0] != 'e' && IsWord(arg) && spaced == verb + " "
    requires Dispatch([verb, arg]) == c
    ensures Parse(spaced + arg) == c
  {
    var cmd := spaced + arg;
    assert cmd == verb + " " + arg;
    assert cmd[0] == verb[0];
    assert !StartsWith(cmd, "echo");
    assert Join([verb, arg], ' ') == cmd by {
      assert [verb, arg][1..] == [arg];
    }
    SplitJoin([verb, arg]);
  }

  /** The verbs that take an argument, as words, followed by a space. */
  lemma Verbs()
    ensures IsWord("touch") && IsWord("mkdir") && IsWord("cd") && IsWord("cat") && IsWord("ls")
    ensures "touch"[0] != 'e' && "mkdir"[0] != 'e' && "cd"[0] != 'e' && "cat"[0] != 'e' && "ls"[0] != 'e'
    ensures "touch" + " " == "touch " && "mkdir" + " " == "mkdir " && "cd" + " " == "cd "
    ensures "cat" + " " == "cat " && "ls" + " " == "ls "
  {
  }

  /** Each verb with one argument is dispatched to its command. */
  lemma DispatchVerbs(arg: string)
    ensures Dispatch(["touch", arg]) == Touch(arg)
    ensures Dispatch(["mkdir", arg]) == Mkdir(arg)
    ensures Dispatch(["cd", arg]) == Cd(arg)
    ensures Dispatch(["cat", arg]) == Cat(arg)
    ensures Dispatch(["ls", arg]) == Ls(arg == "-la")
  {
  }

  /** `touch X` reaches `touch` with X. */
  lemma ParseTouch(arg: string)
    requires IsWord(arg)
    ensures Parse("touch " + arg) == Touch(arg)
  {
    Verbs();
    DispatchVerbs(arg);
    ParseTwoWords("touch", "touch ", arg, Touch(arg));
  }

  /** `mkdir X` reaches `mkdir` with X. */
  lemma ParseMkdir(arg: string)
    requires IsWord(arg)
    ensures Parse("mkdir " + arg) == Mkdir(arg)
  {
    Verbs();
    DispatchVerbs(arg);
    ParseTwoWords("mkdir", "mkdir ", arg, Mkdir(arg));
  }

  /** `cd X` reaches `cd` with X. */
  lemma ParseCd(arg: string)
    requires IsWord(arg)
    ensures Parse("cd " + arg) == Cd(arg)
  {
    Verbs();
    DispatchVerbs(arg);
    ParseTwoWords("cd", "cd ", arg, Cd(arg));
  }

  /** `cat X` reaches `cat` with X. */
  lemma ParseCat(arg: string)
    requires IsWord(arg)
    ensures Parse("cat " + arg) == Cat(arg)
  {
    Verbs();
    DispatchVerbs(arg);
    ParseTwoWords("cat", "cat ", arg, Cat(arg));
  }

  /** `ls X` shows hidden names exactly when X is "-la". */
  lemma ParseLsFlag(arg: string)
    requires IsWord(arg)
    ensures Parse("ls " + arg) == Ls(arg == "-la")
  {
    Verbs();
    DispatchVerbs(arg);
    ParseTwoWords("ls", "ls ", arg, Ls(arg == "-la"));
  }

  /** A line of one word that does not start with "e" is dispatched on that word. */
  lemma ParseOneWord(w: string)
    requires IsWord(w) && w[0] != 'e'
    ensures Parse(w) == Dispatch([w])
  {
    assert !StartsWith(w, "echo") by {
      assert |w| >= 4 ==> w[..4][0] == w[0];
    }
    SplitWord(w, []);
    assert w + [] == w;
  }

  /** A verb that needs a name, given none, is an invalid command. */
  lemma ParseLoneVerb(verb: string)
    requires verb in ["touch", "mkdir", "cd", "cat"]
    ensures Parse(verb) == Invalid
  {
    ParseOneWord(verb);
  }

  /** A lone `ls` lists without hidden names. */
  lemma ParseLoneLs(line: string)
    requires line == "ls"
    ensures Parse(line) == Ls(false)
  {
    ParseOneWord(line);
  }

  /** A first token "exit" ends the session, whatever follows it. */
  lemma ParseExitAnyArgs(rest: string)
    requires rest == [] || IsSpace(rest[0])
    ensures Parse("exit" + rest) == Exit
  {
    var cmd := "exit" + rest;
    assert cmd[..4] == "exit";
    SplitWord("exit", rest);
  }

  /** The opening of the session below: `mkdir D`, then `cd D`, from a fresh
      filesystem. */
  lemma SessionOpening(d: string)
    requires IsWord(d) && d != ".."
    ensures
      var (s1, r1) := Step(Vfs.Init(), "mkdir " + d);
      var (s2, r2) := Step(s1, "cd " + d);
      && r1 == Vfs.Text("Directory '" + d + "' created")
      && r2 == Vfs.Text("")
      && Vfs.Cwd(s2) == [] && |s2.currentPath| > 1
      && Vfs.Cwd(Vfs.Cd(s2, "..").0) == [(d, Vfs.Dir([]))]
  {
    var s0 := Vfs.Init();
    ParseMkdir(d);
    var (s1, r1) := Step(s0, "mkdir " + d);
    assert s1 == Vfs.Mkdir(s0, d).0;
    Vfs.PutAppends([], d, Vfs.Dir([]));
    assert Vfs.Cwd(s1) == [(d, Vfs.Dir([]))];
    ParseCd(d);
    var (s2, r2) := Step(s1, "cd " + d);
    assert s2 == Vfs.Cd(s1, d).0;
    Vfs.CdEntersChild(s1, d, []);
    Vfs.CdChildThenParent(s1, d, []);
  }

  /** The middle of the session below: `echo "TEXT" > F`, then `cat F`. */
  lemma SessionWriting(s2: Vfs.Fs, text: string, f: string)
    requires Vfs.Valid(s2)
    requires '>' !in text && !Occurs(text, "echo")
    requires text == [] || (text[0] != '"' && text[|text| - 1] != '"')
    requires IsWord(f)
    ensures
      var (s3, r3) := Step(s2, "echo \"" + text + "\" > " + f);
      var (s4, r4) := Step(s3, "cat " + f);
      && s3 == s4 == Vfs.Write(s2, f, Vfs.File(text))
      && r3 == Vfs.Text("Content written to " + f)
      && r4 == Vfs.Text(text)
  {
    ParseEchoQuoted(text, f);
    ParseCat(f);
    Vfs.EchoThenCat(s2, text, f);
  }

  lemma ParseCdUp(line: string)
    requires line == "cd .."
    ensures Parse(line) == Cd("..")
  {
    ParseCd("..");
    assert "cd " + ".." == "cd ..";
  }

  /** `cd ..` below the top directory moves the cursor one level up. */
  lemma StepCdUp(s: Vfs.Fs, line: string)
    requires Vfs.Valid(s) && |s.currentPath| > 1 && line == "cd .."
    ensures Step(s, line) == (Vfs.Cd(s, "..").0, Vfs.Text(""))
  {
    ParseCdUp(line);
  }

  /** `ls` answers the listing of the current directory without hidden names. */
  lemma StepLs(s: Vfs.Fs, line: string)
    requires Vfs.Valid(s) && line == "ls"
    ensures Step(s, line) == (s, Vfs.Text(Vfs.Ls(s, false)))
  {
    ParseLoneLs(line);
  }

  /** `cat X` answers what `Vfs.Cat` finds under X and changes nothing. */
  lemma StepCat(s: Vfs.Fs, line: string, f: string)
    requires Vfs.Valid(s) && IsWord(f) && line == "cat " + f
    ensures Step(s, line) == (s, Vfs.Cat(s, f))
  {
    ParseCat(f);
  }

  /** The end of the session below: `cd ..`, then `ls`, after a write in a
      subdirectory of a directory that holds only that subdirectory, D. */
  lemma SessionLeaving(s2: Vfs.Fs, d: string, f: string, node: Vfs.Node, up: string, list: string)
    requires up == "cd .." && list == "ls"
    requires Vfs.Valid(s2) && |s2.currentPath| > 1 && Vfs.WellFormed(node)
    requires Vfs.Cwd(Vfs.Cd(s2, "..").0) == [(d, Vfs.Dir([]))] && !Vfs.Hidden(d)
    ensures
      var s4 := Vfs.Write(s2, f, node);
      var (s5, r5) := Step(s4, up);
      var (s6, r6) := Step(s5, list);
      && r5 == Vfs.Text("")
      && r6 == Vfs.Text(d + "/")
  {
    var s4 := Vfs.Write(s2, f, node);
    StepCdUp(s4, up);
    var s5 := Vfs.Cd(s4, "..").0;
    StepLs(s5, list);
    Vfs.WriteKeepsParentListing(s2, f, node, false);
    var only := [(d, Vfs.Dir([]))];
    assert Vfs.LsItems(only, false) == [d + "/"] by {
      assert only[..0] == [];
    }
    assert Vfs.LsItems(Vfs.Cwd(s5), false) == [d + "/"];
  }

  /** A whole session: `mkdir D`, `cd D`, `echo "TEXT" > F`, `cat F`, `cd ..`,
      `ls`, and the replies each line gets. */
  lemma SessionReplies(d: string, text: string, f: string)
    requires IsWord(d) && d != ".." && !Vfs.Hidden(d)
    requires '>' !in text && !Occurs(text, "echo")
    requires text == [] || (text[0] != '"' && text[|text| - 1] != '"')
    requires IsWord(f)
    ensures
      var s0 := Vfs.Init();
      var (s1, r1) := Step(s0, "mkdir " + d);
      var (s2, r2) := Step(s1, "cd " + d);
      var (s3, r3) := Step(s2, "echo \"" + text + "\" > " + f);
      var (s4, r4) := Step(s3, "cat " + f);
      var (s5, r5) := Step(s4, "cd ..");
      var (s6, r6) := Step(s5, "ls");
      && r1 == Vfs.Text("Directory '" + d + "' created")
      && r2 == Vfs.Text("")
      && r3 == Vfs.Text("Content written to " + f)
      && r4 == Vfs.Text(text)
      && r5 == Vfs.Text("")
      && r6 == Vfs.Text(d + "/")
  {
    SessionOpening(d);
    var (s1, r1) := Step(Vfs.Init(), "mkdir " + d);
    var (s2, r2) := Step(s1, "cd " + d);
    SessionWriting(s2, text, f);
    SessionLeaving(s2, d, f, Vfs.File(text), "cd ..", "ls");
  }
}
