/** `raw_shell(chan, fs)`: the loop that reads command lines from an SSH channel,
    hands them to `FakeFileSystem.handle` and writes back the replies and the
    prompt. The channel is modelled by what it delivers (a sequence of
    already decoded chunks, possibly ending with the end of input) and by what
    the shell sends on it (a sequence of strings, in order). */
module Session {
  import opened PyStr
  import Vfs
  import Interpreter
  import FakeFs

  /** What one `chan.recv(1024)` gives: the end of input (empty bytes), or a
      chunk of text, already decoded with undecodable bytes dropped. */
  datatype Chunk = Closed | Received(data: string)

  /** Why the loop stopped; `Waiting` when the chunks were used up while it was still
      waiting for input. */
  datatype Ending =
    | Waiting
    | InputClosed    // `if not data: break`
    | ExitRequested  // `if result == "exit": return`
    | Failed         // an exception, caught and logged, ends the session

  /** What the shell has sent, why it stopped, and the filesystem state then. */
  datatype Outcome = Outcome(sent: seq<string>, ending: Ending, fs: Vfs.Fs)

  const Prompt: string := "/$ "

  /** Python truthiness of the value `handle` returned. */
  predicate Truthy(r: Vfs.Reply)
  {
    match r
    case NoReply => false
    case Text(t) => t != []
    case Mapping(es) => es != []
  }

  /** What the loop needs of `fs.handle`: a function of the filesystem state and
      a stripped line, defined on every valid state, that gives the new state
      and the Python value returned. `Interpreter.Step` is the one the shell
      uses. */
  type Handler = (Vfs.Fs, string) --> (Vfs.Fs, Vfs.Reply)

  /** `h` can be applied to any valid state and leaves a valid one. */
  ghost predicate KeepsValid(h: Handler)
  {
    forall s, cmd :: Vfs.Valid(s) ==> h.requires(s, cmd) && Vfs.Valid(h(s, cmd).0)
  }

  /** `handle` is such a handler. */
  lemma StepKeepsValid()
    ensures KeepsValid(Interpreter.Step)
  {
  }

  function Prepend(pre: seq<string>, o: Outcome): (r: Outcome)
    ensures r.sent == pre + o.sent && r.ending == o.ending && r.fs == o.fs
  {
    o.(sent := pre + o.sent)
  }

  /** The loop of `raw_shell` on the chunks still to come: it stops at the end
      of input, and otherwise takes the next chunk, stripped, as a line. */
  function Loop(h: Handler, s: Vfs.Fs, chunks: seq<Chunk>): (o: Outcome)
    requires KeepsValid(h) && Vfs.Valid(s)
    ensures Vfs.Valid(o.fs)
    ensures o.ending == Waiting ==> forall i :: 0 <= i < |chunks| ==> chunks[i].Received?
    decreases |chunks|, 1
  {
    if chunks == [] then Outcome([], Waiting, s)
    else
      match chunks[0]
      case Closed => Outcome([], InputClosed, s)
      case Received(data) => Line(h, s, Strip(data), chunks[1..])
  }

  /** What the loop does with one stripped line: a blank line gets only the
      prompt; any other line is handled, and the loop goes on as `AfterReply`
      says. */
  function Line(h: Handler, s: Vfs.Fs, cmd: string, rest: seq<Chunk>): (o: Outcome)
    requires KeepsValid(h) && Vfs.Valid(s)
    ensures Vfs.Valid(o.fs)
    ensures o.ending == Waiting ==> forall i :: 0 <= i < |rest| ==> rest[i].Received?
    decreases |rest|, 3
  {
    if cmd == [] then Prepend([Prompt], Loop(h, s, rest))
    else
      var (t, result) := h(s, cmd);
      AfterReply(h, t, result, rest)
  }

  /** What the loop does with the value `handle` returned: "exit" ends the
      session; a non-empty string is sent with a newline, then the prompt; a
      falsy value gets only the prompt; a non-empty dict (what `cat` returns
      for a directory) has no `encode`, and the exception ends the session. */
  function AfterReply(h: Handler, t: Vfs.Fs, result: Vfs.Reply, rest: seq<Chunk>): (o: Outcome)
    requires KeepsValid(h) && Vfs.Valid(t)
    ensures Vfs.Valid(o.fs)
    ensures o.ending == Waiting ==> forall i :: 0 <= i < |rest| ==> rest[i].Received?
    decreases |rest|, 2
  {
    if result == Vfs.Text(Interpreter.ExitSignal) then Outcome([], ExitRequested, t)
    else if result.Mapping? && Truthy(result) then Outcome([], Failed, t)
    else if Truthy(result) then Prepend([result.text + "\n", Prompt], Loop(h, t, rest))
    else Prepend([Prompt], Loop(h, t, rest))
  }

  /** The whole of `raw_shell`: the first prompt, then the loop. */
  function Shell(h: Handler, s: Vfs.Fs, chunks: seq<Chunk>): (o: Outcome)
    requires KeepsValid(h) && Vfs.Valid(s)
    ensures o.sent != [] && o.sent[0] == Prompt
  {
    Prepend([Prompt], Loop(h, s, chunks))
  }

  lemma PrependTwice(a: seq<string>, b: seq<string>, o: Outcome)
    ensures Prepend(a, Prepend(b, o)) == Prepend(a + b, o)
  {
    assert a + (b + o.sent) == (a + b) + o.sent;
  }

  /** `raw_shell(chan, fs)` over the chunks `chan` delivers: returns what it
      sent and why it stopped, with `fs` updated by every line it handled. */
  method RawShell(fs: FakeFs.FakeFileSystem, chunks: seq<Chunk>) returns (sent: seq<string>, ending: Ending)
    requires fs.Valid()
    modifies fs
    ensures fs.Valid()
    ensures Outcome(sent, ending, fs.State()) == Shell(Interpreter.Step, old(fs.State()), chunks)
  {
    StepKeepsValid();
    ghost var whole := Shell(Interpreter.Step, fs.State(), chunks);
    sent := [Prompt];
    var i := 0;
    while true
      invariant 0 <= i <= |chunks|
      invariant fs.Valid()
      invariant whole == Prepend(sent, Loop(Interpreter.Step, fs.State(), chunks[i..]))
      decreases |chunks| - i
    {
      if i == |chunks| {
        return sent, Waiting;
      }
      ghost var s := fs.State();
      assert chunks[i..][0] == chunks[i] && chunks[i..][1..] == chunks[i + 1..];
      if chunks[i].Closed? {
        return sent, InputClosed;
      }
      var cmd := Strip(chunks[i].data);
      if cmd == [] {
        assert Loop(Interpreter.Step, s, chunks[i..]) == Line(Interpreter.Step, s, cmd, chunks[i + 1..]);
        PrependTwice(sent, [Prompt], Loop(Interpreter.Step, s, chunks[i + 1..]));
        sent := sent + [Prompt];
        i := i + 1;
        continue;
      }
      ghost var step := Interpreter.Step(s, cmd);
      assert Loop(Interpreter.Step, s, chunks[i..]) == Line(Interpreter.Step, s, cmd, chunks[i + 1..]);
      assert Line(Interpreter.Step, s, cmd, chunks[i + 1..]) == AfterReply(Interpreter.Step, step.0, step.1, chunks[i + 1..]);
      var result := fs.Handle(cmd);
      assert (fs.State(), result) == step;
      if result == Vfs.Text(Interpreter.ExitSignal) {
        return sent, ExitRequested;
      }
      if Truthy(result) {
        if result.Mapping? {
          return sent, Failed;
        }
        PrependTwice(sent, [result.text + "\n", Prompt], Loop(Interpreter.Step, fs.State(), chunks[i + 1..]));
        sent := sent + [result.text + "\n", Prompt];
      } else {
        PrependTwice(sent, [Prompt], Loop(Interpreter.Step, fs.State(), chunks[i + 1..]));
        sent := sent + [Prompt];
      }
      i := i + 1;
    }
  }

  // ---------------------------------------------------------------------------
  // What the loop promises

  /** Input is consumed in order: running the loop on `a + b` is running it on
      `a`, then, if it is still waiting, on `b` from the state `a` left. */
  lemma {:induction false} LoopAppend(h: Handler, s: Vfs.Fs, a: seq<Chunk>, b: seq<Chunk>)
    requires KeepsValid(h) && Vfs.Valid(s)
    ensures Loop(h, s, a).ending == Waiting ==>
      Loop(h, s, a + b) == Prepend(Loop(h, s, a).sent, Loop(h, Loop(h, s, a).fs, b))
    ensures Loop(h, s, a).ending != Waiting ==> Loop(h, s, a + b) == Loop(h, s, a)
    decreases |a|, 1
  {
    if a == [] {
      assert a + b == b;
    } else {
      assert (a + b)[0] == a[0] && (a + b)[1..] == a[1..] + b;
      if a[0].Received? {
        LineAppend(h, s, Strip(a[0].data), a[1..], b);
      }
    }
  }

  lemma {:induction false} LineAppend(h: Handler, s: Vfs.Fs, cmd: string, a: seq<Chunk>, b: seq<Chunk>)
    requires KeepsValid(h) && Vfs.Valid(s)
    ensures Line(h, s, cmd, a).ending == Waiting ==>
      Line(h, s, cmd, a + b) == Prepend(Line(h, s, cmd, a).sent, Loop(h, Line(h, s, cmd, a).fs, b))
    ensures Line(h, s, cmd, a).ending != Waiting ==> Line(h, s, cmd, a + b) == Line(h, s, cmd, a)
    decreases |a|, 3
  {
    if cmd == [] {
      LoopAppend(h, s, a, b);
      PrependTwice([Prompt], Loop(h, s, a).sent, Loop(h, Loop(h, s, a).fs, b));
    } else {
      var step := h(s, cmd);
      AfterReplyAppend(h, step.0, step.1, a, b);
    }
  }

  lemma {:induction false} AfterReplyAppend(h: Handler, t: Vfs.Fs, result: Vfs.Reply, a: seq<Chunk>, b: seq<Chunk>)
    requires KeepsValid(h) && Vfs.Valid(t)
    ensures AfterReply(h, t, result, a).ending == Waiting ==>
      AfterReply(h, t, result, a + b)
        == Prepend(AfterReply(h, t, result, a).sent, Loop(h, AfterReply(h, t, result, a).fs, b))
    ensures AfterReply(h, t, result, a).ending != Waiting ==>
      AfterReply(h, t, result, a + b) == AfterReply(h, t, result, a)
    decreases |a|, 2
  {
    if result != Vfs.Text(Interpreter.ExitSignal) && !(result.Mapping? && Truthy(result)) {
      LoopAppend(h, t, a, b);
      var o := Loop(h, t, a);
      var pre := if Truthy(result) then [result.text + "\n", Prompt] else [Prompt];
      assert AfterReply(h, t, result, a) == Prepend(pre, o);
      assert AfterReply(h, t, result, a + b) == Prepend(pre, Loop(h, t, a + b));
      PrependTwice(pre, o.sent, Loop(h, o.fs, b));
    }
  }

  /** The number of prompts in what was sent. */
  function Prompts(xs: seq<string>): nat
  {
    if xs == [] then 0 else (if xs[0] == Prompt then 1 else 0) + Prompts(xs[1..])
  }

  lemma {:induction false} PromptsAppend(xs: seq<string>, ys: seq<string>)
    ensures Prompts(xs + ys) == Prompts(xs) + Prompts(ys)
  {
    if xs != [] {
      assert (xs + ys)[1..] == xs[1..] + ys;
      PromptsAppend(xs[1..], ys);
    } else {
      assert xs + ys == ys;
    }
  }

  /** While the session goes on, every line gets exactly one prompt, and the
      prompt is the last thing sent: a reply is never left without one. */
  lemma {:induction false} OnePromptPerLine(h: Handler, s: Vfs.Fs, chunks: seq<Chunk>)
    requires KeepsValid(h) && Vfs.Valid(s) && Loop(h, s, chunks).ending == Waiting
    ensures Prompts(Loop(h, s, chunks).sent) == |chunks|
    ensures chunks != [] ==> Loop(h, s, chunks).sent[|Loop(h, s, chunks).sent| - 1] == Prompt
    decreases |chunks|, 1
  {
    if chunks != [] {
      OnePromptLine(h, s, Strip(chunks[0].data), chunks[1..]);
    }
  }

  lemma {:induction false} OnePromptLine(h: Handler, s: Vfs.Fs, cmd: string, rest: seq<Chunk>)
    requires KeepsValid(h) && Vfs.Valid(s) && Line(h, s, cmd, rest).ending == Waiting
    ensures Prompts(Line(h, s, cmd, rest).sent) == |rest| + 1
    ensures Line(h, s, cmd, rest).sent[|Line(h, s, cmd, rest).sent| - 1] == Prompt
    decreases |rest|, 3
  {
    if cmd == [] {
      var o := Loop(h, s, rest);
      OnePromptPerLine(h, s, rest);
      ReplyPrompts([]);
      PromptsAppend([Prompt], o.sent);
      assert rest == [] ==> o.sent == [];
    } else {
      var step := h(s, cmd);
      OnePromptAfterReply(h, step.0, step.1, rest);
    }
  }

  lemma {:induction false} OnePromptAfterReply(h: Handler, t: Vfs.Fs, result: Vfs.Reply, rest: seq<Chunk>)
    requires KeepsValid(h) && Vfs.Valid(t) && AfterReply(h, t, result, rest).ending == Waiting
    ensures Prompts(AfterReply(h, t, result, rest).sent) == |rest| + 1
    ensures AfterReply(h, t, result, rest).sent[|AfterReply(h, t, result, rest).sent| - 1] == Prompt
    decreases |rest|, 2
  {
    var o := Loop(h, t, rest);
    var pre := if Truthy(result) then [result.text + "\n", Prompt] else [Prompt];
    assert AfterReply(h, t, result, rest) == Prepend(pre, o);
    OnePromptPerLine(h, t, rest);
    if Truthy(result) {
      ReplyPrompts(result.text);
    } else {
      ReplyPrompts([]);
    }
    PromptsAppend(pre, o.sent);
    assert rest == [] ==> o.sent == [];
  }

  /** A reply line ends with a newline and the prompt with a space, so what
      follows a line holds one prompt, with or without a reply. */
  lemma ReplyPrompts(text: string)
    ensures Prompts([text + "\n", Prompt]) == 1 && Prompts([Prompt]) == 1
  {
    var line := text + "\n";
    assert line[|line| - 1] == '\n';
    assert Prompt[|Prompt| - 1] == ' ';
    assert line != Prompt;
    assert [line, Prompt][1..] == [Prompt];
    assert [Prompt][1..] == [];
    assert Prompts([Prompt]) == 1 + Prompts([]);
    assert Prompts([line, Prompt]) == Prompts([Prompt]);
  }

  /** The lines the loop hands to `handle`, stripped, before the end of input. */
  function Commands(chunks: seq<Chunk>): (cmds: seq<string>)
    ensures forall i :: 0 <= i < |cmds| ==> cmds[i] != []
  {
    if chunks == [] || chunks[0].Closed? then []
    else
      var line := Strip(chunks[0].data);
      if line == [] then Commands(chunks[1..]) else [line] + Commands(chunks[1..])
  }

  /** `handle` applied to each line in turn. */
  function Replay(h: Handler, s: Vfs.Fs, cmds: seq<string>): (t: Vfs.Fs)
    requires KeepsValid(h) && Vfs.Valid(s)
    ensures Vfs.Valid(t)
    decreases |cmds|
  {
    if cmds == [] then s else Replay(h, h(s, cmds[0]).0, cmds[1..])
  }

  /** While the session goes on, the filesystem is the one `handle` made from
      the non-blank lines, in the order they came. */
  lemma {:induction false} LoopReplaysCommands(h: Handler, s: Vfs.Fs, chunks: seq<Chunk>)
    requires KeepsValid(h) && Vfs.Valid(s) && Loop(h, s, chunks).ending == Waiting
    ensures Loop(h, s, chunks).fs == Replay(h, s, Commands(chunks))
    decreases |chunks|, 1
  {
    if chunks != [] {
      var cmd := Strip(chunks[0].data);
      LineReplays(h, s, cmd, chunks[1..]);
      if cmd == [] {
        assert Commands(chunks) == Commands(chunks[1..]);
      } else {
        assert Commands(chunks) == [cmd] + Commands(chunks[1..]);
      }
    }
  }

  lemma {:induction false} LineReplays(h: Handler, s: Vfs.Fs, cmd: string, rest: seq<Chunk>)
    requires KeepsValid(h) && Vfs.Valid(s) && Line(h, s, cmd, rest).ending == Waiting
    ensures cmd == [] ==> Line(h, s, cmd, rest).fs == Replay(h, s, Commands(rest))
    ensures cmd != [] ==> Line(h, s, cmd, rest).fs == Replay(h, s, [cmd] + Commands(rest))
    decreases |rest|, 3
  {
    if cmd == [] {
      LoopReplaysCommands(h, s, rest);
    } else {
      var step := h(s, cmd);
      AfterReplyReplays(h, step.0, step.1, rest);
      var cmds := [cmd] + Commands(rest);
      assert cmds[0] == cmd && cmds[1..] == Commands(rest);
    }
  }

  lemma {:induction false} AfterReplyReplays(h: Handler, t: Vfs.Fs, result: Vfs.Reply, rest: seq<Chunk>)
    requires KeepsValid(h) && Vfs.Valid(t) && AfterReply(h, t, result, rest).ending == Waiting
    ensures AfterReply(h, t, result, rest).fs == Replay(h, t, Commands(rest))
    decreases |rest|, 2
  {
    LoopReplaysCommands(h, t, rest);
  }

  /** A chunk of text is taken, stripped, as the next line. */
  lemma ReceivedLine(h: Handler, s: Vfs.Fs, data: string, rest: seq<Chunk>)
    requires KeepsValid(h) && Vfs.Valid(s)
    ensures Loop(h, s, [Received(data)] + rest) == Line(h, s, Strip(data), rest)
  {
    assert ([Received(data)] + rest)[0] == Received(data);
    assert ([Received(data)] + rest)[1..] == rest;
  }

  /** The end of input stops the loop at once, with nothing sent. */
  lemma ClosedStops(h: Handler, s: Vfs.Fs, rest: seq<Chunk>)
    requires KeepsValid(h) && Vfs.Valid(s)
    ensures Loop(h, s, [Closed] + rest) == Outcome([], InputClosed, s)
  {
    assert ([Closed] + rest)[0] == Closed;
  }

  /** A blank line gets only the prompt and changes nothing. */
  lemma BlankLine(h: Handler, s: Vfs.Fs, data: string, rest: seq<Chunk>)
    requires KeepsValid(h) && Vfs.Valid(s) && forall k :: 0 <= k < |data| ==> IsSpace(data[k])
    ensures Loop(h, s, [Received(data)] + rest) == Prepend([Prompt], Loop(h, s, rest))
  {
    StripPadded(data, [], [], IsSpace);
    assert data + [] + [] == data;
    ReceivedLine(h, s, data, rest);
  }

  /** Any line whose reply is the string "exit" ends the session, with nothing
      more sent, once `handle` has done its work. */
  lemma ReplyExitEnds(h: Handler, s: Vfs.Fs, data: string, rest: seq<Chunk>)
    requires KeepsValid(h) && Vfs.Valid(s) && Strip(data) != []
    requires h(s, Strip(data)).1 == Vfs.Text(Interpreter.ExitSignal)
    ensures Loop(h, s, [Received(data)] + rest) == Outcome([], ExitRequested, h(s, Strip(data)).0)
  {
    ReceivedLine(h, s, data, rest);
  }

  /** A non-empty dict reply has no `encode`: the exception ends the session,
      with nothing more sent. */
  lemma DictReplyFails(h: Handler, s: Vfs.Fs, data: string, rest: seq<Chunk>)
    requires KeepsValid(h) && Vfs.Valid(s) && Strip(data) != []
    requires h(s, Strip(data)).1.Mapping? && h(s, Strip(data)).1.entries != []
    ensures Loop(h, s, [Received(data)] + rest) == Outcome([], Failed, h(s, Strip(data)).0)
  {
    ReceivedLine(h, s, data, rest);
  }

  /** A non-empty string reply other than "exit" is sent with a newline, then
      the prompt, and the loop goes on from the new state. */
  lemma TextReplySent(h: Handler, s: Vfs.Fs, data: string, rest: seq<Chunk>)
    requires KeepsValid(h) && Vfs.Valid(s) && Strip(data) != []
    requires var r := h(s, Strip(data)).1;
      r.Text? && r.text != [] && r.text != Interpreter.ExitSignal
    ensures var (t, r) := h(s, Strip(data));
      Loop(h, s, [Received(data)] + rest) == Prepend([r.text + "\n", Prompt], Loop(h, t, rest))
  {
    ReceivedLine(h, s, data, rest);
  }

  /** An empty string, None or an empty dict gets only the prompt. */
  lemma FalsyReplyPrompts(h: Handler, s: Vfs.Fs, data: string, rest: seq<Chunk>)
    requires KeepsValid(h) && Vfs.Valid(s) && Strip(data) != []
    requires !Truthy(h(s, Strip(data)).1)
    ensures Loop(h, s, [Received(data)] + rest) == Prepend([Prompt], Loop(h, h(s, Strip(data)).0, rest))
  {
    ReceivedLine(h, s, data, rest);
  }

  // ---------------------------------------------------------------------------
  // The loop with `handle`

  /** A line that parses as `exit` ends the session, with nothing more sent. */
  lemma ExitLine(s: Vfs.Fs, data: string, rest: seq<Chunk>)
    requires Vfs.Valid(s) && Interpreter.Parse(Strip(data)) == Interpreter.Exit
    ensures Loop(Interpreter.Step, s, [Received(data)] + rest) == Outcome([], ExitRequested, s)
  {
    Interpreter.ParseShape(Strip(data));
    assert Interpreter.Step(s, Strip(data)) == (s, Vfs.Text(Interpreter.ExitSignal));
    ReplyExitEnds(Interpreter.Step, s, data, rest);
  }

  /** A line with no surrounding whitespace reaches `handle` as it is. */
  lemma StripWordLine(line: string)
    requires line != [] && !IsSpace(line[0]) && !IsSpace(line[|line| - 1])
    ensures Strip(line) == line
  {
    StripPadded([], line, [], IsSpace);
    assert [] + line + [] == line;
  }

  /** `cat F` on a file holding "exit" also ends the session: the loop tests
      the reply, not the command. */
  lemma CatExitEnds(s: Vfs.Fs, f: string, rest: seq<Chunk>)
    requires Vfs.Valid(s) && IsWord(f) && (f, Vfs.File("exit")) in Vfs.Cwd(s)
    ensures Loop(Interpreter.Step, s, [Received("cat " + f)] + rest) == Outcome([], ExitRequested, s)
  {
    StripWordLine("cat " + f);
    Interpreter.StepCat(s, "cat " + f, f);
    assert Vfs.Cat(s, f) == Vfs.Text("exit");
    ReplyExitEnds(Interpreter.Step, s, "cat " + f, rest);
  }

  /** `cat D` on a directory that holds something returns its dict, which has
      no `encode`: the session ends with nothing more sent. */
  lemma CatDirFails(s: Vfs.Fs, d: string, es: Vfs.Entries, rest: seq<Chunk>)
    requires Vfs.Valid(s) && IsWord(d) && (d, Vfs.Dir(es)) in Vfs.Cwd(s) && es != []
    ensures Loop(Interpreter.Step, s, [Received("cat " + d)] + rest) == Outcome([], Failed, s)
  {
    StripWordLine("cat " + d);
    Interpreter.StepCat(s, "cat " + d, d);
    assert Vfs.Cat(s, d) == Vfs.Mapping(es);
    DictReplyFails(Interpreter.Step, s, "cat " + d, rest);
  }

  /** `cat D` on an empty directory returns an empty dict, which is falsy: only
      the prompt is sent. */
  lemma CatEmptyDirPrompts(s: Vfs.Fs, d: string, rest: seq<Chunk>)
    requires Vfs.Valid(s) && IsWord(d) && (d, Vfs.Dir([])) in Vfs.Cwd(s)
    ensures Loop(Interpreter.Step, s, [Received("cat " + d)] + rest) == Prepend([Prompt], Loop(Interpreter.Step, s, rest))
  {
    StripWordLine("cat " + d);
    Interpreter.StepCat(s, "cat " + d, d);
    assert Vfs.Cat(s, d) == Vfs.Mapping([]);
    FalsyReplyPrompts(Interpreter.Step, s, "cat " + d, rest);
  }
}
