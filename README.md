# The fake shell of givemethechicken, in Dafny

This project models the core of the fake SSH shell in `givemethechicken.py`. The core has three parts:

- the per-session in-memory filesystem `FakeFileSystem`: a tree of dicts and a cursor path that starts at `"root"`;
- its command interpreter `handle`;
- the prompt/reply loop `raw_shell`.

The modules follow that structure:

- `PyStr` (pystr.dfy) holds the Python string operations the interpreter relies on:
  - `str.isspace`, with the exact Unicode whitespace set;
  - `strip()`, `strip('"')`, `split()`, `split(c, 1)`, `split(c)`, `replace(pat, "")` and `sep.join`;
  - their round trips, e.g. `split()` after `" ".join`, and `split('\n')` after `'\n'.join`.
- `Vfs` (vfs.dfy) is the filesystem as values.
  - A `Node` is a file's content or a directory's entries. Entries are in insertion order, as Python dicts keep them: overwriting a key keeps its place, a new key is appended.
  - An `Fs` pairs the tree with the cursor path.
  - `Valid` is the cursor invariant: the tree's only top key is `"root"`, the path starts with `"root"`, and walking the path from the tree reaches a directory.
  - `Init` is the initial state, which is valid.
  - `Cwd`, `Ls` and `Cat` are functions of a valid state that return a value.
  - `Touch` is a function from the old state to the new state; its reply "Created file X" is built by `Interpreter.Perform`.
  - `Echo`, `Mkdir` and `Cd` are functions from the old state to the new state and the reply.
  - Each of the four keeps `Valid`.
- `Interpreter` (interpreter.dfy) is `handle` as two functions:
  - `Parse` is the micro-parser. It takes the echo-redirect form first, otherwise the whitespace tokens of the line.
  - `Perform` carries out the one operation a parsed command names and returns the Python value; `Step` is `Perform` after `Parse`.
  - A `Reply` is `None`, a string, or a directory's dict.
- `FakeFs` (fakefs.dfy) is the class `FakeFileSystem` with the fields `files` and `currentPath`.
  - Its methods update these fields in place.
  - `CurrentDir` and `Ls` keep the source's loops.
  - Each method is proved to follow the matching `Vfs` function, and `Handle` to follow `Interpreter.Step`.
- `Session` (session.dfy) is `raw_shell` over the chunks the channel delivers.
  - A chunk is either the end of input or a decoded string.
  - What the shell sends is a sequence of strings, in order.
  - `RawShell` is the loop, proved against the function `Shell`.
  - `Shell` and the lemmas about it take the command handler as a parameter, so they hold for any handler that maps valid states to valid states (`KeepsValid`). `Interpreter.Step` is such a handler (`StepKeepsValid`), and it is the one `RawShell` uses.

The model reproduces the source's quirks:

- `cat` on a directory returns the directory's dict.
  - In `raw_shell`, a non-empty dict has no `encode`, so the exception ends the session.
  - An empty dict is falsy, so only a prompt is sent.
- Any reply equal to `"exit"` ends the session, including `cat` of a file whose content is `exit`.
- A first token `exit` ends it whatever follows.
- A line is taken as a redirect when it starts with `echo` and holds `>` anywhere.
  - `echoX>f` is such a line.
  - Every `echo` is removed from the left part.
  - The target after the first `>` is only stripped, never validated.
- `Interpreter.SessionReplies` follows one whole session: the six lines `mkdir D`, `cd D`, `echo "TEXT" > F`, `cat F`, `cd ..`, `ls`, for any names and text of these shapes.

## Model

| member | source | states |
|---|---|---|
| PyStr.IsSpace | givemethechicken.py:73-76 | the whitespace of `strip()` and `split()`, Python's `str.isspace` set: stated by `Strip`, `Split`, `SplitEmptyIff` and `WordLength` |
| PyStr.StartsWith | givemethechicken.py:71 | `s.startswith(prefix)`, used for the redirect test and for hidden names (line 35): stated by `ParseShape`, `ParseRedirectBy` and `DisplayHidden` |
| PyStr.TrimStart | givemethechicken.py:73 | the result is the suffix left after the longest prefix of dropped characters, and it starts with a kept character unless empty |
| PyStr.TrimEnd | givemethechicken.py:73 | the result is the prefix left after the longest suffix of dropped characters, and it ends with a kept character unless empty |
| PyStr.Strip | givemethechicken.py:73-74 | `strip()`: its behaviour is stated by `TrimStart`, `TrimEnd`, `StripPadded` and `StripIdempotent` |
| PyStr.StripQuotes | givemethechicken.py:73 | `strip('"')`: the same, with the double quote as the only dropped character |
| PyStr.StripPadded | givemethechicken.py:73 | `strip` removes exactly the surrounding padding: stripping `a + x + b`, with `a` and `b` all padding and `x` neither starting nor ending with padding, gives `x` |
| PyStr.TrimStartPadded | givemethechicken.py:73 | trimming the start of `a + y`, with `a` all padding and `y` starting with a kept character, gives `y` |
| PyStr.TrimEndPadded | givemethechicken.py:73 | trimming the end of `x + b`, with `b` all padding and `x` ending with a kept character, gives `x` |
| PyStr.StripIdempotent | givemethechicken.py:73 | stripping twice gives the same as stripping once |
| PyStr.WordLength | givemethechicken.py:76 | the length of the longest whitespace-free prefix, which is followed by whitespace or the end |
| PyStr.Split | givemethechicken.py:76 | every token of `split()` is non-empty and holds no whitespace |
| PyStr.SplitEmptyIff | givemethechicken.py:76-78 | `split()` finds no token exactly when every character is whitespace |
| PyStr.SplitSkipsSpace | givemethechicken.py:76 | leading whitespace does not change the tokens |
| PyStr.SplitWord | givemethechicken.py:76 | a word followed by whitespace or by nothing is the first token |
| PyStr.SplitJoin | givemethechicken.py:76 | `split()` of whitespace-free words joined by spaces gives back the words |
| PyStr.IndexOf | givemethechicken.py:72 | the position of the first occurrence of the character |
| PyStr.SplitOnce | givemethechicken.py:72 | `split(">", 1)` gives parts with `s == left + ">" + right` and no `>` in `left` |
| PyStr.SplitOnceUnique | givemethechicken.py:72 | that split is the only one whose left part holds no `>` |
| PyStr.Join | givemethechicken.py:38 | `sep.join(xs)`: stated by `SplitJoin`, `JoinSplitOn` and `SplitOnJoin`, which give it back its pieces |
| PyStr.SplitOn | givemethechicken.py:38 | `split(sep)` gives at least one piece, and no piece holds `sep` |
| PyStr.SplitOnCons | givemethechicken.py:38 | a piece without `sep`, followed by `sep`, is the first piece of the split |
| PyStr.JoinSplitOn | givemethechicken.py:38 | joining the pieces of `split(sep)` with `sep` gives back the text |
| PyStr.SplitOnJoin | givemethechicken.py:38 | splitting `sep.join(xs)` at `sep` gives back `xs` when no piece holds `sep` |
| PyStr.RemoveAll | givemethechicken.py:73 | `replace("echo", "")` never lengthens the text |
| PyStr.RemoveAllAbsent | givemethechicken.py:73 | text in which the pattern does not occur is unchanged by `replace` |
| PyStr.RemoveAllAfterFree | givemethechicken.py:73 | for a pattern that cannot overlap itself, such as "echo", an occurrence after pattern-free text is deleted and the text before it kept, so every "echo" in the left part is removed, not only a leading one |
| PyStr.NoMatchBefore | givemethechicken.py:73 | after non-empty pattern-free text, such a pattern does not start at the first character |
| PyStr.RemoveAllLeading | givemethechicken.py:73 | a leading occurrence is removed and the scan resumes after it |
| Vfs.WellFormed | givemethechicken.py:21-55 | every dict in the tree has distinct keys, as a Python dict does: kept by `PutKeepsDistinct`, `GraftWellFormed` and `Write`, and used by `LookupDistinct` and `ResolveWellFormed` |
| Vfs.Names | givemethechicken.py:34 | the keys of a dict, one per entry, in order |
| Vfs.Lookup | givemethechicken.py:47-48 | `d.get(name)` finds a value exactly when `name` is a key, and the pair is an entry |
| Vfs.Put | givemethechicken.py:40-55 | `d[name] = v`: stated by `PutLookup`, `PutNames`, `PutEntries` and `PutAppends` |
| Vfs.PutLookup | givemethechicken.py:40-55 | after `d[name] = v`, `d.get(name)` is `v` and every other key gets what it got before |
| Vfs.PutNames | givemethechicken.py:40-55 | `d[name] = v` keeps the keys in place, and appends `name` only when it is new |
| Vfs.PutEntries | givemethechicken.py:40-55 | `d[name] = v` adds no entry other than `(name, v)` |
| Vfs.PutKeepsDistinct | givemethechicken.py:40-55 | assignment keeps the keys of a dict distinct |
| Vfs.LookupDistinct | givemethechicken.py:48 | in a dict with distinct keys, `d.get(name)` is `v` exactly when `(name, v)` is an entry |
| Vfs.Resolve | givemethechicken.py:25-29 | `cur = cur[d]` along a path: stated by `ResolveAppend`, `DirAtPrefix` and `ResolveWellFormed`, and followed by the `CurrentDir` loop |
| Vfs.ResolveAppend | givemethechicken.py:25-29 | walking `p + q` is walking `p`, then `q` |
| Vfs.DirAtPrefix | givemethechicken.py:59-60 | every prefix of a path to a directory leads to a directory, so popping the cursor keeps it valid |
| Vfs.ResolveWellFormed | givemethechicken.py:25-29 | every dict reachable in the tree has distinct keys |
| Vfs.Graft | givemethechicken.py:40-55 | the tree with the directory at the path replaced by one holding the new entries: the path now leads to them, and the dicts along the path keep their keys |
| Vfs.GraftWellFormed | givemethechicken.py:40-55 | the tree stays well formed after an in-place write |
| Vfs.PrefixCons | givemethechicken.py:25-29 | for two paths with the same first name, one is a prefix of the other exactly when their tails are |
| Vfs.GraftElsewhere | givemethechicken.py:40-55 | a write into the current directory leaves every path outside it as it was |
| Vfs.GraftCompose | givemethechicken.py:40-55 | writing at `q + rest` is writing at `q` the directory found there with the write at `rest` done inside it |
| Vfs.GraftBelow | givemethechicken.py:40-55 | below the current directory, paths resolve in the new entries |
| Vfs.Valid | givemethechicken.py:21-66 | the cursor invariant: the top dict holds only "root", the path is non-empty, starts at "root" and leads to a dict: established by `Init`, kept by the `ensures Valid(..)` of `Write`, `Touch`, `Echo`, `Mkdir`, `Cd`, `Perform` and `Step`, with `DirAtPrefix` for the pop of `cd ..` |
| Vfs.Init | givemethechicken.py:21-23 | the initial state `{"root": {}}` with cursor `["root"]` is valid and its current directory is empty |
| Vfs.Cwd | givemethechicken.py:25-29 | the current directory of a valid state is a well-formed dict |
| Vfs.Write | givemethechicken.py:40-55 | `current_dir()[name] = node` keeps the state valid and the cursor in place, and the new current directory is the old one with the assignment |
| Vfs.ResolveBesidePut | givemethechicken.py:40-55 | below a sibling of `name`, a directory resolves as before `d[name] = v` |
| Vfs.GraftPutElsewhere | givemethechicken.py:40-55 | an assignment in the directory at `p` leaves every path that neither leads to `p` nor goes through `p + [name]` resolving as before |
| Vfs.WriteElsewhere | givemethechicken.py:40-45 | a write changes no directory other than the current one, and nothing outside the written entry |
| Vfs.Touch | givemethechicken.py:40-41 | `touch` keeps the state valid |
| Vfs.Echo | givemethechicken.py:43-45 | `echo` keeps the state valid |
| Vfs.AsReply | givemethechicken.py:48 | the value `.get` returns: a file's content as a string, a directory as its dict: stated by `Cat`, `TouchThenCat`, `EchoThenCat` and the `Session.Cat*` lemmas |
| Vfs.Cat | givemethechicken.py:47-48 | an absent name gives "File not found"; a present name gives its node unchanged, whether file or dict |
| Vfs.Mkdir | givemethechicken.py:50-55 | a new name gives "Directory 'X' created" and is exactly the write of an empty dict under it: the current directory becomes the old one with `(X, {})` appended, and the rest of the tree is as `Vfs.Write` leaves it; an existing name, file or directory, gives "Directory already exists" and no change |
| Vfs.Cd | givemethechicken.py:57-66 | the tree never changes; `..` at the top changes nothing and returns ""; `..` below the top drops the last name; a child directory is appended and "" returned; anything else returns "Directory not found" and changes nothing |
| Vfs.Hidden | givemethechicken.py:35 | a name is hidden when it starts with ".": stated by `Visible`, `LsHidesDotNames` and `LsShowsOtherNames` |
| Vfs.Display | givemethechicken.py:37 | a directory's name gets a trailing "/": stated by `Displays` and `DisplayHidden` |
| Vfs.LsItems | givemethechicken.py:33-37 | the list `ls` builds: stated by `LsItemsIsDisplaysOfVisible`, `LsAllShowsEverything` and the `Ls` loop |
| Vfs.Ls | givemethechicken.py:31-38 | the listing joined by newlines: stated by `LsLines`, `MkdirThenList` and `StepLs` |
| Vfs.Visible | givemethechicken.py:34-36 | the entries `ls` shows are exactly those whose name does not start with ".", or all of them with the flag |
| Vfs.DisplaysAppend | givemethechicken.py:37 | the display strings of two runs of entries are those of each, in order |
| Vfs.Displays | givemethechicken.py:37 | one display string per entry, in order |
| Vfs.VisibleAppend | givemethechicken.py:34-36 | the filter works entry by entry |
| Vfs.LsItemsIsDisplaysOfVisible | givemethechicken.py:31-38 | the list `ls` builds is the display strings of the shown entries, in dict order |
| Vfs.LsAllShowsEverything | givemethechicken.py:35-37 | `ls -la` shows every entry, in order, directories with a trailing "/" |
| Vfs.VisibleAll | givemethechicken.py:35 | with the flag nothing is hidden |
| Vfs.DisplayHidden | givemethechicken.py:35-37 | a display string starts with "." exactly when the name does |
| Vfs.LsHidesDotNames | givemethechicken.py:35-36 | plain `ls` shows nothing that starts with "." |
| Vfs.LsShowsOtherNames | givemethechicken.py:35-37 | plain `ls` shows every entry whose name does not start with "." |
| Vfs.LsLines | givemethechicken.py:38 | when something is shown and no name holds a newline, splitting the output of `ls` at newlines gives the shown strings back |
| Vfs.TouchThenCat | givemethechicken.py:40-48 | `touch X` then `cat X` gives "" |
| Vfs.EchoThenCat | givemethechicken.py:43-48 | `echo(text, X)` then `cat X` gives `text`, whatever X held |
| Vfs.WriteBeside | givemethechicken.py:40-48 | a write leaves every other entry of the current directory readable as before, and adds its name at the end only when it is new |
| Vfs.MkdirTwice | givemethechicken.py:50-55 | a second `mkdir X` reports "Directory already exists" and changes nothing |
| Vfs.CdEntersChild | givemethechicken.py:57-66 | after `cd X`, the current directory is the dict stored under X |
| Vfs.CdChildThenParent | givemethechicken.py:57-66 | `cd X` then `cd ..` gives back the same state |
| Vfs.MkdirThenList | givemethechicken.py:31-66 | after `mkdir X` and `cd X`, `ls -la` lists nothing; in the parent, `ls -la` lists what it did before plus "X/" at the end |
| Vfs.PutAppends | givemethechicken.py:53 | assigning a new key appends it |
| Vfs.PutSameKindListing | givemethechicken.py:34-37 | replacing a node by one of the same kind does not change what `ls` shows |
| Vfs.SameKindShown | givemethechicken.py:34-37 | the shown display strings are unchanged by such a replacement |
| Vfs.GraftTopListing | givemethechicken.py:31-45 | a write below the top directory changes nothing that `ls` shows there |
| Vfs.GraftKeepsAncestorListing | givemethechicken.py:31-45 | a write in the current directory changes nothing that `ls` shows in the directories above it |
| Vfs.WriteKeepsParentListing | givemethechicken.py:31-45 | a write changes nothing that `ls` shows after `cd ..` |
| Interpreter.IsRedirect | givemethechicken.py:71 | the redirect test, `cmd.startswith("echo") and ">" in cmd`: stated by `ParseShape`, which takes the redirect path exactly when it holds |
| Interpreter.Dispatch | givemethechicken.py:80-96 | dispatch on the tokens: stated by `DispatchShape` and `DispatchVerbs` |
| Interpreter.Parse | givemethechicken.py:71-80 | the redirect form first, else the tokens: stated by `ParseShape`, `ParseRedirect`, `ParseRedirectInner` and the `ParseX` lemmas |
| Interpreter.DispatchShape | givemethechicken.py:76-96 | no tokens give None; an unknown verb, or `touch`/`mkdir`/`cd`/`cat` without an argument, gives "Invalid command"; otherwise the argument is the second token |
| Interpreter.ParseShape | givemethechicken.py:71-96 | the redirect path is taken exactly when the line starts with "echo" and holds ">"; None exactly when the line is all whitespace; names are whitespace-free |
| Interpreter.Perform | givemethechicken.py:82-96 | performing a parsed command keeps the state valid; only `cd` moves the cursor; only echo, `touch` and `mkdir` change the tree; None exactly for an empty line |
| Interpreter.DispatchVerbs | givemethechicken.py:84-94 | `touch X`, `mkdir X`, `cd X`, `cat X` and `ls X` as two tokens are dispatched to the matching operation on X |
| Interpreter.Step | givemethechicken.py:68-96 | `handle` keeps the state valid; only `cd` moves the cursor; only echo, `touch` and `mkdir` change the tree; None exactly for a blank line |
| Interpreter.NoEchoInQuoted | givemethechicken.py:73 | quoting and padding text that holds no "echo" creates no "echo" |
| Interpreter.ParseRedirect | givemethechicken.py:71-74 | `echo` + A + `>` + B, with no ">" or "echo" in A, writes A stripped of whitespace and then of quotes to B stripped; this covers `echoX>f` and an empty target |
| Interpreter.ParseRedirectBy | givemethechicken.py:71-74 | a line `echo` + A + `>` + B, with no ">" in A, writes the text left after deleting every "echo" from A, stripped of whitespace and then of quotes, to B stripped |
| Interpreter.ParseRedirectInner | givemethechicken.py:71-74 | `echo` + X + `echo` + Y + `>` + B, with no ">" or "echo" in X and Y, writes X + Y stripped of whitespace and then of quotes to B stripped: the inner "echo" is deleted too |
| Interpreter.ParseEchoQuoted | givemethechicken.py:71-74 | `echo "TEXT" > F` writes TEXT to F, when TEXT holds no ">" and no "echo" and neither starts nor ends with a double quote, and F neither starts nor ends with whitespace |
| Interpreter.TrimTarget | givemethechicken.py:74 | the space before the file name is stripped |
| Interpreter.UnquoteQuoted | givemethechicken.py:73 | ` "TEXT" ` stripped of whitespace and then of quotes is TEXT |
| Interpreter.ParseTwoWords | givemethechicken.py:71-80 | a line of a verb not starting with "e", one space and one word is parsed to what those two tokens dispatch to |
| Interpreter.ParseTouch | givemethechicken.py:86-88 | `touch X` parses to the touch of X |
| Interpreter.ParseMkdir | givemethechicken.py:89-90 | `mkdir X` parses to the mkdir of X |
| Interpreter.ParseCd | givemethechicken.py:91-92 | `cd X` parses to the cd of X |
| Interpreter.ParseCat | givemethechicken.py:93-94 | `cat X` parses to the cat of X |
| Interpreter.ParseLsFlag | givemethechicken.py:84-85 | `ls X` lists hidden names exactly when X is "-la" |
| Interpreter.ParseOneWord | givemethechicken.py:76-80 | a single word not starting with "e" is dispatched on itself |
| Interpreter.ParseLoneVerb | givemethechicken.py:86-96 | `touch`, `mkdir`, `cd` or `cat` alone is an invalid command |
| Interpreter.ParseLoneLs | givemethechicken.py:84-85 | `ls` alone lists without hidden names |
| Interpreter.ParseExitAnyArgs | givemethechicken.py:82-83 | a first token `exit` gives "exit", whatever follows |
| Interpreter.ParseCdUp | givemethechicken.py:91-92 | `cd ..` parses to the cd of ".." |
| Interpreter.StepCdUp | givemethechicken.py:57-61 | `cd ..` below the top moves the cursor up and replies "" |
| Interpreter.StepCat | givemethechicken.py:93-94 | `cat X` replies with `Vfs.Cat` of X and changes nothing |
| Interpreter.StepLs | givemethechicken.py:84-85 | `ls` replies with the listing and changes nothing |
| Interpreter.SessionOpening | givemethechicken.py:50-66 | from a fresh filesystem, `mkdir D` then `cd D` reply "Directory 'D' created" and "", and leave the cursor in an empty directory whose parent holds only D |
| Interpreter.SessionWriting | givemethechicken.py:43-48 | `echo "TEXT" > F` then `cat F` reply "Content written to F" and TEXT |
| Interpreter.SessionLeaving | givemethechicken.py:31-61 | after such a write, `cd ..` replies "" and `ls` replies "D/" |
| Interpreter.SessionReplies | givemethechicken.py:21-96 | the six lines `mkdir D`, `cd D`, `echo "TEXT" > F`, `cat F`, `cd ..`, `ls` get "Directory 'D' created", "", "Content written to F", TEXT, "" and "D/" |
| FakeFs.FakeFileSystem.Valid | givemethechicken.py:20-29 | the class invariant: the object's `files` and `currentPath` form a `Vfs.Valid` state; established by the constructor and kept by every method |
| FakeFs.FakeFileSystem.constructor | givemethechicken.py:21-23 | the new object is valid and holds the initial state |
| FakeFs.FakeFileSystem.CurrentDir | givemethechicken.py:25-29 | the loop over the cursor path returns the current directory |
| FakeFs.FakeFileSystem.Ls | givemethechicken.py:31-38 | the loop over the entries builds exactly the listing `Vfs.Ls` describes |
| FakeFs.FakeFileSystem.Assign | givemethechicken.py:40-55 | the in-place assignment into the current directory is `Vfs.Write` |
| FakeFs.FakeFileSystem.Touch | givemethechicken.py:40-41 | the object moves to `Vfs.Touch` of its state and stays valid |
| FakeFs.FakeFileSystem.Echo | givemethechicken.py:43-45 | the object moves to `Vfs.Echo` of its state and returns its message |
| FakeFs.FakeFileSystem.Cat | givemethechicken.py:47-48 | the method returns `Vfs.Cat` of the state and changes nothing |
| FakeFs.FakeFileSystem.Mkdir | givemethechicken.py:50-55 | the object moves to `Vfs.Mkdir` of its state and returns its message |
| FakeFs.FakeFileSystem.Cd | givemethechicken.py:57-66 | popping and appending the cursor list is `Vfs.Cd` |
| FakeFs.FakeFileSystem.Handle | givemethechicken.py:68-96 | the object moves to the state `Interpreter.Step` gives and returns its reply |
| Session.StepKeepsValid | givemethechicken.py:68-96 | `handle` can be applied to any valid state and leaves a valid one |
| Session.Truthy | givemethechicken.py:120 | None, "" and an empty dict are falsy: stated by `FalsyReplyPrompts`, `TextReplySent` and `CatEmptyDirPrompts` |
| Session.Loop | givemethechicken.py:106-126 | the loop keeps the filesystem valid, and runs out of input only when no end of input came |
| Session.Line | givemethechicken.py:111-126 | the same, from a stripped line |
| Session.AfterReply | givemethechicken.py:116-126 | the same, after a reply |
| Session.Shell | givemethechicken.py:102-103 | the first thing sent is the prompt "/$ " |
| Session.RawShell | givemethechicken.py:102-131 | the `while True` loop sends exactly what `Shell` describes, stops for the reason `Shell` gives, and leaves the object in the state `Shell` gives |
| Session.LoopAppend | givemethechicken.py:106-123 | input is consumed in order: the loop on `a + b` is the loop on `a`, then on `b` if it is still waiting; nothing after the end of a session counts |
| Session.LineAppend | givemethechicken.py:111-123 | the same, from a stripped line |
| Session.AfterReplyAppend | givemethechicken.py:116-123 | the same, after a reply |
| Session.PromptsAppend | givemethechicken.py:113-123 | prompts in a concatenation add up |
| Session.OnePromptPerLine | givemethechicken.py:106-123 | while the session lasts, each chunk gets exactly one prompt, and the prompt is the last thing sent |
| Session.OnePromptLine | givemethechicken.py:111-123 | the same, from a stripped line: the line and each later chunk get one prompt each |
| Session.OnePromptAfterReply | givemethechicken.py:116-123 | the same, after a reply |
| Session.ReplyPrompts | givemethechicken.py:120-123 | a reply line followed by the prompt, or the prompt alone, holds exactly one prompt |
| Session.Commands | givemethechicken.py:111-114 | the lines handed to `handle` are never empty |
| Session.Replay | givemethechicken.py:116 | `handle` applied to each line in turn keeps the filesystem valid |
| Session.LoopReplaysCommands | givemethechicken.py:106-123 | while the session lasts, the filesystem is what `handle` made of the non-blank stripped lines, in order |
| Session.LineReplays | givemethechicken.py:111-123 | the same, from a stripped line: a blank line is not handed to `handle`, any other is, first |
| Session.AfterReplyReplays | givemethechicken.py:116-123 | the same, after a reply |
| Session.ReceivedLine | givemethechicken.py:107-111 | a received chunk is taken, stripped, as the next line |
| Session.ClosedStops | givemethechicken.py:107-109 | the end of input stops the loop, with nothing more sent |
| Session.BlankLine | givemethechicken.py:111-114 | a whitespace-only chunk gets only a prompt |
| Session.ExitLine | givemethechicken.py:116-118 | a line parsed as `exit` ends the session, with nothing more sent |
| Session.StripWordLine | givemethechicken.py:111 | a line with no surrounding whitespace reaches `handle` unchanged |
| Session.CatExitEnds | givemethechicken.py:116-118 | `cat F` on a file holding "exit" ends the session |
| Session.CatDirFails | givemethechicken.py:120-126 | `cat D` on a directory that holds something ends the session, with nothing sent |
| Session.CatEmptyDirPrompts | givemethechicken.py:120-123 | `cat D` on an empty directory gets only a prompt |
| Session.ReplyExitEnds | givemethechicken.py:116-118 | any reply equal to "exit" ends the session, once `handle` has changed the state |
| Session.DictReplyFails | givemethechicken.py:116-126 | a reply that is a non-empty dict ends the session with nothing sent, once `handle` has changed the state |
| Session.TextReplySent | givemethechicken.py:120-123 | a non-empty string reply other than "exit" is sent followed by a newline, then the prompt |
| Session.FalsyReplyPrompts | givemethechicken.py:120-123 | an empty string, None or an empty dict gets only the prompt |

## Left out

- Logging is not modelled: the `[CMD]` audit line in `handle` and the `[SHELL ERROR]` line have no effect on the shell's behaviour.
- The SSH server, host keys, sockets and threads are not part of this model. Each session has its own `FakeFileSystem` object, so sessions share no state.
- `chan.recv(1024)` is modelled as one chunk per command line.
  - The source does no line framing, so a chunk holding several lines is one command here too.
  - The split into 1024-byte reads is not modelled.
- Byte decoding with `errors="ignore"` and `.encode()` are not modelled. A chunk is the already decoded string, and what is sent is a sequence of strings.
- A `chan.recv` that raises is not modelled separately. The exception is caught, and the session closes with nothing more sent (givemethechicken.py:107, 125-131), which is what the end of input `Closed` does.
- Exceptions are modelled only where the source raises one: `encode` on the dict that `cat` returns for a non-empty directory. That exception is the ending `Failed`. Failures of `chan.send` and `chan.close` are not modelled.
- `Session.RawShell` ends with `Waiting` when the given chunks are used up. The source would block in `recv` at that point.
- Aliasing of the nested dicts is modelled by value. An in-place write into `current_dir()` becomes a new tree in which the current directory's path leads to the updated entries (`Vfs.Graft`). The dict `cat` returns is a copy, not a live reference.
- `Vfs.Touch`, `Vfs.Echo`: their own contracts state only that validity is kept. What they do is stated by `Vfs.Write`, `Vfs.TouchThenCat`, `Vfs.EchoThenCat`, `Vfs.WriteBeside` and `Vfs.WriteElsewhere`.

