/** The command interpreter of configuration/command.cpp: the registry of command
    definitions, the dispatcher that matches an input line against it, tokenizes the line
    and runs the matched handler, and the built-in help handler. */
module Command {
  import opened Types
  import opened Tokenizer
  import opened HelpOutput

  /** _helpCommandDefinition, the built-in first entry of the registry. */
  const HelpDefinition: Definition :=
    Definition("help", 0, HelpHandler, "help: lists all available commands\r\n")

  function HelpTexts(defs: seq<Definition>): seq<string> {
    seq(|defs|, i requires 0 <= i < |defs| => defs[i].help)
  }

  /** The definition a line is dispatched to: the first one, in registry order, whose name
      is a literal prefix of the raw input. */
  function FirstMatch(defs: seq<Definition>, input: string): (r: Option<nat>)
    ensures r.Some? ==> r.value < |defs| && defs[r.value].name <= input
    ensures r.Some? ==> forall j :: 0 <= j < r.value ==> !(defs[j].name <= input)
    ensures r.None? ==> forall j :: 0 <= j < |defs| ==> !(defs[j].name <= input)
  {
    if defs == [] then None
    else if defs[0].name <= input then Some(0)
    else
      match FirstMatch(defs[1..], input)
      case None => None
      case Some(k) => Some(k + 1)
  }

  /** Registering a definition never changes which command an input already reached; it
      only gives a home to inputs that matched nothing before. */
  lemma RegisterKeepsEarlierMatch(defs: seq<Definition>, d: Definition, input: string)
    ensures FirstMatch(defs + [d], input) ==
      if FirstMatch(defs, input).Some? then FirstMatch(defs, input)
      else if d.name <= input then Some(|defs|)
      else None
  {
    var all := defs + [d];
    var r, r0 := FirstMatch(all, input), FirstMatch(defs, input);
    if r0.Some? {
      assert all[r0.value] == defs[r0.value];
      assert r.Some? && r.value <= r0.value;
      assert all[r.value] == defs[r.value];
    } else {
      assert all[|defs|] == d;
    }
  }

  /** A command whose name starts with the name of an earlier command never runs: the
      earlier command captures every input meant for it. */
  lemma EarlierPrefixShadows(defs: seq<Definition>, a: nat, b: nat, input: string)
    requires a < b < |defs|
    requires defs[a].name <= defs[b].name && defs[b].name <= input
    ensures FirstMatch(defs, input).Some? && FirstMatch(defs, input).value <= a
  {
  }

  /** The record of one handler call: which registry entry ran and the arguments it got. */
  datatype Invocation = Invocation(index: nat, arguments: seq<string>)

  class Interpreter {
    /** _commands, in registration order. */
    var commands: seq<Definition>

    /** Help is the first entry of the registry. */
    predicate HelpFirst()
      reads this
    {
      commands != [] && commands[0] == HelpDefinition
    }

    /** The registry starts out holding only the help command. */
    constructor ()
      ensures commands == [HelpDefinition] && HelpFirst()
    {
      commands := [HelpDefinition];
    }

    /** commandRegister: append, with no duplicate check. */
    method Register(definition: Definition)
      modifies this
      ensures commands == old(commands) + [definition]
      ensures old(HelpFirst()) ==> HelpFirst()
    {
      commands := commands + [definition];
    }

    /** The registry scan of commandProcessInput: strncmp(name, input, strlen(name)) == 0
        for the first time. */
    method Lookup(input: CString) returns (k: Option<nat>)
      ensures k == FirstMatch(commands, input)
      ensures HelpFirst() && "help" <= input ==> k == Some(0)
    {
      var i := 0;
      while i < |commands|
        invariant 0 <= i <= |commands|
        invariant forall j :: 0 <= j < i ==> !(commands[j].name <= input)
      {
        var name := commands[i].name;
        if |name| <= |input| && input[..|name|] == name {
          return Some(i);
        }
        i := i + 1;
      }
      return None;
    }

    /** _helpHandler as written. Each help string is compared with `output.Length - 1`
        on its own, so the handler stays in the buffer only under HelpInBounds, which the
        second requires states. It returns BufferOverflow at the first string longer
        than that, leaving the strings before it copied and unterminated; otherwise it
        copies all of them, terminates with NUL and returns NoError. */
    method Help(output: array<char>) returns (err: Error)
      requires output.Length >= 1
      requires HelpInBounds(HelpTexts(commands), output.Length)
      modifies output
      ensures err == HelpResult(HelpTexts(commands), output.Length)
      ensures output[..] == Overlay(old(output[..]), HelpWritten(HelpTexts(commands), output.Length))
    {
      ghost var hs := HelpTexts(commands);
      ghost var fit := FitCount(hs, output.Length);
      ghost var before := output[..];
      var written := 0;
      var i := 0;
      while i < |commands|
        invariant 0 <= i <= fit
        invariant written == |Concat(hs[..i])| <= output.Length
        invariant output[..] == Overlay(before, Concat(hs[..i]))
      {
        var help := commands[i].help;
        assert hs[i] == help;
        if output.Length - 1 < |help| {
          HelpStopsAt(hs, output.Length, i);
          return BufferOverflow;
        }
        HelpCopyInBounds(hs, output.Length, i);
        ConcatSnoc(hs, i);
        CopyAfter(output, written, before, Concat(hs[..i]), help);
        written := written + |help|;
        i := i + 1;
      }
      assert hs[..i] == hs;
      HelpReachesEnd(hs, output.Length);
      OverlayPut(before, Concat(hs), '\0');
      output[written] := '\0';
      return NoError;
    }

    /** The help handler with the guard the code evidently intends: each string is
        compared with the room left after what is already written. It never leaves the
        buffer, and succeeds exactly when all help strings and the terminator fit. */
    method HelpBounded(output: array<char>) returns (err: Error)
      requires output.Length >= 1
      modifies output
      ensures err == if BoundedFitCount(HelpTexts(commands), output.Length) == |commands|
                     then NoError else BufferOverflow
      ensures output[..] ==
        Overlay(old(output[..]), BoundedHelpWritten(HelpTexts(commands), output.Length))
    {
      ghost var hs := HelpTexts(commands);
      ghost var fit := BoundedFitCount(hs, output.Length);
      ghost var before := output[..];
      var written := 0;
      var i := 0;
      while i < |commands|
        invariant 0 <= i <= fit
        invariant written == |Concat(hs[..i])| <= output.Length - 1
        invariant output[..] == Overlay(before, Concat(hs[..i]))
      {
        var help := commands[i].help;
        assert hs[i] == help;
        ConcatSnoc(hs, i);
        if output.Length - 1 - written < |help| {
          if i < fit {
            ConcatMonotone(hs, i + 1, fit);
          }
          assert fit == i && BoundedHelpWritten(hs, output.Length) == Concat(hs[..i]);
          return BufferOverflow;
        }
        CopyAfter(output, written, before, Concat(hs[..i]), help);
        written := written + |help|;
        i := i + 1;
      }
      assert hs[..i] == hs;
      assert BoundedHelpWritten(hs, output.Length) == Concat(hs) + "\0";
      OverlayPut(before, Concat(hs), '\0');
      output[written] := '\0';
      return NoError;
    }

    /** The line is dispatched to the help handler. */
    predicate RunsHelp(input: string, allocates: bool)
      reads this
    {
      allocates && FirstMatch(commands, input).Some?
      && commands[FirstMatch(commands, input).value].handler.HelpHandler?
    }

    /** commandProcessInput. The output buffer is first made the empty string. The first
        definition whose name prefixes the input is chosen; when none does, the result is
        CommandNotFound. Otherwise the scratch array of maxArguments + 1 entries is
        requested (`allocates` says whether the allocator delivers it): on failure the
        result is CouldNotAllocate and no handler runs. On success the line is tokenized
        into it and the handler runs once with those arguments; its code is returned
        unchanged. `callback` stands for the user handlers: it gives the code handler
        `id` returns for the arguments it receives. */
    method ProcessInput(input: CString, output: array<char>, allocates: bool,
                        callback: (nat, seq<string>) -> Error)
      returns (err: Error, invoked: Option<Invocation>)
      requires output.Length >= 1
      requires RunsHelp(input, allocates) ==> HelpInBounds(HelpTexts(commands), output.Length)
      modifies output
      ensures FirstMatch(commands, input).None? ==>
        err == CommandNotFound && invoked == None && output[..] == old(output[..])[0 := '\0']
      ensures FirstMatch(commands, input).Some? && !allocates ==>
        err == CouldNotAllocate && invoked == None && output[..] == old(output[..])[0 := '\0']
      ensures FirstMatch(commands, input).Some? && allocates ==>
        var k := FirstMatch(commands, input).value;
        var d := commands[k];
        var arguments := Arguments(input, d.maxArguments + 1);
        invoked == Some(Invocation(k, arguments))
        && (d.handler.Callback? ==>
              err == callback(d.handler.id, arguments)
              && output[..] == old(output[..])[0 := '\0'])
        && (d.handler.HelpHandler? ==>
              err == HelpResult(HelpTexts(commands), output.Length)
              && output[..] == Overlay(old(output[..])[0 := '\0'],
                                       HelpWritten(HelpTexts(commands), output.Length)))
    {
      output[0] := '\0';
      ghost var cleared := output[..];
      err, invoked := CommandNotFound, None;
      var found := Lookup(input);
      if found.Some? {
        var definition := commands[found.value];
        var argumentsCountMax := definition.maxArguments + 1;
        if !allocates {
          return CouldNotAllocate, None;
        }
        var slots := new string[argumentsCountMax];
        var count := Tokenize(input, slots);
        var arguments := slots[..count];
        match definition.handler {
          case HelpHandler =>
            err := Help(output);
          case Callback(id) =>
            err := callback(id, arguments);
        }
        invoked := Some(Invocation(found.value, arguments));
      }
    }
  }

  /** The registry built by the constructor answers "help" with the help command, and
      keeps doing so whatever is registered after it. */
  lemma HelpIsFound(rest: seq<Definition>, input: string)
    requires "help" <= input
    ensures FirstMatch([HelpDefinition] + rest, input) == Some(0)
  {
  }

  /** Clients of the interpreter: what a serial console loop can rely on. */
  method UnknownCommandScenario()
  {
    var interpreter := new Interpreter();
    var output := new char[8];
    var callback := (id: nat, arguments: seq<string>) => Other(id);
    assert "help"[0] != "nosuchcmd"[0];
    var err, invoked := interpreter.ProcessInput("nosuchcmd", output, true, callback);
    assert err == CommandNotFound && invoked == None && output[0] == '\0';
  }

  method HelpScenario()
  {
    var interpreter := new Interpreter();
    var led := Definition("led", 1, Callback(7), "led on|off\r\n");
    interpreter.Register(led);
    var output := new char[64];
    var callback := (id: nat, arguments: seq<string>) => Other(id);
    var hs := HelpTexts(interpreter.commands);
    assert hs == [HelpDefinition.help, led.help];
    assert Concat(hs[..1]) == HelpDefinition.help;
    ConcatSnoc(hs, 1);
    assert hs[..2] == hs;
    HelpSucceedsWhenAllFit(hs, output.Length);
    ghost var before := output[..];
    var err, invoked := interpreter.ProcessInput("help", output, true, callback);
    assert err == NoError && invoked.value.index == 0;
    ghost var text := Concat(hs) + "\0";
    OverlayPrefix(before[0 := '\0'], text);
    assert output[..|text|] == text;
    assert text == HelpDefinition.help + led.help + "\0";
  }

  lemma LedLineWords()
    ensures JoinWords(["led", "on", "extra"]) == "led on extra "
  {
    var words := ["led", "on", "extra"];
    assert JoinWords(words[2..]) == "extra ";
  }

  lemma LedLineArguments()
    ensures Arguments("led on extra ", 2) == ["led", "on"]
  {
    var words := ["led", "on", "extra"];
    assert IsWord(words[0]) && IsWord(words[1]) && IsWord(words[2]);
    ArgumentsOfJoinedWords(words, 2);
    assert words[..2] == ["led", "on"];
    LedLineWords();
  }

  /** "led on extra " typed to a registry of help and "led": "led" is chosen and, with one
      argument allowed, its handler gets "led" and "on". */
  lemma LedLineDispatch(led: Definition)
    requires led.name == "led"
    ensures FirstMatch([HelpDefinition, led], "led on extra ") == Some(1)
    ensures Arguments("led on extra ", 2) == ["led", "on"]
  {
    var line := "led on extra ";
    assert "help"[0] != line[0] && line[..3] == "led";
    LedLineArguments();
  }

  method UserCommandScenario(line: CString)
    requires line == "led on extra "
  {
    var interpreter := new Interpreter();
    var led := Definition("led", 1, Callback(7), "led on|off\r\n");
    interpreter.Register(led);
    var output := new char[8];
    var callback := (id: nat, arguments: seq<string>) => if |arguments| == 2 then NoError else Other(id);
    LedLineDispatch(led);
    assert interpreter.commands == [HelpDefinition, led];
    var err, invoked := interpreter.ProcessInput(line, output, true, callback);
    assert invoked == Some(Invocation(1, ["led", "on"]));
    assert err == NoError;
  }
}
