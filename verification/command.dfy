/**
 `ExecuteCommand` in server/command.go: a command line is split into
 fields, ignored unless its first field is `/trivia`, checked against the
 arity rules, and routed by its action to a welcome-message handler, to the
 help text, or to the unknown-action reply.
 */
module Command {
  import opened Options
  import opened Strings
  import opened Validation
  import opened Host
  import opened Welcome

  /** The only command word the engine answers to. */
  const Trigger: string := "/trivia"

  /** `commandHelp`: one usage line per action, each ending in a newline, then an empty line. */
  const CommandHelp: string :=
    "* |/trivia create [quiz-name] [channel-name] | - Creates a Trivia Quiz for a specific channel.\n" +
    "* |/trivia list_quizes| - Lists the quizes that you have created\n" +
    "* |/trivia list_questions| - Lists the questions and answers that you have created for a specific quiz\n" +
    "* |/trivia add_question [quiz-name] [question * answer]| - Add a question and the answer to a a specific quiz.\n" +
    "* |/trivia delete_quiz [quiz-name]| - Deletes a specific quiz or all your quizes if you type *all* as quizname\n" +
    "* |/trivia delete_question [quiz-name] [question * answer] | Deletes a specific question \n" +
    "* |/trivia start [quizname] | Starts a specific quiz \n" +
    "\n"

  /** The heading put in front of the help. */
  const HelpHeader: string := "###### Trivia Plugin - Slash Command Help\n"

  /** The help as posted: the heading, then the usage lines with every `|` turned into a backtick. */
  const HelpText: string := HelpHeader + ReplaceChar(CommandHelp, '|', '`')

  /** The reply to an action nobody handles (`Unknown action %v`). */
  function UnknownReply(action: string): string {
    "Unknown action " + action
  }

  // ---------------------------------------------------------------------------
  // Tokenising
  // ---------------------------------------------------------------------------

  /** A tokenised command line: the command word, the action (empty when absent) and the remaining fields. */
  datatype Invocation = Invocation(command: string, action: string, parameters: seq<string>)

  /**
   The first lines of `ExecuteCommand`: the fields of the line become the
   command word, the action and the parameters, and nothing is lost on the
   way. None for a blank line, where the Go code reads `split[0]` of an
   empty slice and panics.
   */
  function Tokenize(line: string): (r: Option<Invocation>)
    ensures r.None? <==> AllSpace(line)
    ensures r.Some? ==>
              Fields(line) == [r.value.command] + (if r.value.action == "" then [] else [r.value.action]) + r.value.parameters
    ensures r.Some? && r.value.action == "" ==> r.value.parameters == []
  {
    var split := Fields(line);
    FieldsOfBlank(line);
    if |split| == 0 then None
    else
      var action := if |split| > 1 then split[1] else "";
      var parameters := if |split| > 2 then split[2..] else [];
      assert |split| > 1 ==> split == [split[0]] + [action] + parameters;
      Some(Invocation(split[0], action, parameters))
  }

  /** Round trip: words joined by single spaces tokenise back into the same command, action and parameters. */
  lemma TokenizeJoin(command: string, action: string, parameters: seq<string>)
    requires IsWord(command) && IsWord(action)
    requires forall i :: 0 <= i < |parameters| ==> IsWord(parameters[i])
    ensures Tokenize(Join([command, action] + parameters, " ")) == Some(Invocation(command, action, parameters))
  {
    WordsOf(command, action, parameters);
    FieldsOfJoin([command, action] + parameters);
    TokenizeOfFields(Join([command, action] + parameters, " "), command, action, parameters);
  }

  /** The command word, the action and the parameters, in a row, are all words. */
  lemma WordsOf(command: string, action: string, parameters: seq<string>)
    requires IsWord(command) && IsWord(action)
    requires forall i :: 0 <= i < |parameters| ==> IsWord(parameters[i])
    ensures var ws := [command, action] + parameters; forall i :: 0 <= i < |ws| ==> IsWord(ws[i])
  {
    var ws := [command, action] + parameters;
    forall i | 0 <= i < |ws| ensures IsWord(ws[i]) {
      if i >= 2 { assert ws[i] == parameters[i - 2]; }
    }
  }

  /** A line whose fields are a command word, a non-empty action and parameters tokenises into exactly those. */
  lemma TokenizeOfFields(line: string, command: string, action: string, parameters: seq<string>)
    requires IsWord(action) && Fields(line) == [command, action] + parameters
    ensures Tokenize(line) == Some(Invocation(command, action, parameters))
  {
    var ws := [command, action] + parameters;
    assert ws[0] == command && ws[1] == action && ws[2..] == parameters;
    assert |ws| == 2 ==> parameters == [];
  }

  /** A line holding the command word alone tokenises with an empty action and no parameters. */
  lemma TokenizeBare(command: string)
    requires IsWord(command)
    ensures Tokenize(command) == Some(Invocation(command, "", []))
  {
    FieldsOfJoin([command]);
    assert Join([command], " ") == command;
  }

  // ---------------------------------------------------------------------------
  // Routing
  // ---------------------------------------------------------------------------

  /** The branches of the action switch. */
  datatype Handler =
    | PreviewTeam            // create
    | ListTeams              // list_quizes
    | SetChannelWelcome      // list_questions
    | GetChannelWelcome      // add_question
    | DeleteChannelWelcome   // delete_question and start
    | ShowHelp               // no action at all
    | UnknownAction          // everything else, delete_quiz included

  /**
   The action switch. Six action words and the empty action have a branch;
   `delete_question` and `start` share one, and `delete_quiz`, although it
   is a known action word, has none.
   */
  function Route(action: string): (h: Handler)
    ensures h == UnknownAction <==> action !in {Create, ListQuizes, ListQuestions, AddQuestion, DeleteQuestion, Start, ""}
    ensures h == DeleteChannelWelcome <==> action == DeleteQuestion || action == Start
    ensures h == ShowHelp <==> action == ""
  {
    if action == Create then PreviewTeam
    else if action == ListQuizes then ListTeams
    else if action == ListQuestions then SetChannelWelcome
    else if action == AddQuestion then GetChannelWelcome
    else if action == DeleteQuestion || action == Start then DeleteChannelWelcome
    else if action == "" then ShowHelp
    else UnknownAction
  }

  /** Every action word with a branch also has an arity rule, and the empty action has neither a rule nor a reason to fail. */
  lemma RoutedActionsAreRuled(action: string)
    ensures Route(action) != UnknownAction && action != "" <==> action in Registry()
  {
  }

  // ---------------------------------------------------------------------------
  // Executing a command
  // ---------------------------------------------------------------------------

  /** The calls an execution made, whether it completed or crashed. */
  function CallsOf(r: Execution): seq<Call> {
    match r
    case Completed(e) => e.calls
    case Crashed(_, calls) => calls
  }

  /** A host call concerns only the invoking channel and its welcome key. */
  predicate Targets(c: Call, channelId: string) {
    match c
    case GetChannel(id) => id == channelId
    case KVGet(key) => key == WelcomeKey(channelId)
    case KVSet(key, _) => key == WelcomeKey(channelId)
    case KVDelete(key) => key == WelcomeKey(channelId)
  }

  /**
   The switch once validation has passed; `create` reads its first
   parameter, which validation guarantees. Only set can crash; only set and
   delete can change the store; preview, list, help and the unknown-action
   reply record no host call; help and the unknown action post one fixed reply.
   */
  function Dispatch(host: Host, preview: Previewer, args: CommandArgs, inv: Invocation): (r: Execution)
    requires Validate(inv.action, inv.parameters) == ""
    ensures r.Crashed? ==> Route(inv.action) == SetChannelWelcome && r.fault == MissingWelcomeMarker
    ensures Route(inv.action) !in {SetChannelWelcome, DeleteChannelWelcome} ==> r.Completed? && r.effect.store == host.store
    ensures Route(inv.action) !in {SetChannelWelcome, GetChannelWelcome, DeleteChannelWelcome} ==> r.Completed? && r.effect.calls == []
    ensures Route(inv.action) == ShowHelp ==> r.Completed? && r.effect.posts == [HelpText]
    ensures Route(inv.action) == UnknownAction ==> r.Completed? && r.effect.posts == [UnknownReply(inv.action)]
    ensures Route(inv.action) == GetChannelWelcome ==> r == Completed(GetWelcome(host, args))
    ensures Route(inv.action) == DeleteChannelWelcome ==> r == Completed(DeleteWelcome(host, args))
    ensures Route(inv.action) == SetChannelWelcome ==> r == SetWelcome(host, args)
  {
    match Route(inv.action)
    case PreviewTeam =>
      Completed(Effect(Preview(inv.parameters[0], host.welcomeMessages, preview), [], host.store))
    case ListTeams => Completed(Effect([List(host.welcomeMessages)], [], host.store))
    case SetChannelWelcome => SetWelcome(host, args)
    case GetChannelWelcome => Completed(GetWelcome(host, args))
    case DeleteChannelWelcome => Completed(DeleteWelcome(host, args))
    case ShowHelp => Completed(Effect([HelpText], [], host.store))
    case UnknownAction => Completed(Effect([UnknownReply(inv.action)], [], host.store))
  }

  /**
   `ExecuteCommand`. A blank line crashes; a line whose first field is not
   `/trivia` does nothing; a line that breaks its action's arity rule gets
   the rule's reason; every other line is dispatched on its action.
   */
  function ExecuteCommand(host: Host, preview: Previewer, args: CommandArgs): (r: Execution)
    ensures r.Crashed? && r.fault == BlankCommand <==> AllSpace(args.command)
    ensures r.Crashed? && r.fault == BlankCommand ==> r.calls == []
  {
    match Tokenize(args.command)
    case None => Crashed(BlankCommand, [])
    case Some(inv) =>
      if inv.command != Trigger then Completed(Effect([], [], host.store))
      else
        var reason := Validate(inv.action, inv.parameters);
        if reason != "" then Completed(Effect([reason], [], host.store))
        else Dispatch(host, preview, args, inv)
  }

  /** A line whose first field is some other word gets no reply, makes no call and leaves the store alone. */
  lemma ExecuteIgnoresOtherCommands(host: Host, preview: Previewer, args: CommandArgs)
    requires Fields(args.command) != [] && Fields(args.command)[0] != Trigger
    ensures ExecuteCommand(host, preview, args) == Completed(Effect([], [], host.store))
  {
    FieldsOfBlank(args.command);
  }

  /** A `/trivia` line that breaks its action's arity rule gets exactly that rule's reason and nothing else. */
  lemma ExecuteRejects(host: Host, preview: Previewer, args: CommandArgs, action: string, parameters: seq<string>)
    requires Tokenize(args.command) == Some(Invocation(Trigger, action, parameters))
    requires action in Registry() && !Admits(Registry()[action].arity, |parameters|)
    ensures ExecuteCommand(host, preview, args) == Completed(Effect([Registry()[action].reason], [], host.store))
  {
  }

  /** A valid `create` line previews the team named by its first parameter and touches nothing. */
  lemma ExecuteCreate(host: Host, preview: Previewer, args: CommandArgs, team: string, channel: string)
    requires Tokenize(args.command) == Some(Invocation(Trigger, Create, [team, channel]))
    ensures ExecuteCommand(host, preview, args)
              == Completed(Effect(Preview(team, host.welcomeMessages, preview), [], host.store))
  {
    assert Route(Create) == PreviewTeam;
  }

  /** A valid `list_quizes` line posts the list of configured teams and touches nothing. */
  lemma ExecuteList(host: Host, preview: Previewer, args: CommandArgs)
    requires Tokenize(args.command) == Some(Invocation(Trigger, ListQuizes, []))
    ensures ExecuteCommand(host, preview, args) == Completed(Effect([List(host.welcomeMessages)], [], host.store))
  {
    assert Route(ListQuizes) == ListTeams;
  }

  /** A valid `list_questions` line runs set. */
  lemma ExecuteSet(host: Host, preview: Previewer, args: CommandArgs, text: string)
    requires Tokenize(args.command) == Some(Invocation(Trigger, ListQuestions, [text]))
    ensures ExecuteCommand(host, preview, args) == SetWelcome(host, args)
  {
    assert Route(ListQuestions) == SetChannelWelcome;
  }

  /** A valid `add_question` line runs get. */
  lemma ExecuteGet(host: Host, preview: Previewer, args: CommandArgs, parameters: seq<string>)
    requires Tokenize(args.command) == Some(Invocation(Trigger, AddQuestion, parameters))
    requires |parameters| >= 2
    ensures ExecuteCommand(host, preview, args) == Completed(GetWelcome(host, args))
  {
    var inv := Invocation(Trigger, AddQuestion, parameters);
    assert Validate(AddQuestion, parameters) == "";
    ExecuteDispatches(host, preview, args, inv);
    assert Route(AddQuestion) == GetChannelWelcome;
  }

  /** Valid `delete_question` and `start` lines both run delete. */
  lemma ExecuteDelete(host: Host, preview: Previewer, args: CommandArgs, action: string, parameters: seq<string>)
    requires Tokenize(args.command) == Some(Invocation(Trigger, action, parameters))
    requires (action == DeleteQuestion && |parameters| >= 2) || (action == Start && |parameters| == 1)
    ensures ExecuteCommand(host, preview, args) == Completed(DeleteWelcome(host, args))
  {
    var inv := Invocation(Trigger, action, parameters);
    assert Validate(action, parameters) == "";
    ExecuteDispatches(host, preview, args, inv);
    assert Route(action) == DeleteChannelWelcome;
  }

  /** A `/trivia` line that passes validation is dispatched on its action. */
  lemma ExecuteDispatches(host: Host, preview: Previewer, args: CommandArgs, inv: Invocation)
    requires Tokenize(args.command) == Some(inv) && inv.command == Trigger
    requires Validate(inv.action, inv.parameters) == ""
    ensures ExecuteCommand(host, preview, args) == Dispatch(host, preview, args, inv)
  {
  }

  /**
   A run that completes changes no key but the invoking channel's welcome
   key, and changes anything only when the action is one of the three
   routed to set or delete.
   */
  lemma ExecuteStoreFrame(host: Host, preview: Previewer, args: CommandArgs)
    ensures var r := ExecuteCommand(host, preview, args);
      r.Completed? ==>
        && SameExceptAt(host.store, r.effect.store, WelcomeKey(args.channelId))
        && (r.effect.store != host.store ==>
              && Tokenize(args.command).Some?
              && Tokenize(args.command).value.command == Trigger
              && Tokenize(args.command).value.action in {ListQuestions, DeleteQuestion, Start})
  {
    match Tokenize(args.command)
    case None =>
    case Some(inv) =>
      if inv.command == Trigger && Validate(inv.action, inv.parameters) == "" {
        match Route(inv.action)
        case SetChannelWelcome => SetWelcomeFrame(host, args);
        case _ =>
      }
  }

  /**
   The two panics: a blank line, and a valid `list_questions` line without
   `set_channel_welcome` typed in a channel that is found and is not direct.
   */
  lemma ExecuteCrashes(host: Host, preview: Previewer, args: CommandArgs)
    ensures var r := ExecuteCommand(host, preview, args);
      r.Crashed? <==>
        || AllSpace(args.command)
        || (var t := Tokenize(args.command);
            && t.Some? && t.value.command == Trigger && t.value.action == ListQuestions
            && |t.value.parameters| == 1
            && host.channel.Found? && host.channel.channelType != Direct
            && !Contains(args.command, WelcomeMarker))
  {
  }

  /** The calls of set: the channel lookup, then at most a write of the channel's own key. */
  lemma SetWelcomeTargets(host: Host, args: CommandArgs)
    ensures var calls := CallsOf(SetWelcome(host, args));
      forall i :: 0 <= i < |calls| ==> Targets(calls[i], args.channelId)
  {
    var r := SetWelcome(host, args);
    SetWelcomeCalls(host, args);
    CallsTargets(if r.Completed? then r.effect.calls else r.calls, args.channelId);
  }

  /** A lookup of the channel, then perhaps a write of its key, concerns that channel alone. */
  lemma CallsTargets(calls: seq<Call>, channelId: string)
    requires 1 <= |calls| <= 2 && calls[0] == GetChannel(channelId)
    requires |calls| == 2 ==> calls[1].KVSet? && calls[1].key == WelcomeKey(channelId)
    ensures forall i :: 0 <= i < |calls| ==> Targets(calls[i], channelId)
  {
  }

  /** The one call of get reads the channel's own key. */
  lemma GetWelcomeTargets(host: Host, args: CommandArgs)
    ensures var calls := CallsOf(Completed(GetWelcome(host, args)));
      forall i :: 0 <= i < |calls| ==> Targets(calls[i], args.channelId)
  {
  }

  /** The calls of delete read and perhaps delete the channel's own key. */
  lemma DeleteWelcomeTargets(host: Host, args: CommandArgs)
    ensures var calls := CallsOf(Completed(DeleteWelcome(host, args)));
      forall i :: 0 <= i < |calls| ==> Targets(calls[i], args.channelId)
  {
    var key := WelcomeKey(args.channelId);
    var calls := DeleteWelcome(host, args).calls;
    assert Targets(KVGet(key), args.channelId) && Targets(KVDelete(key), args.channelId);
    assert calls == [KVGet(key)] || calls == [KVGet(key), KVDelete(key)];
  }

  /** Every host call a command makes, completed or crashed, concerns the invoking channel and its key alone. */
  lemma ExecuteTargetsOwnChannel(host: Host, preview: Previewer, args: CommandArgs)
    ensures var calls := CallsOf(ExecuteCommand(host, preview, args));
      forall i :: 0 <= i < |calls| ==> Targets(calls[i], args.channelId)
  {
    match Tokenize(args.command)
    case None =>
    case Some(inv) =>
      if inv.command == Trigger && Validate(inv.action, inv.parameters) == "" {
        DispatchTargets(host, preview, args, inv);
      }
  }

  /** Every host call a dispatched handler records concerns the invoking channel or its key. */
  lemma DispatchTargets(host: Host, preview: Previewer, args: CommandArgs, inv: Invocation)
    requires Validate(inv.action, inv.parameters) == ""
    ensures var calls := CallsOf(Dispatch(host, preview, args, inv));
      forall i :: 0 <= i < |calls| ==> Targets(calls[i], args.channelId)
  {
    var h := Route(inv.action);
    if h == SetChannelWelcome {
      SetWelcomeTargets(host, args);
    } else if h == GetChannelWelcome {
      GetWelcomeTargets(host, args);
    } else if h == DeleteChannelWelcome {
      DeleteWelcomeTargets(host, args);
    }
  }

  /** The posted help starts with its heading and has no `|` left in it. */
  lemma HelpRendering()
    ensures HelpText[..|HelpHeader|] == HelpHeader
    ensures '|' !in HelpText
  {
    ReplaceCharRemoves(CommandHelp, '|', '`');
    assert '|' !in HelpHeader;
  }

  // ---------------------------------------------------------------------------
  // Whole commands
  // ---------------------------------------------------------------------------

  /** A valid `create` line reports the team as not found exactly when no configured entry names it. */
  lemma ExecuteCreateNotFound(host: Host, preview: Previewer, args: CommandArgs, team: string, channel: string)
    requires Tokenize(args.command) == Some(Invocation(Trigger, Create, [team, channel]))
    ensures ExecuteCommand(host, preview, args).Completed?
    ensures (TeamNotFound(team) in ExecuteCommand(host, preview, args).effect.posts)
              <==> (forall e :: e in host.welcomeMessages ==> !Names(e, team))
  {
    ExecuteCreate(host, preview, args, team, channel);
    PreviewNotFound(team, host.welcomeMessages, preview);
    var ms := Matches(team, host.welcomeMessages);
    forall m ensures m in ms <==> m in host.welcomeMessages && Names(m, team) {
      MatchesMembers(team, host.welcomeMessages, m);
    }
    if ms != [] {
      assert ms[0] in ms;
    }
  }

  /**
   Round trip through whole command lines: after a `list_questions` line
   that stores a welcome message, an `add_question` line typed in the same
   channel shows exactly the text the first line reported storing.
   */
  lemma ExecuteSetThenGet(host: Host, preview: Previewer, setArgs: CommandArgs, getArgs: CommandArgs,
                          text: string, getParameters: seq<string>)
    requires Healthy(host) && setArgs.channelId == getArgs.channelId
    requires Tokenize(setArgs.command) == Some(Invocation(Trigger, ListQuestions, [text]))
    requires Contains(setArgs.command, WelcomeMarker)
    requires Tokenize(getArgs.command) == Some(Invocation(Trigger, AddQuestion, getParameters))
    requires |getParameters| >= 2
    ensures ExecuteCommand(host, preview, setArgs).Completed?
    ensures exists v ::
      && ExecuteCommand(host, preview, setArgs).effect.posts == [Stored(v)]
      && ExecuteCommand(host.(store := ExecuteCommand(host, preview, setArgs).effect.store), preview, getArgs)
           == Completed(Effect([Shown(v)], [KVGet(WelcomeKey(getArgs.channelId))], ExecuteCommand(host, preview, setArgs).effect.store))
  {
    ExecuteSet(host, preview, setArgs, text);
    SetStores(host, setArgs);
    var stored := SetWelcome(host, setArgs).effect.store;
    var v := TrimSpace(TextAfterMarker(setArgs.command).value);
    assert SetWelcome(host, setArgs).effect.posts == [Stored(v)];
    var later := host.(store := stored);
    ExecuteGet(later, preview, getArgs, getParameters);
    assert stored[WelcomeKey(getArgs.channelId)] == v;
    assert GetWelcome(later, getArgs) == Effect([Shown(v)], [KVGet(WelcomeKey(getArgs.channelId))], stored);
  }

  /** A `/trivia` line with no action posts the help and nothing else. */
  lemma ExecuteHelp(host: Host, preview: Previewer, args: CommandArgs)
    requires Tokenize(args.command) == Some(Invocation(Trigger, "", []))
    ensures ExecuteCommand(host, preview, args) == Completed(Effect([HelpText], [], host.store))
  {
    DeleteQuizAndEmptyAccepted([]);
  }

  /** Any `/trivia` line whose action has no branch gets the unknown-action reply, whatever its parameters. */
  lemma ExecuteUnknown(host: Host, preview: Previewer, args: CommandArgs, action: string, parameters: seq<string>)
    requires Tokenize(args.command) == Some(Invocation(Trigger, action, parameters))
    requires Route(action) == UnknownAction
    ensures ExecuteCommand(host, preview, args) == Completed(Effect([UnknownReply(action)], [], host.store))
  {
    ValidateAcceptsUnruled(action, parameters);
  }

  /** Two words joined by a space tokenise as a command and an action without parameters. */
  lemma TokenizePair(command: string, action: string)
    requires IsWord(command) && IsWord(action)
    ensures Tokenize(Join([command, action], " ")) == Some(Invocation(command, action, []))
  {
    TokenizeJoin(command, action, []);
    assert [command, action] + [] == [command, action];
  }

  /** `/trivia` alone posts the help. */
  lemma ExampleBareTrigger(host: Host, preview: Previewer, channelId: string)
    ensures ExecuteCommand(host, preview, CommandArgs(Trigger, channelId)) == Completed(Effect([HelpText], [], host.store))
  {
    VisibleIsWord(Trigger);
    TokenizeBare(Trigger);
    ExecuteHelp(host, preview, CommandArgs(Trigger, channelId));
  }

  /** `/trivia stop` gets the unknown-action reply naming the word. */
  lemma ExampleUnknownAction(host: Host, preview: Previewer, channelId: string)
    ensures ExecuteCommand(host, preview, CommandArgs(Join([Trigger, "stop"], " "), channelId))
              == Completed(Effect([UnknownReply("stop")], [], host.store))
  {
    TokenizeStop();
    ExecuteUnknown(host, preview, CommandArgs(Join([Trigger, "stop"], " "), channelId), "stop", []);
  }

  /** `/trivia stop` tokenises into an action with no branch. */
  lemma TokenizeStop()
    ensures Tokenize(Join([Trigger, "stop"], " ")) == Some(Invocation(Trigger, "stop", []))
    ensures Route("stop") == UnknownAction
  {
    VisibleIsWord(Trigger);
    VisibleIsWord("stop");
    TokenizePair(Trigger, "stop");
  }

  /** The three words of `/trivia delete_quiz all` tokenise as expected. */
  lemma TokenizeDeleteQuizAll()
    ensures Tokenize(Join([Trigger, DeleteQuiz, "all"], " ")) == Some(Invocation(Trigger, DeleteQuiz, ["all"]))
  {
    VisibleIsWord(Trigger);
    VisibleIsWord(DeleteQuiz);
    VisibleIsWord("all");
    TokenizeTriple(Trigger, DeleteQuiz, "all");
  }

  /** Three words joined by spaces tokenise as a command, an action and one parameter. */
  lemma TokenizeTriple(command: string, action: string, parameter: string)
    requires IsWord(command) && IsWord(action) && IsWord(parameter)
    ensures Tokenize(Join([command, action, parameter], " ")) == Some(Invocation(command, action, [parameter]))
  {
    TokenizeJoin(command, action, [parameter]);
    assert [command, action] + [parameter] == [command, action, parameter];
  }

  /** `/trivia delete_quiz all` passes validation but has no branch, so it too is an unknown action. */
  lemma ExampleDeleteQuiz(host: Host, preview: Previewer, channelId: string)
    ensures ExecuteCommand(host, preview, CommandArgs(Join([Trigger, DeleteQuiz, "all"], " "), channelId))
              == Completed(Effect([UnknownReply(DeleteQuiz)], [], host.store))
  {
    TokenizeDeleteQuizAll();
    ExecuteUnknown(host, preview, CommandArgs(Join([Trigger, DeleteQuiz, "all"], " "), channelId), DeleteQuiz, ["all"]);
  }

  /** `/trivia start` without a quiz name is refused with the start rule's reason. */
  lemma ExampleStartWithoutName(host: Host, preview: Previewer, channelId: string)
    ensures ExecuteCommand(host, preview, CommandArgs(Join([Trigger, Start], " "), channelId))
              == Completed(Effect([StartReason], [], host.store))
  {
    TokenizeStart();
    ExecuteRejects(host, preview, CommandArgs(Join([Trigger, Start], " "), channelId), Start, []);
  }

  /** `/trivia start` tokenises into the start action with no parameters, which its rule refuses. */
  lemma TokenizeStart()
    ensures Tokenize(Join([Trigger, Start], " ")) == Some(Invocation(Trigger, Start, []))
    ensures Start in Registry() && !Admits(Registry()[Start].arity, 0) && Registry()[Start].reason == StartReason
  {
    VisibleIsWord(Trigger);
    VisibleIsWord(Start);
    TokenizePair(Trigger, Start);
  }

  /** A line of spaces and tabs crashes before anything else happens. */
  lemma ExampleBlankLine(host: Host, preview: Previewer, channelId: string)
    ensures ExecuteCommand(host, preview, CommandArgs(" \t ", channelId)) == Crashed(BlankCommand, [])
  {
    assert AllSpace(" \t ");
  }
}
