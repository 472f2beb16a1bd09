/** PnPDeviceChangeWatcher: the program's static state as a class; ParseParams and
    the start-up checks of Main; and ProcessEvent, which on every device-change
    notification re-queries the watched device's presence, reports a genuine
    connect or disconnect, starts the configured command, and retains the new
    presence. */
module PresenceWatcher {
  import opened Wrappers
  import opened CommandLine
  import opened Wql

  /** A genuine change of the watched device's presence. */
  datatype Transition = Connected | Disconnected

  /** What ProcessEvent prints and starts, as abstract events. */
  datatype Event =
    | Notice(transition: Transition)            // "Device connected" / "Device disconnected"
    | Executing(command: string)                // "Executing command: ..."
    | Launch(program: string, arguments: string) // a hidden cmd.exe is started
    | NoCommand                                 // "No command specified, doing nothing"

  const Shell := "cmd.exe"

  /** ProcessEvent's response to a presence query that answered `present` while
      `connected` was retained: nothing when the presence is unchanged; otherwise
      a notice, then the command configured for that change, if any. */
  function Reaction(connected: bool, present: bool, onConnect: Option<string>, onDisconnect: Option<string>): seq<Event>
  {
    if present == connected then []
    else
      var command := if present then onConnect else onDisconnect;
      [Notice(if present then Connected else Disconnected)] +
      match command
      case Some(c) => [Executing(c), Launch(Shell, "/c " + c)]
      case None => [NoCommand]
  }

  /** The argument strings of the cmd.exe processes a run of events starts. */
  function Launches(events: seq<Event>): seq<string>
    decreases |events|
  {
    if events == [] then []
    else (if events[0].Launch? then [events[0].arguments] else []) + Launches(events[1..])
  }

  /** The connect and disconnect notices of a run of events. */
  function Notices(events: seq<Event>): seq<Transition>
    decreases |events|
  {
    if events == [] then []
    else (if events[0].Notice? then [events[0].transition] else []) + Notices(events[1..])
  }

  lemma {:induction false} LaunchesAppend(a: seq<Event>, b: seq<Event>)
    ensures Launches(a + b) == Launches(a) + Launches(b)
    decreases |a|
  {
    if a == [] {
      assert a + b == b;
    } else {
      assert (a + b)[0] == a[0] && (a + b)[1..] == a[1..] + b;
      LaunchesAppend(a[1..], b);
    }
  }

  lemma {:induction false} NoticesAppend(a: seq<Event>, b: seq<Event>)
    ensures Notices(a + b) == Notices(a) + Notices(b)
    decreases |a|
  {
    if a == [] {
      assert a + b == b;
    } else {
      assert (a + b)[0] == a[0] && (a + b)[1..] == a[1..] + b;
      NoticesAppend(a[1..], b);
    }
  }

  /** The four cases of a notification: unchanged presence (either way) reports
      and starts nothing; false to true reports one connect and starts cmd.exe
      with "/c " and the connect command exactly when one is configured; true to
      false does the same with the disconnect command. */
  lemma ReactionCases(connected: bool, present: bool, onConnect: Option<string>, onDisconnect: Option<string>)
    ensures Reaction(connected, present, onConnect, onDisconnect) == [] <==> connected == present
    ensures !connected && present ==>
      Notices(Reaction(connected, present, onConnect, onDisconnect)) == [Connected] &&
      Launches(Reaction(connected, present, onConnect, onDisconnect)) ==
        (if onConnect.Some? then ["/c " + onConnect.value] else [])
    ensures connected && !present ==>
      Notices(Reaction(connected, present, onConnect, onDisconnect)) == [Disconnected] &&
      Launches(Reaction(connected, present, onConnect, onDisconnect)) ==
        (if onDisconnect.Some? then ["/c " + onDisconnect.value] else [])
    ensures forall e :: e in Reaction(connected, present, onConnect, onDisconnect) && e.Launch? ==> e.program == Shell
  {
    var r := Reaction(connected, present, onConnect, onDisconnect);
    if connected != present {
      var command := if present then onConnect else onDisconnect;
      var tail := if command.Some? then [Executing(command.value), Launch(Shell, "/c " + command.value)] else [NoCommand];
      var notice := Notice(if present then Connected else Disconnected);
      assert r == [notice] + tail;
      LaunchesAppend([notice], tail);
      NoticesAppend([notice], tail);
      if command.Some? {
        LaunchesAppend([Executing(command.value)], [Launch(Shell, "/c " + command.value)]);
        NoticesAppend([Executing(command.value)], [Launch(Shell, "/c " + command.value)]);
      }
    }
  }

  /** A run of notifications: each observation is the presence query's answer, or
      None when the query threw. Gives all events and the finally retained flag. */
  function Session(connected: bool, observations: seq<Option<bool>>, onConnect: Option<string>, onDisconnect: Option<string>): (seq<Event>, bool)
    decreases |observations|
  {
    if observations == [] then ([], connected)
    else
      var now := if observations[0].Some? then observations[0].value else connected;
      var events := if observations[0].Some? then Reaction(connected, now, onConnect, onDisconnect) else [];
      var rest := Session(now, observations[1..], onConnect, onDisconnect);
      (events + rest.0, rest.1)
  }

  /** One ProcessEvent call advances a session by its first observation: the
      events it returns, if any, continue the log, and the flag it leaves starts
      the rest of the session. */
  lemma WatchStep(log: seq<Event>, events: Option<seq<Event>>, before: bool, after: bool,
                  observations: seq<Option<bool>>, onConnect: Option<string>, onDisconnect: Option<string>)
    requires observations != []
    requires match observations[0]
      case None => events.None? && after == before
      case Some(present) => events == Some(Reaction(before, present, onConnect, onDisconnect)) && after == present
    ensures (if events.Some? then log + events.value else log) + Session(after, observations[1..], onConnect, onDisconnect).0 ==
      log + Session(before, observations, onConnect, onDisconnect).0
    ensures Session(after, observations[1..], onConnect, onDisconnect).1 == Session(before, observations, onConnect, onDisconnect).1
  {
    var later := Session(after, observations[1..], onConnect, onDisconnect);
    if events.Some? {
      assert log + (events.value + later.0) == (log + events.value) + later.0;
    }
  }

  /** Notices alternate, beginning with the change away from `connected`. */
  predicate Alternates(notices: seq<Transition>, connected: bool)
    decreases |notices|
  {
    notices == [] ||
    (notices[0] == (if connected then Disconnected else Connected) && Alternates(notices[1..], !connected))
  }

  /** The notices of one notification: none, or the one change. */
  lemma ReactionNotices(connected: bool, present: bool, onConnect: Option<string>, onDisconnect: Option<string>)
    ensures Notices(Reaction(connected, present, onConnect, onDisconnect)) ==
      if connected == present then [] else [if present then Connected else Disconnected]
  {
    ReactionCases(connected, present, onConnect, onDisconnect);
  }

  /** Reference definition of what a run of notifications reports: one notice
      per answer that differs from the retained flag, and the flag left behind. */
  function Changes(connected: bool, observations: seq<Option<bool>>): (seq<Transition>, bool)
    decreases |observations|
  {
    if observations == [] then ([], connected)
    else
      var now := if observations[0].Some? then observations[0].value else connected;
      var rest := Changes(now, observations[1..]);
      ((if now == connected then [] else [if now then Connected else Disconnected]) + rest.0, rest.1)
  }

  /** The notices of a session and its final flag are those of the reference
      definition, whatever commands are configured. */
  lemma {:induction false} SessionChanges(connected: bool, observations: seq<Option<bool>>, onConnect: Option<string>, onDisconnect: Option<string>)
    ensures Notices(Session(connected, observations, onConnect, onDisconnect).0) == Changes(connected, observations).0
    ensures Session(connected, observations, onConnect, onDisconnect).1 == Changes(connected, observations).1
    decreases |observations|
  {
    if observations != [] {
      var o := observations[0];
      var now := if o.Some? then o.value else connected;
      var events := if o.Some? then Reaction(connected, now, onConnect, onDisconnect) else [];
      var rest := Session(now, observations[1..], onConnect, onDisconnect);
      SessionChanges(now, observations[1..], onConnect, onDisconnect);
      assert Session(connected, observations, onConnect, onDisconnect) == (events + rest.0, rest.1);
      NoticesAppend(events, rest.0);
      if o.Some? {
        ReactionNotices(connected, now, onConnect, onDisconnect);
      }
    }
  }

  /** Reported changes alternate, and the flag flips once per change. */
  lemma {:induction false} ChangesAlternate(connected: bool, observations: seq<Option<bool>>)
    ensures Alternates(Changes(connected, observations).0, connected)
    ensures Changes(connected, observations).1 ==
      if |Changes(connected, observations).0| % 2 == 0 then connected else !connected
    decreases |observations|
  {
    if observations != [] {
      var now := if observations[0].Some? then observations[0].value else connected;
      var rest := Changes(now, observations[1..]);
      ChangesAlternate(now, observations[1..]);
      if now != connected {
        var t := if now then Connected else Disconnected;
        assert ([t] + rest.0)[0] == t && ([t] + rest.0)[1..] == rest.0;
      } else {
        assert [] + rest.0 == rest.0;
      }
    }
  }

  /** Over any run of notifications there are no duplicate and no missed reports:
      connects and disconnects alternate, starting from the initial presence, and
      the retained flag flips once per notice. */
  lemma SessionAlternates(connected: bool, observations: seq<Option<bool>>, onConnect: Option<string>, onDisconnect: Option<string>)
    ensures Alternates(Notices(Session(connected, observations, onConnect, onDisconnect).0), connected)
    ensures Session(connected, observations, onConnect, onDisconnect).1 ==
      if |Notices(Session(connected, observations, onConnect, onDisconnect).0)| % 2 == 0 then connected else !connected
  {
    SessionChanges(connected, observations, onConnect, onDisconnect);
    ChangesAlternate(connected, observations);
  }

  /** The retained flag ends as the last query that answered says, or as it began
      when no query answered: a failed query changes nothing. */
  lemma {:induction false} SessionRetainsLastAnswer(connected: bool, observations: seq<Option<bool>>, onConnect: Option<string>, onDisconnect: Option<string>)
    ensures (forall i :: 0 <= i < |observations| ==> observations[i].None?) ==>
      Session(connected, observations, onConnect, onDisconnect).1 == connected
    ensures forall j ::
      (0 <= j < |observations| && observations[j].Some? &&
       forall i :: j < i < |observations| ==> observations[i].None?) ==>
      Session(connected, observations, onConnect, onDisconnect).1 == observations[j].value
    decreases |observations|
  {
    if observations != [] {
      var o := observations[0];
      var now := if o.Some? then o.value else connected;
      var tail := observations[1..];
      var rest := Session(now, tail, onConnect, onDisconnect);
      SessionRetainsLastAnswer(now, tail, onConnect, onDisconnect);
      assert Session(connected, observations, onConnect, onDisconnect).1 == rest.1;
      assert forall i :: 0 <= i < |tail| ==> tail[i] == observations[i + 1];
      forall j | 0 <= j < |observations| && observations[j].Some? &&
        (forall i :: j < i < |observations| ==> observations[i].None?)
        ensures rest.1 == observations[j].value
      {
        if j > 0 {
          assert tail[j - 1] == observations[j];
        }
      }
    }
  }

  /** The cmd.exe argument string a notice calls for: "/c " and the command
      configured for that transition, or nothing when none is. */
  function CommandFor(notice: Transition, onConnect: Option<string>, onDisconnect: Option<string>): seq<string>
  {
    var command := if notice == Connected then onConnect else onDisconnect;
    if command.Some? then ["/c " + command.value] else []
  }

  /** The cmd.exe argument strings a run of notices calls for, in order. */
  function CommandsFor(notices: seq<Transition>, onConnect: Option<string>, onDisconnect: Option<string>): seq<string>
    decreases |notices|
  {
    if notices == [] then []
    else CommandFor(notices[0], onConnect, onDisconnect) + CommandsFor(notices[1..], onConnect, onDisconnect)
  }

  lemma {:induction false} CommandsForAppend(a: seq<Transition>, b: seq<Transition>, onConnect: Option<string>, onDisconnect: Option<string>)
    ensures CommandsFor(a + b, onConnect, onDisconnect) == CommandsFor(a, onConnect, onDisconnect) + CommandsFor(b, onConnect, onDisconnect)
    decreases |a|
  {
    if a == [] {
      assert a + b == b;
    } else {
      assert (a + b)[0] == a[0] && (a + b)[1..] == a[1..] + b;
      CommandsForAppend(a[1..], b, onConnect, onDisconnect);
      var head := CommandFor(a[0], onConnect, onDisconnect);
      assert head + (CommandsFor(a[1..], onConnect, onDisconnect) + CommandsFor(b, onConnect, onDisconnect)) ==
        (head + CommandsFor(a[1..], onConnect, onDisconnect)) + CommandsFor(b, onConnect, onDisconnect);
    }
  }

  /** One notification starts exactly the commands its notices call for. */
  lemma ReactionLaunches(connected: bool, present: bool, onConnect: Option<string>, onDisconnect: Option<string>)
    ensures Launches(Reaction(connected, present, onConnect, onDisconnect)) ==
      CommandsFor(Notices(Reaction(connected, present, onConnect, onDisconnect)), onConnect, onDisconnect)
  {
    ReactionCases(connected, present, onConnect, onDisconnect);
    if connected != present {
      var t := if present then Connected else Disconnected;
      assert [t][1..] == [];
    }
  }

  /** Over any run of notifications, the commands started are, in order, one per
      notice: the connect command for a connect and the disconnect command for a
      disconnect, each only when it is configured. */
  lemma {:induction false} SessionLaunchesPerNotice(connected: bool, observations: seq<Option<bool>>, onConnect: Option<string>, onDisconnect: Option<string>)
    ensures Launches(Session(connected, observations, onConnect, onDisconnect).0) ==
      CommandsFor(Notices(Session(connected, observations, onConnect, onDisconnect).0), onConnect, onDisconnect)
    decreases |observations|
  {
    if observations != [] {
      var o := observations[0];
      var now := if o.Some? then o.value else connected;
      var events := if o.Some? then Reaction(connected, now, onConnect, onDisconnect) else [];
      var rest := Session(now, observations[1..], onConnect, onDisconnect);
      assert Session(connected, observations, onConnect, onDisconnect) == (events + rest.0, rest.1);
      SessionLaunchesPerNotice(now, observations[1..], onConnect, onDisconnect);
      if o.Some? {
        ReactionLaunches(connected, now, onConnect, onDisconnect);
      }
      LaunchesAppend(events, rest.0);
      NoticesAppend(events, rest.0);
      CommandsForAppend(Notices(events), Notices(rest.0), onConnect, onDisconnect);
    }
  }

  /** How the program ends, for the outcomes of ParseParams and Main that exit. */
  datatype Effect =
    | ShowHelp                                  // help text printed
    | Relaunch(arguments: string, hidden: bool) // a new instance started with this line
    | SendStopSignal                            // the global stop handle set
    | MissingDeviceId                           // "device ID must be specified"

  /** Monitor: Main goes on to watch the device; Exit: Environment.Exit with a
      code; Aborted: an exception from the initial presence query ends Main. */
  datatype Outcome = Monitor | Exit(code: int, effect: Effect) | Aborted

  /** The exit taken for the first action option. */
  function ExitFor(action: Action, args: seq<string>): Outcome
  {
    match action
    case Hide => Exit(0, Relaunch(ArgLine(args), true))
    case HideSimulated => Exit(0, Relaunch(ArgLine(args), false))
    case Stop => Exit(0, SendStopSignal)
    case Help => Exit(0, ShowHelp)
  }

  /** RunHidden: the relaunch with every argument but the hide options; the window
      is hidden unless the launch is simulated. */
  method RunHidden(args: seq<string>, simulate: bool) returns (effect: Effect)
    ensures effect.Relaunch? && effect.hidden == !simulate
    ensures DecodeArgLine(effect.arguments) == Some(KeptArguments(args))
    ensures effect.arguments == ArgLine(args)
  {
    var line := BuildArgLine(args);
    ArgLineRoundTrip(args);
    effect := Relaunch(line, !simulate);
  }

  /** The static fields of the program. */
  class Watcher {
    var deviceId: Option<string>
    var commandOnConnect: Option<string>
    var commandOnDisconnect: Option<string>
    var connected: bool

    function Settings(): Config
      reads this
    {
      Config(deviceId, commandOnConnect, commandOnDisconnect)
    }

    /** The fields as the runtime initialises them: null and false. */
    constructor ()
      ensures Settings() == Config(None, None, None) && !connected
    {
      deviceId, commandOnConnect, commandOnDisconnect := None, None, None;
      connected := false;
    }

    /** One pass of the ParseParams loop at position i: the IsArg tests in the
        order the loop makes them. An action option yields the exit; a
        value-taking option that is not last assigns the argument after it and
        the scan resumes behind both; anything else is passed over. */
    method ScanArgument(args: seq<string>, i: nat) returns (next: nat, exit: Option<Outcome>)
      requires i < |args|
      modifies this`deviceId, this`commandOnConnect, this`commandOnDisconnect
      ensures exit.Some? <==> ActionOf(args[i]).Some?
      ensures exit.Some? ==> exit.value == ExitFor(ActionOf(args[i]).value, args) && Settings() == old(Settings())
      ensures exit.None? && i + 1 < |args| && FieldOf(args[i]).Some? ==>
        next == i + 2 && Settings() == old(Settings()).With(FieldOf(args[i]).value, args[i + 1])
      ensures exit.None? && !(i + 1 < |args| && FieldOf(args[i]).Some?) ==>
        next == i + 1 && Settings() == old(Settings())
    {
      var arg := args[i];
      next := i + 1;
      exit := None;
      if IsArg(Some(arg), Some(OptionHide)) {
        var effect := RunHidden(args, false);
        exit := Some(Exit(0, effect));
      } else if IsArg(Some(arg), Some(OptionHideSimulated)) {
        var effect := RunHidden(args, true);
        exit := Some(Exit(0, effect));
      } else if IsArg(Some(arg), Some(OptionStop)) {
        exit := Some(Exit(0, SendStopSignal));
      } else if IsArg(Some(arg), Some(OptionHelp)) || IsArg(Some(arg), Some(OptionHelpAlt)) {
        exit := Some(Exit(0, ShowHelp));
      } else if i < |args| - 1 {
        if IsArg(Some(arg), Some(OptionDeviceId)) {
          next := i + 2;
          deviceId := Some(args[i + 1]);
        } else if IsArg(Some(arg), Some(OptionOnConnect)) {
          next := i + 2;
          commandOnConnect := Some(args[i + 1]);
        } else if IsArg(Some(arg), Some(OptionOnDisconnect)) {
          next := i + 2;
          commandOnDisconnect := Some(args[i + 1]);
        }
      }
    }

    /** ParseParams: the left-to-right scan over the arguments, assigning the
        settings and exiting at the first action option. */
    method ParseParams(args: seq<string>) returns (outcome: Outcome)
      modifies this`deviceId, this`commandOnConnect, this`commandOnDisconnect
      ensures Settings() == Parse(args, old(Settings())).0
      ensures outcome == match Parse(args, old(Settings())).1
        case None => Monitor
        case Some(a) => ExitFor(a, args)
    {
      if |args| == 0 {
        outcome := Exit(0, ShowHelp);
        return;
      }
      var i := 0;
      while i < |args|
        invariant 0 <= i <= |args|
        invariant Apply(Tokens(args[i..]), Settings()) == Parse(args, old(Settings()))
      {
        ScanStep(args, i, Settings());
        var next, exit := ScanArgument(args, i);
        if exit.Some? {
          outcome := exit.value;
          return;
        }
        i := next;
      }
      assert args[i..] == [];
      outcome := Monitor;
    }

    /** Main up to the subscription: parse the arguments, refuse to run without a
        device ID (exit code -1), then retain the device's initial presence. */
    method Start(args: seq<string>, wmi: string -> Option<nat>) returns (outcome: Outcome)
      modifies this
      ensures Settings() == Parse(args, old(Settings())).0
      ensures Parse(args, old(Settings())).1.Some? ==>
        outcome == ExitFor(Parse(args, old(Settings())).1.value, args) && connected == old(connected)
      ensures Parse(args, old(Settings())).1.None? && deviceId.None? ==>
        outcome == Exit(-1, MissingDeviceId) && connected == old(connected)
      ensures Parse(args, old(Settings())).1.None? && deviceId.Some? ==>
        match IsDevicePresent(deviceId, wmi)
        case None => outcome == Aborted && connected == old(connected)
        case Some(present) => outcome == Monitor && connected == present
    {
      outcome := ParseParams(args);
      if outcome != Monitor {
        return;
      }
      if deviceId.None? {
        outcome := Exit(-1, MissingDeviceId);
        return;
      }
      var present := IsDevicePresent(deviceId, wmi);
      if present.None? {
        outcome := Aborted;
        return;
      }
      connected := present.value;
    }

    /** ProcessEvent: re-query the watched device; on a genuine change report it
        and start the configured command; then retain the new presence. A query
        that throws leaves the retained presence as it was. */
    method ProcessEvent(wmi: string -> Option<nat>) returns (events: Option<seq<Event>>)
      modifies this`connected
      ensures match IsDevicePresent(deviceId, wmi)
        case None => events.None? && connected == old(connected)
        case Some(present) =>
          events == Some(Reaction(old(connected), present, commandOnConnect, commandOnDisconnect)) &&
          connected == present
    {
      var newStatus := IsDevicePresent(deviceId, wmi);
      if newStatus.None? {
        return None;
      }
      var log: seq<Event> := [];
      if newStatus.value != connected {
        if newStatus.value {
          log := log + [Notice(Connected)];
          if commandOnConnect.Some? {
            log := log + [Executing(commandOnConnect.value), Launch(Shell, "/c " + commandOnConnect.value)];
          } else {
            log := log + [NoCommand];
          }
        } else {
          log := log + [Notice(Disconnected)];
          if commandOnDisconnect.Some? {
            log := log + [Executing(commandOnDisconnect.value), Launch(Shell, "/c " + commandOnDisconnect.value)];
          } else {
            log := log + [NoCommand];
          }
        }
      }
      assert log == Reaction(connected, newStatus.value, commandOnConnect, commandOnDisconnect);
      connected := newStatus.value;
      events := Some(log);
    }

    /** A run of notifications, one ProcessEvent per query answer in `answers`;
        the events of the calls that returned are logged in order. This is what
        Session describes, with each answer's observation its presence query. */
    method Watch(answers: seq<string -> Option<nat>>) returns (log: seq<Event>)
      modifies this`connected
      ensures (log, connected) == Session(old(connected), Observations(deviceId, answers), commandOnConnect, commandOnDisconnect)
    {
      ghost var observations := Observations(deviceId, answers);
      log := [];
      var i := 0;
      while i < |answers|
        invariant 0 <= i <= |answers|
        invariant log + Session(connected, observations[i..], commandOnConnect, commandOnDisconnect).0 ==
          Session(old(connected), observations, commandOnConnect, commandOnDisconnect).0
        invariant Session(connected, observations[i..], commandOnConnect, commandOnDisconnect).1 ==
          Session(old(connected), observations, commandOnConnect, commandOnDisconnect).1
      {
        ghost var rest := observations[i..];
        assert rest[0] == IsDevicePresent(deviceId, answers[i]) && rest[1..] == observations[i + 1..];
        ghost var before := connected;
        var events := ProcessEvent(answers[i]);
        WatchStep(log, events, before, connected, rest, commandOnConnect, commandOnDisconnect);
        if events.Some? {
          log := log + events.value;
        }
        i := i + 1;
      }
      assert observations[i..] == [];
      assert log + Session(connected, [], commandOnConnect, commandOnDisconnect).0 == log;
    }
  }

  /** The observation each query answer gives: the device's presence, or None
      when the query throws. */
  function Observations(deviceId: Option<string>, answers: seq<string -> Option<nat>>): (observations: seq<Option<bool>>)
    ensures |observations| == |answers|
    ensures forall i :: 0 <= i < |answers| ==> observations[i] == IsDevicePresent(deviceId, answers[i])
  {
    seq(|answers|, i requires 0 <= i < |answers| => IsDevicePresent(deviceId, answers[i]))
  }

  /** Single-device mode from an absent device: a connect starts the connect
      command once, a repeated notification is debounced, a failed query keeps
      the retained presence, and a disconnect without a command only reports. */
  method ConnectScenario(id: string)
  {
    var watcher := new Watcher();
    watcher.deviceId := Some(id);
    watcher.commandOnConnect := Some("beep");
    var one: string -> Option<nat> := _ => Some(1);
    var none: string -> Option<nat> := _ => Some(0);
    var failing: string -> Option<nat> := _ => None;
    assert one(PresenceQuery(id)) == Some(1) && none(PresenceQuery(id)) == Some(0);
    assert failing(PresenceQuery(id)) == None;
    assert "/c " + "beep" == "/c beep";
    var first := watcher.ProcessEvent(one);
    assert first == Some([Notice(Connected)] + [Executing("beep"), Launch(Shell, "/c beep")]);
    var second := watcher.ProcessEvent(one);
    assert second == Some([]) && watcher.connected;
    var third := watcher.ProcessEvent(failing);
    assert third == None && watcher.connected;
    var fourth := watcher.ProcessEvent(none);
    assert fourth == Some([Notice(Disconnected)] + [NoCommand]) && !watcher.connected;
  }
}
