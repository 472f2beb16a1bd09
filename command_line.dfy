/** Command-line handling of PnPDeviceChangeWatcher: the case-insensitive option
    comparison IsArg, the left-to-right option scan of ParseParams (as a lexer,
    Tokens, and an interpreter, Apply) and the argument line RunHidden builds to
    relaunch the program, together with a decoder that inverts it. */
module CommandLine {
  import opened Wrappers
  import opened Text

  const OptionHide := "/hide"
  const OptionHideSimulated := "/hideSimulated"
  const OptionHelp := "/help"
  const OptionHelpAlt := "/?"
  const OptionDeviceId := "/deviceId"
  const OptionOnConnect := "/onConnect"
  const OptionOnDisconnect := "/onDisconnect"
  const OptionStop := "/stop"

  // ---------------------------------------------------------------------------
  // IsArg

  /** IsArg: a null argument equals only null; otherwise the two are compared
      after lower-casing both. */
  predicate IsArg(arg1: Option<string>, arg2: Option<string>)
  {
    if arg1.None? || arg2.None? then arg1 == arg2
    else ToLower(arg1.value) == ToLower(arg2.value)
  }

  /** Reference definition: c and d are the same character up to ASCII letter case. */
  predicate SameUpToCase(c: char, d: char)
  {
    c == d || ('A' <= c <= 'Z' && d as int == c as int + 32) || ('A' <= d <= 'Z' && c as int == d as int + 32)
  }

  predicate EqualIgnoringCase(a: string, b: string)
    decreases |a|
  {
    |a| == |b| && (a == [] || (SameUpToCase(a[0], b[0]) && EqualIgnoringCase(a[1..], b[1..])))
  }

  lemma SameUpToCaseIsLower(c: char, d: char)
    ensures SameUpToCase(c, d) <==> LowerChar(c) == LowerChar(d)
  {
  }

  lemma {:induction false} LowerEqualIgnoringCase(a: string, b: string)
    ensures ToLower(a) == ToLower(b) <==> EqualIgnoringCase(a, b)
    decreases |a|
  {
    if |a| != |b| {
      assert |ToLower(a)| != |ToLower(b)|;
    } else if a != [] {
      LowerEqualIgnoringCase(a[1..], b[1..]);
      SameUpToCaseIsLower(a[0], b[0]);
      assert ToLower(a)[0] == LowerChar(a[0]) && ToLower(b)[0] == LowerChar(b[0]);
      assert ToLower(a)[1..] == ToLower(a[1..]) && ToLower(b)[1..] == ToLower(b[1..]);
      if ToLower(a[1..]) == ToLower(b[1..]) && LowerChar(a[0]) == LowerChar(b[0]) {
        assert ToLower(a) == [LowerChar(a[0])] + ToLower(a[1..]);
        assert ToLower(b) == [LowerChar(b[0])] + ToLower(b[1..]);
      }
    }
  }

  /** IsArg is null-aware, case-insensitive string equality. */
  lemma IsArgMeaning(arg1: Option<string>, arg2: Option<string>)
    ensures IsArg(arg1, arg2) <==>
      (arg1.None? && arg2.None?) ||
      (arg1.Some? && arg2.Some? && EqualIgnoringCase(arg1.value, arg2.value))
  {
    if arg1.Some? && arg2.Some? {
      LowerEqualIgnoringCase(arg1.value, arg2.value);
    }
  }

  // ---------------------------------------------------------------------------
  // ParseParams, as a specification

  /** The options that end parsing and exit the program. */
  datatype Action = Hide | HideSimulated | Stop | Help

  /** The settings a value-taking option assigns. */
  datatype Field = DeviceId | OnConnect | OnDisconnect

  /** The static fields ParseParams assigns; None stands for null. */
  datatype Config = Config(deviceId: Option<string>, onConnect: Option<string>, onDisconnect: Option<string>)
  {
    function Get(f: Field): Option<string>
    {
      match f
      case DeviceId => deviceId
      case OnConnect => onConnect
      case OnDisconnect => onDisconnect
    }

    function With(f: Field, value: string): (c: Config)
      ensures c.Get(f) == Some(value)
      ensures forall g :: g != f ==> c.Get(g) == Get(g)
    {
      match f
      case DeviceId => this.(deviceId := Some(value))
      case OnConnect => this.(onConnect := Some(value))
      case OnDisconnect => this.(onDisconnect := Some(value))
    }
  }

  /** What one step of the scan makes of the argument at the current position. */
  datatype Token = Set(field: Field, value: string) | Act(action: Action) | Skip(arg: string)

  /** The action an argument names, tested in the order ParseParams tests them. */
  function ActionOf(arg: string): Option<Action>
  {
    if IsArg(Some(arg), Some(OptionHide)) then Some(Hide)
    else if IsArg(Some(arg), Some(OptionHideSimulated)) then Some(HideSimulated)
    else if IsArg(Some(arg), Some(OptionStop)) then Some(Stop)
    else if IsArg(Some(arg), Some(OptionHelp)) || IsArg(Some(arg), Some(OptionHelpAlt)) then Some(Help)
    else None
  }

  /** The setting a value-taking option names. */
  function FieldOf(arg: string): Option<Field>
  {
    if IsArg(Some(arg), Some(OptionDeviceId)) then Some(DeviceId)
    else if IsArg(Some(arg), Some(OptionOnConnect)) then Some(OnConnect)
    else if IsArg(Some(arg), Some(OptionOnDisconnect)) then Some(OnDisconnect)
    else None
  }

  /** One step of the scan of ParseParams at the head of args: the token read
      and how many arguments it consumes. An action option is one token; a
      value-taking option that is not last takes the next argument, whatever it
      is, as its value; anything else (an unknown argument, a value-taking option
      in last position) is skipped. */
  function Lead(args: seq<string>): (r: (Token, nat))
    requires args != []
    ensures 1 <= r.1 <= |args|
  {
    if ActionOf(args[0]).Some? then (Act(ActionOf(args[0]).value), 1)
    else if |args| > 1 && FieldOf(args[0]).Some? then (Set(FieldOf(args[0]).value, args[1]), 2)
    else (Skip(args[0]), 1)
  }

  /** The scan of ParseParams read as a lexer. Lexing does not depend on the settings. */
  function Tokens(args: seq<string>): seq<Token>
    decreases |args|
  {
    if args == [] then [] else [Lead(args).0] + Tokens(args[Lead(args).1..])
  }

  predicate NoAction(tokens: seq<Token>)
  {
    forall i :: 0 <= i < |tokens| ==> !tokens[i].Act?
  }

  /** The tokens interpreted from the given settings: assignments overwrite,
      the first action stops. */
  function Apply(tokens: seq<Token>, cfg: Config): (r: (Config, Option<Action>))
    ensures r.1.None? <==> NoAction(tokens)
    ensures r.1.Some? ==> Act(r.1.value) in tokens
    decreases |tokens|
  {
    if tokens == [] then (cfg, None)
    else match tokens[0]
      case Act(a) => (cfg, Some(a))
      case Set(f, v) => Apply(tokens[1..], cfg.With(f, v))
      case Skip(_) => Apply(tokens[1..], cfg)
  }

  /** ParseParams: no arguments at all means help; otherwise the tokens are
      interpreted from the settings held before the call. */
  function Parse(args: seq<string>, cfg: Config): (Config, Option<Action>)
  {
    if args == [] then (cfg, Some(Help)) else Apply(Tokens(args), cfg)
  }

  /** True when the last argument of pre is a value-taking option, which would
      take the argument after it. */
  predicate EndsWithValueOption(pre: seq<string>)
  {
    pre != [] && ActionOf(pre[|pre| - 1]).None? && FieldOf(pre[|pre| - 1]).Some?
  }

  /** The head step does not look past a prefix that does not end with a
      value-taking option. */
  lemma LeadAppend(pre: seq<string>, post: seq<string>)
    requires pre != [] && !EndsWithValueOption(pre)
    ensures Lead(pre + post) == Lead(pre)
  {
    assert (pre + post)[0] == pre[0];
    if |pre| > 1 {
      assert (pre + post)[1] == pre[1];
    }
  }

  /** Lexing a prefix that does not end in a value-taking option is unaffected by
      what follows it. */
  lemma {:induction false} TokensAppend(pre: seq<string>, post: seq<string>)
    requires !EndsWithValueOption(pre)
    ensures Tokens(pre + post) == Tokens(pre) + Tokens(post)
    decreases |pre|
  {
    if pre == [] {
      assert pre + post == post;
    } else {
      LeadAppend(pre, post);
      var n := Lead(pre).1;
      assert (pre + post)[n..] == pre[n..] + post;
      TokensAppend(pre[n..], post);
    }
  }

  /** Interpreting a concatenation: the second part is interpreted from where the
      first left the settings, unless the first part already stopped at an action. */
  lemma {:induction false} ApplyAppend(ts1: seq<Token>, ts2: seq<Token>, cfg: Config)
    ensures Apply(ts1 + ts2, cfg) == if NoAction(ts1) then Apply(ts2, Apply(ts1, cfg).0) else Apply(ts1, cfg)
    decreases |ts1|
  {
    if ts1 == [] {
      assert ts1 + ts2 == ts2;
    } else {
      assert (ts1 + ts2)[0] == ts1[0] && (ts1 + ts2)[1..] == ts1[1..] + ts2;
      match ts1[0]
      case Act(_) =>
      case Set(f, v) => ApplyAppend(ts1[1..], ts2, cfg.With(f, v));
      case Skip(_) => ApplyAppend(ts1[1..], ts2, cfg);
    }
  }

  /** Tokens that neither act nor assign field f leave f as it was. */
  lemma {:induction false} ApplyKeeps(tokens: seq<Token>, cfg: Config, f: Field)
    requires forall i :: 0 <= i < |tokens| ==> !tokens[i].Act? && !(tokens[i].Set? && tokens[i].field == f)
    ensures Apply(tokens, cfg).0.Get(f) == cfg.Get(f)
    decreases |tokens|
  {
    if tokens != [] {
      match tokens[0]
      case Set(g, v) => ApplyKeeps(tokens[1..], cfg.With(g, v), f);
      case Skip(_) => ApplyKeeps(tokens[1..], cfg, f);
    }
  }

  /** A value-taking option consumes the next argument whatever it is (even an
      option such as /stop), and its last occurrence wins over all earlier ones. */
  lemma LaterValueWins(pre: seq<string>, option: string, value: string, post: seq<string>, cfg: Config)
    requires !EndsWithValueOption(pre) && NoAction(Tokens(pre))
    requires ActionOf(option).None? && FieldOf(option).Some?
    requires forall i :: 0 <= i < |Tokens(post)| ==>
      !Tokens(post)[i].Act? && !(Tokens(post)[i].Set? && Tokens(post)[i].field == FieldOf(option).value)
    ensures Parse(pre + [option, value] + post, cfg).0.Get(FieldOf(option).value) == Some(value)
    ensures Parse(pre + [option, value] + post, cfg).1 == None
  {
    var f := FieldOf(option).value;
    var rest := [option, value] + post;
    assert pre + [option, value] + post == pre + rest;
    TokensAppend(pre, rest);
    ApplyAppend(Tokens(pre), Tokens(rest), cfg);
    var mid := Apply(Tokens(pre), cfg).0;
    ScanStep(rest, 0, mid);
    assert rest[0..] == rest && rest[0] == option && rest[1] == value && rest[2..] == post;
    ApplyKeeps(Tokens(post), mid.With(f, value), f);
  }

  /** The first action option ends parsing: its action is the result, the settings
      are those assigned before it, and nothing after it is looked at. */
  lemma FirstActionWins(pre: seq<string>, option: string, post: seq<string>, cfg: Config)
    requires !EndsWithValueOption(pre) && NoAction(Tokens(pre))
    requires ActionOf(option).Some?
    ensures Parse(pre + [option] + post, cfg) == (Apply(Tokens(pre), cfg).0, ActionOf(option))
  {
    var rest := [option] + post;
    assert pre + [option] + post == pre + rest;
    TokensAppend(pre, rest);
    assert rest[1..] == post;
    ApplyAppend(Tokens(pre), Tokens(rest), cfg);
  }

  /** An argument that names no option is skipped: removing it changes nothing
      (as long as some argument remains, since no arguments at all means help). */
  lemma UnknownArgumentSkipped(pre: seq<string>, arg: string, post: seq<string>, cfg: Config)
    requires !EndsWithValueOption(pre)
    requires ActionOf(arg).None? && FieldOf(arg).None?
    requires pre + post != []
    ensures Parse(pre + [arg] + post, cfg) == Parse(pre + post, cfg)
  {
    var rest := [arg] + post;
    assert pre + [arg] + post == pre + rest;
    TokensAppend(pre, rest);
    TokensAppend(pre, post);
    assert rest[1..] == post;
    ApplyAppend(Tokens(pre), Tokens(rest), cfg);
    ApplyAppend(Tokens(pre), Tokens(post), cfg);
  }

  /** One iteration of the scan: an action ends it, a value-taking option that is
      not last assigns the next argument and moves past both, anything else is
      passed over. */
  lemma ScanStep(args: seq<string>, i: nat, cfg: Config)
    requires i < |args|
    ensures ActionOf(args[i]).Some? ==> Apply(Tokens(args[i..]), cfg) == (cfg, ActionOf(args[i]))
    ensures ActionOf(args[i]).None? && i + 1 < |args| && FieldOf(args[i]).Some? ==>
      Apply(Tokens(args[i..]), cfg) == Apply(Tokens(args[i + 2..]), cfg.With(FieldOf(args[i]).value, args[i + 1]))
    ensures ActionOf(args[i]).None? && !(i + 1 < |args| && FieldOf(args[i]).Some?) ==>
      Apply(Tokens(args[i..]), cfg) == Apply(Tokens(args[i + 1..]), cfg)
  {
    var rest := args[i..];
    assert rest[0] == args[i] && rest[1..] == args[i + 1..];
    if i + 1 < |args| {
      assert rest[1] == args[i + 1] && rest[2..] == args[i + 2..];
    }
    assert Tokens(rest) == [Lead(rest).0] + Tokens(rest[Lead(rest).1..]);
  }

  // ---------------------------------------------------------------------------
  // RunHidden: the argument line of the relaunched instance

  /** The number of backslashes at the end of s. */
  function TrailingBackslashes(s: string): (k: nat)
    ensures k <= |s|
    ensures k < |s| ==> s[|s| - k - 1] != '\\'
    decreases |s|
  {
    if s != [] && s[|s| - 1] == '\\' then 1 + TrailingBackslashes(s[..|s| - 1]) else 0
  }

  /** Every character the count covers is a backslash. */
  lemma {:induction false} TrailingRun(s: string)
    ensures forall i :: |s| - TrailingBackslashes(s) <= i < |s| ==> s[i] == '\\'
    decreases |s|
  {
    if s != [] && s[|s| - 1] == '\\' {
      var init := s[..|s| - 1];
      TrailingRun(init);
      assert forall i :: |init| - TrailingBackslashes(init) <= i < |init| ==> s[i] == init[i];
    }
  }

  /** A string that does not end in a backslash, followed by n backslashes, has
      exactly n trailing backslashes. */
  lemma {:induction false} TrailingOfStem(stem: string, n: nat)
    requires stem == [] || stem[|stem| - 1] != '\\'
    ensures TrailingBackslashes(stem + Backslashes(n)) == n
  {
    if n > 0 {
      var s := stem + Backslashes(n);
      assert s[..|s| - 1] == stem + Backslashes(n - 1);
      TrailingOfStem(stem, n - 1);
    } else {
      assert stem + Backslashes(0) == stem;
    }
  }

  /** The part of arg before its trailing backslashes. */
  function Stem(arg: string): string
  {
    arg[..|arg| - TrailingBackslashes(arg)]
  }

  lemma StemAndTrailing(arg: string)
    ensures Stem(arg) + Backslashes(TrailingBackslashes(arg)) == arg
    ensures Stem(arg) == [] || Stem(arg)[|Stem(arg)| - 1] != '\\'
  {
    var k := TrailingBackslashes(arg);
    TrailingRun(arg);
    assert Stem(arg) + Backslashes(k) == arg[..|arg| - k] + arg[|arg| - k..];
    assert arg[..|arg| - k] + arg[|arg| - k..] == arg;
  }

  /** String.Replace("\"", "\"\""): every quote doubled. */
  function DoubleQuotes(s: string): string
  {
    ReplaceChar(s, '"', "\"\"")
  }

  /** One argument as RunHidden writes it: its k trailing backslashes become 2k,
      then every quote is doubled and the whole is enclosed in quotes. */
  function QuotedArgument(arg: string): string
  {
    "\"" + DoubleQuotes(Stem(arg) + Backslashes(2 * TrailingBackslashes(arg))) + "\""
  }

  /** The quoted form keeps every character of the stem (quotes doubled), doubles
      the trailing backslash run, and is at least the two enclosing quotes long. */
  lemma QuotedArgumentShape(arg: string)
    ensures QuotedArgument(arg) ==
      "\"" + DoubleQuotes(Stem(arg)) + Backslashes(2 * TrailingBackslashes(arg)) + "\""
    ensures |QuotedArgument(arg)| >= 2
  {
    var b := Backslashes(2 * TrailingBackslashes(arg));
    ReplaceCharAppend(Stem(arg), b, '"', "\"\"");
    ReplaceCharAbsent(b, '"', "\"\"");
    assert DoubleQuotes(Stem(arg) + b) == DoubleQuotes(Stem(arg)) + b;
  }

  /** The arguments of RunHidden's foreach that are not /hide or /hideSimulated. */
  predicate IsHideOption(arg: string)
  {
    IsArg(Some(arg), Some(OptionHide)) || IsArg(Some(arg), Some(OptionHideSimulated))
  }

  /** The arguments passed on to the relaunched instance, in their order. */
  function KeptArguments(args: seq<string>): (kept: seq<string>)
    ensures |kept| <= |args|
    ensures forall a :: a in kept <==> a in args && !IsHideOption(a)
    decreases |args|
  {
    if args == [] then []
    else
      var init := KeptArguments(args[..|args| - 1]);
      var last := args[|args| - 1];
      assert args == args[..|args| - 1] + [last];
      if IsHideOption(last) then init else init + [last]
  }

  /** The argument line, built as RunHidden's foreach builds it: each kept argument
      quoted and appended, preceded by a space once the line is not empty. */
  function ArgLine(args: seq<string>): string
    decreases |args|
  {
    if args == [] then ""
    else
      var line := ArgLine(args[..|args| - 1]);
      var arg := args[|args| - 1];
      if IsHideOption(arg) then line
      else (if |line| > 0 then line + " " else line) + QuotedArgument(arg)
  }

  /** Words separated by single spaces. */
  function JoinWords(words: seq<string>): string
    decreases |words|
  {
    if words == [] then ""
    else if |words| == 1 then words[0]
    else words[0] + " " + JoinWords(words[1..])
  }

  /** Each argument in its quoted form. */
  function QuoteAll(args: seq<string>): (quoted: seq<string>)
    ensures |quoted| == |args|
  {
    seq(|args|, i requires 0 <= i < |args| => QuotedArgument(args[i]))
  }

  /** Joining one more word appends it behind a space, or alone to nothing. */
  lemma {:induction false} JoinWordsSnoc(words: seq<string>, word: string)
    ensures words == [] ==> JoinWords(words + [word]) == word
    ensures words != [] ==> JoinWords(words + [word]) == JoinWords(words) + " " + word
    decreases |words|
  {
    if |words| == 1 {
      assert (words + [word])[1..] == [word];
    } else if |words| > 1 {
      assert (words + [word])[1..] == words[1..] + [word];
      JoinWordsSnoc(words[1..], word);
    }
  }

  /** RunHidden's line is the kept arguments, each quoted, joined by single spaces. */
  lemma {:induction false} ArgLineIsJoin(args: seq<string>)
    ensures ArgLine(args) == JoinWords(QuoteAll(KeptArguments(args)))
    ensures |ArgLine(args)| > 0 <==> KeptArguments(args) != []
    decreases |args|
  {
    if args != [] {
      var init := args[..|args| - 1];
      var arg := args[|args| - 1];
      ArgLineIsJoin(init);
      var kept := KeptArguments(init);
      assert QuoteAll(kept + [arg]) == QuoteAll(kept) + [QuotedArgument(arg)];
      JoinWordsSnoc(QuoteAll(kept), QuotedArgument(arg));
      QuotedArgumentShape(arg);
    }
  }

  // The decoder: the inverse of the quoting, used to state what the line preserves.

  /** Reads a quoted argument's body, after its opening quote: a doubled quote stands
      for one quote and a single quote closes the argument. Gives the body and the
      text after the closing quote; None if the argument is not closed. */
  function ReadQuoted(s: string): (r: Option<(string, string)>)
    ensures r.Some? ==> |r.value.1| < |s|
    decreases |s|
  {
    if s == [] then None
    else if s[0] == '"' then
      if |s| > 1 && s[1] == '"' then
        match ReadQuoted(s[2..])
        case None => None
        case Some((body, rest)) => Some(("\"" + body, rest))
      else Some(("", s[1..]))
    else
      match ReadQuoted(s[1..])
      case None => None
      case Some((body, rest)) => Some(([s[0]] + body, rest))
  }

  /** Reads one quoted argument and halves its trailing backslash run. */
  function UnquoteArgument(s: string): (r: Option<(string, string)>)
    ensures r.Some? ==> |r.value.1| < |s|
  {
    if s == [] || s[0] != '"' then None
    else match ReadQuoted(s[1..])
      case None => None
      case Some((body, rest)) =>
        var k := TrailingBackslashes(body);
        if k % 2 != 0 then None else Some((body[..|body| - k] + Backslashes(k / 2), rest))
  }

  /** Reads a non-empty line of quoted arguments separated by single spaces. */
  function DecodeArguments(line: string): Option<seq<string>>
    decreases |line|
  {
    match UnquoteArgument(line)
    case None => None
    case Some((arg, rest)) =>
      if rest == [] then Some([arg])
      else if rest[0] != ' ' then None
      else match DecodeArguments(rest[1..])
        case None => None
        case Some(more) => Some([arg] + more)
  }

  function DecodeArgLine(line: string): Option<seq<string>>
  {
    if line == [] then Some([]) else DecodeArguments(line)
  }

  lemma {:induction false} ReadDoubledQuotes(x: string, rest: string)
    requires rest == [] || rest[0] != '"'
    ensures ReadQuoted(DoubleQuotes(x) + "\"" + rest) == Some((x, rest))
    decreases |x|
  {
    var s := DoubleQuotes(x) + "\"" + rest;
    if x == [] {
      assert s == "\"" + rest;
    } else {
      var tail := DoubleQuotes(x[1..]) + "\"" + rest;
      ReadDoubledQuotes(x[1..], rest);
      assert [x[0]] + x[1..] == x;
      if x[0] == '"' {
        assert s == "\"\"" + tail;
        assert s[2..] == tail;
      } else {
        assert s == [x[0]] + tail;
        assert s[1..] == tail;
      }
    }
  }

  /** The last step of UnquoteArgument: a body whose trailing run has even
      length 2k is cut back to its stem followed by k backslashes. */
  lemma UnquoteHalves(s: string, body: string, rest: string, stem: string, k: nat)
    requires s != [] && s[0] == '"' && ReadQuoted(s[1..]) == Some((body, rest))
    requires body == stem + Backslashes(2 * k) && TrailingBackslashes(body) == 2 * k
    ensures UnquoteArgument(s) == Some((stem + Backslashes(k), rest))
  {
    assert body[..|body| - 2 * k] == stem;
    assert (2 * k) % 2 == 0 && (2 * k) / 2 == k;
  }

  /** Quoting loses nothing: the quoted argument reads back as the argument, and
      reading stops right after it. */
  lemma UnquoteQuoted(arg: string, rest: string)
    requires rest == [] || rest[0] != '"'
    ensures UnquoteArgument(QuotedArgument(arg) + rest) == Some((arg, rest))
  {
    var k := TrailingBackslashes(arg);
    var stem := Stem(arg);
    var body := stem + Backslashes(2 * k);
    var s := QuotedArgument(arg) + rest;
    assert s[0] == '"' && s[1..] == DoubleQuotes(body) + "\"" + rest;
    assert ReadQuoted(s[1..]) == Some((body, rest)) by {
      ReadDoubledQuotes(body, rest);
    }
    assert TrailingBackslashes(body) == 2 * k && stem + Backslashes(k) == arg by {
      StemAndTrailing(arg);
      TrailingOfStem(stem, 2 * k);
    }
    UnquoteHalves(s, body, rest, stem, k);
  }

  /** Decoding a line whose first argument reads back as arg up to a space. */
  lemma DecodeCons(first: string, arg: string, tail: string, more: seq<string>)
    requires UnquoteArgument(first + (" " + tail)) == Some((arg, " " + tail))
    requires DecodeArguments(tail) == Some(more)
    ensures DecodeArguments(first + (" " + tail)) == Some([arg] + more)
  {
    assert (" " + tail)[1..] == tail;
  }

  lemma {:induction false} DecodeJoin(args: seq<string>)
    requires args != []
    ensures DecodeArguments(JoinWords(QuoteAll(args))) == Some(args)
    decreases |args|
  {
    var words := QuoteAll(args);
    if |args| == 1 {
      assert JoinWords(words) == QuotedArgument(args[0]) + "";
      UnquoteQuoted(args[0], "");
      assert [args[0]] == args;
    } else {
      assert words[1..] == QuoteAll(args[1..]);
      var tail := JoinWords(words[1..]);
      assert JoinWords(words) == QuotedArgument(args[0]) + (" " + tail);
      UnquoteQuoted(args[0], " " + tail);
      DecodeJoin(args[1..]);
      DecodeCons(QuotedArgument(args[0]), args[0], tail, args[1..]);
      assert [args[0]] + args[1..] == args;
    }
  }

  /** The relaunch line carries exactly the kept arguments, in order: quoted,
      separated by single spaces, with no leading or trailing space. */
  lemma ArgLineRoundTrip(args: seq<string>)
    ensures DecodeArgLine(ArgLine(args)) == Some(KeptArguments(args))
  {
    ArgLineIsJoin(args);
    if KeptArguments(args) != [] {
      DecodeJoin(KeptArguments(args));
    }
  }

  /** The loop body of RunHidden for one argument: strip the trailing backslashes
      while counting them, append twice as many, double the quotes and enclose. */
  method EscapeArgument(arg: string) returns (quoted: string)
    ensures quoted == QuotedArgument(arg)
  {
    var escaped := arg;
    var count := 0;
    while |escaped| > 0 && escaped[|escaped| - 1] == '\\'
      invariant escaped + Backslashes(count) == arg
      decreases |escaped|
    {
      assert Backslashes(count + 1) == ['\\'] + Backslashes(count);
      escaped, count := escaped[..|escaped| - 1], count + 1;
    }
    TrailingOfStem(escaped, count);
    ghost var stem := escaped;
    for i := 0 to count
      invariant escaped == stem + Backslashes(2 * i)
    {
      assert Backslashes(2 * i + 2) == Backslashes(2 * i) + "\\\\";
      escaped := escaped + "\\\\";
    }
    quoted := "\"" + DoubleQuotes(escaped) + "\"";
  }

  /** RunHidden's foreach: the line handed to the relaunched instance. */
  method BuildArgLine(args: seq<string>) returns (line: string)
    ensures line == ArgLine(args)
  {
    line := "";
    for i := 0 to |args|
      invariant line == ArgLine(args[..i])
    {
      assert args[..i + 1][..i] == args[..i];
      var arg := args[i];
      if !IsArg(Some(arg), Some(OptionHide)) && !IsArg(Some(arg), Some(OptionHideSimulated)) {
        if |line| > 0 {
          line := line + " ";
        }
        var escaped := EscapeArgument(arg);
        line := line + escaped;
      }
    }
    assert args[..|args|] == args;
  }
}
