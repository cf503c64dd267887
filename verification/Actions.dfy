/** The action protocol: printing the arguments of a command line and parsing them back. */
module Actions {
  import opened LuaHeap
  import opened Decimal

  datatype Argument = Nothing | Whole(n: int) | Flag(b: bool)

  datatype Action = Action(domain: string, name: string, value: Argument)

  datatype Parsing = Accepted(action: Action) | Rejected | Raised

  const WORKSPACE := "dispatch workspace switch "
  const MEDIA := "dispatch media "
  const VOLUME := "dispatch audio set-volume "
  const MUTE := "dispatch audio set-mute "
  const TOGGLE := "dispatch audio toggle-mute"
  const BRIGHTNESS := "dispatch brightness set "

  predicate IsMediaAction(name: string) {
    name == "next" || name == "pause" || name == "play" || name == "play-pause" || name == "previous"
  }

  predicate Is64Bit(n: int) { MIN_INTEGER <= n <= MAX_INTEGER }

  predicate IsPercentage(n: int) { 0 <= n <= 100 }

  function ReadPercentage(s: string): Option<int> {
    var n := ReadInteger(s);
    if n.Some? && IsPercentage(n.value) then n else None
  }

  /** `from_cli`: the line for a list of arguments, if they make an action. */
  function FromCli(arguments: seq<string>): Option<string> {
    if |arguments| == 3 && arguments[0] == "workspace" && arguments[1] == "switch" then
      match ReadInteger(arguments[2])
      case Some(workspace) => Some(WORKSPACE + PrintInt(workspace))
      case None => None
    else if |arguments| == 2 && arguments[0] == "media" && IsMediaAction(arguments[1]) then
      Some(MEDIA + arguments[1])
    else if |arguments| == 3 && arguments[0] == "audio" && arguments[1] == "set-volume" then
      match ReadPercentage(arguments[2])
      case Some(volume) => Some(VOLUME + PrintInt(volume))
      case None => None
    else if |arguments| == 3 && arguments[0] == "audio" && arguments[1] == "set-mute"
            && (arguments[2] == "true" || arguments[2] == "false") then
      Some(MUTE + arguments[2])
    else if |arguments| == 2 && arguments[0] == "audio" && arguments[1] == "toggle-mute" then
      Some(TOGGLE)
    else if |arguments| == 3 && arguments[0] == "brightness" && arguments[1] == "set" then
      match ReadPercentage(arguments[2])
      case Some(percentage) => Some(BRIGHTNESS + PrintInt(percentage))
      case None => None
    else None
  }

  /** What follows a fixed prefix. */
  function After(prefix: string, command: string): (rest: Option<string>)
    ensures rest.Some? ==> command == prefix + rest.value
  {
    if |prefix| <= |command| && command[..|prefix|] == prefix then Some(command[|prefix|..]) else None
  }

  predicate IsDigits(s: string) { s != "" && AllDigits(s) }

  /** `parse`: each pattern in turn; integers outside 64 bits fail an assertion. */
  function Parse(command: string): Parsing {
    var workspace := After(WORKSPACE, command);
    if workspace.Some? && IsDecimal(workspace.value) then
      match ReadInteger(workspace.value)
      case Some(n) => Accepted(Action("workspace", "switch", Whole(n)))
      case None => Raised
    else
    var media := After(MEDIA, command);
    if media.Some? && IsMediaAction(media.value) then Accepted(Action("media", media.value, Nothing))
    else ParseAudio(command)
  }

  function ParseAudio(command: string): Parsing {
    var volume := After(VOLUME, command);
    if volume.Some? && IsDigits(volume.value) then
      match ReadInteger(volume.value)
      case Some(n) => if IsPercentage(n) then Accepted(Action("audio", "set-volume", Whole(n))) else Rejected
      case None => Raised
    else
    var muted := After(MUTE, command);
    if muted == Some("true") || muted == Some("false") then
      Accepted(Action("audio", "set-mute", Flag(muted == Some("true"))))
    else if command == TOGGLE then Accepted(Action("audio", "toggle-mute", Nothing))
    else ParseBrightness(command)
  }

  function ParseBrightness(command: string): Parsing {
    var brightness := After(BRIGHTNESS, command);
    if brightness.Some? && IsDigits(brightness.value) then
      match ReadInteger(brightness.value)
      case Some(n) => if IsPercentage(n) then Accepted(Action("brightness", "set-brightness", Whole(n))) else Rejected
      case None => Raised
    else Rejected
  }

  // ---- what the lines mean ------------------------------------------------------

  /** The actions there are. */
  predicate ValidAction(a: Action) {
    || (a.domain == "workspace" && a.name == "switch" && a.value.Whole? && Is64Bit(a.value.n))
    || (a.domain == "media" && IsMediaAction(a.name) && a.value == Nothing)
    || (a.domain == "audio" && a.name == "set-volume" && a.value.Whole? && IsPercentage(a.value.n))
    || (a.domain == "audio" && a.name == "set-mute" && a.value.Flag?)
    || (a.domain == "audio" && a.name == "toggle-mute" && a.value == Nothing)
    || (a.domain == "brightness" && a.name == "set-brightness" && a.value.Whole? && IsPercentage(a.value.n))
  }

  /** The text of an argument, as a user may write it. */
  predicate Spells(text: string, value: Argument) {
    match value
    case Nothing => false
    case Whole(n) => IsDecimal(text) && DecimalValue(text) == n
    case Flag(b) => text == if b then "true" else "false"
  }

  /** The words of an action: domain, verb, and its argument if it has one. */
  ghost predicate Denotes(arguments: seq<string>, a: Action) {
    && ValidAction(a)
    && |arguments| == (if a.value == Nothing then 2 else 3)
    && arguments[0] == a.domain
    && arguments[1] == (if a.domain == "brightness" then "set" else a.name)
    && (a.value != Nothing ==> Spells(arguments[2], a.value))
  }

  /** The one line an action is printed as. */
  function Line(a: Action): string {
    if a.domain == "workspace" && a.value.Whole? then WORKSPACE + PrintInt(a.value.n)
    else if a.domain == "media" then MEDIA + a.name
    else if a.domain == "brightness" && a.value.Whole? then BRIGHTNESS + PrintInt(a.value.n)
    else if a.value.Whole? then VOLUME + PrintInt(a.value.n)
    else if a.value.Flag? then MUTE + (if a.value.b then "true" else "false")
    else TOGGLE
  }

  /** Arguments denote at most one action, whose line is what is printed. */
  lemma DenotedIsPrinted(arguments: seq<string>, a: Action)
    requires Denotes(arguments, a)
    ensures FromCli(arguments) == Some(Line(a))
  {
  }

  /** Whatever is accepted denotes an action. */
  lemma AcceptedDenotes(arguments: seq<string>) returns (a: Action)
    requires FromCli(arguments).Some?
    ensures Denotes(arguments, a)
  {
    if arguments[0] == "workspace" {
      a := Action("workspace", "switch", Whole(ReadInteger(arguments[2]).value));
    } else if arguments[0] == "media" {
      a := Action("media", arguments[1], Nothing);
    } else if arguments[0] == "brightness" {
      a := Action("brightness", "set-brightness", Whole(ReadInteger(arguments[2]).value));
    } else if arguments[1] == "set-volume" {
      a := Action("audio", "set-volume", Whole(ReadInteger(arguments[2]).value));
    } else if arguments[1] == "set-mute" {
      a := Action("audio", "set-mute", Flag(arguments[2] == "true"));
    } else {
      a := Action("audio", "toggle-mute", Nothing);
    }
  }

  /** The accepted argument lists, one by one. */
  lemma AcceptedArguments(arguments: seq<string>)
    ensures FromCli(arguments).Some? <==>
      || (|arguments| == 3 && arguments[0] == "workspace" && arguments[1] == "switch" && IsDecimal(arguments[2])
          && -0x8000_0000_0000_0000 <= DecimalValue(arguments[2]) <= 0x7fff_ffff_ffff_ffff)
      || (|arguments| == 2 && arguments[0] == "media"
          && arguments[1] in ["next", "pause", "play", "play-pause", "previous"])
      || (|arguments| == 3 && arguments[0] == "audio" && arguments[1] == "set-volume" && IsDecimal(arguments[2])
          && 0 <= DecimalValue(arguments[2]) <= 100)
      || (|arguments| == 3 && arguments[0] == "audio" && arguments[1] == "set-mute" && arguments[2] in ["true", "false"])
      || (|arguments| == 2 && arguments[0] == "audio" && arguments[1] == "toggle-mute")
      || (|arguments| == 3 && arguments[0] == "brightness" && arguments[1] == "set" && IsDecimal(arguments[2])
          && 0 <= DecimalValue(arguments[2]) <= 100)
  {
  }

  /** The line of an action is the word `dispatch`, its domain, its verb and its value in
      plain decimal or as `true` or `false`, with single spaces. */
  lemma LineIsWords(a: Action)
    requires ValidAction(a)
    ensures Line(a) == WordsOf(a) + ValueText(a.value)
  {
    if a.domain == "workspace" {
      WorkspacePrefix();
    } else if a.domain == "media" {
      MediaPrefix(a.name);
    } else if a.domain == "brightness" {
      BrightnessPrefix();
    } else {
      AudioLineIsWords(a);
    }
  }

  lemma AudioLineIsWords(a: Action)
    requires ValidAction(a) && a.domain == "audio"
    ensures Line(a) == Words("audio", a.name) + ValueText(a.value)
  {
    match a.value
    case Whole(_) => VolumePrefix();
    case Flag(b) => MutePrefix();
    case Nothing => ToggleWords();
  }

  /** The words of an action. */
  function WordsOf(a: Action): string {
    Words(a.domain, if a.domain == "brightness" then "set" else a.name)
  }

  function Words(domain: string, verb: string): string {
    "dispatch " + domain + " " + verb
  }

  function ValueText(value: Argument): string {
    match value
    case Nothing => ""
    case Whole(n) => " " + PrintInt(n)
    case Flag(b) => if b then " true" else " false"
  }

  lemma WorkspacePrefix()
    ensures WORKSPACE == Words("workspace", "switch") + " "
  {
  }

  lemma MediaPrefix(name: string)
    ensures MEDIA + name == Words("media", name)
  {
    assert MEDIA == "dispatch " + "media" + " ";
  }

  lemma VolumePrefix()
    ensures VOLUME == Words("audio", "set-volume") + " "
  {
  }

  lemma MutePrefix()
    ensures MUTE == Words("audio", "set-mute") + " "
  {
  }

  lemma ToggleWords()
    ensures TOGGLE == Words("audio", "toggle-mute")
  {
  }

  lemma BrightnessPrefix()
    ensures BRIGHTNESS == Words("brightness", "set") + " "
  {
  }

  // ---- parsing a printed line ----------------------------------------------------

  lemma AfterPrefix(prefix: string, rest: string)
    ensures After(prefix, prefix + rest) == Some(rest)
  {
  }

  lemma Differs(prefix: string, command: string, i: nat)
    requires i < |prefix| && i < |command| && prefix[i] != command[i]
    ensures After(prefix, command) == None
  {
    if |prefix| <= |command| {
      assert command[..|prefix|][i] == command[i];
    }
  }

  lemma WorkspaceLine(n: int)
    requires Is64Bit(n)
    ensures Parse(WORKSPACE + PrintInt(n)) == Accepted(Action("workspace", "switch", Whole(n)))
  {
    AfterPrefix(WORKSPACE, PrintInt(n));
    PrintedDecimal(n);
    PrintedIsRead(n);
  }

  lemma MediaLine(name: string)
    requires IsMediaAction(name)
    ensures Parse(MEDIA + name) == Accepted(Action("media", name, Nothing))
  {
    Differs(WORKSPACE, MEDIA + name, 9);
    AfterPrefix(MEDIA, name);
  }

  lemma NotMediaNorWorkspace(command: string)
    requires |command| > 9 && command[9] != 'w' && command[9] != 'm'
    ensures Parse(command) == ParseAudio(command)
  {
    Differs(WORKSPACE, command, 9);
    Differs(MEDIA, command, 9);
  }

  lemma VolumeLine(n: int)
    requires IsPercentage(n)
    ensures Parse(VOLUME + PrintInt(n)) == Accepted(Action("audio", "set-volume", Whole(n)))
  {
    NotMediaNorWorkspace(VOLUME + PrintInt(n));
    AfterPrefix(VOLUME, PrintInt(n));
    PrintedIsRead(n);
  }

  lemma MuteLine(b: bool)
    ensures Parse(MUTE + (if b then "true" else "false")) == Accepted(Action("audio", "set-mute", Flag(b)))
  {
    var text := if b then "true" else "false";
    NotMediaNorWorkspace(MUTE + text);
    Differs(VOLUME, MUTE + text, 19);
    AfterPrefix(MUTE, text);
  }

  lemma ToggleLine()
    ensures Parse(TOGGLE) == Accepted(Action("audio", "toggle-mute", Nothing))
  {
    NotMediaNorWorkspace(TOGGLE);
    Differs(VOLUME, TOGGLE, 15);
    Differs(MUTE, TOGGLE, 15);
  }

  lemma BrightnessLine(n: int)
    requires IsPercentage(n)
    ensures Parse(BRIGHTNESS + PrintInt(n)) == Accepted(Action("brightness", "set-brightness", Whole(n)))
  {
    var line := BRIGHTNESS + PrintInt(n);
    NotMediaNorWorkspace(line);
    Differs(VOLUME, line, 9);
    Differs(MUTE, line, 9);
    Differs(line, TOGGLE, 9);
    AfterPrefix(BRIGHTNESS, PrintInt(n));
    PrintedIsRead(n);
  }

  /** Parsing the line of any action gives that action back. */
  lemma LineIsParsed(a: Action)
    requires ValidAction(a)
    ensures Parse(Line(a)) == Accepted(a)
  {
    if a.domain == "workspace" {
      WorkspaceLine(a.value.n);
    } else if a.domain == "media" {
      MediaLine(a.name);
    } else if a.domain == "brightness" {
      BrightnessLine(a.value.n);
    } else {
      match a.value
      case Whole(n) => VolumeLine(n);
      case Flag(b) => MuteLine(b);
      case Nothing => ToggleLine();
    }
  }

  /** The service never performs anything but an action. */
  lemma ParsedIsAction(command: string)
    requires Parse(command).Accepted?
    ensures ValidAction(Parse(command).action)
  {
  }

  /** A command spells an action: its words, and its value in any decimal notation; only
      workspaces may carry a minus sign. */
  ghost predicate SpellsAction(command: string, a: Action) {
    && ValidAction(a)
    && match a.value
       case Nothing => command == WordsOf(a)
       case Flag(b) => command == WordsOf(a) + (if b then " true" else " false")
       case Whole(n) =>
         exists text :: SpellsNumber(command, WordsOf(a), text, n) && (a.domain == "workspace" || AllDigits(text))
  }

  ghost predicate SpellsNumber(command: string, words: string, text: string, n: int) {
    command == words + " " + text && IsDecimal(text) && DecimalValue(text) == n
  }

  /** Parsing yields an action exactly when the command spells it. */
  lemma ParseMeaning(command: string, a: Action)
    ensures Parse(command) == Accepted(a) <==> SpellsAction(command, a)
  {
    if SpellsAction(command, a) {
      SpelledIsParsed(command, a);
    }
    if Parse(command) == Accepted(a) {
      ParsedIsAction(command);
      ParsedIsSpelled(command);
    }
  }

  lemma SpelledIsParsed(command: string, a: Action)
    requires SpellsAction(command, a)
    ensures Parse(command) == Accepted(a)
  {
    LineIsWords(a);
    LineIsParsed(a);
    if a.value.Whole? {
      var text :| SpellsNumber(command, WordsOf(a), text, a.value.n) && (a.domain == "workspace" || AllDigits(text));
      SpelledNumberIsParsed(command, a, text);
    }
  }

  lemma SpelledNumberIsParsed(command: string, a: Action, text: string)
    requires ValidAction(a) && a.value.Whole?
    requires SpellsNumber(command, WordsOf(a), text, a.value.n) && (a.domain == "workspace" || AllDigits(text))
    ensures Parse(command) == Accepted(a)
  {
    NumberIsParsed(a, text);
    if a.domain == "workspace" {
      WorkspacePrefix();
    } else if a.domain == "audio" {
      VolumePrefix();
    } else {
      BrightnessPrefix();
    }
  }

  lemma NumberIsParsed(a: Action, text: string)
    requires ValidAction(a) && a.value.Whole? && IsDecimal(text) && DecimalValue(text) == a.value.n
    requires a.domain == "workspace" || AllDigits(text)
    ensures Parse((if a.domain == "workspace" then WORKSPACE else if a.domain == "audio" then VOLUME else BRIGHTNESS) + text) == Accepted(a)
  {
    if a.domain == "workspace" {
      AfterPrefix(WORKSPACE, text);
    } else if a.domain == "audio" {
      NotMediaNorWorkspace(VOLUME + text);
      AfterPrefix(VOLUME, text);
    } else {
      BrightnessTextIsParsed(text);
    }
  }

  lemma BrightnessTextIsParsed(text: string)
    requires IsDecimal(text) && AllDigits(text)
    ensures Parse(BRIGHTNESS + text) == ParseBrightness(BRIGHTNESS + text)
    ensures After(BRIGHTNESS, BRIGHTNESS + text) == Some(text)
  {
    var command := BRIGHTNESS + text;
    NotMediaNorWorkspace(command);
    Differs(VOLUME, command, 9);
    Differs(MUTE, command, 9);
    Differs(command, TOGGLE, 9);
    AfterPrefix(BRIGHTNESS, text);
  }

  lemma ParsedIsSpelled(command: string)
    requires Parse(command).Accepted? && ValidAction(Parse(command).action)
    ensures SpellsAction(command, Parse(command).action)
  {
    var a := Parse(command).action;
    if a.domain == "workspace" {
      WorkspacePrefix();
      Spelled(command, a, After(WORKSPACE, command).value);
    } else if a.domain == "media" {
      MediaPrefix(a.name);
    } else if a.domain == "brightness" {
      BrightnessPrefix();
      DigitsAreDecimal(After(BRIGHTNESS, command).value);
      Spelled(command, a, After(BRIGHTNESS, command).value);
    } else {
      ParsedAudioIsSpelled(command);
    }
  }

  lemma Spelled(command: string, a: Action, text: string)
    requires ValidAction(a) && a.value.Whole? && (a.domain == "workspace" || AllDigits(text))
    requires SpellsNumber(command, WordsOf(a), text, a.value.n)
    ensures SpellsAction(command, a)
  {
  }

  lemma ParsedAudioIsSpelled(command: string)
    requires Parse(command).Accepted? && ValidAction(Parse(command).action) && Parse(command).action.domain == "audio"
    ensures SpellsAction(command, Parse(command).action)
  {
    var a := Parse(command).action;
    match a.value
    case Whole(n) =>
      VolumePrefix();
      DigitsAreDecimal(After(VOLUME, command).value);
      Spelled(command, a, After(VOLUME, command).value);
    case Flag(b) =>
      MutePrefix();
      assert command == MUTE + (if b then "true" else "false");
    case Nothing => ToggleWords();
  }

  /** A numeric command and the text of its number. */
  ghost predicate Numeric(command: string, digits: string) {
    && IsDecimal(digits)
    && (|| command == WORKSPACE + digits
        || (command == VOLUME + digits && IsDigits(digits))
        || (command == BRIGHTNESS + digits && IsDigits(digits)))
  }

  lemma DigitsAreDecimal(s: string)
    requires IsDigits(s)
    ensures IsDecimal(s) && DecimalValue(s) >= 0
  {
    assert IsDigit(s[0]);
  }

  lemma VolumeParse(digits: string)
    requires IsDigits(digits)
    ensures Parse(VOLUME + digits).Raised? <==> !Is64Bit(DecimalValue(digits))
  {
    NotMediaNorWorkspace(VOLUME + digits);
    AfterPrefix(VOLUME, digits);
  }

  lemma BrightnessParse(digits: string)
    requires IsDigits(digits)
    ensures Parse(BRIGHTNESS + digits).Raised? <==> !Is64Bit(DecimalValue(digits))
  {
    var command := BRIGHTNESS + digits;
    NotMediaNorWorkspace(command);
    Differs(VOLUME, command, 9);
    Differs(MUTE, command, 9);
    Differs(command, TOGGLE, 9);
    AfterPrefix(BRIGHTNESS, digits);
  }

  lemma NumericParse(command: string, digits: string)
    requires Numeric(command, digits)
    ensures Parse(command).Raised? <==> !Is64Bit(DecimalValue(digits))
  {
    if command == WORKSPACE + digits {
      AfterPrefix(WORKSPACE, digits);
    } else if command == VOLUME + digits {
      VolumeParse(digits);
    } else {
      BrightnessParse(digits);
    }
  }

  /** Parsing raises an error exactly on a numeric command whose number needs more than 64 bits. */
  lemma RaisesIff(command: string)
    ensures Parse(command).Raised? <==>
      exists digits :: Numeric(command, digits) && !Is64Bit(DecimalValue(digits))
  {
    if digits :| Numeric(command, digits) && !Is64Bit(DecimalValue(digits)) {
      NumericParse(command, digits);
    }
    if Parse(command).Raised? {
      var digits := RaisingDigits(command);
    }
  }

  lemma RaisingDigits(command: string) returns (digits: string)
    requires Parse(command).Raised?
    ensures Numeric(command, digits) && !Is64Bit(DecimalValue(digits))
  {
    var workspace, volume := After(WORKSPACE, command), After(VOLUME, command);
    digits :=
      if workspace.Some? && IsDecimal(workspace.value) then workspace.value
      else if volume.Some? && IsDigits(volume.value) then volume.value
      else After(BRIGHTNESS, command).value;
    if !(workspace.Some? && IsDecimal(workspace.value)) {
      DigitsAreDecimal(digits);
    }
  }

  // ---- the line fits a slot ----------------------------------------------------------

  /** What the control socket can carry as one queued command. */
  predicate Printable(line: string) {
    && |line| <= 46 && |line| >= 9 && line[..9] == "dispatch "
    && '\n' !in line && '\0' !in line
  }

  lemma PrintedIntHasNoNewline(n: int)
    ensures '\n' !in PrintInt(n) && '\0' !in PrintInt(n)
  {
    var s := PrintInt(n);
    PrintedDecimal(n);
    forall c | c in s ensures c == '-' || IsDigit(c) {
      if c in Digits(s) {
        assert AllDigits(Digits(s));
      }
    }
  }

  lemma NumberIsPrintable(prefix: string, n: int)
    requires 9 <= |prefix| <= 26 && prefix[..9] == "dispatch " && '\n' !in prefix && '\0' !in prefix && Is64Bit(n)
    ensures Printable(prefix + PrintInt(n))
  {
    PrintedIntLength(n);
    PrintedIntHasNoNewline(n);
    assert (prefix + PrintInt(n))[..9] == prefix[..9];
  }

  lemma MediaIsPrintable(name: string)
    requires IsMediaAction(name)
    ensures Printable(MEDIA + name)
  {
    assert MEDIA[..9] == "dispatch ";
    assert (MEDIA + name)[..9] == MEDIA[..9];
    assert '\n' !in name && '\0' !in name;
  }

  lemma AudioIsPrintable(a: Action)
    requires ValidAction(a) && a.domain == "audio"
    ensures Printable(Line(a))
  {
    match a.value
    case Whole(n) => NumberIsPrintable(VOLUME, n);
    case Flag(b) => assert (MUTE + (if b then "true" else "false"))[..9] == MUTE[..9];
    case Nothing =>
  }

  lemma LineIsPrintable(a: Action)
    requires ValidAction(a)
    ensures Printable(Line(a))
  {
    if a.domain == "workspace" {
      NumberIsPrintable(WORKSPACE, a.value.n);
    } else if a.domain == "brightness" {
      NumberIsPrintable(BRIGHTNESS, a.value.n);
    } else if a.domain == "media" {
      MediaIsPrintable(a.name);
    } else {
      AudioIsPrintable(a);
    }
  }

  /** Every accepted argument list prints one line that fits a slot and parses to exactly
      the action the arguments denote, over all 64-bit workspace identifiers. */
  lemma PrintedActionIsParsed(arguments: seq<string>, a: Action)
    requires Denotes(arguments, a)
    ensures FromCli(arguments).Some?
    ensures Printable(FromCli(arguments).value)
    ensures Parse(FromCli(arguments).value) == Accepted(a)
  {
    DenotedIsPrinted(arguments, a);
    LineIsPrintable(a);
    LineIsParsed(a);
  }

  /** Nothing is printed for arguments that denote no action. */
  lemma AcceptedIff(arguments: seq<string>)
    ensures FromCli(arguments).Some? <==> exists a :: Denotes(arguments, a)
  {
    if FromCli(arguments).Some? {
      var a := AcceptedDenotes(arguments);
    }
    if a :| Denotes(arguments, a) {
      DenotedIsPrinted(arguments, a);
    }
  }
}
