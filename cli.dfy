/** The command-line front end: turning parsed options into a `Config`, and printing the
    selected answers. `getopts` itself is not modelled: its outcome is an input. */
module HowtoCli {
  import opened Wrappers
  import opened Strings
  import Howto

  datatype ShowOption = CodeOnly | LinkOnly | FullText

  datatype Config = Config(query: string, position: nat, showOption: ShowOption, numAnswers: nat)

  /** What `opt_get::<usize>` finds for a value option: not given, a number, or a value
      that does not parse as a `usize` (a sign, a letter, a number too large). */
  datatype OptValue = Absent | Given(value: nat) | Unparsable

  /** The parts of `getopts::Matches` the program inspects. */
  datatype Matches = Matches(
    free: seq<string>,
    help: bool,
    version: bool,
    all: bool,
    link: bool,
    pos: OptValue,
    numAnswers: OptValue)

  /** The outcome of `opts.parse(&args[1..])`. */
  datatype ParseOutcome = ParseFailed | Parsed(matches: Matches)

  /** The two messages `get_config_from_args` can return instead of a configuration:
      the usage text, and the crate version. */
  datatype Refusal = HelpMessage | VersionNumber

  /** `get_opt_or_default!`: the given value, the default when absent, or `None`
      (bail out with the help message) when it does not parse. */
  function OptOrDefault(v: OptValue, default: nat): (r: Option<nat>)
    ensures v.Unparsable? <==> r.None?
    ensures v.Absent? ==> r == Some(default)
    ensures v.Given? ==> r == Some(v.value)
  {
    match v
    case Absent => Some(default)
    case Given(n) => Some(n)
    case Unparsable => None
  }

  /** The `(link, all)` table; both flags at once is refused. */
  function ShowOptionFor(link: bool, all: bool): (show: Option<ShowOption>)
    ensures show.None? <==> link && all
    ensures show == Some(CodeOnly) <==> !link && !all
    ensures show == Some(LinkOnly) <==> link && !all
    ensures show == Some(FullText) <==> !link && all
  {
    match (link, all)
    case (false, false) => Some(CodeOnly)
    case (true, false) => Some(LinkOnly)
    case (false, true) => Some(FullText)
    case (true, true) => None
  }

  /** The guard chain of `get_config_from_args`, in source order. */
  function GetConfigFromArgs(parsed: ParseOutcome): (r: Result<Config, Refusal>)
    // Help is returned when parsing fails, when there is no free argument, or on --help.
    ensures parsed.ParseFailed? || parsed.matches.free == [] || parsed.matches.help ==> r == Err(HelpMessage)
    // The version is returned exactly when those three checks pass and --version is present.
    ensures r == Err(VersionNumber) <==>
      parsed.Parsed? && parsed.matches.free != [] && !parsed.matches.help && parsed.matches.version
    // A configuration is accepted exactly when every guard passes.
    ensures r.Ok? <==>
      && parsed.Parsed?
      && var m := parsed.matches;
      && m.free != [] && !m.help && !m.version
      && JoinWith(m.free, " ") != ""
      && OptOrDefault(m.pos, 1).Some? && OptOrDefault(m.pos, 1).value >= 1
      && OptOrDefault(m.numAnswers, 1).Some? && OptOrDefault(m.numAnswers, 1).value >= 1
      && !(m.link && m.all)
    // An accepted configuration carries the joined query and numbers of at least one.
    ensures r.Ok? ==>
      var m := parsed.matches;
      && r.value.query == JoinWith(m.free, " ") && r.value.query != ""
      && r.value.position >= 1 && Some(r.value.position) == OptOrDefault(m.pos, 1)
      && r.value.numAnswers >= 1 && Some(r.value.numAnswers) == OptOrDefault(m.numAnswers, 1)
      && Some(r.value.showOption) == ShowOptionFor(m.link, m.all)
  {
    if parsed.ParseFailed? then Err(HelpMessage)
    else
      var m := parsed.matches;
      if m.free == [] then Err(HelpMessage)
      else if m.help then Err(HelpMessage)
      else if m.version then Err(VersionNumber)
      else
        var query := JoinWith(m.free, " ");
        if query == "" then Err(HelpMessage)
        else match OptOrDefault(m.pos, 1)
          case None => Err(HelpMessage)
          case Some(position) =>
            if position < 1 then Err(HelpMessage)
            else match OptOrDefault(m.numAnswers, 1)
              case None => Err(HelpMessage)
              case Some(numAnswers) =>
                if numAnswers < 1 then Err(HelpMessage)
                else match ShowOptionFor(m.link, m.all)
                  case None => Err(HelpMessage)
                  case Some(show) => Ok(Config(query, position, show, numAnswers))
  }

  /** `--version` without a query prints the help message, not the version: the
      free-argument guard comes first. Help also wins over version. */
  lemma VersionNeedsQueryAndNoHelp(m: Matches)
    requires m.version
    ensures m.free == [] ==> GetConfigFromArgs(Parsed(m)) == Err(HelpMessage)
    ensures m.help ==> GetConfigFromArgs(Parsed(m)) == Err(HelpMessage)
    ensures m.free != [] && !m.help ==> GetConfigFromArgs(Parsed(m)) == Err(VersionNumber)
  {
  }

  /** With at least one free argument, the joined query is empty exactly when the only
      free argument is the empty string; so that guard refuses only `howto ""`. */
  lemma EmptyQueryOnlyFromOneEmptyArgument(m: Matches)
    requires m.free != [] && !m.help && !m.version
    ensures m.free == [""] ==> GetConfigFromArgs(Parsed(m)) == Err(HelpMessage)
    ensures JoinWith(m.free, " ") == "" <==> m.free == [""]
  {
    JoinWithEmptyIff(m.free, " ");
  }

  /** `--pos` and `--num-answers` default to 1. */
  lemma PositionAndCountDefaultToOne(m: Matches)
    requires m.free != [] && !m.help && !m.version && JoinWith(m.free, " ") != ""
    requires m.pos.Absent? && m.numAnswers.Absent? && !(m.link && m.all)
    ensures GetConfigFromArgs(Parsed(m)).Ok?
    ensures GetConfigFromArgs(Parsed(m)).value.position == 1
    ensures GetConfigFromArgs(Parsed(m)).value.numAnswers == 1
  {
  }

  /** The show option follows the flag table; `-l` with `-a` is refused with help. */
  lemma ShowOptionTable(m: Matches)
    requires GetConfigFromArgs(Parsed(m)).Ok? || (m.link && m.all)
    ensures !m.link && !m.all ==> GetConfigFromArgs(Parsed(m)).value.showOption == CodeOnly
    ensures m.link && !m.all ==> GetConfigFromArgs(Parsed(m)).value.showOption == LinkOnly
    ensures !m.link && m.all ==> GetConfigFromArgs(Parsed(m)).value.showOption == FullText
    ensures m.link && m.all ==> GetConfigFromArgs(Parsed(m)) == Err(HelpMessage) || GetConfigFromArgs(Parsed(m)) == Err(VersionNumber)
  {
  }

  // ---------------------------------------------------------------------------
  // Printing

  /** One `println!` (stdout) or `eprintln!` (stderr) call, with the text it formats;
      the trailing newline the macro adds is not part of the text. */
  datatype Output = Stdout(text: string) | Stderr(text: string)

  /** A stream item as `main` matches it: an answer, or an error shown by its message. */
  type Item = Result<Howto.Answer, string>

  function Header(link: string): string
  {
    "=== Answers from " + link + " ==="
  }

  /** The lines `main` prints for one item. An error goes to stderr. `LinkOnly` prints the
      link; the other modes print the header when more than one answer is wanted, then
      the instruction or the full text followed by a blank line. */
  function RenderItem(item: Item, config: Config): (lines: seq<Output>)
    ensures item.Err? ==> lines == [Stderr(item.error)]
    ensures item.Ok? && config.showOption.LinkOnly? ==> lines == [Stdout(item.value.link)]
    ensures item.Ok? && !config.showOption.LinkOnly? ==>
      && |lines| == (if config.numAnswers > 1 then 2 else 1)
      && (config.numAnswers > 1 ==> lines[0] == Stdout(Header(item.value.link)))
      && lines[|lines| - 1] == Stdout(
           (if config.showOption.CodeOnly? then item.value.instruction else item.value.fullText) + "\n")
  {
    match item
    case Err(e) => [Stderr(e)]
    case Ok(answer) =>
      match config.showOption
      case CodeOnly =>
        (if config.numAnswers > 1 then [Stdout(Header(answer.link))] else [])
        + [Stdout(answer.instruction + "\n")]
      case LinkOnly => [Stdout(answer.link)]
      case FullText =>
        (if config.numAnswers > 1 then [Stdout(Header(answer.link))] else [])
        + [Stdout(answer.fullText + "\n")]
  }

  /** `for_each` over the items: their lines, item after item. */
  function RenderAll(items: seq<Item>, config: Config): (lines: seq<Output>)
    ensures |items| <= |lines| <= 2 * |items|
  {
    if items == [] then [] else RenderItem(items[0], config) + RenderAll(items[1..], config)
  }

  lemma {:induction false} RenderAllAppend(a: seq<Item>, b: seq<Item>, config: Config)
    ensures RenderAll(a + b, config) == RenderAll(a, config) + RenderAll(b, config)
  {
    if a == [] {
      assert a + b == b;
    } else {
      assert (a + b)[1..] == a[1..] + b;
      RenderAllAppend(a[1..], b, config);
    }
  }

  /** An error item prints one stderr line and does not stop the items after it. */
  lemma ErrorDoesNotStopIteration(before: seq<Item>, e: string, after: seq<Item>, config: Config)
    ensures RenderAll(before + [Err(e)] + after, config)
      == RenderAll(before, config) + [Stderr(e)] + RenderAll(after, config)
  {
    RenderAllAppend(before + [Err(e)], after, config);
    RenderAllAppend(before, [Err(e)], config);
    var single: seq<Item> := [Err(e)];
    assert single[1..] == [];
  }

  /** In link mode every item prints exactly one line: its link, or its error. */
  lemma {:induction false} LinkModePrintsOneLinePerItem(items: seq<Item>, config: Config)
    requires config.showOption.LinkOnly?
    ensures |RenderAll(items, config)| == |items|
    ensures forall k :: 0 <= k < |items| ==>
      RenderAll(items, config)[k] == (match items[k] case Ok(a) => Stdout(a.link) case Err(e) => Stderr(e))
  {
    if items != [] {
      LinkModePrintsOneLinePerItem(items[1..], config);
    }
  }

  /** With one answer requested no header is printed: one line per item. */
  lemma {:induction false} SingleAnswerHasNoHeader(items: seq<Item>, config: Config)
    requires config.numAnswers <= 1
    ensures |RenderAll(items, config)| == |items|
    ensures forall k :: 0 <= k < |items| ==> RenderAll(items, config)[k] == RenderItem(items[k], config)[0]
  {
    if items != [] {
      SingleAnswerHasNoHeader(items[1..], config);
    }
  }

  /** `skip(skip).take(take)`. */
  function Window(items: seq<Item>, skip: nat, take: nat): (w: seq<Item>)
    ensures |w| == (if skip >= |items| then 0 else if take < |items| - skip then take else |items| - skip)
    ensures forall k :: 0 <= k < |w| ==> w[k] == items[skip + k]
  {
    var rest := if skip <= |items| then items[skip..] else [];
    if take <= |rest| then rest[..take] else rest
  }

  /** The `skip`/`take`/`for_each` pipeline of `main`: the lines of the items at positions
      `position - 1` up to `position - 1 + numAnswers` (fewer when the stream is shorter). */
  method PrintAnswers(items: seq<Item>, config: Config) returns (out: seq<Output>)
    requires config.position >= 1
    ensures out == RenderAll(Window(items, config.position - 1, config.numAnswers), config)
  {
    var selected := Window(items, config.position - 1, config.numAnswers);
    out := [];
    var i := 0;
    while i < |selected|
      invariant 0 <= i <= |selected|
      invariant out == RenderAll(selected[..i], config)
    {
      RenderAllAppend(selected[..i], [selected[i]], config);
      assert selected[..i + 1] == selected[..i] + [selected[i]];
      assert RenderAll([selected[i]], config) == RenderItem(selected[i], config) by {
        assert [selected[i]][1..] == [];
      }
      out := out + RenderItem(selected[i], config);
      i := i + 1;
    }
    assert selected[..i] == selected;
  }

  /** `main`: a refused configuration prints its message to stderr and stops; otherwise
      the answers for the query are printed. `answersFor` stands for the answer stream,
      `helpText` and `versionText` for the usage text and the crate version. */
  method RunMain(parsed: ParseOutcome, answersFor: string -> seq<Item>, helpText: string, versionText: string)
    returns (out: seq<Output>)
    ensures GetConfigFromArgs(parsed) == Err(HelpMessage) ==> out == [Stderr(helpText)]
    ensures GetConfigFromArgs(parsed) == Err(VersionNumber) ==> out == [Stderr(versionText)]
    ensures GetConfigFromArgs(parsed).Ok? ==>
      var config := GetConfigFromArgs(parsed).value;
      out == RenderAll(Window(answersFor(config.query), config.position - 1, config.numAnswers), config)
  {
    var config := GetConfigFromArgs(parsed);
    match config
    case Err(HelpMessage) => out := [Stderr(helpText)];
    case Err(VersionNumber) => out := [Stderr(versionText)];
    case Ok(c) => out := PrintAnswers(answersFor(c.query), c);
  }
}
