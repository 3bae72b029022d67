/** firewallctl's options, accepted in any position. */
module Options {
  import opened Policy

  datatype Kind = Sock | Protocol | Action | Priority | Dport | Sport

  const KINDS := [Sock, Protocol, Action, Priority, Dport, Sport]

  function Name(k: Kind): string {
    match k
    case Sock => "sock"
    case Protocol => "protocol"
    case Action => "action"
    case Priority => "priority"
    case Dport => "dport"
    case Sport => "sport"
  }

  datatype Settings = Settings(args: seq<string>, sock: string, protocol: string, action: string,
                               port: nat, sport: nat, priority: nat)

  const DEFAULTS := Settings([], "/var/run/ebpf-firewall.sock", "", "", 0, 0, 0)

  datatype Outcome = Help | Failed | Parsed(settings: Settings)

  // ----- numbers -----------------------------------------------------------------------------

  predicate IsDigit(c: char) {
    '0' <= c <= '9'
  }

  function DigitValue(c: char): nat
    requires IsDigit(c)
  {
    c as int - '0' as int
  }

  function Decimal(s: string): nat
    requires forall c :: c in s ==> IsDigit(c)
  {
    if s == "" then 0 else 10 * Decimal(s[..|s| - 1]) + DigitValue(s[|s| - 1])
  }

  /** strconv.ParseUint in base 10: one or more digits, and nothing above `max`. */
  function ParseUint(s: string, max: nat): (r: Option<nat>)
    ensures r.Some? ==> r.value <= max
  {
    if s == "" || exists c :: c in s && !IsDigit(c) then None
    else if Decimal(s) > max then None
    else Some(Decimal(s))
  }

  /** A number as it is usually written. */
  function Digits(n: nat): string {
    if n < 10 then [DigitChar(n)] else Digits(n / 10) + [DigitChar(n % 10)]
  }

  function DigitChar(d: nat): char
    requires d < 10
  {
    "0123456789"[d]
  }

  lemma {:induction false} DigitsAreDecimal(n: nat)
    ensures Digits(n) != "" && (forall c :: c in Digits(n) ==> IsDigit(c)) && Decimal(Digits(n)) == n
    decreases n
  {
    DigitCharIsDigit(n % 10);
    if n < 10 {
      var s := Digits(n);
      assert s[..|s| - 1] == "" && s[|s| - 1] == DigitChar(n);
      assert Decimal(s) == 10 * Decimal("") + DigitValue(s[0]);
    } else {
      DigitsAreDecimal(n / 10);
      var s := Digits(n);
      assert s[..|s| - 1] == Digits(n / 10) && s[|s| - 1] == DigitChar(n % 10);
    }
  }

  lemma DigitCharIsDigit(d: nat)
    requires d < 10
    ensures IsDigit(DigitChar(d)) && DigitValue(DigitChar(d)) == d
  {
  }

  /** A written number parses to itself, exactly when it does not exceed the maximum. */
  lemma WrittenNumberParses(n: nat, max: nat)
    ensures ParseUint(Digits(n), max) == if n <= max then Some(n) else None
  {
    DigitsAreDecimal(n);
  }

  lemma TenDigits(c: char)
    ensures IsDigit(c) <==> c in "0123456789"
  {
    if IsDigit(c) {
      DigitCharIsDigit(DigitValue(c));
      assert "0123456789"[DigitValue(c)] == c;
    }
  }

  /** Whatever else stands in its place is refused: nothing at all, or any character that is no digit. */
  lemma OtherTextFails(s: string, max: nat)
    requires s == "" || exists c :: c in s && c !in "0123456789"
    ensures ParseUint(s, max).None?
  {
    if s != "" {
      var c :| c in s && c !in "0123456789";
      TenDigits(c);
    }
  }

  // ----- the parser --------------------------------------------------------------------------

  predicate IsBare(arg: string, k: Kind) {
    arg == "-" + Name(k) || arg == "--" + Name(k)
  }

  predicate IsInline(arg: string, k: Kind) {
    "-" + Name(k) + "=" <= arg || "--" + Name(k) + "=" <= arg
  }

  function InlineValue(arg: string, k: Kind): string
    requires IsInline(arg, k)
  {
    if "-" + Name(k) + "=" <= arg then arg[|"-" + Name(k) + "="|..] else arg[|"--" + Name(k) + "="|..]
  }

  datatype Token = HelpToken | Bare(kind: Kind) | Inline(kind: Kind, value: string) | Unknown | Word

  function ClassifyOption(arg: string, kinds: seq<Kind>): Token {
    if kinds == [] then (if "-" <= arg then Unknown else Word)
    else if IsBare(arg, kinds[0]) then Bare(kinds[0])
    else if IsInline(arg, kinds[0]) then Inline(kinds[0], InlineValue(arg, kinds[0]))
    else ClassifyOption(arg, kinds[1..])
  }

  /** The switch of extractOptions, its cases in order. */
  function Classify(arg: string): Token {
    if arg == "-h" || arg == "--help" then HelpToken else ClassifyOption(arg, KINDS)
  }

  /** Stores one option's value, or fails on a malformed number. */
  function Assign(s: Settings, k: Kind, value: string): Option<Settings> {
    match k
    case Sock => Some(s.(sock := value))
    case Protocol => Some(s.(protocol := value))
    case Action => Some(s.(action := value))
    case Priority => (match ParseUint(value, 0xFFFF_FFFF) case None => None case Some(n) => Some(s.(priority := n)))
    case Dport => (match ParseUint(value, 0xFFFF) case None => None case Some(n) => Some(s.(port := n)))
    case Sport => (match ParseUint(value, 0xFFFF) case None => None case Some(n) => Some(s.(sport := n)))
  }

  function Extract(raw: seq<string>, s: Settings): Outcome {
    if raw == [] then Parsed(s)
    else
      match Classify(raw[0])
      case HelpToken => Help
      case Unknown => Failed
      case Word => Extract(raw[1..], s.(args := s.args + [raw[0]]))
      case Inline(k, value) =>
        (match Assign(s, k, value) case None => Failed case Some(next) => Extract(raw[1..], next))
      case Bare(k) =>
        if |raw| < 2 then Failed
        else match Assign(s, k, raw[1]) case None => Failed case Some(next) => Extract(raw[2..], next)
  }

  predicate FitsCasts(s: Settings) {
    s.port < 0x1_0000 && s.sport < 0x1_0000 && s.priority < 0x1_0000_0000
  }

  /** extractOptions; whatever it accepts fits the later uint16 and uint32 casts. */
  method ExtractOptions(raw: seq<string>) returns (r: Outcome)
    ensures r == Extract(raw, DEFAULTS)
    ensures r.Parsed? ==> FitsCasts(r.settings)
  {
    AcceptedNumbersFit(raw, DEFAULTS);
    var s := DEFAULTS;
    var i := 0;
    while i < |raw|
      invariant 0 <= i <= |raw|
      invariant Extract(raw, DEFAULTS) == Extract(raw[i..], s)
      decreases |raw| - i
    {
      var arg := raw[i];
      assert raw[i..][1..] == raw[i + 1..];
      match Classify(arg) {
        case HelpToken => return Help;
        case Unknown => return Failed;
        case Word => s := s.(args := s.args + [arg]);
        case Inline(k, value) =>
          var next := Assign(s, k, value);
          if next.None? { return Failed; }
          s := next.value;
        case Bare(k) =>
          if i + 1 >= |raw| { return Failed; }
          i := i + 1;
          assert raw[i - 1..][2..] == raw[i + 1..];
          var next := Assign(s, k, raw[i]);
          if next.None? { return Failed; }
          s := next.value;
      }
      i := i + 1;
    }
    r := Parsed(s);
  }

  lemma {:induction false} AcceptedNumbersFit(raw: seq<string>, s: Settings)
    requires FitsCasts(s)
    ensures Extract(raw, s).Parsed? ==> FitsCasts(Extract(raw, s).settings)
    decreases |raw|
  {
    if raw != [] {
      match Classify(raw[0])
      case Word => AcceptedNumbersFit(raw[1..], s.(args := s.args + [raw[0]]));
      case Inline(k, value) =>
        if Assign(s, k, value).Some? { AcceptedNumbersFit(raw[1..], Assign(s, k, value).value); }
      case Bare(k) =>
        if |raw| >= 2 && Assign(s, k, raw[1]).Some? { AcceptedNumbersFit(raw[2..], Assign(s, k, raw[1]).value); }
      case _ =>
    }
  }

  // ----- options work in any position ------------------------------------------------------------

  /** What the user means by one or two words of the command line. */
  datatype Item = Positional(text: string) | Setting(kind: Kind, value: string, twoDashes: bool, inline: bool)

  predicate WellFormed(i: Item) {
    match i
    case Positional(text) => !("-" <= text)
    case Setting(k, value, _, _) => Assign(DEFAULTS, k, value).Some?
  }

  function Dashes(two: bool): string {
    if two then "--" else "-"
  }

  function Render(i: Item): seq<string> {
    match i
    case Positional(text) => [text]
    case Setting(k, value, two, inline) =>
      if inline then [Dashes(two) + Name(k) + "=" + value] else [Dashes(two) + Name(k), value]
  }

  function CommandLine(items: seq<Item>): seq<string> {
    if items == [] then [] else Render(items[0]) + CommandLine(items[1..])
  }

  /** The option name an argument carries: what follows its dashes, up to the first '='. */
  function NameIn(arg: string): string {
    UpToEquals(if "--" <= arg then arg[2..] else if "-" <= arg then arg[1..] else arg)
  }

  function UpToEquals(s: string): string {
    if s == "" || s[0] == '=' then "" else [s[0]] + UpToEquals(s[1..])
  }

  lemma {:induction false} UpToEqualsOf(name: string, rest: string)
    requires '=' !in name && (rest == "" || rest[0] == '=')
    ensures UpToEquals(name + rest) == name
    decreases |name|
  {
    if name == "" {
      assert name + rest == rest;
    } else {
      assert (name + rest)[1..] == name[1..] + rest;
      UpToEqualsOf(name[1..], rest);
    }
  }

  lemma NamesAreSimple(k: Kind)
    ensures '=' !in Name(k) && |Name(k)| >= 4 && Name(k)[0] != '-'
  {
  }

  lemma NamesDiffer(j: Kind, k: Kind)
    requires Name(j) == Name(k)
    ensures j == k
  {
    assert |Name(j)| == |Name(k)| && Name(j)[0] == Name(k)[0];
  }

  lemma DashesCarryName(k: Kind, two: bool, rest: string)
    requires rest == "" || rest[0] == '='
    ensures NameIn(Dashes(two) + Name(k) + rest) == Name(k)
  {
    NamesAreSimple(k);
    var arg := Dashes(two) + Name(k) + rest;
    assert arg[|Dashes(two)|..] == Name(k) + rest;
    assert arg[|Dashes(two)|] != '-';
    UpToEqualsOf(Name(k), rest);
  }

  lemma MatchCarriesName(arg: string, k: Kind)
    requires IsBare(arg, k) || IsInline(arg, k)
    ensures NameIn(arg) == Name(k)
  {
    if IsBare(arg, k) {
      var two := arg == "--" + Name(k);
      assert arg == Dashes(two) + Name(k) + "";
      DashesCarryName(k, two, "");
    } else {
      var two := !("-" + Name(k) + "=" <= arg);
      var head := Dashes(two) + Name(k);
      assert head + "=" <= arg;
      var rest := arg[|head|..];
      assert arg == head + rest;
      assert rest[0] == arg[|head|] == (head + "=")[|head|];
      DashesCarryName(k, two, rest);
    }
  }

  lemma {:induction false} OnlyOneKindMatches(arg: string, k: Kind, kinds: seq<Kind>)
    requires IsBare(arg, k) || IsInline(arg, k)
    requires k in kinds
    ensures ClassifyOption(arg, kinds) == if IsBare(arg, k) then Bare(k) else Inline(k, InlineValue(arg, k))
    decreases |kinds|
  {
    MatchCarriesName(arg, k);
    if IsBare(arg, kinds[0]) || IsInline(arg, kinds[0]) {
      MatchCarriesName(arg, kinds[0]);
      NamesDiffer(k, kinds[0]);
    } else {
      OnlyOneKindMatches(arg, k, kinds[1..]);
    }
  }

  lemma {:induction false} WordsMatchNothing(arg: string, kinds: seq<Kind>)
    requires !("-" <= arg)
    ensures ClassifyOption(arg, kinds) == Word
    decreases |kinds|
  {
    if kinds != [] {
      WordsMatchNothing(arg, kinds[1..]);
    }
  }

  lemma HelpIsNoOption(arg: string, k: Kind)
    requires IsBare(arg, k) || IsInline(arg, k)
    ensures arg != "-h" && arg != "--help"
  {
    MatchCarriesName(arg, k);
    assert Name(k) != "help" && Name(k) != "h";
    DashedHelp();
  }

  lemma DashedHelp()
    ensures NameIn("-h") == "h" && NameIn("--help") == "help"
  {
    assert "-h"[1..] == "h" + "" && "--help"[2..] == "help" + "";
    UpToEqualsOf("h", "");
    UpToEqualsOf("help", "");
  }

  lemma RenderedOptionIsRecognised(i: Item)
    requires i.Setting?
    ensures Classify(Render(i)[0]) == if i.inline then Inline(i.kind, i.value) else Bare(i.kind)
  {
    var arg, head := Render(i)[0], Dashes(i.twoDashes) + Name(i.kind);
    assert i.kind in KINDS by {
      assert KINDS[0] == Sock && KINDS[1] == Protocol && KINDS[2] == Action;
      assert KINDS[3] == Priority && KINDS[4] == Dport && KINDS[5] == Sport;
    }
    if i.inline {
      assert head + "=" <= arg;
      assert IsInline(arg, i.kind);
      InlineIsNotBare(i.kind, i.twoDashes, i.value);
      HelpIsNoOption(arg, i.kind);
      OnlyOneKindMatches(arg, i.kind, KINDS);
    } else {
      assert IsBare(arg, i.kind);
      HelpIsNoOption(arg, i.kind);
      OnlyOneKindMatches(arg, i.kind, KINDS);
    }
  }

  lemma InlineIsNotBare(k: Kind, two: bool, value: string)
    ensures var arg := Dashes(two) + Name(k) + "=" + value;
      IsInline(arg, k) && !IsBare(arg, k) && InlineValue(arg, k) == value
  {
    NamesAreSimple(k);
    var head := Dashes(two) + Name(k);
    var arg := head + "=" + value;
    assert head + "=" <= arg && arg[|head| + 1..] == value;
    assert arg[|head|] == '=';
    if two {
      assert arg[1] == '-';
      assert ("-" + Name(k) + "=")[1] == Name(k)[0];
      assert ("-" + Name(k))[1] == Name(k)[0];
      assert |arg| > |"--" + Name(k)|;
    } else {
      assert arg[1] == Name(k)[0];
      assert ("--" + Name(k))[1] == '-';
      assert |arg| > |"-" + Name(k)|;
    }
  }

  /** The positional words, in order. */
  function Words(items: seq<Item>): seq<string> {
    if items == [] then []
    else if items[0].Positional? then [items[0].text] + Words(items[1..])
    else Words(items[1..])
  }

  /** The options in effect; of a repeated one the last counts. */
  function Chosen(items: seq<Item>): map<Kind, string> {
    if items == [] then map[]
    else
      var later := Chosen(items[1..]);
      if items[0].Setting? && items[0].kind !in later then later[items[0].kind := items[0].value] else later
  }

  function Number(chosen: map<Kind, string>, k: Kind, max: nat, otherwise: nat): nat {
    if k in chosen && ParseUint(chosen[k], max).Some? then ParseUint(chosen[k], max).value else otherwise
  }

  function Text(chosen: map<Kind, string>, k: Kind, otherwise: string): string {
    if k in chosen then chosen[k] else otherwise
  }

  /** The settings that words and options determine, on top of `s`. */
  function Assemble(s: Settings, words: seq<string>, chosen: map<Kind, string>): Settings {
    Settings(s.args + words,
             Text(chosen, Sock, s.sock), Text(chosen, Protocol, s.protocol), Text(chosen, Action, s.action),
             Number(chosen, Dport, 0xFFFF, s.port), Number(chosen, Sport, 0xFFFF, s.sport),
             Number(chosen, Priority, 0xFFFF_FFFF, s.priority))
  }

  lemma ExtractPositional(text: string, tail: seq<string>, s: Settings)
    requires !("-" <= text)
    ensures Extract([text] + tail, s) == Extract(tail, s.(args := s.args + [text]))
  {
    WordsMatchNothing(text, KINDS);
    assert ([text] + tail)[1..] == tail;
  }

  lemma ExtractSetting(i: Item, tail: seq<string>, s: Settings)
    requires i.Setting? && Assign(s, i.kind, i.value).Some?
    ensures Extract(Render(i) + tail, s) == Extract(tail, Assign(s, i.kind, i.value).value)
  {
    RenderedOptionIsRecognised(i);
    var line := Render(i) + tail;
    assert line[0] == Render(i)[0];
    assert if i.inline then line[1..] == tail else line[1] == i.value && line[2..] == tail;
  }

  /** A well-formed command line parses to its words in order and its options, wherever they stand. */
  lemma {:induction false} ParseIsAssembly(items: seq<Item>, s: Settings)
    requires forall i :: 0 <= i < |items| ==> WellFormed(items[i])
    ensures Extract(CommandLine(items), s) == Parsed(Assemble(s, Words(items), Chosen(items)))
    decreases |items|
  {
    if items == [] {
      assert s.args + [] == s.args;
    } else {
      var i, rest := items[0], items[1..];
      if i.Positional? {
        ExtractPositional(i.text, CommandLine(rest), s);
        ParseIsAssembly(rest, s.(args := s.args + [i.text]));
        AppendThenAssemble(s, i.text, Words(rest), Chosen(rest));
      } else {
        AssignAnywhere(s, i.kind, i.value);
        ExtractSetting(i, CommandLine(rest), s);
        ParseIsAssembly(rest, Assign(s, i.kind, i.value).value);
        ChosenParse(rest);
        AssignThenAssemble(s, i.kind, i.value, Words(rest), Chosen(rest));
      }
    }
  }

  lemma AssignAnywhere(s: Settings, k: Kind, value: string)
    ensures Assign(s, k, value).Some? <==> Assign(DEFAULTS, k, value).Some?
  {
  }

  lemma AppendThenAssemble(s: Settings, text: string, words: seq<string>, chosen: map<Kind, string>)
    ensures Assemble(s.(args := s.args + [text]), words, chosen) == Assemble(s, [text] + words, chosen)
  {
    assert s.args + [text] + words == s.args + ([text] + words);
  }

  lemma {:induction false} ChosenParse(items: seq<Item>)
    requires forall i :: 0 <= i < |items| ==> WellFormed(items[i])
    ensures forall k :: k in Chosen(items) ==> Assign(DEFAULTS, k, Chosen(items)[k]).Some?
    decreases |items|
  {
    if items != [] { ChosenParse(items[1..]); }
  }

  lemma AssignThenAssemble(s: Settings, k: Kind, value: string, words: seq<string>, later: map<Kind, string>)
    requires Assign(s, k, value).Some?
    requires forall j :: j in later ==> Assign(DEFAULTS, j, later[j]).Some?
    ensures Assemble(Assign(s, k, value).value, words, later) ==
      Assemble(s, words, if k in later then later else later[k := value])
  {
  }

  // ----- what is accepted, and nothing else -------------------------------------------------------

  lemma {:induction false} ClassifiedIsRendered(arg: string, kinds: seq<Kind>)
    ensures match ClassifyOption(arg, kinds)
      case HelpToken => false
      case Unknown => "-" <= arg
      case Word => !("-" <= arg)
      case Bare(k) => arg == "-" + Name(k) || arg == "--" + Name(k)
      case Inline(k, v) => arg == "-" + Name(k) + "=" + v || arg == "--" + Name(k) + "=" + v
    decreases |kinds|
  {
    if kinds == [] {
    } else if IsBare(arg, kinds[0]) {
    } else if IsInline(arg, kinds[0]) {
      var v := InlineValue(arg, kinds[0]);
      if "-" + Name(kinds[0]) + "=" <= arg {
        assert arg == "-" + Name(kinds[0]) + "=" + v;
      } else {
        assert arg == "--" + Name(kinds[0]) + "=" + v;
      }
    } else {
      ClassifiedIsRendered(arg, kinds[1..]);
    }
  }

  /** The first item of an accepted line, and what follows it. */
  lemma FirstItem(raw: seq<string>, s: Settings) returns (item: Item, tail: seq<string>, next: Settings)
    requires raw != [] && Extract(raw, s).Parsed?
    ensures WellFormed(item) && |tail| < |raw| && raw == Render(item) + tail
    ensures Extract(tail, next).Parsed?
  {
    ClassifiedIsRendered(raw[0], KINDS);
    match Classify(raw[0])
    case Word =>
      item, tail, next := Positional(raw[0]), raw[1..], s.(args := s.args + [raw[0]]);
    case Inline(k, value) =>
      AssignAnywhere(s, k, value);
      item, tail := Setting(k, value, raw[0] == "--" + Name(k) + "=" + value, true), raw[1..];
      next := Assign(s, k, value).value;
    case Bare(k) =>
      AssignAnywhere(s, k, raw[1]);
      item, tail := Setting(k, raw[1], raw[0] == "--" + Name(k), false), raw[2..];
      next := Assign(s, k, raw[1]).value;
  }

  /** An accepted command line is one that well-formed items render to. With ParseIsAssembly: the parser
      accepts exactly the well-formed lines. */
  lemma {:induction false} AcceptedIsWellFormed(raw: seq<string>, s: Settings) returns (items: seq<Item>)
    requires Extract(raw, s).Parsed?
    ensures (forall i :: 0 <= i < |items| ==> WellFormed(items[i])) && CommandLine(items) == raw
    decreases |raw|
  {
    if raw == [] { return []; }
    var item, tail, next := FirstItem(raw, s);
    var rest := AcceptedIsWellFormed(tail, next);
    items := [item] + rest;
    assert items[1..] == rest;
  }

  lemma BareForm(k: Kind, two: bool)
    ensures Classify(Dashes(two) + Name(k)) == Bare(k)
  {
    RenderedOptionIsRecognised(Setting(k, "", two, false));
  }

  /** The documented names, with one dash or two. */
  lemma DocumentedNames(two: bool)
    ensures var d := if two then "--" else "-";
      && Classify(d + "sock") == Bare(Sock) && Classify(d + "protocol") == Bare(Protocol)
      && Classify(d + "action") == Bare(Action) && Classify(d + "priority") == Bare(Priority)
      && Classify(d + "dport") == Bare(Dport) && Classify(d + "sport") == Bare(Sport)
  {
    BareForm(Sock, two);
    BareForm(Protocol, two);
    BareForm(Action, two);
    BareForm(Priority, two);
    BareForm(Dport, two);
    BareForm(Sport, two);
  }

  // ----- any order ----------------------------------------------------------------------------------

  /** Two command lines with the same words in order and the same options, no option repeated,
      parse alike: in any interleaving, with one dash or two, with '=' or without. */
  lemma OptionsWorkAnywhere(a: seq<Item>, b: seq<Item>)
    requires forall i :: 0 <= i < |a| ==> WellFormed(a[i])
    requires forall i :: 0 <= i < |b| ==> WellFormed(b[i])
    requires Words(a) == Words(b) && NoRepeats(a) && NoRepeats(b)
    requires forall k, v :: Gives(a, k, v) <==> Gives(b, k, v)
    ensures Extract(CommandLine(a), DEFAULTS) == Extract(CommandLine(b), DEFAULTS)
    ensures Extract(CommandLine(a), DEFAULTS) == Parsed(Assemble(DEFAULTS, Words(a), Chosen(a)))
  {
    ParseIsAssembly(a, DEFAULTS);
    ParseIsAssembly(b, DEFAULTS);
    ChosenIsGiven(a);
    ChosenIsGiven(b);
    forall k ensures k in Chosen(a) <==> k in Chosen(b)
      ensures k in Chosen(a) ==> Chosen(a)[k] == Chosen(b)[k] {
      if k in Chosen(a) { assert Gives(a, k, Chosen(a)[k]); }
      if k in Chosen(b) { assert Gives(b, k, Chosen(b)[k]); }
    }
    assert Chosen(a) == Chosen(b);
  }

  ghost predicate Gives(items: seq<Item>, k: Kind, v: string) {
    exists i :: 0 <= i < |items| && items[i].Setting? && items[i].kind == k && items[i].value == v
  }

  ghost predicate NoRepeats(items: seq<Item>) {
    forall i, j :: 0 <= i < j < |items| && items[i].Setting? && items[j].Setting? ==> items[i].kind != items[j].kind
  }

  lemma {:induction false} ChosenIsGiven(items: seq<Item>)
    requires NoRepeats(items)
    ensures forall k, v :: Gives(items, k, v) <==> k in Chosen(items) && Chosen(items)[k] == v
    decreases |items|
  {
    if items != [] {
      var rest := items[1..];
      ChosenIsGiven(rest);
      var first := items[0];
      assert first.Setting? && first.kind in Chosen(rest) ==> Gives(rest, first.kind, Chosen(rest)[first.kind]);
      forall k, v ensures Gives(items, k, v) <==>
          (items[0].Setting? && items[0].kind == k && items[0].value == v) || Gives(rest, k, v) {
        if Gives(rest, k, v) {
          var i :| 0 <= i < |rest| && rest[i].Setting? && rest[i].kind == k && rest[i].value == v;
          assert items[i + 1] == rest[i];
        }
        if Gives(items, k, v) {
          var i :| 0 <= i < |items| && items[i].Setting? && items[i].kind == k && items[i].value == v;
          assert i > 0 ==> rest[i - 1] == items[i];
        }
      }
    }
  }
}
