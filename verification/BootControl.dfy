/**
 The bootloader control block as recovery.cpp uses it: options are stored as text, one per line,
 and read back and parsed by the next boot.
 */
module BootControl {
  import opened Machine
  import opened CText

  /** Size of the field `recovery`; the text in it is NUL-terminated and cut off when it is too long. */
  const FIELD_SIZE: nat := 768

  // ---------------------------------------------------------------- storing and reading options

  /** s.c_str(): an option ends at its first NUL. */
  function Cut(s: string): (r: string)
    ensures '\0' !in r && r <= s && (|r| < |s| ==> s[|r|] == '\0')
  {
    var t := s + "\0";
    assert t[|s|] == '\0';
    assert CStr(t) == s[..|CStr(t)|];
    CStr(t)
  }

  function CutAll(options: seq<string>): (r: seq<string>)
    ensures |r| == |options| && forall i | 0 <= i < |r| :: r[i] == Cut(options[i])
  {
    seq(|options|, i requires 0 <= i < |options| => Cut(options[i]))
  }

  function Line(option: string): string {
    Cut(option) + (if option != "" && option[|option| - 1] == '\n' then "" else "\n")
  }

  function Body(options: seq<string>): string {
    if options == [] then "" else Line(options[0]) + Body(options[1..])
  }

  function Text(options: seq<string>): string {
    "recovery\n" + Body(options)
  }

  /** update_bootloader_message_in_struct: the text that the field `recovery` holds. */
  function Stored(options: seq<string>): string {
    if |Text(options)| < FIELD_SIZE then Text(options) else Text(options)[..FIELD_SIZE - 1]
  }

  /** android::base::Split at newlines, with `current` already read of the first token. */
  function Split(current: string, s: string): (tokens: seq<string>)
    ensures tokens != []
    decreases |s|
  {
    if s == "" then [current]
    else if s[0] == '\n' then [current] + Split("", s[1..])
    else Split(current + [s[0]], s[1..])
  }

  /** Tokens that get_args keeps: not empty and not starting with NUL. */
  function Kept(tokens: seq<string>): seq<string> {
    if tokens == [] then []
    else if tokens[0] != "" && tokens[0][0] != '\0' then [tokens[0]] + Kept(tokens[1..])
    else Kept(tokens[1..])
  }

  /** The options that get_args finds in the field `recovery`. */
  function ReadBack(field: string): seq<string> {
    var tokens := Split("", field);
    if tokens[0] == "recovery" then Kept(tokens[1..]) else []
  }

  /** Options that can be stored as they are */
  predicate Plain(option: string) {
    option != "" && '\n' !in option && '\0' !in option
  }

  predicate AllPlain(options: seq<string>) {
    forall i | 0 <= i < |options| :: Plain(options[i])
  }

  /** Tokens that get_args can take from a file; they may hold a NUL. */
  predicate AllUsable(tokens: seq<string>) {
    forall i | 0 <= i < |tokens| :: tokens[i] != "" && '\n' !in tokens[i] && tokens[i][0] != '\0'
  }

  /** A text of one token a line */
  function Lines(tokens: seq<string>): string {
    if tokens == [] then "" else tokens[0] + "\n" + Lines(tokens[1..])
  }

  lemma CutPlain(s: string)
    requires '\0' !in s
    ensures Cut(s) == s
  {
    CStrIs(s + "\0", s);
  }

  lemma CutAllPlain(options: seq<string>)
    requires AllPlain(options)
    ensures CutAll(options) == options
  {
    forall i | 0 <= i < |options|
      ensures Cut(options[i]) == options[i]
    {
      assert Plain(options[i]);
      CutPlain(options[i]);
    }
  }

  lemma {:induction false} BodyIsLines(options: seq<string>)
    requires AllPlain(options)
    ensures Body(options) == Lines(options)
  {
    if options != [] {
      var t := options[0];
      assert Plain(t);
      CutPlain(t);
      assert t[|t| - 1] in t;
      BodyIsLines(options[1..]);
    }
  }

  lemma {:induction false} SplitLine(current: string, t: string, rest: string)
    requires '\n' !in t
    ensures Split(current, t + "\n" + rest) == [current + t] + Split("", rest)
    decreases |t|
  {
    var s := t + "\n" + rest;
    if t == "" {
      assert s[1..] == rest && current + t == current;
    } else {
      assert s[1..] == t[1..] + "\n" + rest && (current + [t[0]]) + t[1..] == current + t;
      SplitLine(current + [t[0]], t[1..], rest);
    }
  }

  lemma {:induction false} SplitLast(current: string, t: string)
    requires '\n' !in t
    ensures Split(current, t) == [current + t]
    decreases |t|
  {
    if t == "" {
      assert current + t == current;
    } else {
      assert (current + [t[0]]) + t[1..] == current + t;
      SplitLast(current + [t[0]], t[1..]);
    }
  }

  lemma {:induction false} SplitLines(tokens: seq<string>)
    requires forall i | 0 <= i < |tokens| :: '\n' !in tokens[i]
    ensures Split("", Lines(tokens)) == tokens + [""]
  {
    if tokens != [] {
      var t, rest := tokens[0], tokens[1..];
      hide Split;
      SplitLines(rest);
      SplitLine("", t, Lines(rest));
      assert "" + t == t && Lines(tokens) == t + "\n" + Lines(rest);
    }
  }

  /** The last newline is not needed. */
  lemma {:induction false} SplitCutLines(tokens: seq<string>)
    requires tokens != [] && forall i | 0 <= i < |tokens| :: '\n' !in tokens[i]
    ensures Lines(tokens) != "" && Split("", Lines(tokens)[..|Lines(tokens)| - 1]) == tokens
  {
    var t, rest := tokens[0], tokens[1..];
    hide Split;
    assert "" + t == t && Lines(tokens) == t + "\n" + Lines(rest);
    if rest == [] {
      SplitLast("", t);
      assert Lines(tokens)[..|Lines(tokens)| - 1] == t;
    } else {
      SplitCutLines(rest);
      var cut := Lines(rest)[..|Lines(rest)| - 1];
      assert Lines(tokens)[..|Lines(tokens)| - 1] == t + "\n" + cut;
      SplitLine("", t, cut);
    }
  }

  lemma {:induction false} KeptAll(tokens: seq<string>, rest: seq<string>)
    requires AllUsable(tokens)
    ensures Kept(tokens + rest) == tokens + Kept(rest)
  {
    if tokens == [] {
      assert tokens + rest == rest;
    } else {
      assert (tokens + rest)[1..] == tokens[1..] + rest;
      KeptAll(tokens[1..], rest);
    }
  }

  /** Characters needed to store the tokens. */
  function Weight(tokens: seq<string>): nat {
    if tokens == [] then 0 else |tokens[0]| + 1 + Weight(tokens[1..])
  }

  lemma {:induction false} SplitWeight(current: string, s: string)
    ensures Weight(Split(current, s)) == |current| + |s| + 1
    decreases |s|
  {
    if s == "" {
      assert Weight([current]) == |current| + 1 + Weight([]);
    } else if s[0] == '\n' {
      SplitWeight("", s[1..]);
      assert ([current] + Split("", s[1..]))[1..] == Split("", s[1..]);
    } else {
      SplitWeight(current + [s[0]], s[1..]);
    }
  }

  lemma KeptWeight(tokens: seq<string>)
    ensures Weight(Kept(tokens)) <= Weight(tokens)
  {
  }

  lemma LinesWeight(tokens: seq<string>)
    ensures |Lines(tokens)| == Weight(tokens)
  {
  }

  lemma ReadBackBody(s: string)
    ensures ReadBack("recovery\n" + s) == Kept(Split("", s))
  {
    SplitLine("", "recovery", s);
    assert "" + "recovery" == "recovery" && "recovery" + "\n" + s == "recovery\n" + s;
    assert (["recovery"] + Split("", s))[1..] == Split("", s);
  }

  /**
   What get_args stores is what the next boot reads, exactly when no option is empty or holds a newline or a NUL,
   and the text fits with its last newline at the end of the field.
   */
  lemma ReadBackExactlyWhen(options: seq<string>)
    ensures ReadBack(Stored(options)) == options <==> AllPlain(options) && |Text(options)| <= FIELD_SIZE
  {
    StoredHasNoNul(options);
    ReadBackIsPlain(Stored(options));
    if AllPlain(options) {
      ReadBackOfPlain(options);
    }
  }

  lemma ReadBackOfPlain(options: seq<string>)
    requires AllPlain(options)
    ensures ReadBack(Stored(options)) == options <==> |Text(options)| <= FIELD_SIZE
  {
    var body := Body(options);
    BodyIsLines(options);
    KeptLines(options);
    ReadBackBody(body);
    if |Text(options)| == FIELD_SIZE {
      SplitCutLines(options);
      assert Stored(options) == "recovery\n" + body[..FIELD_SIZE - 10];
      ReadBackBody(body[..FIELD_SIZE - 10]);
    } else if |Text(options)| > FIELD_SIZE {
      ReadBackOfCut(options);
    }
  }

  lemma KeptLines(tokens: seq<string>)
    requires AllUsable(tokens)
    ensures Kept(Split("", Lines(tokens))) == tokens && Kept(tokens) == tokens
  {
    SplitLines(tokens);
    KeptAll(tokens, [""]);
    KeptAll(tokens, []);
    assert Kept([""]) == Kept([]) == [] && tokens + [] == tokens;
  }

  /** What is left of a text that was cut off is too short for all the options. */
  lemma ReadBackOfCut(options: seq<string>)
    requires AllPlain(options) && |Text(options)| > FIELD_SIZE
    ensures ReadBack(Stored(options)) != options
  {
    var cut := Body(options)[..FIELD_SIZE - 10];
    assert Stored(options) == "recovery\n" + cut;
    ReadBackBody(cut);
    SplitWeight("", cut);
    KeptWeight(Split("", cut));
    BodyIsLines(options);
    LinesWeight(options);
  }

  lemma {:induction false} BodyHasNoNul(options: seq<string>)
    ensures '\0' !in Body(options)
  {
    if options != [] {
      BodyHasNoNul(options[1..]);
      assert '\0' !in Line(options[0]);
    }
  }

  lemma StoredHasNoNul(options: seq<string>)
    ensures '\0' !in Stored(options)
  {
    BodyHasNoNul(options);
    assert '\0' !in "recovery\n";
    assert '\0' !in Text(options);
    assert forall i | 0 <= i < |Stored(options)| :: Stored(options)[i] == Text(options)[i];
  }

  lemma {:induction false} SplitHasNone(current: string, s: string)
    requires '\n' !in current && '\0' !in current && '\0' !in s
    ensures forall i | 0 <= i < |Split(current, s)| :: '\n' !in Split(current, s)[i] && '\0' !in Split(current, s)[i]
    decreases |s|
  {
    if s != "" {
      SplitHasNone(if s[0] == '\n' then "" else current + [s[0]], s[1..]);
    }
  }

  lemma {:induction false} KeptIsPlain(tokens: seq<string>)
    requires forall i | 0 <= i < |tokens| :: '\n' !in tokens[i] && '\0' !in tokens[i]
    ensures AllPlain(Kept(tokens))
  {
    if tokens != [] {
      KeptIsPlain(tokens[1..]);
    }
  }

  /** Whatever text is in the field, only plain options are read from it. */
  lemma ReadBackIsPlain(field: string)
    requires '\0' !in field
    ensures AllPlain(ReadBack(field))
  {
    SplitHasNone("", field);
    KeptIsPlain(Split("", field)[1..]);
  }

  /** Tokens with a NUL, which a command file may hold, are stored and read back up to it. */
  lemma ReadBackUpToNul(tokens: seq<string>)
    requires AllUsable(tokens)
    ensures Stored(tokens) == Stored(CutAll(tokens)) && AllPlain(CutAll(tokens))
    ensures ReadBack(Stored(tokens)) == CutAll(tokens) <==> |Text(tokens)| <= FIELD_SIZE
  {
    BodyOfCut(tokens);
    assert AllPlain(CutAll(tokens)) by {
      forall i | 0 <= i < |tokens|
        ensures Plain(Cut(tokens[i]))
      {
        assert tokens[i][0] != '\0';
      }
    }
    ReadBackExactlyWhen(CutAll(tokens));
  }

  lemma {:induction false} BodyOfCut(tokens: seq<string>)
    requires AllUsable(tokens)
    ensures Body(tokens) == Body(CutAll(tokens))
  {
    if tokens != [] {
      var t := tokens[0];
      BodyOfCut(tokens[1..]);
      assert CutAll(tokens)[1..] == CutAll(tokens[1..]);
      CutPlain(Cut(t));
      assert t[|t| - 1] in t;
      assert Cut(t) != "" ==> Cut(t)[|Cut(t)| - 1] in t;
    }
  }

  // ---------------------------------------------------------------- numbers

  predicate Digits(s: string) {
    s != "" && forall i | 0 <= i < |s| :: '0' <= s[i] <= '9'
  }

  function DigitsValue(s: string): nat
    requires forall i | 0 <= i < |s| :: '0' <= s[i] <= '9'
  {
    if s == "" then 0 else 10 * DigitsValue(s[..|s| - 1]) + (s[|s| - 1] - '0') as int
  }

  /** "%d" for numbers that are not negative */
  function Print(n: nat): (s: string)
    ensures Digits(s)
  {
    var last := ['0' + (n % 10) as char];
    if n < 10 then last else Print(n / 10) + last
  }

  lemma {:induction false} PrintParse(n: nat)
    ensures DigitsValue(Print(n)) == n
  {
    var s := Print(n);
    if n < 10 {
      assert s[..|s| - 1] == "";
    } else {
      PrintParse(n / 10);
      assert s[..|s| - 1] == Print(n / 10);
    }
  }

  // ---------------------------------------------------------------- parsing options

  datatype Kind = NoArgument | Required | Unknown

  /** The table OPTIONS. */
  function KindOf(name: string): Kind {
    if name in {"wipe_data", "wipe_cache", "show_text", "sideload", "sideload_auto_reboot", "just_exit",
                "shutdown_after", "security", "wipe_ab", "prompt_and_wipe_data"} then NoArgument
    else if name in {"update_package", "retry_count", "locale", "reason", "wipe_package_size"} then Required
    else Unknown
  }

  /** The parsed options that decide between installing and wiping, and how /data is erased. */
  datatype Options = Options(updatePackage: Option<string>, wipeData: bool, retryCount: nat, reason: Option<string>)

  const NO_OPTIONS: Options := Options(None, false, 0, None)

  predicate Long(arg: string) {
    |arg| >= 2 && arg[..2] == "--"
  }

  /** Position of the first '=', or the length. */
  function Equals(s: string): (k: nat)
    ensures k <= |s|
    ensures k < |s| ==> s[k] == '='
    ensures '=' !in s[..k]
  {
    if s == "" then 0 else if s[0] == '=' then 0 else assert s == [s[0]] + s[1..]; 1 + Equals(s[1..])
  }

  function Name(arg: string): string
    requires Long(arg)
  {
    arg[2..][..Equals(arg[2..])]
  }

  predicate HasValue(arg: string)
    requires Long(arg)
  {
    Equals(arg[2..]) < |arg[2..]|
  }

  function Value(arg: string): string
    requires Long(arg) && HasValue(arg)
  {
    arg[2..][Equals(arg[2..]) + 1..]
  }

  /** An option that takes the following token as its value. */
  predicate TakesNext(arg: string) {
    Long(arg) && KindOf(Name(arg)) == Required && !HasValue(arg)
  }

  function Apply(o: Options, name: string, value: string): Options {
    if name == "update_package" then o.(updatePackage := Some(value))
    else if name == "wipe_data" then o.(wipeData := true)
    else if name == "reason" then o.(reason := Some(value))
    else if name == "retry_count" then if Digits(value) && DigitsValue(value) < 0x8000_0000 then o.(retryCount := DigitsValue(value)) else o
    else o
  }

  /** What getopt_long makes of one token that does not take the next one. */
  function ApplyToken(o: Options, arg: string): Options {
    if !Long(arg) then o
    else
      match KindOf(Name(arg))
      case NoArgument => if HasValue(arg) then o else Apply(o, Name(arg), "")
      case Required => if HasValue(arg) then Apply(o, Name(arg), Value(arg)) else o
      case Unknown => o
  }

  /** The getopt_long loop of main, over the arguments after args[0]. */
  function Parse(o: Options, args: seq<string>): Options
    decreases |args|
  {
    if args == [] || args[0] == "--" then o
    else if TakesNext(args[0]) then
      if |args| == 1 then o else Parse(Apply(o, Name(args[0]), args[1]), args[2..])
    else Parse(ApplyToken(o, args[0]), args[1..])
  }

  /** The loop reaches the end of the arguments, and the last of them does not wait for a value. */
  predicate ParsedToEnd(args: seq<string>) {
    if args == [] then true
    else if args[0] == "--" then false
    else if TakesNext(args[0]) then |args| > 1 && ParsedToEnd(args[2..])
    else ParsedToEnd(args[1..])
  }

  /** One more token at the end counts if the loop gets there; otherwise it is ignored or taken for the value of the option before it. */
  lemma {:induction false} ParseAppend(o: Options, args: seq<string>, last: string)
    requires last != "--" && !TakesNext(last)
    ensures ParsedToEnd(args) ==> Parse(o, args + [last]) == ApplyToken(Parse(o, args), last)
    ensures !ParsedToEnd(args) ==>
              || Parse(o, args + [last]) == Parse(o, args)
              || exists i :: 0 <= i < |args| && TakesNext(args[i])
                             && Parse(o, args + [last]) == Apply(Parse(o, args), Name(args[i]), last)
    decreases |args|
  {
    var all := args + [last];
    if args == [] {
      assert all == [last] && all[1..] == [];
    } else if args[0] == "--" {
    } else if TakesNext(args[0]) {
      if |args| == 1 {
        assert all[2..] == [] && all[1] == last;
        assert Parse(o, all) == Apply(Parse(o, args), Name(args[0]), last);
      } else {
        assert all[2..] == args[2..] + [last];
        ParseAppend(Apply(o, Name(args[0]), args[1]), args[2..], last);
      }
    } else {
      assert all[1..] == args[1..] + [last];
      ParseAppend(ApplyToken(o, args[0]), args[1..], last);
    }
  }

  // ---------------------------------------------------------------- the retry counter

  const RETRY: string := "--retry_count"

  predicate IsRetry(arg: string) {
    RETRY <= arg
  }

  function WithoutRetry(args: seq<string>): seq<string> {
    if args == [] then []
    else if IsRetry(args[0]) then WithoutRetry(args[1..])
    else [args[0]] + WithoutRetry(args[1..])
  }

  function RetryToken(count: nat): string {
    RETRY + "=" + Print(count)
  }

  /** The options that set_retry_bootloader_message stores. */
  function SetRetry(args: seq<string>, count: nat): seq<string> {
    WithoutRetry(args) + [RetryToken(count)]
  }

  lemma RetryTokenFacts(count: nat)
    requires count < 0x8000_0000
    ensures var t := RetryToken(count);
            && Long(t) && HasValue(t) && Name(t) == "retry_count" && Value(t) == Print(count)
            && t != "--" && !TakesNext(t) && Plain(t)
            && forall o :: ApplyToken(o, t) == o.(retryCount := count)
  {
    var t := RetryToken(count);
    RetryTokenParts(count);
    PrintParse(count);
    assert KindOf("retry_count") == Required;
    forall o
      ensures ApplyToken(o, t) == o.(retryCount := count)
    {
      RetryApplies(o, Print(count), count);
      hide Print, Equals, RetryToken, Apply, KindOf;
    }
  }

  lemma RetryApplies(o: Options, digits: string, count: nat)
    requires Digits(digits) && DigitsValue(digits) == count < 0x8000_0000
    ensures Apply(o, "retry_count", digits) == o.(retryCount := count)
  {
    assert |"retry_count"| == 11 && |"update_package"| == 14 && |"wipe_data"| == 9 && |"reason"| == 6;
  }

  lemma RetryTokenParts(count: nat)
    ensures var t := RetryToken(count);
            && Long(t) && HasValue(t) && Name(t) == "retry_count" && Value(t) == Print(count)
            && t != "--" && Plain(t)
  {
    var t := RetryToken(count);
    var rest := "retry_count=" + Print(count);
    assert t[2..] == rest;
    EqualsAt(rest, 11);
    assert rest[..11] == "retry_count" && rest[12..] == Print(count);
    assert t[0] == '-' && forall i | 0 <= i < |t| :: t[i] != '\n';
  }

  lemma {:induction false} EqualsAt(s: string, k: nat)
    requires k < |s| && s[k] == '=' && '=' !in s[..k]
    ensures Equals(s) == k
  {
    if k > 0 {
      assert s[..k][0] == s[0];
      assert s[1..][..k - 1] == s[..k][1..];
      EqualsAt(s[1..], k - 1);
    }
  }

  lemma NotRetryName(arg: string)
    requires Long(arg) && !IsRetry(arg)
    ensures Name(arg) != "retry_count"
  {
    assert arg == "--" + arg[2..] && Name(arg) <= arg[2..];
    assert "--" + "retry_count" == RETRY;
  }

  lemma {:induction false} NoRetryNoCount(o: Options, args: seq<string>)
    requires forall i | 0 <= i < |args| :: !IsRetry(args[i])
    ensures Parse(o, args).retryCount == o.retryCount
    decreases |args|
  {
    if args != [] && args[0] != "--" {
      if Long(args[0]) {
        NotRetryName(args[0]);
      }
      if TakesNext(args[0]) {
        if |args| > 1 {
          NoRetryNoCount(Apply(o, Name(args[0]), args[1]), args[2..]);
        }
      } else {
        NoRetryNoCount(ApplyToken(o, args[0]), args[1..]);
      }
    }
  }

  lemma WithoutRetryFacts(args: seq<string>)
    ensures forall i | 0 <= i < |WithoutRetry(args)| :: !IsRetry(WithoutRetry(args)[i]) && WithoutRetry(args)[i] in args
  {
  }

  /** A count behind the other tokens is parsed exactly when these neither stop the option loop nor leave an option waiting for its value. */
  lemma CountParsedExactlyWhen(rest: seq<string>, count: nat)
    requires 1 <= count < 0x8000_0000 && forall i | 0 <= i < |rest| :: !IsRetry(rest[i])
    ensures Parse(NO_OPTIONS, rest + [RetryToken(count)]).retryCount == count <==> ParsedToEnd(rest)
  {
    hide Parse, ParsedToEnd, Apply, ApplyToken, KindOf, RetryToken, Print, IsRetry, Equals, Plain, Name, Value;
    var t := RetryToken(count);
    RetryTokenCounts(count);
    NoRetryNoCount(NO_OPTIONS, rest);
    ParseAppend(NO_OPTIONS, rest, t);
    if !ParsedToEnd(rest) && Parse(NO_OPTIONS, rest + [t]) != Parse(NO_OPTIONS, rest) {
      var i :| 0 <= i < |rest| && TakesNext(rest[i])
               && Parse(NO_OPTIONS, rest + [t]) == Apply(Parse(NO_OPTIONS, rest), Name(rest[i]), t);
      NotRetryName(rest[i]);
      ApplyKeepsCount(Parse(NO_OPTIONS, rest), Name(rest[i]), t);
    }
  }

  lemma RetryTokenCounts(count: nat)
    requires count < 0x8000_0000
    ensures var t := RetryToken(count); t != "--" && !TakesNext(t) && forall o :: ApplyToken(o, t).retryCount == count
  {
    RetryTokenFacts(count);
  }

  lemma ApplyKeepsCount(o: Options, name: string, value: string)
    requires name != "retry_count"
    ensures Apply(o, name, value).retryCount == o.retryCount
  {
  }

  lemma CutWithoutRetry(args: seq<string>)
    ensures forall i | 0 <= i < |WithoutRetry(args)| :: !IsRetry(CutAll(WithoutRetry(args))[i])
  {
    WithoutRetryFacts(args);
  }

  lemma CutSetRetry(args: seq<string>, count: nat)
    requires count < 0x8000_0000
    ensures CutAll(SetRetry(args, count)) == CutAll(WithoutRetry(args)) + [RetryToken(count)]
  {
    RetryTokenFacts(count);
    CutPlain(RetryToken(count));
  }

  /** An option that waits for its value takes the count. */
  lemma CountTakenForValue(count: nat)
    requires 1 <= count < 0x8000_0000
    ensures var args := ["--locale"];
            && SetRetry(args, count) == ["--locale", RetryToken(count)]
            && Parse(NO_OPTIONS, SetRetry(args, count)).retryCount == 0
  {
    var locale, t := "--locale", RetryToken(count);
    LocaleWaits();
    assert [locale][1..] == [] && WithoutRetry([locale]) == [locale] + WithoutRetry([]);
    assert SetRetry([locale], count) == [locale, t] && [locale, t][2..] == [];
  }

  lemma LocaleWaits()
    ensures var l := "--locale"; TakesNext(l) && Name(l) == "locale" && !IsRetry(l)
  {
    var l := "--locale";
    assert l[2] != RETRY[2] && l[..2] == "--";
    var rest := l[2..];
    assert rest == "locale" && rest[..6] == rest;
    NoEquals(rest);
  }

  lemma {:induction false} NoEquals(s: string)
    requires '=' !in s
    ensures Equals(s) == |s|
  {
    if s != "" {
      NoEquals(s[1..]);
    }
  }
}
