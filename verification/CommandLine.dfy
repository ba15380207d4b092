/**
 recovery.cpp: what becomes of each single option, spelled out: when options are stored, when a retry stores them again,
 and when the next boot parses them.
 */
module CommandLine {
  import opened Machine
  import opened BootControl
  import Retries

  // ---------------------------------------------------------------- the text that is stored

  /** The field takes one more line, as far as there is room for it. */
  lemma OneMoreLine(options: seq<string>, x: string)
    requires AllPlain(options) && Plain(x)
    ensures Stored([]) == "recovery\n"
    ensures var s := Stored(options) + x + "\n";
            Stored(options + [x]) == if |s| < 768 then s else s[..767]
  {
    assert Body([]) == "" && "recovery\n" + "" == "recovery\n";
    TextOfMore(options, x);
    TextGrows(Text(options), x + "\n");
    hide Text, AllPlain, Plain;
    var s := Stored(options);
    assert s + x + "\n" == s + (x + "\n");
  }

  lemma TextOfMore(options: seq<string>, x: string)
    requires AllPlain(options) && Plain(x)
    ensures Text(options + [x]) == Text(options) + (x + "\n")
  {
    BodyIsLines(options);
    assert AllPlain(options + [x]);
    BodyIsLines(options + [x]);
    hide AllPlain, Plain, Body;
    Retries.LinesConcat(options, [x]);
    assert Lines([x]) == x + "\n" + Lines([x][1..]);
    var head, body, line := "recovery\n", Lines(options), x + "\n";
    hide Lines;
    assert head + (body + line) == (head + body) + line;
  }

  lemma TextGrows(text: string, line: string)
    ensures var s := (if |text| < 768 then text else text[..767]) + line;
            (if |s| < 768 then s else s[..767]) == if |text + line| < 768 then text + line else (text + line)[..767]
  {
  }

  // ---------------------------------------------------------------- the options that a retry stores

  /** A token that does not begin with --retry_count stays, at its place between what is kept of the others. */
  lemma KeptInPlace(a: seq<string>, x: string, b: seq<string>, count: nat)
    requires !("--retry_count" <= x)
    ensures var all, k := SetRetry(a + b, count), |SetRetry(a, count)| - 1;
            0 <= k < |all| && SetRetry(a + [x] + b, count) == all[..k] + [x] + all[k..]
  {
    var last := [RetryToken(count)];
    Retries.OneWithout(x);
    hide WithoutRetry, RetryToken, IsRetry;
    Retries.WithoutRetryAppend(a, b);
    Retries.WithoutRetryAppend(a + [x], b);
    Retries.WithoutRetryAppend(a, [x]);
    var wa, wb := WithoutRetry(a), WithoutRetry(b);
    assert wa + wb + last == wa + (wb + last);
    assert wa + [x] + wb + last == wa + [x] + (wb + last);
  }

  /** A token that begins with it is dropped. */
  lemma CountsDropped(a: seq<string>, x: string, b: seq<string>, count: nat)
    requires "--retry_count" <= x
    ensures SetRetry(a + [x] + b, count) == SetRetry(a + b, count)
  {
    assert WithoutRetry([x]) == WithoutRetry([x][1..]) == [];
    hide WithoutRetry, RetryToken, IsRetry;
    Retries.WithoutRetryAppend(a, b);
    Retries.WithoutRetryAppend(a + [x], b);
    Retries.WithoutRetryAppend(a, [x]);
    assert WithoutRetry(a) + [] == WithoutRetry(a);
  }

  /** One token begins with it in the end, the last one, which tells the count. */
  lemma OneCountLast(args: seq<string>, count: nat)
    ensures SetRetry([], count) == ["--retry_count=" + Print(count)]
    ensures var r := SetRetry(args, count); var n := |r| - 1;
            && n >= 0 && r[n] == "--retry_count=" + Print(count)
            && forall i | 0 <= i < n :: !("--retry_count" <= r[i])
  {
    WithoutRetryFacts(args);
    assert "--retry_count" + "=" == "--retry_count=";
    assert [] + [RetryToken(count)] == [RetryToken(count)];
  }

  /** How often a token that is not a count occurs does not change. */
  lemma {:induction false} OthersStay(args: seq<string>, count: nat, x: string)
    requires !("--retry_count" <= x)
    ensures multiset(SetRetry(args, count))[x] == multiset(args)[x]
  {
    if args == [] {
      OneCountLast([], count);
      assert "--retry_count" <= "--retry_count=" + Print(count);
    } else {
      OthersStay(args[1..], count, x);
      assert args == [args[0]] + args[1..];
      FirstOfSetRetry(args, count);
    }
  }

  lemma FirstOfSetRetry(args: seq<string>, count: nat)
    requires args != []
    ensures SetRetry(args, count) ==
            if "--retry_count" <= args[0] then SetRetry(args[1..], count) else [args[0]] + SetRetry(args[1..], count)
  {
    hide RetryToken;
    assert [args[0]] + WithoutRetry(args[1..]) + [RetryToken(count)] == [args[0]] + (WithoutRetry(args[1..]) + [RetryToken(count)]);
  }

  /** The count is printed in decimal without leading zeros, and so in one way only. */
  lemma {:induction false} PrintIsCanonical(s: string)
    requires Digits(s) && (|s| > 1 ==> s[0] != '0')
    ensures Print(DigitsValue(s)) == s
  {
    var n := |s| - 1;
    assert s == s[..n] + [s[n]];
    if n == 0 {
      assert DigitsValue(s[..n]) == 0;
      PrintDigit(0, s[n]);
    } else {
      PrintIsCanonical(s[..n]);
      ValueIsPositive(s[..n]);
      hide Print;
      PrintDigit(DigitsValue(s[..n]), s[n]);
    }
  }

  lemma PrintDigit(front: nat, last: char)
    requires '0' <= last <= '9'
    ensures Print(10 * front + (last - '0') as int) == if front == 0 then [last] else Print(front) + [last]
  {
    var n := 10 * front + (last - '0') as int;
    assert n / 10 == front && n % 10 == (last - '0') as int;
    assert '0' + (n % 10) as char == last;
  }

  lemma {:induction false} ValueIsPositive(s: string)
    requires Digits(s) && s[0] != '0'
    ensures DigitsValue(s) > 0
  {
    if |s| > 1 {
      ValueIsPositive(s[..|s| - 1]);
    }
  }

  lemma {:induction false} NoLeadingZero(n: nat)
    ensures n > 0 ==> Print(n)[0] != '0'
  {
    if n >= 10 {
      NoLeadingZero(n / 10);
    }
  }

  // ---------------------------------------------------------------- parsing

  /** The parts of "--name" and "--name=value" */
  lemma Spelled(name: string, value: string)
    requires '=' !in name && name != ""
    ensures var x := "--" + name;
            Long(x) && !HasValue(x) && Name(x) == name && x != "--"
    ensures var x := "--" + name + "=" + value;
            Long(x) && HasValue(x) && Name(x) == name && Value(x) == value && x != "--"
  {
    NoEquals(name);
    assert ("--" + name)[2..] == name && name[..|name|] == name;
    var rest := name + "=" + value;
    assert ("--" + name + "=" + value)[2..] == rest;
    assert rest[..|name|] == name;
    EqualsAt(rest, |name|);
    assert rest[|name| + 1..] == value;
  }

  /** --update_package and its value, in one token or in two */
  lemma ParsePackage(o: Options, value: string, rest: seq<string>)
    ensures Parse(o, ["--update_package", value] + rest) == Parse(o.(updatePackage := Some(value)), rest)
    ensures Parse(o, ["--update_package=" + value] + rest) == Parse(o.(updatePackage := Some(value)), rest)
  {
    assert "--" + "update_package" == "--update_package" && "--" + "update_package" + "=" + value == "--update_package=" + value;
    assert KindOf("update_package") == Required && Apply(o, "update_package", value) == o.(updatePackage := Some(value));
    ParseValue(o, "update_package", value, rest);
  }

  lemma ParseReason(o: Options, value: string, rest: seq<string>)
    ensures Parse(o, ["--reason", value] + rest) == Parse(o.(reason := Some(value)), rest)
    ensures Parse(o, ["--reason=" + value] + rest) == Parse(o.(reason := Some(value)), rest)
  {
    assert "--" + "reason" == "--reason" && "--" + "reason" + "=" + value == "--reason=" + value;
    assert KindOf("reason") == Required && Apply(o, "reason", value) == o.(reason := Some(value)) by {
      assert |"reason"| == 6 && |"update_package"| == 14 && |"wipe_data"| == 9;
    }
    ParseValue(o, "reason", value, rest);
  }

  lemma ParseCount(o: Options, count: nat, rest: seq<string>)
    requires count < 0x8000_0000
    ensures Parse(o, ["--retry_count", Print(count)] + rest) == Parse(o.(retryCount := count), rest)
    ensures Parse(o, ["--retry_count=" + Print(count)] + rest) == Parse(o.(retryCount := count), rest)
  {
    var value := Print(count);
    assert "--" + "retry_count" == "--retry_count" && "--" + "retry_count" + "=" + value == "--retry_count=" + value;
    assert KindOf("retry_count") == Required;
    PrintParse(count);
    RetryApplies(o, value, count);
    ParseValue(o, "retry_count", value, rest);
  }

  /** What an option that needs a value makes of it. */
  lemma ParseValue(o: Options, name: string, value: string, rest: seq<string>)
    requires '=' !in name && name != "" && KindOf(name) == Required
    ensures Parse(o, ["--" + name, value] + rest) == Parse(Apply(o, name, value), rest)
    ensures Parse(o, ["--" + name + "=" + value] + rest) == Parse(Apply(o, name, value), rest)
  {
    hide KindOf, Apply, Name, HasValue, Value, Long;
    Spelled(name, value);
    var two := ["--" + name, value] + rest;
    assert two[0] == "--" + name && two[1] == value && two[2..] == rest;
    var one := ["--" + name + "=" + value] + rest;
    assert one[0] == "--" + name + "=" + value && one[1..] == rest;
  }

  /** --wipe_data takes no value, and is not accepted with one. */
  lemma ParseWipe(o: Options, value: string, rest: seq<string>)
    ensures Parse(o, ["--wipe_data"] + rest) == Parse(o.(wipeData := true), rest)
    ensures Parse(o, ["--wipe_data=" + value] + rest) == Parse(o, rest)
  {
    assert "--" + "wipe_data" == "--wipe_data" && "--" + "wipe_data" + "=" + value == "--wipe_data=" + value;
    assert KindOf("wipe_data") == NoArgument;
    assert Apply(o, "wipe_data", "") == o.(wipeData := true) by {
      assert |"wipe_data"| == 9 && |"update_package"| == 14;
    }
    ParseFlag(o, "wipe_data", value, rest);
  }

  /** The other options without a value are of no concern here. */
  lemma ParseOtherFlag(o: Options, name: string, value: string, rest: seq<string>)
    requires name in {"wipe_cache", "show_text", "sideload", "sideload_auto_reboot", "just_exit",
                      "shutdown_after", "security", "wipe_ab", "prompt_and_wipe_data"}
    ensures Parse(o, ["--" + name] + rest) == Parse(o, rest)
    ensures Parse(o, ["--" + name + "=" + value] + rest) == Parse(o, rest)
  {
    FlagNames(name);
    assert Apply(o, name, "") == o;
    ParseFlag(o, name, value, rest);
  }

  lemma FlagNames(name: string)
    requires name in {"wipe_cache", "show_text", "sideload", "sideload_auto_reboot", "just_exit",
                      "shutdown_after", "security", "wipe_ab", "prompt_and_wipe_data"}
    ensures KindOf(name) == NoArgument && '=' !in name && name != ""
    ensures name != "update_package" && name != "wipe_data" && name != "reason" && name != "retry_count"
  {
  }

  lemma ParseFlag(o: Options, name: string, value: string, rest: seq<string>)
    requires '=' !in name && name != "" && KindOf(name) == NoArgument
    ensures Parse(o, ["--" + name] + rest) == Parse(Apply(o, name, ""), rest)
    ensures Parse(o, ["--" + name + "=" + value] + rest) == Parse(o, rest)
  {
    hide KindOf, Apply, Name, HasValue, Value, Long;
    Spelled(name, value);
    assert (["--" + name] + rest)[0] == "--" + name && (["--" + name] + rest)[1..] == rest;
    var one := ["--" + name + "=" + value] + rest;
    assert one[0] == "--" + name + "=" + value && one[1..] == rest;
  }

  /** The two that need a value take it along. */
  lemma ParseOtherValue(o: Options, name: string, value: string, rest: seq<string>)
    requires name == "locale" || name == "wipe_package_size"
    ensures Parse(o, ["--" + name, value] + rest) == Parse(o, rest)
    ensures Parse(o, ["--" + name + "=" + value] + rest) == Parse(o, rest)
  {
    assert KindOf(name) == Required && '=' !in name && name != "";
    assert Apply(o, name, value) == o by {
      assert |"locale"| == 6 && |"wipe_package_size"| == 17 && |"update_package"| == 14 && |"wipe_data"| == 9;
      assert |"reason"| == 6 && |"retry_count"| == 11 && "locale"[0] == 'l' && "reason"[0] == 'r';
    }
    ParseValue(o, name, value, rest);
  }

  /** A lone "--" ends the options, and what does not begin with it is passed over. */
  lemma ParseRest(o: Options, x: string, rest: seq<string>)
    ensures Parse(o, []) == o && Parse(o, ["--"] + rest) == o
    ensures !("--" <= x) ==> Parse(o, [x] + rest) == Parse(o, rest)
  {
    assert ([x] + rest)[1..] == rest;
  }
}
