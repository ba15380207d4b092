/** recovery.cpp: get_args and set_retry_bootloader_message as they build their argument vectors. */
module BootProgram {
  import opened BootControl
  import opened Recovery
  import CommandLine

  /** The loops that append the usable tokens of the control block or the command file to `args`. */
  method AppendKept(args: seq<string>, tokens: seq<string>) returns (all: seq<string>)
    ensures all == args + Kept(tokens)
  {
    all := args;
    var i := 0;
    while i < |tokens|
      invariant i <= |tokens|
      invariant all + Kept(tokens[i..]) == args + Kept(tokens)
    {
      assert tokens[i..][1..] == tokens[i + 1..];
      if tokens[i] != "" && tokens[i][0] != '\0' {
        all := all + [tokens[i]];
      }
      i := i + 1;
    }
  }

  /** get_args without command line arguments: the arguments, and the control block it leaves. */
  method ReadArgs(env: Env, d: Device) returns (args: seq<string>, bcb: Bcb)
    ensures args == GetArgs(env, d)
    ensures bcb == Bcb(true, Stored(args[1..]))
  {
    args := [env.exe];
    var tokens := Split("", d.bcb.recovery);
    if tokens[0] == "recovery" {
      args := AppendKept(args, tokens[1..]);
    }
    if |args| == 1 && env.hasCache && d.commandFile.Some? {
      args := AppendKept(args, Split("", d.commandFile.value));
    }
    bcb := Bcb(true, Stored(args[1..]));
  }

  /** The loop of set_retry_bootloader_message. */
  method RetryOptions(args: seq<string>, count: nat) returns (options: seq<string>)
    ensures options == SetRetry(args, count)
    ensures forall x: string | !("--retry_count" <= x) :: multiset(options)[x] == multiset(args)[x]
  {
    options := [];
    var i := 0;
    while i < |args|
      invariant i <= |args|
      invariant options + WithoutRetry(args[i..]) == WithoutRetry(args)
    {
      assert args[i..][1..] == args[i + 1..];
      if !(RETRY <= args[i]) {
        options := options + [args[i]];
      }
      i := i + 1;
    }
    options := options + [RetryToken(count)];
    forall x: string | !("--retry_count" <= x)
      ensures multiset(SetRetry(args, count))[x] == multiset(args)[x]
    {
      CommandLine.OthersStay(args, count, x);
    }
  }
}
