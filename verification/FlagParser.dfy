/**
 partition.cpp, Process_TW_Flags: a flag list such as `display="A;B";backup=1` is cut into tokens, and
 every token is looked up in a table of flag names.
 */
module FlagParser {
  import opened CText

  /** A name with a trailing '=' takes an argument; any other is a dual format flag. */
  datatype Entry = Entry(name: string, flag: int)

  /** What becomes of one token: a call of Apply_TW_Flag, a message about a missing argument, or "Unhandled flag". */
  datatype Outcome = Apply(flag: int, text: string, val: bool) | MissingArgument(name: string) | Unhandled(token: string)

  predicate Dual(e: Entry)
    requires e.name != ""
  {
    e.name[|e.name| - 1] != '='
  }

  function Stem(e: Entry): string
    requires e.name != ""
  {
    if Dual(e) then e.name else e.name[..|e.name| - 1]
  }

  predicate GoodEntry(e: Entry) {
    e.name != "" && '=' !in Stem(e)
  }

  /** No two entries differ only in the trailing '='. */
  predicate GoodTable(table: seq<Entry>) {
    && (forall k | 0 <= k < |table| :: GoodEntry(table[k]))
    && (forall j, k | 0 <= j < k < |table| :: Stem(table[j]) != Stem(table[k]))
  }

  // ---------------------------------------------------------------- one token

  /** What a token names: the part in front of the first '='. */
  function TokenStem(token: string): (r: string)
    ensures r <= token && '=' !in r
    ensures |r| < |token| ==> token[|r|] == '='
  {
    if token == "" || token[0] == '=' then "" else [token[0]] + TokenStem(token[1..])
  }

  /** strncmp succeeds and the loop does not go on to the next entry. */
  predicate Selects(e: Entry, token: string)
    requires e.name != ""
  {
    e.name <= token && !(|token| > |e.name| && Dual(e) && token[|e.name|] != '=')
  }

  function StripQuotes(s: string): string {
    var t := if s != "" && s[0] == '\"' then s[1..] else s;
    if t != "" && t[|t| - 1] == '\"' then t[..|t| - 1] else t
  }

  predicate IsYes(c: char) {
    c == 'y' || c == 'Y' || c == '1'
  }

  /** The branches for the entry that is selected */
  function Answer(e: Entry, token: string): Outcome
    requires e.name != "" && Selects(e, token)
  {
    var n := |e.name|;
    if |token| > n && token[n] == '=' then
      var arg := StripQuotes(token[n + 1..]);
      if arg == "" then MissingArgument(e.name) else Apply(e.flag, arg, IsYes(arg[0]))
    else if |token| == n then
      if Dual(e) then Apply(e.flag, token, true) else MissingArgument(e.name)
    else
      var arg := StripQuotes(token[n..]);
      if arg == "" then MissingArgument(e.name) else Apply(e.flag, arg, false)
  }

  /** The first entry that is selected, or the end of the table */
  function First(table: seq<Entry>, token: string): (k: nat)
    requires forall i | 0 <= i < |table| :: table[i].name != ""
    ensures k <= |table| && (k < |table| ==> Selects(table[k], token))
    ensures forall i | 0 <= i < k :: !Selects(table[i], token)
  {
    if table == [] || Selects(table[0], token) then 0 else 1 + First(table[1..], token)
  }

  function TokenOutcome(table: seq<Entry>, token: string): Outcome
    requires forall i | 0 <= i < |table| :: table[i].name != ""
  {
    var k := First(table, token);
    if k < |table| then Answer(table[k], token) else Unhandled(token)
  }

  /** An entry is selected when the token names it, and has an '=' if the entry has one. */
  lemma SelectsExactlyWhen(e: Entry, token: string)
    requires GoodEntry(e)
    ensures Selects(e, token) <==> Stem(e) == TokenStem(token) && (Dual(e) || '=' in token)
  {
    var s, t := Stem(e), TokenStem(token);
    assert Dual(e) || e.name == s + "=";
    assert t == token[..|t|];
    if s <= token && (|token| > |s| ==> token[|s|] == '=') {
      assert s == token[..|s|];
      SamePlace(token, '=', |s|, |t|);
    }
    if Selects(e, token) {
      assert s <= token;
      assert !Dual(e) ==> token[|s|] == '=' && token[|s|] in token;
    }
    if s == t && (Dual(e) || '=' in token) {
      assert |t| == |token| ==> token == t;
      assert Selects(e, token);
    }
  }

  /** At most one entry is selected. */
  lemma OneEntry(table: seq<Entry>, token: string, j: nat, k: nat)
    requires GoodTable(table) && j < |table| && k < |table| && Selects(table[j], token) && Selects(table[k], token)
    ensures j == k
  {
    SelectsExactlyWhen(table[j], token);
    SelectsExactlyWhen(table[k], token);
  }

  lemma SelectedInBoth(t1: seq<Entry>, t2: seq<Entry>, token: string)
    requires GoodTable(t1) && GoodTable(t2) && forall e :: e in t1 <==> e in t2
    requires First(t1, token) < |t1|
    ensures First(t2, token) < |t2| && t1[First(t1, token)] == t2[First(t2, token)]
  {
    var i := First(t1, token);
    assert t1[i] in t2;
    var j :| 0 <= j < |t2| && t2[j] == t1[i];
    OneEntry(t2, token, j, First(t2, token));
  }

  /** Tables with the same entries treat every token alike, in whatever order the entries stand. */
  lemma TableOrderIsIrrelevant(t1: seq<Entry>, t2: seq<Entry>, token: string)
    requires GoodTable(t1) && GoodTable(t2) && forall e :: e in t1 <==> e in t2
    ensures TokenOutcome(t1, token) == TokenOutcome(t2, token)
  {
    if First(t1, token) < |t1| {
      SelectedInBoth(t1, t2, token);
    }
    if First(t2, token) < |t2| {
      SelectedInBoth(t2, t1, token);
    }
  }

  // ---------------------------------------------------------------- tokens

  function Toggled(c: char, skip: bool): bool {
    if c == '\"' then !skip else skip
  }

  /** Separators outside of double quotes become newlines. */
  function Separated(s: string, sep: char, skip: bool): (r: string)
    ensures |r| == |s|
  {
    if s == "" then ""
    else
      var skip' := Toggled(s[0], skip);
      [if !skip' && s[0] == sep then '\n' else s[0]] + Separated(s[1..], sep, skip')
  }

  /** Inside of quotes after s, having been so before it or not */
  function Quoted(s: string, skip: bool): bool {
    if s == "" then skip else Quoted(s[1..], Toggled(s[0], skip))
  }

  function LineEnd(s: string): (k: nat)
    ensures k <= |s| && '\n' !in s[..k] && (k < |s| ==> s[k] == '\n')
  {
    if s == "" || s[0] == '\n' then 0
    else
      var k := 1 + LineEnd(s[1..]);
      assert s[..k] == [s[0]] + s[1..][..k - 1];
      k
  }

  /** What strtok_r returns, call after call */
  function Tokens(s: string): seq<string>
    decreases |s|
  {
    if s == "" then []
    else if s[0] == '\n' then Tokens(s[1..])
    else [s[..LineEnd(s)]] + Tokens(s[LineEnd(s)..])
  }

  function Outcomes(table: seq<Entry>, tokens: seq<string>): (r: seq<Outcome>)
    requires forall i | 0 <= i < |table| :: table[i].name != ""
    ensures |r| == |tokens| && forall k | 0 <= k < |r| :: r[k] == TokenOutcome(table, tokens[k])
  {
    seq(|tokens|, k requires 0 <= k < |tokens| => TokenOutcome(table, tokens[k]))
  }

  function Separator(fstabVer: int): char {
    if fstabVer == 2 then ',' else ';'
  }

  /** The tokens joined with a separator */
  function Joined(tokens: seq<string>, sep: char): string {
    if tokens == [] then "" else if |tokens| == 1 then tokens[0] else tokens[0] + [sep] + Joined(tokens[1..], sep)
  }

  /** A token that has its separators inside of quotes, and closes every quote */
  predicate Whole(token: string, sep: char) {
    token != "" && '\n' !in token && Separated(token, sep, false) == token && !Quoted(token, false)
  }

  lemma {:induction false} SeparatedConcat(a: string, b: string, sep: char, skip: bool)
    ensures Separated(a + b, sep, skip) == Separated(a, sep, skip) + Separated(b, sep, Quoted(a, skip))
    ensures Quoted(a + b, skip) == Quoted(b, Quoted(a, skip))
    decreases |a|
  {
    if a == "" {
      assert a + b == b;
    } else {
      assert (a + b)[1..] == a[1..] + b && (a + b)[0] == a[0];
      var skip' := Toggled(a[0], skip);
      SeparatedConcat(a[1..], b, sep, skip');
      var c := if !skip' && a[0] == sep then '\n' else a[0];
      var x, y := Separated(a[1..], sep, skip'), Separated(b, sep, Quoted(a, skip));
      assert Separated(a + b, sep, skip) == [c] + (x + y);
      assert [c] + (x + y) == ([c] + x) + y;
    }
  }

  lemma {:induction false} JoinedSeparates(tokens: seq<string>, sep: char)
    requires sep != '\"' && forall k | 0 <= k < |tokens| :: Whole(tokens[k], sep)
    ensures Separated(Joined(tokens, sep), sep, false) == Joined(tokens, '\n')
    decreases |tokens|
  {
    if |tokens| > 1 {
      var rest := Joined(tokens[1..], sep);
      JoinedSeparates(tokens[1..], sep);
      assert tokens[0] + [sep] + rest == tokens[0] + ([sep] + rest);
      SeparatedConcat(tokens[0], [sep] + rest, sep, false);
      assert ([sep] + rest)[1..] == rest;
    }
  }

  lemma LineEndIs(token: string, rest: string)
    requires '\n' !in token && (rest == "" || rest[0] == '\n')
    ensures LineEnd(token + rest) == |token|
  {
    var s := token + rest;
    assert s[..|token|] == token;
    SamePlace(s, '\n', |token|, LineEnd(s));
  }

  lemma {:induction false} TokensOfJoined(tokens: seq<string>)
    requires forall k | 0 <= k < |tokens| :: tokens[k] != "" && '\n' !in tokens[k]
    ensures Tokens(Joined(tokens, '\n')) == tokens
    decreases |tokens|
  {
    if tokens != [] {
      var rest := if |tokens| == 1 then "" else "\n" + Joined(tokens[1..], '\n');
      var s := tokens[0] + rest;
      assert s == Joined(tokens, '\n');
      TokensOfJoined(tokens[1..]);
      LineEndIs(tokens[0], rest);
      assert s[0] == tokens[0][0] && tokens[0][0] in tokens[0];
      assert s[..|tokens[0]|] == tokens[0] && s[|tokens[0]|..] == rest;
      assert tokens == [tokens[0]] + tokens[1..];
      if |tokens| > 1 {
        assert rest[1..] == Joined(tokens[1..], '\n');
      }
    }
  }

  /** Cutting up a printed list gives the tokens that were printed. */
  lemma TokensRoundTrip(tokens: seq<string>, sep: char)
    requires sep != '\"' && forall k | 0 <= k < |tokens| :: Whole(tokens[k], sep)
    ensures Tokens(Separated(Joined(tokens, sep), sep, false)) == tokens
  {
    JoinedSeparates(tokens, sep);
    TokensOfJoined(tokens);
  }

  // ---------------------------------------------------------------- printing flags

  datatype Flag = Bare(name: string) | Valued(name: string, value: string) | Unquoted(name: string, value: string)

  predicate PlainName(name: string, sep: char) {
    name != "" && forall c | c in name :: c != '=' && c != '\"' && c != '\n' && c != '\0' && c != sep
  }

  predicate PlainFlag(f: Flag, sep: char) {
    && PlainName(f.name, sep)
    && (!f.Bare? ==> '\"' !in f.value && '\n' !in f.value && '\0' !in f.value)
    && (f.Unquoted? ==> sep !in f.value && (f.value != "" ==> f.value[0] != '='))
  }

  function Printed(f: Flag): string {
    match f
    case Bare(name) => name
    case Valued(name, value) => name + "=\"" + value + "\""
    case Unquoted(name, value) => name + "=" + value
  }

  function PrintedAll(fs: seq<Flag>): (r: seq<string>)
    ensures |r| == |fs| && forall k | 0 <= k < |r| :: r[k] == Printed(fs[k])
  {
    seq(|fs|, k requires 0 <= k < |fs| => Printed(fs[k]))
  }

  /** A plain piece of text is not changed; quotes around it keep even the separators. */
  lemma {:induction false} PlainText(s: string, sep: char, skip: bool)
    requires '\"' !in s && (skip || sep !in s)
    ensures Separated(s, sep, skip) == s && Quoted(s, skip) == skip
    decreases |s|
  {
    if s != "" {
      PlainText(s[1..], sep, skip);
      assert s[0] in s;
      assert s == [s[0]] + s[1..];
    }
  }

  lemma PrintedIsWhole(f: Flag, sep: char)
    requires PlainFlag(f, sep) && sep != '\"' && sep != '=' && sep != '\n'
    ensures Whole(Printed(f), sep)
  {
    hide Separated, Quoted;
    PlainText(f.name, sep, false);
    match f {
      case Bare(_) =>
      case Valued(name, value) =>
        var tail := "=\"" + (value + "\"");
        QuotedTail(value, sep);
        WholeOfParts(name, tail, sep);
        assert Printed(f) == name + tail;
      case Unquoted(name, value) =>
        PlainText("=" + value, sep, false);
        WholeOfParts(name, "=" + value, sep);
        assert Printed(f) == name + ("=" + value);
    }
  }

  lemma WholeOfParts(a: string, b: string, sep: char)
    requires a != "" && '\n' !in a && '\n' !in b
    requires Separated(a, sep, false) == a && !Quoted(a, false) && Separated(b, sep, false) == b && !Quoted(b, false)
    ensures Whole(a + b, sep)
  {
    SeparatedConcat(a, b, sep, false);
    hide Separated, Quoted;
  }

  lemma QuotedTail(value: string, sep: char)
    requires '\"' !in value && sep != '\"' && sep != '='
    ensures var t := "=\"" + (value + "\""); Separated(t, sep, false) == t && !Quoted(t, false)
  {
    PlainText(value, sep, true);
    var q, open := "\"", "=\"";
    SeparatedConcat(value, q, sep, true);
    assert q[1..] == "" && Quoted(q, true) == Quoted("", false) && Separated(q, sep, true) == q + Separated("", sep, false);
    SeparatedConcat(open, value + q, sep, false);
    assert open[1..] == q && Quoted(q, false) == Quoted("", true);
    assert Separated(q, sep, false) == q + Separated("", sep, true);
    assert Separated(open, sep, false) == ['='] + Separated(q, sep, false);
  }

  /** The entry for a name, by its stem */
  function EntryFor(table: seq<Entry>, stem: string): (k: nat)
    requires forall i | 0 <= i < |table| :: table[i].name != ""
    ensures k <= |table| && (k < |table| ==> Stem(table[k]) == stem)
    ensures k == |table| ==> forall i | 0 <= i < |table| :: Stem(table[i]) != stem
  {
    if table == [] || Stem(table[0]) == stem then 0 else 1 + EntryFor(table[1..], stem)
  }

  /** What a flag asks for */
  function Meaning(table: seq<Entry>, f: Flag): Outcome
    requires forall i | 0 <= i < |table| :: table[i].name != ""
  {
    var k := EntryFor(table, f.name);
    if k == |table| || (f.Bare? && !Dual(table[k])) then Unhandled(Printed(f))
    else if f.Bare? then Apply(table[k].flag, f.name, true)
    else if f.value == "" then MissingArgument(table[k].name)
    else Apply(table[k].flag, f.value, Dual(table[k]) && f.value[0] in {'y', 'Y', '1'})
  }

  lemma PrintedStem(f: Flag, sep: char)
    requires PlainFlag(f, sep)
    ensures TokenStem(Printed(f)) == f.name && ('=' in Printed(f) <==> !f.Bare?)
  {
    var p, t := Printed(f), TokenStem(Printed(f));
    assert p[..|f.name|] == f.name;
    assert p[..|t|] == t;
    assert !f.Bare? ==> p[|f.name|] == '=' && p[|f.name|] in p;
    SamePlace(p, '=', |f.name|, |t|);
  }

  /** The entry for a printed flag's name is the one that is selected. */
  lemma PrintedSelects(table: seq<Entry>, f: Flag, sep: char)
    requires GoodTable(table) && PlainFlag(f, sep)
    ensures var k := EntryFor(table, f.name);
            First(table, Printed(f)) == if k < |table| && (Dual(table[k]) || !f.Bare?) then k else |table|
  {
    var i, k := First(table, Printed(f)), EntryFor(table, f.name);
    hide Printed, PlainFlag, Selects, Dual, Stem;
    if i < |table| {
      PrintedSelectsEntry(table[i], f, sep);
    }
    if k < |table| {
      PrintedSelectsEntry(table[k], f, sep);
    }
  }

  lemma PrintedSelectsEntry(e: Entry, f: Flag, sep: char)
    requires GoodEntry(e) && PlainFlag(f, sep)
    ensures Selects(e, Printed(f)) <==> Stem(e) == f.name && (Dual(e) || !f.Bare?)
  {
    PrintedStem(f, sep);
    SelectsExactlyWhen(e, Printed(f));
  }

  lemma PrintedAnswer(e: Entry, f: Flag)
    requires GoodEntry(e) && Stem(e) == f.name && (Dual(e) || !f.Bare?) && Selects(e, Printed(f))
    requires !f.Bare? ==> '\"' !in f.value
    requires f.Unquoted? && f.value != "" ==> f.value[0] != '='
    ensures Answer(e, Printed(f))
         == if f.Bare? then Apply(e.flag, f.name, true)
            else if f.value == "" then MissingArgument(e.name)
            else Apply(e.flag, f.value, Dual(e) && f.value[0] in {'y', 'Y', '1'})
  {
    assert f.Bare? ==> Printed(f) == f.name;
    hide StripQuotes, Selects, Printed;
    match f {
      case Bare(_) =>
      case Valued(_, value) =>
        NoQuoteAtEnds(value);
        StripQuotesFacts(value);
        PrintedParts(f);
        AnswerWithValue(e, Printed(f), "\"" + value + "\"", value);
      case Unquoted(name, value) =>
        NoQuoteAtEnds(value);
        StripQuotesFacts(value);
        UnquotedParts(f);
        AnswerWithValue(e, Printed(f), value, value);
    }
  }

  /** The answer for a token that has an '=' behind the name */
  lemma AnswerWithValue(e: Entry, token: string, rest: string, value: string)
    requires GoodEntry(e) && Selects(e, token) && StripQuotes(rest) == value
    requires var n := |Stem(e)|; |token| > n && token[n] == '=' && token[n + 1..] == rest
    requires rest == "" ==> value == ""
    requires rest != "" ==> rest[0] != '='
    ensures Answer(e, token) ==
            if value == "" then MissingArgument(e.name) else Apply(e.flag, value, Dual(e) && value[0] in {'y', 'Y', '1'})
  {
    hide StripQuotes, Selects;
    assert |e.name| == if Dual(e) then |Stem(e)| else |Stem(e)| + 1;
  }

  /** Behind the '=' of a name that ends in one, a second '=' is lost. */
  lemma SecondEqualsIsLost(e: Entry, value: string)
    requires GoodEntry(e) && !Dual(e) && value != "" && value[0] != '\"' && value[|value| - 1] != '\"'
    ensures var token := e.name + "=" + value;
            Selects(e, token) && Answer(e, token) == Apply(e.flag, value, value[0] in {'y', 'Y', '1'})
  {
    var token, n := e.name + "=" + value, |e.name|;
    assert token[..n] == e.name && token[n] == '=' && token[n + 1..] == value;
    StripQuotesFacts(value);
    hide StripQuotes;
  }

  lemma UnquotedParts(f: Flag)
    requires f.Unquoted?
    ensures var p, n := Printed(f), |f.name|;
            |p| > n && p[n] == '=' && p[n + 1..] == f.value
  {
    assert Printed(f) == f.name + ("=" + f.value);
  }

  lemma NoQuoteAtEnds(value: string)
    requires '\"' !in value
    ensures value != "" ==> value[0] != '\"' && value[|value| - 1] != '\"'
  {
    assert value != "" ==> value[0] in value && value[|value| - 1] in value;
  }

  /** One quote is taken off at either end, if there is one. */
  lemma StripQuotesFacts(value: string)
    requires value != "" ==> value[0] != '\"' && value[|value| - 1] != '\"'
    ensures StripQuotes(value) == value && StripQuotes("\"" + value + "\"") == value
    ensures StripQuotes("\"" + value) == value && StripQuotes(value + "\"") == value
  {
    var front, back, both := "\"" + value, value + "\"", "\"" + value + "\"";
    assert front[1..] == value && both[1..] == back && back[..|value|] == value;
    assert value == "" ==> back[1..] == "";
  }

  lemma PrintedParts(f: Flag)
    requires f.Valued?
    ensures var p, n := Printed(f), |f.name|;
            |p| > n + 2 && p[n] == '=' && p[n + 1] == '\"' && p[n + 1..] == "\"" + f.value + "\""
  {
    assert Printed(f) == f.name + ("=" + ("\"" + f.value + "\""));
  }

  /** The outcome for a printed flag is what the flag asks for. */
  lemma PrintedOutcome(table: seq<Entry>, f: Flag, sep: char)
    requires GoodTable(table) && PlainFlag(f, sep)
    ensures TokenOutcome(table, Printed(f)) == Meaning(table, f)
  {
    hide Printed, Answer, Stem, Selects;
    PrintedSelects(table, f, sep);
    var k := EntryFor(table, f.name);
    if k < |table| && (Dual(table[k]) || !f.Bare?) {
      PrintedAnswer(table[k], f);
    }
  }

  /**
   A printed list of flags, with commas between them in version 2 and semicolons in version 1, brings about what the
   flags ask for, one after the other.
   */
  lemma FlagsRoundTrip(table: seq<Entry>, fs: seq<Flag>, fstabVer: int)
    requires GoodTable(table) && forall k | 0 <= k < |fs| :: PlainFlag(fs[k], if fstabVer == 2 then ',' else ';')
    ensures var text := Joined(PrintedAll(fs), if fstabVer == 2 then ',' else ';');
            Outcomes(table, Tokens(Separated(text, Separator(fstabVer), false)))
              == seq(|fs|, k requires 0 <= k < |fs| => Meaning(table, fs[k]))
  {
    var sep := Separator(fstabVer);
    var tokens := PrintedAll(fs);
    forall k | 0 <= k < |fs|
      ensures Whole(tokens[k], sep) && TokenOutcome(table, tokens[k]) == Meaning(table, fs[k])
    {
      PrintedIsWhole(fs[k], sep);
      PrintedOutcome(table, fs[k], sep);
    }
    TokensRoundTrip(tokens, sep);
  }
}
