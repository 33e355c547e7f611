// src/client/Main.cpp: splitting a line into tokens, finding the command, and the handlers of add,
// client send-msg and chat join.

module Cli {
  import opened Bytes
  import opened Numbers
  import opened NumParser
  import opened Protocol
  import opened Addition
  import opened RoomSafety

  // ------------------------------------------------ tokenize

  /** isspace in the C locale: blank, and the control characters 9 to 13. */
  predicate IsSpace(c: char): (space: bool)
    ensures space <==> c as int == 32 || 9 <= c as int <= 13
  {
    c == ' ' || c == '\t' || c == '\n' || c == '\U{B}' || c == '\U{C}' || c == '\r'
  }

  predicate IsToken(s: string) {
    |s| > 0 && forall k :: 0 <= k < |s| ==> !IsSpace(s[k])
  }

  predicate AllTokens(args: seq<string>) {
    forall k :: 0 <= k < |args| ==> IsToken(args[k])
  }

  /** The length of the word at the start of the line. */
  function WordLength(line: string): (n: nat)
    ensures n <= |line| && (forall k :: 0 <= k < n ==> !IsSpace(line[k])) && (n < |line| ==> IsSpace(line[n]))
  {
    if |line| == 0 || IsSpace(line[0]) then 0 else 1 + WordLength(line[1..])
  }

  function Tokens(line: string): seq<string> {
    if |line| == 0 then []
    else if IsSpace(line[0]) then Tokens(line[1..])
    else [line[..WordLength(line)]] + Tokens(line[WordLength(line)..])
  }

  lemma SpaceSkipped(line: string, pos: nat)
    requires pos < |line| && IsSpace(line[pos])
    ensures Tokens(line[pos..]) == Tokens(line[pos + 1..])
  {
    assert line[pos..][1..] == line[pos + 1..];
  }

  lemma WordSplit(line: string, pos: nat, end: nat)
    requires pos < end <= |line| && (forall k :: pos <= k < end ==> !IsSpace(line[k]))
    requires end < |line| ==> IsSpace(line[end])
    ensures Tokens(line[pos..]) == [line[pos..end]] + Tokens(line[end..])
  {
    WordEnds(line[pos..], end - pos);
    assert line[pos..][..end - pos] == line[pos..end] && line[pos..][end - pos..] == line[end..];
  }

  method Tokenize(line: string) returns (tokens: seq<string>)
    ensures tokens == Tokens(line)
  {
    tokens := [];
    var pos := 0;
    while pos < |line|
      invariant pos <= |line|
      invariant tokens + Tokens(line[pos..]) == Tokens(line)
    {
      if IsSpace(line[pos]) {
        SpaceSkipped(line, pos);
        pos := pos + 1;
      } else {
        var end := pos + 1;
        while end < |line| && !IsSpace(line[end])
          invariant pos < end <= |line|
          invariant forall k :: pos <= k < end ==> !IsSpace(line[k])
        {
          end := end + 1;
        }
        WordSplit(line, pos, end);
        Associative(tokens, [line[pos..end]], Tokens(line[end..]));
        tokens := tokens + [line[pos..end]];
        pos := end;
      }
    }
  }

  lemma WordEnds(line: string, n: nat)
    requires n <= |line| && (forall k :: 0 <= k < n ==> !IsSpace(line[k])) && (n < |line| ==> IsSpace(line[n]))
    ensures WordLength(line) == n
  {
  }

  lemma {:induction false} TokensAreTokens(line: string)
    ensures AllTokens(Tokens(line))
    decreases |line|
  {
    if |line| > 0 {
      TokensAreTokens(line[if IsSpace(line[0]) then 1 else WordLength(line)..]);
    }
  }

  // ------------------------------------------------ joining

  /** The tokens with a space between each two. */
  function Join(tokens: seq<string>): string {
    if |tokens| == 0 then ""
    else if |tokens| == 1 then tokens[0]
    else Join(tokens[..|tokens| - 1]) + " " + tokens[|tokens| - 1]
  }

  lemma WordTokens(t: string)
    requires IsToken(t)
    ensures Tokens(t) == [t]
  {
    WordEnds(t, |t|);
    assert t[..|t|] == t && t[|t|..] == "";
  }

  lemma {:induction false} TokensAppend(line: string, t: string)
    requires IsToken(t)
    ensures Tokens(line + " " + t) == Tokens(line) + [t]
    decreases |line|
  {
    var all := line + " " + t;
    if |line| == 0 {
      assert all[1..] == t;
      WordTokens(t);
    } else {
      var n := if IsSpace(line[0]) then 1 else WordLength(line);
      assert all[n..] == line[n..] + " " + t && all[..n] == line[..n];
      TokensAppend(line[n..], t);
      if !IsSpace(line[0]) {
        WordEnds(all, n);
        Associative([line[..n]], Tokens(line[n..]), [t]);
      }
    }
  }

  /** Joining and splitting again gives the tokens back. */
  lemma {:induction false} SplitJoined(tokens: seq<string>)
    requires AllTokens(tokens)
    ensures Tokens(Join(tokens)) == tokens
  {
    if |tokens| == 1 {
      WordTokens(tokens[0]);
    } else if |tokens| > 1 {
      SplitJoined(tokens[..|tokens| - 1]);
      TokensAppend(Join(tokens[..|tokens| - 1]), tokens[|tokens| - 1]);
    }
  }

  // ------------------------------------------------ lines as words between white space

  predicate AllSpace(s: string) {
    forall k :: 0 <= k < |s| ==> IsSpace(s[k])
  }

  /** Words and the gaps around them: any white space at both ends, and at least one character of it between words. */
  predicate IsSpaced(gaps: seq<string>, words: seq<string>) {
    && |gaps| == |words| + 1 && AllTokens(words)
    && (forall k :: 0 <= k < |gaps| ==> AllSpace(gaps[k]))
    && (forall k :: 0 < k < |words| ==> gaps[k] != "")
  }

  function Interleave(gaps: seq<string>, words: seq<string>): string
    requires |gaps| == |words| + 1
  {
    if |words| == 0 then gaps[0] else gaps[0] + words[0] + Interleave(gaps[1..], words[1..])
  }

  lemma {:induction false} TokensBehindSpace(gap: string, rest: string)
    requires AllSpace(gap)
    ensures Tokens(gap + rest) == Tokens(rest)
  {
    var all := gap + rest;
    if |gap| == 0 {
      assert all == rest;
    } else {
      assert all[0] == gap[0] && all[1..] == gap[1..] + rest;
      TokensBehindSpace(gap[1..], rest);
    }
  }

  lemma TokensOfWord(word: string, rest: string)
    requires IsToken(word) && (rest != "" ==> IsSpace(rest[0]))
    ensures Tokens(word + rest) == [word] + Tokens(rest)
  {
    var all := word + rest;
    WordEnds(all, |word|);
    assert all[0] == word[0] && all[..|word|] == word && all[|word|..] == rest;
  }

  /** Words are split off whatever white space surrounds them. */
  lemma {:induction false} TokensOfSpaced(gaps: seq<string>, words: seq<string>)
    requires IsSpaced(gaps, words)
    ensures Tokens(Interleave(gaps, words)) == words
    decreases |words|
  {
    if |words| == 0 {
      TokensBehindSpace(gaps[0], "");
      assert gaps[0] + "" == gaps[0];
    } else {
      var rest := Interleave(gaps[1..], words[1..]);
      SpacedRest(gaps, words);
      TokensOfSpaced(gaps[1..], words[1..]);
      TokensOfWord(words[0], rest);
      TokensBehindSpace(gaps[0], words[0] + rest);
      assert gaps[0] + (words[0] + rest) == gaps[0] + words[0] + rest;
      assert [words[0]] + words[1..] == words;
    }
  }

  lemma SpacedRest(gaps: seq<string>, words: seq<string>)
    requires IsSpaced(gaps, words) && |words| > 0
    ensures IsSpaced(gaps[1..], words[1..])
    ensures var rest := Interleave(gaps[1..], words[1..]); rest != "" ==> IsSpace(rest[0])
  {
    assert forall k :: 0 <= k < |words| ==> gaps[1..][k] == gaps[k + 1];
    assert forall k :: 0 <= k < |words| - 1 ==> words[1..][k] == words[k + 1];
    assert AllSpace(gaps[1]);
    if |words| > 1 { assert gaps[1] != ""; }
  }

  /** Every line consists of words and white space in this way, so its words are the only ones it can be split into. */
  lemma {:induction false} LineIsSpaced(line: string) returns (gaps: seq<string>)
    ensures IsSpaced(gaps, Tokens(line)) && Interleave(gaps, Tokens(line)) == line
    ensures line != "" && !IsSpace(line[0]) ==> gaps[0] == ""
    decreases |line|
  {
    if |line| == 0 {
      gaps := [""];
    } else if IsSpace(line[0]) {
      var rest := LineIsSpaced(line[1..]);
      gaps := [[line[0]] + rest[0]] + rest[1..];
      WiderGap(line, rest, gaps);
    } else {
      var n := WordLength(line);
      var rest := LineIsSpaced(line[n..]);
      gaps := [""] + rest;
      WordBefore(line, n, rest);
    }
  }

  lemma WiderGap(line: string, rest: seq<string>, gaps: seq<string>)
    requires line != "" && IsSpace(line[0])
    requires IsSpaced(rest, Tokens(line[1..])) && Interleave(rest, Tokens(line[1..])) == line[1..]
    requires gaps == [[line[0]] + rest[0]] + rest[1..]
    ensures IsSpaced(gaps, Tokens(line)) && Interleave(gaps, Tokens(line)) == line
  {
    var words := Tokens(line[1..]);
    assert gaps[1..] == rest[1..];
    assert AllSpace(gaps[0]) by { assert AllSpace(rest[0]); }
    assert forall k :: 0 < k < |gaps| ==> gaps[k] == rest[k];
    assert line == [line[0]] + line[1..];
    if |words| > 0 {
      var tail := Interleave(rest[1..], words[1..]);
      assert [line[0]] + (rest[0] + words[0] + tail) == ([line[0]] + rest[0]) + words[0] + tail;
    }
  }

  lemma WordBefore(line: string, n: nat, rest: seq<string>)
    requires line != "" && !IsSpace(line[0]) && n == WordLength(line)
    requires IsSpaced(rest, Tokens(line[n..])) && Interleave(rest, Tokens(line[n..])) == line[n..]
    ensures IsSpaced([""] + rest, Tokens(line)) && Interleave([""] + rest, Tokens(line)) == line
  {
    var word, words := line[..n], Tokens(line[n..]);
    if words != [] { GapBehindWord(line, n, rest); }
    PrependedSpaced(word, rest, words);
    PrependedLine(word, rest, words);
    assert word + line[n..] == line;
  }

  lemma PrependedSpaced(word: string, rest: seq<string>, words: seq<string>)
    requires IsToken(word) && IsSpaced(rest, words) && (words != [] ==> rest[0] != "")
    ensures IsSpaced([""] + rest, [word] + words)
  {
    var gaps, all := [""] + rest, [word] + words;
    forall k | 0 <= k < |gaps| ensures AllSpace(gaps[k]) {
      if k > 0 { assert gaps[k] == rest[k - 1]; }
    }
    forall k | 0 < k < |all| ensures gaps[k] != "" {
      assert gaps[k] == rest[k - 1];
    }
  }

  lemma PrependedLine(word: string, rest: seq<string>, words: seq<string>)
    requires |rest| == |words| + 1
    ensures Interleave([""] + rest, [word] + words) == word + Interleave(rest, words)
  {
    assert ([""] + rest)[1..] == rest && ([word] + words)[1..] == words;
    assert "" + word == word;
  }

  lemma WordComesFirst(gaps: seq<string>, words: seq<string>)
    requires IsSpaced(gaps, words) && |words| > 0
    ensures var line := Interleave(gaps, words); line != "" && (gaps[0] == "" ==> !IsSpace(line[0]))
  {
    assert IsToken(words[0]);
  }

  /** The word ends where white space begins. */
  lemma GapBehindWord(line: string, n: nat, rest: seq<string>)
    requires n == WordLength(line)
    requires IsSpaced(rest, Tokens(line[n..])) && Interleave(rest, Tokens(line[n..])) == line[n..]
    requires Tokens(line[n..]) != []
    ensures rest[0] != ""
  {
    WordComesFirst(rest, Tokens(line[n..]));
    assert line[n..][0] == line[n];
  }

  /** No gap at the ends and one space between each two words. */
  function SingleSpaces(words: seq<string>): seq<string> {
    seq(|words| + 1, k => if 0 < k < |words| then " " else "")
  }

  lemma {:induction false} InterleaveLast(gaps: seq<string>, words: seq<string>, gap: string, word: string)
    requires |gaps| == |words| + 1
    ensures Interleave(gaps + [gap], words + [word]) == Interleave(gaps, words) + word + gap
    decreases |words|
  {
    var gs, ws := gaps + [gap], words + [word];
    if |words| == 0 {
      assert gs[1..] == [gap] && ws[1..] == [];
    } else {
      assert gs[1..] == gaps[1..] + [gap] && ws[1..] == words[1..] + [word];
      InterleaveLast(gaps[1..], words[1..], gap, word);
      var tail := Interleave(gaps[1..], words[1..]);
      assert gaps[0] + words[0] + (tail + word + gap) == (gaps[0] + words[0] + tail) + word + gap;
    }
  }

  /** Joining puts one space between each two words. */
  lemma {:induction false} JoinIsSpaced(words: seq<string>)
    ensures Join(words) == Interleave(SingleSpaces(words), words)
  {
    if |words| == 1 {
      assert SingleSpaces(words) == ["", ""];
    } else if |words| > 1 {
      var last := |words| - 1;
      JoinIsSpaced(words[..last]);
      JoinOneMore(words[..last], words[last]);
      assert words == words[..last] + [words[last]];
    }
  }

  lemma SpacesOfMore(words: seq<string>, word: string)
    requires |words| > 0
    ensures var gaps := SingleSpaces(words)[..|words|];
            && SingleSpaces(words) == gaps + [""]
            && SingleSpaces(words + [word]) == (gaps + [" "]) + [""]
  {
  }

  lemma InterleaveMore(gaps: seq<string>, before: seq<string>, last: string, word: string)
    requires |gaps| == |before| + 1
    ensures Interleave((gaps + [" "]) + [""], (before + [last]) + [word])
         == Interleave(gaps + [""], before + [last]) + " " + word
  {
    InterleaveLast(gaps, before, "", last);
    InterleaveLast(gaps, before, " ", last);
    InterleaveLast(gaps + [" "], before + [last], "", word);
    MovedSpace(Interleave(gaps, before) + last, word);
  }

  lemma JoinOneMore(words: seq<string>, word: string)
    requires |words| > 0
    ensures Interleave(SingleSpaces(words + [word]), words + [word])
         == Interleave(SingleSpaces(words), words) + " " + word
  {
    SpacesOfMore(words, word);
    InterleaveSame(SingleSpaces(words)[..|words|], words, word, SingleSpaces(words), SingleSpaces(words + [word]));
  }

  lemma InterleaveSame(gaps: seq<string>, words: seq<string>, word: string, few: seq<string>, more: seq<string>)
    requires |gaps| == |words| > 0 && few == gaps + [""] && more == (gaps + [" "]) + [""]
    ensures Interleave(more, words + [word]) == Interleave(few, words) + " " + word
  {
    var n := |words| - 1;
    InterleaveMore(gaps, words[..n], words[n], word);
    assert words[..n] + [words[n]] == words;
  }

  lemma MovedSpace(s: string, word: string)
    ensures (s + " ") + word + "" == (s + "") + " " + word
  {
  }

  // ------------------------------------------------ the longest matching command

  /** The greatest k <= n such that the first k tokens spell a command, or 0. */
  function LongestPrefix(commands: set<string>, args: seq<string>, n: nat): (k: nat)
    requires n <= |args|
    ensures k <= n
    ensures k > 0 ==> Join(args[..k]) in commands
    ensures forall j :: k < j <= n ==> Join(args[..j]) !in commands
  {
    if n == 0 then 0 else if Join(args[..n]) in commands then n else LongestPrefix(commands, args, n - 1)
  }

  /** The first k tokens spell the command, the others are its arguments, and no longer prefix spells a command. */
  ghost predicate IsLongest(commands: set<string>, args: seq<string>, k: nat, command: string, rest: seq<string>) {
    && 0 < k <= |args| && command == Join(args[..k]) && rest == args[k..] && command in commands
    && forall j :: k < j <= |args| ==> Join(args[..j]) !in commands
  }

  ghost predicate NoCommand(commands: set<string>, args: seq<string>) {
    forall j :: 0 < j <= |args| ==> Join(args[..j]) !in commands
  }

  method FindCommand(commands: set<string>, args: seq<string>) returns (command: string, commandArgs: seq<string>)
    ensures if NoCommand(commands, args) then command == "" && commandArgs == []
            else exists k: nat :: IsLongest(commands, args, k, command, commandArgs)
    ensures var k := LongestPrefix(commands, args, |args|);
            if k == 0 then command == "" && commandArgs == []
            else command == Join(args[..k]) && commandArgs == args[k..]
  {
    ghost var n := LongestPrefix(commands, args, |args|);
    if n > 0 {
      assert IsLongest(commands, args, n, Join(args[..n]), args[n..]);
    }
    command, commandArgs := "", [];
    for i := 0 to |args|
      invariant var k := LongestPrefix(commands, args, i);
                if k == 0 then command == "" && commandArgs == []
                else command == Join(args[..k]) && commandArgs == args[k..]
    {
      var candidate := "";
      for j := 0 to i + 1
        invariant candidate == Join(args[..j])
      {
        assert args[..j + 1][..j] == args[..j];
        if j > 0 { candidate := candidate + " "; }
        candidate := candidate + args[j];
      }
      if candidate in commands {
        command := candidate;
        commandArgs := args[i + 1..];
      }
    }
  }

  /** The split into a command and its arguments is unique: no other prefix spells the same. */
  lemma UniqueSplit(args: seq<string>, j: nat, k: nat)
    requires AllTokens(args) && 0 < j <= |args| && 0 < k <= |args| && Join(args[..j]) == Join(args[..k])
    ensures j == k
  {
    SplitJoined(args[..j]);
    SplitJoined(args[..k]);
  }

  datatype Outcome = Ignored | Quit | UnknownCommand(first: string) | Run(command: string, args: seq<string>)

  /** One round of CLI::run. */
  method Interpret(commands: set<string>, line: string) returns (outcome: Outcome)
    ensures var args := Tokens(line);
            var quits := args != [] && (args[0] == "exit" || args[0] == "quit");
            && (outcome.Ignored? <==> args == [])
            && (outcome.Quit? <==> quits)
            && (outcome.UnknownCommand? <==> args != [] && !quits && NoCommand(commands, args))
            && (outcome.Run? <==> !quits && !NoCommand(commands, args))
            && (outcome.UnknownCommand? ==> outcome.first == args[0])
            && (outcome.Run? ==> exists k: nat :: IsLongest(commands, args, k, outcome.command, outcome.args))
  {
    if |line| == 0 { return Ignored; }
    var args := Tokenize(line);
    TokensAreTokens(line);
    if |args| == 0 { return Ignored; }
    if args[0] == "exit" || args[0] == "quit" { return Quit; }
    var command, commandArgs := FindCommand(commands, args);
    if !NoCommand(commands, args) {
      ghost var k: nat :| IsLongest(commands, args, k, command, commandArgs);
      JoinNotEmpty(args[..k]);
    }
    if command == "" { return UnknownCommand(args[0]); }
    return Run(command, commandArgs);
  }

  lemma JoinNotEmpty(tokens: seq<string>)
    requires |tokens| > 0 && AllTokens(tokens)
    ensures Join(tokens) != ""
  {
  }

  // ------------------------------------------------ add

  function ParseAll(libc: Libc, args: seq<string>): Option<seq<Number>> {
    if |args| == 0 then Some([])
    else
      match (ParseAll(libc, args[..|args| - 1]), ParseNumber(libc, args[|args| - 1]))
      case (Some(ns), Ok(n)) => Some(ns + [n])
      case _ => None
  }

  /** The packet that `add` sends, if any. */
  function AddPacket(libc: Libc, args: seq<string>): Option<Bytes> {
    match ParseAll(libc, args) case None => None case Some(ns) => AdditionPacket(ns)
  }

  /** All arguments parse. */
  ghost predicate AllParse(libc: Libc, args: seq<string>) {
    forall k :: 0 <= k < |args| ==> ParseNumber(libc, args[k]).Ok?
  }

  /** The numbers that arguments parse to. */
  function NumbersOf(libc: Libc, args: seq<string>): seq<Number>
    requires AllParse(libc, args)
  {
    seq(|args|, k requires 0 <= k < |args| => ParseNumber(libc, args[k]).value)
  }

  /** A packet is sent if and only if there are at least two arguments, all parse, and their records fit; it holds the
      numbers in the order of the arguments.  Any 2 to 454 numbers fit. */
  lemma AddSends(libc: Libc, args: seq<string>)
    ensures AddPacket(libc, args).Some?
       <==> |args| >= 2 && AllParse(libc, args) && 2 + RecordsSize(NumbersOf(libc, args)) <= 4096
    ensures AddPacket(libc, args).Some? ==> AddPacket(libc, args).value == [0x00, 0x02] + Encode(NumbersOf(libc, args))
    ensures 2 <= |args| <= 454 && AllParse(libc, args) ==> AddPacket(libc, args).Some?
  {
    AllParsed(libc, args);
    if AllParse(libc, args) {
      NoneRefused(libc, args);
      var ns := ParseAll(libc, args).value;
      assert ns == NumbersOf(libc, args);
      SentIff(ns);
    }
  }

  method AddCommand(libc: Libc, args: seq<string>) returns (sent: Option<Bytes>)
    ensures sent == AddPacket(libc, args)
  {
    AllParsed(libc, args);
    if |args| < 2 { return None; }
    var nums := [];
    for k := 0 to |args|
      invariant ParseAll(libc, args[..k]) == Some(nums)
    {
      assert args[..k + 1][..k] == args[..k];
      var r := ParseNumber(libc, args[k]);
      if r.Err? {
        FailureStays(libc, args, k + 1);
        return None;
      }
      nums := nums + [r.value];
    }
    assert args[..|args|] == args;
    sent := SendAdditionRequest(nums);
  }

  lemma {:induction false} FailureStays(libc: Libc, args: seq<string>, k: nat)
    requires k <= |args| && ParseAll(libc, args[..k]).None?
    ensures ParseAll(libc, args).None?
  {
    if k < |args| {
      assert args[..|args| - 1][..k] == args[..k];
      FailureStays(libc, args[..|args| - 1], k);
    } else {
      assert args[..k] == args;
    }
  }

  lemma {:induction false} AllParsed(libc: Libc, args: seq<string>)
    ensures ParseAll(libc, args).Some? ==>
              |ParseAll(libc, args).value| == |args| &&
              forall k :: 0 <= k < |args| ==> ParseNumber(libc, args[k]) == Ok(ParseAll(libc, args).value[k])
  {
    if |args| > 0 { AllParsed(libc, args[..|args| - 1]); }
  }

  lemma {:induction false} NoneRefused(libc: Libc, args: seq<string>)
    requires AllParse(libc, args)
    ensures ParseAll(libc, args).Some?
  {
    if |args| > 0 {
      var last := |args| - 1;
      assert forall k :: 0 <= k < last ==> args[..last][k] == args[k];
      NoneRefused(libc, args[..last]);
    }
  }

  // ------------------------------------------------ client send-msg

  function ClientMessage(id: uint64, msg: Bytes): Bytes {
    Op(CMSG_SEND_MSG_TO_CLIENT) + LittleEndian(id, 8) + msg
  }

  /** Every word followed by a space. */
  function Spaced(words: seq<string>): string {
    if |words| == 0 then "" else Spaced(words[..|words| - 1]) + words[|words| - 1] + " "
  }

  /** The words joined, with a space at the end. */
  lemma {:induction false} SpacedIsJoin(words: seq<string>)
    ensures Spaced(words) == if |words| == 0 then "" else Join(words) + " "
  {
    if |words| > 0 {
      var last := |words| - 1;
      SpacedIsJoin(words[..last]);
      assert "" + words[last] + " " == words[last] + " ";
    }
  }

  method SpaceOut(words: seq<string>) returns (msg: string)
    ensures msg == Spaced(words)
  {
    msg := "";
    for i := 0 to |words|
      invariant msg == Spaced(words[..i])
    {
      assert words[..i + 1][..i] == words[..i];
      msg := msg + words[i] + " ";
    }
    assert words[..|words|] == words;
  }

  /** The packet that `client send-msg` sends, if any. */
  method SendMsgCommand(libc: Libc, args: seq<string>) returns (sent: Option<Bytes>)
    ensures sent == MessageCommand(libc, args)
  {
    if |args| < 2 { return None; }
    var num := ParseNumber(libc, args[0]);
    if num.Err? { return None; }
    var msg := SpaceOut(args[1..]);
    return MessageTo(num.value, msg);
  }

  function MessageCommand(libc: Libc, args: seq<string>): Option<Bytes> {
    if |args| < 2 then None
    else
      match ParseNumber(libc, args[0])
      case Err(_) => None
      case Ok(n) => MessageTo(n, Spaced(args[1..]))
  }

  function MessageTo(n: Number, msg: string): Option<Bytes> {
    if n.IsUnsignedInteger() then Some(ClientMessage(n.Value(), Ascii(msg))) else None
  }

  /** Which ids the command accepts: every unsigned one below 2^64 that has a suffix with U; without a suffix only those
      below 2^32 or from 2^63 on, since the ids between parse to the signed int64; none with the suffix L or LL. */
  lemma MessageAccepts(libc: Libc, args: seq<string>, t: Text)
    requires |args| >= 2 && t.Valid() && args[0] == t.Spelled()
    ensures MessageCommand(libc, args)
         == if t.NamesUnsigned() then Some(ClientMessage(t.Value(), Ascii(Spaced(args[1..])))) else None
  {
    UnsignedTexts(libc, t);
  }

  /** It accepts nothing else. */
  lemma MessageAcceptsOnly(libc: Libc, args: seq<string>) returns (t: Text)
    requires MessageCommand(libc, args).Some?
    ensures |args| >= 2 && t.Valid() && args[0] == t.Spelled() && t.NamesUnsigned()
  {
    t := IntegerIsText(libc, args[0]);
    UnsignedTexts(libc, t);
  }

  // ------------------------------------------------ chat join

  type Digest = h: Bytes | |h| == 32 witness seq(32, _ => 0)

  /** The packet that `chat join` sends, if any; `sha256` stands for the library function. */
  function JoinCommand(libc: Libc, sha256: string -> Digest, args: seq<string>): Option<Bytes> {
    if |args| != 1 && |args| != 2 then None
    else
      match ParseNumber(libc, args[0])
      case Ok(UInt8(roomID)) => Some(JoinPacket(roomID, sha256(Password(args))))
      case _ => None
  }

  function Password(args: seq<string>): string {
    if |args| == 2 then args[1] else ""
  }

  /** Which rooms the command accepts: every value below 256 without a minus sign, and without the suffix L or LL. */
  lemma JoinAccepts(libc: Libc, sha256: string -> Digest, args: seq<string>, t: Text)
    requires 1 <= |args| <= 2 && t.Valid() && args[0] == t.Spelled()
    ensures JoinCommand(libc, sha256, args)
         == if !t.NamesByte() then None
            else Some(JoinPacket(t.Value(), if |args| == 2 then sha256(args[1]) else sha256("")))
  {
    UnsignedTexts(libc, t);
  }

  /** It accepts nothing else. */
  lemma JoinAcceptsOnly(libc: Libc, sha256: string -> Digest, args: seq<string>) returns (t: Text)
    requires JoinCommand(libc, sha256, args).Some?
    ensures 1 <= |args| <= 2 && t.Valid() && args[0] == t.Spelled() && t.NamesByte()
  {
    t := IntegerIsText(libc, args[0]);
    UnsignedTexts(libc, t);
  }
}
