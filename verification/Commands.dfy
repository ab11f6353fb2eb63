/** Reading FETCH and MOVE commands. */
module Commands {
  import opened Sequences
  import opened Wrappers
  import opened Text
  import opened Cleaning
  import opened Integers
  import opened Directions

  /** `str::parse::<i64>`: an optional sign, at least one digit, and a value in range. */
  function ParseI64(s: string): Option<I64> {
    if s == "" then None else
    var digits := if s[0] == '-' || s[0] == '+' then s[1..] else s;
    if digits == "" || !AllDigits(digits) then None else
    var value: int := if s[0] == '-' then -(Val(digits) as int) else Val(digits);
    if I64_MIN <= value <= I64_MAX then Some(value) else None
  }

  /** FORWARD with a negative count is read as BACKWARD, and the other way round. */
  function ForwardBy(n: I64): Direction {
    if n < 0 then Backward(Some(Negate(n))) else Forward(Some(n))
  }

  function BackwardBy(n: I64): Direction {
    if n < 0 then Forward(Some(Negate(n))) else Backward(Some(n))
  }

  function ParseWord(one: string): Option<Direction> {
    if EqIgnoreAsciiCase(one, "NEXT") then Some(Next)
    else if EqIgnoreAsciiCase(one, "PRIOR") then Some(Prior)
    else if EqIgnoreAsciiCase(one, "FIRST") then Some(First)
    else if EqIgnoreAsciiCase(one, "LAST") then Some(Last)
    else if EqIgnoreAsciiCase(one, "ALL") then Some(All)
    else if EqIgnoreAsciiCase(one, "FORWARD") then Some(Forward(Some(1)))
    else if EqIgnoreAsciiCase(one, "BACKWARD") then Some(Backward(Some(1)))
    else if ParseI64(one).Some? then Some(Count(ParseI64(one).value))
    else None
  }

  function ParsePair(keyword: string, value: string): Option<Direction> {
    var n := ParseI64(value);
    if EqIgnoreAsciiCase(keyword, "ABSOLUTE") then (if n.None? then None else Some(Absolute(n.value)))
    else if EqIgnoreAsciiCase(keyword, "RELATIVE") then (if n.None? then None else Some(Relative(n.value)))
    else if EqIgnoreAsciiCase(keyword, "FORWARD") then
      if EqIgnoreAsciiCase(value, "ALL") then Some(Forward(None))
      else if n.None? then None else Some(ForwardBy(n.value))
    else if EqIgnoreAsciiCase(keyword, "BACKWARD") then
      if EqIgnoreAsciiCase(value, "ALL") then Some(Backward(None))
      else if n.None? then None else Some(BackwardBy(n.value))
    else None
  }

  function ParseCursorDirection(tokens: seq<string>): Option<Direction> {
    if tokens == [] then Some(Next)
    else if |tokens| == 1 then ParseWord(tokens[0])
    else if |tokens| == 2 then ParsePair(tokens[0], tokens[1])
    else None
  }

  /** Directions with a negative FORWARD or BACKWARD count, other than the count that cannot be negated. */
  predicate NegativeWalk(d: Direction) {
    (d.Forward? || d.Backward?) && d.count.Some? && I64_MIN < d.count.value < 0
  }

  function Print(d: Direction): seq<string> {
    match d
    case Next => ["NEXT"]
    case Prior => ["PRIOR"]
    case First => ["FIRST"]
    case Last => ["LAST"]
    case All => ["ALL"]
    case Count(n) => [IntText(n)]
    case Absolute(n) => ["ABSOLUTE", IntText(n)]
    case Relative(n) => ["RELATIVE", IntText(n)]
    case Forward(None) => ["FORWARD", "ALL"]
    case Backward(None) => ["BACKWARD", "ALL"]
    case Forward(Some(n)) => [if n < 0 then "BACKWARD" else "FORWARD", IntText(n)]
    case Backward(Some(n)) => [if n < 0 then "FORWARD" else "BACKWARD", IntText(n)]
  }

  lemma ParseIntText(n: I64)
    ensures ParseI64(IntText(n)) == Some(n)
    ensures IntText(n) != "" && (IntText(n)[0] == '-' || IsDigit(IntText(n)[0]))
  {
    var d := Dec(if n < 0 then -(n as int) else n);
    ValDec(if n < 0 then -(n as int) else n);
    hide Dec, Val;
    assert n < 0 ==> IntText(n)[1..] == d;
  }

  /** The number a direction is printed with, if any. */
  function Number(d: Direction): Option<I64> {
    match d
    case Absolute(n) => Some(n)
    case Relative(n) => Some(n)
    case _ => StepCount(d)
  }

  ghost predicate Upper(s: string) {
    s != "" && forall i | 0 <= i < |s| :: 'A' <= s[i] <= 'Z'
  }

  lemma Keywords()
    ensures Upper("NEXT") && Upper("PRIOR") && Upper("FIRST") && Upper("LAST") && Upper("ALL")
    ensures Upper("FORWARD") && Upper("BACKWARD") && Upper("ABSOLUTE") && Upper("RELATIVE")
    ensures Upper("FROM") && Upper("IN")
    ensures forall a: string, b: string | Upper(a) && Upper(b) :: EqIgnoreAsciiCase(a, b) <==> a == b
  {
    forall a: string, b: string | Upper(a) && Upper(b) && EqIgnoreAsciiCase(a, b)
      ensures a == b
    {
      assert forall i | 0 <= i < |a| :: ToAsciiLower(a[i]) == ToAsciiLower(b[i]) && a[i] == b[i];
    }
  }

  // ---- Exactly what is read as a direction ----

  /** `s` writes `n` in decimal digits, with or without a sign. */
  predicate Denotes(s: string, n: int) {
    if s == "" then false
    else if s[0] == '-' then s[1..] != "" && AllDigits(s[1..]) && n == -(Val(s[1..]) as int)
    else if s[0] == '+' then s[1..] != "" && AllDigits(s[1..]) && n == Val(s[1..])
    else AllDigits(s) && n == Val(s)
  }

  /** A word is read as a number exactly if it writes that number, and the number is a 64-bit integer. */
  lemma ParseI64Exact(s: string, n: I64)
    ensures ParseI64(s) == Some(n) <==> Denotes(s, n)
  {
  }

  predicate Keyword(tokens: seq<string>, keyword: string) {
    |tokens| == 1 && EqIgnoreAsciiCase(tokens[0], keyword)
  }

  predicate Numbered(tokens: seq<string>, keyword: string, n: int) {
    |tokens| == 2 && EqIgnoreAsciiCase(tokens[0], keyword) && Denotes(tokens[1], n)
  }

  predicate Entire(tokens: seq<string>, keyword: string) {
    |tokens| == 2 && EqIgnoreAsciiCase(tokens[0], keyword) && EqIgnoreAsciiCase(tokens[1], "ALL")
  }

  /** The count of a walk in direction `ahead`: after its keyword, negated after the opposite one, or left out for 1. */
  predicate Counted(tokens: seq<string>, ahead: string, back: string, n: I64) {
    || (n == 1 && Keyword(tokens, ahead))
    || (n >= 0 && Numbered(tokens, ahead, n))
    || (n > 0 && Numbered(tokens, back, -(n as int)))
    || (n == I64_MIN && Numbered(tokens, back, n))
  }

  /** The ways to write a direction. The smallest integer, which has no opposite, is taken for its own. */
  predicate Says(tokens: seq<string>, d: Direction) {
    match d
    case Next => tokens == [] || Keyword(tokens, "NEXT")
    case Prior => Keyword(tokens, "PRIOR")
    case First => Keyword(tokens, "FIRST")
    case Last => Keyword(tokens, "LAST")
    case All => Keyword(tokens, "ALL")
    case Count(n) => |tokens| == 1 && Denotes(tokens[0], n)
    case Absolute(n) => Numbered(tokens, "ABSOLUTE", n)
    case Relative(n) => Numbered(tokens, "RELATIVE", n)
    case Forward(None) => Entire(tokens, "FORWARD")
    case Backward(None) => Entire(tokens, "BACKWARD")
    case Forward(Some(n)) => Counted(tokens, "FORWARD", "BACKWARD", n)
    case Backward(Some(n)) => Counted(tokens, "BACKWARD", "FORWARD", n)
  }

  lemma NumberStarts(s: string)
    requires ParseI64(s).Some?
    ensures s != "" && (s[0] == '-' || s[0] == '+' || IsDigit(s[0]))
  {
  }

  lemma SameKeyword(s: string, a: string, b: string)
    requires Upper(a) && Upper(b) && EqIgnoreAsciiCase(s, a) && EqIgnoreAsciiCase(s, b)
    ensures a == b
  {
    forall i | 0 <= i < |a|
      ensures a[i] == b[i]
    {
      assert ToAsciiLower(s[i]) == ToAsciiLower(a[i]) && ToAsciiLower(s[i]) == ToAsciiLower(b[i]);
    }
  }

  lemma NotBoth(s: string, a: string, b: string)
    requires Upper(a) && Upper(b) && a != b
    ensures !(EqIgnoreAsciiCase(s, a) && EqIgnoreAsciiCase(s, b))
  {
    if EqIgnoreAsciiCase(s, a) && EqIgnoreAsciiCase(s, b) {
      SameKeyword(s, a, b);
    }
  }

  lemma OneWordKeyword(s: string, keyword: string)
    requires Upper(keyword) && EqIgnoreAsciiCase(s, keyword)
    ensures EqIgnoreAsciiCase(s, "NEXT") == (keyword == "NEXT")
    ensures EqIgnoreAsciiCase(s, "PRIOR") == (keyword == "PRIOR")
    ensures EqIgnoreAsciiCase(s, "FIRST") == (keyword == "FIRST")
    ensures EqIgnoreAsciiCase(s, "LAST") == (keyword == "LAST")
    ensures EqIgnoreAsciiCase(s, "ALL") == (keyword == "ALL")
    ensures EqIgnoreAsciiCase(s, "FORWARD") == (keyword == "FORWARD")
    ensures EqIgnoreAsciiCase(s, "BACKWARD") == (keyword == "BACKWARD")
  {
    Keywords();
    hide EqIgnoreAsciiCase, Upper;
    if keyword != "NEXT" { NotBoth(s, keyword, "NEXT"); }
    if keyword != "PRIOR" { NotBoth(s, keyword, "PRIOR"); }
    if keyword != "FIRST" { NotBoth(s, keyword, "FIRST"); }
    if keyword != "LAST" { NotBoth(s, keyword, "LAST"); }
    if keyword != "ALL" { NotBoth(s, keyword, "ALL"); }
    if keyword != "FORWARD" { NotBoth(s, keyword, "FORWARD"); }
    if keyword != "BACKWARD" { NotBoth(s, keyword, "BACKWARD"); }
  }

  lemma KeywordReads(s: string, keyword: string)
    requires EqIgnoreAsciiCase(s, keyword) && Upper(keyword)
    ensures keyword == "NEXT" ==> ParseWord(s) == Some(Next)
    ensures keyword == "PRIOR" ==> ParseWord(s) == Some(Prior)
    ensures keyword == "FIRST" ==> ParseWord(s) == Some(First)
    ensures keyword == "LAST" ==> ParseWord(s) == Some(Last)
    ensures keyword == "ALL" ==> ParseWord(s) == Some(All)
    ensures keyword == "FORWARD" ==> ParseWord(s) == Some(Forward(Some(1)))
    ensures keyword == "BACKWARD" ==> ParseWord(s) == Some(Backward(Some(1)))
  {
    OneWordKeyword(s, keyword);
    hide EqIgnoreAsciiCase, ParseI64, Upper;
  }

  lemma WordReads(s: string, d: Direction)
    requires Says([s], d) && !d.Count?
    ensures ParseWord(s) == Some(d)
  {
    Keywords();
    hide EqIgnoreAsciiCase, Upper, ParseWord, Denotes;
    match d {
      case Next => KeywordReads(s, "NEXT");
      case Prior => KeywordReads(s, "PRIOR");
      case First => KeywordReads(s, "FIRST");
      case Last => KeywordReads(s, "LAST");
      case All => KeywordReads(s, "ALL");
      case Forward(_) => KeywordReads(s, "FORWARD");
      case Backward(_) => KeywordReads(s, "BACKWARD");
      case _ =>
    }
  }

  lemma NumberReads(s: string, n: I64)
    requires Denotes(s, n)
    ensures ParseWord(s) == Some(Count(n))
  {
    ParseI64Exact(s, n);
    NumberStarts(s);
    Keywords();
    forall keyword: string | Upper(keyword)
      ensures !EqIgnoreAsciiCase(s, keyword)
    {
      assert ToAsciiLower(s[0]) != ToAsciiLower(keyword[0]);
    }
    hide EqIgnoreAsciiCase, ParseI64, Upper, Denotes;
  }

  lemma NumberIsNotAllWord(s: string, n: I64)
    requires Denotes(s, n)
    ensures ParseI64(s) == Some(n) && !EqIgnoreAsciiCase(s, "ALL")
  {
    ParseI64Exact(s, n);
    NumberStarts(s);
    assert ToAsciiLower(s[0]) != ToAsciiLower("ALL"[0]);
  }

  lemma NumberedReads(keyword: string, s: string, n: I64)
    requires Denotes(s, n)
    ensures EqIgnoreAsciiCase(keyword, "ABSOLUTE") ==> ParsePair(keyword, s) == Some(Absolute(n))
    ensures EqIgnoreAsciiCase(keyword, "RELATIVE") ==> ParsePair(keyword, s) == Some(Relative(n))
    ensures EqIgnoreAsciiCase(keyword, "FORWARD") ==> ParsePair(keyword, s) == Some(ForwardBy(n))
    ensures EqIgnoreAsciiCase(keyword, "BACKWARD") ==> ParsePair(keyword, s) == Some(BackwardBy(n))
  {
    NumberIsNotAllWord(s, n);
    OneKeyword(keyword);
    hide EqIgnoreAsciiCase, ParseI64, Denotes, ForwardBy, BackwardBy;
  }

  lemma OneKeyword(s: string)
    ensures !(EqIgnoreAsciiCase(s, "ABSOLUTE") && EqIgnoreAsciiCase(s, "RELATIVE"))
    ensures !(EqIgnoreAsciiCase(s, "ABSOLUTE") && EqIgnoreAsciiCase(s, "FORWARD"))
    ensures !(EqIgnoreAsciiCase(s, "ABSOLUTE") && EqIgnoreAsciiCase(s, "BACKWARD"))
    ensures !(EqIgnoreAsciiCase(s, "RELATIVE") && EqIgnoreAsciiCase(s, "FORWARD"))
    ensures !(EqIgnoreAsciiCase(s, "RELATIVE") && EqIgnoreAsciiCase(s, "BACKWARD"))
    ensures !(EqIgnoreAsciiCase(s, "FORWARD") && EqIgnoreAsciiCase(s, "BACKWARD"))
  {
    Keywords();
    hide EqIgnoreAsciiCase, Upper;
    NotBoth(s, "ABSOLUTE", "RELATIVE");
    NotBoth(s, "ABSOLUTE", "FORWARD");
    NotBoth(s, "ABSOLUTE", "BACKWARD");
    NotBoth(s, "RELATIVE", "FORWARD");
    NotBoth(s, "RELATIVE", "BACKWARD");
    NotBoth(s, "FORWARD", "BACKWARD");
  }

  lemma WholeReads(keyword: string, s: string)
    requires EqIgnoreAsciiCase(s, "ALL")
    ensures EqIgnoreAsciiCase(keyword, "FORWARD") ==> ParsePair(keyword, s) == Some(Forward(None))
    ensures EqIgnoreAsciiCase(keyword, "BACKWARD") ==> ParsePair(keyword, s) == Some(Backward(None))
  {
    OneKeyword(keyword);
    hide EqIgnoreAsciiCase, ParseI64;
  }

  lemma SaysReads(tokens: seq<string>, d: Direction)
    requires Says(tokens, d)
    ensures ParseCursorDirection(tokens) == Some(d)
  {
    NegateExact(I64_MIN);
    hide EqIgnoreAsciiCase, ParseI64, Denotes, ParseWord, ParsePair;
    if |tokens| == 1 {
      assert tokens == [tokens[0]];
      if d.Count? {
        NumberReads(tokens[0], d.number);
      } else {
        WordReads(tokens[0], d);
      }
    } else if |tokens| == 2 {
      PairReads(tokens, d);
    }
  }

  lemma PairReads(tokens: seq<string>, d: Direction)
    requires |tokens| == 2 && Says(tokens, d)
    ensures ParsePair(tokens[0], tokens[1]) == Some(d)
  {
    NegateExact(I64_MIN);
    hide EqIgnoreAsciiCase, ParseI64, Denotes, ParseWord, ParsePair;
    match d {
      case Absolute(n) => NumberedReads(tokens[0], tokens[1], n);
      case Relative(n) => NumberedReads(tokens[0], tokens[1], n);
      case Forward(None) => WholeReads(tokens[0], tokens[1]);
      case Backward(None) => WholeReads(tokens[0], tokens[1]);
      case Forward(Some(n)) => CountedReads(tokens, "FORWARD", "BACKWARD", n);
      case Backward(Some(n)) => CountedReads(tokens, "BACKWARD", "FORWARD", n);
    }
  }

  lemma CountedReads(tokens: seq<string>, ahead: string, back: string, n: I64)
    requires |tokens| == 2 && Counted(tokens, ahead, back, n)
    requires (ahead == "FORWARD" && back == "BACKWARD") || (ahead == "BACKWARD" && back == "FORWARD")
    ensures ParsePair(tokens[0], tokens[1]) == Some(if ahead == "FORWARD" then Forward(Some(n)) else Backward(Some(n)))
  {
    NegateExact(I64_MIN);
    hide EqIgnoreAsciiCase, ParseI64, Denotes, ParsePair;
    if n >= 0 && Numbered(tokens, ahead, n) {
      NumberedReads(tokens[0], tokens[1], n);
    } else if n == I64_MIN {
      NumberedReads(tokens[0], tokens[1], n);
    } else {
      NegateExact(-(n as int));
      NumberedReads(tokens[0], tokens[1], -(n as int));
    }
  }

  lemma ReadSays(tokens: seq<string>, d: Direction)
    requires ParseCursorDirection(tokens) == Some(d)
    ensures Says(tokens, d)
  {
    if |tokens| == 1 {
      WordSays(tokens[0], d);
      assert tokens == [tokens[0]];
    } else if |tokens| == 2 {
      PairSays(tokens[0], tokens[1], d);
      assert tokens == [tokens[0], tokens[1]];
    }
    hide Says, ParseWord, ParsePair;
  }

  lemma WordSays(s: string, d: Direction)
    requires ParseWord(s) == Some(d)
    ensures Says([s], d)
  {
    if d.Count? {
      ParseI64Exact(s, d.number);
    }
    hide EqIgnoreAsciiCase, ParseI64, Denotes;
  }

  lemma PairSays(keyword: string, s: string, d: Direction)
    requires ParsePair(keyword, s) == Some(d)
    ensures Says([keyword, s], d)
  {
    if ParseI64(s).Some? {
      ParseI64Exact(s, ParseI64(s).value);
      SignSays(ParseI64(s).value);
    }
    hide EqIgnoreAsciiCase, ParseI64, Denotes, Negate;
  }

  lemma SignSays(n: I64)
    ensures n < 0 ==> ForwardBy(n) == Backward(Some(Negate(n))) && (n != I64_MIN ==> Negate(n) == -n)
    ensures n < 0 ==> BackwardBy(n) == Forward(Some(Negate(n)))
    ensures Negate(I64_MIN) == I64_MIN
  {
    NegateExact(n);
    NegateExact(I64_MIN);
  }

  /** The words between the command and the cursor's name are read as a direction exactly if they say it. */
  lemma DirectionExact(tokens: seq<string>, d: Direction)
    ensures ParseCursorDirection(tokens) == Some(d) <==> Says(tokens, d)
  {
    if Says(tokens, d) {
      SaysReads(tokens, d);
    }
    if ParseCursorDirection(tokens) == Some(d) {
      ReadSays(tokens, d);
    }
  }

  lemma NumberDenotes(n: I64)
    ensures Denotes(IntText(n), n)
  {
    ParseIntText(n);
    ParseI64Exact(IntText(n), n);
  }

  lemma KeywordsThemselves()
    ensures EqIgnoreAsciiCase("NEXT", "NEXT") && EqIgnoreAsciiCase("PRIOR", "PRIOR")
    ensures EqIgnoreAsciiCase("FIRST", "FIRST") && EqIgnoreAsciiCase("LAST", "LAST")
    ensures EqIgnoreAsciiCase("ALL", "ALL") && EqIgnoreAsciiCase("FORWARD", "FORWARD")
    ensures EqIgnoreAsciiCase("BACKWARD", "BACKWARD") && EqIgnoreAsciiCase("ABSOLUTE", "ABSOLUTE")
    ensures EqIgnoreAsciiCase("RELATIVE", "RELATIVE")
  {
    Keywords();
    hide EqIgnoreAsciiCase, Upper;
  }

  lemma CountedSays(d: Direction, n: I64)
    requires !NegativeWalk(d) && (d == Forward(Some(n)) || d == Backward(Some(n)))
    ensures Says(Print(d), d)
  {
    NumberDenotes(n);
    KeywordsThemselves();
    hide EqIgnoreAsciiCase, IntText, Denotes;
    assert n >= 0 || n == I64_MIN;
  }

  lemma PrintSays(d: Direction)
    requires !NegativeWalk(d)
    ensures Says(Print(d), d)
  {
    KeywordsThemselves();
    hide EqIgnoreAsciiCase, IntText, Denotes;
    match d {
      case Count(n) => NumberDenotes(n);
      case Absolute(n) => NumberDenotes(n);
      case Relative(n) => NumberDenotes(n);
      case Forward(Some(n)) => CountedSays(d, n);
      case Backward(Some(n)) => CountedSays(d, n);
      case _ =>
    }
  }

  lemma PrintParses(d: Direction)
    requires !NegativeWalk(d)
    ensures ParseCursorDirection(Print(d)) == Some(d)
  {
    PrintSays(d);
    SaysReads(Print(d), d);
  }

  ghost predicate Parseable(d: Direction) {
    exists tokens :: ParseCursorDirection(tokens) == Some(d)
  }

  /** The parser produces every direction except those that walk by a negative count. */
  lemma ParserRange(d: Direction)
    ensures Parseable(d) <==> !NegativeWalk(d)
  {
    if !NegativeWalk(d) {
      PrintParses(d);
    } else {
      forall tokens
        ensures ParseCursorDirection(tokens) != Some(d)
      {
        DirectionExact(tokens, d);
        assert !Says(tokens, d);
      }
    }
  }

  // ---- The whole command ----

  datatype CursorPosition = CursorPosition(name: string, direction: Direction)

  function TrimStartChar(s: string, c: char): string {
    if s != "" && s[0] == c then TrimStartChar(s[1..], c) else s
  }

  function UnquoteIdentifier(identifier: string): string {
    var trimmed := TrimEndChar(Trim(identifier), ';');
    ReplaceAll(TrimEndChar(TrimStartChar(trimmed, '"'), '"'), "\"\"", "\"")
  }

  /** The tokens after the command name are a direction, an optional FROM or IN, and the cursor's name. */
  function ParseCursorPosition(command: string, tokens: seq<string>): Option<CursorPosition> {
    var n := |tokens|;
    if n < 2 || !EqIgnoreAsciiCase(tokens[0], command) then None else
    var linked := n >= 3 && (EqIgnoreAsciiCase(tokens[n - 2], "FROM") || EqIgnoreAsciiCase(tokens[n - 2], "IN"));
    match ParseCursorDirection(tokens[1..if linked then n - 2 else n - 1])
    case None => None
    case Some(direction) => Some(CursorPosition(UnquoteIdentifier(tokens[n - 1]), direction))
  }

  /** FROM, IN or nothing between the direction and the cursor's name. */
  predicate IsLink(link: seq<string>) {
    link == [] || (|link| == 1 && (EqIgnoreAsciiCase(link[0], "FROM") || EqIgnoreAsciiCase(link[0], "IN")))
  }

  /** The words in front of the name: the command, then what says the direction, then maybe a link. */
  predicate Introduced(words: seq<string>, command: string, form: seq<string>, link: seq<string>, d: Direction) {
    && |words| == 1 + |form| + |link| && EqIgnoreAsciiCase(words[0], command)
    && words[1..1 + |form|] == form && words[1 + |form|..] == link
    && Says(form, d) && IsLink(link)
  }

  /** The words of a command in front of the cursor's name. */
  ghost predicate Printed(words: seq<string>, command: string, d: Direction) {
    exists form, link :: Introduced(words, command, form, link, d)
  }

  lemma LinkWords()
    ensures Upper("FROM") && Upper("IN")
  {
  }

  lemma KeywordIsNoLink(s: string, keyword: string)
    requires Upper(keyword) && EqIgnoreAsciiCase(s, keyword) && keyword != "FROM" && keyword != "IN"
    ensures !EqIgnoreAsciiCase(s, "FROM") && !EqIgnoreAsciiCase(s, "IN")
  {
    LinkWords();
    NotBoth(s, keyword, "FROM");
    NotBoth(s, keyword, "IN");
  }

  lemma NumberIsNoLink(s: string, n: int)
    requires Denotes(s, n)
    ensures !EqIgnoreAsciiCase(s, "FROM") && !EqIgnoreAsciiCase(s, "IN")
  {
    assert s[0] == '-' || s[0] == '+' || IsDigit(s[0]);
    assert ToAsciiLower(s[0]) != ToAsciiLower("FROM"[0]) && ToAsciiLower(s[0]) != ToAsciiLower("IN"[0]);
  }

  /** The keyword that a direction of two or fewer words ends with, unless it ends with a number. */
  function LastKeyword(tokens: seq<string>, d: Direction): string {
    match d
    case Next => "NEXT"
    case Prior => "PRIOR"
    case First => "FIRST"
    case Last => "LAST"
    case Forward(Some(_)) => "FORWARD"
    case Backward(Some(_)) => "BACKWARD"
    case _ => "ALL"
  }

  ghost predicate IsNumber(s: string) {
    exists n :: Denotes(s, n)
  }

  lemma SaysLast(form: seq<string>, d: Direction)
    requires Says(form, d) && form != []
    ensures var last := form[|form| - 1]; EqIgnoreAsciiCase(last, LastKeyword(form, d)) || IsNumber(last)
  {
    hide EqIgnoreAsciiCase, Denotes;
  }

  lemma SaysNoLink(form: seq<string>, d: Direction)
    requires Says(form, d) && form != []
    ensures var last := form[|form| - 1]; !EqIgnoreAsciiCase(last, "FROM") && !EqIgnoreAsciiCase(last, "IN")
  {
    var last := form[|form| - 1];
    SaysLast(form, d);
    if IsNumber(last) {
      var n :| Denotes(last, n);
      NumberIsNoLink(last, n);
    } else {
      Keywords();
      hide EqIgnoreAsciiCase, Upper, Says;
      KeywordIsNoLink(last, LastKeyword(form, d));
    }
  }

  /** A command is read exactly if its words are the command, a direction, maybe FROM or IN, and a name. */
  lemma PositionExact(command: string, tokens: seq<string>, name: string, d: Direction)
    ensures ParseCursorPosition(command, tokens) == Some(CursorPosition(name, d))
       <==> && tokens != [] && name == UnquoteIdentifier(tokens[|tokens| - 1])
            && Printed(tokens[..|tokens| - 1], command, d)
  {
    if ParseCursorPosition(command, tokens) == Some(CursorPosition(name, d)) {
      ReadIsIntroduced(command, tokens, d);
    }
    if tokens != [] && name == UnquoteIdentifier(tokens[|tokens| - 1]) {
      var words := tokens[..|tokens| - 1];
      if Printed(words, command, d) {
        var form, link :| Introduced(words, command, form, link, d);
        IntroducedIsRead(command, tokens, form, link, d);
      }
    }
  }

  lemma ReadIsIntroduced(command: string, tokens: seq<string>, d: Direction)
    requires ParseCursorPosition(command, tokens).Some? && ParseCursorPosition(command, tokens).value.direction == d
    ensures tokens != [] && Printed(tokens[..|tokens| - 1], command, d)
  {
    var n := |tokens|;
    var linked := n >= 3 && (EqIgnoreAsciiCase(tokens[n - 2], "FROM") || EqIgnoreAsciiCase(tokens[n - 2], "IN"));
    var hi := if linked then n - 2 else n - 1;
    DirectionExact(tokens[1..hi], d);
    hide EqIgnoreAsciiCase, ParseCursorDirection, UnquoteIdentifier, Says, Introduced;
    ReadWords(tokens, hi);
    IntroducedAt(tokens, command, hi, d);
  }

  /** The words between the first and the last token, cut at `hi`. */
  lemma ReadWords<T>(tokens: seq<T>, hi: nat)
    requires 1 <= hi < |tokens|
    ensures var words := tokens[..|tokens| - 1];
            && words[0] == tokens[0] && words[1..hi] == tokens[1..hi] && words[hi..] == tokens[hi..|tokens| - 1]
    ensures hi == |tokens| - 2 ==> tokens[hi..|tokens| - 1] == [tokens[hi]]
    ensures hi == |tokens| - 1 ==> tokens[hi..|tokens| - 1] == []
  {
  }

  lemma IntroducedAt(tokens: seq<string>, command: string, hi: nat, d: Direction)
    requires 1 <= hi < |tokens| && EqIgnoreAsciiCase(tokens[0], command)
    requires Says(tokens[1..hi], d) && IsLink(tokens[hi..|tokens| - 1])
    ensures Printed(tokens[..|tokens| - 1], command, d)
  {
    hide Says, IsLink, EqIgnoreAsciiCase;
    ReadWords(tokens, hi);
    assert 1 + |tokens[1..hi]| == hi;
    assert Introduced(tokens[..|tokens| - 1], command, tokens[1..hi], tokens[hi..|tokens| - 1], d);
  }

  lemma IntroducedIsRead(command: string, tokens: seq<string>, form: seq<string>, link: seq<string>, d: Direction)
    requires tokens != [] && Introduced(tokens[..|tokens| - 1], command, form, link, d)
    ensures ParseCursorPosition(command, tokens)
         == Some(CursorPosition(UnquoteIdentifier(tokens[|tokens| - 1]), d))
  {
    var n := |tokens|;
    var words := tokens[..n - 1];
    DirectionExact(form, d);
    if form != [] {
      SaysNoLink(form, d);
    }
    hide EqIgnoreAsciiCase, ParseCursorDirection, UnquoteIdentifier, Says;
    assert |words| == n - 1;
    PrefixSlice(tokens, n - 1, 1, 1 + |form|);
    if link != [] {
      assert tokens[n - 2] == words[n - 2] == words[1 + |form|..][0];
    } else if form != [] {
      assert tokens[n - 2] == words[1..1 + |form|][|form| - 1];
    }
  }

  function WordLength(s: string): (n: nat)
    ensures n <= |s|
  {
    if s == "" || IsSpace(s[0]) then 0 else 1 + WordLength(s[1..])
  }

  /** `str::split_whitespace`. */
  function SplitWhitespace(s: string): seq<string>
    decreases |s|
  {
    if s == "" then []
    else if IsSpace(s[0]) then SplitWhitespace(s[1..])
    else [s[..WordLength(s)]] + SplitWhitespace(s[WordLength(s)..])
  }

  /** A FETCH or MOVE as a client sends it: cleaned, then read word by word; `command` is the upper-case keyword. */
  function ParseCommand(command: string, sql: string): Option<CursorPosition> {
    ParseCursorPosition(command, SplitWhitespace(NormalizeSql(sql)))
  }

  predicate Word(s: string) {
    s != "" && forall i | 0 <= i < |s| :: !IsSpace(s[i])
  }

  lemma {:induction false} BlankHasNoWords(pad: string, s: string)
    requires Blank(pad)
    ensures SplitWhitespace(pad + s) == SplitWhitespace(s)
  {
    if pad == "" {
      assert pad + s == s;
    } else {
      assert (pad + s)[1..] == pad[1..] + s;
      BlankHasNoWords(pad[1..], s);
    }
  }

  lemma {:induction false} WordLengthCut(a: string, b: string)
    requires b == "" || IsSpace(b[0])
    ensures WordLength(a + b) == WordLength(a)
  {
    if a == "" {
      assert a + b == b;
    } else {
      assert (a + b)[1..] == a[1..] + b;
      WordLengthCut(a[1..], b);
    }
  }

  /** A text cut in front of white space has the words of both parts. */
  lemma {:induction false} WordsAppend(a: string, b: string)
    requires b == "" || IsSpace(b[0])
    ensures SplitWhitespace(a + b) == SplitWhitespace(a) + SplitWhitespace(b)
    decreases |a|
  {
    if a == "" {
      assert a + b == b && [] + SplitWhitespace(b) == SplitWhitespace(b);
    } else if IsSpace(a[0]) {
      assert (a + b)[1..] == a[1..] + b;
      WordsAppend(a[1..], b);
    } else {
      var n := WordLength(a);
      WordLengthCut(a, b);
      assert (a + b)[..n] == a[..n] && (a + b)[n..] == a[n..] + b;
      WordsAppend(a[n..], b);
      WordsStep(a, n);
      WordsStep(a + b, n);
      hide SplitWhitespace, WordLength, IsSpace;
      Assoc([a[..n]], SplitWhitespace(a[n..]), SplitWhitespace(b));
    }
  }

  lemma WordsStep(s: string, n: nat)
    requires s != "" && !IsSpace(s[0]) && n == WordLength(s)
    ensures SplitWhitespace(s) == [s[..n]] + SplitWhitespace(s[n..])
  {
  }

  lemma {:induction false} WholeWord(s: string)
    requires forall i | 0 <= i < |s| :: !IsSpace(s[i])
    ensures WordLength(s) == |s|
  {
    if s != "" {
      WholeWord(s[1..]);
    }
  }

  lemma OneWord(s: string)
    requires Word(s)
    ensures SplitWhitespace(s) == [s]
  {
    WholeWord(s);
    assert s[..|s|] == s && s[|s|..] == "";
  }

  /** How a client lays a command out: the white space around and between its words, and semicolons at its end. */
  datatype Layout = Layout(before: string, gaps: seq<string>, pad: string, semicolons: string, after: string)

  predicate Fits(l: Layout, words: seq<string>) {
    && Blank(l.before) && Blank(l.pad) && Semicolons(l.semicolons) && Blank(l.after)
    && |l.gaps| == |words| && forall i | 0 <= i < |l.gaps| :: l.gaps[i] != "" && Blank(l.gaps[i])
  }

  /** The words, each with its gap behind it, and the last text. */
  function Spaced(words: seq<string>, gaps: seq<string>, last: string): string
    requires |gaps| == |words|
  {
    if words == [] then last else words[0] + gaps[0] + Spaced(words[1..], gaps[1..], last)
  }

  function Ending(l: Layout): string {
    l.pad + (l.semicolons + l.after)
  }

  function CommandText(l: Layout, words: seq<string>, name: string): string
    requires Fits(l, words)
  {
    l.before + (Spaced(words, l.gaps, name) + Ending(l))
  }

  lemma {:induction false} SpacedTail(words: seq<string>, gaps: seq<string>, last: string, tail: string)
    requires |gaps| == |words|
    ensures Spaced(words, gaps, last) + tail == Spaced(words, gaps, last + tail)
  {
    if words != [] {
      SpacedTail(words[1..], gaps[1..], last, tail);
      Assoc(words[0] + gaps[0], Spaced(words[1..], gaps[1..], last), tail);
    }
  }

  lemma FirstWord(word: string, gap: string, tail: string)
    requires Word(word) && Blank(gap) && gap != ""
    ensures SplitWhitespace(word + gap + tail) == [word] + SplitWhitespace(tail)
  {
    OneWord(word);
    WordsAppend(word, gap + tail);
    BlankHasNoWords(gap, tail);
    Assoc(word, gap, tail);
  }

  ghost predicate Gaps(gaps: seq<string>) {
    forall gap | gap in gaps :: gap != "" && Blank(gap)
  }

  lemma {:induction false} SpacedWords(words: seq<string>, gaps: seq<string>, last: string)
    requires |gaps| == |words| && Gaps(gaps) && forall w | w in words :: Word(w)
    ensures SplitWhitespace(Spaced(words, gaps, last)) == words + SplitWhitespace(last)
  {
    if words != [] {
      hide Gaps, Word, Blank, SplitWhitespace;
      assert words[0] in words && forall w | w in words[1..] :: w in words;
      GapsTail(gaps);
      SpacedWords(words[1..], gaps[1..], last);
      FirstWord(words[0], gaps[0], Spaced(words[1..], gaps[1..], last));
      Uncons(words);
      Assoc([words[0]], words[1..], SplitWhitespace(last));
    }
  }

  /** A word no comment can start in or behind. */
  predicate Tame(s: string) {
    '/' !in s && !Holds(s, '-', '-')
  }

  lemma {:induction false} TameThenBlank(word: string, gap: string)
    requires Tame(word) && Blank(gap)
    ensures !Holds(word + gap, '-', '-') && !Holds(word + gap, '/', '*')
  {
    if word == "" {
      assert word + gap == gap;
      HoldsNone(gap, '-', '-');
      HoldsNone(gap, '/', '*');
    } else {
      assert (word + gap)[1..] == word[1..] + gap;
      TameThenBlank(word[1..], gap);
    }
  }

  lemma EraseFirst(word: string, gap: string, rest: string)
    requires Tame(word) && Blank(gap) && gap != ""
    ensures Erase(word + gap + rest) == word + gap + Erase(rest)
    ensures Commented(word + gap + rest) <==> Commented(rest)
  {
    var head := word + gap;
    TameThenBlank(word, gap);
    assert IsSpace(head[|head| - 1]) && !IsSpace('-') && !IsSpace('/');
    EraseHead(head, rest);
  }

  lemma GapsTail(gaps: seq<string>)
    requires Gaps(gaps) && gaps != []
    ensures Gaps(gaps[1..]) && gaps[0] != "" && Blank(gaps[0])
  {
    assert gaps[0] in gaps && forall gap | gap in gaps[1..] :: gap in gaps;
  }

  /** Only a comment in the last text is erased. */
  lemma {:induction false} EraseSpaced(words: seq<string>, gaps: seq<string>, last: string)
    requires |gaps| == |words| && Gaps(gaps) && forall w | w in words :: Tame(w)
    ensures Erase(Spaced(words, gaps, last)) == Spaced(words, gaps, Erase(last))
    ensures Commented(Spaced(words, gaps, last)) <==> Commented(last)
  {
    hide Gaps, Tame, Blank, Erase, Commented;
    if words != [] {
      assert words[0] in words && forall w | w in words[1..] :: w in words;
      GapsTail(gaps);
      EraseSpaced(words[1..], gaps[1..], last);
      EraseFirst(words[0], gaps[0], Spaced(words[1..], gaps[1..], last));
    }
  }

  lemma {:induction false} SpacedEnds(words: seq<string>, gaps: seq<string>, last: string)
    requires |gaps| == |words| && last != "" && !IsSpace(last[0]) && forall w | w in words :: Word(w)
    ensures var s := Spaced(words, gaps, last); s != "" && !IsSpace(s[0]) && s[|s| - 1] == last[|last| - 1]
  {
    if words != [] {
      assert words[0] in words;
      SpacedEnds(words[1..], gaps[1..], last);
    }
  }

  lemma CommandShape(l: Layout, words: seq<string>, name: string)
    requires Fits(l, words)
    ensures CommandText(l, words, name)
         == l.before + (Spaced(words, l.gaps, name) + (l.pad + (l.semicolons + l.after)))
    ensures Gaps(l.gaps) && Blank(l.before) && Blank(l.pad) && Semicolons(l.semicolons) && Blank(l.after)
  {
  }

  lemma SpacedTrimmed(words: seq<string>, gaps: seq<string>, last: string)
    requires |gaps| == |words| && last != "" && Trimmed(last) && forall w | w in words :: Word(w)
    ensures var s := Spaced(words, gaps, last); s != "" && Trimmed(s) && s[|s| - 1] == last[|last| - 1]
  {
    SpacedEnds(words, gaps, last);
    hide Spaced, Word;
  }

  lemma CommandCleaned(l: Layout, words: seq<string>, name: string)
    requires Fits(l, words) && (forall w | w in words :: Word(w)) && forall w | w in words :: Tame(w)
    requires name != "" && Trimmed(name) && name[|name| - 1] != ';' && !Commented(name)
    ensures NormalizeSql(CommandText(l, words, name)) == Spaced(words, l.gaps, name)
  {
    CommandShape(l, words, name);
    assert |l.gaps| == |words|;
    hide *;
    EraseSpaced(words, l.gaps, name);
    SpacedTrimmed(words, l.gaps, name);
    NormalizeEnding(l.before, Spaced(words, l.gaps, name), l.pad, l.semicolons, l.after);
  }

  /** What the parser reads of a command whose last word holds no comment. */
  lemma CommandWords(l: Layout, words: seq<string>, name: string)
    requires Fits(l, words) && (forall w | w in words :: Word(w)) && forall w | w in words :: Tame(w)
    requires name != "" && Trimmed(name) && name[|name| - 1] != ';' && !Commented(name)
    ensures SplitWhitespace(NormalizeSql(CommandText(l, words, name))) == words + SplitWhitespace(name)
  {
    CommandCleaned(l, words, name);
    assert |l.gaps| == |words| && Gaps(l.gaps);
    hide *;
    SpacedWords(words, l.gaps, name);
  }

  // ---- Printed commands ----

  lemma UpperIsWord()
    ensures forall s | Upper(s) :: Word(s)
  {
  }

  lemma UpperIsTame()
    ensures forall s | Upper(s) :: Tame(s)
  {
    forall s | Upper(s)
      ensures Tame(s)
    {
      HoldsNone(s, '-', '-');
    }
  }

  lemma NumberIsPlain(s: string, n: int)
    requires Denotes(s, n)
    ensures Word(s) && Tame(s)
  {
    var digits := if s[0] == '-' || s[0] == '+' then s[1..] else s;
    assert forall i | 0 <= i < |digits| :: IsDigit(digits[i]);
    assert forall i | 0 < i < |s| :: IsDigit(s[i]);
    HoldsSomewhere(s, '-', '-');
    forall i: nat
      ensures !PairAt(s, i, '-', '-')
    {
      if i + 1 < |s| {
        assert IsDigit(s[i + 1]);
      }
    }
  }

  lemma SpelledWord(a: string, b: string)
    requires EqIgnoreAsciiCase(a, b) && Word(b) && Tame(b)
    ensures Word(a) && Tame(a)
  {
    forall i | 0 <= i < |a|
      ensures !IsSpace(a[i]) && a[i] != '/' && (a[i] == '-' <==> b[i] == '-')
    {
      assert ToAsciiLower(a[i]) == ToAsciiLower(b[i]);
    }
    HoldsSomewhere(a, '-', '-');
    HoldsSomewhere(b, '-', '-');
    if i: nat :| PairAt(a, i, '-', '-') {
      assert PairAt(b, i, '-', '-');
    }
  }

  lemma SpelledPlain(s: string, keyword: string)
    requires Upper(keyword) && EqIgnoreAsciiCase(s, keyword)
    ensures Word(s) && Tame(s)
  {
    UpperIsWord();
    UpperIsTame();
    SpelledWord(s, keyword);
  }

  lemma SecondPlain(s: string)
    requires EqIgnoreAsciiCase(s, "ALL") || exists n: int :: Denotes(s, n)
    ensures Word(s) && Tame(s)
  {
    Keywords();
    hide EqIgnoreAsciiCase, Denotes, Upper, Word, Tame;
    if EqIgnoreAsciiCase(s, "ALL") {
      SpelledPlain(s, "ALL");
    } else {
      var n: int :| Denotes(s, n);
      NumberIsPlain(s, n);
    }
  }

  lemma FirstPlain(s: string)
    requires EqIgnoreAsciiCase(s, "ABSOLUTE") || EqIgnoreAsciiCase(s, "RELATIVE")
          || EqIgnoreAsciiCase(s, "FORWARD") || EqIgnoreAsciiCase(s, "BACKWARD")
    ensures Word(s) && Tame(s)
  {
    Keywords();
    hide EqIgnoreAsciiCase, Upper, Word, Tame;
    SpelledPlain(s, if EqIgnoreAsciiCase(s, "ABSOLUTE") then "ABSOLUTE"
                    else if EqIgnoreAsciiCase(s, "RELATIVE") then "RELATIVE"
                    else if EqIgnoreAsciiCase(s, "FORWARD") then "FORWARD" else "BACKWARD");
  }

  lemma SaysPlain(form: seq<string>, d: Direction)
    requires Says(form, d)
    ensures forall i | 0 <= i < |form| :: Word(form[i]) && Tame(form[i])
  {
    Keywords();
    hide EqIgnoreAsciiCase, Denotes, Upper, Word, Tame;
    if |form| == 1 {
      if EqIgnoreAsciiCase(form[0], LastKeyword(form, d)) {
        SpelledPlain(form[0], LastKeyword(form, d));
      } else {
        NumberIsPlain(form[0], d.number);
      }
    } else if |form| == 2 {
      FirstPlain(form[0]);
      SecondPlain(form[1]);
    }
  }

  lemma PrintedWords(words: seq<string>, command: string, d: Direction)
    requires Printed(words, command, d) && Upper(command)
    ensures forall w | w in words :: Word(w)
    ensures forall w | w in words :: Tame(w)
  {
    var form, link :| Introduced(words, command, form, link, d);
    SpelledPlain(words[0], command);
    SaysPlain(form, d);
    LinkWords();
    hide EqIgnoreAsciiCase, Says, Upper, Word, Tame;
    if link != [] {
      SpelledPlain(link[0], if EqIgnoreAsciiCase(link[0], "FROM") then "FROM" else "IN");
    }
    forall i | 0 <= i < |words|
      ensures Word(words[i]) && Tame(words[i])
    {
      if 0 < i < 1 + |form| {
        assert words[i] == words[1..1 + |form|][i - 1] == form[i - 1];
      } else if i > 0 {
        assert words[i] == words[1 + |form|..][i - 1 - |form|];
      }
    }
  }

  lemma PrintedPosition(command: string, d: Direction, words: seq<string>, name: string)
    requires Printed(words, command, d)
    ensures ParseCursorPosition(command, words + [name]) == Some(CursorPosition(UnquoteIdentifier(name), d))
  {
    var form, link :| Introduced(words, command, form, link, d);
    var tokens := words + [name];
    assert tokens[..|tokens| - 1] == words && tokens[|tokens| - 1] == name;
    IntroducedIsRead(command, tokens, form, link, d);
  }

  /**
   A command is read back, with FROM, with IN, or with neither, in any case and layout, if no comment stands in the
   cursor's name.
   */
  lemma CommandRoundTrip(command: string, d: Direction, words: seq<string>, name: string, l: Layout)
    requires Upper(command) && Printed(words, command, d) && Fits(l, words)
    requires Word(name) && name[|name| - 1] != ';' && !Commented(name)
    ensures ParseCommand(command, CommandText(l, words, name)) == Some(CursorPosition(UnquoteIdentifier(name), d))
  {
    PrintedWords(words, command, d);
    CommandWords(l, words, name);
    OneWord(name);
    PrintedPosition(command, d, words, name);
  }

  lemma {:induction false} TrimStartCharStops(s: string, c: char)
    ensures TrimStartChar(s, c) == "" || TrimStartChar(s, c)[0] != c
  {
    if s != "" {
      TrimStartCharStops(s[1..], c);
    }
  }

  lemma {:induction false} DoubledEnds(s: string, c: char)
    requires s != ""
    ensures var d := Doubled(s, c); d != "" && d[0] == s[0] && d[|d| - 1] == s[|s| - 1]
  {
    DoubledStep(s, c);
    if |s| > 1 {
      DoubledEnds(s[1..], c);
    } else {
      assert Doubled(s[1..], c) == "";
    }
  }

  /** Collapsing doubled quotes keeps a first and a last character that is no quote. */
  lemma {:induction false} CollapseEnds(s: string)
    ensures var r := ReplaceAll(s, "\"\"", "\"");
            && (s == "" <==> r == "")
            && (s != "" ==> r[0] == s[0])
            && (s != "" && s[|s| - 1] != '"' ==> r[|r| - 1] == s[|s| - 1])
    decreases |s|
  {
    if s != "" {
      var rest := if "\"\"" <= s then s[2..] else s[1..];
      CollapseEnds(rest);
      if rest == "" {
        assert ReplaceAll(rest, "\"\"", "\"") == "";
      }
    }
  }

  predicate Unpadded(name: string) {
    name == "" || (name[0] != '"' && name[|name| - 1] != '"')
  }

  lemma UnquoteQuoted(name: string)
    ensures UnquoteIdentifier(QuoteIdentifier(name)) == name <==> Unpadded(name)
  {
    var quoted := QuoteIdentifier(name);
    assert "" + quoted + "" == quoted;
    TrimPadded("", quoted, "");
    assert TrimEndChar(quoted, ';') == quoted;
    UnquoteTrims(name);
    hide TrimStartChar, TrimEndChar, ReplaceAll, QuoteIdentifier, Trim;
  }

  // ---- Bare names ----

  lemma {:induction false} CollapseNone(s: string)
    requires '"' !in s
    ensures ReplaceAll(s, "\"\"", "\"") == s
  {
    if s != "" {
      CollapseNone(s[1..]);
      Uncons(s);
    }
  }

  lemma UnquoteBare(name: string)
    requires name != "" && Trimmed(name) && '"' !in name && name[|name| - 1] != ';'
    ensures UnquoteIdentifier(name) == name
  {
    assert TrimStartChar(name, '"') == name;
    hide *;
    TrimSelf(name);
    LastStays(name, ';');
    LastStays(name, '"');
    UnquoteSteps(name, name);
    CollapseNone(name);
  }

  /** A name without double quotes that is not delimited is the cursor's name as it is written. */
  lemma BareNameRoundTrip(command: string, d: Direction, words: seq<string>, name: string, l: Layout)
    requires Upper(command) && Printed(words, command, d) && Fits(l, words)
    requires Word(name) && '"' !in name && name[|name| - 1] != ';' && !Commented(name)
    ensures ParseCommand(command, CommandText(l, words, name)) == Some(CursorPosition(name, d))
  {
    CommandRoundTrip(command, d, words, name, l);
    UnquoteBare(name);
  }

  // ---- Delimited names ----

  lemma QuoteParsesNowhere(s: string, other: string)
    requires s != "" && s[0] == '"'
    ensures ParseI64(s) == None && ParseWord(s) == None && ParsePair(s, other) == None && ParsePair(other, s) == None
  {
    assert !IsDigit(s[0]);
    QuoteIsNoKeyword(s);
    Keywords();
    hide EqIgnoreAsciiCase, Upper, Val;
  }

  /** A word that starts with a double quote belongs to no direction. */
  lemma QuoteIsNoDirection(tokens: seq<string>, i: nat)
    requires i < |tokens| && tokens[i] != "" && tokens[i][0] == '"'
    ensures ParseCursorDirection(tokens) == None
  {
    hide ParseWord, ParsePair;
    if |tokens| == 1 {
      QuoteParsesNowhere(tokens[i], "");
    } else if |tokens| == 2 {
      QuoteParsesNowhere(tokens[i], tokens[1 - i]);
    }
  }

  lemma QuoteIsNoKeyword(s: string)
    requires s != "" && s[0] == '"'
    ensures forall keyword: string | Upper(keyword) :: !EqIgnoreAsciiCase(s, keyword)
  {
    forall keyword: string | Upper(keyword)
      ensures !EqIgnoreAsciiCase(s, keyword)
    {
      assert ToAsciiLower(s[0]) != ToAsciiLower(keyword[0]);
    }
  }

  lemma {:induction false} SomeWord(s: string)
    requires !Blank(s)
    ensures SplitWhitespace(s) != []
  {
    if IsSpace(s[0]) {
      SomeWord(s[1..]);
    }
  }

  /** A delimited name with white space in it falls apart. */
  lemma QuotedFallsApart(name: string, i: nat)
    requires i < |name| && IsSpace(name[i])
    ensures var parts := SplitWhitespace(QuoteIdentifier(name));
            |parts| >= 2 && parts[0] != "" && parts[0][0] == '"'
  {
    var quoted := QuoteIdentifier(name);
    var k := SpaceInDoubled(name, i);
    var u, v := quoted[..k + 1], quoted[k + 1..];
    assert quoted == u + v && v[0] == Doubled(name, '"')[k] && u[0] == '"';
    WordsAppend(u, v);
    assert v[|v| - 1] == '"' && !IsSpace('"');
    SomeWord(v);
  }

  lemma {:induction false} SpaceInDoubled(name: string, i: nat) returns (k: nat)
    requires i < |name| && IsSpace(name[i])
    ensures k < |Doubled(name, '"')| && IsSpace(Doubled(name, '"')[k])
  {
    DoubledStep(name, '"');
    if i == 0 {
      k := 0;
    } else {
      var k' := SpaceInDoubled(name[1..], i - 1);
      k := k' + if name[0] == '"' then 2 else 1;
    }
  }

  lemma FallenApartIsRejected(command: string, words: seq<string>, parts: seq<string>)
    requires words != [] && |parts| >= 2 && parts[0] != "" && parts[0][0] == '"'
    ensures ParseCursorPosition(command, words + parts) == None
  {
    var tokens := words + parts;
    var n, i := |tokens|, |words|;
    assert tokens[i] == parts[0];
    if i == n - 2 {
      QuoteIsNoLink(tokens[i]);
    }
    hide EqIgnoreAsciiCase, ParseCursorDirection, UnquoteIdentifier;
    QuoteIsNoDirection(tokens[1..n - 1], i - 1);
    if i < n - 2 {
      QuoteIsNoDirection(tokens[1..n - 2], i - 1);
    }
  }

  lemma QuoteIsNoLink(s: string)
    requires s != "" && s[0] == '"'
    ensures !EqIgnoreAsciiCase(s, "FROM") && !EqIgnoreAsciiCase(s, "IN")
  {
    Keywords();
    QuoteIsNoKeyword(s);
    hide EqIgnoreAsciiCase, Upper;
  }

  lemma QuotedIsWord(name: string)
    requires forall i | 0 <= i < |name| :: !IsSpace(name[i])
    ensures Word(QuoteIdentifier(name))
  {
    DoubledNoSpace(name);
  }

  lemma {:induction false} DoubledNoSpace(name: string)
    requires forall i | 0 <= i < |name| :: !IsSpace(name[i])
    ensures forall i | 0 <= i < |Doubled(name, '"')| :: !IsSpace(Doubled(name, '"')[i])
  {
    if name != "" {
      DoubledStep(name, '"');
      DoubledNoSpace(name[1..]);
    }
  }

  lemma {:induction false} WordIsPart(s: string, word: string)
    requires word in SplitWhitespace(s) && Commented(word)
    ensures Commented(s)
    decreases |s|
  {
    if IsSpace(s[0]) {
      WordIsPart(s[1..], word);
      assert s[1..|s|] == s[1..];
      CommentedWindow(s, 1, |s|);
    } else {
      var n := WordLength(s);
      if word == s[..n] {
        assert s[0..n] == s[..n];
        CommentedWindow(s, 0, n);
      } else {
        WordIsPart(s[n..], word);
        assert s[n..|s|] == s[n..];
        CommentedWindow(s, n, |s|);
      }
    }
  }

  lemma {:induction false} TrimStartCharRest(s: string, c: char) returns (k: nat)
    ensures k <= |s| && TrimStartChar(s, c) == s[k..]
  {
    if s != "" && s[0] == c {
      var rest := TrimStartCharRest(s[1..], c);
      k := rest + 1;
      assert s[1..][rest..] == s[k..];
    } else {
      k := 0;
      assert s[0..] == s;
    }
  }

  lemma UnquoteIsPart(word: string)
    requires Commented(UnquoteIdentifier(word))
    ensures Commented(word)
  {
    var a := Trim(word);
    var b := TrimEndChar(a, ';');
    var c := TrimStartChar(b, '"');
    var e := TrimEndChar(c, '"');
    assert UnquoteIdentifier(word) == Collapsed(e, '"');
    hide *;
    CommentedCollapsed(e, '"');
    TrimEndCharStops(c, '"');
    CommentedPrefix(e, c);
    var k := TrimStartCharRest(b, '"');
    CommentedRest(b, k);
    TrimEndCharStops(a, ';');
    CommentedPrefix(b, a);
    var lo, hi := TrimSpan(word);
    CommentedWindow(word, lo, hi);
  }

  /** Whatever the command's text, it never addresses a cursor whose name holds a comment. */
  lemma NoCommentedName(command: string, sql: string)
    ensures ParseCommand(command, sql).Some? ==> !Commented(ParseCommand(command, sql).value.name)
  {
    var cleaned := NormalizeSql(sql);
    NormalizedIsClean(sql);
    hide NormalizeSql, SplitWhitespace, Commented, ParseCursorDirection, UnquoteIdentifier, EqIgnoreAsciiCase;
    var tokens := SplitWhitespace(cleaned);
    if tokens != [] {
      var last := tokens[|tokens| - 1];
      if Commented(UnquoteIdentifier(last)) {
        UnquoteIsPart(last);
        WordIsPart(cleaned, last);
      }
    }
  }

  /**
   In a command the cursor name written as a delimited identifier is read back if and only if it holds no white
   space and no comment, and neither begins nor ends with a double quote.
   */
  lemma QuotedNameRoundTrip(command: string, d: Direction, words: seq<string>, name: string, l: Layout)
    requires Upper(command) && Printed(words, command, d) && Fits(l, words)
    ensures ParseCommand(command, CommandText(l, words, QuoteIdentifier(name))) == Some(CursorPosition(name, d))
        <==> (forall i | 0 <= i < |name| :: !IsSpace(name[i])) && !Commented(name) && Unpadded(name)
  {
    var quoted := QuoteIdentifier(name);
    CommentedQuoted(name, '"');
    if Commented(name) {
      NoCommentedName(command, CommandText(l, words, quoted));
    } else if i :| 0 <= i < |name| && IsSpace(name[i]) {
      SpaceIsRejected(command, d, words, name, i, l);
    } else {
      QuotedIsWord(name);
      QuotedEnds(name);
      hide ParseCommand, CommandText, Commented, Printed, Fits, UnquoteIdentifier, QuoteIdentifier;
      CommandRoundTrip(command, d, words, quoted, l);
      UnquoteQuoted(name);
    }
  }

  lemma QuotedEnds(name: string)
    ensures var q := QuoteIdentifier(name); q != "" && Trimmed(q) && q[|q| - 1] == '"'
  {
  }

  lemma SpaceIsRejected(command: string, d: Direction, words: seq<string>, name: string, i: nat, l: Layout)
    requires Upper(command) && Printed(words, command, d) && Fits(l, words)
    requires i < |name| && IsSpace(name[i]) && !Commented(QuoteIdentifier(name))
    ensures ParseCommand(command, CommandText(l, words, QuoteIdentifier(name))) == None
  {
    assert words != [];
    PrintedWords(words, command, d);
    QuotedEnds(name);
    QuotedFallsApart(name, i);
    hide Printed, Fits, SplitWhitespace, NormalizeSql, CommandText, QuoteIdentifier, Word, Tame, Commented, Trimmed;
    CommandWords(l, words, QuoteIdentifier(name));
    FallenApartIsRejected(command, words, SplitWhitespace(QuoteIdentifier(name)));
  }

  // ---- A comment in a name ----

  /** Letters, digits and underscores. */
  predicate Simple(s: string) {
    s != "" && forall i | 0 <= i < |s| :: IsDigit(s[i]) || s[i] == '_' || 'a' <= ToAsciiLower(s[i]) <= 'z'
  }

  predicate OneLine(s: string) {
    '\n' !in s && '\r' !in s
  }

  lemma {:induction false} WholeLine(s: string)
    requires OneLine(s)
    ensures LineLength(s) == |s|
  {
    if s != "" {
      WholeLine(s[1..]);
    }
  }

  lemma DashesErase(u: string, rest: string)
    requires Simple(u) && OneLine(rest)
    ensures Erase("\"" + u + ("--" + rest)) == "\"" + u + " "
  {
    var head, tail := "\"" + u, "--" + rest;
    assert tail[2..] == rest && Pair(tail, '-', '-');
    WholeLine(rest);
    assert tail[|tail|..] == "" && Erase("") == "";
    HoldsNone(head, '-', '-');
    HoldsNone(head, '/', '*');
    assert " " + "" == " ";
    hide Erase, Holds, CommentAt;
    assert Erase(tail) == " " by {
      DashesAlone(tail);
    }
    EraseHead(head, tail);
  }

  lemma DashesAlone(tail: string)
    requires Pair(tail, '-', '-') && LineLength(tail[2..]) == |tail| - 2
    ensures Erase(tail) == " "
  {
    assert tail[|tail|..] == "";
  }

  lemma UnquoteSteps(identifier: string, bare: string)
    requires Trim(identifier) == identifier && TrimEndChar(identifier, ';') == identifier
    requires TrimStartChar(identifier, '"') == bare && TrimEndChar(bare, '"') == bare
    ensures UnquoteIdentifier(identifier) == ReplaceAll(bare, "\"\"", "\"")
  {
  }

  lemma LastStays(s: string, c: char)
    requires s != "" && s[|s| - 1] != c
    ensures TrimEndChar(s, c) == s
  {
  }

  lemma SimpleIsRead(u: string)
    requires Simple(u)
    ensures UnquoteIdentifier("\"" + u) == u && Word("\"" + u)
  {
    var s := "\"" + u;
    assert Word(s) && Trimmed(s) && '"' !in u && s[|s| - 1] != ';';
    assert s[1..] == u && TrimStartChar(s, '"') == u;
    hide *;
    TrimSelf(s);
    LastStays(s, ';');
    LastStays(u, '"');
    UnquoteSteps(s, u);
    CollapseNone(u);
  }

  lemma {:induction false} DoubledAppend(a: string, b: string, c: char)
    ensures Doubled(a + b, c) == Doubled(a, c) + Doubled(b, c)
  {
    if a == "" {
      assert a + b == b;
    } else {
      assert (a + b)[1..] == a[1..] + b;
      DoubledStep(a, c);
      DoubledStep(a + b, c);
      DoubledAppend(a[1..], b, c);
    }
  }

  lemma {:induction false} DoubledNone(s: string, c: char)
    requires c !in s
    ensures Doubled(s, c) == s
  {
    if s != "" {
      DoubledStep(s, c);
      DoubledNone(s[1..], c);
      Uncons(s);
    }
  }

  lemma {:induction false} DoubledOneLine(s: string)
    requires OneLine(s)
    ensures OneLine(Doubled(s, '"'))
  {
    if s != "" {
      DoubledStep(s, '"');
      DoubledOneLine(s[1..]);
    }
  }

  lemma DashedName(u: string, v: string) returns (rest: string)
    requires Simple(u) && OneLine(v)
    ensures QuoteIdentifier(u + ("--" + v)) == "\"" + u + ("--" + rest) && OneLine(rest)
  {
    DoubledAppend(u, "--" + v, '"');
    DoubledAppend("--", v, '"');
    DoubledNone(u, '"');
    DoubledNone("--", '"');
    DoubledOneLine(v);
    rest := Doubled(v, '"') + "\"";
    hide Doubled;
    assert QuoteIdentifier(u + ("--" + v)) == "\"" + (u + ("--" + Doubled(v, '"'))) + "\"";
  }

  lemma EraseCommand(l: Layout, words: seq<string>, name: string)
    requires Fits(l, words) && forall w | w in words :: Tame(w)
    ensures Erase(CommandText(l, words, name)) == l.before + Spaced(words, l.gaps, Erase(name + Ending(l)))
  {
    assert Gaps(l.gaps);
    HoldsNone(l.before, '-', '-');
    HoldsNone(l.before, '/', '*');
    hide Spaced, Erase, Tame, Holds, Gaps;
    EraseSpaced(words, l.gaps, name + Ending(l));
    SpacedTail(words, l.gaps, name, Ending(l));
    EraseHead(l.before, Spaced(words, l.gaps, name + Ending(l)));
  }

  lemma DashesCutName(u: string, v: string, ending: string)
    requires Simple(u) && OneLine(v) && OneLine(ending)
    ensures Erase(QuoteIdentifier(u + ("--" + v)) + ending) == "\"" + u + " "
  {
    var rest := DashedName(u, v);
    DashesErase(u, rest + ending);
    hide *;
    assert "\"" + u + ("--" + rest) + ending == "\"" + u + ("--" + (rest + ending));
  }

  /** What is left of a command whose name has two dashes in it. */
  lemma DashesCut(l: Layout, words: seq<string>, u: string, v: string)
    requires Fits(l, words) && (forall w | w in words :: Word(w)) && forall w | w in words :: Tame(w)
    requires Simple(u) && OneLine(v) && OneLine(Ending(l))
    ensures NormalizeSql(CommandText(l, words, QuoteIdentifier(u + ("--" + v)))) == Spaced(words, l.gaps, "\"" + u)
  {
    var name := QuoteIdentifier(u + ("--" + v));
    var core := Spaced(words, l.gaps, "\"" + u);
    SpacedEnds(words, l.gaps, "\"" + u);
    assert core != "" && Trimmed(core) && core[|core| - 1] != ';' && Blank(" ") && Blank(l.before);
    hide *;
    EraseCommand(l, words, name);
    DashesCutName(u, v, Ending(l));
    SpacedTail(words, l.gaps, "\"" + u, " ");
    Assoc(l.before, core, " ");
    NormalizeErased(CommandText(l, words, name), l.before, core, " ");
  }

  /** A delimited name with two dashes, such as a--b, addresses another cursor: the one named by the part before. */
  lemma DashesAddressAnother(command: string, d: Direction, words: seq<string>, u: string, v: string, l: Layout)
    requires Upper(command) && Printed(words, command, d) && Fits(l, words)
    requires Simple(u) && OneLine(v) && OneLine(Ending(l))
    ensures ParseCommand(command, CommandText(l, words, QuoteIdentifier(u + ("--" + v)))) == Some(CursorPosition(u, d))
  {
    PrintedWords(words, command, d);
    SimpleIsRead(u);
    assert Gaps(l.gaps);
    hide Printed, Fits, Spaced, NormalizeSql, CommandText, QuoteIdentifier, Word, Tame, Simple, UnquoteIdentifier;
    DashesCut(l, words, u, v);
    SpacedWords(words, l.gaps, "\"" + u);
    OneWord("\"" + u);
    PrintedPosition(command, d, words, "\"" + u);
  }

  lemma UnquoteTrims(name: string)
    ensures var inner := TrimEndChar(TrimStartChar(QuoteIdentifier(name), '"'), '"');
            ReplaceAll(inner, "\"\"", "\"") == name <==> name == "" || (name[0] != '"' && name[|name| - 1] != '"')
  {
    var quoted, body := QuoteIdentifier(name), Doubled(name, '"');
    var tail := body + "\"";
    assert quoted[1..] == tail;
    var u := TrimStartChar(quoted, '"');
    var v := TrimEndChar(u, '"');
    TrimStartCharStops(quoted, '"');
    TrimEndCharStops(u, '"');
    CollapseEnds(v);
    if name == "" {
      assert tail[1..] == "";
    } else {
      DoubledEnds(name, '"');
      if name[0] != '"' {
        assert u == tail && tail[..|tail| - 1] == body;
        if name[|name| - 1] != '"' {
          assert v == body;
          UndoubleDoubled(name, '"');
        }
      }
    }
  }
}
