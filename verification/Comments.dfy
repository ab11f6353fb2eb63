/** Blanking SQL comments so that later text matching does not see inside them. */
module Comments {
  import opened Sequences
  import opened Text
  import opened Quotes

  /** Where the scanner is: in code, in a quoted segment, in a line comment, or in a block comment. */
  datatype Mode = Plain | InQuote(quote: char) | InLine | InBlock(previous: char)

  /** A quoted character, a code character, a comment, or a line break inside a comment. */
  datatype Token = Quoted(c: char) | Code(c: char) | Gap | Break

  datatype Reading = Reading(tokens: seq<Token>, used: nat, next: Mode)

  /** One step of the scanner: what it reads at the front of `s`, and where that leaves it. */
  function Step(s: string, m: Mode): (r: Reading)
    requires s != ""
    ensures 1 <= r.used <= |s|
  {
    var c := s[0];
    match m
    case InQuote(quote) =>
      if c == quote && Pair(s, quote, quote) then Reading([Quoted(c), Quoted(c)], 2, m)
      else Reading([Quoted(c)], 1, if c == quote then Plain else m)
    case InLine =>
      if c == '\n' then Reading([Break], 1, Plain) else Reading([], 1, m)
    case InBlock(previous) =>
      if previous == '*' && c == '/' then Reading([], 1, Plain)
      else Reading(if c == '\n' then [Break] else [], 1, InBlock(c))
    case Plain =>
      if IsQuote(c) then Reading([Quoted(c)], 1, InQuote(c))
      else if Pair(s, '-', '-') then Reading([Gap], 2, InLine)
      else if Pair(s, '/', '*') then Reading([Gap], 2, InBlock('\0'))
      else Reading([Code(c)], 1, Plain)
  }

  function Tokens(s: string, m: Mode): seq<Token>
    decreases |s|
  {
    if s == "" then [] else
      var r := Step(s, m);
      r.tokens + Tokens(s[r.used..], r.next)
  }

  /** A comment is written as one space, its line breaks stay; everything else is written as it is. */
  function Shown(t: Token): char {
    match t
    case Gap => ' '
    case Break => '\n'
    case Quoted(c) => c
    case Code(c) => c
  }

  function Show(ts: seq<Token>): (s: string)
    ensures |s| == |ts|
  {
    seq(|ts|, i requires 0 <= i < |ts| => Shown(ts[i]))
  }

  function Strip(s: string, m: Mode): string {
    Show(Tokens(s, m))
  }

  lemma ShowAppend(a: seq<Token>, b: seq<Token>)
    ensures Show(a + b) == Show(a) + Show(b)
  {
  }

  lemma ShowOne(t: Token)
    ensures Show([t]) == [Shown(t)] && Show([t, t]) == [Shown(t)] + [Shown(t)] && Show([]) == ""
  {
  }

  lemma StripStep(s: string, m: Mode)
    requires s != ""
    ensures var r := Step(s, m); Strip(s, m) == Show(r.tokens) + Strip(s[r.used..], r.next)
  {
    var r := Step(s, m);
    ShowAppend(r.tokens, Tokens(s[r.used..], r.next));
  }

  /** One step in terms of positions in the whole text. */
  lemma Scanned(sql: string, idx: nat, m: Mode, written: string)
    requires idx < |sql|
    ensures var r := Step(sql[idx..], m);
            written + Strip(sql[idx..], m) == written + Show(r.tokens) + Strip(sql[idx + r.used..], r.next)
  {
    StripStep(sql[idx..], m);
    var r := Step(sql[idx..], m);
    assert sql[idx..][r.used..] == sql[idx + r.used..];
    Assoc(written, Show(r.tokens), Strip(sql[idx + r.used..], r.next));
  }

  function QuoteMode(inSingle: bool, inDouble: bool): Mode {
    if inSingle then InQuote('\'') else if inDouble then InQuote('"') else Plain
  }

  /** The scanner's step outside comments, branch by branch. */
  lemma ScannedMain(sql: string, idx: nat, inSingle: bool, inDouble: bool, written: string)
    requires idx < |sql| && !(inSingle && inDouble)
    ensures var all := written + Strip(sql[idx..], QuoteMode(inSingle, inDouble));
            var c, twice := sql[idx], idx + 1 < |sql| && sql[idx + 1] == sql[idx];
            if inSingle || inDouble then
              var m := QuoteMode(inSingle, inDouble);
              if c != m.quote then written + [c] + Strip(sql[idx + 1..], m) == all
              else if twice then written + [c] + [c] + Strip(sql[idx + 2..], m) == all
              else written + [c] + Strip(sql[idx + 1..], Plain) == all
            else if c == '-' && twice then written + " " + Strip(sql[idx + 2..], InLine) == all
            else if c == '/' && idx + 1 < |sql| && sql[idx + 1] == '*' then
              written + " " + Strip(sql[idx + 2..], InBlock('\0')) == all
            else written + [c] + Strip(sql[idx + 1..], QuoteMode(c == '\'', c == '"')) == all
  {
    Scanned(sql, idx, QuoteMode(inSingle, inDouble), written);
    var c := sql[idx];
    ShowOne(Quoted(c));
    ShowOne(Code(c));
    ShowOne(Gap);
    hide Strip, Show;
    Assoc(written, [c], [c]);
  }

  /** The loop over the characters, its two flags, and the two inner loops that swallow a comment. */
  method StripSqlCommentsForDetection(sql: string) returns (output: string)
    ensures output == Strip(sql, Plain)
  {
    hide Strip, Show;
    output := "";
    var idx := 0;
    var inSingle, inDouble := false, false;
    ghost var all := Strip(sql, Plain);
    assert sql[0..] == sql;
    while idx < |sql|
      invariant 0 <= idx <= |sql| && !(inSingle && inDouble)
      invariant output + Strip(sql[idx..], QuoteMode(inSingle, inDouble)) == all
    {
      var ch := sql[idx];
      ScannedMain(sql, idx, inSingle, inDouble, output);
      idx := idx + 1;
      if inSingle {
        output := output + [ch];
        if ch == '\'' {
          if idx < |sql| && sql[idx] == '\'' {
            output := output + [sql[idx]];
            idx := idx + 1;
          } else {
            inSingle := false;
          }
        }
      } else if inDouble {
        output := output + [ch];
        if ch == '"' {
          if idx < |sql| && sql[idx] == '"' {
            output := output + [sql[idx]];
            idx := idx + 1;
          } else {
            inDouble := false;
          }
        }
      } else if ch == '\'' {
        inSingle := true;
        output := output + [ch];
      } else if ch == '"' {
        inDouble := true;
        output := output + [ch];
      } else if ch == '-' && idx < |sql| && sql[idx] == '-' {
        output, idx := SkipLine(sql, idx + 1, output + " ", all);
      } else if ch == '/' && idx < |sql| && sql[idx] == '*' {
        output, idx := SkipBlock(sql, idx + 1, output + " ", all);
      } else {
        output := output + [ch];
      }
    }
    assert sql[idx..] == "";
    StripEmpty(QuoteMode(inSingle, inDouble));
  }

  lemma StripEmpty(m: Mode)
    ensures Strip("", m) == ""
  {
  }

  /** Consumes a line comment up to and including its newline, which is kept. */
  method SkipLine(sql: string, start: nat, written: string, ghost all: string) returns (output: string, idx: nat)
    requires start <= |sql| && written + Strip(sql[start..], InLine) == all
    ensures start <= idx <= |sql| && output + Strip(sql[idx..], Plain) == all
  {
    hide Strip;
    output, idx := written, start;
    while idx < |sql|
      invariant start <= idx <= |sql| && output + Strip(sql[idx..], InLine) == all
    {
      Scanned(sql, idx, InLine, output);
      var ch := sql[idx];
      idx := idx + 1;
      if ch == '\n' {
        output := output + "\n";
        return;
      }
      assert output + Show([]) == output;
    }
    assert sql[idx..] == "";
    StripEmpty(InLine);
    StripEmpty(Plain);
  }

  /** Consumes a block comment up to its end, keeping its newlines. */
  method SkipBlock(sql: string, start: nat, written: string, ghost all: string) returns (output: string, idx: nat)
    requires start <= |sql| && written + Strip(sql[start..], InBlock('\0')) == all
    ensures start <= idx <= |sql| && output + Strip(sql[idx..], Plain) == all
  {
    hide Strip;
    output, idx := written, start;
    var previous := '\0';
    while idx < |sql|
      invariant start <= idx <= |sql| && output + Strip(sql[idx..], InBlock(previous)) == all
    {
      Scanned(sql, idx, InBlock(previous), output);
      assert output + Show([]) == output;
      var ch := sql[idx];
      idx := idx + 1;
      if ch == '\n' {
        output := output + "\n";
      }
      if previous == '*' && ch == '/' {
        return;
      }
      previous := ch;
    }
    assert sql[idx..] == "";
    StripEmpty(InBlock(previous));
    StripEmpty(Plain);
  }

  // ---- Reading the output again ----

  /** A comment has become code: a space, and the line breaks that were in it. */
  function Blanked(ts: seq<Token>): (r: seq<Token>)
    ensures |r| == |ts|
  {
    seq(|ts|, i requires 0 <= i < |ts| => if ts[i].Gap? || ts[i].Break? then Code(Shown(ts[i])) else ts[i])
  }

  lemma BlankedAppend(a: seq<Token>, b: seq<Token>)
    ensures Blanked(a + b) == Blanked(a) + Blanked(b)
  {
  }

  /** After a comment the output is read as code. */
  function Reread(m: Mode): Mode {
    if m.InQuote? then m else Plain
  }

  ghost predicate ValidMode(m: Mode) {
    m.InQuote? ==> IsQuote(m.quote)
  }

  /** In code, the first character written is the one read, or the space that stands for a comment. */
  lemma StripFirst(s: string)
    ensures var t := Strip(s, Plain); t != "" ==> s != "" && (t[0] == s[0] || t[0] == ' ')
  {
    if s != "" {
      StripStep(s, Plain);
    }
  }

  /** One token, written and read again in front of what follows it. */
  lemma ReadsOneAgain(s: string, m: Mode, u: string)
    requires s != "" && ValidMode(m) && |Step(s, m).tokens| == 1
    requires var r := Step(s, m);
             r.next == Plain && u != "" ==> |s| > r.used && (u[0] == s[r.used] || u[0] == ' ')
    ensures var r := Step(s, m);
            Step([Shown(r.tokens[0])] + u, Reread(m)) == Reading(Blanked(r.tokens), 1, Reread(r.next))
  {
    Front(Shown(Step(s, m).tokens[0]), u);
  }

  lemma ReadsPairAgain(s: string, m: Mode, u: string)
    requires s != "" && ValidMode(m) && |Step(s, m).tokens| == 2
    ensures var r := Step(s, m);
            Step(Show(r.tokens) + u, Reread(m)) == Reading(Blanked(r.tokens), 2, Reread(r.next))
  {
    Front(s[0], [s[0]] + u);
    Assoc([s[0]], [s[0]], u);
    ShowOne(Quoted(s[0]));
    hide Show;
  }

  /** The scanner reads what it wrote in one step back in one step. */
  lemma StepAgain(s: string, m: Mode)
    requires s != "" && ValidMode(m)
    ensures var r := Step(s, m);
            var u := Strip(s[r.used..], r.next);
            && ValidMode(r.next)
            && (r.tokens == [] ==> Reread(m) == Reread(r.next))
            && (r.tokens != [] ==>
                  Step(Show(r.tokens) + u, Reread(m)) == Reading(Blanked(r.tokens), |r.tokens|, Reread(r.next)))
  {
    var r := Step(s, m);
    var u := Strip(s[r.used..], r.next);
    StripFirst(s[r.used..]);
    assert |r.tokens| <= 2 && ValidMode(r.next);
    assert r.tokens == [] ==> Reread(m) == Reread(r.next);
    hide Strip, Show, Step, Blanked;
    if |r.tokens| == 1 {
      ShowOne(r.tokens[0]);
      ReadsOneAgain(s, m, u);
    } else if |r.tokens| == 2 {
      ReadsPairAgain(s, m, u);
    }
  }

  lemma Front(c: char, u: string)
    ensures ([c] + u)[0] == c && (u != "" ==> ([c] + u)[1] == u[0])
    ensures forall a, b :: Pair([c] + u, a, b) <==> c == a && u != "" && u[0] == b
  {
  }

  /**
   Reading the output again finds the same tokens, with every comment turned into a space and every line break
   in it into code: quoted segments and code are kept verbatim and in order, and no comment is left.
   */
  lemma {:induction false} StripKeepsTokens(s: string, m: Mode)
    requires ValidMode(m)
    ensures Tokens(Strip(s, m), Reread(m)) == Blanked(Tokens(s, m))
    decreases |s|
  {
    if s != "" {
      var r := Step(s, m);
      var rest := s[r.used..];
      var u := Strip(rest, r.next);
      StripStep(s, m);
      StepAgain(s, m);
      StripKeepsTokens(rest, r.next);
      BlankedAppend(r.tokens, Tokens(rest, r.next));
      hide Step, Strip, Show, Blanked;
      if r.tokens == [] {
        assert Show([]) + u == u && Blanked([]) == [];
        assert [] + Tokens(rest, r.next) == Tokens(rest, r.next);
      } else {
        assert (Show(r.tokens) + u)[|r.tokens|..] == u;
      }
    }
  }

  // ---- Openers, length and line numbers ----

  /** No comment opens outside quotes, by the toggle scan. */
  ghost predicate NoOpener(t: string, q: Quote) {
    t == "" || (!(q == Out && (Pair(t, '-', '-') || Pair(t, '/', '*'))) && NoOpener(t[1..], Next(q, t[0])))
  }

  function QuoteOf(m: Mode): Quote {
    if m.InQuote? then (if m.quote == '\'' then InSingle else InDouble) else Out
  }

  lemma NoOpenerCons(c: char, t: string, q: Quote)
    requires NoOpener(t, Next(q, c))
    requires q == Out && t != "" ==> !(c == '-' && t[0] == '-') && !(c == '/' && t[0] == '*')
    ensures NoOpener([c] + t, q)
  {
    assert ([c] + t)[1..] == t;
  }

  /** What one step writes opens no comment together with what follows it. */
  lemma NoOpenerStep(s: string, m: Mode, u: string)
    requires s != "" && ValidMode(m)
    requires var r := Step(s, m);
             && NoOpener(u, QuoteOf(r.next))
             && (r.next == Plain && u != "" ==> |s| > r.used && (u[0] == s[r.used] || u[0] == ' '))
    ensures ValidMode(Step(s, m).next) && NoOpener(Show(Step(s, m).tokens) + u, QuoteOf(m))
  {
    var r := Step(s, m);
    hide NoOpener;
    if r.tokens == [] {
      assert Show([]) + u == u;
    } else {
      var c := Shown(r.tokens[0]);
      if |r.tokens| == 2 {
        NoOpenerCons(c, u, Out);
        NoOpenerCons(c, [c] + u, QuoteOf(m));
        assert Show(r.tokens) + u == [c] + ([c] + u);
      } else {
        assert Show(r.tokens) == [c];
        NoOpenerCons(c, u, QuoteOf(m));
      }
    }
  }

  lemma {:induction false} StripHasNoOpener(s: string, m: Mode)
    requires ValidMode(m)
    ensures NoOpener(Strip(s, m), QuoteOf(m))
    decreases |s|
  {
    if s == "" {
      StripEmpty(m);
    } else {
      var r := Step(s, m);
      var rest := s[r.used..];
      StripStep(s, m);
      StripFirst(rest);
      assert ValidMode(r.next);
      hide Step, Strip, Show, NoOpener;
      StripHasNoOpener(rest, r.next);
      NoOpenerStep(s, m, Strip(rest, r.next));
    }
  }

  lemma StepVerbatim(s: string, m: Mode)
    requires s != "" && !m.InLine? && !m.InBlock? && ValidMode(m) && NoOpener(s, QuoteOf(m))
    ensures var r := Step(s, m);
            && Show(r.tokens) == s[..r.used] && |r.tokens| == r.used
            && !r.next.InLine? && !r.next.InBlock? && ValidMode(r.next) && NoOpener(s[r.used..], QuoteOf(r.next))
  {
    var r := Step(s, m);
    assert r.used == 2 ==> s[1..][1..] == s[2..];
  }

  lemma {:induction false} NoOpenerIsKept(s: string, m: Mode)
    requires !m.InLine? && !m.InBlock? && ValidMode(m) && NoOpener(s, QuoteOf(m))
    ensures Strip(s, m) == s
    decreases |s|
  {
    if s == "" {
      StripEmpty(m);
    } else {
      StepVerbatim(s, m);
      StripStep(s, m);
      hide Step, Strip, Show, NoOpener;
      var r := Step(s, m);
      NoOpenerIsKept(s[r.used..], r.next);
      assert s[..r.used] + s[r.used..] == s;
    }
  }

  /** A text is left alone exactly when the toggle scan finds no comment opener outside quotes. */
  lemma StripIsIdentity(s: string)
    ensures Strip(s, Plain) == s <==> NoOpener(s, Out)
  {
    StripHasNoOpener(s, Plain);
    if NoOpener(s, Out) {
      NoOpenerIsKept(s, Plain);
    }
  }

  /** Stripping twice is stripping once. */
  lemma StripIdempotent(s: string)
    ensures Strip(Strip(s, Plain), Plain) == Strip(s, Plain)
  {
    StripHasNoOpener(s, Plain);
    NoOpenerIsKept(Strip(s, Plain), Plain);
  }

  function Newlines(s: string): nat {
    if s == "" then 0 else (if s[0] == '\n' then 1 else 0) + Newlines(s[1..])
  }

  lemma {:induction false} NewlinesAppend(a: string, b: string)
    ensures Newlines(a + b) == Newlines(a) + Newlines(b)
  {
    if a == "" {
      assert a + b == b;
    } else {
      assert (a + b)[1..] == a[1..] + b;
      NewlinesAppend(a[1..], b);
    }
  }

  lemma NewlinesShort(a: char, b: char)
    ensures Newlines([a]) == if a == '\n' then 1 else 0
    ensures Newlines([a, b]) == Newlines([a]) + Newlines([b])
  {
    assert [a, b][1..] == [b];
  }

  lemma StepNewlines(s: string, m: Mode)
    requires s != "" && ValidMode(m)
    ensures var r := Step(s, m);
            Newlines(Show(r.tokens)) == Newlines(s[..r.used]) && |r.tokens| <= r.used && ValidMode(r.next)
  {
    var r := Step(s, m);
    NewlinesShort(s[0], if r.used == 2 then s[1] else ' ');
    NewlinesShort(' ', ' ');
    hide Newlines;
    assert s[..r.used] == if r.used == 2 then [s[0], s[1]] else [s[0]];
    assert r.tokens != [] ==> Show(r.tokens) == if |r.tokens| == 2 then [s[0], s[1]] else [Shown(r.tokens[0])];
    assert Newlines("") == 0 by {
      NewlinesAppend("", "");
      assert "" + "" == "";
    }
  }

  /** The output has as many newlines as the input and is never longer. */
  lemma {:induction false} StripKeepsNewlines(s: string, m: Mode)
    requires ValidMode(m)
    ensures Newlines(Strip(s, m)) == Newlines(s)
    ensures |Strip(s, m)| <= |s|
    decreases |s|
  {
    if s == "" {
      StripEmpty(m);
    } else {
      StripStep(s, m);
      StepNewlines(s, m);
      hide Step, Strip, Newlines, Show;
      var r := Step(s, m);
      var head, rest := s[..r.used], s[r.used..];
      StripKeepsNewlines(rest, r.next);
      NewlinesAppend(Show(r.tokens), Strip(rest, r.next));
      NewlinesAppend(head, rest);
      assert head + rest == s;
    }
  }

  /** A quoting state that an escape skips over is the state before it. */
  lemma StepScan(s: string, m: Mode, i: nat)
    requires s != "" && !m.InLine? && !m.InBlock? && ValidMode(m) && NoOpener(s, QuoteOf(m))
    requires i < |s| && !IsQuote(s[i])
    ensures var r := Step(s, m);
            && !r.next.InLine? && !r.next.InBlock? && ValidMode(r.next) && NoOpener(s[r.used..], QuoteOf(r.next))
            && (i > 0 ==> r.used <= i && Scan(s[..i], QuoteOf(m)) == Scan(s[r.used..][..i - r.used], QuoteOf(r.next)))
            && (i == 0 ==> r.tokens == [if QuoteOf(m) == Out then Code(s[i]) else Quoted(s[i])])
            && |r.tokens| == r.used
  {
    StepVerbatim(s, m);
    StepStates(s, m);
    hide NoOpener, Show;
    var r := Step(s, m);
    if i > 0 {
      var head, rest := s[..r.used], s[r.used..][..i - r.used];
      assert s[..i] == head + rest;
      ScanAppend(head, rest, QuoteOf(m));
      hide Scan;
    }
  }

  /** A step reads its characters from the state of its mode to the state of the next. */
  lemma StepStates(s: string, m: Mode)
    requires s != "" && !m.InLine? && !m.InBlock? && ValidMode(m) && NoOpener(s, QuoteOf(m))
    ensures var r := Step(s, m); Scan(s[..r.used], QuoteOf(m)) == QuoteOf(r.next) && (r.used == 2 ==> IsQuote(s[1]))
  {
    var r := Step(s, m);
    ScanShort(s[0], if r.used == 2 then s[1] else ' ', QuoteOf(m));
    hide Scan;
    assert s[..r.used] == if r.used == 2 then [s[0], s[1]] else [s[0]];
  }

  lemma ScanShort(a: char, b: char, q: Quote)
    ensures Scan([a], q) == Next(q, a) && Scan([a, b], q) == Next(Next(q, a), b)
  {
    ScanAppend([a], [b], q);
    assert [a] + [b] == [a, b];
  }

  /** Without comment openers the tokens mark as quoted just the characters the toggle scan calls quoted. */
  lemma {:induction false} TokensAgree(s: string, m: Mode, i: nat)
    requires !m.InLine? && !m.InBlock? && ValidMode(m)
    requires NoOpener(s, QuoteOf(m)) && i < |s| && !IsQuote(s[i])
    ensures |Tokens(s, m)| == |s|
    ensures Tokens(s, m)[i] == if Scan(s[..i], QuoteOf(m)) == Out then Code(s[i]) else Quoted(s[i])
    decreases |s|
  {
    NoOpenerIsKept(s, m);
    StepScan(s, m, i);
    hide Step, NoOpener, Scan;
    var r := Step(s, m);
    if i > 0 {
      TokensAgree(s[r.used..], r.next, i - r.used);
    } else {
      assert s[..0] == "";
      ScanPlain("", QuoteOf(m));
    }
  }

  // ---- What counts as a comment, by printing texts with comments in them ----

  /** A text put together from code characters, quoted tokens, and comments given by their bodies. */
  datatype Piece =
    | Letter(c: char) | Delimited(quote: char, body: string) | LineComment(body: string) | BlockComment(body: string)

  function Print(ps: seq<Piece>): string {
    if ps == [] then "" else
      var rest := Print(ps[1..]);
      match ps[0]
      case Letter(c) => [c] + rest
      case Delimited(quote, body) => [quote] + (Doubled(body, quote) + ([quote] + rest))
      case LineComment(body) => "--" + (body + ("\n" + rest))
      case BlockComment(body) => "/*" + (body + ("*/" + rest))
  }

  function OnlyNewlines(s: string): string {
    if s == "" then "" else (if s[0] == '\n' then "\n" else "") + OnlyNewlines(s[1..])
  }

  /** The same text with each comment blanked. */
  function PrintBlanked(ps: seq<Piece>): string {
    if ps == [] then "" else
      var rest := PrintBlanked(ps[1..]);
      match ps[0]
      case Letter(c) => [c] + rest
      case Delimited(quote, body) => [quote] + (Doubled(body, quote) + ([quote] + rest))
      case LineComment(_) => " \n" + rest
      case BlockComment(body) => " " + OnlyNewlines(body) + rest
  }

  predicate Begins(s: string, c: char) {
    s != "" && s[0] == c
  }

  /** The pieces are what their text shows: no two neighbours form an opener or an escape between them. */
  predicate Readable(ps: seq<Piece>) {
    ps == [] ||
    var rest := Print(ps[1..]);
    && Readable(ps[1..])
    && match ps[0]
       case Letter(c) => !IsQuote(c) && !(c == '-' && Begins(rest, '-')) && !(c == '/' && Begins(rest, '*'))
       case Delimited(quote, _) => IsQuote(quote) && !Begins(rest, quote)
       case LineComment(body) => '\n' !in body
       case BlockComment(body) => forall i | 0 <= i < |body| - 1 :: !(body[i] == '*' && body[i + 1] == '/')
  }

  lemma StripLetter(c: char, rest: string)
    requires !IsQuote(c) && !(c == '-' && Begins(rest, '-')) && !(c == '/' && Begins(rest, '*'))
    ensures Strip([c] + rest, Plain) == [c] + Strip(rest, Plain)
  {
    StripStep([c] + rest, Plain);
    assert ([c] + rest)[1..] == rest;
    Front(c, rest);
    ShowOne(Code(c));
    hide Strip, Show;
  }

  lemma StripEscape(c: char, rest: string)
    ensures Strip([c, c] + rest, InQuote(c)) == [c, c] + Strip(rest, InQuote(c))
  {
    var s := [c, c] + rest;
    StripStep(s, InQuote(c));
    assert s[2..] == rest;
    ShowOne(Quoted(c));
    hide Strip, Show;
  }

  lemma StripQuotedChar(c: char, quote: char, rest: string)
    requires c != quote || !Begins(rest, quote)
    ensures Strip([c] + rest, InQuote(quote)) == [c] + Strip(rest, if c == quote then Plain else InQuote(quote))
  {
    StripStep([c] + rest, InQuote(quote));
    assert ([c] + rest)[1..] == rest;
    Front(c, rest);
    ShowOne(Quoted(c));
    hide Strip, Show;
  }

  lemma {:induction false} StripQuotedBody(body: string, quote: char, rest: string)
    requires !Begins(rest, quote)
    ensures Strip(Doubled(body, quote) + ([quote] + rest), InQuote(quote))
         == Doubled(body, quote) + ([quote] + Strip(rest, Plain))
  {
    var tail, written := [quote] + rest, [quote] + Strip(rest, Plain);
    if body == "" {
      StripQuotedChar(quote, quote, rest);
      assert Doubled(body, quote) + tail == tail && Doubled(body, quote) + written == written;
    } else {
      DoubledStep(body, quote);
      var more := Doubled(body[1..], quote);
      StripQuotedBody(body[1..], quote, rest);
      hide Strip, Doubled;
      if body[0] == quote {
        StripEscape(quote, more + tail);
        Assoc([quote, quote], more, tail);
        Assoc([quote, quote], more, written);
      } else {
        StripQuotedChar(body[0], quote, more + tail);
        Assoc([body[0]], more, tail);
        Assoc([body[0]], more, written);
      }
    }
  }

  lemma StripOpen(quote: char, rest: string)
    requires IsQuote(quote)
    ensures Strip([quote] + rest, Plain) == [quote] + Strip(rest, InQuote(quote))
  {
    StripStep([quote] + rest, Plain);
    assert ([quote] + rest)[1..] == rest;
    ShowOne(Quoted(quote));
    hide Strip, Show;
  }

  lemma StripOpeners(rest: string)
    ensures Strip("--" + rest, Plain) == " " + Strip(rest, InLine)
    ensures Strip("/*" + rest, Plain) == " " + Strip(rest, InBlock('\0'))
  {
    var a, b := "--" + rest, "/*" + rest;
    StripStep(a, Plain);
    StripStep(b, Plain);
    assert a[2..] == rest && b[2..] == rest;
    ShowOne(Gap);
    hide Strip, Show;
  }

  lemma {:induction false} StripLine(body: string, rest: string)
    requires '\n' !in body
    ensures Strip(body + ("\n" + rest), InLine) == "\n" + Strip(rest, Plain)
  {
    var tail := "\n" + rest;
    if body == "" {
      assert body + tail == tail && tail[1..] == rest;
      StripStep(tail, InLine);
      ShowOne(Break);
    } else {
      var s := body + tail;
      assert s[1..] == body[1..] + tail;
      StripStep(s, InLine);
      ShowOne(Break);
      StripLine(body[1..], rest);
      assert "" + ("\n" + Strip(rest, Plain)) == "\n" + Strip(rest, Plain);
    }
    hide Strip, Show;
  }

  lemma StripBlockChar(c: char, previous: char, rest: string)
    requires !(previous == '*' && c == '/')
    ensures Strip([c] + rest, InBlock(previous)) == OnlyNewlines([c]) + Strip(rest, InBlock(c))
  {
    StripStep([c] + rest, InBlock(previous));
    assert ([c] + rest)[1..] == rest;
    ShowOne(Break);
    assert [c][1..] == "" && OnlyNewlines("") == "" && OnlyNewlines([c]) == if c == '\n' then "\n" else "";
    hide Strip, Show;
  }

  lemma StripBlockEnd(previous: char, rest: string)
    ensures Strip("*/" + rest, InBlock(previous)) == Strip(rest, Plain)
  {
    StripBlockChar('*', previous, "/" + rest);
    assert "*/" + rest == ['*'] + ("/" + rest);
    StripStep("/" + rest, InBlock('*'));
    assert ("/" + rest)[1..] == rest;
    ShowOne(Break);
    hide Strip, Show;
    assert OnlyNewlines(['*']) == "" by {
      assert ['*'][1..] == "";
    }
  }

  lemma OnlyNewlinesCons(s: string)
    requires s != ""
    ensures OnlyNewlines(s) == OnlyNewlines([s[0]]) + OnlyNewlines(s[1..])
  {
    assert [s[0]][1..] == "";
  }

  lemma {:induction false} StripBlock(body: string, previous: char, rest: string)
    requires forall i | 0 <= i < |body| - 1 :: !(body[i] == '*' && body[i + 1] == '/')
    requires body != "" ==> !(previous == '*' && body[0] == '/')
    ensures Strip(body + ("*/" + rest), InBlock(previous)) == OnlyNewlines(body) + Strip(rest, Plain)
    decreases |body|
  {
    var tail := "*/" + rest;
    if body == "" {
      StripBlockEnd(previous, rest);
      hide Strip;
      assert body + tail == tail;
    } else {
      hide Strip, OnlyNewlines;
      var c, more := body[0], body[1..];
      forall i | 0 <= i < |more| - 1
        ensures !(more[i] == '*' && more[i + 1] == '/')
      {
        assert more[i] == body[i + 1];
      }
      StripBlock(more, c, rest);
      StripBlockChar(c, previous, more + tail);
      OnlyNewlinesCons(body);
      Uncons(body);
      Assoc([c], more, tail);
      Assoc(OnlyNewlines([c]), OnlyNewlines(more), Strip(rest, Plain));
    }
  }

  /**
   Comments are exactly what the printed text shows as comments: stripping it blanks every line and block
   comment, whatever their bodies hold, and nothing else, comment openers inside quotes included.
   */
  lemma {:induction false} StripsExactlyComments(ps: seq<Piece>)
    requires Readable(ps)
    ensures Strip(Print(ps), Plain) == PrintBlanked(ps)
  {
    if ps == [] {
      StripEmpty(Plain);
    } else {
      var rest := Print(ps[1..]);
      StripsExactlyComments(ps[1..]);
      hide Strip, OnlyNewlines;
      match ps[0] {
        case Letter(c) => StripLetter(c, rest);
        case Delimited(quote, body) =>
          StripOpen(quote, Doubled(body, quote) + ([quote] + rest));
          StripQuotedBody(body, quote, rest);
        case LineComment(body) =>
          StripOpeners(body + ("\n" + rest));
          StripLine(body, rest);
          Assoc(" ", "\n", Strip(rest, Plain));
        case BlockComment(body) =>
          StripOpeners(body + ("*/" + rest));
          StripBlock(body, '\0', rest);
          Assoc(" ", OnlyNewlines(body), Strip(rest, Plain));
      }
    }
  }
}
