/**
 Splitting an Exasol script into statements. A simple statement ends with a line that ends in a semicolon; a
 CREATE ... FUNCTION or CREATE ... SCRIPT ends with a line that holds only a slash.
 */
module Script {
  import opened Sequences
  import opened Text

  /** `str::lines`: a line ends with a newline, and a carriage return before that newline is dropped. */
  function Lines(text: string): seq<string>
    decreases |text|
  {
    if text == "" then [] else
      var k := LineLength(text);
      if k == |text| then [text] else [DropReturn(text[..k])] + Lines(text[k + 1..])
  }

  function LineLength(text: string): (k: nat)
    ensures k <= |text|
  {
    if text == "" || text[0] == '\n' then 0 else 1 + LineLength(text[1..])
  }

  function DropReturn(line: string): string {
    if line != "" && line[|line| - 1] == '\r' then line[..|line| - 1] else line
  }

  function ToAsciiUpper(s: string): string {
    seq(|s|, i requires 0 <= i < |s| => if 'a' <= s[i] <= 'z' then (s[i] as int - 32) as char else s[i])
  }

  function Contains(s: string, part: string): bool {
    part <= s || (s != "" && Contains(s[1..], part))
  }

  /** The trimmed line that makes the statement a compound one. */
  predicate StartsCompound(stripped: string) {
    var upper := ToAsciiUpper(stripped);
    "CREATE" <= upper && (Contains(" " + upper + " ", " FUNCTION ") || Contains(" " + upper + " ", " SCRIPT "))
  }

  // ---- Which lines begin a compound statement ----

  predicate PartAt(s: string, part: string, i: nat) {
    i + |part| <= |s| && s[i..i + |part|] == part
  }

  lemma {:induction false} ContainsSomewhere(s: string, part: string)
    ensures Contains(s, part) <==> exists i: nat :: PartAt(s, part, i)
  {
    if part <= s {
      assert s[0..|part|] == part && PartAt(s, part, 0);
    } else {
      assert !PartAt(s, part, 0);
      if s != "" {
        ContainsSomewhere(s[1..], part);
        if i: nat :| PartAt(s[1..], part, i) {
          PartBehind(s, part, i);
        }
        if i: nat :| PartAt(s, part, i) {
          PartBehind(s, part, i - 1);
        }
      }
    }
  }

  lemma PartBehind(s: string, part: string, i: nat)
    requires s != ""
    ensures PartAt(s[1..], part, i) <==> PartAt(s, part, i + 1)
  {
    if i + 1 + |part| <= |s| {
      assert s[1..][i..i + |part|] == s[i + 1..i + 1 + |part|];
    }
  }

  /** At `i` stands `word`, in any case, with a space or an end of the text on either side. */
  predicate WordAt(s: string, word: string, i: nat) {
    && i + |word| <= |s| && EqIgnoreAsciiCase(s[i..i + |word|], word)
    && (i == 0 || s[i - 1] == ' ') && (i + |word| == |s| || s[i + |word|] == ' ')
  }

  ghost predicate Capitals(word: string) {
    word != "" && forall i | 0 <= i < |word| :: 'A' <= word[i] <= 'Z'
  }

  lemma UpperSlice(s: string, word: string, i: nat)
    requires Capitals(word) && i + |word| <= |s|
    ensures ToAsciiUpper(s)[i..i + |word|] == word <==> EqIgnoreAsciiCase(s[i..i + |word|], word)
  {
    var u, part := ToAsciiUpper(s)[i..i + |word|], s[i..i + |word|];
    forall k | 0 <= k < |word|
      ensures u[k] == word[k] <==> ToAsciiLower(part[k]) == ToAsciiLower(word[k])
    {
      assert u[k] == ToAsciiUpper(s)[i + k] && part[k] == s[i + k];
    }
  }

  /** A padded word in the padded text is the word between spaces or ends. */
  lemma PaddedAt(u: string, word: string, i: nat)
    ensures PartAt(" " + u + " ", " " + word + " ", i)
       <==> && i + |word| <= |u| && u[i..i + |word|] == word
            && (i == 0 || u[i - 1] == ' ') && (i + |word| == |u| || u[i + |word|] == ' ')
  {
    var n := |word|;
    if i + n <= |u| {
      PaddedSlice(u, i, n);
      Framed(CharBefore(u, i), u[i..i + n], CharBehind(u, i + n), ' ', word, ' ');
      assert i + |" " + word + " "| == i + n + 2;
    }
  }

  /** The character before or behind a position; beyond the ends stands a space. */
  function CharBefore(u: string, i: nat): char
    requires i <= |u|
  {
    if i == 0 then ' ' else u[i - 1]
  }

  function CharBehind(u: string, i: nat): char
    requires i <= |u|
  {
    if i == |u| then ' ' else u[i]
  }

  lemma PaddedSlice(u: string, i: nat, n: nat)
    requires i + n <= |u|
    ensures |" " + u + " "| == |u| + 2
    ensures (" " + u + " ")[i..i + n + 2] == [CharBefore(u, i)] + u[i..i + n] + [CharBehind(u, i + n)]
  {
    var p := " " + u + " ";
    forall k | 0 <= k < |u| + 2
      ensures p[k] == if k == 0 || k == |u| + 1 then ' ' else u[k - 1]
    {
    }
  }

  lemma Framed<T>(a: T, x: seq<T>, b: T, c: T, y: seq<T>, d: T)
    requires |x| == |y|
    ensures [a] + x + [b] == [c] + y + [d] <==> a == c && x == y && b == d
  {
    var l, r, n := [a] + x + [b], [c] + y + [d], |x|;
    assert l[0] == a && l[1..n + 1] == x && l[n + 1] == b;
    assert r[0] == c && r[1..n + 1] == y && r[n + 1] == d;
  }

  lemma WordInside(s: string, word: string)
    requires Capitals(word)
    ensures Contains(" " + ToAsciiUpper(s) + " ", " " + word + " ") <==> exists i: nat :: WordAt(s, word, i)
  {
    var u := ToAsciiUpper(s);
    ContainsSomewhere(" " + u + " ", " " + word + " ");
    hide *;
    forall i: nat
      ensures PartAt(" " + u + " ", " " + word + " ", i) <==> WordAt(s, word, i)
    {
      PaddedWordAt(s, word, i);
    }
  }

  lemma PaddedWordAt(s: string, word: string, i: nat)
    requires Capitals(word)
    ensures PartAt(" " + ToAsciiUpper(s) + " ", " " + word + " ", i) <==> WordAt(s, word, i)
  {
    PaddedAt(ToAsciiUpper(s), word, i);
    if i + |word| <= |s| {
      UpperSlice(s, word, i);
    }
    hide PartAt, EqIgnoreAsciiCase;
  }

  /**
   A line begins a compound statement exactly if it starts with the letters CREATE and one of its words between
   spaces is FUNCTION or SCRIPT, all in any case.
   */
  lemma StartsCompoundExact(stripped: string)
    ensures StartsCompound(stripped)
       <==> && |stripped| >= 6 && EqIgnoreAsciiCase(stripped[..6], "CREATE")
            && ((exists i: nat :: WordAt(stripped, "FUNCTION", i)) || exists i: nat :: WordAt(stripped, "SCRIPT", i))
  {
    PaddedWords();
    CompoundBy(stripped, "CREATE", "FUNCTION", "SCRIPT");
    hide Contains, WordAt, EqIgnoreAsciiCase, ToAsciiUpper;
  }

  lemma PaddedWords()
    ensures " " + "FUNCTION" + " " == " FUNCTION " && " " + "SCRIPT" + " " == " SCRIPT "
  {
  }

  lemma CompoundBy(s: string, start: string, word: string, other: string)
    requires Capitals(start) && Capitals(word) && Capitals(other)
    ensures && start <= ToAsciiUpper(s)
            && (Contains(" " + ToAsciiUpper(s) + " ", " " + word + " ")
                || Contains(" " + ToAsciiUpper(s) + " ", " " + other + " "))
       <==> && |s| >= |start| && EqIgnoreAsciiCase(s[..|start|], start)
            && ((exists i: nat :: WordAt(s, word, i)) || exists i: nat :: WordAt(s, other, i))
  {
    WordInside(s, word);
    WordInside(s, other);
    StartsExact(s, start);
    hide *;
  }

  lemma StartsExact(s: string, word: string)
    requires Capitals(word)
    ensures word <= ToAsciiUpper(s) <==> |s| >= |word| && EqIgnoreAsciiCase(s[..|word|], word)
  {
    var u := ToAsciiUpper(s);
    if |s| >= |word| {
      UpperSlice(s, word, 0);
      assert s[0..|word|] == s[..|word|] && u[0..|word|] == u[..|word|];
    }
  }

  predicate EndsWith(s: string, c: char) {
    s != "" && s[|s| - 1] == c
  }

  /** A line that is skipped between statements. */
  predicate Filler(line: string) {
    Trim(line) == "" || "--" <= Trim(line)
  }

  /** Blank lines, and lines whose first characters other than white space are two dashes. */
  lemma FillerExact(line: string)
    ensures Filler(line) <==> Blank(line) || exists i: nat :: Blank(line[..Min(i, |line|)]) && DashesAt(line, i)
  {
    var lo, hi := TrimSpan(line);
    var stripped := Trim(line);
    hide Trim;
    if lo == hi {
      assert line == line[..lo] + line[hi..];
      assert forall i: nat :: !DashesAt(line, i);
    } else {
      assert stripped[0] == line[lo];
      assert !Blank(line);
      if "--" <= stripped {
        assert stripped[1] == line[lo + 1] && DashesAt(line, lo) && Blank(line[..Min(lo, |line|)]);
      }
      if i: nat :| Blank(line[..Min(i, |line|)]) && DashesAt(line, i) {
        FirstDark(line, lo, i);
        DarkInside(line, hi, lo + 1);
        assert stripped[1] == line[lo + 1];
      }
    }
  }

  function Min(a: nat, b: nat): nat { if a < b then a else b }

  predicate DashesAt(line: string, i: nat) {
    i + 1 < |line| && line[i] == '-' && line[i + 1] == '-'
  }

  lemma FirstDark(line: string, lo: nat, i: nat)
    requires lo < |line| && Blank(line[..lo]) && !IsSpace(line[lo])
    requires i < |line| && Blank(line[..i]) && !IsSpace(line[i])
    ensures i == lo
  {
    BlankAhead(line, lo);
    BlankAhead(line, i);
  }

  lemma BlankAhead(line: string, n: nat)
    requires n <= |line| && Blank(line[..n])
    ensures forall k | 0 <= k < n :: IsSpace(line[k])
  {
    forall k | 0 <= k < n
      ensures IsSpace(line[k])
    {
      assert line[..n][k] == line[k];
    }
  }

  lemma DarkInside(line: string, hi: nat, i: nat)
    requires hi <= |line| && Blank(line[hi..]) && i < |line| && !IsSpace(line[i])
    ensures i < hi
  {
    forall k | hi <= k < |line|
      ensures IsSpace(line[k])
    {
      assert line[hi..][k - hi] == line[k];
    }
  }

  function WithoutSemicolon(lines: seq<string>): string {
    Trim(TrimEndChar(Trim(Join(lines, "\n")), ';'))
  }

  /** The statements found from here on, with `buffer` read so far of the current one. */
  function SplitLines(lines: seq<string>, buffer: seq<string>, compound: bool): seq<string>
    decreases |lines|
  {
    if lines == [] then Keep(WithoutSemicolon(buffer)) else
      var raw, rest := lines[0], lines[1..];
      var stripped := Trim(raw);
      if stripped == "--/" || (buffer == [] && Filler(raw)) then SplitLines(rest, buffer, compound)
      else
        var inCompound := compound || StartsCompound(stripped);
        if inCompound && stripped == "/" then Keep(Trim(Join(buffer, "\n"))) + SplitLines(rest, [], false)
        else if !inCompound && EndsWith(stripped, ';') then
          Keep(WithoutSemicolon(buffer + [raw])) + SplitLines(rest, [], false)
        else SplitLines(rest, buffer + [raw], inCompound)
  }

  method SplitExasolSql(sqlText: string) returns (statements: seq<string>)
    ensures statements == SplitLines(Lines(sqlText), [], false)
  {
    statements := [];
    var buffer: seq<string> := [];
    var inCompoundStatement := false;
    var lines := Lines(sqlText);
    ghost var all := SplitLines(lines, [], false);
    assert lines[0..] == lines;
    hide SplitLines, StartsCompound, WithoutSemicolon;
    for i := 0 to |lines|
      invariant statements + SplitLines(lines[i..], buffer, inCompoundStatement) == all
    {
      OneLine(lines, i, buffer, inCompoundStatement, statements);
      var rawLine := lines[i];
      var stripped := Trim(rawLine);
      if stripped == "--/" {
        continue;
      }
      if buffer == [] && (stripped == "" || "--" <= stripped) {
        continue;
      }
      buffer := buffer + [rawLine];
      if StartsCompound(stripped) {
        inCompoundStatement := true;
      }
      if inCompoundStatement && stripped == "/" {
        assert buffer[..|buffer| - 1] + [rawLine] == buffer;
        statements := statements + Keep(Trim(Join(buffer[..|buffer| - 1], "\n")));
        buffer := [];
        inCompoundStatement := false;
      } else if !inCompoundStatement && EndsWith(stripped, ';') {
        statements := statements + Keep(WithoutSemicolon(buffer));
        buffer := [];
      }
    }
    assert lines[|lines|..] == [];
    NoLines(buffer, inCompoundStatement);
    statements := statements + Keep(WithoutSemicolon(buffer));
  }

  lemma NoLines(buffer: seq<string>, compound: bool)
    ensures SplitLines([], buffer, compound) == Keep(WithoutSemicolon(buffer))
  {
  }

  /** What the loop does with line `i`, in terms of the statements still to come. */
  lemma OneLine(lines: seq<string>, i: nat, buffer: seq<string>, compound: bool, done: seq<string>)
    requires i < |lines|
    ensures var raw, rest := lines[i], lines[i + 1..];
            var stripped, inCompound := Trim(raw), compound || StartsCompound(Trim(raw));
            var all := done + SplitLines(lines[i..], buffer, compound);
            if stripped == "--/" || (buffer == [] && Filler(raw)) then done + SplitLines(rest, buffer, compound) == all
            else if inCompound && stripped == "/" then
              done + Keep(Trim(Join(buffer, "\n"))) + SplitLines(rest, [], false) == all
            else if !inCompound && EndsWith(stripped, ';') then
              done + Keep(WithoutSemicolon(buffer + [raw])) + SplitLines(rest, [], false) == all
            else done + SplitLines(rest, buffer + [raw], inCompound) == all
  {
    var raw, rest := lines[i], lines[i + 1..];
    assert lines[i..][1..] == rest;
    hide StartsCompound, WithoutSemicolon, Trim, Join, Keep;
    Assoc(done, Keep(Trim(Join(buffer, "\n"))), SplitLines(rest, [], false));
    Assoc(done, Keep(WithoutSemicolon(buffer + [raw])), SplitLines(rest, [], false));
  }

  // ---- Printing a script ----

  /** A statement, given by its lines. */
  datatype Statement = Simple(lines: seq<string>) | Compound(lines: seq<string>)

  function Printed(st: Statement): seq<string>
    requires st.lines != []
  {
    match st
    case Simple(lines) => lines[..|lines| - 1] + [lines[|lines| - 1] + ";"]
    case Compound(lines) => lines + ["/"]
  }

  /** Until its last line nothing in a simple statement looks like an end or like a compound statement. */
  predicate SimpleBody(lines: seq<string>)
    requires lines != []
  {
    if |lines| == 1 then !StartsCompound(Trim(lines[0] + ";"))
    else
      var stripped := Trim(lines[0]);
      stripped != "--/" && !StartsCompound(stripped) && !EndsWith(stripped, ';') && SimpleBody(lines[1..])
  }

  /** Up to the CREATE line no line ends with a semicolon; from there on no line is a lone slash. */
  predicate CompoundBody(lines: seq<string>, compound: bool) {
    if lines == [] then compound
    else
      var stripped := Trim(lines[0]);
      var inCompound := compound || StartsCompound(stripped);
      && stripped != "--/"
      && (if inCompound then stripped != "/" else !EndsWith(stripped, ';'))
      && CompoundBody(lines[1..], inCompound)
  }

  /** A trimmed, non-empty text that starts with no comment and does not end with a semicolon. */
  predicate Printable(st: Statement) {
    && st.lines != [] && !Filler(st.lines[0])
    && Join(st.lines, "\n") != "" && Trimmed(Join(st.lines, "\n"))
    && (st.Simple? ==> !EndsWith(Join(st.lines, "\n"), ';') && SimpleBody(st.lines) && !Filler(st.lines[0] + ";"))
    && (st.Compound? ==> CompoundBody(st.lines, false))
  }

  lemma LineCons(first: string, rest: seq<string>, buffer: seq<string>, compound: bool)
    requires Trim(first) != "--/" && (buffer == [] ==> !Filler(first))
    ensures var stripped, inCompound := Trim(first), compound || StartsCompound(Trim(first));
            SplitLines([first] + rest, buffer, compound) ==
            if inCompound && stripped == "/" then Keep(Trim(Join(buffer, "\n"))) + SplitLines(rest, [], false)
            else if !inCompound && EndsWith(stripped, ';') then
              Keep(WithoutSemicolon(buffer + [first])) + SplitLines(rest, [], false)
            else SplitLines(rest, buffer + [first], inCompound)
  {
    assert ([first] + rest)[1..] == rest;
  }

  lemma TrimSemicolon(line: string)
    ensures EndsWith(Trim(line + ";"), ';') && Trim(line + ";") != "--/"
  {
    hide Trim;
    var ended := line + ";";
    assert ended[0..|ended|] == ended && ended[|line|] == ';';
    var lo, hi := TrimWindow(ended, 0, |ended|);
    assert lo <= |line| < hi;
    assert ended[lo..hi][|line| - lo] == ';';
  }

  lemma {:induction false} ReadsSimple(buffer: seq<string>, lines: seq<string>, rest: seq<string>)
    requires lines != [] && SimpleBody(lines)
    requires buffer == [] ==> !Filler(if |lines| == 1 then lines[0] + ";" else lines[0])
    ensures SplitLines(Printed(Simple(lines)) + rest, buffer, false)
         == Keep(WithoutSemicolon(buffer + Printed(Simple(lines)))) + SplitLines(rest, [], false)
    decreases |lines|
  {
    var printed := Printed(Simple(lines));
    if |lines| == 1 {
      TrimSemicolon(lines[0]);
      assert printed == [lines[0] + ";"];
      LineCons(lines[0] + ";", rest, buffer, false);
      hide *;
    } else {
      var more := Printed(Simple(lines[1..]));
      assert printed == [lines[0]] + more;
      LineCons(lines[0], more + rest, buffer, false);
      ReadsSimple(buffer + [lines[0]], lines[1..], rest);
      hide SplitLines, WithoutSemicolon, StartsCompound, Trim, SimpleBody, Printed, Keep, Filler;
      Assoc([lines[0]], more, rest);
      Assoc(buffer, [lines[0]], more);
    }
  }

  lemma {:induction false} ReadsCompound(buffer: seq<string>, lines: seq<string>, compound: bool, rest: seq<string>)
    requires CompoundBody(lines, compound)
    requires buffer == [] ==> lines != [] && !Filler(lines[0])
    ensures SplitLines(lines + ["/"] + rest, buffer, compound)
         == Keep(Trim(Join(buffer + lines, "\n"))) + SplitLines(rest, [], false)
    decreases |lines|
  {
    if lines == [] {
      SlashTrims();
      LineCons("/", rest, buffer, compound);
      assert lines + ["/"] + rest == ["/"] + rest && buffer + lines == buffer;
      hide *;
    } else {
      var first, more := lines[0], lines[1..];
      LineCons(first, more + ["/"] + rest, buffer, compound);
      hide SplitLines, StartsCompound, Trim, Keep, Filler, Join;
      ReadsCompound(buffer + [first], more, compound || StartsCompound(Trim(first)), rest);
      FirstOf(lines, ["/"] + rest);
      Assoc(more, ["/"], rest);
      Assoc(lines, ["/"], rest);
      Assoc(buffer, [first], more);
      FirstOf(lines, []);
      assert lines + [] == lines && more + [] == more;
    }
  }

  lemma FirstOf(lines: seq<string>, rest: seq<string>)
    requires lines != []
    ensures lines + rest == [lines[0]] + (lines[1..] + rest)
  {
  }

  lemma SlashTrims()
    ensures Trim("/") == "/"
  {
    assert "" + "/" + "" == "/";
    TrimPadded("", "/", "");
  }

  lemma {:induction false} JoinLast(lines: seq<string>, tail: string)
    requires lines != []
    ensures Join(lines[..|lines| - 1] + [lines[|lines| - 1] + tail], "\n") == Join(lines, "\n") + tail
  {
    var longer := lines[..|lines| - 1] + [lines[|lines| - 1] + tail];
    if |lines| > 1 {
      var rest := lines[1..];
      assert longer[1..] == rest[..|rest| - 1] + [rest[|rest| - 1] + tail];
      JoinLast(rest, tail);
    }
  }

  lemma TrimTrimmed(text: string)
    requires Trimmed(text)
    ensures Trim(text) == text
  {
    TrimPadded("", text, "");
    hide Trim;
    assert "" + text + "" == text;
  }

  lemma SemicolonTrims(text: string)
    requires text != "" && Trimmed(text) && !EndsWith(text, ';')
    ensures Trim(text + ";") == text + ";" && TrimEndChar(text + ";", ';') == text
  {
    var ended := text + ";";
    assert ended[0] == text[0] && ended[|ended| - 1] == ';' && ended[..|ended| - 1] == text;
    TrimTrimmed(ended);
    hide Trim;
  }

  lemma SemicolonComesOff(lines: seq<string>)
    requires lines != [] && Join(lines, "\n") != "" && Trimmed(Join(lines, "\n")) && !EndsWith(Join(lines, "\n"), ';')
    ensures WithoutSemicolon(Printed(Simple(lines))) == Join(lines, "\n")
  {
    JoinLast(lines, ";");
    SemicolonTrims(Join(lines, "\n"));
    TrimTrimmed(Join(lines, "\n"));
    hide Join, Trim, TrimEndChar;
  }

  /** One printed statement is read back, and the scan starts afresh behind it. */
  lemma ReadsStatement(st: Statement, rest: seq<string>)
    requires Printable(st)
    ensures SplitLines(Printed(st) + rest, [], false) == [Join(st.lines, "\n")] + SplitLines(rest, [], false)
  {
    assert [] + Printed(st) == Printed(st) && [] + st.lines == st.lines;
    hide SplitLines, WithoutSemicolon, Trim, Join, SimpleBody, CompoundBody, Filler;
    match st {
      case Simple(lines) =>
        ReadsSimple([], lines, rest);
        SemicolonComesOff(lines);
      case Compound(lines) =>
        ReadsCompound([], lines, false, rest);
        TrimTrimmed(Join(lines, "\n"));
    }
  }

  lemma {:induction false} SkipsFiller(filler: seq<string>, rest: seq<string>)
    requires forall line | line in filler :: Filler(line)
    ensures SplitLines(filler + rest, [], false) == SplitLines(rest, [], false)
  {
    if filler == [] {
      assert filler + rest == rest;
    } else {
      assert (filler + rest)[1..] == filler[1..] + rest && filler[0] in filler;
      SkipsFiller(filler[1..], rest);
    }
  }

  /** A statement with the blank and comment lines, `--/` included, in front of it. */
  datatype Item = Item(filler: seq<string>, statement: Statement)

  predicate PrintableItem(item: Item) {
    (forall line | line in item.filler :: Filler(line)) && Printable(item.statement)
  }

  function PrintedLines(items: seq<Item>, last: seq<string>): seq<string>
    requires forall item | item in items :: PrintableItem(item)
  {
    if items == [] then last else
      assert PrintableItem(items[0]);
      items[0].filler + (Printed(items[0].statement) + PrintedLines(items[1..], last))
  }

  function Texts(items: seq<Item>): seq<string> {
    if items == [] then [] else [Join(items[0].statement.lines, "\n")] + Texts(items[1..])
  }

  /** Lines that end no statement, so that a script may stop behind them. */
  predicate OpenBody(lines: seq<string>, compound: bool) {
    if lines == [] then true
    else
      var stripped := Trim(lines[0]);
      var inCompound := compound || StartsCompound(stripped);
      && stripped != "--/"
      && (if inCompound then stripped != "/" else !EndsWith(stripped, ';'))
      && OpenBody(lines[1..], inCompound)
  }

  /** A last statement without its semicolon or slash, or nothing. */
  predicate Unfinished(lines: seq<string>) {
    lines == [] ||
    (var text := Join(lines, "\n");
     !Filler(lines[0]) && text != "" && Trimmed(text) && !EndsWith(text, ';') && OpenBody(lines, false))
  }

  function LastText(lines: seq<string>): seq<string> {
    if lines == [] then [] else [Join(lines, "\n")]
  }

  lemma {:induction false} ReadsOpen(buffer: seq<string>, lines: seq<string>, compound: bool)
    requires OpenBody(lines, compound)
    requires buffer == [] ==> lines != [] && !Filler(lines[0])
    ensures SplitLines(lines, buffer, compound) == Keep(WithoutSemicolon(buffer + lines))
    decreases |lines|
  {
    if lines == [] {
      NoLines(buffer, compound);
      assert buffer + lines == buffer;
      hide *;
    } else {
      var first, more := lines[0], lines[1..];
      LineCons(first, more, buffer, compound);
      hide SplitLines, StartsCompound, WithoutSemicolon, Trim, Keep, Filler;
      ReadsOpen(buffer + [first], more, compound || StartsCompound(Trim(first)));
      Uncons(lines);
      Assoc(buffer, [first], more);
    }
  }

  lemma ReadsUnfinished(lines: seq<string>)
    requires Unfinished(lines)
    ensures SplitLines(lines, [], false) == LastText(lines)
  {
    if lines == [] {
      NoLines([], false);
      NothingLeft();
    } else {
      ReadsOpen([], lines, false);
      TrimTrimmed(Join(lines, "\n"));
      assert [] + lines == lines;
    }
    hide SplitLines, Trim, Join, OpenBody, Filler;
  }

  lemma {:induction false} SplitsPrintedLines(items: seq<Item>, last: seq<string>, open: seq<string>)
    requires forall item | item in items :: PrintableItem(item)
    requires (forall line | line in last :: Filler(line)) && Unfinished(open)
    ensures SplitLines(PrintedLines(items, last + open), [], false) == Texts(items) + LastText(open)
  {
    if items == [] {
      SkipsFiller(last, open);
      ReadsUnfinished(open);
      assert [] + LastText(open) == LastText(open);
    } else {
      var item, tail := items[0], PrintedLines(items[1..], last + open);
      assert item in items;
      SkipsFiller(item.filler, Printed(item.statement) + tail);
      ReadsStatement(item.statement, tail);
      SplitsPrintedLines(items[1..], last, open);
      Assoc([Join(item.statement.lines, "\n")], Texts(items[1..]), LastText(open));
    }
  }

  lemma NothingLeft()
    ensures Keep(WithoutSemicolon([])) == []
  {
  }

  // ---- From lines to text ----

  /** Every line with its line feed, and a carriage return before it where `ends` says so. */
  function Unlines(lines: seq<string>, ends: seq<bool>): string
    requires |lines| == |ends|
  {
    if lines == [] then "" else
      lines[0] + (if ends[0] then "\r" else "") + "\n" + Unlines(lines[1..], ends[1..])
  }

  /** A line that `lines()` returns unchanged. */
  predicate Line(line: string, returned: bool) {
    '\n' !in line && (returned || !EndsWith(line, '\r'))
  }

  lemma {:induction false} LineLengthOf(line: string, rest: string)
    requires '\n' !in line
    ensures LineLength(line + "\n" + rest) == |line|
  {
    var text := line + "\n" + rest;
    if line != "" {
      assert text[1..] == line[1..] + "\n" + rest;
      LineLengthOf(line[1..], rest);
    }
  }

  lemma FirstLine(line: string, returned: bool, rest: string)
    requires Line(line, returned)
    ensures Lines(line + (if returned then "\r" else "") + "\n" + rest) == [line] + Lines(rest)
  {
    var full := line + if returned then "\r" else "";
    var text := full + "\n" + rest;
    LineLengthOf(full, rest);
    assert text == line + (if returned then "\r" else "") + "\n" + rest;
    assert text[..|full|] == full && text[|full| + 1..] == rest;
    assert DropReturn(full) == line;
  }

  /** A line that no line feed ends. */
  function LastLine(tail: string): seq<string> {
    if tail == "" then [] else [tail]
  }

  lemma {:induction false} OnlyLine(tail: string)
    requires '\n' !in tail
    ensures LineLength(tail) == |tail|
  {
    if tail != "" {
      OnlyLine(tail[1..]);
    }
  }

  /** Lines come back as they were printed, whichever line ends were used, the last one without any or with one. */
  lemma {:induction false} LinesUnlines(lines: seq<string>, ends: seq<bool>, tail: string)
    requires |lines| == |ends| && forall i | 0 <= i < |lines| :: Line(lines[i], ends[i])
    requires '\n' !in tail
    ensures Lines(Unlines(lines, ends) + tail) == lines + LastLine(tail)
    decreases |lines|
  {
    if lines == [] {
      OnlyLine(tail);
      assert "" + tail == tail && [] + LastLine(tail) == LastLine(tail);
    } else {
      var first, rest := lines[0] + (if ends[0] then "\r" else "") + "\n", Unlines(lines[1..], ends[1..]);
      FirstLine(lines[0], ends[0], rest + tail);
      LinesUnlines(lines[1..], ends[1..], tail);
      hide Lines, Line, LastLine;
      Assoc(first, rest, tail);
      Assoc([lines[0]], lines[1..], LastLine(tail));
      Uncons(lines);
    }
  }

  /** The lines other than `--/`. */
  function Unmarked(lines: seq<string>): seq<string> {
    if lines == [] then [] else (if Trim(lines[0]) == "--/" then [] else [lines[0]]) + Unmarked(lines[1..])
  }

  /** A line `--/` means nothing, wherever it stands. */
  lemma {:induction false} MarksIgnored(lines: seq<string>, buffer: seq<string>, compound: bool)
    ensures SplitLines(lines, buffer, compound) == SplitLines(Unmarked(lines), buffer, compound)
    decreases |lines|
  {
    if lines != [] {
      var raw, rest := lines[0], lines[1..];
      var stripped := Trim(raw);
      forall b: seq<string>, c: bool
        ensures SplitLines(rest, b, c) == SplitLines(Unmarked(rest), b, c)
      {
        MarksIgnored(rest, b, c);
      }
      if stripped == "--/" {
        assert [] + Unmarked(rest) == Unmarked(rest);
      } else {
        assert lines == [raw] + rest;
        if buffer == [] && Filler(raw) {
          FillerCons(raw, rest, compound);
          FillerCons(raw, Unmarked(rest), compound);
        } else {
          LineCons(raw, rest, buffer, compound);
          LineCons(raw, Unmarked(rest), buffer, compound);
        }
      }
      hide SplitLines, StartsCompound, WithoutSemicolon, Trim, Filler, Join, Keep, EndsWith;
    }
  }

  lemma FillerCons(line: string, rest: seq<string>, compound: bool)
    requires Filler(line)
    ensures SplitLines([line] + rest, [], compound) == SplitLines(rest, [], compound)
  {
    assert ([line] + rest)[1..] == rest;
  }

  /**
   Splitting undoes printing: simple statements with a semicolon and compound ones with a lone slash, in any
   order, with blank and comment lines in between, `--/` lines anywhere, either kind of line end and perhaps an
   unfinished statement at the end, come back as the same list. Semicolons inside a compound statement split nothing.
   */
  lemma SplitsPrintedScript(items: seq<Item>, last: seq<string>, open: seq<string>,
                            lines: seq<string>, ends: seq<bool>, tail: string)
    requires forall item | item in items :: PrintableItem(item)
    requires (forall line | line in last :: Filler(line)) && Unfinished(open)
    requires Unmarked(lines + LastLine(tail)) == Unmarked(PrintedLines(items, last + open))
    requires |ends| == |lines| && (forall i | 0 <= i < |lines| :: Line(lines[i], ends[i])) && '\n' !in tail
    ensures SplitLines(Lines(Unlines(lines, ends) + tail), [], false) == Texts(items) + LastText(open)
  {
    LinesUnlines(lines, ends, tail);
    MarksIgnored(lines + LastLine(tail), [], false);
    MarksIgnored(PrintedLines(items, last + open), [], false);
    SplitsPrintedLines(items, last, open);
  }
}
