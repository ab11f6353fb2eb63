/** The right-hand side of `SET search_path`: which schema the session opens. */
module SearchPath {
  import opened Sequences
  import opened Wrappers
  import opened Text
  import opened Quotes
  import opened Cleaning

  datatype Target = Single(schema: string) | Default | Invalid

  /** The loop that consumes a doubled quote as one escape, for both kinds of quotes. */
  method TopLevelCommaIndex(value: string) returns (index: Option<nat>)
    ensures index == CommaIndex(value)
  {
    hide FirstTop;
    var inDouble, inSingle := false, false;
    ghost var q := Out;
    var idx := 0;
    assert value[0..] == value;
    while idx < |value|
      invariant 0 <= idx <= |value|
      invariant inSingle == q.InSingle? && inDouble == q.InDouble?
      invariant Pending(value, 0, idx, q, ',')
    {
      var ch := value[idx];
      if ch == ',' && !inDouble && !inSingle {
        StopHere(value, 0, idx, q, ',');
        return Some(idx);
      }
      Advance(value, 0, idx, q, ',');
      q := Next(q, ch);
      if ch == '"' && !inSingle {
        if inDouble && idx + 1 < |value| && value[idx + 1] == '"' {
          idx := idx + 1;
          Advance(value, 0, idx, q, ',');
          q := Next(q, value[idx]);
        } else {
          inDouble := !inDouble;
        }
      } else if ch == '\'' && !inDouble {
        if inSingle && idx + 1 < |value| && value[idx + 1] == '\'' {
          idx := idx + 1;
          Advance(value, 0, idx, q, ',');
          q := Next(q, value[idx]);
        } else {
          inSingle := !inSingle;
        }
      }
      idx := idx + 1;
    }
    StopHere(value, 0, idx, q, ',');
    return None;
  }

  function CommaIndex(value: string): Option<nat> {
    var k := FirstTop(value, Out, ',');
    if k < |value| then Some(k) else None
  }

  function StripEnclosing(value: string, quote: char): Option<string> {
    if |value| < 2 || value[0] != quote || value[|value| - 1] != quote then None
    else Some(value[1..|value| - 1])
  }

  function ParseSearchPathValue(rhs: string): Target
    decreases |rhs|
  {
    var trimmed := Trim(rhs);
    if trimmed == "" then Invalid
    else if CommaIndex(trimmed).Some? then ParseSearchPathValue(trimmed[..CommaIndex(trimmed).value])
    else ParseEntry(trimmed)
  }

  /** A single entry of the list. */
  function ParseEntry(trimmed: string): Target {
    if EqIgnoreAsciiCase(trimmed, "DEFAULT") then Default
    else if StripEnclosing(trimmed, '"').Some? then
      NonEmpty(ReplaceAll(StripEnclosing(trimmed, '"').value, "\"\"", "\""))
    else if StripEnclosing(trimmed, '\'').Some? then
      NonEmpty(StripEnclosing(trimmed, '\'').value)
    else Single(trimmed)
  }

  function NonEmpty(schema: string): Target {
    if schema == "" then Invalid else Single(schema)
  }

  /** Only the first top-level entry of the list is parsed: the recursion is one level deep. */
  lemma OneLevel(rhs: string)
    ensures var trimmed := Trim(rhs);
            CommaIndex(trimmed).Some? ==>
              CommaIndex(Trim(trimmed[..CommaIndex(trimmed).value])) == None
  {
    var trimmed := Trim(rhs);
    FirstTopPrefix(trimmed, Out, ',');
    TrimmedNoTop(trimmed[..FirstTop(trimmed, Out, ',')], ',');
  }

  lemma EntryWithin(pre: string, entry: string, post: string)
    requires Blank(pre) && Blank(post)
    requires entry != "" && Trimmed(entry) && NoTop(entry, Out, ',')
    ensures ParseSearchPathValue(pre + entry + post) == ParseEntry(entry)
  {
    TrimPadded(pre, entry, post);
  }

  lemma TrimList(pre: string, head: string, rest: string) returns (tail: string)
    requires Blank(pre) && head != "" && !IsSpace(head[0])
    ensures Trim(pre + head + "," + rest) == head + [','] + tail
  {
    var body := head + "," + rest;
    assert pre + head + "," + rest == pre + body;
    TrimStartPadded(pre, body);
    TrimEndKeeps(body);
    var kept := TrimEnd(body);
    forall i | |kept| <= i < |body|
      ensures IsSpace(body[i])
    {
      assert body[i] == body[|kept|..][i - |kept|];
    }
    assert body[|head|] == ',';
    tail := kept[|head| + 1..];
  }

  lemma HeadOfList(pre: string, head: string, rest: string)
    requires Blank(pre) && head != "" && !IsSpace(head[0]) && NoTop(head, Out, ',') && Scan(head, Out) == Out
    ensures ParseSearchPathValue(pre + head + "," + rest) == ParseSearchPathValue(head)
  {
    var tail := TrimList(pre, head, rest);
    FirstTopStop(head, tail, Out, ',');
    hide Trim, FirstTop, Blank, Scan;
    assert (head + [','] + tail)[..|head|] == head;
  }

  /** Whatever follows the first top-level comma is ignored. */
  lemma FirstEntryWins(pre: string, entry: string, post: string, rest: string)
    requires Blank(pre) && Blank(post)
    requires entry != "" && Trimmed(entry) && NoTop(entry, Out, ',') && Scan(entry, Out) == Out
    ensures ParseSearchPathValue(pre + entry + post + "," + rest) == ParseEntry(entry)
  {
    hide FirstTop, Scan, ParseSearchPathValue, ParseEntry;
    BlankScan(post, Out, ',');
    NoTopAppend(entry, post, Out, ',');
    ScanAppend(entry, post, Out);
    EntryWithin("", entry, post);
    assert "" + entry == entry;
    HeadOfList(pre, entry + post, rest);
    Assoc(pre, entry, post);
  }

  lemma QuotedEntry(name: string)
    ensures var entry := QuoteIdentifier(name);
            && entry != "" && Trimmed(entry) && NoTop(entry, Out, ',') && Scan(entry, Out) == Out
            && ParseEntry(entry) == NonEmpty(name)
  {
    var entry := QuoteIdentifier(name);
    QuotedToken(name, '"', ',');
    UndoubleDoubled(name, '"');
    assert entry[1..|entry| - 1] == Doubled(name, '"');
    assert ToAsciiLower(entry[0]) != ToAsciiLower("DEFAULT"[0]);
  }

  /** Every non-empty schema name, printed as a delimited identifier, is read back unchanged. */
  lemma QuotedRoundTrip(pre: string, name: string, post: string)
    requires Blank(pre) && Blank(post)
    ensures ParseSearchPathValue(pre + QuoteIdentifier(name) + post) == NonEmpty(name)
  {
    QuotedEntry(name);
    EntryWithin(pre, QuoteIdentifier(name), post);
  }

  /** In a list it is the first name that is read back. */
  lemma QuotedListRoundTrip(pre: string, name: string, post: string, rest: string)
    requires Blank(pre) && Blank(post)
    ensures ParseSearchPathValue(pre + QuoteIdentifier(name) + post + "," + rest) == NonEmpty(name)
  {
    QuotedEntry(name);
    FirstEntryWins(pre, QuoteIdentifier(name), post, rest);
  }

  /** A string literal is not unescaped, so as a value it round-trips exactly for names without a single quote. */
  lemma LiteralRoundTrip(name: string)
    requires name != ""
    ensures ParseSearchPathValue(SqlStringLiteral(name)) == Single(name) <==> '\'' !in name
  {
    var entry := "'" + Doubled(name, '\'') + "'";
    QuotedToken(name, '\'', ',');
    EntryWithin("", entry, "");
    assert "" + entry + "" == entry;
    DoubledLonger(name, '\'');
    assert entry[1..|entry| - 1] == Doubled(name, '\'');
    assert ToAsciiLower(entry[0]) != ToAsciiLower("DEFAULT"[0]);
  }

  lemma {:induction false} DoubledLonger(s: string, c: char)
    ensures |Doubled(s, c)| >= |s|
    ensures Doubled(s, c) == s <==> c !in s
    ensures c in s ==> |Doubled(s, c)| > |s|
  {
    if s != "" {
      DoubledStep(s, c);
      DoubledLonger(s[1..], c);
      assert s == [s[0]] + s[1..];
    }
  }

  // ---- The whole statement ----

  /** How a character of a keyword may be written; the long s folds to s as well. */
  predicate FoldsTo(c: char, k: char) {
    ToAsciiLower(c) == ToAsciiLower(k) || (c == '\U{017F}' && ToAsciiLower(k) == 's')
  }

  lemma FoldsExact(c: char, k: char)
    ensures FoldsTo(c, k) <==> SameLetter(c, k) || (c == '\U{017F}' && (k == 's' || k == 'S'))
  {
  }

  predicate StartsWith(s: string, keyword: string) {
    |keyword| <= |s| && forall i | 0 <= i < |keyword| :: FoldsTo(s[i], keyword[i])
  }

  predicate LeadsBlank(s: string) {
    s != "" && IsSpace(s[0])
  }

  /** What follows the equals sign or TO; it must stay on one line. */
  function AssignedValue(rest: string): Option<string> {
    var value := TrimStart(rest);
    if value == "" || '\n' in value then None else Some(Trim(value))
  }

  /** What an equals sign or the word TO assigns; `isWord` tells the word characters, for the boundary behind TO. */
  function SignedValue(c: string, isWord: char -> bool): Option<string> {
    if c != "" && c[0] == '=' then AssignedValue(c[1..])
    else if StartsWith(c, "TO") && (|c| == 2 || !isWord(c[2])) then AssignedValue(c[2..])
    else None
  }

  function PathValue(b: string, isWord: char -> bool): Option<string> {
    if StartsWith(b, "search_path") then SignedValue(TrimStart(b[11..]), isWord) else None
  }

  function WithoutSession(a: string): string {
    if StartsWith(a, "SESSION") && LeadsBlank(a[7..]) then TrimStart(a[7..]) else a
  }

  /** The value a cleaned SET search_path assigns. */
  function PathAssignment(cleaned: string, isWord: char -> bool): Option<string> {
    if !StartsWith(cleaned, "SET") || !LeadsBlank(cleaned[3..]) then None
    else PathValue(WithoutSession(TrimStart(cleaned[3..])), isWord)
  }

  /** A SET search_path as a client sends it. */
  function ParseSetSearchPath(sql: string, isWord: char -> bool): Option<Target> {
    match PathAssignment(NormalizeSql(sql), isWord)
    case None => None
    case Some(value) => Some(ParseSearchPathValue(value))
  }

  // ---- No comment reaches the schema ----

  lemma StrippedIsPart(s: string, k: nat)
    requires k <= |s| && Commented(TrimStart(s[k..]))
    ensures Commented(s)
  {
    var n := Lead(s[k..]);
    hide *;
    CommentedRest(s[k..], n);
    CommentedRest(s, k);
  }

  lemma TrimmedIsPart(s: string)
    requires Commented(Trim(s))
    ensures Commented(s)
  {
    var lo, hi := TrimSpan(s);
    hide *;
    CommentedWindow(s, lo, hi);
  }

  lemma AssignedIsPart(s: string, k: nat)
    requires k <= |s| && AssignedValue(s[k..]).Some? && Commented(AssignedValue(s[k..]).value)
    ensures Commented(s)
  {
    var value := TrimStart(s[k..]);
    assert AssignedValue(s[k..]).value == Trim(value);
    hide *;
    TrimmedIsPart(value);
    StrippedIsPart(s, k);
  }

  lemma PathIsPart(cleaned: string, isWord: char -> bool)
    requires PathAssignment(cleaned, isWord).Some? && Commented(PathAssignment(cleaned, isWord).value)
    ensures Commented(cleaned)
  {
    var a := TrimStart(cleaned[3..]);
    var b := if StartsWith(a, "SESSION") && LeadsBlank(a[7..]) then TrimStart(a[7..]) else a;
    var c := TrimStart(b[11..]);
    hide StartsWith, LeadsBlank, TrimStart, Commented, AssignedValue;
    AssignedIsPart(c, if c != "" && c[0] == '=' then 1 else 2);
    StrippedIsPart(b, 11);
    if b != a {
      StrippedIsPart(a, 7);
    }
    StrippedIsPart(cleaned, 3);
  }

  lemma EntryIsPart(trimmed: string)
    requires ParseEntry(trimmed).Single? && Commented(ParseEntry(trimmed).schema)
    ensures Commented(trimmed)
  {
    if StripEnclosing(trimmed, '"').Some? || StripEnclosing(trimmed, '\'').Some? {
      var inner := trimmed[1..|trimmed| - 1];
      CommentedCollapsed(inner, '"');
      hide ReplaceAll, Commented;
      if Commented(inner) {
        CommentedWindow(trimmed, 1, |trimmed| - 1);
      }
    }
  }

  lemma {:induction false} TargetIsPart(value: string)
    requires ParseSearchPathValue(value).Single? && Commented(ParseSearchPathValue(value).schema)
    ensures Commented(value)
    decreases |value|
  {
    var trimmed := Trim(value);
    hide Trim, Commented, ParseEntry, FirstTop;
    if CommaIndex(trimmed).Some? {
      var head := trimmed[..CommaIndex(trimmed).value];
      TargetIsPart(head);
      CommentedPrefix(head, trimmed);
    } else {
      EntryIsPart(trimmed);
    }
    TrimmedIsPart(value);
  }

  /** Whatever the statement's text, it never opens a schema whose name holds a comment. */
  lemma NoCommentedSchema(sql: string, isWord: char -> bool)
    ensures var target := ParseSetSearchPath(sql, isWord);
            target.Some? && target.value.Single? ==> !Commented(target.value.schema)
  {
    var cleaned := NormalizeSql(sql);
    NormalizedIsClean(sql);
    hide NormalizeSql, PathAssignment, ParseSearchPathValue, Commented;
    var value := PathAssignment(cleaned, isWord);
    if value.Some? && ParseSearchPathValue(value.value).Single? && Commented(ParseSearchPathValue(value.value).schema) {
      TargetIsPart(value.value);
      PathIsPart(cleaned, isWord);
    }
  }

  // ---- Reading a printed statement ----

  /** SET, maybe SESSION, search_path and a sign, each in any case and with the white space behind it. */
  datatype Form = Form(verb: string, gap: string, session: string, sessionGap: string,
                       path: string, middle: string, sign: string, last: string)

  predicate Spelled(s: string, keyword: string) {
    |s| == |keyword| && StartsWith(s, keyword)
  }

  predicate Proper(f: Form) {
    && Spelled(f.verb, "SET") && f.gap != "" && Blank(f.gap)
    && (if f.session == "" then f.sessionGap == ""
        else Spelled(f.session, "SESSION") && f.sessionGap != "" && Blank(f.sessionGap))
    && Spelled(f.path, "search_path") && Blank(f.middle)
    && (f.sign == "=" || Spelled(f.sign, "TO")) && Blank(f.last)
  }

  function Signed(f: Form, value: string): string {
    f.sign + (f.last + value)
  }

  function Pathed(f: Form, value: string): string {
    f.path + (f.middle + Signed(f, value))
  }

  function SetText(f: Form, value: string): string {
    f.verb + (f.gap + (f.session + (f.sessionGap + Pathed(f, value))))
  }

  lemma SpelledFront(keyword: string, s: string, rest: string)
    requires Spelled(s, keyword)
    ensures StartsWith(s + rest, keyword) && (s + rest)[|keyword|..] == rest
    ensures keyword != "" && !IsSpace(keyword[0]) ==> s != "" && !IsSpace((s + rest)[0])
  {
    if keyword != "" {
      assert FoldsTo(s[0], keyword[0]);
    }
  }

  lemma GapRead(gap: string, rest: string)
    requires Blank(gap) && rest != "" && !IsSpace(rest[0])
    ensures TrimStart(gap + rest) == rest && (gap != "" ==> LeadsBlank(gap + rest))
  {
    TrimStartPadded(gap, rest);
  }

  /** With SESSION or without, with an equals sign or TO, in upper or lower case. */
  lemma FormsAreProper(upper: bool, session: bool, to: bool)
    ensures Proper(Form(if upper then "SET" else "set", " ",
                        if session then "SESSION" else "", if session then " " else "",
                        if upper then "SEARCH_PATH" else "search_path", " ", if to then "TO" else "=", " "))
  {
    assert Spelled("SET", "SET") && Spelled("set", "SET") && Spelled("SESSION", "SESSION") && Spelled("TO", "TO");
    assert Spelled("SEARCH_PATH", "search_path") && Spelled("search_path", "search_path");
    hide Spelled;
  }

  /** A value that TO does not run into: white space or no word character follows it. */
  predicate Assigned(f: Form, value: string, isWord: char -> bool) {
    value != "" && Trimmed(value) && (f.sign == "=" || f.last != "" || !isWord(value[0]))
  }

  ghost predicate Boundaries(isWord: char -> bool) {
    forall c | IsSpace(c) || IsQuote(c) :: !isWord(c)
  }

  function OnOneLine(value: string): Option<string> {
    if '\n' in value then None else Some(value)
  }

  lemma ValueRead(last: string, value: string)
    requires Blank(last) && value != "" && Trimmed(value)
    ensures AssignedValue(last + value) == OnOneLine(value)
  {
    GapRead(last, value);
    TrimSelf(value);
  }

  lemma SignRead(f: Form, value: string, isWord: char -> bool)
    requires Proper(f) && Assigned(f, value, isWord) && Boundaries(isWord)
    ensures var c := Signed(f, value);
            c != "" && !IsSpace(c[0]) && SignedValue(c, isWord) == OnOneLine(value)
  {
    ValueRead(f.last, value);
    var rest := f.last + value;
    if f.sign == "=" {
      assert ("=" + rest)[1..] == rest;
    } else {
      SpelledFront("TO", f.sign, rest);
      assert f.last != "" ==> IsSpace(rest[0]);
      assert FoldsTo(f.sign[0], 'T');
    }
    hide AssignedValue, Blank;
  }

  lemma PathRead(f: Form, value: string, isWord: char -> bool)
    requires Proper(f) && Assigned(f, value, isWord) && Boundaries(isWord)
    ensures var b := Pathed(f, value);
            && b != "" && !IsSpace(b[0]) && !StartsWith(b, "SESSION") && PathValue(b, isWord) == OnOneLine(value)
  {
    SignRead(f, value, isWord);
    var rest := f.middle + Signed(f, value);
    SpelledFront("search_path", f.path, rest);
    assert "search_path"[2] == 'a' && "SESSION"[2] == 'S' && "search_path"[0] == 's' && |"search_path"| == 11;
    assert FoldsTo(f.path[2], 'a');
    assert !FoldsTo(f.path[2], 'S');
    GapRead(f.middle, Signed(f, value));
    hide Signed, TrimStart, SignedValue;
    assert Pathed(f, value)[2] == f.path[2];
  }

  lemma SessionRead(f: Form, value: string, isWord: char -> bool)
    requires Proper(f) && Assigned(f, value, isWord) && Boundaries(isWord)
    ensures var a := f.session + (f.sessionGap + Pathed(f, value));
            a != "" && !IsSpace(a[0]) && WithoutSession(a) == Pathed(f, value)
  {
    PathRead(f, value, isWord);
    if f.session == "" {
      assert f.session + (f.sessionGap + Pathed(f, value)) == Pathed(f, value);
    } else {
      SpelledFront("SESSION", f.session, f.sessionGap + Pathed(f, value));
      assert |"SESSION"| == 7 && "SESSION"[0] == 'S';
      GapRead(f.sessionGap, Pathed(f, value));
    }
    hide Pathed, PathValue;
  }

  lemma SetRead(f: Form, value: string, isWord: char -> bool)
    requires Proper(f) && Assigned(f, value, isWord) && Boundaries(isWord)
    ensures PathAssignment(SetText(f, value), isWord) == OnOneLine(value)
    ensures SetText(f, value) != "" && !IsSpace(SetText(f, value)[0])
  {
    var a := f.session + (f.sessionGap + Pathed(f, value));
    PathRead(f, value, isWord);
    SessionRead(f, value, isWord);
    SpelledFront("SET", f.verb, f.gap + a);
    assert |"SET"| == 3 && "SET"[0] == 'S';
    GapRead(f.gap, a);
    hide StartsWith, LeadsBlank, TrimStart, Pathed, PathValue, WithoutSession, Spelled, Blank, Assigned, Boundaries;
    assert SetText(f, value) == f.verb + (f.gap + a);
  }

  // ---- Which statements are recognised ----

  lemma Gap(s: string) returns (pad: string)
    ensures Blank(pad) && s == pad + TrimStart(s) && (LeadsBlank(s) ==> pad != "")
    ensures TrimStart(s) != "" ==> !IsSpace(TrimStart(s)[0])
  {
    pad := s[..Lead(s)];
  }

  lemma Front(s: string, keyword: string) returns (word: string)
    requires StartsWith(s, keyword)
    ensures Spelled(word, keyword) && s == word + s[|keyword|..]
  {
    word := s[..|keyword|];
  }

  predicate EndsDark(s: string) {
    s == "" || !IsSpace(s[|s| - 1])
  }

  lemma DarkBehind(head: string, rest: string)
    requires EndsDark(head + rest)
    ensures EndsDark(rest)
  {
    assert rest != "" ==> (head + rest)[|head + rest| - 1] == rest[|rest| - 1];
  }

  lemma ValueOf(rest: string) returns (last: string)
    requires EndsDark(rest) && AssignedValue(rest).Some?
    ensures var value := AssignedValue(rest).value;
            && Blank(last) && rest == last + value && value != "" && Trimmed(value) && '\n' !in value
  {
    last := Gap(rest);
    DarkBehind(last, TrimStart(rest));
    TrimSelf(TrimStart(rest));
  }

  /** The sign and the value behind the variable's name. */
  lemma SignOf(c: string, isWord: char -> bool) returns (sign: string, last: string)
    requires EndsDark(c) && SignedValue(c, isWord).Some?
    ensures var value := SignedValue(c, isWord).value;
            && (sign == "=" || Spelled(sign, "TO")) && Blank(last) && c == sign + (last + value)
            && value != "" && Trimmed(value) && '\n' !in value
            && (sign == "=" || last != "" || !isWord(value[0]))
  {
    if c != "" && c[0] == '=' {
      sign := "=";
    } else {
      sign := Front(c, "TO");
    }
    assert |sign| == if c[0] == '=' then 1 else 2;
    assert c == sign + c[|sign|..];
    DarkBehind(sign, c[|sign|..]);
    last := ValueOf(c[|sign|..]);
  }

  lemma PathOf(b: string, isWord: char -> bool)
    returns (path: string, middle: string, sign: string, last: string)
    requires EndsDark(b) && PathValue(b, isWord).Some?
    ensures var value := PathValue(b, isWord).value;
            && Spelled(path, "search_path") && Blank(middle)
            && (sign == "=" || Spelled(sign, "TO")) && Blank(last) && b == path + (middle + (sign + (last + value)))
            && value != "" && Trimmed(value) && '\n' !in value
            && (sign == "=" || last != "" || !isWord(value[0]))
  {
    path := Front(b, "search_path");
    assert |"search_path"| == 11;
    middle := Gap(b[11..]);
    var c := TrimStart(b[11..]);
    hide *;
    DarkBehind(path, b[11..]);
    DarkBehind(middle, c);
    sign, last := SignOf(c, isWord);
  }

  lemma SessionOf(a: string) returns (session: string, gap: string)
    requires EndsDark(a)
    ensures a == session + (gap + WithoutSession(a)) && EndsDark(WithoutSession(a))
    ensures if session == "" then gap == "" else Spelled(session, "SESSION") && gap != "" && Blank(gap)
  {
    session, gap := "", "";
    if StartsWith(a, "SESSION") && LeadsBlank(a[7..]) {
      session := Front(a, "SESSION");
      gap := Gap(a[7..]);
      DarkBehind(session, a[7..]);
      DarkBehind(gap, TrimStart(a[7..]));
    }
  }

  /** A text that assigns is a proper form with the value behind it. */
  lemma FormOf(cleaned: string, isWord: char -> bool) returns (f: Form)
    requires EndsDark(cleaned) && PathAssignment(cleaned, isWord).Some?
    ensures var value := PathAssignment(cleaned, isWord).value;
            Proper(f) && Assigned(f, value, isWord) && cleaned == SetText(f, value) && '\n' !in value
  {
    var verb := Front(cleaned, "SET");
    assert |"SET"| == 3;
    var gap := Gap(cleaned[3..]);
    var a := TrimStart(cleaned[3..]);
    DarkBehind(verb, cleaned[3..]);
    DarkBehind(gap, a);
    hide StartsWith, LeadsBlank, TrimStart, Blank, Trimmed, Spelled, PathValue, WithoutSession, EndsDark;
    var session, sessionGap := SessionOf(a);
    var path, middle, sign, last := PathOf(WithoutSession(a), isWord);
    f := Form(verb, gap, session, sessionGap, path, middle, sign, last);
  }

  /** A text assigns a value to the search path exactly if it is some form with that value, on one line. */
  lemma PathAssignmentExact(cleaned: string, value: string, isWord: char -> bool)
    requires Trimmed(cleaned) && Boundaries(isWord)
    ensures PathAssignment(cleaned, isWord) == Some(value)
       <==> '\n' !in value && exists f :: Proper(f) && Assigned(f, value, isWord) && cleaned == SetText(f, value)
  {
    if PathAssignment(cleaned, isWord) == Some(value) {
      var f := FormOf(cleaned, isWord);
    }
    forall f | Proper(f) && Assigned(f, value, isWord) && cleaned == SetText(f, value)
      ensures PathAssignment(cleaned, isWord) == OnOneLine(value)
    {
      SetRead(f, value, isWord);
    }
    hide PathAssignment, Proper, Assigned, SetText, Boundaries;
  }

  lemma SpelledPlain(s: string, keyword: string)
    requires Spelled(s, keyword) && '-' !in keyword && '/' !in keyword
    ensures '-' !in s && '/' !in s
  {
    assert forall i | 0 <= i < |s| :: FoldsTo(s[i], keyword[i]);
  }

  lemma PlainHead(head: string, rest: string)
    requires Dull(head)
    ensures Commented(head + rest) <==> Commented(rest)
  {
    HoldsNone(head, '-', '-');
    HoldsNone(head, '/', '*');
    EraseHead(head, rest);
  }

  predicate Dull(s: string) {
    '-' !in s && '/' !in s
  }

  lemma BlankIsDull(s: string)
    ensures Blank(s) ==> Dull(s)
  {
  }

  lemma FormPlain(f: Form)
    requires Proper(f)
    ensures Dull(f.verb) && Dull(f.gap) && Dull(f.session) && Dull(f.sessionGap)
    ensures Dull(f.path) && Dull(f.middle) && Dull(f.sign) && Dull(f.last)
  {
    BlankIsDull(f.gap);
    BlankIsDull(f.sessionGap);
    BlankIsDull(f.middle);
    BlankIsDull(f.last);
    hide Blank;
    SpelledPlain(f.verb, "SET");
    if f.session != "" {
      SpelledPlain(f.session, "SESSION");
    }
    SpelledPlain(f.path, "search_path");
    if f.sign != "=" {
      SpelledPlain(f.sign, "TO");
    }
    assert Dull("=");
    hide Spelled;
  }

  /** Nothing in front of the value can start a comment, so only one in the value makes the statement hold one. */
  lemma SetCommented(f: Form, value: string)
    requires Proper(f)
    ensures Commented(SetText(f, value)) <==> Commented(value)
  {
    FormPlain(f);
    hide Commented, Proper, Dull;
    PlainHead(f.last, value);
    PlainHead(f.sign, f.last + value);
    PlainHead(f.middle, Signed(f, value));
    PlainHead(f.path, f.middle + Signed(f, value));
    PlainHead(f.sessionGap, Pathed(f, value));
    PlainHead(f.session, f.sessionGap + Pathed(f, value));
    PlainHead(f.gap, f.session + (f.sessionGap + Pathed(f, value)));
    PlainHead(f.verb, f.gap + (f.session + (f.sessionGap + Pathed(f, value))));
  }

  /** The white space around a statement and the semicolons at its end. */
  datatype Margin = Margin(before: string, pad: string, semicolons: string, after: string)

  predicate Around(m: Margin) {
    Blank(m.before) && Blank(m.pad) && Semicolons(m.semicolons) && Blank(m.after)
  }

  function Statement(m: Margin, core: string): string {
    m.before + (core + (m.pad + (m.semicolons + m.after)))
  }

  lemma SetEnds(f: Form, value: string)
    requires value != ""
    ensures var s := SetText(f, value); s != "" && s[|s| - 1] == value[|value| - 1]
  {
    var head := SetText(f, "");
    assert SetText(f, value) == head + value;
  }

  lemma StatementRead(m: Margin, f: Form, value: string, isWord: char -> bool)
    requires Around(m) && Proper(f) && Assigned(f, value, isWord) && Boundaries(isWord)
    requires value[|value| - 1] != ';' && !Commented(value)
    ensures ParseSetSearchPath(Statement(m, SetText(f, value)), isWord)
         == if '\n' in value then None else Some(ParseSearchPathValue(value))
  {
    var core := SetText(f, value);
    SetRead(f, value, isWord);
    SetEnds(f, value);
    SetCommented(f, value);
    assert Trimmed(core) && core[|core| - 1] != ';';
    hide SetText, NormalizeSql, PathAssignment, ParseSearchPathValue, Commented, Trimmed, Proper, Assigned, Boundaries;
    NormalizeEnding(m.before, core, m.pad, m.semicolons, m.after);
  }

  lemma {:induction false} DoubledBreaks(s: string, quote: char)
    requires quote != '\n'
    ensures '\n' in Doubled(s, quote) <==> '\n' in s
  {
    if s != "" {
      DoubledStep(s, quote);
      DoubledBreaks(s[1..], quote);
    }
  }

  lemma QuotedLine(name: string, quote: char)
    requires IsQuote(quote)
    ensures var token := [quote] + Doubled(name, quote) + [quote];
            && Trimmed(token) && IsQuote(token[0]) && IsQuote(token[|token| - 1]) && |token| > 1
            && ('\n' in token <==> '\n' in name)
            && (Commented(token) <==> Commented(name))
  {
    DoubledBreaks(name, quote);
    CommentedQuoted(name, quote);
    hide Commented, ReplaceAll;
  }

  lemma QuotedValue(name: string)
    ensures ParseSearchPathValue(QuoteIdentifier(name)) == NonEmpty(name)
  {
    var token := QuoteIdentifier(name);
    QuotedRoundTrip("", name, "");
    hide *;
    assert "" + token + "" == token;
  }

  /**
   In a SET search_path a schema name written as a delimited identifier is the one opened if and only if it is not
   empty and holds neither a line feed nor a comment.
   */
  lemma QuotedStatement(m: Margin, f: Form, name: string, isWord: char -> bool)
    requires Around(m) && Proper(f) && Boundaries(isWord)
    ensures ParseSetSearchPath(Statement(m, SetText(f, QuoteIdentifier(name))), isWord) == Some(Single(name))
        <==> name != "" && '\n' !in name && !Commented(name)
  {
    var token := QuoteIdentifier(name);
    QuotedLine(name, '"');
    assert Assigned(f, token, isWord);
    hide ParseSetSearchPath, Commented, Proper, Boundaries, Assigned, SetText, Statement, QuoteIdentifier;
    hide ParseSearchPathValue;
    if Commented(name) {
      NoCommentedSchema(Statement(m, SetText(f, token)), isWord);
    } else {
      StatementRead(m, f, token, isWord);
      QuotedValue(name);
    }
  }

  /** As a string literal it must not hold a single quote either, since literals are not unescaped. */
  lemma LiteralStatement(m: Margin, f: Form, name: string, isWord: char -> bool)
    requires Around(m) && Proper(f) && Boundaries(isWord)
    ensures ParseSetSearchPath(Statement(m, SetText(f, SqlStringLiteral(name))), isWord) == Some(Single(name))
        <==> name != "" && '\'' !in name && '\n' !in name && !Commented(name)
  {
    var token := SqlStringLiteral(name);
    QuotedLine(name, '\'');
    assert Assigned(f, token, isWord);
    hide ParseSetSearchPath, Commented, Proper, Boundaries, Assigned, SetText, Statement;
    if Commented(name) {
      NoCommentedSchema(Statement(m, SetText(f, token)), isWord);
    } else {
      StatementRead(m, f, token, isWord);
      if name == "" {
        EmptyLiteral();
      } else {
        LiteralRoundTrip(name);
      }
    }
  }

  lemma BareEntry(name: string)
    requires name != "" && Trimmed(name) && ',' !in name && forall i | 0 <= i < |name| :: !IsQuote(name[i])
    ensures ParseSearchPathValue(name) == if EqIgnoreAsciiCase(name, "DEFAULT") then Default else Single(name)
  {
    NoTopAbsent(name, Out, ',');
    EntryWithin("", name, "");
    hide FirstTop, ParseSearchPathValue, EqIgnoreAsciiCase;
    assert "" + name + "" == name;
  }

  lemma DefaultIsPlain(name: string)
    requires EqIgnoreAsciiCase(name, "DEFAULT")
    ensures !Commented(name)
  {
    assert forall i | 0 <= i < |name| :: ToAsciiLower(name[i]) == ToAsciiLower("DEFAULT"[i]);
    HoldsNone(name, '-', '-');
    HoldsNone(name, '/', '*');
    EraseHead(name, "");
    assert name + "" == name;
  }

  /**
   An unquoted entry without a comma is the schema opened as it is written, DEFAULT in any case being no schema, if
   and only if it holds neither a line feed nor a comment.
   */
  lemma BareStatement(m: Margin, f: Form, name: string, isWord: char -> bool)
    requires Around(m) && Proper(f) && Boundaries(isWord) && Assigned(f, name, isWord)
    requires ',' !in name && name[|name| - 1] != ';' && forall i | 0 <= i < |name| :: !IsQuote(name[i])
    ensures ParseSetSearchPath(Statement(m, SetText(f, name)), isWord)
         == Some(if EqIgnoreAsciiCase(name, "DEFAULT") then Default else Single(name))
        <==> '\n' !in name && !Commented(name)
  {
    BareEntry(name);
    if EqIgnoreAsciiCase(name, "DEFAULT") {
      DefaultIsPlain(name);
    }
    hide ParseSetSearchPath, Commented, Proper, Boundaries, Assigned, SetText, Statement, EqIgnoreAsciiCase;
    if Commented(name) {
      NoCommentedSchema(Statement(m, SetText(f, name)), isWord);
    } else {
      StatementRead(m, f, name, isWord);
    }
  }

  lemma EmptyLiteral()
    ensures ParseSearchPathValue(SqlStringLiteral("")) == Invalid
  {
    var entry := SqlStringLiteral("");
    QuotedToken("", '\'', ',');
    EntryWithin("", entry, "");
    assert "" + entry + "" == entry && Doubled("", '\'') == "";
    assert entry[1..|entry| - 1] == "";
    assert ToAsciiLower(entry[0]) != ToAsciiLower("DEFAULT"[0]);
  }
}
