/**
 Rendering a portal and splitting into statements: which templates keep their statement count whatever the
 text parameters hold.
 */
module PortalStatements {
  import opened Sequences
  import opened Text
  import opened Quotes
  import opened Statements
  import opened Portal
  import opened Substitution

  // ---- Templates and their pieces ----

  lemma ConsFill(c: char, s: string, values: seq<string>, i: nat)
    requires c != '$'
    ensures Template([c] + s, |values|) <==> Template(s, |values|)
    ensures Template(s, |values|) ==> Fill([c] + s, values, i) == [c] + Fill(s, values, i)
  {
    assert ([c] + s)[1..] == s;
  }

  lemma {:induction false} PlainFill(pre: string, s: string, values: seq<string>, i: nat)
    requires '$' !in pre
    ensures Template(pre + s, |values|) <==> Template(s, |values|)
    ensures Template(s, |values|) ==> Fill(pre + s, values, i) == pre + Fill(s, values, i)
  {
    if pre == "" {
      assert pre + s == s;
    } else {
      PlainFill(pre[1..], s, values, i);
      ConsFill(pre[0], pre[1..] + s, values, i);
      hide *;
      assert pre + s == [pre[0]] + (pre[1..] + s);
    }
  }

  lemma TemplateHole(s: string, n: nat)
    requires s != "" && s[0] == '$'
    ensures Template(s, n) <==>
              Digits(s) != "" && Digits(s)[0] != '0' && Val(Digits(s)) <= n && Template(After(s), n)
  {
  }

  ghost predicate Distributes(a: string, b: string, values: seq<string>, i: nat) {
    && (Template(a + b, |values|) <==> Template(a, |values|) && Template(b, |values|))
    && (Template(a + b, |values|) ==> Fill(a + b, values, i) == Fill(a, values, i) + Fill(b, values, i))
  }

  lemma DistributesHole(a: string, b: string, values: seq<string>, i: nat)
    requires a != "" && a[0] == '$' && (b == "" || !IsDigit(b[0]))
    requires Distributes(After(a), b, values, i)
    ensures Distributes(a, b, values, i)
  {
    hide Template, Fill, Digits, After;
    HoleAppend(a, b);
    TemplateHole(a, |values|);
    TemplateHole(a + b, |values|);
    if Template(a + b, |values|) {
      FillHole(a, values, i);
      FillHole(a + b, values, i);
    }
  }

  lemma DistributesCons(c: char, t: string, b: string, values: seq<string>, i: nat)
    requires c != '$' && Distributes(t, b, values, i)
    ensures Distributes([c] + t, b, values, i)
  {
    Assoc([c], t, b);
    ConsFill(c, t + b, values, i);
    ConsFill(c, t, values, i);
    hide Template, Fill;
    if Template(t + b, |values|) {
      Assoc([c], Fill(t, values, i), Fill(b, values, i));
    }
  }

  /** A template cut in front of a non-digit is two templates, filled in separately. */
  lemma {:induction false} FillAppend(a: string, b: string, values: seq<string>, i: nat)
    requires b == "" || !IsDigit(b[0])
    ensures Distributes(a, b, values, i)
    decreases |a|
  {
    if a == "" {
      assert a + b == b;
    } else if a[0] != '$' {
      hide *;
      FillAppend(a[1..], b, values, i);
      DistributesCons(a[0], a[1..], b, values, i);
      Uncons(a);
    } else {
      hide *;
      FillAppend(After(a), b, values, i);
      DistributesHole(a, b, values, i);
    }
  }

  /** Every placeholder of `s` stands outside quotes when reading starts in state `q`. */
  ghost predicate Unquoted(s: string, q: Quote) {
    s == "" || ((s[0] == '$' ==> q == Out) && Unquoted(s[1..], Next(q, s[0])))
  }

  lemma {:induction false} UnquotedAppend(a: string, b: string, q: Quote)
    ensures Unquoted(a + b, q) <==> Unquoted(a, q) && Unquoted(b, Scan(a, q))
  {
    if a == "" {
      assert a + b == b;
    } else {
      assert (a + b)[1..] == a[1..] + b;
      UnquotedAppend(a[1..], b, Next(q, a[0]));
    }
  }

  /** A rendered value that is a token of its own: closed quotes, no semicolon at top level, no padding. */
  ghost predicate Neutral(v: string) {
    v != "" && Trimmed(v) && Scan(v, Out) == Out && NoTop(v, Out, ';')
  }

  lemma PlainIsNeutral(v: string)
    requires v != "" && forall i | 0 <= i < |v| :: !IsSpace(v[i]) && !IsQuote(v[i]) && v[i] != ';'
    ensures Neutral(v)
  {
    ScanPlain(v, Out);
    NoTopAbsent(v, Out, ';');
  }

  lemma RenderedIsNeutral(p: Param)
    requires RenderParameter(p).Ok?
    ensures Neutral(RenderParameter(p).value)
  {
    hide Dec, Scan, FirstTop, ReplaceAll;
    match p {
    case TextValue(text) =>
      QuotedToken(text, '\'', ';');
    case BinaryInt(n) =>
      IntIsPlain(n);
      hide IntText;
      PlainIsNeutral(IntText(n));
    case BinaryBool(_) =>
      PlainIsNeutral(RenderParameter(p).value);
    case Null =>
      PlainIsNeutral("NULL");
    case Malformed =>
    }
  }

  lemma IntIsPlain(n: int)
    ensures IntText(n) != "" && forall i | 0 <= i < |IntText(n)| :: IntText(n)[i] == '-' || IsDigit(IntText(n)[i])
  {
    hide Dec;
  }

  /** The placeholder at the front of `s` leaves the quoting state alone. */
  lemma SkipHole(s: string, q: Quote)
    requires s != "" && s[0] == '$'
    ensures Scan(s, q) == Scan(After(s), q)
    ensures NoTop(s, q, ';') <==> NoTop(After(s), q, ';')
    ensures Unquoted(s, q) <==> q == Out && Unquoted(After(s), q)
  {
    var hole, rest := "$" + Digits(s), After(s);
    assert AllDigits(Digits(s));
    assert forall i | 0 <= i < |hole| :: hole[i] == '$' || IsDigit(hole[i]);
    assert ';' !in hole && s == hole + rest;
    ScanPlain(hole, q);
    NoTopAbsent(hole, q, ';');
    ScanAppend(hole, rest, q);
    NoTopAppend(hole, rest, q, ';');
    UnquotedAppend(hole, rest, q);
    UnquotedPlain(Digits(s), q);
    assert hole[1..] == Digits(s);
  }

  lemma {:induction false} UnquotedPlain(d: string, q: Quote)
    requires '$' !in d
    ensures Unquoted(d, q)
  {
    if d != "" {
      UnquotedPlain(d[1..], Next(q, d[0]));
    }
  }

  lemma {:induction false} FillScan(s: string, q: Quote, values: seq<string>)
    requires Template(s, |values|) && Unquoted(s, q)
    requires forall v | v in values :: Neutral(v)
    ensures Scan(Fill(s, values, 0), q) == Scan(s, q)
    ensures NoTop(s, q, ';') ==> NoTop(Fill(s, values, 0), q, ';')
    decreases |s|
  {
    if s == "" {
    } else if s[0] != '$' {
      var rest := Fill(s[1..], values, 0);
      assert ([s[0]] + rest)[1..] == rest;
      FillScan(s[1..], Next(q, s[0]), values);
    } else {
      FillHole(s, values, 0);
      var v, rest := ValueAt(values, Digits(s)), After(s);
      SkipHole(s, q);
      FillScan(rest, q, values);
      assert v in values && Val(Digits(s)) > 0 by {
        DecVal(Digits(s));
      }
      ScanAppend(v, Fill(rest, values, 0), q);
      NoTopAppend(v, Fill(rest, values, 0), q, ';');
    }
  }

  // ---- Trimming commutes with filling in ----

  lemma Peel(t: string, values: seq<string>) returns (head: string, rest: string)
    requires Template(t, |values|) && t != ""
    requires forall v | v in values :: Neutral(v)
    ensures |rest| < |t| && t[|t| - |rest|..] == rest && Template(rest, |values|)
    ensures Fill(t, values, 0) == head + Fill(rest, values, 0)
    ensures head != "" && (if t[0] == '$' then Trimmed(head) else head == [t[0]] && |t| == 1 + |rest|)
  {
    if t[0] == '$' {
      DecVal(Digits(t));
      FillHole(t, values, 0);
      head, rest := ValueAt(values, Digits(t)), After(t);
      assert head in values;
    } else {
      head, rest := [t[0]], t[1..];
    }
  }

  lemma {:induction false} FillEnds(t: string, values: seq<string>)
    requires Template(t, |values|) && t != ""
    requires forall v | v in values :: Neutral(v)
    ensures var f := Fill(t, values, 0);
            && f != ""
            && (!IsSpace(t[0]) ==> !IsSpace(f[0]))
            && (!IsSpace(t[|t| - 1]) ==> !IsSpace(f[|f| - 1]))
    decreases |t|
  {
    hide Template, Fill, Neutral, IsSpace;
    var head, rest := Peel(t, values);
    if rest != "" {
      FillEnds(rest, values);
    } else {
      EmptyFill(values);
    }
  }

  lemma EmptyFill(values: seq<string>)
    ensures Template("", |values|) && Fill("", values, 0) == ""
  {
  }

  lemma FillTrimmed(t: string, values: seq<string>)
    requires Template(t, |values|) && Trimmed(t)
    requires forall v | v in values :: Neutral(v)
    ensures Trimmed(Fill(t, values, 0)) && (t == "" <==> Fill(t, values, 0) == "")
  {
    if t != "" {
      FillEnds(t, values);
    }
  }

  lemma BlankPlain(s: string)
    requires Blank(s)
    ensures '$' !in s && (s == "" || !IsDigit(s[0]))
  {
  }

  lemma Parts(u: string) returns (pre: string, t: string, post: string)
    ensures u == pre + (t + post) && t == Trim(u) && Trimmed(t) && Blank(pre) && Blank(post)
  {
    hide *;
    var lo, hi := TrimSpan(u);
    pre, t, post := u[..lo], u[lo..hi], u[hi..];
  }

  lemma FillTrim(u: string, values: seq<string>)
    requires Template(u, |values|)
    requires forall v | v in values :: Neutral(v)
    ensures Template(Trim(u), |values|)
    ensures Trim(Fill(u, values, 0)) == Fill(Trim(u), values, 0)
    ensures Trim(u) == "" <==> Fill(Trim(u), values, 0) == ""
  {
    hide Template, Fill, Trim, Trimmed, Blank, Neutral;
    var pre, t, post := Parts(u);
    assert post + "" == post;
    BlankPlain(pre);
    BlankPlain(post);
    EmptyFill(values);
    PlainFill(pre, t + post, values, 0);
    FillAppend(t, post, values, 0);
    PlainFill(post, "", values, 0);
    FillTrimmed(t, values);
    var f := Fill(t, values, 0);
    Assoc(pre, f, post);
    TrimPadded(pre, f, post);
  }

  // ---- Splitting commutes with filling in ----

  ghost predicate Templates(sts: seq<string>, n: nat) {
    forall t | t in sts :: Template(t, n)
  }

  ghost function FillEach(sts: seq<string>, values: seq<string>): (r: seq<string>)
    requires Templates(sts, |values|)
    ensures |r| == |sts|
  {
    if sts == [] then [] else
      assert Templates(sts[1..], |values|);
      assert sts[0] in sts;
      [Fill(sts[0], values, 0)] + FillEach(sts[1..], values)
  }

  lemma FillKeep(t: string, sts: seq<string>, values: seq<string>)
    requires Template(t, |values|) && Templates(sts, |values|)
    requires t == "" <==> Fill(t, values, 0) == ""
    ensures Templates(Keep(t) + sts, |values|)
    ensures FillEach(Keep(t) + sts, values) == Keep(Fill(t, values, 0)) + FillEach(sts, values)
  {
    if t == "" {
      assert Keep(t) + sts == sts;
    } else {
      assert ([t] + sts)[1..] == sts;
    }
  }

  lemma SplitCut(a: string, rest: string)
    requires NoTop(a, Out, ';') && Scan(a, Out) == Out
    ensures Split(a + [';'] + rest) == Keep(Trim(a)) + Split(rest)
  {
    var s := a + [';'] + rest;
    FirstTopStop(a, rest, Out, ';');
    assert s[..|a|] == a && s[|a| + 1..] == rest;
  }

  lemma SplitUncut(a: string)
    requires NoTop(a, Out, ';')
    ensures Split(a) == Keep(Trim(a))
  {
    assert a[..|a|] == a;
  }

  /** The statements of the rendered text are the rendered statements of the template. */
  lemma {:induction false} SplitCommutes(s: string, values: seq<string>)
    requires Template(s, |values|) && Unquoted(s, Out)
    requires forall v | v in values :: Neutral(v)
    ensures Templates(Split(s), |values|)
    ensures Split(Fill(s, values, 0)) == FillEach(Split(s), values)
    decreases |s|
  {
    var k := FirstTop(s, Out, ';');
    FirstTopIsFirst(s, Out, ';');
    FirstTopPrefix(s, Out, ';');
    var a := s[..k];
    if k == |s| {
      assert a == s;
      FillScan(s, Out, values);
      FillTrim(s, values);
      SplitUncut(s);
      SplitUncut(Fill(s, values, 0));
      FillKeep(Trim(s), [], values);
      assert Keep(Trim(s)) + [] == Keep(Trim(s));
    } else {
      var rest := s[k + 1..];
      assert s == a + [';'] + rest == a + ([';'] + rest);
      SplitCutFill(a, rest, values);
      SplitCommutes(rest, values);
      FillKeep(Trim(a), Split(rest), values);
    }
  }

  lemma UnquotedCut(a: string, rest: string)
    requires Unquoted(a + ([';'] + rest), Out) && Scan(a, Out) == Out
    ensures Unquoted(a, Out) && Unquoted(rest, Out)
  {
    UnquotedAppend(a, [';'] + rest, Out);
    assert ([';'] + rest)[1..] == rest;
  }

  lemma SplitCutFill(a: string, rest: string, values: seq<string>)
    requires var s := a + ([';'] + rest); Template(s, |values|) && Unquoted(s, Out)
    requires NoTop(a, Out, ';') && Scan(a, Out) == Out
    requires forall v | v in values :: Neutral(v)
    ensures Template(a, |values|) && Template(rest, |values|) && Unquoted(rest, Out)
    ensures Template(Trim(a), |values|) && (Trim(a) == "" <==> Fill(Trim(a), values, 0) == "")
    ensures var s := a + ([';'] + rest);
            && Split(s) == Keep(Trim(a)) + Split(rest)
            && Split(Fill(s, values, 0)) == Keep(Fill(Trim(a), values, 0)) + Split(Fill(rest, values, 0))
  {
    assert !IsDigit(';');
    hide Template, Fill, Trim, Split, Keep, Scan, Unquoted, NoTop, Neutral;
    var s := a + ([';'] + rest);
    FillAppend(a, [';'] + rest, values, 0);
    ConsFill(';', rest, values, 0);
    UnquotedCut(a, rest);
    FillScan(a, Out, values);
    FillTrim(a, values);
    var fa, fr := Fill(a, values, 0), Fill(rest, values, 0);
    Assoc(fa, [';'], fr);
    Assoc(a, [';'], rest);
    SplitCut(a, rest);
    SplitCut(fa, fr);
  }

  /** The same for the text the portal really renders, where that is the simultaneous substitution. */
  lemma RenderedStatements(s: string, params: seq<Param>)
    requires Renderable(params)
    requires Template(s, |params|) && Unquoted(s, Out)
    requires Beyond(s) == 0 || (Apart(s, Values(params)) && NoDollar(Values(params)))
    ensures var rendered := Rendered(s, params);
            && Templates(Split(s), |params|)
            && Split(rendered) == FillEach(Split(s), Values(params))
            && (ParseSpec(s).Accepted? <==> ParseSpec(rendered).Accepted?)
  {
    var values := Values(params);
    forall v | v in values
      ensures Neutral(v)
    {
      var i :| 0 <= i < |values| && values[i] == v;
      RenderedIsNeutral(params[i]);
    }
    assert Rendered(s, params) == Sequential(s, values, |values|);
    hide *;
    if Beyond(s) == 0 {
      FirstOnlyIsFill(s, values);
    } else {
      RenderIsSubstitution(s, values);
    }
    SplitCommutes(s, values);
    ParseCounts(s);
    ParseCounts(Rendered(s, params));
  }

  lemma ParseCounts(s: string)
    ensures ParseSpec(s).Accepted? <==> |Split(s)| <= 1
  {
  }

  // ---- Exactly which templates keep their statement count ----

  /** Number of statements in what is left of a text; `live` says the current one has begun. */
  ghost function Count(s: string, q: Quote, live: bool): nat {
    if s == "" then (if live then 1 else 0)
    else if s[0] == ';' && q == Out then (if live then 1 else 0) + Count(s[1..], Out, false)
    else Count(s[1..], Next(q, s[0]), live || !IsSpace(s[0]))
  }

  lemma {:induction false} CountThrough(a: string, b: string, q: Quote, live: bool)
    requires NoTop(a, q, ';')
    ensures Count(a + b, q, live) == Count(b, Scan(a, q), live || !Blank(a))
  {
    if a == "" {
      assert a + b == b;
    } else {
      var t := a[1..];
      assert (a + b)[1..] == t + b;
      CountThrough(t, b, Next(q, a[0]), live || !IsSpace(a[0]));
      assert Blank(a) <==> IsSpace(a[0]) && Blank(t) by {
        assert forall i | 0 < i < |a| :: a[i] == t[i - 1];
      }
    }
  }

  lemma TrimEmpty(s: string)
    ensures Trim(s) == "" <==> Blank(s)
  {
    hide Trim;
    var lo, hi := TrimSpan(s);
    if lo < hi {
      assert s[lo] == s[lo..hi][0] == Trim(s)[0];
    } else {
      assert s == s[..lo] + s[hi..];
    }
  }

  lemma {:induction false} CountIsSplit(s: string)
    ensures Count(s, Out, false) == |Split(s)|
    decreases |s|
  {
    var k := FirstTop(s, Out, ';');
    FirstTopIsFirst(s, Out, ';');
    FirstTopPrefix(s, Out, ';');
    var a, rest := s[..k], s[k..];
    assert s == a + rest;
    CountThrough(a, rest, Out, false);
    TrimEmpty(a);
    hide FirstTop, Trim, Blank;
    if k < |s| {
      assert rest[1..] == s[k + 1..];
      CountIsSplit(s[k + 1..]);
    }
  }

  /** Placeholders that stand in quoting state `at`. */
  ghost function HolesIn(s: string, q: Quote, at: Quote): nat {
    if s == "" then 0
    else (if s[0] == '$' && q == at then 1 else 0) + HolesIn(s[1..], Next(q, s[0]), at)
  }

  lemma {:induction false} UnquotedMeansNone(s: string, q: Quote)
    ensures Unquoted(s, q) <==> HolesIn(s, q, InSingle) == 0 && HolesIn(s, q, InDouble) == 0
  {
    if s != "" {
      UnquotedMeansNone(s[1..], Next(q, s[0]));
    }
  }

  lemma {:induction false} HolesInAppend(a: string, b: string, q: Quote, at: Quote)
    ensures HolesIn(a + b, q, at) == HolesIn(a, q, at) + HolesIn(b, Scan(a, q), at)
  {
    if a == "" {
      assert a + b == b;
    } else {
      assert (a + b)[1..] == a[1..] + b;
      HolesInAppend(a[1..], b, Next(q, a[0]), at);
    }
  }

  lemma {:induction false} HolesInPlain(d: string, q: Quote, at: Quote)
    requires '$' !in d
    ensures HolesIn(d, q, at) == 0
  {
    if d != "" {
      HolesInPlain(d[1..], Next(q, d[0]), at);
    }
  }

  lemma HoleCounts(s: string, q: Quote, live: bool, at: Quote)
    requires s != "" && s[0] == '$'
    ensures Count(s, q, live) == Count(After(s), q, true)
    ensures HolesIn(s, q, at) == (if q == at then 1 else 0) + HolesIn(After(s), q, at)
  {
    var d, rest := Digits(s), After(s);
    assert s[1..] == d + rest;
    assert ';' !in d && '$' !in d && AllDigits(d);
    ScanPlain(d, q);
    NoTopAbsent(d, q, ';');
    CountThrough(d, rest, q, true);
    HolesInAppend(d, rest, q, at);
    HolesInPlain(d, q, at);
  }

  /** A parameter text that breaks out of quotes of kind `at` only, and then restores them. */
  function Probe(at: Quote): string {
    if at == InSingle then ";" else "\";\""
  }

  lemma {:induction false} InsideDouble(v: string)
    requires '"' !in v
    ensures Scan(v, InDouble) == InDouble && NoTop(v, InDouble, ';')
  {
    if v != "" {
      InsideDouble(v[1..]);
    }
  }

  /** `open` ends the quotes, the semicolon splits, and `close` restores the quotes. */
  lemma BreakOut(open: string, close: string, q: Quote, rest: string, live: bool)
    requires NoTop(open, q, ';') && Scan(open, q) == Out && !Blank(open)
    requires NoTop(close, Out, ';') && Scan(close, Out) == q && !Blank(close)
    ensures Count(open + ";" + close + rest, q, live) == 1 + Count(rest, q, true)
  {
    var tail := close + rest;
    assert open + ";" + close + rest == open + (";" + tail);
    CountThrough(open, ";" + tail, q, live);
    CountThrough(close, rest, Out, false);
    assert (";" + tail)[1..] == tail;
  }

  lemma ProbeTexts()
    ensures SqlStringLiteral(Probe(InSingle)) == "'" + ";" + "'"
    ensures SqlStringLiteral(Probe(InDouble)) == "'\"" + ";" + "\"'"
    ensures Doubled(";", '"') == ";"
  {
    DoubledStep(";", '"');
    DoubledStep(";", '\'');
    var text := "\";\"";
    DoubledStep(text, '\'');
    DoubledStep(text[1..], '\'');
    DoubledStep(text[2..], '\'');
    assert text[1..][1..] == text[2..] && text[2..] == "\"" && text[2..][1..] == "";
  }

  lemma ProbeQuotes()
    ensures var s := SqlStringLiteral(Probe(InSingle));
            NoTop(s, Out, ';') && Scan(s, Out) == Out && NoTop(s, InDouble, ';') && Scan(s, InDouble) == InDouble
    ensures var d := SqlStringLiteral(Probe(InDouble));
            NoTop(d, Out, ';') && Scan(d, Out) == Out && NoTop(d, InSingle, ';') && Scan(d, InSingle) == InSingle
  {
    ProbeTexts();
    QuotedToken(Probe(InSingle), '\'', ';');
    QuotedToken(Probe(InDouble), '\'', ';');
    QuotedToken(";", '"', ';');
    InsideDouble(SqlStringLiteral(Probe(InSingle)));
    var token := "\"" + ";" + "\"";
    assert SqlStringLiteral(Probe(InDouble)) == "'" + (token + "'");
    ScanAppend("'", token + "'", InSingle);
    ScanAppend(token, "'", Out);
    NoTopAppend("'", token + "'", InSingle, ';');
    NoTopAppend(token, "'", Out, ';');
  }

  lemma OpenClose()
    ensures Scan("'", InSingle) == Out && Scan("'", Out) == InSingle
    ensures Scan("'\"", InDouble) == Out && Scan("\"'", Out) == InDouble
    ensures NoTop("'", InSingle, ';') && NoTop("'", Out, ';') && NoTop("'\"", InDouble, ';') && NoTop("\"'", Out, ';')
  {
    assert "'\""[1..] == "\"" && "\"'"[1..] == "'" && "'"[1..] == "" && "\""[1..] == "";
    NoTopAbsent("'\"", InDouble, ';');
    NoTopAbsent("\"'", Out, ';');
  }

  lemma ProbeCounts(at: Quote, q: Quote, rest: string, live: bool)
    requires at != Out
    ensures Count(SqlStringLiteral(Probe(at)) + rest, q, live)
         == (if q == at then 1 else 0) + Count(rest, q, true)
  {
    ProbeTexts();
    var v := SqlStringLiteral(Probe(at));
    assert !IsSpace(v[0]) && !Blank(v) && !Blank("'") && !Blank("'\"") && !Blank("\"'") by {
      assert !IsSpace("'"[0]) && !IsSpace("'\""[0]) && !IsSpace("\"'"[0]);
    }
    if q == at {
      OpenClose();
      hide *;
      if at == InSingle {
        BreakOut("'", "'", q, rest, live);
      } else {
        BreakOut("'\"", "\"'", q, rest, live);
      }
    } else {
      ProbeQuotes();
      hide *;
      CountThrough(v, rest, q, live);
    }
  }

  /** With the probe as every parameter, each placeholder in quotes of that kind adds one statement. */
  lemma {:induction false} ProbeAdds(s: string, q: Quote, live: bool, at: Quote, values: seq<string>)
    requires at != Out && Template(s, |values|)
    requires forall v | v in values :: v == SqlStringLiteral(Probe(at))
    ensures Count(Fill(s, values, 0), q, live) == Count(s, q, live) + HolesIn(s, q, at)
    decreases |s|
  {
    if s == "" {
    } else if s[0] != '$' {
      ConsFill(s[0], s[1..], values, 0);
      Uncons(s);
      var rest := Fill(s[1..], values, 0);
      hide Fill, Template;
      assert ([s[0]] + rest)[1..] == rest;
      if s[0] == ';' && q == Out {
        ProbeAdds(s[1..], Out, false, at, values);
      } else {
        ProbeAdds(s[1..], Next(q, s[0]), live || !IsSpace(s[0]), at, values);
      }
    } else {
      FillHole(s, values, 0);
      DecVal(Digits(s));
      var v, rest := ValueAt(values, Digits(s)), After(s);
      assert v in values;
      hide *;
      ProbeCounts(at, q, Fill(rest, values, 0), live);
      HoleCounts(s, q, live, at);
      ProbeAdds(rest, q, true, at, values);
    }
  }

  lemma TextParamsPlain(texts: seq<string>)
    requires forall t | t in texts :: '$' !in t
    ensures NoDollar(Values(TextParams(texts)))
    ensures forall v | v in Values(TextParams(texts)) :: v != "" && v[0] == '\''
  {
    var params := TextParams(texts);
    forall v | v in Values(params)
      ensures '$' !in v && v != "" && v[0] == '\''
    {
      var i :| 0 <= i < |params| && Values(params)[i] == v;
      assert v == SqlStringLiteral(texts[i]) && texts[i] in texts;
      DoubledPlain(texts[i], '\'', '$');
    }
  }

  lemma {:induction false} DoubledPlain(s: string, quote: char, c: char)
    requires c !in s && c != quote
    ensures c !in Doubled(s, quote)
  {
    if s != "" {
      DoubledStep(s, quote);
      DoubledPlain(s[1..], quote, c);
    }
  }

  lemma ProbeParams(s: string, n: nat, at: Quote) returns (texts: seq<string>)
    requires at != Out && Template(s, n)
    ensures |texts| == n && (forall t | t in texts :: '$' !in t)
    ensures |Split(Rendered(s, TextParams(texts)))| == |Split(s)| + HolesIn(s, Out, at)
  {
    texts := seq(n, i => Probe(at));
    TextParamsPlain(texts);
    var values := Values(TextParams(texts));
    assert forall v | v in values :: v == SqlStringLiteral(Probe(at));
    assert Rendered(s, TextParams(texts)) == Sequential(s, values, |values|);
    NonNumericIsApart(s, values);
    hide *;
    RenderIsSubstitution(s, values);
    ProbeAdds(s, Out, false, at, values);
    CountIsSplit(s);
    CountIsSplit(Fill(s, values, 0));
  }

  lemma EchoCounts(value: string, rest: string, live: bool)
    requires value == "';'" || value == "'';''"
    ensures Count(value + rest, Out, live) == (if value == "';'" then 0 else 1) + Count(rest, Out, true)
  {
    if value == "';'" {
      ProbeTexts();
      QuotedToken(";", '\'', ';');
      assert value == SqlStringLiteral(";") && value[0] == '\'' && !Blank(value);
      hide *;
      CountThrough(value, rest, Out, live);
    } else {
      var two := "''";
      assert two[1..] == "'" && "'"[1..] == "" && two[0] == '\'' && !Blank(two);
      NoTopAbsent(two, Out, ';');
      assert value == two + ";" + two;
      assert Scan(two, Out) == Out;
      hide *;
      BreakOut(two, two, Out, rest, live);
    }
  }

  /** With the echoing texts every placeholder outside quotes, other than `$1`, adds one statement. */
  lemma {:induction false} EchoAdds(s: string, q: Quote, live: bool, finals: seq<string>)
    requires Template(s, |finals|) && Unquoted(s, q) && Echoes(finals)
    ensures Count(Fill(s, finals, 0), q, live) == Count(s, q, live) + Beyond(s)
    decreases |s|
  {
    if s == "" {
    } else if s[0] != '$' {
      ConsFill(s[0], s[1..], finals, 0);
      Uncons(s);
      var rest := Fill(s[1..], finals, 0);
      assert Beyond(s) == Beyond(s[1..]) && Unquoted(s[1..], Next(q, s[0]));
      hide Fill, Template, Beyond, Unquoted, Echoes;
      assert ([s[0]] + rest)[1..] == rest;
      if s[0] == ';' && q == Out {
        EchoAdds(s[1..], Out, false, finals);
      } else {
        EchoAdds(s[1..], Next(q, s[0]), live || !IsSpace(s[0]), finals);
      }
    } else {
      FillHole(s, finals, 0);
      DecVal(Digits(s));
      SkipHole(s, q);
      var value, rest := ValueAt(finals, Digits(s)), After(s);
      var more := if Val(Digits(s)) > 1 then 1 else 0;
      assert value == (if more == 0 then "';'" else "'';''") && Beyond(s) == more + Beyond(rest);
      hide *;
      EchoCounts(value, Fill(rest, finals, 0), live);
      HoleCounts(s, q, live, Out);
      EchoAdds(rest, q, true, finals);
    }
  }

  /** A placeholder other than `$1` gets a text that brings the text of `$1` out of its literal. */
  lemma EchoBreaksOut(s: string, n: nat)
    requires Template(s, n) && Unquoted(s, Out)
    ensures |Split(Rendered(s, TextParams(EchoTexts(n))))| == |Split(s)| + Beyond(s)
  {
    var finals := EchoRendered(s, n);
    hide *;
    EchoAdds(s, Out, false, finals);
    CountIsSplit(s);
    CountIsSplit(Fill(s, finals, 0));
  }

  ghost predicate CountKept(s: string, texts: seq<string>) {
    |Split(Rendered(s, TextParams(texts)))| == |Split(s)|
  }

  lemma KeepsCount(s: string, texts: seq<string>)
    requires Template(s, |texts|) && Unquoted(s, Out)
    requires Beyond(s) == 0 || forall t | t in texts :: '$' !in t
    ensures CountKept(s, texts)
  {
    var params := TextParams(texts);
    if Beyond(s) != 0 {
      TextParamsPlain(texts);
      NonNumericIsApart(s, Values(params));
    }
    RenderedStatements(s, params);
  }

  /**
   The statement count of a template survives every choice of text parameters if and only if all its placeholders
   stand outside quotes and all of them are `$1`.
   */
  lemma StatementCountExact(s: string, n: nat)
    requires Template(s, n)
    ensures Unquoted(s, Out) && Beyond(s) == 0 <==> forall texts: seq<string> | |texts| == n :: CountKept(s, texts)
  {
    if !Unquoted(s, Out) {
      PlainCountExact(s, n);
    } else if Beyond(s) == 0 {
      forall texts: seq<string> | |texts| == n
        ensures CountKept(s, texts)
      {
        KeepsCount(s, texts);
      }
    } else {
      EchoBreaksOut(s, n);
      assert !CountKept(s, EchoTexts(n));
    }
  }

  /** For texts without a `$` (quotes and semicolons included) it is enough that they stand outside quotes. */
  lemma PlainCountExact(s: string, n: nat)
    requires Template(s, n)
    ensures Unquoted(s, Out) <==>
              forall texts: seq<string> | |texts| == n && (forall t | t in texts :: '$' !in t) :: CountKept(s, texts)
  {
    if Unquoted(s, Out) {
      forall texts: seq<string> | |texts| == n && (forall t | t in texts :: '$' !in t)
        ensures CountKept(s, texts)
      {
        KeepsCount(s, texts);
      }
    } else {
      UnquotedMeansNone(s, Out);
      var single := ProbeParams(s, n, InSingle);
      var double := ProbeParams(s, n, InDouble);
      assert !CountKept(s, single) || !CountKept(s, double);
    }
  }

  lemma TwoParse()
    ensures Template("$1 $2", 2) && Beyond("$1 $2") == 1
  {
    OneHole('1', " $2");
    OneHole('2', "");
    assert "$1 $2" == "$" + ['1'] + " $2" && "$2" == "$" + ['2'] + "" && " $2"[1..] == "$2";
    hide Val, Digits, After;
    assert Template("$2", 2) && Template(" $2", 2);
    assert Beyond("$2") == 1 && Beyond(" $2") == 1;
  }

  lemma OneBecomesTwo(s: string)
    requires forall i | 0 <= i < |s| :: !IsQuote(s[i]) && s[i] != ';'
    requires s != "" && Trimmed(s) && Template(s, 2) && Beyond(s) == 1
    ensures Unquoted(s, Out) && |Split(s)| == 1 && |Split(Rendered(s, TextParams(EchoTexts(2))))| == 2
  {
    UnquotedNoQuotes(s);
    NoTopAbsent(s, Out, ';');
    SplitSingle(s);
    hide *;
    EchoBreaksOut(s, 2);
  }

  /** Both placeholders of `$1 $2` are unquoted, and yet two texts make two statements of it. */
  lemma ParameterBreaksOut()
    ensures var s, params := "$1 $2", TextParams([";", "$1"]);
            && Template(s, 2) && Unquoted(s, Out)
            && |Split(s)| == 1 && |Split(Rendered(s, params))| == 2
  {
    var s := "$1 $2";
    assert [";", "$1"] == EchoTexts(2);
    assert Trimmed(s);
    hide Template, Beyond, Unquoted, Split, Trimmed, EchoTexts, TextParams, Rendered;
    TwoParse();
    OneBecomesTwo(s);
  }

  lemma {:induction false} UnquotedNoQuotes(s: string)
    requires forall i | 0 <= i < |s| :: !IsQuote(s[i])
    ensures Unquoted(s, Out)
  {
    if s != "" {
      UnquotedNoQuotes(s[1..]);
    }
  }
}
