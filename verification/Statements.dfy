/** Splitting a simple-query string into statements. */
module Statements {
  import opened Sequences
  import opened Text
  import opened Quotes

  /** The non-empty trimmed pieces between top-level semicolons. */
  function Split(s: string): seq<string>
    decreases |s|
  {
    var k := FirstTop(s, Out, ';');
    Keep(Trim(s[..k])) + if k < |s| then Split(s[k + 1..]) else []
  }

  lemma SplitAt(s: string, from: nat, cut: nat, head: string, sts: seq<string>)
    requires from <= |s| && cut == from + FirstTop(s[from..], Out, ';')
    requires head == Trim(s[from..][..cut - from])
    requires sts == if cut < |s| then Split(s[cut + 1..]) else []
    ensures Split(s[from..]) == Keep(head) + sts
  {
    hide FirstTop, Trim;
    if cut < |s| {
      assert s[from..][cut - from + 1..] == s[cut + 1..];
    }
  }

  lemma CutHere(query: string, start: nat, idx: nat, done: seq<string>)
    requires start <= idx < |query| && Pending(query, start, idx, Out, ';') && query[idx] == ';'
    ensures done + Keep(Trim(query[start..idx])) + Split(query[idx + 1..]) == done + Split(query[start..])
    ensures Pending(query, idx + 1, idx + 1, Out, ';')
  {
    StopHere(query, start, idx, Out, ';');
    hide FirstTop, Split, Trim;
    var head, tail := Trim(query[start..idx]), Split(query[idx + 1..]);
    assert query[start..][..idx - start] == query[start..idx];
    SplitAt(query, start, idx, head, tail);
    Assoc(done, Keep(head), tail);
  }

  lemma LastPiece(query: string, start: nat, q: Quote)
    requires start <= |query| && Pending(query, start, |query|, q, ';')
    ensures Split(query[start..]) == Keep(Trim(query[start..]))
  {
    StopHere(query, start, |query|, q, ';');
    hide FirstTop, Split, Trim;
    assert query[start..][..|query| - start] == query[start..];
    SplitAt(query, start, |query|, Trim(query[start..]), []);
  }

  /** The loop with its two flags and the one-character look-ahead inside single quotes. */
  method SplitSimpleQuery(query: string) returns (statements: seq<string>)
    ensures statements == Split(query)
  {
    hide FirstTop, Split;
    statements := [];
    var start, idx := 0, 0;
    var inSingle, inDouble := false, false;
    ghost var q := Out;
    assert query[0..] == query;
    ghost var all := Split(query);
    while idx < |query|
      invariant 0 <= start <= idx <= |query|
      invariant inSingle == q.InSingle? && inDouble == q.InDouble?
      invariant statements + Split(query[start..]) == all
      invariant Pending(query, start, idx, q, ';')
    {
      var ch := query[idx];
      if ch == ';' && !inSingle && !inDouble {
        CutHere(query, start, idx, statements);
        var statement := Trim(query[start..idx]);
        statements := Push(statements, statement);
        start := idx + 1;
      } else {
        Advance(query, start, idx, q, ';');
        q := Next(q, ch);
        if ch == '\'' && !inDouble {
          if inSingle && idx + 1 < |query| && query[idx + 1] == '\'' {
            idx := idx + 1;
            Advance(query, start, idx, q, ';');
            q := Next(q, query[idx]);
          } else {
            inSingle := !inSingle;
          }
        } else if ch == '"' && !inSingle {
          inDouble := !inDouble;
        }
      }
      idx := idx + 1;
    }
    LastPiece(query, start, q);
    statements := Push(statements, Trim(query[start..]));
  }

  method Push(statements: seq<string>, statement: string) returns (r: seq<string>)
    ensures r == statements + Keep(statement)
  {
    r := statements;
    if statement != "" {
      r := r + [statement];
    }
  }

  // ---- What the pieces are, by position ----

  datatype Span = Span(lo: nat, hi: nat)

  ghost predicate TopSemicolon(s: string, p: nat)
    requires p < |s|
  {
    s[p] == ';' && Scan(s[..p], Out) == Out
  }

  /** Nothing but white space and top-level semicolons. */
  ghost predicate Loose(s: string, lo: nat, hi: nat)
    requires hi <= |s|
  {
    forall p | lo <= p < hi :: IsSpace(s[p]) || TopSemicolon(s, p)
  }

  /** A statement: a trimmed, non-empty window without a top-level semicolon. */
  ghost predicate Solid(s: string, lo: nat, hi: nat) {
    lo < hi <= |s| && Trimmed(s[lo..hi]) && forall p | lo <= p < hi :: !TopSemicolon(s, p)
  }

  ghost predicate Separated(s: string, lo: nat, hi: nat) {
    exists p | lo <= p < hi :: p < |s| && TopSemicolon(s, p)
  }

  /**
   From position `from` on, `s` is: loose text, a statement, loose text with a semicolon in it, a statement, and
   so on, the last statement being followed by loose text.
   */
  ghost predicate Locates(s: string, from: nat, sts: seq<string>, spans: seq<Span>)
    requires from <= |s|
    decreases |spans|
  {
    && |spans| == |sts|
    && if spans == [] then Loose(s, from, |s|) else
       var Span(lo, hi) := spans[0];
       && from <= lo
       && Solid(s, lo, hi)
       && sts[0] == s[lo..hi]
       && Loose(s, from, lo)
       && (|spans| > 1 ==> Separated(s, hi, spans[1].lo))
       && Locates(s, hi, sts[1..], spans[1..])
  }

  lemma LocatesEarlier(s: string, from: nat, mid: nat, sts: seq<string>, spans: seq<Span>)
    requires from <= mid <= |s| && Loose(s, from, mid) && Locates(s, mid, sts, spans)
    ensures Locates(s, from, sts, spans)
    ensures spans != [] ==> mid <= spans[0].lo
  {
  }

  lemma LocatesNone(s: string, from: nat)
    requires from <= |s| && Loose(s, from, |s|)
    ensures Locates(s, from, [], [])
  {
  }

  /** The scan of a suffix that starts unquoted is the scan of the whole text. */
  lemma ScanFrom(s: string, from: nat, p: nat)
    requires from <= p <= |s| && Scan(s[..from], Out) == Out
    ensures Scan(s[..p], Out) == Scan(s[from..][..p - from], Out)
  {
    assert s[..p] == s[..from] + s[from..][..p - from];
    ScanAppend(s[..from], s[from..][..p - from], Out);
  }

  lemma CutIsFirst(s: string, from: nat)
    requires from <= |s| && Scan(s[..from], Out) == Out
    ensures var cut := from + FirstTop(s[from..], Out, ';');
            && (forall p | from <= p < cut :: !TopSemicolon(s, p))
            && (cut < |s| ==> TopSemicolon(s, cut))
  {
    var rest := s[from..];
    FirstTopIsFirst(rest, Out, ';');
    hide FirstTop;
    var cut := from + FirstTop(rest, Out, ';');
    forall p | from <= p <= cut && p < |s|
      ensures TopSemicolon(s, p) <==> p == cut
    {
      ScanFrom(s, from, p);
      assert s[p] == rest[p - from];
    }
  }

  /** The segment from `from` to the next top-level semicolon, located in the whole text. */
  lemma SegmentAt(s: string, from: nat) returns (lo: nat, hi: nat, cut: nat)
    requires from <= |s| && Scan(s[..from], Out) == Out
    ensures cut == from + FirstTop(s[from..], Out, ';')
    ensures from <= lo <= hi <= cut <= |s|
    ensures Trim(s[from..][..cut - from]) == s[lo..hi] && Trimmed(s[lo..hi])
    ensures Loose(s, from, lo) && Loose(s, hi, cut)
    ensures forall p | from <= p < cut :: !TopSemicolon(s, p)
    ensures cut < |s| ==> TopSemicolon(s, cut)
  {
    CutIsFirst(s, from);
    cut := from + FirstTop(s[from..], Out, ';');
    hide FirstTop, Trim, Scan;
    assert s[from..][..cut - from] == s[from..cut];
    lo, hi := TrimWindow(s, from, cut);
  }

  lemma LocatesCons(s: string, from: nat, lo: nat, hi: nat, sts: seq<string>, spans: seq<Span>)
    requires from <= lo && Solid(s, lo, hi) && Loose(s, from, lo)
    requires Locates(s, hi, sts, spans) && (spans != [] ==> Separated(s, hi, spans[0].lo))
    ensures Locates(s, from, [s[lo..hi]] + sts, [Span(lo, hi)] + spans)
  {
    var sts', spans' := [s[lo..hi]] + sts, [Span(lo, hi)] + spans;
    assert sts'[1..] == sts && spans'[1..] == spans;
  }

  /** The statements `Split` returns are exactly the located ones: nothing else is dropped or kept. */
  lemma {:induction false} SplitLocates(s: string, from: nat) returns (spans: seq<Span>)
    requires from <= |s| && Scan(s[..from], Out) == Out
    ensures Locates(s, from, Split(s[from..]), spans)
    decreases |s| - from
  {
    hide FirstTop, Scan, Trim, Locates, Split;
    var lo, hi, cut := SegmentAt(s, from);
    var sts := [];
    spans := [];
    if cut < |s| {
      AfterSemicolon(s, cut);
      spans := SplitLocates(s, cut + 1);
      sts := Split(s[cut + 1..]);
      assert Loose(s, hi, cut + 1);
      LocatesEarlier(s, hi, cut + 1, sts, spans);
    }
    if cut == |s| {
      LocatesNone(s, hi);
    }
    SplitAt(s, from, cut, s[lo..hi], sts);
    if lo < hi {
      LocatesCons(s, from, lo, hi, sts, spans);
      spans := [Span(lo, hi)] + spans;
    } else {
      LocatesEarlier(s, from, hi, sts, spans);
      assert Keep("") + sts == sts;
    }
  }

  lemma AfterSemicolon(s: string, cut: nat)
    requires cut < |s| && TopSemicolon(s, cut)
    ensures Scan(s[..cut + 1], Out) == Out
  {
    assert s[..cut + 1] == s[..cut] + [';'];
    ScanAppend(s[..cut], [';'], Out);
  }

  // ---- Splitting again, and splitting a joined list ----

  ghost predicate Single(t: string) {
    t != "" && Trimmed(t) && NoTop(t, Out, ';')
  }

  lemma SplitSingle(t: string)
    requires Single(t)
    ensures Split(t) == [t]
  {
    assert t[..|t|] == t;
    assert "" + t + "" == t;
    TrimPadded("", t, "");
  }

  lemma {:induction false} PiecesAreSingle(s: string)
    ensures forall t | t in Split(s) :: Single(t)
    decreases |s|
  {
    var k := FirstTop(s, Out, ';');
    FirstTopPrefix(s, Out, ';');
    TrimmedNoTop(s[..k], ';');
    hide FirstTop, Trim, Scan;
    if k < |s| {
      PiecesAreSingle(s[k + 1..]);
    }
  }

  /** Splitting any piece again returns just that piece. */
  lemma ResplitsToItself(s: string, t: string)
    requires t in Split(s)
    ensures Split(t) == [t]
  {
    PiecesAreSingle(s);
    SplitSingle(t);
  }

  /** Splitting undoes joining; only the last statement may leave a quote open. */
  lemma {:induction false} SplitJoin(sts: seq<string>)
    requires forall t | t in sts :: Single(t)
    requires forall i | 0 <= i < |sts| - 1 :: Scan(sts[i], Out) == Out
    ensures Split(Join(sts, ";")) == sts
  {
    if sts == [] {
    } else if |sts| == 1 {
      SplitSingle(sts[0]);
    } else {
      var s, t, rest := Join(sts, ";"), sts[0], Join(sts[1..], ";");
      assert Single(t) && s == t + [';'] + rest;
      FirstTopStop(t, rest, Out, ';');
      assert s[..|t|] == t && s[|t| + 1..] == rest;
      assert "" + t + "" == t;
      TrimPadded("", t, "");
      SplitJoin(sts[1..]);
    }
  }

  // ---- The Parse message of the extended protocol ----

  datatype ParseResult = Accepted(statement: string) | SyntaxError

  /** Accepts the text unchanged when it holds at most one statement. */
  method ParseSql(sql: string) returns (r: ParseResult)
    ensures r == ParseSpec(sql)
  {
    var statements := SplitSimpleQuery(sql);
    if |statements| > 1 {
      return SyntaxError;
    }
    return Accepted(sql);
  }

  function ParseSpec(sql: string): ParseResult {
    if |Split(sql)| > 1 then SyntaxError else Accepted(sql)
  }

  /** A character of some statement: neither white space nor a top-level semicolon. */
  ghost predicate Content(s: string, p: nat) {
    p < |s| && !IsSpace(s[p]) && !TopSemicolon(s, p)
  }

  /** A top-level semicolon stands between two characters of statements. */
  ghost predicate Divided(s: string) {
    exists a, p, b :: 0 <= a < p < b < |s| && Content(s, a) && TopSemicolon(s, p) && Content(s, b)
  }

  lemma SolidStarts(s: string, lo: nat, hi: nat)
    requires Solid(s, lo, hi)
    ensures Content(s, lo)
  {
    assert s[lo..hi][0] == s[lo];
  }

  lemma SeveralDivide(s: string, sts: seq<string>, spans: seq<Span>)
    requires Locates(s, 0, sts, spans) && |sts| > 1
    ensures Divided(s)
  {
    var Span(lo, hi) := spans[0];
    var Span(lo', hi') := spans[1];
    assert spans[1..][0] == spans[1];
    SolidStarts(s, lo, hi);
    SolidStarts(s, lo', hi');
    var p :| hi <= p < lo' && p < |s| && TopSemicolon(s, p);
    hide Content, TopSemicolon;
    assert 0 <= lo < p < lo' < |s|;
  }

  lemma OneIsUndivided(s: string, sts: seq<string>, spans: seq<Span>)
    requires Locates(s, 0, sts, spans) && |sts| <= 1
    ensures !Divided(s)
  {
    hide TopSemicolon, IsSpace;
    var lo, hi := 0, 0;
    if spans != [] {
      lo, hi := spans[0].lo, spans[0].hi;
      assert spans[1..] == [];
    }
    assert forall p | 0 <= p < |s| && Content(s, p) :: lo <= p < hi;
  }

  /** Parse refuses a text exactly if a top-level semicolon in it has something of a statement on either side. */
  lemma ParseExact(sql: string)
    ensures ParseSpec(sql) == if Divided(sql) then SyntaxError else Accepted(sql)
  {
    assert sql[0..] == sql && sql[..0] == "";
    var spans := SplitLocates(sql, 0);
    hide Split, Locates, Divided;
    if |Split(sql)| > 1 {
      SeveralDivide(sql, Split(sql), spans);
    } else {
      OneIsUndivided(sql, Split(sql), spans);
    }
  }

  /** Every statement the simple protocol would run is a text the extended protocol accepts. */
  lemma SplitPiecesParse(s: string, t: string)
    requires t in Split(s)
    ensures ParseSpec(t) == Accepted(t)
  {
    ResplitsToItself(s, t);
  }
}
