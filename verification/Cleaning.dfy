/**
 The cleaning that stands in front of statement classification: comments out, white space and semicolons off the
 ends. Unlike the comment stripping used for detection it takes no notice of quotes.
 */
module Cleaning {
  import opened Sequences
  import opened Text
  import opened Wrappers

  /** Index of the first end of a block comment, or `|s|`. */
  function Closer(s: string): (k: nat)
    ensures k <= |s|
    ensures k < |s| ==> k + 2 <= |s|
  {
    if s == "" || Pair(s, '*', '/') then 0 else 1 + Closer(s[1..])
  }

  function LineLength(s: string): (n: nat)
    ensures n <= |s|
  {
    if s == "" || s[0] == '\n' || s[0] == '\r' then 0 else 1 + LineLength(s[1..])
  }

  /** Length of the comment at the front of `s`, or 0; a block comment counts only if it is closed. */
  function CommentAt(s: string): (n: nat)
    ensures n <= |s| && n != 1
  {
    if Pair(s, '/', '*') && Closer(s[2..]) < |s| - 2 then Closer(s[2..]) + 4
    else if Pair(s, '-', '-') then 2 + LineLength(s[2..])
    else 0
  }

  /** Every leftmost comment becomes one space. */
  function Erase(s: string): string
    decreases |s|
  {
    if s == "" then ""
    else if CommentAt(s) > 0 then " " + Erase(s[CommentAt(s)..])
    else [s[0]] + Erase(s[1..])
  }

  function NormalizeSql(sql: string): string {
    Trim(TrimEndChar(Trim(Erase(sql)), ';'))
  }

  // ---- What holds a comment ----

  /** A comment starts somewhere in `s`. */
  predicate Commented(s: string) {
    s != "" && (CommentAt(s) > 0 || Commented(s[1..]))
  }

  predicate Holds(s: string, a: char, b: char) {
    s != "" && (Pair(s, a, b) || Holds(s[1..], a, b))
  }

  predicate PairAt(s: string, i: nat, a: char, b: char) {
    i + 1 < |s| && s[i] == a && s[i + 1] == b
  }

  lemma {:induction false} HoldsSomewhere(s: string, a: char, b: char)
    ensures Holds(s, a, b) <==> exists i: nat :: PairAt(s, i, a, b)
  {
    if s != "" {
      HoldsSomewhere(s[1..], a, b);
      if Pair(s, a, b) {
        assert PairAt(s, 0, a, b);
      } else if i: nat :| PairAt(s[1..], i, a, b) {
        assert PairAt(s, i + 1, a, b);
      }
      if i: nat :| PairAt(s, i, a, b) {
        assert i > 0 ==> PairAt(s[1..], i - 1, a, b);
      }
    }
  }

  lemma {:induction false} CloserFound(s: string)
    ensures Closer(s) < |s| <==> Holds(s, '*', '/')
  {
    if s != "" && !Pair(s, '*', '/') {
      CloserFound(s[1..]);
    }
  }

  lemma CommentAtExact(s: string)
    ensures CommentAt(s) > 0 <==> Pair(s, '-', '-') || (Pair(s, '/', '*') && Holds(s[2..], '*', '/'))
  {
    if |s| >= 2 {
      CloserFound(s[2..]);
    }
  }

  ghost predicate BlockAt(s: string, i: nat, j: nat) {
    i + 2 <= j && PairAt(s, i, '/', '*') && PairAt(s, j, '*', '/')
  }

  lemma {:induction false} CommentedShows(s: string)
    requires Commented(s)
    ensures (exists i: nat :: PairAt(s, i, '-', '-')) || (exists i: nat, j: nat :: BlockAt(s, i, j))
  {
    CommentAtExact(s);
    if Pair(s, '-', '-') {
      assert PairAt(s, 0, '-', '-');
    } else if CommentAt(s) > 0 {
      HoldsSomewhere(s[2..], '*', '/');
      var j: nat :| PairAt(s[2..], j, '*', '/');
      assert BlockAt(s, 0, j + 2);
    } else {
      CommentedShows(s[1..]);
      if i: nat :| PairAt(s[1..], i, '-', '-') {
        assert PairAt(s, i + 1, '-', '-');
      } else {
        var i: nat, j: nat :| BlockAt(s[1..], i, j);
        assert BlockAt(s, i + 1, j + 1);
      }
    }
  }

  lemma {:induction false} DashesShow(s: string, i: nat)
    requires PairAt(s, i, '-', '-')
    ensures Commented(s)
  {
    CommentAtExact(s);
    if i > 0 {
      DashesShow(s[1..], i - 1);
    }
  }

  lemma {:induction false} BlockShows(s: string, i: nat, j: nat)
    requires BlockAt(s, i, j)
    ensures Commented(s)
  {
    if i == 0 {
      assert PairAt(s[2..], j - 2, '*', '/');
      HoldsSomewhere(s[2..], '*', '/');
      CommentAtExact(s);
    } else {
      BlockShows(s[1..], i - 1, j - 1);
    }
  }

  /** A text holds a comment exactly if it holds two dashes, or a block comment's opening with a closing behind it. */
  lemma CommentedMeans(s: string)
    ensures Commented(s) <==> (exists i: nat :: PairAt(s, i, '-', '-')) || (exists i: nat, j: nat :: BlockAt(s, i, j))
  {
    if Commented(s) {
      CommentedShows(s);
    }
    if i: nat :| PairAt(s, i, '-', '-') {
      DashesShow(s, i);
    }
    if i: nat, j: nat :| BlockAt(s, i, j) {
      BlockShows(s, i, j);
    }
  }

  lemma {:induction false} HoldsPart(a: string, b: string, x: char, y: char)
    requires Holds(a, x, y) || Holds(b, x, y)
    ensures Holds(a + b, x, y)
  {
    if a == "" {
      assert a + b == b;
    } else {
      assert (a + b)[1..] == a[1..] + b;
      if !Pair(a, x, y) {
        HoldsPart(a[1..], b, x, y);
      }
    }
  }

  /** A text with a part that holds a comment holds one. */
  lemma {:induction false} CommentedPart(a: string, b: string)
    requires Commented(a) || Commented(b)
    ensures Commented(a + b)
  {
    if a == "" {
      assert a + b == b;
    } else {
      assert (a + b)[1..] == a[1..] + b;
      CommentAtExact(a);
      CommentAtExact(a + b);
      if Pair(a, '/', '*') && Holds(a[2..], '*', '/') {
        assert (a + b)[2..] == a[2..] + b;
        HoldsPart(a[2..], b, '*', '/');
      }
      if Commented(a[1..]) || Commented(b) {
        CommentedPart(a[1..], b);
      }
    }
  }

  lemma CommentedWindow(s: string, lo: nat, hi: nat)
    requires lo <= hi <= |s| && Commented(s[lo..hi])
    ensures Commented(s)
  {
    hide *;
    CommentedPart(s[lo..hi], s[hi..]);
    assert s[lo..hi] + s[hi..] == s[lo..];
    CommentedPart(s[..lo], s[lo..]);
    assert s[..lo] + s[lo..] == s;
  }

  lemma CommentedPrefix(p: string, s: string)
    requires p <= s && Commented(p)
    ensures Commented(s)
  {
    hide *;
    assert s == p + s[|p|..];
    CommentedPart(p, s[|p|..]);
  }

  lemma CommentedRest(s: string, k: nat)
    requires k <= |s| && Commented(s[k..])
    ensures Commented(s)
  {
    hide *;
    assert s == s[..k] + s[k..];
    CommentedPart(s[..k], s[k..]);
  }

  // ---- What erasing does ----

  lemma ErasedFront(s: string)
    requires s != ""
    ensures var e := Erase(s);
            e != "" && (e[0] != ' ' ==> CommentAt(s) == 0 && e[0] == s[0] && e[1..] == Erase(s[1..]))
  {
  }

  lemma {:induction false} ErasedHolds(s: string, a: char, b: char)
    requires a != ' ' && b != ' ' && Holds(Erase(s), a, b)
    ensures Holds(s, a, b)
    decreases |s|
  {
    var n := CommentAt(s);
    if n > 0 {
      var rest := Erase(s[n..]);
      assert (" " + rest)[1..] == rest;
      ErasedHolds(s[n..], a, b);
      HoldsPart(s[..n], s[n..], a, b);
      assert s[..n] + s[n..] == s;
    } else {
      var rest := Erase(s[1..]);
      assert ([s[0]] + rest)[1..] == rest;
      if Holds(rest, a, b) {
        ErasedHolds(s[1..], a, b);
      } else {
        ErasedFront(s[1..]);
      }
    }
  }

  lemma ErasedNoComment(s: string)
    requires s != "" && CommentAt(s) == 0
    ensures CommentAt(Erase(s)) == 0
  {
    var e, rest := Erase(s), Erase(s[1..]);
    CommentAtExact(s);
    CommentAtExact(e);
    assert e[1..] == rest;
    if s[1..] != "" {
      ErasedFront(s[1..]);
      if Pair(e, '/', '*') {
        assert Pair(s, '/', '*') && e[2..] == Erase(s[2..]);
        if Holds(e[2..], '*', '/') {
          ErasedHolds(s[2..], '*', '/');
        }
      }
    }
  }

  /** Nothing that is left can be read as a comment. */
  lemma {:induction false} ErasedIsClean(s: string)
    ensures !Commented(Erase(s))
    decreases |s|
  {
    if s != "" {
      var n := CommentAt(s);
      if n > 0 {
        ErasedIsClean(s[n..]);
        var rest := Erase(s[n..]);
        CommentAtExact(" " + rest);
        assert (" " + rest)[1..] == rest;
      } else {
        ErasedIsClean(s[1..]);
        ErasedNoComment(s);
        assert Erase(s)[1..] == Erase(s[1..]);
      }
    }
  }

  /** Exactly the texts without a comment are left as they are; every other one gets shorter. */
  lemma {:induction false} EraseExact(s: string)
    ensures |Erase(s)| <= |s|
    ensures Commented(s) ==> |Erase(s)| < |s|
    ensures !Commented(s) ==> Erase(s) == s
    decreases |s|
  {
    if s != "" {
      if CommentAt(s) > 0 {
        EraseExact(s[CommentAt(s)..]);
      } else {
        EraseExact(s[1..]);
        Uncons(s);
      }
    }
  }

  lemma {:induction false} EraseHead(a: string, b: string)
    requires !Holds(a, '-', '-') && !Holds(a, '/', '*')
    requires a != "" ==> a[|a| - 1] != '-' && a[|a| - 1] != '/'
    ensures Erase(a + b) == a + Erase(b)
    ensures Commented(a + b) <==> Commented(b)
  {
    if a == "" {
      assert a + b == b;
    } else {
      var t := a[1..] + b;
      assert (a + b)[1..] == t;
      CommentAtExact(a + b);
      EraseHead(a[1..], b);
      Uncons(a);
      Assoc([a[0]], a[1..], Erase(b));
    }
  }

  /** A line comment becomes one space and ends in front of its line break, if there is one. */
  lemma {:induction false} EraseLine(body: string, rest: string)
    requires '\n' !in body && '\r' !in body && (rest == "" || rest[0] == '\n' || rest[0] == '\r')
    ensures Erase("--" + body + rest) == " " + Erase(rest)
  {
    var s := "--" + body + rest;
    LineLengthOf(body, rest);
    assert s[2..] == body + rest && s[2 + |body|..] == rest;
  }

  lemma {:induction false} LineLengthOf(body: string, rest: string)
    requires '\n' !in body && '\r' !in body && (rest == "" || rest[0] == '\n' || rest[0] == '\r')
    ensures LineLength(body + rest) == |body|
  {
    if body == "" {
      assert body + rest == rest;
    } else {
      assert (body + rest)[1..] == body[1..] + rest;
      LineLengthOf(body[1..], rest);
    }
  }

  /** A block comment becomes one space, line breaks included, up to the first closing behind its opening. */
  lemma EraseBlock(body: string, rest: string)
    requires !Holds(body, '*', '/')
    ensures Erase("/*" + body + "*/" + rest) == " " + Erase(rest)
  {
    var s := "/*" + body + "*/" + rest;
    ClosedBlock(body, rest);
    assert s[4 + |body|..] == rest;
    hide CommentAt;
  }

  lemma ClosedBlock(body: string, rest: string)
    requires !Holds(body, '*', '/')
    ensures CommentAt("/*" + body + "*/" + rest) == 4 + |body|
  {
    var s := "/*" + body + "*/" + rest;
    CloserOf(body, rest);
    hide Holds, Closer;
    assert s[2..] == body + "*/" + rest;
    assert s[0] == '/' && s[1] == '*';
  }

  lemma {:induction false} CloserOf(body: string, rest: string)
    requires !Holds(body, '*', '/')
    ensures Closer(body + "*/" + rest) == |body|
  {
    var s := body + "*/" + rest;
    if body != "" {
      assert s[1..] == body[1..] + "*/" + rest;
      CloserOf(body[1..], rest);
    }
  }

  lemma {:induction false} HoldsTail(a: string, b: string)
    requires '*' !in b && '/' !in b
    ensures Holds(a + b, '*', '/') <==> Holds(a, '*', '/')
  {
    if a == "" {
      assert a + b == b;
      HoldsNone(b, '*', '/');
    } else {
      assert (a + b)[1..] == a[1..] + b;
      HoldsTail(a[1..], b);
    }
  }

  lemma {:induction false} HoldsNone(s: string, a: char, b: char)
    requires a !in s || b !in s
    ensures !Holds(s, a, b)
  {
    if s != "" {
      HoldsNone(s[1..], a, b);
    }
  }

  lemma {:induction false} CommentedTail(a: string, b: string)
    requires '*' !in b && '/' !in b && '-' !in b
    ensures Commented(a + b) <==> Commented(a)
  {
    if a == "" {
      assert a + b == b;
      HoldsNone(b, '-', '-');
      HoldsNone(b, '/', '*');
      assert b + "" == b;
      EraseHead(b, "");
    } else {
      assert (a + b)[1..] == a[1..] + b;
      CommentAtExact(a + b);
      CommentAtExact(a);
      if |a| >= 2 {
        assert (a + b)[2..] == a[2..] + b;
        HoldsTail(a[2..], b);
      }
      CommentedTail(a[1..], b);
    }
  }

  // ---- Doubled quotes ----

  function Collapsed(s: string, quote: char): string {
    ReplaceAll(s, [quote, quote], [quote])
  }

  lemma CollapsedFront(s: string, quote: char)
    requires s != ""
    ensures var rest := if Pair(s, quote, quote) then s[2..] else s[1..];
            Collapsed(s, quote) == [s[0]] + Collapsed(rest, quote)
  {
    assert [quote, quote] <= s <==> Pair(s, quote, quote);
  }

  lemma {:induction false} HoldsCollapsed(s: string, quote: char, a: char, b: char)
    requires a != quote && b != quote
    ensures Holds(Collapsed(s, quote), a, b) <==> Holds(s, a, b)
    decreases |s|
  {
    if s != "" {
      var rest := if Pair(s, quote, quote) then s[2..] else s[1..];
      var r := Collapsed(rest, quote);
      CollapsedFront(s, quote);
      HoldsCollapsed(rest, quote, a, b);
      assert ([s[0]] + r)[1..] == r;
      if rest != "" {
        CollapsedFront(rest, quote);
      }
      hide Collapsed;
      if Pair(s, quote, quote) {
        assert s[1..][1..] == s[2..];
      }
    }
  }

  lemma CommentAtCollapsed(s: string, quote: char)
    requires quote != '-' && quote != '/' && quote != '*'
    ensures CommentAt(Collapsed(s, quote)) > 0 <==> CommentAt(s) > 0
  {
    var c := Collapsed(s, quote);
    CommentAtExact(s);
    CommentAtExact(c);
    if s != "" {
      CollapsedFront(s, quote);
      if s[0] != quote && s[1..] != "" {
        CollapsedFront(s[1..], quote);
        if s[1] != quote {
          assert c[2..] == Collapsed(s[2..], quote);
          HoldsCollapsed(s[2..], quote, '*', '/');
        }
      }
    }
  }

  /** Writing a quote twice, or reading two as one, neither makes nor breaks a comment. */
  lemma {:induction false} CommentedCollapsed(s: string, quote: char)
    requires quote != '-' && quote != '/' && quote != '*'
    ensures Commented(Collapsed(s, quote)) <==> Commented(s)
    decreases |s|
  {
    if s != "" {
      var rest := if Pair(s, quote, quote) then s[2..] else s[1..];
      var r := Collapsed(rest, quote);
      CollapsedFront(s, quote);
      CommentAtCollapsed(s, quote);
      CommentedCollapsed(rest, quote);
      assert ([s[0]] + r)[1..] == r;
      if Pair(s, quote, quote) {
        assert s[1..][1..] == s[2..];
        CommentAtExact(s[1..]);
      }
      hide Collapsed, CommentAt;
    }
  }

  /** A quoted token holds a comment exactly if the text in it does: the quotes protect nothing. */
  lemma CommentedQuoted(name: string, quote: char)
    requires quote != '-' && quote != '/' && quote != '*'
    ensures Commented([quote] + Doubled(name, quote) + [quote]) <==> Commented(name)
  {
    var body := Doubled(name, quote);
    UndoubleDoubled(name, quote);
    CommentedCollapsed(body, quote);
    EraseHead([quote], body);
    CommentedTail([quote] + body, [quote]);
  }

  // ---- The whole cleaning ----

  lemma NormalizedWindow(sql: string) returns (lo: nat, hi: nat)
    ensures lo <= hi <= |Erase(sql)| && NormalizeSql(sql) == Erase(sql)[lo..hi] && Trimmed(NormalizeSql(sql))
  {
    hide *;
    var e := Erase(sql);
    var a, b := TrimSpan(e);
    var t := TrimEndChar(Trim(e), ';');
    TrimEndCharStops(Trim(e), ';');
    var l, h := TrimSpan(t);
    lo, hi := a + l, a + h;
    SliceOfSlice(e, a, b, 0, |t|);
    SliceOfSlice(e, a, a + |t|, l, h);
    assert t == e[a..b][0..|t|];
    NormalizeSteps(sql);
  }

  lemma NormalizeSteps(sql: string)
    ensures NormalizeSql(sql) == Trim(TrimEndChar(Trim(Erase(sql)), ';'))
  {
  }

  /** Whatever a client writes, no comment is left in what is classified. */
  lemma NormalizedIsClean(sql: string)
    ensures !Commented(NormalizeSql(sql))
  {
    var lo, hi := NormalizedWindow(sql);
    ErasedIsClean(sql);
    hide *;
    if Commented(NormalizeSql(sql)) {
      CommentedWindow(Erase(sql), lo, hi);
    }
  }

  lemma {:induction false} TrimEndCharStays(s: string, c: char, tail: string)
    requires (s == "" || s[|s| - 1] != c) && forall i | 0 <= i < |tail| :: tail[i] == c
    ensures TrimEndChar(s + tail, c) == s
  {
    if tail == "" {
      assert s + tail == s;
    } else {
      assert (s + tail)[..|s + tail| - 1] == s + tail[..|tail| - 1];
      TrimEndCharStays(s, c, tail[..|tail| - 1]);
    }
  }

  predicate Semicolons(s: string) {
    forall i | 0 <= i < |s| :: s[i] == ';'
  }

  lemma TrimSelf(s: string)
    requires Trimmed(s)
    ensures Trim(s) == s
  {
    TrimPadded("", s, "");
    assert "" + s + "" == s;
  }

  lemma TrimBehind(s: string, post: string)
    requires Trimmed(s) && Blank(post)
    ensures Trim(s + post) == s
  {
    TrimPadded("", s, post);
    assert "" + s + post == s + post;
  }

  lemma EndingStripped(core: string, pad: string, semis: string)
    requires Blank(pad) && Semicolons(semis)
    requires core != "" && Trimmed(core) && core[|core| - 1] != ';'
    ensures var body := if semis == "" then core else core + pad + semis;
            Trimmed(body) && Trim(TrimEndChar(body, ';')) == core
  {
    if semis == "" {
      TrimEndCharStays(core, ';', "");
      assert core + "" == core;
      TrimSelf(core);
    } else {
      TrimEndCharStays(core + pad, ';', semis);
      TrimBehind(core, pad);
      assert !IsSpace(';');
    }
  }

  /** A statement without a comment, with white space around it and semicolons behind it, is cleaned to itself. */
  lemma NormalizeEnding(pre: string, core: string, pad: string, semis: string, post: string)
    requires Blank(pre) && Blank(pad) && Semicolons(semis) && Blank(post)
    requires core != "" && Trimmed(core) && core[|core| - 1] != ';' && !Commented(core)
    ensures NormalizeSql(pre + (core + (pad + (semis + post)))) == core
  {
    var text := pre + (core + (pad + (semis + post)));
    var body := if semis == "" then core else core + pad + semis;
    var rest := if semis == "" then pad + post else post;
    PaddedIsClean(pre, core, pad, semis, post);
    EraseExact(text);
    EndingStripped(core, pad, semis);
    assert Blank(rest);
    hide *;
    Regroup(pre, core, pad, semis, post);
    TrimPadded(pre, body, rest);
    NormalizeSteps(text);
  }

  lemma Regroup(pre: string, core: string, pad: string, semis: string, post: string)
    ensures var text := pre + (core + (pad + (semis + post)));
            text == if semis == "" then pre + core + (pad + post) else pre + (core + pad + semis) + post
  {
  }

  /** The same for a text from which comments were erased. */
  lemma NormalizeErased(sql: string, pre: string, core: string, post: string)
    requires Blank(pre) && Blank(post) && Erase(sql) == pre + core + post
    requires core != "" && Trimmed(core) && core[|core| - 1] != ';'
    ensures NormalizeSql(sql) == core
  {
    assert Semicolons("") && Blank("");
    hide *;
    TrimPadded(pre, core, post);
    EndingStripped(core, "", "");
    NormalizeSteps(sql);
  }

  lemma PaddedIsClean(pre: string, core: string, pad: string, semis: string, post: string)
    requires Blank(pre) && Blank(pad) && Semicolons(semis) && Blank(post)
    ensures Commented(pre + (core + (pad + (semis + post)))) <==> Commented(core)
  {
    var tail := pad + (semis + post);
    HoldsNone(pre, '-', '-');
    HoldsNone(pre, '/', '*');
    EraseHead(pre, core + tail);
    CommentedTail(core, tail);
  }

  /** Exactly the statements that hold no comment, have no white space around them and end in no semicolon. */
  lemma NormalizeExact(sql: string)
    ensures NormalizeSql(sql) == sql <==>
              !Commented(sql) && Trimmed(sql) && (sql == "" || sql[|sql| - 1] != ';')
  {
    if NormalizeSql(sql) == sql {
      NormalizedIsClean(sql);
      var lo, hi := NormalizedWindow(sql);
      if sql != "" {
        NormalizedEnd(sql);
      }
    }
    if sql != "" && !Commented(sql) && Trimmed(sql) && sql[|sql| - 1] != ';' {
      NormalizeEnding("", sql, "", "", "");
      hide *;
      assert "" + (sql + ("" + ("" + ""))) == sql;
    }
  }

  lemma NormalizedEnd(sql: string)
    requires NormalizeSql(sql) == sql && sql != "" && Trimmed(sql) && !Commented(sql)
    ensures sql[|sql| - 1] != ';'
  {
    EraseExact(sql);
    TrimSelf(sql);
    hide Trim, Erase, Commented, Trimmed;
    assert |TrimEndChar(sql, ';')| == |sql|;
  }

  // ---- The query of a DECLARE ----

  /** What stands in front of the query, up to the white space behind FOR; no comment can start in it. */
  predicate Introduces(head: string) {
    && head != "" && !IsSpace(head[0]) && IsSpace(head[|head| - 1])
    && !Holds(head, '-', '-') && !Holds(head, '/', '*')
  }

  /** The query is cut out of the cleaned statement behind its introduction, and trimmed. */
  function DeclaredQuery(head: string, cleaned: string): Option<string> {
    if head <= cleaned then Some(Trim(cleaned[|head|..])) else None
  }

  lemma {:induction false} TrimEndCharInner(a: string, m: string, c: char)
    ensures TrimEndChar(a + m, c) == if TrimEndChar(m, c) == "" then TrimEndChar(a, c) else a + TrimEndChar(m, c)
  {
    if m == "" {
      assert a + m == a;
    } else if m[|m| - 1] == c {
      assert (a + m)[..|a + m| - 1] == a + m[..|m| - 1];
      TrimEndCharInner(a, m[..|m| - 1], c);
    }
  }

  /** Only the end of a text that starts with no white space is trimmed. */
  lemma TrimFront(s: string) returns (rest: string)
    requires s != "" && !IsSpace(s[0])
    ensures s == Trim(s) + rest && Blank(rest) && Trim(s) != "" && Trimmed(Trim(s))
    ensures IsSpace(s[|s| - 1]) ==> rest != ""
  {
    TrimEndKeeps(s);
    rest := s[|TrimEnd(s)|..];
    assert Trim(s) == TrimEnd(s);
    assert Trim(s) == "" ==> rest == s;
  }

  /** An introduction with nothing but white space behind it loses its own end. */
  lemma BareHead(head: string, pad: string)
    requires Introduces(head) && Blank(pad)
    ensures Trim(head + pad) == Trim(head) && |Trim(head)| < |head|
    ensures TrimEndChar(head + pad, ';') == head + pad
  {
    var rest := TrimFront(head);
    var h := Trim(head);
    hide Trim;
    assert head + pad == h + (rest + pad);
    TrimBehind(h, rest + pad);
  }

  lemma EraseParts(q: string) returns (pre: string, m: string, post: string)
    ensures Erase(q) == pre + m + post && m == Trim(Erase(q)) && Trimmed(m) && Blank(pre) && Blank(post)
  {
    var e := Erase(q);
    var lo, hi := TrimSpan(e);
    pre, m, post := e[..lo], e[lo..hi], e[hi..];
  }

  /** Trimming a statement that is led by an introduction keeps all of it up to the end of the query. */
  lemma TrimLed(head: string, pre: string, m: string, post: string)
    requires Introduces(head) && Blank(post) && m != "" && !IsSpace(m[|m| - 1])
    ensures Trim(head + (pre + m + post)) == head + (pre + m)
  {
    var body := head + (pre + m);
    assert Trimmed(body);
    assert head + (pre + m + post) == body + post;
    TrimBehind(body, post);
  }

  lemma QueryKept(head: string, pre: string, m: string)
    requires Introduces(head) && Blank(pre) && Trimmed(m) && TrimEndChar(m, ';') != ""
    ensures var t := Trim(TrimEndChar(m, ';'));
            t != "" && Trimmed(t) && Trim(TrimEndChar(head + (pre + m), ';')) == head + (pre + t)
  {
    var u := TrimEndChar(m, ';');
    TrimEndCharStops(m, ';');
    assert u[0] == m[0];
    var rest := TrimFront(u);
    var t := Trim(u);
    TrimEndCharInner(head + pre, m, ';');
    hide Trim, TrimEndChar;
    QueryRegroup(head, pre, m, u, t, rest);
    TrimLed(head, pre, t, rest);
  }

  lemma QueryRegroup(head: string, pre: string, m: string, u: string, t: string, rest: string)
    requires u == t + rest
    ensures head + pre + m == head + (pre + m) && head + pre + u == head + (pre + t + rest)
  {
  }

  lemma QueryGone(head: string, pre: string, m: string)
    requires Introduces(head) && Blank(pre) && TrimEndChar(m, ';') == ""
    ensures |Trim(TrimEndChar(head + (pre + m), ';'))| < |head|
  {
    TrimEndCharInner(head + pre, m, ';');
    Assoc(head, pre, m);
    BareHead(head, pre);
  }

  /** The query that is cut out is the cleaned query, unless nothing is left of it. */
  lemma DeclaredQueryIsCleaned(head: string, q: string)
    requires Introduces(head)
    ensures DeclaredQuery(head, NormalizeSql(head + q)) == if NormalizeSql(q) == "" then None else Some(NormalizeSql(q))
  {
    var pre, m, post := EraseParts(q);
    var n := NormalizeSql(head + q);
    EraseHead(head, q);
    NormalizeSteps(q);
    NormalizeSteps(head + q);
    assert TrimEndChar("", ';') == "" && Trim("") == "";
    if m == "" {
      assert pre + m + post == pre + post && Blank(pre + post);
      BareHead(head, pre + post);
      assert |n| < |head|;
    } else if TrimEndChar(m, ';') == "" {
      TrimLed(head, pre, m, post);
      QueryGone(head, pre, m);
    } else {
      TrimLed(head, pre, m, post);
      QueryKept(head, pre, m);
      var t := NormalizeSql(q);
      hide *;
      assert n == head + (pre + t) && n[|head|..] == pre + t;
      TrimPadded(pre, t, "");
      assert pre + t + "" == pre + t;
      CutOut(head, n);
    }
  }

  lemma CutOut(head: string, cleaned: string)
    requires head <= cleaned
    ensures DeclaredQuery(head, cleaned) == Some(Trim(cleaned[|head|..]))
  {
  }

  /** A trimmed query that ends in no semicolon is executed as it was written exactly if it holds no comment. */
  lemma DeclaredQueryExact(head: string, q: string)
    requires Introduces(head) && q != "" && Trimmed(q) && q[|q| - 1] != ';'
    ensures DeclaredQuery(head, NormalizeSql(head + q)) == Some(q) <==> !Commented(q)
  {
    DeclaredQueryIsCleaned(head, q);
    NormalizeExact(q);
  }
}
