/**
 Rendering a bound portal. The code replaces `$n`, then `$n-1`, down to `$1`, in the whole text each time; the
 meaning intended is one simultaneous substitution of every placeholder.
 */
module Portal {
  import opened Wrappers
  import opened Text
  import opened Sequences

  /** A bound parameter after its bytes are read with the format and type the client gave. */
  datatype Param = Null | TextValue(text: string) | BinaryBool(value: bool) | BinaryInt(number: int) | Malformed

  /** A literal is read back by taking the quotes off and each doubled quote as one. */
  lemma LiteralReadsBack(value: string)
    ensures var literal := SqlStringLiteral(value);
            ReplaceAll(literal[1..|literal| - 1], "''", "'") == value
  {
    var literal := SqlStringLiteral(value);
    assert literal[1..|literal| - 1] == Doubled(value, '\'');
    UndoubleDoubled(value, '\'');
  }

  function RenderParameter(p: Param): Result<string> {
    match p
    case Null => Ok("NULL")
    case TextValue(text) => Ok(SqlStringLiteral(text))
    case BinaryBool(value) => Ok(if value then "TRUE" else "FALSE")
    case BinaryInt(n) => Ok(IntText(n))
    case Malformed => Err("08P01")
  }

  // ---- What a rendered parameter says ----

  /** How SQL reads a constant: NULL, a boolean, a string literal, or a decimal integer with at most a minus sign. */
  function ReadConstant(s: string): Option<Param> {
    if s == "NULL" then Some(Null)
    else if s == "TRUE" then Some(BinaryBool(true))
    else if s == "FALSE" then Some(BinaryBool(false))
    else if |s| >= 2 && s[0] == '\'' && s[|s| - 1] == '\'' then
      Some(TextValue(ReplaceAll(s[1..|s| - 1], "''", "'")))
    else if |s| >= 2 && s[0] == '-' && AllDigits(s[1..]) then Some(BinaryInt(-(Val(s[1..]) as int)))
    else if s != "" && AllDigits(s) then Some(BinaryInt(Val(s)))
    else None
  }

  lemma DigitsRead(d: string)
    requires AllDigits(d) && d != ""
    ensures ReadConstant(d) == Some(BinaryInt(Val(d)))
  {
    assert IsDigit(d[0]);
    assert "NULL"[0] == 'N' && "TRUE"[0] == 'T' && "FALSE"[0] == 'F';
    hide Val, ReplaceAll;
  }

  lemma MinusRead(d: string)
    requires AllDigits(d) && d != ""
    ensures ReadConstant("-" + d) == Some(BinaryInt(-(Val(d) as int)))
  {
    assert ("-" + d)[0] == '-' && ("-" + d)[1..] == d;
    assert "NULL"[0] == 'N' && "TRUE"[0] == 'T' && "FALSE"[0] == 'F';
    hide Val, ReplaceAll, AllDigits;
  }

  lemma IntReadsBack(n: int)
    ensures ReadConstant(IntText(n)) == Some(BinaryInt(n))
  {
    var size := if n < 0 then -n else n;
    ValDec(size);
    hide Dec, Val, ReadConstant;
    if n < 0 {
      MinusRead(Dec(size));
    } else {
      DigitsRead(Dec(size));
    }
  }

  /** Read as SQL, a rendered parameter is the parameter; only a malformed one is not rendered. */
  lemma ParameterReadsBack(p: Param)
    ensures RenderParameter(p) == Err("08P01") <==> p == Malformed
    ensures p != Malformed ==> RenderParameter(p).Ok? && ReadConstant(RenderParameter(p).value) == Some(p)
  {
    match p {
      case TextValue(text) => LiteralReadsBack(text);
      case BinaryInt(n) => IntReadsBack(n);
      case Null =>
      case BinaryBool(_) =>
      case Malformed =>
    }
    hide ReplaceAll, Dec, Val, IntText;
  }

  ghost predicate Renderable(params: seq<Param>) {
    forall i | 0 <= i < |params| :: RenderParameter(params[i]).Ok?
  }

  ghost function Values(params: seq<Param>): (values: seq<string>)
    requires Renderable(params)
    ensures |values| == |params|
  {
    seq(|params|, i requires 0 <= i < |params| => RenderParameter(params[i]).value)
  }

  function Placeholder(index: nat): string {
    "$" + Dec(index)
  }

  /** The text after `$i` down to `$1` have been replaced, one after another. */
  ghost function Sequential(s: string, values: seq<string>, i: nat): string
    requires i <= |values|
    decreases i
  {
    if i == 0 then s else Sequential(ReplaceAll(s, Placeholder(i), values[i - 1]), values, i - 1)
  }

  ghost function Rendered(s: string, params: seq<Param>): string
    requires Renderable(params)
  {
    Sequential(s, Values(params), |params|)
  }

  /** The descending loop of replacements; the first parameter that cannot be rendered ends it. */
  method RenderPortalSql(statement: string, params: seq<Param>) returns (r: Result<string>)
    ensures r.Ok? <==> Malformed !in params
    ensures r.Ok? ==> Renderable(params)
    ensures r.Ok? ==> r.value == Rendered(statement, params)
    ensures r.Err? ==> r.sqlstate == "08P01"
  {
    var sql := statement;
    var idx := |params|;
    while idx > 0
      invariant 0 <= idx <= |params|
      invariant forall i | idx <= i < |params| :: RenderParameter(params[i]).Ok?
      invariant Renderable(params) ==> Sequential(sql, Values(params), idx) == Rendered(statement, params)
    {
      idx := idx - 1;
      var placeholder := Placeholder(idx + 1);
      var value := RenderParameter(params[idx]);
      if value.Err? {
        return Err(value.sqlstate);
      }
      sql := ReplaceAll(sql, placeholder, value.value);
    }
    return Ok(sql);
  }

  // ---- Simultaneous substitution ----

  function DigitRun(s: string): (n: nat)
    ensures n <= |s|
    ensures AllDigits(s[..n])
    ensures n < |s| ==> !IsDigit(s[n])
  {
    if s != "" && IsDigit(s[0]) then
      var n := DigitRun(s[1..]);
      assert forall i | 0 < i < n + 1 :: s[i] == s[1..][..n][i - 1];
      n + 1
    else 0
  }

  /** The digits after a `$` at the front of `s`, and what follows them. */
  function Digits(s: string): (d: string)
    requires s != ""
    ensures AllDigits(d)
  {
    s[1..][..DigitRun(s[1..])]
  }

  function After(s: string): (rest: string)
    requires s != ""
    ensures |rest| < |s| && (rest != "" ==> !IsDigit(rest[0]))
    ensures s == [s[0]] + Digits(s) + rest
  {
    s[1..][DigitRun(s[1..])..]
  }

  /** Every `$` starts the canonical rendering of an index in `1..n`. */
  ghost predicate Template(s: string, n: nat)
    decreases |s|
  {
    s == "" ||
    if s[0] != '$' then Template(s[1..], n) else
    Digits(s) != "" && Digits(s)[0] != '0' && Val(Digits(s)) <= n && Template(After(s), n)
  }

  /** The template with every placeholder whose index exceeds `i` filled in, all at once. */
  ghost function Fill(s: string, values: seq<string>, i: nat): string
    requires Template(s, |values|)
    decreases |s|
  {
    if s == "" then ""
    else if s[0] != '$' then [s[0]] + Fill(s[1..], values, i)
    else (if Val(Digits(s)) > i then ValueAt(values, Digits(s)) else "$" + Digits(s)) + Fill(After(s), values, i)
  }

  ghost function ValueAt(values: seq<string>, d: string): string
    requires AllDigits(d) && d != "" && d[0] != '0' && Val(d) <= |values|
  {
    DecVal(d);
    values[Val(d) - 1]
  }

  lemma FillHole(s: string, values: seq<string>, i: nat)
    requires Template(s, |values|) && s != "" && s[0] == '$'
    ensures Fill(s, values, i)
         == (if Val(Digits(s)) > i then ValueAt(values, Digits(s)) else "$" + Digits(s)) + Fill(After(s), values, i)
  {
  }

  // ---- Replacing in a concatenation ----

  lemma {:induction false} CopyThrough(t: string, rest: string, pat: string, rep: string)
    requires pat != "" && pat[0] !in t
    ensures ReplaceAll(t + rest, pat, rep) == t + ReplaceAll(rest, pat, rep)
  {
    if t == "" {
      assert t + rest == rest;
    } else {
      assert (t + rest)[0] == t[0] && (t + rest)[1..] == t[1..] + rest;
      CopyThrough(t[1..], rest, pat, rep);
    }
  }

  lemma ReplaceFront(pat: string, rest: string, rep: string)
    requires pat != ""
    ensures ReplaceAll(pat + rest, pat, rep) == rep + ReplaceAll(rest, pat, rep)
  {
    assert (pat + rest)[|pat|..] == rest;
  }

  /** A placeholder text that the pattern does not start is copied. */
  lemma CopyHole(d: string, rest: string, pat: string, rep: string)
    requires pat != "" && pat[0] == '$' && '$' !in d && !(pat <= "$" + d + rest)
    ensures ReplaceAll("$" + d + rest, pat, rep) == "$" + d + ReplaceAll(rest, pat, rep)
  {
    var tail := d + rest;
    assert "$" + d + rest == "$" + tail && ("$" + tail)[1..] == tail;
    CopyThrough(d, rest, pat, rep);
  }

  lemma {:induction false} DigitRunAppend(a: string, b: string)
    requires b == "" || !IsDigit(b[0]) || DigitRun(a) < |a|
    ensures DigitRun(a + b) == DigitRun(a)
  {
    if a == "" {
      assert a + b == b;
    } else {
      assert (a + b)[1..] == a[1..] + b;
      if IsDigit(a[0]) {
        DigitRunAppend(a[1..], b);
      }
    }
  }

  lemma HoleAppend(a: string, b: string)
    requires a != "" && (b == "" || !IsDigit(b[0]) || After(a) != "")
    ensures Digits(a + b) == Digits(a) && After(a + b) == After(a) + b
  {
    assert (a + b)[1..] == a[1..] + b;
    DigitRunAppend(a[1..], b);
    var n := DigitRun(a[1..]);
    assert (a[1..] + b)[..n] == a[1..][..n] && (a[1..] + b)[n..] == a[1..][n..] + b;
  }

  lemma {:induction false} AllRun(d: string)
    requires AllDigits(d)
    ensures DigitRun(d) == |d|
  {
    if d != "" {
      AllRun(d[1..]);
    }
  }

  /** The digits read at a placeholder are its own and those that directly follow it. */
  lemma HoleDigits(d: string, rest: string)
    requires AllDigits(d) && (rest == "" || !IsDigit(rest[0]))
    ensures Digits("$" + d + rest) == d && After("$" + d + rest) == rest
  {
    AllRun(d);
    assert ("$" + d)[1..] == d && d[..|d|] == d && d[|d|..] == "";
    HoleAppend("$" + d, rest);
    assert "" + rest == rest;
  }

  // ---- What rendering computes, for every statement text ----

  /** Length of the longest index up to `n` that the digits `d` begin with, or 0. */
  function Longest(d: string, n: nat): (m: nat)
    requires AllDigits(d)
    ensures m <= |d|
    ensures m > 0 ==> d[0] != '0' && Val(d[..m]) <= n
  {
    if d == "" || d[0] == '0' then 0
    else if Val(d) <= n then
      assert d[..|d|] == d;
      |d|
    else
      var m := Longest(d[..|d| - 1], n);
      assert d[..|d| - 1][..m] == d[..m];
      m
  }

  /** A `$` in front of the digits `d` takes the longest index it can; the digits that are left stay. */
  ghost function Taken(d: string, values: seq<string>): string
    requires AllDigits(d)
  {
    var m := Longest(d, |values|);
    (if m == 0 then "$" else ValueAt(values, d[..m])) + d[m..]
  }

  /** One pass over any text. */
  ghost function Substitute(s: string, values: seq<string>): string
    decreases |s|
  {
    if s == "" then ""
    else if s[0] != '$' then [s[0]] + Substitute(s[1..], values)
    else
      Taken(Digits(s), values) + Substitute(After(s), values)
  }

  /** The first `i` values as they end up: each has its own placeholders filled by the values before it. */
  ghost function Finals(values: seq<string>, i: nat): (finals: seq<string>)
    requires i <= |values|
    ensures |finals| == i
  {
    if i == 0 then [] else Finals(values, i - 1) + [Substitute(values[i - 1], Finals(values, i - 1))]
  }

  /** A value that neither completes a placeholder in front of it nor lets the text behind complete its own. */
  ghost predicate Sealed(v: string) {
    && v != "" && !IsDigit(v[0])
    && ('$' in v ==> !IsDigit(v[|v| - 1]) && v[|v| - 1] != '$')
  }

  lemma {:induction false} LongestHit(d: string, k: nat)
    requires AllDigits(d) && k > 0 && Dec(k) <= d
    ensures Longest(d, k) == |Dec(k)|
  {
    ValDec(k);
    assert d[0] == Dec(k)[0];
    if |d| == |Dec(k)| {
      assert d == Dec(k);
    } else {
      PrefixIsSmaller(Dec(k), d);
      LongestHit(d[..|d| - 1], k);
    }
  }

  lemma PrefixOfInit(p: string, d: string)
    requires d != "" && !(p <= d)
    ensures !(p <= d[..|d| - 1])
  {
  }

  lemma PrefixShort(p: string, d: string, rest: string)
    requires |p| <= |d|
    ensures p <= d + rest <==> p <= d
  {
    assert (d + rest)[..|p|] == d[..|p|];
  }

  lemma PrefixLong(p: string, d: string, rest: string)
    requires |d| < |p| && p <= d + rest
    ensures rest != "" && p[|d|] == rest[0] && d + [rest[0]] <= p
  {
    assert p[|d|] == (d + rest)[|d|];
  }

  lemma {:induction false} LongestMiss(d: string, k: nat)
    requires AllDigits(d) && !(Dec(k + 1) <= d)
    ensures Longest(d, k) == Longest(d, k + 1)
  {
    if d != "" && d[0] != '0' {
      DecVal(d);
      if Val(d) > k + 1 {
        PrefixOfInit(Dec(k + 1), d);
        LongestMiss(d[..|d| - 1], k);
      }
    }
  }

  lemma SubstituteHole(s: string, values: seq<string>)
    requires s != "" && s[0] == '$'
    ensures Substitute(s, values) == Taken(Digits(s), values) + Substitute(After(s), values)
  {
  }

  lemma {:induction false} SubstituteAppend(a: string, b: string, values: seq<string>)
    requires || '$' !in a || b == "" || !IsDigit(b[0])
             || (a != "" && !IsDigit(a[|a| - 1]) && a[|a| - 1] != '$')
    ensures Substitute(a + b, values) == Substitute(a, values) + Substitute(b, values)
    decreases |a|
  {
    if a == "" {
      assert a + b == b;
    } else if a[0] != '$' {
      assert (a + b)[1..] == a[1..] + b;
      SubstituteAppend(a[1..], b, values);
    } else {
      var rest := After(a);
      assert rest == "" ==> a == ['$'] + Digits(a) + "" && (a[|a| - 1] == '$' || IsDigit(a[|a| - 1]));
      HoleAppend(a, b);
      SubstituteAppend(rest, b, values);
      SubstituteHole(a, values);
      SubstituteHole(a + b, values);
      hide *;
      Assoc(Taken(Digits(a), values), Substitute(rest, values), Substitute(b, values));
    }
  }

  lemma {:induction false} SubstitutePlain(s: string, values: seq<string>)
    requires '$' !in s
    ensures Substitute(s, values) == s
  {
    if s != "" {
      SubstitutePlain(s[1..], values);
    }
  }

  lemma {:induction false} SubstituteNone(s: string)
    ensures Substitute(s, []) == s
    decreases |s|
  {
    if s == "" {
    } else if s[0] != '$' {
      SubstituteNone(s[1..]);
    } else {
      LongestNone(Digits(s));
      SubstituteNone(After(s));
    }
  }

  lemma {:induction false} LongestNone(d: string)
    requires AllDigits(d)
    ensures Longest(d, 0) == 0
  {
    if d != "" && d[0] != '0' {
      DecVal(d);
      LongestNone(d[..|d| - 1]);
    }
  }

  lemma {:induction false} ReplacedStart(rest: string, pat: string, v: string)
    requires pat != "" && v != "" && !IsDigit(v[0]) && (rest != "" ==> !IsDigit(rest[0]))
    ensures ReplaceAll(rest, pat, v) == "" || !IsDigit(ReplaceAll(rest, pat, v)[0])
  {
  }

  lemma ReplaceCompleted(tail: string, rest: string, pat: string, v: string)
    requires pat != "" && pat[0] !in tail
    ensures ReplaceAll(pat + (tail + rest), pat, v) == v + (tail + ReplaceAll(rest, pat, v))
  {
    ReplaceFront(pat, tail + rest, v);
    CopyThrough(tail, rest, pat, v);
  }

  lemma SubstituteCompleted(v: string, tail: string, next: string, values: seq<string>)
    requires Sealed(v) && '$' !in tail
    ensures Substitute(v + (tail + next), values) == Substitute(v, values) + tail + Substitute(next, values)
  {
    SubstituteAppend(v, tail + next, values);
    SubstituteAppend(tail, next, values);
    SubstitutePlain(tail, values);
    hide *;
    Assoc(Substitute(v, values), tail, Substitute(next, values));
  }

  /** The digits at the front of the text begin with the index that is replaced. */
  lemma ReplaceHit(s: string, values: seq<string>, v: string)
    requires Sealed(v) && s != "" && s[0] == '$' && Dec(|values| + 1) <= Digits(s)
    requires Substitute(ReplaceAll(After(s), Placeholder(|values| + 1), v), values)
          == Substitute(After(s), values + [Substitute(v, values)])
    ensures Substitute(ReplaceAll(s, Placeholder(|values| + 1), v), values)
         == Substitute(s, values + [Substitute(v, values)])
  {
    var d, rest := Digits(s), After(s);
    var pat := Placeholder(|values| + 1);
    var tail := CutIndex(s, |values| + 1);
    TakenHit(d, values, Substitute(v, values));
    SubstituteHole(s, values + [Substitute(v, values)]);
    hide *;
    ReplaceCompleted(tail, rest, pat, v);
    SubstituteCompleted(v, tail, ReplaceAll(rest, pat, v), values);
  }

  lemma CutIndex(s: string, k: nat) returns (tail: string)
    requires s != "" && s[0] == '$' && Dec(k) <= Digits(s)
    ensures tail == Digits(s)[|Dec(k)|..] && '$' !in tail
    ensures s == Placeholder(k) + (tail + After(s)) && Placeholder(k) != "" && Placeholder(k)[0] == '$'
  {
    tail := Digits(s)[|Dec(k)|..];
    assert Digits(s) == Dec(k) + tail;
  }

  lemma TakenHit(d: string, values: seq<string>, value: string)
    requires AllDigits(d) && Dec(|values| + 1) <= d
    ensures Taken(d, values + [value]) == value + d[|Dec(|values| + 1)|..]
  {
    var k := |values| + 1;
    LongestHit(d, k);
    ValDec(k);
    assert d[..|Dec(k)|] == Dec(k);
  }

  lemma SameTaken(d: string, m: nat, values: seq<string>, value: string)
    requires AllDigits(d) && m <= |d| && (m > 0 ==> d[0] != '0' && Val(d[..m]) <= |values|)
    requires Longest(d, |values|) == m == Longest(d, |values| + 1)
    ensures Taken(d, values + [value]) == Taken(d, values)
  {
    hide Longest, Val, Dec;
    if m > 0 {
      var head := d[..m];
      DecVal(head);
      assert ValueAt(values + [value], head) == ValueAt(values, head);
    }
  }

  lemma TakenMiss(d: string, values: seq<string>, value: string)
    requires AllDigits(d) && !(Dec(|values| + 1) <= d)
    ensures Taken(d, values + [value]) == Taken(d, values)
  {
    hide *;
    LongestMiss(d, |values|);
    SameTaken(d, Longest(d, |values|), values, value);
  }

  lemma SubstituteDigits(d: string, rest: string, values: seq<string>)
    requires AllDigits(d) && (rest == "" || !IsDigit(rest[0]))
    ensures Substitute("$" + d + rest, values) == Taken(d, values) + Substitute(rest, values)
  {
    HoleDigits(d, rest);
    SubstituteHole("$" + d + rest, values);
  }

  lemma MissText(s: string, k: nat, v: string)
    requires s != "" && s[0] == '$' && !(Dec(k) <= Digits(s))
    ensures ReplaceAll(s, Placeholder(k), v) == "$" + Digits(s) + ReplaceAll(After(s), Placeholder(k), v)
  {
    NoMatch(k, Digits(s), After(s));
    DigitsPlain(s);
    hide *;
    CopyHole(Digits(s), After(s), Placeholder(k), v);
  }

  /** Another index, or none, stands at the front of the text. */
  lemma ReplaceMiss(s: string, values: seq<string>, v: string)
    requires Sealed(v) && s != "" && s[0] == '$' && !(Dec(|values| + 1) <= Digits(s))
    requires Substitute(ReplaceAll(After(s), Placeholder(|values| + 1), v), values)
          == Substitute(After(s), values + [Substitute(v, values)])
    ensures Substitute(ReplaceAll(s, Placeholder(|values| + 1), v), values)
         == Substitute(s, values + [Substitute(v, values)])
  {
    var pat, value := Placeholder(|values| + 1), Substitute(v, values);
    ReplacedStart(After(s), pat, v);
    hide *;
    MissText(s, |values| + 1, v);
    SubstituteDigits(Digits(s), ReplaceAll(After(s), pat, v), values);
    SubstituteHole(s, values + [value]);
    TakenMiss(Digits(s), values, value);
  }

  lemma DigitsPlain(s: string)
    requires s != "" && s[0] == '$'
    ensures '$' !in Digits(s) && s == "$" + Digits(s) + After(s)
    ensures forall k: nat :: Placeholder(k) != "" && Placeholder(k)[0] == '$'
  {
    assert AllDigits(Digits(s));
  }

  lemma PlaceholderNoPrefix(k: nat, d: string, rest: string)
    requires !(Dec(k) <= d + rest)
    ensures !(Placeholder(k) <= "$" + d + rest)
  {
    hide Dec;
    var tail := d + rest;
    assert "$" + d + rest == "$" + tail && Placeholder(k)[1..] == Dec(k) && ("$" + tail)[1..] == tail;
  }

  lemma NoMatch(k: nat, d: string, rest: string)
    requires AllDigits(d) && !(Dec(k) <= d) && (rest == "" || !IsDigit(rest[0]))
    ensures !(Placeholder(k) <= "$" + d + rest)
  {
    var p := Dec(k);
    if p <= d + rest {
      if |p| <= |d| {
        PrefixShort(p, d, rest);
      } else {
        PrefixLong(p, d, rest);
      }
    }
    PlaceholderNoPrefix(k, d, rest);
  }

  /** Replacing one more index first is passing over the text with one more value. */
  lemma {:induction false} ReplaceThenSubstitute(s: string, values: seq<string>, v: string)
    requires Sealed(v)
    ensures Substitute(ReplaceAll(s, Placeholder(|values| + 1), v), values)
         == Substitute(s, values + [Substitute(v, values)])
    decreases |s|
  {
    if s == "" {
    } else if s[0] != '$' {
      ReplaceThenSubstitute(s[1..], values, v);
      var pat := Placeholder(|values| + 1);
      var next := ReplaceAll(s[1..], pat, v);
      assert s == [s[0]] + s[1..];
      CopyThrough([s[0]], s[1..], pat, v);
      assert ([s[0]] + next)[1..] == next;
    } else {
      ReplaceThenSubstitute(After(s), values, v);
      hide *;
      if Dec(|values| + 1) <= Digits(s) {
        ReplaceHit(s, values, v);
      } else {
        ReplaceMiss(s, values, v);
      }
    }
  }

  /**
   Replacing one index after another is a single pass, whatever the text and whatever the values hold: a `$` in a
   value is filled by the values of smaller index only.
   */
  lemma {:induction false} SequentialIsSubstitute(s: string, values: seq<string>, i: nat)
    requires i <= |values| && forall j | 0 <= j < i :: Sealed(values[j])
    ensures Sequential(s, values, i) == Substitute(s, Finals(values, i))
    decreases i
  {
    if i == 0 {
      SubstituteNone(s);
    } else {
      SequentialIsSubstitute(ReplaceAll(s, Placeholder(i), values[i - 1]), values, i - 1);
      ReplaceThenSubstitute(s, Finals(values, i - 1), values[i - 1]);
    }
  }

  lemma RenderedIsSealed(p: Param)
    requires RenderParameter(p).Ok? && !(p.BinaryInt? && p.number >= 0)
    ensures Sealed(RenderParameter(p).value)
  {
    hide ReplaceAll;
    match p {
      case BinaryInt(n) =>
        assert '$' !in Dec(-n);
        hide Dec;
      case TextValue(text) =>
      case Null =>
      case BinaryBool(_) =>
      case Malformed =>
    }
  }

  /** What the portal really sends, for every statement text and all parameters other than non-negative numbers. */
  lemma RenderedExactly(s: string, params: seq<Param>)
    requires Renderable(params) && forall p | p in params :: !(p.BinaryInt? && p.number >= 0)
    ensures Rendered(s, params) == Substitute(s, Finals(Values(params), |params|))
  {
    forall j | 0 <= j < |params|
      ensures Sealed(Values(params)[j])
    {
      RenderedIsSealed(params[j]);
    }
    SequentialIsSubstitute(s, Values(params), |params|);
  }

  lemma {:induction false} LongestAll(d: string, n: nat)
    requires AllDigits(d) && d != "" && d[0] != '0' && Val(d) <= n
    ensures Longest(d, n) == |d| && d[..|d|] == d && d[|d|..] == ""
  {
  }

  lemma {:induction false} SubstituteTemplate(s: string, values: seq<string>)
    requires Template(s, |values|)
    ensures Substitute(s, values) == Fill(s, values, 0)
    decreases |s|
  {
    if s == "" {
    } else if s[0] != '$' {
      SubstituteTemplate(s[1..], values);
    } else {
      LongestAll(Digits(s), |values|);
      DecVal(Digits(s));
      SubstituteTemplate(After(s), values);
    }
  }
}
