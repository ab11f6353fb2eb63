/**
 When rendering a portal is the simultaneous substitution of its placeholders: for given values, and exactly which
 templates are safe whatever the parameters hold.
 */
module Substitution {
  import opened Text
  import opened Portal

  // ---- When it is the simultaneous substitution of a template ----

  /** `$k` is met by its own placeholders only, in the template filled in for every index above `k`. */
  ghost predicate Clear(s: string, values: seq<string>, k: nat)
    requires Template(s, |values|)
    decreases |s|
  {
    s == "" ||
    if s[0] != '$' then Clear(s[1..], values, k) else
    var a, rest := Val(Digits(s)), After(s);
    && (a > k ==> '$' !in ValueAt(values, Digits(s)))
    && (a < k && rest != "" && rest[0] == '$' && Val(Digits(rest)) > k ==>
          var v := ValueAt(values, Digits(rest));
          v != "" && (IsDigit(v[0]) ==> k < Completed(a, v)))
    && Clear(rest, values, k)
  }

  /** The index that `$a` becomes when it is completed by the first digit of `v`. */
  function Completed(a: nat, v: string): int
    requires v != ""
  {
    10 * a + (v[0] as int - '0' as int)
  }

  /** An index is no prefix of a smaller one, not even of one that following digits complete to a larger one. */
  lemma IndexNoPrefix(k: nat, d: string, rest: string)
    requires AllDigits(d) && d != "" && d[0] != '0' && Val(d) < k
    requires rest == "" || !IsDigit(rest[0]) || k < Completed(Val(d), rest)
    ensures !(Dec(k) <= d + rest)
  {
    var p := Dec(k);
    ValDec(k);
    if p <= d + rest {
      if |p| <= |d| {
        PrefixShort(p, d, rest);
        PrefixIsNoLarger(p, d);
      } else {
        PrefixLong(p, d, rest);
        var x := d + [rest[0]];
        assert x[..|x| - 1] == d && Val(x) == Completed(Val(d), rest);
        PrefixIsNoLarger(x, p);
      }
    }
  }

  lemma PrefixIsNoLarger(a: string, b: string)
    requires AllDigits(a) && AllDigits(b) && a != "" && a[0] != '0' && a <= b
    ensures Val(a) <= Val(b)
  {
    if |a| < |b| {
      PrefixIsSmaller(a, b);
    } else {
      assert a == b;
    }
  }

  /** What stands behind a smaller placeholder when `$k` is replaced. */
  lemma FillStart(s: string, values: seq<string>, k: nat)
    requires Template(s, |values|) && Clear(s, values, k) && s != "" && s[0] == '$' && Val(Digits(s)) < k
    ensures var next := Fill(After(s), values, k);
            next == "" || !IsDigit(next[0]) || k < Completed(Val(Digits(s)), next)
  {
  }

  lemma StageFilled(s: string, values: seq<string>, i: nat)
    requires 0 < i <= |values| && Template(s, |values|) && s != "" && s[0] == '$' && Val(Digits(s)) >= i
    requires Clear(s, values, i)
    requires ReplaceAll(Fill(After(s), values, i), Placeholder(i), values[i - 1]) == Fill(After(s), values, i - 1)
    ensures ReplaceAll(Fill(s, values, i), Placeholder(i), values[i - 1]) == Fill(s, values, i - 1)
  {
    var d, rest := Digits(s), After(s);
    DecVal(d);
    FillHole(s, values, i);
    FillHole(s, values, i - 1);
    var value := ValueAt(values, d);
    assert Placeholder(Val(d)) == "$" + d && (Val(d) > i ==> '$' !in value);
    hide ReplaceAll, Fill, Val, Dec, Clear, Template, Digits, After, AllDigits;
    if Val(d) > i {
      CopyThrough(value, Fill(rest, values, i), Placeholder(i), values[i - 1]);
    } else {
      ReplaceFront(Placeholder(i), Fill(rest, values, i), values[i - 1]);
    }
  }

  lemma StageKept(s: string, values: seq<string>, i: nat)
    requires 0 < i <= |values| && Template(s, |values|) && s != "" && s[0] == '$' && Val(Digits(s)) < i
    requires Clear(s, values, i)
    requires ReplaceAll(Fill(After(s), values, i), Placeholder(i), values[i - 1]) == Fill(After(s), values, i - 1)
    ensures ReplaceAll(Fill(s, values, i), Placeholder(i), values[i - 1]) == Fill(s, values, i - 1)
  {
    var d, next := Digits(s), Fill(After(s), values, i);
    FillHole(s, values, i);
    FillHole(s, values, i - 1);
    FillStart(s, values, i);
    DigitsPlain(s);
    assert d != "" && d[0] != '0';
    hide *;
    IndexNoPrefix(i, d, next);
    PlaceholderNoPrefix(i, d, next);
    CopyHole(d, next, Placeholder(i), values[i - 1]);
  }

  lemma {:induction false} Stage(s: string, values: seq<string>, i: nat)
    requires 0 < i <= |values| && Template(s, |values|) && Clear(s, values, i)
    ensures ReplaceAll(Fill(s, values, i), Placeholder(i), values[i - 1]) == Fill(s, values, i - 1)
    decreases |s|
  {
    if s == "" {
    } else if s[0] != '$' {
      Stage(s[1..], values, i);
      CopyThrough([s[0]], Fill(s[1..], values, i), Placeholder(i), values[i - 1]);
    } else {
      Stage(After(s), values, i);
      hide *;
      if Val(Digits(s)) >= i {
        StageFilled(s, values, i);
      } else {
        StageKept(s, values, i);
      }
    }
  }

  lemma {:induction false} FillNone(s: string, values: seq<string>)
    requires Template(s, |values|)
    ensures Fill(s, values, |values|) == s
    decreases |s|
  {
    if s != "" {
      if s[0] != '$' {
        FillNone(s[1..], values);
      } else {
        FillNone(After(s), values);
      }
    }
  }

  /** As long as each index is clear, replacing it fills it in. */
  lemma {:induction false} StagesTo(s: string, values: seq<string>, lo: nat, hi: nat)
    requires lo <= hi <= |values| && Template(s, |values|)
    requires forall k | lo < k <= hi :: Clear(s, values, k)
    ensures Sequential(Fill(s, values, hi), values, hi) == Sequential(Fill(s, values, lo), values, lo)
    decreases hi
  {
    if lo < hi {
      Stage(s, values, hi);
      StagesTo(s, values, lo, hi - 1);
    }
  }

  lemma ClearIsFill(s: string, values: seq<string>)
    requires Template(s, |values|)
    requires forall k | 0 < k <= |values| :: Clear(s, values, k)
    ensures Sequential(s, values, |values|) == Fill(s, values, 0)
  {
    FillNone(s, values);
    StagesTo(s, values, 0, |values|);
  }

  ghost predicate NoDollar(values: seq<string>) {
    forall v | v in values :: '$' !in v
  }

  /**
   Directly behind `$a`, the value of `$b` starts with no digit, or with one that completes `$a` only to an index
   that is not replaced after `$b`.
   */
  ghost predicate Apart(s: string, values: seq<string>)
    requires Template(s, |values|)
    decreases |s|
  {
    s == "" ||
    if s[0] != '$' then Apart(s[1..], values) else
    var rest := After(s);
    && (rest != "" && rest[0] == '$' ==>
          var v := ValueAt(values, Digits(rest));
          v != "" && (IsDigit(v[0]) ==> Val(Digits(rest)) <= Completed(Val(Digits(s)), v)))
    && Apart(rest, values)
  }

  lemma {:induction false} ApartIsClear(s: string, values: seq<string>, k: nat)
    requires Template(s, |values|) && Apart(s, values) && NoDollar(values)
    ensures Clear(s, values, k)
    decreases |s|
  {
    if s != "" {
      if s[0] != '$' {
        ApartIsClear(s[1..], values, k);
      } else {
        DecVal(Digits(s));
        assert ValueAt(values, Digits(s)) in values;
        ApartIsClear(After(s), values, k);
      }
    }
  }

  /** Replacing `$n` down to `$1` one after another is the simultaneous substitution. */
  lemma RenderIsSubstitution(s: string, values: seq<string>)
    requires Template(s, |values|) && Apart(s, values) && NoDollar(values)
    ensures Sequential(s, values, |values|) == Fill(s, values, 0)
  {
    forall k | 0 < k <= |values|
      ensures Clear(s, values, k)
    {
      ApartIsClear(s, values, k);
    }
    ClearIsFill(s, values);
  }

  /** Values that are literals, NULL or booleans never start with a digit, so any template keeps them apart. */
  lemma {:induction false} NonNumericIsApart(s: string, values: seq<string>)
    requires Template(s, |values|)
    requires forall v | v in values :: v != "" && !IsDigit(v[0])
    ensures Apart(s, values)
    decreases |s|
  {
    if s != "" {
      if s[0] != '$' {
        NonNumericIsApart(s[1..], values);
      } else {
        var rest := After(s);
        if rest != "" && rest[0] == '$' {
          DecVal(Digits(rest));
          assert ValueAt(values, Digits(rest)) in values;
        }
        NonNumericIsApart(rest, values);
      }
    }
  }

  // ---- Exactly which templates are filled in whatever the parameters hold ----

  /** Number of placeholders other than `$1`. */
  ghost function Beyond(s: string): nat
    decreases |s|
  {
    if s == "" then 0
    else if s[0] != '$' then Beyond(s[1..])
    else (if Val(Digits(s)) > 1 then 1 else 0) + Beyond(After(s))
  }

  lemma {:induction false} FirstOnlyIsClear(s: string, values: seq<string>, k: nat)
    requires Template(s, |values|) && Beyond(s) == 0 && k > 0
    ensures Clear(s, values, k)
    decreases |s|
  {
    if s != "" {
      if s[0] != '$' {
        FirstOnlyIsClear(s[1..], values, k);
      } else {
        FirstOnlyIsClear(After(s), values, k);
      }
    }
  }

  /** With no placeholder but `$1` the last step is the only one that changes anything. */
  lemma FirstOnlyIsFill(s: string, values: seq<string>)
    requires Template(s, |values|) && Beyond(s) == 0
    ensures Sequential(s, values, |values|) == Fill(s, values, 0)
  {
    forall k | 0 < k <= |values|
      ensures Clear(s, values, k)
    {
      FirstOnlyIsClear(s, values, k);
    }
    ClearIsFill(s, values);
  }

  ghost function TextParams(texts: seq<string>): (params: seq<Param>)
    ensures |params| == |texts| && Renderable(params)
  {
    seq(|texts|, i requires 0 <= i < |texts| => TextValue(texts[i]))
  }

  /** Texts that name the first placeholder, whose own text is a semicolon. */
  function EchoTexts(n: nat): seq<string> {
    seq(n, i => if i == 0 then ";" else "$1")
  }

  /** `f` is what the first values of `EchoTexts` end up as: the semicolon comes out of the literals. */
  ghost predicate Echoes(f: seq<string>) {
    forall i | 0 <= i < |f| :: f[i] == if i == 0 then "';'" else "'';''"
  }

  lemma EchoValue(i: nat, n: nat)
    requires i < n
    ensures Values(TextParams(EchoTexts(n)))[i] == if i == 0 then "';'" else "'$1'"
  {
    DoubledStep(";", '\'');
    DoubledStep("$1", '\'');
    DoubledStep("1", '\'');
    assert ";"[1..] == "" && "$1"[1..] == "1" && "1"[1..] == "";
    assert "'" + ";" + "'" == "';'" && "'" + "$1" + "'" == "'$1'";
  }

  lemma EchoSubstituted(f: seq<string>)
    requires f != [] && f[0] == "';'"
    ensures Substitute("'$1'", f) == "'';''"
  {
    var s := "$" + "1" + "'";
    HoleDigits("1", "'");
    assert "1"[..0] == "" && Val("1") == 1;
    LongestAll("1", |f|);
    SubstituteHole(s, f);
    SubstitutePlain("'", f);
    assert "'$1'" == "'" + s;
    SubstituteAppend("'", s, f);
    hide Substitute, Longest;
    assert Substitute(s, f) == "';'" + "" + "'";
    assert "'" + ("';'" + "" + "'") == "'';''";
  }

  lemma {:induction false} EchoFinals(n: nat, i: nat)
    requires i <= n
    ensures Echoes(Finals(Values(TextParams(EchoTexts(n))), i))
  {
    if i > 0 {
      EchoFinals(n, i - 1);
      EchoValue(i - 1, n);
      var before := Finals(Values(TextParams(EchoTexts(n))), i - 1);
      if i == 1 {
        SubstitutePlain("';'", before);
      } else {
        EchoSubstituted(before);
      }
    }
  }

  /** What the template becomes with these texts. */
  lemma EchoRendered(s: string, n: nat) returns (finals: seq<string>)
    requires Template(s, n)
    ensures |finals| == n && Echoes(finals)
    ensures Rendered(s, TextParams(EchoTexts(n))) == Fill(s, finals, 0)
  {
    var params := TextParams(EchoTexts(n));
    finals := Finals(Values(params), n);
    EchoFinals(n, n);
    RenderedExactly(s, params);
    SubstituteTemplate(s, finals);
  }

  lemma {:induction false} EchoLength(s: string, values: seq<string>, finals: seq<string>)
    requires Template(s, |values|) && |finals| == |values| && Echoes(finals)
    requires forall i | 0 <= i < |values| :: values[i] == if i == 0 then "';'" else "'$1'"
    ensures |Fill(s, finals, 0)| == |Fill(s, values, 0)| + Beyond(s)
    decreases |s|
  {
    if s == "" {
    } else if s[0] != '$' {
      EchoLength(s[1..], values, finals);
    } else {
      DecVal(Digits(s));
      FillHole(s, values, 0);
      FillHole(s, finals, 0);
      EchoLength(After(s), values, finals);
    }
  }

  /** The text sent is the template with every placeholder filled in, all at once. */
  ghost predicate Simultaneous(s: string, params: seq<Param>)
    requires Renderable(params) && Template(s, |params|)
  {
    Rendered(s, params) == Fill(s, Values(params), 0)
  }

  lemma EchoIsNotSimultaneous(s: string, n: nat)
    requires Template(s, n) && Beyond(s) != 0
    ensures !Simultaneous(s, TextParams(EchoTexts(n)))
  {
    var values := Values(TextParams(EchoTexts(n)));
    var finals := EchoRendered(s, n);
    forall i | 0 <= i < n
      ensures values[i] == if i == 0 then "';'" else "'$1'"
    {
      EchoValue(i, n);
    }
    EchoLength(s, values, finals);
  }

  /** Rendering is the simultaneous substitution, whatever the texts, exactly if every placeholder is `$1`. */
  lemma SubstitutionExact(s: string, n: nat)
    requires Template(s, n)
    ensures Beyond(s) == 0 <==> forall texts: seq<string> | |texts| == n :: Simultaneous(s, TextParams(texts))
    ensures Beyond(s) == 0 ==> forall params | |params| == n && Renderable(params) :: Simultaneous(s, params)
  {
    if Beyond(s) == 0 {
      forall params | |params| == n && Renderable(params)
        ensures Simultaneous(s, params)
      {
        FirstOnlyIsFill(s, Values(params));
      }
    } else {
      EchoIsNotSimultaneous(s, n);
    }
  }

  // ---- Exactly which parameters fill in every template ----

  /** No `$` in `v` is followed by digits that begin with an index up to `n`. */
  ghost predicate Inert(v: string, n: nat)
    decreases |v|
  {
    v == "" || if v[0] != '$' then Inert(v[1..], n) else Longest(Digits(v), n) == 0 && Inert(After(v), n)
  }

  lemma {:induction false} InertStays(v: string, values: seq<string>)
    requires Inert(v, |values|)
    ensures Substitute(v, values) == v
    decreases |v|
  {
    if v == "" {
    } else if v[0] != '$' {
      InertStays(v[1..], values);
    } else {
      InertStays(After(v), values);
      assert Digits(v)[0..] == Digits(v);
    }
  }

  lemma {:induction false} TouchedChanges(v: string, values: seq<string>)
    requires !Inert(v, |values|) && forall x | x in values :: x != "" && x[0] != '$'
    ensures Substitute(v, values) != v
    decreases |v|
  {
    if v[0] != '$' {
      TouchedChanges(v[1..], values);
      var rest := Substitute(v[1..], values);
      assert ([v[0]] + rest)[1..] == rest;
    } else {
      var d, after := Digits(v), After(v);
      var m := Longest(d, |values|);
      SubstituteHole(v, values);
      if m > 0 {
        DecVal(d[..m]);
        assert ValueAt(values, d[..m]) in values;
      } else {
        TouchedChanges(after, values);
        assert d[0..] == d;
        SamePrefix("$" + d, Substitute(after, values), after);
      }
    }
  }

  lemma SamePrefix(a: string, x: string, y: string)
    requires x != y
    ensures a + x != a + y
  {
    assert (a + x)[|a|..] == x && (a + y)[|a|..] == y;
  }

  lemma {:induction false} FinalsStart(values: seq<string>, i: nat)
    requires i <= |values| && forall j | 0 <= j < i :: values[j] != "" && values[j][0] != '$'
    ensures forall x | x in Finals(values, i) :: x != "" && x[0] != '$'
  {
    if i > 0 {
      FinalsStart(values, i - 1);
    }
  }

  lemma {:induction false} FinalsAt(values: seq<string>, i: nat, n: nat)
    requires i < n <= |values|
    ensures Finals(values, n)[i] == Substitute(values[i], Finals(values, i))
  {
    if i < n - 1 {
      FinalsAt(values, i, n - 1);
    }
  }

  lemma {:induction false} FinalsInert(values: seq<string>, i: nat)
    requires i <= |values| && forall j | 0 <= j < i :: Inert(values[j], j)
    ensures Finals(values, i) == values[..i]
  {
    hide Inert, Substitute;
    if i > 0 {
      FinalsInert(values, i - 1);
      InertStays(values[i - 1], Finals(values, i - 1));
      assert values[..i] == values[..i - 1] + [values[i - 1]];
    }
  }

  lemma OnePlaceholder(k: nat, values: seq<string>)
    requires 0 < k <= |values|
    ensures Template(Placeholder(k), |values|) && Fill(Placeholder(k), values, 0) == values[k - 1]
  {
    var s := Placeholder(k);
    HoleDigits(Dec(k), "");
    ValDec(k);
    assert "$" + Dec(k) + "" == s;
    hide Dec, Val;
    assert Template("", |values|);
    assert values[k - 1] + "" == values[k - 1];
    FillHole(s, values, 0);
  }

  lemma TouchedFinal(values: seq<string>, i: nat)
    requires i < |values| && (forall j | 0 <= j < |values| :: values[j] != "" && values[j][0] != '$')
    requires !Inert(values[i], i)
    ensures Finals(values, |values|)[i] != values[i]
  {
    FinalsStart(values, i);
    FinalsAt(values, i, |values|);
    hide Finals, Substitute, Inert;
    TouchedChanges(values[i], Finals(values, i));
  }

  lemma NotSimultaneous(s: string, params: seq<Param>)
    requires Renderable(params) && Template(s, |params|) && Rendered(s, params) != Fill(s, Values(params), 0)
    ensures !Simultaneous(s, params)
  {
  }

  lemma TouchedDiffers(params: seq<Param>, i: nat)
    requires Renderable(params) && (forall p | p in params :: !(p.BinaryInt? && p.number >= 0))
    requires i < |params| && !Inert(Values(params)[i], i)
    ensures Template(Placeholder(i + 1), |params|) && !Simultaneous(Placeholder(i + 1), params)
  {
    var values, s := Values(params), Placeholder(i + 1);
    ValuesStart(params);
    hide *;
    var finals := Finals(values, |values|);
    RenderedExactly(s, params);
    TouchedFinal(values, i);
    OnePlaceholder(i + 1, values);
    OnePlaceholder(i + 1, finals);
    SubstituteTemplate(s, finals);
    NotSimultaneous(s, params);
  }

  lemma ValuesStart(params: seq<Param>)
    requires Renderable(params)
    ensures forall j | 0 <= j < |params| :: Values(params)[j] != "" && Values(params)[j][0] != '$'
  {
    forall j | 0 <= j < |params|
      ensures Values(params)[j] != "" && Values(params)[j][0] != '$'
    {
      RenderedStart(params[j]);
    }
  }

  lemma RenderedStart(p: Param)
    requires RenderParameter(p).Ok?
    ensures RenderParameter(p).value != "" && RenderParameter(p).value[0] != '$'
  {
    hide ReplaceAll, Dec;
  }

  /**
   Given parameters other than non-negative numbers fill in every template at once exactly if no `$` in a value is
   followed by digits that begin with an index smaller than the value's own.
   */
  lemma ParametersExact(params: seq<Param>)
    requires Renderable(params) && forall p | p in params :: !(p.BinaryInt? && p.number >= 0)
    ensures (forall i | 0 <= i < |params| :: Inert(Values(params)[i], i))
       <==> forall s | Template(s, |params|) :: Simultaneous(s, params)
  {
    var values, n := Values(params), |params|;
    if forall i | 0 <= i < n :: Inert(values[i], i) {
      FinalsInert(values, n);
      assert values[..n] == values;
      forall s | Template(s, n)
        ensures Simultaneous(s, params)
      {
        RenderedExactly(s, params);
        SubstituteTemplate(s, values);
      }
    } else {
      var i :| 0 <= i < n && !Inert(values[i], i);
      TouchedDiffers(params, i);
    }
  }

  /** A text holding a `$` is replaced again by a later step. */
  lemma DollarInValueIsReplacedAgain()
    ensures Template("$2", 2)
    ensures var params := TextParams([";", "$1"]);
            Rendered("$2", params) == "'';''" != "'$1'" == Fill("$2", Values(params), 0)
  {
    assert [";", "$1"] == EchoTexts(2);
    OneHole('2', "");
    assert "$" + ['2'] + "" == "$2";
    var finals := EchoRendered("$2", 2);
    EchoValue(1, 2);
    assert finals[1] + "" == "'';''" && "'$1'" + "" == "'$1'";
  }

  lemma OneHole(digit: char, rest: string)
    requires '1' <= digit <= '9' && (rest != "" ==> !IsDigit(rest[0]))
    ensures var s := "$" + [digit] + rest;
            Digits(s) == [digit] && After(s) == rest && Val([digit]) == digit as int - '0' as int
  {
    HoleDigits([digit], rest);
    assert [digit][..0] == "" && Val("") == 0;
  }

  // ---- Exactly which templates keep numbers apart ----

  /** No placeholder is directly followed by one of more than ten times its index. */
  ghost predicate Spread(s: string)
    decreases |s|
  {
    s == "" ||
    if s[0] != '$' then Spread(s[1..]) else
    var rest := After(s);
    && (rest != "" && rest[0] == '$' ==> Val(Digits(rest)) <= 10 * Val(Digits(s)))
    && Spread(rest)
  }

  lemma {:induction false} SpreadIsApart(s: string, values: seq<string>)
    requires Template(s, |values|) && Spread(s) && forall v | v in values :: v != ""
    ensures Apart(s, values)
    decreases |s|
  {
    if s != "" {
      if s[0] != '$' {
        SpreadIsApart(s[1..], values);
      } else {
        var rest := After(s);
        if rest != "" && rest[0] == '$' {
          DecVal(Digits(rest));
          assert ValueAt(values, Digits(rest)) in values;
        }
        SpreadIsApart(rest, values);
      }
    }
  }

  /** `$b` directly follows the placeholder at the front of `s`, of less than a tenth of its index. */
  ghost predicate Follows(s: string, b: nat)
    requires s != ""
  {
    var rest := After(s);
    rest != "" && rest[0] == '$' && Val(Digits(rest)) == b > 10 * Val(Digits(s))
  }

  ghost predicate Overtaken(s: string, b: nat)
    decreases |s|
  {
    s != "" && if s[0] != '$' then Overtaken(s[1..], b) else Follows(s, b) || Overtaken(After(s), b)
  }

  lemma {:induction false} WhoOvertakes(s: string, n: nat) returns (b: nat)
    requires Template(s, n) && !Spread(s)
    ensures 0 < b <= n && Overtaken(s, b)
    decreases |s|
  {
    if s[0] != '$' {
      b := WhoOvertakes(s[1..], n);
    } else {
      var rest := After(s);
      if rest != "" && rest[0] == '$' && Val(Digits(rest)) > 10 * Val(Digits(s)) {
        b := Val(Digits(rest));
      } else {
        b := WhoOvertakes(rest, n);
      }
    }
  }

  /** Zero for the overtaking placeholder, empty literals for the others. */
  ghost predicate ZeroAt(values: seq<string>, b: nat) {
    0 < b <= |values| && forall i | 0 <= i < |values| :: values[i] == if i == b - 1 then "0" else "''"
  }

  lemma {:induction false} ZeroIsClear(s: string, values: seq<string>, b: nat, k: nat)
    requires Template(s, |values|) && ZeroAt(values, b) && b <= k
    ensures Clear(s, values, k)
    decreases |s|
  {
    if s != "" {
      if s[0] != '$' {
        ZeroIsClear(s[1..], values, b, k);
      } else {
        DecVal(Digits(s));
        var rest := After(s);
        if rest != "" && rest[0] == '$' {
          DecVal(Digits(rest));
        }
        ZeroIsClear(rest, values, b, k);
      }
    }
  }

  lemma {:induction false} FinalsPlain(values: seq<string>, i: nat)
    requires i <= |values| && forall j | 0 <= j < i :: '$' !in values[j]
    ensures Finals(values, i) == values[..i]
  {
    if i > 0 {
      FinalsPlain(values, i - 1);
      SubstitutePlain(values[i - 1], Finals(values, i - 1));
    }
  }

  lemma {:induction false} LongestAtLeast(d: string, n: nat, m: nat)
    requires AllDigits(d) && 0 < m <= |d| && d[0] != '0' && Val(d[..m]) <= n
    ensures Longest(d, n) >= m
  {
    if m < |d| {
      assert d[..|d| - 1][..m] == d[..m];
      LongestAtLeast(d[..|d| - 1], n, m);
    } else {
      assert d[..m] == d;
    }
  }

  /** A placeholder takes at least the first `m` of the digits behind its `$`. */
  lemma RunLength(run: string, after: string, values: seq<string>, m: nat)
    requires AllDigits(run) && 0 < m <= |run| && run[0] != '0' && Val(run[..m]) <= |values|
    requires (after == "" || !IsDigit(after[0])) && forall v | v in values :: |v| == 2
    ensures |Substitute("$" + run + after, values)| <= 2 + |run| - m + |Substitute(after, values)|
  {
    HoleDigits(run, after);
    SubstituteHole("$" + run + after, values);
    LongestAtLeast(run, |values|, m);
    var taken := Longest(run, |values|);
    DecVal(run[..taken]);
    assert ValueAt(values, run[..taken]) in values;
  }

  lemma LeadingRun(rest: string, values: seq<string>) returns (z: string, after: string)
    ensures rest == z + after && AllDigits(z) && (after == "" || !IsDigit(after[0]))
    ensures rest != "" && IsDigit(rest[0]) ==> z != "" && z[0] == rest[0]
    ensures |Substitute(rest, values)| == |z| + |Substitute(after, values)|
  {
    var n := DigitRun(rest);
    z, after := rest[..n], rest[n..];
    SubstituteAppend(z, after, values);
    SubstitutePlain(z, values);
  }

  /** A placeholder takes the digits behind it along if they still make an index. */
  lemma HoleSwallows(d: string, rest: string, values: seq<string>)
    requires AllDigits(d) && d != "" && d[0] != '0' && Val(d) <= |values|
    requires forall v | v in values :: |v| == 2
    ensures var whole := |Substitute("$" + d + rest, values)|;
            && whole <= 2 + |Substitute(rest, values)|
            && (rest != "" && rest[0] == '0' && 10 * Val(d) <= |values| ==> whole < 2 + |Substitute(rest, values)|)
  {
    hide Substitute, Longest;
    var z, after := LeadingRun(rest, values);
    var run := d + z;
    assert "$" + d + rest == "$" + run + after && run[..|d|] == d;
    RunLength(run, after, values, |d|);
    if rest != "" && rest[0] == '0' && 10 * Val(d) <= |values| {
      var x := run[..|d| + 1];
      assert x[..|x| - 1] == d && x[|d|] == '0';
      RunLength(run, after, values, |d| + 1);
    }
  }

  lemma ZeroFirst(rest: string, values: seq<string>, b: nat)
    requires Template(rest, |values|) && ZeroAt(values, b) && rest != "" && rest[0] == '$' && Val(Digits(rest)) == b
    ensures Fill(rest, values, b - 1) != "" && Fill(rest, values, b - 1)[0] == '0'
  {
    FillHole(rest, values, b - 1);
  }

  lemma ShortensHole(s: string, values: seq<string>, b: nat)
    requires Template(s, |values|) && ZeroAt(values, b) && s != "" && s[0] == '$'
    ensures var behind := |Substitute(Fill(After(s), values, b - 1), values[..b - 1])|;
            var whole := |Substitute(Fill(s, values, b - 1), values[..b - 1])|;
            var value := |ValueAt(values, Digits(s))|;
            whole <= value + behind && (Follows(s, b) ==> whole < value + behind)
  {
    var d, rest := Digits(s), After(s);
    var f, v := Fill(rest, values, b - 1), ValueAt(values, d);
    DecVal(d);
    FillHole(s, values, b - 1);
    assert forall x | x in values[..b - 1] :: |x| == 2;
    if Follows(s, b) {
      ZeroFirst(rest, values, b);
    }
    hide Substitute, Fill, Template, Digits, After;
    if Val(d) > b - 1 {
      SubstituteAppend(v, f, values[..b - 1]);
      SubstitutePlain(v, values[..b - 1]);
    } else {
      HoleSwallows(d, f, values[..b - 1]);
    }
  }

  lemma {:induction false} ZeroShortens(s: string, values: seq<string>, b: nat)
    requires Template(s, |values|) && ZeroAt(values, b)
    ensures var short, full := |Substitute(Fill(s, values, b - 1), values[..b - 1])|, |Fill(s, values, 0)|;
            short <= full && (Overtaken(s, b) ==> short < full)
    decreases |s|
  {
    if s == "" {
    } else if s[0] != '$' {
      ZeroShortens(s[1..], values, b);
      var f := Fill(s[1..], values, b - 1);
      assert ([s[0]] + f)[1..] == f;
    } else {
      DecVal(Digits(s));
      ZeroShortens(After(s), values, b);
      FillHole(s, values, 0);
      ShortensHole(s, values, b);
      assert Overtaken(s, b) <==> Follows(s, b) || Overtaken(After(s), b);
      hide *;
    }
  }

  function ZeroParams(n: nat, b: nat): (params: seq<Param>)
    ensures |params| == n && Renderable(params)
  {
    seq(n, i => if i == b - 1 then BinaryInt(0) else TextValue(""))
  }

  lemma ZeroValues(n: nat, b: nat)
    requires 0 < b <= n
    ensures ZeroAt(Values(ZeroParams(n, b)), b) && NoDollar(Values(ZeroParams(n, b)))
  {
    assert Doubled("", '\'') == "" && Dec(0) == "0";
    assert "'" + "" + "'" == "''";
  }

  lemma ZeroStages(s: string, values: seq<string>, b: nat)
    requires Template(s, |values|) && ZeroAt(values, b)
    ensures Sequential(s, values, |values|) == Sequential(Fill(s, values, b - 1), values, b - 1)
  {
    forall k | b - 1 < k <= |values|
      ensures Clear(s, values, k)
    {
      ZeroIsClear(s, values, b, k);
    }
    hide Template, Clear, Fill, Sequential;
    FillNone(s, values);
    StagesTo(s, values, b - 1, |values|);
  }

  /** Replacing the numbers first, then passing over what they completed. */
  lemma ZeroRendered(s: string, values: seq<string>, b: nat)
    requires Template(s, |values|) && ZeroAt(values, b)
    ensures Sequential(s, values, |values|) == Substitute(Fill(s, values, b - 1), values[..b - 1])
  {
    ZeroStages(s, values, b);
    hide Template, Clear, Fill, Substitute, Sequential;
    SequentialIsSubstitute(Fill(s, values, b - 1), values, b - 1);
    FinalsPlain(values, b - 1);
  }

  lemma ZeroDiffers(s: string, n: nat, b: nat)
    requires Template(s, n) && 0 < b <= n && Overtaken(s, b)
    ensures var params := ZeroParams(n, b);
            NoDollar(Values(params)) && !Simultaneous(s, params)
  {
    var values := Values(ZeroParams(n, b));
    ZeroValues(n, b);
    hide ZeroAt, Template, Fill, Substitute, Sequential, NoDollar, Values, ZeroParams;
    ZeroRendered(s, values, b);
    ZeroShortens(s, values, b);
  }

  lemma RenderedNotEmpty(params: seq<Param>)
    requires Renderable(params)
    ensures forall v | v in Values(params) :: v != ""
  {
  }

  /**
   Rendering is the simultaneous substitution for all parameters without a `$`, numbers included, exactly if no
   placeholder is directly followed by one of more than ten times its index.
   */
  lemma AdjacencyExact(s: string, n: nat)
    requires Template(s, n)
    ensures Spread(s) <==>
              forall params | |params| == n && Renderable(params) && NoDollar(Values(params)) ::
                Simultaneous(s, params)
  {
    if Spread(s) {
      forall params | |params| == n && Renderable(params) && NoDollar(Values(params))
        ensures Simultaneous(s, params)
      {
        RenderedNotEmpty(params);
        SpreadIsApart(s, Values(params));
        RenderIsSubstitution(s, Values(params));
      }
    } else {
      var b := WhoOvertakes(s, n);
      ZeroDiffers(s, n, b);
    }
  }

  lemma {:induction false} SequentialPlain(s: string, values: seq<string>, i: nat)
    requires i <= |values| && '$' !in s
    ensures Sequential(s, values, i) == s
    decreases i
  {
    if i > 0 {
      CopyThrough(s, "", Placeholder(i), values[i - 1]);
      assert s + "" == s;
      SequentialPlain(s, values, i - 1);
    }
  }

  /** Two placeholders in a row, the second a number: its digits complete the first one's index. */
  lemma AdjacentPlaceholdersMerge(params: seq<Param>)
    requires |params| == 11 && Renderable(params)
    requires params[10] == BinaryInt(0) && '$' !in RenderParameter(params[9]).value
    ensures Template("$1$11", 11) && !Spread("$1$11")
    ensures Rendered("$1$11", params) == Values(params)[9]
    ensures Fill("$1$11", Values(params), 0) == Values(params)[0] + "0"
  {
    var values := Values(params);
    assert values[10] == "0" by {
      assert Dec(0) == "0";
    }
    assert '$' !in values[9];
    hide Values, RenderParameter;
    ElevenParses();
    ElevenFilled(values);
    assert Placeholder(11) == "$11" && Placeholder(10) == "$10" by {
      assert Dec(1) == "1" && Dec(11) == "11" && Dec(10) == "10";
    }
    hide Dec, Fill, Template, Spread, Val, Digits, After;
    ElevenReplaced();
    assert "$10" + "" == "$10" && values[9] + "" == values[9];
    ReplaceFront("$10", "", values[9]);
    SequentialPlain(values[9], values, 9);
    hide ReplaceAll;
    assert Sequential("$10", values, 10) == values[9];
  }

  lemma ElevenReplaced()
    ensures ReplaceAll("$1$11", "$11", "0") == "$10"
  {
    assert "$1$11" == "$" + "1" + "$11" && "$11" + "" == "$11";
    assert !("$11" <= "$1$11") by {
      assert "$1$11"[2] == '$' && "$11"[2] == '1';
    }
    CopyHole("1", "$11", "$11", "0");
    ReplaceFront("$11", "", "0");
    assert "0" + "" == "0" && "$" + "1" + "0" == "$10";
  }

  lemma ElevenParses()
    ensures var s := "$1$11";
            && Digits(s) == "1" && After(s) == "$11" && Val("1") == 1
            && Digits("$11") == "11" && After("$11") == "" && Val("11") == 11
  {
    OneHole('1', "$11");
    HoleDigits("11", "");
    assert "$" + ['1'] + "$11" == "$1$11" && "$" + "11" + "" == "$11";
    assert "11"[..1] == "1" && "1"[..0] == "";
  }

  lemma ElevenFilled(values: seq<string>)
    requires |values| == 11 && values[10] == "0"
    ensures Template("$1$11", 11) && !Spread("$1$11")
    ensures Fill("$1$11", values, 0) == values[0] + "0"
  {
    ElevenParses();
    hide Val, DigitRun, Digits, After;
    assert Template("", 11) && Template("$11", 11);
    assert Fill("$11", values, 0) == "0" + "";
  }
}
