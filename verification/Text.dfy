/** Text as the gateway handles it: a `str` is a sequence of Unicode scalar values. */
module Text {

  /** The Unicode White_Space property, which trimming and token splitting use. */
  predicate IsSpace(c: char) {
    var n := c as int;
    || 0x09 <= n <= 0x0D || n == 0x20 || n == 0x85 || n == 0xA0 || n == 0x1680
    || 0x2000 <= n <= 0x200A || n == 0x2028 || n == 0x2029 || n == 0x202F || n == 0x205F || n == 0x3000
  }

  predicate Blank(s: string) {
    forall i | 0 <= i < |s| :: IsSpace(s[i])
  }

  /** Starts and ends with a character that is not white space (or is empty). */
  predicate Trimmed(s: string) {
    s == "" || (!IsSpace(s[0]) && !IsSpace(s[|s| - 1]))
  }

  function TrimStart(s: string): (r: string)
    ensures |r| <= |s|
  {
    if s != "" && IsSpace(s[0]) then TrimStart(s[1..]) else s
  }

  function TrimEnd(s: string): (r: string)
    ensures |r| <= |s|
  {
    if s != "" && IsSpace(s[|s| - 1]) then TrimEnd(s[..|s| - 1]) else s
  }

  function Trim(s: string): (r: string)
    ensures |r| <= |s|
  {
    TrimEnd(TrimStart(s))
  }

  /** Length of the white space that `Trim` drops at the front of `s`. */
  ghost function Lead(s: string): (n: nat)
    ensures n <= |s|
    ensures Blank(s[..n])
    ensures TrimStart(s) == s[n..]
    ensures n < |s| ==> !IsSpace(s[n])
  {
    if s != "" && IsSpace(s[0]) then
      var n := Lead(s[1..]);
      assert s[1..][n..] == s[n + 1..];
      assert forall i | 0 < i < n + 1 :: s[i] == s[1..][..n][i - 1];
      n + 1
    else
      assert s[0..] == s;
      0
  }

  lemma {:induction false} TrimEndKeeps(s: string)
    ensures TrimEnd(s) <= s
    ensures Blank(s[|TrimEnd(s)|..])
    ensures TrimEnd(s) != "" ==> !IsSpace(TrimEnd(s)[|TrimEnd(s)| - 1])
  {
    if s != "" && IsSpace(s[|s| - 1]) {
      var t := s[..|s| - 1];
      TrimEndKeeps(t);
      var n := |TrimEnd(t)|;
      forall i | n <= i < |s|
        ensures IsSpace(s[i])
      {
        if i < |t| {
          assert s[i] == t[n..][i - n];
        }
      }
    }
  }

  /** What `trim` keeps is a trimmed window of `s`, and it drops only white space. */
  lemma TrimSpan(s: string) returns (lo: nat, hi: nat)
    ensures lo <= hi <= |s|
    ensures Trim(s) == s[lo..hi] && Trimmed(Trim(s))
    ensures Blank(s[..lo]) && Blank(s[hi..])
  {
    lo := Lead(s);
    var t := s[lo..];
    TrimEndKeeps(t);
    hi := lo + |TrimEnd(t)|;
    assert s[hi..] == t[|TrimEnd(t)|..];
  }

  lemma SliceOfSlice(s: string, from: nat, to: nat, l: nat, h: nat)
    requires from <= to <= |s| && l <= h <= to - from
    ensures s[from..to][l..h] == s[from + l..from + h]
  {
    var a, b := s[from..to][l..h], s[from + l..from + h];
    forall i | 0 <= i < h - l
      ensures a[i] == b[i]
    {
      assert a[i] == s[from..to][l + i] == s[from + (l + i)];
    }
  }

  /** `TrimSpan` for a window of a longer text, in the positions of that text. */
  lemma TrimWindow(s: string, from: nat, to: nat) returns (lo: nat, hi: nat)
    requires from <= to <= |s|
    ensures from <= lo <= hi <= to
    ensures Trim(s[from..to]) == s[lo..hi] && Trimmed(s[lo..hi])
    ensures forall p | from <= p < lo || hi <= p < to :: IsSpace(s[p])
  {
    hide Trim;
    var seg := s[from..to];
    var l, h := TrimSpan(seg);
    lo, hi := from + l, from + h;
    SliceOfSlice(s, from, to, l, h);
    forall p | from <= p < lo || hi <= p < to
      ensures IsSpace(s[p])
    {
      if p < lo {
        assert s[p] == seg[..l][p - from];
      } else {
        assert s[p] == seg[h..][p - hi];
      }
    }
  }

  lemma {:induction false} TrimStartPadded(pad: string, s: string)
    requires Blank(pad) && (s == "" || !IsSpace(s[0]))
    ensures TrimStart(pad + s) == s
  {
    if pad == "" {
      assert pad + s == s;
    } else {
      assert (pad + s)[1..] == pad[1..] + s;
      TrimStartPadded(pad[1..], s);
    }
  }

  lemma {:induction false} TrimEndPadded(s: string, pad: string)
    requires Blank(pad) && (s == "" || !IsSpace(s[|s| - 1]))
    ensures TrimEnd(s + pad) == s
  {
    if pad == "" {
      assert s + pad == s;
    } else {
      assert (s + pad)[..|s + pad| - 1] == s + pad[..|pad| - 1];
      TrimEndPadded(s, pad[..|pad| - 1]);
    }
  }

  lemma TrimPadded(pre: string, s: string, post: string)
    requires Blank(pre) && Blank(post) && Trimmed(s)
    ensures Trim(pre + s + post) == s
  {
    assert pre + s + post == pre + (s + post);
    if s == "" {
      var all := pre + post;
      assert pre + s + post == all + "";
      TrimStartPadded(all, "");
    } else {
      TrimStartPadded(pre, s + post);
      TrimEndPadded(s, post);
    }
  }

  /** `s` starts with `a` and `b`. */
  predicate Pair(s: string, a: char, b: char) {
    |s| > 1 && s[0] == a && s[1] == b
  }

  /** `str::replace`: every leftmost non-overlapping occurrence of `pat` becomes `rep`. */
  function ReplaceAll(s: string, pat: string, rep: string): string
    requires pat != ""
  {
    if s == "" then ""
    else if pat <= s then rep + ReplaceAll(s[|pat|..], pat, rep)
    else [s[0]] + ReplaceAll(s[1..], pat, rep)
  }

  /** The quoting both SQL literals and delimited identifiers use: every `c` written twice. */
  function Doubled(s: string, c: char): string {
    ReplaceAll(s, [c], [c, c])
  }

  lemma DoubledStep(s: string, c: char)
    requires s != ""
    ensures Doubled(s, c) == (if s[0] == c then [c, c] else [s[0]]) + Doubled(s[1..], c)
  {
    assert [c] <= s <==> s[0] == c;
  }

  /** Collapsing doubled quotes undoes doubling them, whatever the text. */
  lemma {:induction false} UndoubleDoubled(s: string, c: char)
    ensures ReplaceAll(Doubled(s, c), [c, c], [c]) == s
  {
    if s == "" {
    } else {
      DoubledStep(s, c);
      UndoubleDoubled(s[1..], c);
      var d, rest := Doubled(s, c), Doubled(s[1..], c);
      if s[0] == c {
        assert d[2..] == rest && [c, c] <= d;
      } else {
        assert d[0] != c && d[1..] == rest;
        assert !([c, c] <= d) by { assert [c, c][0] == c; }
      }
      assert s == [s[0]] + s[1..];
    }
  }

  /** How the gateway, and PostgreSQL, print a delimited identifier. */
  function QuoteIdentifier(name: string): string {
    "\"" + Doubled(name, '"') + "\""
  }

  /** How the gateway prints a string literal. */
  function SqlStringLiteral(value: string): string {
    "'" + Doubled(value, '\'') + "'"
  }

  function ToAsciiLower(c: char): char {
    if 'A' <= c <= 'Z' then (c as int + 32) as char else c
  }

  predicate EqIgnoreAsciiCase(a: string, b: string) {
    |a| == |b| && forall i | 0 <= i < |a| :: ToAsciiLower(a[i]) == ToAsciiLower(b[i])
  }

  /** The same letter in either case, or the same character. */
  predicate SameLetter(a: char, b: char) {
    || a == b
    || ('A' <= a <= 'Z' && b as int - a as int == 'a' as int - 'A' as int)
    || ('A' <= b <= 'Z' && a as int - b as int == 'a' as int - 'A' as int)
  }

  /** Texts compare equal exactly if they differ in the case of their ASCII letters at most. */
  lemma AsciiCaseExact(a: string, b: string)
    ensures EqIgnoreAsciiCase(a, b) <==> |a| == |b| && forall i | 0 <= i < |a| :: SameLetter(a[i], b[i])
  {
    forall i | 0 <= i < |a| && i < |b|
      ensures ToAsciiLower(a[i]) == ToAsciiLower(b[i]) <==> SameLetter(a[i], b[i])
    {
    }
  }

  predicate IsDigit(c: char) {
    '0' <= c <= '9'
  }

  predicate AllDigits(s: string) {
    forall i | 0 <= i < |s| :: IsDigit(s[i])
  }

  /** The number a run of digits denotes. */
  function Val(d: string): nat
    requires AllDigits(d)
  {
    if d == "" then 0 else Val(d[..|d| - 1]) * 10 + (d[|d| - 1] as int - '0' as int)
  }

  /** Decimal rendering of an index, as `format!` writes it. */
  function Dec(n: nat): (d: string)
    ensures d != "" && AllDigits(d)
    ensures n > 0 ==> d[0] != '0'
  {
    var last := [('0' as int + n % 10) as char];
    if n < 10 then last else Dec(n / 10) + last
  }

  lemma {:induction false} ValDec(n: nat)
    ensures Val(Dec(n)) == n
  {
    var d := Dec(n);
    if n >= 10 {
      ValDec(n / 10);
      assert d[..|d| - 1] == Dec(n / 10);
    } else {
      assert d[..0] == "";
    }
  }

  /** A digit run without a leading zero is the canonical rendering of its value. */
  lemma {:induction false} DecVal(d: string)
    requires AllDigits(d) && d != "" && d[0] != '0'
    ensures Val(d) >= 1 && Dec(Val(d)) == d
  {
    var init, last := d[..|d| - 1], d[|d| - 1] as int - '0' as int;
    assert d == init + [d[|d| - 1]];
    if init == "" {
      assert Val(init) == 0;
    } else {
      DecVal(init);
      assert Val(d) / 10 == Val(init) && Val(d) % 10 == last;
    }
  }

  /** A canonical index that is a proper prefix of another index is the smaller one. */
  lemma {:induction false} PrefixIsSmaller(a: string, b: string)
    requires AllDigits(a) && AllDigits(b) && a != "" && a[0] != '0'
    requires a <= b && |a| < |b|
    ensures Val(a) < Val(b)
  {
    DecVal(a);
    var init := b[..|b| - 1];
    if |a| == |init| {
      assert a == init;
    } else {
      PrefixIsSmaller(a, init);
    }
  }

  function IntText(n: int): string {
    if n < 0 then "-" + Dec(-n) else Dec(n)
  }

  function TrimEndChar(s: string, c: char): (r: string)
    ensures |r| <= |s|
  {
    if s != "" && s[|s| - 1] == c then TrimEndChar(s[..|s| - 1], c) else s
  }

  lemma {:induction false} TrimEndCharStops(s: string, c: char)
    ensures TrimEndChar(s, c) <= s
    ensures TrimEndChar(s, c) == "" || TrimEndChar(s, c)[|TrimEndChar(s, c)| - 1] != c
    ensures s != "" && s[0] != c ==> TrimEndChar(s, c) != ""
  {
    if s != "" && s[|s| - 1] == c {
      TrimEndCharStops(s[..|s| - 1], c);
    }
  }

  /** The parts with `sep` between them. */
  function Join(parts: seq<string>, sep: string): string {
    if parts == [] then "" else if |parts| == 1 then parts[0] else parts[0] + sep + Join(parts[1..], sep)
  }

  /** A piece that is pushed only when it is not empty. */
  function Keep(t: string): seq<string> {
    if t == "" then [] else [t]
  }
}
