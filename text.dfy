/**
 * String helpers shared by the client (TypeScript) and the backend (Python):
 * whitespace trimming as each language defines it, joining fields with a
 * separator, decimal formatting of integers and Python's int() parsing.
 */
module Text {
  import opened Wrappers

  /** The characters JavaScript's String.prototype.trim removes. */
  const JsWhitespace: set<char> :=
    {'\t', '\n', '\U{0B}', '\U{0C}', '\r', ' ', '\U{A0}', '\U{1680}',
     '\U{2000}', '\U{2001}', '\U{2002}', '\U{2003}', '\U{2004}', '\U{2005}',
     '\U{2006}', '\U{2007}', '\U{2008}', '\U{2009}', '\U{200A}',
     '\U{2028}', '\U{2029}', '\U{202F}', '\U{205F}', '\U{3000}', '\U{FEFF}'}

  /** The characters Python's str.strip() removes (those for which str.isspace() holds). */
  const PyWhitespace: set<char> :=
    {'\t', '\n', '\U{0B}', '\U{0C}', '\r', '\U{1C}', '\U{1D}', '\U{1E}', '\U{1F}',
     ' ', '\U{85}', '\U{A0}', '\U{1680}',
     '\U{2000}', '\U{2001}', '\U{2002}', '\U{2003}', '\U{2004}', '\U{2005}',
     '\U{2006}', '\U{2007}', '\U{2008}', '\U{2009}', '\U{200A}',
     '\U{2028}', '\U{2029}', '\U{202F}', '\U{205F}', '\U{3000}'}

  // ---------------------------------------------------------------------
  // Trimming
  // ---------------------------------------------------------------------

  /** `s` without its leading characters from `ws`. */
  function StripLeft(s: string, ws: set<char>): string
  {
    if s != [] && s[0] in ws then StripLeft(s[1..], ws) else s
  }

  /** `s` without its trailing characters from `ws`. */
  function StripRight(s: string, ws: set<char>): string
  {
    if s != [] && s[|s| - 1] in ws then StripRight(s[..|s| - 1], ws) else s
  }

  /** Stripping on the left leaves a suffix that starts with a character outside `ws`,
      and removes only characters of `ws`. */
  lemma {:induction false} StripLeftSuffix(s: string, ws: set<char>)
    ensures var r := StripLeft(s, ws);
      |r| <= |s| && r == s[|s| - |r|..] && (r != [] ==> r[0] !in ws)
      && forall i :: 0 <= i < |s| - |r| ==> s[i] in ws
  {
    if s != [] && s[0] in ws {
      StripLeftSuffix(s[1..], ws);
      var r := StripLeft(s, ws);
      forall i | 0 <= i < |s| - |r| ensures s[i] in ws {
        if i > 0 { assert s[i] == s[1..][i - 1]; }
      }
    }
  }

  /** Stripping on the right leaves a prefix that ends with a character outside `ws`,
      and removes only characters of `ws`. */
  lemma {:induction false} StripRightPrefix(s: string, ws: set<char>)
    ensures var r := StripRight(s, ws);
      |r| <= |s| && r == s[..|r|] && (r != [] ==> r[|r| - 1] !in ws)
      && forall i :: |r| <= i < |s| ==> s[i] in ws
  {
    if s != [] && s[|s| - 1] in ws {
      StripRightPrefix(s[..|s| - 1], ws);
    }
  }

  /** `s` with whitespace (as `ws` defines it) removed from both ends. */
  function StripBy(s: string, ws: set<char>): string
  {
    StripRight(StripLeft(s, ws), ws)
  }

  /** The stripped string is no longer, has no whitespace at either end, and is empty
      exactly when `s` is all whitespace. */
  lemma StripByTrims(s: string, ws: set<char>)
    ensures var r := StripBy(s, ws);
      |r| <= |s| && (r != [] ==> r[0] !in ws && r[|r| - 1] !in ws)
      && (r == [] <==> forall i :: 0 <= i < |s| ==> s[i] in ws)
  {
    var l := StripLeft(s, ws);
    StripLeftSuffix(s, ws);
    StripRightPrefix(l, ws);
    var r := StripRight(l, ws);
    if r != [] {
      assert r[0] == l[0];
    }
  }

  /** JavaScript's `s.trim()`. */
  function Trim(s: string): string { StripBy(s, JsWhitespace) }

  /** Python's `s.strip()`. */
  function Strip(s: string): string { StripBy(s, PyWhitespace) }

  /** A string that neither starts nor ends with whitespace is left as it is. */
  lemma StripByKeepsTrimmed(s: string, ws: set<char>)
    requires s != [] ==> s[0] !in ws && s[|s| - 1] !in ws
    ensures StripBy(s, ws) == s
  {
  }

  /** Trimming twice is trimming once. */
  lemma StripByIdempotent(s: string, ws: set<char>)
    ensures StripBy(StripBy(s, ws), ws) == StripBy(s, ws)
  {
    StripByTrims(s, ws);
    StripByKeepsTrimmed(StripBy(s, ws), ws);
  }

  // ---------------------------------------------------------------------
  // Joining fields
  // ---------------------------------------------------------------------

  /** The fields of `parts` separated by `sep`, as JavaScript's `parts.join(sep)`
      and a Python f-string with `sep` between the fields build it. */
  function Join(parts: seq<string>, sep: char): string
  {
    if |parts| == 0 then ""
    else if |parts| == 1 then parts[0]
    else Join(parts[..|parts| - 1], sep) + [sep] + parts[|parts| - 1]
  }

  /** The text after the last `sep` in `s` (all of `s` when there is none). */
  function LastField(s: string, sep: char): (r: string)
    ensures sep !in r
    ensures |r| <= |s| && r == s[|s| - |r|..]
  {
    if s == [] then []
    else if s[|s| - 1] == sep then []
    else LastField(s[..|s| - 1], sep) + [s[|s| - 1]]
  }

  lemma {:induction false} LastFieldAfterSeparator(x: string, y: string, sep: char)
    requires sep !in y
    ensures LastField(x + [sep] + y, sep) == y
  {
    if y == [] {
    } else {
      var y' := y[..|y| - 1];
      assert (x + [sep] + y)[..|x + [sep] + y| - 1] == x + [sep] + y';
      LastFieldAfterSeparator(x, y', sep);
      assert y == y' + [y[|y| - 1]];
    }
  }

  /** When the last field holds no separator, it is what follows the last separator. */
  lemma JoinLastField(parts: seq<string>, sep: char)
    requires |parts| >= 2 && sep !in parts[|parts| - 1]
    ensures LastField(Join(parts, sep), sep) == parts[|parts| - 1]
  {
    LastFieldAfterSeparator(Join(parts[..|parts| - 1], sep), parts[|parts| - 1], sep);
  }

  /** Joins of separator-free fields are equal only when the fields are. */
  lemma {:induction false} JoinInjective(ps: seq<string>, qs: seq<string>, sep: char)
    requires |ps| == |qs|
    requires forall i :: 0 <= i < |ps| ==> sep !in ps[i] && sep !in qs[i]
    requires Join(ps, sep) == Join(qs, sep)
    ensures ps == qs
  {
    var n := |ps|;
    if n >= 2 {
      JoinLastField(ps, sep);
      JoinLastField(qs, sep);
      var last := ps[n - 1];
      assert last == qs[n - 1];
      var a, b := Join(ps[..n - 1], sep), Join(qs[..n - 1], sep);
      assert a == (a + [sep] + last)[..|a|];
      assert b == (b + [sep] + last)[..|b|];
      assert |a| == |b|;
      JoinInjective(ps[..n - 1], qs[..n - 1], sep);
      assert ps == ps[..n - 1] + [last];
      assert qs == qs[..n - 1] + [last];
    }
  }

  /** Joining a leading field onto a join of at least one field puts one separator between them. */
  lemma {:induction false} JoinCons(head: string, tail: seq<string>, sep: char)
    requires |tail| >= 1
    ensures Join([head] + tail, sep) == head + [sep] + Join(tail, sep)
  {
    if |tail| == 1 {
    } else {
      var init := tail[..|tail| - 1];
      assert ([head] + tail)[..|[head] + tail| - 1] == [head] + init;
      JoinCons(head, init, sep);
    }
  }

  // ---------------------------------------------------------------------
  // Decimal integers
  // ---------------------------------------------------------------------

  predicate IsDigit(c: char) { '0' <= c <= '9' }

  predicate AllDigits(s: string) { forall i :: 0 <= i < |s| ==> IsDigit(s[i]) }

  function DigitChar(d: nat): (c: char)
    requires d < 10
    ensures IsDigit(c)
  {
    (('0' as int) + d) as char
  }

  /** The number a string of decimal digits denotes. */
  function DigitsValue(s: string): nat
    requires AllDigits(s)
  {
    if s == [] then 0
    else DigitsValue(s[..|s| - 1]) * 10 + ((s[|s| - 1] as int) - ('0' as int))
  }

  /** The decimal form of `n`, as JavaScript's String(n) and Python's str(n) write it. */
  function NatToString(n: nat): (s: string)
    ensures |s| >= 1 && AllDigits(s)
  {
    if n < 10 then [DigitChar(n)] else NatToString(n / 10) + [DigitChar(n % 10)]
  }

  /** The decimal form of `i`, with a leading '-' when it is negative. */
  function IntToString(i: int): (s: string)
    ensures |s| >= 1 && IsDigit(s[|s| - 1])
    ensures s[0] == '-' || IsDigit(s[0])
    ensures forall k :: 0 < k < |s| ==> IsDigit(s[k])
  {
    if i < 0 then "-" + NatToString(-i) else NatToString(i)
  }

  /** Reading back the decimal form of `n` gives `n`. */
  lemma {:induction false} NatToStringRoundTrip(n: nat)
    ensures DigitsValue(NatToString(n)) == n
  {
    if n >= 10 {
      var s := NatToString(n);
      assert s[..|s| - 1] == NatToString(n / 10);
      NatToStringRoundTrip(n / 10);
    }
  }

  /** Different numbers have different decimal forms. */
  lemma NatToStringDistinct(m: nat, n: nat)
    requires m != n
    ensures NatToString(m) != NatToString(n)
  {
    NatToStringRoundTrip(m);
    NatToStringRoundTrip(n);
  }

  /** Different integers have different decimal forms. */
  lemma IntToStringDistinct(m: int, n: int)
    requires m != n
    ensures IntToString(m) != IntToString(n)
  {
    var sm, sn := IntToString(m), IntToString(n);
    if m < 0 && n < 0 {
      NatToStringDistinct(-m, -n);
      assert sm[1..] == NatToString(-m) && sn[1..] == NatToString(-n);
    } else if m < 0 {
      assert sm[0] == '-' && sn[0] == NatToString(n)[0];
    } else if n < 0 {
      assert sn[0] == '-' && sm[0] == NatToString(m)[0];
    } else {
      NatToStringDistinct(m, n);
    }
  }

  /** Python's `int(s)` for a string: surrounding whitespace, an optional sign and
      ASCII decimal digits; anything else raises, modelled as None. */
  function ParseInt(s: string): (r: Option<int>)
    ensures r.Some? ==> var t := Strip(s);
      t != [] && (IsDigit(t[0]) || (|t| >= 2 && (t[0] == '-' || t[0] == '+')))
      && (forall k :: 0 < k < |t| ==> IsDigit(t[k]))
      && (r.value < 0 ==> t[0] == '-')
    ensures var t := Strip(s); t != [] && AllDigits(t) ==> r == Some(DigitsValue(t))
    ensures var t := Strip(s);
      |t| >= 2 && (t[0] == '-' || t[0] == '+') && AllDigits(t[1..]) ==>
        r == Some(if t[0] == '-' then 0 - DigitsValue(t[1..]) as int else DigitsValue(t[1..]))
  {
    var t := Strip(s);
    if t == [] then None
    else if t[0] == '-' || t[0] == '+' then
      var body := t[1..];
      if body != [] && AllDigits(body) then
        var v: int := DigitsValue(body);
        Some(if t[0] == '-' then -v else v)
      else None
    else if AllDigits(t) then Some(DigitsValue(t))
    else None
  }

  /** Neither a sign nor a digit is whitespace to Python. */
  lemma SignOrDigitNotWhitespace(c: char)
    requires c == '-' || IsDigit(c)
    ensures c !in PyWhitespace
  {
  }

  /** Python's int() reads back what str() wrote. */
  lemma ParseIntRoundTrip(n: int)
    ensures ParseInt(IntToString(n)) == Some(n)
  {
    var s := IntToString(n);
    SignOrDigitNotWhitespace(s[0]);
    SignOrDigitNotWhitespace(s[|s| - 1]);
    StripByKeepsTrimmed(s, PyWhitespace);
    if n < 0 {
      assert s[1..] == NatToString(-n);
      NatToStringRoundTrip(-n);
    } else {
      NatToStringRoundTrip(n);
    }
  }
}
