/** String helpers shared by the error messages and the case-insensitive
    lookups: lower-casing, Python's `str.join`, `«…»` lists, decimal
    rendering of integers, Python's `repr` of a string and first-occurrence
    de-duplication. */
module Text {
  import opened Results

  /** ASCII lower-casing of one character. */
  function LowerChar(c: char): char {
    if 'A' <= c <= 'Z' then (c as int + 32) as char else c
  }

  /** `s.lower()` (and SQL `lower(...)`) restricted to ASCII letters. */
  function Lower(s: string): (r: string)
    ensures |r| == |s|
    ensures forall i :: 0 <= i < |s| ==> r[i] == LowerChar(s[i])
  {
    seq(|s|, i requires 0 <= i < |s| => LowerChar(s[i]))
  }

  /** Python's `sep.join(xs)`. */
  function Join(sep: string, xs: seq<string>): string
    decreases |xs|
  {
    if |xs| == 0 then ""
    else if |xs| == 1 then xs[0]
    else xs[0] + sep + Join(sep, xs[1..])
  }

  /** The `«a», «b», «c»` rendering used by every message that lists names. */
  function Guillemets(xs: seq<string>): string {
    "«" + Join("», «", xs) + "»"
  }

  /** `t` occurs in `s` starting at index `i`. */
  predicate OccursAt(t: string, s: string, i: int) {
    0 <= i && i + |t| <= |s| && s[i..i + |t|] == t
  }

  /** `t` is a substring of `s` (Python's `t in s`). */
  ghost predicate Occurs(t: string, s: string) {
    exists i :: OccursAt(t, s, i)
  }

  lemma OccursInLeft(t: string, a: string, b: string)
    requires Occurs(t, a)
    ensures Occurs(t, a + b)
  {
    var i :| OccursAt(t, a, i);
    assert (a + b)[i..i + |t|] == a[i..i + |t|];
    assert OccursAt(t, a + b, i);
  }

  lemma OccursInRight(t: string, a: string, b: string)
    requires Occurs(t, b)
    ensures Occurs(t, a + b)
  {
    var i :| OccursAt(t, b, i);
    assert (a + b)[|a| + i..|a| + i + |t|] == b[i..i + |t|];
    assert OccursAt(t, a + b, |a| + i);
  }

  lemma OccursSelf(t: string)
    ensures Occurs(t, t)
  {
    assert t[0..|t|] == t;
    assert OccursAt(t, t, 0);
  }

  /** Every joined item is visible in the joined text. */
  lemma {:induction false} JoinMentions(sep: string, xs: seq<string>, k: int)
    requires 0 <= k < |xs|
    ensures Occurs(xs[k], Join(sep, xs))
    decreases |xs|
  {
    if |xs| == 1 {
      OccursSelf(xs[0]);
    } else if k == 0 {
      OccursSelf(xs[0]);
      OccursInLeft(xs[0], xs[0], sep + Join(sep, xs[1..]));
      assert xs[0] + sep + Join(sep, xs[1..]) == xs[0] + (sep + Join(sep, xs[1..]));
    } else {
      JoinMentions(sep, xs[1..], k - 1);
      OccursInRight(xs[k], sep, Join(sep, xs[1..]));
      OccursInRight(xs[k], xs[0], sep + Join(sep, xs[1..]));
      assert xs[0] + sep + Join(sep, xs[1..]) == xs[0] + (sep + Join(sep, xs[1..]));
    }
  }

  /** Every listed name is visible in a `«…»` list. */
  lemma GuillemetsMention(xs: seq<string>, k: int)
    requires 0 <= k < |xs|
    ensures Occurs(xs[k], Guillemets(xs))
  {
    JoinMentions("», «", xs, k);
    OccursInRight(xs[k], "«", Join("», «", xs));
    OccursInLeft(xs[k], "«" + Join("», «", xs), "»");
  }

  /** `t` is visible in `a + t + b`. */
  lemma OccursBetween(t: string, a: string, b: string)
    ensures Occurs(t, a + t + b)
  {
    OccursSelf(t);
    OccursInRight(t, a, t);
    OccursInLeft(t, a + t, b);
  }

  function DigitChar(d: int): char
    requires 0 <= d <= 9
  {
    ('0' as int + d) as char
  }

  /** Python's `str(n)` for a natural number. */
  function NatToString(n: nat): (r: string)
    ensures |r| >= 1
    decreases n
  {
    if n < 10 then [DigitChar(n)] else NatToString(n / 10) + [DigitChar(n % 10)]
  }

  /** Python's `str(n)` for an integer. */
  function IntToString(n: int): string {
    if n < 0 then "-" + NatToString(-n) else NatToString(n)
  }

  // ---- repr ----

  /** The quote `repr` puts around `s`: a double quote when `s` holds a
      single quote and no double quote, a single quote otherwise. */
  function ReprQuote(s: string): char {
    if '\'' in s && '"' !in s then '"' else '\''
  }

  function HexDigit(d: int): char
    requires 0 <= d < 16
  {
    if d < 10 then DigitChar(d) else ('a' as int + (d - 10)) as char
  }

  /** A character `repr` writes as `\xNN`: the C0 controls other than tab,
      newline and carriage return, DEL, the C1 controls, the no-break space
      and the soft hyphen. */
  predicate HexEscaped(c: char) {
    c != '\t' && c != '\n' && c != '\r'
    && (c as int < 0x20 || 0x7f <= c as int <= 0xa0 || c as int == 0xad)
  }

  /** A character `repr` writes as itself inside quotes `q`. */
  predicate Verbatim(c: char, q: char) {
    c != q && c != '\\' && c != '\t' && c != '\n' && c != '\r' && !HexEscaped(c)
  }

  /** How `repr` writes one character inside quotes `q`. */
  function ReprChar(c: char, q: char): (r: string)
    ensures 1 <= |r| <= 4
    ensures r == [c] <==> Verbatim(c, q)
  {
    if c == q || c == '\\' then ['\\', c]
    else if c == '\t' then "\\t"
    else if c == '\n' then "\\n"
    else if c == '\r' then "\\r"
    else if HexEscaped(c) then "\\x" + [HexDigit(c as int / 16), HexDigit(c as int % 16)]
    else [c]
  }

  /** The characters of `s` as `repr` writes them inside quotes `q`. */
  function ReprBody(s: string, q: char): (r: string)
    ensures |s| <= |r| <= 4 * |s|
  {
    if s == [] then [] else ReprChar(s[0], q) + ReprBody(s[1..], q)
  }

  /** Python's `repr(s)`. */
  function Repr(s: string): (r: string)
    ensures |r| >= 2 && r[0] == r[|r| - 1] == ReprQuote(s)
  {
    [ReprQuote(s)] + ReprBody(s, ReprQuote(s)) + [ReprQuote(s)]
  }

  function HexValue(c: char): Option<int> {
    if '0' <= c <= '9' then Some(c as int - '0' as int)
    else if 'a' <= c <= 'f' then Some(c as int - 'a' as int + 10)
    else None
  }

  function Cons(c: char, o: Option<string>): Option<string> {
    if o.Some? then Some([c] + o.value) else None
  }

  /** Reads back what `ReprBody` writes: each escape becomes the character it
      stands for. */
  function Unescape(t: string): (r: Option<string>)
    decreases |t|
  {
    if t == [] then Some([])
    else if t[0] != '\\' then Cons(t[0], Unescape(t[1..]))
    else if |t| < 2 then None
    else if t[1] == 't' then Cons('\t', Unescape(t[2..]))
    else if t[1] == 'n' then Cons('\n', Unescape(t[2..]))
    else if t[1] == 'r' then Cons('\r', Unescape(t[2..]))
    else if t[1] == 'x' then
      if |t| < 4 || HexValue(t[2]).None? || HexValue(t[3]).None? then None
      else Cons((HexValue(t[2]).value * 16 + HexValue(t[3]).value) as char, Unescape(t[4..]))
    else Cons(t[1], Unescape(t[2..]))
  }

  lemma HexDigitValue(d: int)
    requires 0 <= d < 16
    ensures HexValue(HexDigit(d)) == Some(d)
  {
  }

  /** One written character reads back as itself, whatever follows it. */
  lemma UnescapeChar(c: char, q: char, rest: string)
    requires q == '\'' || q == '"'
    ensures Unescape(ReprChar(c, q) + rest) == Cons(c, Unescape(rest))
  {
    var t := ReprChar(c, q) + rest;
    if Verbatim(c, q) {
      assert t[1..] == rest;
    } else if c == q || c == '\\' || c == '\t' || c == '\n' || c == '\r' {
      assert t[2..] == rest;
    } else {
      HexDigitValue(c as int / 16);
      HexDigitValue(c as int % 16);
      assert t[4..] == rest;
    }
  }

  /** `repr` loses nothing: the text between the quotes reads back as the
      original string. */
  lemma {:induction false} ReprRoundTrip(s: string)
    ensures var r := Repr(s); Unescape(r[1..|r| - 1]) == Some(s)
  {
    var r := Repr(s);
    assert r[1..|r| - 1] == ReprBody(s, ReprQuote(s));
    BodyRoundTrip(s, ReprQuote(s));
  }

  lemma {:induction false} BodyRoundTrip(s: string, q: char)
    requires q == '\'' || q == '"'
    ensures Unescape(ReprBody(s, q)) == Some(s)
  {
    if s != [] {
      BodyRoundTrip(s[1..], q);
      UnescapeChar(s[0], q, ReprBody(s[1..], q));
      assert [s[0]] + s[1..] == s;
    }
  }

  /** Inside the quotes, the quote character only appears escaped, so the
      text ends at the closing quote. */
  lemma {:induction false} BodyHidesQuote(s: string, q: char, i: int)
    requires q == '\'' || q == '"'
    requires 0 <= i < |ReprBody(s, q)| && ReprBody(s, q)[i] == q
    ensures i > 0 && ReprBody(s, q)[i - 1] == '\\'
  {
    var head := ReprChar(s[0], q);
    var body := ReprBody(s, q);
    assert body == head + ReprBody(s[1..], q);
    if i >= |head| {
      BodyHidesQuote(s[1..], q, i - |head|);
    } else {
      assert s[0] == q && i == 1;
    }
  }

  /** A string of verbatim characters is written between the quotes as it
      is. */
  lemma {:induction false} VerbatimBody(s: string, q: char)
    requires forall i :: 0 <= i < |s| ==> Verbatim(s[i], q)
    ensures ReprBody(s, q) == s
  {
    if s != [] {
      VerbatimBody(s[1..], q);
      assert [s[0]] + s[1..] == s;
    }
  }

  /** A string with no quote, backslash or escaped character is written
      between single quotes as it is. */
  lemma ReprPlain(s: string)
    requires forall i :: 0 <= i < |s| ==> Verbatim(s[i], '\'') && s[i] != '"'
    ensures Repr(s) == "'" + s + "'"
  {
    assert '\'' !in s;
    VerbatimBody(s, '\'');
  }

  /** `repr("O'Brien")` switches to double quotes and escapes nothing. */
  lemma ReprSwitchesQuotes()
    ensures Repr("O'Brien") == "\"O'Brien\""
  {
    var s := "O'Brien";
    assert s[1] == '\'';
    assert ReprQuote(s) == '"';
    assert forall i :: 0 <= i < |s| ==> Verbatim(s[i], '"');
    VerbatimBody(s, '"');
    assert Repr(s) == ['"'] + s + ['"'];
  }

  ghost predicate Distinct<T>(xs: seq<T>) {
    forall i, j :: 0 <= i < j < |xs| ==> xs[i] != xs[j]
  }

  /** The items of `xs` in order of first occurrence. */
  function Dedup(xs: seq<string>): (r: seq<string>)
    ensures Distinct(r)
    ensures forall x :: x in r <==> x in xs
    decreases |xs|
  {
    if |xs| == 0 then []
    else
      var rest := Dedup(xs[..|xs| - 1]);
      var last := xs[|xs| - 1];
      assert forall x :: x in xs <==> x in xs[..|xs| - 1] || x == last;
      if last in rest then rest else rest + [last]
  }

  /** A duplicate-free sequence has as many items as its set of items. */
  lemma {:induction false} DistinctCard<T>(xs: seq<T>)
    requires Distinct(xs)
    ensures |set x | x in xs| == |xs|
    decreases |xs|
  {
    if |xs| > 0 {
      var init := xs[..|xs| - 1];
      var last := xs[|xs| - 1];
      DistinctCard(init);
      assert last !in init;
      assert (set x | x in xs) == (set x | x in init) + {last};
    }
  }
}
