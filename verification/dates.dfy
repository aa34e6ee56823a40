/** `parse_like_datetime`: a deadline string is tried against four
    `datetime.strptime` formats in order and the first that parses wins.
    `strptime` compiles each format into a regular expression (one per
    directive, whitespace becoming `\s+`), takes the first match the
    backtracking engine finds, rejects leftover characters, and finally
    rejects impossible calendar dates. The model follows those steps. */
module Dates {
  import opened Results
  import opened Text

  datatype DateTime = DateTime(year: int, month: int, day: int, hour: int, minute: int)

  predicate IsLeap(y: int) {
    (y % 4 == 0 && y % 100 != 0) || y % 400 == 0
  }

  function DaysInMonth(y: int, m: int): int
    requires 1 <= m <= 12
  {
    if m == 2 then (if IsLeap(y) then 29 else 28)
    else if m == 4 || m == 6 || m == 9 || m == 11 then 30
    else 31
  }

  /** A date-time Python's `datetime` can represent, at minute resolution. */
  predicate ValidDateTime(dt: DateTime) {
    && 1 <= dt.year <= 9999
    && 1 <= dt.month <= 12
    && 1 <= dt.day <= DaysInMonth(dt.year, dt.month)
    && 0 <= dt.hour <= 23
    && 0 <= dt.minute <= 59
  }

  /** Minute-resolution timestamp. On valid date-times its order is
      chronological order (months and days are packed with room to spare). */
  function Stamp(dt: DateTime): int {
    (((dt.year * 12 + (dt.month - 1)) * 31 + (dt.day - 1)) * 24 + dt.hour) * 60 + dt.minute
  }

  // ---- the regular expressions strptime builds ----

  /** `%d`, `%m`, `%Y`, `%H`, `%M`, a literal character, and the `\s+` that
      replaces the blank between date and time. */
  datatype Piece = Day | Month | Year | Hour | Minute | Lit(c: char) | Blank

  /** One way to match a piece: the number it denotes and the characters used. */
  datatype Cand = Cand(value: int, len: nat)

  predicate IsDigit(c: char) {
    '0' <= c <= '9'
  }

  function Digit(c: char): int
    requires IsDigit(c)
  {
    c as int - '0' as int
  }

  /** Python's `\s` on a `str` pattern: the ASCII whitespace and the
      separators 0x1c..0x1f, plus the Unicode spaces and line and paragraph
      separators. */
  predicate IsSpace(c: char) {
    || c == ' '
    || '\t' <= c <= '\r'
    || '\U{1c}' <= c <= '\U{1f}'
    || c == '\U{85}' || c == '\U{a0}' || c == '\U{1680}'
    || '\U{2000}' <= c <= '\U{200a}'
    || c == '\U{2028}' || c == '\U{2029}' || c == '\U{202f}' || c == '\U{205f}' || c == '\U{3000}'
  }

  function Lo(p: Piece): int {
    match p
    case Day => 1
    case Month => 1
    case Year => 0
    case Hour => 0
    case Minute => 0
    case Lit(_) => 0
    case Blank => 0
  }

  function Hi(p: Piece): int {
    match p
    case Day => 31
    case Month => 12
    case Year => 9999
    case Hour => 23
    case Minute => 59
    case Lit(_) => 0
    case Blank => 0
  }

  /** Characters a piece can consume. */
  predicate PieceChar(p: Piece, c: char) {
    IsDigit(c) || IsSpace(c) || (p.Lit? && c == p.c)
  }

  /** A candidate of `p` at `i` stays inside `s`. */
  predicate InBounds(s: string, i: int, c: Cand) {
    0 <= i && 1 <= c.len && i + c.len <= |s|
  }

  /** A candidate of `p` at `i` is sound: in range and made of characters
      the piece accepts (exactly its character for a literal). */
  ghost predicate GoodCand(p: Piece, s: string, i: int, c: Cand) {
    && InBounds(s, i, c)
    && Lo(p) <= c.value <= Hi(p)
    && (forall j :: i <= j < i + c.len ==> PieceChar(p, s[j]))
    && (p.Lit? ==> c.len == 1 && s[i] == p.c)
  }

  /** Two digits denoting a value in `lo..hi` (e.g. `3[01]|[12]\d|0[1-9]`
      is exactly 01..31). */
  function TwoDigits(s: string, i: nat, lo: int, hi: int): seq<Cand> {
    if i + 2 <= |s| && IsDigit(s[i]) && IsDigit(s[i + 1]) && lo <= 10 * Digit(s[i]) + Digit(s[i + 1]) <= hi
    then [Cand(10 * Digit(s[i]) + Digit(s[i + 1]), 2)]
    else []
  }

  /** One digit denoting a value in `lo..hi`. */
  function OneDigit(s: string, i: nat, lo: int, hi: int): seq<Cand> {
    if i + 1 <= |s| && IsDigit(s[i]) && lo <= Digit(s[i]) <= hi then [Cand(Digit(s[i]), 1)] else []
  }

  /** The last alternative of `%d`: a blank followed by `[1-9]`. */
  function BlankDigit(s: string, i: nat): seq<Cand> {
    if i + 2 <= |s| && s[i] == ' ' && IsDigit(s[i + 1]) && 1 <= Digit(s[i + 1]) then [Cand(Digit(s[i + 1]), 2)] else []
  }

  /** `\d\d\d\d`. */
  function FourDigits(s: string, i: nat): seq<Cand> {
    if i + 4 <= |s| && IsDigit(s[i]) && IsDigit(s[i + 1]) && IsDigit(s[i + 2]) && IsDigit(s[i + 3])
    then [Cand(1000 * Digit(s[i]) + 100 * Digit(s[i + 1]) + 10 * Digit(s[i + 2]) + Digit(s[i + 3]), 4)]
    else []
  }

  /** Length of the run of whitespace starting at `i`. */
  function SpaceRun(s: string, i: nat): (n: nat)
    requires i <= |s|
    ensures i + n <= |s|
    ensures forall j :: i <= j < i + n ==> IsSpace(s[j])
    ensures i + n < |s| ==> !IsSpace(s[i + n])
    decreases |s| - i
  {
    if i < |s| && IsSpace(s[i]) then 1 + SpaceRun(s, i + 1) else 0
  }

  /** `\s+` is greedy: longest run first, then shorter ones on backtracking. */
  function Blanks(s: string, i: nat): seq<Cand>
    requires i <= |s|
  {
    Longest(SpaceRun(s, i))
  }

  /** Lengths `n` down to 1. */
  function Longest(n: nat): (cs: seq<Cand>)
    ensures |cs| == n && forall k :: 0 <= k < n ==> cs[k] == Cand(0, n - k)
  {
    if n == 0 then [] else [Cand(0, n)] + Longest(n - 1)
  }

  /** The ways to match `p` at `i`, in the order the regex engine tries them. */
  function Candidates(p: Piece, s: string, i: nat): (cs: seq<Cand>)
    requires i <= |s|
    ensures forall k :: 0 <= k < |cs| ==> InBounds(s, i, cs[k])
  {
    match p
    case Day => TwoDigits(s, i, 1, 31) + OneDigit(s, i, 1, 9) + BlankDigit(s, i)
    case Month => TwoDigits(s, i, 1, 12) + OneDigit(s, i, 1, 9)
    case Year => FourDigits(s, i)
    case Hour => TwoDigits(s, i, 0, 23) + OneDigit(s, i, 0, 9)
    case Minute => TwoDigits(s, i, 0, 59) + OneDigit(s, i, 0, 9)
    case Lit(c) => if i < |s| && s[i] == c then [Cand(0, 1)] else []
    case Blank => Blanks(s, i)
  }

  /** The characters of `s[i..e]` are all ones some piece of `ps` accepts. */
  ghost predicate CharsFrom(ps: seq<Piece>, s: string, i: int, e: int)
    requires 0 <= i <= e <= |s|
  {
    forall j :: i <= j < e ==> IsDigit(s[j]) || IsSpace(s[j]) || Lit(s[j]) in ps
  }

  lemma CandidatesSound(p: Piece, s: string, i: nat)
    requires i <= |s|
    ensures forall k :: 0 <= k < |Candidates(p, s, i)| ==> GoodCand(p, s, i, Candidates(p, s, i)[k])
  {
  }

  /** The first match of the pieces `ps` against `s` from `i`, as the
      backtracking engine finds it: one value per piece and the end index. */
  function Match(ps: seq<Piece>, s: string, i: nat): (r: Option<(seq<int>, nat)>)
    requires i <= |s|
    ensures r.Some? ==> |r.value.0| == |ps| && i <= r.value.1 <= |s|
    decreases |ps|, 1
  {
    if |ps| == 0 then Some(([], i)) else Try(ps, s, i, Candidates(ps[0], s, i))
  }

  /** Tries the candidates of `ps[0]` in order; the first one after which the
      remaining pieces match wins. */
  function Try(ps: seq<Piece>, s: string, i: nat, cs: seq<Cand>): (r: Option<(seq<int>, nat)>)
    requires |ps| > 0 && i <= |s|
    requires forall k :: 0 <= k < |cs| ==> InBounds(s, i, cs[k])
    ensures r.Some? ==> |r.value.0| == |ps| && i <= r.value.1 <= |s|
    decreases |ps|, 0, |cs|
  {
    if |cs| == 0 then None
    else
      assert InBounds(s, i, cs[0]);
      match Match(ps[1..], s, i + cs[0].len)
      case Some(m) => Some(([cs[0].value] + m.0, m.1))
      case None => Try(ps, s, i, cs[1..])
  }

  /** What a successful match guarantees: every value is in its piece's
      range, every consumed character is one some piece accepts, and every
      literal of the pattern was seen. */
  ghost predicate Sound(ps: seq<Piece>, s: string, i: int, m: (seq<int>, nat))
    requires 0 <= i <= m.1 <= |s| && |m.0| == |ps|
  {
    && (forall k :: 0 <= k < |ps| ==> Lo(ps[k]) <= m.0[k] <= Hi(ps[k]))
    && CharsFrom(ps, s, i, m.1)
    && (forall k :: 0 <= k < |ps| && ps[k].Lit? ==> ps[k].c in s[i..m.1])
  }

  lemma {:induction false} MatchSound(ps: seq<Piece>, s: string, i: nat)
    requires i <= |s| && Match(ps, s, i).Some?
    ensures Sound(ps, s, i, Match(ps, s, i).value)
    decreases |ps|, 1
  {
    if |ps| > 0 {
      CandidatesSound(ps[0], s, i);
      TrySound(ps, s, i, Candidates(ps[0], s, i));
    }
  }

  lemma {:induction false} TrySound(ps: seq<Piece>, s: string, i: nat, cs: seq<Cand>)
    requires |ps| > 0 && i <= |s|
    requires forall k :: 0 <= k < |cs| ==> InBounds(s, i, cs[k]) && GoodCand(ps[0], s, i, cs[k])
    requires Try(ps, s, i, cs).Some?
    ensures Sound(ps, s, i, Try(ps, s, i, cs).value)
    decreases |ps|, 0, |cs|
  {
    var c := cs[0];
    assert InBounds(s, i, c);
    var rest := Match(ps[1..], s, i + c.len);
    if rest.None? {
      TryNext(ps, s, i, cs);
      TrySound(ps, s, i, cs[1..]);
    } else {
      var m := rest.value;
      TryHit(ps, s, i, cs, m);
      MatchSound(ps[1..], s, i + c.len);
      ConsSound(ps, s, i, c, m);
    }
  }

  /** A sound candidate for the first piece followed by a sound match of the
      rest is a sound match of the whole pattern. */
  lemma ConsSound(ps: seq<Piece>, s: string, i: nat, c: Cand, m: (seq<int>, nat))
    requires |ps| > 0 && GoodCand(ps[0], s, i, c)
    requires i + c.len <= m.1 <= |s| && |m.0| == |ps| - 1
    requires Sound(ps[1..], s, i + c.len, m)
    ensures Sound(ps, s, i, ([c.value] + m.0, m.1))
  {
    var vs := [c.value] + m.0;
    assert forall k :: 1 <= k < |ps| ==> vs[k] == m.0[k - 1] && ps[k] == ps[1..][k - 1];
    forall j | i <= j < m.1
      ensures IsDigit(s[j]) || IsSpace(s[j]) || Lit(s[j]) in ps
    {
      if j < i + c.len {
        assert PieceChar(ps[0], s[j]);
      } else {
        assert IsDigit(s[j]) || IsSpace(s[j]) || Lit(s[j]) in ps[1..];
      }
    }
    forall k | 0 <= k < |ps| && ps[k].Lit?
      ensures ps[k].c in s[i..m.1]
    {
      if k == 0 {
        assert s[i..m.1][0] == s[i];
      } else {
        assert ps[1..][k - 1] == ps[k];
        var q :| 0 <= q < |s[i + c.len..m.1]| && s[i + c.len..m.1][q] == ps[k].c;
        assert s[i..m.1][c.len + q] == ps[k].c;
      }
    }
  }

  // ---- the four formats ----

  datatype Format = DotDayFirst | DotYearFirst | DashDayFirst | DashYearFirst

  /** `"%d.%m.%Y %H:%M"`, `"%Y.%m.%d %H:%M"`, `"%d-%m-%Y %H:%M"`, `"%Y-%m-%d %H:%M"`,
      tried in this order. */
  const Formats: seq<Format> := [DotDayFirst, DotYearFirst, DashDayFirst, DashYearFirst]

  function Pattern(f: Format): string {
    match f
    case DotDayFirst => "%d.%m.%Y %H:%M"
    case DotYearFirst => "%Y.%m.%d %H:%M"
    case DashDayFirst => "%d-%m-%Y %H:%M"
    case DashYearFirst => "%Y-%m-%d %H:%M"
  }

  function Separator(f: Format): char {
    if f == DotDayFirst || f == DotYearFirst then '.' else '-'
  }

  predicate DayFirst(f: Format) {
    f == DotDayFirst || f == DashDayFirst
  }

  const TimePieces: seq<Piece> := [Blank, Hour, Lit(':'), Minute]

  function Pieces(f: Format): (ps: seq<Piece>)
    ensures |ps| == 9
  {
    var c := Separator(f);
    if DayFirst(f) then [Day, Lit(c), Month, Lit(c), Year] + TimePieces
    else [Year, Lit(c), Month, Lit(c), Day] + TimePieces
  }

  /** The fields a match of `Pieces(f)` yields, in calendar order. */
  function Assemble(f: Format, vs: seq<int>): DateTime
    requires |vs| == 9
  {
    if DayFirst(f) then DateTime(vs[4], vs[2], vs[0], vs[6], vs[8])
    else DateTime(vs[0], vs[2], vs[4], vs[6], vs[8])
  }

  /** The regular expressions already bound every field to its range. */
  lemma FieldsInRange(f: Format, s: string)
    requires Match(Pieces(f), s, 0).Some?
    ensures var dt := Assemble(f, Match(Pieces(f), s, 0).value.0);
      0 <= dt.year <= 9999 && 1 <= dt.month <= 12 && 1 <= dt.day <= 31 && 0 <= dt.hour <= 23 && 0 <= dt.minute <= 59
  {
    var ps := Pieces(f);
    MatchSound(ps, s, 0);
    var vs := Match(ps, s, 0).value.0;
    assert Lo(ps[0]) <= vs[0] <= Hi(ps[0]);
    assert Lo(ps[2]) <= vs[2] <= Hi(ps[2]);
    assert Lo(ps[4]) <= vs[4] <= Hi(ps[4]);
    assert Lo(ps[6]) <= vs[6] <= Hi(ps[6]);
    assert Lo(ps[8]) <= vs[8] <= Hi(ps[8]);
  }

  /** `datetime.strptime(s, Pattern(f))`, `None` where it raises `ValueError`:
      no match, characters left over, or a date the calendar does not have. */
  function Strptime(s: string, f: Format): (r: Option<DateTime>)
    ensures r.Some? ==> ValidDateTime(r.value)
  {
    match Match(Pieces(f), s, 0)
    case None => None
    case Some(m) =>
      if m.1 != |s| then None  // "unconverted data remains"
      else
        FieldsInRange(f, s);
        var dt := Assemble(f, m.0);
        if 1 <= dt.year && dt.day <= DaysInMonth(dt.year, dt.month) then Some(dt) else None
  }

  function ParseError(s: string): string {
    "Cannot parse datetime format «" + s + "». Please, use one of this examples: "
    + Join(" | ", [Pattern(DotDayFirst), Pattern(DotYearFirst), Pattern(DashDayFirst), Pattern(DashYearFirst)])
  }

  /** The loop over the formats from the `k`-th on: the first that parses wins. */
  function ParseFrom(s: string, k: nat): (r: Option<DateTime>)
    ensures r.Some? <==> exists j :: k <= j < |Formats| && Strptime(s, Formats[j]).Some?
    ensures r.Some? ==> exists j :: k <= j < |Formats| && FirstParse(s, k, j) && Strptime(s, Formats[j]) == r
    decreases |Formats| - k
  {
    if k >= |Formats| then None
    else
      match Strptime(s, Formats[k])
      case Some(dt) => Some(dt)
      case None => ParseFrom(s, k + 1)
  }

  /** Format `j` is the first from the `k`-th on that parses `s`. */
  ghost predicate FirstParse(s: string, k: int, j: int)
    requires 0 <= k <= j < |Formats|
  {
    Strptime(s, Formats[j]).Some? && forall i :: k <= i < j ==> Strptime(s, Formats[i]).None?
  }

  /** `parse_like_datetime`: the first of the four formats that parses `s`
      gives the result; when none does the error echoes `s` and lists them. */
  function ParseLikeDatetime(s: string): (r: Result<DateTime>)
    ensures r.Ok? || r.Invalid?
    ensures r.Ok? ==> ValidDateTime(r.value)
    ensures r.Ok? <==> exists k :: 0 <= k < |Formats| && Strptime(s, Formats[k]).Some?
    ensures r.Ok? ==>
      exists k :: 0 <= k < |Formats| && FirstParse(s, 0, k) && Strptime(s, Formats[k]) == Some(r.value)
    ensures r.Invalid? ==> r.message == ParseError(s)
  {
    match ParseFrom(s, 0)
    case Some(dt) => Ok(dt)
    case None => Invalid(ParseError(s))
  }

  // ---- rendering, and the round trip through the parser ----

  function Pad2(n: int): (r: string)
    requires 0 <= n <= 99
    ensures |r| == 2 && IsDigit(r[0]) && IsDigit(r[1]) && 10 * Digit(r[0]) + Digit(r[1]) == n
  {
    [DigitChar(n / 10), DigitChar(n % 10)]
  }

  function Pad4(n: int): (r: string)
    requires 0 <= n <= 9999
    ensures |r| == 4 && IsDigit(r[0]) && IsDigit(r[1]) && IsDigit(r[2]) && IsDigit(r[3])
    ensures 1000 * Digit(r[0]) + 100 * Digit(r[1]) + 10 * Digit(r[2]) + Digit(r[3]) == n
  {
    Pad2(n / 100) + Pad2(n % 100)
  }

  /** `dt` written in format `f` with zero-padded fields, as `strftime` would. */
  function Render(f: Format, dt: DateTime): (r: string)
    requires ValidDateTime(dt)
    ensures |r| == 16
  {
    var c := Separator(f);
    var d := Pad2(dt.day);
    var mo := Pad2(dt.month);
    var y := Pad4(dt.year);
    var h := Pad2(dt.hour);
    var mi := Pad2(dt.minute);
    if DayFirst(f) then [d[0], d[1], c, mo[0], mo[1], c, y[0], y[1], y[2], y[3], ' ', h[0], h[1], ':', mi[0], mi[1]]
    else [y[0], y[1], y[2], y[3], c, mo[0], mo[1], c, d[0], d[1], ' ', h[0], h[1], ':', mi[0], mi[1]]
  }

  /** When the first candidate of the leading piece lets the rest match,
      that is the match. */
  lemma MatchFirst(ps: seq<Piece>, s: string, i: nat, c: Cand, m: (seq<int>, nat))
    requires |ps| > 0 && i <= |s|
    requires |Candidates(ps[0], s, i)| > 0 && Candidates(ps[0], s, i)[0] == c
    requires i + c.len <= |s| && Match(ps[1..], s, i + c.len) == Some(m)
    ensures Match(ps, s, i) == Some(([c.value] + m.0, m.1))
  {
  }

  /** `MatchFirst` for a pattern written as its head and its tail. */
  lemma MatchStep(p: Piece, rest: seq<Piece>, s: string, i: nat, c: Cand, m: (seq<int>, nat))
    requires i <= |s|
    requires |Candidates(p, s, i)| > 0 && Candidates(p, s, i)[0] == c
    requires i + c.len <= |s| && Match(rest, s, i + c.len) == Some(m)
    ensures Match([p] + rest, s, i) == Some(([c.value] + m.0, m.1))
  {
    assert ([p] + rest)[1..] == rest;
    MatchFirst([p] + rest, s, i, c, m);
  }

  /** When no candidate of the leading piece lets the rest match, nothing matches. */
  lemma {:induction false} TryAllFail(ps: seq<Piece>, s: string, i: nat, cs: seq<Cand>)
    requires |ps| > 0 && i <= |s|
    requires forall k :: 0 <= k < |cs| ==> InBounds(s, i, cs[k]) && Match(ps[1..], s, i + cs[k].len) == None
    ensures Try(ps, s, i, cs) == None
    decreases |cs|
  {
    if |cs| > 0 {
      TryAllFail(ps, s, i, cs[1..]);
      TryNext(ps, s, i, cs);
    }
  }

  /** A candidate after which the rest does not match passes the turn to the next. */
  lemma TryNext(ps: seq<Piece>, s: string, i: nat, cs: seq<Cand>)
    requires |ps| > 0 && i <= |s| && |cs| > 0
    requires forall k :: 0 <= k < |cs| ==> InBounds(s, i, cs[k])
    requires InBounds(s, i, cs[0]) && Match(ps[1..], s, i + cs[0].len) == None
    ensures Try(ps, s, i, cs) == Try(ps, s, i, cs[1..])
  {
  }

  /** A candidate after which the rest matches decides the match. */
  lemma TryHit(ps: seq<Piece>, s: string, i: nat, cs: seq<Cand>, m: (seq<int>, nat))
    requires |ps| > 0 && i <= |s| && |cs| > 0
    requires forall k :: 0 <= k < |cs| ==> InBounds(s, i, cs[k])
    requires InBounds(s, i, cs[0]) && Match(ps[1..], s, i + cs[0].len) == Some(m)
    ensures Try(ps, s, i, cs) == Some(([cs[0].value] + m.0, m.1))
  {
  }

  /** A literal that is not the next character stops the match. */
  lemma LitFails(ps: seq<Piece>, s: string, i: nat)
    requires |ps| > 0 && ps[0].Lit? && i <= |s|
    requires i == |s| || s[i] != ps[0].c
    ensures Match(ps, s, i) == None
  {
    assert Candidates(ps[0], s, i) == [];
  }

  /** The time part `" HH:MM"` as a rendering lays it out. */
  ghost predicate TimeLaid(s: string, h: int, mi: int) {
    && |s| == 16 && s[10] == ' ' && s[13] == ':'
    && TwoDigits(s, 11, 0, 23) == [Cand(h, 2)]
    && TwoDigits(s, 14, 0, 59) == [Cand(mi, 2)]
  }

  /** A day-first rendering: `DD c MM c YYYY HH:MM`. */
  ghost predicate DayFirstLaid(s: string, c: char, dt: DateTime) {
    && TimeLaid(s, dt.hour, dt.minute)
    && TwoDigits(s, 0, 1, 31) == [Cand(dt.day, 2)] && s[2] == c
    && TwoDigits(s, 3, 1, 12) == [Cand(dt.month, 2)] && s[5] == c
    && FourDigits(s, 6) == [Cand(dt.year, 4)]
  }

  /** A year-first rendering: `YYYY c MM c DD HH:MM`. */
  ghost predicate YearFirstLaid(s: string, c: char, dt: DateTime) {
    && TimeLaid(s, dt.hour, dt.minute)
    && FourDigits(s, 0) == [Cand(dt.year, 4)] && s[4] == c
    && TwoDigits(s, 5, 1, 12) == [Cand(dt.month, 2)] && s[7] == c
    && TwoDigits(s, 8, 1, 31) == [Cand(dt.day, 2)]
  }

  lemma RenderedTime(f: Format, dt: DateTime)
    requires ValidDateTime(dt)
    ensures TimeLaid(Render(f, dt), dt.hour, dt.minute)
  {
  }

  /** Each field of a rendering reads back as the field. */
  lemma RenderedLaid(f: Format, dt: DateTime)
    requires ValidDateTime(dt)
    ensures DayFirst(f) ==> DayFirstLaid(Render(f, dt), Separator(f), dt)
    ensures !DayFirst(f) ==> YearFirstLaid(Render(f, dt), Separator(f), dt)
  {
    RenderedTime(f, dt);
  }

  /** The `":MM"` at the end of a rendering matches. */
  lemma MatchMinute(s: string, h: int, mi: int)
    requires TimeLaid(s, h, mi)
    ensures Match([Lit(':'), Minute], s, 13) == Some(([0, mi], 16))
  {
    var e: seq<Piece> := [];
    var v0: seq<int> := [];
    MatchStep(Minute, e, s, 14, Cand(mi, 2), (v0, 16));
    MatchStep(Lit(':'), [Minute] + e, s, 13, Cand(0, 1), ([mi] + v0, 16));
    assert [Lit(':')] + ([Minute] + e) == [Lit(':'), Minute];
    assert [0] + ([mi] + v0) == [0, mi];
  }

  /** The `"HH:MM"` of a rendering matches. */
  lemma MatchHour(s: string, h: int, mi: int)
    requires TimeLaid(s, h, mi)
    ensures Match([Hour, Lit(':'), Minute], s, 11) == Some(([h, 0, mi], 16))
  {
    MatchMinute(s, h, mi);
    MatchStep(Hour, [Lit(':'), Minute], s, 11, Cand(h, 2), ([0, mi], 16));
    assert [Hour] + [Lit(':'), Minute] == [Hour, Lit(':'), Minute];
    assert [h] + [0, mi] == [h, 0, mi];
  }

  /** The time part `" HH:MM"` of a rendering matches field by field. */
  lemma MatchTime(s: string, h: int, mi: int)
    requires TimeLaid(s, h, mi)
    ensures Match(TimePieces, s, 10) == Some(([0, h, 0, mi], 16))
  {
    MatchHour(s, h, mi);
    assert SpaceRun(s, 11) == 0;
    assert SpaceRun(s, 10) == 1;
    assert Candidates(Blank, s, 10)[0] == Cand(0, 1);
    MatchStep(Blank, [Hour, Lit(':'), Minute], s, 10, Cand(0, 1), ([h, 0, mi], 16));
    assert [Blank] + [Hour, Lit(':'), Minute] == TimePieces;
    assert [0] + [h, 0, mi] == [0, h, 0, mi];
  }

  /** The year and time of a day-first rendering match. */
  lemma MatchDayFirstYear(s: string, c: char, dt: DateTime)
    requires DayFirstLaid(s, c, dt)
    ensures Match([Year] + TimePieces, s, 6) == Some(([dt.year] + [0, dt.hour, 0, dt.minute], 16))
  {
    MatchTime(s, dt.hour, dt.minute);
    MatchStep(Year, TimePieces, s, 6, Cand(dt.year, 4), ([0, dt.hour, 0, dt.minute], 16));
  }

  /** From the second separator of a day-first rendering on. */
  lemma MatchDayFirstTail(s: string, c: char, dt: DateTime)
    requires DayFirstLaid(s, c, dt)
    ensures Match([Lit(c)] + ([Year] + TimePieces), s, 5)
      == Some(([0] + ([dt.year] + [0, dt.hour, 0, dt.minute]), 16))
  {
    MatchDayFirstYear(s, c, dt);
    MatchStep(Lit(c), [Year] + TimePieces, s, 5, Cand(0, 1), ([dt.year] + [0, dt.hour, 0, dt.minute], 16));
  }

  /** From the month of a day-first rendering on. */
  lemma MatchDayFirstMonth(s: string, c: char, dt: DateTime)
    requires DayFirstLaid(s, c, dt)
    ensures Match([Month] + ([Lit(c)] + ([Year] + TimePieces)), s, 3)
      == Some(([dt.month] + ([0] + ([dt.year] + [0, dt.hour, 0, dt.minute])), 16))
  {
    MatchDayFirstTail(s, c, dt);
    MatchStep(Month, [Lit(c)] + ([Year] + TimePieces), s, 3, Cand(dt.month, 2),
      ([0] + ([dt.year] + [0, dt.hour, 0, dt.minute]), 16));
  }

  /** From the first separator of a day-first rendering on. */
  lemma MatchDayFirstSep(s: string, c: char, dt: DateTime)
    requires DayFirstLaid(s, c, dt)
    ensures Match([Lit(c)] + ([Month] + ([Lit(c)] + ([Year] + TimePieces))), s, 2)
      == Some(([0] + ([dt.month] + ([0] + ([dt.year] + [0, dt.hour, 0, dt.minute]))), 16))
  {
    MatchDayFirstMonth(s, c, dt);
    MatchStep(Lit(c), [Month] + ([Lit(c)] + ([Year] + TimePieces)), s, 2, Cand(0, 1),
      ([dt.month] + ([0] + ([dt.year] + [0, dt.hour, 0, dt.minute])), 16));
  }

  /** A day-first rendering matches field by field. */
  lemma MatchDayFirst(s: string, c: char, dt: DateTime)
    requires DayFirstLaid(s, c, dt)
    ensures Match([Day, Lit(c), Month, Lit(c), Year] + TimePieces, s, 0)
      == Some(([dt.day, 0, dt.month, 0, dt.year, 0, dt.hour, 0, dt.minute], 16))
  {
    MatchDayFirstSep(s, c, dt);
    var p4 := [Lit(c)] + ([Month] + ([Lit(c)] + ([Year] + TimePieces)));
    var v4 := [0] + ([dt.month] + ([0] + ([dt.year] + [0, dt.hour, 0, dt.minute])));
    MatchStep(Day, p4, s, 0, Cand(dt.day, 2), (v4, 16));
    assert [Day] + p4 == [Day, Lit(c), Month, Lit(c), Year] + TimePieces;
    assert [dt.day] + v4 == [dt.day, 0, dt.month, 0, dt.year, 0, dt.hour, 0, dt.minute];
  }

  /** The day and time of a year-first rendering match. */
  lemma MatchYearFirstDay(s: string, c: char, dt: DateTime)
    requires YearFirstLaid(s, c, dt)
    ensures Match([Day] + TimePieces, s, 8) == Some(([dt.day] + [0, dt.hour, 0, dt.minute], 16))
  {
    MatchTime(s, dt.hour, dt.minute);
    MatchStep(Day, TimePieces, s, 8, Cand(dt.day, 2), ([0, dt.hour, 0, dt.minute], 16));
  }

  /** From the second separator of a year-first rendering on. */
  lemma MatchYearFirstTail(s: string, c: char, dt: DateTime)
    requires YearFirstLaid(s, c, dt)
    ensures Match([Lit(c)] + ([Day] + TimePieces), s, 7)
      == Some(([0] + ([dt.day] + [0, dt.hour, 0, dt.minute]), 16))
  {
    MatchYearFirstDay(s, c, dt);
    MatchStep(Lit(c), [Day] + TimePieces, s, 7, Cand(0, 1), ([dt.day] + [0, dt.hour, 0, dt.minute], 16));
  }

  /** From the month of a year-first rendering on. */
  lemma MatchYearFirstMonth(s: string, c: char, dt: DateTime)
    requires YearFirstLaid(s, c, dt)
    ensures Match([Month] + ([Lit(c)] + ([Day] + TimePieces)), s, 5)
      == Some(([dt.month] + ([0] + ([dt.day] + [0, dt.hour, 0, dt.minute])), 16))
  {
    MatchYearFirstTail(s, c, dt);
    MatchStep(Month, [Lit(c)] + ([Day] + TimePieces), s, 5, Cand(dt.month, 2),
      ([0] + ([dt.day] + [0, dt.hour, 0, dt.minute]), 16));
  }

  /** From the first separator of a year-first rendering on. */
  lemma MatchYearFirstSep(s: string, c: char, dt: DateTime)
    requires YearFirstLaid(s, c, dt)
    ensures Match([Lit(c)] + ([Month] + ([Lit(c)] + ([Day] + TimePieces))), s, 4)
      == Some(([0] + ([dt.month] + ([0] + ([dt.day] + [0, dt.hour, 0, dt.minute]))), 16))
  {
    MatchYearFirstMonth(s, c, dt);
    MatchStep(Lit(c), [Month] + ([Lit(c)] + ([Day] + TimePieces)), s, 4, Cand(0, 1),
      ([dt.month] + ([0] + ([dt.day] + [0, dt.hour, 0, dt.minute])), 16));
  }

  /** A year-first rendering matches field by field. */
  lemma MatchYearFirst(s: string, c: char, dt: DateTime)
    requires YearFirstLaid(s, c, dt)
    ensures Match([Year, Lit(c), Month, Lit(c), Day] + TimePieces, s, 0)
      == Some(([dt.year, 0, dt.month, 0, dt.day, 0, dt.hour, 0, dt.minute], 16))
  {
    MatchYearFirstSep(s, c, dt);
    var p4 := [Lit(c)] + ([Month] + ([Lit(c)] + ([Day] + TimePieces)));
    var v4 := [0] + ([dt.month] + ([0] + ([dt.day] + [0, dt.hour, 0, dt.minute])));
    MatchStep(Year, p4, s, 0, Cand(dt.year, 4), (v4, 16));
    assert [Year] + p4 == [Year, Lit(c), Month, Lit(c), Day] + TimePieces;
    assert [dt.year] + v4 == [dt.year, 0, dt.month, 0, dt.day, 0, dt.hour, 0, dt.minute];
  }

  /** A rendering matches its own format's pattern, yielding its fields. */
  lemma MatchRendered(f: Format, dt: DateTime)
    requires ValidDateTime(dt)
    ensures Match(Pieces(f), Render(f, dt), 0).Some?
    ensures Match(Pieces(f), Render(f, dt), 0).value == (
      if DayFirst(f) then [dt.day, 0, dt.month, 0, dt.year, 0, dt.hour, 0, dt.minute]
      else [dt.year, 0, dt.month, 0, dt.day, 0, dt.hour, 0, dt.minute], 16)
  {
    RenderedLaid(f, dt);
    if DayFirst(f) {
      MatchDayFirst(Render(f, dt), Separator(f), dt);
    } else {
      MatchYearFirst(Render(f, dt), Separator(f), dt);
    }
  }

  /** A rendering parses back under its own format. */
  lemma StrptimeRendered(f: Format, dt: DateTime)
    requires ValidDateTime(dt)
    ensures Strptime(Render(f, dt), f) == Some(dt)
  {
    MatchRendered(f, dt);
  }

  /** A day-first format cannot match when neither the second nor the third
      character is its separator (and the first is not a blank). */
  lemma DayLeadFails(f: Format, s: string)
    requires DayFirst(f)
    requires |s| >= 3 && s[0] != ' ' && s[1] != Separator(f) && s[2] != Separator(f)
    ensures Match(Pieces(f), s, 0) == None
  {
    var ps := Pieces(f);
    var cs := Candidates(Day, s, 0);
    assert BlankDigit(s, 0) == [];
    forall k | 0 <= k < |cs|
      ensures Match(ps[1..], s, cs[k].len) == None
    {
      assert cs[k].len == 1 || cs[k].len == 2;
      assert ps[1..][0] == Lit(Separator(f));
      LitFails(ps[1..], s, cs[k].len);
    }
    TryAllFail(ps, s, 0, cs);
  }

  /** A year-first format cannot match when the fifth character is not its separator. */
  lemma YearLeadFails(f: Format, s: string)
    requires !DayFirst(f)
    requires |s| >= 5 && s[4] != Separator(f)
    ensures Match(Pieces(f), s, 0) == None
  {
    var ps := Pieces(f);
    var cs := Candidates(Year, s, 0);
    forall k | 0 <= k < |cs|
      ensures Match(ps[1..], s, cs[k].len) == None
    {
      assert ps[1..][0] == Lit(Separator(f));
      LitFails(ps[1..], s, 4);
    }
    TryAllFail(ps, s, 0, cs);
  }

  function IndexOf(f: Format): (k: nat)
    ensures k < |Formats| && Formats[k] == f
  {
    match f
    case DotDayFirst => 0
    case DotYearFirst => 1
    case DashDayFirst => 2
    case DashYearFirst => 3
  }

  /** Round trip: a date-time written in any of the four formats parses back
      to itself (the formats tried before it all fail on it). */
  lemma RoundTrip(f: Format, dt: DateTime)
    requires ValidDateTime(dt)
    ensures ParseLikeDatetime(Render(f, dt)) == Ok(dt)
  {
    var s := Render(f, dt);
    StrptimeRendered(f, dt);
    EarlierFormatsFail(f, dt);
    FirstFormatWins(s, IndexOf(f), dt);
  }

  /** The formats tried before `f` all fail on a rendering in `f`. */
  lemma EarlierFormatsFail(f: Format, dt: DateTime)
    requires ValidDateTime(dt)
    ensures forall j :: 0 <= j < IndexOf(f) ==> Strptime(Render(f, dt), Formats[j]) == None
  {
    if f != DotDayFirst {
      DotDayFirstFails(f, dt);
    }
    if f == DashDayFirst || f == DashYearFirst {
      DotYearFirstFails(f, dt);
    }
    if f == DashYearFirst {
      DashDayFirstFails(dt);
    }
  }

  /** Only a dotted day-first rendering has a dot third. */
  lemma DotDayFirstFails(f: Format, dt: DateTime)
    requires ValidDateTime(dt) && f != DotDayFirst
    ensures Strptime(Render(f, dt), DotDayFirst) == None
  {
    var s := Render(f, dt);
    assert IsDigit(s[0]) && IsDigit(s[1]);
    if f == DashDayFirst {
      assert s[2] == '-';
    } else {
      assert IsDigit(s[2]);
    }
    DayLeadFails(DotDayFirst, s);
  }

  /** A dashed rendering has no dot fifth. */
  lemma DotYearFirstFails(f: Format, dt: DateTime)
    requires ValidDateTime(dt) && (f == DashDayFirst || f == DashYearFirst)
    ensures Strptime(Render(f, dt), DotYearFirst) == None
  {
    var s := Render(f, dt);
    if f == DashDayFirst {
      assert s[2] == '-';
      assert FourDigits(s, 0) == [];
      assert Candidates(Year, s, 0) == [];
    } else {
      assert s[4] == '-';
    }
    YearLeadFails(DotYearFirst, s);
  }

  /** A dashed year-first rendering starts with four digits. */
  lemma DashDayFirstFails(dt: DateTime)
    requires ValidDateTime(dt)
    ensures Strptime(Render(DashYearFirst, dt), DashDayFirst) == None
  {
    var s := Render(DashYearFirst, dt);
    assert IsDigit(s[0]) && IsDigit(s[1]) && IsDigit(s[2]);
    DayLeadFails(DashDayFirst, s);
  }

  /** The first format that parses gives the result. */
  lemma FirstFormatWins(s: string, k: nat, dt: DateTime)
    requires k < |Formats| && Strptime(s, Formats[k]) == Some(dt)
    requires forall j :: 0 <= j < k ==> Strptime(s, Formats[j]) == None
    ensures ParseLikeDatetime(s) == Ok(dt)
  {
    var r := ParseLikeDatetime(s);
    var j :| 0 <= j < |Formats| && FirstParse(s, 0, j) && Strptime(s, Formats[j]) == Some(r.value);
    assert j == k;
  }

  /** The same date and time written in any two of the formats parse to the same value. */
  lemma SameValueInAnyFormat(f: Format, g: Format, dt: DateTime)
    requires ValidDateTime(dt)
    ensures ParseLikeDatetime(Render(f, dt)) == ParseLikeDatetime(Render(g, dt))
  {
    RoundTrip(f, dt);
    RoundTrip(g, dt);
  }

  // ---- what an accepted string looks like ----

  /** The only literals of a format are its separator and `:`. */
  lemma PieceLiterals(f: Format)
    ensures Pieces(f)[7] == Lit(':')
    ensures forall c :: Lit(c) in Pieces(f) ==> c == Separator(f) || c == ':'
  {
  }

  /** A string a format accepts is made of digits, whitespace, the format's
      separator and `:`, and contains a `:`. */
  lemma StrptimeShape(s: string, f: Format)
    requires Strptime(s, f).Some?
    ensures ':' in s
    ensures forall c :: c in s ==> IsDigit(c) || IsSpace(c) || c == Separator(f) || c == ':'
    ensures !('.' in s && '-' in s)
  {
    var ps := Pieces(f);
    var m := Match(ps, s, 0).value;
    assert m.1 == |s|;
    MatchSound(ps, s, 0);
    PieceLiterals(f);
    assert s[0..|s|] == s;
    assert ps[7].c in s[0..m.1];
    forall c | c in s
      ensures IsDigit(c) || IsSpace(c) || c == Separator(f) || c == ':'
    {
      var j :| 0 <= j < |s| && s[j] == c;
      assert IsDigit(s[j]) || IsSpace(s[j]) || Lit(s[j]) in ps;
    }
  }

  /** Has a `:`, uses one date separator only, and has no character other
      than digits, whitespace, `.`, `-` and `:`. */
  ghost predicate DateShaped(s: string) {
    && ':' in s
    && (forall c :: c in s ==> IsDigit(c) || IsSpace(c) || c == '.' || c == '-' || c == ':')
    && !('.' in s && '-' in s)
  }

  /** Every string the parser accepts is date-shaped. */
  lemma AcceptedShape(s: string)
    requires ParseLikeDatetime(s).Ok?
    ensures DateShaped(s)
  {
    var k :| 0 <= k < |Formats| && Strptime(s, Formats[k]).Some?;
    var f := Formats[k];
    StrptimeShape(s, f);
    assert Separator(f) == '.' || Separator(f) == '-';
  }

  /** Inputs with a `/`, with no time, or mixing `.` and `-` are rejected. */
  lemma RejectedShapes(s: string)
    requires '/' in s || ':' !in s || ('.' in s && '-' in s)
    ensures ParseLikeDatetime(s).Invalid?
  {
    NotDateShaped(s);
    if ParseLikeDatetime(s).Ok? {
      AcceptedShape(s);
    }
  }

  lemma NotDateShaped(s: string)
    requires '/' in s || ':' !in s || ('.' in s && '-' in s)
    ensures !DateShaped(s)
  {
    if '/' in s {
      assert !IsDigit('/') && !IsSpace('/');
    }
  }

  /** The parse error echoes the input and names all four patterns. */
  lemma ParseErrorMentions(s: string)
    ensures Occurs(s, ParseError(s))
    ensures forall f: Format :: Occurs(Pattern(f), ParseError(s))
  {
    var pats := [Pattern(DotDayFirst), Pattern(DotYearFirst), Pattern(DashDayFirst), Pattern(DashYearFirst)];
    var tail := "». Please, use one of this examples: " + Join(" | ", pats);
    assert ParseError(s) == "Cannot parse datetime format «" + s + tail;
    OccursBetween(s, "Cannot parse datetime format «", tail);
    forall f: Format
      ensures Occurs(Pattern(f), ParseError(s))
    {
      var k := IndexOf(f);
      assert pats[k] == Pattern(f);
      JoinMentions(" | ", pats, k);
      OccursInRight(Pattern(f), "Cannot parse datetime format «" + s + "». Please, use one of this examples: ", Join(" | ", pats));
    }
  }

  lemma RenderExamples()
    ensures Render(DotDayFirst, DateTime(2030, 12, 31, 23, 59)) == "31.12.2030 23:59"
    ensures Render(DotYearFirst, DateTime(2030, 12, 31, 23, 59)) == "2030.12.31 23:59"
    ensures Render(DashDayFirst, DateTime(2030, 12, 31, 23, 59)) == "31-12-2030 23:59"
    ensures Render(DashYearFirst, DateTime(2030, 12, 31, 23, 59)) == "2030-12-31 23:59"
  {
    assert Pad2(31) == "31" && Pad2(12) == "12" && Pad2(23) == "23" && Pad2(59) == "59";
    assert Pad2(20) == "20" && Pad2(30) == "30";
    assert Pad4(2030) == "2030";
  }

  /** The documented spellings of 31 December 2030, 23:59, all parse to it. */
  lemma DocumentedExamples()
    ensures ParseLikeDatetime("31.12.2030 23:59") == Ok(DateTime(2030, 12, 31, 23, 59))
    ensures ParseLikeDatetime("2030.12.31 23:59") == Ok(DateTime(2030, 12, 31, 23, 59))
    ensures ParseLikeDatetime("31-12-2030 23:59") == Ok(DateTime(2030, 12, 31, 23, 59))
    ensures ParseLikeDatetime("2030-12-31 23:59") == Ok(DateTime(2030, 12, 31, 23, 59))
  {
    var dt := DateTime(2030, 12, 31, 23, 59);
    RenderExamples();
    RoundTrip(DotDayFirst, dt);
    RoundTrip(DotYearFirst, dt);
    RoundTrip(DashDayFirst, dt);
    RoundTrip(DashYearFirst, dt);
  }

  /** A slash-separated spelling of the same moment is rejected. */
  lemma SlashRejected()
    ensures ParseLikeDatetime("2030/12/31 23:59").Invalid?
  {
    var bad := "2030/12/31 23:59";
    assert bad[4] == '/';
    RejectedShapes(bad);
  }
}
