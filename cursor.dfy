/**
 * The pagination cursor of src/xrpc/cursor.ts: `createCursor` renders a feed
 * item as `createdAt::cid+rowid`, `cursorPattern` is the regular expression
 * `/(^$|^(\d+)::(\w+)\+(\d+))$/` the query validator checks, and
 * `parseCursor` matches that pattern and converts the two digit groups to
 * numbers.
 */
module CursorCodec {
  import opened Wrappers
  import opened FeedItems

  /** A parsed cursor: the boundary of the previously returned page. */
  datatype Cursor = Cursor(time: int, cid: string, rowid: int)

  // ---------------------------------------------------------------------
  // Character classes of the pattern
  // ---------------------------------------------------------------------

  /** `\d` */
  predicate IsDigit(c: char) { '0' <= c <= '9' }

  /** `\w`: ASCII letters, digits and underscore. */
  predicate IsWordChar(c: char) { 'a' <= c <= 'z' || 'A' <= c <= 'Z' || IsDigit(c) || c == '_' }

  predicate AllDigits(s: string) { forall i :: 0 <= i < |s| ==> IsDigit(s[i]) }

  predicate AllWordChars(s: string) { forall i :: 0 <= i < |s| ==> IsWordChar(s[i]) }

  // ---------------------------------------------------------------------
  // Rendering numbers (JavaScript's `${n}` for integers below 10^21)
  // ---------------------------------------------------------------------

  function DigitChar(d: nat): char
    requires d < 10
  {
    ('0' as int + d) as char
  }

  /** Decimal digits of `n`, most significant first, without leading zeros. */
  function NatToString(n: nat): (s: string)
    ensures |s| > 0 && AllDigits(s)
    // no leading zero: only 0 itself starts with `0`
    ensures s[0] == '0' <==> n == 0
    ensures |s| > 1 ==> s[0] != '0'
  {
    if n < 10 then [DigitChar(n)] else NatToString(n / 10) + [DigitChar(n % 10)]
  }

  /** A JavaScript integer as `${n}` shows it: a minus sign before negatives. */
  function IntToString(i: int): (s: string)
    ensures |s| > 0
    ensures s[0] == '-' <==> i < 0
    ensures i >= 0 ==> AllDigits(s) && DigitsValue(s) == i
  {
    if i < 0 then "-" + NatToString(-i)
    else
      DigitsValueOfNatToString(i);
      NatToString(i)
  }

  /** The value of a digit string, as unary `+` computes it. */
  function DigitsValue(s: string): (v: nat)
    requires AllDigits(s)
    ensures s != [] && s[0] != '0' ==> v > 0
  {
    if s == [] then 0
    else
      var init := s[..|s| - 1];
      assert init != [] ==> init[0] == s[0];
      10 * DigitsValue(init) + (s[|s| - 1] as int - '0' as int)
  }

  /** Rendering and reading back a natural number are inverse. */
  lemma {:induction false} DigitsValueOfNatToString(n: nat)
    ensures DigitsValue(NatToString(n)) == n
  {
    if n >= 10 {
      var s := NatToString(n / 10);
      DigitsValueOfNatToString(n / 10);
      assert (s + [DigitChar(n % 10)])[..|s|] == s;
    }
  }

  // ---------------------------------------------------------------------
  // createCursor
  // ---------------------------------------------------------------------

  /** `createCursor`: no cursor for no item, otherwise `createdAt::cid+rowid`. */
  function CreateCursor(item: Option<FeedItem>): (text: Option<string>)
    ensures item.None? <==> text.None?
    ensures item.Some? ==>
      text.value == IntToString(item.value.createdAt) + "::" + item.value.cid + "+" + IntToString(item.value.rowid)
  {
    match item
    case None => None
    case Some(it) => Some(IntToString(it.createdAt) + "::" + it.cid + "+" + IntToString(it.rowid))
  }

  // ---------------------------------------------------------------------
  // cursorPattern
  // ---------------------------------------------------------------------

  /** Length of the longest prefix of `s` made of `\d`. */
  function DigitRun(s: string): (k: nat)
    ensures k <= |s| && AllDigits(s[..k])
    ensures k < |s| ==> !IsDigit(s[k])
  {
    if s == [] || !IsDigit(s[0]) then 0
    else
      var k := 1 + DigitRun(s[1..]);
      assert forall i :: 1 <= i < k ==> s[..k][i] == s[1..][..k - 1][i - 1];
      k
  }

  /** Length of the longest prefix of `s` made of `\w`. */
  function WordRun(s: string): (k: nat)
    ensures k <= |s| && AllWordChars(s[..k])
    ensures k < |s| ==> !IsWordChar(s[k])
  {
    if s == [] || !IsWordChar(s[0]) then 0
    else
      var k := 1 + WordRun(s[1..]);
      assert forall i :: 1 <= i < k ==> s[..k][i] == s[1..][..k - 1][i - 1];
      k
  }

  /** What a successful match of `cursorPattern` captured. */
  datatype PatternMatch =
    | EmptyText                                            // the `^$` alternative
    | Groups(time: string, cid: string, rowid: string)      // `^(\d+)::(\w+)\+(\d+)$`

  /** Capture group 1 (`matched`): the whole matched text. */
  function Matched(m: PatternMatch): string {
    match m
    case EmptyText => ""
    case Groups(t, c, r) => t + "::" + c + "+" + r
  }

  /** The three groups of the second alternative obey their character classes. */
  predicate WellFormedGroups(t: string, c: string, r: string) {
    |t| > 0 && AllDigits(t) && |c| > 0 && AllWordChars(c) && |r| > 0 && AllDigits(r)
  }

  /**
   * `text.match(cursorPattern)`. Each group is followed by a character its
   * class excludes (`:` after `\d+`, `+` after `\w+`, the end after the last
   * `\d+`), so the greedy runs are the only way to match.
   */
  function MatchCursorPattern(text: string): (r: Option<PatternMatch>)
    ensures r == Some(EmptyText) <==> text == ""
    ensures r.Some? && r.value.Groups? ==> WellFormedGroups(r.value.time, r.value.cid, r.value.rowid)
  {
    if text == "" then Some(EmptyText)
    else
      var i := DigitRun(text);
      if i == 0 || |text| < i + 2 || text[i] != ':' || text[i + 1] != ':' then None
      else
        var rest := text[i + 2..];
        var j := WordRun(rest);
        if j == 0 || j == |rest| || rest[j] != '+' then None
        else
          var digits := rest[j + 1..];
          if digits == [] || !AllDigits(digits) then None
          else Some(Groups(text[..i], rest[..j], digits))
  }

  /** Every match is a full match whose groups obey the pattern's classes. */
  lemma MatchSound(text: string)
    requires MatchCursorPattern(text).Some?
    ensures Matched(MatchCursorPattern(text).value) == text
    ensures MatchCursorPattern(text).value.Groups? ==>
      var m := MatchCursorPattern(text).value;
      WellFormedGroups(m.time, m.cid, m.rowid)
  {
    if text != "" {
      var i := DigitRun(text);
      var rest := text[i + 2..];
      var j := WordRun(rest);
      var m := MatchCursorPattern(text).value;
      assert m == Groups(text[..i], rest[..j], rest[j + 1..]);
      calc {
        Matched(m);
        text[..i] + "::" + rest[..j] + "+" + rest[j + 1..];
        { assert rest == rest[..j] + "+" + rest[j + 1..]; }
        text[..i] + "::" + rest;
        { assert text == text[..i] + "::" + text[i + 2..]; }
        text;
      }
    }
  }

  /** Every text of the shape `digits::word+digits` matches, with exactly those groups. */
  lemma {:induction false} MatchComplete(t: string, c: string, r: string)
    requires WellFormedGroups(t, c, r)
    ensures MatchCursorPattern(t + "::" + c + "+" + r) == Some(Groups(t, c, r))
  {
    var text := t + "::" + c + "+" + r;
    DigitRunStopsAt(t, "::" + c + "+" + r);
    assert text == t + ("::" + c + "+" + r);
    var rest := text[|t| + 2..];
    assert rest == c + ("+" + r);
    WordRunStopsAt(c, "+" + r);
    assert rest[|c| + 1..] == r;
  }

  lemma {:induction false} DigitRunStopsAt(t: string, u: string)
    requires AllDigits(t) && u != [] && !IsDigit(u[0])
    ensures DigitRun(t + u) == |t|
  {
    if t != [] {
      assert (t + u)[1..] == t[1..] + u;
      DigitRunStopsAt(t[1..], u);
    }
  }

  lemma {:induction false} WordRunStopsAt(c: string, u: string)
    requires AllWordChars(c) && u != [] && !IsWordChar(u[0])
    ensures WordRun(c + u) == |c|
  {
    if c != [] {
      assert (c + u)[1..] == c[1..] + u;
      WordRunStopsAt(c[1..], u);
    }
  }

  /** `cursorPattern.test(text)`: what the query validator accepts. */
  predicate MatchesCursorPattern(text: string) {
    MatchCursorPattern(text).Some?
  }

  // ---------------------------------------------------------------------
  // parseCursor
  // ---------------------------------------------------------------------

  /** `parseCursor`: no cursor unless group 1 matched something non-empty. */
  function ParseCursor(text: string): (r: Option<Cursor>)
    ensures text == "" ==> r.None?
    ensures r.Some? ==> r.value.time >= 0 && r.value.rowid >= 0 && |r.value.cid| > 0 && AllWordChars(r.value.cid)
  {
    match MatchCursorPattern(text)
    case None => None
    case Some(m) =>
      if Matched(m) == "" then None
      else
        assert m.Groups?;
        MatchSound(text);
        Some(Cursor(DigitsValue(m.time), m.cid, DigitsValue(m.rowid)))
  }

  /** The empty text passes the validator's pattern, yet parses to no cursor. */
  lemma EmptyTextMatchesButDoesNotParse()
    ensures MatchesCursorPattern("") && ParseCursor("") == None
  {
  }

  /**
   * A text parses exactly when it is `digits::word+digits`; then `time` and
   * `rowid` are the decimal values of the digit groups (so never negative).
   */
  lemma ParseCursorCharacterized(text: string)
    ensures ParseCursor(text).Some? <==> text != "" && MatchesCursorPattern(text)
    ensures ParseCursor(text).Some? ==>
      var m := MatchCursorPattern(text).value;
      && m.Groups? && text == m.time + "::" + m.cid + "+" + m.rowid
      && WellFormedGroups(m.time, m.cid, m.rowid)
      && ParseCursor(text).value == Cursor(DigitsValue(m.time), m.cid, DigitsValue(m.rowid))
      && ParseCursor(text).value.time >= 0 && ParseCursor(text).value.rowid >= 0
  {
    if MatchesCursorPattern(text) {
      MatchSound(text);
    }
  }

  /** The cursor a page ends with reads back as the item's (time, cid, rowid). */
  lemma RoundTrip(item: FeedItem)
    requires item.createdAt >= 0 && item.rowid >= 0
    requires |item.cid| > 0 && AllWordChars(item.cid)
    ensures ParseCursor(CreateCursor(Some(item)).value) == Some(Cursor(item.createdAt, item.cid, item.rowid))
  {
    var t, r := NatToString(item.createdAt), NatToString(item.rowid);
    MatchComplete(t, item.cid, r);
    DigitsValueOfNatToString(item.createdAt);
    DigitsValueOfNatToString(item.rowid);
  }

  /** Every cursor the feed emits (under the same conditions) passes the validator. */
  lemma CreatedCursorMatchesPattern(item: FeedItem)
    requires item.createdAt >= 0 && item.rowid >= 0
    requires |item.cid| > 0 && AllWordChars(item.cid)
    ensures MatchesCursorPattern(CreateCursor(Some(item)).value)
  {
    MatchComplete(NatToString(item.createdAt), item.cid, NatToString(item.rowid));
  }

  /** A negative timestamp renders with a minus sign, which the pattern rejects. */
  lemma NegativeTimeDoesNotParse(item: FeedItem)
    requires item.createdAt < 0
    ensures ParseCursor(CreateCursor(Some(item)).value) == None
  {
    var text := CreateCursor(Some(item)).value;
    assert text[0] == '-';
    assert DigitRun(text) == 0;
  }
}
