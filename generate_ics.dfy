/** The single-event iCalendar encoder of lib/generateIcs.ts: the TEXT
    escaping of RFC 5545 (section 3.3.11), the UTC DATE-TIME rendering
    (section 3.3.5), the fixed line layout joined with CRLF (section 3.1),
    and the default download file name. A reader for the produced text is
    defined beside it so that the encoding can be stated as invertible. */
module Ics {
  import opened JsString

  // ---------------------------------------------------------------------
  // Dates and decimal digits
  // ---------------------------------------------------------------------

  /** The UTC calendar fields of a JavaScript `Date`, as `toISOString`
      reads them. */
  datatype DateTime = DateTime(year: nat, month: nat, day: nat,
                               hour: nat, minute: nat, second: nat, millisecond: nat)

  /** The ranges a `Date` in years 0..9999 decomposes into. */
  predicate ValidDateTime(d: DateTime) {
    d.year <= 9999 && 1 <= d.month <= 12 && 1 <= d.day <= 31
    && d.hour <= 23 && d.minute <= 59 && d.second <= 59 && d.millisecond <= 999
  }

  predicate IsDigit(c: char) {
    '0' <= c <= '9'
  }

  predicate AllDigits(s: string) {
    forall k :: 0 <= k < |s| ==> IsDigit(s[k])
  }

  function DigitChar(n: nat): (c: char)
    requires n < 10
    ensures IsDigit(c) && c as int - '0' as int == n
  {
    ('0' as int + n) as char
  }

  function Pow10(width: nat): (p: nat)
    ensures p >= 1
  {
    if width == 0 then 1 else 10 * Pow10(width - 1)
  }

  /** `n` in exactly `width` decimal digits, zero-padded on the left
      (the padding `toISOString` applies to each field). */
  function Pad(n: nat, width: nat): (r: string)
    ensures |r| == width && AllDigits(r)
  {
    if width == 0 then [] else Pad(n / 10, width - 1) + [DigitChar(n % 10)]
  }

  /** The value of a string of decimal digits, most significant first. */
  function DigitsValue(s: string): (v: nat)
    requires AllDigits(s)
    ensures v < Pow10(|s|)
  {
    if s == [] then 0
    else DigitsValue(s[..|s| - 1]) * 10 + (s[|s| - 1] as int - '0' as int)
  }

  lemma {:induction false} PadValue(n: nat, width: nat)
    requires n < Pow10(width)
    ensures DigitsValue(Pad(n, width)) == n
  {
    if width > 0 {
      PadValue(n / 10, width - 1);
      var p := Pad(n, width);
      assert p[..|p| - 1] == Pad(n / 10, width - 1);
    }
  }

  /** The decimal rendering of a non-negative integer `Number`, as the
      template literal `${Date.now()}` produces it. */
  function Decimal(n: nat): (r: string)
    ensures |r| > 0 && AllDigits(r)
  {
    if n < 10 then [DigitChar(n)] else Decimal(n / 10) + [DigitChar(n % 10)]
  }

  lemma {:induction false} DecimalValue(n: nat)
    ensures DigitsValue(Decimal(n)) == n
  {
    if n >= 10 {
      DecimalValue(n / 10);
      var r := Decimal(n);
      assert r[..|r| - 1] == Decimal(n / 10);
    }
  }

  // ---------------------------------------------------------------------
  // formatDate
  // ---------------------------------------------------------------------

  /** `date.toISOString()`: YYYY-MM-DDTHH:mm:ss.sssZ. */
  function IsoString(d: DateTime): (iso: string)
    requires ValidDateTime(d)
    ensures |iso| == 24
  {
    Pad(d.year, 4) + ("-" + (Pad(d.month, 2) + ("-" + (Pad(d.day, 2) + ("T"
    + (Pad(d.hour, 2) + (":" + (Pad(d.minute, 2) + (":" + (Pad(d.second, 2)
    + ("." + (Pad(d.millisecond, 3) + "Z"))))))))))))
  }

  /** `formatDate`: the ISO string with every `-` and `:` removed, cut at the
      first `.`, and `Z` appended. */
  function FormatDate(d: DateTime): (r: string)
    requires ValidDateTime(d)
    ensures r == UtcDateTimeForm(d)
  {
    FormatDateLayout(d);
    BeforeFirst(RemoveAll(IsoString(d), DateSeparators), '.') + "Z"
  }

  /** The UTC form of the DATE-TIME value of RFC 5545 (section 3.3.5):
      YYYYMMDD, a `T`, HHMMSS, a `Z`. */
  function UtcDateTimeForm(d: DateTime): (r: string)
    requires ValidDateTime(d)
    ensures |r| == 16 && r[8] == 'T' && r[15] == 'Z'
    ensures AllDigits(r[..8]) && AllDigits(r[9..15])
  {
    var r := Pad(d.year, 4) + (Pad(d.month, 2) + (Pad(d.day, 2) + ("T"
             + (Pad(d.hour, 2) + (Pad(d.minute, 2) + (Pad(d.second, 2) + "Z"))))));
    assert r[..8] == Pad(d.year, 4) + Pad(d.month, 2) + Pad(d.day, 2);
    assert r[9..15] == Pad(d.hour, 2) + Pad(d.minute, 2) + Pad(d.second, 2);
    r
  }

  /** Reads a UTC DATE-TIME back into its fields (milliseconds are zero). */
  function ParseDateTime(s: string): (r: Option<DateTime>)
    ensures r.Some? ==> r.value.millisecond == 0
  {
    if && |s| == 16 && s[8] == 'T' && s[15] == 'Z'
       && AllDigits(s[0..4]) && AllDigits(s[4..6]) && AllDigits(s[6..8])
       && AllDigits(s[9..11]) && AllDigits(s[11..13]) && AllDigits(s[13..15])
    then
      Some(DateTime(DigitsValue(s[0..4]), DigitsValue(s[4..6]), DigitsValue(s[6..8]),
                    DigitsValue(s[9..11]), DigitsValue(s[11..13]), DigitsValue(s[13..15]), 0))
    else None
  }

  /** The characters the pattern `/[-:]/g` of `formatDate` removes. */
  const DateSeparators: set<char> := {'-', ':'}

  lemma DigitsHaveNoPunctuation(p: string)
    requires AllDigits(p)
    ensures '-' !in p && ':' !in p && '.' !in p
  {
    assert forall k :: 0 <= k < |p| ==> p[k] != '-' && p[k] != ':' && p[k] != '.';
  }

  /** Removing the separators keeps a run that holds none of them. */
  lemma KeepRun(p: string, rest: string)
    requires '-' !in p && ':' !in p
    ensures RemoveAll(p + rest, DateSeparators) == p + RemoveAll(rest, DateSeparators)
  {
    RemoveAllConcat(p, rest, DateSeparators);
    RemoveAllNone(p, DateSeparators);
  }

  /** Removing the separators drops a leading separator. */
  lemma DropSeparator(c: char, rest: string)
    requires c in DateSeparators
    ensures RemoveAll([c] + rest, DateSeparators) == RemoveAll(rest, DateSeparators)
  {
    assert ([c] + rest)[1..] == rest;
  }

  /** Concatenation regroups freely; stated once so that each regrouping is
      a separate small proof. */
  lemma AppendAssoc(a: string, b: string, c: string)
    ensures (a + b) + c == a + (b + c)
  {
  }

  /** Seven digit runs laid out as `toISOString` lays out its fields. */
  function SeparatedFields(y: string, mo: string, da: string, h: string, mi: string, se: string, ms: string): string {
    y + ("-" + (mo + ("-" + (da + ("T" + (h + (":" + (mi + (":" + (se + ("." + (ms + "Z"))))))))))))
  }

  /** The same runs with the `-` and `:` separators left out. */
  function JoinedFields(y: string, mo: string, da: string, h: string, mi: string, se: string, ms: string): string {
    y + (mo + (da + ("T" + (h + (mi + (se + ("." + (ms + "Z"))))))))
  }

  lemma RemoveSeparatorsBetween(y: string, mo: string, da: string, h: string, mi: string, se: string, ms: string)
    requires '-' !in y && ':' !in y && '-' !in mo && ':' !in mo && '-' !in da && ':' !in da
    requires '-' !in h && ':' !in h && '-' !in mi && ':' !in mi && '-' !in se && ':' !in se
    requires '-' !in ms && ':' !in ms
    ensures RemoveAll(SeparatedFields(y, mo, da, h, mi, se, ms), DateSeparators)
            == JoinedFields(y, mo, da, h, mi, se, ms)
  {
    var u11 := "." + (ms + "Z");
    assert RemoveAll(u11, DateSeparators) == u11 by {
      KeepRun(".", ms + "Z");
      KeepRun(ms, "Z");
      KeepRun("Z", []);
      assert "Z" + [] == "Z";
    }
    var u10 := se + u11;
    assert RemoveAll(":" + u10, DateSeparators) == u10 by {
      KeepRun(se, u11);
      DropSeparator(':', u10);
    }
    var u8 := mi + u10;
    assert RemoveAll(":" + (mi + (":" + u10)), DateSeparators) == u8 by {
      KeepRun(mi, ":" + u10);
      DropSeparator(':', mi + (":" + u10));
    }
    var t5 := "T" + (h + (":" + (mi + (":" + u10))));
    var u5 := "T" + (h + u8);
    assert RemoveAll(t5, DateSeparators) == u5 by {
      KeepRun(h, ":" + (mi + (":" + u10)));
      KeepRun("T", h + (":" + (mi + (":" + u10))));
    }
    var u2 := mo + (da + u5);
    assert RemoveAll("-" + (mo + ("-" + (da + t5))), DateSeparators) == u2 by {
      KeepRun(da, t5);
      DropSeparator('-', da + t5);
      KeepRun(mo, "-" + (da + t5));
      DropSeparator('-', mo + ("-" + (da + t5)));
    }
    KeepRun(y, "-" + (mo + ("-" + (da + t5))));
    assert SeparatedFields(y, mo, da, h, mi, se, ms) == y + ("-" + (mo + ("-" + (da + t5))));
    assert JoinedFields(y, mo, da, h, mi, se, ms) == y + u2;
  }

  /** The first step of `formatDate`: the ISO string without `-` and `:`. */
  lemma RemoveIsoSeparators(d: DateTime)
    requires ValidDateTime(d)
    ensures RemoveAll(IsoString(d), DateSeparators)
            == JoinedFields(Pad(d.year, 4), Pad(d.month, 2), Pad(d.day, 2),
                            Pad(d.hour, 2), Pad(d.minute, 2), Pad(d.second, 2), Pad(d.millisecond, 3))
  {
    var y, mo, da := Pad(d.year, 4), Pad(d.month, 2), Pad(d.day, 2);
    var h, mi, se, ms := Pad(d.hour, 2), Pad(d.minute, 2), Pad(d.second, 2), Pad(d.millisecond, 3);
    DigitsHaveNoPunctuation(y); DigitsHaveNoPunctuation(mo); DigitsHaveNoPunctuation(da);
    DigitsHaveNoPunctuation(h); DigitsHaveNoPunctuation(mi); DigitsHaveNoPunctuation(se);
    DigitsHaveNoPunctuation(ms);
    assert IsoString(d) == SeparatedFields(y, mo, da, h, mi, se, ms);
    RemoveSeparatorsBetween(y, mo, da, h, mi, se, ms);
  }

  /** The `replace`/`split` chain of `formatDate` yields exactly the UTC
      DATE-TIME form: milliseconds and separators gone, `T` kept, `Z` added. */
  lemma FormatDateLayout(d: DateTime)
    requires ValidDateTime(d)
    ensures BeforeFirst(RemoveAll(IsoString(d), DateSeparators), '.') + "Z" == UtcDateTimeForm(d)
  {
    var y, mo, da := Pad(d.year, 4), Pad(d.month, 2), Pad(d.day, 2);
    var h, mi, se, ms := Pad(d.hour, 2), Pad(d.minute, 2), Pad(d.second, 2), Pad(d.millisecond, 3);
    DigitsHaveNoPunctuation(y); DigitsHaveNoPunctuation(mo); DigitsHaveNoPunctuation(da);
    DigitsHaveNoPunctuation(h); DigitsHaveNoPunctuation(mi); DigitsHaveNoPunctuation(se);
    RemoveIsoSeparators(d);
    assert JoinedFields(y, mo, da, h, mi, se, ms) == y + (mo + (da + ("T" + (h + (mi + (se + ("." + (ms + "Z"))))))));
    var stem := y + (mo + (da + ("T" + (h + (mi + se)))));
    assert '.' !in stem;
    assert RemoveAll(IsoString(d), DateSeparators) == stem + ("." + (ms + "Z")) by {
      AppendAssoc(mi, se, "." + (ms + "Z"));
      AppendAssoc(h, mi + se, "." + (ms + "Z"));
      AppendAssoc("T", h + (mi + se), "." + (ms + "Z"));
      AppendAssoc(da, "T" + (h + (mi + se)), "." + (ms + "Z"));
      AppendAssoc(mo, da + ("T" + (h + (mi + se))), "." + (ms + "Z"));
      AppendAssoc(y, mo + (da + ("T" + (h + (mi + se)))), "." + (ms + "Z"));
    }
    BeforeFirstStops(stem, '.', ms + "Z");
    assert stem + "Z" == UtcDateTimeForm(d) by {
      AppendAssoc(mi, se, "Z");
      AppendAssoc(h, mi + se, "Z");
      AppendAssoc("T", h + (mi + se), "Z");
      AppendAssoc(da, "T" + (h + (mi + se)), "Z");
      AppendAssoc(mo, da + ("T" + (h + (mi + se))), "Z");
      AppendAssoc(y, mo + (da + ("T" + (h + (mi + se)))), "Z");
    }
  }

  lemma DateTimeFormRoundTrip(d: DateTime)
    requires ValidDateTime(d)
    ensures ParseDateTime(UtcDateTimeForm(d)) == Some(d.(millisecond := 0))
  {
    var s := UtcDateTimeForm(d);
    assert s[0..4] == Pad(d.year, 4);
    assert s[4..6] == Pad(d.month, 2);
    assert s[6..8] == Pad(d.day, 2);
    assert s[9..11] == Pad(d.hour, 2);
    assert s[11..13] == Pad(d.minute, 2);
    assert s[13..15] == Pad(d.second, 2);
    PadValue(d.year, 4); PadValue(d.month, 2); PadValue(d.day, 2);
    PadValue(d.hour, 2); PadValue(d.minute, 2); PadValue(d.second, 2);
  }

  /** Reading back a rendered timestamp recovers every field but the
      milliseconds, which `formatDate` drops. */
  lemma FormatDateRoundTrip(d: DateTime)
    requires ValidDateTime(d)
    ensures |FormatDate(d)| == 16
    ensures ParseDateTime(FormatDate(d)) == Some(d.(millisecond := 0))
  {
    FormatDateLayout(d);
    DateTimeFormRoundTrip(d);
  }

  /** Two dates render alike exactly when they agree to the second. */
  lemma FormatDateInjective(d1: DateTime, d2: DateTime)
    requires ValidDateTime(d1) && ValidDateTime(d2)
    ensures FormatDate(d1) == FormatDate(d2) <==> d1.(millisecond := 0) == d2.(millisecond := 0)
  {
    FormatDateRoundTrip(d1);
    FormatDateRoundTrip(d2);
    FormatDateLayout(d1);
    FormatDateLayout(d2);
  }

  lemma PadExamples()
    ensures Pad(2025, 4) == "2025" && Pad(3, 2) == "03" && Pad(14, 2) == "14"
    ensures Pad(9, 2) == "09" && Pad(5, 2) == "05" && Pad(0, 2) == "00"
  {
    assert Pad(2, 1) == "2" && Pad(20, 2) == "20" && Pad(202, 3) == "202";
  }

  /** The digit runs of the example, glued together one step at a time. */
  lemma DigitRunsExample()
    ensures "2025" + ("03" + ("14" + ("T" + ("09" + ("05" + ("00" + "Z")))))) == "20250314T090500Z"
  {
    assert "00" + "Z" == "00Z";
    assert "05" + "00Z" == "0500Z";
    assert "09" + "0500Z" == "090500Z";
    assert "T" + "090500Z" == "T090500Z";
    assert "14" + "T090500Z" == "14T090500Z";
    assert "03" + "14T090500Z" == "0314T090500Z";
  }

  lemma UtcDateTimeFormExample()
    ensures UtcDateTimeForm(DateTime(2025, 3, 14, 9, 5, 0, 250)) == "20250314T090500Z"
  {
    PadExamples();
    DigitRunsExample();
  }

  /** The worked example: 2025-03-14 09:05:00.250 UTC. */
  lemma FormatDateExample()
    ensures FormatDate(DateTime(2025, 3, 14, 9, 5, 0, 250)) == "20250314T090500Z"
  {
    UtcDateTimeFormExample();
    FormatDateLayout(DateTime(2025, 3, 14, 9, 5, 0, 250));
  }

  // ---------------------------------------------------------------------
  // escapeText
  // ---------------------------------------------------------------------

  /** `escapeText`: backslash, then semicolon, then comma, then line feed,
      each replaced globally by its two-character escape. */
  function EscapeText(text: string): (escaped: string)
    ensures '\n' !in escaped
  {
    ReplaceAll(ReplaceAll(ReplaceAll(ReplaceAll(text, '\\', "\\\\"), ';', "\\;"), ',', "\\,"), '\n', "\\n")
  }

  /** The characters the TEXT value type of RFC 5545 requires escaped. */
  predicate IsTextSpecial(c: char) {
    c == '\\' || c == ';' || c == ',' || c == '\n'
  }

  /** The character written after the backslash for a special character. */
  function EscapeLetter(c: char): char {
    if c == '\n' then 'n' else c
  }

  /** Escaping works character by character: it distributes over concatenation. */
  lemma EscapeTextConcat(a: string, b: string)
    ensures EscapeText(a + b) == EscapeText(a) + EscapeText(b)
  {
    var s1a, s1b := ReplaceAll(a, '\\', "\\\\"), ReplaceAll(b, '\\', "\\\\");
    ReplaceAllConcat(a, b, '\\', "\\\\");
    var s2a, s2b := ReplaceAll(s1a, ';', "\\;"), ReplaceAll(s1b, ';', "\\;");
    ReplaceAllConcat(s1a, s1b, ';', "\\;");
    var s3a, s3b := ReplaceAll(s2a, ',', "\\,"), ReplaceAll(s2b, ',', "\\,");
    ReplaceAllConcat(s2a, s2b, ',', "\\,");
    ReplaceAllConcat(s3a, s3b, '\n', "\\n");
  }

  /** A special character becomes a backslash and its letter; every other
      character, `\r` and `:` among them, passes through unchanged. */
  lemma EscapeTextChar(c: char)
    ensures EscapeText([c]) == if IsTextSpecial(c) then ['\\', EscapeLetter(c)] else [c]
  {
    assert ReplaceAll([c], '\\', "\\\\") == (if c == '\\' then "\\\\" else [c]) + ReplaceAll([], '\\', "\\\\");
    if c == '\\' {
      assert "\\\\"[0] == '\\';
    } else if c == ';' {
      assert ReplaceAll([c], ';', "\\;") == "\\;" + ReplaceAll([], ';', "\\;");
    } else if c == ',' {
      assert ReplaceAll([c], ',', "\\,") == "\\," + ReplaceAll([], ',', "\\,");
    } else if c == '\n' {
      assert ReplaceAll([c], '\n', "\\n") == "\\n" + ReplaceAll([], '\n', "\\n");
    }
  }

  /** The number of characters `escapeText` doubles. */
  function SpecialCount(text: string): nat {
    multiset(text)['\\'] + multiset(text)[';'] + multiset(text)[','] + multiset(text)['\n']
  }

  /** Escaping adds exactly one backslash per special character. */
  lemma {:induction false} EscapeTextLength(text: string)
    ensures |EscapeText(text)| == |text| + SpecialCount(text)
  {
    if text != [] {
      assert text == [text[0]] + text[1..];
      EscapeTextConcat([text[0]], text[1..]);
      EscapeTextChar(text[0]);
      EscapeTextLength(text[1..]);
      assert multiset(text) == multiset{text[0]} + multiset(text[1..]);
    }
  }

  /** The reading of TEXT back: each escape pair gives its character, and a
      lone backslash or a raw `;`, `,` or line feed makes the value invalid. */
  function Unescape(t: string): (r: Option<string>)
    decreases |t|
  {
    if t == [] then Some([])
    else if t[0] == '\\' then
      if |t| >= 2 && (t[1] == '\\' || t[1] == ';' || t[1] == ',' || t[1] == 'n') then
        var rest :- Unescape(t[2..]);
        Some([if t[1] == 'n' then '\n' else t[1]] + rest)
      else None
    else if t[0] == ';' || t[0] == ',' || t[0] == '\n' then None
    else
      var rest :- Unescape(t[1..]);
      Some([t[0]] + rest)
  }

  /** Reading back one escaped character in front of any text. */
  lemma UnescapeEscapedChar(c: char, u: string)
    ensures Unescape(EscapeText([c]) + u)
            == if Unescape(u).Some? then Some([c] + Unescape(u).value) else None
  {
    EscapeTextChar(c);
    var t := EscapeText([c]) + u;
    if IsTextSpecial(c) {
      assert t[0] == '\\' && t[1] == EscapeLetter(c) && t[2..] == u;
    } else {
      assert t[0] == c && t[1..] == u;
    }
  }

  lemma {:induction false} UnescapeEscapeText(text: string)
    ensures Unescape(EscapeText(text)) == Some(text)
  {
    if text == [] {
      assert EscapeText(text) == [];
    } else {
      var c, rest := text[0], text[1..];
      assert text == [c] + rest;
      EscapeTextConcat([c], rest);
      UnescapeEscapeText(rest);
      UnescapeEscapedChar(c, EscapeText(rest));
    }
  }

  lemma {:induction false} EscapeTextOfUnescape(t: string, text: string)
    requires Unescape(t) == Some(text)
    ensures EscapeText(text) == t
    decreases |t|
  {
    if t != [] {
      if t[0] == '\\' {
        var rest := Unescape(t[2..]).value;
        EscapeTextOfUnescape(t[2..], rest);
        var c := if t[1] == 'n' then '\n' else t[1];
        assert text == [c] + rest;
        EscapeTextConcat([c], rest);
        EscapeTextChar(c);
        assert t == [t[0], t[1]] + t[2..];
      } else {
        var rest := Unescape(t[1..]).value;
        EscapeTextOfUnescape(t[1..], rest);
        assert text == [t[0]] + rest;
        EscapeTextConcat([t[0]], rest);
        EscapeTextChar(t[0]);
        assert t == [t[0]] + t[1..];
      }
    }
  }

  /** Escaping is invertible: a text escapes to `t` exactly when `t` reads
      back as that text. Because backslashes are escaped first, the pairs
      `\\`, `\;`, `\,`, `\n` can always be told apart. */
  lemma EscapeTextInvertible(text: string, t: string)
    ensures Unescape(t) == Some(text) <==> EscapeText(text) == t
  {
    if Unescape(t) == Some(text) {
      EscapeTextOfUnescape(t, text);
    }
    if EscapeText(text) == t {
      UnescapeEscapeText(text);
    }
  }

  /** Escaping is one-to-one. */
  lemma EscapeTextInjective(a: string, b: string)
    ensures EscapeText(a) == EscapeText(b) <==> a == b
  {
    UnescapeEscapeText(a);
    UnescapeEscapeText(b);
  }

  // ---------------------------------------------------------------------
  // generateIcs
  // ---------------------------------------------------------------------

  /** `EventDetails`: the record the encoder reads. */
  datatype EventDetails = EventDetails(
    title: string,
    description: string,
    startTime: DateTime,
    endTime: DateTime,
    location: string,
    url: Option<string>)

  predicate ValidEvent(event: EventDetails) {
    ValidDateTime(event.startTime) && ValidDateTime(event.endTime)
  }

  const UidDomain: string := "@evenex.com"

  /** The content lines of the calendar around already rendered values, in
      order. The URL line is present only for a truthy `url`, whose value is
      copied as it is. */
  function ContentLines(uid: string, dtStart: string, dtEnd: string, summary: string,
                        description: string, location: string, url: Option<string>): (lines: seq<string>)
    ensures |lines| == (if Truthy(url) then 14 else 13)
    ensures lines[0] == "BEGIN:VCALENDAR" && lines[|lines| - 1] == "END:VCALENDAR"
    ensures lines[4] == "UID:" + uid && lines[5] == "DTSTART:" + dtStart && lines[6] == "DTEND:" + dtEnd
  {
    [ "BEGIN:VCALENDAR",
      "VERSION:2.0",
      "PRODID:-//EveNex//Event Calendar//EN",
      "BEGIN:VEVENT",
      "UID:" + uid,
      "DTSTART:" + dtStart,
      "DTEND:" + dtEnd,
      "SUMMARY:" + summary,
      "DESCRIPTION:" + description,
      "LOCATION:" + location ]
    + (if Truthy(url) then ["URL:" + url.value] else [])
    + [ "STATUS:CONFIRMED",
        "END:VEVENT",
        "END:VCALENDAR" ]
  }

  /** The lines of `generateIcs`: the UID from the clock reading and the
      product domain, the two timestamps rendered by `formatDate`, and the
      title, description and location escaped by `escapeText`. */
  function IcsLines(event: EventDetails, now: nat): (lines: seq<string>)
    requires ValidEvent(event)
    ensures |lines| == (if Truthy(event.url) then 14 else 13)
    ensures lines[4] == "UID:" + (Decimal(now) + UidDomain)
    ensures lines[5] == "DTSTART:" + UtcDateTimeForm(event.startTime)
    ensures lines[6] == "DTEND:" + UtcDateTimeForm(event.endTime)
  {
    ContentLines(Decimal(now) + UidDomain, FormatDate(event.startTime), FormatDate(event.endTime),
                 EscapeText(event.title), EscapeText(event.description), EscapeText(event.location),
                 event.url)
  }

  /** `generateIcs(event)`, with the `Date.now()` reading passed in as `now`:
      the content lines joined by CRLF, with no CRLF after the last one. */
  function GenerateIcs(event: EventDetails, now: nat): (ics: string)
    requires ValidEvent(event)
    ensures StartsWith(ics, "BEGIN:VCALENDAR") && EndsWith(ics, "END:VCALENDAR")
  {
    JoinEnds(IcsLines(event, now), CRLF);
    Join(IcsLines(event, now), CRLF)
  }

  /** Where each line sits. */
  lemma ContentLinesAt(uid: string, dtStart: string, dtEnd: string, summary: string,
                       description: string, location: string, url: Option<string>)
    ensures var lines := ContentLines(uid, dtStart, dtEnd, summary, description, location, url);
      var n := |lines|;
      && n == (if Truthy(url) then 14 else 13)
      && lines[0] == "BEGIN:VCALENDAR" && lines[1] == "VERSION:2.0"
      && lines[2] == "PRODID:-//EveNex//Event Calendar//EN" && lines[3] == "BEGIN:VEVENT"
      && lines[4] == "UID:" + uid && lines[5] == "DTSTART:" + dtStart && lines[6] == "DTEND:" + dtEnd
      && lines[7] == "SUMMARY:" + summary && lines[8] == "DESCRIPTION:" + description
      && lines[9] == "LOCATION:" + location
      && (Truthy(url) ==> lines[10] == "URL:" + url.value)
      && lines[n - 3] == "STATUS:CONFIRMED" && lines[n - 2] == "END:VEVENT" && lines[n - 1] == "END:VCALENDAR"
  {
  }

  /** The first letter of each line between the event's opening and its
      closing: none of them opens or closes anything. */
  lemma ContentLinesInner(uid: string, dtStart: string, dtEnd: string, summary: string,
                          description: string, location: string, url: Option<string>, i: nat)
    requires 4 <= i < |ContentLines(uid, dtStart, dtEnd, summary, description, location, url)| - 2
    ensures ContentLines(uid, dtStart, dtEnd, summary, description, location, url)[i][0] !in {'B', 'E'}
  {
    var lines := ContentLines(uid, dtStart, dtEnd, summary, description, location, url);
    ContentLinesAt(uid, dtStart, dtEnd, summary, description, location, url);
    if i == |lines| - 3 {
      assert lines[i][0] == 'S';
    } else if i == 10 {
      assert lines[i][0] == 'U';
    } else if i == 4 {
      assert lines[i][0] == 'U';
    } else if i == 7 {
      assert lines[i][0] == 'S';
    } else if i == 9 {
      assert lines[i][0] == 'L';
    } else {
      assert lines[i][0] == 'D';
    }
  }

  /** The fixed frame: 13 lines, or 14 with a URL; the calendar opens first and
      closes last; exactly one line opens the event and exactly one closes it,
      the opening one before the closing one. */
  lemma ContentLinesFrame(uid: string, dtStart: string, dtEnd: string, summary: string,
                          description: string, location: string, url: Option<string>)
    ensures var lines := ContentLines(uid, dtStart, dtEnd, summary, description, location, url);
      && |lines| == (if Truthy(url) then 14 else 13)
      && lines[0] == "BEGIN:VCALENDAR" && lines[|lines| - 1] == "END:VCALENDAR"
      && (forall i :: 0 <= i < |lines| ==> (lines[i] == "BEGIN:VEVENT" <==> i == 3))
      && (forall i :: 0 <= i < |lines| ==> (lines[i] == "END:VEVENT" <==> i == |lines| - 2))
  {
    var lines := ContentLines(uid, dtStart, dtEnd, summary, description, location, url);
    ContentLinesAt(uid, dtStart, dtEnd, summary, description, location, url);
    forall i | 0 <= i < |lines|
      ensures lines[i] == "BEGIN:VEVENT" <==> i == 3
      ensures lines[i] == "END:VEVENT" <==> i == |lines| - 2
    {
      if i == 0 || i == |lines| - 1 {
        assert |lines[i]| in {13, 15};
      } else if i == 1 || i == 2 {
        assert lines[i][0] in {'V', 'P'};
      } else if 4 <= i < |lines| - 2 {
        ContentLinesInner(uid, dtStart, dtEnd, summary, description, location, url, i);
      } else if i == 3 {
        assert lines[i][0] == 'B';
      } else {
        assert lines[i][0] == 'E';
      }
    }
  }

  /** Some line carries a URL. */
  predicate HasUrlLine(lines: seq<string>) {
    exists i :: 0 <= i < |lines| && StartsWith(lines[i], "URL:")
  }

  /** A `URL:` line appears exactly when `url` is truthy, and then it is the
      eleventh line and carries the URL verbatim, unescaped. */
  lemma ContentLinesUrl(uid: string, dtStart: string, dtEnd: string, summary: string,
                        description: string, location: string, url: Option<string>)
    ensures var lines := ContentLines(uid, dtStart, dtEnd, summary, description, location, url);
      && (HasUrlLine(lines) <==> Truthy(url))
      && (Truthy(url) ==> lines[10] == "URL:" + url.value)
  {
    var lines := ContentLines(uid, dtStart, dtEnd, summary, description, location, url);
    ContentLinesAt(uid, dtStart, dtEnd, summary, description, location, url);
    if Truthy(url) {
      assert StartsWith(lines[10], "URL:");
    } else {
      forall i | 0 <= i < |lines|
        ensures !StartsWith(lines[i], "URL:")
      {
        if i == 4 {
          assert lines[i][1] == 'I';
        } else {
          assert lines[i][0] != 'U';
        }
      }
    }
  }

  /** The frame of `generateIcs`' output. */
  lemma IcsLinesFrame(event: EventDetails, now: nat)
    requires ValidEvent(event)
    ensures var lines := IcsLines(event, now);
      && |lines| == (if Truthy(event.url) then 14 else 13)
      && lines[0] == "BEGIN:VCALENDAR" && lines[|lines| - 1] == "END:VCALENDAR"
      && (forall i :: 0 <= i < |lines| ==> (lines[i] == "BEGIN:VEVENT" <==> i == 3))
      && (forall i :: 0 <= i < |lines| ==> (lines[i] == "END:VEVENT" <==> i == |lines| - 2))
  {
    ContentLinesFrame(Decimal(now) + UidDomain, FormatDate(event.startTime), FormatDate(event.endTime),
                      EscapeText(event.title), EscapeText(event.description), EscapeText(event.location),
                      event.url);
  }

  /** `generateIcs` writes a URL line exactly when the event's url is truthy. */
  lemma IcsLinesUrl(event: EventDetails, now: nat)
    requires ValidEvent(event)
    ensures var lines := IcsLines(event, now);
      && (HasUrlLine(lines) <==> Truthy(event.url))
      && (Truthy(event.url) ==> lines[10] == "URL:" + event.url.value)
  {
    ContentLinesUrl(Decimal(now) + UidDomain, FormatDate(event.startTime), FormatDate(event.endTime),
                    EscapeText(event.title), EscapeText(event.description), EscapeText(event.location),
                    event.url);
  }

  /** What each value line carries: the UID is the clock reading in decimal
      followed by the product domain, the two instants are in the UTC
      DATE-TIME form, and only the title, description and location are
      escaped. */
  lemma IcsLinesFields(event: EventDetails, now: nat)
    requires ValidEvent(event)
    ensures var lines := IcsLines(event, now);
      && lines[4] == "UID:" + (Decimal(now) + "@evenex.com")
      && lines[5] == "DTSTART:" + UtcDateTimeForm(event.startTime)
      && lines[6] == "DTEND:" + UtcDateTimeForm(event.endTime)
      && lines[7] == "SUMMARY:" + EscapeText(event.title)
      && lines[8] == "DESCRIPTION:" + EscapeText(event.description)
      && lines[9] == "LOCATION:" + EscapeText(event.location)
  {
    FormatDateLayout(event.startTime);
    FormatDateLayout(event.endTime);
    ContentLinesAt(Decimal(now) + UidDomain, FormatDate(event.startTime), FormatDate(event.endTime),
                   EscapeText(event.title), EscapeText(event.description), EscapeText(event.location),
                   event.url);
  }

  // ---------------------------------------------------------------------
  // The clock reading
  // ---------------------------------------------------------------------

  /** Only the UID line depends on the clock reading. */
  lemma ContentLinesUid(uid1: string, uid2: string, dtStart: string, dtEnd: string, summary: string,
                        description: string, location: string, url: Option<string>)
    ensures var lines1 := ContentLines(uid1, dtStart, dtEnd, summary, description, location, url);
      var lines2 := ContentLines(uid2, dtStart, dtEnd, summary, description, location, url);
      && |lines1| == |lines2|
      && (forall i :: 0 <= i < |lines1| && i != 4 ==> lines1[i] == lines2[i])
  {
    var lines1 := ContentLines(uid1, dtStart, dtEnd, summary, description, location, url);
    var lines2 := ContentLines(uid2, dtStart, dtEnd, summary, description, location, url);
    assert lines1[..4] == lines2[..4];
    assert lines1[5..] == lines2[5..];
    forall i | 0 <= i < |lines1| && i != 4
      ensures lines1[i] == lines2[i]
    {
      if i < 4 {
        assert lines1[i] == lines1[..4][i];
      } else {
        assert lines1[i] == lines1[5..][i - 5];
      }
    }
  }

  /** Reads the clock reading back out of a UID value: a non-empty run of
      digits followed by the product domain. */
  function ReadUid(uid: string): (r: Option<nat>)
  {
    var n := |uid| - |UidDomain|;
    if n > 0 && uid[n..] == UidDomain && AllDigits(uid[..n]) then Some(DigitsValue(uid[..n]))
    else None
  }

  lemma ReadUidOfStamp(now: nat)
    ensures ReadUid(Decimal(now) + UidDomain) == Some(now)
  {
    var uid := Decimal(now) + UidDomain;
    assert uid[..|Decimal(now)|] == Decimal(now);
    assert uid[|Decimal(now)|..] == UidDomain;
    DecimalValue(now);
  }

  /** Two runs of `generateIcs` on the same event at different instants differ
      exactly in their UID line; at the same instant they agree. */
  lemma IcsLinesClock(event: EventDetails, now1: nat, now2: nat)
    requires ValidEvent(event)
    ensures var lines1 := IcsLines(event, now1);
      var lines2 := IcsLines(event, now2);
      && |lines1| == |lines2|
      && (forall i :: 0 <= i < |lines1| && i != 4 ==> lines1[i] == lines2[i])
      && (lines1[4] == lines2[4] <==> now1 == now2)
  {
    var start, end := FormatDate(event.startTime), FormatDate(event.endTime);
    var summary, description := EscapeText(event.title), EscapeText(event.description);
    var location := EscapeText(event.location);
    var uid1, uid2 := Decimal(now1) + UidDomain, Decimal(now2) + UidDomain;
    ContentLinesUid(uid1, uid2, start, end, summary, description, location, event.url);
    ContentLinesAt(uid1, start, end, summary, description, location, event.url);
    ContentLinesAt(uid2, start, end, summary, description, location, event.url);
    if IcsLines(event, now1)[4] == IcsLines(event, now2)[4] {
      assert ("UID:" + uid1)[4..] == uid1 && ("UID:" + uid2)[4..] == uid2;
      ReadUidOfStamp(now1);
      ReadUidOfStamp(now2);
    }
  }

  // ---------------------------------------------------------------------
  // Reading the calendar back
  // ---------------------------------------------------------------------

  /** What a reader recovers from the text: the clock reading in the UID, the
      two instants, the three TEXT values unescaped, and the URL if a URL line
      is present. */
  datatype CalendarView = CalendarView(
    stamp: nat,
    start: DateTime,
    end: DateTime,
    summary: string,
    description: string,
    location: string,
    url: Option<string>)

  /** The value of a content line `name:value` whose name part is `name`. */
  function ReadField(line: string, prefix: string): (r: Option<string>)
    ensures r.Some? ==> line == prefix + r.value
  {
    if StartsWith(line, prefix) then Some(line[|prefix|..]) else None
  }

  lemma ReadFieldOf(prefix: string, value: string)
    ensures ReadField(prefix + value, prefix) == Some(value)
  {
    assert (prefix + value)[..|prefix|] == prefix;
    assert (prefix + value)[|prefix|..] == value;
  }

  /** Reads the lines of a single-event calendar in the layout `generateIcs`
      writes; anything else is rejected. */
  function ReadLines(lines: seq<string>): (r: Option<CalendarView>)
  {
    var n := |lines|;
    if && (n == 13 || n == 14)
       && lines[0] == "BEGIN:VCALENDAR" && lines[1] == "VERSION:2.0"
       && lines[2] == "PRODID:-//EveNex//Event Calendar//EN" && lines[3] == "BEGIN:VEVENT"
       && lines[n - 3] == "STATUS:CONFIRMED" && lines[n - 2] == "END:VEVENT"
       && lines[n - 1] == "END:VCALENDAR"
    then
      var uid :- ReadField(lines[4], "UID:");
      var stamp :- ReadUid(uid);
      var dtStart :- ReadField(lines[5], "DTSTART:");
      var start :- ParseDateTime(dtStart);
      var dtEnd :- ReadField(lines[6], "DTEND:");
      var end :- ParseDateTime(dtEnd);
      var summaryText :- ReadField(lines[7], "SUMMARY:");
      var summary :- Unescape(summaryText);
      var descriptionText :- ReadField(lines[8], "DESCRIPTION:");
      var description :- Unescape(descriptionText);
      var locationText :- ReadField(lines[9], "LOCATION:");
      var location :- Unescape(locationText);
      if n == 14 then
        var url :- ReadField(lines[10], "URL:");
        Some(CalendarView(stamp, start, end, summary, description, location, Some(url)))
      else
        Some(CalendarView(stamp, start, end, summary, description, location, None))
    else None
  }

  /** Reads a calendar text: its CRLF-separated lines. */
  function ReadIcs(ics: string): Option<CalendarView> {
    ReadLines(SplitCrlf(ics))
  }

  /** Reading the layout back gives each value its field reads to. */
  lemma ReadContentLines(uid: string, dtStart: string, dtEnd: string, summary: string,
                         description: string, location: string, url: Option<string>,
                         view: CalendarView)
    requires ReadUid(uid) == Some(view.stamp)
    requires ParseDateTime(dtStart) == Some(view.start) && ParseDateTime(dtEnd) == Some(view.end)
    requires Unescape(summary) == Some(view.summary)
    requires Unescape(description) == Some(view.description)
    requires Unescape(location) == Some(view.location)
    requires view.url == if Truthy(url) then url else None
    ensures ReadLines(ContentLines(uid, dtStart, dtEnd, summary, description, location, url)) == Some(view)
  {
    ContentLinesAt(uid, dtStart, dtEnd, summary, description, location, url);
    ReadFieldOf("UID:", uid);
    ReadFieldOf("DTSTART:", dtStart);
    ReadFieldOf("DTEND:", dtEnd);
    ReadFieldOf("SUMMARY:", summary);
    ReadFieldOf("DESCRIPTION:", description);
    ReadFieldOf("LOCATION:", location);
    if Truthy(url) {
      ReadFieldOf("URL:", url.value);
    }
  }

  // ---------------------------------------------------------------------
  // Splitting the text back into its lines
  // ---------------------------------------------------------------------

  /** A rendered timestamp holds digits, `T` and `Z` only. */
  lemma FormatDateNoLineFeed(d: DateTime)
    requires ValidDateTime(d)
    ensures '\n' !in FormatDate(d)
  {
    FormatDateLayout(d);
    var r := UtcDateTimeForm(d);
    forall k | 0 <= k < |r|
      ensures r[k] != '\n'
    {
      if k < 8 {
        assert r[k] == r[..8][k];
      } else if 9 <= k < 15 {
        assert r[k] == r[9..15][k - 9];
      }
    }
  }

  /** No line of the layout holds a line feed when no value does. */
  lemma ContentLinesNoLineFeed(uid: string, dtStart: string, dtEnd: string, summary: string,
                               description: string, location: string, url: Option<string>)
    requires '\n' !in uid && '\n' !in dtStart && '\n' !in dtEnd
    requires '\n' !in summary && '\n' !in description && '\n' !in location
    requires url.Some? ==> '\n' !in url.value
    ensures var lines := ContentLines(uid, dtStart, dtEnd, summary, description, location, url);
      forall i :: 0 <= i < |lines| ==> '\n' !in lines[i]
  {
    var lines := ContentLines(uid, dtStart, dtEnd, summary, description, location, url);
    ContentLinesAt(uid, dtStart, dtEnd, summary, description, location, url);
    FixedLinesNoLineFeed();
    ProductIdNoLineFeed();
    FieldNamesNoLineFeed();
  }

  /** The fixed lines of the layout hold no line feed. */
  lemma FixedLinesNoLineFeed()
    ensures '\n' !in "BEGIN:VCALENDAR" && '\n' !in "VERSION:2.0" && '\n' !in "BEGIN:VEVENT"
    ensures '\n' !in "STATUS:CONFIRMED" && '\n' !in "END:VEVENT" && '\n' !in "END:VCALENDAR"
  {
  }

  lemma ProductIdNoLineFeed()
    ensures '\n' !in "PRODID:-//EveNex//Event Calendar//EN"
  {
  }

  /** Nor do the names in front of the values. */
  lemma FieldNamesNoLineFeed()
    ensures '\n' !in "UID:" && '\n' !in "DTSTART:" && '\n' !in "DTEND:" && '\n' !in "SUMMARY:"
    ensures '\n' !in "DESCRIPTION:" && '\n' !in "LOCATION:" && '\n' !in "URL:"
  {
  }

  /** Splitting the output at CRLF gives back exactly the lines `generateIcs`
      joined, provided the URL holds no line feed (it is the one value written
      unescaped). */
  lemma GenerateIcsLines(event: EventDetails, now: nat)
    requires ValidEvent(event)
    requires event.url.Some? ==> '\n' !in event.url.value
    ensures SplitCrlf(GenerateIcs(event, now)) == IcsLines(event, now)
  {
    var uid := Decimal(now) + UidDomain;
    assert '\n' !in uid by {
      assert AllDigits(Decimal(now));
      assert '\n' !in UidDomain;
    }
    FormatDateNoLineFeed(event.startTime);
    FormatDateNoLineFeed(event.endTime);
    ContentLinesNoLineFeed(uid, FormatDate(event.startTime), FormatDate(event.endTime),
                           EscapeText(event.title), EscapeText(event.description),
                           EscapeText(event.location), event.url);
    SplitJoin(IcsLines(event, now));
  }

  /** The encoding is invertible: a reader recovers the clock reading, both
      instants to the second, the title, description and location exactly, and
      the URL when it is truthy. */
  lemma GenerateIcsRoundTrip(event: EventDetails, now: nat)
    requires ValidEvent(event)
    requires event.url.Some? ==> '\n' !in event.url.value
    ensures ReadIcs(GenerateIcs(event, now)) == Some(CalendarView(
              now,
              event.startTime.(millisecond := 0),
              event.endTime.(millisecond := 0),
              event.title,
              event.description,
              event.location,
              if Truthy(event.url) then event.url else None))
  {
    GenerateIcsLines(event, now);
    ReadUidOfStamp(now);
    FormatDateRoundTrip(event.startTime);
    FormatDateRoundTrip(event.endTime);
    UnescapeEscapeText(event.title);
    UnescapeEscapeText(event.description);
    UnescapeEscapeText(event.location);
    ReadContentLines(Decimal(now) + UidDomain, FormatDate(event.startTime), FormatDate(event.endTime),
                     EscapeText(event.title), EscapeText(event.description), EscapeText(event.location),
                     event.url,
                     CalendarView(now, event.startTime.(millisecond := 0), event.endTime.(millisecond := 0),
                                  event.title, event.description, event.location,
                                  if Truthy(event.url) then event.url else None));
  }

  /** Two outputs for the same event are equal exactly when the clock
      readings are, whatever the event holds: the texts differ in the UID
      line, and the joins around it are the same. */
  lemma GenerateIcsClock(event: EventDetails, now1: nat, now2: nat)
    requires ValidEvent(event)
    ensures GenerateIcs(event, now1) == GenerateIcs(event, now2) <==> now1 == now2
  {
    var lines1, lines2 := IcsLines(event, now1), IcsLines(event, now2);
    IcsLinesClock(event, now1, now2);
    if GenerateIcs(event, now1) == GenerateIcs(event, now2) {
      JoinSameAround(lines1, lines2, CRLF, 4);
    }
  }

  // ---------------------------------------------------------------------
  // downloadIcsFile
  // ---------------------------------------------------------------------

  /** `title.replace(/[^a-z0-9]/gi, '-')`: every character that is not an
      ASCII letter or digit becomes a dash. */
  function DashNonAlphanumeric(title: string): (r: string)
    ensures |r| == |title|
    ensures forall k :: 0 <= k < |r| ==> IsAsciiAlphanumeric(r[k]) || r[k] == '-'
    ensures forall k :: 0 <= k < |title| ==> (r[k] == '-' <==> !IsAsciiAlphanumeric(title[k]))
    ensures forall k :: 0 <= k < |title| && IsAsciiAlphanumeric(title[k]) ==> r[k] == title[k]
  {
    seq(|title|, k requires 0 <= k < |title| => if IsAsciiAlphanumeric(title[k]) then title[k] else '-')
  }

  /** The characters a default file name stem is made of. */
  predicate IsStemChar(c: char) {
    ('a' <= c <= 'z') || ('0' <= c <= '9') || c == '-'
  }

  /** The file name used when none is given: the title with every character
      other than an ASCII letter or digit turned into a dash, lower-cased, and
      `.ics` appended. */
  function DefaultFilename(title: string): (name: string)
    ensures |name| == |title| + 4 && EndsWith(name, ".ics")
    ensures forall k :: 0 <= k < |title| ==> IsStemChar(name[k])
    ensures forall k :: 0 <= k < |title| ==>
              (name[k] == '-' <==> !IsAsciiAlphanumeric(title[k]))
    ensures forall k :: 0 <= k < |title| && IsAsciiAlphanumeric(title[k]) ==>
              name[k] == LowerAsciiChar(title[k])
  {
    var name := LowerAscii(DashNonAlphanumeric(title)) + ".ics";
    assert name[|title|..] == ".ics";
    name
  }

  /** Upper and lower case in the title make no difference to the name. */
  lemma DefaultFilenameIgnoresCase(a: string, b: string)
    requires LowerAscii(a) == LowerAscii(b)
    ensures DefaultFilename(a) == DefaultFilename(b)
  {
    var na, nb := DefaultFilename(a), DefaultFilename(b);
    assert |a| == |b| by {
      assert |LowerAscii(a)| == |a| && |LowerAscii(b)| == |b|;
    }
    forall k | 0 <= k < |na|
      ensures na[k] == nb[k]
    {
      if k < |a| {
        assert LowerAscii(a)[k] == LowerAscii(b)[k];
        assert IsAsciiAlphanumeric(a[k]) <==> IsAsciiAlphanumeric(b[k]);
      } else {
        assert na[k] == ".ics"[k - |a|] == nb[k];
      }
    }
  }

  /** A default name is stable: deriving a name from its stem gives it back. */
  lemma DefaultFilenameStable(title: string)
    ensures var name := DefaultFilename(title);
      DefaultFilename(name[..|name| - 4]) == name
  {
    var name := DefaultFilename(title);
    var stem := name[..|name| - 4];
    var again := DefaultFilename(stem);
    forall k | 0 <= k < |name|
      ensures again[k] == name[k]
    {
      if k < |stem| {
        assert stem[k] == name[k];
      } else {
        assert again[k] == ".ics"[k - |stem|] == name[k];
      }
    }
  }

  /** The name `downloadIcsFile` gives the file: `filename` when it is truthy,
      otherwise the default derived from the title. */
  function DownloadFilename(event: EventDetails, filename: Option<string>): (name: string)
    ensures Truthy(filename) ==> name == filename.value
    ensures !Truthy(filename) ==> name == DefaultFilename(event.title)
    ensures !Truthy(filename) ==> EndsWith(name, ".ics") && |name| == |event.title| + 4
  {
    OrElse(filename, DefaultFilename(event.title))
  }

  /** The media type of the downloaded blob. */
  const CalendarMediaType: string := "text/calendar;charset=utf-8"

  /** What `downloadIcsFile` hands to the browser: the blob's content and
      media type and the link's file name. */
  datatype Download = Download(content: string, mediaType: string, filename: string)

  /** `downloadIcsFile(event, filename)`, with the clock reading passed in; the
      link, click and object URL are the browser's business. */
  function DownloadIcsFile(event: EventDetails, filename: Option<string>, now: nat): (d: Download)
    requires ValidEvent(event)
    ensures StartsWith(d.content, "BEGIN:VCALENDAR") && EndsWith(d.content, "END:VCALENDAR")
    ensures d.mediaType == CalendarMediaType
    ensures Truthy(filename) ==> d.filename == filename.value
    ensures !Truthy(filename) ==> d.filename == DefaultFilename(event.title)
  {
    Download(GenerateIcs(event, now), CalendarMediaType, DownloadFilename(event, filename))
  }

  /** The downloaded file reads back to the event. */
  lemma DownloadIcsFileRoundTrip(event: EventDetails, filename: Option<string>, now: nat)
    requires ValidEvent(event)
    requires event.url.Some? ==> '\n' !in event.url.value
    ensures ReadIcs(DownloadIcsFile(event, filename, now).content) == Some(CalendarView(
              now,
              event.startTime.(millisecond := 0),
              event.endTime.(millisecond := 0),
              event.title,
              event.description,
              event.location,
              if Truthy(event.url) then event.url else None))
  {
    GenerateIcsRoundTrip(event, now);
  }

  /** A worked example: `"A b"` is saved as `a-b.ics`. */
  lemma DefaultFilenameExample()
    ensures DefaultFilename("A b") == "a-b.ics"
  {
    var name := DefaultFilename("A b");
    assert name[0] == 'a' && name[1] == '-' && name[2] == 'b';
    assert name[3..] == ".ics";
  }
}
