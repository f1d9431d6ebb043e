/** The three `strftime` patterns the core writes and the one `strptime`
    pattern it reads.

    `datetime.strptime(s, '%Y-%m-%d_%H:%M:%S')` matches `s` against a regular
    expression in which `%Y` is exactly four digits and every other directive
    is one or two digits (`1[0-2]|0[1-9]|[1-9]` for the month and similar
    alternatives for the others), and raises `ValueError` when anything is
    left over or the fields do not form a valid datetime. The separators are
    never digits, so a directive can only match the whole run of digits in
    front of the next separator; this module parses exactly that way. The
    alternatives' ranges (month 1 to 12, day 1 to 31, hour up to 23, minute
    up to 59, second up to 61) are all implied by `Valid`, which also rejects
    year 0, days past the end of the month and the leap seconds 60 and 61. */
module TimeFormat {
  import opened Outcomes
  import opened Clock
  import opened Text

  predicate IsDigit(c: char) {
    '0' <= c <= '9'
  }

  predicate AllDigits(s: string) {
    forall i :: 0 <= i < |s| ==> IsDigit(s[i])
  }

  function DigitChar(n: nat): (c: char)
    requires n < 10
    ensures IsDigit(c)
  {
    (48 + n) as char
  }

  function DigitValue(c: char): nat
    requires IsDigit(c)
  {
    c as int - 48
  }

  /** `int(s)` for a string of decimal digits. */
  function Value(s: string): nat
    requires AllDigits(s)
    decreases |s|
  {
    if s == [] then 0 else Value(s[..|s| - 1]) * 10 + DigitValue(s[|s| - 1])
  }

  /** A zero-padded two-digit field: `%m`, `%d`, `%H`, `%M`, `%S`. */
  function Pad2(n: nat): (r: string)
    requires n < 100
    ensures |r| == 2 && AllDigits(r) && Value(r) == n
  {
    var hi, lo := DigitChar(n / 10), DigitChar(n % 10);
    ValueSnoc([], hi);
    ValueSnoc([hi], lo);
    assert [] + [hi] == [hi];
    [hi] + [lo]
  }

  /** The zero-padded four-digit year `%Y`. */
  function Pad4(n: nat): (r: string)
    requires n < 10000
    ensures |r| == 4 && AllDigits(r) && Value(r) == n
  {
    var hi, lo := Pad2(n / 100), Pad2(n % 100);
    ValueSnoc(hi, lo[0]);
    ValueSnoc(hi + [lo[0]], lo[1]);
    assert hi + [lo[0]] + [lo[1]] == hi + lo;
    assert Value(lo) == DigitValue(lo[0]) * 10 + DigitValue(lo[1]) by {
      ValueSnoc([], lo[0]);
      ValueSnoc([lo[0]], lo[1]);
      assert [] + [lo[0]] == [lo[0]] && [lo[0]] + [lo[1]] == lo;
    }
    hi + lo
  }

  lemma ValueSnoc(s: string, c: char)
    requires AllDigits(s) && IsDigit(c)
    ensures AllDigits(s + [c])
    ensures Value(s + [c]) == Value(s) * 10 + DigitValue(c)
  {
    assert (s + [c])[..|s|] == s;
  }

  /** A separator character followed by a two-digit field. */
  function Field(sep: char, n: nat): (r: string)
    requires n < 100
    ensures |r| == 3 && r[0] == sep && r[1..] == Pad2(n)
  {
    [sep] + Pad2(n)
  }

  /** The `%Y-%m-%d_%H:%M:%S` layout of six zero-padded fields, whether or
      not they form a valid datetime. */
  function Stamp(y: nat, mo: nat, da: nat, h: nat, mi: nat, se: nat): string
    requires y < 10000 && mo < 100 && da < 100 && h < 100 && mi < 100 && se < 100
  {
    Pad4(y) + (Field('-', mo) + (Field('-', da) + (Field('_', h) + (Field(':', mi) + Field(':', se)))))
  }

  /** `s` is the decimal digits of `n`. */
  predicate Spells(s: string, n: nat) {
    AllDigits(s) && Value(s) == n
  }

  /** `d.strftime('%Y-%m-%d_%H:%M:%S')`, the stamp in WRF output file names:
      nineteen characters, the six fields at fixed places. */
  function FileStamp(d: DateTime): (r: string)
    requires Valid(d)
    ensures |r| == 19
    ensures r[4] == '-' && r[7] == '-' && r[10] == '_' && r[13] == ':' && r[16] == ':'
    ensures Spells(r[..4], d.year) && Spells(r[5..7], d.month) && Spells(r[8..10], d.day)
    ensures Spells(r[11..13], d.hour) && Spells(r[14..16], d.minute) && Spells(r[17..], d.second)
  {
    var y, mo, da := Pad4(d.year), Field('-', d.month), Field('-', d.day);
    var h, mi, se := Field('_', d.hour), Field(':', d.minute), Field(':', d.second);
    StampLayout(y, mo, da, h, mi, se);
    Stamp(d.year, d.month, d.day, d.hour, d.minute, d.second)
  }

  /** Where the pieces of a four-digit year and five three-character
      fields lie once joined. */
  lemma StampLayout(y: string, mo: string, da: string, h: string, mi: string, se: string)
    requires |y| == 4 && |mo| == 3 && |da| == 3 && |h| == 3 && |mi| == 3 && |se| == 3
    ensures var r := y + (mo + (da + (h + (mi + se))));
      && |r| == 19 && r[..4] == y
      && r[4] == mo[0] && r[5..7] == mo[1..] && r[7] == da[0] && r[8..10] == da[1..]
      && r[10] == h[0] && r[11..13] == h[1..] && r[13] == mi[0] && r[14..16] == mi[1..]
      && r[16] == se[0] && r[17..] == se[1..]
  {
    var time := h + (mi + se);
    var r := y + (mo + (da + time));
    assert r[..10] == y + mo + da;
    assert r[10..] == time;
  }

  /** A field without its leading zero, which `strptime` accepts too. */
  function Unpadded(n: nat): (r: string)
    requires n < 100
    ensures 1 <= |r| <= 2 && AllDigits(r) && Value(r) == n
  {
    if n < 10 then
      ValueSnoc([], DigitChar(n));
      assert [] + [DigitChar(n)] == [DigitChar(n)];
      [DigitChar(n)]
    else Pad2(n)
  }

  function UnpaddedField(sep: char, n: nat): string
    requires n < 100
  {
    [sep] + Unpadded(n)
  }

  /** The layout of `%Y-%m-%d_%H:%M:%S` with every field but the year
      written without leading zeros, as in `2024-1-1_9:0:0`. */
  function UnpaddedStamp(d: DateTime): string
    requires Valid(d)
  {
    Pad4(d.year) + (UnpaddedField('-', d.month) + (UnpaddedField('-', d.day) +
      (UnpaddedField('_', d.hour) + (UnpaddedField(':', d.minute) + UnpaddedField(':', d.second)))))
  }

  /** `d.strftime('%Y-%m-%d %H:%M')`, the frame titles: sixteen characters,
      the five fields at fixed places. */
  function TitleStamp(d: DateTime): (r: string)
    requires Valid(d)
    ensures |r| == 16
    ensures r[4] == '-' && r[7] == '-' && r[10] == ' ' && r[13] == ':'
    ensures Spells(r[..4], d.year) && Spells(r[5..7], d.month) && Spells(r[8..10], d.day)
    ensures Spells(r[11..13], d.hour) && Spells(r[14..], d.minute)
  {
    var y, mo, da := Pad4(d.year), Field('-', d.month), Field('-', d.day);
    var h, mi := Field(' ', d.hour), Field(':', d.minute);
    var r := y + mo + da + h + mi;
    assert r[..4] == y && r[5..7] == mo[1..] && r[8..10] == da[1..];
    assert r[11..13] == h[1..] && r[14..] == mi[1..];
    r
  }

  /** `d.strftime('%Y%m%d_%H%M')`, the stamps in animation file names. */
  function CompactStamp(d: DateTime): (r: string)
    requires Valid(d)
    ensures |r| == 13 && r[8] == '_'
    ensures Spells(r[..4], d.year) && Spells(r[4..6], d.month) && Spells(r[6..8], d.day)
    ensures Spells(r[9..11], d.hour) && Spells(r[11..], d.minute)
  {
    var y, mo, da := Pad4(d.year), Pad2(d.month), Pad2(d.day);
    var h, mi := Field('_', d.hour), Pad2(d.minute);
    var r := y + mo + da + h + mi;
    assert r[..4] == y && r[4..6] == mo && r[6..8] == da;
    assert r[9..11] == h[1..] && r[11..] == mi;
    r
  }

  // ---------------------------------------------------------------------
  // Parsing

  /** The maximal run of digits at the front of `s`, and what follows it. */
  function TakeDigits(s: string): (r: (string, string))
    ensures r.0 + r.1 == s && AllDigits(r.0)
    ensures r.1 == [] || !IsDigit(r.1[0])
  {
    if s == [] || !IsDigit(s[0]) then ([], s)
    else
      var (ds, rest) := TakeDigits(s[1..]);
      DigitRunCons(s, ds, rest);
      ([s[0]] + ds, rest)
  }

  lemma DigitRunCons(s: string, ds: string, rest: string)
    requires s != [] && IsDigit(s[0]) && AllDigits(ds) && ds + rest == s[1..]
    ensures ([s[0]] + ds) + rest == s && AllDigits([s[0]] + ds)
  {
    assert s == [s[0]] + s[1..];
    var r := [s[0]] + ds;
    forall i | 0 <= i < |r| ensures IsDigit(r[i]) {
      if i > 0 {
        assert r[i] == ds[i - 1];
      }
    }
  }

  /** A numeric directive at the front of `s`: the whole run of digits there,
      which must be `minWidth` to `maxWidth` digits long. */
  function Number(s: string, minWidth: nat, maxWidth: nat): Option<(nat, string)> {
    var (ds, rest) := TakeDigits(s);
    if minWidth <= |ds| <= maxWidth then Some((Value(ds), rest)) else None
  }

  /** A literal separator followed by a one- or two-digit directive. */
  function SepNumber(s: string, sep: char): Option<(nat, string)> {
    if s != [] && s[0] == sep then Number(s[1..], 1, 2) else None
  }

  /** `datetime.strptime(s, '%Y-%m-%d_%H:%M:%S')`, `None` where it raises. */
  function ParseFileStamp(s: string): (r: Option<DateTime>)
    ensures r.Some? ==> Valid(r.value)
  {
    var year :- Number(s, 4, 4);
    var month :- SepNumber(year.1, '-');
    var day :- SepNumber(month.1, '-');
    var hour :- SepNumber(day.1, '_');
    var minute :- SepNumber(hour.1, ':');
    var second :- SepNumber(minute.1, ':');
    var d := DateTime(year.0, month.0, day.0, hour.0, minute.0, second.0);
    if second.1 == [] && Valid(d) then Some(d) else None
  }

  // ---------------------------------------------------------------------
  // Round trip and order

  lemma {:induction false} TakeDigitsOf(ds: string, rest: string)
    requires AllDigits(ds) && (rest == [] || !IsDigit(rest[0]))
    ensures TakeDigits(ds + rest) == (ds, rest)
    decreases |ds|
  {
    if ds != [] {
      assert (ds + rest)[1..] == ds[1..] + rest;
      TakeDigitsOf(ds[1..], rest);
      assert ds == [ds[0]] + ds[1..];
    } else {
      assert ds + rest == rest;
    }
  }

  /** A separator and a run of one or two digits are read as the run's
      value, whatever follows as long as it is not a digit. */
  lemma DigitsParse(sep: char, ds: string, rest: string)
    requires 1 <= |ds| <= 2 && AllDigits(ds) && (rest == [] || !IsDigit(rest[0]))
    ensures SepNumber([sep] + (ds + rest), sep) == Some((Value(ds), rest))
  {
    var t := ds + rest;
    NumberParses(ds, rest);
    assert ([sep] + t)[1..] == t;
  }

  lemma FieldParses(sep: char, n: nat, rest: string)
    requires n < 100 && (rest == [] || !IsDigit(rest[0]))
    ensures SepNumber(Field(sep, n) + rest, sep) == Some((n, rest))
  {
    DigitsParse(sep, Pad2(n), rest);
    assert Field(sep, n) + rest == [sep] + (Pad2(n) + rest);
  }

  lemma UnpaddedFieldParses(sep: char, n: nat, rest: string)
    requires n < 100 && (rest == [] || !IsDigit(rest[0]))
    ensures SepNumber(UnpaddedField(sep, n) + rest, sep) == Some((n, rest))
  {
    if n < 10 {
      var u := [DigitChar(n)];
      DigitsParse(sep, u, rest);
      assert UnpaddedField(sep, n) + rest == [sep] + (u + rest);
    } else {
      FieldParses(sep, n, rest);
    }
  }

  lemma NumberParses(ds: string, rest: string)
    requires 1 <= |ds| <= 2 && AllDigits(ds) && (rest == [] || !IsDigit(rest[0]))
    ensures Number(ds + rest, 1, 2) == Some((Value(ds), rest))
  {
    TakeDigitsOf(ds, rest);
  }

  /** Parsing six zero-padded fields laid out as `%Y-%m-%d_%H:%M:%S` gives
      their datetime when they form a valid one, and fails otherwise. */
  lemma StampParses(y: nat, mo: nat, da: nat, h: nat, mi: nat, se: nat)
    requires y < 10000 && mo < 100 && da < 100 && h < 100 && mi < 100 && se < 100
    ensures var d := DateTime(y, mo, da, h, mi, se);
      ParseFileStamp(Stamp(y, mo, da, h, mi, se)) == if Valid(d) then Some(d) else None
  {
    var s5 := Field(':', se);
    var s4 := Field(':', mi) + s5;
    var s3 := Field('_', h) + s4;
    var s2 := Field('-', da) + s3;
    var s1 := Field('-', mo) + s2;
    FieldParses(':', se, []);
    assert s5 + [] == s5;
    FieldParses(':', mi, s5);
    FieldParses('_', h, s4);
    FieldParses('-', da, s3);
    FieldParses('-', mo, s2);
    TakeDigitsOf(Pad4(y), s1);
  }

  /** Formatting a valid datetime with `%Y-%m-%d_%H:%M:%S` and parsing it
      back with the same pattern gives the datetime again. */
  lemma FileStampRoundTrip(d: DateTime)
    requires Valid(d)
    ensures ParseFileStamp(FileStamp(d)) == Some(d)
  {
    StampParses(d.year, d.month, d.day, d.hour, d.minute, d.second);
  }

  /** Unpadded fields parse to the same datetime as padded ones. */
  lemma UnpaddedStampParses(d: DateTime)
    requires Valid(d)
    ensures ParseFileStamp(UnpaddedStamp(d)) == Some(d)
  {
    var s5 := UnpaddedField(':', d.second);
    var s4 := UnpaddedField(':', d.minute) + s5;
    var s3 := UnpaddedField('_', d.hour) + s4;
    var s2 := UnpaddedField('-', d.day) + s3;
    var s1 := UnpaddedField('-', d.month) + s2;
    assert s5[0] == ':' && s4[0] == ':' && s3[0] == '_' && s2[0] == '-' && s1[0] == '-';
    UnpaddedFieldParses(':', d.second, []);
    assert s5 + [] == s5;
    UnpaddedFieldParses(':', d.minute, s5);
    UnpaddedFieldParses('_', d.hour, s4);
    UnpaddedFieldParses('-', d.day, s3);
    UnpaddedFieldParses('-', d.month, s2);
    TakeDigitsOf(Pad4(d.year), s1);
  }

  /** The stamp holds nothing but digits and the separators `-`, `_`, `:`. */
  lemma FileStampCharacters(d: DateTime)
    requires Valid(d)
    ensures forall c :: c in FileStamp(d) ==> IsDigit(c) || c == '-' || c == '_' || c == ':'
  {
    StampCharacters(d.year, d.month, d.day, d.hour, d.minute, d.second);
  }

  lemma StampCharacters(y: nat, mo: nat, da: nat, h: nat, mi: nat, se: nat)
    requires y < 10000 && mo < 100 && da < 100 && h < 100 && mi < 100 && se < 100
    ensures forall c :: c in Stamp(y, mo, da, h, mi, se) ==> IsDigit(c) || c == '-' || c == '_' || c == ':'
  {
  }

  /** The same holds without the padding. */
  lemma UnpaddedStampCharacters(d: DateTime)
    requires Valid(d)
    ensures forall c :: c in UnpaddedStamp(d) ==> IsDigit(c) || c == '-' || c == '_' || c == ':'
  {
    var f5 := UnpaddedField(':', d.second);
    var f4 := UnpaddedField(':', d.minute) + f5;
    var f3 := UnpaddedField('_', d.hour) + f4;
    var f2 := UnpaddedField('-', d.day) + f3;
    var f1 := UnpaddedField('-', d.month) + f2;
    assert forall c :: c in f5 ==> IsDigit(c) || c == ':';
    assert forall c :: c in f4 ==> IsDigit(c) || c == ':';
    assert forall c :: c in f3 ==> IsDigit(c) || c == '_' || c == ':';
    assert forall c :: c in f2 ==> IsDigit(c) || c == '-' || c == '_' || c == ':';
    assert forall c :: c in f1 ==> IsDigit(c) || c == '-' || c == '_' || c == ':';
  }

  lemma {:induction false} TakeDigitsLonger(ds: string, rest: string)
    requires AllDigits(ds) && rest != [] && IsDigit(rest[0])
    ensures |TakeDigits(ds + rest).0| > |ds|
    decreases |ds|
  {
    if ds != [] {
      assert (ds + rest)[1..] == ds[1..] + rest;
      TakeDigitsLonger(ds[1..], rest);
    } else {
      assert ds + rest == rest;
    }
  }

  /** A two-digit field followed by a digit is too long to parse. */
  lemma FieldSwallowsDigits(sep: char, n: nat, rest: string)
    requires n < 100 && rest != [] && IsDigit(rest[0])
    ensures SepNumber(Field(sep, n) + rest, sep) == None
  {
    var s := Field(sep, n) + rest;
    assert s[0] == sep && s[1..] == Pad2(n) + rest;
    TakeDigitsLonger(Pad2(n), rest);
  }

  /** Anything after the seconds makes the parse fail: digits lengthen the
      seconds field past two digits, anything else is left over. */
  lemma StampWithTrailingText(d: DateTime, rest: string)
    requires Valid(d) && rest != []
    ensures ParseFileStamp(FileStamp(d) + rest) == None
  {
    var s5 := Field(':', d.second) + rest;
    var s4 := Field(':', d.minute) + s5;
    var s3 := Field('_', d.hour) + s4;
    var s2 := Field('-', d.day) + s3;
    var s1 := Field('-', d.month) + s2;
    assert s5[0] == ':' && s4[0] == ':' && s3[0] == '_' && s2[0] == '-' && s1[0] == '-';
    FileStampThen(d, rest);
    FieldParses(':', d.minute, s5);
    FieldParses('_', d.hour, s4);
    FieldParses('-', d.day, s3);
    FieldParses('-', d.month, s2);
    TakeDigitsOf(Pad4(d.year), s1);
    if IsDigit(rest[0]) {
      FieldSwallowsDigits(':', d.second, rest);
    } else {
      FieldParses(':', d.second, rest);
    }
  }

  /** The stamp followed by `rest`, field by field. */
  lemma FileStampThen(d: DateTime, rest: string)
    requires Valid(d)
    ensures FileStamp(d) + rest == Pad4(d.year) + (Field('-', d.month) + (Field('-', d.day) +
      (Field('_', d.hour) + (Field(':', d.minute) + (Field(':', d.second) + rest)))))
  {
  }

  lemma Pad2Order(a: nat, b: nat)
    requires a < 100 && b < 100
    ensures StrLess(Pad2(a), Pad2(b)) <==> a < b
  {
    var pa, pb := Pad2(a), Pad2(b);
    assert pa[0] == DigitChar(a / 10) && pb[0] == DigitChar(b / 10);
    assert pa[1] == DigitChar(a % 10) && pb[1] == DigitChar(b % 10);
    assert StrLess(pa[1..], pb[1..]) <==> pa[1] < pb[1] by {
      assert pa[1..][1..] == [] && pb[1..][1..] == [];
    }
    assert a == a / 10 * 10 + a % 10 && b == b / 10 * 10 + b % 10;
    assert a < b <==> a / 10 < b / 10 || (a / 10 == b / 10 && a % 10 < b % 10);
  }

  lemma Pad4Order(a: nat, b: nat)
    requires a < 10000 && b < 10000
    ensures StrLess(Pad4(a), Pad4(b)) <==> a < b
  {
    StrLessConcat(Pad2(a / 100), Pad2(a % 100), Pad2(b / 100), Pad2(b % 100));
    Pad2Order(a / 100, b / 100);
    Pad2Order(a % 100, b % 100);
    assert a == a / 100 * 100 + a % 100 && b == b / 100 * 100 + b % 100;
    assert a < b <==> a / 100 < b / 100 || (a / 100 == b / 100 && a % 100 < b % 100);
  }

  /** Two-digit fields behind the same separator compare like their values. */
  lemma FieldOrder(sep: char, a: nat, b: nat, r1: string, r2: string)
    requires a < 100 && b < 100
    ensures StrLess(Field(sep, a) + r1, Field(sep, b) + r2) <==> a < b || (a == b && StrLess(r1, r2))
  {
    StrLessConcat(Field(sep, a), r1, Field(sep, b), r2);
    StrLessCommonPrefix([sep], Pad2(a), Pad2(b));
    Pad2Order(a, b);
  }

  /** Zero-padded stamps sort as strings in the order of their datetimes. */
  lemma FileStampOrder(a: DateTime, b: DateTime)
    requires Valid(a) && Valid(b)
    ensures StrLess(FileStamp(a), FileStamp(b)) <==> Before(a, b)
  {
    var a5, b5 := Field(':', a.second), Field(':', b.second);
    var a4, b4 := Field(':', a.minute) + a5, Field(':', b.minute) + b5;
    var a3, b3 := Field('_', a.hour) + a4, Field('_', b.hour) + b4;
    var a2, b2 := Field('-', a.day) + a3, Field('-', b.day) + b3;
    var a1, b1 := Field('-', a.month) + a2, Field('-', b.month) + b2;
    FieldOrder(':', a.second, b.second, [], []);
    assert a5 + [] == a5 && b5 + [] == b5;
    FieldOrder(':', a.minute, b.minute, a5, b5);
    FieldOrder('_', a.hour, b.hour, a4, b4);
    FieldOrder('-', a.day, b.day, a3, b3);
    FieldOrder('-', a.month, b.month, a2, b2);
    StrLessConcat(Pad4(a.year), a1, Pad4(b.year), b1);
    Pad4Order(a.year, b.year);
  }

  /** Minute-resolution datetimes with the same compact stamp are equal
      up to their seconds. */
  lemma CompactStampInjective(a: DateTime, b: DateTime)
    requires Valid(a) && Valid(b) && CompactStamp(a) == CompactStamp(b)
    ensures a.year == b.year && a.month == b.month && a.day == b.day
    ensures a.hour == b.hour && a.minute == b.minute
  {
    var a3 := Pad4(a.year) + Pad2(a.month) + Pad2(a.day);
    var b3 := Pad4(b.year) + Pad2(b.month) + Pad2(b.day);
    ConcatCancel(a3 + Field('_', a.hour), Pad2(a.minute), b3 + Field('_', b.hour), Pad2(b.minute));
    ConcatCancel(a3, Field('_', a.hour), b3, Field('_', b.hour));
    assert Field('_', a.hour)[1..] == Pad2(a.hour) && Field('_', b.hour)[1..] == Pad2(b.hour);
    ConcatCancel(Pad4(a.year) + Pad2(a.month), Pad2(a.day), Pad4(b.year) + Pad2(b.month), Pad2(b.day));
    ConcatCancel(Pad4(a.year), Pad2(a.month), Pad4(b.year), Pad2(b.month));
  }
}
