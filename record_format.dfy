/** The text form of one account record, `pin,name,balance`: how a line is read
    (the directives `%d,%49[^,],%f`) and how it is written (`%d,%s,%.2f`),
    on a clean line grammar and with the balance in integer cents. */
module RecordFormat {
  import opened Accounts

  predicate IsDigit(c: char) { '0' <= c <= '9' }

  predicate AllDigits(s: string) { forall i :: 0 <= i < |s| ==> IsDigit(s[i]) }

  function DigitValue(c: char): (d: nat)
    requires IsDigit(c)
    ensures d < 10
  {
    c as int - '0' as int
  }

  function DigitChar(d: nat): (c: char)
    requires d < 10
    ensures IsDigit(c) && DigitValue(c) == d
  {
    ('0' as int + d) as char
  }

  /** Position of the first `c` in `s`, or `|s|` when there is none. */
  function IndexOf(s: string, c: char): (i: nat)
    ensures i <= |s|
    ensures i < |s| ==> s[i] == c
    ensures forall j :: 0 <= j < i ==> s[j] != c
  {
    if s == [] then 0
    else if s[0] == c then 0
    else 1 + IndexOf(s[1..], c)
  }

  /** When `prefix` holds no `c`, the first `c` is the one right after it. */
  lemma IndexOfAfter(prefix: string, c: char, suffix: string)
    requires c !in prefix
    ensures IndexOf(prefix + [c] + suffix, c) == |prefix|
  {
    var s := prefix + [c] + suffix;
    assert s[|prefix|] == c;
  }

  /** Decimal digits of `n`, most significant first, without leading zeros. */
  function NatDigits(n: nat): (s: string)
    ensures |s| >= 1 && AllDigits(s)
    decreases n
  {
    if n < 10 then [DigitChar(n)] else NatDigits(n / 10) + [DigitChar(n % 10)]
  }

  /** The number a run of decimal digits denotes (0 for the empty run). */
  function DigitsValue(s: string): nat
    requires AllDigits(s)
    decreases |s|
  {
    if s == [] then 0 else DigitsValue(s[..|s| - 1]) * 10 + DigitValue(s[|s| - 1])
  }

  lemma {:induction false} NatDigitsRoundTrip(n: nat)
    ensures DigitsValue(NatDigits(n)) == n
    decreases n
  {
    if n >= 10 {
      var s := NatDigits(n);
      assert s[..|s| - 1] == NatDigits(n / 10);
      NatDigitsRoundTrip(n / 10);
    }
  }

  lemma NoSeparatorInDigits(s: string, c: char)
    requires AllDigits(s) && !IsDigit(c)
    ensures c !in s
  {
  }

  /** `%d` output: an optional minus sign and the digits of the magnitude. */
  function FormatInt(x: int): string {
    if x < 0 then "-" + NatDigits(-x) else NatDigits(x)
  }

  /** `%d` input on a whole field: an optional sign followed by at least one digit
      and nothing else. */
  function ParseInt(s: string): Option<int> {
    var signed := |s| > 0 && (s[0] == '-' || s[0] == '+');
    var digits := if signed then s[1..] else s;
    if |digits| == 0 || !AllDigits(digits) then None
    else if signed && s[0] == '-' then Some(-(DigitsValue(digits) as int))
    else Some(DigitsValue(digits))
  }

  lemma IntRoundTrip(x: int)
    ensures ParseInt(FormatInt(x)) == Some(x)
  {
    var m := if x < 0 then -x else x;
    NatDigitsRoundTrip(m);
    var s := FormatInt(x);
    if x < 0 {
      assert s[1..] == NatDigits(m);
    } else {
      assert IsDigit(s[0]);
    }
  }

  /** `%.2f` output of a non-negative balance of `m` cents: whole units, a point and
      exactly two fraction digits. */
  function UnsignedCentsText(m: nat): string {
    NatDigits(m / 100) + "." + [DigitChar((m / 10) % 10), DigitChar(m % 10)]
  }

  /** `%.2f` output of a balance of `c` cents, with a minus sign when negative. */
  function FormatCents(c: int): string {
    if c < 0 then "-" + UnsignedCentsText(-c) else UnsignedCentsText(c)
  }

  /** Cents denoted by at most two fraction digits (`5` is 50 cents, `05` is 5). */
  function FractionCents(frac: string): nat
    requires AllDigits(frac) && |frac| <= 2
  {
    if |frac| == 0 then 0
    else if |frac| == 1 then DigitValue(frac[0]) * 10
    else DigitValue(frac[0]) * 10 + DigitValue(frac[1])
  }

  /** An unsigned balance in cents: at least one digit of whole units, and optionally
      a point with at most two fraction digits. */
  function ParseUnsignedCents(body: string): Option<nat> {
    var dot := IndexOf(body, '.');
    var whole := body[..dot];
    var frac := if dot < |body| then body[dot + 1..] else [];
    if |whole| == 0 || !AllDigits(whole) || |frac| > 2 || !AllDigits(frac) then None
    else Some(DigitsValue(whole) * 100 + FractionCents(frac))
  }

  /** `%f` input on a whole field, in cents: an optional sign and an unsigned balance. */
  function ParseCents(s: string): Option<int> {
    if |s| > 0 && (s[0] == '-' || s[0] == '+') then
      match ParseUnsignedCents(s[1..])
      case None => None
      case Some(m) => Some(if s[0] == '-' then -(m as int) else m as int)
    else
      match ParseUnsignedCents(s)
      case None => None
      case Some(m) => Some(m as int)
  }

  /** The three digits written for `m` cents, read back, give `m`. */
  lemma CentsDigits(m: nat)
    ensures m == (m / 100) * 100 + ((m / 10) % 10) * 10 + m % 10
  {
    assert m == (m / 10) * 10 + m % 10;
    assert m / 10 == (m / 10 / 10) * 10 + (m / 10) % 10;
    assert m / 10 / 10 == m / 100;
  }

  /** `%.2f` writes exactly two fraction digits after the point, and they are the
      cents of the magnitude. */
  lemma CentsTextTwoDecimals(c: int)
    ensures var t := FormatCents(c); var m := if c < 0 then -c else c;
      |t| >= 4 && t[|t| - 3] == '.' && AllDigits(t[|t| - 2..]) && DigitsValue(t[|t| - 2..]) == m % 100
  {
    var t := FormatCents(c);
    var m: nat := if c < 0 then -c else c;
    var tail := [DigitChar((m / 10) % 10), DigitChar(m % 10)];
    assert t == (if c < 0 then "-" else "") + NatDigits(m / 100) + "." + tail;
    assert t[|t| - 3] == '.';
    assert t[|t| - 2..] == tail;
    assert tail[..1][..0] == [];
    assert DigitsValue(tail[..1]) == DigitValue(tail[0]);
    assert DigitsValue(tail) == ((m / 10) % 10) * 10 + m % 10;
    CentsDigits(m);
  }

  lemma UnsignedCentsRoundTrip(m: nat)
    ensures ParseUnsignedCents(UnsignedCentsText(m)) == Some(m)
  {
    var units := NatDigits(m / 100);
    var frac := [DigitChar((m / 10) % 10), DigitChar(m % 10)];
    var body := units + "." + frac;
    assert body == UnsignedCentsText(m);
    NoSeparatorInDigits(units, '.');
    IndexOfAfter(units, '.', frac);
    assert body[..|units|] == units;
    assert body[|units| + 1..] == frac;
    NatDigitsRoundTrip(m / 100);
    CentsDigits(m);
  }

  /** A minus sign in front of the text of an unsigned balance negates it. */
  lemma ParseCentsNegative(body: string, c: int)
    requires c < 0 && ParseUnsignedCents(body) == Some(-c)
    ensures ParseCents("-" + body) == Some(c)
  {
    assert ("-" + body)[1..] == body;
  }

  /** The text of a negative balance, read back, gives the same negative cents. */
  lemma NegativeCentsRoundTrip(c: int)
    requires c < 0
    ensures ParseCents(FormatCents(c)) == Some(c)
  {
    UnsignedCentsRoundTrip(-c);
    ParseCentsNegative(UnsignedCentsText(-c), c);
  }

  /** The text of a non-negative balance starts with a digit, so it reads back unsigned. */
  lemma NonNegativeCentsRoundTrip(c: int)
    requires c >= 0
    ensures ParseCents(FormatCents(c)) == Some(c)
  {
    assert FormatCents(c)[0] == NatDigits(c / 100)[0];
    UnsignedCentsRoundTrip(c);
  }

  lemma CentsRoundTrip(c: int)
    ensures ParseCents(FormatCents(c)) == Some(c)
  {
    if c < 0 {
      NegativeCentsRoundTrip(c);
    } else {
      NonNegativeCentsRoundTrip(c);
    }
  }

  /** The `%d` and `%.2f` texts hold no line break. */
  lemma NoLineBreakInNumbers(pin: int, cents: int)
    ensures '\n' !in FormatInt(pin) && '\n' !in FormatCents(cents)
  {
    var p := if pin < 0 then -pin else pin;
    NoSeparatorInDigits(NatDigits(p), '\n');
    var m := if cents < 0 then -cents else cents;
    NoSeparatorInDigits(NatDigits(m / 100), '\n');
    assert FormatCents(cents) == (if cents < 0 then "-" else "") + NatDigits(m / 100) + "." + [DigitChar((m / 10) % 10), DigitChar(m % 10)];
  }

  /** One line of the account file, written as `%d,%s,%.2f`; a savable record
      takes up exactly one line of the file. */
  function FormatLine(a: Account): (r: string)
    ensures NameOk(a.name) ==> '\n' !in r
  {
    NoLineBreakInNumbers(a.pin, a.balance);
    FormatInt(a.pin) + "," + a.name + "," + FormatCents(a.balance)
  }

  /** One line of the account file read as `%d,%49[^,],%f`: a pin up to the first
      comma, a name of 1 to 49 characters up to the second comma, and a balance that
      takes up the rest of the line. */
  function ParseLine(line: string): (r: Option<Account>)
    ensures r.Some? ==> NameOk(r.value.name)
  {
    var p := IndexOf(line, ',');
    if p == |line| then None
    else
      var rest := line[p + 1..];
      var q := IndexOf(rest, ',');
      var name := rest[..q];
      if q == |rest| || !NameOk(name) then None
      else
        match (ParseInt(line[..p]), ParseCents(rest[q + 1..]))
        case (Some(pin), Some(cents)) => Some(Account(pin, name, cents))
        case _ => None
  }

  /** In `pin,name,balance` with no comma in the first two fields, the first comma
      ends the pin and the next one ends the name. */
  lemma SplitLine(pinText: string, name: string, balanceText: string)
    requires ',' !in pinText && ',' !in name
    ensures var line := pinText + "," + name + "," + balanceText;
      var rest := line[|pinText| + 1..];
      IndexOf(line, ',') == |pinText| && line[..|pinText|] == pinText
      && IndexOf(rest, ',') == |name| && rest[..|name|] == name
      && rest[|name| + 1..] == balanceText
  {
    var line := pinText + "," + name + "," + balanceText;
    var rest := name + "," + balanceText;
    assert line == pinText + [','] + rest;
    IndexOfAfter(pinText, ',', rest);
    assert line[..|pinText|] == pinText;
    assert line[|pinText| + 1..] == rest;
    assert rest == name + [','] + balanceText;
    IndexOfAfter(name, ',', balanceText);
    assert rest[..|name|] == name;
    assert rest[|name| + 1..] == balanceText;
  }

  /** A line made of a comma-free pin field, a savable name and a balance field reads
      as the record those fields denote. */
  lemma ParseLineFields(pinText: string, name: string, balanceText: string, pin: int, cents: int)
    requires ',' !in pinText && NameOk(name)
    requires ParseInt(pinText) == Some(pin) && ParseCents(balanceText) == Some(cents)
    ensures ParseLine(pinText + "," + name + "," + balanceText) == Some(Account(pin, name, cents))
  {
    SplitLine(pinText, name, balanceText);
  }

  /** The `%d` text of a pin holds no comma. */
  lemma NoCommaInPin(pin: int)
    ensures ',' !in FormatInt(pin)
  {
    var m := if pin < 0 then -pin else pin;
    NoSeparatorInDigits(NatDigits(m), ',');
    if pin < 0 {
      assert FormatInt(pin) == "-" + NatDigits(m);
    }
  }

  /** A written record reads back as the same pin, name and cents. */
  lemma LineRoundTrip(a: Account)
    requires NameOk(a.name)
    ensures ParseLine(FormatLine(a)) == Some(a)
  {
    NoCommaInPin(a.pin);
    IntRoundTrip(a.pin);
    CentsRoundTrip(a.balance);
    ParseLineFields(FormatInt(a.pin), a.name, FormatCents(a.balance), a.pin, a.balance);
  }
}
