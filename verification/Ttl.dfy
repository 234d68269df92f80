/**
 Token lifetimes: the parser that adds a day unit by rewriting "Nd" into "(N*24)h" before it
 hands the text to the library's duration parser, which is a parameter here.
 */
module Ttl {
  import opened Options
  import opened TextOrder
  import opened Timestamps

  const MIN_TTL: int := 60 * 1_000_000_000
  const MAX_TTL: int := 365 * 24 * 3_600 * 1_000_000_000
  const MAX_INT: int := 0x7FFF_FFFF_FFFF_FFFF
  const TWO_64: int := 0x1_0000_0000_0000_0000

  datatype Reason = Empty | DaysOutOfRange | BadSyntax | TooShort | TooLong
  datatype Parsed = Valid(ttl: int) | Invalid(why: Reason)

  // ---------------------------------------------------------------- numerals

  function Numeral(n: nat): (s: string)
    ensures s != "" && Digits(s)
  {
    if n < 10 then [Digit(n)] else Numeral(n / 10) + [Digit(n % 10)]
  }

  lemma {:induction false} NumeralValue(n: nat)
    ensures NumberIn(Numeral(n)) == n
  {
    var s := Numeral(n);
    if n < 10 {
      assert s[..0] == "" && s == [Digit(n)];
    } else {
      NumeralValue(n / 10);
      assert s[..|s| - 1] == Numeral(n / 10);
    }
  }

  /** Printing a machine integer, as `%d` does. */
  function Printed(n: int): string {
    if n < 0 then "-" + Numeral(-n) else Numeral(n)
  }

  /** 64-bit multiplication wraps around. */
  function Wrap(n: int): (w: int)
    ensures -MAX_INT - 1 <= w <= MAX_INT
    ensures w == n <==> -MAX_INT - 1 <= n <= MAX_INT
  {
    (n + MAX_INT + 1) % TWO_64 - MAX_INT - 1
  }

  // ---------------------------------------------------------------- the rewrite

  /** Length of the run of digits `s` starts with. */
  function DigitRun(s: string): (j: nat)
    ensures j <= |s| && Digits(s[..j])
    ensures j < |s| ==> !IsDigit(s[j])
    ensures s != "" && IsDigit(s[0]) ==> j > 0
  {
    if s == "" || !IsDigit(s[0]) then 0 else 1 + DigitRun(s[1..])
  }

  /** The text with every digit run that a 'd' follows turned into hours; no result for a run too big to read. */
  function Rewrite(s: string): Option<string>
    decreases |s|
  {
    if s == "" then Some("")
    else if !IsDigit(s[0]) then Prepend([s[0]], Rewrite(s[1..]))
    else
      var j := DigitRun(s);
      if j < |s| && s[j] == 'd' then
        if NumberIn(s[..j]) > MAX_INT then None
        else Prepend(Printed(Wrap(NumberIn(s[..j]) * 24)) + "h", Rewrite(s[j + 1..]))
      else Prepend(s[..j], Rewrite(s[j..]))
  }

  function Prepend(p: string, rest: Option<string>): Option<string> {
    if rest.Some? then Some(p + rest.value) else None
  }

  predicate IsSpace(c: char) {
    c == ' ' || '\t' <= c <= '\r' || c == '\U{85}' || c == '\U{A0}'
  }

  function TrimSpace(s: string): (r: string)
    ensures |r| <= |s|
    ensures s != "" && !IsSpace(s[0]) && !IsSpace(s[|s| - 1]) ==> r == s
  {
    if s == "" then s
    else if IsSpace(s[0]) then TrimSpace(s[1..])
    else if IsSpace(s[|s| - 1]) then TrimSpace(s[..|s| - 1])
    else s
  }

  function Bounded(d: int): Parsed {
    if d < MIN_TTL then Invalid(TooShort) else if d > MAX_TTL then Invalid(TooLong) else Valid(d)
  }

  /** What the parser answers, given the library's parser. */
  function Flexible(s: string, parse: string -> Option<int>): Parsed {
    var trimmed := TrimSpace(s);
    if trimmed == "" then Invalid(Empty)
    else
      match Rewrite(trimmed)
      case None => Invalid(DaysOutOfRange)
      case Some(text) => if parse(text).None? then Invalid(BadSyntax) else Bounded(parse(text).value)
  }

  lemma PrependTwice(p: string, q: string, rest: Option<string>)
    ensures Prepend(p, Prepend(q, rest)) == Prepend(p + q, rest)
  {
    if rest.Some? {
      assert p + (q + rest.value) == p + q + rest.value;
    }
  }

  lemma PrependNothing(rest: Option<string>)
    ensures Prepend("", rest) == rest
  {
    if rest.Some? {
      assert "" + rest.value == rest.value;
    }
  }

  /** The rewrite of what is left at `i`, when a digit run that ends at `j` stands there. */
  lemma RunAt(t: string, i: nat, j: nat)
    requires i < j <= |t| && IsDigit(t[i]) && j == i + DigitRun(t[i..])
    ensures Digits(t[i..j])
    ensures j < |t| && t[j] == 'd' ==>
              Rewrite(t[i..]) == if NumberIn(t[i..j]) > MAX_INT then None
                                 else Prepend(Printed(Wrap(NumberIn(t[i..j]) * 24)) + "h", Rewrite(t[j + 1..]))
    ensures !(j < |t| && t[j] == 'd') ==> Rewrite(t[i..]) == Prepend(t[i..j], Rewrite(t[j..]))
  {
    hide Wrap, Printed, NumberIn, DigitRun;
    assert t[i..][..j - i] == t[i..j] && t[i..][j - i..] == t[j..];
    if j < |t| {
      assert t[i..][j - i + 1..] == t[j + 1..];
    }
  }

  lemma OtherAt(t: string, i: nat)
    requires i < |t| && !IsDigit(t[i])
    ensures Rewrite(t[i..]) == Prepend([t[i]], Rewrite(t[i + 1..]))
  {
    assert t[i..][1..] == t[i + 1..];
  }

  /** The inner scan: to the end of the digits that start at `i`. */
  method ScanDigits(t: string, i: nat) returns (j: nat)
    requires i < |t| && IsDigit(t[i])
    ensures i < j <= |t| && j == i + DigitRun(t[i..])
  {
    j := i;
    while j < |t| && IsDigit(t[j])
      invariant i <= j <= |t| && i + DigitRun(t[i..]) == j + DigitRun(t[j..])
    {
      assert t[j..][1..] == t[j + 1..];
      j := j + 1;
    }
  }

  /** The scan with its two indices and its growing output. */
  method ParseFlexibleDuration(s: string, parse: string -> Option<int>) returns (r: Parsed)
    ensures r == Flexible(s, parse)
  {
    var t := TrimSpace(s);
    if t == "" {
      return Invalid(Empty);
    }
    var text := RewriteDays(t);
    if text.None? {
      return Invalid(DaysOutOfRange);
    }
    var d := parse(text.value);
    if d.None? {
      return Invalid(BadSyntax);
    }
    if d.value < MIN_TTL {
      return Invalid(TooShort);
    }
    if d.value > MAX_TTL {
      return Invalid(TooLong);
    }
    r := Valid(d.value);
  }

  /** The rewriting loop of the parser. */
  method RewriteDays(t: string) returns (r: Option<string>)
    ensures r == Rewrite(t)
  {
    hide Rewrite, Wrap, Printed, NumberIn, DigitRun;
    var out, i := "", 0;
    PrependNothing(Rewrite(t));
    assert t[0..] == t;
    while i < |t|
      invariant 0 <= i <= |t|
      invariant Rewrite(t) == Prepend(out, Rewrite(t[i..]))
    {
      if IsDigit(t[i]) {
        var j := ScanDigits(t, i);
        RunAt(t, i, j);
        if j < |t| && t[j] == 'd' {
          if NumberIn(t[i..j]) > MAX_INT {
            return None;
          }
          var hours := Printed(Wrap(NumberIn(t[i..j]) * 24)) + "h";
          PrependTwice(out, hours, Rewrite(t[j + 1..]));
          out, i := out + hours, j + 1;
          continue;
        }
        PrependTwice(out, t[i..j], Rewrite(t[j..]));
        out, i := out + t[i..j], j;
        continue;
      }
      OtherAt(t, i);
      PrependTwice(out, [t[i]], Rewrite(t[i + 1..]));
      out, i := out + [t[i]], i + 1;
    }
    RewriteNothing();
    assert t[i..] == "" && out + "" == out;
    r := Some(out);
  }

  lemma RewriteNothing()
    ensures Rewrite("") == Some("")
  {
  }

  /** The configured lifetime of child tokens; a day when none is set or it does not parse. */
  method DefaultChildTTL(configured: string, parse: string -> Option<int>) returns (ttl: int)
    ensures 60_000_000_000 <= ttl <= 31_536_000_000_000_000
    ensures ttl == if Flexible(configured, parse).Valid? then Flexible(configured, parse).ttl else 86_400_000_000_000
  {
    if configured == "" {
      return 24 * HOUR;
    }
    var d := ParseFlexibleDuration(configured, parse);
    AcceptedInRange(configured, parse);
    ttl := if d.Valid? then d.ttl else 24 * HOUR;
  }

  /** Whatever the library's parser makes of the text, an accepted lifetime is within a minute and a year. */
  lemma AcceptedInRange(s: string, parse: string -> Option<int>)
    ensures Flexible(s, parse).Valid? ==> 60_000_000_000 <= Flexible(s, parse).ttl <= 31_536_000_000_000_000
  {
  }

  // ---------------------------------------------------------------- what the rewrite touches

  /** Somewhere a digit is followed by a 'd'. */
  ghost predicate HasDayTerm(s: string) {
    exists i :: DayTermAt(s, i)
  }

  function CountD(s: string): nat {
    if s == "" then 0 else (if s[0] == 'd' then 1 else 0) + CountD(s[1..])
  }

  lemma {:induction false} CountDConcat(p: string, q: string)
    ensures CountD(p + q) == CountD(p) + CountD(q)
  {
    if p == "" {
      assert p + q == q;
    } else {
      assert (p + q)[1..] == p[1..] + q;
      CountDConcat(p[1..], q);
    }
  }

  lemma {:induction false} NoDInDigits(s: string)
    requires Digits(s)
    ensures CountD(s) == 0
  {
    if s != "" {
      NoDInDigits(s[1..]);
    }
  }

  lemma NoDInHours(n: int)
    ensures CountD(Printed(n) + "h") == 0
  {
    var digits := Numeral(if n < 0 then -n else n);
    NoDInDigits(digits);
    CountDConcat(Printed(n), "h");
    if n < 0 {
      CountDConcat("-", digits);
    }
  }

  predicate DayTermAt(s: string, i: int) {
    0 <= i < |s| - 1 && IsDigit(s[i]) && s[i + 1] == 'd'
  }

  /** A run of digits and what follows it: a day term at the seam, or one further on. */
  lemma DayTermAfterRun(s: string)
    requires s != "" && IsDigit(s[0])
    ensures var j := DigitRun(s);
            HasDayTerm(s) <==> j < |s| && (s[j] == 'd' || HasDayTerm(s[j..]))
  {
    hide DigitRun;
    var j := DigitRun(s);
    var run, rest := s[..j], s[j..];
    assert s == run + rest;
    forall m | 0 <= m < j ensures IsDigit(s[m]) {
      assert s[m] == run[m];
    }
    if HasDayTerm(s) {
      var i :| DayTermAt(s, i);
      if i >= j {
        assert DayTermAt(rest, i - j);
      }
    }
    if j < |s| && s[j] == 'd' {
      assert IsDigit(run[j - 1]) && DayTermAt(s, j - 1);
    }
    if j < |s| && HasDayTerm(rest) {
      var i :| DayTermAt(rest, i);
      assert DayTermAt(s, j + i);
    }
  }

  lemma DayTermAfterOther(s: string)
    requires s != "" && !IsDigit(s[0])
    ensures HasDayTerm(s) <==> HasDayTerm(s[1..])
  {
    if HasDayTerm(s) {
      var i :| DayTermAt(s, i);
      assert DayTermAt(s[1..], i - 1);
    }
    if HasDayTerm(s[1..]) {
      var i :| DayTermAt(s[1..], i);
      assert DayTermAt(s, i + 1);
    }
  }

  /** Every day term loses its 'd' and nothing else does; text without one comes back as it was. */
  lemma {:induction false} RewriteCounts(s: string)
    ensures !HasDayTerm(s) ==> Rewrite(s) == Some(s)
    ensures Rewrite(s).Some? && HasDayTerm(s) ==> CountD(Rewrite(s).value) < CountD(s)
    ensures Rewrite(s).Some? ==> CountD(Rewrite(s).value) <= CountD(s)
    decreases |s|
  {
    if s == "" {
    } else if !IsDigit(s[0]) {
      RewriteCounts(s[1..]);
      DayTermAfterOther(s);
      assert s == [s[0]] + s[1..];
      if Rewrite(s).Some? {
        CountDConcat([s[0]], Rewrite(s[1..]).value);
        CountDConcat([s[0]], s[1..]);
      }
    } else {
      var j := DigitRun(s);
      DayTermAfterRun(s);
      NoDInDigits(s[..j]);
      assert s == s[..j] + s[j..];
      CountDConcat(s[..j], s[j..]);
      if j < |s| && s[j] == 'd' {
        RewriteCounts(s[j + 1..]);
        assert s[j..][1..] == s[j + 1..];
        if Rewrite(s).Some? {
          var hours := Printed(Wrap(NumberIn(s[..j]) * 24)) + "h";
          NoDInHours(Wrap(NumberIn(s[..j]) * 24));
          CountDConcat(hours, Rewrite(s[j + 1..]).value);
        }
      } else {
        RewriteCounts(s[j..]);
        if Rewrite(s).Some? {
          CountDConcat(s[..j], Rewrite(s[j..]).value);
        }
      }
    }
  }

  /** The rewrite leaves a text alone exactly when no digit in it is followed by a 'd'. */
  lemma RewriteTouchesDaysOnly(s: string)
    ensures Rewrite(s) == Some(s) <==> !HasDayTerm(s)
  {
    RewriteCounts(s);
  }

  // ---------------------------------------------------------------- what the rewrite means

  datatype Unit = D | H | M | S | Ms | Us | Ns

  datatype Term = Term(digits: string, unit: Unit)

  function UnitText(u: Unit): (s: string)
    ensures s != "" && !IsDigit(s[0]) && !IsSpace(s[|s| - 1])
    ensures u != D ==> CountD(s) == 0
    ensures forall i :: 0 <= i < |s| ==> !IsDigit(s[i])
  {
    match u
    case D => "d"
    case H => "h"
    case M => "m"
    case S => "s"
    case Ms => "ms"
    case Us => "us"
    case Ns => "ns"
  }

  function UnitSpan(u: Unit): nat {
    match u
    case D => 24 * HOUR
    case H => HOUR
    case M => MINUTE
    case S => SECOND
    case Ms => 1_000_000
    case Us => 1_000
    case Ns => 1
  }

  predicate WellFormed(t: Term) {
    t.digits != "" && Digits(t.digits)
  }

  predicate Terms(ts: seq<Term>) {
    forall i :: 0 <= i < |ts| ==> WellFormed(ts[i])
  }

  function Text(ts: seq<Term>): string {
    if ts == [] then "" else ts[0].digits + (UnitText(ts[0].unit) + Text(ts[1..]))
  }

  /** The sum of the terms, a day counting 24 hours. */
  function Meaning(ts: seq<Term>): (sum: int)
    requires Terms(ts)
    ensures sum >= 0
  {
    if ts == [] then 0 else NumberIn(ts[0].digits) * UnitSpan(ts[0].unit) + Meaning(ts[1..])
  }

  predicate DayFree(ts: seq<Term>) {
    forall i :: 0 <= i < |ts| ==> ts[i].unit != D
  }

  /**
   What is asked of the library's parser. On day-free terms it answers their sum, behind a sign
   its negative, and it fails beyond 64 bits. A sign after a term belongs to no unit it knows.
   */
  ghost predicate SumsTerms(parse: string -> Option<int>) {
    forall ts: seq<Term> :: ts != [] && Terms(ts) && DayFree(ts) ==>
      && parse(Text(ts)) == (if Meaning(ts) <= MAX_INT then Some(Meaning(ts)) else None)
      && parse("-" + Text(ts)) == (if Meaning(ts) <= MAX_INT + 1 then Some(-Meaning(ts)) else None)
      && forall rest :: parse(Text(ts) + ("-" + rest)) == None && parse("-" + (Text(ts) + ("-" + rest))) == None
  }

  // ---------------------------------------------------------------- machine hours

  /** The day counts the code can read: those of a machine integer. */
  predicate Readable(ts: seq<Term>)
    requires Terms(ts)
  {
    forall i :: 0 <= i < |ts| && ts[i].unit == D ==> NumberIn(ts[i].digits) <= 9_223_372_036_854_775_807
  }

  /** The day counts times 24 fit a machine integer. */
  predicate DaysFit(ts: seq<Term>)
    requires Terms(ts)
  {
    forall i :: 0 <= i < |ts| && ts[i].unit == D ==> NumberIn(ts[i].digits) * 24 <= 9_223_372_036_854_775_807
  }

  /** The machine's product of a day count and 24 is negative. */
  predicate Negative(t: Term)
    requires WellFormed(t)
  {
    t.unit == D && Wrap(NumberIn(t.digits) * 24) < 0
  }

  predicate NoneNegative(ts: seq<Term>)
    requires Terms(ts)
  {
    forall i :: 0 <= i < |ts| ==> !Negative(ts[i])
  }

  /** A day count as the machine's number of hours, without its sign. */
  function InHours(t: Term): (r: Term)
    requires WellFormed(t)
    ensures WellFormed(r) && r.unit != D
  {
    if t.unit == D then var w := Wrap(NumberIn(t.digits) * 24); Term(Numeral(if w < 0 then -w else w), H) else t
  }

  function AllInHours(ts: seq<Term>): (r: seq<Term>)
    requires Terms(ts)
    ensures |r| == |ts| && Terms(r) && DayFree(r)
  {
    if ts == [] then [] else [InHours(ts[0])] + AllInHours(ts[1..])
  }

  /** What the library's parser is handed: machine hours, signs included. */
  function MachineText(ts: seq<Term>): string
    requires Terms(ts)
  {
    if ts == [] then ""
    else
      var h := InHours(ts[0]);
      (if Negative(ts[0]) then "-" else "") + (h.digits + (UnitText(h.unit) + MachineText(ts[1..])))
  }

  /** The machine's product times an hour, against the day count times a day. */
  lemma HoursInDays(v: nat, w: int)
    requires w == Wrap(v * 24) && w >= 0
    ensures w * HOUR <= v * (24 * HOUR)
    ensures w * HOUR == v * (24 * HOUR) <==> v * 24 <= MAX_INT
  {
    WrapIsLess(v * 24);
    hide Wrap;
    assert v * (24 * HOUR) == v * 24 * HOUR;
  }

  lemma HoursDigits(t: Term)
    requires WellFormed(t) && t.unit == D && !Negative(t)
    ensures InHours(t).unit == H && NumberIn(InHours(t).digits) == Wrap(NumberIn(t.digits) * 24) >= 0
  {
    var w := Wrap(NumberIn(t.digits) * 24);
    hide Wrap, NumberIn, Numeral;
    NumeralValue(w);
  }

  lemma HoursValue(t: Term)
    requires WellFormed(t) && !Negative(t)
    ensures NumberIn(InHours(t).digits) * UnitSpan(InHours(t).unit) <= NumberIn(t.digits) * UnitSpan(t.unit)
    ensures NumberIn(InHours(t).digits) * UnitSpan(InHours(t).unit) == NumberIn(t.digits) * UnitSpan(t.unit)
            <==> (t.unit == D ==> NumberIn(t.digits) * 24 <= MAX_INT)
  {
    if t.unit == D {
      HoursDigits(t);
      hide Wrap, NumberIn, Numeral, InHours;
      HoursInDays(NumberIn(t.digits), NumberIn(InHours(t).digits));
    }
  }

  lemma WrapIsLess(n: nat)
    ensures n > MAX_INT ==> Wrap(n) < n
  {
  }

  /** The machine's hours sum to the meaning of the text exactly when the day counts fit, else to less. */
  lemma {:induction false} HoursMeanTheSame(ts: seq<Term>)
    requires Terms(ts) && NoneNegative(ts)
    ensures Meaning(AllInHours(ts)) <= Meaning(ts)
    ensures Meaning(AllInHours(ts)) == Meaning(ts) <==> DaysFit(ts)
  {
    hide InHours, NumberIn, UnitSpan;
    if ts != [] {
      var rest := ts[1..];
      HoursMeanTheSame(rest);
      HoursValue(ts[0]);
      var r := AllInHours(ts);
      assert r[0] == InHours(ts[0]) && r[1..] == AllInHours(rest);
      assert DaysFit(ts) <==> (ts[0].unit == D ==> NumberIn(ts[0].digits) * 24 <= MAX_INT) && DaysFit(rest) by {
        assert forall i :: 0 < i < |ts| ==> ts[i] == rest[i - 1];
      }
    }
  }

  lemma FittingDays(ts: seq<Term>)
    requires Terms(ts) && DaysFit(ts)
    ensures Readable(ts) && NoneNegative(ts)
  {
    hide NumberIn;
  }

  lemma {:induction false} RunOf(digits: string, rest: string)
    requires Digits(digits) && rest != "" && !IsDigit(rest[0])
    ensures DigitRun(digits + rest) == |digits|
  {
    if digits == "" {
      assert digits + rest == rest;
    } else {
      assert (digits + rest)[1..] == digits[1..] + rest;
      RunOf(digits[1..], rest);
    }
  }

  /** Letters pass through one by one. */
  lemma {:induction false} LettersPass(letters: string, rest: string)
    requires forall i :: 0 <= i < |letters| ==> !IsDigit(letters[i])
    ensures Rewrite(letters + rest) == Prepend(letters, Rewrite(rest))
  {
    if letters == "" {
      assert letters + rest == rest;
      PrependNothing(Rewrite(rest));
    } else {
      assert (letters + rest)[1..] == letters[1..] + rest;
      LettersPass(letters[1..], rest);
      PrependTwice([letters[0]], letters[1..], Rewrite(rest));
      assert [letters[0]] + letters[1..] == letters;
    }
  }

  /** One term: its digits and unit, or its hours, followed by the rewritten rest. */
  lemma TermRewritten(t: Term, rest: string)
    requires WellFormed(t)
    ensures Rewrite(t.digits + (UnitText(t.unit) + rest)) ==
              if t.unit != D then Prepend(t.digits + UnitText(t.unit), Rewrite(rest))
              else if NumberIn(t.digits) > MAX_INT then None
              else Prepend(Printed(Wrap(NumberIn(t.digits) * 24)) + "h", Rewrite(rest))
  {
    var u := UnitText(t.unit);
    var s := t.digits + (u + rest);
    RunOf(t.digits, u + rest);
    var j := |t.digits|;
    assert s[..j] == t.digits && s[j..] == u + rest && s[j] == u[0];
    if t.unit == D {
      assert s[j + 1..] == rest;
    } else {
      assert u[0] != 'd';
      LettersPass(u, rest);
      PrependTwice(t.digits, u, Rewrite(rest));
    }
  }

  /** The rewrite of any list of terms: no result if a day count cannot be read, else its machine hours. */
  lemma {:induction false} RewriteInHours(ts: seq<Term>)
    requires Terms(ts)
    ensures Rewrite(Text(ts)) == if Readable(ts) then Some(MachineText(ts)) else None
  {
    if ts == [] {
      RewriteNothing();
    } else {
      var rest := ts[1..];
      RewriteInHours(rest);
      TermRewritten(ts[0], Text(rest));
      hide Rewrite, NumberIn, Wrap, Numeral, UnitText;
      var h := InHours(ts[0]);
      assert Readable(ts) <==> (ts[0].unit == D ==> NumberIn(ts[0].digits) <= MAX_INT) && Readable(rest) by {
        assert forall i :: 0 < i < |ts| ==> ts[i] == rest[i - 1];
      }
      HoursPrinted(ts[0], MachineText(rest));
    }
  }

  lemma Regroup(p: string, q: string, r: string)
    ensures p + q + r == p + (q + r) && "" + p == p
  {
  }

  lemma HoursPrinted(t: Term, rest: string)
    requires WellFormed(t)
    ensures var h := InHours(t);
            var printed := if t.unit == D then Printed(Wrap(NumberIn(t.digits) * 24)) + "h"
                           else t.digits + UnitText(t.unit);
            printed + rest == (if Negative(t) then "-" else "") + (h.digits + (UnitText(h.unit) + rest))
  {
    var h := InHours(t);
    hide Wrap, NumberIn, Numeral;
    var u := UnitText(h.unit);
    Regroup(h.digits, u, rest);
    Regroup(h.digits + (u + rest), "", "");
    if Negative(t) {
      hide InHours, Negative;
      assert "-" + h.digits + u + rest == "-" + (h.digits + (u + rest)) by {
        Regroup("-", h.digits, u + rest);
        Regroup("-" + h.digits, u, rest);
      }
    }
  }

  function Sign(t: Term): string
    requires WellFormed(t)
  {
    if Negative(t) then "-" else ""
  }

  /**
   Without a negative count behind the first term, the machine text is a list of terms behind the
   first one's sign.
   */
  lemma {:induction false} OneSign(ts: seq<Term>)
    requires Terms(ts) && ts != [] && NoneNegative(ts[1..])
    ensures MachineText(ts) == Sign(ts[0]) + Text(AllInHours(ts))
  {
    hide InHours, Negative, UnitText;
    var rest := ts[1..];
    if rest != [] {
      assert !Negative(rest[0]) && forall i :: 0 <= i < |rest| - 1 ==> rest[1..][i] == rest[i + 1];
      OneSign(rest);
      assert "" + Text(AllInHours(rest)) == Text(AllInHours(rest));
    }
    var r := AllInHours(ts);
    assert r[0] == InHours(ts[0]) && r[1..] == AllInHours(rest);
  }

  lemma TermBefore(t: Term, us: seq<Term>, tail: string)
    ensures Text([t] + us) + tail == t.digits + (UnitText(t.unit) + (Text(us) + tail))
  {
    hide UnitText;
    assert ([t] + us)[1..] == us;
  }

  /** A negative count behind the first term leaves a sign behind terms. */
  lemma {:induction false} InnerSign(ts: seq<Term>) returns (us: seq<Term>, rest: string)
    requires Terms(ts) && ts != [] && !NoneNegative(ts[1..])
    ensures us != [] && Terms(us) && DayFree(us)
    ensures MachineText(ts) == Sign(ts[0]) + (Text(us) + ("-" + rest))
  {
    hide InHours, Negative, UnitText;
    var h, more := InHours(ts[0]), ts[1..];
    if Negative(more[0]) {
      var m := InHours(more[0]);
      us, rest := [h], m.digits + (UnitText(m.unit) + MachineText(more[1..]));
      TermBefore(h, [], "-" + rest);
      assert [h] + [] == us && Text([]) + ("-" + rest) == "-" + rest;
    } else {
      assert !NoneNegative(more[1..]) by {
        assert forall i :: 0 < i < |more| ==> more[i] == more[1..][i - 1];
      }
      var us', rest' := InnerSign(more);
      us, rest := [h] + us', rest';
      TermBefore(h, us', "-" + rest);
      assert "" + (Text(us') + ("-" + rest)) == Text(us') + ("-" + rest);
    }
  }

  // ---------------------------------------------------------------- what is accepted

  /** What the library makes of the machine text: fails at a sign behind a term, negates behind one in front. */
  function Handed(ts: seq<Term>): Option<int>
    requires Terms(ts) && ts != []
  {
    var sum := Meaning(AllInHours(ts));
    if !NoneNegative(ts[1..]) then None
    else if Negative(ts[0]) then (if sum <= MAX_INT + 1 then Some(-sum) else None)
    else if sum <= MAX_INT then Some(sum)
    else None
  }

  lemma MachineTextParsed(ts: seq<Term>, parse: string -> Option<int>)
    requires SumsTerms(parse) && ts != [] && Terms(ts)
    ensures parse(MachineText(ts)) == Handed(ts)
  {
    hide MachineText, Negative, InHours, Text, NoneNegative;
    var hours := AllInHours(ts);
    assert Terms(hours) && DayFree(hours) && hours != [];
    if NoneNegative(ts[1..]) {
      OneSign(ts);
      Regroup(Text(hours), "", "");
    } else {
      var us, rest := InnerSign(ts);
      Regroup(Text(us) + ("-" + rest), "", "");
    }
  }

  /** What the code answers for a list of integer terms. */
  function Answer(ts: seq<Term>): Parsed
    requires Terms(ts) && ts != []
  {
    if !Readable(ts) then Invalid(DaysOutOfRange)
    else
      match Handed(ts)
      case None => Invalid(BadSyntax)
      case Some(d) => Bounded(d)
  }

  /** The answer to every text of integer terms. */
  lemma AnswerToTerms(s: string, ts: seq<Term>, parse: string -> Option<int>)
    requires SumsTerms(parse) && ts != [] && Terms(ts) && TrimSpace(s) == Text(ts)
    ensures Flexible(s, parse) == Answer(ts)
  {
    RewriteInHours(ts);
    hide Rewrite, MachineText, Text, SumsTerms, Handed, TrimSpace;
    TextEnds(ts);
    MachineTextParsed(ts, parse);
  }

  /** The sum, in nanoseconds, lies between a minute and 365 days. */
  predicate InRange(sum: int) {
    60_000_000_000 <= sum <= 31_536_000_000_000_000
  }

  /**
   A text of integer terms is accepted exactly when every day count can be read, none has a
   negative product, and the sum of the machine's hours is in range; that sum is the answer. The
   reason for a refusal is the first that applies.
   */
  lemma AcceptedExactly(s: string, ts: seq<Term>, parse: string -> Option<int>)
    requires SumsTerms(parse) && ts != [] && Terms(ts) && TrimSpace(s) == Text(ts)
    ensures Flexible(s, parse).Valid? <==> Readable(ts) && NoneNegative(ts) && InRange(Meaning(AllInHours(ts)))
    ensures Flexible(s, parse).Valid? ==> Flexible(s, parse).ttl == Meaning(AllInHours(ts))
    ensures Flexible(s, parse) == Invalid(DaysOutOfRange) <==> !Readable(ts)
    ensures Readable(ts) && !NoneNegative(ts) ==> Flexible(s, parse) in {Invalid(TooShort), Invalid(BadSyntax)}
    ensures Readable(ts) && NoneNegative(ts) ==>
              var sum := Meaning(AllInHours(ts));
              && (Flexible(s, parse) == Invalid(TooShort) <==> sum < 60_000_000_000)
              && (Flexible(s, parse) == Invalid(TooLong) <==>
                    31_536_000_000_000_000 < sum <= 9_223_372_036_854_775_807)
              && (Flexible(s, parse) == Invalid(BadSyntax) <==> sum > 9_223_372_036_854_775_807)
  {
    hide Negative, InHours, Flexible, Meaning;
    AnswerToTerms(s, ts, parse);
    assert NoneNegative(ts) <==> !Negative(ts[0]) && NoneNegative(ts[1..]) by {
      assert forall i :: 0 < i < |ts| ==> ts[i] == ts[1..][i - 1];
    }
  }

  /**
   A text of integer terms whose day counts fit is accepted exactly when its sum, with a day as
   24 hours, is between a minute and a year, and then the answer is that sum.
   */
  lemma DaysKeepTheirMeaning(s: string, ts: seq<Term>, parse: string -> Option<int>)
    requires SumsTerms(parse) && ts != [] && Terms(ts) && DaysFit(ts) && TrimSpace(s) == Text(ts)
    ensures Flexible(s, parse).Valid? <==> InRange(Meaning(ts))
    ensures Flexible(s, parse).Valid? ==> Flexible(s, parse).ttl == Meaning(ts)
  {
    hide Flexible, Meaning;
    AcceptedExactly(s, ts, parse);
    FittingDays(ts);
    HoursMeanTheSame(ts);
  }

  /** A list with a day count that does not fit means more than a year. */
  lemma {:induction false} UnfitIsTooLong(ts: seq<Term>)
    requires Terms(ts) && !DaysFit(ts)
    ensures Meaning(ts) > MAX_TTL
  {
    hide NumberIn;
    if NumberIn(ts[0].digits) * 24 <= MAX_INT || ts[0].unit != D {
      assert !DaysFit(ts[1..]) by {
        assert forall i :: 0 < i < |ts| ==> ts[i] == ts[1..][i - 1];
      }
      UnfitIsTooLong(ts[1..]);
    }
  }

  /**
   The code answers every text of integer terms as it should, accepting the sums in range and
   no others, unless a day count does not fit although all can be read, none has a negative
   product, and the machine's hours happen to sum to something in range: then it accepts them.
   */
  lemma MeaningKeptExactly(s: string, ts: seq<Term>, parse: string -> Option<int>)
    requires SumsTerms(parse) && ts != [] && Terms(ts) && TrimSpace(s) == Text(ts)
    ensures (if InRange(Meaning(ts)) then Flexible(s, parse) == Valid(Meaning(ts)) else Flexible(s, parse).Invalid?)
            <==> DaysFit(ts) || !(Readable(ts) && NoneNegative(ts) && InRange(Meaning(AllInHours(ts))))
  {
    hide Flexible, Meaning;
    AcceptedExactly(s, ts, parse);
    if DaysFit(ts) {
      DaysKeepTheirMeaning(s, ts, parse);
    } else {
      UnfitIsTooLong(ts);
    }
  }

  // ---------------------------------------------------------------- spaces

  predicate Spaces(s: string) {
    forall i :: 0 <= i < |s| ==> IsSpace(s[i])
  }

  /** Trimming takes the spaces at both ends and nothing else. */
  lemma {:induction false} TrimPadded(before: string, s: string, after: string)
    requires Spaces(before) && Spaces(after)
    requires s != "" ==> !IsSpace(s[0]) && !IsSpace(s[|s| - 1])
    ensures TrimSpace(before + s + after) == s
    decreases |before| + |after|
  {
    var t := before + s + after;
    if before != "" {
      assert t[1..] == before[1..] + s + after;
      TrimPadded(before[1..], s, after);
    } else if s == "" && after != "" {
      assert t[1..] == "" + s + after[1..];
      TrimPadded("", s, after[1..]);
    } else if after != "" {
      assert t[..|t| - 1] == before + s + after[..|after| - 1];
      TrimPadded(before, s, after[..|after| - 1]);
    } else {
      assert t == s;
    }
  }

  /** Spaces, tabs and line ends around a text of terms change no answer. */
  lemma AnswerBetweenSpaces(before: string, ts: seq<Term>, after: string, parse: string -> Option<int>)
    requires SumsTerms(parse) && ts != [] && Terms(ts)
    requires forall c :: c in before + after ==> c == ' ' || c == '\t' || c == '\n' || c == '\r'
    ensures Flexible(before + Text(ts) + after, parse) == Answer(ts)
  {
    forall i | 0 <= i < |before| ensures IsSpace(before[i]) {
      assert before[i] in before + after;
    }
    forall i | 0 <= i < |after| ensures IsSpace(after[i]) {
      assert after[i] in before + after;
    }
    hide Flexible, Answer, TrimSpace;
    TextEnds(ts);
    assert IsDigit(ts[0].digits[0]) && Text(ts)[0] == ts[0].digits[0];
    TrimPadded(before, Text(ts), after);
    AnswerToTerms(before + Text(ts) + after, ts, parse);
  }

  /** The text is found empty exactly when it has nothing but spaces. */
  lemma EmptyExactly(s: string, parse: string -> Option<int>)
    ensures Flexible(s, parse) == Invalid(Empty) <==> Spaces(s)
  {
    hide Rewrite;
    TrimmedToNothing(s);
  }

  lemma {:induction false} TrimmedToNothing(s: string)
    ensures TrimSpace(s) == "" <==> Spaces(s)
    decreases |s|
  {
    if s != "" && IsSpace(s[0]) {
      TrimmedToNothing(s[1..]);
      assert s == [s[0]] + s[1..];
    } else if s != "" && IsSpace(s[|s| - 1]) {
      TrimmedToNothing(s[..|s| - 1]);
      assert !IsSpace(s[..|s| - 1][0]);
    }
  }

  /** A text of terms has no space to trim. */
  lemma TermsNeedNoTrim(ts: seq<Term>)
    requires ts != [] && Terms(ts)
    ensures TrimSpace(Text(ts)) == Text(ts)
  {
    TextEnds(ts);
    assert IsDigit(ts[0].digits[0]) && Text(ts)[0] == ts[0].digits[0];
  }

  lemma {:induction false} TextEnds(ts: seq<Term>)
    requires ts != []
    ensures Text(ts) != "" && !IsSpace(Text(ts)[|Text(ts)| - 1])
  {
    if |ts| > 1 {
      TextEnds(ts[1..]);
    }
  }

  /** 768614336404564651 days and twelve hours are accepted as twenty hours. */
  lemma OverflowIsAccepted(n: nat, parse: string -> Option<int>)
    requires SumsTerms(parse) && n == 768614336404564651
    ensures Flexible(Numeral(n) + "d12h", parse) == Valid(20 * HOUR)
  {
    hide Flexible, Numeral, SumsTerms, NumberIn;
    var days, hours := Term(Numeral(n), D), Term("12", H);
    NumeralValue(n);
    WrapsToEight(n);
    Twelve();
    EightHours(days);
    hide Wrap, AllInHours, Meaning, Text, TrimSpace, InHours, Negative;
    TwoTerms(days, hours);
    TwoTerms(InHours(days), hours);
    var ts := [days, hours];
    assert Text(ts) == Numeral(n) + "d12h";
    TermsNeedNoTrim(ts);
    AcceptedExactly(Text(ts), ts, parse);
  }

  lemma Twelve()
    ensures NumberIn("1") == 1 && NumberIn("12") == 12 && NumberIn("8") == 8 && Numeral(8) == "8"
  {
    assert "12"[..1] == "1" && NumberIn("1") == 1;
  }

  lemma EightHours(t: Term)
    requires WellFormed(t) && t.unit == D && Wrap(NumberIn(t.digits) * 24) == 8
    ensures InHours(t) == Term(Numeral(8), H) && !Negative(t)
  {
    hide Numeral, Wrap;
  }

  lemma TwoTerms(t: Term, u: Term)
    requires WellFormed(t) && WellFormed(u)
    ensures Text([t, u]) == t.digits + (UnitText(t.unit) + (u.digits + (UnitText(u.unit) + "")))
    ensures Meaning([t, u]) == NumberIn(t.digits) * UnitSpan(t.unit) + NumberIn(u.digits) * UnitSpan(u.unit)
    ensures AllInHours([t, u]) == [InHours(t), InHours(u)]
  {
    hide InHours, UnitText, NumberIn;
    assert [t, u][1..] == [u] && [u][1..] == [];
    assert Text([]) == "" && Text([u]) == u.digits + (UnitText(u.unit) + Text([]));
    assert Meaning([]) == 0 && Meaning([u]) == NumberIn(u.digits) * UnitSpan(u.unit) + Meaning([]);
  }

  lemma WrapsToEight(n: nat)
    requires n == 768614336404564651
    ensures n * 24 == TWO_64 + 8 && Wrap(n * 24) == 8
  {
  }

  // ---------------------------------------------------------------- the documented examples

  lemma OneTerm(t: Term)
    requires WellFormed(t)
    ensures Text([t]) == t.digits + (UnitText(t.unit) + "")
    ensures Meaning([t]) == NumberIn(t.digits) * UnitSpan(t.unit)
  {
    assert [t][1..] == [] && Text([]) == "" && Meaning([]) == 0;
  }

  lemma TwoDigitNumber(s: string)
    requires |s| == 2 && Digits(s)
    ensures NumberIn(s) == 10 * (s[0] - '0') as int + (s[1] - '0') as int
  {
    assert s[..1][..0] == "" && NumberIn("") == 0;
    assert NumberIn(s[..1]) == (s[0] - '0') as int;
  }

  /** One or two terms with small numbers are answered with their sum. */
  lemma SmallTerms(ts: seq<Term>, parse: string -> Option<int>)
    requires SumsTerms(parse) && ts != [] && Terms(ts)
    requires forall i :: 0 <= i < |ts| ==> NumberIn(ts[i].digits) < 100
    requires InRange(Meaning(ts))
    ensures Flexible(Text(ts), parse) == Valid(Meaning(ts))
  {
    hide Flexible, Meaning, Text, NumberIn;
    TermsNeedNoTrim(ts);
    DaysKeepTheirMeaning(Text(ts), ts, parse);
  }

  /** "24h" is 24 hours, "30d" 720 hours, "72h30m" 72 and a half, "1d12h" 36. */
  lemma DocumentedExamples(parse: string -> Option<int>)
    requires SumsTerms(parse)
    ensures Flexible("24h", parse) == Valid(86_400_000_000_000)
    ensures Flexible("30d", parse) == Valid(2_592_000_000_000_000)
    ensures Flexible("72h30m", parse) == Valid(261_000_000_000_000)
    ensures Flexible("1d12h", parse) == Valid(129_600_000_000_000)
  {
    hide Flexible, SumsTerms;
    OneTermExample(Term("24", H), "24h", 86_400_000_000_000, parse);
    OneTermExample(Term("30", D), "30d", 2_592_000_000_000_000, parse);
    TwoDigitNumber("72");
    TwoDigitNumber("30");
    TwoTermExample(Term("72", H), Term("30", M), "72h30m", 261_000_000_000_000, parse);
    Twelve();
    TwoTermExample(Term("1", D), Term("12", H), "1d12h", 129_600_000_000_000, parse);
  }

  lemma OneTermExample(t: Term, text: string, sum: int, parse: string -> Option<int>)
    requires SumsTerms(parse) && WellFormed(t) && |t.digits| == 2 && text == t.digits + UnitText(t.unit)
    requires sum == (10 * (t.digits[0] - '0') as int + (t.digits[1] - '0') as int) * UnitSpan(t.unit) && InRange(sum)
    ensures Flexible(text, parse) == Valid(sum)
  {
    TwoDigitNumber(t.digits);
    OneTerm(t);
    hide NumberIn, Flexible, SumsTerms, Meaning, Text;
    SmallTerms([t], parse);
    Regroup(t.digits, UnitText(t.unit), "");
    Regroup(UnitText(t.unit), "", "");
    assert Text([t]) == text;
  }

  lemma TwoTermExample(t: Term, u: Term, text: string, sum: int, parse: string -> Option<int>)
    requires SumsTerms(parse) && WellFormed(t) && WellFormed(u) && NumberIn(t.digits) < 100 && NumberIn(u.digits) < 100
    requires text == t.digits + (UnitText(t.unit) + (u.digits + (UnitText(u.unit) + "")))
    requires sum == NumberIn(t.digits) * UnitSpan(t.unit) + NumberIn(u.digits) * UnitSpan(u.unit) && InRange(sum)
    ensures Flexible(text, parse) == Valid(sum)
  {
    TwoTerms(t, u);
    hide NumberIn, Flexible, SumsTerms, Meaning, Text, AllInHours;
    SmallTerms([t, u], parse);
  }

  // ---------------------------------------------------------------- a parser as asked for

  /** Length of the run of other characters `s` starts with. */
  function UnitRun(s: string): (m: nat)
    ensures m <= |s| && forall i :: 0 <= i < m ==> !IsDigit(s[i])
  {
    if s == "" || IsDigit(s[0]) then 0 else 1 + UnitRun(s[1..])
  }

  /** The units of the library, days not among them. */
  function UnitOf(s: string): Option<Unit> {
    if s == "h" then Some(H) else if s == "m" then Some(M) else if s == "s" then Some(S)
    else if s == "ms" then Some(Ms) else if s == "us" then Some(Us) else if s == "ns" then Some(Ns) else None
  }

  /** The sum of the integer terms a text consists of. */
  function SumOf(s: string): Option<int>
    decreases |s|
  {
    if s == "" then Some(0)
    else
      var j := DigitRun(s);
      var m := UnitRun(s[j..]);
      if j == 0 || UnitOf(s[j..][..m]).None? || SumOf(s[j..][m..]).None? then None
      else Some(NumberIn(s[..j]) * UnitSpan(UnitOf(s[j..][..m]).value) + SumOf(s[j..][m..]).value)
  }

  /** The library's parser on integer terms. */
  function Library(s: string): Option<int> {
    var negative := s != "" && s[0] == '-';
    var body := if negative then s[1..] else s;
    if body == "" || SumOf(body).None? then None
    else
      var sum := SumOf(body).value;
      if negative then (if sum <= MAX_INT + 1 then Some(-sum) else None)
      else if sum <= MAX_INT then Some(sum) else None
  }

  lemma {:induction false} UnitRunOf(letters: string, rest: string)
    requires forall i :: 0 <= i < |letters| ==> !IsDigit(letters[i])
    ensures UnitRun(letters + rest) == |letters| + UnitRun(rest)
  {
    if letters == "" {
      assert letters + rest == rest;
    } else {
      assert (letters + rest)[1..] == letters[1..] + rest;
      UnitRunOf(letters[1..], rest);
    }
  }

  lemma UnitKnown(u: Unit)
    ensures UnitOf(UnitText(u)) == if u == D then None else Some(u)
  {
  }

  lemma NoSignInUnits(s: string, i: nat)
    requires i < |s| && s[i] == '-'
    ensures UnitOf(s).None?
  {
  }

  lemma SumOfStep(s: string, j: nat, m: nat)
    requires 0 < j == DigitRun(s) && m == UnitRun(s[j..]) > 0
    ensures SumOf(s) == if UnitOf(s[j..][..m]).None? || SumOf(s[j..][m..]).None? then None
                        else Some(NumberIn(s[..j]) * UnitSpan(UnitOf(s[j..][..m]).value) + SumOf(s[j..][m..]).value)
  {
    hide DigitRun, UnitRun, NumberIn, UnitSpan, UnitOf;
  }

  /** A text split behind its digits and behind what follows them up to the next digit. */
  lemma SumOfSplit(digits: string, unit: string, rest: string)
    requires digits != "" && Digits(digits) && unit != "" && !IsDigit(unit[0]) && UnitRun(unit + rest) == |unit|
    ensures SumOf(digits + (unit + rest)) ==
              if UnitOf(unit).None? || SumOf(rest).None? then None
              else Some(NumberIn(digits) * UnitSpan(UnitOf(unit).value) + SumOf(rest).value)
  {
    hide NumberIn, UnitSpan, UnitOf, UnitRun, SumOf, DigitRun;
    var s := digits + (unit + rest);
    RunOf(digits, unit + rest);
    assert s[..|digits|] == digits && s[|digits|..] == unit + rest;
    assert (unit + rest)[..|unit|] == unit && (unit + rest)[|unit|..] == rest;
    SumOfStep(s, |digits|, |unit|);
  }

  /** One term in front of more terms, of nothing, or of a sign. */
  lemma SumOfTerm(t: Term, rest: string)
    requires WellFormed(t) && t.unit != D && (rest == "" || IsDigit(rest[0]) || rest[0] == '-')
    ensures SumOf(t.digits + (UnitText(t.unit) + rest)) ==
              if (rest != "" && rest[0] == '-') || SumOf(rest).None? then None
              else Some(NumberIn(t.digits) * UnitSpan(t.unit) + SumOf(rest).value)
  {
    hide NumberIn, UnitSpan, SumOf, UnitOf, UnitText;
    var u, m := UnitText(t.unit), UnitRun(rest);
    UnitRunOf(u, rest);
    UnitOfSign(rest);
    hide UnitRun;
    if rest != "" && rest[0] == '-' {
      var unit := u + rest[..m];
      assert unit + rest[m..] == u + rest;
      NoSignInUnits(unit, |u|);
      SumOfSplit(t.digits, unit, rest[m..]);
    } else {
      UnitKnown(t.unit);
      SumOfSplit(t.digits, u, rest);
    }
  }

  lemma UnitOfSign(rest: string)
    ensures rest != "" && rest[0] == '-' ==> UnitRun(rest) > 0
    ensures rest == "" || IsDigit(rest[0]) ==> UnitRun(rest) == 0
  {
  }

  lemma {:induction false} SumOfText(ts: seq<Term>, rest: string)
    requires Terms(ts) && DayFree(ts)
    ensures SumOf(Text(ts)) == Some(Meaning(ts))
    ensures ts != [] ==> SumOf(Text(ts) + ("-" + rest)) == None
    ensures ts != [] ==> Text(ts) != "" && IsDigit(Text(ts)[0])
  {
    hide SumOf;
    if ts == [] {
      SumOfNothing();
    } else {
      var t, more := ts[0], ts[1..];
      var end := "-" + rest;
      SumOfText(more, rest);
      SumOfTerm(t, Text(more));
      SumOfTerm(t, Text(more) + end);
      assert more == [] ==> Text(more) + end == end;
      TermBefore(t, more, end);
      assert [t] + more == ts && IsDigit(t.digits[0]);
    }
  }

  lemma SumOfNothing()
    ensures SumOf("") == Some(0)
  {
  }

  /** What is asked of the library's parser can be met. */
  lemma LibrarySums()
    ensures SumsTerms(Library)
  {
    hide SumOf, Text, Meaning;
    forall ts: seq<Term> | ts != [] && Terms(ts) && DayFree(ts)
      ensures Library(Text(ts)) == (if Meaning(ts) <= MAX_INT then Some(Meaning(ts)) else None)
      ensures Library("-" + Text(ts)) == (if Meaning(ts) <= MAX_INT + 1 then Some(-Meaning(ts)) else None)
      ensures forall rest :: Library(Text(ts) + ("-" + rest)) == None
                             && Library("-" + (Text(ts) + ("-" + rest))) == None
    {
      SumOfText(ts, "");
      assert ("-" + Text(ts))[1..] == Text(ts);
      forall rest
        ensures Library(Text(ts) + ("-" + rest)) == None && Library("-" + (Text(ts) + ("-" + rest))) == None
      {
        SumOfText(ts, rest);
        assert ("-" + (Text(ts) + ("-" + rest)))[1..] == Text(ts) + ("-" + rest);
      }
    }
  }
}
